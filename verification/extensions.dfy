/** The table that turns a media response's content type into the file
    extension the audio player is told to expect. */
module MediaTypes {
  import opened JsValues

  const DefaultExtension: string := "mp3"

  /** The recognised content types and their playback extensions, as a table. */
  const ExtensionTable: map<string, string> := map[
    "audio/aac" := "aac",
    "audio/mpeg" := "mp3",
    "video/mp4" := "mp4",
    "audio/ogg" := "oga",
    "audio/opus" := "opus",
    "audio/wav" := "wav",
    "audio/webm" := "weba",
    "audio/3gpp" := "3gp",
    "audio/3gpp2" := "3g2"
  ]

  /** `contentToExtension`: a switch over the content-type header, which may be
      absent (`headers.get` returns null). Every input has an answer: the table
      entry when the type is listed, `mp3` otherwise. */
  function ContentToExtension(mime: Option<string>): (ext: string)
    ensures mime.Some? && mime.value in ExtensionTable ==> ext == ExtensionTable[mime.value]
    ensures !(mime.Some? && mime.value in ExtensionTable) ==> ext == DefaultExtension
  {
    match mime
    case None => "mp3"
    case Some(m) =>
      if m == "audio/aac" then "aac"
      else if m == "audio/mpeg" then "mp3"
      else if m == "video/mp4" then "mp4"
      else if m == "audio/ogg" then "oga"
      else if m == "audio/opus" then "opus"
      else if m == "audio/wav" then "wav"
      else if m == "audio/webm" then "weba"
      else if m == "audio/3gpp" then "3gp"
      else if m == "audio/3gpp2" then "3g2"
      else "mp3"
  }

  /** Only a listed content type can yield something other than `mp3`, and
      `mp3` itself comes from `audio/mpeg` or from the default. */
  lemma NonDefaultMeansListed(mime: Option<string>)
    ensures ContentToExtension(mime) != DefaultExtension ==>
              mime.Some? && mime.value in ExtensionTable && mime.value != "audio/mpeg"
  {
  }
}
