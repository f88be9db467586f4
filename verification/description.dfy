/** Rendering of a folder description fetched from the server: the declared
    content type of the response decides how its body becomes HTML. */
module Descriptions {
  import opened JsValues

  /** `data.split(/\r?\n/)`: the text cut at every line feed, where a carriage
      return directly before a line feed belongs to the separator. Even the
      empty text has one (empty) line. */
  function SplitLines(s: string): (lines: seq<string>)
    ensures |lines| >= 1
    decreases |s|
  {
    if |s| == 0 then
      [""]
    else if s[0] == '\r' && |s| > 1 && s[1] == '\n' then
      [""] + SplitLines(s[2..])
    else if s[0] == '\n' then
      [""] + SplitLines(s[1..])
    else
      var rest := SplitLines(s[1..]);
      [[s[0]] + rest[0]] + rest[1..]
  }

  /** There is one line more than there are line feeds. */
  lemma {:induction false} SplitLinesCount(s: string)
    ensures |SplitLines(s)| == multiset(s)['\n'] + 1
    decreases |s|
  {
    if |s| == 0 {
    } else {
      FirstAndRest(s);
      if s[0] == '\r' && |s| > 1 && s[1] == '\n' {
        FirstAndRest(s[1..]);
        assert s[1..][1..] == s[2..];
        SplitLinesCount(s[2..]);
      } else {
        SplitLinesCount(s[1..]);
      }
    }
  }

  /** A text is its first character followed by the rest, also as a multiset. */
  lemma FirstAndRest(s: string)
    requires s != []
    ensures s == [s[0]] + s[1..]
    ensures multiset(s)['\n'] == multiset(s[1..])['\n'] + if s[0] == '\n' then 1 else 0
  {
    assert s == [s[0]] + s[1..];
  }

  /** No line holds a line feed. */
  lemma {:induction false} SplitLinesHaveNoLineFeed(s: string)
    ensures forall i :: 0 <= i < |SplitLines(s)| ==> '\n' !in SplitLines(s)[i]
    decreases |s|
  {
    if |s| == 0 {
    } else if s[0] == '\r' && |s| > 1 && s[1] == '\n' {
      SplitLinesHaveNoLineFeed(s[2..]);
    } else if s[0] == '\n' {
      SplitLinesHaveNoLineFeed(s[1..]);
    } else {
      SplitLinesHaveNoLineFeed(s[1..]);
      var rest := SplitLines(s[1..]);
      assert SplitLines(s) == [[s[0]] + rest[0]] + rest[1..];
    }
  }

  /** The text with every carriage-return/line-feed pair replaced by a line feed. */
  function Normalize(s: string): (normalized: string)
    decreases |s|
  {
    if |s| == 0 then ""
    else if s[0] == '\r' && |s| > 1 && s[1] == '\n' then "\n" + Normalize(s[2..])
    else [s[0]] + Normalize(s[1..])
  }

  /** Lines glued back together with line feeds. */
  function Join(lines: seq<string>): (text: string)
    requires |lines| >= 1
  {
    if |lines| == 1 then lines[0] else lines[0] + "\n" + Join(lines[1..])
  }

  function Wrap(line: string): (block: string)
  {
    "<p>" + line + "</p>"
  }

  /** One `<p>…</p>` block per line, in order. */
  function Paragraphs(lines: seq<string>): (html: string)
  {
    if lines == [] then "" else Paragraphs(lines[..|lines| - 1]) + Wrap(lines[|lines| - 1])
  }

  /** The HTML that `getDescription` produces for a response with content type
      `mime` and body text `body`; `marked` stands for the Markdown renderer.
      None is the `undefined` that an unrecognised type yields. */
  function Describe(mime: Option<string>, body: string, marked: string -> string): (html: Option<string>)
  {
    match mime
    case Some("text/html") => Some(body)
    case Some("text/x-markdown") => Some(marked(body))
    case Some("text/markdown") => Some(marked(body))
    case Some("text/plain") => Some(Paragraphs(SplitLines(body)))
    case _ => None
  }

  /** The `for … of` loop over the split lines that accumulates `para`. */
  method RenderPlain(data: string) returns (para: string)
    ensures para == Paragraphs(SplitLines(data))
  {
    var lines := SplitLines(data);
    para := "";
    for i := 0 to |lines|
      invariant para == Paragraphs(lines[..i])
    {
      assert lines[..i + 1][..i] == lines[..i];
      para := para + "<p>" + lines[i] + "</p>";
    }
    assert lines[..|lines|] == lines;
  }

  /** `getDescription` after the fetch: dispatch on the declared content type. */
  method GetDescription(mime: Option<string>, data: string, marked: string -> string)
    returns (output: Option<string>)
    ensures output == Describe(mime, data, marked)
  {
    if mime == Some("text/html") {
      output := Some(data);
    } else if mime == Some("text/x-markdown") || mime == Some("text/markdown") {
      output := Some(marked(data));
    } else if mime == Some("text/plain") {
      var para := RenderPlain(data);
      output := Some(para);
    } else {
      output := None;
    }
  }

  /** Splitting and joining with line feeds gives back the text, with each
      CR LF pair turned into a bare line feed: no character is lost or added. */
  lemma {:induction false} JoinSplitLines(s: string)
    ensures Join(SplitLines(s)) == Normalize(s)
    decreases |s|
  {
    if |s| == 0 {
    } else if s[0] == '\r' && |s| > 1 && s[1] == '\n' {
      JoinSplitLines(s[2..]);
    } else if s[0] == '\n' {
      JoinSplitLines(s[1..]);
    } else {
      JoinSplitLines(s[1..]);
      var rest := SplitLines(s[1..]);
      var lines := SplitLines(s);
      assert lines == [[s[0]] + rest[0]] + rest[1..];
      if |rest| > 1 {
        assert lines[1..] == rest[1..];
      }
    }
  }

  /** One step of the split: how the first character of a text decides its lines. */
  lemma SplitLinesCons(c: char, t: string)
    ensures SplitLines([c] + t) ==
      if c == '\r' && |t| > 0 && t[0] == '\n' then [""] + SplitLines(t[1..])
      else if c == '\n' then [""] + SplitLines(t)
      else [[c] + SplitLines(t)[0]] + SplitLines(t)[1..]
  {
    var s := [c] + t;
    assert s[1..] == t;
    assert |t| > 0 ==> s[2..] == t[1..] && s[1] == t[0];
  }

  lemma CrLfAtStart(b: string)
    ensures SplitLines("\r\n" + b) == SplitLines("\n" + b)
  {
    SplitLinesCons('\r', "\n" + b);
    SplitLinesCons('\n', b);
    assert "\r\n" + b == ['\r'] + ("\n" + b);
    assert "\n" + b == ['\n'] + b;
    assert ("\n" + b)[1..] == b;
  }

  /** A CR LF pair separates lines exactly as a bare line feed does (unless a
      carriage return before it would be taken into the separator instead). */
  lemma {:induction false} CrLfSplitsLikeLf(a: string, b: string)
    requires a == [] || a[|a| - 1] != '\r'
    ensures SplitLines(a + "\r\n" + b) == SplitLines(a + "\n" + b)
    decreases |a|, 1
  {
    if a == [] {
      CrLfAtStart(b);
    } else {
      CrLfAfterFirst(a, b);
    }
  }

  /** The inductive step of CrLfSplitsLikeLf: both texts start with the same
      character of `a`, so they split the same way as their tails do. */
  lemma {:induction false} CrLfAfterFirst(a: string, b: string)
    requires a != [] && a[|a| - 1] != '\r'
    ensures SplitLines(a + "\r\n" + b) == SplitLines(a + "\n" + b)
    decreases |a|, 0
  {
    CrLfSplitsLikeLf(a[1..], b);
    ConcatAfterFirst(a, "\r\n", b);
    ConcatAfterFirst(a, "\n", b);
    if a[0] == '\r' && a[1] == '\n' {
      CrLfSplitsLikeLf(a[2..], b);
    }
    SameFirstSameSplit(a[0], a[1..] + "\r\n" + b, a[1..] + "\n" + b);
  }

  /** Where the first character of `a` leaves `a + sep + b`. */
  lemma ConcatAfterFirst(a: string, sep: string, b: string)
    requires a != []
    ensures a + sep + b == [a[0]] + (a[1..] + sep + b)
    ensures |a| > 1 ==> (a[1..] + sep + b)[0] == a[1] && (a[1..] + sep + b)[1..] == a[2..] + sep + b
  {
  }

  /** Texts that split alike still split alike behind a common first
      character, unless that character is a carriage return that only one
      of them would join to a following line feed. */
  lemma SameFirstSameSplit(c: char, x: string, y: string)
    requires SplitLines(x) == SplitLines(y)
    requires c == '\r' ==> |x| > 0 && |y| > 0 && x[0] == y[0]
    requires c == '\r' && x[0] == '\n' ==> SplitLines(x[1..]) == SplitLines(y[1..])
    ensures SplitLines([c] + x) == SplitLines([c] + y)
  {
    SplitLinesCons(c, x);
    SplitLinesCons(c, y);
  }

  /** Rendering lines one after the other is rendering each group in turn. */
  lemma {:induction false} ParagraphsAppend(x: seq<string>, y: seq<string>)
    ensures Paragraphs(x + y) == Paragraphs(x) + Paragraphs(y)
    decreases |y|
  {
    if y == [] {
      assert x + y == x;
    } else {
      var y' := y[..|y| - 1];
      assert (x + y)[..|x + y| - 1] == x + y';
      ParagraphsAppend(x, y');
    }
  }

  /** Plain text becomes one paragraph per line and one line per line feed
      plus one: the paragraphs of the text are its first line's paragraph
      followed by the paragraphs of the text after the first separator. */
  lemma PlainBlocks(head: string, tail: string, marked: string -> string)
    requires '\n' !in head && (head == [] || head[|head| - 1] != '\r')
    ensures Describe(Some("text/plain"), head + "\n" + tail, marked)
              == Some(Wrap(head) + Paragraphs(SplitLines(tail)))
    ensures Describe(Some("text/plain"), head + "\r\n" + tail, marked)
              == Describe(Some("text/plain"), head + "\n" + tail, marked)
  {
    CrLfSplitsLikeLf(head, tail);
    SplitLinesHead(head, tail);
    ParagraphsAppend([head], SplitLines(tail));
    assert Paragraphs([head]) == Wrap(head);
  }

  /** A first line free of line feeds (and not ending in a carriage return)
      is split off whole. */
  lemma {:induction false} SplitLinesHead(head: string, tail: string)
    requires '\n' !in head && (head == [] || head[|head| - 1] != '\r')
    ensures SplitLines(head + "\n" + tail) == [head] + SplitLines(tail)
    decreases |head|
  {
    var s := head + "\n" + tail;
    if head == [] {
      assert s[1..] == tail;
    } else {
      assert s[1..] == head[1..] + "\n" + tail;
      assert head[0] == '\r' ==> |head| > 1 && s[1] == head[1];
      SplitLinesHead(head[1..], tail);
      assert [head[0]] + head[1..] == head;
    }
  }

  /** The worked example: `"a\nb"` as plain text renders as two paragraphs. */
  lemma PlainExample(marked: string -> string)
    ensures Describe(Some("text/plain"), "a\nb", marked) == Some("<p>a</p><p>b</p>")
  {
    ExampleSplit();
    ExampleParagraphs();
  }

  lemma ExampleSplit()
    ensures SplitLines("a\nb") == ["a", "b"]
  {
    SplitLinesHead("a", "b");
    SingleLine("b");
    assert "a\nb" == "a" + "\n" + "b";
  }

  lemma ExampleParagraphs()
    ensures Paragraphs(["a", "b"]) == "<p>a</p><p>b</p>"
  {
    var lines := ["a", "b"];
    assert Paragraphs(lines) == Paragraphs(lines[..1]) + Wrap("b");
    assert Paragraphs(lines[..1]) == Wrap("a");
    assert Wrap("a") + Wrap("b") == "<p>a</p><p>b</p>";
  }

  /** A text without a line feed is a single line. */
  lemma {:induction false} SingleLine(s: string)
    requires '\n' !in s
    ensures SplitLines(s) == [s]
    decreases |s|
  {
    if s != [] {
      FirstAndRest(s);
      SingleLine(s[1..]);
      SplitLinesCons(s[0], s[1..]);
    }
  }

  /** HTML passes through untouched; Markdown goes to the renderer. */
  lemma HtmlAndMarkdown(body: string, marked: string -> string)
    ensures Describe(Some("text/html"), body, marked) == Some(body)
    ensures Describe(Some("text/markdown"), body, marked) == Some(marked(body))
    ensures Describe(Some("text/x-markdown"), body, marked) == Some(marked(body))
  {
  }

  /** Any other content type, or none at all, yields the absent value, not the body. */
  lemma UnknownTypeIsAbsent(mime: Option<string>, body: string, marked: string -> string)
    requires mime.None? || mime.value !in {"text/html", "text/x-markdown", "text/markdown", "text/plain"}
    ensures Describe(mime, body, marked) == None
  {
  }
}
