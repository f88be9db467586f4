# audioserve-ui store actions, modelled in Dafny

This project models the store actions of the audioserve web player
(`store/app/actions.js`). It covers five pieces of behaviour:

- how the session is persisted (`setDetails`), restored at start-up (`initialiseApp`) and set by `login`;
- how a folder description is rendered from its declared content type (`getDescription`);
- how book records are created, merged and replaced in the key-value store (`getBookDetails`, `updateBookDetails`, `setBookDetails`);
- how the media cache decides between a cached copy and a fresh download (`fileIsCached`, `getCachedFile`, `cacheFile`, `tempCache`);
- which playback extension a media content type gets (`contentToExtension`).

Files and modules:

- `values.dfy` (`JsValues`): JavaScript values (`undefined`, `null`, booleans, numbers, strings, arrays, objects) with truthiness, property reads and object spread.
- `extensions.dfy` (`MediaTypes`): the content-type to extension switch and a table it is proved against.
- `description.dfy` (`Descriptions`): the `\r?\n` line split, the paragraph loop, the content-type dispatch, and lemmas about them.
  - Splitting and re-joining loses nothing except turning CR LF into LF.
  - There is one line per line feed plus one.
  - CR LF separates lines like LF.
  - `"a\nb"` renders as `<p>a</p><p>b</p>`.
- `actions.dfy` (`Actions`): the class `App`.
  - Its fields are the persistence store (`store`), the ordered log of commits (`commits`), the platform cache storage (`caches`, namespace then request URL) and the committed book (`book`).
  - The parts of the UI state the actions only read are constants: `server`, `cacheKey` and `folder`.
  - Each action is a method whose postcondition gives the new store, commit log and caches.
  - Specification functions (`Snapshot`, `Restored`, `LoadedBook`, `Merge`) state the same results, and lemmas prove the properties the source promises about them.

What the network would answer is passed in as a parameter: the description response (`DescResponse`), the media response (`fetched`) and the collections listing. The Markdown renderer is the function parameter `marked`.

## Model

| member | source | states |
|---|---|---|
| `MediaTypes.ContentToExtension` | store/app/actions.js:200-214 | each of the nine listed content types maps to its extension as given by the table `ExtensionTable`; any other type, or a missing header, maps to `mp3` |
| `MediaTypes.NonDefaultMeansListed` | store/app/actions.js:200-214 | an extension other than `mp3` only comes from a listed type other than `audio/mpeg` |
| `Descriptions.SplitLines` | store/app/actions.js:178 | the split on `\r?\n` always yields at least one line, even for empty text |
| `Descriptions.SplitLinesCount` | store/app/actions.js:178 | there is exactly one line more than there are line feeds in the text |
| `Descriptions.SplitLinesHaveNoLineFeed` | store/app/actions.js:178 | no line contains a line feed |
| `Descriptions.JoinSplitLines` | store/app/actions.js:178 | joining the lines with line feeds gives back the text with each CR LF replaced by LF: nothing else is lost or added |
| `Descriptions.CrLfSplitsLikeLf` | store/app/actions.js:178 | a CR LF separator gives the same lines as a bare LF, unless the text before it already ends in a carriage return |
| `Descriptions.SingleLine` | store/app/actions.js:178 | a text without a line feed is one line, carriage returns included |
| `Descriptions.SplitLinesHead` | store/app/actions.js:178 | a first line without line feeds that does not end in CR is split off whole, before the lines of the rest |
| `Descriptions.ParagraphsAppend` | store/app/actions.js:179-181 | the paragraph accumulation over two groups of lines is the accumulation over the first followed by that over the second |
| `Descriptions.RenderPlain` | store/app/actions.js:177-182 | the loop leaves in `para` one `<p>line</p>` block per split line, in order |
| `Descriptions.GetDescription` | store/app/actions.js:168-186 | the output is the rendering `Describe` gives for the declared type and body |
| `Descriptions.PlainBlocks` | store/app/actions.js:177-182 | plain text renders as the first line's paragraph followed by the paragraphs of the rest; CR LF and LF render alike |
| `Descriptions.PlainExample` | store/app/actions.js:177-182 | `text/plain` with body `"a\nb"` renders as `<p>a</p><p>b</p>` |
| `Descriptions.HtmlAndMarkdown` | store/app/actions.js:173-176 | `text/html` passes the body through unchanged; both Markdown types give the renderer's output |
| `Descriptions.UnknownTypeIsAbsent` | store/app/actions.js:183-185 | any other content type, or none, gives the absent value rather than the body |
| `Actions.App.SetDetails` | store/app/actions.js:7-15 | the five session keys are written from the data, undefined where the data lacks one; no other key changes, and nothing is committed |
| `Actions.App.Login` | store/app/actions.js:17-81 | without a truthy secret, `loginsecret = 'noauth'` and then `loginStatus = true` are committed, and the session is persisted with `loginStatus` true; with one, `null` and `false` are committed and persisted instead |
| `Actions.App.OnAuthenticated` | store/app/actions.js:45-63 | after the credential request answers, `loginStatus = true` is committed; the session is persisted with the collection names and collection 0 unless reading the names throws |
| `Actions.App.InitialiseApp` | store/app/actions.js:273-294 | the commits issued are `Restored(store)`, and the store is not written |
| `Actions.RestoredMembers` | store/app/actions.js:279-293 | a commit is issued exactly for each session key whose stored value is truthy, and it carries that value |
| `Actions.RestoreOnlyServer` | store/app/actions.js:273-294 | with only `server` persisted, start-up commits `server` once and none of the other four keys |
| `Actions.PersistedSessionRestores` | store/app/actions.js:7-15 | after `setDetails`, start-up commits the truthy session fields of the persisted data, whatever the store held before |
| `Actions.NoSecretLoginIsRemembered` | store/app/actions.js:71-81 | after a login without a secret, start-up commits `loginStatus = true` |
| `Actions.App.GetFolderDescription` | store/app/actions.js:111-114 | the rendered description is committed as `folderDescription` |
| `Actions.App.GetBookDetails` | store/app/actions.js:116-140 | a truthy stored record is committed and nothing is written; otherwise the default record is stored under the hash and committed; a store keyed by hash stays so |
| `Actions.NewBookDefaults` | store/app/actions.js:119-135 | a new record has exactly the keys hash, name, author, description, cover and seek. Its hash is the key, name and author are `Unknown`, and seek is 0. Its cover is `server + 'cover/' + path` exactly when the folder has a cover. Its description is non-null exactly when the folder names a description path |
| `Actions.StoredBookKept` | store/app/actions.js:117-118 | a truthy stored record is the one committed, unchanged |
| `Actions.App.UpdateBookDetails` | store/app/actions.js:142-151 | the committed book overridden by the updates is stored under the given hash and committed; a store keyed by hash stays so exactly when the merged record names that hash |
| `Actions.MergeOverrides` | store/app/actions.js:145-148 | in the merge, every updated key takes the update's value and every other key of the current book keeps its value |
| `Actions.MergeIdempotent` | store/app/actions.js:145-148 | merging the same updates twice equals merging them once |
| `Actions.App.SetBookDetails` | store/app/actions.js:153-156 | the record replaces whatever its hash held and is committed; a store keyed by hash stays so |
| `Actions.WriteKeepsKeys` | store/app/actions.js:136 | writing a value under a key keeps every book record stored under its own hash exactly when the value, if it is a book record, carries that key as its hash |
| `Actions.LoadKeepsKeys` | store/app/actions.js:117-137 | loading a book keeps every book record stored under its own hash: the new record is written under the hash it carries |
| `Actions.ReplaceKeepsKeys` | store/app/actions.js:153-156 | replacing a record under the hash it carries keeps every book record stored under its own hash |
| `Actions.MergeKeepsKeysIff` | store/app/actions.js:142-151 | after an update, every book record is still stored under its own hash exactly when the updates' hash, or else the current book's, equals the hash written to |
| `Actions.UpdateUnderOtherHash` | store/app/actions.js:142-151 | updating book A with a new offset while naming hash B stores under B a record whose hash is A |
| `Actions.UpdateRewritesHash` | store/app/actions.js:142-151 | updates carrying a hash rewrite the hash of the record stored under the old one |
| `Actions.App.ReloadAfterSeek` | store/app/actions.js:116-151 | loading a book, setting its seek to N and loading it again yields the first record with only seek changed, to N |
| `Actions.App.FileIsCached` | store/app/actions.js:189-198 | true exactly when the namespace `cacheKey + hash` exists and holds an entry for the file; the caches are not changed |
| `Actions.App.GetCachedFile` | store/app/actions.js:216-233 | opening creates the namespace if missing. A stored entry yields its bytes with the extension of its content type; a missing entry is a Miss |
| `Actions.App.CacheFile` | store/app/actions.js:235-248 | the fetched response is stored under the file in the namespace, replacing any earlier entry, and is returned |
| `Actions.App.TempCache` | store/app/actions.js:250-271 | a cached file is served from the cache, and the caches stay as they were. Otherwise the fetched response is cached and served. Either way the file is cached afterwards |

## Left out

- Credential derivation in the secret branch of `login` is not modelled: UTF-8 encoding, 32 random bytes, SHA-256 and base64/URI encoding are foreign library and platform calls.
- The authenticate POST, `fetchCollections` and every other `fetch` are I/O. Their answers are method parameters. Their failures (rejected promises) are not modelled, with one exception: `OnAuthenticated` takes a failed or null collections answer, after which the session is not persisted.
- Markdown rendering by `marked` is a third-party library. It is the function parameter `marked`.
- The cookie store (`VueCookies`), `URL.createObjectURL`, blob conversion and `console.log` are platform side effects. A blob URL is represented by the bytes it is made from.
- Asynchronous interleaving is not modelled: every action runs to completion in order. This covers the second `setDetails` of the secret login branch racing the first, the writes and `cache.put` that are not awaited, and two actions racing on the same key.
- The UI state's mutation handlers are not part of this model. Commits are recorded in order. Only the `book` mutation is taken to update state (`App.book`, which `updateBookDetails` reads); `server`, `cacheKey` and `folder` are constants here.
- Numbers are reals; NaN (falsy in JavaScript) is not modelled. Object spread of strings and arrays, which copies indexed keys, is taken as empty. Property order is not modelled.
- Values are stored in the persistence store exactly as given; the store's own serialisation is not modelled.
- Actions.App.SetBookDetails: requires the book to be an object with a string `hash`. A null or undefined book (which throws) and a book without a string `hash` (stored under the coerced key) are not modelled.
- Actions.App.UpdateBookDetails: does not promise that a book record stays stored under its own hash, because the source does not check it. The source relies on its caller to pass the current book's hash and updates that leave the hash alone. `MergeKeepsKeysIff` states exactly when the invariant survives, and `UpdateUnderOtherHash` and `UpdateRewritesHash` show two ways it breaks.
