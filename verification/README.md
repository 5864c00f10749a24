# Arabic letter recognition demo: a Dafny model of its core

`app.py` is a Streamlit page. It takes a photo or upload of one isolated
Arabic letter and asks a hosted multimodal model (Gemini) which letter the
image shows. It then plays a pre-recorded pronunciation clip for that
letter. Almost all the local logic lives in four places, and this project
models all four:

- `get_audio_filename`, the resolver. It strips the recognised text and
  looks it up in a fixed dictionary of 36 letters. It builds
  `sounds/<base>.mp4` and returns that path only when the file exists.
- `identify_arabic_letter_from_bytes`, the adapter. With no API key it
  returns the "connection failed" string (`❌ فشل الاتصال`) and calls
  nothing. Otherwise it sends one request: the image, its MIME type and
  the instruction's list of allowed answers as written. It returns the
  stripped reply text. If anything in that attempt raises (building the
  client, wrapping the image, or the call itself), it returns the
  "processing failed" string (`❌ فشل المعالجة`).
- The MIME type the page derives from the upload's declared type:
  `image/` followed by the text after the last `/`.
- The page's failure test: the answer is non-empty and starts with the
  cross mark ❌.

The modules follow that structure:

| file | module | what it holds |
|---|---|---|
| `wrappers.dfy` | `Wrappers` | `Option` (Python's `None`) |
| `pystr.dfy` | `PyStr` | `str.strip()` with Python's `isspace` set, `startswith`, `split`/`join` on one character |
| `pydict.dfy` | `PyDict` | dictionary literals (the last write wins) and `dict.get` |
| `resolver.dfy` | `Resolver` | the letter table and `get_audio_filename` |
| `prompt.dfy` | `Prompt` | the 36 answers the instruction allows, as written and as corrected |
| `recognition.dfy` | `Recognition` | the adapter; the hosted model is a function argument |
| `flow.dfy` | `Flow` | source choice, MIME derivation, failure test and the result screen |

The hosted model is an oracle: a total function from the request to a reply.
A reply is either "raised" or "answered", and an answered reply's text may be
missing. The filesystem is the set of paths that exist. The API key is an
argument instead of an environment variable.

## Model

| member | source | states |
|---|---|---|
| PyStr.Strip | app.py:29 | The result has no whitespace at either end (Python's `isspace` set). The input is leading whitespace, then the result, then a tail of whitespace. |
| PyStr.StripPadded | app.py:29 | Any whitespace padding around text with no whitespace at its ends strips back to exactly that text. This is the converse characterisation of `strip()`. |
| PyStr.StripIgnoresPadding | app.py:29 | Adding whitespace on either side never changes what `strip()` returns. |
| PyStr.StripIdempotent | app.py:109 | Stripping an already stripped reply changes nothing. |
| PyStr.Split | app.py:178 | `split(sep)` gives at least one part, and no part contains the separator. Joining the parts with the separator gives the input back. |
| PyStr.SplitJoin | app.py:178 | Splitting a join of separator-free parts gives those parts back. This is the other round trip. |
| PyDict.DictOf | app.py:33-46 | A dictionary literal read left to right: the entry written last is in the dictionary with its value. |
| PyDict.DictOfContents | app.py:33-46 | A dictionary literal holds exactly the keys written. Each key holds the value written last for it. |
| PyDict.DictOfSize | app.py:33-46 | With distinct keys, the dictionary has one key per entry. |
| PyDict.RepeatsChangeNothing | app.py:44-45 | Writing again entries that already appear earlier leaves the dictionary unchanged. |
| PyDict.DictOfInjective | app.py:34-42 | Distinct keys with distinct values give a dictionary in which no two keys share a value. |
| PyDict.Get | app.py:48 | `dict.get` gives `Some` exactly for keys present, and then holds the stored value. |
| Resolver.LetterKeysDistinct | app.py:34-42 | No letter is written twice among the 36 main entries. |
| Resolver.BaseNamesDistinct | app.py:34-42 | No clip base name is used for two letters. |
| Resolver.LetterEntriesWellFormed | app.py:34-42 | Each letter is one character between hamza U+0621 and yeh U+064A. Each base name is non-empty lower-case Latin letters and underscores. |
| Resolver.RepeatsRedundant | app.py:44-45 | The four "robust matching" entries are dead: the whole literal equals its 36 main entries alone. |
| Resolver.TableLookup | app.py:34-42 | Every entry as written is what the table maps its letter to. |
| Resolver.TableSize | app.py:33-46 | The table has exactly 36 keys: the literal writes 36 distinct letters and then repeats 4 of them with the same base names. |
| Resolver.TableInjective | app.py:34-42 | No two letters share a clip. |
| Resolver.KeyEntry | app.py:33-46 | Every key of the table is the letter of one of the 36 entries, with that entry's base name. |
| Resolver.TableWellFormed | app.py:33-46 | Every key is a single Arabic letter. Every value is a well-formed base name. |
| Resolver.Table | app.py:33-46 | The letter table: the 40 entries of the literal, read as a dictionary. |
| Resolver.PathJoin | app.py:52 | `os.path.join(dir, name)`: an absolute name replaces the directory. Otherwise the result is the directory, at most one added `/`, then the name. The `/` is added exactly when the directory is non-empty and does not already end with one. |
| Resolver.JoinedClipPath | app.py:51-52 | `os.path.join("sounds", base + ".mp4")` is `sounds/<base>.mp4` for every well-formed base name. |
| Resolver.ClipPathDeterminesBase | app.py:51-52 | Different base names give different clip paths. |
| Resolver.Lookup | app.py:29-58 | These are the resolver's steps over any table. A path comes back exactly when the stripped text is a key with a non-empty base name (`if base_name:` tests truthiness) and the joined path exists. A returned path is that joined path, and it exists. |
| Resolver.TableClipPaths | app.py:50-52 | For every letter of the table, the base name is non-empty and the joined path is `sounds/<base>.mp4`. |
| Resolver.AudioPath | app.py:23-58 | A path comes back exactly when the stripped text is a key and its clip path is in the set of existing files. The path is then `sounds/<base>.mp4` for that key's base name. Otherwise the result is `None`, both for an unknown letter and for a missing file. |
| Resolver.LookupIgnoresPadding | app.py:29 | Over any table, surrounding the text with whitespace never changes the result. |
| Resolver.LookupDeterminesLetter | app.py:48-56 | Over any table with pairwise different, well-formed base names, two texts that resolve to the same path are the same letter once stripped. |
| Resolver.AudioPathIgnoresPadding | app.py:29 | Surrounding the text with whitespace never changes the resolver's result. |
| Resolver.AudioPathDeterminesLetter | app.py:33-56 | Two texts that resolve to the same clip are the same letter once stripped. |
| Resolver.KeyResolves | app.py:29-56 | A table key, bare or padded, strips to itself. It resolves to its own clip if that file exists and to `None` otherwise. |
| Resolver.LetterResolves | app.py:34-56 | Each of the 36 letters, padded or not, resolves to its own entry's clip exactly when that clip exists. |
| Resolver.BehResolves | app.py:35 | Beh followed by a newline resolves to `sounds/baa.mp4` when that file exists. In an empty folder it resolves to nothing. |
| Resolver.BlankTextHasNoClip | app.py:48-58 | Empty or all-whitespace text resolves to no clip, whatever files exist. |
| Prompt.AllowedAsWritten | app.py:94 | The 36 answers the instruction allows, in its order, with heh written as U+0647 U+0640. |
| Prompt.Corrected | app.py:94 | The correction keeps the list's length and every answer except heh, which becomes the bare letter U+0647. |
| Prompt.ListsInOrder | app.py:94 | Both lists hold 36 answers in the instruction's order. The request uses the list as written; the intended list is the correction of the finding below. As written, heh is U+0647 U+0640. In the intended list it is U+0647, and that is the only difference. |
| Prompt.EntryPositions | app.py:34-42 | Every table entry's letter stands at a known position of the intended list. |
| Prompt.AnswerEntries | app.py:94 | Every answer of the intended list is the letter of a known table entry. |
| Prompt.WrittenAnswersDistinct | app.py:94 | As written, no answer appears twice, and no answer other than heh is the bare letter U+0647. |
| Prompt.AnswersDistinct | app.py:94 | No answer is allowed twice. |
| Prompt.TatweelHehNotAKey | app.py:94 | Heh written with tatweel is not a key of the table. |
| Prompt.OtherAnswersAreKeys | app.py:94 | Every written answer other than heh is a key of the table. |
| Prompt.TatweelHehHasNoClip | app.py:94 | As written, the allowed answer heh-with-tatweel resolves to no clip whatever files exist. It is the only allowed answer that is not a key. |
| Prompt.KeysAreAllowed | app.py:93-94 | Every letter of the table is an answer of the intended list. |
| Prompt.AllowedAreKeys | app.py:93-94 | Every answer of the intended list is a letter of the table. |
| Prompt.AllowedAnswersMatchTable | app.py:93-94 | The intended list and the table agree in both directions. There are 36 answers, each allowed once. |
| Recognition.HasKey | app.py:67 | `not API_KEY` is false exactly when the key is neither `None` nor empty. |
| Recognition.RequestFor | app.py:73-107 | The request carries the model name `gemini-2.5-flash`, the image, its MIME type and the list of allowed answers as written. |
| Recognition.Identify | app.py:63-113 | At most one request is sent, and none exactly when the key is missing or empty; the answer is then the connection-failure string. Every request carries the image, its MIME type, the model name and the allowed answers as written. A reply with text gives the stripped text. A raising attempt or a missing text gives the processing-failure string. |
| Recognition.Recognize | app.py:63-113 | As a typed outcome: a missing credential exactly when there is no key. With a key, a reply with text gives that text stripped, and any other reply gives a service failure. A recognised text has no whitespace at its ends. |
| Recognition.FlaggedAsFailure | app.py:187 | The page's failure test holds exactly when the answer's first character is the cross mark. |
| Recognition.FailureStringsFlagged | app.py:69-113 | Both failure strings pass the page's failure test, and they differ. |
| Recognition.MarkerTestAgreesWithOutcome | app.py:187 | The returned string describes the typed outcome. The page's cross-mark test says "failure" exactly when the outcome failed or the model's own text starts with the cross mark. |
| Recognition.MissingKeyIgnoresService | app.py:67-69 | Without a key the result does not depend on the hosted model at all. |
| Recognition.AnsweredCallGivesStrippedText | app.py:104-109 | With a key and a model that answers the request for this image with some text, exactly one request is sent and the stripped text comes back. |
| PyStr.StartsWith | app.py:187 | `s.startswith(prefix)` holds exactly when the prefix is no longer than `s` and agrees with it character by character. |
| Flow.MimeSubtype | app.py:178 | The subtype contains no `/` and ends the declared type. When it is shorter than the declared type, a `/` precedes it. |
| Flow.MimeType | app.py:178 | The MIME type is always `image/` followed by a slash-free suffix of the declared type. When that suffix is shorter than the declared type, a `/` precedes it. |
| Flow.MimeTypeIdempotent | app.py:178 | Deriving the MIME type again from its own output changes nothing. |
| Flow.ChosenSource | app.py:160 | The camera picture wins when present; otherwise the upload is used. There is no source exactly when neither input is given. |
| Flow.RequestOf | app.py:177-182 | The request handed to the adapter carries the chosen image's bytes, the MIME type derived from its declared type, the model name and the allowed answers as written. |
| Flow.ScreenFor | app.py:187-215 | A flagged answer shows the failure, and only a flagged one does. Any other answer is shown with the resolver's result. The second existence check never changes it, and a shown clip exists. |
| Flow.Present | app.py:160-219 | With no image the page waits. Nothing is sent without an image and a key. At most one request is sent: the one for the chosen image and its derived MIME type. A failure screen always carries a flagged answer, and a clip that plays exists. |
| Flow.NoKeyShowsConnectionFailure | app.py:67-69 | With an image but no key, the page shows the connection failure and sends nothing. |
| Flow.RaisedCallShowsProcessingFailure | app.py:111-113 | With an image and a key, a raising call for that image shows the processing failure after exactly one request. |
| Flow.TableLetterScreen | app.py:187-215 | A table letter is shown with its own clip if the file exists and with none otherwise. |
| Flow.TableLetterPlays | app.py:160-215 | A recognised table letter, padded or not, is shown stripped. Its clip plays exactly when the file exists. |

## Left out

- The Streamlit layout, styling, headers, spinner, balloons and `st.error`/`st.warning` texts: presentation only. The result screen records which branch is shown.
- The Gemini client, `types.Part` and the instruction's wording: the hosted model is a function argument. The request records the model name, the image, the MIME type and the list of allowed answers as the instruction writes it.
- Recognition.Identify: the reply `Raised` stands for every exception inside the `try`. That includes `genai.Client` or `types.Part.from_bytes` failing before anything is sent. So `sent` counts attempts, not requests that reached the service.
- The set of existing files is one snapshot for the whole page run. A file created or deleted between the resolver's check (app.py:55) and the page's second check (app.py:199) is not modelled, which is why that second check never changes the outcome.
- `load_dotenv` and `os.getenv`: the key is an argument.
- `os.path.exists` and the real filesystem: they are a set of existing paths. Reading the clip, base64 encoding and the HTML audio element are file and browser I/O.
- Image decoding (PIL) and the bytes' meaning: the bytes are passed through untouched.
- Resolver.PathJoin: models `os.path.join` only for the two-argument POSIX case.
- Flow.Present: its contract does not itself pin the screen for a given answer. That is `Flow.ScreenFor` together with `Recognition.Identify`, and `Flow.TableLetterPlays` states the combined result.
- PyStr.Split: models `split` for a one-character separator only, which is all the page uses.
- Unicode beyond code points: there is no normalisation. Letters are compared code point by code point, as Python compares `str`.

## Findings

| source | as written | input that shows it | evidently intended | confidence | as-written member | corrected member |
|---|---|---|---|---|---|---|
| app.py:94 | The instruction tells the model to answer with heh written `هـ` (U+0647 U+0640, heh followed by tatweel). The table's key is `ه` (U+0647, line 37). | The model obeys and answers `هـ`. The resolver strips nothing from it, finds no key and reports no clip, so the heh clip never plays for a literal answer. | Heh listed as the bare letter U+0647, so every allowed answer resolves. | not executed | Prompt.TatweelHehHasNoClip | Prompt.AllowedAnswersMatchTable |
