# Evaluador de PPO: extraction, reference loading and the handler's decisions

This project models the serverless function `api/gemini.js`, which evaluates a
Proyecto Participativo Organizativo (PPO). The function:

1. receives a POST request with the uploaded PPO (base64) and three evaluator scores;
2. loads five reference documents from the `data` directory;
3. extracts the text of every document according to the extension of its file name;
4. fills a fixed prompt template and asks the language model for a report in HTML;
5. answers 200 with the model's text, 405 to a method other than POST, 400 when the
   upload is missing and 500 for every other failure.

The model is pure Dafny: datatypes, functions and lemmas. The libraries the function
calls are function-typed parameters. The Word and PDF decoders, the file read, JSON
parsing and the model call can fail, so they return a `Result`. UTF-8 decoding
(`Buffer.toString('utf8')`), base64 decoding (`Buffer.from(s, 'base64')`) and the
existence test of a file (`fs.existsSync`) cannot fail, so they are total functions.

Modules, one per file:

- `Results` (`results.dfy`): `Option` and `Result`.
- `FileName` (`file_name.dfy`): the extension. The name is split at its dots, the last
  piece is taken and lower-cased.
- `GlobalReplace` (`global_replace.dfy`): `String.prototype.replace` with a global
  pattern and one space as the replacement, for any pattern whose matches are never
  empty (every match of the RTF pattern has at least three characters). It is a left-to-right
  scan, `ReplaceFrom`, given the length of the match at every position: where a match
  starts it becomes one space and the search resumes right after it, otherwise the
  character is kept.
- `RtfScrub` (`rtf_scrub.dfy`): the RTF clean-up. Its pattern is an alternation of
  fourteen branches tried in the written order; `Matches` gives the length of its match
  at every position, and `Scrub` is the global replace over those lengths.
- `Extract` (`extract.dfy`): `extraerTexto`. It dispatches on `docx`, `pdf`, `rtf` and
  then plain UTF-8, and any decoder failure becomes the empty text. A missing name
  raises a `TypeError` before the `try`, so that error reaches the caller.
- `Loader` (`loader.dfy`): `leerArchivoFijo`. A missing file gives the empty text
  without being read, and so does a failed read. Otherwise the result is the extracted
  text of the file under its own name.
- `Prompt` (`prompt.dfy`): the template literal. Its ten literal fragments alternate
  with nine values, and each value is inserted whole.
- `Handler` (`handler.dfy`): the handler. It returns the response, together with the
  sequence of outside calls made: the five reference loads, then at most one model
  call.

## Model

| member | source | states |
|---|---|---|
| FileName.Split | api/gemini.js:11 | splitting at dots always gives at least one piece, and no piece contains a dot |
| FileName.JoinSplit | api/gemini.js:11 | joining the pieces with dots gives the name back: the split loses nothing |
| FileName.LastIsAfterLastDot | api/gemini.js:11 | the last piece is a dot-free suffix of the name; it is either the whole name or preceded by a dot |
| FileName.ExtensionAfterLastDot | api/gemini.js:11 | the extension of `stem.ext` (with `ext` dot-free) is `ext` lower-cased, whatever the stem holds |
| FileName.NoDotWholeName | api/gemini.js:11 | a name without a dot is its own extension, lower-cased |
| FileName.TrailingDotEmpty | api/gemini.js:11 | a name ending in a dot has the empty extension |
| FileName.ExtensionIgnoresCase | api/gemini.js:11 | names equal up to case have the same extension |
| FileName.ExtensionOfUpper | api/gemini.js:11 | upper-casing a name does not change its extension |
| FileName.ExtensionOfUpperCaseName | api/gemini.js:11 | `A.DOCX` has extension `docx` |
| FileName.ExtensionOfSeveralDots | api/gemini.js:11 | `informe.final.PDF` has extension `pdf`: only the last dot counts |
| FileName.ExtensionOfTrailingDot | api/gemini.js:11 | `raro.` has the empty extension |
| RtfScrub.FirstMatchFrom | api/gemini.js:22 | the branch chosen is the first of the remaining branches that matches; none is chosen only when none matches |
| RtfScrub.MatchShape | api/gemini.js:22 | every branch match is at least three characters long, starts with a backslash and contains no space |
| RtfScrub.MatchLength | api/gemini.js:22 | the pattern's match at a position is empty, or a backslash-led, space-free stretch of at least three characters |
| RtfScrub.MatchOnSamePrefix | api/gemini.js:22 | whether the pattern matches depends only on the characters the match takes |
| GlobalReplace.ReplaceFromShorter | api/gemini.js:22 | the replace never gives more characters than it scans |
| GlobalReplace.ReplaceFromKeepsMatchFree | api/gemini.js:22 | a stretch where no match starts is copied unchanged, in order |
| GlobalReplace.ReplaceFromLength | api/gemini.js:22 | with matches of at least three characters inside the text: without a match the rest is copied unchanged, with one the result is at least two characters shorter |
| GlobalReplace.ReplaceHead | api/gemini.js:22 | a match at the start becomes one space, followed by the replace of the text after the match |
| GlobalReplace.ReplaceFromSuffix | api/gemini.js:22 | the replace from a position is the replace of the text from that position on: the search resumes afresh |
| GlobalReplace.SpaceFreePrefixKept | api/gemini.js:22 | as long as the result shows no space, it is the input unchanged |
| RtfScrub.MatchHasNoSpace | api/gemini.js:22 | no character of a match is a space |
| RtfScrub.MatchesAt | api/gemini.js:22 | the length recorded at each position is the pattern's match at that position |
| RtfScrub.MatchesSpan | api/gemini.js:22 | every match ends inside the text and is at least three characters long |
| RtfScrub.MatchFreeMeans | api/gemini.js:22 | a text is match-free exactly when the pattern matches at none of its positions |
| RtfScrub.MatchesOfSuffix | api/gemini.js:22 | the match lengths of a suffix are the suffix of the match lengths |
| RtfScrub.ScrubbedIsMatchFree | api/gemini.js:22 | after the replace, the pattern matches nowhere in the result |
| RtfScrub.ScrubLength | api/gemini.js:22 | the scrub never lengthens text; it keeps a text exactly when nothing matches, and otherwise shortens it by at least two |
| RtfScrub.NoBackslashUnchanged | api/gemini.js:22 | a text without a backslash passes through unchanged |
| RtfScrub.ScrubIdempotent | api/gemini.js:22 | scrubbing twice is scrubbing once |
| RtfScrub.ScrubKeepsMatchFreePrefix | api/gemini.js:22 | characters before the leftmost match are kept as they are |
| RtfScrub.ScrubReplacesMatch | api/gemini.js:22 | a match becomes exactly one space, and the search resumes right after it |
| RtfScrub.RepeatedBranchUnused | api/gemini.js:22 | the third branch, which repeats the first, is never the one chosen |
| RtfScrub.UnicodeEscapeOnly | api/gemini.js:22 | after `\u`, only the Unicode-escape branch can match |
| RtfScrub.ScrubParagraph | api/gemini.js:22 | `\par` becomes one space |
| RtfScrub.ScrubParagraphDefault | api/gemini.js:22 | `\pard` becomes a space followed by `d` |
| RtfScrub.ScrubFontNumber | api/gemini.js:22 | `\f0` is taken by the first branch and becomes one space |
| RtfScrub.ScrubFontSize | api/gemini.js:22 | `\fs24` falls through to the second branch, which takes one digit: the result is a space and `4` |
| RtfScrub.ScrubUnicodeEscape | api/gemini.js:22 | `\u12345?` (five digits and a question mark) becomes one space |
| RtfScrub.ScrubShortUnicodeEscape | api/gemini.js:22 | `\u123`, with fewer than four digits, is kept |
| Extract.FormatOf | api/gemini.js:13-24 | `docx`, `pdf` and `rtf` each select their own format, exactly; every other extension is read as plain text |
| Extract.ExtractText | api/gemini.js:10-29 | the call fails exactly when no name is given, with the `TypeError` message; with a name it always gives text |
| Extract.ExtractWord | api/gemini.js:13-15 | a name ending in `.docx`, in any case, gives the Word decoder's text, or empty text when it fails |
| Extract.ExtractPdf | api/gemini.js:16-18 | a name ending in `.pdf`, in any case, gives the PDF decoder's text, or empty text when it fails |
| Extract.ExtractRtf | api/gemini.js:19-22 | a name ending in `.rtf` gives the scrubbed UTF-8 text, which is never longer than the UTF-8 text |
| Extract.ExtractPlain | api/gemini.js:24 | any other extension gives the UTF-8 text unchanged |
| Extract.ExtractIgnoresCase | api/gemini.js:11 | names equal up to case give the same result |
| Extract.ExtractUsesSelectedDecoder | api/gemini.js:13-24 | only the selected decoder matters: decoders that agree on it give the same result |
| Extract.ExtractEmptyText | api/gemini.js:25-28 | the result is empty exactly when the selected decoder failed or read nothing |
| Extract.ExtractUploadedWord | api/gemini.js:11-15 | `ppo.docx` is read by the Word decoder |
| Extract.ExtractSeveralDots | api/gemini.js:11-18 | `informe.final.PDF` is read by the PDF decoder |
| Extract.ExtractNameWithoutDot | api/gemini.js:11-22 | a file called `rtf`, without a dot, is read as RTF |
| Extract.ExtractWithoutName | api/gemini.js:11 | without a name the call fails, whatever the bytes |
| Loader.LoadMissing | api/gemini.js:35-38 | a missing file gives the empty text, whatever reading it would give |
| Loader.LoadUnreadable | api/gemini.js:39-44 | a file that cannot be read gives the empty text |
| Loader.LoadPresent | api/gemini.js:39-40 | a file that is read gives the extracted text of its bytes under its own name |
| Loader.LoadEmpty | api/gemini.js:31-45 | the text is empty exactly when the file is missing, unreadable, or its decoder failed or read nothing |
| Loader.ReferenceFormats | api/gemini.js:59-65 | the five reference documents are Word, PDF, Word, Word and RTF |
| Loader.LoadFramework | api/gemini.js:64 | `proyecto.rtf` gives its scrubbed UTF-8 text |
| Loader.LoadEvaluationSheet | api/gemini.js:61 | `planilla.pdf` gives the PDF decoder's text, or empty text |
| Prompt.FillLength | api/gemini.js:74-95 | the filled template is exactly as long as its fragments and values together: nothing is cut |
| Prompt.FillPlacesValue | api/gemini.js:74-95 | each value sits whole at its offset, right after its fragment |
| Prompt.OffsetsIncrease | api/gemini.js:74-95 | values come in order, each starting after the previous one and the next fragment |
| Prompt.FillInjective | api/gemini.js:74-95 | with fixed fragments, values of given lengths are recovered from the filled text |
| Prompt.TemplatePlacesInputs | api/gemini.js:74-95 | the prompt holds each of the nine inputs whole, right after its label |
| Prompt.TemplateLength | api/gemini.js:74-95 | the prompt's length is the fixed text plus every input in full |
| Prompt.TemplateInjective | api/gemini.js:74-95 | different inputs of the same lengths give different prompts |
| Prompt.TemplateOpening | api/gemini.js:74-79 | the prompt opens with the evaluator's role and the first label |
| Prompt.TemplateClosing | api/gemini.js:91-95 | the prompt closes with the task |
| Handler.Handle | api/gemini.js:47-112 | the status is one of 200, 400, 405 and 500; it is 405 exactly when the method is not POST, and then there are no outside calls; otherwise the five loads come first and at most one call follows |
| Handler.MethodChoice | api/gemini.js:49-52 | a truthy `httpMethod` decides alone; otherwise `method` decides |
| Handler.GetRefused | api/gemini.js:49-52 | a GET is refused with 405, even when `method` says POST, and nothing is loaded |
| Handler.EmptyHttpMethodFallsBack | api/gemini.js:49-50 | an empty `httpMethod` falls back to `method` |
| Handler.MissingFileResponse | api/gemini.js:67-70 | 400 exactly for a parsed POST body without a truthy `archivo`; the five loads have been made, and no model call |
| Handler.ModelCall | api/gemini.js:56-97 | the model is called exactly for an evaluable request (body parsed, file and name given), once, with the configured model and the built prompt |
| Handler.SuccessResponse | api/gemini.js:97-104 | 200 exactly when the model answers an evaluable request; the answer is the message, sent as JSON |
| Handler.InternalErrorDetail | api/gemini.js:106-111 | every 500 carries the fixed error and, as detail, the message of what failed: the parse, the missing name or the model |
| Handler.MissingNameResponse | api/gemini.js:72 | an upload without a name gives 500 with the `TypeError` message, before any model call |
| Handler.PromptCarriesProject | api/gemini.js:72-86 | the prompt holds the extracted PPO text whole, right after its heading |
| Handler.PromptCarriesReference | api/gemini.js:59-83 | the prompt holds each loaded reference text whole, right after its label, in load order |
| Handler.MissingReferencesTolerated | api/gemini.js:59-95 | with no reference file on disk, the prompt is still built, with empty texts in their place |

## Left out

- `netlify/functions/gemini.js` and the other variants of the function are not part of this model.
- The Word and PDF decoders, UTF-8 decoding, base64 decoding, JSON parsing and the model
  call are libraries. They are parameters, and their own behaviour is not modelled.
- The file system is a parameter: existence and contents per file name. The path built
  from the working directory and `data` is not modelled.
- `Promise.all` runs the five loads concurrently. A load never fails, so the model
  takes them in array order.
- Logging with `console.error`, the API key from the environment and the client object
  are not modelled. The source performs no check on the key, so a missing key surfaces
  as a failure of the model call, which gives a 500.
- FileName.ToLower: lower-cases ASCII `A`–`Z` only, not all of Unicode. No other
  character lower-cases to a letter of `docx`, `pdf` or `rtf`, so the format chosen is
  the same.
- Strings are sequences of characters, not of UTF-16 code units.
- Handler.Body: `archivo`, `nombre` and the scores are optional strings, and a score
  holds the text it interpolates to. A non-string `archivo` or `nombre` (a number, say)
  is not modelled. A `null` body, or one that is not JSON, is a failure of the parse
  parameter.
- Extract.ExtractText: a missing name fails with the message for `undefined`. The
  message for `null` differs and is not modelled.
- GlobalReplace.ReplaceFrom: a length of 0 means "no match here", so a pattern that
  matches the empty string, after which a global replace inserts the replacement and
  moves on by one character, cannot be expressed. The RTF pattern never matches the
  empty string.
- Handler.Handle: the response's headers are modelled only as whether the JSON content
  type is set, and the body only as the fields of its JSON object.

Three facts about the code, which the model follows:

- The request carries no precedent document and no MIME type; only the file name selects the decoder.
- A missing reference file gives the empty text, and the prompt shows nothing in its place.
- The prompt lists the references, then the PPO, then the scores.
