# Handwritten notes to Markdown: the uncertainty-marker workflow

The application turns photographed or scanned handwritten pages into
Markdown. The browser client collects page images from the selected files
(PDFs are rasterised page by page, pictures read as data URLs) and posts
them to the backend. The backend asks a vision model for a transcript, or
answers with a fixed placeholder when no API key is configured. Wherever
the model cannot read the page it writes the literal token `[UNCLEAR]`.
The client counts those markers, opens a dialog with one text area per
marker, and merges the answers back into the transcript: the answers are
taken in ascending key order, blank ones are skipped, and each remaining
trimmed answer replaces the leftmost marker still in the text.

This project models that workflow in Dafny and proves what it promises:

- `wrappers.dfy`: `Option` and `Result`.
- `js_string.dfy`: the ECMAScript string operations the code relies on
  (`trim` with the full whitespace set, `indexOf`/`includes`,
  `startsWith`/`endsWith`, ASCII `toLowerCase`, decimal numerals).
- `markers.dfy`: the marker, the global match count, the split of a text
  into the marker-free pieces between markers, and `replace` with a string
  pattern, including the `$` substitution patterns of GetSubstitution.
- `clarify.dfy`: the merge of the answers into the transcript, with its
  shape theorem and worked examples.
- `modal.dfy`: the clarification dialog as a class over its answer map.
- `app.dfy`: the page component as a class over its state (files, page
  images, transcript, dialog flags, error line), with the collection loop,
  the parse request and the merge as methods.
- `server.dfy`: request validation, placeholder mode, the upstream
  request, text extraction with its non-blank fallback, the health check
  and routing.

## Model

| member | source | states |
|---|---|---|
| JsString.IsWhitespace | frontend_src_App.js:107 | the characters `trim` removes: the ECMAScript WhiteSpace and LineTerminator code points; `TrimIsSlice` and `Trim` state what is removed |
| JsString.TrimStart | frontend_src_App.js:107 | the string after its leading whitespace: a suffix whose dropped prefix is all whitespace and whose first character is not |
| JsString.TrimEnd | frontend_src_App.js:107 | the string before its trailing whitespace: a prefix whose dropped suffix is all whitespace and whose last character is not |
| JsString.Trim | frontend_src_App.js:107-108 | `trim` gives the empty (falsy) string exactly when every character is whitespace |
| JsString.LeadingWhitespace | frontend_src_App.js:107 | the count of leading whitespace characters: all of them are whitespace, and the next character, if any, is not |
| JsString.TrailingWhitespace | frontend_src_App.js:107 | the count of trailing whitespace characters: all of them are whitespace, and the one before them, if any, is not |
| JsString.TwoCuts | frontend_src_App.js:107 | cutting the leading then the trailing whitespace leaves a slice with non-whitespace ends, empty exactly when the string is blank |
| JsString.TrimIsSlice | frontend_src_App.js:107 | `trim` keeps one contiguous slice whose ends are not whitespace, with only whitespace dropped before and after it |
| JsString.TrimKeeps | frontend_src_App.js:107 | a string whose ends are not whitespace is its own trim |
| JsString.IndexOf | frontend_src_App.js:85 | the result is an occurrence, no earlier position is one, and `None` means no position is one |
| JsString.Contains | frontend_src_App.js:85 | `includes`: `IndexOf` finds an occurrence; `ScanFindsIffContains` ties it to the segment scan |
| JsString.StartsWith | frontend_src_App.js:49 | `startsWith`: the string begins with the pattern; `PictureExactly` uses it for the `image/` test |
| JsString.EndsWith | frontend_src_App.js:41 | `endsWith`: the string ends with the pattern; `EndsWithPdf` and `PdfByNameInAnyCase` state the `.pdf` test |
| JsString.ToLowerAscii | frontend_src_App.js:41 | lowering keeps the length and lowers each character on its own |
| JsString.Decimal | backend_server_Version3.js:59 | the decimal numeral of a count: non-empty, all digits, starting with `0` only for zero; `DecimalRoundTrip` reads it back |
| JsString.DecimalRoundTrip | backend_server_Version3.js:59 | reading back the numeral printed for `n` gives `n` |
| Markers.NoBracketIsFree | backend_server_Version3.js:55-63 | a text without `[` holds no marker |
| Markers.CountMarkers | frontend_src_App.js:87 | the number of matches of the global marker pattern, each search starting where the last match ended; `CountIsOccurrences` equates it with the count of all positions where the marker starts |
| Markers.Occurrences | frontend_src_App.js:85-87 | the independent count: one for each position where the marker starts; with `CountIsOccurrences`, it makes the scan find every marker exactly once |
| Markers.CountIsOccurrences | frontend_src_App.js:87 | the global match count equals the number of positions where the marker starts (matches never overlap) |
| Markers.OccurrencesAtMatch | frontend_src_App.js:87 | the leftmost match is one occurrence, and no other occurrence starts before it ends |
| Markers.Segments | frontend_src_App.js:87 | a text splits into one more piece than it has markers, and no piece holds a marker |
| Markers.JoinSegments | frontend_src_App.js:87 | joining the pieces with the marker gives the text back |
| Markers.SegmentsJoin | frontend_src_App.js:87 | splitting a join of marker-free pieces gives the pieces back, and the join holds one marker fewer than pieces |
| Markers.Expand | frontend_src_App.js:109 | the replacement text after the `$$`, `$&`, `` $` `` and `$'` patterns are substituted; `ExpandPlain` shows a `$`-free answer is inserted as typed |
| Markers.ExpandPlain | frontend_src_App.js:109 | a replacement without `$` is inserted verbatim |
| Markers.ReplaceFirst | frontend_src_App.js:109 | a text without a marker comes back unchanged |
| Markers.ReplaceFirstPlain | frontend_src_App.js:109 | with a `$`-free replacement only the leftmost marker is swapped; the first piece and everything after that marker are kept |
| Markers.Scan | frontend_src_App.js:87-89 | one segment per marker occurrence, none with an image |
| Markers.ScanFindsIffContains | frontend_src_App.js:85-91 | the segment list is non-empty exactly when `includes` finds the marker |
| Clarify.AscendingKeys | frontend_src_App.js:104-105 | every answer key exactly once, in strictly ascending numeric order |
| Clarify.InKeyOrder | frontend_src_App.js:104-107 | the answers in ascending numeric key order; `InKeyOrderAt` and `TwoKeys` state which answer comes `i`-th |
| Clarify.TwoSorted | frontend_src_App.js:104-105 | two distinct keys sort to the smaller then the larger |
| Clarify.TwoKeys | frontend_src_App.js:104-105 | with two keys, the answer under the smaller key is taken first |
| Clarify.InKeyOrderAt | frontend_src_App.js:104-107 | the `i`-th answer taken is the one under the `i`-th smallest key |
| Clarify.Step | frontend_src_App.js:107-109 | one turn of the loop: a blank trimmed answer changes nothing, any other replaces the leftmost marker; `StepFills`, `StepSkipsSpaces` and `KeyDoesNotChooseMarker` state its effect |
| Clarify.Merge | frontend_src_App.js:104-110 | the answers applied one after another in the order given; `MergeSnoc`, `MergeIsReplaceEach` and `MergeShape` state what it does to the markers |
| Clarify.Clarified | frontend_src_App.js:101-111 | the merged transcript: the merge over the answers in ascending key order; `MergeResponses` proves the loop computes it and `MergeShape` gives its shape |
| Clarify.MergeSnoc | frontend_src_App.js:106-110 | each turn of the loop applies exactly one more answer to the running text |
| Clarify.MergeStepAt | frontend_src_App.js:104-110 | turn `i` of the loop over the sorted keys applies the answer under the `i`-th smallest key to the text the earlier turns left |
| Clarify.MergeResponses | frontend_src_App.js:101-111 | the loop over the sorted keys yields the merge of the answers in ascending key order |
| Clarify.Applied | frontend_src_App.js:107-108 | the answers that replace a marker are at most as many as given, and none is empty |
| Clarify.AppliedDollarFree | frontend_src_App.js:107 | trimming adds no `$` that the answer did not contain |
| Clarify.ReplaceEach | frontend_src_App.js:109 | one leftmost replacement per answer, in order; `ReplaceEachShape` and `ReplaceEachOnSegments` state which markers it fills and how many remain |
| Clarify.MergeIsReplaceEach | frontend_src_App.js:106-110 | the merge is exactly one leftmost replacement per non-blank trimmed answer, in key order |
| Clarify.BlankAnswersChangeNothing | frontend_src_App.js:107-108 | blank answers, or none at all, leave the text unchanged |
| Clarify.ReplaceEachShape | frontend_src_App.js:109 | leftmost replacements fill the markers in order and keep the text between them, while no marker is formed |
| Clarify.FilledCount | frontend_src_App.js:106-110 | the number of markers filled is the number of answers applied, or the number of markers when there are fewer |
| Clarify.ReplaceEachOnSegments | frontend_src_App.js:101-111 | on the pieces of a text, the first `m` markers hold the answers and `markers - m` markers remain |
| Clarify.MergeShape | frontend_src_App.js:101-111 | with `$`-free answers and no marker formed, the text between markers is kept and the first `m = min(answers, markers)` markers hold the non-blank answers in key order, leaving `markers - m` |
| Clarify.MergeTwo | frontend_src_App.js:104-111 | two answers are applied first then second |
| Clarify.StepFills | frontend_src_App.js:107-109 | a plain visible answer fills the marker after a short prefix |
| Clarify.TwoFill | frontend_src_App.js:104-111 | two plain answers on two markers fill them in order |
| Clarify.StepSkipsSpaces | frontend_src_App.js:107-108 | an answer of spaces is skipped |
| Clarify.BlankThenFill | frontend_src_App.js:107-109 | after a blank answer, the next plain answer fills the first marker |
| Clarify.CountShortSegments | frontend_src_App.js:87 | short pieces joined by markers hold as many markers as joins |
| Clarify.KeyDoesNotChooseMarker | frontend_src_App.js:104-110 | a single answer under any key, even one past the last marker, goes to the leftmost marker |
| Clarify.OrdinalMergeExample | frontend_src_App.js:101-111 | answers `{2: "C", 0: "A"}` on three markers give "A", then "C" in the second marker, and keep the third |
| Clarify.BlankAnswerShiftsLaterOnes | frontend_src_App.js:107-109 | a blank answer to segment 1 makes the answer to segment 2 land in the first marker |
| Clarify.AnswerCanFormMarker | frontend_src_App.js:109 | an answer can complete a marker with the text before it, so two answers on two markers can leave one marker |
| Modal.ClarificationModal.constructor | frontend_src_components_ClarificationModal.jsx:5 | the dialog starts with no answers |
| Modal.ClarificationModal.HandleChange | frontend_src_components_ClarificationModal.jsx:7-9 | the answer for `idx` becomes `value`; every other text area shows what it showed |
| Modal.ClarificationModal.HandleSubmit | frontend_src_components_ClarificationModal.jsx:11-14 | the answers as they stand are handed over, then the map is empty |
| Modal.ClarificationModal.Displayed | frontend_src_components_ClarificationModal.jsx:56 | a text area shows its answer, or the empty string when it has none |
| Modal.ChangeKeepsKeysBelow | frontend_src_components_ClarificationModal.jsx:34-57 | typing into one of the `n` text areas keeps every answer key below `n` |
| Modal.SubmitEnabled | frontend_src_components_ClarificationModal.jsx:72 | the submit button is enabled exactly when there is a segment; `ScanEnablesSubmit` ties it to a marker in the transcript |
| Modal.ShowsEmptyNotice | frontend_src_components_ClarificationModal.jsx:29-31 | the "No segments to clarify." notice shows exactly for an empty segment list; `ScanEnablesSubmit` states it is shown exactly when submit is disabled |
| Modal.ScanEnablesSubmit | frontend_src_components_ClarificationModal.jsx:29-72 | submitting is enabled exactly when the transcript holds a marker; otherwise the empty notice shows |
| Modal.SegmentLabel | frontend_src_components_ClarificationModal.jsx:40 | every heading starts with "Segment " and has a number after it |
| Modal.SegmentLabelNumber | frontend_src_components_ClarificationModal.jsx:40 | the number in a heading is all digits and reads as the 1-based position |
| Modal.SegmentLabelsDiffer | frontend_src_components_ClarificationModal.jsx:34-41 | two text areas never share a heading |
| App.PdfByNameInAnyCase | frontend_src_App.js:41 | a name ending in `.pdf` in any letter case makes the file a PDF, whatever its type |
| App.EndsWithPdf | frontend_src_App.js:41 | a name whose last four characters are `.pdf` passes `endsWith('.pdf')` |
| App.KindOf | frontend_src_App.js:41-58 | a file is a PDF by type or by a `.pdf` name in any case, otherwise a picture by an `image/` type, otherwise unsupported; `PdfByNameInAnyCase` and `PictureExactly` state it |
| App.Contribution | frontend_src_App.js:41-58 | one file's pages: a PDF's pages, a picture's data URL, nothing for a failure or an unsupported file; `FailedFileSkipped` and `PdfPagesInPlace` state where they go |
| App.Collected | frontend_src_App.js:39-59 | every file's contribution in file order; `CollectPages` proves the loop computes it and `CollectedAppend` that it distributes over file lists |
| App.PictureExactly | frontend_src_App.js:41-49 | a file is read as a picture exactly when neither PDF test holds and its type starts with `image/` |
| App.CollectedAppend | frontend_src_App.js:39-59 | the page list of two file lists one after the other is their page lists one after the other |
| App.CollectedSnoc | frontend_src_App.js:40-59 | one more file adds its contribution at the end |
| App.FailedFileSkipped | frontend_src_App.js:42-58 | a file that fails or is unsupported adds nothing and the files after it still count |
| App.PdfPagesInPlace | frontend_src_App.js:42-44 | a PDF's pages go, in order, where the file stands |
| App.PicturesOnePageEach | frontend_src_App.js:49-52 | pictures that read give one page each, the k-th from the k-th file |
| App.PdfFailed | frontend_src_App.js:41-47 | a file is a PDF whose conversion threw; `FailedAmongExtended` and `CollectPages` use it for the error line |
| App.AnyPdfFailed | frontend_src_App.js:40-47 | some file of the list is a failed PDF; `CollectPages` and `ConvertFiles` set the PDF error exactly then |
| App.FailedAmongExtended | frontend_src_App.js:45-47 | one more file reports an error exactly when one was already reported or it is a failed PDF |
| App.CollectStep | frontend_src_App.js:40-58 | one more file appends its contribution to the page list and reports an error exactly when it is a failed PDF |
| App.CollectPages | frontend_src_App.js:39-58 | the conversion loop yields every file's contribution in file order, and notes a failure exactly when some PDF failed |
| App.WithoutIndex | frontend_src_App.js:136 | the entry at `index` is dropped and the rest kept in order; any other index keeps every file |
| App.Ok | frontend_src_App.js:80 | `res.ok`: the status is in 200-299; `HandleParse` takes the failure path otherwise |
| App.Usable | frontend_src_App.js:80-81 | the reply arrived, its status is ok and its body is JSON; `HandleParse` states the transcript for a usable reply and the error for any other |
| App.Transcript | frontend_src_App.js:82 | the reply's `markdown` field, or the empty string when it is missing |
| App.EmptyResponsesKeepTranscript | frontend_src_App.js:101-112 | submitting no answers leaves the transcript as it was |
| App.StaleAnswerFillsNewMarker | frontend_src_components_ClarificationModal.jsx:5-14 | the dialog stays mounted and clears its answers only on submit, so a non-blank, `$`-free answer kept from an earlier transcript, under any key, fills the first marker of a new one, trimmed |
| App.App.constructor | frontend_src_App.js:12-18 | no files, no pages, empty transcript and error line, dialog closed with no segments and no answers |
| App.App.HandleFilesSelected | frontend_src_App.js:20-23 | the selection goes after the files already chosen, the error line is cleared, and nothing else changes |
| App.App.RemoveFile | frontend_src_App.js:135-137 | exactly the file at `index` goes, the others keep their order, and nothing else changes |
| App.App.ConvertFiles | frontend_src_App.js:34-64 | with files and not canceled, the pages are every file's contribution in file order; a failed PDF sets the PDF error even on a canceled run; with no files nothing changes |
| App.App.HandleParse | frontend_src_App.js:66-99 | no pages: only the "add an image" error and nothing sent; otherwise the pages are sent once, a usable reply becomes the transcript and opens the dialog with one segment per marker when it holds one, and any failure empties the preview and sets the parse error; the answers typed in the dialog are kept |
| App.App.ApplyClarifications | frontend_src_App.js:101-115 | the transcript becomes the merge of the answers in ascending key order; the dialog closes with no segments; nothing else changes |
| App.App.CloseClarify | frontend_src_App.js:248 | only the dialog flag changes; the typed answers stay |
| App.App.SubmitClarifications | frontend_src_App.js:246-251 | called only while the dialog is open with at least one segment, as the enabled submit button allows; the dialog's answers are merged into the transcript and forgotten, and the dialog closes |
| Server.Live | backend_server_Version3.js:15-18 | a client exists exactly when the key is set and not empty; `HealthReportsMode`, `PlaceholderMode` and `Parse` state what depends on it |
| Server.ImagesField | backend_server_Version3.js:47 | the `images` field of an object body, absent for any other body; `Validate` states when it passes |
| Server.Validate | backend_server_Version3.js:47-50 | a body passes exactly when its `images` field is a non-empty array, with those images; otherwise 400 "images array required" |
| Server.Placeholder | backend_server_Version3.js:54-64 | the fixed placeholder transcript for a batch of N images; `PlaceholderFacts` states that it reports N, is not blank, and holds one marker |
| Server.PlaceholderFacts | backend_server_Version3.js:53-65 | the placeholder says "Received N image(s)", is not blank, and holds exactly one marker |
| Server.PlaceholderReportsCount | backend_server_Version3.js:59 | the placeholder contains "Received N image(s)" for the batch size N |
| Server.PlaceholderOneMarker | backend_server_Version3.js:55-64 | the placeholder holds exactly one marker |
| Server.DecimalHasNoBracket | backend_server_Version3.js:59 | the printed batch size cannot start a marker |
| Server.RequestFor | backend_server_Version3.js:80-93 | the model request for a batch: model `gpt-4o-mini`, temperature 0.2, the user turn of `UserContent`; `Parse` states it is the one request sent |
| Server.UserContent | backend_server_Version3.js:69-78 | the user turn is the instruction followed by one item per image |
| Server.UserContentCarriesImages | backend_server_Version3.js:69-78 | the user turn carries every image exactly once, in order, after the instruction |
| Server.ImageItemsCarry | backend_server_Version3.js:74-77 | image items read back as the images they were made from |
| Server.OutputTexts | backend_server_Version3.js:98-103 | the concatenated texts of the `output_text` entries that have text; `OutputTextsAppend` and `IgnoredItemAddsNothing` state it |
| Server.Extracted | backend_server_Version3.js:96-106 | the `output` array's texts when there is one, otherwise `output_text`; `TranscriptionNeverBlank` states the precedence |
| Server.OutputTextsAppend | backend_server_Version3.js:98-103 | the kept texts of two output lists concatenate |
| Server.Kept | backend_server_Version3.js:100 | an output entry whose type is `output_text` and whose text is not empty; `IgnoredItemAddsNothing` states that any other entry adds nothing |
| Server.IgnoredItemAddsNothing | backend_server_Version3.js:99-101 | an entry that is not `output_text` with text adds nothing, wherever it stands |
| Server.NoTranscriptionFacts | backend_server_Version3.js:108-110 | the fallback transcript holds exactly one marker and is not blank |
| Server.OneMarkerAfter | backend_server_Version3.js:108-110 | a non-empty bracket-free heading followed by one marker holds exactly one marker and is not blank |
| Server.CountTwoSegments | backend_server_Version3.js:63 | two marker-free pieces joined by a marker hold one marker |
| Server.Transcription | backend_server_Version3.js:96-110 | the extracted text, or the one-marker fallback when it is blank; `TranscriptionNeverBlank` and `ExtractMarkdown` state it |
| Server.TranscriptionNeverBlank | backend_server_Version3.js:96-110 | the transcript sent is never blank: a blank extraction becomes the one-marker fallback, any other is sent as it is, and the flat text is ignored when `output` is an array |
| Server.ExtractMarkdown | backend_server_Version3.js:96-110 | the extraction loop and fallback compute the transcript |
| Server.ParseResponse | backend_server_Version3.js:46-117 | the reply of `/parse`: the validation error, the placeholder, the transcript or the 500 error; `ParseOutcomes` and `PlaceholderMode` state when each is given |
| Server.Parse | backend_server_Version3.js:46-117 | the answer of `/parse`; exactly one model request for a valid body in live mode, none otherwise |
| Server.ParseOutcomes | backend_server_Version3.js:46-117 | 400 exactly for an invalid body, 500 exactly when the live call threw, otherwise 200 with a transcript that is not blank |
| Server.PlaceholderMode | backend_server_Version3.js:52-66 | without a key a valid batch of N images gets the placeholder for N, with its one marker |
| Server.Health | backend_server_Version3.js:38-40 | the health reply; `HealthReportsMode` states its fields |
| Server.HealthReportsMode | backend_server_Version3.js:38-40 | status "ok"; `model` is "live" exactly with a key and "placeholder" exactly without |
| Server.PathMatches | backend_server_Version3.js:38-46 | a path matches a route in any letter case, with or without one trailing slash; `HealthPathIgnoresCase` and `ParsePathIgnoresCase` state it for every path |
| Server.RouteOf | backend_server_Version3.js:7-121 | which handler a request reaches; `HealthPathIgnoresCase`, `ParsePathIgnoresCase` and `RoutesKeepTheirVerbs` state it for every path and verb |
| Server.Handle | backend_server_Version3.js:7-121 | preflight answers 204, the health and parse routes answer as above, anything else 404 "Not found" |
| Server.UnknownPathNotFound | backend_server_Version3.js:119-121 | an unknown path reaches the 404 handler |
| Server.HealthPathIgnoresCase | backend_server_Version3.js:38 | for every path, `GET` and `HEAD` reach the health check exactly when the path is `/health` in any letter case, with or without one trailing slash, and are not found otherwise |
| Server.ParsePathIgnoresCase | backend_server_Version3.js:46 | for every path, `POST` reaches `/parse` exactly when the path is `/parse` in any letter case, with or without one trailing slash, and is not found otherwise |
| Server.UpperCaseHealthPath | backend_server_Version3.js:38 | `GET /HEALTH/` reaches the health check |
| Server.RoutesKeepTheirVerbs | backend_server_Version3.js:7-46 | for every path: `OPTIONS` is the preflight, `POST` never reaches the health check, `GET` and `HEAD` never reach `/parse`, and any other verb is not found |
| Server.WrongVerbsNotFound | backend_server_Version3.js:38-121 | `GET /parse` and `POST /health` reach the 404 handler |

## Left out

- PDF rasterisation and the `FileReader` conversion are outside this model: `ConvertFiles` takes them as functions from a file to its pages or data URL, with `None` for a call that threw.
- Asynchrony: one run of the file-conversion effect is one call of `ConvertFiles`, and the cancellation of an older run by a newer `files` change is its `canceled` parameter. `HandleParse` runs from the click to the `finally` in one step, so `processing` is true only in between and the spinner is not modelled.
- `fetch` is a function from the pages sent to the reply. A network failure, a non-2xx status, a body that is not JSON, and a `null` body all take the failure path.
- Non-string JSON values are not modelled: the `markdown` field of a reply, and the `text` and `output_text` fields of the model's answer, are strings or absent.
- Answer keys are natural numbers. The dialog only creates keys from segment positions, so `Number(key)` is the key itself.
- `toLowerCase` is modelled for ASCII letters only. This is exact for the `.pdf` test: no other character lowers to `.`, `p`, `d` or `f`.
- Express matches a route path with a case-insensitive regular expression, not with `toLowerCase`. The model compares the ASCII-lowered path instead. The result is the same for `/health` and `/parse`: a case-insensitive match without the `u` flag never folds a non-ASCII character onto an ASCII letter. The query string, which Express strips before matching, is not part of the modelled path.
- Strings are sequences of Unicode scalar values, while JavaScript strings are UTF-16 code units, so a lone surrogate cannot be represented. Nothing modelled depends on this: the marker, `.pdf`, the route paths and every whitespace character `trim` removes lie in the Basic Multilingual Plane.
- The backend's transport is not modelled: the 25 MB body limit (413), the parser's 400 for malformed JSON and for a body whose top level is not an object or array (the model treats such a body as one without `images`), the CORS response headers, `HEAD` responses having no body, `listen`, the port and `dotenv`.
- The model call is a function from the request to its outcome. The request's system turn, the prompt text, and console logging are not modelled.
- Rendering is not modelled: the Markdown preview, copy to clipboard, download, the upload area, the loader and the styling.
- The merge follows the code: a blank answer consumes no marker, so later answers move forward (`Clarify.BlankAnswerShiftsLaterOnes`).
- `/health` reports the mode in a field named `model`.
- Removing every file leaves the page images of the last conversion in place: the effect returns at once for an empty file list, as the code does.
- Clarify.MergeShape: the count law "markers after = markers before minus answers applied" is proved only under two hypotheses. The answers contain no `$`, and no answer forms a new marker with the text before it. `Clarify.AnswerCanFormMarker` shows that without the second hypothesis two answers on two markers can leave one marker. Answers containing `$` are still modelled exactly by `Markers.Expand`.
