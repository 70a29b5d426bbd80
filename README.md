# Field-trip notice: form and document endpoint, modelled in Dafny

The system turns a sixteen-field field-trip notice (title, grade, class, event,
purpose, date, meeting and dismissal time and place, destination, clothes,
belongings, notes, issue date, teacher) into a Word document. Two parts are modelled:

- The endpoint `POST /api/letters/fieldtrip` (`src/app/api/letters/fieldtrip/route.ts`)
  takes a partial record and fills absent fields with defaults. It turns CR LF into
  LF in the belongings and notes lists. It derives the download name from the date
  and builds the `Content-Type` and `Content-Disposition` headers. Every failure
  becomes a status-500 JSON body, and the template engine's itemised errors are
  flattened into a `multi` list.
- The form page (`src/app/fieldtrip/page.tsx`) holds the record and the `loading`
  and `error` state cells. It changes one field at a time and shows a live text
  preview. On submission it saves the document under a name built from the date,
  or turns a failed reply into an error message.

Modules:

- `Wrappers`: `Option`.
- `Strings`: concatenation, substring, join, filter, and decimal printing.
- `Notice`: the record and its field names.
- `Errors`: a thrown JavaScript value, read defensively.
- `Newlines`: `normalizeNewlines`.
- `UriEncoding`: `encodeURIComponent` as section 19.2.6 of the 2021 edition of ECMA-262 defines it, with a
  reference decoder and the `value-chars` grammar of RFC 8187 section 3.2.1.
- `Route`: the endpoint.
- `Page`: the form page, whose state cells form the class `FieldTripPage`.

Each source file's form is kept:

- The endpoint's rules are pure, so they are functions and lemmas.
- The page's state cells are fields of a class. Its methods set them one step at a
  time, as `downloadDocx` does. A ghost `history` records the `(loading, error)`
  pair after every setter call, so the flag sequence of a submission is stated
  exactly.

`normalizeNewlines` makes a single pass and is not idempotent:
`Newlines.NotIdempotent` shows `"\r\r\n"` becoming `"\r\n"`, and `"\n"` only after
a second pass.

## Model

| member | source | states |
|---|---|---|
| `Newlines.Normalize` | src/app/api/letters/fieldtrip/route.ts:26-28 | the output is never longer than the input and is empty only for empty input; its exact counts are `NormalizeLength`, `NormalizeKeepsLf` and `NormalizeDropsPairedCr` below |
| `Newlines.NormalizeLength` | src/app/api/letters/fieldtrip/route.ts:26-28 | the output is as long as the input minus its CR LF pairs |
| `Newlines.NormalizeKeepsLf` | src/app/api/letters/fieldtrip/route.ts:26-28 | the number of LFs is unchanged |
| `Newlines.NormalizeDropsPairedCr` | src/app/api/letters/fieldtrip/route.ts:26-28 | exactly one CR is dropped per CR LF pair; lone CRs stay |
| `Newlines.NoCrUnchanged` | src/app/api/letters/fieldtrip/route.ts:26-28 | text with no CR comes back unchanged |
| `Newlines.NormalizeExpandLf` | src/app/api/letters/fieldtrip/route.ts:26-28 | normalisation exactly undoes writing every LF as CR LF, lone CRs included |
| `Newlines.NormalizeAppend` | src/app/api/letters/fieldtrip/route.ts:26-28 | the replacement is local: text normalises piecewise at any cut that does not split a CR LF pair |
| `Newlines.NotIdempotent` | src/app/api/letters/fieldtrip/route.ts:27 | one pass turns `"\r\r\n"` into `"\r\n"` and a second pass into `"\n"`, so the operation is not idempotent |
| `Notice.NoticeFields.With` | src/app/fieldtrip/page.tsx:90-92 | the updated record has the new value at the key and every other field unchanged |
| `Notice.Extensionality` | src/app/fieldtrip/page.tsx:5-22 | records that agree on all sixteen fields are equal |
| `Notice.WithCurrentValue` | src/app/fieldtrip/page.tsx:90-92 | writing a field's current value back changes nothing |
| `Notice.WithTwice` | src/app/fieldtrip/page.tsx:90-92 | the later of two writes to one field wins |
| `Notice.WithCommutes` | src/app/fieldtrip/page.tsx:90-92 | writes to different fields commute |
| `Errors.Describe` | src/app/api/letters/fieldtrip/route.ts:125 | `err?.message ?? String(err)`: the message whenever present, even if empty, otherwise the value's string form |
| `Errors.ErrorOf` | src/app/fieldtrip/page.tsx:106 | an `Error` built from a message is described by that message |
| `Route.Complete` | src/app/api/letters/fieldtrip/route.ts:52-69 | the payload's title is empty only when the request sent `""` for it; what happens to each field is `CompleteKeepsSupplied` and `CompleteFillsAbsent` below |
| `Route.CompleteKeepsSupplied` | src/app/api/letters/fieldtrip/route.ts:52-69 | a supplied field, including `""`, is copied into the payload; items and notes pass through normalisation |
| `Route.CompleteFillsAbsent` | src/app/api/letters/fieldtrip/route.ts:53-68 | an absent title becomes `"校外学習のお知らせ"` and every other absent field becomes `""` |
| `Route.Whole` | src/app/fieldtrip/page.tsx:101 | the body the client sends supplies every field with the form's value |
| `Route.CompleteWhole` | src/app/api/letters/fieldtrip/route.ts:52-69 | a whole record sent to the endpoint comes back with only its two list fields normalised |
| `Route.CompleteWholeWithoutCr` | src/app/api/letters/fieldtrip/route.ts:52-69 | a whole record whose lists contain no CR comes back unchanged |
| `Route.ShownDate` | src/app/api/letters/fieldtrip/route.ts:102 | the date shown in the name is never empty: the date itself when non-empty, `日付未設定` otherwise (a falsy test, not `??`) |
| `Route.AttachmentName` | src/app/api/letters/fieldtrip/route.ts:102 | the name starts with `校外学習お便り_` and ends with `.docx`, with something in between; that middle part is `AttachmentNameCarriesDate` |
| `Route.AttachmentNameCarriesDate` | src/app/api/letters/fieldtrip/route.ts:102 | the name is `校外学習お便り_` + (date, or `日付未設定` when it is empty) + `.docx`, and the date part can be read back from it |
| `Route.AttachmentNameSame` | src/app/api/letters/fieldtrip/route.ts:102 | two dates give the same name exactly when they are shown alike; `""` and `"日付未設定"` are the only colliding pair |
| `Route.ContentDispositionAsWritten` | src/app/api/letters/fieldtrip/route.ts:109-111 | the header value as written starts with `attachment; filename*=UTF-8''` |
| `Route.DispositionAsWrittenNamesFile` | src/app/api/letters/fieldtrip/route.ts:109-111 | decoding the as-written header value gives back the file name |
| `Route.AsWrittenDispositionNotExtValue` | src/app/api/letters/fieldtrip/route.ts:109-111 | for the date `2月3日(火)` the as-written value is not an RFC 8187 ext-value |
| `Route.ContentDisposition` | src/app/api/letters/fieldtrip/route.ts:109-111 | the header value starts with `attachment; filename*=UTF-8''`, and the rest is RFC 8187 `value-chars` |
| `Route.DispositionNamesFile` | src/app/api/letters/fieldtrip/route.ts:109-111 | a user agent decoding the header value gets exactly the file name |
| `Route.ListedErrors` | src/app/api/letters/fieldtrip/route.ts:31-32 | there is an error list exactly when the error has `properties` holding an `errors` array, and it is that array |
| `Route.Flatten` | src/app/api/letters/fieldtrip/route.ts:34-45 | an entry takes `message` and `name` from the error and the other eight fields from its `properties`, all absent when it has none |
| `Route.FlattenAll` | src/app/api/letters/fieldtrip/route.ts:34-45 | the map gives one flattened entry per error, in the same order |
| `Route.ExtractMultiErrors` | src/app/api/letters/fieldtrip/route.ts:30-46 | null exactly when `properties.errors` is absent or not an array; otherwise a list of the same length and order, each entry with the error's message and name and its properties' fields |
| `Route.ReportedTagListed` | src/app/api/letters/fieldtrip/route.ts:38 | the tag of each listed error shows up at the same position in the flattened list |
| `Route.Failure` | src/app/api/letters/fieldtrip/route.ts:114-130 | the catch response has status 500, `error` is `docx生成でエラーが発生しました`, `detail` is the error's message or string form, and `multi` is the flattened list |
| `Route.Post` | src/app/api/letters/fieldtrip/route.ts:48-131 | status 200 exactly for a document and 500 for every failure; the document is produced exactly when the body parsed, the template exists and generation succeeded; a document has the wordprocessingml type, the generated bytes, and exactly the header `ContentDisposition` builds for the date-derived name, which decodes back to that name; a missing template reports its path; a thrown error becomes the catch response |
| `Route.PostNamesDate` | src/app/api/letters/fieldtrip/route.ts:102 | a successful response's file name carries the request's date, or the placeholder when the date is absent or empty |
| `Route.PostHeaderAsWritten` | src/app/api/letters/fieldtrip/route.ts:109-111 | for every file name without `'`, `(`, `)` or `*`, the header is exactly the one `encodeURIComponent` gives |
| `UriEncoding.EncodeUriComponent` | src/app/api/letters/fieldtrip/route.ts:109 | the encoded name is ASCII, and `decodeURIComponent` gives back the name |
| `UriEncoding.EncodersAgree` | src/app/api/letters/fieldtrip/route.ts:109 | the RFC 8187 encoder and `encodeURIComponent` give the same text for input without `' ( ) *` |
| `UriEncoding.OverlongRejected` | src/app/api/letters/fieldtrip/route.ts:109 | the reference decoder refuses the overlong form `%C0%80`, as `decodeURIComponent` does |
| `UriEncoding.Encode` | src/app/api/letters/fieldtrip/route.ts:109 | every output character is ASCII: a kept character, `%` or a hex digit |
| `UriEncoding.DecodeEncode` | src/app/api/letters/fieldtrip/route.ts:109 | decoding the encoding gives back the input, for every string |
| `UriEncoding.EncodeKept` | src/app/api/letters/fieldtrip/route.ts:109 | a string made only of unreserved characters is not changed |
| `UriEncoding.ExtValueConforms` | src/app/api/letters/fieldtrip/route.ts:109 | the encoder that also escapes `' ( ) *` always yields RFC 8187 `value-chars` |
| `UriEncoding.UriComponentNotValueChars` | src/app/api/letters/fieldtrip/route.ts:109 | `encodeURIComponent` output is not `value-chars` whenever the input contains `(` |
| `Page.InitialTitleIsDefault` | src/app/fieldtrip/page.tsx:24-43 | the form's initial title is the endpoint's default title |
| `Page.InitialAllFilled` | src/app/fieldtrip/page.tsx:24-43 | every one of the sixteen sample fields starts non-empty |
| `Page.GradeClass` | src/app/fieldtrip/page.tsx:51 | both non-empty gives `grade + " " + class_name`; exactly one non-empty gives that one; both empty gives `""` |
| `Page.GradeClassMentionsBoth` | src/app/fieldtrip/page.tsx:51 | both grade and class occur in the joined label |
| `Page.Preview` | src/app/fieldtrip/page.tsx:50-88 | the preview starts with `【` + title + `】` |
| `Page.BodyPieces` | src/app/fieldtrip/page.tsx:52-87 | the body has 29 pieces, and the fixed labels between the interpolated values are never empty, so no two values run together; that every value occurs is `PreviewMentionsEveryField` |
| `Page.PreviewMentionsEveryField` | src/app/fieldtrip/page.tsx:50-88 | every one of the sixteen field values occurs in the preview, and so does the joined grade/class label itself |
| `Page.DownloadName` | src/app/fieldtrip/page.tsx:114 | the client's save name is the endpoint's file-name rule applied to the form's date |
| `Page.DownloadNameMatchesServer` | src/app/fieldtrip/page.tsx:114 | the client's save name equals the endpoint's file name for the body the client sent |
| `Page.ErrorMessage` | src/app/fieldtrip/page.tsx:104-107 | the message is never empty: `detail` if non-empty, else `error` if non-empty, else `HTTP ` + status |
| `Page.FailureMessage` | src/app/fieldtrip/page.tsx:104-121 | a failed reply is shown with its `ErrorMessage`, which is never empty; a network error is shown with its own message or string form |
| `Page.OkExactlyForDocument` | src/app/fieldtrip/page.tsx:104 | the client takes the download path exactly when the endpoint produced a document |
| `Page.TemplateMissingMessage` | src/app/fieldtrip/page.tsx:104-107 | a missing template is shown with the endpoint's `error` text |
| `Page.GenerationFailedMessage` | src/app/fieldtrip/page.tsx:104-107 | a generation failure is shown with the thrown error's message, or the generic text when that message is empty |
| `Page.FieldTripPage.constructor` | src/app/fieldtrip/page.tsx:46-48 | the page starts with the sample record, not loading, and no error |
| `Page.FieldTripPage.Update` | src/app/fieldtrip/page.tsx:90-92 | the form gets the new value at the key; the other fifteen fields and the flags are unchanged |
| `Page.FieldTripPage.SetLoading` | src/app/fieldtrip/page.tsx:47 | sets `loading` and records the new pair in the history |
| `Page.FieldTripPage.SetError` | src/app/fieldtrip/page.tsx:48 | sets `error` and records the new pair in the history |
| `Page.FieldTripPage.DownloadDocx` | src/app/fieldtrip/page.tsx:94-125 | the form never changes; the history is (loading, old error), (loading, ""), then on failure (loading, message), and last (not loading, error); a success saves under the date-derived name with no error; a failure saves nothing and records the failure message |

## Findings

| source | as written | input that shows it | evidently intended | confidence | as-written member | corrected member |
|---|---|---|---|---|---|---|
| src/app/api/letters/fieldtrip/route.ts:109-111 | the `filename*` value is built with `encodeURIComponent`, which leaves `'`, `(`, `)` and `*` unescaped; these are not attr-chars in section 3.2.1 of RFC 8187, and `'` is that grammar's own delimiter | date `2月3日(火)` (ASCII parentheses): the header contains a literal `(` | the value is a valid RFC 8187 ext-value, as section 4.3 of RFC 6266 requires for `filename*` | medium; not executed | `Route.AsWrittenDispositionNotExtValue` | `Route.ContentDisposition` |

## Left out

- Route.Post: builds the `Content-Disposition` value with the corrected encoder from the finding above. Its result equals the handler's `encodeURIComponent` value for every name without `'`, `(`, `)` or `*` (`Route.PostHeaderAsWritten`). The as-written value is `Route.ContentDispositionAsWritten`, and both decode back to the file name.
- Route.Post: a date holding a lone surrogate (a JSON `"\ud800"`) makes `encodeURIComponent` throw `URIError` after rendering, and the catch answers 500. Dafny strings hold only Unicode scalar values, so that input cannot be formed and the path is not modelled.
- Template rendering (Docxtemplater's tag parsing, `paragraphLoop`, `linebreaks`, the `{{ }}` delimiters) and PizZip's zip reading and DEFLATE writing are foreign libraries. `Route.Post` takes them as one parameter, `generate`, which yields the bytes or throws.
- The template file's existence check, its stat and read, and the `console` logging are I/O. Existence is a boolean parameter and the path a string parameter; the logs are dropped.
- Parsing the request body is transport. A request is either parsed fields or an error thrown before the payload exists (`req.json()` failing, or reading a field of a `null` body). Field values are strings: a non-string JSON value (which would make `normalizeNewlines` throw) is not modelled.
- `fetch`, `res.json()`, `res.blob()`, object URLs and the anchor click are network and browser I/O. A submission receives a `Reply` (a network error, or a status with the parsed error body or none). A success is reduced to the name the anchor is given; a `blob()` failure is not modelled.
- React's hooks machinery (`useState` batching, `useMemo` caching), the JSX layout and the `Input`/`Textarea` components are UI rendering. `history` records setter calls in the order the code makes them, not the renders React performs.
- The asynchronous interleaving of `downloadDocx` is not modelled. The method runs from start to end; the intermediate `loading` states appear only in `history`.
- The duck-typed diagnostic properties (`explanation`, `tag`, `context`, ...) are typed as optional strings and `offset` as an optional integer, though JavaScript allows any value there.
