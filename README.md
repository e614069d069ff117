# Member registration form: the download-filename contract

This project models two programs that work together.

- The browser form (`word_form_fe/src/App.tsx`) edits a five-field member record. It posts the record to the server. When it gets the result back, it names the download after the response's `Content-Disposition` header and shows a success or error status.
- The Express endpoint `POST /api/generate-docx` (`word_form_be/src/index.ts`) merges the record into a Word template. It sets `Content-Type` and `Content-Disposition: attachment; filename="member-registration-<name>.docx"`, then sends the document. Any failure becomes a 500 with `{ error: 'Failed to generate document' }`.

Modules:

- `Basics`: `Option`, `Result` and `Byte`.
- `UriCodec`: `decodeURIComponent`, following the Decode operation of section 19.2.6 (URI Handling Functions) of ECMA-262, with an empty reserved set.
  - It checks UTF-8 fully: the shortest form only, no surrogates, nothing above U+10FFFF.
  - `encodeURIComponent` is included as its inverse, and `DecodeEncode` proves the round trip.
- `Disposition`: what the client's two regular expressions do.
  - `String.prototype.match` reports the leftmost match and its first capture.
  - A greedy `[^c]+` takes the maximal run of characters other than `c`.
  - The extended form `filename*=UTF-8''…` takes precedence. Its value is percent-decoded.
  - The quoted form `filename="…"` comes next, then the fixed default `member-registration.docx`.
- `RegistrationForm`: the form record and `handleChange`, written as `WithField` and the method `HandleChange`.
  - Also the `handleSubmit` state machine. The class `MemberRegistrationForm` holds `formData`, `status` and `isSubmitting`, plus the downloads the browser was asked to start.
  - `HandleSubmit` follows the try/catch/finally block step by step. It is proved equal to the specification function `SubmitResult`.
- `GenerateDocx`: the handler.
  - The template engine (file read, PizZip, docxtemplater) is an opaque, possibly failing sequence of steps.
  - The Express response is the class `ServerResponse`.
  - `HandleGenerateDocx` is proved equal to the specification function `HandledResponse`.
- `EndToEnd`: the client reading the header the server built.
  - For every name containing neither `"` nor `*`, the resulting filename is exactly `member-registration-<name>.docx`.
  - Lemmas show what happens otherwise: a `"` cuts the name short, and a name carrying an extended form takes over the filename.

Inputs from outside the programs become parameters:

- the fetch outcome: `send: FormData -> FetchOutcome` in `HandleSubmit`;
- the template engine: `DocumentEngine`;
- the response object.

Strings are sequences of Unicode code points. JavaScript strings are sequences of UTF-16 code units.

The code does something undocumented with character rules in header values. Node's `setHeader` throws on a character that is not a tab, printable ASCII, or in 0x80–0xFF. The handler's catch turns that into a 500. By then `Content-Type` is already set and `Content-Disposition` is not. The model follows this behaviour (`SetHeader` returns `false`, see `InvalidNameResponse`).

The handler does not check the request body at all. A record with a missing field is not rejected with a 500: docxtemplater renders the missing value, and `${memberData.name}` writes `undefined` into the header. The model's `MemberData` holds five strings, so this case cannot be expressed (see "Left out").

## Model

| member | source | states |
|---|---|---|
| UriCodec.HexDigit | word_form_fe/src/App.tsx:62 | part of encodeURIComponent, the partner of Decode that the source never calls (the Encode operation of ECMA-262): the digit written for a value below 16 is a hexadecimal digit that reads back as that value |
| UriCodec.Continuations | word_form_fe/src/App.tsx:62 | a successful read of n continuation escapes gives n octets, each of the form 10xxxxxx, using 3n characters |
| UriCodec.Decode | word_form_fe/src/App.tsx:62 | decodeURIComponent never produces a longer string than its input |
| UriCodec.DecodeWithoutPercent | word_form_fe/src/App.tsx:62 | a string with no `%` decodes to itself |
| UriCodec.MalformedEscapeFails | word_form_fe/src/App.tsx:62 | a `%` anywhere that is not followed by two hexadecimal digits makes decodeURIComponent throw |
| UriCodec.Utf8Octets | word_form_fe/src/App.tsx:62 | part of encodeURIComponent, the partner of Decode that the source never calls: each code point encodes as 1 to 4 octets: a lead octet announcing the length, then continuation octets |
| UriCodec.EscapeAll | word_form_fe/src/App.tsx:62 | part of encodeURIComponent, the partner of Decode that the source never calls: each octet becomes exactly three characters |
| UriCodec.DecodeEncode | word_form_fe/src/App.tsx:62 | decodeURIComponent inverts encodeURIComponent for every string |
| Disposition.MatchesAt | word_form_fe/src/App.tsx:60-65 | the two regular expressions match at a position: the literal, then a non-empty greedy run, then (for the quoted form) a closing quote; its contract is given by the Captured, FirstMatch and NoStarNoExtended rows |
| Disposition.Match | word_form_fe/src/App.tsx:60-65 | `contentDisposition.match(re)` and its first capture group; its contract is given by the LeftmostMatch and FirstMatch rows |
| Disposition.FilenameOf | word_form_fe/src/App.tsx:57-70 | the filename-extraction block; its contract is given by the rows from AbsentHeaderGivesDefault to ExtendedWithoutPercentIsVerbatim, one per branch |
| Disposition.RunLength | word_form_fe/src/App.tsx:60 | the greedy `[^c]+` run is maximal: no `c` inside, and followed by `c` or the end of the header |
| Disposition.Captured | word_form_fe/src/App.tsx:60-67 | a capture is non-empty, free of its terminator, sits right after the literal, and the quoted form's capture is followed by its closing quote |
| Disposition.FirstMatch | word_form_fe/src/App.tsx:60-67 | `match` finds the leftmost position where the pattern matches, and reports no match only when there is none anywhere |
| Disposition.LeftmostMatch | word_form_fe/src/App.tsx:60-67 | the leftmost matching position is the one whose capture `match` returns |
| Disposition.AbsentHeaderGivesDefault | word_form_fe/src/App.tsx:57-58 | with no header, or an empty one, the filename is `member-registration.docx` |
| Disposition.ExtendedFormWins | word_form_fe/src/App.tsx:60-62 | when the extended form matches, the filename is the percent-decoding of the maximal non-`;` run after its leftmost occurrence, whatever quoted form the header also holds |
| Disposition.QuotedFormFallback | word_form_fe/src/App.tsx:63-67 | without an extended form, the filename is the non-`"` run of the leftmost complete `filename="…"` |
| Disposition.NoFormGivesDefault | word_form_fe/src/App.tsx:57-69 | a header where neither form matches keeps the default name |
| Disposition.MalformedExtendedValueFails | word_form_fe/src/App.tsx:60-62 | a malformed escape in the extended value makes the extraction throw |
| Disposition.FilenameShape | word_form_fe/src/App.tsx:57-70 | extraction throws only through decodeURIComponent of an extended value; a name not taken from the extended form is non-empty and has no `"` |
| Disposition.ExtendedWithoutPercentIsVerbatim | word_form_fe/src/App.tsx:60-62 | an extended value with no `%` is used unchanged |
| Disposition.NoStarNoExtended | word_form_fe/src/App.tsx:60 | a header without `*` never matches the extended form |
| RegistrationForm.WithField | word_form_fe/src/App.tsx:28-31 | the named field takes the new value and every other field keeps its value |
| RegistrationForm.WithFieldLaws | word_form_fe/src/App.tsx:28-31 | writing back a field's own value changes nothing; a second write to a field overrides the first |
| RegistrationForm.WithFieldCommutes | word_form_fe/src/App.tsx:28-31 | writes to two different fields commute |
| RegistrationForm.MemberRegistrationForm.constructor | word_form_fe/src/App.tsx:14-25 | the form starts empty, with no status and not submitting |
| RegistrationForm.MemberRegistrationForm.HandleChange | word_form_fe/src/App.tsx:27-32 | the record gets the one field replaced; status, flag and downloads are unchanged |
| RegistrationForm.MemberRegistrationForm.BeginSubmit | word_form_fe/src/App.tsx:36-37 | on entry the form is submitting and the status is cleared to `{null, ''}` |
| RegistrationForm.Attempt | word_form_fe/src/App.tsx:39-83 | the try block of handleSubmit: the download it starts or what it throws; its contract is given by the SubmitResult, NotOkIsError, MalformedFilenameIsError and SuccessExactly rows |
| RegistrationForm.SubmitResult | word_form_fe/src/App.tsx:39-92 | every exit sets a status; a download happens exactly on success; success carries the fixed message; an error message starts with the fixed apology |
| RegistrationForm.NotOkIsError | word_form_fe/src/App.tsx:50-52 | a non-ok response ends in the error status `… Error: Failed to generate document` and no download |
| RegistrationForm.MalformedFilenameIsError | word_form_fe/src/App.tsx:62 | when decodeURIComponent throws, the status is the error `… URIError: URI malformed` and nothing is downloaded |
| RegistrationForm.SuccessExactly | word_form_fe/src/App.tsx:50-87 | success exactly when the response is ok, the filename is extracted and the body is read; the download is that body under that filename |
| RegistrationForm.MemberRegistrationForm.HandleSubmit | word_form_fe/src/App.tsx:34-96 | isSubmitting ends false on every path; the record is unchanged; status and downloads are those of SubmitResult for the fetch outcome of the record posted |
| GenerateDocx.ContentDisposition | word_form_be/src/index.ts:54 | the template string of the header value; its contract is given by the ContentDispositionEmbedsName, ContentDispositionInjective and ContentDispositionValidIffNameValid rows |
| GenerateDocx.ContentDispositionEmbedsName | word_form_be/src/index.ts:54 | the header value holds the name verbatim, at offset 42, and is 48 characters longer than it |
| GenerateDocx.ContentDispositionInjective | word_form_be/src/index.ts:54 | distinct names give distinct header values |
| GenerateDocx.FixedTextsAreValid | word_form_be/src/index.ts:53-54 | the fixed parts of both header values are characters setHeader accepts |
| GenerateDocx.ContentDispositionValidIffNameValid | word_form_be/src/index.ts:54 | setHeader accepts the Content-Disposition value exactly when it accepts the name |
| GenerateDocx.MergeDocument | word_form_be/src/index.ts:35-50 | load, open, compile, render, generate, stopping at the first step that throws; its contract is given by the MergeSucceedsExactly row |
| GenerateDocx.MergeSucceedsExactly | word_form_be/src/index.ts:35-50 | the merge yields a buffer exactly when reading, opening, compiling, rendering and generating all succeed, and that buffer is the one generated from the rendered template |
| GenerateDocx.ServerResponse.constructor | word_form_be/src/index.ts:29 | the response as the handler finds it: status 200, none of the headers the handler sets, nothing sent (headers set earlier by Express and cors are not recorded) |
| GenerateDocx.ServerResponse.SetHeader | word_form_be/src/index.ts:53-54 | the header is recorded exactly when its value is valid, and nothing else changes |
| GenerateDocx.ServerResponse.Status | word_form_be/src/index.ts:60 | sets the status code only |
| GenerateDocx.ServerResponse.Send | word_form_be/src/index.ts:57 | sets the body to the buffer only |
| GenerateDocx.ServerResponse.Json | word_form_be/src/index.ts:60 | sets the body to the error object only |
| GenerateDocx.RespondWithError | word_form_be/src/index.ts:58-61 | the catch block leaves status 500 and the fixed error body, and keeps the headers already set |
| GenerateDocx.HandledResponse | word_form_be/src/index.ts:29-62 | the response the handler leaves, as status, the headers it set, and body; its contract is given by the HandleGenerateDocx, SuccessResponse, GenerationFailureResponse, InvalidNameResponse and ResponseOutcomes rows |
| GenerateDocx.HandleGenerateDocx | word_form_be/src/index.ts:29-62 | the handler leaves exactly the response HandledResponse describes |
| GenerateDocx.SuccessResponse | word_form_be/src/index.ts:47-57 | on success: status 200, the Word content type, the attachment header built from the name, and the generated buffer as body |
| GenerateDocx.GenerationFailureResponse | word_form_be/src/index.ts:35-60 | when the merge fails: status 500, the fixed error body, and no header set by the handler |
| GenerateDocx.InvalidNameResponse | word_form_be/src/index.ts:53-60 | when setHeader refuses the name: status 500 and the fixed error body; the Content-Type the handler set stays (Express's own rewrite while sending is not recorded), Content-Disposition is never set |
| GenerateDocx.ResponseOutcomes | word_form_be/src/index.ts:29-62 | the status is 200 or 500; 200 exactly when the merge succeeds and the name is a valid header value; Content-Disposition is present exactly then |
| EndToEnd.HeaderLayout | word_form_be/src/index.ts:54 | the header is `attachment; `, `filename="`, the intended filename and a closing quote, at fixed positions |
| EndToEnd.StarOnlyFromName | word_form_be/src/index.ts:54 | a `*` in the header can only come from the name |
| EndToEnd.QuotedFormAt12 | word_form_fe/src/App.tsx:65 | the client's quoted pattern matches the server's header at position 12 and nowhere before |
| EndToEnd.ServerHeaderReadsQuoted | word_form_fe/src/App.tsx:60-67 | for a name without `*`, the client takes the quote-free run after the server's `filename="` |
| EndToEnd.HeaderRoundTrip | word_form_fe/src/App.tsx:60-67 | for every name with neither `"` nor `*`, the client reads the server's header back as exactly `member-registration-<name>.docx` |
| EndToEnd.QuoteInNameTruncates | word_form_fe/src/App.tsx:65-67 | a `"` in the name cuts the filename at the first quote |
| EndToEnd.QuotedNameCounterexample | word_form_fe/src/App.tsx:65-67 | the name `a"b` is saved as `member-registration-a` |
| EndToEnd.ExtendedNameTakesOver | word_form_fe/src/App.tsx:60-62 | a name starting with `filename*=UTF-8''` followed by text x without `;` or `%` makes the client save `x.docx"` |
| EndToEnd.ExtendedFormAfterStarFree | word_form_fe/src/App.tsx:60-62 | an extended form with no `*` before it, running to the end of a header with no `;` after it, is what the client decodes |
| EndToEnd.Transmit | word_form_fe/src/App.tsx:47 | an assumption, not a proved fact: JSON.stringify on the client and express.json on the server carry the five strings over unchanged (for a body within express.json's size limit) |
| EndToEnd.Receive | word_form_fe/src/App.tsx:50-55 | an assumption, not a proved fact: fetch reports ok for a 2xx status, shows the Content-Disposition header the server set (exposed by the cors setting), and gives the sent bytes as the blob |
| EndToEnd.DownloadIsNamedAfterMember | word_form_fe/src/App.tsx:39-87 | a successful merge for a name the header can carry ends in the success status and a download of the generated document under `member-registration-<name>.docx` |
| EndToEnd.ServerFailureIsReported | word_form_fe/src/App.tsx:50-52 | any server failure reaches the user as the error status `… Error: Failed to generate document`, with no download |

## Left out

- `word_form_be/src/utils/docxConverter.ts` is not part of this model. It starts an `soffice` subprocess. No endpoint in `index.ts` calls it.
- Reading the template file, PizZip and docxtemplater internals (`index.ts:34-50`) are modelled only as opaque steps that yield a result or fail. The document contents are not modelled.
- Express routing, CORS, JSON parsing, and `app.listen` are left out, because they are server plumbing.
  - The `exposedHeaders` setting is assumed: the client sees `Content-Disposition`.
  - Headers set before the handler runs are not recorded. These are Express's `X-Powered-By` and the cors middleware's `Access-Control-Allow-Origin`, `Access-Control-Allow-Credentials`, `Access-Control-Expose-Headers` and `Vary`. The response model's headers are those the handler sets.
  - Headers that Express adds while sending are not recorded (Content-Length, ETag, the JSON content type). Nor are headers it rewrites then: `res.json` sends a string, so Express appends `; charset=utf-8` to the Content-Type the handler already set. `InvalidNameResponse` states the bare type the handler set.
  - express.json's body-size limit (100kb by default) is left out. A larger body is answered 413 before the handler runs. `DownloadIsNamedAfterMember` assumes the record fits.
- GenerateDocx.InvalidNameResponse: states the Content-Type as the handler set it. It does not state the `; charset=utf-8` that Express appends when `res.json` sends, because the response model records only what the handler writes.
- EndToEnd.DownloadIsNamedAfterMember: holds only for a record within express.json's size limit, because Transmit assumes the body reaches the handler.
- `console.log` and `console.error` are left out as logging.
- A request body whose fields are missing or are not strings is left out. `MemberData` has five string fields, so the `undefined` that would appear in the header cannot be expressed.
- `fetch`, `response.blob()`, object URLs and the anchor click are browser I/O.
  - They are the `send` parameter and the `FetchOutcome` it returns. A download is recorded as a filename and bytes.
  - The request's URL, method, credentials and Accept header are not modelled.
  - `e.preventDefault()` is not modelled.
- React state updates are applied immediately and in order, as JavaScript performs them. `await` points are treated as sequential steps. React's batching, re-rendering and any interleaving with other events are left out.
- `HandleChange`: the event target's `name` is assumed to be one of the five input names in the JSX (`App.tsx:115-164`), and so is a `Field`. Any other name would add a key to the record; that is not modelled.
- JSX rendering (`App.tsx:98-191`) is UI.
- `UriCodec.Decode`: strings are code points, not UTF-16 code units. A JavaScript string holding an unpaired surrogate cannot be expressed. The error text `URIError: URI malformed` is V8's wording of the exception.
- `GenerateDocx.ServerResponse.SetHeader`: only the header-value characters Node refuses are modelled. Node's other checks on header names, and on values after the response was sent, are left out.
