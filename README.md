# Upload request validation

This project models the front half of the `POST /upload` endpoint of a small
Express service. The endpoint downloads a file from a storage URL and
forwards it to OpenAI's file API. The model covers everything the handler
decides before the download, which is where all of its logic lives:

- the presence check on the `openAiApiKey` and `fileUrl` body fields, with
  JavaScript truthiness (`Upload.IsTruthy`);
- extraction of the file name from the URL with the regular expression
  `public%2F(.*?)\?` (module `FileName`);
- `decodeURIComponent` of the captured name (module `UriComponent`, over the
  UTF-8 coding in module `Utf8`);
- `path.extname(name).substring(1).toLowerCase()` (module `PathExt` and
  `Upload.FileExtension`);
- the allow-list check, its error text, the `image` / `document` / `unknown`
  category, and the `application/<extension>` content type (module `Upload`).

`Upload.HandleUpload` composes these steps in the handler's order. It
returns either the rejection the handler answers with (`Rejection`, with its
HTTP status and error text) or the accepted file: its decoded name,
extension, category and content type.

Each step has an independent partner definition or an inverse:

- The regular expression is specified declaratively (`MatchesAt`,
  `IsLeftmostMatch`), and `FileName.Extract` is proved to compute exactly
  the leftmost match's group.
- `UriComponent.Decode` is proved against `UriComponent.Encode`
  (`encodeURIComponent`), and `Utf8.DecodeScalar` against `Utf8.Encode`.
- `Upload.EncodedNameRoundTrip` ties the whole pipeline together. For every
  non-empty file name written into the URL by `encodeURIComponent`, after a
  prefix that contains no `%`, the handler gives exactly the verdict on the
  original name.

Where the handler's answers may surprise a caller, the model follows the
code:

- A malformed `%` escape in the captured name is answered with status 500
  and the text "Error uploading file to OpenAI", not with an invalid-format
  400. `decodeURIComponent` throws inside the `try` block (index.js:35,
  86-88).
- A `fileUrl` that is truthy but not a string also gets that 500 answer,
  because it has no `match` method (index.js:30).
- Every failure caught by the `catch` block gets the same text. The code
  does not distinguish download failures from upload failures.
- The `unknown` category cannot be reached. The two category lists split the
  allow-list exactly (`Upload.CategoriesPartitionAllowList`), so the third
  branch at index.js:80 is dead code.

## Model

| member | source | states |
|---|---|---|
| Upload.HandleUploadSpec | index.js:21-46 | The missing-parameter 400 comes exactly when a field is falsy. An accepted file's extension is on the allow-list, its category is not `unknown`, and its content type is `application/<extension>`. A refused extension is off the allow-list. |
| Upload.NonStringUrlIsServerError | index.js:30 | A truthy `fileUrl` that is not a string gets the 500 answer: `match` throws and the `catch` block answers. |
| FileName.GroupEnd | index.js:30 | The lazy group starting at k ends at the first `?`. If it finds none, no `?` closes a group free of line terminators. |
| FileName.MatchFrom | index.js:30 | The search from i finds a match that no earlier start has. It finds none exactly when no match starts at or after i. |
| FileName.Extract | index.js:30 | `match` gives nothing exactly when the pattern matches nowhere. Otherwise it gives the group of the leftmost match. |
| FileName.ExtractComposed | index.js:30 | A URL of the form prefix, marker, name, `?`, rest yields that name when the prefix has no `%` and the name has no `?` and no line terminator. |
| Upload.InvalidUrlFormatIff | index.js:31-33 | With both fields present, the URL is refused as malformed exactly when the pattern does not match or the leftmost match captures the empty string. |
| Upload.RefusesEmptyName | index.js:31-33 | `public%2F?` after a prefix without `%` captures nothing, so the URL is refused as malformed. |
| UriComponent.DecodeEncode | index.js:35 | `decodeURIComponent(encodeURIComponent(s)) == s` for every string. |
| UriComponent.DecodeWithoutEscapes | index.js:35 | A name without `%` decodes to itself. |
| UriComponent.DecodeRejectsMalformedEscape | index.js:35 | A `%` that does not start a well-formed `%XY` escape, wherever it stands, makes decoding throw. |
| UriComponent.OctetsAt | index.js:35 | Reading n escapes gives n octets, the m-th being the value of the m-th escape's two hex digits. The read fails exactly when one of the n escapes is missing or malformed. |
| UriComponent.OctetsOfEscapes | index.js:35 | The escapes written for a run of octets read back as those octets. |
| UriComponent.EncodeAlphabet | index.js:35 | `encodeURIComponent` writes only unreserved characters, `%` and hex digits, and writes nothing only for the empty string. |
| UriComponent.HexDigit | index.js:35 | The digit written for a value below 16 reads back as that value. |
| Utf8.Encode | index.js:35 | A character's UTF-8 form has 1 to 4 bytes. It has one byte exactly for ASCII. A longer form's lead byte counts its length, and the other bytes are continuation bytes. |
| Utf8.DecodeEncode | index.js:35 | Decoding the UTF-8 form of a character gives that character. |
| Utf8.EncodeDecode | index.js:35 | A byte sequence that decodes to a character is that character's UTF-8 form, so overlong and surrogate forms are refused. |
| Upload.DecodeFailureIsServerError | index.js:35 | When the captured name does not decode, the answer is the 500 error, although the URL passed the format check. |
| Upload.MalformedEscapeIsServerError | index.js:35 | `public%2F100%.pdf?` after a prefix without `%` gets the 500 error, because `%.p` is no escape. |
| PathExt.TrimTrailingSlashes | index.js:36 | Trailing `/` separators are removed and nothing else: the result is a prefix of the path, does not end in `/`, and only `/` was cut. |
| PathExt.LastIndexOf | index.js:36 | The search finds nothing exactly when the character is absent. Otherwise it finds an occurrence with none after it. |
| PathExt.LastIndexOfAt | index.js:36 | An occurrence of the character with none after it is exactly the position the search finds. |
| PathExt.LastSegmentWithoutSlash | index.js:36 | A path without `/` is its own last segment. |
| PathExt.ExtNameOfBaseAndExt | index.js:36 | `base.ext`, with no other dot and no separator, has the extension `.ext`. |
| PathExt.AfterLastSlashSpec | index.js:36 | The last segment of a trimmed path has no `/`. It ends the path, and it either starts the path or follows a `/`. |
| PathExt.SegmentExtName | index.js:36 | The extension of a segment is empty or a dot followed by dot-free text, and it is a suffix of the segment. |
| PathExt.SegmentExtNameEmpty | index.js:36 | A segment has no extension exactly when it has no dot, its only dot leads it, or it is `..`. |
| PathExt.SegmentExtNameWithoutText | index.js:36 | A segment's extension is empty or a lone dot exactly when the segment has no dot, its only dot leads it, or it ends with a dot. |
| Upload.FileExtensionSpec | index.js:36 | The extension has no `.` and no `/`. It is empty exactly when the last segment has no dot, has only a leading dot, or ends with a dot. Otherwise it is the lower-cased text after the segment's last dot. |
| Upload.FileExtensionOfPlainName | index.js:36 | `base.ext`, with no other dot and no separator, has the extension `ext` lower-cased. |
| Upload.LowerKeepsSeparators | index.js:36 | Lower-casing keeps the length and leaves `.` and `/` where they are. |
| Upload.ExtNameLower | index.js:36 | `path.extname` commutes with lower-casing. |
| Upload.FileExtensionIgnoresCase | index.js:36 | The extension of the lower-cased name is the extension of the name. |
| Upload.CheckFileNameIgnoresCase | index.js:36-42 | Names that differ only in letter case get the same extension and the same verdict. |
| Upload.CheckFileName | index.js:39-62 | A decoded name is accepted exactly when its extension is on the allow-list. An accepted file keeps its name and extension, has a category other than `unknown`, and has content type `application/<extension>`. A refused one names its extension. |
| Upload.ExtensionDecides | index.js:36-46 | Once the name is captured and decoded, the request is accepted exactly when the extension is allowed. Otherwise it is refused, naming that extension. |
| Upload.JoinAppend | index.js:41 | Joining two non-empty lists puts the separator between their joins. |
| Upload.AllowListText | index.js:41 | The allow-list in the error text reads `txt, jpeg, jpg, png, gif, webp, doc, docx, pdf`. |
| Upload.UnsupportedMessageText | index.js:41 | The rejection text names the extension and then lists the nine allowed extensions in order. |
| Upload.CategoriesPartitionAllowList | index.js:39-46 | The image and document lists are disjoint, and together they hold exactly the allow-list. |
| Upload.CategoryOfValidExtension | index.js:80 | `image` is given exactly for the image list and `document` exactly for the document list. `unknown` is given exactly off the allow-list, so no accepted file gets it. |
| Upload.PlainNameVerdict | index.js:30-62 | For a URL carrying `base.ext` with nothing to decode, the verdict is the allow-list's verdict on `ext` lower-cased, whatever query follows, when nothing before the marker contains `%`. |
| Upload.AcceptsReportPdf | index.js:30-62 | `public%2Freport.pdf?` after a prefix without `%` is accepted as a document with content type `application/pdf`. |
| Upload.AcceptsPhotoPng | index.js:30-62 | `public%2Fphoto.png?` after a prefix without `%` is accepted as an image with content type `application/png`. |
| Upload.RefusesArchiveZip | index.js:39-42 | `public%2Farchive.zip?` after a prefix without `%` is refused with a 400 whose text names `zip` and the nine allowed extensions. |
| Upload.AcceptsUpperCaseExtension | index.js:36 | `public%2Freport.PDF?` after a prefix without `%` is accepted with the extension `pdf`. |
| Upload.EncodedNameRoundTrip | index.js:30-46 | For every non-empty name written into the URL by `encodeURIComponent`, the handler gives exactly the verdict on the original name, when nothing before the marker contains `%`. |

## Left out

- Everything after validation (index.js:48-84) is left out because it is I/O: the download with axios, the temporary file write and delete, the multipart form, the POST to the OpenAI API, and the returned `fileId`. `Accepted` means only that the request passed every check. A download or upload failure there is answered with the same 500 as `UploadFailed`.
- The temporary file is not removed on failure paths. Name collisions between concurrent requests are possible. Both are I/O and concurrency behaviour and are not modelled.
- Server start-up, the upload directory creation, the JSON body parser and the logging in the `catch` block are left out.
- Upload.Lower: folds only ASCII letters, while `toLowerCase` folds all of Unicode. Acceptance is unaffected, because the only non-ASCII characters that lower-case into ASCII are U+212A (to `k`) and U+0130 (to `i` followed by U+0307), and neither can produce an allowed extension. The extension named in a rejection text can differ for non-ASCII capitals.
- UriComponent.Decode: a Dafny `char` is a Unicode scalar value, while a JavaScript string is UTF-16. A supplementary character is one character here instead of a surrogate pair, and a lone surrogate in the URL is not representable.
- Upload.JsonValue: numbers are modelled as reals. Only their truthiness matters to the handler, and JSON has no NaN.
- PathExt.ExtName: models Node's POSIX `path` module, where only `/` separates segments. On Windows `path.extname` also treats `\` as a separator, so a name such as `report.pdf\` would get the extension `pdf` there, while this model gives `pdf\` and refuses it.
- Upload.EncodedNameRoundTrip: the end-to-end lemmas (and `FileName.ExtractComposed`, `Upload.PlainNameVerdict` and the worked examples) assume a prefix without `%`. Any other prefix that holds no earlier `public%2F` behaves the same, but that wider condition is not proved. A prefix that holds an earlier marker whose group reaches a `?` before any line terminator makes the handler capture that group instead.
