# PDF Merge: a verified model of the forms, the request builder and the backend page selection

This project models the logic of the PDF Merge web application: the three upload forms of its
front end, the multipart bodies its API client builds, and the page selection and naming rules
of its Python backend.

- **Forms.** `MergePDF`, `SplitPDFRange` and `SplitPDFPages` each become a class whose fields are
  the component's state. The fields are the selected file(s), password, output filename, page
  inputs, busy flag, error line and, for split-pages, the shown result.
- **Handlers.** Each event handler becomes a method.
  - An asynchronous submit handler is split at its `await`. `Submit` runs the checks and either
    sets the error or starts the call, returning the exact arguments passed to the API.
  - `Complete(outcome)` takes how the call settled: resolved with a payload, or rejected. It
    returns the download the form triggers, if any: the chosen name and the blob.
  - The call keeps the values the handler captured when it started. So the download name uses
    the filename as it was at submission, as the JavaScript closure does.
- **Toasts.** Those shown by the split-pages form are kept in a ghost log of (kind, message) pairs.
- **Page numbers.** The range form reads its page inputs with JavaScript's `parseInt`. It is
  modelled after section 19.2.5 of ECMA-262 with the radix left undefined: leading white space,
  one sign, the `0x` prefix and the longest digit prefix. So `""` and `"0"` fail the truthiness
  check, `"-1"` passes it, and `"1.9"` reads as 1.
- **Request bodies.** The API client's `FormData` bodies are ordered lists of fields.
- **Backend.** `split_pdf_range` and `split_pdf_pages` become methods over an opaque list of
  pages. Each returns the documents it would write, with an encryption flag, beside the output
  paths.

Files: `option.dfy` (Option), `js_number.dfy` (parseInt and integer `toString`), `browser.dfy`
(files, blobs, outcomes, toasts, the extension rule), `api.dfy`, `merge_pdf.dfy`,
`split_pdf_range.dfy`, `split_pdf_pages.dfy`, `backend_pdf.dfy` (written documents,
`os.path.join`), `backend_split_range.dfy`, `backend_split_pages.dfy`.

Notes on the code's behaviour:

- Only the split-pages form shows toasts. The merge and range forms only set their error line.
- The split-pages form does not reset its inputs after a success.
- The forms call the API client directly, with no timeout wrapper.
- The API client never sends a `filename` field. It also ignores the filename argument that the
  forms pass as an extra argument.

## Model

| member | source | states |
|---|---|---|
| JsNumber.ParseIntReadsLongestRun | PDF_merge/src/components/SplitPDFRange.tsx:40-41 | parseInt is NaN exactly when no digit follows the white space, the sign and the hex prefix; otherwise it is the value of the longest digit run there, negated after a minus sign |
| JsNumber.TruthyPageInputs | PDF_merge/src/components/SplitPDFRange.tsx:43 | the `!start \|\| !end` test rejects empty and blank inputs, zero in any spelling (`0`, `-0`, `00`, `0x0`) and a bare `0x`, and lets `-1` and ` 7` through |
| JsNumber.TrimStart | PDF_merge/src/components/SplitPDFRange.tsx:40-41 | parseInt first drops leading white space; the result is never longer than the input |
| JsNumber.TrimStartRemovesLeadingSpace | PDF_merge/src/components/SplitPDFRange.tsx:40-41 | the trimmed text is a suffix of the input; everything removed is StrWhiteSpace; what is left does not start with white space |
| JsNumber.DigitPrefixLength | PDF_merge/src/components/SplitPDFRange.tsx:40-41 | the digit run parseInt reads never extends past the input |
| JsNumber.DigitPrefixIsLongest | PDF_merge/src/components/SplitPDFRange.tsx:40-41 | that run is the longest prefix of digits: every character in it is a digit and the next one is not |
| JsNumber.DigitValue | PDF_merge/src/components/SplitPDFRange.tsx:40-41 | a character's digit value is below 10 exactly when it is a decimal digit |
| JsNumber.DecimalDigit | PDF_merge/src/services/api.ts:73-74 | the character written for a digit value below 10 is a decimal digit and reads back as that value |
| JsNumber.NatToDecimal | Backend/split_pdf_pages.py:32 | the decimal rendering of a natural is non-empty, all digits, has no leading zero and reads back as that number |
| JsNumber.IntToDecimal | PDF_merge/src/services/api.ts:73-74 | `toString` of an integer starts with a minus sign exactly when the integer is negative |
| JsNumber.IntToDecimalIsCanonical | PDF_merge/src/services/api.ts:73-74 | after that sign, `toString` of an integer below 1e21 in magnitude writes the canonical digits of its magnitude: non-empty, decimal only, no leading zero, and worth exactly the magnitude |
| JsNumber.NatToDecimalDistinct | Backend/split_pdf_pages.py:32 | different numbers have different decimal renderings |
| JsNumber.DigitPrefixOfDigits | PDF_merge/src/components/SplitPDFRange.tsx:40-41 | a run of digits followed by a non-digit is read exactly up to its end |
| JsNumber.ParseMagnitudeOfDecimal | PDF_merge/src/components/SplitPDFRange.tsx:40-41 | an unsigned decimal rendering followed by a non-digit, non-`x` character reads as its number |
| JsNumber.ParseIntOfDecimal | PDF_merge/src/components/SplitPDFRange.tsx:40-41 | parseInt of a decimal integer followed by any text that cannot continue it gives that integer (`"1.9"` gives 1) |
| JsNumber.ParseIntToString | PDF_merge/src/services/api.ts:73-74 | parseInt of the plain decimal rendering of `n` is `n`, for every integer: page numbers sent as text read back unchanged (below 1e21, where `toString` writes plain digits) |
| JsNumber.ParseIntSkipsWhiteSpace | PDF_merge/src/components/SplitPDFRange.tsx:40-41 | leading white space never changes what parseInt reads |
| Browser.WithExtension | PDF_merge/src/components/SplitPDFRange.tsx:68 | the download name always ends with the extension; a name that already does is kept; otherwise the extension is appended to the unchanged name |
| Browser.WithExtensionIdempotent | PDF_merge/src/components/MergePDF.tsx:43 | applying the download-name rule twice equals applying it once |
| Browser.OrUndefined | PDF_merge/src/components/MergePDF.tsx:37 | `password \|\| undefined` is undefined exactly for the empty password and the password itself otherwise |
| Api.SendsTypedPassword | PDF_merge/src/services/api.ts:28-30 | the `if (password)` test sends a typed password exactly when it is not empty, whether the form passes `password \|\| undefined` or the raw text; an absent password is never sent |
| Api.MergeFormData | PDF_merge/src/services/api.ts:24-30 | one `files` field per file in input order, then a `password` field exactly when the password is truthy, last; no other field name occurs, so no filename is sent |
| Api.SplitPagesFormData | PDF_merge/src/services/api.ts:46-50 | exactly one `file` field, then `password` exactly when truthy; no other field name occurs |
| Api.SplitRangeFormData | PDF_merge/src/services/api.ts:71-77 | fields `file`, `start_page`, `end_page`, then `password` exactly when truthy; the two page fields are exactly the decimal renderings of the numbers given, and they parse back to them; no other field name occurs |
| MergePdf.PdfOnly | PDF_merge/src/components/MergePDF.tsx:15-17 | the filtered selection holds exactly the chosen files whose type is `application/pdf`, and is no longer than the choice |
| MergePdf.PdfOnlyConcat | PDF_merge/src/components/MergePDF.tsx:15-18 | filtering keeps order: filtering two selections one after the other is filtering their concatenation |
| MergePdf.PdfOnlyKeepsPdfs | PDF_merge/src/components/MergePDF.tsx:15-18 | a choice of PDFs only is kept whole and in order |
| MergePdf.RemoveAt | PDF_merge/src/components/MergePDF.tsx:24 | filtering by index drops exactly the element at an in-range index and keeps the rest in order; an out-of-range index changes nothing |
| MergePdf.MergePdfForm.constructor | PDF_merge/src/components/MergePDF.tsx:6-10 | initial state: no files, empty password, filename `merged.pdf`, not loading, no error |
| MergePdf.MergePdfForm.SelectFiles | PDF_merge/src/components/MergePDF.tsx:13-21 | the PDFs among the chosen files are appended after the earlier selection and the error is cleared; no file list changes nothing |
| MergePdf.MergePdfForm.RemoveFile | PDF_merge/src/components/MergePDF.tsx:23-25 | removes exactly the i-th file, keeps the rest in order, ignores an out-of-range index, changes nothing else |
| MergePdf.MergePdfForm.SetPassword | PDF_merge/src/components/MergePDF.tsx:127 | the password input sets only the password |
| MergePdf.MergePdfForm.SetFilename | PDF_merge/src/components/MergePDF.tsx:142 | the filename input sets only the filename |
| MergePdf.MergePdfForm.Submit | PDF_merge/src/components/MergePDF.tsx:27-158 | a click makes the call exactly when the button was enabled (`disabled={loading \|\| files.length < 2}` at line 158, negated as `SubmitEnabled`); fewer than 2 files: error 'Please select at least 2 PDF files to merge' and no call; otherwise loading is set, the error cleared and the call gets the files in order, the password or undefined, and the filename; inputs unchanged |
| MergePdf.MergePdfForm.Complete | PDF_merge/src/components/MergePDF.tsx:37-61 | success saves the blob under the submitted filename with `.pdf` ensured, then resets files, password and filename to [], '' and 'merged.pdf'; failure sets 'Failed to merge PDFs. Please try again.' and leaves the inputs; loading is false on both paths |
| SplitPdfRange.CheckRange | PDF_merge/src/components/SplitPDFRange.tsx:35-56 | no file gives 'Please select a PDF file'; a request is accepted exactly when a file is selected and both inputs parse to integers with 1 ≤ start ≤ end, and it then carries those parsed values |
| SplitPdfRange.CheckRangeFirstFailureWins | PDF_merge/src/components/SplitPDFRange.tsx:35-56 | each refusal message is given exactly when every earlier check passed and its own check fails, in the order file, validity, start ≥ 1, end ≥ start |
| SplitPdfRange.CheckRangeExamples | PDF_merge/src/components/SplitPDFRange.tsx:40-56 | `""`, `"0"` and `"abc"` are not valid page numbers; `"-1"` to `"5"` fails on the start; `"5"` to `"3"` fails on the order; `"1"` to `"3"` is accepted as (1, 3); `"1.9"` reads as 1 |
| SplitPdfRange.SplitPdfRangeForm.constructor | PDF_merge/src/components/SplitPDFRange.tsx:6-12 | initial state: no file, empty bounds and password, filename `split.pdf`, not loading, no error |
| SplitPdfRange.SplitPdfRangeForm.SelectFile | PDF_merge/src/components/SplitPDFRange.tsx:15-25 | only the first chosen file counts: a PDF replaces the file and clears the error; a non-PDF sets 'Please select a valid PDF file' and keeps the file |
| SplitPdfRange.SplitPdfRangeForm.RemoveFile | PDF_merge/src/components/SplitPDFRange.tsx:27-32 | the file becomes null and nothing else changes |
| SplitPdfRange.SplitPdfRangeForm.SetStartPage | PDF_merge/src/components/SplitPDFRange.tsx:145 | the start input sets only the start text |
| SplitPdfRange.SplitPdfRangeForm.SetEndPage | PDF_merge/src/components/SplitPDFRange.tsx:156 | the end input sets only the end text |
| SplitPdfRange.SplitPdfRangeForm.SetPassword | PDF_merge/src/components/SplitPDFRange.tsx:172 | the password input sets only the password |
| SplitPdfRange.SplitPdfRangeForm.SetFilename | PDF_merge/src/components/SplitPDFRange.tsx:187 | the filename input sets only the filename |
| SplitPdfRange.SplitPdfRangeForm.SubmitEnabled | PDF_merge/src/components/SplitPDFRange.tsx:203 | an enabled button means no call is in flight and a file is selected; when nothing is in flight, a disabled button only ever hides inputs the handler's checks would refuse |
| SplitPdfRange.SplitPdfRangeForm.Submit | PDF_merge/src/components/SplitPDFRange.tsx:34-62 | a call is only made when the button was enabled; a refused check sets its message and makes no call; an accepted one sets loading, clears the error and calls with (file, start, end, password or undefined, filename) where 1 ≤ start ≤ end; inputs unchanged |
| SplitPdfRange.SplitPdfRangeForm.Complete | PDF_merge/src/components/SplitPDFRange.tsx:62-88 | success saves the blob under the submitted filename with `.pdf` ensured and resets file, bounds, password and filename to null, '', '', '' and 'split.pdf'; failure changes only the error; loading is false on both paths |
| SplitPdfPages.SplitSuccessMessage | PDF_merge/src/i18n.ts:92 | the success message starts with 'PDF split into ', ends with ' pages successfully!', and between them holds exactly the decimal rendering of the count |
| SplitPdfPages.SplitSuccessMessageThree | PDF_merge/src/i18n.ts:92 | for three pages the message reads 'PDF split into 3 pages successfully!' |
| SplitPdfPages.SplitSuccessMessageCount | PDF_merge/src/components/SplitPDFPages.tsx:68 | the success toast's count, read back from the message, is the count it was made with |
| SplitPdfPages.ArchiveName | PDF_merge/src/components/SplitPDFPages.tsx:58 | the archive name always ends in `.zip` and equals the general extension rule (the emptiness guard changes nothing), so an empty filename gives `.zip` |
| SplitPdfPages.SplitPdfPagesForm.constructor | PDF_merge/src/components/SplitPDFPages.tsx:9-14 | initial state: no file, empty password, not loading, no error, no result, filename `split_pages.zip`, no toasts |
| SplitPdfPages.SplitPdfPagesForm.SelectFile | PDF_merge/src/components/SplitPDFPages.tsx:19-30 | only the first chosen file counts: a PDF replaces the file and clears error and result; a non-PDF sets 'Please select a PDF file' and keeps file and result |
| SplitPdfPages.SplitPdfPagesForm.RemoveFile | PDF_merge/src/components/SplitPDFPages.tsx:32-38 | both the file and the result become null, nothing else changes |
| SplitPdfPages.SplitPdfPagesForm.SetPassword | PDF_merge/src/components/SplitPDFPages.tsx:137 | the password input sets only the password |
| SplitPdfPages.SplitPdfPagesForm.SetFilename | PDF_merge/src/components/SplitPDFPages.tsx:152 | the filename input sets only the filename |
| SplitPdfPages.SplitPdfPagesForm.Submit | PDF_merge/src/components/SplitPDFPages.tsx:40-190 | a click makes the call exactly when the button was enabled (`disabled={loading \|\| !file}` at line 190, negated as `SubmitEnabled`); no file: the error is set, exactly one error toast with the same message is logged and no call is made; otherwise loading is set, the error cleared, and the call gets the raw password (an empty one stays '') and the filename |
| SplitPdfPages.SplitPdfPagesForm.Complete | PDF_merge/src/components/SplitPDFPages.tsx:52-78 | a blob is saved under the archive name and clears the result; a manifest becomes the result exactly and the success toast carries its length; a failure sets the error and one error toast with the split-failure message and keeps file and result; loading is false afterwards |
| PdfOutput.EncryptsTruthyPassword | Backend/split_pdf_range.py:30-31 | the backend encrypts exactly when the password is neither None nor empty, so even a blank password encrypts |
| PdfOutput.JoinPath | Backend/split_pdf_pages.py:32 | `os.path.join`: an absolute name replaces the folder; a relative one is appended after exactly one `/`, or directly when the folder is empty or already ends in `/` |
| PdfOutput.JoinPathDistinct | Backend/split_pdf_pages.py:32 | different names give different paths under `output` |
| BackendSplitRange.SplitPdfRange | Backend/split_pdf_range.py:22-33 | the output holds source pages max(1, start) through min(end, total), in order, with count max(0, end − start + 1); every index read is in range; an in-range request gives exactly that slice, an inverted or out-of-range one gives no pages and raises nothing; encrypted iff the password is truthy |
| BackendSplitPages.BaseName | Backend/split_pdf_pages.py:22 | the base name is the prefix when it is non-empty, else 'split_pages_' followed by the generated hex id |
| BackendSplitPages.PagePath | Backend/split_pdf_pages.py:32 | page i goes to `output/<base>_page_<i+1>.pdf`; a base starting with `/` (a caller-supplied absolute prefix) replaces the folder and the file lands outside `output` |
| BackendSplitPages.PagePathsDistinct | Backend/split_pdf_pages.py:32 | the paths of two different pages never coincide |
| BackendSplitPages.SplitPdfPages | Backend/split_pdf_pages.py:22-37 | one output per source page in page order; output i holds exactly page i, is encrypted iff the password is truthy, and is written to output/<base>_page_<i+1>.pdf; all paths are pairwise distinct |

## Left out

- The timeout and minimum-loading-time helpers in `utils/loadingTimeout.ts` are left out. They
  race a promise against timers, and none of the modelled forms call them.
- The toast provider (`utils/Toast`) is not part of this model. The toasts the split-pages form
  shows are a ghost log only: no expiry and no dismissal.
- Translations are left out. The i18n table and its `t()` lookup are replaced by the English
  strings they resolve to; the `{{count}}` interpolation is written out.
- Logging (`AppLogger`, `console.error`) is left out, since it only writes output.
- DOM download mechanics are left out: object URLs, the anchor element, `click`, revocation and
  clearing the file input's `value`. Only the download's name and blob are modelled.
- The axios posts, the base-URL lookup, the FastAPI routes in `main.py` and `merge_pdfs.py` are
  left out. They are transport and library glue.
- PyPDF2 reading, writing and encryption are reduced to an opaque page list and a boolean flag.
  File writes are reduced to the returned documents. The uuid hex id is a parameter.
- The tkinter command-line blocks under `__main__` are left out.
- React scheduling is simplified: each handler's state updates are applied at once. The button's
  `disabled` attribute is a predicate (`SubmitEnabled`) and is not a precondition.
- `Submit` (all three forms) requires that no call is in flight. The button is disabled while
  loading, so the handler is never reached then.
- `JsNumber.ParseInt` uses exact integers. JavaScript rounds digit strings longer than about 16
  digits to the nearest double.
- `JsNumber.ParseInt` represents negative zero as 0. Both are falsy and compare the same way.
- `JsNumber.IntToDecimal` covers integer arguments only, and always writes plain decimal digits.
  Page numbers reach `toString` after `parseInt`, so they are always integers. But JavaScript's
  `toString` switches to exponent notation from 1e21 up (`1e+21`) and gives `Infinity` beyond the
  double range. So a page input of 22 or more digits reaches the backend as `1e+21`-style text in
  the program, and as plain digits in the model. `ParseIntToString` and `Api.SplitRangeFormData`
  hold for the program only below 1e21.
