# Image converter: naming, dispatch and packaging

A model of the browser image converter in `script.js`. The user picks one
or more files, a target format (JPEG, PNG or WEBP) and a quality. Pressing
Convert sends each file through one of five decode paths, chosen by its
extension:

- native images, through an `Image` element;
- TIFF, through UTIF;
- PSD, through psd.js;
- ICO, through icojs;
- PDF, one result per page, through pdf.js.

Every result is encoded with the canvas encoder. The handler then names the
results and offers them for download:

- one file with one result becomes a direct download;
- one file with any other number of results becomes `<base>_converted.zip`;
- several files become `converted_images.zip`, where each failing file is
  reported on its own and adds nothing. This holds when every file's
  conversion settles; a conversion that never settles stalls the whole
  batch (see "Left out").

The model has four modules, plus a small one for outcomes:

- `Outcomes` (`outcomes.dfy`): `Option` and `Result`. A failure carries the
  JavaScript error's `message`.
- `Naming` (`naming.dfy`): the pure string logic, written as functions with
  lemmas. It covers ASCII `toLowerCase`, `lastIndexOf`, `split` and its
  inverse `join`, `getFileExtension`, the base name, the target extension,
  page and archive names, and the base64 payload of a data URL
  (`split(',')[1]`).
- `Decoders` (`decoders.dfy`): the foreign libraries, as one `Codecs` record
  of functions. Each field is the function of its input that the call
  computes. The module also holds the two rules the converter applies
  around these calls:
  - the quality argument is passed only for JPEG and WEBP;
  - the ICO `reduce` decodes the first widest icon.
- `Conversion` (`conversion.dfy`): the decode paths and `convertFile`.
  - `FileConversion` is the specification function of what `convertFile`
    resolves or rejects with.
  - `ConvertFile` is the method. It builds `results` the way the source
    does and is proved equal to `FileConversion`.
  - `ConvertPdf` pushes the page promises in a loop and is proved equal to
    `PdfConversion`.
  - A rejected promise is an `Err` carrying the error message.
- `Packaging` (`packaging.dfy`): the click handler.
  - The JSZip archive is a class, `ZipArchive`, whose `entries` map each
    method updates in place.
  - `HandleSingle`, `HandleMany` and `HandleClick` are the branches of the
    handler. They are proved equal to the specification functions
    `SinglePackaging` and `BatchPackaging` of the conversion outcomes.
  - The lemmas state what those functions promise: names, counts, values,
    and per-file failure.

How the model reads the code:

- A failing file in a batch does not stop the batch. Its `.catch` at
  script.js:322-324 alerts and resolves, so the `Promise.all` at
  script.js:327 still resolves and `converted_images.zip` is produced from
  the other files.
- A batch of several files is always zipped, even when only one entry
  results: script.js:327-334 offers `converted_images.zip` whatever the
  entries are.
- Output names are unique within one file (`PageNamesDistinct`), but not
  across a batch. `photo.png` and `photo.gif` both become `photo.jpeg`, and
  the archive keeps one entry (`SameBaseNameCollides`).
- A name with no dot is its own extension, lower-cased: `README` selects
  no path and fails with `Unsupported file format: readme`.
- A name whose only dot is its first character keeps the whole name as its
  base name (the `|| originalName` fallback).
- An ICO file with no icons makes `reduce` yield `undefined`. Reading
  `.src` from it throws a `TypeError`, and the surrounding `.catch`
  rejects with that error. The model fails with `NoIconMessage`.
- A PDF with zero pages resolves with no results. A single file then gets
  an empty `<base>_converted.zip`, since the count is not one.
- `Promise.all` over the page promises is modelled on the values. It
  resolves with all pages in push order, or fails if any page fails.

## Model

| member | source | states |
|---|---|---|
| Naming.LowerChar | script.js:35 | the result is never an upper-case ASCII letter; it is the input, or the input's upper-case letter shifted by 32 |
| Naming.Lower | script.js:35 | lower-casing keeps the length and lower-cases each character in place |
| Naming.LastIndexOf | script.js:227 | the result is -1 or an index holding the character, and no later index holds it |
| Naming.Split | script.js:35 | `split` always yields at least one piece |
| Naming.SplitPiecesHaveNoSeparator | script.js:35 | no piece of a split contains the separator |
| Naming.JoinSplit | script.js:35 | joining the pieces with the separator gives back the original string (round trip) |
| Naming.LastPiece | script.js:35 | the piece `pop` takes is the text after the last separator, or the whole string when there is none |
| Naming.SplitsAtSeparator | script.js:251 | a string splits into two or more pieces if and only if it contains the separator |
| Naming.Base64Payload | script.js:251 | `split(',')[1]` is defined if and only if the data URL contains a comma, and the payload contains no comma |
| Naming.PayloadOfDataUrl | script.js:251 | for a data URL `<header>,<data>` with no other comma, the payload is exactly `<data>` |
| Naming.Extension | script.js:34-36 | the extension never contains a dot |
| Naming.ExtensionAfterLastDot | script.js:34-36 | the extension is the lower-cased text after the last dot, or the whole name lower-cased when there is no dot |
| Naming.ExtensionOfLowered | script.js:34-36 | the extension is determined by the lower-cased name: it is the text after the lower-cased name's last dot |
| Naming.ExtensionIgnoresCase | script.js:34-36 | names equal up to ASCII case have the same extension |
| Naming.BaseName | script.js:226-227 | non-empty for any non-empty name; the whole name when no dot follows the first character; otherwise a proper prefix that is followed by a dot and has no dot after that dot |
| Naming.BaseNameAndExtension | script.js:226-227 | a name with a dot after its first character is its base name, a dot, and a remainder whose lower-case form is the extension |
| Naming.TargetExtension | script.js:221-224 | non-empty if and only if the format is image/jpeg, image/png or image/webp, and then it is a dot followed by the MIME subtype |
| Naming.NatToString | script.js:250 | a page number's text is non-empty, decimal digits only, and has no leading zero unless the number is 0 |
| Naming.DecimalRoundTrip | script.js:250 | reading a page number's text back as a decimal gives the number (round trip) |
| Naming.PageNamesDistinct | script.js:250 | different page numbers give different page names within one file |
| Naming.SingleName | script.js:230 | a single output's name is the base name followed by the target extension, and nothing else |
| Naming.PageName | script.js:250 | a page's entry name is the base name, then `_page`, then the page number's decimal text, then the target extension |
| Naming.ArchiveName | script.js:267 | a one-file archive is named the base name followed by `_converted.zip` |
| Naming.PhotoExample | script.js:226-230 | `photo.PNG` has extension `png` and becomes `photo.jpeg` for JPEG output |
| Naming.ReportExample | script.js:267 | `report.pdf` has base name `report`, and its archive is `report_converted.zip` |
| Naming.ReportPageNames | script.js:250 | pages 1 and 3 of `report` for PNG output are `report_page1.png` and `report_page3.png` |
| Decoders.QualityArgument | script.js:49-52 | the encoder gets a quality argument if and only if the format is image/jpeg or image/webp, and then exactly the given quality |
| Decoders.QualityIgnoredUnlessLossy | script.js:49-52 | for any other format, the encoded output does not depend on the quality and equals the one-argument call |
| Decoders.QualityPassedWhenLossy | script.js:49-52 | for JPEG and WEBP, the encoder is called with the given quality |
| Decoders.Encode | script.js:49-52 | the canvas encoder is called with the quality for image/jpeg and image/webp, and without it for every other format |
| Decoders.Wider | script.js:123 | the `reduce` step keeps the current icon only when it is strictly wider, so the result is at least as wide as both and ties keep the earlier icon |
| Decoders.ReduceWider | script.js:123 | the fold yields the seed or an icon of the list, at least as wide as the seed and as every icon of the list |
| Decoders.ChooseIcon | script.js:123 | an icon is chosen if and only if the list is non-empty |
| Decoders.ChosenIconIsFirstWidest | script.js:123 | the chosen icon is at least as wide as every icon, and strictly wider than every icon before it, so it is the first of the widest |
| Decoders.WidestOfThree | script.js:123 | of icons 16, 32 and 48 pixels wide, the 48-pixel one is chosen |
| Conversion.KindOf | script.js:186-202 | an extension selects a path if and only if it is in the closed dispatch table, and the path is the table's entry for it |
| Conversion.DispatchIgnoresCase | script.js:184-186 | names equal up to ASCII case select the same path |
| Conversion.ConvertNativeImage | script.js:39-59 | a native image always resolves with one result, page 1, carrying the image's width and height and the canvas encoding under the quality rule |
| Conversion.ConvertTiff | script.js:62-84 | a TIFF always resolves with one result, page 1, carrying the first frame's width and height and its encoding under the quality rule |
| Conversion.ConvertPsd | script.js:87-113 | a PSD resolves if and only if psd.js decodes it, rejecting with psd.js's message otherwise; the result is page 1 with the decoded image's dimensions and encoding |
| Conversion.ConvertIco | script.js:116-142 | an ICO resolves if and only if icojs parses it into at least one icon; an icojs failure rejects with its message, no icon rejects with `NoIconMessage`; the result is page 1, the encoding of one of the parsed icons |
| Conversion.FromRaster | script.js:45-53 | the result records the raster's width and height, the given page number, and the encoder's output under the quality rule |
| Conversion.RenderPage | script.js:155-171 | a rendered page carries its own page number |
| Conversion.PagePromises | script.js:152-174 | one promise per page of the document; promise k succeeds if and only if page k+1 renders, and then carries page number k+1 |
| Conversion.PromiseAll | script.js:175 | succeeds if and only if every element succeeds; the values then come in input order, one per element; a failure carries the message of some failing element |
| Conversion.ConvertPdf | script.js:145-180 | the page promises pushed for pages 1 to numPages, combined by `Promise.all`, give `PdfConversion`; a document that fails to open rejects with its error |
| Conversion.PdfConversion | script.js:145-180 | a PDF that fails to open rejects with the open error; a successful conversion opened the document and gives numPages results, element k numbered k+1 |
| Conversion.FileConversion | script.js:183-204 | an extension outside the table rejects with `Unsupported file format: ` plus the extension; a successful non-PDF file gives exactly one result; results are numbered from 1 in order |
| Conversion.ConvertFile | script.js:183-204 | the results array built by dispatch and `push` equals `FileConversion` on every input |
| Conversion.UnsupportedFormatFails | script.js:200-202 | an extension outside the table fails with `Unsupported file format: ` and the extension, whatever the decoders would do |
| Conversion.SingleImagePaths | script.js:186-197 | the native, TIFF, PSD and ICO paths give exactly one result, numbered 1; native and TIFF never fail; PSD fails if and only if psd.js fails; ICO fails if and only if icojs fails or finds no icon |
| Conversion.IcoDecodesFirstWidest | script.js:116-142 | the ICO result is the encoding of an icon at least as wide as all others and strictly wider than all before it |
| Conversion.PagesOfDocument | script.js:152-175 | the promises of an opened document succeed if and only if every page renders; there is then one result per page, and element k is page k+1 rendered and encoded |
| Conversion.PdfPagesInOrder | script.js:153-175 | a PDF converts if and only if it opens and every page renders; it then gives numPages results, and element k is page k+1 with pageNumber k+1 |
| Packaging.ZipArchive.constructor | script.js:248 | a new archive has no entries |
| Packaging.ZipArchive.AddFile | script.js:252 | `zip.file` sets the named entry, replacing an earlier one of the same name, and changes nothing else |
| Packaging.BatchFailureMessage | script.js:323 | a batch failure alert is `Error converting file `, the file's name, `: `, and the error's message |
| Packaging.AddPages | script.js:249-252 | the page loop never removes an existing entry name |
| Packaging.AddFileResults | script.js:290-320 | a successful batch file never removes an entry name; with exactly one result it adds just `<base><ext>` holding that result's payload |
| Packaging.AddOutcomes | script.js:278-326 | the batch never removes an entry name, and a batch in which every file fails leaves the archive as it was |
| Packaging.FailureAlerts | script.js:322-324 | at most one alert per file, and no alert if and only if every file converted |
| Packaging.BatchOutcomes | script.js:278-280 | one outcome per selected file |
| Packaging.SinglePackaging | script.js:216-274 | one file gives no download if and only if it fails, and then exactly the alert `Error converting file: ` plus the message; success alerts nothing; the download is direct if and only if there is exactly one result, named `<base><ext>` with that result's data URL; otherwise it is `<base>_converted.zip` |
| Packaging.BatchPackaging | script.js:275-335 | a batch yields `converted_images.zip`, with at most one alert per file and no alert if and only if every file converted |
| Packaging.AddPagesTo | script.js:249-263 | the `forEach` over a file's results leaves the archive equal to `AddPages` of the old entries |
| Packaging.AddFileResultsTo | script.js:281-321 | the `.then` of a batch file writes the single name for one result, and the page names otherwise |
| Packaging.HandleSingle | script.js:216-274 | the one-file branch gives the download and alerts of `SinglePackaging` of that file's conversion |
| Packaging.HandleMany | script.js:275-335 | the batch branch gives `converted_images.zip`, holding the entries of the successful files, with one alert per failed file, equal to `BatchPackaging` of every file's outcome |
| Packaging.HandleClick | script.js:207-336 | no file gives nothing; one file takes the one-file branch; several files take the batch branch |
| Packaging.AddPagesKeys | script.js:249-252 | the page loop keeps the existing names and adds exactly the page names of the results |
| Packaging.AddPagesValues | script.js:249-252 | with distinct page numbers, every result's payload is under its own page name |
| Packaging.AddPagesCount | script.js:249-252 | with distinct page numbers, a file's archive has exactly one entry per result |
| Packaging.NumberedPagesArchive | script.js:249-252 | for pages numbered 1 to N, `<base>_page<n><ext>` holds the payload of page n |
| Packaging.NumberedPagesOnly | script.js:249-252 | for pages numbered 1 to N, every name in the archive is `<base>_page<n><ext>` for some n between 1 and N |
| Packaging.SingleImageDownload | script.js:229-245 | a single successful image gives no alert and a direct download of its data URL, named base name plus target extension |
| Packaging.PdfArchiveDownload | script.js:246-270 | a single PDF whose page count is not 1 gives `<base>_converted.zip` with exactly numPages entries, `<base>_page1<ext>` to `<base>_pageN<ext>`, each holding its page's payload, and no other name |
| Packaging.SingleFailureAlerts | script.js:272-274 | a single failing file gives no download and one alert, `Error converting file: ` plus the message; for an unsupported extension that is `Unsupported file format: ` plus the extension |
| Packaging.AddFileResultsKeys | script.js:290-320 | a successful batch file keeps the existing names and adds exactly its own output names |
| Packaging.BatchArchiveNames | script.js:276-334 | a name is in the batch archive if and only if some file that converted writes it |
| Packaging.FailedFileAddsNothing | script.js:322-324 | removing a failed file from the batch leaves the archive unchanged |
| Packaging.BatchAlwaysArchives | script.js:327-334 | a batch whose every conversion settles yields `converted_images.zip`; it is empty when every file fails; there is no alert if and only if every file converted |
| Packaging.SameBaseNameCollides | script.js:287-293 | `photo.png` and `photo.gif` converted to JPEG leave the single entry name `photo.jpeg` |

## Left out

- The DOM: previews, the download link's text and styling, `URL.createObjectURL`, and `generateAsync`. `alert` is modelled only as the list of alert messages. None of these decide anything.
- The foreign libraries (FileReader, Image, canvas, UTIF, psd.js, icojs, pdf.js, JSZip) are fields of `Codecs` or the `ZipArchive` map. What they compute inside is not modelled.
- Conversions that never settle. No path sets `reader.onerror` (script.js:41-57, 64-82, 89-111, 118-140, 147-178), so a FileReader error leaves any file's promise pending. The native, PSD and ICO paths set only `img.onload` (script.js:44, 96, 125), so an image that fails to load leaves it pending too. A UTIF exception is thrown inside the reader's `onload` (script.js:67-70), outside the promise, and also leaves it pending. One pending file in a batch stalls `await Promise.all(conversionPromises)` at script.js:327, so no `converted_images.zip` is offered at all. In the model every `Codecs` call yields a value, `loadImage` and `decodeTiff` are total, and every conversion settles. `HandleMany`, `BatchPackaging` and `BatchAlwaysArchives` therefore describe only batches whose every conversion settles.
- Pixel data, image dimensions and the PDF rendering scale are opaque values of the decoders.
- What JSZip does with an undefined payload: the entry records the argument passed to `zip.file`, with `None` for `undefined`. JSZip's base64 decoding of the payload is not modelled either.
- `parseFloat` of the slider value: the quality is an opaque real, passed on or dropped.
- `toLowerCase` beyond ASCII: non-ASCII letters are left unchanged.
- `Conversion.PromiseAll`: when several pages fail, the model reports the message of the lowest-numbered one. In the source, the one that rejects first in time wins, and timing is not modelled.
- `Packaging.HandleMany`: the files' promises run concurrently in the source and finish in any order. The model handles them in file order. Alerts therefore appear in file order, and on a name collision the later file's entry is kept. `BatchArchiveNames` and `SameBaseNameCollides` speak only of entry names, which do not depend on that order.
- `Conversion.NoIconMessage` is the wording of the TypeError in one JavaScript engine; other engines word it differently.
