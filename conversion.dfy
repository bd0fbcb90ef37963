/** `convertFile` and the five decode paths it dispatches to: which path an
    extension selects, how many results each path yields and how they are
    numbered, and which errors reach the caller. */
module Conversion {
  import opened Outcomes
  import opened Naming
  import opened Decoders

  datatype SourceFile = SourceFile(name: string, content: Bytes)

  /** One element of the array `convertFile` resolves with. */
  datatype PageResult = PageResult(dataUrl: string, width: int, height: int, pageNumber: nat)

  // ---------------------------------------------------------------------
  // Dispatch
  // ---------------------------------------------------------------------

  datatype InputKind = Native | Tiff | Psd | Ico | Pdf

  const NativeExtensions: seq<string> := ["png", "jpg", "jpeg", "webp", "gif", "bmp", "svg"]
  const TiffExtensions: seq<string> := ["tiff", "tif"]

  /** The recognised extensions as one closed table. */
  const DispatchTable: map<string, InputKind> :=
    map["png" := Native, "jpg" := Native, "jpeg" := Native, "webp" := Native,
        "gif" := Native, "bmp" := Native, "svg" := Native,
        "tiff" := Tiff, "tif" := Tiff, "psd" := Psd, "ico" := Ico, "pdf" := Pdf]

  /** The `if … else if` chain of `convertFile`: the path an extension
      selects, or none ("Unsupported file format"). */
  function KindOf(ext: string): (kind: Option<InputKind>)
    ensures kind.Some? <==> ext in DispatchTable
    ensures kind.Some? ==> DispatchTable[ext] == kind.value
  {
    if ext in NativeExtensions then Some(Native)
    else if ext in TiffExtensions then Some(Tiff)
    else if ext == "psd" then Some(Psd)
    else if ext == "ico" then Some(Ico)
    else if ext == "pdf" then Some(Pdf)
    else None
  }

  /** Names that agree up to case take the same path. */
  lemma DispatchIgnoresCase(a: string, b: string)
    requires Lower(a) == Lower(b)
    ensures KindOf(Extension(a)) == KindOf(Extension(b))
  {
    ExtensionIgnoresCase(a, b);
  }

  const UnsupportedPrefix: string := "Unsupported file format: "

  /** The message of the TypeError raised by `chosen.src` when icojs finds
      no icon (the engine's wording). */
  const NoIconMessage: string := "Cannot read properties of undefined (reading 'src')"

  // ---------------------------------------------------------------------
  // The decode paths
  // ---------------------------------------------------------------------

  /** Draw a raster, encode it, and record it as page `page`. */
  function FromRaster(c: Codecs, r: Raster, format: string, quality: Quality, page: nat): (p: PageResult)
    ensures p.pageNumber == page && p.width == r.width && p.height == r.height
    ensures p.dataUrl == Encode(c, r, format, quality)
  {
    PageResult(Encode(c, r, format, quality), r.width, r.height, page)
  }

  /** convertNativeImage. */
  function ConvertNativeImage(c: Codecs, content: Bytes, format: string, quality: Quality): (p: PageResult)
    ensures var img := c.loadImage(content);
            p.pageNumber == 1 && p.width == img.width && p.height == img.height &&
            p.dataUrl == Encode(c, img, format, quality)
  {
    FromRaster(c, c.loadImage(content), format, quality, 1)
  }

  /** convertTIFF: only the first image file directory is drawn. */
  function ConvertTiff(c: Codecs, content: Bytes, format: string, quality: Quality): (p: PageResult)
    ensures var first := c.decodeTiff(content);
            p.pageNumber == 1 && p.width == first.width && p.height == first.height &&
            p.dataUrl == Encode(c, first, format, quality)
  {
    FromRaster(c, c.decodeTiff(content), format, quality, 1)
  }

  /** convertPSD: a psd.js failure rejects the promise. */
  function ConvertPsd(c: Codecs, content: Bytes, format: string, quality: Quality): (r: Result<PageResult>)
    ensures r.Ok? <==> c.decodePsd(content).Ok?
    ensures r.Err? ==> r.msg == c.decodePsd(content).msg
    ensures r.Ok? ==> var img := c.decodePsd(content).value;
              r.value.pageNumber == 1 && r.value.width == img.width && r.value.height == img.height &&
              r.value.dataUrl == Encode(c, img, format, quality)
  {
    match c.decodePsd(content)
    case Err(e) => Err(e)
    case Ok(r) => Ok(FromRaster(c, r, format, quality, 1))
  }

  /** convertICO: the icon `ChooseIcon` picks is drawn; an icojs failure
      or an empty icon list rejects the promise. */
  function ConvertIco(c: Codecs, content: Bytes, format: string, quality: Quality): (r: Result<PageResult>)
    ensures r.Ok? <==> c.parseIco(content).Ok? && |c.parseIco(content).value| > 0
    ensures c.parseIco(content).Err? ==> r == Err(c.parseIco(content).msg)
    ensures c.parseIco(content) == Ok([]) ==> r == Err(NoIconMessage)
    ensures r.Ok? ==> r.value.pageNumber == 1
    ensures r.Ok? ==>
              exists k :: 0 <= k < |c.parseIco(content).value| &&
                          r.value == FromRaster(c, c.parseIco(content).value[k].image, format, quality, 1)
  {
    match c.parseIco(content)
    case Err(e) => Err(e)
    case Ok(icons) =>
      match ChooseIcon(icons)
      case None => Err(NoIconMessage)
      case Some(chosen) => Ok(FromRaster(c, chosen.image, format, quality, 1))
  }

  /** The promise pushed for page `i` in convertPDF's loop. */
  function RenderPage(c: Codecs, doc: PdfDocument, i: nat, format: string, quality: Quality): (r: Result<PageResult>)
    ensures r.Ok? ==> r.value.pageNumber == i
  {
    match doc.renderPage(i)
    case Err(e) => Err(e)
    case Ok(raster) => Ok(FromRaster(c, raster, format, quality, i))
  }

  /** `Promise.all`: all values in the order of the input, or a failure if
      any element fails (the first failing one by index). */
  function PromiseAll<T>(s: seq<Result<T>>): (r: Result<seq<T>>)
    ensures r.Ok? <==> forall k :: 0 <= k < |s| ==> s[k].Ok?
    ensures r.Ok? ==> |r.value| == |s| && forall k :: 0 <= k < |s| ==> s[k].value == r.value[k]
    ensures r.Err? ==> exists k :: 0 <= k < |s| && s[k].Err? && s[k].msg == r.msg
  {
    if s == [] then Ok([])
    else
      match PromiseAll(s[..|s| - 1])
      case Err(e) => Err(e)
      case Ok(vs) =>
        match s[|s| - 1]
        case Err(e) => Err(e)
        case Ok(v) => Ok(vs + [v])
  }

  /** The page promises of a document, for pages 1 to numPages in order. */
  function PagePromises(c: Codecs, doc: PdfDocument, format: string, quality: Quality): (s: seq<Result<PageResult>>)
    ensures |s| == doc.numPages
    ensures forall k :: 0 <= k < |s| ==> (s[k].Ok? <==> doc.renderPage(k + 1).Ok?)
    ensures forall k :: 0 <= k < |s| && s[k].Ok? ==> s[k].value.pageNumber == k + 1
  {
    seq(doc.numPages, k requires 0 <= k < doc.numPages => RenderPage(c, doc, k + 1, format, quality))
  }

  /** What convertPDF resolves or rejects with. */
  function PdfConversion(c: Codecs, content: Bytes, format: string, quality: Quality): (r: Result<seq<PageResult>>)
    ensures c.openPdf(content).Err? ==> r == Err(c.openPdf(content).msg)
    ensures r.Ok? ==> c.openPdf(content).Ok? && |r.value| == c.openPdf(content).value.numPages
    ensures r.Ok? ==> forall k :: 0 <= k < |r.value| ==> r.value[k].pageNumber == k + 1
  {
    match c.openPdf(content)
    case Err(e) => Err(e)
    case Ok(doc) => PromiseAll(PagePromises(c, doc, format, quality))
  }

  /** convertPDF: one promise per page, pushed in page order, then
      `Promise.all`. */
  method ConvertPdf(c: Codecs, content: Bytes, format: string, quality: Quality)
    returns (r: Result<seq<PageResult>>)
    ensures r == PdfConversion(c, content, format, quality)
  {
    match c.openPdf(content) {
      case Err(e) =>
        r := Err(e);
      case Ok(doc) =>
        var pagePromises: seq<Result<PageResult>> := [];
        var i := 1;
        while i <= doc.numPages
          invariant 1 <= i <= doc.numPages + 1
          invariant |pagePromises| == i - 1
          invariant forall k :: 0 <= k < i - 1 ==> pagePromises[k] == RenderPage(c, doc, k + 1, format, quality)
        {
          pagePromises := pagePromises + [RenderPage(c, doc, i, format, quality)];
          i := i + 1;
        }
        assert pagePromises == PagePromises(c, doc, format, quality);
        r := PromiseAll(pagePromises);
    }
  }

  /** What convertFile resolves or rejects with. */
  function FileConversion(c: Codecs, file: SourceFile, format: string, quality: Quality): (r: Result<seq<PageResult>>)
    ensures KindOf(Extension(file.name)).None? ==> r == Err(UnsupportedPrefix + Extension(file.name))
    ensures r.Ok? && KindOf(Extension(file.name)) != Some(Pdf) ==> |r.value| == 1
    ensures r.Ok? ==> forall k :: 0 <= k < |r.value| ==> r.value[k].pageNumber == k + 1
  {
    var ext := Extension(file.name);
    match KindOf(ext)
    case None => Err(UnsupportedPrefix + ext)
    case Some(Native) => Ok([ConvertNativeImage(c, file.content, format, quality)])
    case Some(Tiff) => Ok([ConvertTiff(c, file.content, format, quality)])
    case Some(Psd) =>
      (match ConvertPsd(c, file.content, format, quality)
       case Err(e) => Err(e)
       case Ok(p) => Ok([p]))
    case Some(Ico) =>
      (match ConvertIco(c, file.content, format, quality)
       case Err(e) => Err(e)
       case Ok(p) => Ok([p]))
    case Some(Pdf) => PdfConversion(c, file.content, format, quality)
  }

  /** convertFile: dispatch on the extension, push the single result of an
      image path, or take the page results of the PDF path. */
  method ConvertFile(c: Codecs, file: SourceFile, format: string, quality: Quality)
    returns (r: Result<seq<PageResult>>)
    ensures r == FileConversion(c, file, format, quality)
  {
    var ext := Extension(file.name);
    var results: seq<PageResult> := [];
    match KindOf(ext) {
      case Some(Native) =>
        var res := ConvertNativeImage(c, file.content, format, quality);
        results := results + [res];
        assert results == [res];
      case Some(Tiff) =>
        var res := ConvertTiff(c, file.content, format, quality);
        results := results + [res];
        assert results == [res];
      case Some(Psd) =>
        var res := ConvertPsd(c, file.content, format, quality);
        if res.Err? {
          return Err(res.msg);
        }
        results := results + [res.value];
        assert results == [res.value];
      case Some(Ico) =>
        var res := ConvertIco(c, file.content, format, quality);
        if res.Err? {
          return Err(res.msg);
        }
        results := results + [res.value];
        assert results == [res.value];
      case Some(Pdf) =>
        var pages := ConvertPdf(c, file.content, format, quality);
        if pages.Err? {
          return Err(pages.msg);
        }
        results := pages.value;
      case None =>
        return Err(UnsupportedPrefix + ext);
    }
    r := Ok(results);
  }

  // ---------------------------------------------------------------------
  // Properties of a conversion
  // ---------------------------------------------------------------------

  /** An extension outside the table fails with "Unsupported file format: "
      and the extension, whatever the decoders would have done: the outcome
      depends on the file name alone. */
  lemma UnsupportedFormatFails(c: Codecs, c2: Codecs, file: SourceFile, format: string, quality: Quality)
    requires Extension(file.name) !in DispatchTable
    ensures FileConversion(c, file, format, quality) == Err(UnsupportedPrefix + Extension(file.name))
    ensures FileConversion(c, file, format, quality) == FileConversion(c2, file, format, quality)
  {
  }

  /** The native, TIFF, PSD and ICO paths give exactly one result, page 1;
      the native and TIFF paths never fail; PSD fails exactly when psd.js
      does; ICO fails exactly when icojs does or finds no icon, and
      otherwise decodes the first widest icon. */
  lemma SingleImagePaths(c: Codecs, file: SourceFile, format: string, quality: Quality)
    requires KindOf(Extension(file.name)).Some? && KindOf(Extension(file.name)) != Some(Pdf)
    ensures var r := FileConversion(c, file, format, quality);
            (r.Ok? ==> |r.value| == 1 && r.value[0].pageNumber == 1) &&
            (KindOf(Extension(file.name)) in {Some(Native), Some(Tiff)} ==> r.Ok?) &&
            (KindOf(Extension(file.name)) == Some(Psd) ==> (r.Ok? <==> c.decodePsd(file.content).Ok?)) &&
            (KindOf(Extension(file.name)) == Some(Ico) ==>
               (r.Ok? <==> c.parseIco(file.content).Ok? && |c.parseIco(file.content).value| > 0))
  {
  }

  /** The ICO path encodes the first widest icon. */
  lemma IcoDecodesFirstWidest(c: Codecs, file: SourceFile, format: string, quality: Quality)
    requires KindOf(Extension(file.name)) == Some(Ico)
    requires c.parseIco(file.content).Ok? && |c.parseIco(file.content).value| > 0
    ensures var icons := c.parseIco(file.content).value;
            var r := FileConversion(c, file, format, quality);
            r.Ok? && |r.value| == 1 &&
            exists k :: 0 <= k < |icons| &&
              r.value[0] == FromRaster(c, icons[k].image, format, quality, 1) &&
              (forall j :: 0 <= j < |icons| ==> icons[j].width <= icons[k].width) &&
              (forall j :: 0 <= j < k ==> icons[j].width < icons[k].width)
  {
    var icons := c.parseIco(file.content).value;
    var k := ChosenIconIsFirstWidest(icons);
  }

  /** The PDF path: when it succeeds there is one result per page, element
      k being page k + 1 rendered and encoded; it fails exactly when the
      document does not open or some page does not render. */
  lemma PdfPagesInOrder(c: Codecs, file: SourceFile, format: string, quality: Quality)
    requires KindOf(Extension(file.name)) == Some(Pdf)
    ensures var r := FileConversion(c, file, format, quality);
            var d := c.openPdf(file.content);
            (r.Ok? <==> d.Ok? && forall i :: 1 <= i <= d.value.numPages ==> d.value.renderPage(i).Ok?) &&
            (r.Ok? ==> |r.value| == d.value.numPages &&
                       forall k :: 0 <= k < |r.value| ==>
                         r.value[k].pageNumber == k + 1 &&
                         r.value[k] == FromRaster(c, d.value.renderPage(k + 1).value, format, quality, k + 1))
  {
    assert FileConversion(c, file, format, quality) == PdfConversion(c, file.content, format, quality);
    var d := c.openPdf(file.content);
    if d.Ok? {
      PagesOfDocument(c, d.value, format, quality);
    }
  }

  /** `PromiseAll` over the page promises of an opened document. */
  lemma PagesOfDocument(c: Codecs, doc: PdfDocument, format: string, quality: Quality)
    ensures var r := PromiseAll(PagePromises(c, doc, format, quality));
            (r.Ok? <==> forall i :: 1 <= i <= doc.numPages ==> doc.renderPage(i).Ok?) &&
            (r.Ok? ==> |r.value| == doc.numPages &&
                       forall k :: 0 <= k < |r.value| ==>
                         r.value[k].pageNumber == k + 1 &&
                         r.value[k] == FromRaster(c, doc.renderPage(k + 1).value, format, quality, k + 1))
  {
    var s := PagePromises(c, doc, format, quality);
    var r := PromiseAll(s);
    if r.Ok? {
      forall i | 1 <= i <= doc.numPages
        ensures doc.renderPage(i).Ok?
      {
        assert s[i - 1] == RenderPage(c, doc, i, format, quality);
        assert s[i - 1].Ok?;
      }
      forall k | 0 <= k < |r.value|
        ensures r.value[k].pageNumber == k + 1 &&
                r.value[k] == FromRaster(c, doc.renderPage(k + 1).value, format, quality, k + 1)
      {
        assert s[k] == RenderPage(c, doc, k + 1, format, quality);
        assert s[k].value == r.value[k];
      }
    } else {
      var k :| 0 <= k < |s| && s[k].Err?;
      assert s[k] == RenderPage(c, doc, k + 1, format, quality);
      assert !doc.renderPage(k + 1).Ok?;
    }
  }
}
