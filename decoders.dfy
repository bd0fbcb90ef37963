/** The collaborators the converter calls but does not implement — the file
    reader and image element, UTIF, psd.js, icojs, pdf.js and the canvas
    encoder — as one record of functions, plus the two rules the converter
    itself applies around them: which arguments the encoder receives, and
    which icon of an ICO file is decoded. */
module Decoders {
  import opened Outcomes

  type Bytes = seq<bv8>

  /** The quality slider's value after `parseFloat`; only passed through. */
  type Quality = real

  /** A decoded picture as drawn on a canvas. */
  datatype Raster = Raster(width: int, height: int, pixels: Bytes)

  /** One entry of an ICO file as icojs lists it: its declared width and
      the picture its `src` loads to. */
  datatype Icon = Icon(width: int, image: Raster)

  /** An opened PDF: its page count and the rendering of page `i`
      (`getPage(i)` then `render` at scale 1), which may fail. */
  datatype PdfDocument = PdfDocument(numPages: nat, renderPage: nat -> Result<Raster>)

  /** The foreign calls, each as the function of its input it computes. */
  datatype Codecs = Codecs(
    loadImage: Bytes -> Raster,             // FileReader data URL loaded into an Image
    decodeTiff: Bytes -> Raster,            // UTIF: the first image file directory
    decodePsd: Bytes -> Result<Raster>,     // psd.js: the flattened composite
    parseIco: Bytes -> Result<seq<Icon>>,   // icojs.parse
    openPdf: Bytes -> Result<PdfDocument>,  // pdfjsLib.getDocument
    toDataUrl: (Raster, string, Option<Quality>) -> string  // canvas.toDataURL
  )

  // ---------------------------------------------------------------------
  // Encoding and the quality rule
  // ---------------------------------------------------------------------

  /** The formats whose encoder takes a quality argument. */
  predicate IsLossy(format: string)
  {
    format == "image/jpeg" || format == "image/webp"
  }

  /** The optional second argument of `toDataURL`: the quality for JPEG and
      WEBP, nothing for any other format. */
  function QualityArgument(format: string, quality: Quality): (arg: Option<Quality>)
    ensures arg.Some? <==> IsLossy(format)
    ensures arg.Some? ==> arg.value == quality
  {
    if IsLossy(format) then Some(quality) else None
  }

  /** The ternary each decode path ends with:
      `toDataURL(format, quality)` or `toDataURL(format)`. */
  function Encode(c: Codecs, r: Raster, format: string, quality: Quality): (url: string)
    ensures IsLossy(format) ==> url == c.toDataUrl(r, format, Some(quality))
    ensures !IsLossy(format) ==> url == c.toDataUrl(r, format, None)
  {
    c.toDataUrl(r, format, QualityArgument(format, quality))
  }

  /** For a format other than JPEG and WEBP the quality has no effect on
      the encoded output, whatever the encoder does with its arguments. */
  lemma QualityIgnoredUnlessLossy(c: Codecs, r: Raster, format: string, q1: Quality, q2: Quality)
    requires !IsLossy(format)
    ensures Encode(c, r, format, q1) == Encode(c, r, format, q2) == c.toDataUrl(r, format, None)
  {
  }

  /** For JPEG and WEBP the encoder receives exactly the given quality. */
  lemma QualityPassedWhenLossy(c: Codecs, r: Raster, format: string, q: Quality)
    requires IsLossy(format)
    ensures Encode(c, r, format, q) == c.toDataUrl(r, format, Some(q))
  {
  }

  // ---------------------------------------------------------------------
  // ICO: choosing the icon to decode
  // ---------------------------------------------------------------------

  /** The reducer `(prev, curr) => curr.width > prev.width ? curr : prev`. */
  function Wider(prev: Icon, curr: Icon): (w: Icon)
    ensures curr.width > prev.width ==> w == curr
    ensures curr.width <= prev.width ==> w == prev
    ensures w.width >= prev.width && w.width >= curr.width
  {
    if curr.width > prev.width then curr else prev
  }

  /** `icons.reduce(Wider, acc)`, folding from the first element. */
  function ReduceWider(acc: Icon, icons: seq<Icon>): (w: Icon)
    ensures w == acc || w in icons
    ensures w.width >= acc.width && forall j :: 0 <= j < |icons| ==> icons[j].width <= w.width
    decreases |icons|
  {
    if icons == [] then acc
    else Wider(ReduceWider(acc, icons[..|icons| - 1]), icons[|icons| - 1])
  }

  /** `images.reduce(Wider, images[0])`; no icon when the list is empty
      (the reduce then yields `undefined`). */
  function ChooseIcon(icons: seq<Icon>): (chosen: Option<Icon>)
    ensures chosen.Some? <==> |icons| > 0
  {
    if icons == [] then None else Some(ReduceWider(icons[0], icons))
  }

  lemma {:induction false} ReducePrefix(icons: seq<Icon>, n: nat) returns (k: nat)
    requires 1 <= n <= |icons|
    ensures k < n && ReduceWider(icons[0], icons[..n]) == icons[k]
    ensures forall j :: 0 <= j < n ==> icons[j].width <= icons[k].width
    ensures forall j :: 0 <= j < k ==> icons[j].width < icons[k].width
  {
    assert icons[..n][..n - 1] == icons[..n - 1];
    if n == 1 {
      k := 0;
    } else {
      var p := ReducePrefix(icons, n - 1);
      if icons[n - 1].width > icons[p].width {
        k := n - 1;
      } else {
        k := p;
      }
    }
  }

  /** The chosen icon is the widest, and among the widest the first by
      index, because the comparison is a strict `>`. */
  lemma ChosenIconIsFirstWidest(icons: seq<Icon>) returns (k: nat)
    requires |icons| > 0
    ensures k < |icons| && ChooseIcon(icons) == Some(icons[k])
    ensures forall j :: 0 <= j < |icons| ==> icons[j].width <= icons[k].width
    ensures forall j :: 0 <= j < k ==> icons[j].width < icons[k].width
  {
    assert icons[..|icons|] == icons;
    k := ReducePrefix(icons, |icons|);
  }

  /** Icons of widths 16, 32 and 48: the 48-pixel one is decoded. */
  lemma WidestOfThree(a: Raster, b: Raster, c: Raster)
    ensures ChooseIcon([Icon(16, a), Icon(32, b), Icon(48, c)]) == Some(Icon(48, c))
  {
    var icons := [Icon(16, a), Icon(32, b), Icon(48, c)];
    var k := ChosenIconIsFirstWidest(icons);
    assert icons[2].width == 48;
  }
}
