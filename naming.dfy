/** File names: the extension used for dispatch, the base name used for
    output names, the target extension, and the names of pages and archives. */
module Naming {
  import opened Outcomes

  // ---------------------------------------------------------------------
  // Lower-casing (ASCII only)
  // ---------------------------------------------------------------------

  /** `toLowerCase` on one character, restricted to ASCII letters. */
  function LowerChar(c: char): (r: char)
    ensures !('A' <= r <= 'Z')
    ensures r == c || ('A' <= c <= 'Z' && r as int == c as int + 32)
  {
    if 'A' <= c <= 'Z' then (c as int + 32) as char else c
  }

  /** `s.toLowerCase()`, character by character. */
  function Lower(s: string): (r: string)
    ensures |r| == |s|
    ensures forall i :: 0 <= i < |s| ==> r[i] == LowerChar(s[i])
  {
    seq(|s|, i requires 0 <= i < |s| => LowerChar(s[i]))
  }

  lemma LowerSuffix(s: string, a: nat)
    requires a <= |s|
    ensures Lower(s)[a..] == Lower(s[a..])
  {
    assert forall i :: 0 <= i < |s| - a ==> Lower(s)[a..][i] == Lower(s[a..])[i];
  }

  // ---------------------------------------------------------------------
  // Searching and splitting
  // ---------------------------------------------------------------------

  /** `s.lastIndexOf(c)`: the position of the last `c` in `s`, or -1. */
  function LastIndexOf(s: string, c: char): (r: int)
    ensures -1 <= r < |s|
    ensures r >= 0 ==> s[r] == c
    ensures forall j :: r < j < |s| ==> s[j] != c
  {
    if |s| == 0 then -1
    else if s[|s| - 1] == c then |s| - 1
    else LastIndexOf(s[..|s| - 1], c)
  }

  /** Lower-casing moves no dot, so the last dot stays where it was. */
  lemma LastDotOfLower(s: string)
    ensures LastIndexOf(Lower(s), '.') == LastIndexOf(s, '.')
  {
    var a, b := LastIndexOf(s, '.'), LastIndexOf(Lower(s), '.');
    assert b >= 0 ==> LowerChar(s[b]) == '.';
    assert a >= 0 ==> Lower(s)[a] == '.';
  }

  /** `s.split(sep)` for a one-character separator: the pieces between
      separators, always at least one. Cut at the last separator: the
      pieces before it, then the text after it. */
  function Split(s: string, sep: char): (pieces: seq<string>)
    ensures |pieces| >= 1
    decreases |s|
  {
    var i := LastIndexOf(s, sep);
    if i < 0 then [s] else Split(s[..i], sep) + [s[i + 1..]]
  }

  /** No piece of a split contains the separator. */
  lemma {:induction false} SplitPiecesHaveNoSeparator(s: string, sep: char)
    ensures forall k :: 0 <= k < |Split(s, sep)| ==> sep !in Split(s, sep)[k]
    decreases |s|
  {
    var i := LastIndexOf(s, sep);
    if i >= 0 {
      SplitPiecesHaveNoSeparator(s[..i], sep);
      var tail := s[i + 1..];
      assert forall j :: 0 <= j < |tail| ==> tail[j] == s[i + 1 + j];
      assert sep !in tail;
    }
  }

  /** `pieces.join(sep)`, the inverse of `Split`. */
  function Join(pieces: seq<string>, sep: char): string
    decreases |pieces|
  {
    if |pieces| == 0 then ""
    else if |pieces| == 1 then pieces[0]
    else Join(pieces[..|pieces| - 1], sep) + [sep] + pieces[|pieces| - 1]
  }

  lemma JoinSnoc(pieces: seq<string>, x: string, sep: char)
    requires |pieces| >= 1
    ensures Join(pieces + [x], sep) == Join(pieces, sep) + [sep] + x
  {
    assert (pieces + [x])[..|pieces|] == pieces;
  }

  /** Splitting loses nothing: joining the pieces gives back the string. */
  lemma {:induction false} JoinSplit(s: string, sep: char)
    ensures Join(Split(s, sep), sep) == s
    decreases |s|
  {
    var i := LastIndexOf(s, sep);
    if i >= 0 {
      JoinSplit(s[..i], sep);
      JoinSnoc(Split(s[..i], sep), s[i + 1..], sep);
      assert s == s[..i] + [sep] + s[i + 1..];
    }
  }

  /** A string splits into more than one piece exactly when it contains
      the separator. */
  lemma SplitsAtSeparator(s: string, sep: char)
    ensures |Split(s, sep)| >= 2 <==> sep in s
  {
    if LastIndexOf(s, sep) < 0 {
      assert forall j :: 0 <= j < |s| ==> s[j] != sep;
    }
  }

  /** The last piece of a split is the text after the last separator. */
  lemma LastPiece(s: string, sep: char)
    ensures var p := Split(s, sep); p[|p| - 1] == s[LastIndexOf(s, sep) + 1..]
  {
    var i := LastIndexOf(s, sep);
    if i < 0 {
      assert Split(s, sep) == [s];
    } else {
      assert Split(s, sep) == Split(s[..i], sep) + [s[i + 1..]];
    }
  }

  // ---------------------------------------------------------------------
  // The payload of a data URL
  // ---------------------------------------------------------------------

  /** `dataURL.split(',')[1]`: the text after the first comma, up to any
      further comma; `undefined` (None) when there is no comma. */
  function Base64Payload(dataUrl: string): (p: Option<string>)
    ensures p.Some? <==> ',' in dataUrl
    ensures p.Some? ==> ',' !in p.value
  {
    var pieces := Split(dataUrl, ',');
    SplitsAtSeparator(dataUrl, ',');
    SplitPiecesHaveNoSeparator(dataUrl, ',');
    if |pieces| >= 2 then Some(pieces[1]) else None
  }

  /** A data URL `<header>,<data>` with no other comma (the form
      `toDataURL` produces) yields exactly its data. */
  lemma PayloadOfDataUrl(header: string, data: string)
    requires ',' !in header && ',' !in data
    ensures Base64Payload(header + [','] + data) == Some(data)
  {
    var url := header + [','] + data;
    assert url[|header|] == ',';
    assert forall j :: |header| < j < |url| ==> url[j] == data[j - |header| - 1];
    assert LastIndexOf(url, ',') == |header|;
    assert url[..|header|] == header && url[|header| + 1..] == data;
    assert LastIndexOf(header, ',') == -1;
    assert Split(header, ',') == [header];
    assert Split(url, ',') == [header, data];
  }

  // ---------------------------------------------------------------------
  // Extension (getFileExtension)
  // ---------------------------------------------------------------------

  /** `filename.split('.').pop().toLowerCase()`: the dispatch key. */
  function Extension(name: string): (ext: string)
    ensures '.' !in ext
  {
    var pieces := Split(name, '.');
    var last := pieces[|pieces| - 1];
    SplitPiecesHaveNoSeparator(name, '.');
    assert forall i :: 0 <= i < |last| ==> Lower(last)[i] != '.';
    Lower(last)
  }

  /** The extension is the lower-cased text after the last dot, or the
      whole name lower-cased when the name has no dot. */
  lemma ExtensionAfterLastDot(name: string)
    ensures Extension(name) == Lower(name[LastIndexOf(name, '.') + 1..])
    ensures '.' !in name ==> Extension(name) == Lower(name)
  {
    var pieces := Split(name, '.');
    LastPiece(name, '.');
    assert Extension(name) == Lower(pieces[|pieces| - 1]);
    if '.' !in name {
      assert LastIndexOf(name, '.') == -1;
      assert name[0..] == name;
    }
  }

  /** The extension depends only on the lower-cased name. */
  lemma ExtensionOfLowered(name: string)
    ensures Extension(name) == Lower(name)[LastIndexOf(Lower(name), '.') + 1..]
  {
    ExtensionAfterLastDot(name);
    LastDotOfLower(name);
    LowerSuffix(name, LastIndexOf(name, '.') + 1);
  }

  /** Dispatch is case-insensitive: names that agree up to case have the
      same extension. */
  lemma ExtensionIgnoresCase(a: string, b: string)
    requires Lower(a) == Lower(b)
    ensures Extension(a) == Extension(b)
  {
    ExtensionOfLowered(a);
    ExtensionOfLowered(b);
  }

  // ---------------------------------------------------------------------
  // Output names
  // ---------------------------------------------------------------------

  /** `originalName.substring(0, originalName.lastIndexOf('.')) || originalName`:
      the name before its last dot, or the whole name when that prefix
      would be empty (no dot, or a dot only in front). */
  function BaseName(name: string): (base: string)
    ensures |name| > 0 ==> |base| > 0
    ensures (forall j :: 0 < j < |name| ==> name[j] != '.') ==> base == name
    ensures (exists j :: 0 < j < |name| && name[j] == '.') ==>
              0 < |base| < |name| && base == name[..|base|] &&
              name[|base|] == '.' && '.' !in name[|base| + 1..]
  {
    var dot := LastIndexOf(name, '.');
    if dot > 0 then name[..dot] else name
  }

  /** Base name and extension split a dotted name at its last dot. */
  lemma BaseNameAndExtension(name: string)
    requires exists j :: 0 < j < |name| && name[j] == '.'
    ensures var base := BaseName(name);
            name == base + "." + name[|base| + 1..] &&
            Extension(name) == Lower(name[|base| + 1..])
  {
    var dot := LastIndexOf(name, '.');
    var j :| 0 < j < |name| && name[j] == '.';
    assert dot >= j > 0;
    var base := name[..dot];
    assert BaseName(name) == base && |base| == dot;
    ExtensionAfterLastDot(name);
    CutAt(name, dot);
    assert [name[dot]] == ".";
  }

  /** A string is its text before index `i`, the character at `i`, and its
      text after `i`. */
  lemma CutAt(s: string, i: nat)
    requires i < |s|
    ensures s == s[..i] + [s[i]] + s[i + 1..]
  {
    assert s[..i] + [s[i]] == s[..i + 1];
  }

  /** The file extension for a target MIME type: `.jpeg`, `.png`, `.webp`;
      empty for any other value. */
  function TargetExtension(format: string): (ext: string)
    ensures ext != "" <==> format in {"image/jpeg", "image/png", "image/webp"}
    ensures ext != "" ==> |format| > 6 && ext == "." + format[6..]
  {
    if format == "image/jpeg" then ".jpeg"
    else if format == "image/png" then ".png"
    else if format == "image/webp" then ".webp"
    else ""
  }

  function DigitChar(d: nat): (c: char)
    requires d < 10
    ensures '0' <= c <= '9'
  {
    (48 + d) as char
  }

  /** The decimal text of a page number (`'_page' + item.pageNumber`):
      digits only, no leading zero. */
  function NatToString(n: nat): (s: string)
    ensures |s| >= 1
    ensures forall k :: 0 <= k < |s| ==> '0' <= s[k] <= '9'
    ensures s[0] == '0' ==> n == 0
    decreases n
  {
    if n < 10 then [DigitChar(n)] else NatToString(n / 10) + [DigitChar(n % 10)]
  }

  /** The value of a string of decimal digits. */
  function DecimalValue(s: string): nat
    requires forall k :: 0 <= k < |s| ==> '0' <= s[k] <= '9'
  {
    if |s| == 0 then 0
    else DecimalValue(s[..|s| - 1]) * 10 + (s[|s| - 1] as int - '0' as int)
  }

  lemma {:induction false} DecimalRoundTrip(n: nat)
    ensures DecimalValue(NatToString(n)) == n
  {
    var s := NatToString(n);
    if n < 10 {
      assert s[..|s| - 1] == [];
    } else {
      assert s[..|s| - 1] == NatToString(n / 10);
      DecimalRoundTrip(n / 10);
    }
  }

  /** Name of one output when a file yields exactly one result. */
  function SingleName(base: string, ext: string): (name: string)
    ensures |name| == |base| + |ext|
    ensures name[..|base|] == base && name[|base|..] == ext
  {
    base + ext
  }

  /** Name of page `page` when a file yields several results. */
  function PageName(base: string, page: nat, ext: string): (name: string)
    ensures var digits := NatToString(page);
            |name| == |base| + 5 + |digits| + |ext| &&
            name[..|base|] == base && name[|base|..|base| + 5] == "_page" &&
            name[|base| + 5..|base| + 5 + |digits|] == digits &&
            name[|base| + 5 + |digits|..] == ext
  {
    base + "_page" + NatToString(page) + ext
  }

  /** Different page numbers give different names within one file. */
  lemma PageNamesDistinct(base: string, p: nat, q: nat, ext: string)
    requires p != q
    ensures PageName(base, p, ext) != PageName(base, q, ext)
  {
    var a, b := NatToString(p), NatToString(q);
    if PageName(base, p, ext) == PageName(base, q, ext) {
      var i := |base| + 5;
      assert |a| == |b|;
      assert a == PageName(base, p, ext)[i..i + |a|];
      assert b == PageName(base, q, ext)[i..i + |b|];
      DecimalRoundTrip(p);
      DecimalRoundTrip(q);
    }
  }

  /** Archive name for one file that yields other than one result. */
  function ArchiveName(base: string): (name: string)
    ensures |name| == |base| + 14
    ensures name[..|base|] == base && name[|base|..] == "_converted.zip"
  {
    base + "_converted.zip"
  }

  /** Archive name for a batch of several files. */
  const BatchArchiveName: string := "converted_images.zip"

  // ---------------------------------------------------------------------
  // Worked examples
  // ---------------------------------------------------------------------

  lemma PhotoExample()
    ensures Extension("photo.PNG") == "png"
    ensures SingleName(BaseName("photo.PNG"), TargetExtension("image/jpeg")) == "photo.jpeg"
  {
    var name := "photo.PNG";
    ExtensionAfterLastDot(name);
    assert name[5] == '.' && name[6] != '.' && name[7] != '.' && name[8] != '.';
    assert LastIndexOf(name, '.') == 5;
    assert "photo.PNG"[6..] == "PNG";
    assert "photo.PNG"[..5] == "photo";
  }

  lemma ReportExample()
    ensures BaseName("report.pdf") == "report"
    ensures ArchiveName("report") == "report_converted.zip"
  {
    var name := "report.pdf";
    assert name[6] == '.' && name[7] != '.' && name[8] != '.' && name[9] != '.';
    assert LastIndexOf(name, '.') == 6;
    assert name[..6] == "report";
  }

  lemma ReportPageNames()
    ensures PageName("report", 1, TargetExtension("image/png")) == "report_page1.png"
    ensures PageName("report", 3, TargetExtension("image/png")) == "report_page3.png"
  {
    assert NatToString(1) == "1";
    assert NatToString(3) == "3";
  }
}
