/** The Convert button's handler: naming the results of each file and
    packaging them as one direct download or a ZIP archive, for one file
    and for a batch of files in which each file may fail on its own. */
module Packaging {
  import opened Outcomes
  import opened Naming
  import opened Decoders
  import opened Conversion

  /** Archive contents: entry name to the payload passed to `zip.file`,
      the base64 text of a data URL (None for `undefined`). */
  type Entries = map<string, Option<string>>

  /** A JSZip archive being filled in. */
  class ZipArchive {
    var entries: Entries

    constructor ()
      ensures entries == map[]
    {
      entries := map[];
    }

    /** `zip.file(name, data)`: adds the entry, replacing an earlier entry
        of the same name. */
    method AddFile(name: string, data: Option<string>)
      modifies this
      ensures entries == old(entries)[name := data]
    {
      entries := entries[name := data];
    }
  }

  /** What the download link ends up offering. */
  datatype Download =
    | NoDownload
    | Direct(fileName: string, href: string)
    | ZipDownload(fileName: string, entries: Entries)

  /** The download offered and the messages alerted, in order. */
  datatype ClickOutcome = ClickOutcome(download: Download, alerts: seq<string>)

  /** One file of a batch and the outcome of converting it. */
  datatype FileOutcome = FileOutcome(name: string, outcome: Result<seq<PageResult>>)

  const SingleFailurePrefix: string := "Error converting file: "

  /** The alert for a file of a batch that failed. */
  function BatchFailureMessage(name: string, msg: string): (alert: string)
    ensures |alert| == 24 + |name| + |msg|
    ensures alert[..22] == "Error converting file " && alert[22..22 + |name|] == name &&
            alert[22 + |name|..24 + |name|] == ": " && alert[24 + |name|..] == msg
  {
    "Error converting file " + name + ": " + msg
  }

  // ---------------------------------------------------------------------
  // Archive contents
  // ---------------------------------------------------------------------

  /** `results.forEach(item => zip.file(baseName + '_page' + item.pageNumber
      + newExtension, …))` applied to the entries `m`. */
  function AddPages(m: Entries, base: string, results: seq<PageResult>, ext: string): (r: Entries)
    ensures m.Keys <= r.Keys
    decreases |results|
  {
    if results == [] then m
    else
      var last := results[|results| - 1];
      AddPages(m, base, results[..|results| - 1], ext)[PageName(base, last.pageNumber, ext) := Base64Payload(last.dataUrl)]
  }

  /** The names `AddPages` writes. */
  function PageNames(base: string, results: seq<PageResult>, ext: string): set<string>
  {
    set k | 0 <= k < |results| :: PageName(base, results[k].pageNumber, ext)
  }

  /** What one successful file of a batch adds: the single name for exactly
      one result, the page names otherwise. */
  function AddFileResults(m: Entries, name: string, results: seq<PageResult>, ext: string): (r: Entries)
    ensures m.Keys <= r.Keys
    ensures |results| == 1 ==>
              var key := SingleName(BaseName(name), ext);
              r.Keys == m.Keys + {key} && r[key] == Base64Payload(results[0].dataUrl)
  {
    if |results| == 1 then m[SingleName(BaseName(name), ext) := Base64Payload(results[0].dataUrl)]
    else AddPages(m, BaseName(name), results, ext)
  }

  /** The names `AddFileResults` writes. */
  function FileEntryNames(name: string, results: seq<PageResult>, ext: string): set<string>
  {
    if |results| == 1 then {SingleName(BaseName(name), ext)}
    else PageNames(BaseName(name), results, ext)
  }

  /** The shared archive after every file's outcome, in order; a failed
      file adds nothing. */
  function AddOutcomes(m: Entries, outs: seq<FileOutcome>, ext: string): (r: Entries)
    ensures m.Keys <= r.Keys
    ensures (forall i :: 0 <= i < |outs| ==> outs[i].outcome.Err?) ==> r == m
    decreases |outs|
  {
    if outs == [] then m
    else
      var before := AddOutcomes(m, outs[..|outs| - 1], ext);
      var last := outs[|outs| - 1];
      match last.outcome
      case Err(_) => before
      case Ok(results) => AddFileResults(before, last.name, results, ext)
  }

  /** One alert per failed file, in order. */
  function FailureAlerts(outs: seq<FileOutcome>): (alerts: seq<string>)
    ensures |alerts| <= |outs|
    ensures alerts == [] <==> forall i :: 0 <= i < |outs| ==> outs[i].outcome.Ok?
    decreases |outs|
  {
    if outs == [] then []
    else
      var before := FailureAlerts(outs[..|outs| - 1]);
      var last := outs[|outs| - 1];
      match last.outcome
      case Err(msg) => before + [BatchFailureMessage(last.name, msg)]
      case Ok(_) => before
  }

  // ---------------------------------------------------------------------
  // The two branches of the handler, as functions of the outcomes
  // ---------------------------------------------------------------------

  /** One file: an error alert and no download; one result as a direct
      download; any other number of results as `<base>_converted.zip`. */
  function SinglePackaging(name: string, outcome: Result<seq<PageResult>>, ext: string): (o: ClickOutcome)
    ensures o.download == NoDownload <==> outcome.Err?
    ensures outcome.Err? ==> o.alerts == [SingleFailurePrefix + outcome.msg]
    ensures outcome.Ok? ==> o.alerts == []
    ensures o.download.Direct? <==> outcome.Ok? && |outcome.value| == 1
    ensures o.download.Direct? ==>
              o.download.fileName == BaseName(name) + ext && o.download.href == outcome.value[0].dataUrl
    ensures o.download.ZipDownload? ==> o.download.fileName == BaseName(name) + "_converted.zip"
  {
    match outcome
    case Err(msg) => ClickOutcome(NoDownload, [SingleFailurePrefix + msg])
    case Ok(results) =>
      var base := BaseName(name);
      if |results| == 1 then ClickOutcome(Direct(SingleName(base, ext), results[0].dataUrl), [])
      else ClickOutcome(ZipDownload(ArchiveName(base), AddPages(map[], base, results, ext)), [])
  }

  /** Several files: always `converted_images.zip`, holding what the
      successful files add, with one alert per failed file. */
  function BatchPackaging(outs: seq<FileOutcome>, ext: string): (o: ClickOutcome)
    ensures o.download.ZipDownload? && o.download.fileName == "converted_images.zip"
    ensures |o.alerts| <= |outs|
    ensures o.alerts == [] <==> forall i :: 0 <= i < |outs| ==> outs[i].outcome.Ok?
  {
    ClickOutcome(ZipDownload(BatchArchiveName, AddOutcomes(map[], outs, ext)), FailureAlerts(outs))
  }

  /** The conversion outcome of every file of a batch. */
  function BatchOutcomes(c: Codecs, files: seq<SourceFile>, format: string, quality: Quality): (outs: seq<FileOutcome>)
    ensures |outs| == |files|
  {
    seq(|files|, i requires 0 <= i < |files| => FileOutcome(files[i].name, FileConversion(c, files[i], format, quality)))
  }

  // ---------------------------------------------------------------------
  // The handler
  // ---------------------------------------------------------------------

  /** The `forEach` over the results of a multi-result file. */
  method AddPagesTo(zip: ZipArchive, base: string, results: seq<PageResult>, ext: string)
    modifies zip
    ensures zip.entries == AddPages(old(zip.entries), base, results, ext)
  {
    ghost var start := zip.entries;
    for k := 0 to |results|
      invariant zip.entries == AddPages(start, base, results[..k], ext)
    {
      var item := results[k];
      var base64Data := Base64Payload(item.dataUrl);
      zip.AddFile(PageName(base, item.pageNumber, ext), base64Data);
      assert results[..k + 1][..k] == results[..k];
    }
    assert results[..|results|] == results;
  }

  /** The `.then` of one file of a batch. */
  method AddFileResultsTo(zip: ZipArchive, name: string, results: seq<PageResult>, ext: string)
    modifies zip
    ensures zip.entries == AddFileResults(old(zip.entries), name, results, ext)
  {
    var baseName := BaseName(name);
    if |results| == 1 {
      var base64Data := Base64Payload(results[0].dataUrl);
      zip.AddFile(SingleName(baseName, ext), base64Data);
    } else {
      AddPagesTo(zip, baseName, results, ext);
    }
  }

  /** The branch for exactly one selected file. */
  method HandleSingle(c: Codecs, file: SourceFile, format: string, quality: Quality)
    returns (o: ClickOutcome)
    ensures o == SinglePackaging(file.name, FileConversion(c, file, format, quality), TargetExtension(format))
  {
    var r := ConvertFile(c, file, format, quality);
    if r.Err? {
      return ClickOutcome(NoDownload, [SingleFailurePrefix + r.msg]);
    }
    var results := r.value;
    var newExtension := TargetExtension(format);
    var baseName := BaseName(file.name);
    if |results| == 1 {
      o := ClickOutcome(Direct(SingleName(baseName, newExtension), results[0].dataUrl), []);
    } else {
      var zip := new ZipArchive();
      AddPagesTo(zip, baseName, results, newExtension);
      o := ClickOutcome(ZipDownload(ArchiveName(baseName), zip.entries), []);
    }
  }

  /** The branch for several files: each file's outcome is handled on its
      own, and the archive is produced after all of them. */
  method HandleMany(c: Codecs, files: seq<SourceFile>, format: string, quality: Quality)
    returns (o: ClickOutcome)
    ensures o == BatchPackaging(BatchOutcomes(c, files, format, quality), TargetExtension(format))
  {
    var zip := new ZipArchive();
    var alerts: seq<string> := [];
    var newExtension := TargetExtension(format);
    for i := 0 to |files|
      invariant zip.entries == AddOutcomes(map[], BatchOutcomes(c, files[..i], format, quality), newExtension)
      invariant alerts == FailureAlerts(BatchOutcomes(c, files[..i], format, quality))
    {
      var r := ConvertFile(c, files[i], format, quality);
      BatchOutcomesSnoc(c, files, format, quality, i);
      BatchStep(map[], BatchOutcomes(c, files[..i], format, quality), FileOutcome(files[i].name, r), newExtension);
      if r.Ok? {
        AddFileResultsTo(zip, files[i].name, r.value, newExtension);
      } else {
        alerts := alerts + [BatchFailureMessage(files[i].name, r.msg)];
      }
    }
    assert files[..|files|] == files;
    o := ClickOutcome(ZipDownload(BatchArchiveName, zip.entries), alerts);
  }

  /** One more file of the batch adds its own conversion outcome. */
  lemma BatchOutcomesSnoc(c: Codecs, files: seq<SourceFile>, format: string, quality: Quality, i: nat)
    requires i < |files|
    ensures BatchOutcomes(c, files[..i + 1], format, quality) ==
              BatchOutcomes(c, files[..i], format, quality) + [FileOutcome(files[i].name, FileConversion(c, files[i], format, quality))]
  {
    assert files[..i + 1][i] == files[i];
  }

  /** One more file outcome: the archive and the alerts as the loop of
      the batch branch extends them. */
  lemma BatchStep(m: Entries, outs: seq<FileOutcome>, out: FileOutcome, ext: string)
    ensures AddOutcomes(m, outs + [out], ext) ==
              if out.outcome.Ok? then AddFileResults(AddOutcomes(m, outs, ext), out.name, out.outcome.value, ext)
              else AddOutcomes(m, outs, ext)
    ensures FailureAlerts(outs + [out]) ==
              if out.outcome.Ok? then FailureAlerts(outs)
              else FailureAlerts(outs) + [BatchFailureMessage(out.name, out.outcome.msg)]
  {
    assert (outs + [out])[..|outs|] == outs;
  }

  /** The whole handler: nothing for no file, then the two branches. */
  method HandleClick(c: Codecs, files: seq<SourceFile>, format: string, quality: Quality)
    returns (o: ClickOutcome)
    ensures |files| == 0 ==> o == ClickOutcome(NoDownload, [])
    ensures |files| == 1 ==> o == SinglePackaging(files[0].name, FileConversion(c, files[0], format, quality), TargetExtension(format))
    ensures |files| > 1 ==> o == BatchPackaging(BatchOutcomes(c, files, format, quality), TargetExtension(format))
  {
    if |files| == 1 {
      o := HandleSingle(c, files[0], format, quality);
    } else if |files| > 1 {
      o := HandleMany(c, files, format, quality);
    } else {
      o := ClickOutcome(NoDownload, []);
    }
  }

  // ---------------------------------------------------------------------
  // Properties of the names and the archives
  // ---------------------------------------------------------------------

  /** `AddPages` keeps what was there and adds exactly the page names. */
  lemma {:induction false} AddPagesKeys(m: Entries, base: string, results: seq<PageResult>, ext: string)
    ensures AddPages(m, base, results, ext).Keys == m.Keys + PageNames(base, results, ext)
    decreases |results|
  {
    if results != [] {
      var n := |results|;
      var init := results[..n - 1];
      var last := results[n - 1];
      var lastKey := PageName(base, last.pageNumber, ext);
      var before := AddPages(m, base, init, ext);
      AddPagesKeys(m, base, init, ext);
      assert AddPages(m, base, results, ext) == before[lastKey := Base64Payload(last.dataUrl)];
      PageNamesSnoc(base, results, ext);
      UnionSnoc(AddPages(m, base, results, ext).Keys, before.Keys, m.Keys,
                PageNames(base, init, ext), PageNames(base, results, ext), lastKey);
    }
  }

  /** The set algebra of one more key: from `a == b + {k}`, `b == m + p`
      and `q == p + {k}` follows `a == m + q`. */
  lemma UnionSnoc<T>(a: set<T>, b: set<T>, m: set<T>, p: set<T>, q: set<T>, k: T)
    requires a == b + {k} && b == m + p && q == p + {k}
    ensures a == m + q
  {
  }

  /** The page names of all results: those of all but the last, and the
      last one's. */
  lemma PageNamesSnoc(base: string, results: seq<PageResult>, ext: string)
    requires results != []
    ensures var n := |results|;
            PageNames(base, results, ext) ==
              PageNames(base, results[..n - 1], ext) + {PageName(base, results[n - 1].pageNumber, ext)}
  {
    var n := |results|;
    var init := results[..n - 1];
    var lastKey := PageName(base, results[n - 1].pageNumber, ext);
    forall x | x in PageNames(base, results, ext)
      ensures x in PageNames(base, init, ext) || x == lastKey
    {
      var k :| 0 <= k < n && x == PageName(base, results[k].pageNumber, ext);
      if k < n - 1 {
        assert init[k] == results[k];
      }
    }
    forall x | x in PageNames(base, init, ext)
      ensures x in PageNames(base, results, ext)
    {
      var k :| 0 <= k < n - 1 && x == PageName(base, init[k].pageNumber, ext);
      assert init[k] == results[k];
    }
  }

  /** No two results of a file carry the same page number. */
  predicate DistinctPages(results: seq<PageResult>)
  {
    forall i, j :: 0 <= i < j < |results| ==> results[i].pageNumber != results[j].pageNumber
  }

  lemma DistinctPagesPrefix(results: seq<PageResult>, n: nat)
    requires DistinctPages(results) && n <= |results|
    ensures DistinctPages(results[..n])
  {
    var init := results[..n];
    forall i, j | 0 <= i < j < n
      ensures init[i].pageNumber != init[j].pageNumber
    {
      assert init[i] == results[i] && init[j] == results[j];
    }
  }

  /** With distinct page numbers no page overwrites another: every result
      is found under its own page name. */
  lemma {:induction false} AddPagesValues(m: Entries, base: string, results: seq<PageResult>, ext: string)
    requires DistinctPages(results)
    ensures forall k :: 0 <= k < |results| ==>
              PageName(base, results[k].pageNumber, ext) in AddPages(m, base, results, ext) &&
              AddPages(m, base, results, ext)[PageName(base, results[k].pageNumber, ext)] == Base64Payload(results[k].dataUrl)
    decreases |results|
  {
    if results != [] {
      var n := |results|;
      var init := results[..n - 1];
      var last := results[n - 1];
      var before := AddPages(m, base, init, ext);
      var after := AddPages(m, base, results, ext);
      var lastKey := PageName(base, last.pageNumber, ext);
      DistinctPagesPrefix(results, n - 1);
      AddPagesValues(m, base, init, ext);
      assert after == before[lastKey := Base64Payload(last.dataUrl)];
      forall k | 0 <= k < n
        ensures PageName(base, results[k].pageNumber, ext) in after &&
                after[PageName(base, results[k].pageNumber, ext)] == Base64Payload(results[k].dataUrl)
      {
        if k < n - 1 {
          assert init[k] == results[k];
          PageNamesDistinct(base, results[k].pageNumber, last.pageNumber, ext);
        }
      }
    }
  }

  /** With distinct page numbers a file's archive has one entry per result. */
  lemma {:induction false} AddPagesCount(base: string, results: seq<PageResult>, ext: string)
    requires DistinctPages(results)
    ensures |AddPages(map[], base, results, ext)| == |results|
    decreases |results|
  {
    if results != [] {
      var n := |results|;
      var init := results[..n - 1];
      var last := results[n - 1];
      var before := AddPages(map[], base, init, ext);
      var key := PageName(base, last.pageNumber, ext);
      DistinctPagesPrefix(results, n - 1);
      AddPagesCount(base, init, ext);
      AddPagesKeys(map[], base, init, ext);
      assert AddPages(map[], base, results, ext) == before[key := Base64Payload(last.dataUrl)];
      if key in before {
        assert key in PageNames(base, init, ext);
        var k :| 0 <= k < n - 1 && key == PageName(base, init[k].pageNumber, ext);
        assert init[k] == results[k];
        PageNamesDistinct(base, init[k].pageNumber, last.pageNumber, ext);
        assert false;
      }
    }
  }

  /** Pages numbered 1 to N, as the PDF path numbers them. */
  predicate NumberedFromOne(results: seq<PageResult>)
  {
    forall k :: 0 <= k < |results| ==> results[k].pageNumber == k + 1
  }

  /** With pages numbered 1 to N, page n is stored under
      `<base>_page<n><ext>` and holds result n. */
  lemma NumberedPagesArchive(base: string, results: seq<PageResult>, ext: string)
    requires NumberedFromOne(results)
    ensures forall n :: 1 <= n <= |results| ==>
              PageName(base, n, ext) in AddPages(map[], base, results, ext) &&
              AddPages(map[], base, results, ext)[PageName(base, n, ext)] == Base64Payload(results[n - 1].dataUrl)
  {
    var m := AddPages(map[], base, results, ext);
    assert DistinctPages(results);
    AddPagesValues(map[], base, results, ext);
    forall n | 1 <= n <= |results|
      ensures PageName(base, n, ext) in m && m[PageName(base, n, ext)] == Base64Payload(results[n - 1].dataUrl)
    {
      assert results[n - 1].pageNumber == n;
      assert PageName(base, results[n - 1].pageNumber, ext) in m;
    }
  }

  /** With pages numbered 1 to N, the archive has no other names. */
  lemma NumberedPagesOnly(base: string, results: seq<PageResult>, ext: string)
    requires NumberedFromOne(results)
    ensures forall key :: key in AddPages(map[], base, results, ext) ==>
              exists n :: 1 <= n <= |results| && key == PageName(base, n, ext)
  {
    AddPagesKeys(map[], base, results, ext);
    forall key | key in AddPages(map[], base, results, ext)
      ensures exists n :: 1 <= n <= |results| && key == PageName(base, n, ext)
    {
      assert key in PageNames(base, results, ext);
      var k :| 0 <= k < |results| && key == PageName(base, results[k].pageNumber, ext);
      assert results[k].pageNumber == k + 1;
      assert 1 <= k + 1 <= |results| && key == PageName(base, k + 1, ext);
    }
  }

  /** A one-page image becomes a direct download named `<base><ext>`. */
  lemma SingleImageDownload(c: Codecs, file: SourceFile, format: string, quality: Quality)
    requires KindOf(Extension(file.name)).Some? && KindOf(Extension(file.name)) != Some(Pdf)
    requires FileConversion(c, file, format, quality).Ok?
    ensures var o := SinglePackaging(file.name, FileConversion(c, file, format, quality), TargetExtension(format));
            o.alerts == [] &&
            o.download == Direct(BaseName(file.name) + TargetExtension(format),
                                 FileConversion(c, file, format, quality).value[0].dataUrl)
  {
    SingleImagePaths(c, file, format, quality);
  }

  /** A PDF of other than one page becomes `<base>_converted.zip` holding
      exactly one entry per page, `<base>_page1<ext>` … `<base>_pageN<ext>`. */
  lemma PdfArchiveDownload(c: Codecs, file: SourceFile, format: string, quality: Quality)
    requires KindOf(Extension(file.name)) == Some(Pdf)
    requires FileConversion(c, file, format, quality).Ok?
    requires |FileConversion(c, file, format, quality).value| != 1
    ensures var results := FileConversion(c, file, format, quality).value;
            var base := BaseName(file.name);
            var ext := TargetExtension(format);
            var o := SinglePackaging(file.name, FileConversion(c, file, format, quality), ext);
            o.alerts == [] && o.download.ZipDownload? &&
            o.download.fileName == base + "_converted.zip" &&
            |o.download.entries| == |results| == c.openPdf(file.content).value.numPages &&
            (forall n :: 1 <= n <= |results| ==>
               PageName(base, n, ext) in o.download.entries &&
               o.download.entries[PageName(base, n, ext)] == Base64Payload(results[n - 1].dataUrl)) &&
            (forall key :: key in o.download.entries ==>
               exists n :: 1 <= n <= |results| && key == PageName(base, n, ext))
  {
    var results := FileConversion(c, file, format, quality).value;
    PdfPagesInOrder(c, file, format, quality);
    assert NumberedFromOne(results);
    AddPagesCount(BaseName(file.name), results, TargetExtension(format));
    NumberedPagesArchive(BaseName(file.name), results, TargetExtension(format));
    NumberedPagesOnly(BaseName(file.name), results, TargetExtension(format));
  }

  /** A single file that fails gives no download and one alert carrying
      the error's message; an unsupported extension is such a failure. */
  lemma SingleFailureAlerts(c: Codecs, file: SourceFile, format: string, quality: Quality)
    requires FileConversion(c, file, format, quality).Err?
    ensures var o := SinglePackaging(file.name, FileConversion(c, file, format, quality), TargetExtension(format));
            o.download == NoDownload &&
            o.alerts == [SingleFailurePrefix + FileConversion(c, file, format, quality).msg] &&
            (Extension(file.name) !in DispatchTable ==>
               o.alerts == [SingleFailurePrefix + UnsupportedPrefix + Extension(file.name)])
  {
    var ext := Extension(file.name);
    if ext !in DispatchTable {
      UnsupportedFormatFails(c, c, file, format, quality);
      assert SingleFailurePrefix + (UnsupportedPrefix + ext) == (SingleFailurePrefix + UnsupportedPrefix) + ext;
    }
  }

  /** What a successful file adds keeps what was there. */
  lemma AddFileResultsKeys(m: Entries, name: string, results: seq<PageResult>, ext: string)
    ensures AddFileResults(m, name, results, ext).Keys == m.Keys + FileEntryNames(name, results, ext)
  {
    if |results| != 1 {
      AddPagesKeys(m, BaseName(name), results, ext);
    }
  }

  /** The names one file's outcome writes: none when it failed. */
  function OutcomeNames(out: FileOutcome, ext: string): set<string>
  {
    if out.outcome.Ok? then FileEntryNames(out.name, out.outcome.value, ext) else {}
  }

  /** Some element of `s` satisfies `p`. */
  ghost predicate Any<T>(s: seq<T>, p: T -> bool)
  {
    exists i :: 0 <= i < |s| && p(s[i])
  }

  /** Some element satisfies `p`: one of all but the last, or the last. */
  lemma AnySnoc<T>(s: seq<T>, p: T -> bool)
    requires s != []
    ensures Any(s, p) <==> Any(s[..|s| - 1], p) || p(s[|s| - 1])
  {
    var init := s[..|s| - 1];
    if Any(s, p) {
      var i :| 0 <= i < |s| && p(s[i]);
      if i < |init| {
        assert init[i] == s[i];
      }
    }
    if Any(init, p) {
      var i :| 0 <= i < |init| && p(init[i]);
      assert init[i] == s[i];
    }
  }

  /** The file outcomes that write `key`. */
  function WritesKey(key: string, ext: string): FileOutcome -> bool
  {
    out => key in OutcomeNames(out, ext)
  }

  /** Some file of the batch that converted writes `key`. */
  ghost predicate SomeFileWrites(outs: seq<FileOutcome>, key: string, ext: string)
  {
    Any(outs, WritesKey(key, ext))
  }

  /** The batch archive's names are exactly those of the successful files:
      a name is in it if and only if some file that converted writes it. */
  lemma {:induction false} BatchArchiveNames(m: Entries, outs: seq<FileOutcome>, ext: string)
    ensures forall key :: key in AddOutcomes(m, outs, ext) <==>
              key in m || SomeFileWrites(outs, key, ext)
    decreases |outs|
  {
    if outs != [] {
      var init := outs[..|outs| - 1];
      var last := outs[|outs| - 1];
      var before := AddOutcomes(m, init, ext);
      assert outs == init + [last];
      BatchArchiveNames(m, init, ext);
      BatchStep(m, init, last, ext);
      if last.outcome.Ok? {
        AddFileResultsKeys(before, last.name, last.outcome.value, ext);
      }
      forall key
        ensures key in AddOutcomes(m, outs, ext) <==> key in m || SomeFileWrites(outs, key, ext)
      {
        AnySnoc(outs, WritesKey(key, ext));
      }
    }
  }

  /** A file that fails contributes nothing: the archive is the one the
      other files give on their own, in the same order. */
  lemma {:induction false} FailedFileAddsNothing(m: Entries, outs: seq<FileOutcome>, i: nat, ext: string)
    requires i < |outs| && outs[i].outcome.Err?
    ensures AddOutcomes(m, outs, ext) == AddOutcomes(m, outs[..i] + outs[i + 1..], ext)
    decreases |outs|
  {
    var rest := outs[..i] + outs[i + 1..];
    var init := outs[..|outs| - 1];
    var last := outs[|outs| - 1];
    assert outs == init + [last];
    if i == |outs| - 1 {
      assert rest == init;
      BatchStep(m, init, last, ext);
    } else {
      FailedFileAddsNothing(m, init, i, ext);
      var restInit := init[..i] + init[i + 1..];
      assert init[..i] == outs[..i];
      assert outs[i + 1..] == init[i + 1..] + [last];
      assert rest == restInit + [last];
      BatchStep(m, init, last, ext);
      BatchStep(m, restInit, last, ext);
    }
  }

  /** A batch always yields `converted_images.zip`, with no entry when every
      file fails, and one alert per failed file. */
  lemma BatchAlwaysArchives(outs: seq<FileOutcome>, ext: string)
    ensures var o := BatchPackaging(outs, ext);
            o.download.ZipDownload? && o.download.fileName == "converted_images.zip" &&
            ((forall i :: 0 <= i < |outs| ==> outs[i].outcome.Err?) ==> o.download.entries == map[]) &&
            (o.alerts == [] <==> forall i :: 0 <= i < |outs| ==> outs[i].outcome.Ok?)
  {
    BatchArchiveNames(map[], outs, ext);
  }

  /** Names are not unique across a batch: `photo.png` and `photo.gif`
      converted to JPEG both write `photo.jpeg`, so two successful files
      leave a single entry. */
  lemma SameBaseNameCollides(a: PageResult, b: PageResult)
    ensures var outs := [FileOutcome("photo.png", Ok([a])), FileOutcome("photo.gif", Ok([b]))];
            AddOutcomes(map[], outs, ".jpeg").Keys == {"photo.jpeg"}
  {
    var p, g := "photo.png", "photo.gif";
    assert p[5] == '.' && p[6] != '.' && p[7] != '.' && p[8] != '.';
    assert g[5] == '.' && g[6] != '.' && g[7] != '.' && g[8] != '.';
    assert LastIndexOf(p, '.') == 5 && LastIndexOf(g, '.') == 5;
    assert BaseName(p) == "photo" && BaseName(g) == "photo";
    var outs := [FileOutcome(p, Ok([a])), FileOutcome(g, Ok([b]))];
    var one := [FileOutcome(p, Ok([a]))];
    assert outs[..1] == one;
    assert one[..0] == [];
    assert AddOutcomes(map[], one[..0], ".jpeg") == map[];
    var first := AddOutcomes(map[], one, ".jpeg");
    assert first == AddFileResults(map[], p, [a], ".jpeg");
    assert SingleName("photo", ".jpeg") == "photo.jpeg";
    assert first.Keys == {"photo.jpeg"};
    assert AddOutcomes(map[], outs, ".jpeg") == AddFileResults(first, g, [b], ".jpeg");
  }
}
