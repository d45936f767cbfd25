/** The scanning daemon: every check starts as failed, and each one that can be run overwrites its field. */
module Transit {
  import opened Wrappers
  import opened SignedBlock
  import opened FileReport
  import opened Pipeline
  import opened PipelineLaws

  /** The result of each external step; an error means it could not be run. */
  datatype Outcomes = Outcomes(
    digest: Result<Text>,
    size: Result<nat>,
    av: Result<(bool, seq<string>)>,
    yara: Option<Result<seq<string>>>,
    head: Result<(bool, string)>,
    analyze: Option<(bool, string, string)>,
    vt: Option<(bool, nat, string)>)

  datatype Config = Config(maxSize: nat, typeOff: bool)

  /** The metadata of a file as it is received. */
  function Received(filename: string, digest: Text, timestamp: string, corrupted: bool): FileMetadata {
    FileMetadata(filename, digest, false, true, 0, false, false, [], false, "", timestamp, corrupted, "Unknown",
                 true, "", "", true, 0, "")
  }

  function Joined(names: seq<string>): string
    decreases |names|
  {
    if names == [] then "" else Joined(names[..|names| - 1]) + names[|names| - 1]
  }

  /** No step touches what the file arrived with. */
  predicate SameFile(f: FileMetadata, g: FileMetadata) {
    g.filename == f.filename && g.digest == f.digest && g.timestamp == f.timestamp && g.isCorrupted == f.isCorrupted
  }

  /** And only the two scanners touch their own findings. */
  predicate SameScans(f: FileMetadata, g: FileMetadata) {
    g.avPass == f.avPass && g.avReport == f.avReport && g.yaraPass == f.yaraPass && g.yaraReport == f.yaraReport
  }

  function DigestChecked(f: FileMetadata, r: Result<Text>): (g: FileMetadata)
    ensures SameFile(f, g) && SameScans(f, g)
  {
    if r.Ok? then f.(isDigestOk := f.digest == r.value) else f
  }

  function SizeChecked(f: FileMetadata, r: Result<nat>, maxSize: nat): (g: FileMetadata)
    ensures SameFile(f, g) && SameScans(f, g)
  {
    if r.Ok? then f.(isTooBig := r.value > maxSize, size := r.value) else f
  }

  function AvChecked(f: FileMetadata, r: Result<(bool, seq<string>)>): (g: FileMetadata)
    ensures SameFile(f, g)
  {
    if r.Ok? then f.(avPass := !r.value.0, avReport := r.value.1) else f.(avPass := false)
  }

  /** Without rules the check fails; when the scan cannot be run it keeps its earlier value. */
  function YaraChecked(f: FileMetadata, r: Option<Result<seq<string>>>): (g: FileMetadata)
    ensures SameFile(f, g)
  {
    match r
    case None => f.(yaraPass := false)
    case Some(Err) => f
    case Some(Ok(matches)) => f.(yaraPass := matches == [], yaraReport := f.yaraReport + Joined(matches))
  }

  function TypeChecked(f: FileMetadata, r: Result<(bool, string)>, typeOff: bool): (g: FileMetadata)
    ensures SameFile(f, g) && SameScans(f, g)
  {
    if r.Ok? then f.(isTypeAllowed := typeOff || r.value.0, fileType := r.value.1)
    else f.(isTypeAllowed := false, fileType := "Unknown")
  }

  function Analyzed(f: FileMetadata, r: Option<(bool, string, string)>): (g: FileMetadata)
    ensures SameFile(f, g) && SameScans(f, g)
  {
    if r.Some? then f.(specializedPass := r.value.0, specializedAnalyzer := r.value.1, specializedSummary := r.value.2) else f
  }

  function LookedUp(f: FileMetadata, r: Option<(bool, nat, string)>): (g: FileMetadata)
    ensures SameFile(f, g) && SameScans(f, g)
  {
    if r.Some? then f.(vtPass := r.value.0, vtDetections := r.value.1, vtSummary := r.value.2) else f
  }

  /** The metadata after all steps. */
  function Checked(c: Config, f: FileMetadata, o: Outcomes): FileMetadata {
    var local := YaraChecked(AvChecked(SizeChecked(DigestChecked(f, o.digest), o.size, c.maxSize), o.av), o.yara);
    LookedUp(Analyzed(TypeChecked(local, o.head, c.typeOff), o.analyze), o.vt)
  }

  /** The loop over a batch, updating the metadata of each file in place. */
  method CheckFiles(files: array<FileMetadata>, c: Config, outcomes: seq<Outcomes>) returns (passed: seq<bool>)
    requires |outcomes| == files.Length
    modifies files
    ensures forall i :: 0 <= i < files.Length ==> files[i] == Checked(c, old(files[i]), outcomes[i])
    ensures |passed| == files.Length && forall i :: 0 <= i < files.Length ==> passed[i] == Passed(files[i])
  {
    hide Checked;
    passed := [];
    for i := 0 to files.Length
      invariant |passed| == i
      invariant forall j :: 0 <= j < i ==> files[j] == Checked(c, old(files[j]), outcomes[j]) && passed[j] == Passed(files[j])
      invariant forall j :: i <= j < files.Length ==> files[j] == old(files[j])
    {
      var f := CheckFile(files[i], c, outcomes[i]);
      files[i] := f;
      passed := passed + [
        f.isDigestOk && !f.isTooBig && f.isTypeAllowed && f.avPass && f.yaraPass && f.specializedPass && f.vtPass];
    }
  }

  method CheckFile(file: FileMetadata, c: Config, o: Outcomes) returns (f: FileMetadata)
    ensures f == Checked(c, file, o)
  {
    hide DigestChecked, SizeChecked, AvChecked, TypeChecked, Analyzed, LookedUp, YaraChecked;
    f := CheckMeasures(file, c, o);
    f := CheckAv(f, o.av);
    f := CheckYara(f, o.yara);
    f := CheckContent(f, c, o);
  }

  method CheckMeasures(file: FileMetadata, c: Config, o: Outcomes) returns (f: FileMetadata)
    ensures f == SizeChecked(DigestChecked(file, o.digest), o.size, c.maxSize)
  {
    f := file;
    if o.digest.Ok? {
      f := f.(isDigestOk := f.digest == o.digest.value);
    }
    if o.size.Ok? {
      f := f.(isTooBig := o.size.value > c.maxSize, size := o.size.value);
    }
  }

  method CheckAv(file: FileMetadata, r: Result<(bool, seq<string>)>) returns (f: FileMetadata)
    ensures f == AvChecked(file, r)
  {
    if r.Ok? {
      f := file.(avPass := !r.value.0);
      f := f.(avReport := r.value.1);
    } else {
      f := file.(avPass := false);
    }
  }

  method CheckContent(file: FileMetadata, c: Config, o: Outcomes) returns (f: FileMetadata)
    ensures f == LookedUp(Analyzed(TypeChecked(file, o.head, c.typeOff), o.analyze), o.vt)
  {
    f := file;
    if o.head.Ok? {
      f := f.(isTypeAllowed := c.typeOff || o.head.value.0, fileType := o.head.value.1);
    } else {
      f := f.(isTypeAllowed := false, fileType := "Unknown");
    }
    assert f == TypeChecked(file, o.head, c.typeOff);
    hide TypeChecked;
    ghost var before := f;
    if o.analyze.Some? {
      f := f.(specializedPass := o.analyze.value.0, specializedAnalyzer := o.analyze.value.1, specializedSummary := o.analyze.value.2);
    }
    assert f == Analyzed(before, o.analyze);
    hide Analyzed;
    if o.vt.Some? {
      f := f.(vtPass := o.vt.value.0, vtDetections := o.vt.value.1, vtSummary := o.vt.value.2);
    }
  }

  method CheckYara(file: FileMetadata, r: Option<Result<seq<string>>>) returns (f: FileMetadata)
    ensures f == YaraChecked(file, r)
  {
    match r {
      case Some(Ok(matches)) =>
        if |matches| == 0 {
          f := file.(yaraPass := true);
          assert file.yaraReport + Joined(matches) == file.yaraReport;
        } else {
          var report := Append(file.yaraReport, matches);
          f := file.(yaraPass := false, yaraReport := report);
        }
      case Some(Err) => f := file;
      case None => f := file.(yaraPass := false);
    }
  }

  method Append(start: string, matches: seq<string>) returns (report: string)
    ensures report == start + Joined(matches)
  {
    report := start;
    for i := 0 to |matches|
      invariant report == start + Joined(matches[..i])
    {
      assert matches[..i + 1][..i] == matches[..i];
      report := report + matches[i];
    }
    assert matches[..|matches|] == matches;
  }

  /** Every mandatory step was run and found nothing, and the optional ones that are configured agreed. */
  predicate AllGood(c: Config, digest: Text, corrupted: bool, o: Outcomes) {
    && !corrupted
    && o.digest == Ok(digest)
    && o.size.Ok? && o.size.value <= c.maxSize
    && o.av.Ok? && !o.av.value.0
    && o.yara == Some(Ok([]))
    && o.head.Ok? && (c.typeOff || o.head.value.0)
    && (o.analyze.Some? ==> o.analyze.value.0)
    && (o.vt.Some? ==> o.vt.value.0)
  }

  /** The daemon fails closed: a step that could not be run makes the report invalid. */
  lemma ValidExactlyWhenAllGood(
    c: Config, filename: string, digest: Text, timestamp: string, corrupted: bool, o: Outcomes, date: string)
    ensures GenerateReportMetadata(Checked(c, Received(filename, digest, timestamp, corrupted), o), date).isValid
            <==> AllGood(c, digest, corrupted, o)
  {}

  /** Some match has a text. */
  predicate SomeText(matches: seq<string>) {
    exists i :: 0 <= i < |matches| && matches[i] != ""
  }

  lemma {:induction false} JoinedText(matches: seq<string>)
    ensures Joined(matches) == "" <==> !SomeText(matches)
    decreases |matches|
  {
    if matches != [] {
      var n := |matches| - 1;
      JoinedText(matches[..n]);
      assert |Joined(matches)| == |Joined(matches[..n])| + |matches[n]|;
      LastText(matches);
    }
  }

  lemma LastText(matches: seq<string>)
    requires matches != []
    ensures SomeText(matches) <==> SomeText(matches[..|matches| - 1]) || |matches[|matches| - 1]| > 0
  {
    var n := |matches| - 1;
    if i :| 0 <= i < |matches| && matches[i] != "" {
      assert i < n ==> matches[..n][i] == matches[i];
    }
    if i :| 0 <= i < n && matches[..n][i] != "" {
      assert matches[i] != "";
    }
  }

  /**
   * From the steps to the map shown with a report, key by key: each scanner's own findings under
   * its own key, and the contents of the report itself.
   */
  lemma ChecksShowOutcomes(c: Config, j: Journey, k: Check)
    ensures var o, shown := j.outcomes, CheckMap(MetaOf(Arriving(c, j)));
            match k
            case Av => k in shown && (shown[k] <==> !(o.av.Ok? && o.av.value.1 != []))
            case Yara => k in shown && (shown[k] <==> !(o.yara.Some? && o.yara.value.Ok? && SomeText(o.yara.value.value)))
            case Type => k in shown && (shown[k] <==> o.head.Ok? && (c.typeOff || o.head.value.0))
            case Size => k in shown && (shown[k] <==> o.size.Ok? && o.size.value <= c.maxSize)
            case Hash => k in shown && (shown[k] <==> o.digest == Ok(j.digest) && j.actualDigest == j.digest && !j.corrupted)
            case Specialized =>
              && (k in shown <==> o.analyze.Some? && (o.analyze.value.1 != "" || !o.analyze.value.0))
              && (k in shown ==> shown[k] == o.analyze.value.0)
            case Vt =>
              (k in shown <==> o.vt.Some? && o.vt.value.2 != "") && (k in shown ==> shown[k] == o.vt.value.0)
  {
    hide MetaOf, Arriving, Joined, SomeText, CheckMap, Found;
    MapOfReport(MetaOf(Arriving(c, j)), k);
    if k.Specialized? || k.Vt? || k.Type? {
      ReportHoldsContents(c, j);
    } else {
      ReportHoldsOutcomes(c, j);
      FoundText(j.outcomes.yara);
    }
  }

  lemma FoundText(r: Option<Result<seq<string>>>)
    ensures Found(r) != "" <==> r.Some? && r.value.Ok? && SomeText(r.value.value)
  {
    if r.Some? && r.value.Ok? {
      JoinedText(r.value.value);
    }
  }

  /** What the map has under one key. */
  predicate KeyShows(m: MetaData, k: Check) {
    var shown, r := CheckMap(m), m.report;
    match k
    case Av => k in shown && shown[k] == (r.av == [])
    case Yara => k in shown && shown[k] == (r.yara == "")
    case Type => k in shown && shown[k] == r.typeAllowed
    case Size => k in shown && shown[k] == !r.toobig
    case Hash => k in shown && shown[k] == (r.isDigestOk && !r.corrupted)
    case Specialized =>
      (k in shown <==> r.specializedAnalyzer != "" || !r.specializedPass) && (k in shown ==> shown[k] == r.specializedPass)
    case Vt => (k in shown <==> r.vtSummary != "") && (k in shown ==> shown[k] == r.vtPass)
  }

  lemma MapOfReport(m: MetaData, k: Check)
    ensures KeyShows(m, k)
  {
    match k
    case Av =>
    case Yara =>
    case Type =>
    case Size =>
    case Hash =>
    case Specialized =>
    case Vt =>
  }

  /** The report holds the outcomes of the local steps, and what the writer found in the file. */
  lemma ReportHoldsOutcomes(c: Config, j: Journey)
    ensures var m, o := MetaOf(Arriving(c, j)), j.outcomes;
            var r := m.report;
            && m.name == j.filename && m.date == j.date && r.corrupted == j.corrupted
            && r.av == (if o.av.Ok? then o.av.value.1 else []) && r.yara == Found(o.yara)
            && (r.toobig <==> !(o.size.Ok? && o.size.value <= c.maxSize))
            && r.size == (if o.size.Ok? then o.size.value else 0)
            && (r.isDigestOk <==> o.digest == Ok(j.digest) && j.actualDigest == j.digest)
  {
    var f := Received(j.filename, j.digest, j.timestamp, j.corrupted);
    ReportIs(c, j);
    LocalOutcomes(c, f, j.outcomes);
    NothingBefore(Found(j.outcomes.yara));
    hide Checked, Found, LocalUpdate, MetaOf;
  }

  /** And those of the steps that look at the contents, whose fields are passed on unchanged. */
  lemma ReportHoldsContents(c: Config, j: Journey)
    ensures var m, o := MetaOf(Arriving(c, j)), j.outcomes;
            var r := m.report;
            && m.fileType == (if o.head.Ok? then o.head.value.1 else "Unknown")
            && (r.typeAllowed <==> o.head.Ok? && (c.typeOff || o.head.value.0))
            && (r.specializedPass <==> (o.analyze.Some? ==> o.analyze.value.0))
            && r.specializedAnalyzer == (if o.analyze.Some? then o.analyze.value.1 else "")
            && r.specializedSummary == (if o.analyze.Some? then o.analyze.value.2 else "")
            && (r.vtPass <==> (o.vt.Some? ==> o.vt.value.0))
            && r.vtDetections == (if o.vt.Some? then o.vt.value.1 else 0)
            && r.vtSummary == (if o.vt.Some? then o.vt.value.2 else "")
  {
    var f := Received(j.filename, j.digest, j.timestamp, j.corrupted);
    ReportIs(c, j);
    LocalOutcomes(c, f, j.outcomes);
    hide Checked, Found, LocalUpdate, MetaOf;
  }

  lemma ReportIs(c: Config, j: Journey)
    ensures var f := Received(j.filename, j.digest, j.timestamp, j.corrupted);
            var g := ContentUpdate(c, LocalUpdate(c, f, j.outcomes), j.outcomes);
            MetaOf(Arriving(c, j)) == GenerateReportMetadata(g.(isDigestOk := g.isDigestOk && j.actualDigest == g.digest), j.date)
  {
    hide Checked, Found, LocalUpdate, ContentUpdate, GenerateReportMetadata;
    var f := Received(j.filename, j.digest, j.timestamp, j.corrupted);
    CheckedIs(c, f, j.outcomes);
    var g := Checked(c, f, j.outcomes);
    if j.actualDigest == g.digest {
      assert g.(isDigestOk := g.isDigestOk) == g;
    }
  }

  lemma LocalOutcomes(c: Config, f: FileMetadata, o: Outcomes)
    ensures var g := LocalUpdate(c, f, o);
            && g.filename == f.filename && g.digest == f.digest && g.isCorrupted == f.isCorrupted
            && g.isDigestOk == (if o.digest.Ok? then f.digest == o.digest.value else f.isDigestOk)
            && g.isTooBig == (if o.size.Ok? then o.size.value > c.maxSize else f.isTooBig)
            && g.size == (if o.size.Ok? then o.size.value else f.size)
            && g.avReport == (if o.av.Ok? then o.av.value.1 else f.avReport) && g.yaraReport == f.yaraReport + Found(o.yara)
            && g.specializedPass == f.specializedPass && g.specializedAnalyzer == f.specializedAnalyzer
            && g.specializedSummary == f.specializedSummary
            && g.vtPass == f.vtPass && g.vtDetections == f.vtDetections && g.vtSummary == f.vtSummary
  {
    hide Found, ScanPasses;
  }

  lemma NothingBefore(text: string)
    ensures "" + text == text
  {}

  lemma DigestIs(f: FileMetadata, r: Result<Text>)
    ensures DigestChecked(f, r) == f.(isDigestOk := if r.Ok? then f.digest == r.value else f.isDigestOk)
  {}

  lemma SizeIs(f: FileMetadata, r: Result<nat>, maxSize: nat)
    ensures SizeChecked(f, r, maxSize) ==
            f.(isTooBig := if r.Ok? then r.value > maxSize else f.isTooBig, size := if r.Ok? then r.value else f.size)
  {}

  lemma AvIs(f: FileMetadata, r: Result<(bool, seq<string>)>)
    ensures AvChecked(f, r) == f.(avPass := r.Ok? && !r.value.0, avReport := if r.Ok? then r.value.1 else f.avReport)
  {}

  /** What the scan adds to the report of a file. */
  function Found(r: Option<Result<seq<string>>>): string {
    if r.Some? && r.value.Ok? then Joined(r.value.value) else ""
  }

  predicate ScanPasses(r: Option<Result<seq<string>>>, before: bool) {
    r.Some? && if r.value.Ok? then r.value.value == [] else before
  }

  lemma YaraIs(f: FileMetadata, r: Option<Result<seq<string>>>)
    ensures YaraChecked(f, r) ==
            f.(yaraPass := ScanPasses(r, f.yaraPass), yaraReport := f.yaraReport + Found(r))
  {
    assert f.yaraReport + "" == f.yaraReport;
  }

  lemma TypeIs(f: FileMetadata, r: Result<(bool, string)>, typeOff: bool)
    ensures TypeChecked(f, r, typeOff) ==
            f.(isTypeAllowed := r.Ok? && (typeOff || r.value.0), fileType := if r.Ok? then r.value.1 else "Unknown")
  {}

  lemma AnalyzeIs(f: FileMetadata, r: Option<(bool, string, string)>)
    ensures Analyzed(f, r) ==
            f.(specializedPass := if r.Some? then r.value.0 else f.specializedPass,
               specializedAnalyzer := if r.Some? then r.value.1 else f.specializedAnalyzer,
               specializedSummary := if r.Some? then r.value.2 else f.specializedSummary)
  {}

  lemma LookupIs(f: FileMetadata, r: Option<(bool, nat, string)>)
    ensures LookedUp(f, r) ==
            f.(vtPass := if r.Some? then r.value.0 else f.vtPass,
               vtDetections := if r.Some? then r.value.1 else f.vtDetections,
               vtSummary := if r.Some? then r.value.2 else f.vtSummary)
  {}

  /** All steps in one update of the metadata, the local ones first. */
  function LocalUpdate(c: Config, f: FileMetadata, o: Outcomes): FileMetadata {
    f.(isDigestOk := if o.digest.Ok? then f.digest == o.digest.value else f.isDigestOk,
       isTooBig := if o.size.Ok? then o.size.value > c.maxSize else f.isTooBig,
       size := if o.size.Ok? then o.size.value else f.size,
       avPass := o.av.Ok? && !o.av.value.0,
       avReport := if o.av.Ok? then o.av.value.1 else f.avReport,
       yaraPass := ScanPasses(o.yara, f.yaraPass),
       yaraReport := f.yaraReport + Found(o.yara))
  }

  function ContentUpdate(c: Config, f: FileMetadata, o: Outcomes): FileMetadata {
    OptionalUpdate(
      f.(isTypeAllowed := o.head.Ok? && (c.typeOff || o.head.value.0), fileType := if o.head.Ok? then o.head.value.1 else "Unknown"),
      o)
  }

  function OptionalUpdate(f: FileMetadata, o: Outcomes): FileMetadata {
    f.(specializedPass := if o.analyze.Some? then o.analyze.value.0 else f.specializedPass,
       specializedAnalyzer := if o.analyze.Some? then o.analyze.value.1 else f.specializedAnalyzer,
       specializedSummary := if o.analyze.Some? then o.analyze.value.2 else f.specializedSummary,
       vtPass := if o.vt.Some? then o.vt.value.0 else f.vtPass,
       vtDetections := if o.vt.Some? then o.vt.value.1 else f.vtDetections,
       vtSummary := if o.vt.Some? then o.vt.value.2 else f.vtSummary)
  }

  lemma LocalIs(c: Config, f: FileMetadata, o: Outcomes)
    ensures YaraChecked(AvChecked(SizeChecked(DigestChecked(f, o.digest), o.size, c.maxSize), o.av), o.yara) == LocalUpdate(c, f, o)
  {
    hide DigestChecked, SizeChecked, AvChecked, YaraChecked, Found, ScanPasses;
    var f1 := DigestChecked(f, o.digest);
    var f2 := SizeChecked(f1, o.size, c.maxSize);
    DigestIs(f, o.digest);
    SizeIs(f1, o.size, c.maxSize);
    AvIs(f2, o.av);
    YaraIs(AvChecked(f2, o.av), o.yara);
  }

  lemma ContentIs(c: Config, f: FileMetadata, o: Outcomes)
    ensures LookedUp(Analyzed(TypeChecked(f, o.head, c.typeOff), o.analyze), o.vt) == ContentUpdate(c, f, o)
  {
    hide TypeChecked, Analyzed, LookedUp, OptionalUpdate;
    TypeIs(f, o.head, c.typeOff);
    OptionalIs(TypeChecked(f, o.head, c.typeOff), o);
  }

  lemma OptionalIs(f: FileMetadata, o: Outcomes)
    ensures LookedUp(Analyzed(f, o.analyze), o.vt) == OptionalUpdate(f, o)
  {
    hide Analyzed, LookedUp;
    AnalyzeIs(f, o.analyze);
    LookupIs(Analyzed(f, o.analyze), o.vt);
  }

  lemma CheckedIs(c: Config, f: FileMetadata, o: Outcomes)
    ensures Checked(c, f, o) == ContentUpdate(c, LocalUpdate(c, f, o), o)
  {
    hide DigestChecked, SizeChecked, AvChecked, YaraChecked, TypeChecked, Analyzed, LookedUp, LocalUpdate, ContentUpdate;
    LocalIs(c, f, o);
    ContentIs(c, LocalUpdate(c, f, o), o);
  }

  /** What the reasons of the list rely on: a scanner's findings go with its failure. */
  lemma CheckedReportsMatch(c: Config, filename: string, digest: Text, timestamp: string, corrupted: bool, o: Outcomes)
    requires o.av.Ok? && o.av.value.1 != [] ==> o.av.value.0
    ensures ReportsMatch(Checked(c, Received(filename, digest, timestamp, corrupted), o))
  {
    hide DigestChecked, SizeChecked, TypeChecked, Analyzed, LookedUp;
    assert Joined([]) == "";
  }

  /** One file of a run: what came in, what the steps gave, and what the writer finds in the file later. */
  datatype Journey = Journey(
    filename: string, digest: Text, timestamp: string, corrupted: bool, outcomes: Outcomes, actualDigest: Text, date: string)

  function Arriving(c: Config, j: Journey): Pipeline.Received {
    Pipeline.Received(Checked(c, Received(j.filename, j.digest, j.timestamp, j.corrupted), j.outcomes), j.actualDigest, j.date)
  }

  function AllArriving(c: Config, js: seq<Journey>): seq<Pipeline.Received> {
    seq(|js|, i requires 0 <= i < |js| => Arriving(c, js[i]))
  }

  lemma CheckedKeeps(c: Config, f: FileMetadata, o: Outcomes)
    ensures SameFile(f, Checked(c, f, o))
  {
    hide DigestChecked, SizeChecked, AvChecked, YaraChecked, TypeChecked, Analyzed, LookedUp;
  }

  /** The writer's own digest can only turn a valid file into an invalid one. */
  lemma RecheckedValid(r: Pipeline.Received)
    ensures MetaOf(r).isValid <==> GenerateReportMetadata(r.md, r.date).isValid && r.actualDigest == r.md.digest
  {}

  predicate Arrived(js: seq<Journey>, filename: string) {
    exists i :: 0 <= i < |js| && js[i].filename == filename
  }

  lemma ArrivingValid(c: Config, j: Journey)
    ensures MetaOf(Arriving(c, j)).isValid <==> AllGood(c, j.digest, j.corrupted, j.outcomes) && j.actualDigest == j.digest
    ensures Arriving(c, j).md.filename == j.filename
  {
    hide Checked, GenerateReportMetadata, MetaOf, AllGood;
    ValidExactlyWhenAllGood(c, j.filename, j.digest, j.timestamp, j.corrupted, j.outcomes, j.date);
    CheckedKeeps(c, Received(j.filename, j.digest, j.timestamp, j.corrupted), j.outcomes);
    RecheckedValid(Arriving(c, j));
  }

  /** The steps a file has passed, and the digest it had when it was written. */
  predicate Sound(c: Config, j: Journey) {
    AllGood(c, j.digest, j.corrupted, j.outcomes) && j.actualDigest == j.digest
  }

  /**
   * From arrival to the user: in every mode the list is faithful to what happened to the files,
   * each named once and as valid exactly when every check succeeded and the file still had its
   * digest when it was written, exactly when every name works.
   */
  lemma UserSeesTheVerdictsExactly(c: Config, js: seq<Journey>, mode: KrpMode, yaraClean: bool, entries: seq<string>)
    requires DistinctRun(AllArriving(c, js)) && ListingOf(Output(AllArriving(c, js), mode, yaraClean), entries)
    ensures var files := AllArriving(c, js);
            var list := Listing(Output(files, mode, yaraClean), entries);
            (forall i :: 0 <= i < |js| ==> NameWorks(files, i, mode, yaraClean)) <==>
            && (forall i :: 0 <= i < |js| ==> Names(list, js[i].filename, Sound(c, js[i])))
            && DistinctNames(list)
            && (forall k :: 0 <= k < |list| ==> Arrived(js, list[k].filename))
  {
    hide Listing, Output, DistinctRun, ListingOf, Names, DistinctNames, AllGood, Arriving, MetaOf, NameWorks;
    var files := AllArriving(c, js);
    var list := Listing(Output(files, mode, yaraClean), entries);
    ListIsFaithfulExactly(files, mode, yaraClean, entries);
    forall i | 0 <= i < |js|
      ensures files[i].md.filename == js[i].filename && (IsValid(files[i]) <==> Sound(c, js[i]))
    {
      ArrivingValid(c, js[i]);
    }
    forall name
      ensures Processed(files, name) <==> Arrived(js, name)
    {
      SameNames(c, js, name);
    }
    hide Sound, Processed, Arrived;
    SameVerdicts(c, js, list);
  }

  /** The list is faithful to the files exactly when it is faithful to their journeys. */
  lemma SameVerdicts(c: Config, js: seq<Journey>, list: seq<FileStatus>)
    requires var files := AllArriving(c, js);
             && (forall i :: 0 <= i < |js| ==> files[i].md.filename == js[i].filename && (IsValid(files[i]) <==> Sound(c, js[i])))
             && (forall name :: Processed(files, name) <==> Arrived(js, name))
    ensures Faithful(list, AllArriving(c, js)) <==>
            && (forall i :: 0 <= i < |js| ==> Names(list, js[i].filename, Sound(c, js[i])))
            && DistinctNames(list)
            && (forall k :: 0 <= k < |list| ==> Arrived(js, list[k].filename))
  {
    hide Names, DistinctNames, Arriving, IsValid, Sound, Processed, Arrived;
    var files := AllArriving(c, js);
    if Faithful(list, files) {
      forall i | 0 <= i < |js|
        ensures Names(list, js[i].filename, Sound(c, js[i]))
      {
        assert Names(list, files[i].md.filename, IsValid(files[i]));
      }
    }
    if forall i :: 0 <= i < |js| ==> Names(list, js[i].filename, Sound(c, js[i])) {
      forall i | 0 <= i < |files|
        ensures Names(list, files[i].md.filename, IsValid(files[i]))
      {
        assert Names(list, js[i].filename, Sound(c, js[i]));
      }
    }
  }

  lemma SameNames(c: Config, js: seq<Journey>, name: string)
    ensures Processed(AllArriving(c, js), name) <==> Arrived(js, name)
  {
    hide Checked;
    if i :| 0 <= i < |js| && js[i].filename == name {
      CheckedKeeps(c, Received(js[i].filename, js[i].digest, js[i].timestamp, js[i].corrupted), js[i].outcomes);
      assert AllArriving(c, js)[i].md.filename == name;
    }
    if i :| 0 <= i < |js| && AllArriving(c, js)[i].md.filename == name {
      CheckedKeeps(c, Received(js[i].filename, js[i].digest, js[i].timestamp, js[i].corrupted), js[i].outcomes);
      assert js[i].filename == name;
    }
  }

  /** With plain names and a mode that reports failures, the user always sees the verdicts. */
  lemma UserSeesTheVerdicts(c: Config, js: seq<Journey>, mode: KrpMode, yaraClean: bool, entries: seq<string>)
    requires mode.Always? || mode.FailOnly?
    requires PlainRun(AllArriving(c, js)) && ListingOf(Output(AllArriving(c, js), mode, yaraClean), entries)
    ensures var list := Listing(Output(AllArriving(c, js), mode, yaraClean), entries);
            && (forall i :: 0 <= i < |js| ==> Names(list, js[i].filename, Sound(c, js[i])))
            && DistinctNames(list)
            && (forall k :: 0 <= k < |list| ==> Arrived(js, list[k].filename))
  {
    hide Listing, Output, ListingOf, Names, DistinctNames, Sound, Arriving, NameWorks, PlainRun, Arrived;
    PlainRunIsDistinct(AllArriving(c, js));
    forall i | 0 <= i < |js|
      ensures NameWorks(AllArriving(c, js), i, mode, yaraClean)
    {
      PlainNamesWorkExactly(AllArriving(c, js), mode, yaraClean, i);
    }
    UserSeesTheVerdictsExactly(c, js, mode, yaraClean, entries);
  }

  /** When only the antivirus cannot be run, the refused file is shown with a wrong digest, which it does not have. */
  lemma AntivirusOutageBlamesDigest(c: Config, j: Journey)
    requires j.outcomes.av == Err && Sound(c, j.(outcomes := j.outcomes.(av := Ok((false, [])))))
    ensures var m := MetaOf(Arriving(c, j));
            !m.isValid && m.report.isDigestOk && Reason(m) == Some("digest")
  {
    hide Reason;
    OutageReport(c, j);
    OnlyAvMeansDigest(MetaOf(Arriving(c, j)));
  }

  lemma OutageReport(c: Config, j: Journey)
    requires j.outcomes.av == Err && Sound(c, j.(outcomes := j.outcomes.(av := Ok((false, [])))))
    ensures var m := MetaOf(Arriving(c, j));
            var r := m.report;
            && !m.isValid && !r.corrupted && !r.toobig && r.isDigestOk && r.typeAllowed && r.av == [] && r.yara == ""
            && r.specializedPass && r.vtPass
  {
    assert Joined([]) == "";
  }

  lemma OnlyAvMeansDigest(m: MetaData)
    requires var r := m.report;
             && !m.isValid && !r.corrupted && !r.toobig && r.isDigestOk && r.typeAllowed && r.av == [] && r.yara == ""
             && r.specializedPass && r.vtPass
    ensures Reason(m) == Some("digest")
  {}

  /** Such outcomes exist. */
  lemma AntivirusOutageExists(c: Config)
    ensures var good := Outcomes(Ok([]), Ok(0), Ok((false, [])), Some(Ok([])), Ok((true, "")), None, None);
            var j := Journey("a", [], "", false, good.(av := Err), [], "");
            j.outcomes.av == Err && Sound(c, j.(outcomes := j.outcomes.(av := Ok((false, [])))))
  {}
}
