/**
 * From the station's verdicts to the output directory, and from the directory back to the list
 * of verdicts shown to the user.
 */
module Pipeline {
  import opened Wrappers
  import opened Lists
  import opened SignedBlock
  import opened FileReport

  datatype KrpMode = Always | Never | PassOnly | FailOnly

  function Lowered(s: string): string {
    seq(|s|, i requires 0 <= i < |s| => if 'A' <= s[i] <= 'Z' then s[i] + 32 as char else s[i])
  }

  function ModeFromString(s: string): KrpMode {
    var l := Lowered(s);
    if l == "never" then Never else if l == "pass_only" then PassOnly else if l == "fail_only" then FailOnly else Always
  }

  predicate ShouldWrite(mode: KrpMode, isValid: bool) {
    match mode
    case Always => true
    case Never => false
    case PassOnly => isValid
    case FailOnly => !isValid
  }

  /** A file as it reaches the writer, with the digest of what it really holds and the time. */
  datatype Received = Received(md: FileMetadata, actualDigest: Text, date: string)

  /** A file of the output directory: the data of a passed file, or a report, if it can be parsed. */
  datatype Content = Data | Krp(metadata: Option<MetaData>)

  type Dir = map<string, Content>

  function Rechecked(f: Received): FileMetadata {
    if f.actualDigest != f.md.digest then f.md.(isDigestOk := false) else f.md
  }

  function MetaOf(f: Received): MetaData {
    GenerateReportMetadata(Rechecked(f), f.date)
  }

  predicate Copied(f: FileMetadata, yaraClean: bool) {
    && f.isDigestOk && !f.isTooBig && f.isTypeAllowed && f.avPass && !f.isCorrupted
    && (f.yaraPass || !yaraClean) && f.specializedPass && f.vtPass
  }

  function KrpName(name: string): string { "." + name + ".krp" }

  function Stored(dir: Dir, f: Received, mode: KrpMode, yaraClean: bool): Dir {
    var withReport := if ShouldWrite(mode, MetaOf(f).isValid) then dir[KrpName(f.md.filename) := Krp(Some(MetaOf(f)))] else dir;
    if Copied(Rechecked(f), yaraClean) then withReport[f.md.filename := Data] else withReport
  }

  function Output(files: seq<Received>, mode: KrpMode, yaraClean: bool): Dir
    decreases |files|
  {
    if files == [] then map[]
    else Stored(Output(files[..|files| - 1], mode, yaraClean), files[|files| - 1], mode, yaraClean)
  }

  // ---------------------------------------------------------------- reading it back

  predicate EndsWith(s: string, suffix: string) {
    |s| >= |suffix| && s[|s| - |suffix|..] == suffix
  }

  /** A leading dot, at least one character and no line break, then `.krp`. */
  predicate HiddenKrp(s: string) {
    |s| >= 6 && s[0] == '.' && EndsWith(s, ".krp") && '\n' !in s[1..|s| - 4]
  }

  predicate Skipped(s: string) {
    (s != "" && s[0] == '.' && !HiddenKrp(s)) || EndsWith(s, ".sha256")
  }

  predicate IsKrp(s: string) { !Skipped(s) && EndsWith(s, ".krp") }

  predicate IsData(s: string) { !Skipped(s) && !EndsWith(s, ".krp") }

  /** The file a report is about: without the leading dot, if any, and the extension. */
  function Original(krp: string): string
    requires IsKrp(krp)
  {
    assert krp != ".krp" by {
      assert !HiddenKrp(".krp") && ".krp"[0] == '.';
    }
    if krp[0] == '.' then krp[1..|krp| - 4] else krp[..|krp| - 4]
  }

  /** The keys of the map of checks. */
  datatype Check = Av | Yara | Type | Size | Hash | Specialized | Vt

  datatype FileStatus = FileStatus(filename: string, isValid: bool, reason: Option<string>, checks: Option<map<Check, bool>>)

  /** The checks the list shows for a report. */
  function CheckMap(m: MetaData): map<Check, bool> {
    var r := m.report;
    var base := map[Av := r.av == [], Yara := r.yara == "", Type := r.typeAllowed, Size := !r.toobig,
                    Hash := r.isDigestOk && !r.corrupted];
    var more := if r.specializedAnalyzer != "" || !r.specializedPass then base[Specialized := r.specializedPass] else base;
    if r.vtSummary != "" then more[Vt := r.vtPass] else more
  }

  function Reason(m: MetaData): Option<string> {
    var r := m.report;
    if m.isValid then None
    else if r.corrupted then Some("corrupted")
    else if r.toobig then Some("toobig")
    else if !r.isDigestOk then Some("digest")
    else if !r.typeAllowed then Some("forbidden")
    else if r.av != [] then Some("antivirus")
    else if r.yara != "" then Some("yara")
    else if !r.specializedPass then Some("specialized")
    else if !r.vtPass then Some("virustotal")
    else Some("digest")
  }

  /** The status of a file from its report; a report that cannot be parsed counts as a pass. */
  function FromKrp(name: string, krp: Content): FileStatus {
    if krp.Data? || krp.metadata.None? then FileStatus(name, true, None, None)
    else FileStatus(name, krp.metadata.value.isValid, Reason(krp.metadata.value), Some(CheckMap(krp.metadata.value)))
  }

  function DataStatus(dir: Dir, name: string): FileStatus {
    if KrpName(name) in dir then FromKrp(name, dir[KrpName(name)]) else FileStatus(name, true, None, None)
  }

  function KrpStatus(dir: Dir, krp: string): FileStatus
    requires IsKrp(krp) && krp in dir
  {
    var s := FromKrp(Original(krp), dir[krp]);
    s.(isValid := false, reason := if s.reason.Some? then s.reason else Some("unknown"))
  }

  /** A report whose file is not itself in the directory. */
  predicate Orphan(data: seq<string>, krp: string) {
    IsKrp(krp) && Original(krp) !in data
  }

  function OrphanOf(data: seq<string>): string -> bool {
    k => Orphan(data, k)
  }

  predicate ListingOf(dir: Dir, entries: seq<string>) {
    Distinct(entries) && (forall e <- entries :: e in dir) && (forall e <- dir :: e in entries)
  }

  function Listing(dir: Dir, entries: seq<string>): seq<FileStatus>
    requires ListingOf(dir, entries)
  {
    var data := Filter(IsData, entries);
    var orphans := Filter(OrphanOf(data), entries);
    FilterMembers(OrphanOf(data), entries);
    DataStatuses(dir, data) + KrpStatuses(dir, orphans)
  }

  function DataStatuses(dir: Dir, names: seq<string>): seq<FileStatus> {
    seq(|names|, i requires 0 <= i < |names| => DataStatus(dir, names[i]))
  }

  function KrpStatuses(dir: Dir, krps: seq<string>): seq<FileStatus>
    requires forall k <- krps :: IsKrp(k) && k in dir
  {
    seq(|krps|, i requires 0 <= i < |krps| => assert krps[i] in krps; KrpStatus(dir, krps[i]))
  }

  lemma DataStatusIs(dir: Dir, name: string, isValid: bool, reason: Option<string>, checks: Option<map<Check, bool>>)
    requires KrpName(name) in dir ==> FileStatus("", isValid, reason, checks) == FromKrp("", dir[KrpName(name)])
    requires KrpName(name) !in dir ==> isValid && reason.None? && checks.None?
    ensures DataStatus(dir, name) == FileStatus(name, isValid, reason, checks)
  {}

  lemma KrpStatusIs(dir: Dir, krp: string, isValid: bool, reason: Option<string>, checks: Option<map<Check, bool>>)
    requires IsKrp(krp) && krp in dir && FileStatus("", isValid, reason, checks) == FromKrp("", dir[krp])
    ensures KrpStatus(dir, krp) == FileStatus(Original(krp), false, if reason.Some? then reason else Some("unknown"), checks)
  {
    hide IsKrp, Original;
  }

  method ParseKrp(krp: Content) returns (isValid: bool, reason: Option<string>, checks: Option<map<Check, bool>>)
    ensures FileStatus("", isValid, reason, checks) == FromKrp("", krp)
  {
    if krp.Data? || krp.metadata.None? {
      return true, None, None;
    }
    var meta := krp.metadata.value;
    var report := meta.report;
    isValid := meta.isValid;
    var shown: map<Check, bool> := map[];
    shown := shown[Av := report.av == []];
    shown := shown[Yara := report.yara == ""];
    shown := shown[Type := report.typeAllowed];
    shown := shown[Size := !report.toobig];
    shown := shown[Hash := report.isDigestOk && !report.corrupted];
    if report.specializedAnalyzer != "" || !report.specializedPass {
      shown := shown[Specialized := report.specializedPass];
    }
    if report.vtSummary != "" {
      shown := shown[Vt := report.vtPass];
    }
    assert shown == CheckMap(meta);
    checks := Some(shown);
    if isValid {
      return isValid, None, checks;
    }
    if report.corrupted {
      return isValid, Some("corrupted"), checks;
    }
    if report.toobig {
      return isValid, Some("toobig"), checks;
    }
    if !report.isDigestOk {
      return isValid, Some("digest"), checks;
    }
    if !report.typeAllowed {
      return isValid, Some("forbidden"), checks;
    }
    if report.av != [] {
      return isValid, Some("antivirus"), checks;
    }
    if report.yara != "" {
      return isValid, Some("yara"), checks;
    }
    if !report.specializedPass {
      return isValid, Some("specialized"), checks;
    }
    if !report.vtPass {
      return isValid, Some("virustotal"), checks;
    }
    return isValid, Some("digest"), checks;
  }

  class OutputDirectory {
    var content: Dir

    constructor ()
      ensures content == map[]
    {
      content := map[];
    }

    method OutputFiles(files: seq<Received>, mode: KrpMode, yaraClean: bool)
      requires content == map[]
      modifies this
      ensures content == Output(files, mode, yaraClean)
    {
      for i := 0 to |files|
        invariant content == Output(files[..i], mode, yaraClean)
      {
        assert files[..i + 1][..i] == files[..i];
        var f := files[i].md;
        if files[i].actualDigest != f.digest {
          f := f.(isDigestOk := false);
        }
        var meta := GenerateReportMetadata(f, files[i].date);
        if ShouldWrite(mode, meta.isValid) {
          content := content["." + f.filename + ".krp" := Krp(Some(meta))];
        }
        if f.isDigestOk && !f.isTooBig && f.isTypeAllowed && f.avPass && !f.isCorrupted
           && (f.yaraPass || !yaraClean) && f.specializedPass && f.vtPass {
          content := content[f.filename := Data];
        }
      }
      assert files[..|files|] == files;
    }

    /** `entries` is the order in which the directory is read. */
    method ListFilesOut(entries: seq<string>) returns (result: seq<FileStatus>)
      requires ListingOf(content, entries)
      ensures result == Listing(content, entries)
    {
      hide Filter, HiddenKrp, EndsWith, Original, KrpStatus, DataStatus, DataStatuses, KrpStatuses, FromKrp, KrpName;
      var dataFiles, krpFiles := [], [];
      FilterNothing(IsData);
      FilterNothing(IsKrp);
      for i := 0 to |entries|
        invariant dataFiles == Filter(IsData, entries[..i])
        invariant krpFiles == Filter(IsKrp, entries[..i])
      {
        var name := entries[i];
        FilterNext(IsData, entries, i);
        FilterNext(IsKrp, entries, i);
        if name != "" && name[0] == '.' && !HiddenKrp(name) {
          continue;
        }
        if EndsWith(name, ".sha256") {
          continue;
        }
        if EndsWith(name, ".krp") {
          krpFiles := krpFiles + [name];
        } else {
          dataFiles := dataFiles + [name];
        }
      }
      assert entries[..|entries|] == entries;
      result := [];
      StatusesNone(content);
      for i := 0 to |dataFiles|
        invariant result == DataStatuses(content, dataFiles[..i])
      {
        DataStatusesNext(content, dataFiles, i);
        var name := dataFiles[i];
        var isValid, reason, checks := true, None, None;
        if KrpName(name) in content {
          isValid, reason, checks := ParseKrp(content[KrpName(name)]);
        }
        DataStatusIs(content, name, isValid, reason, checks);
        result := result + [FileStatus(name, isValid, reason, checks)];
      }
      assert dataFiles[..|dataFiles|] == dataFiles;
      FilterMembers(IsKrp, entries);
      FilterNothing(OrphanOf(dataFiles));
      ghost var orphans := [];
      for i := 0 to |krpFiles|
        invariant orphans == Filter(OrphanOf(dataFiles), krpFiles[..i])
        invariant forall k <- orphans :: IsKrp(k) && k in content
        invariant result == DataStatuses(content, dataFiles) + KrpStatuses(content, orphans)
      {
        FilterNext(OrphanOf(dataFiles), krpFiles, i);
        assert krpFiles[i] in krpFiles;
        if Original(krpFiles[i]) !in dataFiles {
          KrpStatusesNext(content, orphans, krpFiles[i]);
          var isValid, reason, checks := ParseKrp(content[krpFiles[i]]);
          KrpStatusIs(content, krpFiles[i], isValid, reason, checks);
          result := result + [FileStatus(Original(krpFiles[i]), false, if reason.Some? then reason else Some("unknown"), checks)];
          orphans := orphans + [krpFiles[i]];
        }
      }
      assert krpFiles[..|krpFiles|] == krpFiles;
      FilterTwice(OrphanOf(dataFiles), IsKrp, entries);
    }
  }

  lemma StatusesNone(dir: Dir)
    ensures DataStatuses(dir, []) == [] && KrpStatuses(dir, []) == []
  {}

  lemma DataStatusesNext(dir: Dir, names: seq<string>, i: nat)
    requires i < |names|
    ensures DataStatuses(dir, names[..i + 1]) == DataStatuses(dir, names[..i]) + [DataStatus(dir, names[i])]
  {}

  lemma KrpStatusesNext(dir: Dir, krps: seq<string>, k: string)
    requires IsKrp(k) && k in dir && forall k <- krps :: IsKrp(k) && k in dir
    ensures KrpStatuses(dir, krps + [k]) == KrpStatuses(dir, krps) + [KrpStatus(dir, k)]
  {
    hide HiddenKrp, EndsWith, Original, KrpStatus;
  }
}
