/** What the user is told agrees with what the station decided. */
module PipelineLaws {
  import opened Wrappers
  import opened Lists
  import opened FileReport
  import opened Pipeline

  // ---------------------------------------------------------------- verdicts written separately

  /** A valid file is always copied; without cleaning, only a failed Yara scan lets an invalid one through. */
  lemma CopiedAgainstValid(f: FileMetadata, date: string, yaraClean: bool)
    ensures var valid := GenerateReportMetadata(f, date).isValid;
            && (valid ==> Copied(f, yaraClean))
            && (Copied(f, yaraClean) && !valid <==> !yaraClean && !f.yaraPass && GenerateReportMetadata(f.(yaraPass := true), date).isValid)
  {}

  /** The verdict shown as progress by the scanning daemon, which does not look at corruption. */
  predicate Passed(f: FileMetadata) {
    f.isDigestOk && !f.isTooBig && f.isTypeAllowed && f.avPass && f.yaraPass && f.specializedPass && f.vtPass
  }

  lemma PassedAgainstValid(f: FileMetadata, date: string)
    ensures GenerateReportMetadata(f, date).isValid <==> Passed(f) && !f.isCorrupted
  {}

  /** The check a reason of the list stands for has really failed. */
  predicate Fails(f: FileMetadata, reason: string) {
    || (reason == "corrupted" && f.isCorrupted)
    || (reason == "toobig" && f.isTooBig)
    || (reason == "digest" && !f.isDigestOk)
    || (reason == "forbidden" && !f.isTypeAllowed)
    || (reason == "antivirus" && !f.avPass)
    || (reason == "yara" && !f.yaraPass)
    || (reason == "specialized" && !f.specializedPass)
    || (reason == "virustotal" && !f.vtPass)
  }

  /** Scanners report only on files they fail. */
  predicate ReportsMatch(f: FileMetadata) {
    (f.avReport != [] ==> !f.avPass) && (f.yaraReport != "" ==> !f.yaraPass)
  }

  /** Some failed check can be seen in the report: a scanner that failed without a finding cannot. */
  predicate FailureVisible(f: FileMetadata) {
    || f.isCorrupted || f.isTooBig || !f.isDigestOk || !f.isTypeAllowed || f.avReport != [] || f.yaraReport != ""
    || !f.specializedPass || !f.vtPass
  }

  /**
   * The reason shown for a refused file names a check that failed exactly when some failure is
   * visible in the report; when only a scanner failed without a finding it blames the digest.
   */
  lemma ReasonIsTrueExactly(f: FileMetadata, date: string)
    requires ReportsMatch(f) && !GenerateReportMetadata(f, date).isValid
    ensures var reason := Reason(GenerateReportMetadata(f, date));
            && reason.Some?
            && (Fails(f, reason.value) <==> FailureVisible(f))
            && (!FailureVisible(f) ==> reason == Some("digest") && f.isDigestOk)
  {
    ReasonsDiffer();
  }

  /** The map of checks shown with a report has a failed entry exactly when a failure is visible in it; a
      failed reputation lookup without a text is the one visible failure the map leaves out. */
  lemma ChecksShowFailures(f: FileMetadata, date: string)
    ensures var checks := CheckMap(GenerateReportMetadata(f, date));
            (exists k :: k in checks && !checks[k]) <==> FailureVisible(f.(vtPass := f.vtPass || f.vtSummary == ""))
  {
    var m := GenerateReportMetadata(f, date);
    var checks := CheckMap(m);
    assert m.report.vtPass == f.vtPass && m.report.specializedPass == f.specializedPass;
    assert Av in checks && Yara in checks && Type in checks && Size in checks && Hash in checks;
    assert !f.specializedPass ==> Specialized in checks && !checks[Specialized];
    assert f.vtSummary != "" ==> Vt in checks && checks[Vt] == f.vtPass;
  }

  /** The failures a reason can name, in the order in which they are looked for. */
  function Failures(m: MetaData): seq<(string, bool)> {
    var r := m.report;
    [("corrupted", r.corrupted), ("toobig", r.toobig), ("digest", !r.isDigestOk), ("forbidden", !r.typeAllowed),
     ("antivirus", r.av != []), ("yara", r.yara != ""), ("specialized", !r.specializedPass), ("virustotal", !r.vtPass)]
  }

  /** A refused file is given the first failure of its report, and a valid one no reason. */
  lemma ReasonIsFirstFailure(m: MetaData, i: nat)
    requires i < 8
    ensures m.isValid ==> Reason(m) == None
    ensures !m.isValid && Failures(m)[i].1 && (forall j :: 0 <= j < i ==> !Failures(m)[j].1) ==> Reason(m) == Some(Failures(m)[i].0)
    ensures !m.isValid && (forall j :: 0 <= j < 8 ==> !Failures(m)[j].1) ==> Reason(m) == Some("digest")
  {
    var f, r := Failures(m), m.report;
    assert f[0].1 == r.corrupted && f[1].1 == r.toobig && f[2].1 == !r.isDigestOk && f[3].1 == !r.typeAllowed;
    assert f[4].1 == (r.av != []) && f[5].1 == (r.yara != "") && f[6].1 == !r.specializedPass && f[7].1 == !r.vtPass;
    assert f[0].0 == "corrupted" && f[1].0 == "toobig" && f[2].0 == "digest" && f[3].0 == "forbidden";
    assert f[4].0 == "antivirus" && f[5].0 == "yara" && f[6].0 == "specialized" && f[7].0 == "virustotal";
    hide Failures;
  }

  /** The three names of modes count in any case; every other text means reporting always. */
  lemma ModeNames(s: string)
    ensures ModeFromString(s) == Never <==> InAnyCase(s, "never")
    ensures ModeFromString(s) == PassOnly <==> InAnyCase(s, "pass_only")
    ensures ModeFromString(s) == FailOnly <==> InAnyCase(s, "fail_only")
  {
    hide Lowered;
    LoweredExactly(s, "never");
    LoweredExactly(s, "pass_only");
    LoweredExactly(s, "fail_only");
    assert "pass_only"[0] == 'p' && "fail_only"[0] == 'f' && |"never"| == 5;
  }

  predicate InAnyCase(s: string, word: string) {
    |s| == |word| && forall i :: 0 <= i < |s| ==>
      s[i] == word[i] || ('A' <= s[i] <= 'Z' && s[i] as int + 32 == word[i] as int)
  }

  lemma LoweredExactly(s: string, word: string)
    requires forall i :: 0 <= i < |word| ==> !('A' <= word[i] <= 'Z')
    ensures Lowered(s) == word <==> InAnyCase(s, word)
  {
    if InAnyCase(s, word) {
      assert forall i :: 0 <= i < |s| ==> Lowered(s)[i] == word[i];
    }
    if Lowered(s) == word {
      forall i | 0 <= i < |s|
        ensures s[i] == word[i] || ('A' <= s[i] <= 'Z' && s[i] as int + 32 == word[i] as int)
      {
        assert Lowered(s)[i] == word[i];
      }
    }
  }

  lemma ReasonsDiffer()
    ensures "corrupted" != "specialized" && "toobig" != "digest" && "forbidden" != "antivirus" && "virustotal" != "yara"
    ensures "corrupted" != "forbidden" && "corrupted" != "antivirus" && "specialized" != "digest" && "toobig" != "yara"
  {
    assert "corrupted"[0] == 'c' && "specialized"[0] == 's' && "toobig"[0] == 't' && "digest"[0] == 'd' && "forbidden"[0] == 'f'
           && "antivirus"[0] == 'a' && "virustotal"[0] == 'v' && "yara"[0] == 'y';
  }

  // ---------------------------------------------------------------- the directory after a run

  /** What a single file of the directory can be called. */
  predicate FileName(s: string) { s != "" && '/' !in s }

  predicate DistinctRun(files: seq<Received>) {
    && (forall i :: 0 <= i < |files| ==> FileName(files[i].md.filename))
    && (forall i, j :: 0 <= i < j < |files| ==> files[i].md.filename != files[j].md.filename)
  }

  predicate IsValid(f: Received) { MetaOf(f).isValid }

  predicate Copies(f: Received, yaraClean: bool) { Copied(Rechecked(f), yaraClean) }

  predicate Reports(f: Received, mode: KrpMode) { ShouldWrite(mode, IsValid(f)) }

  /** A later file is copied to the place of the report of file `i`. */
  predicate Overwritten(files: seq<Received>, i: int, yaraClean: bool)
    requires 0 <= i < |files|
  {
    exists j :: i < j < |files| && Copies(files[j], yaraClean) && files[j].md.filename == KrpName(files[i].md.filename)
  }

  /** The entry is the copy of the file, or its report. */
  predicate Leaves(f: Received, k: string, mode: KrpMode, yaraClean: bool) {
    (Copies(f, yaraClean) && k == f.md.filename) || (Reports(f, mode) && k == KrpName(f.md.filename))
  }

  /** The entry holds the report of the file. */
  predicate HoldsReport(dir: Dir, f: Received, k: string, mode: KrpMode) {
    Reports(f, mode) && k == KrpName(f.md.filename) && k in dir && dir[k] == Krp(Some(MetaOf(f)))
  }

  /** What the directory holds about a run, names clashing or not. */
  ghost predicate HoldsRun(dir: Dir, files: seq<Received>, mode: KrpMode, yaraClean: bool) {
    && (forall k <- dir :: exists i :: 0 <= i < |files| && Leaves(files[i], k, mode, yaraClean))
    && (forall i, k :: 0 <= i < |files| && Leaves(files[i], k, mode, yaraClean) ==> k in dir)
    && (forall k <- dir :: dir[k] == Data || exists i :: 0 <= i < |files| && HoldsReport(dir, files[i], k, mode))
    && (forall i :: 0 <= i < |files| && Reports(files[i], mode) ==>
          if Overwritten(files, i, yaraClean) then dir[KrpName(files[i].md.filename)] == Data
          else HoldsReport(dir, files[i], KrpName(files[i].md.filename), mode))
  }

  lemma KrpNameIsInjective(a: string, b: string)
    ensures KrpName(a) == KrpName(b) ==> a == b
    ensures KrpName(a) != a
  {
    assert KrpName(a)[1..|a| + 1] == a && KrpName(b)[1..|b| + 1] == b;
    assert |KrpName(a)| == |a| + 5 && |KrpName(b)| == |b| + 5;
  }

  lemma {:induction false} OutputHoldsRun(files: seq<Received>, mode: KrpMode, yaraClean: bool)
    requires DistinctRun(files)
    ensures HoldsRun(Output(files, mode, yaraClean), files, mode, yaraClean)
    decreases |files|
  {
    hide HoldsRun, Stored, FileName;
    if files == [] {
      NothingHeld(mode, yaraClean);
    } else {
      var n := |files| - 1;
      OutputHoldsRun(files[..n], mode, yaraClean);
      StoredHoldsRun(Output(files[..n], mode, yaraClean), files, mode, yaraClean);
    }
  }

  lemma NothingHeld(mode: KrpMode, yaraClean: bool)
    ensures HoldsRun(map[], [], mode, yaraClean)
  {}

  /** What storing one file does to one entry. */
  lemma StoredEntry(dir: Dir, f: Received, mode: KrpMode, yaraClean: bool, k: string)
    ensures var dir' := Stored(dir, f, mode, yaraClean);
            && (k in dir' <==> k in dir || Leaves(f, k, mode, yaraClean))
            && (k in dir' ==>
                  dir'[k] == if Copies(f, yaraClean) && k == f.md.filename then Data
                             else if Reports(f, mode) && k == KrpName(f.md.filename) then Krp(Some(MetaOf(f)))
                             else dir[k])
  {
    hide MetaOf, Copied, ShouldWrite;
  }

  lemma OverwrittenLater(files: seq<Received>, i: int, yaraClean: bool)
    requires 0 <= i < |files| - 1
    ensures var n := |files| - 1;
            Overwritten(files, i, yaraClean) <==>
            Overwritten(files[..n], i, yaraClean) || (Copies(files[n], yaraClean) && files[n].md.filename == KrpName(files[i].md.filename))
  {
    hide Copies;
    var n := |files| - 1;
    if j :| i < j < |files| && Copies(files[j], yaraClean) && files[j].md.filename == KrpName(files[i].md.filename) {
      if j < n {
        assert files[..n][j] == files[j];
      }
    }
    if j :| i < j < n && Copies(files[..n][j], yaraClean) && files[..n][j].md.filename == KrpName(files[i].md.filename) {
      assert files[j] == files[..n][j];
    }
  }

  lemma StoredHoldsRun(before: Dir, files: seq<Received>, mode: KrpMode, yaraClean: bool)
    requires DistinctRun(files) && files != [] && HoldsRun(before, files[..|files| - 1], mode, yaraClean)
    ensures HoldsRun(Stored(before, files[|files| - 1], mode, yaraClean), files, mode, yaraClean)
  {
    hide Stored, Copies, Reports, MetaOf, Leaves, HoldsReport, KrpName, Overwritten, FileName;
    var n := |files| - 1;
    var front, last := files[..n], files[n];
    var dir := Stored(before, last, mode, yaraClean);
    forall k <- dir
      ensures exists i :: 0 <= i < |files| && Leaves(files[i], k, mode, yaraClean)
      ensures dir[k] == Data || exists i :: 0 <= i < |files| && HoldsReport(dir, files[i], k, mode)
    {
      EntryKept(before, files, mode, yaraClean, k);
    }
    forall i, k | 0 <= i < |files| && Leaves(files[i], k, mode, yaraClean)
      ensures k in dir
    {
      StoredEntry(before, last, mode, yaraClean, k);
      if i < n {
        assert front[i] == files[i];
      }
    }
    forall i | 0 <= i < |files| && Reports(files[i], mode)
      ensures if Overwritten(files, i, yaraClean) then KrpName(files[i].md.filename) in dir && dir[KrpName(files[i].md.filename)] == Data
              else HoldsReport(dir, files[i], KrpName(files[i].md.filename), mode)
    {
      ReportKept(before, files, mode, yaraClean, i);
    }
  }

  lemma EntryKept(before: Dir, files: seq<Received>, mode: KrpMode, yaraClean: bool, k: string)
    requires DistinctRun(files) && files != [] && HoldsRun(before, files[..|files| - 1], mode, yaraClean)
    requires k in Stored(before, files[|files| - 1], mode, yaraClean)
    ensures var dir := Stored(before, files[|files| - 1], mode, yaraClean);
            && (exists i :: 0 <= i < |files| && Leaves(files[i], k, mode, yaraClean))
            && (dir[k] == Data || exists i :: 0 <= i < |files| && HoldsReport(dir, files[i], k, mode))
  {
    hide Stored, Copies, Reports, MetaOf, KrpName, Overwritten, FileName;
    var n := |files| - 1;
    var front, dir := files[..n], Stored(before, files[n], mode, yaraClean);
    StoredEntry(before, files[n], mode, yaraClean, k);
    if Leaves(files[n], k, mode, yaraClean) {
      assert dir[k] != Data ==> HoldsReport(dir, files[n], k, mode);
    } else {
      var i :| 0 <= i < n && Leaves(front[i], k, mode, yaraClean);
      assert files[i] == front[i] && dir[k] == before[k];
      if dir[k] != Data {
        var l :| 0 <= l < n && HoldsReport(before, front[l], k, mode);
        assert files[l] == front[l] && HoldsReport(dir, files[l], k, mode);
      }
    }
  }

  lemma ReportKept(before: Dir, files: seq<Received>, mode: KrpMode, yaraClean: bool, i: nat)
    requires DistinctRun(files) && files != [] && HoldsRun(before, files[..|files| - 1], mode, yaraClean)
    requires i < |files| && Reports(files[i], mode)
    ensures var dir := Stored(before, files[|files| - 1], mode, yaraClean);
            var k := KrpName(files[i].md.filename);
            if Overwritten(files, i, yaraClean) then k in dir && dir[k] == Data else HoldsReport(dir, files[i], k, mode)
  {
    hide Stored, Copies, Reports, MetaOf, KrpName, FileName;
    var n := |files| - 1;
    var front, last, k := files[..n], files[n], KrpName(files[i].md.filename);
    StoredEntry(before, last, mode, yaraClean, k);
    KrpNameIsInjective(last.md.filename, files[i].md.filename);
    if i < n {
      assert front[i] == files[i];
      OverwrittenLater(files, i, yaraClean);
      hide Overwritten;
      assert Leaves(front[i], k, mode, yaraClean);
      assert files[i].md.filename != files[n].md.filename;
    } else {
      assert !Overwritten(files, n, yaraClean);
    }
  }

  // ---------------------------------------------------------------- how names are read back

  /** A name is read as a report of exactly one form; its own report is read back unless it holds a line break. */
  lemma KrpNameReadsBack(s: string)
    requires FileName(s)
    ensures IsKrp(KrpName(s)) <==> '\n' !in s
    ensures IsKrp(KrpName(s)) ==> Original(KrpName(s)) == s
    ensures !IsData(KrpName(s)) && KrpName(s)[0] == '.'
  {
    var k := KrpName(s);
    assert |k| == |s| + 5 && k[0] == '.' && k[|k| - 4..] == ".krp" && k[1..|k| - 4] == s;
    KrpIsNotSha(k);
  }

  lemma KrpIsNotSha(k: string)
    requires EndsWith(k, ".krp")
    ensures !EndsWith(k, ".sha256")
  {
    assert k[|k| - 4..][3] == 'p';
    if |k| >= 7 {
      assert k[|k| - 7..][6] == k[|k| - 1] && ".sha256"[6] == '6';
    }
  }

  lemma OriginalForms(k: string)
    requires IsKrp(k)
    ensures k == if k[0] == '.' then KrpName(Original(k)) else Original(k) + ".krp"
    ensures !IsData(k)
  {
    assert k[|k| - 4..] == ".krp";
    if k[0] == '.' {
      assert k == ['.'] + k[1..|k| - 4] + k[|k| - 4..];
    } else {
      assert k == k[..|k| - 4] + k[|k| - 4..];
    }
  }

  /** A report is listed for itself when its file is not in the directory as data. */
  predicate OrphanIn(dir: Dir, k: string) {
    k in dir && IsKrp(k) && !(Original(k) in dir && IsData(Original(k)))
  }

  lemma EntryKinds(dir: Dir, entries: seq<string>)
    requires ListingOf(dir, entries)
    ensures forall d :: d in Filter(IsData, entries) <==> d in dir && IsData(d)
    ensures forall k :: k in Filter(OrphanOf(Filter(IsData, entries)), entries) <==> OrphanIn(dir, k)
  {
    hide IsData, IsKrp, Original;
    FilterMembers(IsData, entries);
    FilterMembers(OrphanOf(Filter(IsData, entries)), entries);
  }

  ghost predicate Names(list: seq<FileStatus>, name: string, isValid: bool) {
    exists j :: 0 <= j < |list| && list[j].filename == name && list[j].isValid == isValid
  }

  /** The list says so, in terms of the directory. */
  ghost predicate Shown(dir: Dir, name: string, isValid: bool) {
    || (name in dir && IsData(name) && isValid == DataStatus(dir, name).isValid)
    || (!isValid && exists k :: OrphanIn(dir, k) && Original(k) == name)
  }

  lemma ListingEntry(dir: Dir, entries: seq<string>, j: nat)
    requires ListingOf(dir, entries)
    ensures var data := Filter(IsData, entries);
            var orphans := Filter(OrphanOf(data), entries);
            && |Listing(dir, entries)| == |data| + |orphans|
            && (j < |data| ==> Listing(dir, entries)[j] == DataStatus(dir, data[j]))
            && (|data| <= j < |data| + |orphans| ==>
                  var k := orphans[j - |data|]; IsKrp(k) && k in dir && Listing(dir, entries)[j] == KrpStatus(dir, k))
  {
    hide IsData, IsKrp, DataStatus, KrpStatus, Filter;
    var data := Filter(IsData, entries);
    var orphans := Filter(OrphanOf(data), entries);
    FilterMembers(OrphanOf(data), entries);
    if |data| <= j < |data| + |orphans| {
      assert orphans[j - |data|] in orphans;
    }
  }

  lemma StatusNames(dir: Dir, d: string, k: string)
    ensures DataStatus(dir, d).filename == d
    ensures IsKrp(k) && k in dir ==> KrpStatus(dir, k).filename == Original(k) && !KrpStatus(dir, k).isValid
  {
    hide IsKrp, Original;
  }

  lemma NamesExactly(dir: Dir, entries: seq<string>, name: string, isValid: bool)
    requires ListingOf(dir, entries)
    ensures Names(Listing(dir, entries), name, isValid) <==> Shown(dir, name, isValid)
  {
    hide IsData, IsKrp, DataStatus, KrpStatus, Filter, Listing, Original, ListingOf;
    var list, data := Listing(dir, entries), Filter(IsData, entries);
    var orphans := Filter(OrphanOf(data), entries);
    EntryKinds(dir, entries);
    ListingEntry(dir, entries, 0);
    if j :| 0 <= j < |list| && list[j].filename == name && list[j].isValid == isValid {
      ListingEntry(dir, entries, j);
      if j < |data| {
        assert data[j] in data;
        StatusNames(dir, data[j], "");
      } else {
        var k := orphans[j - |data|];
        assert k in orphans;
        StatusNames(dir, "", k);
      }
    }
    if name in dir && IsData(name) && isValid == DataStatus(dir, name).isValid {
      var j :| 0 <= j < |data| && data[j] == name;
      ListingEntry(dir, entries, j);
      StatusNames(dir, name, "");
      assert list[j].filename == name;
    }
    if k :| OrphanIn(dir, k) && Original(k) == name && !isValid {
      var l :| 0 <= l < |orphans| && orphans[l] == k;
      ListingEntry(dir, entries, |data| + l);
      StatusNames(dir, "", k);
      assert list[|data| + l].filename == name;
    }
  }

  ghost predicate NoTwins(dir: Dir) {
    forall k, k' :: OrphanIn(dir, k) && OrphanIn(dir, k') && Original(k) == Original(k') ==> k == k'
  }

  ghost predicate DistinctNames(list: seq<FileStatus>) {
    forall j, k :: 0 <= j < k < |list| ==> list[j].filename != list[k].filename
  }

  lemma DistinctExactly(dir: Dir, entries: seq<string>)
    requires ListingOf(dir, entries)
    ensures DistinctNames(Listing(dir, entries)) <==> NoTwins(dir)
  {
    hide IsData, IsKrp, DataStatus, KrpStatus, Filter, Listing, Original;
    var list, data := Listing(dir, entries), Filter(IsData, entries);
    var orphans := Filter(OrphanOf(data), entries);
    EntryKinds(dir, entries);
    FilterDistinct(IsData, entries);
    FilterDistinct(OrphanOf(data), entries);
    ListingEntry(dir, entries, 0);
    if NoTwins(dir) {
      forall j, k | 0 <= j < k < |list|
        ensures list[j].filename != list[k].filename
      {
        EntriesDiffer(dir, entries, j, k);
      }
    }
    if DistinctNames(list) {
      forall k, k' | OrphanIn(dir, k) && OrphanIn(dir, k') && Original(k) == Original(k')
        ensures k == k'
      {
        var l :| 0 <= l < |orphans| && orphans[l] == k;
        var l' :| 0 <= l' < |orphans| && orphans[l'] == k';
        ListingEntry(dir, entries, |data| + l);
        ListingEntry(dir, entries, |data| + l');
        StatusNames(dir, "", k);
        StatusNames(dir, "", k');
        assert list[|data| + l].filename == list[|data| + l'].filename;
      }
    }
  }

  lemma EntriesDiffer(dir: Dir, entries: seq<string>, j: nat, k: nat)
    requires ListingOf(dir, entries) && NoTwins(dir) && j < k < |Listing(dir, entries)|
    ensures Listing(dir, entries)[j].filename != Listing(dir, entries)[k].filename
  {
    hide IsData, IsKrp, DataStatus, KrpStatus, Filter, Listing, Original;
    var data := Filter(IsData, entries);
    var orphans := Filter(OrphanOf(data), entries);
    EntryKinds(dir, entries);
    FilterDistinct(IsData, entries);
    FilterDistinct(OrphanOf(data), entries);
    ListingEntry(dir, entries, j);
    ListingEntry(dir, entries, k);
    if k < |data| {
      StatusNames(dir, data[j], "");
      StatusNames(dir, data[k], "");
    } else if j < |data| {
      assert data[j] in data && orphans[k - |data|] in orphans;
      StatusNames(dir, data[j], orphans[k - |data|]);
    } else {
      var a, b := orphans[j - |data|], orphans[k - |data|];
      assert a in orphans && b in orphans && a != b;
      StatusNames(dir, "", a);
      StatusNames(dir, "", b);
    }
  }

  // ---------------------------------------------------------------- the list after a run

  predicate Processed(files: seq<Received>, name: string) {
    exists i :: 0 <= i < |files| && files[i].md.filename == name
  }

  /** Every processed file is in the list with its verdict, no name is there twice, and no other name. */
  ghost predicate Faithful(list: seq<FileStatus>, files: seq<Received>) {
    && (forall i :: 0 <= i < |files| ==> Names(list, files[i].md.filename, IsValid(files[i])))
    && DistinctNames(list)
    && (forall j :: 0 <= j < |list| ==> Processed(files, list[j].filename))
  }

  /** The same in terms of the directory. */
  ghost predicate FaithfulDir(dir: Dir, files: seq<Received>) {
    && (forall i :: 0 <= i < |files| ==> Shown(dir, files[i].md.filename, IsValid(files[i])))
    && NoTwins(dir)
    && (forall name, v :: Shown(dir, name, v) ==> Processed(files, name))
  }

  lemma FaithfulExactly(dir: Dir, entries: seq<string>, files: seq<Received>)
    requires ListingOf(dir, entries)
    ensures Faithful(Listing(dir, entries), files) <==> FaithfulDir(dir, files)
  {
    hide Listing, Shown, IsValid, Processed, ListingOf, NoTwins, DistinctNames;
    var list := Listing(dir, entries);
    DistinctExactly(dir, entries);
    forall name, v
      ensures Names(list, name, v) <==> Shown(dir, name, v)
    {
      NamesExactly(dir, entries, name, v);
    }
    if FaithfulDir(dir, files) {
      forall j | 0 <= j < |list|
        ensures Processed(files, list[j].filename)
      {
        assert Names(list, list[j].filename, list[j].isValid);
      }
      forall i | 0 <= i < |files|
        ensures Names(list, files[i].md.filename, IsValid(files[i]))
      {
        assert Shown(dir, files[i].md.filename, IsValid(files[i]));
      }
    }
    if Faithful(list, files) {
      forall name, v | Shown(dir, name, v)
        ensures Processed(files, name)
      {
        assert Names(list, name, v);
      }
      forall i | 0 <= i < |files|
        ensures Shown(dir, files[i].md.filename, IsValid(files[i]))
      {
        assert Names(list, files[i].md.filename, IsValid(files[i]));
      }
    }
  }

  /** A file of the run is in the directory as data, and read back as such. */
  predicate Listed(f: Received, yaraClean: bool) {
    Copies(f, yaraClean) && IsData(f.md.filename)
  }

  /** The name of file `i` is taken for the report of a file that is listed anyway. */
  predicate Absorbed(files: seq<Received>, i: int, yaraClean: bool)
    requires 0 <= i < |files| && IsKrp(files[i].md.filename)
  {
    exists l :: 0 <= l < |files| && files[l].md.filename == Original(files[i].md.filename)
                && (Listed(files[l], yaraClean) || files[i].md.filename == KrpName(files[l].md.filename))
  }

  /**
   * What the name of file `i` must satisfy. A valid file must not look hidden, like a checksum or
   * like a report. An invalid one must be reported, and the report must be found: next to the
   * copy, where no later copy may have replaced it, or alone, where the name may hold no line
   * break. An invalid copy that itself looks like a report must be one of a listed file.
   */
  predicate NameWorks(files: seq<Received>, i: int, mode: KrpMode, yaraClean: bool)
    requires 0 <= i < |files|
  {
    var f := files[i];
    if IsValid(f) then IsData(f.md.filename)
    else
      && Reports(f, mode)
      && (if Listed(f, yaraClean) then !Overwritten(files, i, yaraClean) else '\n' !in f.md.filename)
      && (Copies(f, yaraClean) && IsKrp(f.md.filename) ==> Absorbed(files, i, yaraClean))
  }

  lemma DataInDir(dir: Dir, files: seq<Received>, mode: KrpMode, yaraClean: bool, name: string) returns (i: int)
    requires DistinctRun(files) && HoldsRun(dir, files, mode, yaraClean) && name in dir && IsData(name)
    ensures 0 <= i < |files| && files[i].md.filename == name && Listed(files[i], yaraClean)
  {
    hide IsData, Copies, Reports, FileName, Overwritten, HoldsReport;
    i :| 0 <= i < |files| && Leaves(files[i], name, mode, yaraClean);
    if name == KrpName(files[i].md.filename) {
      KrpNameReadsBack(files[i].md.filename);
    }
  }

  lemma ListedInDir(dir: Dir, files: seq<Received>, mode: KrpMode, yaraClean: bool, i: int)
    requires HoldsRun(dir, files, mode, yaraClean) && 0 <= i < |files|
    ensures Copies(files[i], yaraClean) ==> files[i].md.filename in dir
    ensures Reports(files[i], mode) ==> KrpName(files[i].md.filename) in dir
  {
    hide Copies, Reports, KrpName;
    if Copies(files[i], yaraClean) {
      assert Leaves(files[i], files[i].md.filename, mode, yaraClean);
    }
    if Reports(files[i], mode) {
      assert Leaves(files[i], KrpName(files[i].md.filename), mode, yaraClean);
    }
  }

  /** The name of a file of the run is in the directory as data exactly when that file is listed. */
  lemma DataExactly(dir: Dir, files: seq<Received>, mode: KrpMode, yaraClean: bool, i: int)
    requires DistinctRun(files) && HoldsRun(dir, files, mode, yaraClean) && 0 <= i < |files|
    ensures files[i].md.filename in dir && IsData(files[i].md.filename) <==> Listed(files[i], yaraClean)
  {
    hide HoldsRun, IsData, Copies, FileName;
    if files[i].md.filename in dir && IsData(files[i].md.filename) {
      var l := DataInDir(dir, files, mode, yaraClean, files[i].md.filename);
    }
    if Listed(files[i], yaraClean) {
      ListedInDir(dir, files, mode, yaraClean, i);
    }
  }

  /** The verdict shown for a listed file: a pass, unless its own failed report is still in place. */
  lemma ListedVerdict(dir: Dir, files: seq<Received>, mode: KrpMode, yaraClean: bool, i: int)
    requires DistinctRun(files) && HoldsRun(dir, files, mode, yaraClean) && 0 <= i < |files|
    ensures DataStatus(dir, files[i].md.filename).isValid <==>
            IsValid(files[i]) || !Reports(files[i], mode) || Overwritten(files, i, yaraClean)
  {
    hide Copies, Reports, Overwritten, Leaves, KrpName, MetaOf, FileName;
    var k := KrpName(files[i].md.filename);
    ListedInDir(dir, files, mode, yaraClean, i);
    if k in dir && dir[k] != Data {
      var l :| 0 <= l < |files| && HoldsReport(dir, files[l], k, mode);
      KrpNameIsInjective(files[l].md.filename, files[i].md.filename);
      assert l == i;
    }
  }

  // ---------------------------------------------------------------- the condition suffices

  lemma WorkingFileIsShown(dir: Dir, files: seq<Received>, mode: KrpMode, yaraClean: bool, i: int)
    requires DistinctRun(files) && HoldsRun(dir, files, mode, yaraClean) && 0 <= i < |files|
    requires NameWorks(files, i, mode, yaraClean)
    ensures Shown(dir, files[i].md.filename, IsValid(files[i]))
  {
    hide HoldsRun, DataStatus, Copied, IsData, IsKrp, Reports, Overwritten, MetaOf, Original, KrpName;
    var f := files[i];
    ValidIsCopied(f, yaraClean);
    DataExactly(dir, files, mode, yaraClean, i);
    ListedVerdict(dir, files, mode, yaraClean, i);
    if !Listed(f, yaraClean) {
      ListedInDir(dir, files, mode, yaraClean, i);
      KrpNameReadsBack(f.md.filename);
      assert OrphanIn(dir, KrpName(f.md.filename));
    }
  }

  lemma ValidIsCopied(f: Received, yaraClean: bool)
    ensures IsValid(f) ==> Copies(f, yaraClean)
  {
    CopiedAgainstValid(Rechecked(f), f.date, yaraClean);
  }

  /** An orphan is a report of a file of the run, or a copy that looks like one. */
  lemma OrphanOrigin(dir: Dir, files: seq<Received>, mode: KrpMode, yaraClean: bool, k: string) returns (i: int)
    requires DistinctRun(files) && HoldsRun(dir, files, mode, yaraClean) && OrphanIn(dir, k)
    ensures 0 <= i < |files| && Leaves(files[i], k, mode, yaraClean)
    ensures k == KrpName(files[i].md.filename) ==> Original(k) == files[i].md.filename
  {
    hide IsData, Copies, Reports, FileName, Overwritten, HoldsReport, IsKrp, Original, KrpName;
    i :| 0 <= i < |files| && Leaves(files[i], k, mode, yaraClean);
    KrpNameReadsBack(files[i].md.filename);
  }

  lemma OrphanIsProcessed(dir: Dir, files: seq<Received>, mode: KrpMode, yaraClean: bool, k: string)
    requires DistinctRun(files) && HoldsRun(dir, files, mode, yaraClean) && OrphanIn(dir, k)
    requires forall i :: 0 <= i < |files| ==> NameWorks(files, i, mode, yaraClean)
    ensures Processed(files, Original(k))
    ensures k[0] == '.'
  {
    hide HoldsRun, Copies, IsData, Overwritten, Reports, Original, IsKrp, KrpName, IsValid, FileName;
    var i := OrphanOrigin(dir, files, mode, yaraClean, k);
    KrpNameReadsBack(files[i].md.filename);
    if k != KrpName(files[i].md.filename) {
      OriginalForms(k);
      assert NameWorks(files, i, mode, yaraClean);
      var l :| 0 <= l < |files| && files[l].md.filename == Original(k) && (Listed(files[l], yaraClean) || k == KrpName(files[l].md.filename));
      DataExactly(dir, files, mode, yaraClean, l);
      KrpNameReadsBack(files[l].md.filename);
    }
  }

  lemma WorkingNamesSuffice(dir: Dir, files: seq<Received>, mode: KrpMode, yaraClean: bool)
    requires DistinctRun(files) && HoldsRun(dir, files, mode, yaraClean)
    requires forall i :: 0 <= i < |files| ==> NameWorks(files, i, mode, yaraClean)
    ensures FaithfulDir(dir, files)
  {
    hide HoldsRun, NameWorks, DistinctRun, IsValid, IsData, IsKrp, Original, DataStatus, KrpName;
    forall i | 0 <= i < |files|
      ensures Shown(dir, files[i].md.filename, IsValid(files[i]))
    {
      WorkingFileIsShown(dir, files, mode, yaraClean, i);
    }
    forall k, k' | OrphanIn(dir, k) && OrphanIn(dir, k') && Original(k) == Original(k')
      ensures k == k'
    {
      OrphanIsProcessed(dir, files, mode, yaraClean, k);
      OrphanIsProcessed(dir, files, mode, yaraClean, k');
      OriginalForms(k);
      OriginalForms(k');
    }
    forall name, v | Shown(dir, name, v)
      ensures Processed(files, name)
    {
      if name in dir && IsData(name) {
        var i := DataInDir(dir, files, mode, yaraClean, name);
      } else {
        var k :| OrphanIn(dir, k) && Original(k) == name;
        OrphanIsProcessed(dir, files, mode, yaraClean, k);
      }
    }
  }

  // ---------------------------------------------------------------- the condition is necessary

  lemma FaithfulValidIsData(dir: Dir, files: seq<Received>, i: int)
    requires FaithfulDir(dir, files) && 0 <= i < |files| && IsValid(files[i])
    ensures IsData(files[i].md.filename)
  {
    hide IsData, OrphanIn, DataStatus, IsValid, NoTwins;
  }

  /** An invalid file that the directory cannot show by itself: not listed, and without a report that is read back. */
  predicate Unseen(f: Received, mode: KrpMode, yaraClean: bool) {
    !IsValid(f) && !Listed(f, yaraClean) && (!Reports(f, mode) || '\n' in f.md.filename)
  }

  /** If the list is faithful all the same, another such file with a longer name stands in for it. */
  lemma UnseenNeedsLonger(dir: Dir, files: seq<Received>, mode: KrpMode, yaraClean: bool, i: int) returns (j: int)
    requires DistinctRun(files) && HoldsRun(dir, files, mode, yaraClean) && FaithfulDir(dir, files)
    requires 0 <= i < |files| && Unseen(files[i], mode, yaraClean)
    ensures 0 <= j < |files| && Unseen(files[j], mode, yaraClean) && |files[j].md.filename| > |files[i].md.filename|
  {
    hide HoldsRun, Copies, IsData, IsKrp, Original, IsValid, DataStatus, NoTwins, FileName, KrpName;
    var name := files[i].md.filename;
    DataExactly(dir, files, mode, yaraClean, i);
    assert Shown(dir, name, IsValid(files[i]));
    var k :| OrphanIn(dir, k) && Original(k) == name;
    OriginalForms(k);
    j := OrphanOrigin(dir, files, mode, yaraClean, k);
    if k == KrpName(files[j].md.filename) {
      assert i == j;
      KrpNameReadsBack(name);
      OnlyReported(files, mode, yaraClean, i, k);
      assert false;
    } else {
      if IsValid(files[j]) {
        FaithfulValidIsData(dir, files, j);
      }
      KrpNameHolds(name);
      assert k == if k[0] == '.' then KrpName(name) else name + ".krp";
    }
  }

  lemma OnlyReported(files: seq<Received>, mode: KrpMode, yaraClean: bool, i: int, k: string)
    requires 0 <= i < |files| && Leaves(files[i], k, mode, yaraClean) && k == KrpName(files[i].md.filename)
    ensures Reports(files[i], mode)
  {
    KrpNameIsInjective(files[i].md.filename, files[i].md.filename);
  }

  lemma KrpNameHolds(s: string)
    ensures |KrpName(s)| > |s| && ('\n' in s ==> '\n' in KrpName(s))
  {}

  function Longest(files: seq<Received>): (n: nat)
    ensures forall i :: 0 <= i < |files| ==> |files[i].md.filename| <= n
    decreases |files|
  {
    if files == [] then 0
    else
      var n := Longest(files[1..]);
      assert forall i :: 1 <= i < |files| ==> files[i] == files[1..][i - 1];
      if |files[0].md.filename| > n then |files[0].md.filename| else n
  }

  /** So none is faithful with such a file: names of a run cannot grow forever. */
  lemma {:induction false} FaithfulHasNoUnseen(dir: Dir, files: seq<Received>, mode: KrpMode, yaraClean: bool, i: int)
    requires DistinctRun(files) && HoldsRun(dir, files, mode, yaraClean) && FaithfulDir(dir, files) && 0 <= i < |files|
    ensures !Unseen(files[i], mode, yaraClean)
    decreases Longest(files) - |files[i].md.filename|
  {
    hide DistinctRun, HoldsRun, FaithfulDir, Unseen;
    if Unseen(files[i], mode, yaraClean) {
      var j := UnseenNeedsLonger(dir, files, mode, yaraClean, i);
      FaithfulHasNoUnseen(dir, files, mode, yaraClean, j);
    }
  }

  lemma FaithfulIsReported(dir: Dir, files: seq<Received>, mode: KrpMode, yaraClean: bool, i: int)
    requires DistinctRun(files) && HoldsRun(dir, files, mode, yaraClean) && FaithfulDir(dir, files)
    requires 0 <= i < |files| && !IsValid(files[i])
    ensures Reports(files[i], mode)
    ensures if Listed(files[i], yaraClean) then !Overwritten(files, i, yaraClean) else '\n' !in files[i].md.filename
  {
    hide HoldsRun, DistinctRun, Copies, IsData, Reports, Overwritten, DataStatus, IsValid, NoTwins, IsKrp, Original;
    FaithfulHasNoUnseen(dir, files, mode, yaraClean, i);
    DataExactly(dir, files, mode, yaraClean, i);
    ListedVerdict(dir, files, mode, yaraClean, i);
    assert Shown(dir, files[i].md.filename, IsValid(files[i]));
  }

  lemma FaithfulIsAbsorbed(dir: Dir, files: seq<Received>, mode: KrpMode, yaraClean: bool, i: int)
    requires DistinctRun(files) && HoldsRun(dir, files, mode, yaraClean) && FaithfulDir(dir, files)
    requires 0 <= i < |files| && Copies(files[i], yaraClean) && IsKrp(files[i].md.filename)
    ensures Absorbed(files, i, yaraClean)
  {
    hide HoldsRun, Copies, IsData, Reports, Overwritten, DataStatus, IsValid, IsKrp, Original, KrpName, FileName;
    var k := files[i].md.filename;
    var x := Original(k);
    ListedInDir(dir, files, mode, yaraClean, i);
    OriginalForms(k);
    if x in dir && IsData(x) {
      var l := DataInDir(dir, files, mode, yaraClean, x);
      assert files[l].md.filename == x && Listed(files[l], yaraClean);
    } else {
      assert OrphanIn(dir, k) && Shown(dir, x, false);
      var l :| 0 <= l < |files| && files[l].md.filename == x;
      DataExactly(dir, files, mode, yaraClean, l);
      ValidIsCopied(files[l], yaraClean);
      if IsValid(files[l]) {
        FaithfulValidIsData(dir, files, l);
      }
      FaithfulIsReported(dir, files, mode, yaraClean, l);
      ListedInDir(dir, files, mode, yaraClean, l);
      KrpNameReadsBack(x);
      assert OrphanIn(dir, KrpName(x));
      assert k == KrpName(x);
    }
  }

  /**
   * After any run over files with distinct names, in any mode and for both Yara settings, the
   * list read from the directory in any order is faithful exactly when every name works.
   */
  lemma ListIsFaithfulExactly(files: seq<Received>, mode: KrpMode, yaraClean: bool, entries: seq<string>)
    requires DistinctRun(files) && ListingOf(Output(files, mode, yaraClean), entries)
    ensures Faithful(Listing(Output(files, mode, yaraClean), entries), files) <==>
            forall i :: 0 <= i < |files| ==> NameWorks(files, i, mode, yaraClean)
  {
    hide Listing, Output, HoldsRun, ListingOf, Faithful, FaithfulDir, DistinctRun;
    var dir := Output(files, mode, yaraClean);
    OutputHoldsRun(files, mode, yaraClean);
    FaithfulExactly(dir, entries, files);
    if FaithfulDir(dir, files) {
      forall i | 0 <= i < |files|
        ensures NameWorks(files, i, mode, yaraClean)
      {
        FaithfulNameWorks(dir, files, mode, yaraClean, i);
      }
    }
    hide NameWorks;
    if forall i :: 0 <= i < |files| ==> NameWorks(files, i, mode, yaraClean) {
      WorkingNamesSuffice(dir, files, mode, yaraClean);
    }
  }

  lemma FaithfulNameWorks(dir: Dir, files: seq<Received>, mode: KrpMode, yaraClean: bool, i: int)
    requires DistinctRun(files) && HoldsRun(dir, files, mode, yaraClean) && FaithfulDir(dir, files) && 0 <= i < |files|
    ensures NameWorks(files, i, mode, yaraClean)
  {
    hide HoldsRun, DistinctRun, FaithfulDir, IsValid, Reports, Copies, IsData, IsKrp, Overwritten, Absorbed;
    if IsValid(files[i]) {
      FaithfulValidIsData(dir, files, i);
    } else {
      FaithfulIsReported(dir, files, mode, yaraClean, i);
      if Copies(files[i], yaraClean) && IsKrp(files[i].md.filename) {
        FaithfulIsAbsorbed(dir, files, mode, yaraClean, i);
      }
    }
  }

  // ---------------------------------------------------------------- runs of one file, and runs of plain names

  /** For a single file the condition is on its name and verdict alone. */
  lemma OneFileIsFaithfulExactly(f: Received, mode: KrpMode, yaraClean: bool, entries: seq<string>)
    requires FileName(f.md.filename) && ListingOf(Output([f], mode, yaraClean), entries)
    ensures Faithful(Listing(Output([f], mode, yaraClean), entries), [f]) <==>
            if IsValid(f) then IsData(f.md.filename)
            else
              && Reports(f, mode)
              && (Copies(f, yaraClean) ==> !IsKrp(f.md.filename))
              && (!Listed(f, yaraClean) ==> '\n' !in f.md.filename)
  {
    hide Listing, Output, ListingOf, Faithful, IsData, IsKrp, Copies, Reports, IsValid, Original, KrpName;
    ListIsFaithfulExactly([f], mode, yaraClean, entries);
    if IsKrp(f.md.filename) {
      OriginalForms(f.md.filename);
      KrpNameHolds(Original(f.md.filename));
      KrpNameIsInjective(f.md.filename, f.md.filename);
      assert !Absorbed([f], 0, yaraClean);
    }
    assert [f][0] == f;
    assert NameWorks([f], 0, mode, yaraClean) <==> forall i :: 0 <= i < |[f]| ==> NameWorks([f], i, mode, yaraClean);
  }

  /** A name that clashes with none of the directory's conventions. */
  predicate Plain(s: string) {
    FileName(s) && s[0] != '.' && '\n' !in s && !EndsWith(s, ".krp") && !EndsWith(s, ".sha256")
  }

  predicate PlainRun(files: seq<Received>) {
    DistinctRun(files) && forall i :: 0 <= i < |files| ==> Plain(files[i].md.filename)
  }

  /** For plain names the list is faithful exactly when every invalid file is reported, so always in the modes that report failures. */
  lemma PlainNamesWorkExactly(files: seq<Received>, mode: KrpMode, yaraClean: bool, i: int)
    requires PlainRun(files) && 0 <= i < |files|
    ensures NameWorks(files, i, mode, yaraClean) <==> IsValid(files[i]) || Reports(files[i], mode)
    ensures mode.Always? || mode.FailOnly? ==> NameWorks(files, i, mode, yaraClean)
  {
    hide IsValid, Copies, EndsWith;
    assert Plain(files[i].md.filename) && IsData(files[i].md.filename) && !IsKrp(files[i].md.filename);
    assert KrpName(files[i].md.filename)[0] == '.';
  }

  /** In a run of plain names the report of a file is in the directory exactly when the mode asks for it. */
  lemma ReportIsThereExactly(files: seq<Received>, mode: KrpMode, yaraClean: bool, i: int)
    requires PlainRun(files) && 0 <= i < |files|
    ensures "." + files[i].md.filename + ".krp" in Output(files, mode, yaraClean) <==>
            || mode == Always
            || (mode == PassOnly && IsValid(files[i]))
            || (mode == FailOnly && !IsValid(files[i]))
  {
    hide Output, IsValid, Copies, FileName, HoldsReport, Overwritten;
    PlainRunIsDistinct(files);
    OutputHoldsRun(files, mode, yaraClean);
    var dir, k := Output(files, mode, yaraClean), KrpName(files[i].md.filename);
    if k in dir {
      var l :| 0 <= l < |files| && Leaves(files[l], k, mode, yaraClean);
      PlainIsNoReport(files, l, k);
      KrpNameIsInjective(files[l].md.filename, files[i].md.filename);
    }
    if Reports(files[i], mode) {
      assert Leaves(files[i], k, mode, yaraClean);
    }
  }

  lemma PlainIsNoReport(files: seq<Received>, l: int, k: string)
    requires PlainRun(files) && 0 <= l < |files| && |k| > 0 && k[0] == '.'
    ensures files[l].md.filename != k
  {
    assert Plain(files[l].md.filename);
  }

  lemma PlainRunIsFaithful(files: seq<Received>, mode: KrpMode, yaraClean: bool, entries: seq<string>)
    requires PlainRun(files) && (mode.Always? || mode.FailOnly?)
    requires ListingOf(Output(files, mode, yaraClean), entries)
    ensures Faithful(Listing(Output(files, mode, yaraClean), entries), files)
  {
    hide Listing, Output, ListingOf, Faithful, NameWorks, PlainRun;
    PlainRunIsDistinct(files);
    forall i | 0 <= i < |files|
      ensures NameWorks(files, i, mode, yaraClean)
    {
      PlainNamesWorkExactly(files, mode, yaraClean, i);
    }
    ListIsFaithfulExactly(files, mode, yaraClean, entries);
  }

  lemma PlainRunIsDistinct(files: seq<Received>)
    requires PlainRun(files)
    ensures DistinctRun(files)
  {}

  // ---------------------------------------------------------------- inputs that show each failure

  const CLEAN := FileMetadata("", [], true, false, 0, true, true, [], true, "", "", false, "", true, "", "", true, 0, "")

  /** The directory after a run of one passing file in the default mode, and its list. */
  lemma PassingFileList(name: string)
    requires FileName(name)
    ensures var f := Received(CLEAN.(filename := name), [], "");
            IsValid(f) && Output([f], FailOnly, true) == map[name := Data]
    ensures ListingOf(map[name := Data], [name])
  {
    var f := Received(CLEAN.(filename := name), [], "");
    assert [f][..0] == [];
    assert Output([], FailOnly, true) == map[];
  }

  /** A passing file whose name looks hidden or like a checksum is missing from the list. */
  lemma HiddenFileIsMissing()
    ensures Listing(map[".a" := Data], [".a"]) == []
    ensures Listing(map["a.sha256" := Data], ["a.sha256"]) == []
  {
    OneEntry(".a");
    var s := "a.sha256";
    assert s[|s| - 7..] == ".sha256";
    OneEntry(s);
  }

  lemma OneEntry(s: string)
    requires Skipped(s)
    ensures ListingOf(map[s := Data], [s]) && Listing(map[s := Data], [s]) == []
  {
    assert !IsData(s) && !IsKrp(s);
    assert Filter(IsData, [s]) == [];
    assert Filter(OrphanOf([]), [s]) == [];
  }

  /** One whose name looks like a report is listed as a refused file of another name. */
  lemma KrpNamedFileIsMisreported()
    ensures Listing(map["a.krp" := Data], ["a.krp"]) == [FileStatus("a", false, Some("unknown"), None)]
  {
    var s := "a.krp";
    var dir: Dir := map[s := Data];
    assert s[|s| - 4..] == ".krp" && s[..|s| - 4] == "a" && s[0] == 'a';
    assert IsKrp(s) && !IsData(s) && Original(s) == "a" && KrpStatus(dir, s) == FileStatus("a", false, Some("unknown"), None);
    assert Filter(IsData, [s]) == [];
    assert Filter(OrphanOf([]), [s]) == [s];
  }

  /** In a mode that does not report failures an invalid file is listed as a pass if it was copied, and is missing otherwise. */
  lemma UnreportedFailureIsWrong(f: Received, mode: KrpMode, yaraClean: bool)
    requires Plain(f.md.filename) && !IsValid(f) && (mode.Never? || mode.PassOnly?)
    ensures var name := f.md.filename;
            if Copies(f, yaraClean)
            then Output([f], mode, yaraClean) == map[name := Data]
                 && Listing(map[name := Data], [name]) == [FileStatus(name, true, None, None)]
            else Output([f], mode, yaraClean) == map[] && Listing(map[], []) == []
  {
    hide Copied, MetaOf;
    var name := f.md.filename;
    assert [f][..0] == [];
    assert Output([], mode, yaraClean) == map[];
    if Copies(f, yaraClean) {
      var dir: Dir := map[name := Data];
      KrpNameIsInjective(name, name);
      assert IsData(name) && !IsKrp(name) && DataStatus(dir, name) == FileStatus(name, true, None, None);
      assert Filter(IsData, [name]) == [name];
      assert Filter(OrphanOf([name]), [name]) == [];
    } else {
      assert Filter(IsData, []) == [] && Filter(OrphanOf([]), []) == [];
    }
  }

  /** Both happen: a Yara match without cleaning, and a forbidden type. */
  lemma UnreportedFailuresExist()
    ensures var f := Received(CLEAN.(filename := "a", yaraPass := false), [], "");
            !IsValid(f) && Copies(f, false) && Plain(f.md.filename)
    ensures var g := Received(CLEAN.(filename := "a", isTypeAllowed := false), [], "");
            !IsValid(g) && !Copies(g, false) && Plain(g.md.filename)
  {}
}
