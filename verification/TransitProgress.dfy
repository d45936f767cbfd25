/** How the scanning daemon drives the progress: a batch is added, then scanned file by file. */
module TransitProgress {
  import opened Wrappers
  import opened Progress

  /** A file, the steps of its scan, and whether it passed. */
  datatype Scanned = Scanned(name: string, steps: seq<AnalysisStep>, passed: bool)

  function StepEvents(steps: seq<AnalysisStep>): seq<Event> {
    seq(|steps|, i requires 0 <= i < |steps| => Step(steps[i]))
  }

  function FileEvents(f: Scanned): seq<Event> {
    [Start(f.name)] + StepEvents(f.steps) + [Finish(f.passed), Step(if f.passed then Complete else Failed("checks failed"))]
  }

  function AllFileEvents(files: seq<Scanned>): seq<Event>
    decreases |files|
  {
    if files == [] then [] else AllFileEvents(files[..|files| - 1]) + FileEvents(files[|files| - 1])
  }

  function NamesOf(files: seq<Scanned>): seq<string> {
    seq(|files|, i requires 0 <= i < |files| => files[i].name)
  }

  function Batch(files: seq<Scanned>): seq<Event> {
    [Add(NamesOf(files))] + AllFileEvents(files)
  }

  predicate Idle(t: Tracked) {
    t.s.current.None? && t.s.queue == [] && t.waiting == multiset{} && Done(t.s) == t.s.total && |t.s.completed| == t.s.processed
  }

  /** Between two files of a batch. */
  predicate Between(t: Tracked, waiting: multiset<string>, done: nat, total: nat) {
    t.s.current.None? && t.waiting == waiting && Done(t.s) == done && t.s.total == total
  }

  /** A step reported after its file has been completed, as the daemon does, changes nothing. */
  lemma LateStepIsLost(s: State, passed: bool, step: AnalysisStep)
    ensures Next(Next(s, Finish(passed)), Step(step)) == Next(s, Finish(passed))
  {}

  lemma {:induction false} StepsKeepCounts(t: Tracked, steps: seq<AnalysisStep>)
    requires t.s.current.Some?
    ensures ValidFrom(t, StepEvents(steps)) && NoAdds(StepEvents(steps))
    ensures var t' := RunFrom(t, StepEvents(steps));
            t'.s.current.Some? && t'.waiting == t.waiting && Done(t'.s) == Done(t.s) && t'.s.total == t.s.total
    decreases |steps|
  {
    if steps != [] {
      var n := |steps| - 1;
      StepsKeepCounts(t, steps[..n]);
      assert StepEvents(steps)[..n] == StepEvents(steps[..n]);
    }
  }

  lemma FileCounts(t: Tracked, f: Scanned)
    requires f.name in t.waiting && t.s.current.None?
    ensures ValidFrom(t, FileEvents(f)) && NoAdds(FileEvents(f))
    ensures Between(RunFrom(t, FileEvents(f)), t.waiting - multiset{f.name}, Done(t.s) + 1, t.s.total)
  {
    hide RunFrom, ValidFrom;
    var middle := StepEvents(f.steps);
    var last := Step(if f.passed then Complete else Failed("checks failed"));
    RunOfOne(t, Start(f.name));
    var t1 := TrackedNext(t, Start(f.name));
    StepsKeepCounts(t1, f.steps);
    var t2 := RunFrom(t1, middle);
    RunOfTwo(t2, Finish(f.passed), last);
    LateStepIsLost(t2.s, f.passed, last.step);
    RunAppended(t, [Start(f.name)], middle);
    RunAppended(t, [Start(f.name)] + middle, [Finish(f.passed), last]);
  }

  lemma RunOfOne(t: Tracked, e: Event)
    ensures RunFrom(t, [e]) == TrackedNext(t, e) && (ValidFrom(t, [e]) <==> Enabled(t, e))
  {
    assert [e][..0] == [];
  }

  lemma {:induction false} FilesCount(t: Tracked, files: seq<Scanned>, k: nat)
    requires t.s.current.None? && t.waiting == multiset(NamesOf(files)) && k <= |files|
    ensures ValidFrom(t, AllFileEvents(files[..k])) && NoAdds(AllFileEvents(files[..k]))
    ensures Between(RunFrom(t, AllFileEvents(files[..k])), multiset(NamesOf(files)[k..]), Done(t.s) + k, t.s.total)
    decreases k
  {
    hide RunFrom, ValidFrom, FileEvents, AllFileEvents, NoAdds, NamesOf;
    var names := NamesOf(files);
    NamesAt(files);
    if k == 0 {
      NoEvents(files);
      RunOfNone(t);
      assert names[0..] == names;
    } else {
      FilesCount(t, files, k - 1);
      var t1 := RunFrom(t, AllFileEvents(files[..k - 1]));
      OneMoreFile(files, k);
      assert names[k - 1..] == [files[k - 1].name] + names[k..];
      FileCounts(t1, files[k - 1]);
      NoAddsTogether(AllFileEvents(files[..k - 1]), FileEvents(files[k - 1]));
      RunAppended(t, AllFileEvents(files[..k - 1]), FileEvents(files[k - 1]));
    }
  }

  lemma NamesAt(files: seq<Scanned>)
    ensures |NamesOf(files)| == |files| && forall i :: 0 <= i < |files| ==> NamesOf(files)[i] == files[i].name
  {}

  lemma NoEvents(files: seq<Scanned>)
    ensures AllFileEvents(files[..0]) == [] && NoAdds([])
  {}

  lemma OneMoreFile(files: seq<Scanned>, k: nat)
    requires 0 < k <= |files|
    ensures AllFileEvents(files[..k]) == AllFileEvents(files[..k - 1]) + FileEvents(files[k - 1])
  {
    hide FileEvents;
    assert files[..k][..k - 1] == files[..k - 1];
  }

  lemma NoAddsTogether(a: seq<Event>, b: seq<Event>)
    requires NoAdds(a) && NoAdds(b)
    ensures NoAdds(a + b)
  {}

  lemma RunOfNone(t: Tracked)
    ensures RunFrom(t, []) == t && ValidFrom(t, [])
  {}

  /** Whatever the names, every batch from an idle daemon leaves it idle, and a nonempty one at 100 percent. */
  lemma BatchEndsAtFull(t: Tracked, files: seq<Scanned>)
    requires Idle(t)
    ensures ValidFrom(t, Batch(files)) && Idle(RunFrom(t, Batch(files)))
    ensures files != [] ==> OverallPercentage(RunFrom(t, Batch(files)).s) == 100
  {
    hide RunFrom, ValidFrom, AllFileEvents, NamesOf, OverallPercentage;
    var add := Add(NamesOf(files));
    var t1 := TrackedNext(t, add);
    RunOfOne(t, add);
    assert [] + NamesOf(files) == NamesOf(files);
    assert multiset{} + multiset(NamesOf(files)) == multiset(NamesOf(files));
    FilesCount(t1, files, |files|);
    assert files[..|files|] == files;
    NamesAt(files);
    RunAppended(t, [add], AllFileEvents(files));
    var t2 := RunFrom(t, Batch(files));
    RunKeepsSane(t, Batch(files));
    SaneMeans(t2);
    assert NamesOf(files)[|files|..] == [];
    PercentageInRange(t2.s);
  }

  lemma SaneMeans(t: Tracked)
    requires Sane(t)
    ensures |t.s.completed| == t.s.processed && (t.waiting == multiset{} ==> t.s.queue == [])
  {
    if t.s.queue != [] {
      assert t.s.queue[0] in multiset(t.s.queue);
      assert t.s.queue[0] in t.waiting;
    }
  }

  /** And at no point within the batch, nor in any prefix of it, does the percentage leave its range. */
  lemma BatchStaysInRange(t: Tracked, files: seq<Scanned>, k: nat)
    requires Idle(t) && k <= |Batch(files)|
    ensures OverallPercentage(RunFrom(t, Batch(files)[..k]).s) <= 100
  {
    hide RunFrom, ValidFrom, AllFileEvents, OverallPercentage;
    var es := Batch(files);
    BatchEndsAtFull(t, files);
    assert es == es[..k] + es[k..];
    RunAppended(t, es[..k], es[k..]);
    BatchAddsToComplete(t, files, k);
    RunKeepsRoom(t, es[..k]);
    PercentageInRange(RunFrom(t, es[..k]).s);
  }

  lemma {:induction false} BatchAddsToComplete(t: Tracked, files: seq<Scanned>, k: nat)
    requires Idle(t) && k <= |Batch(files)|
    ensures AddsToComplete(t, Batch(files)[..k])
    decreases k
  {
    hide TrackedNext, AllFileEvents;
    if k > 0 {
      var es := Batch(files)[..k];
      assert es[..k - 1] == Batch(files)[..k - 1];
      BatchAddsToComplete(t, files, k - 1);
      if k == 1 {
        assert es[..0] == [];
      } else {
        FileEventsAreNoAdds(files);
        assert es[k - 1] == AllFileEvents(files)[k - 2];
        assert es[k - 1] in AllFileEvents(files);
      }
    }
  }

  lemma {:induction false} FileEventsAreNoAdds(files: seq<Scanned>)
    ensures NoAdds(AllFileEvents(files))
    decreases |files|
  {
    if files != [] {
      FileEventsAreNoAdds(files[..|files| - 1]);
    }
  }
}
