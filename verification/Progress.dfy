/** Progress of a daemon over the files it was given. */
module Progress {
  import opened Wrappers

  datatype AnalysisStep =
    | Pending | Hashing | CheckingSize | CheckingFileType | AntivirusScan | YaraScan | SpecializedAnalysis
    | VirusTotalScan | VerifyingSignature | Complete | Failed(reason: string)

  function StepPercentage(s: AnalysisStep): nat {
    match s
    case Pending => 0
    case Hashing => 10
    case CheckingSize => 20
    case CheckingFileType => 30
    case AntivirusScan => 50
    case YaraScan => 65
    case SpecializedAnalysis => 75
    case VirusTotalScan => 85
    case VerifyingSignature => 93
    case Complete => 100
    case Failed(_) => 0
  }

  datatype FileProgress = FileProgress(filename: string, step: AnalysisStep, percentage: nat)

  datatype State = State(
    total: nat, processed: nat, failed: nat, current: Option<FileProgress>,
    queue: seq<string>, completed: seq<string>, isProcessing: bool)

  const FRESH := State(0, 0, 0, None, [], [], false)

  function Others(queue: seq<string>, name: string): seq<string>
    decreases |queue|
  {
    if queue == [] then []
    else
      var n := |queue| - 1;
      Others(queue[..n], name) + if queue[n] != name then [queue[n]] else []
  }

  datatype Event = Add(files: seq<string>) | Start(name: string) | Step(step: AnalysisStep) | Finish(success: bool)

  function Next(s: State, e: Event): State {
    match e
    case Add(files) => s.(queue := s.queue + files, total := |s.queue| + |files| + s.processed + s.failed)
    case Start(name) => s.(current := Some(FileProgress(name, Pending, 0)), queue := Others(s.queue, name), isProcessing := true)
    case Step(step) =>
      if s.current.None? then s
      else s.(current := Some(FileProgress(s.current.value.filename, step, StepPercentage(step))))
    case Finish(success) =>
      if s.current.None? then s
      else
        var counted :=
          if success then s.(processed := s.processed + 1, completed := s.completed + [s.current.value.filename])
          else s.(failed := s.failed + 1);
        counted.(current := None, isProcessing := if s.queue == [] then false else s.isProcessing)
  }

  /** The number shown, cut to eight bits. */
  function OverallPercentage(s: State): (p: nat)
    ensures p < 256
  {
    if s.total == 0 then 0 else (s.processed + s.failed) * 100 / s.total % 256
  }

  class DaemonProgress {
    var totalFiles: nat
    var processedFiles: nat
    var failedFiles: nat
    var currentFile: Option<FileProgress>
    var queue: seq<string>
    var completed: seq<string>
    var isProcessing: bool

    constructor ()
      ensures Now() == FRESH
    {
      totalFiles, processedFiles, failedFiles := 0, 0, 0;
      currentFile, queue, completed, isProcessing := None, [], [], false;
    }

    function Now(): State
      reads this
    {
      State(totalFiles, processedFiles, failedFiles, currentFile, queue, completed, isProcessing)
    }

    method AddFilesToQueue(files: seq<string>)
      modifies this
      ensures Now() == Next(old(Now()), Add(files))
    {
      queue := queue + files;
      totalFiles := |queue| + processedFiles + failedFiles;
    }

    method StartNextFile(filename: string)
      modifies this
      ensures Now() == Next(old(Now()), Start(filename))
    {
      currentFile := Some(FileProgress(filename, Pending, 0));
      queue := Others(queue, filename);
      isProcessing := true;
    }

    method UpdateCurrentStep(step: AnalysisStep)
      modifies this
      ensures Now() == Next(old(Now()), Step(step))
    {
      if currentFile.Some? {
        currentFile := Some(currentFile.value.(step := step, percentage := StepPercentage(step)));
      }
    }

    method CompleteCurrentFile(success: bool)
      modifies this
      ensures Now() == Next(old(Now()), Finish(success))
    {
      if currentFile.Some? {
        var filename := currentFile.value.filename;
        currentFile := None;
        if success {
          processedFiles := processedFiles + 1;
          completed := completed + [filename];
        } else {
          failedFiles := failedFiles + 1;
        }
        if |queue| == 0 {
          isProcessing := false;
        }
      }
    }

    method GetOverallPercentage() returns (p: nat)
      ensures p == OverallPercentage(Now()) && p < 256
    {
      if totalFiles == 0 {
        return 0;
      }
      var done := processedFiles + failedFiles;
      p := done * 100 / totalFiles % 256;
    }
  }

  // ---------------------------------------------------------------- runs

  /** The daemon, and the files it was given that it has not started. */
  datatype Tracked = Tracked(s: State, waiting: multiset<string>)

  /** Files are added between files, and each added file is started at most once. */
  predicate Enabled(t: Tracked, e: Event) {
    match e
    case Add(_) => t.s.current.None?
    case Start(name) => name in t.waiting
    case _ => true
  }

  function TrackedNext(t: Tracked, e: Event): Tracked {
    var s := Next(t.s, e);
    match e
    case Add(files) => Tracked(s, t.waiting + multiset(files))
    case Start(name) => Tracked(s, t.waiting - multiset{name})
    case _ => Tracked(s, t.waiting)
  }

  function RunFrom(t: Tracked, es: seq<Event>): Tracked
    decreases |es|
  {
    if es == [] then t else TrackedNext(RunFrom(t, es[..|es| - 1]), es[|es| - 1])
  }

  predicate ValidFrom(t: Tracked, es: seq<Event>)
    decreases |es|
  {
    es == [] || (ValidFrom(t, es[..|es| - 1]) && Enabled(RunFrom(t, es[..|es| - 1]), es[|es| - 1]))
  }

  const START := Tracked(FRESH, multiset{})

  /** No file of the queue has been forgotten. */
  predicate QueueComplete(t: Tracked) { |t.s.queue| == |t.waiting| }

  /** Files are only added while the queue is complete. */
  predicate AddsToComplete(t: Tracked, es: seq<Event>)
    decreases |es|
  {
    || es == []
    || (AddsToComplete(t, es[..|es| - 1]) && (es[|es| - 1].Add? ==> QueueComplete(RunFrom(t, es[..|es| - 1]))))
  }

  function Done(s: State): nat { s.processed + s.failed }

  lemma {:induction false} OthersCount(queue: seq<string>, name: string)
    ensures multiset(Others(queue, name)) == multiset(queue)[name := 0]
    decreases |queue|
  {
    if queue != [] {
      var n := |queue| - 1;
      OthersCount(queue[..n], name);
      assert queue == queue[..n] + [queue[n]];
      assert multiset(queue) == multiset(queue[..n]) + multiset{queue[n]};
    }
  }

  /** What always holds: only waiting files are queued, and the list of completed files has as many as were processed. */
  predicate Sane(t: Tracked) {
    multiset(t.s.queue) <= t.waiting && |t.s.completed| == t.s.processed
  }

  lemma StepKeepsSane(t: Tracked, e: Event)
    requires Sane(t) && Enabled(t, e)
    ensures Sane(TrackedNext(t, e))
  {
    if e.Start? {
      OthersCount(t.s.queue, e.name);
    }
  }

  /** Room left in the total for the current file and all waiting ones. */
  predicate Room(t: Tracked) {
    Done(t.s) + (if t.s.current.Some? then 1 else 0) + |t.waiting| <= t.s.total
  }

  lemma StepKeepsRoom(t: Tracked, e: Event)
    requires Room(t) && Enabled(t, e) && (e.Add? ==> QueueComplete(t))
    ensures Room(TrackedNext(t, e))
  {}

  lemma {:induction false} RunKeepsSane(t: Tracked, es: seq<Event>)
    requires Sane(t) && ValidFrom(t, es)
    ensures Sane(RunFrom(t, es))
    decreases |es|
  {
    hide Sane, TrackedNext, Enabled;
    if es != [] {
      RunKeepsSane(t, es[..|es| - 1]);
      StepKeepsSane(RunFrom(t, es[..|es| - 1]), es[|es| - 1]);
    }
  }

  lemma {:induction false} RunKeepsRoom(t: Tracked, es: seq<Event>)
    requires Room(t) && ValidFrom(t, es) && AddsToComplete(t, es)
    ensures Room(RunFrom(t, es))
    decreases |es|
  {
    hide Room, TrackedNext, Enabled, QueueComplete;
    if es != [] {
      RunKeepsRoom(t, es[..|es| - 1]);
      StepKeepsRoom(RunFrom(t, es[..|es| - 1]), es[|es| - 1]);
    }
  }

  lemma PercentageInRange(s: State)
    requires Done(s) <= s.total
    ensures OverallPercentage(s) <= 100 && (Done(s) == s.total > 0 ==> OverallPercentage(s) == 100)
  {
    PercentageExact(s);
    if s.total > 0 {
      QuotientAtMost(Done(s), s.total);
    }
  }

  /** Nothing is lost in the cut to eight bits. */
  lemma PercentageExact(s: State)
    requires Done(s) <= s.total
    ensures s.total > 0 ==> OverallPercentage(s) == Done(s) * 100 / s.total
  {
    if s.total > 0 {
      QuotientAtMost(Done(s), s.total);
    }
  }

  lemma QuotientAtMost(a: nat, b: nat)
    requires a <= b && b > 0
    ensures a * 100 / b <= 100 && (a == b ==> a * 100 / b == 100)
  {
    assert a * 100 / b * b <= a * 100 <= b * 100;
  }

  lemma StartHasRoom()
    ensures Sane(START) && Room(START)
  {}

  lemma RoomAndSaneMean(t: Tracked)
    requires Sane(t) && Room(t)
    ensures Done(t.s) <= t.s.total && |t.s.completed| == t.s.processed
  {}

  /** In such runs the percentage is exact and at most 100. */
  lemma PercentageStaysInRange(es: seq<Event>)
    requires ValidFrom(START, es) && AddsToComplete(START, es)
    ensures var s := RunFrom(START, es).s;
            Done(s) <= s.total && OverallPercentage(s) <= 100 && |s.completed| == s.processed
  {
    hide OverallPercentage, RunFrom, ValidFrom, AddsToComplete, Sane, Room;
    StartHasRoom();
    var t := RunFrom(START, es);
    RunKeepsSane(START, es);
    RunKeepsRoom(START, es);
    RoomAndSaneMean(t);
    PercentageInRange(t.s);
  }

  /** Between additions the percentage never falls. */
  lemma PercentageNeverFalls(t: Tracked, e: Event)
    requires Room(t) && Enabled(t, e) && !e.Add?
    ensures OverallPercentage(t.s) <= OverallPercentage(TrackedNext(t, e).s)
  {
    var s, s' := t.s, TrackedNext(t, e).s;
    StepKeepsRoom(t, e);
    PercentageExact(s);
    PercentageExact(s');
    if s.total > 0 {
      QuotientMonotone(Done(s) * 100, Done(s') * 100, s.total);
    }
  }

  lemma QuotientMonotone(a: nat, b: nat, d: nat)
    requires a <= b && d > 0
    ensures a / d <= b / d
  {
    assert a / d * d <= a && b < (b / d + 1) * d;
    LessWhenScaled(a / d, b / d + 1, d);
  }

  lemma LessWhenScaled(x: nat, y: nat, d: nat)
    requires x * d < y * d
    ensures x < y
  {
    if x >= y {
      ScaledAtMost(y, x, d);
    }
  }

  lemma ScaledAtMost(y: nat, x: nat, d: nat)
    requires y <= x
    ensures y * d <= x * d
  {}

  // ---------------------------------------------------------------- one file

  /** The state after some steps of the current file. */
  function AfterSteps(s: State, steps: seq<AnalysisStep>): State
    decreases |steps|
  {
    if steps == [] then s else Next(AfterSteps(s, steps[..|steps| - 1]), Step(steps[|steps| - 1]))
  }

  /** The share of a scan that is over at each step, in the order in which steps come. */
  lemma StepsAscend(i: nat)
    requires i < 10
    ensures var order := [Pending, Hashing, CheckingSize, CheckingFileType, AntivirusScan, YaraScan, SpecializedAnalysis,
                          VirusTotalScan, VerifyingSignature, Complete];
            && StepPercentage(order[i]) == [0, 10, 20, 30, 50, 65, 75, 85, 93, 100][i]
            && (i > 0 ==> StepPercentage(order[i - 1]) < StepPercentage(order[i]))
    ensures forall reason :: StepPercentage(Failed(reason)) == 0
  {}

  lemma {:induction false} StepsShow(s: State, name: string, steps: seq<AnalysisStep>)
    requires s.current == Some(FileProgress(name, Pending, 0))
    ensures var last := if steps == [] then Pending else steps[|steps| - 1];
            AfterSteps(s, steps) == s.(current := Some(FileProgress(name, last, StepPercentage(last))))
    decreases |steps|
  {
    hide StepPercentage;
    if steps == [] {
      PendingIsZero();
    } else {
      StepsShow(s, name, steps[..|steps| - 1]);
    }
  }

  lemma PendingIsZero()
    ensures StepPercentage(Pending) == 0
  {}

  /**
   * From any state: while a file is worked on it is shown with its last step; when it is finished
   * it is counted once, as processed and listed, or as failed; its name is gone from the queue,
   * and the daemon is idle exactly when nothing is queued.
   */
  lemma OneFileIsCounted(s: State, name: string, steps: seq<AnalysisStep>, success: bool)
    ensures var s1 := AfterSteps(Next(s, Start(name)), steps);
            var s2 := Next(s1, Finish(success));
            && s1.current.Some? && s1.current.value.filename == name && s1.isProcessing
            && (steps != [] ==> s1.current.value.step == steps[|steps| - 1])
            && s1.current.value.percentage == StepPercentage(s1.current.value.step)
            && (s1.processed, s1.failed, s1.completed, s1.total) == (s.processed, s.failed, s.completed, s.total)
            && s2.processed == s.processed + (if success then 1 else 0)
            && s2.failed == s.failed + (if success then 0 else 1)
            && s2.completed == s.completed + (if success then [name] else [])
            && s2.current == None && s2.total == s.total
            && multiset(s2.queue) == multiset(s.queue)[name := 0]
            && (s2.isProcessing <==> s2.queue != [])
  {
    hide StepPercentage, Others;
    StepsShow(Next(s, Start(name)), name, steps);
    OthersCount(s.queue, name);
    PendingIsZero();
  }

  /** Nothing is shown before anything was added. */
  lemma NothingShownFirst(s: State)
    requires s.total == 0
    ensures OverallPercentage(s) == 0
    ensures FRESH.total == 0 && FRESH.processed == 0 && FRESH.failed == 0 && FRESH.current == None && !FRESH.isProcessing
  {}

  // ---------------------------------------------------------------- the condition is exact

  predicate NoAdds(es: seq<Event>) { forall e <- es :: !e.Add? }

  lemma NoAddsAddComplete(t: Tracked, es: seq<Event>)
    requires NoAdds(es)
    ensures AddsToComplete(t, es)
    decreases |es|
  {
    if es != [] {
      assert es[|es| - 1] in es;
      NoAddsAddComplete(t, es[..|es| - 1]);
    }
  }

  lemma {:induction false} RunAppended(t: Tracked, es: seq<Event>, es': seq<Event>)
    ensures RunFrom(t, es + es') == RunFrom(RunFrom(t, es), es')
    ensures ValidFrom(t, es + es') <==> ValidFrom(t, es) && ValidFrom(RunFrom(t, es), es')
    decreases |es'|
  {
    hide TrackedNext, Enabled;
    if es' == [] {
      assert es + es' == es;
    } else {
      var n := |es'| - 1;
      RunAppended(t, es, es'[..n]);
      assert (es + es')[..|es| + n] == es + es'[..n];
    }
  }

  lemma RunOfTwo(t: Tracked, a: Event, b: Event)
    ensures RunFrom(t, [a, b]) == TrackedNext(TrackedNext(t, a), b)
    ensures ValidFrom(t, [a, b]) <==> Enabled(t, a) && Enabled(TrackedNext(t, a), b)
  {
    hide TrackedNext, Enabled;
    assert [a, b][..1] == [a] && [a][..0] == [];
    assert RunFrom(t, [a]) == TrackedNext(t, a);
    assert ValidFrom(t, [a]) <==> Enabled(t, a);
  }

  lemma RunOfThree(t: Tracked, a: Event, b: Event, c: Event)
    ensures RunFrom(t, [a, b, c]) == TrackedNext(TrackedNext(TrackedNext(t, a), b), c)
    ensures ValidFrom(t, [a, b, c]) <==>
            Enabled(t, a) && Enabled(TrackedNext(t, a), b) && Enabled(TrackedNext(TrackedNext(t, a), b), c)
  {
    hide TrackedNext, Enabled;
    RunOfTwo(t, a, b);
    assert [a, b, c][..2] == [a, b];
  }

  lemma StartAndFinish(t: Tracked, name: string)
    requires name in t.waiting
    ensures var one := [Start(name), Finish(true)];
            var t' := RunFrom(t, one);
            && ValidFrom(t, one) && NoAdds(one)
            && t'.s.total == t.s.total && Done(t'.s) == Done(t.s) + 1 && t'.waiting == t.waiting - multiset{name} && t'.s.current.None?
  {
    RunOfTwo(t, Start(name), Finish(true));
    hide RunFrom, ValidFrom;
  }

  /** Starting and finishing every waiting file. */
  lemma {:induction false} Drain(t: Tracked) returns (es: seq<Event>)
    requires t.s.current.None?
    ensures ValidFrom(t, es) && NoAdds(es)
    ensures var t' := RunFrom(t, es);
            t'.s.total == t.s.total && Done(t'.s) == Done(t.s) + |t.waiting| && t'.waiting == multiset{} && t'.s.current.None?
    decreases |t.waiting|
  {
    if |t.waiting| == 0 {
      es := [];
    } else {
      var name :| name in t.waiting;
      var one := [Start(name), Finish(true)];
      StartAndFinish(t, name);
      var t1 := RunFrom(t, one);
      hide TrackedNext, Enabled;
      var rest := Drain(t1);
      RunAppended(t, one, rest);
      es := one + rest;
    }
  }

  ghost predicate StaysInRange(t: Tracked) {
    forall es :: ValidFrom(t, es) && NoAdds(es) ==> Done(RunFrom(t, es).s) <= RunFrom(t, es).s.total
  }

  /**
   * Adding files keeps all that can follow within 100 percent exactly when no waiting file had
   * been dropped from the queue. Starting a file drops every entry of the same name, so the
   * condition fails only when a name was queued twice.
   */
  lemma AddIsSafeExactly(t: Tracked, files: seq<string>)
    requires Sane(t) && t.s.current.None?
    ensures StaysInRange(TrackedNext(t, Add(files))) <==> QueueComplete(t)
  {
    var t' := TrackedNext(t, Add(files));
    SubMultisetSize(multiset(t.s.queue), t.waiting);
    if QueueComplete(t) {
      assert Room(t');
      forall es | ValidFrom(t', es) && NoAdds(es)
        ensures Done(RunFrom(t', es).s) <= RunFrom(t', es).s.total
      {
        NoAddsAddComplete(t', es);
        RunKeepsRoom(t', es);
      }
    }
    if StaysInRange(t') {
      var es := Drain(t');
      assert Done(RunFrom(t', es).s) <= RunFrom(t', es).s.total;
    }
  }

  lemma SubMultisetSize(a: multiset<string>, b: multiset<string>)
    requires a <= b
    ensures |a| <= |b|
  {
    assert b == a + (b - a);
  }

  /** A run within the discipline that ends at 150 percent: one name added twice, then another. */
  lemma DuplicateNamesOverflow()
    ensures var es := [Add(["a", "a"]), Start("a"), Finish(true), Add(["b"]), Start("a"), Finish(true), Start("b"), Finish(true)];
            ValidFrom(START, es) && OverallPercentage(RunFrom(START, es).s) == 150
  {
    hide RunFrom, ValidFrom, OverallPercentage;
    var first := [Add(["a", "a"]), Start("a"), Finish(true)];
    var second := [Add(["b"]), Start("a"), Finish(true)];
    var third := [Start("b"), Finish(true)];
    FirstPart();
    SecondPart();
    ThirdPart();
    RunAppended(START, first, second);
    RunAppended(START, first + second, third);
    assert first + second + third
           == [Add(["a", "a"]), Start("a"), Finish(true), Add(["b"]), Start("a"), Finish(true), Start("b"), Finish(true)];
  }

  const ONE_DONE := Tracked(State(2, 1, 0, None, [], ["a"], false), multiset{"a"})
  const TWO_DONE := Tracked(State(2, 2, 0, None, ["b"], ["a", "a"], true), multiset{"b"})

  lemma FirstPart()
    ensures var es := [Add(["a", "a"]), Start("a"), Finish(true)]; ValidFrom(START, es) && RunFrom(START, es) == ONE_DONE
  {
    hide RunFrom, ValidFrom;
    var t1 := Tracked(State(2, 0, 0, None, ["a", "a"], [], false), multiset{"a", "a"});
    var t2 := Tracked(State(2, 0, 0, Some(FileProgress("a", Pending, 0)), [], [], true), multiset{"a"});
    assert TrackedNext(START, Add(["a", "a"])) == t1 by {
      assert [] + ["a", "a"] == ["a", "a"];
    }
    assert TrackedNext(t1, Start("a")) == t2 by {
      OthersCount(["a", "a"], "a");
    }
    assert TrackedNext(t2, Finish(true)) == ONE_DONE;
    RunOfThree(START, Add(["a", "a"]), Start("a"), Finish(true));
  }

  lemma OtherNameStays()
    ensures Others(["b"], "a") == ["b"]
  {
    assert "b"[0] != "a"[0];
  }

  lemma SecondPart()
    ensures var es := [Add(["b"]), Start("a"), Finish(true)]; ValidFrom(ONE_DONE, es) && RunFrom(ONE_DONE, es) == TWO_DONE
  {
    hide RunFrom, ValidFrom;
    var t1 := Tracked(State(2, 1, 0, None, ["b"], ["a"], false), multiset{"a", "b"});
    var t2 := Tracked(State(2, 1, 0, Some(FileProgress("a", Pending, 0)), ["b"], ["a"], true), multiset{"b"});
    assert TrackedNext(ONE_DONE, Add(["b"])) == t1 by {
      assert [] + ["b"] == ["b"];
    }
    assert TrackedNext(t1, Start("a")) == t2 by {
      OtherNameStays();
    }
    assert TrackedNext(t2, Finish(true)) == TWO_DONE;
    RunOfThree(ONE_DONE, Add(["b"]), Start("a"), Finish(true));
  }

  lemma ThirdPart()
    ensures var es := [Start("b"), Finish(true)]; ValidFrom(TWO_DONE, es) && OverallPercentage(RunFrom(TWO_DONE, es).s) == 150
  {
    RunOfTwo(TWO_DONE, Start("b"), Finish(true));
  }
}
