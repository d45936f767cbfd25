/** Shortcut files: the printable strings of the raw bytes, searched for suspicious keywords. */
module LnkStrings {
  import opened Bytes

  const MIN_RUN := 6
  const SPACE: byte := 0x20
  const BACKSLASH: byte := 0x5C

  predicate Printable(b: byte) { 0x20 <= b < 0x7F }

  /** The text collected so far, and the printable run at the end of what was read. */
  datatype Scan = Scan(result: seq<byte>, current: seq<byte>)

  function Step(s: Scan, b: byte): Scan {
    if Printable(b) then s.(current := s.current + [b])
    else Scan(if |s.current| >= MIN_RUN then s.result + s.current + [SPACE] else s.result, [])
  }

  function ScanOf(buf: seq<byte>): Scan
    decreases |buf|
  {
    if buf == [] then Scan([], []) else Step(ScanOf(buf[..|buf| - 1]), buf[|buf| - 1])
  }

  function TextOf(buf: seq<byte>): seq<byte> {
    var s := ScanOf(buf);
    if |s.current| >= MIN_RUN then s.result + s.current else s.result
  }

  method ExtractStrings(buf: seq<byte>) returns (result: seq<byte>)
    ensures result == TextOf(buf)
  {
    var current: seq<byte> := [];
    result := [];
    for i := 0 to |buf|
      invariant Scan(result, current) == ScanOf(buf[..i])
    {
      assert buf[..i + 1][..i] == buf[..i];
      var b := buf[i];
      if b >= 0x20 && b < 0x7F {
        current := current + [b];
      } else {
        if |current| >= MIN_RUN {
          result := result + current;
          result := result + [SPACE];
        }
        current := [];
      }
    }
    assert buf[..|buf|] == buf;
    if |current| >= MIN_RUN {
      result := result + current;
    }
  }

  // ---------------------------------------------------------------- what the text contains

  /** The bytes from `i` to `j` are printable, and no longer block around them is. */
  predicate MaximalRun(buf: seq<byte>, i: int, j: int) {
    && 0 <= i < j <= |buf|
    && (forall k :: i <= k < j ==> Printable(buf[k]))
    && (i == 0 || !Printable(buf[i - 1]))
    && (j == |buf| || !Printable(buf[j]))
  }

  /** A run long enough to be kept that holds the keyword, ignoring ASCII case. */
  predicate RunHolds(buf: seq<byte>, i: int, j: int, kw: seq<byte>) {
    MaximalRun(buf, i, j) && j - i >= MIN_RUN && Contains(LowerAll(buf[i..j]), kw)
  }

  ghost predicate SomeRunHolds(buf: seq<byte>, kw: seq<byte>) {
    exists i, j :: RunHolds(buf, i, j, kw)
  }

  ghost predicate SomeClosedRunHolds(buf: seq<byte>, kw: seq<byte>) {
    exists i, j :: RunHolds(buf, i, j, kw) && j < |buf|
  }

  predicate Keyword(kw: seq<byte>) { kw != [] && 0x20 !in kw }

  lemma LowerConcat(a: seq<byte>, b: seq<byte>)
    ensures LowerAll(a + b) == LowerAll(a) + LowerAll(b)
  {}

  lemma SpaceStays(a: seq<byte>)
    ensures LowerAll([SPACE]) == [SPACE]
    ensures a != [] && a[|a| - 1] == SPACE ==> LowerAll(a)[|a| - 1] == SPACE
  {}

  lemma ContainsInPart(a: seq<byte>, b: seq<byte>, c: seq<byte>, kw: seq<byte>)
    requires Contains(b, kw)
    ensures Contains(a + b + c, kw)
  {
    var i := Occurrence(b, kw);
    var at := |a| + i;
    assert (a + b + c)[at..at + |kw|] == b[i..i + |kw|];
    assert MatchesAt(a + b + c, kw, at);
  }

  /** A match that avoids the separator at `at` lies on one side of it. */
  lemma MatchAvoids(hay: seq<byte>, kw: seq<byte>, i: int, at: int)
    requires MatchesAt(hay, kw, i) && Keyword(kw) && 0 <= at < |hay| && hay[at] == SPACE
    ensures i + |kw| <= at || at < i
  {
    if i <= at < i + |kw| {
      MatchedByte(hay, kw, i, at);
    }
  }

  lemma MatchedByte(hay: seq<byte>, kw: seq<byte>, i: int, k: int)
    requires MatchesAt(hay, kw, i) && i <= k < i + |kw|
    ensures hay[k] in kw
  {
    assert hay[k] == hay[i..i + |kw|][k - i] == kw[k - i];
  }

  /** Text that ends in a separator, then a run, then perhaps a separator: nothing is found across. */
  lemma ContainsEither(a: seq<byte>, b: seq<byte>, c: seq<byte>, kw: seq<byte>)
    requires Keyword(kw) && (a == [] || a[|a| - 1] == SPACE) && (c == [] || c == [SPACE])
    ensures Contains(a + b + c, kw) <==> Contains(a, kw) || Contains(b, kw)
  {
    hide Contains;
    var hay := a + b + c;
    if Contains(a, kw) {
      ContainsInPart([], a, b + c, kw);
      assert [] + a + (b + c) == hay;
    }
    if Contains(b, kw) {
      ContainsInPart(a, b, c, kw);
    }
    if Contains(hay, kw) {
      var i := Occurrence(hay, kw);
      if c != [] {
        MatchAvoids(hay, kw, i, |a| + |b|);
      }
      if a != [] {
        MatchAvoids(hay, kw, i, |a| - 1);
      }
      if i < |a| {
        assert hay[0..|a|] == a;
        MatchInPart(hay, 0, |a|, kw, i);
      } else {
        assert hay[|a|..|a| + |b|] == b;
        MatchInPart(hay, |a|, |a| + |b|, kw, i);
      }
    }
  }

  lemma GluedContains(a: seq<byte>, b: seq<byte>, c: seq<byte>, kw: seq<byte>)
    requires Keyword(kw) && (a == [] || a[|a| - 1] == SPACE) && (c == [] || c == [SPACE])
    ensures Contains(LowerAll(a + b + c), kw) <==> Contains(LowerAll(a), kw) || Contains(LowerAll(b), kw)
  {
    hide Contains, LowerAll;
    LowerConcat(a + b, c);
    LowerConcat(a, b);
    SpaceStays(a);
    ContainsEither(LowerAll(a), LowerAll(b), LowerAll(c), kw);
  }

  lemma MatchInPart(hay: seq<byte>, from: nat, to: nat, kw: seq<byte>, i: int)
    requires MatchesAt(hay, kw, i) && from <= i && i + |kw| <= to <= |hay|
    ensures Contains(hay[from..to], kw)
  {
    SliceOfSlice(hay, from, to, i - from, i - from + |kw|);
    assert MatchesAt(hay[from..to], kw, i - from);
  }

  /** The run being read is the printable end of the buffer, and the text ends in a separator. */
  predicate Shape(buf: seq<byte>, s: Scan) {
    && |s.current| <= |buf| && s.current == buf[|buf| - |s.current|..]
    && (forall k :: |buf| - |s.current| <= k < |buf| ==> Printable(buf[k]))
    && (|s.current| < |buf| ==> !Printable(buf[|buf| - |s.current| - 1]))
    && (s.result != [] ==> s.result[|s.result| - 1] == SPACE)
  }

  lemma StepShape(buf: seq<byte>, s: Scan, b: byte)
    requires Shape(buf, s)
    ensures Shape(buf + [b], Step(s, b))
  {
    hide Printable;
    if Printable(b) {
      GrowingShape(buf, s, b);
    } else {
      assert (buf + [b])[|buf| + 1..] == [];
    }
  }

  lemma GrowingShape(buf: seq<byte>, s: Scan, b: byte)
    requires Shape(buf, s) && Printable(b)
    ensures Shape(buf + [b], s.(current := s.current + [b]))
  {
    hide Printable;
    var start, buf' := |buf| - |s.current|, buf + [b];
    assert buf'[start..] == buf[start..] + [b];
    forall k | start <= k < |buf'|
      ensures Printable(buf'[k])
    {
      assert k < |buf| ==> buf'[k] == buf[k];
    }
    if start > 0 {
      assert buf'[start - 1] == buf[start - 1];
    }
  }

  lemma {:induction false} ScanShape(buf: seq<byte>)
    ensures Shape(buf, ScanOf(buf))
    decreases |buf|
  {
    hide Shape, Step;
    if buf != [] {
      var front, b := buf[..|buf| - 1], buf[|buf| - 1];
      ScanShape(front);
      assert front + [b] == buf;
      StepShape(front, ScanOf(front), b);
    } else {
      EmptyShape();
    }
  }

  lemma EmptyShape()
    ensures Shape([], Scan([], []))
  {}

  /** The run that reaches the end of the buffer is the one being read. */
  lemma LastRun(buf: seq<byte>, kw: seq<byte>)
    ensures SomeRunHolds(buf, kw) <==>
            SomeClosedRunHolds(buf, kw) || (|ScanOf(buf).current| >= MIN_RUN && Contains(LowerAll(ScanOf(buf).current), kw))
  {
    hide Contains, ScanOf;
    ScanShape(buf);
    var current := ScanOf(buf).current;
    var start := |buf| - |current|;
    if |current| >= MIN_RUN {
      assert MaximalRun(buf, start, |buf|);
      assert buf[start..|buf|] == current;
      assert Contains(LowerAll(current), kw) ==> RunHolds(buf, start, |buf|, kw);
    }
    if i, j :| RunHolds(buf, i, j, kw) && j == |buf| {
      assert i == start && buf[i..j] == current;
    }
  }

  lemma RunsOfPrefix(buf: seq<byte>, b: byte, i: int, j: int, kw: seq<byte>)
    ensures RunHolds(buf + [b], i, j, kw) && j <= |buf| <==> RunHolds(buf, i, j, kw) && (j < |buf| || !Printable(b))
  {
    hide Contains;
    if 0 <= i < j <= |buf| {
      assert (buf + [b])[i..j] == buf[i..j];
    }
    assert forall k :: 0 <= k < |buf| ==> (buf + [b])[k] == buf[k];
  }

  lemma ClosedRunsStep(buf: seq<byte>, b: byte, kw: seq<byte>)
    ensures SomeClosedRunHolds(buf + [b], kw) <==>
            if Printable(b) then SomeClosedRunHolds(buf, kw) else SomeRunHolds(buf, kw)
  {
    hide RunHolds;
    if i, j :| RunHolds(buf + [b], i, j, kw) && j < |buf| + 1 {
      RunsOfPrefix(buf, b, i, j, kw);
    }
    if i, j :| RunHolds(buf, i, j, kw) && (j < |buf| || !Printable(b)) {
      RunsOfPrefix(buf, b, i, j, kw);
    }
  }

  lemma {:induction false} ResultContains(buf: seq<byte>, kw: seq<byte>)
    requires Keyword(kw)
    ensures Contains(LowerAll(ScanOf(buf).result), kw) <==> SomeClosedRunHolds(buf, kw)
    decreases |buf|
  {
    hide Contains, SomeRunHolds, SomeClosedRunHolds, LowerAll, MatchesAt;
    if buf == [] {
      EmptyContainsNothing(kw);
    } else {
      var front, b := buf[..|buf| - 1], buf[|buf| - 1];
      var s := ScanOf(front);
      assert front + [b] == buf;
      ResultContains(front, kw);
      ClosedRunsStep(front, b, kw);
      LastRun(front, kw);
      ScanShape(front);
      if !Printable(b) && |s.current| >= MIN_RUN {
        GluedContains(s.result, s.current, [SPACE], kw);
      }
    }
  }

  lemma EmptyContainsNothing(kw: seq<byte>)
    requires kw != []
    ensures !Contains(LowerAll([]), kw) && !SomeClosedRunHolds([], kw)
  {}

  /** The extracted text contains a keyword exactly when one maximal printable run of six bytes or more does. */
  lemma TextContainsExactly(buf: seq<byte>, kw: seq<byte>)
    requires Keyword(kw)
    ensures Contains(LowerAll(TextOf(buf)), kw) <==> SomeRunHolds(buf, kw)
  {
    hide Contains, SomeRunHolds, SomeClosedRunHolds, ScanOf, LowerAll, MatchesAt;
    var s := ScanOf(buf);
    ResultContains(buf, kw);
    LastRun(buf, kw);
    ScanShape(buf);
    if |s.current| >= MIN_RUN {
      GluedContains(s.result, s.current, [], kw);
      assert s.result + s.current + [] == TextOf(buf);
    }
  }

  // ---------------------------------------------------------------- the same by bytes

  /** The keyword stands at `at`, A to Z of the buffer counting as a to z. */
  predicate SpelledAt(buf: seq<byte>, at: int, kw: seq<byte>) {
    && 0 <= at <= |buf| - |kw|
    && forall i :: 0 <= i < |kw| ==> kw[i] == if 0x41 <= buf[at + i] <= 0x5A then buf[at + i] + 0x20 else buf[at + i]
  }

  /** From `i` to `j` the bytes lie between space and tilde, and those next to them do not. */
  predicate WholeRun(buf: seq<byte>, i: int, j: int) {
    && 0 <= i < j <= |buf|
    && (forall k :: i <= k < j ==> 0x20 <= buf[k] <= 0x7E)
    && (i > 0 ==> !(0x20 <= buf[i - 1] <= 0x7E))
    && (j < |buf| ==> !(0x20 <= buf[j] <= 0x7E))
  }

  predicate SpelledIn(buf: seq<byte>, i: int, j: int, at: int, kw: seq<byte>) {
    WholeRun(buf, i, j) && j - i >= 6 && i <= at && at + |kw| <= j && SpelledAt(buf, at, kw)
  }

  lemma LowerMatches(s: seq<byte>, kw: seq<byte>, at: int)
    ensures MatchesAt(LowerAll(s), kw, at) <==> SpelledAt(s, at, kw)
  {
    var l := LowerAll(s);
    if 0 <= at <= |s| - |kw| {
      assert forall i {:trigger l[at..at + |kw|][i]} :: 0 <= i < |kw| ==> l[at..at + |kw|][i] == Lower(s[at + i]);
    }
  }

  lemma SpelledInSlice(buf: seq<byte>, i: int, j: int, at: int, kw: seq<byte>)
    requires 0 <= i <= j <= |buf| && 0 <= at <= j - i - |kw|
    ensures SpelledAt(buf[i..j], at, kw) <==> SpelledAt(buf, i + at, kw)
  {
    assert forall k :: at <= k < at + |kw| ==> buf[i..j][k] == buf[i + k];
  }

  lemma WholeRunIsMaximal(buf: seq<byte>, i: int, j: int)
    ensures WholeRun(buf, i, j) <==> MaximalRun(buf, i, j)
  {}

  /** A run holds a keyword exactly when its bytes spell it, in either case, within six or more printable bytes. */
  lemma RunsSpellExactly(buf: seq<byte>, kw: seq<byte>)
    ensures SomeRunHolds(buf, kw) <==> exists i, j, at :: SpelledIn(buf, i, j, at, kw)
  {
    hide LowerAll, MatchesAt, SpelledAt, WholeRun, MaximalRun;
    if i, j :| RunHolds(buf, i, j, kw) {
      WholeRunIsMaximal(buf, i, j);
      RunInBuffer(buf, i, j);
      var at :| 0 <= at <= j - i && MatchesAt(LowerAll(buf[i..j]), kw, at);
      LowerMatches(buf[i..j], kw, at);
      SpelledFits(buf[i..j], at, kw);
      SpelledInSlice(buf, i, j, at, kw);
      assert SpelledIn(buf, i, j, i + at, kw);
    }
    if i, j, at :| SpelledIn(buf, i, j, at, kw) {
      WholeRunIsMaximal(buf, i, j);
      RunInBuffer(buf, i, j);
      SpelledInSlice(buf, i, j, at - i, kw);
      LowerMatches(buf[i..j], kw, at - i);
      assert 0 <= at - i <= |LowerAll(buf[i..j])|;
      assert RunHolds(buf, i, j, kw);
    }
  }

  lemma RunInBuffer(buf: seq<byte>, i: int, j: int)
    requires MaximalRun(buf, i, j)
    ensures 0 <= i < j <= |buf| && |LowerAll(buf[i..j])| == j - i
  {}

  lemma SpelledFits(s: seq<byte>, at: int, kw: seq<byte>)
    requires SpelledAt(s, at, kw)
    ensures 0 <= at <= |s| - |kw|
  {}

  lemma LocalhostBytes()
    ensures LOCALHOST == [0x5C, 0x5C, 0x6C, 0x6F, 0x63, 0x61, 0x6C, 0x68, 0x6F, 0x73, 0x74]
  {}

  // ---------------------------------------------------------------- the verdict

  const LOCALHOST: seq<byte> := [BACKSLASH, BACKSLASH] + Ascii("localhost")

  /**
   * A shortcut with a valid header passes exactly when no keyword of the tables, and no network
   * share other than the local host, lies in a printable run. The tables hold no spaces.
   */
  method Analyze(buf: seq<byte>, commands: seq<seq<byte>>, paths: seq<seq<byte>>) returns (passed: bool)
    requires forall kw <- commands + paths :: Keyword(kw)
    ensures passed <==>
            || |buf| < 0x4C || buf[..4] != [0x4C, 0, 0, 0]
            || ((forall kw <- commands + paths :: !SomeRunHolds(buf, kw))
                && (SomeRunHolds(buf, [BACKSLASH, BACKSLASH]) ==> SomeRunHolds(buf, LOCALHOST)))
  {
    hide Contains, SomeRunHolds, TextOf, LowerAll;
    if |buf| < 0x4C || buf[0..4] != [0x4C, 0, 0, 0] {
      return true;
    }
    assert buf[0..4] == buf[..4];
    var text := ExtractStrings(buf);
    var lower := LowerAll(text);
    passed := true;
    for i := 0 to |commands|
      invariant passed <==> forall kw <- commands[..i] :: !SomeRunHolds(buf, kw)
    {
      assert commands[i] in commands + paths && commands[..i + 1] == commands[..i] + [commands[i]];
      TextContainsExactly(buf, commands[i]);
      if Contains(lower, commands[i]) {
        passed := false;
      }
    }
    assert commands[..|commands|] == commands;
    for i := 0 to |paths|
      invariant passed <==> (forall kw <- commands :: !SomeRunHolds(buf, kw)) && (forall kw <- paths[..i] :: !SomeRunHolds(buf, kw))
    {
      assert paths[i] in commands + paths && paths[..i + 1] == paths[..i] + [paths[i]];
      TextContainsExactly(buf, paths[i]);
      if Contains(lower, paths[i]) {
        passed := false;
      }
    }
    assert paths[..|paths|] == paths;
    LocalhostIsKeyword();
    TextContainsExactly(buf, [BACKSLASH, BACKSLASH]);
    TextContainsExactly(buf, LOCALHOST);
    if Contains(lower, [BACKSLASH, BACKSLASH]) && !Contains(lower, LOCALHOST) {
      passed := false;
    }
  }

  lemma LocalhostIsKeyword()
    ensures Keyword(LOCALHOST)
  {
    var a := Ascii("localhost");
    assert forall i :: 0 <= i < |a| ==> a[i] != SPACE;
  }
}
