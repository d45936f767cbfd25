/** Counting keywords in the raw bytes of a PDF file. */
module Occurrences {
  import opened Bytes
  import opened Lists

  /** Positions, in order, at which the needle occurs without two of them sharing a byte. */
  ghost predicate Packing(hay: seq<byte>, needle: seq<byte>, at: seq<int>) {
    && (forall k :: 0 <= k < |at| ==> MatchesAt(hay, needle, at[k]))
    && (forall k :: 0 <= k < |at| - 1 ==> at[k] + |needle| <= at[k + 1])
  }

  /** The first window from `start` on that equals the needle. */
  method Position(hay: seq<byte>, needle: seq<byte>, start: nat) returns (found: bool, pos: nat)
    requires start <= |hay|
    ensures found ==> pos >= start && MatchesAt(hay, needle, pos)
    ensures forall i :: start <= i < (if found then pos else |hay| + 1) ==> !MatchesAt(hay, needle, i)
  {
    pos := start;
    while pos + |needle| <= |hay|
      invariant start <= pos
      invariant forall i :: start <= i < pos ==> !MatchesAt(hay, needle, i)
    {
      if hay[pos..pos + |needle|] == needle {
        return true, pos;
      }
      pos := pos + 1;
    }
    found := false;
  }

  /** The greedy count is the largest number of occurrences that fit side by side. */
  method CountOccurrences(hay: seq<byte>, needle: seq<byte>) returns (count: nat)
    ensures needle == [] ==> count == 0
    ensures needle != [] ==> exists at :: Packing(hay, needle, at) && |at| == count
    ensures needle != [] ==> forall at :: Packing(hay, needle, at) ==> |at| <= count
    ensures needle != [] ==> (count > 0 <==> Contains(hay, needle))
  {
    count := 0;
    if needle == [] {
      return;
    }
    var start := 0;
    ghost var greedy: seq<int> := [];
    while true
      invariant start <= |hay|
      invariant |greedy| == count && Packing(hay, needle, greedy)
      invariant count > 0 ==> greedy[count - 1] + |needle| == start
      invariant forall at :: Packing(hay, needle, at) && |at| > count ==> at[count] >= start
      decreases |hay| - start
    {
      var found, pos := Position(hay, needle, start);
      if !found {
        break;
      }
      count, start := count + 1, pos + |needle|;
      greedy := greedy + [pos];
    }
    if Contains(hay, needle) {
      var i :| MatchesAt(hay, needle, i);
      assert Packing(hay, needle, [i]);
    }
    if count > 0 {
      assert MatchesAt(hay, needle, greedy[0]);
    }
  }

  ghost function OccursIn(buf: seq<byte>): seq<byte> -> bool {
    kw => Contains(buf, kw)
  }

  /**
   * The findings are exactly the keywords that occur, in the order of the tables, and the file
   * passes exactly when no blocking one does.
   */
  method Analyze(buf: seq<byte>, blocking: seq<seq<byte>>, info: seq<seq<byte>>)
    returns (passed: bool, blockingFindings: seq<seq<byte>>, infoFindings: seq<seq<byte>>)
    requires forall kw <- blocking + info :: kw != []
    ensures blockingFindings == Filter(OccursIn(buf), blocking)
    ensures infoFindings == Filter(OccursIn(buf), info)
    ensures passed <==> forall kw <- blocking :: !Contains(buf, kw)
  {
    hide Contains, Filter;
    passed, blockingFindings, infoFindings := true, [], [];
    FilterNothing(OccursIn(buf));
    for i := 0 to |blocking|
      invariant blockingFindings == Filter(OccursIn(buf), blocking[..i])
      invariant passed <==> blockingFindings == []
    {
      FilterNext(OccursIn(buf), blocking, i);
      assert blocking[i] in blocking + info;
      var n := CountOccurrences(buf, blocking[i]);
      if n > 0 {
        blockingFindings := blockingFindings + [blocking[i]];
        passed := false;
      }
    }
    assert blocking[..|blocking|] == blocking;
    for i := 0 to |info|
      invariant infoFindings == Filter(OccursIn(buf), info[..i])
    {
      FilterNext(OccursIn(buf), info, i);
      assert info[i] in blocking + info;
      var n := CountOccurrences(buf, info[i]);
      if n > 0 {
        infoFindings := infoFindings + [info[i]];
      }
    }
    assert info[..|info|] == info;
    FilterMembers(OccursIn(buf), blocking);
    if blockingFindings != [] {
      assert blockingFindings[0] in blockingFindings;
    }
  }
}
