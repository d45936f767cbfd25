/** Bytes, fixed-width integers and ASCII text shared by the models. */
module Bytes {

  type byte = x: int | 0 <= x < 256

  const U32_LIMIT: int := 0x1_0000_0000

  function Zeros(n: nat): (z: seq<byte>)
    ensures |z| == n && forall i :: 0 <= i < n ==> z[i] == 0
  {
    seq(n, _ => 0)
  }

  /** Little-endian bytes of a 32-bit value. */
  function LeBytes(n: int): (b: seq<byte>)
    requires 0 <= n < U32_LIMIT
    ensures |b| == 4
  {
    [n % 256, n / 0x100 % 256, n / 0x1_0000 % 256, n / 0x100_0000]
  }

  function LeValue(b: seq<byte>): (n: int)
    requires |b| == 4
    ensures 0 <= n < U32_LIMIT
  {
    var d: seq<int> := b;
    d[0] + 0x100 * d[1] + 0x1_0000 * d[2] + 0x100_0000 * d[3]
  }

  /** Big-endian bytes of a 32-bit value. */
  function BeBytes(n: int): (b: seq<byte>)
    requires 0 <= n < U32_LIMIT
    ensures |b| == 4
  {
    var b := LeBytes(n);
    [b[3], b[2], b[1], b[0]]
  }

  function BeValue(b: seq<byte>): (n: int)
    requires |b| == 4
    ensures 0 <= n < U32_LIMIT
  {
    LeValue([b[3], b[2], b[1], b[0]])
  }

  lemma LeRoundTrip(n: int)
    requires 0 <= n < U32_LIMIT
    ensures LeValue(LeBytes(n)) == n
  {
    var a := n / 0x100;
    var b := a / 0x100;
    assert n / 0x1_0000 == b && n / 0x100_0000 == b / 0x100;
    assert n == n % 256 + 0x100 * a && a == a % 256 + 0x100 * b;
  }

  lemma BeRoundTrip(n: int)
    requires 0 <= n < U32_LIMIT
    ensures BeValue(BeBytes(n)) == n
  {
    LeRoundTrip(n);
    var b, e := LeBytes(n), BeBytes(n);
    assert [e[3], e[2], e[1], e[0]] == b;
  }

  /** ASCII lower case of one byte. */
  function Lower(b: byte): byte {
    if 0x41 <= b <= 0x5A then b + 32 else b
  }

  function LowerAll(s: seq<byte>): (r: seq<byte>)
    ensures |r| == |s| && forall i :: 0 <= i < |s| ==> r[i] == Lower(s[i])
  {
    seq(|s|, i requires 0 <= i < |s| => Lower(s[i]))
  }

  /** The bytes of an ASCII string. */
  function Ascii(s: string): (r: seq<byte>)
    ensures |r| == |s|
  {
    seq(|s|, i requires 0 <= i < |s| => if s[i] as int < 256 then s[i] as int else 0x3F)
  }

  /** `needle` occurs in `hay` as a contiguous block. */
  predicate Contains<T(==)>(hay: seq<T>, needle: seq<T>) {
    exists i :: 0 <= i <= |hay| && MatchesAt(hay, needle, i)
  }

  predicate MatchesAt<T(==)>(hay: seq<T>, needle: seq<T>, i: int) {
    0 <= i <= |hay| - |needle| && hay[i..i + |needle|] == needle
  }

  lemma Occurrence<T>(hay: seq<T>, needle: seq<T>) returns (i: int)
    requires Contains(hay, needle)
    ensures 0 <= i <= |hay| - |needle| && hay[i..i + |needle|] == needle && MatchesAt(hay, needle, i)
  {
    i :| 0 <= i <= |hay| && MatchesAt(hay, needle, i);
  }

  lemma SliceOfSlice<T>(s: seq<T>, a: nat, b: nat, c: nat, d: nat)
    requires a <= b <= |s| && c <= d <= b - a
    ensures s[a..b][c..d] == s[a + c..a + d]
  {
    var l, r := s[a..b][c..d], s[a + c..a + d];
    forall k | 0 <= k < d - c
      ensures l[k] == r[k]
    {
    }
  }
}
