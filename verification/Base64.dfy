/** Base64 with the standard alphabet and canonical padding, as in section 4 of RFC 4648. */
module Base64 {
  import opened Bytes
  import opened Wrappers

  const PAD: byte := 0x3D

  type sextet = v: int | 0 <= v < 64

  function Symbol(v: sextet): (c: byte)
    ensures c != PAD
  {
    if v < 26 then 0x41 + v
    else if v < 52 then 0x61 + v - 26
    else if v < 62 then 0x30 + v - 52
    else if v == 62 then 0x2B else 0x2F
  }

  function Value(c: byte): Option<sextet> {
    if 0x41 <= c <= 0x5A then Some(c - 0x41)
    else if 0x61 <= c <= 0x7A then Some(c - 0x61 + 26)
    else if 0x30 <= c <= 0x39 then Some(c - 0x30 + 52)
    else if c == 0x2B then Some(62)
    else if c == 0x2F then Some(63)
    else None
  }

  lemma SymbolValue(v: sextet)
    ensures Value(Symbol(v)) == Some(v)
  {}

  lemma ValueSymbol(c: byte)
    requires Value(c).Some?
    ensures Symbol(Value(c).value) == c
  {}

  /** The four sextets of three bytes. */
  function Split3(a: byte, b: byte, c: byte): (s: seq<sextet>)
    ensures |s| == 4
  {
    [a / 4, a % 4 * 16 + b / 16, b % 16 * 4 + c / 64, c % 64]
  }

  function Join3(s0: sextet, s1: sextet, s2: sextet, s3: sextet): (b: seq<byte>)
    ensures |b| == 3
  {
    [s0 * 4 + s1 / 16, s1 % 16 * 16 + s2 / 4, s2 % 4 * 64 + s3]
  }

  lemma SplitJoin(a: byte, b: byte, c: byte)
    ensures var s := Split3(a, b, c); Join3(s[0], s[1], s[2], s[3]) == [a, b, c]
  {}

  /** The two parts of a byte or sextet come apart again. */
  lemma Parts4(high: int, low: int)
    requires 0 <= low < 4
    ensures (high * 4 + low) / 4 == high && (high * 4 + low) % 4 == low
  {}

  lemma Parts16(high: int, low: int)
    requires 0 <= low < 16
    ensures (high * 16 + low) / 16 == high && (high * 16 + low) % 16 == low
  {}

  lemma Parts64(high: int, low: int)
    requires 0 <= low < 64
    ensures (high * 64 + low) / 64 == high && (high * 64 + low) % 64 == low
  {}

  lemma JoinSplit(s0: sextet, s1: sextet, s2: sextet, s3: sextet)
    ensures var j := Join3(s0, s1, s2, s3); Split3(j[0], j[1], j[2]) == [s0, s1, s2, s3]
  {
    Parts4(s0, s1 / 16);
    Parts16(s1 % 16, s2 / 4);
    Parts64(s2 % 4, s3);
    Halves(s1, 16);
    Halves(s2, 4);
  }

  lemma Halves(n: int, d: int)
    requires d == 4 || d == 16
    ensures n / d * d + n % d == n
  {}

  /** The four characters of the next up to three bytes. */
  function Quad(x: seq<byte>): (q: seq<byte>)
    requires 0 < |x|
    ensures |q| == 4
  {
    if |x| == 1 then
      var s := Split3(x[0], 0, 0);
      [Symbol(s[0]), Symbol(s[1]), PAD, PAD]
    else if |x| == 2 then
      var s := Split3(x[0], x[1], 0);
      [Symbol(s[0]), Symbol(s[1]), Symbol(s[2]), PAD]
    else
      var s := Split3(x[0], x[1], x[2]);
      [Symbol(s[0]), Symbol(s[1]), Symbol(s[2]), Symbol(s[3])]
  }

  function Encode(x: seq<byte>): seq<byte>
    decreases |x|
  {
    if x == [] then []
    else if |x| <= 3 then Quad(x)
    else Quad(x) + Encode(x[3..])
  }

  /** Strict: padding only in the last quad, always there, and the unused bits zero. */
  function DecodeQuad(q: seq<byte>, last: bool): Option<seq<byte>>
    requires |q| == 4
  {
    var s0, s1 := Value(q[0]), Value(q[1]);
    if s0.None? || s1.None? then None
    else if last && q[3] == PAD && q[2] == PAD then
      if s1.value % 16 == 0 then Some(Join3(s0.value, s1.value, 0, 0)[..1]) else None
    else
      var s2 := Value(q[2]);
      if s2.None? then None
      else if last && q[3] == PAD then
        if s2.value % 4 == 0 then Some(Join3(s0.value, s1.value, s2.value, 0)[..2]) else None
      else
        var s3 := Value(q[3]);
        if s3.None? then None else Some(Join3(s0.value, s1.value, s2.value, s3.value))
  }

  function Decode(s: seq<byte>): Option<seq<byte>>
    decreases |s|
  {
    if s == [] then Some([])
    else if |s| < 4 then None
    else if |s| == 4 then DecodeQuad(s, true)
    else
      var head, tail := DecodeQuad(s[..4], false), Decode(s[4..]);
      if head.None? || tail.None? then None else Some(head.value + tail.value)
  }

  lemma QuadRoundTrip(x: seq<byte>)
    requires 0 < |x|
    ensures |x| <= 3 ==> DecodeQuad(Quad(x), true) == Some(x)
    ensures |x| > 3 ==> DecodeQuad(Quad(x), false) == Some(x[..3])
  {
    hide Symbol, Value, Split3, Join3;
    var a, b, c := x[0], if |x| > 1 then x[1] else 0, if |x| > 2 then x[2] else 0;
    SplitJoin(a, b, c);
    TailOfTwo(a, b);
    TailOfOne(a);
    var s := Split3(a, b, c);
    SymbolValue(s[0]);
    SymbolValue(s[1]);
    SymbolValue(s[2]);
    SymbolValue(s[3]);
    if |x| == 1 {
      assert x == [a, b, c][..1];
    } else if |x| == 2 {
      assert x == [a, b, c][..2];
    } else {
      assert x[..3] == [a, b, c];
      if |x| == 3 {
        assert x == x[..3];
      }
    }
  }

  lemma TailOfTwo(a: byte, b: byte)
    ensures Split3(a, b, 0)[2] % 4 == 0 && Split3(a, b, 0)[3] == 0
  {}

  lemma TailOfOne(a: byte)
    ensures Split3(a, 0, 0)[1] % 16 == 0 && Split3(a, 0, 0)[2] == 0
  {}

  /** Decoding undoes encoding. */
  lemma {:induction false} RoundTrip(x: seq<byte>)
    ensures Decode(Encode(x)) == Some(x)
    decreases |x|
  {
    hide DecodeQuad, Quad;
    if x != [] {
      QuadRoundTrip(x);
      if |x| > 3 {
        var q, rest := Quad(x), Encode(x[3..]);
        RoundTrip(x[3..]);
        EncodedLength(x[3..]);
        assert (q + rest)[..4] == q && (q + rest)[4..] == rest;
        assert x[..3] + x[3..] == x;
      }
    }
  }

  lemma {:induction false} EncodedLength(x: seq<byte>)
    ensures |Encode(x)| == (|x| + 2) / 3 * 4
    decreases |x|
  {
    hide Quad;
    if |x| > 3 {
      EncodedLength(x[3..]);
    }
  }

  lemma QuadCanonical(q: seq<byte>, last: bool)
    requires |q| == 4 && DecodeQuad(q, last).Some?
    ensures var x := DecodeQuad(q, last).value;
            0 < |x| <= 3 && (!last ==> |x| == 3) && Quad(x) == q
  {
    hide Symbol, Value, Split3, Join3;
    assert forall v: sextet :: Value(Symbol(v)) == Some(v) && Symbol(v) != PAD by {
      forall v: sextet { SymbolValue(v); }
    }
    assert forall c: byte :: Value(c).Some? ==> Symbol(Value(c).value) == c by {
      forall c: byte | Value(c).Some? { ValueSymbol(c); }
    }
    var s0, s1 := Value(q[0]).value, Value(q[1]).value;
    if last && q[3] == PAD && q[2] == PAD {
      JoinSplit(s0, s1, 0, 0);
      JoinTail(s0, s1, 0);
    } else if last && q[3] == PAD {
      JoinSplit(s0, s1, Value(q[2]).value, 0);
      JoinTail(s0, s1, Value(q[2]).value);
    } else {
      JoinSplit(s0, s1, Value(q[2]).value, Value(q[3]).value);
    }
  }

  lemma JoinTail(s0: sextet, s1: sextet, s2: sextet)
    ensures s2 % 4 == 0 ==> Join3(s0, s1, s2, 0)[2] == 0
    ensures s2 == 0 && s1 % 16 == 0 ==> Join3(s0, s1, s2, 0)[1] == 0 && Join3(s0, s1, s2, 0)[2] == 0
  {}

  /** Every byte string has one accepted spelling: decoding is injective. */
  lemma {:induction false} Canonical(s: seq<byte>)
    requires Decode(s).Some?
    ensures Encode(Decode(s).value) == s
    decreases |s|
  {
    hide DecodeQuad, Quad;
    if |s| == 4 {
      QuadCanonical(s, true);
    } else if |s| > 4 {
      QuadCanonical(s[..4], false);
      Canonical(s[4..]);
      var head, tail := DecodeQuad(s[..4], false).value, Decode(s[4..]).value;
      var x := head + tail;
      assert x[3..] == tail && s == s[..4] + s[4..];
      assert tail != [];
      QuadPrefix(head, x);
    }
  }

  lemma QuadPrefix(head: seq<byte>, x: seq<byte>)
    requires |head| == 3 && |x| > 3 && x[..3] == head
    ensures Quad(x) == Quad(head)
  {
    assert x[0] == head[0] && x[1] == head[1] && x[2] == head[2];
  }

  // ---------------------------------------------------------------- the letters

  /** Table 1 of section 4: capitals, small letters, digits, plus and slash. */
  function Letter(v: sextet): char {
    if v < 26 then 'A' + v as char
    else if v < 52 then 'a' + (v - 26) as char
    else if v < 62 then '0' + (v - 52) as char
    else if v == 62 then '+' else '/'
  }

  /** The `k`-th group of three bytes as a number of 24 bits, zeros after the end. */
  function Bits(x: seq<int>, k: nat): int
    requires 3 * k < |x|
  {
    x[3 * k] * 0x1_0000 + (if 3 * k + 1 < |x| then x[3 * k + 1] * 0x100 else 0) + (if 3 * k + 2 < |x| then x[3 * k + 2] else 0)
  }

  /** The `j`-th group of six bits of a number of 24, from the highest. */
  function Six(n: int, j: nat): (v: int)
    requires j < 4
    ensures 0 <= v < 64
  {
    if j == 0 then n / 0x4_0000 % 64 else if j == 1 then n / 0x1000 % 64 else if j == 2 then n / 64 % 64 else n % 64
  }

  lemma SymbolIsLetter(v: sextet)
    ensures Symbol(v) == Letter(v) as int
  {}

  lemma SplitIsSix(a: byte, b: byte, c: byte, j: nat)
    requires j < 4
    ensures Six(a as int * 0x1_0000 + b as int * 0x100 + c, j) == Split3(a, b, c)[j]
  {
    hide Six;
    Halves(a, 4);
    Halves(b, 16);
    Halves64(c);
    SixOf(a / 4, a % 4, b / 16, b % 16, c / 64, c % 64, j);
  }

  lemma Halves64(n: int)
    ensures n / 64 * 64 + n % 64 == n
  {}

  /** The six parts of three bytes, put together again two by two. */
  lemma SixOf(a1: int, a0: int, b1: int, b0: int, c1: int, c0: int, j: nat)
    requires 0 <= a1 < 64 && 0 <= a0 < 4 && 0 <= b1 < 16 && 0 <= b0 < 16 && 0 <= c1 < 4 && 0 <= c0 < 64 && j < 4
    ensures Six((a1 * 4 + a0) * 0x1_0000 + (b1 * 16 + b0) * 0x100 + c1 * 64 + c0, j) == [a1, a0 * 16 + b1, b0 * 4 + c1, c0][j]
  {
    var n := (a1 * 4 + a0) * 0x1_0000 + (b1 * 16 + b0) * 0x100 + c1 * 64 + c0;
    var q2 := a1 * 0x1000 + (a0 * 16 + b1) * 64 + b0 * 4 + c1;
    var q1 := a1 * 64 + a0 * 16 + b1;
    if j == 0 {
      Quotient(n, 0x4_0000, a1, a0 * 0x1_0000 + (b1 * 16 + b0) * 0x100 + c1 * 64 + c0);
    } else if j == 1 {
      Quotient(n, 0x1000, q1, b0 * 0x100 + c1 * 64 + c0);
    } else if j == 2 {
      Quotient(n, 64, q2, c0);
    }
  }

  lemma Quotient(n: int, d: int, q: int, r: int)
    requires d == 64 || d == 0x1000 || d == 0x4_0000
    requires n == q * d + r && 0 <= r < d
    ensures n / d == q
  {}

  lemma QuadLetters(x: seq<byte>, j: nat)
    requires 0 < |x| && j < 4
    ensures Quad(x)[j] == if j <= |x| then Letter(Six(Bits(x, 0), j)) as int else 0x3D
  {
    hide Six, Split3, Symbol;
    var a, b, c := x[0], if |x| > 1 then x[1] else 0, if |x| > 2 then x[2] else 0;
    SplitIsSix(a, b, c, j);
    SymbolIsLetter(Split3(a, b, c)[j]);
    assert Bits(x, 0) == a as int * 0x1_0000 + b as int * 0x100 + c;
  }

  /** Every character of an encoding, by the table of section 4: a letter for six bits, or padding where no byte reaches. */
  lemma {:induction false} EncodedLetters(x: seq<byte>, k: nat, j: nat)
    requires 3 * k < |x| && j < 4
    ensures 4 * k + j < |Encode(x)|
    ensures Encode(x)[4 * k + j] ==
            if j <= |x| - 3 * k then Letter(Six(Bits(x, k), j)) as int else 0x3D
    decreases |x|
  {
    hide Six, Quad;
    QuadLetters(x, j);
    if k > 0 {
      EncodedLetters(x[3..], k - 1, j);
      assert Bits(x[3..], k - 1) == Bits(x, k);
    }
  }

  /** Only alphabet and padding characters are ever written; in particular they are ASCII and not `|`. */
  predicate Printable(c: byte) { c == PAD || Value(c).Some? }

  lemma QuadPrintable(x: seq<byte>)
    requires x != []
    ensures forall c <- Quad(x) :: Printable(c)
  {}

  lemma {:induction false} EncodedPrintable(x: seq<byte>)
    ensures forall c <- Encode(x) :: Printable(c)
    decreases |x|
  {
    if x != [] {
      QuadPrintable(x);
      hide Quad, Printable;
      if |x| > 3 {
        EncodedPrintable(x[3..]);
      }
    }
  }
}
