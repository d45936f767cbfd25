/** The well-formedness test for text on the disk against the definition of UTF-8 in section 3 of RFC 3629. */
module Utf8Laws {
  import opened Bytes
  import opened SignedBlock

  /** A character number; those of the surrogate pairs are none. */
  predicate Scalar(n: int) { 0 <= n < 0xD800 || 0xE000 <= n <= 0x10FFFF }

  /** One to four bytes, six bits in each but the first. */
  function Utf8Of(n: int): (s: seq<byte>)
    requires Scalar(n)
    ensures 1 <= |s| <= 4
  {
    if n < 0x80 then [n]
    else if n < 0x800 then [0xC0 + n / 64, 0x80 + n % 64]
    else if n < 0x1_0000 then [0xE0 + n / 0x1000, 0x80 + n / 64 % 64, 0x80 + n % 64]
    else [0xF0 + n / 0x4_0000, 0x80 + n / 0x1000 % 64, 0x80 + n / 64 % 64, 0x80 + n % 64]
  }

  function Encoded(ns: seq<int>): seq<byte>
    requires forall n <- ns :: Scalar(n)
  {
    if ns == [] then [] else Utf8Of(ns[0]) + Encoded(ns[1..])
  }

  ghost predicate IsEncoded(s: Text) {
    exists ns :: (forall n <- ns :: Scalar(n)) && s == Encoded(ns)
  }

  /** The test takes one character off the front. */
  lemma FrontIsTaken(n: int, rest: Text)
    requires Scalar(n)
    ensures Utf8(Utf8Of(n) + rest) <==> Utf8(rest)
  {
    var s := Utf8Of(n) + rest;
    assert s[|Utf8Of(n)|..] == rest;
    FrontBytes(n);
    assert forall i :: 0 <= i < |Utf8Of(n)| ==> s[i] == Utf8Of(n)[i];
  }

  lemma FrontBytes(n: int)
    requires Scalar(n)
    ensures var e := Utf8Of(n);
            && (|e| == 1 ==> e[0] < 0x80)
            && (|e| == 2 ==> 0xC2 <= e[0] <= 0xDF && 0x80 <= e[1] <= 0xBF)
            && (|e| == 3 ==>
                  && 0xE0 <= e[0] <= 0xEF && 0x80 <= e[1] <= 0xBF && 0x80 <= e[2] <= 0xBF
                  && (e[0] == 0xE0 ==> e[1] >= 0xA0) && (e[0] == 0xED ==> e[1] <= 0x9F))
            && (|e| == 4 ==>
                  && 0xF0 <= e[0] <= 0xF4 && 0x80 <= e[1] <= 0xBF && 0x80 <= e[2] <= 0xBF && 0x80 <= e[3] <= 0xBF
                  && (e[0] == 0xF0 ==> e[1] >= 0x90) && (e[0] == 0xF4 ==> e[1] <= 0x8F))
  {}

  /** A text that passes starts with the encoding of a character, and the rest passes. */
  lemma FrontOf(s: Text) returns (n: int)
    requires s != [] && Utf8(s)
    ensures Scalar(n) && Utf8Of(n) <= s && Utf8(s[|Utf8Of(n)|..])
  {
    if s[0] < 0x80 {
      n := s[0];
      assert Utf8Of(n) == s[..1];
    } else if s[0] <= 0xDF {
      n := Two(s[0], s[1]);
      assert Utf8Of(n) == s[..2];
    } else if s[0] <= 0xEF {
      n := Three(s[0], s[1], s[2]);
      assert Utf8Of(n) == s[..3];
    } else {
      n := Four(s[0], s[1], s[2], s[3]);
      assert Utf8Of(n) == s[..4];
    }
  }

  lemma Two(a: byte, b: byte) returns (n: int)
    requires 0xC2 <= a <= 0xDF && 0x80 <= b <= 0xBF
    ensures Scalar(n) && Utf8Of(n) == [a, b]
  {
    n := (a - 0xC0) * 64 + (b - 0x80);
  }

  lemma Three(a: byte, b: byte, c: byte) returns (n: int)
    requires 0xE0 <= a <= 0xEF && 0x80 <= b <= 0xBF && 0x80 <= c <= 0xBF
    requires (a == 0xE0 ==> b >= 0xA0) && (a == 0xED ==> b <= 0x9F)
    ensures Scalar(n) && Utf8Of(n) == [a, b, c]
  {
    n := (a - 0xE0) * 0x1000 + (b - 0x80) * 64 + (c - 0x80);
    Digits((a - 0xE0) * 64 + (b - 0x80), c - 0x80);
    Digits(a - 0xE0, b - 0x80);
  }

  lemma Four(a: byte, b: byte, c: byte, d: byte) returns (n: int)
    requires 0xF0 <= a <= 0xF4 && 0x80 <= b <= 0xBF && 0x80 <= c <= 0xBF && 0x80 <= d <= 0xBF
    requires (a == 0xF0 ==> b >= 0x90) && (a == 0xF4 ==> b <= 0x8F)
    ensures Scalar(n) && Utf8Of(n) == [a, b, c, d]
  {
    n := (a - 0xF0) * 0x4_0000 + (b - 0x80) * 0x1000 + (c - 0x80) * 64 + (d - 0x80);
    var high := (a - 0xF0) * 64 + (b - 0x80);
    Digits(high * 64 + (c - 0x80), d - 0x80);
    Digits(high, c - 0x80);
    Digits(a - 0xF0, b - 0x80);
  }

  lemma Digits(high: int, low: int)
    requires high >= 0 && 0 <= low < 64
    ensures (high * 64 + low) / 64 == high && (high * 64 + low) % 64 == low
  {}

  /** The test accepts exactly the texts that encode a sequence of characters. */
  lemma {:induction false} Utf8Exactly(s: Text)
    ensures Utf8(s) <==> IsEncoded(s)
    decreases |s|
  {
    hide Utf8, Utf8Of, Scalar;
    if s == [] {
      Nothing();
    } else {
      if Utf8(s) {
        var n := FrontOf(s);
        var rest := s[|Utf8Of(n)|..];
        Utf8Exactly(rest);
        var ns :| (forall n <- ns :: Scalar(n)) && rest == Encoded(ns);
        assert ([n] + ns)[1..] == ns;
        assert s == Encoded([n] + ns);
      }
      if ns :| (forall n <- ns :: Scalar(n)) && s == Encoded(ns) {
        assert ns[0] in ns;
        Utf8Exactly(Encoded(ns[1..]));
        FrontIsTaken(ns[0], Encoded(ns[1..]));
      }
    }
  }

  lemma Nothing()
    ensures Utf8([]) && IsEncoded([])
  {
    assert [] == Encoded([]);
  }
}
