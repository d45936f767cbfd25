/** Shannon entropy of the bytes of a section, over the reals. */
module Entropy {
  import opened Bytes

  /** How often each byte value occurs. */
  function Freqs(data: seq<byte>): (f: seq<nat>)
    ensures |f| == 256
    decreases |data|
  {
    if data == [] then seq(256, _ => 0)
    else
      var f, b := Freqs(data[..|data| - 1]), data[|data| - 1];
      f[b := f[b] + 1]
  }

  function Total(f: seq<nat>): nat
    decreases |f|
  {
    if f == [] then 0 else Total(f[..|f| - 1]) + f[|f| - 1]
  }

  function Share(c: nat, len: nat): real
    requires len > 0
  {
    c as real / len as real
  }

  /** One byte value's part of the entropy. */
  function Term(c: nat, len: nat, lg: real -> real): real
    requires len > 0
  {
    if c == 0 then 0.0
    else
      -Share(c, len) * lg(Share(c, len))
  }

  function Sum(f: seq<nat>, len: nat, lg: real -> real): real
    requires len > 0
    decreases |f|
  {
    if f == [] then 0.0 else Sum(f[..|f| - 1], len, lg) + Term(f[|f| - 1], len, lg)
  }

  function EntropyOf(data: seq<byte>, lg: real -> real): real {
    if data == [] then 0.0 else Sum(Freqs(data), |data|, lg)
  }

  /** What is used of the binary logarithm: its product law, its unit, and a line above it that touches it at 1. */
  ghost predicate IsLog2(lg: real -> real, slope: real) {
    && lg(2.0) == 1.0
    && (forall x, y :: x > 0.0 && y > 0.0 ==> lg(x * y) == lg(x) + lg(y))
    && (forall x :: x > 0.0 ==> lg(x) <= slope * (x - 1.0))
  }

  method ComputeEntropy(data: seq<byte>, lg: real -> real) returns (h: real)
    ensures h == EntropyOf(data, lg)
  {
    hide Term;
    if data == [] {
      return 0.0;
    }
    var freq := new nat[256](_ => 0);
    for i := 0 to |data|
      invariant freq[..] == Freqs(data[..i])
    {
      assert data[..i + 1][..i] == data[..i];
      freq[data[i]] := freq[data[i]] + 1;
    }
    assert data[..|data|] == data;
    h := 0.0;
    for v := 0 to 256
      invariant h == Sum(freq[..][..v], |data|, lg)
    {
      assert freq[..][..v + 1][..v] == freq[..][..v];
      h := h + Term(freq[v], |data|, lg);
    }
    assert freq[..][..256] == freq[..];
  }

  // ---------------------------------------------------------------- the table

  /** The table holds the multiplicity of every byte value. */
  lemma {:induction false} FreqsCount(data: seq<byte>, v: byte)
    ensures Freqs(data)[v] == multiset(data)[v]
    decreases |data|
  {
    if data != [] {
      var n := |data| - 1;
      FreqsCount(data[..n], v);
      assert data == data[..n] + [data[n]];
    }
  }

  lemma {:induction false} TotalOfZeros(n: nat)
    ensures Total(seq(n, _ => 0)) == 0
  {
    if n > 0 {
      TotalOfZeros(n - 1);
      assert seq(n, _ => 0)[..n - 1] == seq<nat>(n - 1, _ => 0);
    }
  }

  lemma {:induction false} TotalOfUpdate(f: seq<nat>, i: nat)
    requires i < |f|
    ensures Total(f[i := f[i] + 1]) == Total(f) + 1
    decreases |f|
  {
    var n, g := |f| - 1, f[i := f[i] + 1];
    if i < n {
      TotalOfUpdate(f[..n], i);
      assert g[..n] == f[..n][i := f[i] + 1];
    } else {
      assert g[..n] == f[..n];
    }
  }

  /** Every byte is counted once. */
  lemma {:induction false} TableSumsToLength(data: seq<byte>)
    ensures Total(Freqs(data)) == |data|
    decreases |data|
  {
    if data == [] {
      TotalOfZeros(256);
      assert Freqs([]) == seq(256, _ => 0);
    } else {
      TableSumsToLength(data[..|data| - 1]);
      TotalOfUpdate(Freqs(data[..|data| - 1]), data[|data| - 1]);
    }
  }

  // ---------------------------------------------------------------- the bounds

  lemma LogFacts(lg: real -> real, slope: real)
    requires IsLog2(lg, slope)
    ensures lg(1.0) == 0.0 && lg(256.0) == 8.0 && slope >= 1.0
  {
    assert lg(1.0 * 1.0) == lg(1.0) + lg(1.0);
    assert lg(2.0 * 2.0) == 2.0;
    assert lg(4.0 * 4.0) == 4.0;
    assert lg(16.0 * 16.0) == 8.0;
    assert lg(2.0) <= slope * (2.0 - 1.0);
  }

  lemma ScaleByPositive(p: real, a: real, b: real)
    requires p > 0.0 && a <= b
    ensures p * a <= p * b
  {}

  lemma Reciprocal(p: real) returns (q: real)
    requires p > 0.0
    ensures q > 0.0 && 256.0 * p * q == 1.0 && p * q == 1.0 / 256.0
  {
    q := 1.0 / (256.0 * p);
    assert 256.0 * p * q == 1.0;
  }

  /** The line above the logarithm, taken at q = 1 / (256 p). */
  lemma NegatedLog(p: real, q: real, lg: real -> real, slope: real)
    requires IsLog2(lg, slope) && p > 0.0 && q > 0.0 && 256.0 * p * q == 1.0
    ensures -lg(p) <= 8.0 + slope * (q - 1.0)
  {
    LogFacts(lg, slope);
    assert lg(256.0 * p) == lg(256.0) + lg(p);
    assert lg(256.0 * p * q) == lg(256.0 * p) + lg(q);
  }

  lemma Rearranged(p: real, q: real, slope: real)
    requires p * q == 1.0 / 256.0
    ensures p * (8.0 + slope * (q - 1.0)) == 8.0 * p + slope * (1.0 / 256.0 - p)
  {
    assert p * (slope * (q - 1.0)) == slope * (p * (q - 1.0));
    assert p * (q - 1.0) == p * q - p;
  }

  /** One term of Gibbs' inequality. */
  lemma TermBounds(p: real, lg: real -> real, slope: real)
    requires IsLog2(lg, slope) && 0.0 < p <= 1.0
    ensures 0.0 <= -p * lg(p) <= 8.0 * p + slope * (1.0 / 256.0 - p)
  {
    hide IsLog2;
    var q := Reciprocal(p);
    NegatedLog(p, q, lg, slope);
    Below1(p, lg, slope);
    var l := lg(p);
    ScaleByPositive(p, -l, 8.0 + slope * (q - 1.0));
    Rearranged(p, q, slope);
    ScaleByPositive(p, 0.0, -l);
    assert p * -l == -p * l;
  }

  lemma Below1(p: real, lg: real -> real, slope: real)
    requires IsLog2(lg, slope) && 0.0 < p <= 1.0
    ensures lg(p) <= 0.0
  {
    LogFacts(lg, slope);
    assert lg(p) <= slope * (p - 1.0);
  }

  lemma ShareInRange(c: nat, len: nat)
    requires 0 < c <= len
    ensures 0.0 < Share(c, len) <= 1.0
  {
    Quotient(c as real, len as real);
  }

  lemma Quotient(a: real, b: real)
    requires 0.0 < a <= b
    ensures 0.0 < a / b <= 1.0
  {
    assert a / b * b == a;
  }

  /** The bound for one more cell of the table. */
  lemma StepBound(slope: real, share: real, p: real, cells: real, sum: real, term: real)
    requires slope >= 1.0 && sum <= 8.0 * share + slope * (cells - share)
    requires term <= 8.0 * p + slope * (1.0 / 256.0 - p)
    ensures sum + term <= 8.0 * (share + p) + slope * (cells + 1.0 / 256.0 - (share + p))
  {
    assert slope * (cells - share) + slope * (1.0 / 256.0 - p) == slope * (cells + 1.0 / 256.0 - (share + p));
  }

  lemma ShareSum(a: nat, b: nat, len: nat)
    requires len > 0
    ensures Share(a + b, len) == Share(a, len) + Share(b, len)
  {}

  lemma CellBounds(c: nat, len: nat, lg: real -> real, slope: real)
    requires IsLog2(lg, slope) && c <= len && len > 0
    ensures 0.0 <= Term(c, len, lg) <= 8.0 * Share(c, len) + slope * (1.0 / 256.0 - Share(c, len))
  {
    hide IsLog2;
    LogFacts(lg, slope);
    if c > 0 {
      ShareInRange(c, len);
      TermBounds(Share(c, len), lg, slope);
    } else {
      ShareSum(0, 0, len);
    }
  }

  lemma {:induction false} SumBounds(f: seq<nat>, len: nat, lg: real -> real, slope: real)
    requires IsLog2(lg, slope) && len > 0 && Total(f) <= len
    ensures 0.0 <= Sum(f, len, lg) <= 8.0 * Share(Total(f), len) + slope * (Share(|f|, 256) - Share(Total(f), len))
    decreases |f|
  {
    hide IsLog2, Term, Share;
    LogFacts(lg, slope);
    if f == [] {
      assert Share(0, len) == 0.0 && Share(0, 256) == 0.0 by { ShareSum(0, 0, len); ShareSum(0, 0, 256); }
    } else {
      var n := |f| - 1;
      SumBounds(f[..n], len, lg, slope);
      CellBounds(f[n], len, lg, slope);
      ShareSum(Total(f[..n]), f[n], len);
      ShareSum(n, 1, 256);
      OneCell();
      StepBound(slope, Share(Total(f[..n]), len), Share(f[n], len), Share(n, 256), Sum(f[..n], len, lg), Term(f[n], len, lg));
    }
  }

  lemma OneCell()
    ensures Share(1, 256) == 1.0 / 256.0
  {}

  lemma WholeShare(n: nat)
    requires n > 0
    ensures Share(n, n) == 1.0
  {}

  /** The entropy of every slice lies between 0 and 8. */
  lemma EntropyBounds(data: seq<byte>, lg: real -> real, slope: real)
    requires IsLog2(lg, slope)
    ensures 0.0 <= EntropyOf(data, lg) <= 8.0
  {
    hide IsLog2, Share, Freqs, Total, Sum;
    if data != [] {
      TableSumsToLength(data);
      SumBounds(Freqs(data), |data|, lg, slope);
      WholeShare(|data|);
      WholeShare(256);
    }
  }

  lemma {:induction false} SumOfEqualCells(f: seq<nat>, k: nat, len: nat, lg: real -> real)
    requires len > 0 && forall v :: 0 <= v < |f| ==> f[v] == k
    ensures Sum(f, len, lg) == |f| as real * Term(k, len, lg)
    decreases |f|
  {
    hide Term;
    if f != [] {
      SumOfEqualCells(f[..|f| - 1], k, len, lg);
    }
  }

  /** The upper bound is attained: by every slice in which all byte values occur equally often. */
  lemma UniformSliceAttainsBound(data: seq<byte>, k: nat, lg: real -> real, slope: real)
    requires IsLog2(lg, slope) && k > 0 && forall v: byte :: multiset(data)[v] == k
    ensures EntropyOf(data, lg) == 8.0
  {
    var f := Freqs(data);
    forall v | 0 <= v < 256
      ensures f[v] == k
    {
      FreqsCount(data, v);
    }
    assert multiset(data)[0] == k;
    TableSumsToLength(data);
    TotalOfEqualCells(f, k);
    SumOfEqualCells(f, k, 256 * k, lg);
    UniformTerm(k, lg, slope);
  }

  lemma {:induction false} TotalOfEqualCells(f: seq<nat>, k: nat)
    requires forall v :: 0 <= v < |f| ==> f[v] == k
    ensures Total(f) == |f| * k
    decreases |f|
  {
    if f != [] {
      TotalOfEqualCells(f[..|f| - 1], k);
    }
  }

  lemma UniformTerm(k: nat, lg: real -> real, slope: real)
    requires IsLog2(lg, slope) && k > 0
    ensures Term(k, 256 * k, lg) == 8.0 / 256.0
  {
    LogFacts(lg, slope);
    UniformShare(k as real);
    assert (256 * k) as real == 256.0 * k as real;
    assert lg(256.0 * (1.0 / 256.0)) == lg(256.0) + lg(1.0 / 256.0);
    hide IsLog2;
  }

  lemma UniformShare(x: real)
    requires x > 0.0
    ensures x / (256.0 * x) == 1.0 / 256.0
  {
    assert 1.0 / 256.0 * (256.0 * x) == x;
  }
}
