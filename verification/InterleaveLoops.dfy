/** The bit-by-bit loops that vis/scurve/scurve/graycurve.py and vis/scurve/scurve/zorder.py
    have in common, proved against module Interleave. */
module InterleaveLoops {
  import opened Bits
  import opened BitUtils
  import opened Grid
  import opened Interleave

  /** In which row `a` and column `j` loop round `i` works: the decomposition of i and of the
      position n*m-1-i counted from the other end. */
  lemma LoopPosition(n: nat, m: nat, i: nat, a: nat, j: nat)
    requires i == a * n + j && j < n && i < n * m
    ensures i / n == a < m && i % n == j
    ensures n * m - i - 1 == n * (m - a - 1) + (n - 1 - j)
    ensures (n * m - i - 1) / n == m - a - 1
  {
    RowAndColumn(n, a, j);
    MulOrder(m, a, n);
    Distribute(n, m - a - 1, a);
    RowAndColumn(n, m - a - 1, n - 1 - j);
  }

  lemma Distribute(n: nat, k: nat, a: nat)
    ensures n * (k + a + 1) == n * k + a * n + n
    ensures n * k == k * n
  {
  }

  lemma OrNextBit(a: nat, b: nat, k: nat)
    requires b <= 1
    ensures Or(Shl(a, k + 1), Shl(b, k)) == Shl(2 * a + b, k)
  {
    var x, y := Or(Shl(a, k + 1), Shl(b, k)), Shl(2 * a + b, k);
    forall i: nat
      ensures Bit(x, i) == Bit(y, i)
    {
      if i > k {
        assert Bit(2 * a + b, i - k) == Bit(a, i - k - 1);
        NoHighBits(b, 1, i - k);
      } else if i == k {
        assert Bit(2 * a + b, 0) == (b == 1);
      }
    }
    SameBits(x, y);
  }

  /** The bit that round `i` reads from the interleaved number. */
  lemma ReadBit(z: nat, n: nat, m: nat, i: nat, a: nat, j: nat)
    requires i == a * n + j && j < n && i < n * m && a < m
    ensures BitRange(z, n * m, i, i + 1) == BitVal(Low(DropDigits(z, n, m - a - 1), n), n - 1 - j)
  {
    hide BitRange, Low, DropDigits, BitVal;
    LoopPosition(n, m, i, a, j);
    OneBitRange(z, n * m, i);
    DigitBit(z, n, m - a - 1, n - 1 - j);
  }

  /** Coordinates below column `j` have `k` bits to come, the others one more. */
  ghost predicate Rows(p: seq<nat>, q: seq<nat>, l: nat, j: nat, k: nat) {
    && |p| == |q|
    && (forall x :: 0 <= x < |p| && x < j ==> p[x] == Shl(Refine(q, l)[x], k))
    && (forall x :: j <= x < |p| ==> p[x] == Shl(q[x], k + 1))
  }

  lemma RowsStep(p: seq<nat>, q: seq<nat>, l: nat, j: nat, k: nat, b: nat)
    requires Rows(p, q, l, j, k) && j < |p|
    requires b == BitVal(l, |q| - 1 - j)
    ensures Rows(p[j := Or(p[j], Shl(b, k))], q, l, j + 1, k)
  {
    hide Or, Shl;
    OrNextBit(q[j], b, k);
  }

  lemma RowsWrap(p: seq<nat>, q: seq<nat>, l: nat, l': nat, k: nat)
    requires k > 0 && Rows(p, q, l, |q|, k)
    ensures Rows(p, Refine(q, l), l', 0, k - 1)
  {
  }

  lemma RowsStart(n: nat, l: nat, k: nat)
    ensures Rows(Origin(n), Origin(n), l, 0, k)
  {
    SameBits(Shl(0, k + 1), 0);
  }

  lemma RowsEnd(p: seq<nat>, q: seq<nat>, l: nat)
    requires Rows(p, q, l, |q|, 0)
    ensures p == Refine(q, l)
  {
  }

  /** The digit of `z` that fills row `a`. */
  function Row(z: nat, n: nat, m: nat, a: nat): nat
    requires a < m
  {
    Low(DropDigits(z, n, m - a - 1), n)
  }

  /** Before round `i`, which is at column `j` of row `a`, or at the end of that row. */
  ghost predicate Scattered(p: seq<nat>, q: seq<nat>, n: nat, m: nat, z: nat, i: nat, a: nat, j: nat) {
    && a < m && j <= n && i == a * n + j && |p| == n
    && q == Spread(n, a, DropDigits(z, n, m - a))
    && Rows(p, q, Row(z, n, m, a), j, m - a - 1)
  }

  lemma ScatterStart(n: nat, m: nat, z: nat)
    requires m > 0
    ensures Scattered(Origin(n), Origin(n), n, m, z, 0, 0, 0)
  {
    RowsStart(n, Row(z, n, m, 0), m - 1);
  }

  lemma WrapPosition(n: nat, m: nat, i: nat, a: nat)
    requires n > 0 && i < n * m && i == a * n + n
    ensures a + 1 < m && i == (a + 1) * n
  {
    MulOrder(m, a + 1, n);
  }

  lemma SpreadNext(n: nat, m: nat, z: nat, a: nat)
    requires a < m
    ensures Spread(n, a + 1, DropDigits(z, n, m - a - 1))
         == Refine(Spread(n, a, DropDigits(z, n, m - a)), Row(z, n, m, a))
  {
    hide Refine, Low, Shr, DropDigits;
    DropDigitsStep(z, n, m - a - 1);
  }

  lemma ScatterWrap(p: seq<nat>, q: seq<nat>, n: nat, m: nat, z: nat, i: nat, a: nat)
    requires n > 0 && i < n * m
    requires Scattered(p, q, n, m, z, i, a, n)
    ensures a + 1 < m
    ensures Scattered(p, Refine(q, Row(z, n, m, a)), n, m, z, i, a + 1, 0)
  {
    hide Refine, Low, Shr, Rows, Row, Spread, DropDigits;
    WrapPosition(n, m, i, a);
    SpreadNext(n, m, z, a);
    RowsWrap(p, q, Row(z, n, m, a), Row(z, n, m, a + 1), m - a - 1);
  }

  lemma LastRow(n: nat, m: nat, a: nat, j: nat)
    requires n > 0 && a < m && j <= n
    requires n * m == a * n + j
    ensures a + 1 == m && j == n
  {
    MulOrder(a + 1, m, n);
  }

  lemma ScatterEnd(p: seq<nat>, q: seq<nat>, n: nat, m: nat, z: nat, a: nat, j: nat)
    requires n > 0
    requires Scattered(p, q, n, m, z, n * m, a, j)
    ensures p == Spread(n, m, z)
  {
    hide Refine, Low, Shr, Rows, DropDigits;
    LastRow(n, m, a, j);
    DropDigitsStep(z, n, 0);
    assert Spread(n, m, z) == Refine(Spread(n, m - 1, DropDigits(z, n, 1)), Low(z, n));
    RowsEnd(p, q, Row(z, n, m, a));
  }

  lemma ScatterStep(p: seq<nat>, q: seq<nat>, n: nat, m: nat, z: nat, i: nat, a: nat, j: nat, b: nat)
    requires i < n * m && j < n
    requires Scattered(p, q, n, m, z, i, a, j)
    requires b == BitRange(z, n * m, i, i + 1)
    ensures a < m && i % n == j && (n * m - i - 1) / n == m - a - 1
    ensures Scattered(p[j := Or(p[j], Shl(b, m - a - 1))], q, n, m, z, i + 1, a, j + 1)
  {
    hide Refine, Low, Shr, Rows, Or, Shl, BitRange;
    LoopPosition(n, m, i, a, j);
    ReadBit(z, n, m, i, a, j);
    RowsStep(p, q, Row(z, n, m, a), j, m - a - 1, b);
  }

  lemma SpreadNone(n: nat, z: nat)
    ensures Spread(n, 0, z) == Origin(n)
    ensures n * 0 == 0
  {
  }

  /** Distributes the bits of `idx` over the coordinates, most significant bit first. */
  method Scatter(dimension: nat, bits: nat, idx: nat) returns (p: seq<nat>)
    requires dimension > 0
    ensures p == Spread(dimension, bits, idx)
  {
    hide Spread, Refine, Row, Pow2, Scattered, Or, Shl, BitRange;
    p := Origin(dimension);
    SpreadNone(dimension, idx);
    var iwidth := dimension * bits;
    ghost var a: nat, j: nat, q := 0, 0, p;
    if bits > 0 {
      ScatterStart(dimension, bits, idx);
    }
    for i := 0 to iwidth
      invariant |p| == dimension && j <= dimension && (bits == 0 ==> p == Origin(dimension))
      invariant bits > 0 ==> Scattered(p, q, dimension, bits, idx, i, a, j)
    {
      if j == dimension {
        ScatterWrap(p, q, dimension, bits, idx, i, a);
        q := Refine(q, Row(idx, dimension, bits, a));
        a, j := a + 1, 0;
      }
      assert j < dimension;
      var b := BitRange(idx, iwidth, i, i + 1);
      ScatterStep(p, q, dimension, bits, idx, i, a, j, b);
      p := p[i % dimension := Or(p[i % dimension], Shl(b, (iwidth - i - 1) / dimension))];
      j := j + 1;
    }
    if bits > 0 {
      ScatterEnd(p, q, dimension, bits, idx, a, j);
    }
  }

  /** Gathers the bits of the coordinates into one number, least significant bit first. */
  method Gather(dimension: nat, bits: nat, p: seq<nat>) returns (idx: nat)
    requires dimension > 0 && |p| == dimension
    ensures idx == Collect(dimension, bits, p)
  {
    hide Collect, Or, Shl, BitRange, BitVal, Low, Width, Pow2;
    idx := 0;
    ghost var c := Collect(dimension, bits, p);
    var iwidth := dimension * bits;
    WidthIs(dimension, bits);
    LowEnds(c, iwidth);
    for i := 0 to iwidth
      invariant idx == Low(c, i)
    {
      GatherBit(dimension, bits, p, i);
      var bitoff := bits - i / dimension - 1;
      var poff := dimension - i % dimension - 1;
      var b := BitRange(p[poff], bits, bitoff, bitoff + 1);
      OrBit(idx, c, i, b);
      idx := Or(idx, Shl(b, i));
    }
    CollectRange(dimension, bits, p);
  }

  lemma GatherBit(n: nat, m: nat, p: seq<nat>, i: nat)
    requires n > 0 && |p| == n && i < n * m
    ensures i / n < m && i % n < n
    ensures BitRange(p[n - i % n - 1], m, m - i / n - 1, m - i / n) == BitVal(Collect(n, m, p), i)
  {
    hide BitRange, Collect;
    var a, j := i / n, i % n;
    assert i == a * n + j;
    MulOrder(m, a, n);
    OneBitRange(p[n - j - 1], m, m - a - 1);
    CollectBit(n, m, p, a, j);
  }
}
