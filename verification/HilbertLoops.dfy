/** The loops of vis/scurve/scurve/hilbert.py, proved against the curve of module Hilbert. */
module HilbertLoops {
  import opened Bits
  import opened BitUtils
  import opened Grid
  import opened Hilbert

  /** Writing bit `b` below the leading bits `a` of a coordinate of `w` bits. */
  lemma SetNextBit(a: nat, w: nat, i: nat, b: nat)
    requires i < w && b in [1, 0]
    ensures SetBit(Shl(a, w - i), w, i, b) == Shl(2 * a + b, w - i - 1)
  {
    var x, y := SetBit(Shl(a, w - i), w, i, b), Shl(2 * a + b, w - i - 1);
    forall k: nat
      ensures Bit(x, k) == Bit(y, k)
    {
      var c := w - i - 1;
      if k > c {
        assert Bit(2 * a + b, k - c) == Bit(a, k - c - 1);
      } else if k == c {
        assert Bit(2 * a + b, 0) == (b == 1);
      }
    }
    SameBits(x, y);
  }

  lemma DigitPlace(n: nat, order: nat, i: nat)
    requires i < order
    ensures i * n + n <= order * n
    ensures order * n - (i * n + n) == n * (order - i - 1)
  {
    MulOrder(i, order, n);
    var k := order - i - 1;
    assert order * n == (k + i + 1) * n == k * n + i * n + n;
  }

  /** The digit read in round `i` of the loop. */
  lemma DigitField(h: nat, n: nat, order: nat, i: nat)
    requires i < order
    ensures 0 <= i * n <= i * n + n <= order * n
    ensures BitRange(h, order * n, i * n, i * n + n) == Low(DropDigits(h, n, order - i - 1), n)
  {
    hide Shr, Low, BitRange, Width;
    DigitPlace(n, order, i);
    WidthIs(n, order - i - 1);
  }

  /** The points of the loop: the leading bits of every coordinate, at their final place. */
  ghost predicate Leading(p: seq<nat>, q: seq<nat>, k: nat) {
    |p| == |q| && forall j :: 0 <= j < |p| ==> p[j] == Shl(q[j], k)
  }

  method PutCorner(p: seq<nat>, order: nat, i: nat, l: nat, ghost q: seq<nat>) returns (r: seq<nat>)
    requires i < order
    requires Leading(p, q, order - i)
    ensures Leading(r, Refine(q, l), order - i - 1)
  {
    hide SetBit, Shl, BitRange, Refine;
    r := p;
    for j := 0 to |p|
      invariant |r| == |p|
      invariant forall x :: 0 <= x < j ==> r[x] == Shl(Refine(q, l)[x], order - i - 1)
      invariant forall x :: j <= x < |p| ==> r[x] == p[x]
    {
      OneBitRange(l, |p|, j);
      var b := BitRange(l, |p|, j, j + 1);
      SetNextBit(q[j], order, i, b);
      r := r[j := SetBit(r[j], order, i, b)];
    }
  }

  lemma LeadingOrigin(n: nat, k: nat)
    ensures Leading(Origin(n), Origin(n), k)
  {
    SameBits(Shl(0, k), 0);
  }

  method HilbertPoint(dimension: nat, order: nat, h: nat) returns (p: seq<nat>)
    requires dimension > 0
    ensures p == Point(dimension, START, order, h)
  {
    hide Xor, LRot, Direction, Entry, GrayCode, DropDigits, Refine, Low, Shr, Leading;
    var hwidth := order * dimension;
    var e: nat, d: nat := 0, 0;
    p := Origin(dimension);
    LeadingOrigin(dimension, order);
    ghost var q := p;
    for i := 0 to order
      invariant Valid(State(e, d), dimension)
      invariant State(e, d) == Walk(dimension, START, i, DropDigits(h, dimension, order - i))
      invariant q == Point(dimension, START, i, DropDigits(h, dimension, order - i))
      invariant Leading(p, q, order - i)
    {
      DigitField(h, dimension, order, i);
      DropDigitsStep(h, dimension, order - i - 1);
      var w := BitRange(h, hwidth, i * dimension, i * dimension + dimension);
      ghost var s := State(e, d);
      ghost var t := Next(dimension, s, w);
      GrayRange(w, dimension);
      var l := GrayCode(w);
      l := ITransform(e, d, dimension, l);
      assert l == Cell(dimension, s, w);
      p := PutCorner(p, order, i, l, q);
      q := Refine(q, l);
      EntryRange(w, dimension);
      e := Xor(e, LRot(Entry(w), d + 1, dimension));
      d := (d + Direction(w, dimension) + 1) % dimension;
      assert State(e, d) == t;
    }
    DropDigitsStep(h, dimension, 0);
    LeadingZero(p, q);
  }

  lemma LeadingZero(p: seq<nat>, q: seq<nat>)
    requires Leading(p, q, 0)
    ensures p == q
  {
  }

  lemma CornerBit(p: seq<nat>, k: nat, x: nat)
    requires x < |p|
    ensures Bit(Corner(Coarsen(p, k)), x) == Bit(p[|p| - x - 1], k)
  {
    var y := Shr(p[|p| - x - 1], k);
    assert Bit(y, 0) == Bit(p[|p| - x - 1], k);
    assert Coarsen(p, k)[|p| - 1 - x] == y;
  }

  /** Collecting the bits of round `i` gives the corner of the coarsened point. */
  method GetCorner(p: seq<nat>, order: nat, i: nat) returns (l: nat)
    requires i < order
    ensures l == Corner(Coarsen(p, order - i - 1))
  {
    hide Corner, Coarsen, Or, Shl, Low, BitRange;
    var n := |p|;
    ghost var c := Corner(Coarsen(p, order - i - 1));
    l := 0;
    LowEnds(c, n);
    for x := 0 to n
      invariant l == Low(c, x)
    {
      OneBitRange(p[n - x - 1], order, i);
      var b := BitRange(p[n - x - 1], order, i, i + 1);
      CornerBit(p, order - i - 1, x);
      OrBit(l, c, x, b);
      l := Or(l, Shl(b, x));
    }
  }

  method HilbertIndex(dimension: nat, order: nat, p: seq<nat>) returns (h: nat)
    requires dimension > 0 && |p| == dimension
    ensures h == Locate(dimension, START, order, p).0
  {
    hide Xor, LRot, Direction, Entry, GrayInverse, Transform, Shl, Or, Coarsen, Corner, Halves;
    h := 0;
    var e: nat, d: nat := 0, 0;
    for i := 0 to order
      invariant Valid(State(e, d), dimension)
      invariant (h, State(e, d)) == Locate(dimension, START, i, Coarsen(p, order - i))
    {
      ghost var s := State(e, d);
      ghost var c := Coarsen(p, order - i - 1);
      CoarsenHalves(p, order - i - 1);
      var l := GetCorner(p, order, i);
      ghost var w' := Digit(dimension, s, l);
      ghost var t := Next(dimension, s, w');
      l := Transform(e, d, dimension, l);
      var w := IGrayCode(l);
      assert w == w';
      EntryRange(w, dimension);
      e := Xor(e, LRot(Entry(w), d + 1, dimension));
      d := (d + Direction(w, dimension) + 1) % dimension;
      assert State(e, d) == t;
      h := Or(Shl(h, dimension), w);
      assert Locate(dimension, START, i + 1, c) == (h, t);
    }
    CoarsenHalves(p, 0);
  }
}
