/** vis/scurve/scurve/hilbert.py: the Hilbert curve of any dimension and order.
    The curve runs a state machine over the n-bit digits of an index, most significant digit
    first. The specification functions recurse on the last digit, so that the state in which
    a digit is read is the state reached on the digits before it. */
module Hilbert {
  import opened Bits
  import opened BitUtils
  import opened Grid

  /** Entry corner `e` and direction `d` of the sub-cube being traversed. */
  datatype State = State(e: nat, d: nat)

  predicate Valid(s: State, n: nat) {
    s.e < Pow2(n) && s.d < n
  }

  const START := State(0, 0)

  // ----- The state machine -----

  function Transform(entry: nat, direction: nat, width: nat, x: nat): nat
    requires width > 0 && x < Pow2(width) && entry < Pow2(width)
  {
    XorRange(x, entry, width);
    RRot(Xor(x, entry), direction + 1, width)
  }

  function ITransform(entry: nat, direction: nat, width: nat, x: nat): nat
    requires width > 0 && x < Pow2(width) && entry < Pow2(width)
  {
    Xor(LRot(x, direction + 1, width), entry)
  }

  function Direction(x: nat, n: nat): (d: nat)
    requires n > 0 && x < Pow2(n)
    ensures d < n
  {
    if x == 0 then 0
    else if x % 2 == 0 then TrailingSetBits(x - 1) % n
    else TrailingSetBits(x) % n
  }

  function Entry(x: nat): nat {
    if x == 0 then 0 else GrayCode(2 * ((x - 1) / 2))
  }

  lemma EntryRange(x: nat, n: nat)
    requires x < Pow2(n)
    ensures Entry(x) < Pow2(n)
  {
    if x > 0 {
      GrayRange(2 * ((x - 1) / 2), n);
    }
  }

  /** The state after reading digit `w`. */
  function Next(n: nat, s: State, w: nat): (t: State)
    requires n > 0 && Valid(s, n) && w < Pow2(n)
    ensures Valid(t, n)
  {
    EntryRange(w, n);
    XorRange(s.e, LRot(Entry(w), s.d + 1, n), n);
    State(Xor(s.e, LRot(Entry(w), s.d + 1, n)), (s.d + Direction(w, n) + 1) % n)
  }

  /** The corner visited for digit `w`. */
  function Cell(n: nat, s: State, w: nat): (l: nat)
    requires n > 0 && Valid(s, n) && w < Pow2(n)
    ensures l < Pow2(n)
  {
    GrayRange(w, n);
    XorRange(LRot(GrayCode(w), s.d + 1, n), s.e, n);
    ITransform(s.e, s.d, n, GrayCode(w))
  }

  /** The digit for which corner `l` is visited. */
  function Digit(n: nat, s: State, l: nat): (w: nat)
    requires n > 0 && Valid(s, n) && l < Pow2(n)
    ensures w < Pow2(n)
  {
    XorRange(l, s.e, n);
    GrayInverseRange(Transform(s.e, s.d, n, l), n);
    GrayInverse(Transform(s.e, s.d, n, l))
  }

  /** transform and itransform are inverse, on all entries, directions and widths. */
  lemma TransformRoundTrip(e: nat, d: nat, n: nat, x: nat)
    requires n > 0 && x < Pow2(n) && e < Pow2(n)
    ensures ITransform(e, d, n, x) < Pow2(n) && Transform(e, d, n, ITransform(e, d, n, x)) == x
    ensures Transform(e, d, n, x) < Pow2(n) && ITransform(e, d, n, Transform(e, d, n, x)) == x
  {
    XorRange(LRot(x, d + 1, n), e, n);
    XorCancel(LRot(x, d + 1, n), e);
    RotRoundTrip(x, d + 1, n);
    XorRange(x, e, n);
    XorCancel(x, e);
    RotRoundTrip(Xor(x, e), d + 1, n);
  }

  lemma DigitOfCell(n: nat, s: State, w: nat)
    requires n > 0 && Valid(s, n) && w < Pow2(n)
    ensures Digit(n, s, Cell(n, s, w)) == w
  {
    GrayRange(w, n);
    TransformRoundTrip(s.e, s.d, n, GrayCode(w));
    GrayRoundTrip(w);
  }

  lemma CellOfDigit(n: nat, s: State, l: nat)
    requires n > 0 && Valid(s, n) && l < Pow2(n)
    ensures Cell(n, s, Digit(n, s, l)) == l
  {
    TransformRoundTrip(s.e, s.d, n, l);
    GrayRoundTrip(Transform(s.e, s.d, n, l));
  }

  // ----- The curve -----

  /** The state after the last `m` digits of `h`, started in `s`. */
  function Walk(n: nat, s: State, m: nat, h: nat): (t: State)
    requires n > 0 && Valid(s, n)
    ensures Valid(t, n)
  {
    if m == 0 then s else Next(n, Walk(n, s, m - 1, Shr(h, n)), Low(h, n))
  }

  /** The point of a run of order `m`, started in `s`, at index `h`. */
  function Point(n: nat, s: State, m: nat, h: nat): (p: seq<nat>)
    requires n > 0 && Valid(s, n)
    ensures |p| == n
  {
    if m == 0 then Origin(n) else
      Refine(Point(n, s, m - 1, Shr(h, n)), Cell(n, Walk(n, s, m - 1, Shr(h, n)), Low(h, n)))
  }

  /** The index of a point and the state reached there. */
  function Locate(n: nat, s: State, m: nat, p: seq<nat>): (r: (nat, State))
    requires n > 0 && Valid(s, n) && |p| == n
    ensures Valid(r.1, n)
  {
    if m == 0 then (0, s) else
      var (h, t) := Locate(n, s, m - 1, Halves(p));
      var w := Digit(n, t, Corner(p));
      (Or(Shl(h, n), w), Next(n, t, w))
  }

  lemma {:induction false} PointInCube(n: nat, s: State, m: nat, h: nat)
    requires n > 0 && Valid(s, n)
    ensures InCube(Point(n, s, m, h), n, m)
  {
    hide Cell, Walk;
    if m > 0 {
      var q := Point(n, s, m - 1, Shr(h, n));
      PointInCube(n, s, m - 1, Shr(h, n));
      forall j | 0 <= j < n
        ensures Point(n, s, m, h)[j] < Pow2(m)
      {
        assert q[j] < Pow2(m - 1);
      }
    }
  }

  /** hilbert_index undoes hilbert_point, and passes through the same states. */
  lemma {:induction false} IndexOfPoint(n: nat, s: State, m: nat, h: nat)
    requires n > 0 && Valid(s, n)
    requires h < Pow2(Width(n, m))
    ensures Locate(n, s, m, Point(n, s, m, h)) == (h, Walk(n, s, m, h))
  {
    hide Digit, Cell, Next, Corner, Halves, Refine, Shr, Low, Or, Shl;
    if m == 0 {
      assert Pow2(Width(n, m)) == 1;
    } else {
      var g, w := Shr(h, n), Low(h, n);
      DigitRange(n, m, h);
      IndexOfPoint(n, s, m - 1, g);
      var q, t := Point(n, s, m - 1, g), Walk(n, s, m - 1, g);
      HalvesOfRefine(q, Cell(n, t, w));
      CornerOfRefine(q, Cell(n, t, w));
      DigitOfCell(n, t, w);
      GlueParts(h, n);
    }
  }

  lemma {:induction false} IndexRange(n: nat, s: State, m: nat, p: seq<nat>)
    requires n > 0 && Valid(s, n) && |p| == n
    ensures Locate(n, s, m, p).0 < Pow2(Width(n, m))
  {
    hide Digit, Next, Corner, Halves, Shl, Or;
    if m == 0 {
    } else {
      IndexRange(n, s, m - 1, Halves(p));
      var r := Locate(n, s, m - 1, Halves(p));
      Glue(r.0, Digit(n, r.1, Corner(p)), n);
      DigitRange(n, m, Locate(n, s, m, p).0);
    }
  }

  /** hilbert_point undoes hilbert_index, on every point of the cube. */
  lemma {:induction false} PointOfIndex(n: nat, s: State, m: nat, p: seq<nat>)
    requires n > 0 && Valid(s, n)
    requires InCube(p, n, m)
    ensures Point(n, s, m, Locate(n, s, m, p).0) == p
    ensures Walk(n, s, m, Locate(n, s, m, p).0) == Locate(n, s, m, p).1
  {
    hide InCube, Digit, Cell, Next, Corner, Halves, Refine, Shr, Low, Or, Shl;
    if m == 0 {
      OnlyOrigin(p, n);
    } else {
      var r := Locate(n, s, m - 1, Halves(p));
      HalvesInCube(p, n, m);
      PointOfIndex(n, s, m - 1, Halves(p));
      Glue(r.0, Digit(n, r.1, Corner(p)), n);
      CellOfDigit(n, r.1, Corner(p));
      RefineWhole(p);
    }
  }

  // ----- Unit steps -----

  /** The corner at which a run from state `s` ends. */
  function Exit(s: State): nat {
    Xor(s.e, Pow2(s.d))
  }

  lemma DirectionIs(w: nat, n: nat)
    requires n > 0 && 0 < w < Pow2(n)
    ensures w % 2 == 0 ==> Direction(w, n) == TrailingSetBits(w - 1)
    ensures w % 2 == 1 && w < Pow2(n) - 1 ==> Direction(w, n) == TrailingSetBits(w)
    ensures w == Pow2(n) - 1 ==> w % 2 == 1 && Direction(w, n) == 0
  {
    hide TrailingSetBits;
    TrailingSetBitsRange(w, n);
    TrailingSetBitsRange(w - 1, n);
    SmallMod(TrailingSetBits(w), n);
    SmallMod(TrailingSetBits(w - 1), n);
    assert Pow2(n) == 2 * Pow2(n - 1);
  }

  lemma EntryStepEven(w: nat, n: nat)
    requires n > 0 && 0 < w < Pow2(n) - 1 && w % 2 == 0
    ensures Xor(Xor(Entry(w), Pow2(Direction(w, n))), Entry(w + 1)) == 1
    ensures Entry(w + 1) == GrayCode(w)
  {
    hide GrayCode, Direction, Xor, Bit;
    DirectionIs(w, n);
    GrayStep(w - 2);
    GrayStep(w - 1);
    Telescope(GrayCode(w - 2), GrayCode(w - 1), GrayCode(w));
  }

  lemma EntryStepOdd(w: nat, n: nat)
    requires n > 0 && w < Pow2(n) - 1 && w % 2 == 1
    ensures Xor(Xor(Entry(w), Pow2(Direction(w, n))), Entry(w + 1)) == Pow2(TrailingSetBits(w))
    ensures Entry(w + 1) == GrayCode(w - 1)
  {
    hide GrayCode, Direction, Xor, TrailingSetBits;
    DirectionIs(w, n);
    Telescope(GrayCode(w - 1), GrayCode(w - 1), Pow2(TrailingSetBits(w)));
  }

  lemma Telescope(a: nat, b: nat, c: nat)
    ensures Xor(Xor(a, Xor(b, c)), c) == Xor(a, b)
    ensures Xor(Xor(a, c), b) == Xor(c, Xor(a, b))
    ensures a == b ==> Xor(Xor(a, c), b) == c
  {
    SameBits(Xor(Xor(a, Xor(b, c)), c), Xor(a, b));
    SameBits(Xor(Xor(a, c), b), Xor(c, Xor(a, b)));
    if a == b {
      SameBits(Xor(Xor(a, c), a), c);
    }
  }

  lemma OddGrayBit(w: nat)
    requires w % 2 == 1
    ensures Bit(GrayCode(w - 1), TrailingSetBits(w)) == Bit(GrayCode(w), TrailingSetBits(w))
  {
  }

  /** Leaving sub-cube `w` and entering sub-cube `w + 1` crosses the face between them. */
  lemma EntryStep(w: nat, n: nat)
    requires n > 0 && w < Pow2(n) - 1
    ensures Xor(Xor(Entry(w), Pow2(Direction(w, n))), Entry(w + 1)) == Pow2(TrailingSetBits(w))
    ensures Bit(Entry(w + 1), TrailingSetBits(w)) == Bit(GrayCode(w), TrailingSetBits(w))
  {
    if w == 0 {
      assert GrayCode(0) == Xor(0, 0) == 0;
      Telescope(0, 0, 1);
    } else {
      hide GrayCode, Xor, Entry, Direction;
      if w % 2 == 0 {
        EntryStepEven(w, n);
      } else {
        EntryStepOdd(w, n);
        OddGrayBit(w);
      }
    }
  }

  /** The last sub-cube is left through the far end of the direction of the whole run. */
  lemma LastExit(n: nat)
    requires n > 0
    ensures GrayCode(Pow2(n) - 1) == Pow2(n - 1)
    ensures Xor(Entry(Pow2(n) - 1), Pow2(Direction(Pow2(n) - 1, n))) == Pow2(n - 1)
  {
    hide GrayCode, Direction, Xor, Bit;
    var w := Pow2(n) - 1;
    assert Pow2(n) == 2 * Pow2(n - 1);
    DirectionIs(w, n);
    GrayOfOnes(n);
    GrayStep(w - 1);
    assert TrailingSetBits(w - 1) == 0;
    XorCancel(GrayCode(w), GrayCode(w - 1));
  }

  lemma TurnAdds(d: nat, k: nat, n: nat)
    requires d < n && k < n
    ensures (d + k + 1) % n == Turn(k, (d + 1) % n, n)
  {
    SmallMod(d + 1, n);
    if d + k + 1 >= n {
      ModOnce(d + k + 1, n);
    } else {
      SmallMod(d + k + 1, n);
    }
  }

  /** Where a run ends after its last digit: the exit corner in terms of the entry table. */
  lemma ExitOfNext(n: nat, s: State, w: nat)
    requires n > 0 && Valid(s, n) && w < Pow2(n)
    ensures Xor(Entry(w), Pow2(Direction(w, n))) < Pow2(n)
    ensures Exit(Next(n, s, w)) == Xor(s.e, LRot(Xor(Entry(w), Pow2(Direction(w, n))), s.d + 1, n))
  {
    hide LRot, Direction, Entry, Turn, Xor, Pow2, Bit;
    var k := Direction(w, n);
    EntryRange(w, n);
    LRotPow(k, s.d + 1, n);
    LRotXor(Entry(w), Pow2(k), s.d + 1, n);
    TurnAdds(s.d, k, n);
    XorAssoc(s.e, LRot(Entry(w), s.d + 1, n), LRot(Pow2(k), s.d + 1, n));
  }

  /** The bit in which the corners of sub-cubes `w` and `w + 1` differ. */
  function StepBit(n: nat, s: State, w: nat): (t: nat)
    requires n > 0 && Valid(s, n) && w < Pow2(n) - 1
    ensures t < n
  {
    TrailingSetBitsRange(w, n);
    Turn(TrailingSetBits(w), (s.d + 1) % n, n)
  }

  lemma XorRearrange(a: nat, b: nat, e: nat)
    ensures Xor(Xor(a, e), Xor(b, e)) == Xor(a, b)
    ensures Xor(Xor(e, a), Xor(e, b)) == Xor(a, b)
  {
    SameBits(Xor(Xor(a, e), Xor(b, e)), Xor(a, b));
    SameBits(Xor(Xor(e, a), Xor(e, b)), Xor(a, b));
  }

  lemma CellStep(n: nat, s: State, w: nat)
    requires n > 0 && Valid(s, n) && w < Pow2(n) - 1
    ensures Xor(Cell(n, s, w), Cell(n, s, w + 1)) == Pow2(StepBit(n, s, w))
  {
    hide Xor, LRot, GrayCode, TrailingSetBits, Turn;
    var a, b := GrayCode(w), GrayCode(w + 1);
    GrayRange(w, n);
    GrayRange(w + 1, n);
    GrayStep(w);
    TrailingSetBitsRange(w, n);
    LRotXor(a, b, s.d + 1, n);
    LRotPow(TrailingSetBits(w), s.d + 1, n);
    XorRearrange(LRot(a, s.d + 1, n), LRot(b, s.d + 1, n), s.e);
  }

  /** The exit of sub-cube `w` touches the entry of sub-cube `w + 1`. */
  lemma FaceStep(n: nat, s: State, w: nat)
    requires n > 0 && Valid(s, n) && w < Pow2(n) - 1
    ensures Xor(Exit(Next(n, s, w)), Next(n, s, w + 1).e) == Pow2(StepBit(n, s, w))
  {
    hide Xor, LRot, GrayCode, TrailingSetBits, Turn, Direction, Entry, Exit;
    EntryStep(w, n);
    EntryRange(w + 1, n);
    ExitOfNext(n, s, w);
    TrailingSetBitsRange(w, n);
    var x, y := Xor(Entry(w), Pow2(Direction(w, n))), Entry(w + 1);
    LRotXor(x, y, s.d + 1, n);
    LRotPow(TrailingSetBits(w), s.d + 1, n);
    XorRearrange(LRot(x, s.d + 1, n), LRot(y, s.d + 1, n), s.e);
  }

  /** Sub-cube `w + 1` is entered on the side facing sub-cube `w`. */
  lemma EntrySide(n: nat, s: State, w: nat)
    requires n > 0 && Valid(s, n) && w < Pow2(n) - 1
    ensures Bit(Next(n, s, w + 1).e, StepBit(n, s, w)) == Bit(Cell(n, s, w), StepBit(n, s, w))
  {
    hide GrayCode, TrailingSetBits, Direction, Entry, Bit, RotateLeft;
    var k, r := TrailingSetBits(w), (s.d + 1) % n;
    TrailingSetBitsRange(w, n);
    EntryStep(w, n);
    EntryRange(w + 1, n);
    GrayRange(w, n);
    var t := StepBit(n, s, w);
    assert Unturn(t, r, n) == k;
    assert Bit(RotateLeft(Entry(w + 1), r, n), t) == Bit(Entry(w + 1), k);
    assert Bit(RotateLeft(GrayCode(w), r, n), t) == Bit(GrayCode(w), k);
  }

  lemma FirstCell(n: nat, s: State)
    requires n > 0 && Valid(s, n)
    ensures Cell(n, s, 0) == s.e
    ensures Next(n, s, 0).e == s.e
  {
    hide LRot, Xor, Bit;
    GrayOfZero();
    RotatedZero(s.d + 1, n);
    XorZero(s.e);
  }

  lemma GrayOfZero()
    ensures GrayCode(0) == 0
  {
    XorZero(0);
  }

  lemma RotatedZero(i: nat, n: nat)
    requires n > 0
    ensures LRot(0, i, n) == 0
  {
    var zero := LRot(0, i, n);
    assert forall k: nat {:trigger Bit(zero, k)} | k < n :: !Bit(zero, k);
    SameLowBits(zero, 0, n);
  }

  lemma LastCell(n: nat, s: State)
    requires n > 0 && Valid(s, n)
    ensures Cell(n, s, Pow2(n) - 1) == Exit(s)
    ensures Exit(Next(n, s, Pow2(n) - 1)) == Exit(s)
  {
    hide LRot, GrayCode, Entry, Direction, Next, Xor, Pow2, Bit;
    LastExit(n);
    PowRange(n - 1, n);
    LRotPow(n - 1, s.d + 1, n);
    SmallMod(s.d + 1, n);
    XorSwap(Pow2(s.d), s.e);
    ExitOfNext(n, s, Pow2(n) - 1);
  }

  /** The run invariant: consecutive indices give points one unit apart in a coordinate `c`,
      and the exit corner of the first cell touches the entry corner of the second across it. */
  ghost predicate Linked(n: nat, p: seq<nat>, s: State, q: seq<nat>, t: State, c: nat) {
    && StepAt(p, q, c) && |p| == n
    && Xor(Exit(s), t.e) == Pow2(n - 1 - c)
    && (Bit(t.e, n - 1 - c) <==> q[c] < p[c])
  }

  lemma LinkedWithin(n: nat, q: seq<nat>, s: State, w: nat)
    requires n > 0 && Valid(s, n) && w < Pow2(n) - 1 && |q| == n
    ensures Linked(n, Refine(q, Cell(n, s, w)), Next(n, s, w),
                   Refine(q, Cell(n, s, w + 1)), Next(n, s, w + 1), n - 1 - StepBit(n, s, w))
  {
    hide Cell, Next, Exit, StepBit, Refine, StepAt, Xor, Bit;
    CellStep(n, s, w);
    FaceStep(n, s, w);
    EntrySide(n, s, w);
    RefineFlip(q, Cell(n, s, w), Cell(n, s, w + 1), StepBit(n, s, w));
  }

  lemma LinkedAcross(n: nat, p: seq<nat>, s: State, q: seq<nat>, t: State, c: nat)
    requires n > 0 && Valid(s, n) && Valid(t, n)
    requires Linked(n, p, s, q, t, c)
    ensures Linked(n, Refine(p, Cell(n, s, Pow2(n) - 1)), Next(n, s, Pow2(n) - 1),
                   Refine(q, Cell(n, t, 0)), Next(n, t, 0), c)
  {
    hide Cell, Next, Exit, Refine, Xor, Bit;
    LastCell(n, s);
    FirstCell(n, t);
    RefineAcross(p, q, Exit(s), t.e, c);
  }

  lemma {:induction false} LinkedRun(n: nat, s: State, m: nat, h: nat) returns (c: nat)
    requires n > 0 && Valid(s, n)
    requires h + 1 < Pow2(Width(n, m))
    ensures Linked(n, Point(n, s, m, h), Walk(n, s, m, h), Point(n, s, m, h + 1), Walk(n, s, m, h + 1), c)
  {
    hide Linked, Cell, Next, Refine, Shr, Low, StepBit;
    if m > 0 {
      var g, w := Shr(h, n), Low(h, n);
      Successor(h, n);
      var t := Walk(n, s, m - 1, g);
      if w < Pow2(n) - 1 {
        LinkedWithin(n, Point(n, s, m - 1, g), t, w);
        c := n - 1 - StepBit(n, t, w);
      } else {
        DigitRange(n, m, h + 1);
        c := LinkedRun(n, s, m - 1, g);
        LinkedAcross(n, Point(n, s, m - 1, g), t, Point(n, s, m - 1, g + 1), Walk(n, s, m - 1, g + 1), c);
      }
    }
  }

  /** Moving one index along the curve moves one unit along one axis. */
  lemma HilbertUnitStep(n: nat, m: nat, h: nat)
    requires n > 0
    requires h + 1 < Pow2(Width(n, m))
    ensures UnitStep(Point(n, START, m, h), Point(n, START, m, h + 1))
  {
    var c := LinkedRun(n, START, m, h);
  }

  // ----- Corners -----

  /** The corner of the cube of side 2^m whose direction in each coordinate is given by `l`. */
  function CornerPoint(n: nat, m: nat, l: nat): (p: seq<nat>)
    ensures |p| == n && forall j :: 0 <= j < n ==> p[j] == if Bit(l, n - 1 - j) then Pow2(m) - 1 else 0
  {
    seq(n, j requires 0 <= j < n => if Bit(l, n - 1 - j) then Pow2(m) - 1 else 0)
  }

  lemma RefineCornerPoint(n: nat, m: nat, l: nat)
    ensures Refine(CornerPoint(n, m, l), l) == CornerPoint(n, m + 1, l)
  {
  }

  /** A run of any order starts at the corner of its entry. */
  lemma {:induction false} RunStart(n: nat, s: State, m: nat)
    requires n > 0 && Valid(s, n)
    ensures Point(n, s, m, 0) == CornerPoint(n, m, s.e)
    ensures Walk(n, s, m, 0).e == s.e
  {
    hide Cell, Next, Refine, Shr, Low;
    if m == 0 {
      assert Point(n, s, m, 0) == CornerPoint(n, m, s.e);
    } else {
      var zero := 0;
      SameBits(Shr(zero, n), 0);
      SameBits(Low(zero, n), 0);
      RunStart(n, s, m - 1);
      FirstCell(n, Walk(n, s, m - 1, zero));
      assert Point(n, s, m, zero) == Refine(Point(n, s, m - 1, zero), s.e);
      RefineCornerPoint(n, m - 1, s.e);
      assert Walk(n, s, m, zero) == Next(n, Walk(n, s, m - 1, zero), 0);
    }
  }

  /** A run of any order ends at the corner of its exit, opposite to the entry along `d`. */
  lemma {:induction false} RunEnd(n: nat, s: State, m: nat)
    requires n > 0 && Valid(s, n)
    ensures Point(n, s, m, Pow2(Width(n, m)) - 1) == CornerPoint(n, m, Exit(s))
    ensures Exit(Walk(n, s, m, Pow2(Width(n, m)) - 1)) == Exit(s)
  {
    hide Cell, Next, Exit, Refine, Shr, Low, CornerPoint, Pow2;
    if m == 0 {
      RunOfNone(n, s);
    } else {
      RunEnd(n, s, m - 1);
      LastCell(n, Walk(n, s, m - 1, Pow2(Width(n, m - 1)) - 1));
      AllOnes(n, Width(n, m - 1));
      RefineCornerPoint(n, m - 1, Exit(s));
    }
  }

  lemma RunOfNone(n: nat, s: State)
    requires n > 0 && Valid(s, n)
    ensures Pow2(Width(n, 0)) == 1 && Point(n, s, 0, 0) == CornerPoint(n, 0, Exit(s))
  {
    hide Exit;
  }

  lemma AllOnes(n: nat, k: nat)
    ensures Shr(Pow2(n + k) - 1, n) == Pow2(k) - 1
    ensures Low(Pow2(n + k) - 1, n) == Pow2(n) - 1
  {
    hide Shr, Low, Pow2;
    var x := Pow2(n + k) - 1;
    forall i: nat
      ensures Bit(Shr(x, n), i) == Bit(Pow2(k) - 1, i)
    {
      PowBits(n + k, i + n);
      PowBits(k, i);
    }
    SameBits(Shr(x, n), Pow2(k) - 1);
    forall i: nat
      ensures Bit(Low(x, n), i) == Bit(Pow2(n) - 1, i)
    {
      PowBits(n + k, i);
      PowBits(n, i);
    }
    SameBits(Low(x, n), Pow2(n) - 1);
  }

  // ----- The run of the curve itself -----

  /** The curve starts at the origin. */
  lemma CurveStart(n: nat, m: nat)
    requires n > 0
    ensures Point(n, START, m, 0) == Origin(n)
  {
    hide Point, Walk, Bit;
    RunStart(n, START, m);
    NoBits();
    assert CornerPoint(n, m, START.e) == Origin(n);
  }

  lemma NoBits()
    ensures forall k: nat :: !Bit(START.e, k)
  {
    forall k: nat
      ensures !Bit(START.e, k)
    {
      NoHighBits(0, 0, k);
    }
  }

  /** Where the curve of order m ends: at the far end of the last coordinate. */
  function FarEnd(n: nat, m: nat): (p: seq<nat>)
    requires n > 0
    ensures |p| == n && p[n - 1] == Pow2(m) - 1 && forall j :: 0 <= j < n - 1 ==> p[j] == 0
  {
    Origin(n - 1) + [Pow2(m) - 1]
  }

  lemma CurveEnd(n: nat, m: nat)
    requires n > 0
    ensures Point(n, START, m, Pow2(Width(n, m)) - 1) == FarEnd(n, m)
  {
    hide Point, Walk, Width, Pow2, Exit;
    RunEnd(n, START, m);
    StartExit();
    OneCorner(n, m);
  }

  lemma OneCorner(n: nat, m: nat)
    requires n > 0
    ensures CornerPoint(n, m, 1) == FarEnd(n, m)
  {
    hide Pow2, Bit;
    forall k: nat
      ensures Bit(1, k) <==> k == 0
    {
      OneBit(k);
    }
  }

  lemma OneBit(k: nat)
    ensures Bit(1, k) <==> k == 0
  {
    if k > 0 {
      NoHighBits(1, 1, k);
    }
  }

  lemma StartExit()
    ensures Exit(START) == 1
  {
    XorZero(1);
  }

  /** The curve of order 1 visits the corners in the order of the Gray codes, turned left by one. */
  lemma FirstOrder(n: nat, h: nat)
    requires n > 0 && h < Pow2(n)
    ensures GrayCode(h) < Pow2(n)
    ensures forall j :: 0 <= j < n ==> Point(n, START, 1, h)[j] == BitVal(LRot(GrayCode(h), 1, n), n - 1 - j)
  {
    hide GrayCode, LRot, Shr, Low, Pow2, BitVal, Cell, Bit, Xor;
    GrayRange(h, n);
    LowEnds(h, n);
    FirstCellOf(n, h);
    OneRefined(n, Cell(n, START, h));
    assert Point(n, START, 0, Shr(h, n)) == Origin(n);
    assert Walk(n, START, 0, Shr(h, n)) == START;
  }

  lemma FirstCellOf(n: nat, h: nat)
    requires n > 0 && h < Pow2(n)
    ensures GrayCode(h) < Pow2(n) && Cell(n, START, h) == LRot(GrayCode(h), 1, n)
  {
    hide GrayCode, LRot, Xor;
    GrayRange(h, n);
    XorZero(LRot(GrayCode(h), 1, n));
  }

  lemma OneRefined(n: nat, l: nat)
    ensures forall j :: 0 <= j < n ==> Refine(Origin(n), l)[j] == BitVal(l, n - 1 - j)
  {
  }

  // ----- Nesting -----

  lemma HalvesOfPoint(n: nat, s: State, m: nat, h: nat)
    requires n > 0 && Valid(s, n) && m > 0
    ensures Halves(Point(n, s, m, h)) == Point(n, s, m - 1, Shr(h, n))
  {
    hide Cell;
    var g := Shr(h, n);
    HalvesOfRefine(Point(n, s, m - 1, g), Cell(n, Walk(n, s, m - 1, g), Low(h, n)));
  }

  /** Dropping the last `k` bits of every coordinate is dropping the last `k` digits of the index. */
  lemma {:induction false} Nesting(n: nat, s: State, m: nat, k: nat, h: nat)
    requires n > 0 && Valid(s, n) && k <= m
    ensures Coarsen(Point(n, s, m, h), k) == Point(n, s, m - k, DropDigits(h, n, k))
  {
    hide Point, Coarsen, Halves, DropDigits, Shr;
    CoarsenHalves(Point(n, s, m, h), if k == 0 then 0 else k - 1);
    DropDigitsStep(h, n, if k == 0 then 0 else k - 1);
    if k > 0 {
      HalvesOfPoint(n, s, m, h);
      Nesting(n, s, m - 1, k - 1, Shr(h, n));
    }
  }

  /** The indices whose leading digits are `g` are exactly those of one aligned sub-cube. */
  lemma SubCube(n: nat, m: nat, k: nat, h: nat, g: nat)
    requires n > 0 && k <= m
    requires h < Pow2(Width(n, m)) && g < Pow2(Width(n, m - k))
    ensures DropDigits(h, n, k) == g
       <==> Coarsen(Point(n, START, m, h), k) == Point(n, START, m - k, g)
  {
    hide Point, Coarsen, Locate, Walk, Pow2, Width, DropDigits;
    Nesting(n, START, m, k, h);
    DropRange(n, m, k, h);
    IndexOfPoint(n, START, m - k, g);
    IndexOfPoint(n, START, m - k, DropDigits(h, n, k));
  }
}
