/** vis/scurve/scurve/graycurve.py: interleaved Gray codes. */
module GrayCurve {
  import opened Bits
  import opened BitUtils
  import opened Grid
  import opened Interleave
  import opened InterleaveLoops

  /** The point at offset `idx` of the curve with 2^bits points in each dimension. */
  function At(n: nat, bits: nat, idx: nat): (p: seq<nat>)
    ensures |p| == n
  {
    Spread(n, bits, GrayCode(idx))
  }

  /** The offset of a point. */
  function Offset(n: nat, bits: nat, p: seq<nat>): nat
    requires |p| == n
  {
    GrayInverse(Collect(n, bits, p))
  }

  method Point(dimension: nat, bits: nat, idx: nat) returns (p: seq<nat>)
    requires dimension > 0
    ensures p == At(dimension, bits, idx)
  {
    p := Scatter(dimension, bits, GrayCode(idx));
  }

  method Index(dimension: nat, bits: nat, p: seq<nat>) returns (idx: nat)
    requires dimension > 0 && |p| == dimension
    ensures idx == Offset(dimension, bits, p)
  {
    idx := Gather(dimension, bits, p);
    idx := IGrayCode(idx);
  }

  /** The curve visits every point of the cube exactly once. */
  lemma OffsetOfPoint(n: nat, bits: nat, idx: nat)
    requires idx < Pow2(Width(n, bits))
    ensures InCube(At(n, bits, idx), n, bits)
    ensures Offset(n, bits, At(n, bits, idx)) == idx
  {
    hide Spread, Collect, GrayCode, GrayInverse, InCube;
    GrayRange(idx, Width(n, bits));
    SpreadInCube(n, bits, GrayCode(idx));
    CollectOfSpread(n, bits, GrayCode(idx));
    GrayRoundTrip(idx);
  }

  lemma PointOfOffset(n: nat, bits: nat, p: seq<nat>)
    requires InCube(p, n, bits)
    ensures Offset(n, bits, p) < Pow2(Width(n, bits))
    ensures At(n, bits, Offset(n, bits, p)) == p
  {
    hide Spread, Collect, GrayCode, GrayInverse, InCube;
    SpreadOfCollect(n, bits, p);
    CollectRange(n, bits, p);
    GrayInverseRange(Collect(n, bits, p), Width(n, bits));
    GrayRoundTrip(Collect(n, bits, p));
  }

  /** Bit b of coordinate j is one bit of the Gray code of the offset: coordinate 0 has the top bit of
      every group of n bits. */
  lemma PointBit(n: nat, bits: nat, idx: nat, j: nat, b: nat)
    requires idx < Pow2(Width(n, bits)) && j < n && b < bits
    ensures var k := b * n + (n - 1 - j); Bit(At(n, bits, idx)[j], b) == (Bit(idx, k) != Bit(idx, k + 1))
  {
    hide Spread, GrayCode, Pow2, Bit;
    GrayRange(idx, Width(n, bits));
    SpreadBit(n, bits, GrayCode(idx), j, b);
    GrayBit(idx, b * n + (n - 1 - j));
  }

  /** Consecutive points, the step from the last to the first included, differ in exactly one
      coordinate, and there in exactly one bit. */
  lemma CurveStep(n: nat, bits: nat, idx: nat) returns (j: nat, b: nat)
    requires n > 0 && bits > 0
    requires idx < Pow2(Width(n, bits))
    ensures BitStepAt(At(n, bits, idx),
                      At(n, bits, if idx + 1 < Pow2(Width(n, bits)) then idx + 1 else 0), j, b)
  {
    hide Spread, GrayCode, BitStepAt, TrailingSetBits;
    var w := Width(n, bits);
    MulOrder(1, n, bits);
    if idx + 1 < Pow2(w) {
      TrailingSetBitsRange(idx, w);
      GrayStep(idx);
      j, b := SpreadFlip(n, bits, GrayCode(idx), GrayCode(idx + 1), TrailingSetBits(idx));
    } else {
      GrayEnds(w);
      j, b := SpreadFlip(n, bits, GrayCode(idx), GrayCode(0), w - 1);
    }
  }

  lemma GrayEnds(w: nat)
    requires w > 0
    ensures Xor(GrayCode(Pow2(w) - 1), GrayCode(0)) == Pow2(w - 1)
  {
    GrayOfOnes(w);
    assert GrayCode(0) == Xor(0, 0) == 0;
    hide GrayCode;
    SameBits(Xor(Pow2(w - 1), 0), Pow2(w - 1));
  }
}
