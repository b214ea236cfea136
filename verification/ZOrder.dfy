/** vis/scurve/scurve/zorder.py: the Z-order curve. */
module ZOrder {
  import opened Bits
  import opened Grid
  import opened Interleave
  import opened InterleaveLoops

  /** The point at offset `idx`. */
  function At(n: nat, bits: nat, idx: nat): (p: seq<nat>)
    ensures |p| == n
  {
    Reversed(Spread(n, bits, idx))
  }

  /** The offset of a point. */
  function Offset(n: nat, bits: nat, p: seq<nat>): nat
    requires |p| == n
  {
    Collect(n, bits, Reversed(p))
  }

  /** list.reverse() */
  method ReverseInPlace(a: array<nat>)
    modifies a
    ensures a[..] == Reversed(old(a[..]))
  {
    var n := a.Length;
    for i := 0 to n / 2
      invariant forall k :: 0 <= k < i || n - i <= k < n ==> a[k] == old(a[n - 1 - k])
      invariant forall k :: i <= k < n - i ==> a[k] == old(a[k])
    {
      a[i], a[n - 1 - i] := a[n - 1 - i], a[i];
    }
    assert forall k :: 0 <= k < n ==> a[..][k] == Reversed(old(a[..]))[k];
  }

  /** The index of a point. The caller's list is left reversed. */
  method Index(dimension: nat, bits: nat, p: array<nat>) returns (idx: nat)
    requires dimension > 0 && p.Length == dimension
    modifies p
    ensures idx == Offset(dimension, bits, old(p[..]))
    ensures p[..] == Reversed(old(p[..]))
  {
    ReverseInPlace(p);
    idx := Gather(dimension, bits, p[..]);
  }

  method Point(dimension: nat, bits: nat, idx: nat) returns (p: array<nat>)
    requires dimension > 0
    ensures fresh(p) && p[..] == At(dimension, bits, idx)
  {
    var spread := Scatter(dimension, bits, idx);
    p := new nat[dimension](i requires 0 <= i < dimension => spread[i]);
    assert p[..] == spread;
    ReverseInPlace(p);
  }

  /** The curve visits every point of the cube exactly once. */
  lemma OffsetOfPoint(n: nat, bits: nat, idx: nat)
    requires idx < Pow2(Width(n, bits))
    ensures InCube(At(n, bits, idx), n, bits)
    ensures Offset(n, bits, At(n, bits, idx)) == idx
  {
    hide Spread, Collect, InCube, Reversed;
    SpreadInCube(n, bits, idx);
    ReversedInCube(Spread(n, bits, idx), n, bits);
    ReversedTwice(Spread(n, bits, idx));
    CollectOfSpread(n, bits, idx);
  }

  lemma PointOfOffset(n: nat, bits: nat, p: seq<nat>)
    requires InCube(p, n, bits)
    ensures Offset(n, bits, p) < Pow2(Width(n, bits))
    ensures At(n, bits, Offset(n, bits, p)) == p
  {
    hide Spread, Collect, InCube, Reversed;
    ReversedInCube(p, n, bits);
    ReversedTwice(p);
    SpreadOfCollect(n, bits, Reversed(p));
    CollectRange(n, bits, Reversed(p));
  }

  /** Bit b of coordinate j is bit b*n + j of the offset: coordinate 0 has the lowest bit of every group
      of n bits. */
  lemma PointBit(n: nat, bits: nat, idx: nat, j: nat, b: nat)
    requires idx < Pow2(Width(n, bits)) && j < n && b < bits
    ensures Bit(At(n, bits, idx)[j], b) == Bit(idx, b * n + j)
  {
    hide Spread, Pow2, Bit;
    SpreadBit(n, bits, idx, n - 1 - j, b);
  }

  /** A point that is nowhere larger than another one has the smaller offset. */
  lemma OffsetMonotone(n: nat, bits: nat, p: seq<nat>, q: seq<nat>)
    requires InCube(p, n, bits) && InCube(q, n, bits)
    requires Below(p, q) && p != q
    ensures Offset(n, bits, p) < Offset(n, bits, q)
  {
    hide Collect, Reversed;
    ReversedInCube(p, n, bits);
    ReversedInCube(q, n, bits);
    ReversedTwice(p);
    ReversedTwice(q);
    CollectMonotone(n, bits, Reversed(p), Reversed(q));
  }

  /** Because the list is left reversed, asking for the index of the same list twice gives the
      same answer exactly when the list reads the same from both ends. */
  lemma IndexTwice(n: nat, bits: nat, p: seq<nat>)
    requires InCube(p, n, bits)
    ensures Offset(n, bits, p) == Offset(n, bits, Reversed(p)) <==> p == Reversed(p)
  {
    hide Collect, Reversed, Spread, InCube;
    ReversedInCube(p, n, bits);
    PointOfOffset(n, bits, p);
    PointOfOffset(n, bits, Reversed(p));
  }

  lemma SecondIndexDiffers()
    ensures Reversed([0, 1]) == [1, 0] && Offset(2, 1, [0, 1]) != Offset(2, 1, [1, 0])
  {
    hide Collect;
    assert Reversed([0, 1]) == [1, 0];
    IndexTwice(2, 1, [0, 1]);
  }
}
