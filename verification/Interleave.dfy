/** Bit interleaving between the n coordinates of a point of side 2^m and one number of n*m bits,
    as the Gray curve and the Z-order curve use it. Digit by digit from the bottom, each digit of
    n bits of the number is one corner in the refinement of the point. */
module Interleave {
  import opened Bits
  import opened BitUtils
  import opened Grid

  /** The point whose interleaved bits are the n*m lowest bits of `z`. */
  function Spread(n: nat, m: nat, z: nat): (p: seq<nat>)
    ensures |p| == n
  {
    if m == 0 then Origin(n) else Refine(Spread(n, m - 1, Shr(z, n)), Low(z, n))
  }

  /** The number whose bits are the m lowest bits of the coordinates of `p`, interleaved. */
  function Collect(n: nat, m: nat, p: seq<nat>): nat
    requires |p| == n
  {
    if m == 0 then 0 else Or(Shl(Collect(n, m - 1, Halves(p)), n), Corner(p))
  }

  lemma {:induction false} SpreadInCube(n: nat, m: nat, z: nat)
    ensures InCube(Spread(n, m, z), n, m)
  {
    if m > 0 {
      var q := Spread(n, m - 1, Shr(z, n));
      SpreadInCube(n, m - 1, Shr(z, n));
      hide Low, Shr;
      forall j | 0 <= j < n
        ensures Spread(n, m, z)[j] < Pow2(m)
      {
        assert q[j] < Pow2(m - 1);
      }
    }
  }

  lemma {:induction false} CollectOfSpread(n: nat, m: nat, z: nat)
    requires z < Pow2(Width(n, m))
    ensures Collect(n, m, Spread(n, m, z)) == z
  {
    if m > 0 {
      hide Refine, Corner, Halves, Low, Shr, Shl, Or;
      DigitRange(n, m, z);
      CollectOfSpread(n, m - 1, Shr(z, n));
      var q := Spread(n, m - 1, Shr(z, n));
      HalvesOfRefine(q, Low(z, n));
      CornerOfRefine(q, Low(z, n));
      GlueParts(z, n);
    }
  }

  /** Bit b of coordinate j of the scattered number is bit b*n + n-1-j of the number. */
  lemma SpreadBit(n: nat, m: nat, z: nat, j: nat, b: nat)
    requires z < Pow2(Width(n, m)) && j < n && b < m
    ensures Bit(Spread(n, m, z)[j], b) == Bit(z, b * n + (n - 1 - j))
  {
    hide Spread, Collect, Pow2, Bit;
    CollectOfSpread(n, m, z);
    CollectBit(n, m, Spread(n, m, z), b, n - 1 - j);
  }

  lemma {:induction false} CollectRange(n: nat, m: nat, p: seq<nat>)
    requires |p| == n
    ensures Collect(n, m, p) < Pow2(Width(n, m))
  {
    if m > 0 {
      hide Corner, Halves, Shl, Or;
      CollectRange(n, m - 1, Halves(p));
      Glue(Collect(n, m - 1, Halves(p)), Corner(p), n);
      DigitRange(n, m, Collect(n, m, p));
    }
  }

  lemma {:induction false} SpreadOfCollect(n: nat, m: nat, p: seq<nat>)
    requires InCube(p, n, m)
    ensures Spread(n, m, Collect(n, m, p)) == p
  {
    hide InCube, Refine, Corner, Halves, Low, Shr, Shl, Or;
    if m == 0 {
      OnlyOrigin(p, n);
    } else {
      HalvesInCube(p, n, m);
      SpreadOfCollect(n, m - 1, Halves(p));
      Glue(Collect(n, m - 1, Halves(p)), Corner(p), n);
      RefineWhole(p);
    }
  }

  /** Bit `a` of coordinate n-1-x is bit a*n+x of the interleaved number. */
  lemma {:induction false} CollectBit(n: nat, m: nat, p: seq<nat>, a: nat, x: nat)
    requires |p| == n && a < m && x < n
    ensures Bit(Collect(n, m, p), a * n + x) == Bit(p[n - 1 - x], a)
  {
    hide Shl, Or, Halves, Bit;
    var rest, c := Collect(n, m - 1, Halves(p)), Corner(p);
    GlueBits(rest, c, n, a * n + x);
    if a == 0 {
      BitZero(p[n - 1 - x]);
    } else {
      NextRow(n, a, x);
      CollectBit(n, m - 1, Halves(p), a - 1, x);
      BitSucc(p[n - 1 - x], a - 1);
    }
  }

  lemma NextRow(n: nat, a: nat, x: nat)
    requires a > 0
    ensures a * n + x - n == (a - 1) * n + x >= 0
  {
  }

  lemma BitZero(x: nat)
    ensures Bit(x, 0) <==> x % 2 == 1
  {
  }

  lemma BitSucc(x: nat, k: nat)
    ensures Bit(x, k + 1) == Bit(x / 2, k)
  {
  }

  // ----- One flipped bit -----

  /** `p` and `q` differ in coordinate `j` only, and there in bit `b` only. */
  ghost predicate BitStepAt(p: seq<nat>, q: seq<nat>, j: nat, b: nat) {
    && j < |p| == |q|
    && Xor(p[j], q[j]) == Pow2(b)
    && forall i | 0 <= i < |p| && i != j :: p[i] == q[i]
  }

  lemma FlipLow(y: nat, z: nat, n: nat, k: nat)
    requires Xor(y, z) == Pow2(k) && k < n
    ensures Shr(y, n) == Shr(z, n)
    ensures Xor(Low(y, n), Low(z, n)) == Pow2(k)
  {
    forall i: nat
      ensures Bit(y, i) != Bit(z, i) <==> i == k
      ensures Bit(Xor(Low(y, n), Low(z, n)), i) == Bit(Pow2(k), i)
    {
      OneBitApart(y, z, k, i);
      PowBits(k, i);
    }
    SameBits(Shr(y, n), Shr(z, n));
    SameBits(Xor(Low(y, n), Low(z, n)), Pow2(k));
  }

  lemma FlipHigh(y: nat, z: nat, n: nat, k: nat)
    requires Xor(y, z) == Pow2(k) && k >= n
    ensures Low(y, n) == Low(z, n)
    ensures Xor(Shr(y, n), Shr(z, n)) == Pow2(k - n)
  {
    forall i: nat
      ensures Bit(y, i) != Bit(z, i) <==> i == k
    {
      OneBitApart(y, z, k, i);
    }
    SameBits(Low(y, n), Low(z, n));
    forall i: nat
      ensures Bit(Xor(Shr(y, n), Shr(z, n)), i) == Bit(Pow2(k - n), i)
    {
      PowBits(k - n, i);
    }
    SameBits(Xor(Shr(y, n), Shr(z, n)), Pow2(k - n));
  }

  lemma FlipRefined(q: seq<nat>, y: nat, z: nat, k: nat)
    requires Xor(y, z) == Pow2(k) && k < |q|
    ensures BitStepAt(Refine(q, y), Refine(q, z), |q| - 1 - k, 0)
  {
    hide StepAt;
    var p, r, j := Refine(q, y), Refine(q, z), |q| - 1 - k;
    OneBitApart(y, z, k, k);
    XorHalf(p[j], r[j]);
    SameBits(Xor(q[j], q[j]), 0);
    forall i | 0 <= i < |q| && i != j
      ensures p[i] == r[i]
    {
      OneBitApart(y, z, k, |q| - 1 - i);
    }
  }

  lemma FlipCarried(p: seq<nat>, q: seq<nat>, l: nat, j: nat, b: nat)
    requires BitStepAt(p, q, j, b)
    ensures BitStepAt(Refine(p, l), Refine(q, l), j, b + 1)
  {
  }

  /** Flipping one of the n*m bits of a number flips one bit of one coordinate. */
  lemma {:induction false} SpreadFlip(n: nat, m: nat, y: nat, z: nat, k: nat) returns (j: nat, b: nat)
    requires Xor(y, z) == Pow2(k) && k < Width(n, m)
    ensures BitStepAt(Spread(n, m, y), Spread(n, m, z), j, b)
  {
    hide BitStepAt, Refine, Xor, Low, Shr, Pow2;
    if m > 0 {
      if k < n {
        FlipLow(y, z, n, k);
        FlipRefined(Spread(n, m - 1, Shr(y, n)), Low(y, n), Low(z, n), k);
        j, b := n - 1 - k, 0;
      } else {
        FlipHigh(y, z, n, k);
        j, b := SpreadFlip(n, m - 1, Shr(y, n), Shr(z, n), k - n);
        FlipCarried(Spread(n, m - 1, Shr(y, n)), Spread(n, m - 1, Shr(z, n)), Low(y, n), j, b);
        b := b + 1;
      }
    }
  }

  // ----- Monotonicity -----

  ghost predicate Below(p: seq<nat>, q: seq<nat>) {
    |p| == |q| && forall j :: 0 <= j < |p| ==> p[j] <= q[j]
  }

  lemma {:induction false} CornerMonotone(p: seq<nat>, q: seq<nat>)
    requires |p| == |q| && forall j :: 0 <= j < |p| ==> p[j] % 2 <= q[j] % 2
    ensures Corner(p) <= Corner(q)
    ensures Corner(p) == Corner(q) ==> forall j :: 0 <= j < |p| ==> p[j] % 2 == q[j] % 2
  {
    if |p| > 0 {
      CornerMonotone(p[..|p| - 1], q[..|q| - 1]);
    }
  }

  lemma GlueMonotone(g: nat, h: nat, v: nat, w: nat, n: nat)
    requires v < Pow2(n) && w < Pow2(n)
    requires g < h || (g == h && v < w)
    ensures Or(Shl(g, n), v) < Or(Shl(h, n), w)
  {
    hide Or, Shl, Low, Shr, Pow2;
    var x, y := Or(Shl(g, n), v), Or(Shl(h, n), w);
    Glue(g, v, n);
    Glue(h, w, n);
    SplitAt(x, n);
    SplitAt(y, n);
    MulOrder(g, h, Pow2(n));
  }

  /** Interleaving respects the componentwise order, strictly. */
  lemma {:induction false} CollectMonotone(n: nat, m: nat, p: seq<nat>, q: seq<nat>)
    requires InCube(p, n, m) && InCube(q, n, m)
    requires Below(p, q) && p != q
    ensures Collect(n, m, p) < Collect(n, m, q)
  {
    if m == 0 {
      OnlyOrigin(p, n);
      OnlyOrigin(q, n);
    } else {
      var hp, hq := Halves(p), Halves(q);
      HalvesInCube(p, n, m);
      HalvesInCube(q, n, m);
      hide Corner, InCube, Or, Shl;
      if hp == hq {
        forall j | 0 <= j < n
          ensures p[j] % 2 <= q[j] % 2
        {
          assert hp[j] == hq[j];
        }
        CornerMonotone(p, q);
        if Corner(p) == Corner(q) {
          RefineWhole(p);
          RefineWhole(q);
        }
      } else {
        CollectMonotone(n, m - 1, hp, hq);
      }
      GlueMonotone(Collect(n, m - 1, hp), Collect(n, m - 1, hq), Corner(p), Corner(q), n);
    }
  }
}
