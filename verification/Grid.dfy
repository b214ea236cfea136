/** Points of an n-dimensional cube of side 2^m, refined one bit per coordinate at a time.
    Bit n-1-j of a corner number belongs to coordinate j, as in the curve library. */
module Grid {
  import opened Bits

  function Origin(n: nat): (p: seq<nat>)
    ensures |p| == n && forall j :: 0 <= j < n ==> p[j] == 0
  {
    seq(n, _ => 0)
  }

  /** Appends the bits of corner `l` to the coordinates of `q`. */
  function Refine(q: seq<nat>, l: nat): (p: seq<nat>)
    ensures |p| == |q| && forall j :: 0 <= j < |q| ==> p[j] == 2 * q[j] + BitVal(l, |q| - 1 - j)
  {
    seq(|q|, j requires 0 <= j < |q| => 2 * q[j] + BitVal(l, |q| - 1 - j))
  }

  /** Drops the last bit of every coordinate. */
  function Halves(p: seq<nat>): (q: seq<nat>)
    ensures |q| == |p| && forall j :: 0 <= j < |p| ==> q[j] == p[j] / 2
  {
    seq(|p|, j requires 0 <= j < |p| => p[j] / 2)
  }

  /** Drops the last `k` bits of every coordinate. */
  function Coarsen(p: seq<nat>, k: nat): (q: seq<nat>)
    ensures |q| == |p| && forall j :: 0 <= j < |p| ==> q[j] == Shr(p[j], k)
  {
    seq(|p|, j requires 0 <= j < |p| => Shr(p[j], k))
  }

  /** The corner number made of the last bit of every coordinate. */
  function Corner(p: seq<nat>): (l: nat)
    ensures l < Pow2(|p|)
    ensures forall x: nat {:trigger Bit(l, x)} :: Bit(l, x) == (x < |p| && p[|p| - 1 - x] % 2 == 1)
  {
    if |p| == 0 then 0 else
      var init := p[..|p| - 1];
      var l := 2 * Corner(init) + p[|p| - 1] % 2;
      assert l / 2 == Corner(init);
      assert forall x: nat {:trigger Bit(l, x)} :: Bit(l, x) == (x < |p| && p[|p| - 1 - x] % 2 == 1) by {
        forall x: nat
          ensures Bit(l, x) == (x < |p| && p[|p| - 1 - x] % 2 == 1)
        {
          if x > 0 {
            assert Bit(l, x) == Bit(Corner(init), x - 1);
          }
        }
      }
      l
  }

  ghost predicate InCube(p: seq<nat>, n: nat, m: nat)
    ensures InCube(p, n, m) ==> |p| == n
  {
    |p| == n && forall j :: 0 <= j < n ==> p[j] < Pow2(m)
  }

  lemma HalvesOfRefine(q: seq<nat>, l: nat)
    ensures Halves(Refine(q, l)) == q
  {
  }

  lemma CornerOfRefineBit(q: seq<nat>, l: nat, x: nat)
    requires x < |q|
    ensures Bit(Corner(Refine(q, l)), x) == Bit(l, x)
  {
    hide Refine, Corner;
    var p := Refine(q, l);
    assert p[|q| - 1 - x] == 2 * q[|q| - 1 - x] + BitVal(l, x);
  }

  lemma CornerOfRefine(q: seq<nat>, l: nat)
    requires l < Pow2(|q|)
    ensures Corner(Refine(q, l)) == l
  {
    hide Refine, Corner;
    var c := Corner(Refine(q, l));
    forall x: nat | x < |q|
      ensures Bit(c, x) == Bit(l, x)
    {
      CornerOfRefineBit(q, l, x);
    }
    SameLowBits(c, l, |q|);
  }

  lemma RefineWhole(p: seq<nat>)
    ensures Refine(Halves(p), Corner(p)) == p
  {
  }

  lemma OnlyOrigin(p: seq<nat>, n: nat)
    requires InCube(p, n, 0)
    ensures p == Origin(n)
  {
  }

  lemma HalvesInCube(p: seq<nat>, n: nat, m: nat)
    requires m > 0
    ensures |p| == n ==> (InCube(p, n, m) <==> InCube(Halves(p), n, m - 1))
  {
  }

  lemma CoarsenHalves(p: seq<nat>, k: nat)
    ensures Halves(Coarsen(p, k)) == Coarsen(p, k + 1)
    ensures Coarsen(Halves(p), k) == Coarsen(p, k + 1)
    ensures Coarsen(p, 0) == p
  {
    forall j | 0 <= j < |p|
      ensures Shr(p[j], k) / 2 == Shr(p[j], k + 1) == Shr(p[j] / 2, k)
    {
      ShrShr(p[j], k, 1);
      assert Shr(Shr(p[j], k), 1) == Shr(p[j], k) / 2;
    }
  }

  // ----- Unit steps -----

  /** `p` and `q` differ in coordinate `c` only, and there by exactly one. */
  predicate StepAt(p: seq<nat>, q: seq<nat>, c: nat) {
    && c < |p| == |q|
    && (q[c] == p[c] + 1 || p[c] == q[c] + 1)
    && forall j | 0 <= j < |p| && j != c :: p[j] == q[j]
  }

  predicate UnitStep(p: seq<nat>, q: seq<nat>) {
    exists c: nat | c < |p| :: StepAt(p, q, c)
  }

  /** Exclusive or giving a power of two says which bits differ. */
  lemma OneBitApart(a: nat, b: nat, t: nat, k: nat)
    requires Xor(a, b) == Pow2(t)
    ensures Bit(a, k) != Bit(b, k) <==> k == t
  {
    PowBits(t, k);
    assert Bit(Xor(a, b), k) == (Bit(a, k) != Bit(b, k));
  }

  /** Two corners of one cell that differ in one bit are one step apart. */
  lemma RefineFlip(q: seq<nat>, a: nat, b: nat, t: nat)
    requires t < |q|
    requires Xor(a, b) == Pow2(t)
    ensures StepAt(Refine(q, a), Refine(q, b), |q| - 1 - t)
    ensures Refine(q, b)[|q| - 1 - t] < Refine(q, a)[|q| - 1 - t] <==> Bit(a, t)
  {
    forall k: nat
      ensures Bit(a, k) != Bit(b, k) <==> k == t
    {
      OneBitApart(a, b, t, k);
    }
  }

  /** If `r` is one step from `q`, and the corners `a` of cell `q` and `b` of cell `r` touch
      each other across that step, then they are one step apart. */
  lemma RefineAcross(q: seq<nat>, r: seq<nat>, a: nat, b: nat, c: nat)
    requires StepAt(q, r, c)
    requires Xor(a, b) == Pow2(|q| - 1 - c)
    requires Bit(b, |q| - 1 - c) <==> r[c] < q[c]
    ensures StepAt(Refine(q, a), Refine(r, b), c)
    ensures Refine(r, b)[c] < Refine(q, a)[c] <==> r[c] < q[c]
  {
    forall k: nat
      ensures Bit(a, k) != Bit(b, k) <==> k == |q| - 1 - c
    {
      OneBitApart(a, b, |q| - 1 - c, k);
    }
  }

  // ----- Reversal -----

  function Reversed(s: seq<nat>): (r: seq<nat>)
    ensures |r| == |s| && forall j :: 0 <= j < |s| ==> r[j] == s[|s| - 1 - j]
  {
    seq(|s|, j requires 0 <= j < |s| => s[|s| - 1 - j])
  }

  lemma ReversedTwice(s: seq<nat>)
    ensures Reversed(Reversed(s)) == s
  {
  }

  lemma ReversedInCube(p: seq<nat>, n: nat, m: nat)
    requires InCube(p, n, m)
    ensures InCube(Reversed(p), n, m)
  {
  }

  lemma StepReversed(p: seq<nat>, q: seq<nat>, c: nat)
    requires StepAt(p, q, c)
    ensures StepAt(Reversed(p), Reversed(q), |p| - 1 - c)
  {
  }

  // ----- Gluing a digit of n bits below a number -----

  lemma Glue(h: nat, w: nat, n: nat)
    requires w < Pow2(n)
    ensures Shr(Or(Shl(h, n), w), n) == h
    ensures Low(Or(Shl(h, n), w), n) == w
  {
    var x := Or(Shl(h, n), w);
    assert forall k: nat {:trigger Bit(w, k)} :: k >= n ==> !Bit(w, k) by {
      forall k: nat | k >= n { NoHighBits(w, n, k); }
    }
    SameBits(Shr(x, n), h);
    SameBits(Low(x, n), w);
  }

  lemma GlueBits(h: nat, w: nat, n: nat, k: nat)
    requires w < Pow2(n)
    ensures Bit(Or(Shl(h, n), w), k) == if k < n then Bit(w, k) else Bit(h, k - n)
  {
    if k >= n {
      NoHighBits(w, n, k);
    }
  }

  lemma GlueParts(x: nat, n: nat)
    ensures Or(Shl(Shr(x, n), n), Low(x, n)) == x
  {
    SameBits(Or(Shl(Shr(x, n), n), Low(x, n)), x);
  }
}
