/** vis/scurve/scurve/zigzag.py: a traversal of the n-cube of any side that snakes back and
    forth. It is a reflected code: a digit counts downwards while an odd number of odd digits
    stand before it. */
module ZigZag {
  import opened Bits
  import opened Grid

  function Power(s: nat, k: nat): (r: nat)
    ensures s > 0 ==> r > 0
  {
    if k == 0 then 1 else Power(s, k - 1) * s
  }

  function Quot(x: nat, s: nat): nat
    requires s > 0
  {
    x / s
  }

  function Rem(x: nat, s: nat): (r: nat)
    requires s > 0
    ensures r < s
  {
    x % s
  }

  /** The flip flag after the digits `q`: is an odd number of them odd? */
  predicate Flipped(q: seq<nat>) {
    if |q| == 0 then false else Flipped(q[..|q| - 1]) != (q[|q| - 1] % 2 == 1)
  }

  /** A digit in the direction the flag gives. */
  function Reflect(flip: bool, size: nat, v: nat): nat
    requires v < size
  {
    if flip then size - 1 - v else v
  }

  /** The digits of the reflected code of `idx`, most significant first. */
  function Snake(n: nat, size: nat, idx: nat): (q: seq<nat>)
    requires size > 0
    ensures |q| == n && forall j :: 0 <= j < n ==> q[j] < size
  {
    if n == 0 then [] else
      var q := Snake(n - 1, size, Quot(idx, size));
      q + [Reflect(Flipped(q), size, Rem(idx, size))]
  }

  ghost predicate InRange(q: seq<nat>, size: nat) {
    forall j :: 0 <= j < |q| ==> q[j] < size
  }

  /** The number with the given reflected code. */
  function Unsnake(size: nat, q: seq<nat>): nat
    requires InRange(q, size)
  {
    if |q| == 0 then 0 else
      var init := q[..|q| - 1];
      Unsnake(size, init) * size + Reflect(Flipped(init), size, q[|q| - 1])
  }

  lemma {:induction false} UnsnakeSnake(n: nat, size: nat, idx: nat)
    requires size > 0 && idx < Power(size, n)
    ensures Unsnake(size, Snake(n, size, idx)) == idx
  {
    if n > 0 {
      hide Snake, Unsnake, Power, Flipped, Reflect, Quot, Rem;
      PowerStep(size, n - 1);
      QuotientRange(idx, size, Power(size, n - 1));
      UnsnakeSnake(n - 1, size, Quot(idx, size));
      SnakeRound(n, size, idx);
      UnsnakeRound(size, Snake(n - 1, size, Quot(idx, size)), Rem(idx, size));
    }
  }

  lemma UnsnakeRound(size: nat, q: seq<nat>, v: nat)
    requires InRange(q, size) && v < size
    ensures Unsnake(size, q + [Reflect(Flipped(q), size, v)]) == Unsnake(size, q) * size + v
  {
    assert (q + [Reflect(Flipped(q), size, v)])[..|q|] == q;
  }

  lemma QuotientRange(x: nat, s: nat, p: nat)
    requires s > 0 && x < p * s
    ensures Quot(x, s) < p
    ensures x == Quot(x, s) * s + Rem(x, s)
  {
    MulOrder(p, x / s, s);
    assert x == x / s * s + x % s;
  }

  lemma QuotBelow(x: nat, s: nat, k: nat)
    requires s > 0 && x < Power(s, k + 1)
    ensures Quot(x, s) < Power(s, k)
  {
    PowerStep(s, k);
    QuotientRange(x, s, Power(s, k));
  }

  lemma NoDigits(size: nat)
    requires size > 0
    ensures Unsnake(size, []) == 0 && Power(size, 0) == 1
  {
  }

  lemma LastDigit(size: nat, q: seq<nat>)
    requires size > 0 && InRange(q, size) && |q| > 0
    ensures var init := q[..|q| - 1];
            && Quot(Unsnake(size, q), size) == Unsnake(size, init)
            && Rem(Unsnake(size, q), size) == Reflect(Flipped(init), size, q[|q| - 1])
            && (Unsnake(size, init) < Power(size, |q| - 1) ==> Unsnake(size, q) < Power(size, |q|))
  {
    hide Flipped;
    var init := q[..|q| - 1];
    var v := Reflect(Flipped(init), size, q[|q| - 1]);
    RowAndColumn(size, Unsnake(size, init), v);
    MulOrder(Unsnake(size, init), Power(size, |q| - 1), size);
  }

  lemma {:induction false} SnakeUnsnake(size: nat, q: seq<nat>)
    requires size > 0 && InRange(q, size)
    ensures Unsnake(size, q) < Power(size, |q|)
    ensures Snake(|q|, size, Unsnake(size, q)) == q
  {
    hide Unsnake, Quot, Rem, Flipped, Power;
    if |q| > 0 {
      var init := q[..|q| - 1];
      SnakeUnsnake(size, init);
      LastDigit(size, q);
      assert q == init + [q[|q| - 1]];
    } else {
      NoDigits(size);
    }
  }

  // ----- Unit steps -----

  /** A unit step changes the parity of one digit, hence the flag. */
  lemma {:induction false} StepFlips(p: seq<nat>, q: seq<nat>, c: nat)
    requires StepAt(p, q, c)
    ensures Flipped(p) != Flipped(q)
  {
    var n := |p|;
    if c == n - 1 {
      assert p[..n - 1] == q[..n - 1];
    } else {
      StepFlips(p[..n - 1], q[..n - 1], c);
    }
  }

  /** Counting up in base `size`. */
  lemma Increment(x: nat, size: nat)
    requires size > 0
    ensures Rem(x, size) < size - 1 ==>
              Quot(x + 1, size) == Quot(x, size) && Rem(x + 1, size) == Rem(x, size) + 1
    ensures Rem(x, size) == size - 1 ==>
              Quot(x + 1, size) == Quot(x, size) + 1 && Rem(x + 1, size) == 0
  {
    var a, j := x / size, x % size;
    assert x == a * size + j;
    if j < size - 1 {
      RowAndColumn(size, a, j + 1);
    } else {
      assert x + 1 == (a + 1) * size + 0;
      RowAndColumn(size, a + 1, 0);
    }
  }

  lemma StepLast(q: seq<nat>, size: nat, v: nat)
    requires v + 1 < size
    ensures StepAt(q + [Reflect(Flipped(q), size, v)], q + [Reflect(Flipped(q), size, v + 1)], |q|)
  {
  }

  /** On a carry the last digit goes from the largest to zero, and stays the same once reflected. */
  lemma StepCarried(q: seq<nat>, r: seq<nat>, size: nat, c: nat)
    requires size > 0 && StepAt(q, r, c)
    ensures StepAt(q + [Reflect(Flipped(q), size, size - 1)], r + [Reflect(Flipped(r), size, 0)], c)
  {
    StepFlips(q, r, c);
  }

  lemma {:induction false} SnakeStep(n: nat, size: nat, idx: nat) returns (c: nat)
    requires size > 0 && idx + 1 < Power(size, n)
    ensures StepAt(Snake(n, size, idx), Snake(n, size, idx + 1), c)
  {
    hide Snake, StepAt, Flipped, Reflect, Quot, Rem;
    if n > 0 {
      hide Power;
      QuotBelow(idx + 1, size, n - 1);
      SnakeRound(n, size, idx);
      SnakeRound(n, size, idx + 1);
      Increment(idx, size);
      var g := Quot(idx, size);
      var q := Snake(n - 1, size, g);
      if Rem(idx, size) < size - 1 {
        StepLast(q, size, Rem(idx, size));
        c := n - 1;
      } else {
        c := SnakeStep(n - 1, size, g);
        StepCarried(q, Snake(n - 1, size, g + 1), size, c);
      }
    }
  }

  // ----- The curve -----

  /** The point at offset `idx`; its coordinates are the digits from the last to the first. */
  function At(n: nat, size: nat, idx: nat): (p: seq<nat>)
    requires size > 0
    ensures |p| == n && InRange(p, size)
  {
    Reversed(Snake(n, size, idx))
  }

  function Offset(size: nat, p: seq<nat>): nat
    requires InRange(p, size)
  {
    Unsnake(size, Reversed(p))
  }

  /** Each point differs from the previous one by exactly one, in one coordinate. */
  lemma ZigZagUnitStep(n: nat, size: nat, idx: nat)
    requires size > 0 && idx + 1 < Power(size, n)
    ensures UnitStep(At(n, size, idx), At(n, size, idx + 1))
  {
    var c := SnakeStep(n, size, idx);
    StepReversed(Snake(n, size, idx), Snake(n, size, idx + 1), c);
  }

  lemma OffsetOfPoint(n: nat, size: nat, idx: nat)
    requires size > 0 && idx < Power(size, n)
    ensures Offset(size, At(n, size, idx)) == idx
  {
    ReversedTwice(Snake(n, size, idx));
    UnsnakeSnake(n, size, idx);
  }

  lemma PointOfOffset(size: nat, p: seq<nat>)
    requires size > 0 && InRange(p, size)
    ensures Offset(size, p) < Power(size, |p|)
    ensures At(|p|, size, Offset(size, p)) == p
  {
    ReversedTwice(p);
    SnakeUnsnake(size, Reversed(p));
  }

  // ----- Digits by division -----

  /** The leading digits of `idx`: all but the last `i`. */
  function Leading(idx: nat, size: nat, i: nat): nat
    requires size > 0
  {
    idx / Power(size, i)
  }

  /** The last `i` digits of `idx`. */
  function Rest(idx: nat, size: nat, i: nat): nat
    requires size > 0
  {
    idx % Power(size, i)
  }

  /** One round of the loop of `point`: splitting the next digit off the rest. */
  lemma DigitAt(x: nat, s: nat, i: nat)
    requires s > 0
    ensures Rest(x, s, i + 1) / Power(s, i) == Rem(Leading(x, s, i), s)
    ensures Rest(x, s, i + 1) - Power(s, i) * (Rest(x, s, i + 1) / Power(s, i)) == Rest(x, s, i)
    ensures Quot(Leading(x, s, i), s) == Leading(x, s, i + 1)
  {
    var p := Power(s, i);
    assert Power(s, i + 1) == p * s > 0;
    hide Power;
    NestedDivision(x, p, s);
  }

  // ----- The coordinates one by one -----

  /** The sum of the coordinates after coordinate `j`. */
  function After(p: seq<nat>, j: nat): nat
    decreases |p| - j
  {
    if j + 1 >= |p| then 0 else p[j + 1] + After(p, j + 1)
  }

  lemma {:induction false} SnakePrefix(n: nat, size: nat, idx: nat, m: nat)
    requires size > 0 && m <= n
    ensures Snake(n, size, idx)[..m] == Snake(m, size, Leading(idx, size, n - m))
    decreases n - m
  {
    hide Snake, Leading, Quot, Rem, Reflect, Flipped;
    if m < n {
      SnakePrefix(n, size, idx, m + 1);
      SnakeRound(m + 1, size, Leading(idx, size, n - m - 1));
      DigitAt(idx, size, n - m - 1);
      assert Snake(n, size, idx)[..m] == Snake(n, size, idx)[..m + 1][..m];
    } else {
      LeadingAll(idx, size);
      assert Snake(n, size, idx)[..n] == Snake(n, size, idx);
    }
  }

  lemma LeadingAll(idx: nat, size: nat)
    requires size > 0
    ensures Leading(idx, size, 0) == idx
  {
  }

  lemma SnakeDigit(n: nat, size: nat, idx: nat, m: nat)
    requires size > 0 && m < n
    ensures Snake(n, size, idx)[m]
         == Reflect(Flipped(Snake(n, size, idx)[..m]), size, Rem(Leading(idx, size, n - m - 1), size))
  {
    hide Snake, Leading, Quot, Rem, Reflect, Flipped;
    SnakePrefix(n, size, idx, m);
    SnakePrefix(n, size, idx, m + 1);
    SnakeRound(m + 1, size, Leading(idx, size, n - m - 1));
    DigitAt(idx, size, n - m - 1);
    assert Snake(n, size, idx)[m] == Snake(n, size, idx)[..m + 1][m];
  }

  /** The flag is the parity of the coordinates already known. */
  lemma {:induction false} FlippedIsParity(q: seq<nat>, m: nat)
    requires m < |q|
    ensures Flipped(q[..m]) <==> After(Reversed(q), |q| - 1 - m) % 2 == 1
  {
    if m > 0 {
      FlippedIsParity(q, m - 1);
      assert q[..m][..m - 1] == q[..m - 1];
    }
  }

  /** Coordinate j is digit j of the offset in base `size`, counted backwards from size - 1 exactly if
      the sum of the coordinates after it is odd. */
  lemma CoordinateIs(n: nat, size: nat, idx: nat, j: nat)
    requires size > 0 && j < n
    ensures var p, d := At(n, size, idx), idx / Power(size, j) % size;
            p[j] == if After(p, j) % 2 == 0 then d else size - 1 - d
  {
    hide Snake, Flipped, After, Power;
    SnakeDigit(n, size, idx, n - 1 - j);
    FlippedIsParity(Snake(n, size, idx), n - 1 - j);
  }

  lemma {:induction false} PowerGrows(s: nat, k: nat)
    requires s > 0 && k > 0
    ensures Power(s, k) >= s
  {
    PowerZero(s);
    PowerStep(s, k - 1);
    if k > 1 {
      PowerGrows(s, k - 1);
      MulOrder(1, Power(s, k - 1), s);
    }
  }

  lemma SmallQuotient(x: nat, m: nat)
    requires x < m
    ensures x / m == 0
  {
  }

  lemma {:induction false} RowRest(n: nat, size: nat, idx: nat, j: nat)
    requires 0 < j <= n && idx < size
    ensures After(At(n, size, idx), j - 1) == 0
    ensures forall k :: j <= k < n ==> At(n, size, idx)[k] == 0
    decreases n - j
  {
    hide At, Power;
    if j < n {
      RowRest(n, size, idx, j + 1);
      CoordinateIs(n, size, idx, j);
      PowerGrows(size, j);
      SmallQuotient(idx, Power(size, j));
      SmallRemainder(0, size);
    }
  }

  /** The curve begins by counting up the first coordinate. */
  lemma FirstRow(n: nat, size: nat, idx: nat)
    requires n > 0 && idx < size
    ensures At(n, size, idx)[0] == idx
    ensures forall k :: 0 < k < n ==> At(n, size, idx)[k] == 0
  {
    hide At, Power;
    RowRest(n, size, idx, 1);
    CoordinateIs(n, size, idx, 0);
    PowerZero(size);
    SmallRemainder(idx, size);
  }

  /** The last coordinate is never reflected. */
  lemma LastCoordinate(n: nat, size: nat, idx: nat)
    requires n > 0 && size > 0 && idx < Power(size, n)
    ensures At(n, size, idx)[n - 1] == idx / Power(size, n - 1)
  {
    hide At, Power, Quot;
    CoordinateIs(n, size, idx, n - 1);
    PowerStep(size, n - 1);
    QuotientBelow(idx, size, Power(size, n - 1));
    SmallRemainder(idx / Power(size, n - 1), size);
  }

  lemma QuotientBelow(x: nat, s: nat, p: nat)
    requires x < p * s && p > 0
    ensures x / p < s
  {
    var q, r := Divide(x, p);
    MulOrder(s, q, p);
  }

  // ----- The loops -----

  method Point(dimension: nat, size: nat, idx: nat) returns (p: seq<nat>)
    requires size > 0 && idx < Power(size, dimension)
    ensures p == At(dimension, size, idx)
  {
    hide Power, Snake, Flipped, Leading, Rest, Quot, Rem;
    var q: seq<nat>, flip, rest := [], false, idx;
    LoopEnds(idx, size, dimension);
    var i: nat := dimension;
    while i > 0
      invariant i <= dimension
      invariant q == Snake(dimension - i, size, Leading(idx, size, i))
      invariant flip == Flipped(q)
      invariant i > 0 ==> rest == Rest(idx, size, i)
    {
      i := i - 1;
      DigitAt(idx, size, i);
      var v := rest / Power(size, i);
      if i > 0 {
        rest := rest - Power(size, i) * v;
      }
      SnakeRound(dimension - i, size, Leading(idx, size, i));
      if flip {
        v := size - 1 - v;
      }
      q := q + [v];
      FlipRound(q);
      if v % 2 == 1 {
        flip := !flip;
      }
    }
    p := Reversed(q);
  }

  lemma LoopEnds(idx: nat, size: nat, n: nat)
    requires size > 0 && idx < Power(size, n)
    ensures Rest(idx, size, n) == idx && Leading(idx, size, 0) == idx
    ensures Snake(0, size, Leading(idx, size, n)) == [] && !Flipped([])
  {
    SmallRemainder(idx, Power(size, n));
  }

  lemma SmallRemainder(x: nat, m: nat)
    requires x < m
    ensures x % m == x
  {
  }

  lemma PowerStep(s: nat, k: nat)
    ensures Power(s, k + 1) == Power(s, k) * s
  {
  }

  lemma SnakeRound(k: nat, size: nat, x: nat)
    requires size > 0 && k > 0
    ensures Snake(k, size, x) == Snake(k - 1, size, Quot(x, size))
                               + [Reflect(Flipped(Snake(k - 1, size, Quot(x, size))), size, Rem(x, size))]
  {
  }

  lemma FlipRound(q: seq<nat>)
    requires |q| > 0
    ensures Flipped(q) == (Flipped(q[..|q| - 1]) != (q[|q| - 1] % 2 == 1))
  {
  }

  method Index(dimension: nat, size: nat, p: seq<nat>) returns (idx: nat)
    requires |p| == dimension && InRange(p, size)
    ensures idx == Offset(size, p)
  {
    hide Power, Unsnake, Flipped;
    var q := Reversed(p);
    var flip := false;
    idx := 0;
    UnsnakeStart(size);
    for k := 0 to dimension
      invariant flip == Flipped(q[..k])
      invariant idx == Unsnake(size, q[..k]) * Power(size, dimension - k)
    {
      var i := q[k];
      var power := dimension - k - 1;
      var fi := if flip then size - i - 1 else i;
      assert q[..k + 1][..k] == q[..k];
      UnsnakeNext(size, q[..k + 1]);
      FlipRound(q[..k + 1]);
      PowerStep(size, power);
      Horner(Unsnake(size, q[..k]), size, Power(size, power), fi);
      idx := idx + fi * Power(size, power);
      if i % 2 == 1 {
        flip := !flip;
      }
    }
    assert q[..dimension] == q;
    PowerZero(size);
  }

  lemma UnsnakeStart(size: nat)
    ensures Unsnake(size, []) == 0 && !Flipped([])
  {
  }

  lemma UnsnakeNext(size: nat, q: seq<nat>)
    requires |q| > 0 && InRange(q, size)
    ensures Unsnake(size, q) == Unsnake(size, q[..|q| - 1]) * size
                              + Reflect(Flipped(q[..|q| - 1]), size, q[|q| - 1])
  {
  }

  lemma PowerZero(s: nat)
    ensures Power(s, 0) == 1
  {
  }

  lemma Horner(u: nat, s: nat, p: nat, v: nat)
    ensures u * (p * s) + v * p == (u * s + v) * p
  {
  }
}
