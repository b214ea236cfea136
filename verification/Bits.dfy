/** Natural numbers of any width seen as bit strings: the arithmetic of Python's
    unbounded `<<`, `>>`, `&`, `|` and `^`, on which the curve library is built.
    Every operation promises which bits its result has; equality of numbers is
    then equality of all their bits. */
module Bits {

  function Pow2(k: nat): (r: nat)
    ensures r >= 1
  {
    if k == 0 then 1 else 2 * Pow2(k - 1)
  }

  /** Is bit `k` of `x` set? Bit 0 is the least significant one. */
  predicate Bit(x: nat, k: nat)
    ensures x == 0 ==> !Bit(x, k)
  {
    if k == 0 then x % 2 == 1 else Bit(x / 2, k - 1)
  }

  /** Bit `k` of `x` as a number. */
  function BitVal(x: nat, k: nat): nat {
    if Bit(x, k) then 1 else 0
  }

  /** x >> k */
  function Shr(x: nat, k: nat): (r: nat)
    ensures forall i: nat {:trigger Bit(r, i)} :: Bit(r, i) == Bit(x, i + k)
  {
    if k == 0 then x else Shr(x / 2, k - 1)
  }

  /** x << k */
  function Shl(x: nat, k: nat): (r: nat)
    ensures forall i: nat {:trigger Bit(r, i)} :: Bit(r, i) == (i >= k && Bit(x, i - k))
  {
    if k == 0 then x else
      var s := Shl(x, k - 1);
      assert (2 * s) / 2 == s;
      2 * s
  }

  datatype BitOp = AND | OR | XOR | ANDNOT

  /** The truth table of an operation; each maps (false, false) to false. */
  predicate Combine(op: BitOp, a: bool, b: bool) {
    match op
    case AND => a && b
    case OR => a || b
    case XOR => a != b
    case ANDNOT => a && !b
  }

  function Bitwise(op: BitOp, a: nat, b: nat): (r: nat)
    ensures forall i: nat {:trigger Bit(r, i)} :: Bit(r, i) == Combine(op, Bit(a, i), Bit(b, i))
    decreases a + b
  {
    if a == 0 && b == 0 then 0 else
      var rest := Bitwise(op, a / 2, b / 2);
      var r := 2 * rest + (if Combine(op, a % 2 == 1, b % 2 == 1) then 1 else 0);
      assert r / 2 == rest;
      r
  }

  function And(a: nat, b: nat): nat { Bitwise(AND, a, b) }

  function Or(a: nat, b: nat): nat { Bitwise(OR, a, b) }

  function Xor(a: nat, b: nat): nat { Bitwise(XOR, a, b) }

  /** a & ~b */
  function AndNot(a: nat, b: nat): nat { Bitwise(ANDNOT, a, b) }

  /** The `k` least significant bits of `x`. */
  function Low(x: nat, k: nat): (r: nat)
    ensures r < Pow2(k)
    ensures forall i: nat {:trigger Bit(r, i)} :: Bit(r, i) == (i < k && Bit(x, i))
  {
    if k == 0 then 0 else
      var rest := Low(x / 2, k - 1);
      var r := 2 * rest + x % 2;
      assert r / 2 == rest;
      r
  }

  /** Two numbers with the same bits are the same number. */
  lemma {:induction false} SameBits(x: nat, y: nat)
    requires forall i: nat {:trigger Bit(x, i)} {:trigger Bit(y, i)} :: Bit(x, i) == Bit(y, i)
    ensures x == y
    decreases x + y
  {
    assert Bit(x, 0) == Bit(y, 0);
    if x + y > 0 {
      forall i: nat
        ensures Bit(x / 2, i) == Bit(y / 2, i)
      {
        assert Bit(x, i + 1) == Bit(y, i + 1);
      }
      if x / 2 + y / 2 < x + y {
        SameBits(x / 2, y / 2);
      }
    }
  }

  lemma {:induction false} PowBits(k: nat, i: nat)
    ensures Bit(Pow2(k), i) == (i == k)
    ensures Bit(Pow2(k) - 1, i) == (i < k)
  {
    if k > 0 && i > 0 {
      PowBits(k - 1, i - 1);
      assert (Pow2(k) - 1) / 2 == Pow2(k - 1) - 1;
    }
  }

  /** A number below 2^k has no bit at or above `k`. */
  lemma {:induction false} NoHighBits(x: nat, k: nat, i: nat)
    requires x < Pow2(k) && i >= k
    ensures !Bit(x, i)
  {
    if k > 0 {
      NoHighBits(x / 2, k - 1, i - 1);
    }
  }

  /** A number without bits at or above `k` is below 2^k. */
  lemma {:induction false} InRange(x: nat, k: nat)
    requires forall i: nat {:trigger Bit(x, i)} :: i >= k ==> !Bit(x, i)
    ensures x < Pow2(k)
  {
    if k == 0 {
      SameBits(x, 0);
    } else {
      forall i: nat | i >= k - 1
        ensures !Bit(x / 2, i)
      {
        assert !Bit(x, i + 1);
      }
      InRange(x / 2, k - 1);
    }
  }

  /** Two numbers below 2^k that agree on the first `k` bits are the same number. */
  lemma SameLowBits(x: nat, y: nat, k: nat)
    requires x < Pow2(k) && y < Pow2(k)
    requires forall i: nat {:trigger Bit(x, i)} {:trigger Bit(y, i)} :: i < k ==> Bit(x, i) == Bit(y, i)
    ensures x == y
  {
    forall i: nat
      ensures Bit(x, i) == Bit(y, i)
    {
      if i >= k {
        NoHighBits(x, k, i);
        NoHighBits(y, k, i);
      }
    }
    SameBits(x, y);
  }

  lemma LowEnds(c: nat, w: nat)
    ensures Low(c, 0) == 0
    ensures c < Pow2(w) ==> Low(c, w) == c
  {
  }

  lemma MaskIsLow(x: nat, k: nat)
    ensures And(x, Pow2(k) - 1) == Low(x, k)
  {
    forall i: nat
      ensures Bit(And(x, Pow2(k) - 1), i) == Bit(Low(x, k), i)
    {
      PowBits(k, i);
    }
    SameBits(And(x, Pow2(k) - 1), Low(x, k));
  }

  /** Splitting a number at bit `k` is division with remainder by 2^k. */
  lemma {:induction false} SplitAt(x: nat, k: nat)
    ensures x == Shr(x, k) * Pow2(k) + Low(x, k)
  {
    if k > 0 {
      var s, p, l := Shr(x / 2, k - 1), Pow2(k - 1), Low(x / 2, k - 1);
      SplitAt(x / 2, k - 1);
      Doubled(s, p);
      assert Pow2(k) == 2 * p && Shr(x, k) == s && Low(x, k) == 2 * l + x % 2;
    }
  }

  /** Multiplying by a natural number keeps the order. */
  lemma MulOrder(a: int, b: int, n: nat)
    ensures a <= b ==> a * n <= b * n
    ensures a < b ==> a * n + n <= b * n
  {
    if a < b {
      var k := b - a - 1;
      assert k * n >= 0;
      assert (a + 1 + k) * n == a * n + n + k * n;
    }
  }

  /** Quotient and remainder of a number written as a*n + j. */
  lemma RowAndColumn(n: nat, a: nat, j: nat)
    requires j < n
    ensures (a * n + j) / n == a
    ensures (a * n + j) % n == j
  {
    var i := a * n + j;
    var q, r := i / n, i % n;
    assert i == q * n + r;
    MulOrder(q, a, n);
    MulOrder(a, q, n);
  }

  /** A number cut into a digit of weight w in base m, what is above it, and what is below. */
  lemma Cut(x: nat, w: nat, m: nat) returns (a: nat, v: nat, t: nat)
    requires w > 0 && m > 0
    ensures w * m > 0 && a == x / (w * m) && v * w + t == x % (w * m)
    ensures x == (a * m + v) * w + t && v < m && t < w
  {
    MulOrder(1, w, m);
    var n := w * m;
    var r: nat;
    a, r := Divide(x, n);
    v, t := Divide(r, w);
    MulOrder(m, v, w);
    Regrouped(a, m, w, v);
  }

  lemma Divide(x: nat, n: nat) returns (q: nat, r: nat)
    requires n > 0
    ensures q == x / n && r == x % n && x == q * n + r && r < n
  {
    q, r := x / n, x % n;
  }

  lemma Regrouped(a: nat, m: nat, w: nat, v: nat)
    ensures a * (w * m) + v * w == (a * m + v) * w
    ensures w * m == m * w
  {
  }

  lemma NestedDivision(x: nat, w: nat, m: nat)
    requires w > 0 && m > 0
    ensures w * m > 0
    ensures x % (w * m) / w == x / w % m
    ensures x % (w * m) == (x / w % m) * w + x % w
    ensures x / w / m == x / (w * m)
  {
    var a, v, t := Cut(x, w, m);
    RowAndColumn(w, a * m + v, t);
    RowAndColumn(w, v, t);
    RowAndColumn(m, a, v);
  }

  lemma MulSucc(n: nat, k: nat)
    ensures n * 0 == 0
    ensures n * (k + 1) == n + n * k == n * k + n
  {
  }

  lemma Doubled(s: nat, p: nat)
    ensures s * (2 * p) == 2 * (s * p)
  {
  }

  lemma {:induction false} ShrShr(x: nat, a: nat, b: nat)
    ensures Shr(Shr(x, a), b) == Shr(x, a + b)
  {
    SameBits(Shr(Shr(x, a), b), Shr(x, a + b));
  }

  lemma {:induction false} ShrRange(x: nat, a: nat, b: nat)
    ensures Shr(x, a) < Pow2(b) <==> x < Pow2(a + b)
  {
    if a > 0 {
      ShrRange(x / 2, a - 1, b);
    }
  }

  lemma XorSwap(a: nat, b: nat)
    ensures Xor(a, b) == Xor(b, a)
  {
    SameBits(Xor(a, b), Xor(b, a));
  }

  lemma XorAssoc(a: nat, b: nat, c: nat)
    ensures Xor(Xor(a, b), c) == Xor(a, Xor(b, c))
  {
    SameBits(Xor(Xor(a, b), c), Xor(a, Xor(b, c)));
  }

  lemma XorZero(a: nat)
    ensures Xor(a, 0) == a && Xor(0, a) == a
  {
    SameBits(Xor(a, 0), a);
    SameBits(Xor(0, a), a);
  }

  // ----- Digits of n bits -----

  /** n*m, the number of bits in `m` digits of `n` bits, as a sum. */
  function Width(n: nat, m: nat): nat {
    if m == 0 then 0 else Width(n, m - 1) + n
  }

  lemma {:induction false} WidthIs(n: nat, m: nat)
    ensures Width(n, m) == n * m
  {
    if m > 0 {
      WidthIs(n, m - 1);
      MulSucc(n, m - 1);
    }
  }

  lemma {:induction false} WidthSum(n: nat, k: nat, m: nat)
    ensures Width(n, k + m) == Width(n, k) + Width(n, m)
  {
    if m > 0 {
      WidthSum(n, k, m - 1);
    }
  }

  /** The number without its last `k` digits of `n` bits. */
  function DropDigits(x: nat, n: nat, k: nat): nat {
    Shr(x, Width(n, k))
  }

  lemma DropDigitsStep(x: nat, n: nat, k: nat)
    ensures DropDigits(x, n, 0) == x
    ensures Shr(DropDigits(x, n, k), n) == DropDigits(x, n, k + 1) == DropDigits(Shr(x, n), n, k)
  {
    ShrShr(x, Width(n, k), n);
    ShrShr(x, n, Width(n, k));
  }

  lemma DigitRange(n: nat, m: nat, x: nat)
    requires m > 0
    ensures Shr(x, n) < Pow2(Width(n, m - 1)) <==> x < Pow2(Width(n, m))
  {
    hide Shr, Pow2;
    ShrRange(x, n, Width(n, m - 1));
  }

  lemma DropRange(n: nat, m: nat, k: nat, x: nat)
    requires k <= m
    ensures DropDigits(x, n, k) < Pow2(Width(n, m - k)) <==> x < Pow2(Width(n, m))
  {
    hide Shr, Pow2, Width;
    WidthSum(n, k, m - k);
    ShrRange(x, Width(n, k), Width(n, m - k));
  }

  /** A bit of a digit is a bit of the number. */
  lemma DigitBit(x: nat, n: nat, k: nat, j: nat)
    requires j < n
    ensures BitVal(Low(DropDigits(x, n, k), n), j) == BitVal(x, n * k + j)
  {
    hide Width;
    WidthIs(n, k);
  }

  lemma NextDown(x: nat, k: nat)
    ensures k > 0 ==> Low(x, k) == 2 * Low(x / 2, k - 1) + x % 2 && Shr(x, k) == Shr(x / 2, k - 1)
    ensures k == 0 ==> Low(x, k) == 0 && Shr(x, k) == x
    ensures if k > 0 then Pow2(k) == 2 * Pow2(k - 1) else Pow2(k) == 1
    ensures k > 0 ==> Low(x / 2, k - 1) < Pow2(k - 1)
  {
  }

  /** Counting up by one either advances the low `k` bits or carries into the rest. */
  lemma {:induction false} Successor(x: nat, k: nat)
    ensures Low(x, k) < Pow2(k) - 1 ==> Low(x + 1, k) == Low(x, k) + 1 && Shr(x + 1, k) == Shr(x, k)
    ensures Low(x, k) == Pow2(k) - 1 ==> Low(x + 1, k) == 0 && Shr(x + 1, k) == Shr(x, k) + 1
  {
    hide Low, Shr, Pow2;
    NextDown(x, k);
    NextDown(x + 1, k);
    if k > 0 {
      if x % 2 == 1 {
        Successor(x / 2, k - 1);
        assert (x + 1) / 2 == x / 2 + 1;
      } else {
        assert (x + 1) / 2 == x / 2;
      }
    }
  }
}
