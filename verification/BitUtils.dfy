/** vis/scurve/scurve/utils.py: Gray codes, rotations and bit fields. */
module BitUtils {
  import opened Bits

  // ----- Gray code -----

  function GrayCode(x: nat): nat {
    Xor(x, Shr(x, 1))
  }

  /** The inverse Gray code: bit k is the parity of all bits of `x` from k upwards. */
  function GrayInverse(x: nat): nat {
    if x == 0 then 0 else Xor(x, GrayInverse(x / 2))
  }

  lemma GrayBit(x: nat, k: nat)
    ensures Bit(GrayCode(x), k) == (Bit(x, k) != Bit(x, k + 1))
  {
  }

  lemma GrayHalf(x: nat)
    ensures GrayCode(x) / 2 == GrayCode(x / 2)
    ensures GrayCode(x) % 2 == 1 <==> (x % 2 == 1) != (x / 2 % 2 == 1)
  {
    forall k: nat
      ensures Bit(GrayCode(x) / 2, k) == Bit(GrayCode(x / 2), k)
    {
      GrayBit(x, k + 1);
      GrayBit(x / 2, k);
    }
    SameBits(GrayCode(x) / 2, GrayCode(x / 2));
    GrayBit(x, 0);
  }

  lemma GrayRange(x: nat, k: nat)
    requires x < Pow2(k)
    ensures GrayCode(x) < Pow2(k)
  {
    forall i: nat | i >= k
      ensures !Bit(GrayCode(x), i)
    {
      NoHighBits(x, k, i);
      NoHighBits(x, k, i + 1);
    }
    InRange(GrayCode(x), k);
  }

  lemma XorCancel(a: nat, b: nat)
    ensures Xor(Xor(a, b), b) == a
    ensures Xor(b, Xor(b, a)) == a
  {
    SameBits(Xor(Xor(a, b), b), a);
    SameBits(Xor(b, Xor(b, a)), a);
  }

  lemma {:induction false} GrayInverseHalf(x: nat)
    ensures GrayInverse(x) / 2 == GrayInverse(x / 2)
  {
    if x > 0 {
      GrayInverseHalf(x / 2);
      var rest := GrayInverse(x / 2);
      assert Xor(x, rest) / 2 == Xor(x / 2, rest / 2) by {
        forall k: nat
          ensures Bit(Xor(x, rest) / 2, k) == Bit(Xor(x / 2, rest / 2), k)
        {
          assert Bit(Xor(x, rest), k + 1) == Combine(XOR, Bit(x, k + 1), Bit(rest, k + 1));
        }
        SameBits(Xor(x, rest) / 2, Xor(x / 2, rest / 2));
      }
      if x / 2 == 0 {
        assert Xor(0, 0) == 0;
      }
    }
  }

  /** graycode and its inverse undo each other, on every natural number. */
  lemma {:induction false} GrayRoundTrip(x: nat)
    ensures GrayInverse(GrayCode(x)) == x
    ensures GrayCode(GrayInverse(x)) == x
  {
    if x == 0 {
      assert GrayCode(0) == Xor(0, 0) == 0;
    } else {
      GrayRoundTrip(x / 2);
      GrayHalf(x);
      var g, h := GrayCode(x), GrayInverse(x);
      assert Shr(x, 1) == x / 2 && Shr(h, 1) == h / 2;
      XorCancel(x, x / 2);
      GrayInverseHalf(x);
      XorCancel(x, GrayInverse(x / 2));
    }
  }

  lemma GrayInverseRange(x: nat, k: nat)
    requires x < Pow2(k)
    ensures GrayInverse(x) < Pow2(k)
    decreases k
  {
    if k > 0 {
      GrayInverseRange(x / 2, k - 1);
      GrayInverseHalf(x);
    }
  }

  /** Least c with 2^c >= x, which is what ceil(log(x, 2)) means. */
  function CeilLog2(x: nat): (c: nat)
    requires x > 0
    ensures x <= Pow2(c) && (c > 0 ==> Pow2(c - 1) < x)
  {
    if x == 1 then 0 else 1 + CeilLog2((x + 1) / 2)
  }

  /** x ^ (x >> 1) ^ ... ^ (x >> m-1): the value of the loop of igraycode after m - 1 rounds. */
  function XorOfShifts(x: nat, m: nat): nat {
    if m == 0 then 0 else Xor(XorOfShifts(x, m - 1), Shr(x, m - 1))
  }

  lemma {:induction false} XorOfShiftsHalf(x: nat, m: nat)
    ensures XorOfShifts(x, m + 1) == Xor(x, XorOfShifts(x / 2, m))
  {
    if m == 0 {
      assert XorOfShifts(x, 1) == Xor(XorOfShifts(x, 0), Shr(x, 0)) == Xor(0, x);
      SameBits(Xor(0, x), Xor(x, 0));
    } else {
      XorOfShiftsHalf(x, m - 1);
      var a, b := XorOfShifts(x / 2, m - 1), Shr(x, m);
      assert Shr(x / 2, m - 1) == b;
      SameBits(Xor(Xor(x, a), b), Xor(x, Xor(a, b)));
    }
  }

  /** Any number of rounds from the bit length of `x` upwards gives the inverse Gray code. */
  lemma {:induction false} EnoughShifts(x: nat, m: nat)
    requires x < Pow2(m)
    ensures XorOfShifts(x, m) == GrayInverse(x)
  {
    if m > 0 {
      XorOfShiftsHalf(x, m - 1);
      EnoughShifts(x / 2, m - 1);
      if x == 0 {
        assert Xor(0, 0) == 0;
      }
    }
  }

  lemma OneShift(x: nat)
    ensures XorOfShifts(x, 1) == x
  {
    assert XorOfShifts(x, 1) == Xor(XorOfShifts(x, 0), Shr(x, 0)) == Xor(0, x);
    XorZero(x);
  }

  method IGrayCode(x: nat) returns (i: nat)
    ensures i == GrayInverse(x)
  {
    hide Xor, Shr, Bit;
    if x == 0 {
      return x;
    }
    var m := CeilLog2(x) + 1;
    var j := 1;
    i := x;
    OneShift(x);
    while j < m
      invariant 1 <= j <= m
      invariant i == XorOfShifts(x, j)
    {
      i := Xor(i, Shr(x, j));
      j := j + 1;
    }
    EnoughShifts(x, m);
  }

  // ----- Trailing set bits -----

  /** The number of set bits at the low end of `x`. */
  function TrailingSetBits(x: nat): (t: nat)
    ensures !Bit(x, t)
    ensures forall k: nat {:trigger Bit(x, k)} :: k < t ==> Bit(x, k)
  {
    if x % 2 == 1 then 1 + TrailingSetBits(x / 2) else 0
  }

  /** All `width` bits are set in 2^width - 1 and in no smaller number. */
  lemma {:induction false} TrailingSetBitsRange(x: nat, width: nat)
    requires x < Pow2(width)
    ensures TrailingSetBits(x) <= width
    ensures TrailingSetBits(x) == width <==> x == Pow2(width) - 1
  {
    if width > 0 && x % 2 == 1 {
      TrailingSetBitsRange(x / 2, width - 1);
    }
  }

  method Tsb(x: nat, width: nat) returns (i: nat)
    requires x < Pow2(width)
    ensures i == TrailingSetBits(x)
  {
    TrailingSetBitsRange(x, width);
    var rest := x;
    i := 0;
    while rest % 2 == 1 && i <= width
      invariant i + TrailingSetBits(rest) == TrailingSetBits(x)
      invariant i <= width
    {
      assert Shr(rest, 1) == rest / 2;
      rest := Shr(rest, 1);
      i := i + 1;
    }
  }

  /** Consecutive Gray codes differ in one bit only: the lowest clear bit of the smaller index. */
  lemma {:induction false} GrayStep(x: nat)
    ensures Xor(GrayCode(x), GrayCode(x + 1)) == Pow2(TrailingSetBits(x))
  {
    hide GrayCode, Xor, Bit;
    var a, b := GrayCode(x), GrayCode(x + 1);
    GrayHalf(x);
    GrayHalf(x + 1);
    XorHalf(a, b);
    if x % 2 == 1 {
      GrayStep(x / 2);
    } else {
      assert (x + 1) / 2 == x / 2;
      XorSelf(a / 2);
    }
  }

  lemma XorSelf(a: nat)
    ensures Xor(a, a) == 0
  {
    SameBits(Xor(a, a), 0);
  }

  /** The last Gray code of `n` bits has its top bit only. */
  lemma GrayOfOnes(n: nat)
    requires n > 0
    ensures GrayCode(Pow2(n) - 1) == Pow2(n - 1)
  {
    var w := Pow2(n) - 1;
    forall k: nat
      ensures Bit(GrayCode(w), k) == Bit(Pow2(n - 1), k)
    {
      PowBits(n, k);
      PowBits(n, k + 1);
      PowBits(n - 1, k);
      GrayBit(w, k);
    }
    SameBits(GrayCode(w), Pow2(n - 1));
  }

  lemma XorHalf(a: nat, b: nat)
    ensures Xor(a, b) == 2 * Xor(a / 2, b / 2) + (if a % 2 != b % 2 then 1 else 0)
  {
  }

  // ----- Rotations -----

  function RRot(x: nat, i: nat, width: nat): nat
    requires width > 0 && x < Pow2(width)
  {
    RotateRight(x, i % width, width)
  }

  function LRot(x: nat, i: nat, width: nat): nat
    requires width > 0 && x < Pow2(width)
  {
    RotateLeft(x, i % width, width)
  }

  function RotateRight(x: nat, r: nat, width: nat): (y: nat)
    requires r < width && x < Pow2(width)
    ensures TurnedRight(x, y, r, width)
  {
    MaskIsLow(Or(Shr(x, r), Shl(x, width - r)), width);
    assert forall k: nat {:trigger Bit(x, k)} :: k >= width ==> !Bit(x, k) by {
      forall k: nat | k >= width { NoHighBits(x, width, k); }
    }
    And(Or(Shr(x, r), Shl(x, width - r)), Pow2(width) - 1)
  }

  function RotateLeft(x: nat, r: nat, width: nat): (y: nat)
    requires r < width && x < Pow2(width)
    ensures TurnedLeft(x, y, r, width)
  {
    MaskIsLow(Or(Shl(x, r), Shr(x, width - r)), width);
    assert forall k: nat {:trigger Bit(x, k)} :: k >= width ==> !Bit(x, k) by {
      forall k: nat | k >= width { NoHighBits(x, width, k); }
    }
    And(Or(Shl(x, r), Shr(x, width - r)), Pow2(width) - 1)
  }

  /** Where a left rotation by `r` moves bit `k`. */
  function Turn(k: nat, r: nat, width: nat): nat
    requires k < width && r < width
  {
    if k + r < width then k + r else k + r - width
  }

  /** Which bit a left rotation by `r` moves to `k`. */
  function Unturn(k: nat, r: nat, width: nat): nat
    requires k < width && r < width
  {
    if k >= r then k - r else k + width - r
  }

  /** `y` is `x` with its `width` bits turned left by `r`. */
  ghost predicate TurnedLeft(x: nat, y: nat, r: nat, width: nat)
    requires r < width
  {
    && y < Pow2(width)
    && forall k: nat {:trigger Bit(y, k)} :: k < width ==> Bit(y, k) == Bit(x, Unturn(k, r, width))
  }

  ghost predicate TurnedRight(x: nat, y: nat, r: nat, width: nat)
    requires r < width
  {
    && y < Pow2(width)
    && forall k: nat {:trigger Bit(y, k)} :: k < width ==> Bit(y, k) == Bit(x, Turn(k, r, width))
  }

  lemma TurnUnturn(k: nat, r: nat, width: nat)
    requires k < width && r < width
    ensures Turn(k, r, width) < width && Unturn(Turn(k, r, width), r, width) == k
    ensures Unturn(k, r, width) < width && Turn(Unturn(k, r, width), r, width) == k
  {
  }

  lemma TurnBack(x: nat, y: nat, z: nat, r: nat, width: nat)
    requires r < width && x < Pow2(width)
    requires (TurnedLeft(x, y, r, width) && TurnedRight(y, z, r, width))
          || (TurnedRight(x, y, r, width) && TurnedLeft(y, z, r, width))
    ensures z == x
  {
    hide Bit, Pow2, Turn, Unturn;
    forall k: nat | k < width
      ensures Bit(z, k) == Bit(x, k)
    {
      TurnUnturn(k, r, width);
    }
    SameLowBits(x, z, width);
  }

  /** Rotating left and right by the same amount are inverse. */
  lemma RotRoundTrip(x: nat, i: nat, width: nat)
    requires width > 0 && x < Pow2(width)
    ensures RRot(LRot(x, i, width), i, width) == x
    ensures LRot(RRot(x, i, width), i, width) == x
  {
    hide RotateLeft, RotateRight, Bit, Pow2, Turn, Unturn;
    TurnBack(x, LRot(x, i, width), RRot(LRot(x, i, width), i, width), i % width, width);
    TurnBack(x, RRot(x, i, width), LRot(RRot(x, i, width), i, width), i % width, width);
  }

  lemma SameTurn(x: nat, y: nat, z: nat, r: nat, width: nat)
    requires r < width
    requires TurnedLeft(x, y, r, width)
    requires TurnedRight(x, z, if r == 0 then 0 else width - r, width)
    ensures y == z
  {
    SameLowBits(y, z, width);
  }

  /** A left rotation is a right rotation by the complement. */
  lemma LRotIsRRot(x: nat, i: nat, width: nat)
    requires width > 0 && x < Pow2(width) && i <= width
    ensures LRot(x, i, width) == RRot(x, width - i, width)
  {
    SmallMod(i, width);
    SmallMod(width - i, width);
    SameTurn(x, LRot(x, i, width), RRot(x, width - i, width), i % width, width);
  }

  lemma ModOnce(a: nat, n: nat)
    requires 0 < n <= a < 2 * n
    ensures a % n == a - n
  {
  }

  lemma SmallMod(i: nat, width: nat)
    requires 0 < width && i <= width
    ensures i % width == if i == width then 0 else i
  {
  }

  /** Rotation commutes with exclusive or. */
  lemma LRotXor(x: nat, y: nat, i: nat, width: nat)
    requires width > 0 && x < Pow2(width) && y < Pow2(width)
    ensures Xor(x, y) < Pow2(width)
    ensures LRot(Xor(x, y), i, width) == Xor(LRot(x, i, width), LRot(y, i, width))
  {
    XorRange(x, y, width);
    var left, right := LRot(Xor(x, y), i, width), Xor(LRot(x, i, width), LRot(y, i, width));
    XorRange(LRot(x, i, width), LRot(y, i, width), width);
    assert forall k: nat | k < width :: Bit(left, k) == Bit(right, k);
    SameLowBits(left, right, width);
  }

  /** Rotation moves a single set bit. */
  lemma LRotPow(t: nat, i: nat, width: nat)
    requires t < width
    ensures Pow2(t) < Pow2(width)
    ensures LRot(Pow2(t), i, width) == Pow2(Turn(t, i % width, width))
  {
    var r := i % width;
    var u := Turn(t, r, width);
    PowRange(t, width);
    PowRange(u, width);
    var left := RotateLeft(Pow2(t), r, width);
    forall k: nat | k < width
      ensures Bit(left, k) == Bit(Pow2(u), k)
    {
      PowBits(t, Unturn(k, r, width));
      PowBits(u, k);
    }
    SameLowBits(left, Pow2(u), width);
  }

  lemma XorRange(x: nat, y: nat, k: nat)
    requires x < Pow2(k) && y < Pow2(k)
    ensures Xor(x, y) < Pow2(k)
  {
    forall i: nat | i >= k
      ensures !Bit(Xor(x, y), i)
    {
      NoHighBits(x, k, i);
      NoHighBits(y, k, i);
    }
    InRange(Xor(x, y), k);
  }

  lemma PowRange(t: nat, k: nat)
    requires t < k
    ensures Pow2(t) < Pow2(k)
  {
  }

  // ----- Bit fields; bit 0 of a field of width w is its most significant bit -----

  function SetBit(x: nat, w: nat, i: nat, b: nat): (r: nat)
    requires b in [1, 0] && i < w
    ensures forall k: nat {:trigger Bit(r, k)} :: Bit(r, k) == if k == w - i - 1 then b == 1 else Bit(x, k)
  {
    var mask := Pow2(w - i - 1);
    assert forall k: nat {:trigger Bit(mask, k)} :: Bit(mask, k) == (k == w - i - 1) by {
      forall k: nat { PowBits(w - i - 1, k); }
    }
    if b != 0 then Or(x, mask) else AndNot(x, mask)
  }

  function BitRange(x: nat, width: nat, start: nat, end: nat): (r: nat)
    requires start <= end <= width
    ensures r == Low(Shr(x, width - end), end - start)
  {
    MaskIsLow(Shr(x, width - end), end - start);
    And(Shr(x, width - end), Pow2(end - start) - 1)
  }

  lemma LastOfRange(x: nat, width: nat, start: nat, end: nat)
    requires start < end <= width
    ensures BitRange(x, width, start, end) == 2 * BitRange(x, width, start, end - 1) + BitVal(x, width - end)
  {
    hide Shr, Low, BitVal, Pow2;
    NextDown(Shr(x, width - end), end - start);
    ShrNext(x, width - end);
  }

  lemma ShrNext(x: nat, k: nat)
    ensures Shr(x, k) / 2 == Shr(x, k + 1) && Shr(x, k) % 2 == BitVal(x, k)
  {
    hide Shr;
    ShrShr(x, k, 1);
    NextDown(Shr(x, k), 1);
    NextDown(Shr(x, k) / 2, 0);
    assert Bit(Shr(x, k), 0) == Bit(x, k);
  }

  lemma EmptyRange(x: nat, width: nat, start: nat)
    requires start <= width
    ensures BitRange(x, width, start, start) == 0
  {
    hide Shr;
  }

  lemma OneBitRange(x: nat, width: nat, start: nat)
    requires start < width
    ensures BitRange(x, width, start, start + 1) == BitVal(x, width - start - 1)
  {
    hide BitRange, BitVal;
    LastOfRange(x, width, start, start + 1);
    EmptyRange(x, width, start);
  }

  /** Or-ing bit `x` of `c` into its bits below `x`. */
  lemma OrBit(l: nat, c: nat, x: nat, b: nat)
    requires b == BitVal(c, x) && l == Low(c, x)
    ensures Or(l, Shl(b, x)) == Low(c, x + 1)
  {
    forall k: nat
      ensures Bit(Or(l, Shl(b, x)), k) == Bit(Low(c, x + 1), k)
    {
      if k > x {
        NoHighBits(b, 1, k - x);
      } else if k == x {
        assert Bit(Shl(b, x), x) == Bit(b, 0);
      }
    }
    SameBits(Or(l, Shl(b, x)), Low(c, x + 1));
  }

  // ----- Lists of bits, most significant first -----

  /** The number a list of digits stands for, read in base two. */
  function Value(bits: seq<nat>): nat {
    if |bits| == 0 then 0 else 2 * Value(bits[..|bits| - 1]) + bits[|bits| - 1]
  }

  ghost predicate IsBitList(bin: seq<nat>, n: nat, width: nat) {
    |bin| == width && forall j :: 0 <= j < width ==> bin[j] == BitVal(n, width - 1 - j)
  }

  method BitList(n: nat, width: nat) returns (bin: seq<nat>)
    requires n < Pow2(width)
    ensures IsBitList(bin, n, width)
  {
    bin := [];
    for i := 0 to width
      invariant |bin| == i
      invariant forall j :: 0 <= j < i ==> bin[j] == BitVal(n, i - 1 - j)
    {
      assert And(n, Shl(1, i)) != 0 <==> Bit(n, i) by {
        if Bit(n, i) {
          assert Bit(And(n, Shl(1, i)), i);
        } else {
          forall k: nat
            ensures !Bit(And(n, Shl(1, i)), k)
          {
            if k > i {
              NoHighBits(1, 1, k - i);
            }
          }
          SameBits(And(n, Shl(1, i)), 0);
        }
      }
      bin := [if And(n, Shl(1, i)) != 0 then 1 else 0] + bin;
    }
  }

  lemma {:induction false} ValuePrepend(b: nat, bits: seq<nat>)
    ensures Value([b] + bits) == b * Pow2(|bits|) + Value(bits)
  {
    if |bits| == 0 {
      assert ([b] + bits)[..0] == [];
    } else {
      var init := bits[..|bits| - 1];
      assert ([b] + bits)[..|bits|] == [b] + init;
      ValuePrepend(b, init);
      Doubled(b, Pow2(|init|));
      assert Value([b] + bits) == 2 * Value([b] + init) + bits[|bits| - 1];
    }
  }

  method Bits2Int(bits: seq<nat>) returns (n: nat)
    ensures n == Value(bits)
  {
    n := 0;
    for p := 0 to |bits|
      invariant n == Value(bits[|bits| - p..])
    {
      var i := bits[|bits| - 1 - p];
      assert bits[|bits| - (p + 1)..] == [i] + bits[|bits| - p..];
      ValuePrepend(i, bits[|bits| - p..]);
      n := n + i * Pow2(p);
    }
    assert bits[0..] == bits;
  }

  lemma BitListLength(x: nat, width: nat, bin: seq<nat>)
    requires IsBitList(bin, x, width)
    ensures |bin| == width
  {
  }

  lemma ListedBit(x: nat, width: nat, i: nat, bin: seq<nat>)
    requires i < width && IsBitList(bin, x, width)
    ensures |bin| == width && bin[i] == BitVal(x, width - 1 - i)
  {
  }

  /** A bit range is the number written by that stretch of the list of bits. */
  lemma {:induction false} BitRangeIsSlice(x: nat, width: nat, start: nat, end: nat, bin: seq<nat>)
    requires start <= end <= width
    requires IsBitList(bin, x, width)
    ensures BitRange(x, width, start, end) == Value(bin[start..end])
  {
    hide Shr, Low, Bit, BitVal, BitRange, IsBitList;
    BitListLength(x, width, bin);
    if start < end {
      BitRangeIsSlice(x, width, start, end - 1, bin);
      assert bin[start..end][..end - start - 1] == bin[start..end - 1];
      LastOfRange(x, width, start, end);
      ListedBit(x, width, end - 1, bin);
    } else {
      EmptyRange(x, width, start);
    }
  }

  /** bits2int undoes bits. */
  lemma BitListRoundTrip(n: nat, width: nat, bin: seq<nat>)
    requires n < Pow2(width)
    requires IsBitList(bin, n, width)
    ensures Value(bin) == n
  {
    BitRangeIsSlice(n, width, 0, width, bin);
    assert bin[0..width] == bin;
    forall i: nat | i < width
      ensures Bit(Low(n, width), i) == Bit(n, i)
    {
    }
    SameLowBits(Low(n, width), n, width);
  }
}
