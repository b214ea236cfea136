/** vis/scurve/binvispt, GENERIC_PT: folding the pages of a dump into windows of one size. */
module Windows {
  import opened Bits
  import opened PageTables
  import opened PageWalk
  import opened WalkTranslation
  import opened DumpParser

  /** The six access flags of a page or window. */
  datatype Access = Access(readUser: bool, readSuper: bool, writeUser: bool, writeSuper: bool,
                           executeUser: bool, executeSuper: bool)

  function AccessOf(p: Page): Access {
    Access(p.readUser, p.readSuper, p.writeUser, p.writeSuper, p.executeUser, p.executeSuper)
  }

  // ----- The update rule -----

  datatype Flag = WriteSuper | WriteUser | ExecuteUser | ReadUser

  /** The four flags the rule looks at. */
  function Tested(a: Access): set<Flag> {
    (if a.writeSuper then {WriteSuper} else {})
    + (if a.writeUser then {WriteUser} else {})
    + (if a.executeUser then {ExecuteUser} else {})
    + (if a.readUser then {ReadUser} else {})
  }

  /** The four tests of the constructor, one after the other on the window as it then is. */
  function Merge(window: Access, page: Access): Access {
    var w1 := if !window.writeSuper && page.writeSuper then page else window;
    var w2 := if !w1.writeUser && page.writeUser then page else w1;
    var w3 := if !w2.executeUser && page.executeUser then page else w2;
    if !w3.readUser && page.readUser then page else w3
  }

  /** Has `b` all of the flags among kernel write, user write, user execute and user read that `a` has? */
  predicate Among(a: Access, b: Access) {
    && (a.writeSuper ==> b.writeSuper)
    && (a.writeUser ==> b.writeUser)
    && (a.executeUser ==> b.executeUser)
    && (a.readUser ==> b.readUser)
  }

  lemma AmongIff(a: Access, b: Access)
    ensures Tested(a) <= Tested(b) <==> Among(a, b)
  {
    if Tested(a) <= Tested(b) {
      assert WriteSuper in Tested(a) ==> WriteSuper in Tested(b);
      assert WriteUser in Tested(a) ==> WriteUser in Tested(b);
      assert ExecuteUser in Tested(a) ==> ExecuteUser in Tested(b);
      assert ReadUser in Tested(a) ==> ReadUser in Tested(b);
    }
  }

  /** In effect a window keeps its flags unless the page has a tested flag that they lack. */
  lemma MergeRule(window: Access, page: Access)
    ensures Merge(window, page) == if Tested(page) <= Tested(window) then window else page
    ensures Merge(window, page) == if Among(page, window) then window else page
  {
    AmongIff(page, window);
  }

  /** The flags of a window over which the given pages lie, in the order they are met. */
  function Fold(over: seq<Access>): Access
    requires |over| > 0
  {
    if |over| == 1 then over[0] else Merge(Fold(over[..|over| - 1]), over[|over| - 1])
  }

  function AllTested(over: seq<Access>): set<Flag> {
    if |over| == 0 then {} else AllTested(over[..|over| - 1]) + Tested(over[|over| - 1])
  }

  /** The window shows the flags of one of the pages. */
  lemma {:induction false} FoldMember(over: seq<Access>)
    requires |over| > 0
    ensures Fold(over) in over
  {
    if |over| > 1 {
      var init := over[..|over| - 1];
      FoldMember(init);
      assert over == init + [over[|over| - 1]];
      MergeRule(Fold(init), over[|over| - 1]);
    }
  }

  lemma {:induction false} AllTestedContains(over: seq<Access>, a: Access)
    requires a in over
    ensures Tested(a) <= AllTested(over)
  {
    hide Tested;
    var init := over[..|over| - 1];
    assert over == init + [over[|over| - 1]];
    if a in init {
      AllTestedContains(init, a);
    }
  }

  lemma {:induction false} AllTestedFrom(over: seq<Access>, f: Flag)
    requires f in AllTested(over)
    ensures exists a :: a in over && f in Tested(a)
  {
    hide Tested;
    var init, last := over[..|over| - 1], over[|over| - 1];
    assert over == init + [last];
    if f in Tested(last) {
      assert last in over;
    } else {
      AllTestedFrom(init, f);
      var a :| a in init && f in Tested(a);
      assert a in over;
    }
  }

  /** Does some page have every tested flag that any of the pages has? */
  ghost predicate HasTop(over: seq<Access>) {
    exists a :: a in over && Tested(a) == AllTested(over)
  }

  lemma {:induction false} FoldReachesTop(over: seq<Access>, a: Access)
    requires a in over && Tested(a) == AllTested(over)
    ensures Tested(Fold(over)) == AllTested(over)
  {
    hide Tested, Merge;
    if |over| > 1 {
      var init, last := over[..|over| - 1], over[|over| - 1];
      assert over == init + [last];
      MergeRule(Fold(init), last);
      FoldMember(init);
      AllTestedContains(init, Fold(init));
      AllTestedContains(over, last);
      if a in init {
        AllTestedContains(init, a);
        FoldReachesTop(init, a);
      }
    }
  }

  /** The window shows every tested flag of the pages over it exactly when one page has them all. */
  lemma ShowsAllIff(over: seq<Access>)
    requires |over| > 0
    ensures Tested(Fold(over)) == AllTested(over) <==> HasTop(over)
  {
    hide Tested;
    FoldMember(over);
    if HasTop(over) {
      var a :| a in over && Tested(a) == AllTested(over);
      FoldReachesTop(over, a);
    }
  }

  /** In particular, pages whose tested flags form a chain have one with them all. */
  lemma {:induction false} ChainHasTop(over: seq<Access>)
    requires |over| > 0
    requires forall a, b :: a in over && b in over ==> Tested(a) <= Tested(b) || Tested(b) <= Tested(a)
    ensures HasTop(over)
  {
    hide Tested;
    var init, last := over[..|over| - 1], over[|over| - 1];
    assert over == init + [last];
    if |init| > 0 {
      ChainHasTop(init);
      var top :| top in init && Tested(top) == AllTested(init);
      assert top in over && last in over;
      assert Tested(top) == AllTested(over) || Tested(last) == AllTested(over);
    } else {
      assert Tested(last) == AllTested(over);
    }
  }

  lemma SameAllTested(over: seq<Access>, other: seq<Access>)
    requires multiset(over) == multiset(other)
    ensures AllTested(over) == AllTested(other)
  {
    hide Tested, AllTested;
    forall f: Flag
      ensures f in AllTested(over) <==> f in AllTested(other)
    {
      if f in AllTested(over) {
        AllTestedFrom(over, f);
        var a :| a in over && f in Tested(a);
        assert a in multiset(other);
        AllTestedContains(other, a);
      }
      if f in AllTested(other) {
        AllTestedFrom(other, f);
        var a :| a in other && f in Tested(a);
        assert a in multiset(over);
        AllTestedContains(over, a);
      }
    }
  }

  /** If one page has all tested flags, the order of the pages does not matter to them. */
  lemma OrderFree(over: seq<Access>, other: seq<Access>)
    requires |over| > 0 && HasTop(over) && multiset(over) == multiset(other)
    ensures |other| > 0 && Tested(Fold(other)) == Tested(Fold(over))
  {
    hide Tested, AllTested, Fold;
    var a :| a in over && Tested(a) == AllTested(over);
    assert a in multiset(other);
    SameAllTested(over, other);
    FoldReachesTop(over, a);
    FoldReachesTop(other, a);
  }

  /** A window over a page of kernel data and, met later, a page of user code: it no longer shows that
      the kernel can write there. */
  lemma WriteMissed()
    ensures var data := Access(false, true, false, true, false, false);
            var code := Access(true, true, false, false, true, false);
            && WriteSuper in AllTested([data, code]) && WriteSuper !in Tested(Fold([data, code]))
            && WriteSuper in Tested(Fold([code, data]))
  {
    var data := Access(false, true, false, true, false, false);
    var code := Access(true, true, false, false, true, false);
    assert [data, code][..1] == [data] && [code, data][..1] == [code];
  }

  /** The pages with the one at `b` met last. */
  function MovedLast(over: seq<Access>, b: nat): seq<Access>
    requires b < |over|
  {
    over[..b] + over[b + 1..] + [over[b]]
  }

  /** If no page has all tested flags, meeting the pages in another order changes them. */
  lemma OrderMatters(over: seq<Access>) returns (b: nat)
    requires |over| > 0 && !HasTop(over)
    ensures b < |over| && multiset(MovedLast(over, b)) == multiset(over)
    ensures Tested(Fold(MovedLast(over, b))) != Tested(Fold(over))
  {
    hide Tested, AllTested;
    FoldMember(over);
    AllTestedContains(over, Fold(over));
    ShowsAllIff(over);
    var f :| f in AllTested(over) && f !in Tested(Fold(over));
    AllTestedFrom(over, f);
    var a :| a in over && f in Tested(a);
    b :| 0 <= b < |over| && over[b] == a;
    var moved := MovedLast(over, b);
    assert over == over[..b] + [over[b]] + over[b + 1..];
    assert moved[..|moved| - 1] == over[..b] + over[b + 1..];
    if |moved| > 1 {
      MergeRule(Fold(moved[..|moved| - 1]), a);
    }
  }

  // ----- Windows -----

  /** win_size, start and stop; `arm` tells which parser the data came from. */
  datatype Range = Range(size: nat, start: nat, stop: nat, arm: bool)

  function Base(r: Range): nat {
    if r.stop != 0 then r.start else 0
  }

  /** The number of windows; a negative count makes an empty list. */
  function Count(r: Range): nat
    requires r.size > 0
  {
    if r.stop != 0 then (if r.stop >= r.start then (r.stop - r.start) / r.size else 0)
    else (if r.arm then 0x1_0000_0000 else 0x1_0000_0000_0000) / r.size
  }

  /** As many windows as fit into the chosen range, or into the address space of the dump. */
  lemma CountIs(r: Range)
    requires r.size > 0
    ensures var space := if r.stop != 0 then r.stop - r.start else if r.arm then 0x1_0000_0000 else 0x1_0000_0000_0000;
            if space < 0 then Count(r) == 0 else Count(r) * r.size <= space < Count(r) * r.size + r.size
  {
    if r.stop != 0 && r.stop >= r.start {
      var q, t := Divide(r.stop - r.start, r.size);
    } else {
      var q, t := Divide(if r.arm then 0x1_0000_0000 else 0x1_0000_0000_0000, r.size);
    }
  }

  function RoundDown(x: nat, size: nat): nat
    requires size > 0
  {
    x - x % size
  }

  /** The address of the first window: the first multiple of the window size not below the base. */
  function First(r: Range): nat
    requires r.size > 0
  {
    if Base(r) % r.size == 0 then Base(r) else RoundDown(Base(r), r.size) + r.size
  }

  /** The address of window `i`. */
  function Addr(r: Range, i: nat): nat
    requires r.size > 0
  {
    First(r) + i * r.size
  }

  /** Pages that start outside the chosen range are skipped. */
  predicate Skipped(r: Range, p: Page)
    requires r.size > 0
  {
    r.stop != 0 && (RoundDown(p.start, r.size) < r.start || RoundDown(p.start, r.size) > r.stop)
  }

  /** Does the window that holds the start of page `p` begin in the chosen range, if there is one? */
  predicate InChosen(r: Range, p: Page)
    requires r.size > 0
  {
    r.stop != 0 ==> r.start <= p.start - p.start % r.size <= r.stop
  }

  lemma SkippedIff(r: Range, p: Page)
    requires r.size > 0
    ensures Skipped(r, p) <==> !InChosen(r, p)
  {
  }

  /** Is page `p` folded into window `i`? */
  predicate Touches(r: Range, p: Page, i: nat)
    requires r.size > 0
  {
    !Skipped(r, p) && RoundDown(p.start, r.size) <= Addr(r, i) < p.end
  }

  /** Are there windows for the whole of page `p`? */
  predicate Fits(r: Range, p: Page)
    requires r.size > 0
  {
    Skipped(r, p) || p.end <= RoundDown(p.start, r.size) || p.end <= Addr(r, Count(r))
  }

  /** The pages over window `i`, in the order they are met. */
  function Over(r: Range, pages: seq<Page>, i: nat): seq<Access>
    requires r.size > 0
  {
    if |pages| == 0 then [] else
      Over(r, pages[..|pages| - 1], i)
      + (if Touches(r, pages[|pages| - 1], i) then [AccessOf(pages[|pages| - 1])] else [])
  }

  lemma RoundDownLaw(x: nat, size: nat, k: nat)
    requires size > 0
    ensures RoundDown(x, size) % size == 0
    ensures RoundDown(x, size) <= k * size <==> x < k * size + size
  {
    var q := x / size;
    assert x == q * size + x % size;
    RowAndColumn(size, q, 0);
    MulOrder(q, k, size);
    MulOrder(k, q, size);
  }

  lemma FirstMultiple(r: Range) returns (f: nat)
    requires r.size > 0
    ensures First(r) == f * r.size
    ensures Base(r) <= First(r) < Base(r) + r.size
  {
    var b := Base(r);
    var q := b / r.size;
    assert b == q * r.size + b % r.size;
    f := if b % r.size == 0 then q else q + 1;
    assert (q + 1) * r.size == q * r.size + r.size;
  }

  lemma AddrMultiple(r: Range, i: nat) returns (k: nat)
    requires r.size > 0
    ensures Addr(r, i) == k * r.size
  {
    var f := FirstMultiple(r);
    k := f + i;
    assert (f + i) * r.size == f * r.size + i * r.size;
  }

  /** A page is folded into exactly the windows that it overlaps, unless it begins in a window outside
      the chosen range. */
  lemma TouchesIsOverlap(r: Range, p: Page, i: nat)
    requires r.size > 0 && p.start < p.end
    ensures Touches(r, p, i)
       <==> InChosen(r, p) && p.start < Addr(r, i) + r.size && Addr(r, i) < p.end
  {
    hide Skipped, InChosen, RoundDown, Addr;
    SkippedIff(r, p);
    var k := AddrMultiple(r, i);
    RoundDownLaw(p.start, r.size, k);
  }

  lemma {:induction false} OverMember(r: Range, pages: seq<Page>, i: nat, a: Access)
    requires r.size > 0
    ensures a in Over(r, pages, i) <==> exists p :: p in pages && Touches(r, p, i) && AccessOf(p) == a
  {
    hide Touches, AccessOf;
    if |pages| > 0 {
      var init, last := pages[..|pages| - 1], pages[|pages| - 1];
      OverMember(r, init, i, a);
      assert pages == init + [last];
    }
  }

  // ----- Which pages have their windows -----

  const LOWER_HALF := 0x8000_0000_0000

  /** Without a chosen range, the windows end above the lower half of the address space and at the
      latest where the 48-bit addresses do, unless one window is larger than those. */
  lemma DefaultEnd(size: nat)
    requires size > 0
    ensures var r := Range(size, 0, 0, false);
            if size <= VIRTUAL_SPACE then LOWER_HALF < Addr(r, Count(r)) <= VIRTUAL_SPACE else Addr(r, Count(r)) == 0
  {
    hide Addr, First;
    var r := Range(size, 0, 0, false);
    var q, rest := Divide(VIRTUAL_SPACE, size);
    FromZero(r, q);
    MulOrder(1, q, size);
    MulOrder(q, 0, size);
  }

  lemma FromZero(r: Range, i: nat)
    requires r.size > 0 && r.stop == 0
    ensures Addr(r, i) == i * r.size
  {
    var f := FirstMultiple(r);
  }

  lemma PageHalf(l: Line)
    requires IsParsed(l) && Placed(l, 0, VIRTUAL_SPACE)
    ensures Start(l) < LOWER_HALF ==> PageOf(l).start < PageOf(l).end <= LOWER_HALF
    ensures Start(l) >= LOWER_HALF ==> VIRTUAL_SPACE < PageOf(l).start < PageOf(l).end
  {
  }

  lemma RoundDownBelow(x: nat, size: nat)
    requires size > 0
    ensures RoundDown(x, size) <= x
  {
  }

  /** Without a chosen range, a page of an IA-32e dump has its windows exactly when it lies in the
      lower half of the address space and a window is no larger than that space: sign extension
      moves the upper half past the last window. */
  lemma DefaultRangeFits(l: Line, size: nat)
    requires IsParsed(l) && Placed(l, 0, VIRTUAL_SPACE) && size > 0
    ensures Fits(Range(size, 0, 0, false), PageOf(l)) <==> Start(l) < LOWER_HALF && size <= VIRTUAL_SPACE
  {
    hide Addr, Count, RoundDown, PageOf, Placed;
    DefaultEnd(size);
    PageHalf(l);
    RoundDownBelow(PageOf(l).start, size);
  }

  /** The first page of the upper half, on windows of one page. */
  lemma UpperHalfFails()
    ensures var l := Page4K(256, 0, 0, 0, 0x8000_0000_0000, Flags(true, false, false), 0x1000);
            IsParsed(l) && Placed(l, 0, VIRTUAL_SPACE) && !Fits(Range(0x1000, 0, 0, false), PageOf(l))
  {
    hide Fits;
    DefaultRangeFits(Page4K(256, 0, 0, 0, 0x8000_0000_0000, Flags(true, false, false), 0x1000), 0x1000);
  }

  /** Where the windows of a chosen range end: with the window before the one that holds `stop`, or
      with that one if the remainder of `start` is neither 0 nor above that of `stop`. */
  function LastEnd(r: Range): nat
    requires r.size > 0
  {
    RoundDown(r.stop, r.size) + (if 0 < r.start % r.size <= r.stop % r.size then r.size else 0)
  }

  lemma Subtracted(a: int, b: int, n: nat)
    ensures (b - a) * n == b * n - a * n
  {
  }

  /** The number of windows between a*n + s and b*n + t. */
  lemma Between(a: nat, s: nat, b: nat, t: nat, n: nat)
    requires s < n && t < n && a * n + s <= b * n + t
    ensures var c := if s <= t then b - a else b - a - 1;
            c >= 0 && (b * n + t - (a * n + s)) / n == c && c * n == (b * n - a * n) - (if s <= t then 0 else n)
  {
    MulOrder(b, a, n);
    Subtracted(a, b, n);
    Subtracted(1, b - a, n);
    var c := if s <= t then b - a else b - a - 1;
    RowAndColumn(n, c, if s <= t then t - s else t - s + n);
  }

  lemma ChosenEnd(r: Range)
    requires r.size > 0 && r.stop != 0 && r.start <= r.stop
    ensures Addr(r, Count(r)) == LastEnd(r)
  {
    var a, s := Divide(r.start, r.size);
    var b, t := Divide(r.stop, r.size);
    Between(a, s, b, t, r.size);
  }

  /** With a chosen range, a page has its windows exactly when it begins in a window before `start` or
      past `stop`, and so is skipped, or ends where the windows end. */
  lemma ChosenRangeFits(r: Range, p: Page)
    requires r.size > 0 && r.stop != 0 && p.start < p.end
    ensures Fits(r, p)
       <==> RoundDown(p.start, r.size) < r.start || RoundDown(p.start, r.size) > r.stop || p.end <= LastEnd(r)
  {
    hide Addr, Count, LastEnd, RoundDown;
    RoundDownBelow(p.start, r.size);
    if r.start <= r.stop {
      ChosenEnd(r);
    }
  }

  /** A page at `stop`, which has no window but is not skipped. */
  lemma PageAtStopFails()
    ensures var l := Page4K(0, 0, 0, 2, 0x2000, Flags(true, false, false), 0x1000);
            IsParsed(l) && Placed(l, 0, VIRTUAL_SPACE) && !Fits(Range(0x1000, 0x1000, 0x2000, false), PageOf(l))
  {
    hide Fits;
    var p := PageOf(Page4K(0, 0, 0, 2, 0x2000, Flags(true, false, false), 0x1000));
    assert RoundDown(0x2000, 0x1000) == 0x2000;
    ChosenRangeFits(Range(0x1000, 0x1000, 0x2000, false), p);
  }
}
