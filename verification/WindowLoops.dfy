/** The nested loops of GENERIC_PT.__init__ in vis/scurve/binvispt, proved against module Windows. */
module WindowLoops {
  import opened Bits
  import opened DumpParser
  import opened Windows

  /** A pt.Page object standing for a window; its fields are updated in place. */
  class Window {
    const start: nat
    const end: nat
    var readUser: bool
    var readSuper: bool
    var writeUser: bool
    var writeSuper: bool
    var executeUser: bool
    var executeSuper: bool

    function View(): Access
      reads this
    {
      Access(readUser, readSuper, writeUser, writeSuper, executeUser, executeSuper)
    }

    constructor (start: nat, end: nat, page: Page)
      ensures this.start == start && this.end == end && View() == AccessOf(page)
    {
      this.start, this.end := start, end;
      readUser, readSuper := page.readUser, page.readSuper;
      writeUser, writeSuper := page.writeUser, page.writeSuper;
      executeUser, executeSuper := page.executeUser, page.executeSuper;
    }

    method Copy(page: Page)
      modifies this
      ensures View() == AccessOf(page)
    {
      readUser, readSuper := page.readUser, page.readSuper;
      writeUser, writeSuper := page.writeUser, page.writeSuper;
      executeUser, executeSuper := page.executeUser, page.executeSuper;
    }

    /** The four tests made when another page lies over the window. */
    method Update(page: Page)
      modifies this
      ensures View() == Merge(old(View()), AccessOf(page))
    {
      hide AccessOf;
      ghost var a, p := View(), AccessOf(page);
      SameAccess(page);
      if !writeSuper && page.writeSuper {
        Copy(page);
      }
      assert View() == if !a.writeSuper && p.writeSuper then p else a;
      if !writeUser && page.writeUser {
        Copy(page);
      }
      if !executeUser && page.executeUser {
        Copy(page);
      }
      if !readUser && page.readUser {
        Copy(page);
      }
    }
  }

  lemma SameAccess(p: Page)
    ensures AccessOf(p).writeSuper == p.writeSuper && AccessOf(p).writeUser == p.writeUser
    ensures AccessOf(p).executeUser == p.executeUser && AccessOf(p).readUser == p.readUser
  {
  }

  /** Window `w` at position `i` shows the pages `over`. */
  ghost predicate Shows(w: Window?, r: Range, i: nat, over: seq<Access>)
    requires r.size > 0
    reads w
  {
    if over == [] then w == null else
      w != null && w.View() == Fold(over) && w.start == Addr(r, i) && w.end == Addr(r, i) + r.size
  }

  ghost predicate Separate(windows: seq<Window?>) {
    forall i, j :: 0 <= i < j < |windows| && windows[i] != null ==> windows[i] != windows[j]
  }

  /** The position of a window address that is a multiple of the window size. */
  lemma SlotOf(r: Range, k: nat)
    requires r.size > 0
    ensures Base(r) <= Addr(r, k) && (Addr(r, k) - Base(r)) / r.size == k
    ensures Addr(r, k + 1) == Addr(r, k) + r.size
  {
    var f := FirstMultiple(r);
    RowAndColumn(r.size, k, First(r) - Base(r));
    assert (k + 1) * r.size == k * r.size + r.size;
  }

  lemma RoundDownMultiple(x: nat, size: nat) returns (q: nat)
    requires size > 0
    ensures RoundDown(x, size) == q * size
  {
    q := x / size;
    assert x == q * size + x % size;
  }

  lemma MultiplesApart(f: nat, q: nat, size: nat)
    requires f * size < q * size + size
    ensures f <= q && f * size + (q - f) * size == q * size
  {
    MulOrder(q + 1, f, size);
    assert (q + 1) * size == q * size + size;
    if f <= q {
      assert (f + (q - f)) * size == f * size + (q - f) * size;
    }
  }

  /** A page that starts at or above the base starts in some window. */
  lemma FirstSlot(r: Range, p: Page) returns (k: nat)
    requires r.size > 0 && RoundDown(p.start, r.size) >= Base(r)
    ensures Addr(r, k) == RoundDown(p.start, r.size)
  {
    hide RoundDown, Base, First;
    var q := RoundDownMultiple(p.start, r.size);
    var f := FirstMultiple(r);
    MultiplesApart(f, q, r.size);
    k := q - f;
  }

  lemma AddrOrder(r: Range, i: nat, k: nat)
    requires r.size > 0
    ensures i <= k <==> Addr(r, i) <= Addr(r, k)
    ensures i < k ==> Addr(r, i) + r.size <= Addr(r, k)
  {
    hide First;
    MulOrder(i, k, r.size);
    MulOrder(k, i, r.size);
  }

  lemma FoldNext(over: seq<Access>, a: Access)
    ensures Fold(over + [a]) == if over == [] then a else Merge(Fold(over), a)
  {
    assert (over + [a])[..|over|] == over;
  }

  /** The windows after some pages and, of page `p`, the windows before position `k`. */
  ghost predicate Folded(windows: array<Window?>, r: Range, done: seq<Page>, p: Page, k: nat)
    requires r.size > 0
    reads windows, windows[..]
  {
    && windows.Length == Count(r)
    && Separate(windows[..])
    && forall i :: 0 <= i < windows.Length ==>
         Shows(windows[i], r, i,
               Over(r, done, i) + (if i < k && Touches(r, p, i) then [AccessOf(p)] else []))
  }

  /** The windows after some pages. */
  ghost predicate Settled(windows: array<Window?>, r: Range, done: seq<Page>)
    requires r.size > 0
    reads windows, windows[..]
  {
    && windows.Length == Count(r)
    && Separate(windows[..])
    && forall i :: 0 <= i < windows.Length ==> Shows(windows[i], r, i, Over(r, done, i))
  }

  /** Folds page `p` into the window at position `k`, which it lies over. */
  method FoldAt(windows: array<Window?>, r: Range, ghost done: seq<Page>, p: Page, k: nat)
    requires r.size > 0 && k < windows.Length
    requires Folded(windows, r, done, p, k) && Touches(r, p, k)
    modifies windows, if windows[k] == null then {} else {windows[k]}
    ensures Folded(windows, r, done, p, k + 1)
    ensures forall i :: 0 <= i < windows.Length && i != k ==> windows[i] == old(windows[i])
    ensures windows[k] == old(windows[k]) || fresh(windows[k])
  {
    hide Touches, Addr, Merge, Over;
    FoldNext(Over(r, done, k), AccessOf(p));
    assert Over(r, done, k) + [] == Over(r, done, k);
    if windows[k] == null {
      windows[k] := new Window(Addr(r, k), Addr(r, k) + r.size, p);
    } else {
      windows[k].Update(p);
    }
  }

  lemma BelowFirst(r: Range, p: Page, k: nat)
    requires r.size > 0 && Addr(r, k) == RoundDown(p.start, r.size)
    ensures forall i :: 0 <= i < k ==> !Touches(r, p, i)
  {
  }

  lemma FromEnd(r: Range, p: Page, k: nat)
    requires r.size > 0 && p.end <= Addr(r, k)
    ensures forall i: nat :: i >= k ==> !Touches(r, p, i)
  {
  }

  /** Once no later window is touched, the page is done with. */
  lemma FoldedEnd(windows: array<Window?>, r: Range, done: seq<Page>, p: Page, k: nat)
    requires r.size > 0 && Folded(windows, r, done, p, k)
    requires forall i: nat :: i >= k ==> !Touches(r, p, i)
    ensures Settled(windows, r, done + [p])
  {
  }

  /** Before the first touched window nothing of the page has been folded in. */
  lemma FoldedStart(windows: array<Window?>, r: Range, done: seq<Page>, p: Page, k: nat)
    requires r.size > 0 && Settled(windows, r, done)
    requires forall i :: 0 <= i < k ==> !Touches(r, p, i)
    ensures Folded(windows, r, done, p, k)
  {
    hide Touches, Addr, Over, Shows;
    forall i | 0 <= i < windows.Length
      ensures Shows(windows[i], r, i,
                    Over(r, done, i) + (if i < k && Touches(r, p, i) then [AccessOf(p)] else []))
    {
      assert Over(r, done, i) + [] == Over(r, done, i);
    }
  }

  lemma FitsAtEnd(r: Range, p: Page, k: nat)
    requires r.size > 0 && !Skipped(r, p) && RoundDown(p.start, r.size) <= Addr(r, k)
    ensures p.end <= Addr(r, k) && (Addr(r, k) == RoundDown(p.start, r.size) || k <= Count(r)) ==> Fits(r, p)
    ensures p.end > Addr(r, k) && k >= Count(r) ==> !Fits(r, p)
  {
    AddrOrder(r, k, Count(r));
    AddrOrder(r, Count(r), k);
    hide Addr, Count, RoundDown, Skipped;
  }

  /** Folds one page into the windows it lies over; false stands for the IndexError. */
  method FoldPage(windows: array<Window?>, r: Range, ghost done: seq<Page>, p: Page)
    returns (ok: bool)
    requires r.size > 0
    requires Settled(windows, r, done)
    modifies windows, set w | w in windows[..] && w != null
    ensures ok <==> Fits(r, p)
    ensures ok ==> Settled(windows, r, done + [p])
    ensures forall i :: 0 <= i < windows.Length ==> windows[i] == old(windows[i]) || fresh(windows[i])
  {
    hide RoundDown, Addr, Count, Touches, Folded, Settled, First, Fits;
    RoundDownIs(p.start, r.size);
    var windowAddr := p.start - p.start % r.size;
    if r.stop != 0 {
      if windowAddr < r.start || windowAddr > r.stop {
        SkippedPage(r, p);
        FoldedStart(windows, r, done, p, 0);
        FoldedEnd(windows, r, done, p, 0);
        return true;
      }
    }
    ghost var k: nat := FirstSlot(r, p);
    BelowFirst(r, p, k);
    FoldedStart(windows, r, done, p, k);
    while windowAddr < p.end
      invariant windowAddr == Addr(r, k) >= RoundDown(p.start, r.size)
      invariant windowAddr == RoundDown(p.start, r.size) || k <= Count(r)
      invariant Folded(windows, r, done, p, k)
      invariant forall i :: 0 <= i < windows.Length ==> windows[i] == old(windows[i]) || fresh(windows[i])
      decreases p.end - windowAddr
    {
      FoldedCount(windows, r, done, p, k);
      SlotOf(r, k);
      FitsAtEnd(r, p, k);
      var idx := if r.stop != 0 then (windowAddr - r.start) / r.size else windowAddr / r.size;
      if idx >= windows.Length {
        return false;
      }
      TouchesHere(r, p, k);
      FoldAt(windows, r, done, p, idx);
      windowAddr := windowAddr + r.size;
      k := k + 1;
    }
    FromEnd(r, p, k);
    FoldedEnd(windows, r, done, p, k);
    FitsAtEnd(r, p, k);
    return true;
  }

  lemma RoundDownIs(x: nat, size: nat)
    requires size > 0
    ensures RoundDown(x, size) == x - x % size
  {
  }

  lemma SkippedPage(r: Range, p: Page)
    requires r.size > 0 && Skipped(r, p)
    ensures Fits(r, p) && forall i: nat :: !Touches(r, p, i)
  {
  }

  lemma TouchesHere(r: Range, p: Page, k: nat)
    requires r.size > 0 && !Skipped(r, p) && RoundDown(p.start, r.size) <= Addr(r, k) < p.end
    ensures Touches(r, p, k)
  {
  }

  lemma FoldedCount(windows: array<Window?>, r: Range, done: seq<Page>, p: Page, k: nat)
    requires r.size > 0 && Folded(windows, r, done, p, k)
    ensures windows.Length == Count(r)
  {
  }

  /** The constructor of GENERIC_PT, on the pages in the order in which the dictionary yields them;
      false stands for an IndexError. */
  method BuildWindows(pages: seq<Page>, r: Range) returns (ok: bool, windows: array<Window?>)
    requires r.size > 0
    ensures ok <==> forall p :: p in pages ==> Fits(r, p)
    ensures ok ==> Settled(windows, r, pages)
    ensures fresh(windows)
  {
    hide Fits, Count, Touches, Shows, Separate;
    windows := new Window?[Count(r)](_ => null);
    NoneShown(windows, r);
    ok := true;
    for n := 0 to |pages|
      invariant fresh(windows) && forall i :: 0 <= i < windows.Length && windows[i] != null ==> fresh(windows[i])
      invariant Settled(windows, r, pages[..n])
      invariant forall i :: 0 <= i < n ==> Fits(r, pages[i])
    {
      var fits := FoldPage(windows, r, pages[..n], pages[n]);
      if !fits {
        return false, windows;
      }
      assert pages[..n] + [pages[n]] == pages[..n + 1];
    }
    assert pages[..|pages|] == pages;
  }

  lemma NoneShown(windows: array<Window?>, r: Range)
    requires r.size > 0 && windows.Length == Count(r)
    requires forall i :: 0 <= i < windows.Length ==> windows[i] == null
    ensures Settled(windows, r, [])
  {
  }
}
