/** From page tables to windows: what vis/scurve/binvispt shows of the tables that
    code/OSX/uptdump/main.c dumped and vis/scurve/pt.py parsed. */
module Pipeline {
  import opened Dump
  import opened PageTables
  import opened PageWalk
  import opened WalkTranslation
  import opened DumpParser
  import opened RefusedTables
  import opened Windows
  import opened WindowLoops

  /** The pages of the parsed dump, in whatever order the dictionary yields them. */
  ghost predicate PagesOf(pages: seq<Page>, mem: Memory, pml4: bv64) {
    var parsed := Parse(WalkLines(mem, pml4));
    parsed.Some? && forall p :: p in pages <==> p in parsed.value.Values
  }

  /** Does window `i` show the canonical address whose low 48 bits are `va`? */
  predicate InWindow(r: Range, i: nat, va: nat)
    requires r.size > 0
  {
    Addr(r, i) <= SignExtend(va) < Addr(r, i) + r.size
  }

  /** Is `va` an address of window `i` whose entries lead to a page that begins in a window of the
      chosen range, if there is one? */
  predicate Visible(mem: Memory, pml4: bv64, r: Range, i: nat, va: nat): (v: bool)
    requires r.size > 0
    ensures v ==> Entered(mem, pml4, va)
  {
    Entered(mem, pml4, va) && InChosen(r, PageAt(mem, pml4, va)) && InWindow(r, i, va)
  }

  /** For all addresses of window `i`, entries keep bits 52 to 55 clear. */
  ghost predicate WindowClear(mem: Memory, pml4: bv64, r: Range, i: nat)
    requires r.size > 0
  {
    forall va: nat :: va < VIRTUAL_SPACE && InWindow(r, i, va) ==> TablesClear(mem, pml4, va)
  }

  /** For all addresses, entries keep bits 52 to 55 clear. */
  ghost predicate AllClear(mem: Memory, pml4: bv64) {
    forall va: nat :: va < VIRTUAL_SPACE ==> TablesClear(mem, pml4, va)
  }

  // ----- Pages and addresses -----

  lemma LineOfPage(mem: Memory, pml4: bv64, pages: seq<Page>, p: Page) returns (k: nat, l: Line)
    requires PagesOf(pages, mem, pml4) && p in pages
    ensures k in Parse(WalkLines(mem, pml4)).value && Parse(WalkLines(mem, pml4)).value[k] == p
    ensures IsParsed(l) && Placed(l, 0, VIRTUAL_SPACE) && p == PageOf(l)
  {
    hide WalkLines, Parsed, ParseOk, PageOf, Placed, Ordered;
    var lines := WalkLines(mem, pml4);
    WalkOrdered(mem, pml4);
    k :| k in Parsed(lines) && Parsed(lines)[k] == p;
    var i := KeyFromLine(lines, k);
    NoOverwrite(lines, i);
    l := lines[i];
  }

  /** No page straddles the gap in the canonical addresses. */
  lemma AddressInPage(l: Line, x: nat) returns (va: nat)
    requires IsParsed(l) && Placed(l, 0, VIRTUAL_SPACE) && PageOf(l).start <= x < PageOf(l).end
    ensures va < VIRTUAL_SPACE && SignExtend(va) == x && Holds(PageOf(l), va)
  {
    va := l.virt + (x - PageOf(l).start);
  }

  /** Every page of the map is the one that the entries for each address it holds lead to. */
  lemma PageIsEntered(mem: Memory, pml4: bv64, pages: seq<Page>, p: Page, va: nat)
    requires PagesOf(pages, mem, pml4) && p in pages
    requires va < VIRTUAL_SPACE && Holds(p, va) && TablesClear(mem, pml4, va)
    ensures Entered(mem, pml4, va) && p == PageAt(mem, pml4, va)
  {
    hide WalkLines, Parse, PageOf, Placed, TablesClear, Holds, Entered, PageAt;
    var k, l := LineOfPage(mem, pml4, pages, p);
    HeldIsEntered(mem, pml4, va, k);
  }

  /** The page that the entries for an address lead to is in the map and holds it. */
  lemma EnteredHasPage(mem: Memory, pml4: bv64, pages: seq<Page>, va: nat)
    requires PagesOf(pages, mem, pml4) && Entered(mem, pml4, va) && TablesClear(mem, pml4, va)
    ensures PageAt(mem, pml4, va) in pages && Holds(PageAt(mem, pml4, va), va)
  {
    hide WalkLines, Parse, TablesClear, Holds, Entered, PageAt;
    EnteredIsHeld(mem, pml4, va);
    var p := PageAt(mem, pml4, va);
    assert Parse(WalkLines(mem, pml4)).value[p.start] in Parse(WalkLines(mem, pml4)).value.Values;
  }

  lemma SomeAddress(mem: Memory, pml4: bv64, pages: seq<Page>, p: Page) returns (va: nat)
    requires PagesOf(pages, mem, pml4) && p in pages
    ensures va < VIRTUAL_SPACE && Holds(p, va)
  {
    hide WalkLines, Parse, PageOf, Placed, Holds;
    var k, l := LineOfPage(mem, pml4, pages, p);
    PageIsNotEmpty(l);
    va := AddressInPage(l, p.start);
  }

  lemma PageIsNotEmpty(l: Line)
    requires IsParsed(l)
    ensures PageOf(l).start < PageOf(l).end
  {
  }

  /** An address that a page and a window have in common. */
  lemma CommonAddress(mem: Memory, pml4: bv64, pages: seq<Page>, r: Range, p: Page, i: nat) returns (va: nat)
    requires r.size > 0 && PagesOf(pages, mem, pml4) && p in pages && Touches(r, p, i)
    ensures va < VIRTUAL_SPACE && Holds(p, va) && InWindow(r, i, va)
  {
    hide WalkLines, Parse, PageOf, Placed, Holds, Touches, Addr;
    var k, l := LineOfPage(mem, pml4, pages, p);
    PageIsNotEmpty(l);
    TouchesIsOverlap(r, p, i);
    va := AddressInPage(l, if p.start < Addr(r, i) then Addr(r, i) else p.start);
  }

  lemma EnteredInSpace(mem: Memory, pml4: bv64, va: nat)
    requires Entered(mem, pml4, va)
    ensures va < VIRTUAL_SPACE
  {
  }

  // ----- Windows and addresses -----

  lemma TouchedIsChosen(r: Range, p: Page, i: nat)
    requires r.size > 0 && Touches(r, p, i)
    ensures InChosen(r, p)
  {
    SkippedIff(r, p);
  }

  lemma HeldTouches(r: Range, p: Page, i: nat, va: nat)
    requires r.size > 0 && Holds(p, va) && InWindow(r, i, va) && InChosen(r, p)
    ensures Touches(r, p, i)
  {
    hide Touches, InChosen, Addr;
    TouchesIsOverlap(r, p, i);
  }

  /** The flags folded into window `i` are those of the pages of its visible addresses. */
  lemma OverIsVisible(mem: Memory, pml4: bv64, pages: seq<Page>, r: Range, i: nat, a: Access)
    requires r.size > 0 && PagesOf(pages, mem, pml4) && WindowClear(mem, pml4, r, i)
    ensures a in Over(r, pages, i)
       <==> exists va: nat :: Visible(mem, pml4, r, i, va) && AccessOf(PageAt(mem, pml4, va)) == a
  {
    hide PagesOf, TablesClear, Entered, Touches, InChosen, Holds, AccessOf, Over, PageAt, InWindow;
    OverMember(r, pages, i, a);
    if a in Over(r, pages, i) {
      var p :| p in pages && Touches(r, p, i) && AccessOf(p) == a;
      var va := CommonAddress(mem, pml4, pages, r, p, i);
      PageIsEntered(mem, pml4, pages, p, va);
      TouchedIsChosen(r, p, i);
      assert Visible(mem, pml4, r, i, va);
    }
    if va: nat :| Visible(mem, pml4, r, i, va) && AccessOf(PageAt(mem, pml4, va)) == a {
      EnteredInSpace(mem, pml4, va);
      EnteredHasPage(mem, pml4, pages, va);
      HeldTouches(r, PageAt(mem, pml4, va), i, va);
    }
  }

  /** Has the page of `va` every tested flag that the page of a visible address of window `i` has? */
  ghost predicate TopAt(mem: Memory, pml4: bv64, r: Range, i: nat, va: nat)
    requires r.size > 0 && Entered(mem, pml4, va)
  {
    forall x: nat :: Visible(mem, pml4, r, i, x) ==>
      Among(AccessOf(PageAt(mem, pml4, x)), AccessOf(PageAt(mem, pml4, va)))
  }

  /** Does the window show the six flags of the page? */
  predicate Copies(w: Window, p: Page)
    reads w
  {
    && w.readUser == p.readUser && w.readSuper == p.readSuper
    && w.writeUser == p.writeUser && w.writeSuper == p.writeSuper
    && w.executeUser == p.executeUser && w.executeSuper == p.executeSuper
  }

  lemma CopiesIff(w: Window, p: Page)
    ensures Copies(w, p) <==> w.View() == AccessOf(p)
  {
  }

  ghost predicate SomeTop(mem: Memory, pml4: bv64, r: Range, i: nat)
    requires r.size > 0
  {
    exists va: nat :: Visible(mem, pml4, r, i, va) && TopAt(mem, pml4, r, i, va)
  }

  /** Window `w` at position `i` is set if and only if an address of it is visible. Then it has its own
      bounds and shows all six flags of the page of such an address; that page has every tested flag of
      all of them exactly when one of those pages has them all. */
  ghost predicate Faithful(w: Window?, mem: Memory, pml4: bv64, r: Range, i: nat)
    requires r.size > 0
    reads w
  {
    && (w != null <==> exists va: nat :: Visible(mem, pml4, r, i, va))
    && (w != null ==>
          && w.start == Addr(r, i) && w.end == Addr(r, i) + r.size
          && exists va: nat ::
               && Visible(mem, pml4, r, i, va) && Copies(w, PageAt(mem, pml4, va))
               && (TopAt(mem, pml4, r, i, va) <==> SomeTop(mem, pml4, r, i)))
  }

  lemma SomeVisible(mem: Memory, pml4: bv64, pages: seq<Page>, r: Range, i: nat)
    requires r.size > 0 && PagesOf(pages, mem, pml4) && WindowClear(mem, pml4, r, i)
    ensures Over(r, pages, i) != [] <==> exists va: nat :: Visible(mem, pml4, r, i, va)
  {
    hide PagesOf, WindowClear, Visible, Entered, Over, AccessOf, PageAt;
    var over := Over(r, pages, i);
    if over != [] {
      OverIsVisible(mem, pml4, pages, r, i, over[0]);
    }
    if va: nat :| Visible(mem, pml4, r, i, va) {
      OverIsVisible(mem, pml4, pages, r, i, AccessOf(PageAt(mem, pml4, va)));
    }
  }

  /** A page with all flags of the visible ones is one with all flags folded into the window. */
  lemma TopIsOver(mem: Memory, pml4: bv64, pages: seq<Page>, r: Range, i: nat, va: nat)
    requires r.size > 0 && PagesOf(pages, mem, pml4) && WindowClear(mem, pml4, r, i)
    requires Visible(mem, pml4, r, i, va) && TopAt(mem, pml4, r, i, va)
    ensures HasTop(Over(r, pages, i))
  {
    hide PagesOf, WindowClear, Visible, Entered, Over, AccessOf, PageAt, Among, Tested, AllTested;
    var over, a := Over(r, pages, i), AccessOf(PageAt(mem, pml4, va));
    OverIsVisible(mem, pml4, pages, r, i, a);
    AllTestedContains(over, a);
    forall f | f in AllTested(over)
      ensures f in Tested(a)
    {
      AllTestedFrom(over, f);
      var b :| b in over && f in Tested(b);
      OverIsVisible(mem, pml4, pages, r, i, b);
      var x: nat :| Visible(mem, pml4, r, i, x) && AccessOf(PageAt(mem, pml4, x)) == b;
      AmongIff(b, a);
    }
    assert Tested(a) == AllTested(over);
  }

  lemma VisibleTested(mem: Memory, pml4: bv64, pages: seq<Page>, r: Range, i: nat, va: nat)
    requires r.size > 0 && PagesOf(pages, mem, pml4) && WindowClear(mem, pml4, r, i)
    requires Visible(mem, pml4, r, i, va)
    ensures Entered(mem, pml4, va) && Tested(AccessOf(PageAt(mem, pml4, va))) <= AllTested(Over(r, pages, i))
  {
    hide PagesOf, WindowClear, Visible, Entered, Over, AccessOf, PageAt, Tested, AllTested;
    OverIsVisible(mem, pml4, pages, r, i, AccessOf(PageAt(mem, pml4, va)));
    AllTestedContains(Over(r, pages, i), AccessOf(PageAt(mem, pml4, va)));
  }

  /** The folded flags are those of the page of a visible address. */
  lemma FoldIsVisible(mem: Memory, pml4: bv64, pages: seq<Page>, r: Range, i: nat) returns (at: nat)
    requires r.size > 0 && PagesOf(pages, mem, pml4) && WindowClear(mem, pml4, r, i) && Over(r, pages, i) != []
    ensures Visible(mem, pml4, r, i, at) && AccessOf(PageAt(mem, pml4, at)) == Fold(Over(r, pages, i))
  {
    hide PagesOf, WindowClear, Visible, Entered, Over, AccessOf, PageAt, Fold;
    var a := Fold(Over(r, pages, i));
    FoldMember(Over(r, pages, i));
    OverIsVisible(mem, pml4, pages, r, i, a);
    at :| Visible(mem, pml4, r, i, at) && AccessOf(PageAt(mem, pml4, at)) == a;
  }

  /** The page whose flags the fold ends with has all flags if some page has. */
  lemma FoldShowsAll(mem: Memory, pml4: bv64, pages: seq<Page>, r: Range, i: nat, at: nat, top: nat)
    requires r.size > 0 && PagesOf(pages, mem, pml4) && WindowClear(mem, pml4, r, i)
    requires Visible(mem, pml4, r, i, top) && TopAt(mem, pml4, r, i, top) && Over(r, pages, i) != []
    requires Visible(mem, pml4, r, i, at) && AccessOf(PageAt(mem, pml4, at)) == Fold(Over(r, pages, i))
    ensures TopAt(mem, pml4, r, i, at)
  {
    hide PagesOf, WindowClear, Visible, Entered, Over, AccessOf, PageAt, Among, Tested, AllTested, Fold, HasTop;
    TopIsOver(mem, pml4, pages, r, i, top);
    ShowsAllIff(Over(r, pages, i));
    forall x: nat | Visible(mem, pml4, r, i, x)
      ensures Among(AccessOf(PageAt(mem, pml4, x)), AccessOf(PageAt(mem, pml4, at)))
    {
      VisibleTested(mem, pml4, pages, r, i, x);
      AmongIff(AccessOf(PageAt(mem, pml4, x)), AccessOf(PageAt(mem, pml4, at)));
    }
  }

  /** Once the windows are built, each one shows what is visible in it, whatever the range. */
  lemma WindowIsFaithful(windows: array<Window?>, mem: Memory, pml4: bv64, pages: seq<Page>, r: Range, i: nat)
    requires r.size > 0 && PagesOf(pages, mem, pml4) && WindowClear(mem, pml4, r, i)
    requires Settled(windows, r, pages) && i < windows.Length
    ensures Faithful(windows[i], mem, pml4, r, i)
  {
    hide PagesOf, WindowClear, Visible, Entered, Over, AccessOf, PageAt, Fold, TopAt, Copies, Addr, Separate;
    var w := windows[i];
    SomeVisible(mem, pml4, pages, r, i);
    assert Shows(w, r, i, Over(r, pages, i));
    if w != null {
      var at := FoldIsVisible(mem, pml4, pages, r, i);
      CopiesIff(w, PageAt(mem, pml4, at));
      if top: nat :| Visible(mem, pml4, r, i, top) && TopAt(mem, pml4, r, i, top) {
        FoldShowsAll(mem, pml4, pages, r, i, at, top);
      }
    }
  }

  /** Is `va` an address of window `i` that is mapped by a page that is drawn? */
  predicate MappedVisibly(cpu: Processor, mem: Memory, pml4: bv64, r: Range, i: nat, va: nat)
    requires r.size > 0
  {
    Mapped(cpu, mem, pml4, va) && Visible(mem, pml4, r, i, va)
  }

  /** A window is set if and only if one of its addresses is mapped by a 4-KByte or 2-MByte page that
      is not skipped, unless addresses are visible in it but only over reserved bits. If no address is
      visible over a reserved bit, and the entries of pages grant only what all levels grant,
      it shows the six flags that the translation of one of its addresses calls for. */
  lemma WindowIsMapped(cpu: Processor, w: Window?, mem: Memory, pml4: bv64, r: Range, i: nat)
    requires r.size > 0 && Faithful(w, mem, pml4, r, i)
    ensures (w != null <==> exists va: nat :: MappedVisibly(cpu, mem, pml4, r, i, va))
       <==> !((exists va: nat :: Visible(mem, pml4, r, i, va))
              && forall va: nat :: Visible(mem, pml4, r, i, va) ==> ReservedAt(cpu, mem, pml4, va))
    ensures w != null
            && (forall va: nat :: Visible(mem, pml4, r, i, va) ==>
                  !ReservedAt(cpu, mem, pml4, va) && RightsKeptAt(mem, pml4, va)) ==>
              exists va: nat ::
                && MappedVisibly(cpu, mem, pml4, r, i, va)
                && Copies(w, TranslatedPage(cpu, mem, pml4, va))
  {
    hide Visible, Mapped, PageEntry, ReservedAt, RightsKeptAt, PageAt, TranslatedPage, Copies, TopAt, SomeTop;
    forall va: nat | Visible(mem, pml4, r, i, va)
      ensures MappedVisibly(cpu, mem, pml4, r, i, va) <==> !ReservedAt(cpu, mem, pml4, va)
    {
      EntryIsTranslated(cpu, mem, pml4, va);
    }
    if w != null
       && forall va: nat :: Visible(mem, pml4, r, i, va) ==>
                  !ReservedAt(cpu, mem, pml4, va) && RightsKeptAt(mem, pml4, va) {
      var at: nat :| Visible(mem, pml4, r, i, at) && Copies(w, PageAt(mem, pml4, at));
      EntryIsTranslated(cpu, mem, pml4, at);
      assert MappedVisibly(cpu, mem, pml4, r, i, at);
    }
  }

  // ----- Are there windows for all pages? -----

  /** All pages of the map have their windows exactly when the pages that the entries for all
      addresses lead to do. */
  lemma AllFitIff(mem: Memory, pml4: bv64, pages: seq<Page>, r: Range)
    requires r.size > 0 && PagesOf(pages, mem, pml4) && AllClear(mem, pml4)
    ensures (forall p :: p in pages ==> Fits(r, p))
       <==> (forall va: nat :: Entered(mem, pml4, va) ==> Fits(r, PageAt(mem, pml4, va)))
  {
    hide PagesOf, TablesClear, Entered, Fits, Holds, PageAt;
    forall p | p in pages
      ensures exists va: nat :: Entered(mem, pml4, va) && p == PageAt(mem, pml4, va)
    {
      var va := SomeAddress(mem, pml4, pages, p);
      PageIsEntered(mem, pml4, pages, p, va);
    }
    forall va: nat | Entered(mem, pml4, va)
      ensures PageAt(mem, pml4, va) in pages
    {
      EnteredInSpace(mem, pml4, va);
      EnteredHasPage(mem, pml4, pages, va);
    }
  }

  /** The start of an aligned page is in the same half of the address space as its addresses. */
  lemma SameHalf(va: nat, level: nat)
    requires va < VIRTUAL_SPACE && 1 <= level <= 2
    ensures var start := va - va % Span(level);
            && start % Span(level) == 0 && start + Span(level) <= VIRTUAL_SPACE
            && (start < LOWER_HALF <==> va < LOWER_HALF)
  {
    if level == 1 {
      SmallPageHalf(va);
    } else {
      LargePageHalf(va);
    }
  }

  lemma SmallPageHalf(va: nat)
    requires va < VIRTUAL_SPACE
    ensures (va - va % 0x1000) % 0x1000 == 0 && va - va % 0x1000 + 0x1000 <= VIRTUAL_SPACE
    ensures va - va % 0x1000 < LOWER_HALF <==> va < LOWER_HALF
  {
  }

  lemma LargePageHalf(va: nat)
    requires va < VIRTUAL_SPACE
    ensures (va - va % 0x20_0000) % 0x20_0000 == 0 && va - va % 0x20_0000 + 0x20_0000 <= VIRTUAL_SPACE
    ensures va - va % 0x20_0000 < LOWER_HALF <==> va < LOWER_HALF
  {
  }

  lemma DefaultFitsAt(mem: Memory, pml4: bv64, va: nat, size: nat)
    requires Entered(mem, pml4, va) && size > 0
    ensures Fits(Range(size, 0, 0, false), PageAt(mem, pml4, va)) <==> va < LOWER_HALF && size <= VIRTUAL_SPACE
  {
    hide PageEntry, Fits, Rights, Span;
    var (level, e) := PageEntry(mem, pml4, va).value;
    var start, flags := va - va % Span(level), Rights(e);
    SameHalf(va, level);
    var l := if level == 2 then Page2M(0, 0, 0, start, flags, 0) else Page4K(0, 0, 0, 0, start, flags, 0);
    LineFor(l, va);
    DefaultRangeFits(l, size);
  }

  lemma LineFor(l: Line, va: nat)
    requires IsParsed(l) && l.virt == va - va % Span(PageLevel(l))
    requires l.virt % Span(PageLevel(l)) == 0 && l.virt + Span(PageLevel(l)) <= VIRTUAL_SPACE
    ensures Placed(l, 0, VIRTUAL_SPACE) && PageOf(l) == PageFor(va, PageLevel(l), l.flags)
  {
    PageOfEntry(l, va);
  }

  /** Without a chosen range, all pages have their windows exactly when the entries lead to no 4-KByte
      or 2-MByte page in the upper half of the address space, or to none at all if a window is larger
      than the address space. */
  lemma DefaultFitsAll(mem: Memory, pml4: bv64, size: nat)
    requires size > 0
    ensures (forall va: nat :: Entered(mem, pml4, va) ==> Fits(Range(size, 0, 0, false), PageAt(mem, pml4, va)))
       <==> (forall va: nat :: Entered(mem, pml4, va) ==> va < LOWER_HALF && size <= VIRTUAL_SPACE)
  {
    hide Entered, Fits, PageAt;
    forall va: nat | Entered(mem, pml4, va)
      ensures Fits(Range(size, 0, 0, false), PageAt(mem, pml4, va)) <==> va < LOWER_HALF && size <= VIRTUAL_SPACE
    {
      DefaultFitsAt(mem, pml4, va, size);
    }
  }

  /** With a chosen range, they do exactly when no page that begins in the windows from `start` to the
      one that holds `stop` ends past the last window. */
  lemma ChosenFitsAll(mem: Memory, pml4: bv64, r: Range)
    requires r.size > 0 && r.stop != 0
    ensures (forall va: nat :: Entered(mem, pml4, va) ==> Fits(r, PageAt(mem, pml4, va)))
       <==> (forall va: nat :: Entered(mem, pml4, va) ==>
               var p := PageAt(mem, pml4, va);
               r.start <= RoundDown(p.start, r.size) <= r.stop ==> p.end <= LastEnd(r))
  {
    hide Entered, Fits, RoundDown, PageAt, LastEnd;
    forall va: nat | Entered(mem, pml4, va)
      ensures var p := PageAt(mem, pml4, va);
              Fits(r, p) <==> (r.start <= RoundDown(p.start, r.size) <= r.stop ==> p.end <= LastEnd(r))
    {
      PageAtNotEmpty(mem, pml4, va);
      ChosenRangeFits(r, PageAt(mem, pml4, va));
    }
  }

  lemma PageAtNotEmpty(mem: Memory, pml4: bv64, va: nat)
    requires Entered(mem, pml4, va)
    ensures PageAt(mem, pml4, va).start < PageAt(mem, pml4, va).end
  {
    hide PageEntry, Rights;
  }

  // ----- The whole run -----

  /** The order in which the dictionary yields its pages is not known. */
  method AnyOrder(parsed: map<nat, Page>) returns (pages: seq<Page>)
    ensures forall p :: p in pages <==> p in parsed.Values
  {
    var rest := parsed;
    pages := [];
    while rest.Keys != {}
      invariant forall k :: k in rest ==> k in parsed && rest[k] == parsed[k]
      invariant forall p :: p in pages ==> p in parsed.Values
      invariant forall k :: k in parsed && k !in rest ==> parsed[k] in pages
      decreases |rest.Keys|
    {
      var k :| k in rest.Keys;
      pages := pages + [rest[k]];
      var next := rest - {k};
      assert next.Keys == rest.Keys - {k};
      rest := next;
    }
  }

  /** Can the dump be parsed, and are there windows for the pages that the entries lead to? */
  ghost predicate Drawable(mem: Memory, pml4: bv64, r: Range)
    requires r.size > 0
  {
    && (forall a: nat, b: nat :: a < 512 && b < 512 ==> !GlueAt(mem, pml4, a, b))
    && (forall va: nat :: Entered(mem, pml4, va) ==> Fits(r, PageAt(mem, pml4, va)))
  }

  /** Dumping, parsing and windowing, for any range; false stands for an IndexError. */
  method Draw(mem: Memory, pml4: bv64, r: Range) returns (ok: bool, windows: array<Window?>)
    requires r.size > 0
    ensures AllClear(mem, pml4) ==> (ok <==> Drawable(mem, pml4, r))
    ensures ok ==> windows.Length == Count(r)
    ensures ok ==> forall i :: 0 <= i < windows.Length && WindowClear(mem, pml4, r, i) ==>
                     Faithful(windows[i], mem, pml4, r, i)
  {
    hide WalkLines, Parse, GlueAt, TablesClear, Entered, PageAt, Fits, WindowClear, Faithful, Settled, Count;
    var out := new Output<Line>();
    WalkPT(mem, pml4, out);
    assert out.lines == WalkLines(mem, pml4);
    var parsed := ParseIa32e(out.lines);
    ParseFailsIff(mem, pml4);
    if parsed.None? {
      return false, new Window?[0];
    }
    var pages := AnyOrder(parsed.value);
    ok, windows := BuildWindows(pages, r);
    if AllClear(mem, pml4) {
      AllFitIff(mem, pml4, pages, r);
    }
    if ok {
      SettledLength(windows, r, pages);
      forall i | 0 <= i < windows.Length && WindowClear(mem, pml4, r, i)
        ensures Faithful(windows[i], mem, pml4, r, i)
      {
        WindowIsFaithful(windows, mem, pml4, pages, r, i);
      }
    }
  }

  lemma SettledLength(windows: array<Window?>, r: Range, pages: seq<Page>)
    requires r.size > 0 && Settled(windows, r, pages)
    ensures windows.Length == Count(r)
  {
  }
}
