/** vis/scurve/pt.py: reading the IA-32e dump back into a map of pages keyed by their canonical
    start address. */
module DumpParser {
  import opened Dump
  import opened PageTables
  import opened PageWalk
  import opened WalkTranslation

  /** pt.Page */
  datatype Page = Page(start: nat, end: nat,
                       readUser: bool, readSuper: bool,
                       writeUser: bool, writeSuper: bool,
                       executeUser: bool, executeSuper: bool)

  function SignExtend(x: nat): nat {
    if x >= 0x8000_0000_0000 then x + 0xffff_0000_0000_0000 else x
  }

  /** The records the parser turns into pages; the 1G records are not among them. */
  predicate IsParsed(l: Line) {
    l.Page4K? || l.Page2M?
  }

  /** x86_4k_page and x86_2mb_page */
  function PageOf(l: Line): Page
    requires IsParsed(l)
  {
    var start := SignExtend(l.virt);
    var end := start + (if l.Page2M? then 2 * 1024 * 1024 else 4096);
    var super, write, execute := !l.flags.u, l.flags.w, !l.flags.xd;
    Page(start, end, !super, true, !super && write, write && super, execute && !super, execute && super)
  }

  /** The map built from the lines in order. */
  function Parsed(lines: seq<Line>): map<nat, Page> {
    if |lines| == 0 then map[] else
      var pages := Parsed(lines[..|lines| - 1]);
      var l := lines[|lines| - 1];
      if IsParsed(l) then pages[PageOf(l).start := PageOf(l)] else pages
  }

  /** Is record `i` a page whose line begins with the message about a refused address? Its fields
      are then three places further on in the line than the parser looks for them. */
  predicate Shifted(lines: seq<Line>, i: nat)
    requires i < |lines|
  {
    i > 0 && lines[i - 1].Refused? && IsParsed(lines[i])
  }

  predicate ParseOk(lines: seq<Line>) {
    forall i :: 0 <= i < |lines| ==> !Shifted(lines, i)
  }

  /** The parsed map; none stands for the IndexError at a page with shifted fields. */
  function Parse(lines: seq<Line>): Option<map<nat, Page>> {
    if ParseOk(lines) then Some(Parsed(lines)) else None
  }

  method ParseIa32e(lines: seq<Line>) returns (result: Option<map<nat, Page>>)
    ensures result == Parse(lines)
  {
    var pages := map[];
    var glued := false;
    for i := 0 to |lines|
      invariant pages == Parsed(lines[..i])
      invariant glued == (i > 0 && lines[i - 1].Refused?)
      invariant forall j :: 0 <= j < i ==> !Shifted(lines, j)
    {
      assert lines[..i + 1][..i] == lines[..i];
      var line := lines[i];
      if IsParsed(line) {
        if glued {
          assert Shifted(lines, i);
          return None;
        }
        var page := PageOf(line);
        pages := pages[page.start := page];
      }
      glued := line.Refused?;
    }
    assert lines[..|lines|] == lines;
    return Some(pages);
  }

  /** Sign extension keeps the order of 48-bit addresses, and makes them canonical. */
  lemma SignExtendOrder(x: nat, y: nat)
    requires x < VIRTUAL_SPACE && y < VIRTUAL_SPACE
    ensures x < y <==> SignExtend(x) < SignExtend(y)
    ensures SignExtend(x) < 0x8000_0000_0000 || 0xffff_8000_0000_0000 <= SignExtend(x) < 0x1_0000_0000_0000_0000
    ensures SignExtend(x) % VIRTUAL_SPACE == x
  {
  }

  /** The number of lines the parser turns into pages. */
  function ParsedCount(lines: seq<Line>): nat {
    if |lines| == 0 then 0 else
      ParsedCount(lines[..|lines| - 1]) + (if IsParsed(lines[|lines| - 1]) then 1 else 0)
  }

  /** Every map entry comes from a line. */
  lemma {:induction false} KeyFromLine(lines: seq<Line>, k: nat) returns (i: nat)
    requires k in Parsed(lines)
    ensures i < |lines| && IsParsed(lines[i]) && PageOf(lines[i]).start == k
  {
    hide PageOf, IsParsed;
    var n := |lines| - 1;
    if IsParsed(lines[n]) && PageOf(lines[n]).start == k {
      i := n;
    } else {
      i := KeyFromLine(lines[..n], k);
    }
  }

  lemma LaterKey(lines: seq<Line>, i: nat, j: nat)
    requires Ordered(lines) && Bounded(lines, 0, VIRTUAL_SPACE)
    requires i < j < |lines| && IsParsed(lines[i]) && IsParsed(lines[j])
    ensures PageOf(lines[i]).start < PageOf(lines[j]).start
  {
    SignExtendOrder(Start(lines[i]), Start(lines[j]));
  }

  lemma OrderedPrefix(lines: seq<Line>, n: nat)
    requires Ordered(lines) && Bounded(lines, 0, VIRTUAL_SPACE) && n <= |lines|
    ensures Ordered(lines[..n]) && Bounded(lines[..n], 0, VIRTUAL_SPACE)
  {
  }

  /** On an ordered dump no line overwrites the page of another. */
  lemma {:induction false} NoOverwrite(lines: seq<Line>, i: nat)
    requires Ordered(lines) && Bounded(lines, 0, VIRTUAL_SPACE)
    requires i < |lines| && IsParsed(lines[i])
    ensures PageOf(lines[i]).start in Parsed(lines)
    ensures Parsed(lines)[PageOf(lines[i]).start] == PageOf(lines[i])
  {
    hide PageOf, IsParsed, Ordered, Bounded;
    var n := |lines| - 1;
    if i < n {
      OrderedPrefix(lines, n);
      NoOverwrite(lines[..n], i);
      if IsParsed(lines[n]) {
        LaterKey(lines, i, n);
      }
    }
  }

  /** There are as many map entries as 4K and 2MB lines. */
  lemma {:induction false} EntryPerLine(lines: seq<Line>)
    requires Ordered(lines) && Bounded(lines, 0, VIRTUAL_SPACE)
    ensures |Parsed(lines)| == ParsedCount(lines)
  {
    hide PageOf, IsParsed, Ordered, Bounded;
    if |lines| > 0 {
      var n := |lines| - 1;
      OrderedPrefix(lines, n);
      EntryPerLine(lines[..n]);
      if IsParsed(lines[n]) && PageOf(lines[n]).start in Parsed(lines[..n]) {
        var i := KeyFromLine(lines[..n], PageOf(lines[n]).start);
        LaterKey(lines, i, n);
      }
    }
  }

  // ----- From the page tables to the map -----

  /** Does the page hold the canonical address whose low 48 bits are `va`? */
  predicate Holds(p: Page, va: nat) {
    p.start <= SignExtend(va) < p.end
  }

  lemma PageHolds(l: Line, va: nat)
    requires IsParsed(l) && va < VIRTUAL_SPACE && Placed(l, 0, VIRTUAL_SPACE)
    ensures Holds(PageOf(l), va) <==> Covers(l, va)
  {
  }

  /** The page of the given level and flags that `va` lies in. */
  function PageFor(va: nat, level: nat, flags: Flags): Page
    requires 1 <= level <= 2
  {
    var start := SignExtend(va - va % Span(level));
    var user, write, execute := flags.u, flags.w, !flags.xd;
    Page(start, start + Span(level), user, true, user && write, write && !user, execute && user, execute && !user)
  }

  /** Do the entries lead to a 4-KByte or 2-MByte page, whether or not over a reserved bit? */
  predicate Entered(mem: Memory, pml4: bv64, va: nat) {
    va < VIRTUAL_SPACE && PageEntry(mem, pml4, va).Some? && PageEntry(mem, pml4, va).value.0 <= 2
  }

  /** The page that the last entry alone calls for. */
  function PageAt(mem: Memory, pml4: bv64, va: nat): Page
    requires Entered(mem, pml4, va)
  {
    var (level, e) := PageEntry(mem, pml4, va).value;
    PageFor(va, level, Rights(e))
  }

  /** Is `va` mapped by a 4-KByte or 2-MByte page? */
  predicate Mapped(cpu: Processor, mem: Memory, pml4: bv64, va: nat) {
    va < VIRTUAL_SPACE && Translate(cpu, mem, pml4, va).Some? && Translate(cpu, mem, pml4, va).value.level <= 2
  }

  /** The page that the translation of `va` calls for, with the rights left by all levels. */
  function TranslatedPage(cpu: Processor, mem: Memory, pml4: bv64, va: nat): Page
    requires Mapped(cpu, mem, pml4, va)
  {
    var m := Translate(cpu, mem, pml4, va).value;
    PageFor(va, m.level, m.flags)
  }

  lemma PageOfEntry(l: Line, va: nat)
    requires IsPage(l) && Start(l) == va - va % Span(PageLevel(l))
    ensures IsParsed(l) <==> PageLevel(l) <= 2
    ensures IsParsed(l) ==> PageOf(l) == PageFor(va, PageLevel(l), l.flags)
  {
  }

  /** The six flags of a page determine the three it is made from. */
  lemma SameFlags(va: nat, level: nat, f: Flags, g: Flags)
    requires 1 <= level <= 2
    ensures PageFor(va, level, f) == PageFor(va, level, g) <==> f == g
    ensures PageFor(va, level, f).start == PageFor(va, level, g).start
    ensures PageFor(va, level, f).end == PageFor(va, level, g).end
  {
  }

  /** An address whose entries lead to a page is mapped unless they do so over a reserved bit. Then
      the page of the last entry has the bounds of the translation's page, and its flags exactly when
      the last entry grants only what the entries of all levels grant. */
  lemma EntryIsTranslated(cpu: Processor, mem: Memory, pml4: bv64, va: nat)
    ensures Mapped(cpu, mem, pml4, va) <==> Entered(mem, pml4, va) && !ReservedAt(cpu, mem, pml4, va)
    ensures Mapped(cpu, mem, pml4, va) ==>
              var page, right := PageAt(mem, pml4, va), TranslatedPage(cpu, mem, pml4, va);
              && page.start == right.start && page.end == right.end
              && (page == right <==> RightsKeptAt(mem, pml4, va))
  {
    hide PageEntry, ReservedPath, PathRights, Rights, RightsKeptAt, PageFor, Frame;
    if Mapped(cpu, mem, pml4, va) {
      var (level, e) := PageEntry(mem, pml4, va).value;
      RightsKeptIff(mem, pml4, va);
      SameFlags(va, level, Rights(e), Translate(cpu, mem, pml4, va).value.flags);
    }
  }

  lemma HeldIsEntered(mem: Memory, pml4: bv64, va: nat, k: nat)
    requires va < VIRTUAL_SPACE && TablesClear(mem, pml4, va)
    requires Parse(WalkLines(mem, pml4)).Some?
    requires k in Parse(WalkLines(mem, pml4)).value && Holds(Parse(WalkLines(mem, pml4)).value[k], va)
    ensures Entered(mem, pml4, va) && Parse(WalkLines(mem, pml4)).value[k] == PageAt(mem, pml4, va)
  {
    hide WalkLines, Parsed, ParseOk, PageOf, Holds, PageFor, TablesClear, Covering, Covers,
         Ordered, Placed, Rights, PageEntry, Address;
    var lines := WalkLines(mem, pml4);
    WalkOrdered(mem, pml4);
    var i := KeyFromLine(lines, k);
    NoOverwrite(lines, i);
    PageHolds(lines[i], va);
    CoveringMember(lines, va, lines[i]);
    WalkIsPage(mem, pml4, va);
    PageOfEntry(lines[i], va);
  }

  lemma EnteredIsHeld(mem: Memory, pml4: bv64, va: nat)
    requires Entered(mem, pml4, va) && TablesClear(mem, pml4, va)
    requires Parse(WalkLines(mem, pml4)).Some?
    ensures var pages, page := Parse(WalkLines(mem, pml4)).value, PageAt(mem, pml4, va);
            page.start in pages && pages[page.start] == page && Holds(page, va)
  {
    hide WalkLines, Parsed, ParseOk, PageOf, Holds, IsParsed, PageFor, TablesClear, Covering, Covers,
         Ordered, Placed, PageEntry, Rights, Address;
    var lines := WalkLines(mem, pml4);
    WalkOrdered(mem, pml4);
    WalkIsPage(mem, pml4, va);
    var l := Covering(lines, va)[0];
    CoveringMember(lines, va, l);
    PageOfEntry(l, va);
    var i :| 0 <= i < |lines| && lines[i] == l;
    NoOverwrite(lines, i);
    PageHolds(l, va);
  }

  /** An address that a page of the parsed map holds is mapped unless its entries lead to a page over
      a reserved bit. Then the page has the bounds its translation calls for, and its six access flags
      exactly when the page entry grants only what the entries of all levels grant. */
  lemma HeldIsTranslated(cpu: Processor, mem: Memory, pml4: bv64, va: nat, k: nat)
    requires va < VIRTUAL_SPACE && TablesClear(mem, pml4, va)
    requires Parse(WalkLines(mem, pml4)).Some?
    requires k in Parse(WalkLines(mem, pml4)).value && Holds(Parse(WalkLines(mem, pml4)).value[k], va)
    ensures Mapped(cpu, mem, pml4, va) <==> !ReservedAt(cpu, mem, pml4, va)
    ensures Mapped(cpu, mem, pml4, va) ==>
              var page, right := Parse(WalkLines(mem, pml4)).value[k], TranslatedPage(cpu, mem, pml4, va);
              && page.start == right.start && page.end == right.end
              && (page == right <==> RightsKeptAt(mem, pml4, va))
  {
    hide WalkLines, Parse, Holds, TablesClear, PageEntry, ReservedAt, RightsKeptAt, Mapped, Entered,
         TranslatedPage, PageAt;
    HeldIsEntered(mem, pml4, va, k);
    EntryIsTranslated(cpu, mem, pml4, va);
  }

  /** Every address mapped by a 4K or 2MB page is held by a page of the parsed map, under the key
      and with the bounds its translation calls for, and with its access flags under that condition. */
  lemma TranslatedIsHeld(cpu: Processor, mem: Memory, pml4: bv64, va: nat)
    requires Mapped(cpu, mem, pml4, va) && TablesClear(mem, pml4, va)
    requires Parse(WalkLines(mem, pml4)).Some?
    ensures var pages, right := Parse(WalkLines(mem, pml4)).value, TranslatedPage(cpu, mem, pml4, va);
            && right.start in pages && Holds(pages[right.start], va)
            && pages[right.start].start == right.start && pages[right.start].end == right.end
            && (pages[right.start] == right <==> RightsKeptAt(mem, pml4, va))
  {
    hide WalkLines, Parse, Holds, TablesClear, ReservedAt, RightsKeptAt, Entered, TranslatedPage, PageAt, PageEntry;
    EntryIsTranslated(cpu, mem, pml4, va);
    EnteredIsHeld(mem, pml4, va);
  }
}
