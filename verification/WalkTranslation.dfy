/** The dump of module PageWalk enumerates the translations of the page tables it walks. */
module WalkTranslation {
  import opened Bits
  import opened Dump
  import opened PageTables
  import opened PageWalk

  // ----- The printed pages that cover an address -----

  function OverAddress(va: nat): Line -> bool {
    (l: Line) => Covers(l, va)
  }

  /** The page lines that cover `va`, in the order of the dump. */
  function Covering(lines: seq<Line>, va: nat): seq<Line> {
    Select(lines, OverAddress(va))
  }

  lemma CoveringMember(lines: seq<Line>, va: nat, l: Line)
    ensures l in Covering(lines, va) <==> l in lines && Covers(l, va)
  {
    SelectMember(lines, OverAddress(va), l);
  }

  function Opt(o: Option<Line>): seq<Line> {
    match o case None => [] case Some(l) => [l]
  }

  // ----- The page line for an address, looked up top down -----

  /** The page line that the entry `e` at `idx` leads to at offset `off` of its range. */
  function EntryLookup(mem: Memory, level: nat, idx: seq<nat>, e: bv64, off: nat): Option<Line>
    requires 1 <= level <= 4 && |idx| == 5 - level
    decreases level, 0
  {
    if !IsPresent(e) then None
    else if level == 1 || (level < 4 && IsLarge(e)) then Some(PageLine(level, idx, e))
    else Lookup(mem, level - 1, idx, Address(e), off)
  }

  /** The page line that the table at `addr` leads to at offset `off` of its range. */
  function Lookup(mem: Memory, level: nat, idx: seq<nat>, addr: bv64, off: nat): Option<Line>
    requires 1 <= level <= 4 && |idx| == 4 - level
    decreases level, 1
  {
    if addr == INVALID then None
    else EntryLookup(mem, level, idx + [off / Span(level)], mem(addr, off / Span(level)), off % Span(level))
  }

  predicate Within(va: nat, start: nat, size: nat) {
    start <= va < start + size
  }

  /** The range of entry `k` of the table whose range starts at Virtual(idx). */
  lemma VirtualEntry(idx: seq<nat>, k: nat)
    requires |idx| < 4
    ensures Virtual(idx + [k]) == Virtual(idx) + k * Span(4 - |idx|)
  {
    assert (idx + [k])[..|idx|] == idx;
  }

  /** Which entry of a table an address of its range belongs to. */
  lemma EntryOf(off: nat, span: nat, k: nat)
    requires span > 0
    ensures Within(off, k * span, span) <==> off / span == k
    ensures Within(off, k * span, span) ==> off - k * span == off % span
    ensures off < k * span <==> off / span < k
  {
    var q := off / span;
    assert off == q * span + off % span;
    MulOrder(q, k, span);
    MulOrder(k, q, span);
  }

  lemma {:induction false} EntryCovering(mem: Memory, level: nat, idx: seq<nat>, e: bv64, va: nat)
    requires 1 <= level <= 4 && |idx| == 5 - level
    ensures Covering(EntryLines(mem, level, idx, e), va)
         == if Within(va, Virtual(idx), Span(level))
            then Opt(EntryLookup(mem, level, idx, e, va - Virtual(idx))) else []
    decreases level, 0, 0
  {
    hide IsPresent, IsLarge, Address, Virtual, TableLines, Lookup, Select;
    if !IsPresent(e) {
      SelectOne(Reference(level, idx, Address(e)), OverAddress(va));
      assert [Reference(level, idx, Address(e))] + [] == [Reference(level, idx, Address(e))];
    } else if level == 1 || (level < 4 && IsLarge(e)) {
      SelectOne(PageLine(level, idx, e), OverAddress(va));
    } else {
      var sub := TableLines(mem, level - 1, idx, Address(e));
      ZeroAbsent();
      SelectOne(Reference(level, idx, Address(e)), OverAddress(va));
      SelectConcat([Reference(level, idx, Address(e))], sub, OverAddress(va));
      TableCovering(mem, level - 1, idx, Address(e), va);
    }
  }

  lemma ZeroAbsent()
    ensures !IsPresent(0)
  {
  }

  lemma {:induction false} UpToCovering(mem: Memory, level: nat, idx: seq<nat>, addr: bv64, k: nat, va: nat)
    requires 1 <= level <= 4 && |idx| == 4 - level && addr != INVALID
    ensures Covering(UpTo(mem, level, idx, addr, k), va)
         == if Within(va, Virtual(idx), k * Span(level))
            then Opt(Lookup(mem, level, idx, addr, va - Virtual(idx))) else []
    decreases level, 1, k
  {
    hide Virtual, EntryLines, EntryLookup, Span, Select, OverAddress;
    SelectOne(Blank, OverAddress(va));
    if k > 0 {
      var i := k - 1;
      UpToCovering(mem, level, idx, addr, i, va);
      SelectConcat(UpTo(mem, level, idx, addr, i), EntryLines(mem, level, idx + [i], mem(addr, i)), OverAddress(va));
      EntryCovering(mem, level, idx + [i], mem(addr, i), va);
      VirtualEntry(idx, i);
      if va >= Virtual(idx) {
        EntryOf(va - Virtual(idx), Span(level), i);
        EntryOf(va - Virtual(idx), Span(level), k);
      }
    }
  }

  lemma {:induction false} TableCovering(mem: Memory, level: nat, idx: seq<nat>, addr: bv64, va: nat)
    requires 1 <= level <= 4 && |idx| == 4 - level
    ensures Covering(TableLines(mem, level, idx, addr), va)
         == if Within(va, Virtual(idx), Span(level + 1))
            then Opt(Lookup(mem, level, idx, addr, va - Virtual(idx))) else []
    decreases level, 2, 0
  {
    hide Virtual, UpTo, EntryLookup, Select;
    SelectOne(Refused, OverAddress(va));
    SelectOne(Blank, OverAddress(va));
    if addr != INVALID {
      UpToCovering(mem, level, idx, addr, 512, va);
      var lines := UpTo(mem, level, idx, addr, 512);
      SelectOne(Pml4Header, OverAddress(va));
      SelectOne(Blank, OverAddress(va));
      SelectConcat([Pml4Header], lines, OverAddress(va));
      SelectConcat(lines, [Blank], OverAddress(va));
      assert lines + [] == lines && [] + lines == lines && ([Pml4Header] + lines) + [] == [Pml4Header] + lines;
    }
  }

  /** On every memory, cyclic or not: the dump shows one page over `va`, the one that a top-down
      lookup finds with the dumper's own address field, or none if there is none. */
  lemma WalkCovering(mem: Memory, pml4: bv64, va: nat)
    requires va < VIRTUAL_SPACE
    ensures Covering(WalkLines(mem, pml4), va) == Opt(Lookup(mem, 4, [], pml4, va))
  {
    hide TableLines, Lookup, Select;
    TableCovering(mem, 4, [], pml4, va);
  }

  // ----- Agreement with the reference translation -----

  /** On the way to `va`, no entry that refers to a table has one of bits 52 to 55 set. */
  predicate TablesClear(mem: Memory, pml4: bv64, va: nat) {
    && HighClear(pml4)
    && (Present(Pml4e(mem, pml4, va)) ==>
          && HighClear(Pml4e(mem, pml4, va))
          && (Present(Pdpte(mem, pml4, va)) && !LargePage(Pdpte(mem, pml4, va)) ==>
                && HighClear(Pdpte(mem, pml4, va))
                && (Present(Pde(mem, pml4, va)) && !LargePage(Pde(mem, pml4, va)) ==>
                      HighClear(Pde(mem, pml4, va)))))
  }

  /** The table indices on the way to the entry of the given level for `va`. */
  function Path(va: nat, level: nat): (idx: seq<nat>)
    requires 1 <= level <= 4
    ensures |idx| == 5 - level
  {
    if level == 4 then [Pml4Index(va)]
    else if level == 3 then [Pml4Index(va), PdptIndex(va)]
    else if level == 2 then [Pml4Index(va), PdptIndex(va), PdIndex(va)]
    else [Pml4Index(va), PdptIndex(va), PdIndex(va), PtIndex(va)]
  }

  lemma TopField(va: nat)
    requires va < VIRTUAL_SPACE
    ensures va / Span(4) == Pml4Index(va)
    ensures Pml4Index(va) * 0x80_0000_0000 == va - va % Span(4)
  {
  }

  lemma PdptField(va: nat)
    ensures va % Span(4) / Span(3) == PdptIndex(va) && va % Span(4) % Span(3) == va % Span(3)
    ensures PdptIndex(va) * 0x4000_0000 == va % Span(4) - va % Span(3)
  {
    NestedDivision(va, 0x4000_0000, 512);
  }

  lemma PdField(va: nat)
    ensures va % Span(3) / Span(2) == PdIndex(va) && va % Span(3) % Span(2) == va % Span(2)
    ensures PdIndex(va) * 0x20_0000 == va % Span(3) - va % Span(2)
  {
    NestedDivision(va, 0x20_0000, 512);
  }

  lemma PtField(va: nat)
    ensures va % Span(2) / Span(1) == PtIndex(va) && va % Span(2) % Span(1) == va % Span(1)
    ensures PtIndex(va) * 0x1000 == va % Span(2) - va % Span(1)
  {
    NestedDivision(va, 0x1000, 512);
  }

  lemma PathStart(va: nat, level: nat)
    requires va < VIRTUAL_SPACE && 1 <= level <= 3
    ensures Virtual(Path(va, level)) == va - va % Span(level)
  {
    hide Virtual, Span, Pml4Index, PdptIndex, PdIndex, PtIndex;
    TopField(va);
    PdptField(va);
    PdField(va);
    PtField(va);
    Virtuals(Pml4Index(va), PdptIndex(va), PdIndex(va), PtIndex(va));
  }

  lemma LookupPt(mem: Memory, a: nat, b: nat, c: nat, addr: bv64, off: nat)
    requires addr != INVALID
    ensures var d := off / Span(1);
            Lookup(mem, 1, [a, b, c], addr, off)
            == if !IsPresent(mem(addr, d)) then None else Some(PageLine(1, [a, b, c, d], mem(addr, d)))
  {
    hide IsPresent, IsLarge, Address, PageLine, Span;
    assert [a, b, c] + [off / Span(1)] == [a, b, c, off / Span(1)];
  }

  lemma LookupPd(mem: Memory, a: nat, b: nat, addr: bv64, off: nat)
    requires addr != INVALID
    ensures var c := off / Span(2);
            Lookup(mem, 2, [a, b], addr, off)
            == if !IsPresent(mem(addr, c)) then None
               else if IsLarge(mem(addr, c)) then Some(PageLine(2, [a, b, c], mem(addr, c)))
               else Lookup(mem, 1, [a, b, c], Address(mem(addr, c)), off % Span(2))
  {
    hide IsPresent, IsLarge, Address, PageLine, Span;
    assert [a, b] + [off / Span(2)] == [a, b, off / Span(2)];
  }

  lemma LookupPdpt(mem: Memory, a: nat, addr: bv64, off: nat)
    requires addr != INVALID
    ensures var b := off / Span(3);
            Lookup(mem, 3, [a], addr, off)
            == if !IsPresent(mem(addr, b)) then None
               else if IsLarge(mem(addr, b)) then Some(PageLine(3, [a, b], mem(addr, b)))
               else Lookup(mem, 2, [a, b], Address(mem(addr, b)), off % Span(3))
  {
    hide IsPresent, IsLarge, Address, PageLine, Span;
    assert [a] + [off / Span(3)] == [a, off / Span(3)];
  }

  lemma LookupPml4(mem: Memory, addr: bv64, off: nat)
    requires addr != INVALID
    ensures var a := off / Span(4);
            Lookup(mem, 4, [], addr, off)
            == if !IsPresent(mem(addr, a)) then None
               else Lookup(mem, 3, [a], Address(mem(addr, a)), off % Span(4))
  {
    hide IsPresent, IsLarge, Address, PageLine, Span;
    assert [] + [off / Span(4)] == [off / Span(4)];
  }

  lemma LookupIsPageEntry(mem: Memory, pml4: bv64, va: nat)
    requires va < VIRTUAL_SPACE && TablesClear(mem, pml4, va)
    ensures Lookup(mem, 4, [], pml4, va)
         == match PageEntry(mem, pml4, va)
            case None => None
            case Some((level, e)) => Some(PageLine(level, Path(va, level), e))
  {
    hide Present, LargePage, IsPresent, IsLarge, Address, HighClear, TableAddress, Virtual, Pml4Index, PdptIndex,
         PdIndex, PtIndex, Span, PageLine, Lookup;
    TopField(va);
    PdptField(va);
    PdField(va);
    PtField(va);
    var a, b, c := Pml4Index(va), PdptIndex(va), PdIndex(va);
    NotRefused(pml4);
    LookupPml4(mem, pml4, va);
    var e1 := Pml4e(mem, pml4, va);
    TableAddressIff(e1);
    SamePresence(e1);
    if Present(e1) {
      LookupPdpt(mem, a, Address(e1), va % Span(4));
      var e2 := Pdpte(mem, pml4, va);
      TableAddressIff(e2);
      SamePresence(e2);
      if Present(e2) && !LargePage(e2) {
        LookupPd(mem, a, b, Address(e2), va % Span(3));
        var e3 := Pde(mem, pml4, va);
        TableAddressIff(e3);
        SamePresence(e3);
        if Present(e3) && !LargePage(e3) {
          LookupPt(mem, a, b, c, Address(e3), va % Span(2));
          SamePresence(Pte(mem, pml4, va));
        }
      }
    }
  }

  /** The line for the page entry `e` of `va`: its indices, the first address of its range, its bits 1,
      2 and 63, and its address field. */
  function LineAt(va: nat, level: nat, e: bv64): Line {
    if level == 3 then Page1G(Pml4Index(va), PdptIndex(va), Rights(e), Address(e))
    else if level == 2 then
      Page2M(Pml4Index(va), PdptIndex(va), PdIndex(va), va - va % 0x20_0000, Rights(e), Address(e))
    else
      Page4K(Pml4Index(va), PdptIndex(va), PdIndex(va), PtIndex(va), va - va % 0x1000, Rights(e), Address(e))
  }

  lemma PathLine(va: nat, level: nat, e: bv64)
    requires va < VIRTUAL_SPACE && 1 <= level <= 3
    ensures PageLine(level, Path(va, level), e) == LineAt(va, level, e)
  {
    hide Virtual, Pml4Index, PdptIndex, PdIndex, PtIndex, Rights, FlagsOf, Address;
    SameRights(e);
    PathStart(va, level);
  }

  /** Where tables are followed rightly, the dump shows over `va` just the line for the entry that bits 0
      and 7 lead to. */
  lemma WalkIsPageEntry(mem: Memory, pml4: bv64, va: nat)
    requires va < VIRTUAL_SPACE && TablesClear(mem, pml4, va)
    ensures Covering(WalkLines(mem, pml4), va)
         == match PageEntry(mem, pml4, va)
            case None => []
            case Some((level, e)) => [LineAt(va, level, e)]
  {
    hide Covering, WalkLines, Lookup, Path, PageLine, TablesClear, LineAt;
    WalkCovering(mem, pml4, va);
    LookupIsPageEntry(mem, pml4, va);
    match PageEntry(mem, pml4, va) {
      case None =>
      case Some((level, e)) =>
        PathLine(va, level, e);
    }
  }

  /** The same line by what it covers. */
  lemma WalkIsPage(mem: Memory, pml4: bv64, va: nat)
    requires va < VIRTUAL_SPACE && TablesClear(mem, pml4, va)
    ensures PageEntry(mem, pml4, va).None? ==> Covering(WalkLines(mem, pml4), va) == []
    ensures PageEntry(mem, pml4, va).Some? ==>
              var (level, e) := PageEntry(mem, pml4, va).value;
              var found := Covering(WalkLines(mem, pml4), va);
              && |found| == 1 && IsPage(found[0])
              && PageLevel(found[0]) == level
              && Start(found[0]) == va - va % Span(level)
              && found[0].flags == Rights(e) && found[0].dest == Address(e)
  {
    hide Covering, WalkLines, Lookup, Path, Rights, TablesClear, Address;
    WalkCovering(mem, pml4, va);
    LookupIsPageEntry(mem, pml4, va);
    match PageEntry(mem, pml4, va) {
      case None =>
      case Some((level, e)) =>
        SameRights(e);
        PathStart(va, level);
    }
  }

  lemma EntryIsLarge(mem: Memory, pml4: bv64, va: nat)
    requires PageEntry(mem, pml4, va).Some?
    ensures var (level, e) := PageEntry(mem, pml4, va).value; level > 1 ==> LargePage(e)
  {
    hide Present, LargePage, Pml4e, Pdpte, Pde, Pte;
  }

  lemma PathEnd(cpu: Processor, mem: Memory, pml4: bv64, va: nat)
    requires PageEntry(mem, pml4, va).Some? && !ReservedAt(cpu, mem, pml4, va)
    ensures var (level, e) := PageEntry(mem, pml4, va).value; !Reserved(cpu, level, e)
  {
    hide Present, LargePage, Pml4e, Pdpte, Pde, Pte, Reserved;
  }

  /** The dump and the processor: at most one printed page covers an address below 2^48. One does if
      and only if the address is mapped, unless its entries lead to a page over a reserved bit. The
      page of a mapped address is printed with its size and start. The printed flags, bits 1, 2
      and 63 of the page's own entry, are the rights left by all levels exactly when the entry grants
      only what the entries of all levels grant; the printed destination is the frame exactly when the entry's bits
      52 to 55 and, for a large page, its PAT bit are clear. */
  lemma WalkIsTranslation(cpu: Processor, mem: Memory, pml4: bv64, va: nat)
    requires va < VIRTUAL_SPACE && TablesClear(mem, pml4, va)
    ensures |Covering(WalkLines(mem, pml4), va)| <= 1
    ensures (Translate(cpu, mem, pml4, va).Some? <==> Covering(WalkLines(mem, pml4), va) != [])
       <==> !ReservedAt(cpu, mem, pml4, va)
    ensures Translate(cpu, mem, pml4, va).Some? ==>
              var m, found := Translate(cpu, mem, pml4, va).value, Covering(WalkLines(mem, pml4), va);
              var e := PageEntry(mem, pml4, va).value.1;
              && |found| == 1 && IsPage(found[0])
              && PageLevel(found[0]) == m.level
              && Start(found[0]) == va - va % Span(m.level)
              && found[0].flags == Flags(EntryBit(e, 1), EntryBit(e, 2), EntryBit(e, 63))
              && (found[0].flags == m.flags <==> RightsKeptAt(mem, pml4, va))
              && (found[0].dest == m.frame <==> HighClear(e) && (m.level > 1 ==> !Pat(e)))
  {
    hide Covering, WalkLines, Frame, PageClear, PathRights, RightsKeptAt, EntryBit, TablesClear, ReservedPath,
         PageEntry, Address, HighClear, Pat, Reserved, LargePage;
    WalkIsPage(mem, pml4, va);
    if Translate(cpu, mem, pml4, va).Some? {
      var (level, e) := PageEntry(mem, pml4, va).value;
      FrameIff(level, e);
      RightsKeptIff(mem, pml4, va);
      EntryIsLarge(mem, pml4, va);
      PathEnd(cpu, mem, pml4, va);
      LegalPageClear(cpu, level, e);
    }
  }

  // ----- Where the tool and the processor part ways -----

  /** A PML4 table at 0 whose entry 0 is `e`, a page directory pointer table at 0x1000 whose
      entry 0 refers to the page directory at 0x2000, whose entry 0 is `f`. */
  function SmallMemory(e: bv64, f: bv64): Memory {
    (addr: bv64, i: nat) =>
      if i != 0 then 0
      else if addr == 0 then e
      else if addr == 0x1000 then 0x2001
      else if addr == 0x2000 then f
      else 0
  }

  lemma SmallPath(e: bv64, f: bv64)
    requires TableAddress(e) == 0x1000
    ensures var mem := SmallMemory(e, f);
            Pml4e(mem, 0, 0) == e && Pdpte(mem, 0, 0) == 0x2001 && Pde(mem, 0, 0) == f
  {
    assert TableAddress(0x2001) == 0x2000;
  }

  /** A processor that has no address bits beyond those of an entry. */
  const WIDEST := Processor(52, true, true)

  lemma NothingBeyond()
    ensures Beyond(WIDEST) == 0
  {
  }

  /** A 2-MByte page with its PAT bit (bit 12) set is printed with that bit in the destination. */
  lemma PatBitPrinted()
    ensures var mem := SmallMemory(0x1001, 0x1083);
            && TablesClear(mem, 0, 0)
            && Translate(WIDEST, mem, 0, 0) == Some(Mapping(2, 0, Flags(false, false, false)))
            && |Covering(WalkLines(mem, 0), 0)| == 1
            && IsPage(Covering(WalkLines(mem, 0), 0)[0])
            && Covering(WalkLines(mem, 0), 0)[0].dest != 0
  {
    hide Covering, WalkLines, Beyond, Pml4e, Pdpte, Pde;
    NothingBeyond();
    SmallPath(0x1001, 0x1083);
    WalkIsTranslation(WIDEST, SmallMemory(0x1001, 0x1083), 0, 0);
  }

  /** A page that no level above it allows to be written is printed as writable. */
  lemma UpperRightsIgnored()
    ensures var mem := SmallMemory(0x1001, 0x83);
            && TablesClear(mem, 0, 0)
            && Translate(WIDEST, mem, 0, 0) == Some(Mapping(2, 0, Flags(false, false, false)))
            && |Covering(WalkLines(mem, 0), 0)| == 1
            && IsPage(Covering(WalkLines(mem, 0), 0)[0])
            && Covering(WalkLines(mem, 0), 0)[0].flags == Flags(true, false, false)
  {
    hide Covering, WalkLines, Beyond, Pml4e, Pdpte, Pde;
    NothingBeyond();
    SmallPath(0x1001, 0x83);
    WalkIsTranslation(WIDEST, SmallMemory(0x1001, 0x83), 0, 0);
  }

  /** One page table below tables at 0, 0x1000 and 0x2000, each with the one entry given. */
  function ChainMemory(e4: bv64, e3: bv64, e2: bv64, e1: bv64): Memory {
    (addr: bv64, i: nat) =>
      if i != 0 then 0
      else if addr == 0 then e4
      else if addr == 0x1000 then e3
      else if addr == 0x2000 then e2
      else if addr == 0x3000 then e1
      else 0
  }

  /** A user page that must not be executed is printed as such, and is one. */
  lemma UserPagePrinted()
    ensures var mem := ChainMemory(0x1007, 0x2007, 0x3007, 0x8000_0000_0000_5005);
            && Translate(WIDEST, mem, 0, 0) == Some(Mapping(1, 0x5000, Flags(false, true, true)))
            && Covering(WalkLines(mem, 0), 0) == [Page4K(0, 0, 0, 0, 0, Flags(false, true, true), 0x5000)]
  {
    hide Covering, WalkLines, Translate, TablesClear, PageEntry, LineAt;
    var mem := ChainMemory(0x1007, 0x2007, 0x3007, 0x8000_0000_0000_5005);
    ChainClear();
    ChainTranslated();
    ChainLine();
    WalkIsPageEntry(mem, 0, 0);
  }

  lemma ChainLine()
    ensures LineAt(0, 1, 0x8000_0000_0000_5005) == Page4K(0, 0, 0, 0, 0, Flags(false, true, true), 0x5000)
  {
    hide Rights, Address, Pml4Index, PdptIndex, PdIndex, PtIndex;
    UserEntryRights();
    UserEntryAddress();
    ZeroIndices();
  }

  lemma ZeroIndices()
    ensures Pml4Index(0) == PdptIndex(0) == PdIndex(0) == PtIndex(0) == 0
  {
  }

  lemma UserEntryRights()
    ensures Rights(0x8000_0000_0000_5005) == Flags(false, true, true)
  {
  }

  lemma UserEntryAddress()
    ensures Address(0x8000_0000_0000_5005) == 0x5000
  {
  }

  lemma ChainClear()
    ensures var mem := ChainMemory(0x1007, 0x2007, 0x3007, 0x8000_0000_0000_5005);
            TablesClear(mem, 0, 0) && PageEntry(mem, 0, 0) == Some((1, 0x8000_0000_0000_5005))
  {
    hide Pml4e, Pdpte, Pde, Pte;
    ChainPath();
  }

  lemma ChainTranslated()
    ensures var mem := ChainMemory(0x1007, 0x2007, 0x3007, 0x8000_0000_0000_5005);
            Translate(WIDEST, mem, 0, 0) == Some(Mapping(1, 0x5000, Flags(false, true, true)))
  {
    hide PageEntry, ReservedPath, PathRights;
    ChainClear();
    ChainLegal();
    ChainRights();
  }

  lemma ChainPath()
    ensures var mem := ChainMemory(0x1007, 0x2007, 0x3007, 0x8000_0000_0000_5005);
            && Pml4e(mem, 0, 0) == 0x1007 && Pdpte(mem, 0, 0) == 0x2007
            && Pde(mem, 0, 0) == 0x3007 && Pte(mem, 0, 0) == 0x8000_0000_0000_5005
  {
  }

  lemma ChainLegal()
    ensures !ReservedPath(WIDEST, ChainMemory(0x1007, 0x2007, 0x3007, 0x8000_0000_0000_5005), 0, 0, 1)
  {
    hide Beyond, Pml4e, Pdpte, Pde, Pte;
    NothingBeyond();
    ChainPath();
  }

  lemma ChainRights()
    ensures PathRights(ChainMemory(0x1007, 0x2007, 0x3007, 0x8000_0000_0000_5005), 0, 0, 1) == Flags(false, true, true)
  {
    hide Pml4e, Pdpte, Pde, Pte;
    ChainPath();
  }

  /** Entries with a reserved bit, on which every processor faults, are printed like others: bit 7 of
      a PML4 entry, and bit 13 of the entry of a 2-MByte page. */
  lemma ReservedBitPrinted(cpu: Processor)
    ensures var mem := SmallMemory(0x1081, 0x83);
            && TablesClear(mem, 0, 0) && Translate(cpu, mem, 0, 0).None?
            && |Covering(WalkLines(mem, 0), 0)| == 1
    ensures var mem := SmallMemory(0x1001, 0x2083);
            && TablesClear(mem, 0, 0) && Translate(cpu, mem, 0, 0).None?
            && |Covering(WalkLines(mem, 0), 0)| == 1
  {
    ReservedBitTop(cpu);
    ReservedBitLow(cpu);
  }

  lemma ReservedBitTop(cpu: Processor)
    ensures var mem := SmallMemory(0x1081, 0x83);
            && TablesClear(mem, 0, 0) && Translate(cpu, mem, 0, 0).None?
            && |Covering(WalkLines(mem, 0), 0)| == 1
  {
    hide Covering, WalkLines, Beyond, Pml4e, Pdpte, Pde;
    SmallPath(0x1081, 0x83);
    WalkIsTranslation(cpu, SmallMemory(0x1081, 0x83), 0, 0);
  }

  lemma ReservedBitLow(cpu: Processor)
    ensures var mem := SmallMemory(0x1001, 0x2083);
            && TablesClear(mem, 0, 0) && Translate(cpu, mem, 0, 0).None?
            && |Covering(WalkLines(mem, 0), 0)| == 1
  {
    hide Covering, WalkLines, Beyond, Pml4e, Pdpte, Pde;
    SmallPath(0x1001, 0x2083);
    WalkIsTranslation(cpu, SmallMemory(0x1001, 0x2083), 0, 0);
  }

  /** With bit 52 of a PML4 entry set, a mapped address is missing from the dump. */
  lemma HighBitMisleads()
    ensures var mem := SmallMemory(0x10_0000_0000_1001, 0x83);
            && Translate(WIDEST, mem, 0, 0).Some?
            && Covering(WalkLines(mem, 0), 0) == []
  {
    hide Covering, WalkLines, Beyond;
    NothingBeyond();
    var mem := SmallMemory(0x10_0000_0000_1001, 0x83);
    WalkCovering(mem, 0, 0);
    assert Address(0x10_0000_0000_1001) == 0x10_0000_0000_1000;
    assert mem(0x10_0000_0000_1000, 0) == 0;
    assert Lookup(mem, 4, [], 0, 0) == EntryLookup(mem, 4, [] + [0], 0x10_0000_0000_1001, 0);
  }

  // ----- The order of the dump -----

  /** The pages are printed in the order of their addresses and do not overlap. */
  ghost predicate Ordered(lines: seq<Line>) {
    forall i, j :: 0 <= i < j < |lines| && IsPage(lines[i]) && IsPage(lines[j]) ==> End(lines[i]) <= Start(lines[j])
  }

  predicate Placed(l: Line, lo: nat, hi: nat)
    requires IsPage(l)
  {
    lo <= Start(l) && End(l) <= hi && Start(l) % Span(PageLevel(l)) == 0
  }

  /** The pages lie between `lo` and `hi`, each aligned to its size. */
  ghost predicate Bounded(lines: seq<Line>, lo: nat, hi: nat) {
    forall i :: 0 <= i < |lines| && IsPage(lines[i]) ==> Placed(lines[i], lo, hi)
  }

  lemma OrderedConcat(a: seq<Line>, b: seq<Line>, lo: nat, mid: nat, hi: nat)
    requires Ordered(a) && Bounded(a, lo, mid)
    requires Ordered(b) && Bounded(b, mid, hi)
    requires lo <= mid <= hi
    ensures Ordered(a + b) && Bounded(a + b, lo, hi)
  {
  }

  lemma OrderedNote(l: Line, lo: nat, hi: nat)
    requires !IsPage(l) && lo <= hi
    ensures Ordered([l]) && Bounded([l], lo, hi)
    ensures Ordered([]) && Bounded([], lo, hi)
  {
  }

  lemma {:induction false} EntryOrdered(mem: Memory, level: nat, idx: seq<nat>, e: bv64)
    requires 1 <= level <= 4 && |idx| == 5 - level
    ensures Ordered(EntryLines(mem, level, idx, e))
    ensures Bounded(EntryLines(mem, level, idx, e), Virtual(idx), Virtual(idx) + Span(level))
    decreases level, 0, 0
  {
    hide IsPresent, IsLarge, Address, Virtual, TableLines, Ordered, Bounded;
    var lo, hi := Virtual(idx), Virtual(idx) + Span(level);
    var note := Reference(level, idx, Address(e));
    OrderedNote(note, lo, lo);
    OrderedNote(note, lo, hi);
    assert [note] + [] == [note];
    if level < 4 && IsPresent(e) && (level == 1 || IsLarge(e)) {
      VirtualAligned(idx);
      OrderedPage(PageLine(level, idx, e));
    } else if IsPresent(e) && level > 1 {
      TableOrdered(mem, level - 1, idx, Address(e));
      OrderedConcat([note], TableLines(mem, level - 1, idx, Address(e)), lo, lo, hi);
    }
  }

  /** The range of an entry is aligned to its size. */
  lemma {:induction false} VirtualAligned(idx: seq<nat>)
    requires 1 <= |idx| <= 4
    ensures Virtual(idx) % Span(5 - |idx|) == 0
  {
    hide Span;
    var n := |idx| - 1;
    if n > 0 {
      VirtualAligned(idx[..n]);
      SpanRatio(5 - n);
      AlignedSum(Virtual(idx[..n]), idx[n], Span(5 - |idx|));
    } else {
      AlignedSum(0, idx[n], Span(4));
    }
  }

  lemma SpanRatio(level: nat)
    requires 2 <= level <= 5
    ensures Span(level) == 512 * Span(level - 1)
  {
  }

  lemma AlignedSum(a: nat, x: nat, s: nat)
    requires s > 0 && a % (512 * s) == 0
    ensures (a + x * s) % s == 0
  {
    var q := a / (512 * s);
    assert a == q * (512 * s);
    assert a + x * s == (512 * q + x) * s + 0 by {
      assert q * (512 * s) == (512 * q) * s;
      assert (512 * q + x) * s == (512 * q) * s + x * s;
    }
    RowAndColumn(s, 512 * q + x, 0);
  }

  lemma OrderedPage(l: Line)
    requires IsPage(l) && Start(l) % Span(PageLevel(l)) == 0
    ensures Ordered([l]) && Bounded([l], Start(l), End(l))
  {
  }

  lemma {:induction false} UpToOrdered(mem: Memory, level: nat, idx: seq<nat>, addr: bv64, k: nat)
    requires 1 <= level <= 4 && |idx| == 4 - level
    ensures Ordered(UpTo(mem, level, idx, addr, k))
    ensures Bounded(UpTo(mem, level, idx, addr, k), Virtual(idx), Virtual(idx) + k * Span(level))
    decreases level, 1, k
  {
    hide Virtual, EntryLines, Span, Ordered, Bounded;
    var lo := Virtual(idx);
    if k == 0 {
      OrderedNote(Blank, lo, lo);
    } else {
      UpToOrdered(mem, level, idx, addr, k - 1);
      EntryOrdered(mem, level, idx + [k - 1], mem(addr, k - 1));
      VirtualEntry(idx, k - 1);
      MulOrder(k - 1, k, Span(level));
      OneMore(k, Span(level));
      OrderedConcat(UpTo(mem, level, idx, addr, k - 1), EntryLines(mem, level, idx + [k - 1], mem(addr, k - 1)),
                    lo, lo + (k - 1) * Span(level), lo + k * Span(level));
    }
  }

  lemma OneMore(k: nat, s: nat)
    requires k > 0
    ensures k * s == (k - 1) * s + s
  {
  }

  lemma {:induction false} TableOrdered(mem: Memory, level: nat, idx: seq<nat>, addr: bv64)
    requires 1 <= level <= 4 && |idx| == 4 - level
    ensures Ordered(TableLines(mem, level, idx, addr))
    ensures Bounded(TableLines(mem, level, idx, addr), Virtual(idx), Virtual(idx) + Span(level + 1))
    decreases level, 2, 0
  {
    hide Virtual, UpTo, Ordered, Bounded;
    var lo, hi := Virtual(idx), Virtual(idx) + Span(level + 1);
    UpToOrdered(mem, level, idx, addr, 512);
    var lines := UpTo(mem, level, idx, addr, 512);
    OrderedNote(Refused, lo, hi);
    OrderedNote(Pml4Header, lo, lo);
    OrderedNote(Blank, hi, hi);
    OrderedNote(Blank, lo, hi);
    OrderedConcat([Pml4Header], lines, lo, lo, hi);
    OrderedConcat(lines, [Blank], lo, hi, hi);
    assert lines + [] == lines && [] + lines == lines && ([Pml4Header] + lines) + [] == [Pml4Header] + lines;
  }

  /** The whole dump lists its pages in strictly increasing, disjoint ranges below 2^48. */
  lemma WalkOrdered(mem: Memory, pml4: bv64)
    ensures Ordered(WalkLines(mem, pml4))
    ensures Bounded(WalkLines(mem, pml4), 0, VIRTUAL_SPACE)
  {
    hide TableLines;
    TableOrdered(mem, 4, [], pml4);
  }
}
