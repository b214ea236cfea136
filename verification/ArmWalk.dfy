/** code/common/pt_printer.c: the dump of ARM two-level page tables, and its agreement with the
    translation of one address in section B3.5 (short-descriptor format) of the ARMv7-A
    Architecture Reference Manual, for sections and small pages. */
module ArmWalk {
  import opened Bits
  import opened Dump

  /** Physical memory: word `i` from a base address, and whether a range can be read at all. */
  datatype Memory = Memory(word: (bv32, nat) -> bv32, readable: (bv32, nat) -> bool)

  const MB := 0x10_0000
  const KB4 := 0x1000

  // ----- The reference -----

  /** What a level-1 and a level-2 descriptor say about one address. */
  datatype Mapping = Fault | Section(base: bv32) | Small(base: bv32) | Large | Supersection

  /** Bits 1:0 of a descriptor. */
  function Kind(desc: bv32): bv32 { (desc << 30) >> 30 }

  /** Bits 31:20 of a descriptor. */
  function SectionBase(desc: bv32): bv32 { (desc >> 20) << 20 }

  /** Bits 31:12 of a descriptor. */
  function SmallBase(desc: bv32): bv32 { (desc >> 12) << 12 }

  /** Bits 31:10 of a descriptor. */
  function TableBase(desc: bv32): bv32 { desc & 0xffff_fc00 }

  /** Bit 18 of a descriptor. */
  predicate IsSupersection(desc: bv32) { (desc >> 18) & 1 == 1 }

  /** Bits 31:14-n of a translation table base register. */
  function RegisterBase(ttbr: bv32, n: nat): bv32
    requires n <= 7
  {
    if n == 0 then ttbr & 0xffff_c000
    else if n == 1 then ttbr & 0xffff_e000
    else if n == 2 then ttbr & 0xffff_f000
    else if n == 3 then ttbr & 0xffff_f800
    else if n == 4 then ttbr & 0xffff_fc00
    else if n == 5 then ttbr & 0xffff_fe00
    else if n == 6 then ttbr & 0xffff_ff00
    else ttbr & 0xffff_ff80
  }

  /** The number of level-1 entries that TTBR0 has for TTBCR.N == n: bits 31-n:20 of an address. */
  function Entries(n: nat): nat
    requires n <= 7
  {
    if n == 0 then 4096 else if n == 1 then 2048 else if n == 2 then 1024 else if n == 3 then 512
    else if n == 4 then 256 else if n == 5 then 128 else if n == 6 then 64 else 32
  }

  /** Bits 31:20 of an address. */
  function L1Index(va: nat): nat { va / MB }

  /** Bits 19:12 of an address. */
  function L2Index(va: nat): nat { va % MB / KB4 }

  function L2Mapping(desc: bv32): Mapping {
    if Kind(desc) == 0 then Fault
    else if Kind(desc) == 1 then Large
    else Small(SmallBase(desc))
  }

  /** The mapping of `va` through the level-1 table at `base`. */
  function TableMapping(mem: Memory, base: bv32, va: nat): Mapping {
    var desc := mem.word(base, L1Index(va));
    if Kind(desc) == 0 then Fault
    else if Kind(desc) == 1 then L2Mapping(mem.word(TableBase(desc), L2Index(va)))
    else if IsSupersection(desc) then Supersection
    else Section(SectionBase(desc))
  }

  /** Is the address translated through TTBR0? */
  predicate Low(n: nat, va: nat)
    requires n <= 7
  {
    va < Entries(n) * MB
  }

  /** The translation registers; bit 31 of TTBCR, which selects another format, is clear. */
  datatype Registers = Registers(ttbcr: bv32, ttbr0: bv32, ttbr1: bv32)

  /** TTBCR.N */
  function N(regs: Registers): (n: nat)
    ensures n <= 7
  {
    LowBits(regs.ttbcr);
    (regs.ttbcr & 7) as nat
  }

  lemma LowBits(x: bv32)
    ensures (x & 7) as nat <= 7
  {
    assert x & 7 <= 7;
  }

  /** Where the level-1 table for `va` begins. */
  function WalkBase(regs: Registers, va: nat): bv32 {
    if Low(N(regs), va) then RegisterBase(regs.ttbr0, N(regs)) else RegisterBase(regs.ttbr1, 0)
  }

  /** Is the table walk for `va` disabled, by TTBCR.PD0 or TTBCR.PD1? */
  predicate Disabled(regs: Registers, va: nat) {
    if Low(N(regs), va) then regs.ttbcr & 0x10 != 0 else regs.ttbcr & 0x20 != 0
  }

  /** Does the walk for `va` fault whatever the tables map it to? It does if it is disabled, or if the
      level-1 descriptor has both type bits set and the processor has no PXN attribute. */
  predicate WalkFaults(pxn: bool, mem: Memory, regs: Registers, va: nat) {
    Disabled(regs, va) || (!pxn && Kind(mem.word(WalkBase(regs, va), L1Index(va))) == 3)
  }

  /** The mapping of an address below 2^32. */
  function Translate(pxn: bool, mem: Memory, regs: Registers, va: nat): Mapping {
    if WalkFaults(pxn, mem, regs, va) then Fault else TableMapping(mem, WalkBase(regs, va), va)
  }

  // ----- What is printed -----

  datatype Line =
    | TableLine(base: bv32)
    | LargeLine(virt: nat, base: bv32)
    | SmallLine(virt: nat, base: bv32)
    | SupersectionLine(virt: nat, base: bv32)
    | SectionLine(virt: nat, base: bv32)
    | ReadError
    | Heading(ttbr: nat)
    | VirtOffset(first: nat)
    | NotSupported

  function TypeField(desc: bv32): bv32 { desc & 3 }

  function SectionField(desc: bv32): bv32 { desc & 0xfff0_0000 }

  function SmallField(desc: bv32): bv32 { desc & 0xffff_f000 }

  predicate SuperField(desc: bv32) { desc & 0x4_0000 != 0 }

  function LargeField(desc: bv32): bv32 { desc & 0xffff_0000 }

  function SuperBaseField(desc: bv32): bv32 { desc & 0xff00_0000 }

  /** The address printed for a large page: virt_offset + ((i & 0xf0) << 16) on 32 bits. */
  function LargeVirt(virt: nat, i: nat): nat {
    (virt + i / 16 * 16 * 0x1_0000) % 0x1_0000_0000
  }

  function L2Line(virt: nat, i: nat, desc: bv32): seq<Line> {
    if TypeField(desc) == 0 then []
    else if TypeField(desc) == 1 then [LargeLine(LargeVirt(virt, i), LargeField(desc))]
    else [SmallLine(virt + i * KB4, SmallField(desc))]
  }

  function L2UpTo(mem: Memory, base: bv32, virt: nat, k: nat): seq<Line> {
    if k == 0 then [] else L2UpTo(mem, base, virt, k - 1) + L2Line(virt, k - 1, mem.word(base, k - 1))
  }

  /** armPtPrintPT */
  function L2Lines(mem: Memory, desc: bv32, virt: nat): seq<Line> {
    [TableLine(TableBase(desc))] +
    if mem.readable(TableBase(desc), 1024) then L2UpTo(mem, TableBase(desc), virt, 256) else [ReadError]
  }

  function L1Line(mem: Memory, i: nat, desc: bv32): seq<Line> {
    if TypeField(desc) == 0 then []
    else if TypeField(desc) == 1 then L2Lines(mem, desc, i * MB)
    else if SuperField(desc) then [SupersectionLine(i * MB, SuperBaseField(desc))]
    else [SectionLine(i * MB, SectionField(desc))]
  }

  function L1UpTo(mem: Memory, base: bv32, k: nat): seq<Line> {
    if k == 0 then [] else L1UpTo(mem, base, k - 1) + L1Line(mem, k - 1, mem.word(base, k - 1))
  }

  /** armPtPrintTT: the dump of a level-1 table of `entries` words. */
  function L1Lines(mem: Memory, base: bv32, entries: nat): seq<Line> {
    if mem.readable(base, 4 * entries) then L1UpTo(mem, base, entries) else [ReadError]
  }

  /** What armPtPrintTT prints for TTBR1 before the table: the first address that TTBR1 translates. */
  function OffsetLine(n2: nat): seq<Line> {
    if n2 != 0 then [VirtOffset(Shr(0x1_0000_0000, n2))] else []
  }

  /** armPtPrint for the short descriptor format: the dump of both tables. */
  function DumpLines(mem: Memory, regs: Registers): seq<Line> {
    (if regs.ttbr0 != 0
     then [Heading(0)] + L1Lines(mem, RegisterBase(regs.ttbr0, N(regs)), Entries(N(regs))) else [])
    + (if N(regs) != 0 && regs.ttbr1 != 0
       then [Heading(1)] + OffsetLine(N(regs)) + L1Lines(mem, RegisterBase(regs.ttbr1, 0), 4096) else [])
  }

  // ----- The sections and small pages printed over an address -----

  predicate Covers(l: Line, va: nat) {
    (l.SectionLine? && l.virt <= va < l.virt + MB) || (l.SmallLine? && l.virt <= va < l.virt + KB4)
  }

  function OverAddress(va: nat): Line -> bool {
    (l: Line) => Covers(l, va)
  }

  function Covering(lines: seq<Line>, va: nat): seq<Line> {
    Select(lines, OverAddress(va))
  }

  /** The line that a mapping calls for, if it is a section or a small page. */
  function Expected(m: Mapping, va: nat): seq<Line> {
    match m
    case Section(base) => [SectionLine(va - va % MB, base)]
    case Small(base) => [SmallLine(va - va % KB4, base)]
    case _ => []
  }

  /** Is the address in small page `i` of the megabyte at `virt`? */
  predicate InSlot(va: nat, virt: nat, i: nat) {
    va - va % MB == virt && L2Index(va) == i
  }

  /** A byte at offset t of page j of megabyte q. */
  lemma PageParts(va: nat) returns (q: nat, j: nat, t: nat)
    ensures va == q * MB + j * KB4 + t && j < 256 && t < KB4
    ensures va % MB == j * KB4 + t && L2Index(va) == j && va % KB4 == t
  {
    q := va / MB;
    var r := va % MB;
    j, t := r / KB4, r % KB4;
    RowAndColumn(KB4, q * 256 + j, t);
  }

  lemma SamePage(q: nat, j: nat, t: nat, w: nat, i: nat)
    requires j < 256 && i < 256 && t < KB4
    ensures w * MB + i * KB4 <= q * MB + j * KB4 + t < w * MB + i * KB4 + KB4 <==> q == w && j == i
  {
  }

  lemma SlotRange(va: nat, virt: nat, i: nat)
    requires virt % MB == 0 && i < 256
    ensures InSlot(va, virt, i) <==> virt + i * KB4 <= va < virt + i * KB4 + KB4
    ensures InSlot(va, virt, i) ==> va - va % KB4 == virt + i * KB4
  {
    var q, j, t := PageParts(va);
    var w := virt / MB;
    assert virt == w * MB;
    SamePage(q, j, t, w, i);
  }

  lemma SameFields(desc: bv32)
    ensures TypeField(desc) == Kind(desc)
    ensures SectionField(desc) == SectionBase(desc)
    ensures SmallField(desc) == SmallBase(desc)
    ensures SuperField(desc) <==> IsSupersection(desc)
  {
  }

  /** What is printed for a level-2 descriptor, by its bits 1:0 and 31:12 or 31:16. */
  lemma L2LineIs(virt: nat, i: nat, desc: bv32)
    ensures L2Line(virt, i, desc)
         == if Kind(desc) == 0 then []
            else if Kind(desc) == 1 then [LargeLine(LargeVirt(virt, i), (desc >> 16) << 16)]
            else [SmallLine(virt + i * KB4, SmallBase(desc))]
  {
    hide Kind, SmallBase, TypeField, SmallField, LargeField, LargeVirt;
    SameFields(desc);
    OtherFields(desc);
  }

  /** What is printed for a level-1 descriptor, by its bits 1:0, 18, and 31:20 or 31:24. */
  lemma L1LineIs(mem: Memory, i: nat, desc: bv32)
    ensures L1Line(mem, i, desc)
         == if Kind(desc) == 0 then []
            else if Kind(desc) == 1 then L2Lines(mem, desc, i * MB)
            else if IsSupersection(desc) then [SupersectionLine(i * MB, (desc >> 24) << 24)]
            else [SectionLine(i * MB, SectionBase(desc))]
  {
    hide Kind, SectionBase, IsSupersection, TypeField, SectionField, SuperField, SuperBaseField, L2Lines;
    SameFields(desc);
    OtherFields(desc);
  }

  lemma OtherFields(desc: bv32)
    ensures LargeField(desc) == (desc >> 16) << 16
    ensures SuperBaseField(desc) == (desc >> 24) << 24
  {
  }

  lemma L2LineCovering(virt: nat, i: nat, desc: bv32, va: nat)
    requires virt % MB == 0 && i < 256
    ensures Covering(L2Line(virt, i, desc), va)
         == if InSlot(va, virt, i) then Expected(L2Mapping(desc), va) else []
  {
    hide Kind, SmallBase, L2Line, L2Index, Select, LargeVirt, InSlot;
    L2LineIs(virt, i, desc);
    SelectOne(LargeLine(LargeVirt(virt, i), (desc >> 16) << 16), OverAddress(va));
    SelectOne(SmallLine(virt + i * KB4, SmallBase(desc)), OverAddress(va));
    SlotRange(va, virt, i);
  }

  lemma SectionOf(va: nat, i: nat)
    ensures i * MB <= va < i * MB + MB <==> L1Index(va) == i
    ensures L1Index(va) == i ==> va - va % MB == i * MB
    ensures i * MB % MB == 0
  {
  }

  lemma {:induction false} L2Covering(mem: Memory, base: bv32, virt: nat, k: nat, va: nat)
    requires virt % MB == 0 && k <= 256
    ensures Covering(L2UpTo(mem, base, virt, k), va)
         == if va - va % MB == virt && L2Index(va) < k
            then Expected(L2Mapping(mem.word(base, L2Index(va))), va) else []
  {
    hide Kind, SmallBase, L2Index, L2Line, L2Mapping, Select;
    SelectOne(ReadError, OverAddress(va));
    if k > 0 {
      var i, desc := k - 1, mem.word(base, k - 1);
      L2Covering(mem, base, virt, i, va);
      SelectConcat(L2UpTo(mem, base, virt, i), L2Line(virt, i, desc), OverAddress(va));
      L2LineCovering(virt, i, desc, va);
    }
  }

  lemma L2IndexRange(va: nat)
    ensures L2Index(va) < 256
  {
  }

  /** Can the level-2 table of `va` be read, if it has one? */
  predicate SecondReadable(mem: Memory, base: bv32, va: nat) {
    var desc := mem.word(base, L1Index(va));
    Kind(desc) == 1 ==> mem.readable(TableBase(desc), 1024)
  }

  /** Can the level-1 table and the level-2 table of `va` be read? */
  predicate TableReadable(mem: Memory, base: bv32, entries: nat, va: nat) {
    mem.readable(base, 4 * entries) && SecondReadable(mem, base, va)
  }

  lemma L2LinesCovering(mem: Memory, i: nat, desc: bv32, va: nat)
    ensures Covering(L2Lines(mem, desc, i * MB), va)
         == if L1Index(va) == i && mem.readable(TableBase(desc), 1024)
            then Expected(L2Mapping(mem.word(TableBase(desc), L2Index(va))), va) else []
  {
    hide TableBase, L1Index, L2Index, L2UpTo, Select, L2Mapping;
    SectionOf(va, i);
    var table := L2UpTo(mem, TableBase(desc), i * MB, 256);
    SelectOne(TableLine(TableBase(desc)), OverAddress(va));
    SelectOne(ReadError, OverAddress(va));
    SelectConcat([TableLine(TableBase(desc))], table, OverAddress(va));
    SelectConcat([TableLine(TableBase(desc))], [ReadError], OverAddress(va));
    L2Covering(mem, TableBase(desc), i * MB, 256, va);
    L2IndexRange(va);
  }

  lemma L1LineCovering(mem: Memory, i: nat, desc: bv32, va: nat)
    ensures Covering(L1Line(mem, i, desc), va)
         == if L1Index(va) != i || Kind(desc) == 0 then []
            else if Kind(desc) == 1 then
              if mem.readable(TableBase(desc), 1024)
              then Expected(L2Mapping(mem.word(TableBase(desc), L2Index(va))), va) else []
            else if IsSupersection(desc) then []
            else [SectionLine(va - va % MB, SectionBase(desc))]
  {
    hide Kind, SectionBase, TableBase, IsSupersection, L1Line, L1Index, L2Index, L2Lines, Select, L2Mapping, Expected;
    L1LineIs(mem, i, desc);
    SectionOf(va, i);
    SelectOne(SupersectionLine(i * MB, (desc >> 24) << 24), OverAddress(va));
    SelectOne(SectionLine(i * MB, SectionBase(desc)), OverAddress(va));
    L2LinesCovering(mem, i, desc, va);
  }

  lemma {:induction false} L1Covering(mem: Memory, base: bv32, k: nat, va: nat)
    ensures Covering(L1UpTo(mem, base, k), va)
         == if L1Index(va) < k && SecondReadable(mem, base, va) then Expected(TableMapping(mem, base, va), va) else []
  {
    hide Kind, SectionBase, TableBase, IsSupersection, L1Index, L2Index, L2Mapping, L1Line, Select;
    SelectOne(ReadError, OverAddress(va));
    if k > 0 {
      L1Covering(mem, base, k - 1, va);
      SelectConcat(L1UpTo(mem, base, k - 1), L1Line(mem, k - 1, mem.word(base, k - 1)), OverAddress(va));
      L1LineCovering(mem, k - 1, mem.word(base, k - 1), va);
    }
  }

  /** The dump of one table shows, over every address the table has an entry for, exactly the
      section or small page the address is mapped to, and nothing else; if the level-1 table or the
      level-2 table of the address cannot be read, it shows nothing over it. */
  lemma TableDump(mem: Memory, base: bv32, entries: nat, va: nat)
    ensures Covering(L1Lines(mem, base, entries), va)
         == if va < entries * MB && TableReadable(mem, base, entries, va)
            then Expected(TableMapping(mem, base, va), va) else []
  {
    hide TableMapping, L1UpTo, Select;
    L1Covering(mem, base, entries, va);
    SelectOne(ReadError, OverAddress(va));
  }

  /** The printed offset is the first address that is not translated through TTBR0. */
  lemma OffsetIsSplit(n: nat, va: nat)
    requires n <= 7
    ensures Low(n, va) <==> va < Shr(0x1_0000_0000, n)
  {
  }

  /** The lines that show an address through TTBR0, and through TTBR1. */
  function Through0(mem: Memory, regs: Registers, va: nat): seq<Line> {
    var n := N(regs);
    if regs.ttbr0 != 0 && Low(n, va) && TableReadable(mem, RegisterBase(regs.ttbr0, n), Entries(n), va)
    then Expected(TableMapping(mem, RegisterBase(regs.ttbr0, n), va), va) else []
  }

  function Through1(mem: Memory, regs: Registers, va: nat): seq<Line> {
    if N(regs) != 0 && regs.ttbr1 != 0 && TableReadable(mem, RegisterBase(regs.ttbr1, 0), 4096, va)
    then Expected(TableMapping(mem, RegisterBase(regs.ttbr1, 0), va), va) else []
  }

  lemma DumpCovering(mem: Memory, regs: Registers, va: nat)
    requires va < 0x1_0000_0000
    ensures Covering(DumpLines(mem, regs), va) == Through0(mem, regs, va) + Through1(mem, regs, va)
  {
    hide L1Lines, Covering, RegisterBase, OffsetLine, N, Through0, Through1;
    var n := N(regs);
    HeadedCovering(if regs.ttbr0 != 0 then [Heading(0)] + L1Lines(mem, RegisterBase(regs.ttbr0, n), Entries(n)) else [],
                   if n != 0 && regs.ttbr1 != 0
                   then [Heading(1)] + OffsetLine(n) + L1Lines(mem, RegisterBase(regs.ttbr1, 0), 4096) else [], va);
    FirstCovering(mem, regs, va);
    SecondCovering(mem, regs, va);
    NoCovering(va);
  }

  lemma NoCovering(va: nat)
    ensures Covering([], va) == []
  {
  }

  lemma FirstCovering(mem: Memory, regs: Registers, va: nat)
    ensures Through0(mem, regs, va)
         == if regs.ttbr0 != 0
            then Covering([Heading(0)] + L1Lines(mem, RegisterBase(regs.ttbr0, N(regs)), Entries(N(regs))), va) else []
  {
    hide TableMapping, L1Lines, Covering, RegisterBase, TableReadable, Expected, N;
    var n := N(regs);
    TableDump(mem, RegisterBase(regs.ttbr0, n), Entries(n), va);
    HeadedCovering([Heading(0)], L1Lines(mem, RegisterBase(regs.ttbr0, n), Entries(n)), va);
    TwoNotes(n, va);
  }

  lemma SecondCovering(mem: Memory, regs: Registers, va: nat)
    requires va < 0x1_0000_0000
    ensures Through1(mem, regs, va)
         == if N(regs) != 0 && regs.ttbr1 != 0
            then Covering([Heading(1)] + OffsetLine(N(regs)) + L1Lines(mem, RegisterBase(regs.ttbr1, 0), 4096), va)
            else []
  {
    hide TableMapping, L1Lines, Covering, RegisterBase, TableReadable, Expected, OffsetLine, N;
    TableDump(mem, RegisterBase(regs.ttbr1, 0), 4096, va);
    HeadedCovering([Heading(1)] + OffsetLine(N(regs)), L1Lines(mem, RegisterBase(regs.ttbr1, 0), 4096), va);
    TwoNotes(N(regs), va);
  }

  lemma HeadedCovering(head: seq<Line>, t: seq<Line>, va: nat)
    ensures Covering(head + t, va) == Covering(head, va) + Covering(t, va)
  {
    SelectConcat(head, t, OverAddress(va));
  }

  lemma TwoNotes(n: nat, va: nat)
    ensures Covering([Heading(0)], va) == [] && Covering([Heading(1)] + OffsetLine(n), va) == []
  {
    hide Select;
    SelectOne(Heading(0), OverAddress(va));
    SelectOne(Heading(1), OverAddress(va));
    SelectOne(VirtOffset(Shr(0x1_0000_0000, n)), OverAddress(va));
    SelectConcat([Heading(1)], OffsetLine(n), OverAddress(va));
  }

  /** Is the register of the table for `va` set, and can the tables for `va` be read? */
  predicate Shown(mem: Memory, regs: Registers, va: nat) {
    if Low(N(regs), va)
    then regs.ttbr0 != 0 && TableReadable(mem, RegisterBase(regs.ttbr0, N(regs)), Entries(N(regs)), va)
    else regs.ttbr1 != 0 && TableReadable(mem, RegisterBase(regs.ttbr1, 0), 4096, va)
  }

  /** Over an address translated through TTBR0, the dump ends with what the unused lower part of the
      table of TTBR1 says. */
  function Unused(mem: Memory, regs: Registers, va: nat): seq<Line> {
    if Low(N(regs), va) then Through1(mem, regs, va) else []
  }

  lemma AllLow(va: nat)
    requires va < 0x1_0000_0000
    ensures Low(0, va)
  {
  }

  lemma DumpIsWalk(mem: Memory, regs: Registers, va: nat)
    requires va < 0x1_0000_0000
    ensures Covering(DumpLines(mem, regs), va)
         == (if Shown(mem, regs, va) then Expected(TableMapping(mem, WalkBase(regs, va), va), va) else [])
            + Unused(mem, regs, va)
  {
    hide TableMapping, DumpLines, Covering, RegisterBase, TableReadable, Expected, N, Low;
    AllLow(va);
    DumpCovering(mem, regs, va);
  }

  lemma FaultExpected(va: nat)
    ensures Expected(Fault, va) == []
  {
  }

  lemma SameTail(a: seq<Line>, b: seq<Line>, t: seq<Line>)
    ensures a + t == b + t <==> a == b
  {
    if a + t == b + t {
      assert |a| == |b|;
      assert a == (a + t)[..|a|] == (b + t)[..|b|] == b;
    }
  }

  /** The whole dump shows over an address exactly the section or small page it is mapped to, followed
      by what the unused lower part of the table of TTBR1 says, if and only if the tables have no
      section or small page for it, or its tables are shown just when its walk does not fault. */
  lemma DumpIsTranslation(pxn: bool, mem: Memory, regs: Registers, va: nat)
    requires va < 0x1_0000_0000
    ensures Covering(DumpLines(mem, regs), va)
         == Expected(Translate(pxn, mem, regs, va), va) + Unused(mem, regs, va)
       <==> || Expected(TableMapping(mem, WalkBase(regs, va), va), va) == []
            || (Shown(mem, regs, va) <==> !WalkFaults(pxn, mem, regs, va))
  {
    hide TableMapping, DumpLines, Covering, Shown, WalkBase, WalkFaults, Expected, Unused;
    DumpIsWalk(mem, regs, va);
    FaultExpected(va);
    var walked := Expected(TableMapping(mem, WalkBase(regs, va), va), va);
    SameTail(if Shown(mem, regs, va) then walked else [], Expected(Translate(pxn, mem, regs, va), va),
             Unused(mem, regs, va));
  }

  // ----- The headings -----

  predicate IsHeading(l: Line) {
    l.Heading? || l.VirtOffset? || l.NotSupported?
  }

  lemma NoHeading(l: Line)
    ensures Select([l], IsHeading) == if IsHeading(l) then [l] else []
    ensures Select([], IsHeading) == []
  {
    hide Select;
    SelectOne(l, IsHeading);
  }

  lemma {:induction false} L2NoHeading(mem: Memory, base: bv32, virt: nat, k: nat)
    ensures Select(L2UpTo(mem, base, virt, k), IsHeading) == []
  {
    hide Select, TypeField, SmallField, LargeField, LargeVirt;
    NoHeading(ReadError);
    if k > 0 {
      var desc := mem.word(base, k - 1);
      L2NoHeading(mem, base, virt, k - 1);
      SelectConcat(L2UpTo(mem, base, virt, k - 1), L2Line(virt, k - 1, desc), IsHeading);
      NoHeading(LargeLine(LargeVirt(virt, k - 1), LargeField(desc)));
      NoHeading(SmallLine(virt + (k - 1) * KB4, SmallField(desc)));
    }
  }

  lemma LineNoHeading(mem: Memory, i: nat, desc: bv32)
    ensures Select(L1Line(mem, i, desc), IsHeading) == []
  {
    hide Select, TypeField, SectionField, SuperField, SuperBaseField, TableBase, L2UpTo;
    NoHeading(ReadError);
    NoHeading(TableLine(TableBase(desc)));
    NoHeading(SectionLine(i * MB, SectionField(desc)));
    NoHeading(SupersectionLine(i * MB, SuperBaseField(desc)));
    L2NoHeading(mem, TableBase(desc), i * MB, 256);
    SelectConcat([TableLine(TableBase(desc))], L2UpTo(mem, TableBase(desc), i * MB, 256), IsHeading);
    SelectConcat([TableLine(TableBase(desc))], [ReadError], IsHeading);
  }

  lemma {:induction false} L1NoHeading(mem: Memory, base: bv32, k: nat)
    ensures Select(L1UpTo(mem, base, k), IsHeading) == []
  {
    hide Select, L1Line;
    NoHeading(ReadError);
    if k > 0 {
      L1NoHeading(mem, base, k - 1);
      LineNoHeading(mem, k - 1, mem.word(base, k - 1));
      SelectConcat(L1UpTo(mem, base, k - 1), L1Line(mem, k - 1, mem.word(base, k - 1)), IsHeading);
    }
  }

  lemma TableNoHeading(mem: Memory, base: bv32, entries: nat)
    ensures Select(L1Lines(mem, base, entries), IsHeading) == []
  {
    hide Select, L1UpTo;
    L1NoHeading(mem, base, entries);
    NoHeading(ReadError);
  }

  lemma HeadedTable(head: seq<Line>, mem: Memory, base: bv32, entries: nat)
    ensures Select(head + L1Lines(mem, base, entries), IsHeading) == Select(head, IsHeading)
  {
    hide Select, L1Lines;
    TableNoHeading(mem, base, entries);
    SelectConcat(head, L1Lines(mem, base, entries), IsHeading);
  }

  lemma HeadingOf1(n: nat)
    requires 0 < n <= 7
    ensures Select([Heading(1)] + OffsetLine(n), IsHeading) == [Heading(1), VirtOffset(Entries(n) * MB)]
  {
    hide Select, Shr;
    NoHeading(Heading(1));
    NoHeading(VirtOffset(Shr(0x1_0000_0000, n)));
    OffsetIs(n);
    SelectConcat([Heading(1)], OffsetLine(n), IsHeading);
  }

  /** The dump has a heading for each register that is used and not 0, and after that of TTBR1 the first
      address translated through it. */
  lemma Headings(mem: Memory, regs: Registers)
    ensures Select(DumpLines(mem, regs), IsHeading)
         == (if regs.ttbr0 != 0 then [Heading(0)] else [])
            + (if N(regs) != 0 && regs.ttbr1 != 0 then [Heading(1), VirtOffset(Entries(N(regs)) * MB)] else [])
  {
    hide Select, L1Lines, RegisterBase, N, OffsetLine, IsHeading;
    var n := N(regs);
    HeadedTable([Heading(0)], mem, RegisterBase(regs.ttbr0, n), Entries(n));
    HeadedTable([Heading(1)] + OffsetLine(n), mem, RegisterBase(regs.ttbr1, 0), 4096);
    HeadingOf0();
    if n != 0 {
      HeadingOf1(n);
    }
    SelectConcat(if regs.ttbr0 != 0 then [Heading(0)] + L1Lines(mem, RegisterBase(regs.ttbr0, n), Entries(n)) else [],
                 if n != 0 && regs.ttbr1 != 0
                 then [Heading(1)] + OffsetLine(n) + L1Lines(mem, RegisterBase(regs.ttbr1, 0), 4096) else [],
                 IsHeading);
  }

  lemma HeadingOf0()
    ensures Select([Heading(0)], IsHeading) == [Heading(0)] && Select([], IsHeading) == []
  {
    hide Select;
    NoHeading(Heading(0));
  }

  lemma OffsetIs(n: nat)
    requires n <= 7
    ensures Shr(0x1_0000_0000, n) == Entries(n) * MB
  {
  }

  // ----- Where the dump and the processor part ways -----

  /** A large page covers 64 KBytes and has 16 equal descriptors. The address printed for one of them is
      too high by 15 times its distance in the megabyte, modulo 2^32; it is the start of the page only
      in the first 64 KBytes. */
  lemma LargePlaceIff(virt: nat, i: nat)
    requires virt % MB == 0 && virt < 0x1_0000_0000 && i < 256
    ensures var distance := i / 16 * 0x1_0000;
            && LargeVirt(virt, i) == (virt + distance + 15 * distance) % 0x1_0000_0000
            && (LargeVirt(virt, i) == virt + distance <==> i < 16)
  {
  }

  /** Readable memory with one section, at entry `i` of the table at `base`. */
  function OneSection(base: bv32, i: nat): Memory {
    Memory((b: bv32, k: nat) => if b == base && k == i then 0x10_0002 else 0, (b: bv32, size: nat) => true)
  }

  /** With TTBCR.N == 1 and TTBCR.PD1 set, the section at 2^31 of the table of TTBR1 is printed, but
      every access to it faults. */
  lemma DisabledIsPrinted(pxn: bool)
    ensures var mem, regs := OneSection(0x8000, 2048), Registers(0x21, 0x4000, 0x8000);
            && Translate(pxn, mem, regs, 0x8000_0000) == Fault
            && Covering(DumpLines(mem, regs), 0x8000_0000) == [SectionLine(0x8000_0000, 0x10_0000)]
  {
    hide Covering, DumpLines;
    DumpIsWalk(OneSection(0x8000, 2048), Registers(0x21, 0x4000, 0x8000), 0x8000_0000);
  }

  /** With TTBCR.N == 1, the section at 0 of the table of TTBR1 is printed, but the address is
      translated through TTBR0, whose table is empty. */
  lemma UnusedIsPrinted(pxn: bool)
    ensures var mem, regs := OneSection(0x8000, 0), Registers(0x1, 0x4000, 0x8000);
            && Translate(pxn, mem, regs, 0) == Fault
            && Covering(DumpLines(mem, regs), 0) == [SectionLine(0, 0x10_0000)]
  {
    hide Covering, DumpLines;
    DumpIsWalk(OneSection(0x8000, 0), Registers(0x1, 0x4000, 0x8000), 0);
  }

  // ----- The printing code -----

  /** physread into a buffer of `count` words; null stands for a failure. */
  method PhysRead(mem: Memory, base: bv32, count: nat) returns (buffer: array?<bv32>)
    ensures buffer == null <==> !mem.readable(base, 4 * count)
    ensures buffer != null ==> fresh(buffer) && buffer.Length == count
    ensures buffer != null ==> forall i :: 0 <= i < count ==> buffer[i] == mem.word(base, i)
  {
    if !mem.readable(base, 4 * count) {
      return null;
    }
    buffer := new bv32[count](i requires 0 <= i < count => mem.word(base, i));
  }

  lemma TableBaseShift(desc: bv32)
    ensures (desc >> 10) << 10 == TableBase(desc)
    ensures desc & !0x3ff == TableBase(desc)
  {
  }

  function ShiftedBack(x: bv32, k: nat): bv32
    requires k <= 32
  {
    (x >> k) << k
  }

  lemma Shift14(ttbr: bv32)
    ensures ShiftedBack(ttbr, 14) == ttbr & 0xffff_c000
  {
  }

  lemma Shift13(ttbr: bv32)
    ensures ShiftedBack(ttbr, 13) == ttbr & 0xffff_e000
  {
  }

  lemma Shift12(ttbr: bv32)
    ensures ShiftedBack(ttbr, 12) == ttbr & 0xffff_f000
  {
  }

  lemma Shift11(ttbr: bv32)
    ensures ShiftedBack(ttbr, 11) == ttbr & 0xffff_f800
  {
  }

  lemma Shift10(ttbr: bv32)
    ensures ShiftedBack(ttbr, 10) == ttbr & 0xffff_fc00
  {
  }

  lemma Shift9(ttbr: bv32)
    ensures ShiftedBack(ttbr, 9) == ttbr & 0xffff_fe00
  {
  }

  lemma Shift8(ttbr: bv32)
    ensures ShiftedBack(ttbr, 8) == ttbr & 0xffff_ff00
  {
  }

  lemma Shift7(ttbr: bv32)
    ensures ShiftedBack(ttbr, 7) == ttbr & 0xffff_ff80
  {
  }

  lemma RegisterBaseShift(ttbr: bv32, n: nat)
    requires n <= 7
    ensures ShiftedBack(ttbr, 14 - n) == RegisterBase(ttbr, n)
  {
    hide ShiftedBack;
    if n == 0 {
      Shift14(ttbr);
    } else if n == 1 {
      Shift13(ttbr);
    } else if n == 2 {
      Shift12(ttbr);
    } else if n == 3 {
      Shift11(ttbr);
    } else if n == 4 {
      Shift10(ttbr);
    } else if n == 5 {
      Shift9(ttbr);
    } else if n == 6 {
      Shift8(ttbr);
    } else {
      Shift7(ttbr);
    }
  }

  lemma L2Next(mem: Memory, base: bv32, virt: nat, k: nat)
    ensures L2UpTo(mem, base, virt, 0) == []
    ensures L2UpTo(mem, base, virt, k + 1) == L2UpTo(mem, base, virt, k) + L2Line(virt, k, mem.word(base, k))
  {
  }

  /** The table of a readable level-1 descriptor, or the message that it cannot be read. */
  lemma L2LinesAre(mem: Memory, desc: bv32, virt: nat)
    ensures mem.readable(TableBase(desc), 4 * 256) ==>
              L2Lines(mem, desc, virt) == [TableLine(TableBase(desc))] + L2UpTo(mem, TableBase(desc), virt, 256)
    ensures !mem.readable(TableBase(desc), 4 * 256) ==>
              L2Lines(mem, desc, virt) == [TableLine(TableBase(desc))] + [ReadError]
  {
  }

  method ArmPtPrintPT(mem: Memory, l1desc: bv32, virt_offset: nat, out: Output<Line>)
    modifies out
    ensures out.lines == old(out.lines) + L2Lines(mem, l1desc, virt_offset)
    ensures |out.lines| > |old(out.lines)| && out.lines[|old(out.lines)|] == TableLine(TableBase(l1desc))
    ensures !mem.readable(TableBase(l1desc), 1024) ==>
              out.lines == old(out.lines) + [TableLine(TableBase(l1desc)), ReadError]
  {
    hide TypeField, SmallField, TableBase, LargeVirt, L2UpTo, L2Lines;
    L2LinesAre(mem, l1desc, virt_offset);
    TableBaseShift(l1desc);
    var phys_base := (l1desc >> 10) << 10;
    out.Print(TableLine(l1desc & !0x3ff));
    ghost var before := out.lines;
    Regroup(old(out.lines), [TableLine(TableBase(l1desc))], [ReadError]);
    Regroup(old(out.lines), [TableLine(TableBase(l1desc))], L2UpTo(mem, phys_base, virt_offset, 256));
    var buffer := PhysRead(mem, phys_base, 256);
    if buffer == null {
      out.Print(ReadError);
      return;
    }
    Regroup(before, [], []);
    L2Next(mem, phys_base, virt_offset, 0);
    for i := 0 to 256
      invariant out.lines == before + L2UpTo(mem, phys_base, virt_offset, i)
      invariant forall k :: 0 <= k < 256 ==> buffer[k] == mem.word(phys_base, k)
    {
      var l2desc := buffer[i];
      L2Next(mem, phys_base, virt_offset, i);
      Regroup(before, L2UpTo(mem, phys_base, virt_offset, i), L2Line(virt_offset, i, l2desc));
      Regroup(out.lines, [], []);
      if TypeField(l2desc) == 0 {
      } else if TypeField(l2desc) == 1 {
        out.Print(LargeLine(LargeVirt(virt_offset, i), LargeField(l2desc)));
      } else {
        out.Print(SmallLine(virt_offset + i * KB4, SmallField(l2desc)));
      }
    }
  }

  lemma L1Next(mem: Memory, base: bv32, k: nat)
    ensures L1UpTo(mem, base, 0) == []
    ensures L1UpTo(mem, base, k + 1) == L1UpTo(mem, base, k) + L1Line(mem, k, mem.word(base, k))
  {
  }

  lemma OffsetLineIs(n2: nat)
    ensures OffsetLine(n2) == if n2 != 0 then [VirtOffset(Shr(0x1_0000_0000, n2))] else []
  {
    hide Shr;
  }

  method ArmPtPrintTT(mem: Memory, entries: nat, n: nat, ttbr: bv32, n2: nat, out: Output<Line>)
    requires n <= 7
    modifies out
    ensures out.lines == old(out.lines) + OffsetLine(n2) + L1Lines(mem, RegisterBase(ttbr, n), entries)
    ensures !mem.readable(RegisterBase(ttbr, n), 4 * entries) ==>
              out.lines == old(out.lines) + OffsetLine(n2) + [ReadError]
  {
    hide TypeField, SectionField, TableBase, SuperField, L2Lines, RegisterBase, L1UpTo, OffsetLine, ShiftedBack;
    RegisterBaseShift(ttbr, n);
    OffsetLineIs(n2);
    var phys_base := ShiftedBack(ttbr, 14 - n);
    Regroup(out.lines, [], []);
    if n2 != 0 {
      out.Print(VirtOffset(Shr(0x1_0000_0000, n2)));
    }
    ghost var before := out.lines;
    var buffer := PhysRead(mem, phys_base, entries);
    if buffer == null {
      out.Print(ReadError);
      return;
    }
    Regroup(before, [], []);
    L1Next(mem, phys_base, 0);
    for i := 0 to entries
      invariant out.lines == before + L1UpTo(mem, phys_base, i)
      invariant forall k :: 0 <= k < entries ==> buffer[k] == mem.word(phys_base, k)
    {
      var level1 := buffer[i];
      L1Next(mem, phys_base, i);
      Regroup(before, L1UpTo(mem, phys_base, i), L1Line(mem, i, level1));
      Regroup(out.lines, [], []);
      if TypeField(level1) == 0 {
        continue;
      }
      if TypeField(level1) == 1 {
        ArmPtPrintPT(mem, level1, i * MB, out);
      } else if SuperField(level1) {
        out.Print(SupersectionLine(i * MB, SuperBaseField(level1)));
      } else {
        out.Print(SectionLine(i * MB, SectionField(level1)));
      }
    }
  }

  /** The dump for the value of TTBCR; the long descriptor format (bit 31) is refused. */
  method ArmPtPrint(mem: Memory, ttbcr: bv32, ttbr0: bv32, ttbr1: bv32, out: Output<Line>)
    modifies out
    ensures out.lines == old(out.lines)
                         + if ttbcr & 0x8000_0000 != 0 then [NotSupported]
                           else DumpLines(mem, Registers(ttbcr, ttbr0, ttbr1))
  {
    hide L1Lines, RegisterBase, OffsetLine;
    if ttbcr & 0x8000_0000 != 0 {
      out.Print(NotSupported);
      return;
    }
    LowBits(ttbcr);
    var n := (ttbcr & 7) as nat;
    ghost var t0 := L1Lines(mem, RegisterBase(ttbr0, n), Entries(n));
    ghost var t1 := L1Lines(mem, RegisterBase(ttbr1, 0), 4096);
    Regroup(out.lines, if ttbr0 != 0 then [Heading(0)] + t0 else [],
            if n != 0 && ttbr1 != 0 then [Heading(1)] + OffsetLine(n) + t1 else []);
    Regroup(out.lines, [Heading(0)], t0);
    if ttbr0 != 0 {
      out.Print(Heading(0));
      OffsetLineIs(0);
      Regroup(out.lines, [], []);
      ArmPtPrintTT(mem, Entries(n), n, ttbr0, 0, out);
    }
    Regroup(out.lines, [Heading(1)], OffsetLine(n));
    Regroup(out.lines, [Heading(1)] + OffsetLine(n), t1);
    Regroup(out.lines, [], []);
    if n != 0 && ttbr1 != 0 {
      out.Print(Heading(1));
      ArmPtPrintTT(mem, 4096, 0, ttbr1, n, out);
    }
  }
}
