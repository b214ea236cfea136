/** Page tables of IA-32e (4-level) paging: the address field of their entries as
    code/OSX/uptdump/main.c reads it, and, as the reference, the translation of one address and
    its access rights as sections 4.5 and 4.6 of the Intel 64 and IA-32 Architectures Software
    Developer's Manual, volume 3A, define them, bit by bit. */
module PageTables {
  import opened Dump

  /** Physical memory: entry `i` of the table at a physical address. Nothing forbids a table from
      referring to itself or to one of its ancestors. */
  type Memory = (bv64, nat) -> bv64

  /** The address ReadPhysMem refuses: ((0x00ffffffffffffff) >> 12) << 12. */
  const INVALID: bv64 := 0x00ff_ffff_ffff_f000

  /** The address field as the dumper extracts it: bits 12 to 55. */
  function Address(e: bv64): bv64 {
    ((e & 0x00ff_ffff_ffff_ffff) >> 12) << 12
  }

  /** Access rights: writes allowed, user-mode accesses allowed, instruction fetches forbidden. */
  datatype Flags = Flags(w: bool, u: bool, xd: bool)

  // ----- The layout of virtual addresses -----

  const VIRTUAL_SPACE := 0x1_0000_0000_0000

  /** Bytes mapped by one entry of a table of the given level; level 4 is the PML4 table. */
  function Span(level: nat): (s: nat)
    requires 1 <= level <= 5
    ensures s > 0
    ensures level > 1 ==> s == 512 * Span(level - 1)
  {
    if level == 1 then 0x1000
    else if level == 2 then 0x20_0000
    else if level == 3 then 0x4000_0000
    else if level == 4 then 0x80_0000_0000
    else 0x1_0000_0000_0000
  }

  // ----- The reference: translation of one linear address -----

  /** Bit `k` of an entry. */
  predicate EntryBit(e: bv64, k: nat)
    requires k < 64
  {
    (e >> k) & 1 == 1
  }

  predicate Present(e: bv64) { EntryBit(e, 0) }

  predicate LargePage(e: bv64) { EntryBit(e, 7) }

  /** The rights that one entry gives: R/W is bit 1, U/S bit 2, XD bit 63. */
  function Rights(e: bv64): Flags {
    Flags(EntryBit(e, 1), EntryBit(e, 2), EntryBit(e, 63))
  }

  /** The page a linear address is mapped to: its size as the level of its entry, the frame
      it starts at, and the access rights that the entries of all levels leave. */
  datatype Mapping = Mapping(level: nat, frame: bv64, flags: Flags)

  /** Bits 51:12 of an entry locate the next table or a 4-KByte page. */
  function TableAddress(e: bv64): bv64 {
    e & 0x000f_ffff_ffff_f000
  }

  /** Bits 51:12, 51:21 or 51:30 of an entry locate the page it maps. */
  function Frame(level: nat, e: bv64): bv64 {
    if level == 1 then TableAddress(e) else if level == 2 then Frame2M(e) else Frame1G(e)
  }

  function Frame2M(e: bv64): bv64 { e & 0x000f_ffff_ffe0_0000 }

  function Frame1G(e: bv64): bv64 { e & 0x000f_ffff_c000_0000 }

  /** Bits 47:39 of a linear address. */
  function Pml4Index(va: nat): nat { va / 0x80_0000_0000 % 512 }

  /** Bits 38:30 of a linear address. */
  function PdptIndex(va: nat): nat { va / 0x4000_0000 % 512 }

  /** Bits 29:21 of a linear address. */
  function PdIndex(va: nat): nat { va / 0x20_0000 % 512 }

  /** Bits 20:12 of a linear address. */
  function PtIndex(va: nat): nat { va / 0x1000 % 512 }

  function Pml4e(mem: Memory, pml4: bv64, va: nat): bv64 {
    mem(pml4, Pml4Index(va))
  }

  function Pdpte(mem: Memory, pml4: bv64, va: nat): bv64 {
    mem(TableAddress(Pml4e(mem, pml4, va)), PdptIndex(va))
  }

  function Pde(mem: Memory, pml4: bv64, va: nat): bv64 {
    mem(TableAddress(Pdpte(mem, pml4, va)), PdIndex(va))
  }

  function Pte(mem: Memory, pml4: bv64, va: nat): bv64 {
    mem(TableAddress(Pde(mem, pml4, va)), PtIndex(va))
  }

  /** The entry that bits 0 and 7 of the entries lead to for `va`, with its level, or none;
      reserved bits are not looked at. */
  function PageEntry(mem: Memory, pml4: bv64, va: nat): (r: Option<(nat, bv64)>)
    ensures r.Some? ==> 1 <= r.value.0 <= 3
  {
    if !Present(Pml4e(mem, pml4, va)) then None
    else if !Present(Pdpte(mem, pml4, va)) then None
    else if LargePage(Pdpte(mem, pml4, va)) then Some((3, Pdpte(mem, pml4, va)))
    else if !Present(Pde(mem, pml4, va)) then None
    else if LargePage(Pde(mem, pml4, va)) then Some((2, Pde(mem, pml4, va)))
    else if !Present(Pte(mem, pml4, va)) then None
    else Some((1, Pte(mem, pml4, va)))
  }

  /** Is bit `k` set in every entry from the PML4 entry down to the one of the given level? */
  predicate InAll(mem: Memory, pml4: bv64, va: nat, level: nat, k: nat)
    requires 1 <= level <= 3 && k < 64
  {
    && EntryBit(Pml4e(mem, pml4, va), k)
    && EntryBit(Pdpte(mem, pml4, va), k)
    && (level <= 2 ==> EntryBit(Pde(mem, pml4, va), k))
    && (level <= 1 ==> EntryBit(Pte(mem, pml4, va), k))
  }

  /** Is it set in some of them? */
  predicate InSome(mem: Memory, pml4: bv64, va: nat, level: nat, k: nat)
    requires 1 <= level <= 3 && k < 64
  {
    || EntryBit(Pml4e(mem, pml4, va), k)
    || EntryBit(Pdpte(mem, pml4, va), k)
    || (level <= 2 && EntryBit(Pde(mem, pml4, va), k))
    || (level <= 1 && EntryBit(Pte(mem, pml4, va), k))
  }

  /** The rights that the entries of all levels leave. */
  function PathRights(mem: Memory, pml4: bv64, va: nat, level: nat): Flags
    requires 1 <= level <= 3
  {
    Flags(InAll(mem, pml4, va, level, 1), InAll(mem, pml4, va, level, 2), InSome(mem, pml4, va, level, 63))
  }

  type PhysicalBits = m: nat | 32 <= m <= 52 witness 52

  /** What reserved bits depend on: MAXPHYADDR, IA32_EFER.NXE, and whether there are 1-GByte pages. */
  datatype Processor = Processor(physicalBits: PhysicalBits, nxe: bool, gigaPages: bool)

  /** Bits 51:MAXPHYADDR. */
  function Beyond(cpu: Processor): bv64 {
    0x0010_0000_0000_0000 - ((1 as bv64) << cpu.physicalBits)
  }

  /** Does the present entry of a table of the given level have a reserved bit set? */
  predicate Reserved(cpu: Processor, level: nat, e: bv64) {
    || e & Beyond(cpu) != 0
    || (!cpu.nxe && EntryBit(e, 63))
    || (level >= 4 && LargePage(e))
    || (level == 3 && LargePage(e) && (!cpu.gigaPages || e & 0x3fff_e000 != 0))
    || (level == 2 && LargePage(e) && e & 0x1f_e000 != 0)
  }

  /** Does one of the entries from the PML4 entry down to the one of the given level? */
  predicate ReservedPath(cpu: Processor, mem: Memory, pml4: bv64, va: nat, level: nat)
    requires 1 <= level <= 3
  {
    || Reserved(cpu, 4, Pml4e(mem, pml4, va))
    || Reserved(cpu, 3, Pdpte(mem, pml4, va))
    || (level <= 2 && Reserved(cpu, 2, Pde(mem, pml4, va)))
    || (level <= 1 && Reserved(cpu, 1, Pte(mem, pml4, va)))
  }

  /** Do the entries lead to a page, but over a reserved bit, so that every access faults? */
  predicate ReservedAt(cpu: Processor, mem: Memory, pml4: bv64, va: nat) {
    PageEntry(mem, pml4, va).Some? && ReservedPath(cpu, mem, pml4, va, PageEntry(mem, pml4, va).value.0)
  }

  function Translate(cpu: Processor, mem: Memory, pml4: bv64, va: nat): (r: Option<Mapping>)
    ensures r.Some? ==> 1 <= r.value.level <= 3
  {
    match PageEntry(mem, pml4, va)
    case None => None
    case Some((level, e)) =>
      if ReservedPath(cpu, mem, pml4, va, level) then None
      else Some(Mapping(level, Frame(level, e), PathRights(mem, pml4, va, level)))
  }

  // ----- Where the entry of a page agrees with the reference -----

  /** Does the page entry for `va` grant only what the entries of all levels grant? */
  predicate RightsKeptAt(mem: Memory, pml4: bv64, va: nat)
    requires PageEntry(mem, pml4, va).Some?
  {
    var (level, e) := PageEntry(mem, pml4, va).value;
    && (EntryBit(e, 1) ==> InAll(mem, pml4, va, level, 1))
    && (EntryBit(e, 2) ==> InAll(mem, pml4, va, level, 2))
    && (InSome(mem, pml4, va, level, 63) ==> EntryBit(e, 63))
  }

  lemma RightsKeptIff(mem: Memory, pml4: bv64, va: nat)
    requires PageEntry(mem, pml4, va).Some?
    ensures var (level, e) := PageEntry(mem, pml4, va).value;
            Rights(e) == PathRights(mem, pml4, va, level) <==> RightsKeptAt(mem, pml4, va)
  {
    hide EntryBit, Pml4e, Pdpte, Pde, Pte;
  }

  /** Bits 52 to 55, which the dumper takes for address bits. */
  predicate HighClear(e: bv64) { e & 0x00f0_0000_0000_0000 == 0 }

  /** Bits 52 to 55 and, for large pages, the low bits the dumper also prints. */
  predicate PageClear(level: nat, e: bv64) {
    if level == 1 then HighClear(e) else if level == 2 then Clear2M(e) else Clear1G(e)
  }

  predicate Clear2M(e: bv64) { e & 0x00f0_0000_001f_f000 == 0 }

  predicate Clear1G(e: bv64) { e & 0x00f0_0000_3fff_f000 == 0 }

  /** Bit 12 of the entry of a large page, which selects a memory type. */
  predicate Pat(e: bv64) { e & 0x1000 != 0 }

  /** In the entry of a large page without reserved bits, the PAT bit is the only low bit of the field. */
  lemma LegalPageClear(cpu: Processor, level: nat, e: bv64)
    requires 1 <= level <= 3 && (level > 1 ==> LargePage(e)) && !Reserved(cpu, level, e)
    ensures PageClear(level, e) <==> HighClear(e) && (level > 1 ==> !Pat(e))
  {
    hide Beyond;
  }

  lemma AddressMask(e: bv64)
    ensures Address(e) == e & 0x00ff_ffff_ffff_f000
  {
  }

  lemma NotRefused(address: bv64)
    requires HighClear(address)
    ensures address != INVALID
  {
  }

  /** The dumper follows an entry to the table it refers to exactly when bits 52 to 55 are clear. */
  lemma TableAddressIff(e: bv64)
    ensures Address(e) == TableAddress(e) <==> HighClear(e)
    ensures HighClear(e) ==> Address(e) != INVALID
  {
    AddressMask(e);
  }

  lemma Frame2MIff(e: bv64)
    ensures Address(e) == Frame2M(e) <==> Clear2M(e)
  {
    AddressMask(e);
  }

  lemma Frame1GIff(e: bv64)
    ensures Address(e) == Frame1G(e) <==> Clear1G(e)
  {
    AddressMask(e);
  }

  /** The destination printed for a page is its frame exactly when the other bits of the
      field are clear. */
  lemma FrameIff(level: nat, e: bv64)
    requires 1 <= level <= 3
    ensures Address(e) == Frame(level, e) <==> PageClear(level, e)
  {
    hide Address, TableAddress, Frame2M, Frame1G, HighClear, Clear2M, Clear1G;
    TableAddressIff(e);
    Frame2MIff(e);
    Frame1GIff(e);
  }
}
