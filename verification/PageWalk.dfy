/** The page table dump of code/OSX/uptdump/main.c: what it prints, table by table, and the
    printing code proved against that. */
module PageWalk {
  import opened Dump
  import opened PageTables

  // ----- The bits that are tested -----

  predicate IsPresent(e: bv64) { e & 1 != 0 }

  predicate IsLarge(e: bv64) { e & 0x80 != 0 }

  /** The printed flags of a page that the consumers of the dump read. */
  function FlagsOf(e: bv64): Flags {
    Flags(e & 0x2 != 0, e & 0x4 != 0, e & 0x8000_0000_0000_0000 != 0)
  }

  lemma Bit0(e: bv64)
    ensures EntryBit(e, 0) <==> e & 1 != 0
  {
  }

  lemma Bit1(e: bv64)
    ensures EntryBit(e, 1) <==> e & 0x2 != 0
  {
  }

  lemma Bit2(e: bv64)
    ensures EntryBit(e, 2) <==> e & 0x4 != 0
  {
  }

  lemma Bit7(e: bv64)
    ensures EntryBit(e, 7) <==> e & 0x80 != 0
  {
  }

  lemma Bit63(e: bv64)
    ensures EntryBit(e, 63) <==> e & 0x8000_0000_0000_0000 != 0
  {
  }

  lemma SamePresence(e: bv64)
    ensures IsPresent(e) <==> Present(e)
    ensures IsLarge(e) <==> LargePage(e)
  {
    hide EntryBit;
    Bit0(e);
    Bit7(e);
  }

  lemma SameRights(e: bv64)
    ensures FlagsOf(e) == Rights(e)
  {
    hide EntryBit;
    Bit1(e);
    Bit2(e);
    Bit63(e);
  }

  /** A printed record. Indices are those of the entry in the PML4 table, the page directory pointer
      table, the page directory and the page table. Every record ends its line but Refused, the
      message for the address that is not read: the text of the next record follows on its line. */
  datatype Line =
    | Refused
    | Pml4Header
    | Blank
    | Reference(level: nat, indices: seq<nat>, dest: bv64)
    | Page1G(a: nat, b: nat, flags: Flags, dest: bv64)
    | Page2M(a: nat, b: nat, c: nat, virt: nat, flags: Flags, dest: bv64)
    | Page4K(a: nat, b: nat, c: nat, d: nat, virt: nat, flags: Flags, dest: bv64)

  predicate IsPage(l: Line) {
    l.Page1G? || l.Page2M? || l.Page4K?
  }

  /** The level of the entry that a page line prints. */
  function PageLevel(l: Line): (level: nat)
    requires IsPage(l)
    ensures 1 <= level <= 3
  {
    if l.Page1G? then 3 else if l.Page2M? then 2 else 1
  }

  /** The first virtual address of a printed page; the 1G line shows it by its indices only. */
  function Start(l: Line): nat
    requires IsPage(l)
  {
    if l.Page1G? then l.a * 0x80_0000_0000 + l.b * 0x4000_0000 else l.virt
  }

  function End(l: Line): nat
    requires IsPage(l)
  {
    Start(l) + Span(PageLevel(l))
  }

  predicate Covers(l: Line, va: nat) {
    IsPage(l) && Start(l) <= va < End(l)
  }

  /** The virtual address that a path of table indices leads to. */
  function Virtual(idx: seq<nat>): nat
    requires |idx| <= 4
  {
    if |idx| == 0 then 0 else Virtual(idx[..|idx| - 1]) + idx[|idx| - 1] * Span(5 - |idx|)
  }

  /** The line printed for an entry that maps a page. */
  function PageLine(level: nat, idx: seq<nat>, e: bv64): (l: Line)
    requires 1 <= level <= 3 && |idx| == 5 - level
    ensures IsPage(l) && PageLevel(l) == level && Start(l) == Virtual(idx)
    ensures l.flags == FlagsOf(e) && l.dest == Address(e)
  {
    assert Virtual(idx[..0]) == 0;
    assert idx[..2][..1] == idx[..1];
    assert Virtual(idx[..1]) == idx[0] * 0x80_0000_0000;
    assert Virtual(idx[..2]) == idx[0] * 0x80_0000_0000 + idx[1] * 0x4000_0000;
    if level == 3 then
      assert idx == idx[..2];
      Page1G(idx[0], idx[1], FlagsOf(e), Address(e))
    else
      assert idx[..3][..2] == idx[..2];
      assert Virtual(idx[..3]) == Virtual(idx[..2]) + idx[2] * 0x20_0000;
      if level == 2 then
        assert idx == idx[..3];
        Page2M(idx[0], idx[1], idx[2], Virtual(idx), FlagsOf(e), Address(e))
      else
        Page4K(idx[0], idx[1], idx[2], idx[3], Virtual(idx), FlagsOf(e), Address(e))
  }

  // ----- What is printed -----

  /** The lines for one entry `e`, reached by the indices `idx`. */
  function EntryLines(mem: Memory, level: nat, idx: seq<nat>, e: bv64): seq<Line>
    requires 1 <= level <= 4 && |idx| == 5 - level
    decreases level, 0, 0
  {
    if level == 4 then
      if e == 0 then []
      else [Reference(4, idx, Address(e))] +
           (if IsPresent(e) then TableLines(mem, 3, idx, Address(e)) else [])
    else if !IsPresent(e) then []
    else if level == 1 || IsLarge(e) then [PageLine(level, idx, e)]
    else [Reference(level, idx, Address(e))] + TableLines(mem, level - 1, idx, Address(e))
  }

  /** The lines for the first `k` entries of the table at `addr`. */
  function UpTo(mem: Memory, level: nat, idx: seq<nat>, addr: bv64, k: nat): seq<Line>
    requires 1 <= level <= 4 && |idx| == 4 - level
    decreases level, 1, k
  {
    if k == 0 then [] else
      UpTo(mem, level, idx, addr, k - 1) + EntryLines(mem, level, idx + [k - 1], mem(addr, k - 1))
  }

  /** The lines for a whole table. */
  function TableLines(mem: Memory, level: nat, idx: seq<nat>, addr: bv64): seq<Line>
    requires 1 <= level <= 4 && |idx| == 4 - level
    decreases level, 2, 0
  {
    if addr == INVALID then [Refused]
    else (if level == 4 then [Pml4Header] else [])
         + UpTo(mem, level, idx, addr, 512)
         + (if level == 3 then [Blank] else [])
  }

  /** The whole dump. */
  function WalkLines(mem: Memory, pml4: bv64): seq<Line> {
    TableLines(mem, 4, [], pml4)
  }

  // ----- The printing code -----

  method ReadPhysMem(mem: Memory, address: bv64, out: Output<Line>) returns (buf: array?<bv64>)
    modifies out
    ensures buf == null <==> address == INVALID
    ensures out.lines == old(out.lines) + (if address == INVALID then [Refused] else [])
    ensures buf != null ==> fresh(buf) && buf.Length == 512
    ensures buf != null ==> forall i :: 0 <= i < 512 ==> buf[i] == mem(address, i)
  {
    if address == INVALID {
      out.Print(Refused);
      return null;
    }
    buf := new bv64[512](i requires 0 <= i < 512 => mem(address, i));
  }

  lemma UpToNext(mem: Memory, level: nat, idx: seq<nat>, addr: bv64, k: nat)
    requires 1 <= level <= 4 && |idx| == 4 - level
    ensures UpTo(mem, level, idx, addr, 0) == []
    ensures UpTo(mem, level, idx, addr, k + 1)
         == UpTo(mem, level, idx, addr, k) + EntryLines(mem, level, idx + [k], mem(addr, k))
  {
  }

  lemma Virtuals(a: nat, b: nat, c: nat, d: nat)
    ensures [a] + [b] == [a, b] && [a, b] + [c] == [a, b, c] && [a, b, c] + [d] == [a, b, c, d]
    ensures Virtual([a, b]) == a * 0x80_0000_0000 + b * 0x4000_0000
    ensures Virtual([a, b, c]) == Virtual([a, b]) + c * 0x20_0000
    ensures Virtual([a, b, c, d]) == Virtual([a, b, c]) + d * 0x1000
  {
    assert [a, b, c, d][..3] == [a, b, c] && [a, b, c][..2] == [a, b] && [a, b][..1] == [a] && [a][..0] == [];
    assert Virtual([a]) == a * 0x80_0000_0000;
  }

  lemma PTEntry(mem: Memory, a: nat, b: nat, c: nat, d: nat, e: bv64)
    ensures EntryLines(mem, 1, [a, b, c] + [d], e) ==
            if !IsPresent(e) then []
            else [Page4K(a, b, c, d, a * 0x80_0000_0000 + b * 0x4000_0000 + c * 0x20_0000 + d * 0x1000,
                         FlagsOf(e), Address(e))]
  {
    hide Virtual, Address, IsPresent, FlagsOf;
    Virtuals(a, b, c, d);
  }

  lemma PDEntry(mem: Memory, a: nat, b: nat, c: nat, e: bv64)
    ensures EntryLines(mem, 2, [a, b] + [c], e) ==
            if !IsPresent(e) then []
            else if IsLarge(e) then
              [Page2M(a, b, c, a * 0x80_0000_0000 + b * 0x4000_0000 + c * 0x20_0000, FlagsOf(e), Address(e))]
            else [Reference(2, [a, b, c], Address(e))] + TableLines(mem, 1, [a, b, c], Address(e))
  {
    hide Virtual, Address, IsPresent, FlagsOf, IsLarge, TableLines;
    Virtuals(a, b, c, 0);
  }

  lemma PDPTEntry(mem: Memory, a: nat, b: nat, e: bv64)
    ensures EntryLines(mem, 3, [a] + [b], e) ==
            if !IsPresent(e) then []
            else if IsLarge(e) then [Page1G(a, b, FlagsOf(e), Address(e))]
            else [Reference(3, [a, b], Address(e))] + TableLines(mem, 2, [a, b], Address(e))
  {
    hide Virtual, Address, IsPresent, FlagsOf, IsLarge, TableLines;
    Virtuals(a, b, 0, 0);
  }

  lemma PML4Entry(mem: Memory, a: nat, e: bv64)
    ensures EntryLines(mem, 4, [] + [a], e) ==
            if e == 0 then []
            else [Reference(4, [a], Address(e))]
                 + (if IsPresent(e) then TableLines(mem, 3, [a], Address(e)) else [])
  {
    hide Address, IsPresent, TableLines;
    assert [] + [a] == [a];
  }

  method DumpPT(mem: Memory, a: nat, b: nat, c: nat, pt_addr: bv64, out: Output<Line>)
    modifies out
    ensures out.lines == old(out.lines) + TableLines(mem, 1, [a, b, c], pt_addr)
    ensures pt_addr == INVALID ==> out.lines == old(out.lines) + [Refused]
  {
    hide UpTo, EntryLines, Address, IsPresent;
    var addr := ReadPhysMem(mem, pt_addr, out);
    UpToNext(mem, 1, [a, b, c], pt_addr, 0);
    Regroup(out.lines, [], []);
    if addr == null {
      return;
    }
    for i := 0 to 512
      invariant out.lines == old(out.lines) + UpTo(mem, 1, [a, b, c], pt_addr, i)
      invariant forall k :: 0 <= k < 512 ==> addr[k] == mem(pt_addr, k)
    {
      var entry := addr[i];
      UpToNext(mem, 1, [a, b, c], pt_addr, i);
      Regroup(old(out.lines), UpTo(mem, 1, [a, b, c], pt_addr, i), EntryLines(mem, 1, [a, b, c] + [i], entry));
      PTEntry(mem, a, b, c, i, entry);
      Regroup(out.lines, [], []);
      if !IsPresent(entry) {
        continue;
      }
      var address := Address(entry);
      var virt := a * 0x80_0000_0000 + b * 0x4000_0000 + c * 0x20_0000 + i * 0x1000;
      out.Print(Page4K(a, b, c, i, virt, FlagsOf(entry), address));
    }
  }

  method DumpPD(mem: Memory, a: nat, b: nat, pd_addr: bv64, out: Output<Line>)
    modifies out
    ensures out.lines == old(out.lines) + TableLines(mem, 2, [a, b], pd_addr)
    ensures pd_addr == INVALID ==> out.lines == old(out.lines) + [Refused]
  {
    hide UpTo, EntryLines, Address, IsPresent, IsLarge;
    var addr := ReadPhysMem(mem, pd_addr, out);
    UpToNext(mem, 2, [a, b], pd_addr, 0);
    Regroup(out.lines, [], []);
    if addr == null {
      return;
    }
    for i := 0 to 512
      invariant out.lines == old(out.lines) + UpTo(mem, 2, [a, b], pd_addr, i)
      invariant forall k :: 0 <= k < 512 ==> addr[k] == mem(pd_addr, k)
    {
      var entry := addr[i];
      UpToNext(mem, 2, [a, b], pd_addr, i);
      Regroup(old(out.lines), UpTo(mem, 2, [a, b], pd_addr, i), EntryLines(mem, 2, [a, b] + [i], entry));
      PDEntry(mem, a, b, i, entry);
      Regroup(out.lines, [], []);
      if !IsPresent(entry) {
        continue;
      }
      var address := Address(entry);
      if IsLarge(entry) {
        var virt := a * 0x80_0000_0000 + b * 0x4000_0000 + i * 0x20_0000;
        out.Print(Page2M(a, b, i, virt, FlagsOf(entry), address));
      } else {
        Regroup(out.lines, [Reference(2, [a, b, i], address)], TableLines(mem, 1, [a, b, i], address));
        out.Print(Reference(2, [a, b, i], address));
        DumpPT(mem, a, b, i, address, out);
      }
    }
  }

  method DumpPDPT(mem: Memory, a: nat, pml4e_address: bv64, out: Output<Line>)
    modifies out
    ensures out.lines == old(out.lines) + TableLines(mem, 3, [a], pml4e_address)
    ensures out.lines != [] && out.lines[|out.lines| - 1] == if pml4e_address == INVALID then Refused else Blank
  {
    hide UpTo, EntryLines, Address, IsPresent, IsLarge;
    var addr := ReadPhysMem(mem, pml4e_address, out);
    UpToNext(mem, 3, [a], pml4e_address, 0);
    Regroup(out.lines, [], []);
    if addr == null {
      return;
    }
    for i := 0 to 512
      invariant out.lines == old(out.lines) + UpTo(mem, 3, [a], pml4e_address, i)
      invariant forall k :: 0 <= k < 512 ==> addr[k] == mem(pml4e_address, k)
    {
      var entry := addr[i];
      UpToNext(mem, 3, [a], pml4e_address, i);
      Regroup(old(out.lines), UpTo(mem, 3, [a], pml4e_address, i), EntryLines(mem, 3, [a] + [i], entry));
      PDPTEntry(mem, a, i, entry);
      Regroup(out.lines, [], []);
      if !IsPresent(entry) {
        continue;
      }
      var address := Address(entry);
      if IsLarge(entry) {
        out.Print(Page1G(a, i, FlagsOf(entry), address));
      } else {
        Regroup(out.lines, [Reference(3, [a, i], address)], TableLines(mem, 2, [a, i], address));
        out.Print(Reference(3, [a, i], address));
        DumpPD(mem, a, i, address, out);
      }
    }
    out.Print(Blank);
  }

  method WalkPT(mem: Memory, pml4_addr: bv64, out: Output<Line>)
    modifies out
    ensures out.lines == old(out.lines) + WalkLines(mem, pml4_addr)
    ensures |out.lines| > |old(out.lines)|
    ensures out.lines[|old(out.lines)|] == if pml4_addr == INVALID then Refused else Pml4Header
  {
    hide UpTo, EntryLines, Address, IsPresent;
    var dest := ReadPhysMem(mem, pml4_addr, out);
    UpToNext(mem, 4, [], pml4_addr, 0);
    Regroup(out.lines, [], []);
    if dest == null {
      return;
    }
    out.Print(Pml4Header);
    ghost var header := out.lines;
    for i := 0 to 512
      invariant out.lines == header + UpTo(mem, 4, [], pml4_addr, i)
      invariant forall k :: 0 <= k < 512 ==> dest[k] == mem(pml4_addr, k)
    {
      var entry := dest[i];
      UpToNext(mem, 4, [], pml4_addr, i);
      Regroup(header, UpTo(mem, 4, [], pml4_addr, i), EntryLines(mem, 4, [] + [i], entry));
      PML4Entry(mem, i, entry);
      Regroup(out.lines, [], []);
      assert [] + [i] == [i];
      var address := Address(entry);
      if entry == 0 {
        continue;
      }
      Regroup(out.lines, [Reference(4, [i], address)], TableLines(mem, 3, [i], address));
      out.Print(Reference(4, [i], address));
      if IsPresent(entry) {
        DumpPDPT(mem, i, address, out);
      }
    }
  }
}
