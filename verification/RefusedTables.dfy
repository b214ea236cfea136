/** When vis/scurve/pt.py can parse a dump of code/OSX/uptdump/main.c at all: the message about a
    refused address has no line end, and the parser fails on a page printed behind it. */
module RefusedTables {
  import opened PageTables
  import opened PageWalk
  import opened WalkTranslation
  import opened DumpParser

  predicate EndsRefused(lines: seq<Line>) {
    |lines| > 0 && lines[|lines| - 1].Refused?
  }

  predicate BeginsParsed(lines: seq<Line>) {
    |lines| > 0 && IsParsed(lines[0])
  }

  lemma ShiftedIn(a: seq<Line>, b: seq<Line>, i: nat)
    requires i < |a + b|
    ensures Shifted(a + b, i)
       <==> if i < |a| then Shifted(a, i)
            else if i == |a| then EndsRefused(a) && BeginsParsed(b)
            else Shifted(b, i - |a|)
  {
    hide IsParsed;
  }

  lemma ConcatOk(a: seq<Line>, b: seq<Line>)
    ensures ParseOk(a + b) <==> ParseOk(a) && ParseOk(b) && !(EndsRefused(a) && BeginsParsed(b))
    ensures EndsRefused(a + b) <==> if b == [] then EndsRefused(a) else EndsRefused(b)
    ensures BeginsParsed(a + b) <==> if a == [] then BeginsParsed(b) else BeginsParsed(a)
  {
    hide IsParsed, Shifted, EndsRefused, BeginsParsed;
    ConcatEnds(a, b);
    NoneBefore(a);
    NoneBefore(b);
    forall i: nat | i < |a + b|
      ensures Shifted(a + b, i)
         <==> if i < |a| then Shifted(a, i)
              else if i == |a| then EndsRefused(a) && BeginsParsed(b)
              else Shifted(b, i - |a|)
    {
      ShiftedIn(a, b, i);
    }
    if ParseOk(a + b) {
      forall i | 0 <= i < |b|
        ensures !Shifted(b, i)
      {
        assert i > 0 ==> !Shifted(a + b, |a| + i);
      }
      assert |b| > 0 ==> !Shifted(a + b, |a|);
    }
  }

  lemma NoneBefore(a: seq<Line>)
    ensures |a| > 0 ==> !Shifted(a, 0)
    ensures |a| == 0 ==> !BeginsParsed(a) && !EndsRefused(a)
  {
  }

  lemma ConcatEnds(a: seq<Line>, b: seq<Line>)
    ensures EndsRefused(a + b) <==> if b == [] then EndsRefused(a) else EndsRefused(b)
    ensures BeginsParsed(a + b) <==> if a == [] then BeginsParsed(b) else BeginsParsed(a)
  {
    hide IsParsed;
  }

  lemma OneOk(l: Line)
    ensures ParseOk([l]) && ParseOk([])
    ensures EndsRefused([l]) <==> l.Refused?
    ensures BeginsParsed([l]) <==> IsParsed(l)
  {
  }

  // ----- One page directory -----

  predicate Refers(e: bv64) {
    Present(e) && !LargePage(e)
  }

  /** Among the first `k` entries of a page directory the last one present refers to the refused
      address. */
  predicate Pending(mem: Memory, addr: bv64, k: nat) {
    k > 0 &&
    var e := mem(addr, k - 1);
    if Present(e) then Refers(e) && Address(e) == INVALID else Pending(mem, addr, k - 1)
  }

  /** Among the first `k` entries of a page directory, is one for a 2-MByte page preceded by a
      reference to the refused address, with no present entry between them? */
  predicate Glues(mem: Memory, addr: bv64, k: nat) {
    exists c: nat :: c < k && Present(mem(addr, c)) && LargePage(mem(addr, c)) && Pending(mem, addr, c)
  }

  lemma {:induction false} PtUpTo(mem: Memory, idx: seq<nat>, addr: bv64, k: nat)
    requires |idx| == 3
    ensures forall i :: 0 <= i < |UpTo(mem, 1, idx, addr, k)| ==> !UpTo(mem, 1, idx, addr, k)[i].Refused?
  {
    hide IsPresent, Virtual;
    if k > 0 {
      PtUpTo(mem, idx, addr, k - 1);
    }
  }

  lemma PtOk(mem: Memory, idx: seq<nat>, addr: bv64)
    requires |idx| == 3
    ensures ParseOk(TableLines(mem, 1, idx, addr))
    ensures EndsRefused(TableLines(mem, 1, idx, addr)) <==> addr == INVALID
    ensures addr == INVALID ==> TableLines(mem, 1, idx, addr) == [Refused]
  {
    hide UpTo, IsParsed;
    PtUpTo(mem, idx, addr, 512);
    assert addr != INVALID ==> TableLines(mem, 1, idx, addr) == UpTo(mem, 1, idx, addr, 512);
  }

  lemma PdEntryOk(mem: Memory, idx: seq<nat>, e: bv64)
    requires |idx| == 3
    ensures var lines := EntryLines(mem, 2, idx, e);
            && ParseOk(lines)
            && (lines == [] <==> !Present(e))
            && (BeginsParsed(lines) <==> Present(e) && LargePage(e))
            && (EndsRefused(lines) <==> Refers(e) && Address(e) == INVALID)
  {
    hide TableLines, Present, LargePage, IsPresent, IsLarge, Address, ParseOk, Virtual, EndsRefused, BeginsParsed;
    SamePresence(e);
    var note := Reference(2, idx, Address(e));
    OneOk(note);
    OneOk(PageLine(2, idx, e));
    PtOk(mem, idx, Address(e));
    ConcatOk([note], TableLines(mem, 1, idx, Address(e)));
    EmptyEnds();
  }

  lemma EmptyEnds()
    ensures !EndsRefused([]) && !BeginsParsed([]) && ParseOk([])
  {
  }

  lemma {:induction false} PdUpTo(mem: Memory, idx: seq<nat>, addr: bv64, k: nat)
    requires |idx| == 2
    ensures ParseOk(UpTo(mem, 2, idx, addr, k)) <==> !Glues(mem, addr, k)
    ensures EndsRefused(UpTo(mem, 2, idx, addr, k)) <==> Pending(mem, addr, k)
  {
    hide EntryLines, Present, LargePage, Address, ParseOk, EndsRefused, BeginsParsed;
    EmptyEnds();
    if k > 0 {
      PdUpTo(mem, idx, addr, k - 1);
      PdEntryOk(mem, idx + [k - 1], mem(addr, k - 1));
      ConcatOk(UpTo(mem, 2, idx, addr, k - 1), EntryLines(mem, 2, idx + [k - 1], mem(addr, k - 1)));
    }
  }

  lemma PdOk(mem: Memory, idx: seq<nat>, addr: bv64)
    requires |idx| == 2
    ensures ParseOk(TableLines(mem, 2, idx, addr)) <==> addr == INVALID || !Glues(mem, addr, 512)
  {
    hide UpTo, IsParsed, ParseOk;
    OneOk(Refused);
    PdUpTo(mem, idx, addr, 512);
    assert addr != INVALID ==> TableLines(mem, 2, idx, addr) == UpTo(mem, 2, idx, addr, 512);
  }

  // ----- The tables above -----

  /** Does entry `e` of a page directory pointer table lead to such a page directory? */
  predicate LeadsToGlue(mem: Memory, e: bv64) {
    Refers(e) && Address(e) != INVALID && Glues(mem, Address(e), 512)
  }

  /** Does entry `b` of the table for entry `a` of the PML4 table lead to one? */
  predicate GlueAt(mem: Memory, pml4: bv64, a: nat, b: nat) {
    && pml4 != INVALID
    && Present(mem(pml4, a)) && Address(mem(pml4, a)) != INVALID
    && LeadsToGlue(mem, mem(Address(mem(pml4, a)), b))
  }

  lemma UpperEntry(mem: Memory, level: nat, idx: seq<nat>, e: bv64)
    requires 3 <= level <= 4 && |idx| == 5 - level
    ensures !BeginsParsed(EntryLines(mem, level, idx, e))
    ensures var below := if level == 4 then Present(e) else Refers(e);
            ParseOk(EntryLines(mem, level, idx, e)) <==>
            (below ==> ParseOk(TableLines(mem, level - 1, idx, Address(e))))
  {
    hide TableLines, Present, LargePage, IsPresent, IsLarge, Address, ParseOk, Virtual, EndsRefused, BeginsParsed;
    SamePresence(e);
    var note := Reference(level, idx, Address(e));
    OneOk(note);
    if level == 3 {
      OneOk(PageLine(3, idx, e));
    } else {
      ZeroAbsent();
      assert [note] + [] == [note];
    }
    ConcatOk([note], TableLines(mem, level - 1, idx, Address(e)));
    EmptyEnds();
  }

  lemma {:induction false} UpperUpTo(mem: Memory, level: nat, idx: seq<nat>, addr: bv64, k: nat)
    requires 3 <= level <= 4 && |idx| == 4 - level
    ensures ParseOk(UpTo(mem, level, idx, addr, k))
       <==> forall i: nat :: i < k ==> ParseOk(EntryLines(mem, level, idx + [i], mem(addr, i)))
  {
    hide EntryLines, ParseOk, EndsRefused, BeginsParsed;
    EmptyEnds();
    if k > 0 {
      UpperUpTo(mem, level, idx, addr, k - 1);
      UpperEntry(mem, level, idx + [k - 1], mem(addr, k - 1));
      ConcatOk(UpTo(mem, level, idx, addr, k - 1), EntryLines(mem, level, idx + [k - 1], mem(addr, k - 1)));
    }
  }

  lemma UpperTable(mem: Memory, level: nat, idx: seq<nat>, addr: bv64)
    requires 3 <= level <= 4 && |idx| == 4 - level
    ensures ParseOk(TableLines(mem, level, idx, addr))
       <==> addr == INVALID
            || forall i: nat :: i < 512 ==> ParseOk(EntryLines(mem, level, idx + [i], mem(addr, i)))
  {
    hide UpTo, EntryLines, ParseOk, EndsRefused, BeginsParsed;
    var lines := UpTo(mem, level, idx, addr, 512);
    UpperUpTo(mem, level, idx, addr, 512);
    OneOk(Refused);
    OneOk(Pml4Header);
    OneOk(Blank);
    ConcatOk([Pml4Header], lines);
    ConcatOk(lines, [Blank]);
    assert lines + [] == lines && [] + lines == lines && ([Pml4Header] + lines) + [] == [Pml4Header] + lines;
  }

  lemma PdptOk(mem: Memory, a: nat, addr: bv64)
    ensures ParseOk(TableLines(mem, 3, [a], addr))
       <==> addr == INVALID || forall b: nat :: b < 512 ==> !LeadsToGlue(mem, mem(addr, b))
  {
    hide TableLines, EntryLines, ParseOk, Present, LargePage, Address, Glues;
    UpperTable(mem, 3, [a], addr);
    forall b: nat
      ensures ParseOk(EntryLines(mem, 3, [a] + [b], mem(addr, b))) <==> !LeadsToGlue(mem, mem(addr, b))
    {
      UpperEntry(mem, 3, [a] + [b], mem(addr, b));
      PdOk(mem, [a] + [b], Address(mem(addr, b)));
    }
  }

  lemma Pml4EntryOk(mem: Memory, pml4: bv64, a: nat)
    requires pml4 != INVALID
    ensures ParseOk(EntryLines(mem, 4, [] + [a], mem(pml4, a)))
       <==> forall b: nat :: b < 512 ==> !GlueAt(mem, pml4, a, b)
  {
    hide TableLines, EntryLines, ParseOk, Present, Address, LeadsToGlue;
    var e := mem(pml4, a);
    assert [] + [a] == [a];
    UpperEntry(mem, 4, [a], e);
    PdptOk(mem, a, Address(e));
    if Present(e) && Address(e) != INVALID {
      forall b: nat
        ensures GlueAt(mem, pml4, a, b) <==> LeadsToGlue(mem, mem(Address(e), b))
      {
      }
    }
  }

  /** The parser fails exactly when, in some page directory that the walk reaches, the next present
      entry after a reference to the refused address is that of a 2-MByte page. */
  lemma ParseFailsIff(mem: Memory, pml4: bv64)
    ensures Parse(WalkLines(mem, pml4)).None?
       <==> exists a: nat, b: nat :: a < 512 && b < 512 && GlueAt(mem, pml4, a, b)
  {
    hide TableLines, EntryLines, ParseOk, Present, Address, LeadsToGlue;
    UpperTable(mem, 4, [], pml4);
    forall a: nat | pml4 != INVALID
      ensures ParseOk(EntryLines(mem, 4, [] + [a], mem(pml4, a)))
         <==> forall b: nat :: b < 512 ==> !GlueAt(mem, pml4, a, b)
    {
      Pml4EntryOk(mem, pml4, a);
    }
  }

  /** A page directory at 0x2000 whose entry 0 refers to the refused address and whose entry 1 maps
      a 2-MByte page, reached through entry 0 of the two tables above it. */
  function RefusedMemory(): Memory {
    (addr: bv64, i: nat) =>
      if addr == 0x2000 && i == 1 then 0x20_0083
      else if i != 0 then 0
      else if addr == 0 then 0x1001
      else if addr == 0x1000 then 0x2001
      else if addr == 0x2000 then 0x00ff_ffff_ffff_f001
      else 0
  }

  lemma RefusedGlues()
    ensures GlueAt(RefusedMemory(), 0, 0, 0)
  {
    var mem := RefusedMemory();
    assert Address(0x1001) == 0x1000 && Address(0x2001) == 0x2000 && Address(0x00ff_ffff_ffff_f001) == INVALID;
    assert Pending(mem, 0x2000, 1);
    assert mem(0x2000, 1) == 0x20_0083;
    assert Glues(mem, 0x2000, 512);
  }

  lemma RefusedMapped()
    ensures TablesClear(RefusedMemory(), 0, 0x20_0000)
    ensures Translate(WIDEST, RefusedMemory(), 0, 0x20_0000).Some?
  {
    hide Beyond;
    NothingBeyond();
  }

  /** A reference to the refused address in the dump keeps all of it from being parsed, other
      mapped pages included. */
  lemma RefusedFails()
    ensures var mem := RefusedMemory();
            && TablesClear(mem, 0, 0x20_0000)
            && Translate(WIDEST, mem, 0, 0x20_0000).Some?
            && Parse(WalkLines(mem, 0)).None?
  {
    hide WalkLines, Parse, GlueAt, TablesClear, Translate;
    ParseFailsIff(RefusedMemory(), 0);
    RefusedGlues();
    RefusedMapped();
  }
}
