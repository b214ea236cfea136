/** The lines that code/OSX/uptdump/main.c prints for entries that refer to a table: each once, for
    which entries, and with which destination. */
module References {
  import opened Dump
  import opened PageTables
  import opened PageWalk

  // ----- The line for one path of table indices -----

  function OfPath(path: seq<nat>): Line -> bool {
    (l: Line) => l.Reference? && l.indices == path
  }

  /** The reference lines for a path of indices. */
  function ReferencesOf(lines: seq<Line>, path: seq<nat>): seq<Line> {
    Select(lines, OfPath(path))
  }

  /** Is an entry of a table of the given level printed as a reference? A PML4 entry is unless it is 0,
      be it present or not. */
  predicate Shown(level: nat, e: bv64) {
    if level == 4 then e != 0 else level > 1 && Present(e) && !LargePage(e)
  }

  /** Is the table that an entry of the given level refers to walked? */
  predicate Followed(level: nat, e: bv64) {
    level > 1 && Present(e) && (level == 4 || !LargePage(e))
  }

  /** The reference line for a path that begins with `idx`, the indices of entry `e`. */
  function EntryReference(mem: Memory, level: nat, idx: seq<nat>, e: bv64, path: seq<nat>): seq<Line>
    requires 1 <= level <= 4 && |idx| == 5 - level
    decreases level, 0
  {
    if path == idx then (if Shown(level, e) then [Reference(level, idx, Address(e))] else [])
    else if Followed(level, e) then TableReference(mem, level - 1, idx, Address(e), path)
    else []
  }

  /** The reference line for a path that begins with `idx`, the indices of the table at `addr`. */
  function TableReference(mem: Memory, level: nat, idx: seq<nat>, addr: bv64, path: seq<nat>): seq<Line>
    requires 1 <= level <= 4 && |idx| == 4 - level
    decreases level, 1
  {
    if addr == INVALID || |path| <= |idx| || path[|idx|] >= 512 then []
    else EntryReference(mem, level, idx + [path[|idx|]], mem(addr, path[|idx|]), path)
  }

  predicate Begins(path: seq<nat>, idx: seq<nat>) {
    |idx| <= |path| && path[..|idx|] == idx
  }

  lemma BeginsWith(path: seq<nat>, idx: seq<nat>, k: nat)
    ensures Begins(path, idx + [k]) <==> Begins(path, idx) && |path| > |idx| && path[|idx|] == k
    ensures Begins(path, idx) && |path| == |idx| ==> path == idx
  {
    if Begins(path, idx + [k]) {
      assert path[..|idx|] == path[..|idx| + 1][..|idx|] == idx;
      assert path[|idx|] == path[..|idx| + 1][|idx|];
    }
    if Begins(path, idx) && |path| > |idx| && path[|idx|] == k {
      assert path[..|idx| + 1] == path[..|idx|] + [path[|idx|]];
    }
  }

  lemma NoteReference(l: Line, path: seq<nat>)
    ensures ReferencesOf([l], path) == if l.Reference? && l.indices == path then [l] else []
    ensures ReferencesOf([], path) == []
  {
    hide Select;
    SelectOne(l, OfPath(path));
  }

  lemma {:induction false} EntryReferences(mem: Memory, level: nat, idx: seq<nat>, e: bv64, path: seq<nat>)
    requires 1 <= level <= 4 && |idx| == 5 - level
    ensures ReferencesOf(EntryLines(mem, level, idx, e), path)
         == if Begins(path, idx) then EntryReference(mem, level, idx, e, path) else []
    decreases level, 0, 0
  {
    hide Present, LargePage, IsPresent, IsLarge, Address, TableLines, TableReference, ReferencesOf, Virtual;
    SamePresence(e);
    var note := Reference(level, idx, Address(e));
    NoteReference(note, path);
    if level > 1 && IsPresent(e) && (level == 4 || !IsLarge(e)) {
      PresentNotZero(e);
      TableReferences(mem, level - 1, idx, Address(e), path);
      ConcatReferences([note], TableLines(mem, level - 1, idx, Address(e)), path);
      TableOnly(mem, level - 1, idx, Address(e), path);
    } else if IsPresent(e) && level < 4 {
      NoteReference(PageLine(level, idx, e), path);
    } else {
      assert [note] + [] == [note];
    }
  }

  lemma PresentNotZero(e: bv64)
    requires IsPresent(e)
    ensures e != 0
  {
  }

  lemma ConcatReferences(a: seq<Line>, b: seq<Line>, path: seq<nat>)
    ensures ReferencesOf(a + b, path) == ReferencesOf(a, path) + ReferencesOf(b, path)
  {
    SelectConcat(a, b, OfPath(path));
  }

  /** The path of an entry is not that of an entry of the table below. */
  lemma TableOnly(mem: Memory, level: nat, idx: seq<nat>, addr: bv64, path: seq<nat>)
    requires 1 <= level <= 4 && |idx| == 4 - level
    ensures path == idx ==> TableReference(mem, level, idx, addr, path) == []
  {
  }

  lemma {:induction false} UpToReferences(mem: Memory, level: nat, idx: seq<nat>, addr: bv64, k: nat, path: seq<nat>)
    requires 1 <= level <= 4 && |idx| == 4 - level
    ensures ReferencesOf(UpTo(mem, level, idx, addr, k), path)
         == if Begins(path, idx) && |path| > |idx| && path[|idx|] < k
            then EntryReference(mem, level, idx + [path[|idx|]], mem(addr, path[|idx|]), path) else []
    decreases level, 1, k
  {
    hide EntryLines, EntryReference, ReferencesOf, Begins;
    NoteReference(Blank, path);
    if k > 0 {
      UpToReferences(mem, level, idx, addr, k - 1, path);
      EntryReferences(mem, level, idx + [k - 1], mem(addr, k - 1), path);
      ConcatReferences(UpTo(mem, level, idx, addr, k - 1),
                       EntryLines(mem, level, idx + [k - 1], mem(addr, k - 1)), path);
      BeginsWith(path, idx, k - 1);
    }
  }

  lemma {:induction false} TableReferences(mem: Memory, level: nat, idx: seq<nat>, addr: bv64, path: seq<nat>)
    requires 1 <= level <= 4 && |idx| == 4 - level
    ensures ReferencesOf(TableLines(mem, level, idx, addr), path)
         == if Begins(path, idx) then TableReference(mem, level, idx, addr, path) else []
    decreases level, 2, 0
  {
    hide UpTo, EntryReference, ReferencesOf, Begins;
    NoteReference(Refused, path);
    NoteReference(Pml4Header, path);
    NoteReference(Blank, path);
    var lines := UpTo(mem, level, idx, addr, 512);
    UpToReferences(mem, level, idx, addr, 512, path);
    ConcatReferences([Pml4Header], lines, path);
    ConcatReferences(lines, [Blank], path);
    assert lines + [] == lines && [] + lines == lines && ([Pml4Header] + lines) + [] == [Pml4Header] + lines;
  }

  // ----- The three levels -----

  /** The table that entry `a` of the table at `addr` refers to, if it is walked and can be read. */
  function Below(mem: Memory, level: nat, addr: bv64, a: nat): Option<bv64> {
    if addr != INVALID && a < 512 && Followed(level, mem(addr, a)) then Some(Address(mem(addr, a))) else None
  }

  /** The line for entry `k`, with indices `path`, of the table at `addr`. */
  function EntryShown(mem: Memory, level: nat, path: seq<nat>, addr: bv64, k: nat): seq<Line> {
    if addr != INVALID && k < 512 && Present(mem(addr, k)) && !LargePage(mem(addr, k))
    then [Reference(level, path, Address(mem(addr, k)))] else []
  }

  lemma LastStep(mem: Memory, level: nat, idx: seq<nat>, addr: bv64, k: nat)
    requires 2 <= level <= 4 && |idx| == 4 - level
    ensures TableReference(mem, level, idx, addr, idx + [k])
         == if addr != INVALID && k < 512 && Shown(level, mem(addr, k))
            then [Reference(level, idx + [k], Address(mem(addr, k)))] else []
  {
    hide Address, Present, LargePage;
  }

  lemma InnerStep(mem: Memory, level: nat, idx: seq<nat>, addr: bv64, k: nat, path: seq<nat>)
    requires 2 <= level <= 4 && |idx| == 4 - level
    requires |path| > |idx| + 1 && path[|idx|] == k
    ensures TableReference(mem, level, idx, addr, path)
         == match Below(mem, level, addr, k)
            case None => []
            case Some(t) => TableReference(mem, level - 1, idx + [k], t, path)
  {
    hide Address, Present, LargePage;
  }

  /** The dump has one reference line for each entry of the PML4 table that is not 0, present or not. */
  lemma TopReferences(mem: Memory, pml4: bv64, a: nat)
    ensures ReferencesOf(WalkLines(mem, pml4), [a])
         == if pml4 != INVALID && a < 512 && mem(pml4, a) != 0 then [Reference(4, [a], Address(mem(pml4, a)))] else []
  {
    hide ReferencesOf, Address, TableLines, TableReference;
    TableReferences(mem, 4, [], pml4, [a]);
    LastStep(mem, 4, [], pml4, a);
    assert [] + [a] == [a];
  }

  /** It has one for each present entry, that is no page, of each page directory pointer table that the
      walk reaches. */
  lemma MiddleReferences(mem: Memory, pml4: bv64, a: nat, b: nat)
    ensures ReferencesOf(WalkLines(mem, pml4), [a, b])
         == match Below(mem, 4, pml4, a)
            case None => []
            case Some(t) => EntryShown(mem, 3, [a, b], t, b)
  {
    hide ReferencesOf, Address, TableLines, TableReference, Below, Present, LargePage;
    TableReferences(mem, 4, [], pml4, [a, b]);
    InnerStep(mem, 4, [], pml4, a, [a, b]);
    assert [] + [a] == [a] && [a] + [b] == [a, b];
    if Below(mem, 4, pml4, a).Some? {
      LastStep(mem, 3, [a], Below(mem, 4, pml4, a).value, b);
    }
  }

  /** And one for each present entry, that is no page, of each page directory that it reaches. */
  lemma LowerReferences(mem: Memory, pml4: bv64, a: nat, b: nat, c: nat)
    ensures ReferencesOf(WalkLines(mem, pml4), [a, b, c])
         == match Below(mem, 4, pml4, a)
            case None => []
            case Some(t) =>
              match Below(mem, 3, t, b)
              case None => []
              case Some(u) => EntryShown(mem, 2, [a, b, c], u, c)
  {
    hide ReferencesOf, Address, TableLines, TableReference, Below, Present, LargePage;
    TableReferences(mem, 4, [], pml4, [a, b, c]);
    InnerStep(mem, 4, [], pml4, a, [a, b, c]);
    assert [] + [a] == [a] && [a] + [b] == [a, b] && [a, b] + [c] == [a, b, c];
    if Below(mem, 4, pml4, a).Some? {
      var t := Below(mem, 4, pml4, a).value;
      InnerStep(mem, 3, [a], t, b, [a, b, c]);
      if Below(mem, 3, t, b).Some? {
        LastStep(mem, 2, [a, b], Below(mem, 3, t, b).value, c);
      }
    }
  }
}
