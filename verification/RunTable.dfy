/** code/winrt/parseruns.py and code/winrt/dumper.c: the table that says where in a crash dump the
    runs of physical memory are stored, and the lookup that inverts it. */
module RunTable {
  import opened Dump

  // ----- Generating the table -----

  type Digit = d: nat | d < 10

  /** A number in the debugger's output, which counts 4K pages: `0x` and hexadecimal digits, or,
      below ten, a digit alone. The script appends the text `000` to it. */
  datatype Number = Hex(n: nat) | Bare(d: Digit)

  /** A line of debugger output. */
  datatype Line = BasePage(n: Number) | PageCount(n: Number) | Other

  /** What the text stands for: int(text, 16). */
  function Meant(x: Number): nat {
    match x
    case Hex(n) => n * 0x1000
    case Bare(d) => d * 0x1000
  }

  /** What the text is as a literal of C, where it is decimal without the prefix. */
  function Read(x: Number): nat {
    match x
    case Hex(n) => n * 0x1000
    case Bare(d) => d * 1000
  }

  /** A row that the script prints: two texts, and the offset that it counts up itself. */
  datatype Row = Row(base: Number, offset: nat, size: Number)

  /** The file offset of the first run. */
  const HEADER := 0x21000

  datatype State = State(base: Number, next: nat, rows: seq<Row>)

  function Step(s: State, l: Line): State {
    match l
    case BasePage(n) => s.(base := n)
    case PageCount(n) => State(s.base, s.next + Meant(n), s.rows + [Row(s.base, s.next, n)])
    case Other => s
  }

  function Scan(data: seq<Line>): State {
    if |data| == 0 then State(Bare(0), HEADER, []) else Step(Scan(data[..|data| - 1]), data[|data| - 1])
  }

  // ----- The rows by the lines they come from -----

  /** The number of PageCount lines. */
  function Counts(data: seq<Line>): nat {
    if |data| == 0 then 0 else Counts(data[..|data| - 1]) + (if data[|data| - 1].PageCount? then 1 else 0)
  }

  /** The bytes that the PageCount lines stand for. */
  function Bytes(data: seq<Line>): nat {
    if |data| == 0 then 0 else
      Bytes(data[..|data| - 1]) + (if data[|data| - 1].PageCount? then Meant(data[|data| - 1].n) else 0)
  }

  /** Is `n` the number of the last BasePage line, or 0 if there is none? */
  ghost predicate LastBase(before: seq<Line>, n: Number) {
    || (exists b: nat :: b < |before| && before[b] == BasePage(n)
          && forall c: nat :: b < c < |before| ==> !before[c].BasePage?)
    || (n == Bare(0) && forall c: nat :: c < |before| ==> !before[c].BasePage?)
  }

  /** There is one row for each PageCount line, in order; it has that line's number as its size, the
      number of the nearest BasePage line before it as its base, and begins in the file after the
      header and all earlier runs. */
  ghost predicate RowsFollow(data: seq<Line>, rows: seq<Row>) {
    && |rows| == Counts(data)
    && forall i: nat :: i < |data| && data[i].PageCount? ==>
         && Counts(data[..i]) < |rows|
         && rows[Counts(data[..i])].size == data[i].n
         && LastBase(data[..i], rows[Counts(data[..i])].base)
         && rows[Counts(data[..i])].offset == 0x21000 + Bytes(data[..i])
  }

  lemma BaseNext(before: seq<Line>, l: Line, n: Number)
    requires LastBase(before, n)
    ensures LastBase(before + [l], if l.BasePage? then l.n else n)
  {
    var after := before + [l];
    if l.BasePage? {
      assert after[|before|] == BasePage(l.n);
    } else if b: nat :| b < |before| && before[b] == BasePage(n)
                        && forall c: nat :: b < c < |before| ==> !before[c].BasePage? {
      assert after[b] == BasePage(n);
    }
  }

  lemma {:induction false} ScanRows(data: seq<Line>)
    ensures RowsFollow(data, Scan(data).rows)
    ensures LastBase(data, Scan(data).base)
    ensures Scan(data).next == 0x21000 + Bytes(data)
  {
    hide LastBase, Meant;
    if |data| > 0 {
      var n := |data| - 1;
      var init, s, t := data[..n], Scan(data[..n]), Scan(data);
      ScanRows(init);
      BaseNext(init, data[n], s.base);
      assert init + [data[n]] == data && data[..n] == init;
      forall i: nat | i < |data| && data[i].PageCount?
        ensures Counts(data[..i]) < |t.rows|
        ensures t.rows[Counts(data[..i])].size == data[i].n
        ensures LastBase(data[..i], t.rows[Counts(data[..i])].base)
        ensures t.rows[Counts(data[..i])].offset == 0x21000 + Bytes(data[..i])
      {
        if i < n {
          assert init[..i] == data[..i];
        }
      }
    } else {
      NoLines();
    }
  }

  lemma NoLines()
    ensures LastBase([], Bare(0))
  {
  }

  method ParseRuns(data: seq<Line>) returns (rows: seq<Row>)
    ensures rows == Scan(data).rows
    ensures RowsFollow(data, rows)
  {
    ScanRows(data);
    var curFileOffset: nat, base: Number := HEADER, Bare(0);
    rows := [];
    for i := 0 to |data|
      invariant State(base, curFileOffset, rows) == Scan(data[..i])
    {
      assert data[..i + 1][..i] == data[..i];
      var line := data[i];
      if line.BasePage? {
        base := line.n;
      } else if line.PageCount? {
        var size := line.n;
        rows := rows + [Row(base, curFileOffset, size)];
        curFileOffset := curFileOffset + Meant(size);
      }
    }
    assert data[..|data|] == data;
  }

  /** A row of the table of dumper.c. */
  datatype Run = Run(base: nat, offset: nat, size: nat)

  /** The runs that the debugger reported, and where they are stored. */
  function Reported(rows: seq<Row>): (t: seq<Run>)
    ensures |t| == |rows|
  {
    seq(|rows|, k requires 0 <= k < |rows| => Run(Meant(rows[k].base), rows[k].offset, Meant(rows[k].size)))
  }

  /** The table that the compiler makes of the printed rows. */
  function Compiled(rows: seq<Row>): (t: seq<Run>)
    ensures |t| == |rows|
  {
    seq(|rows|, k requires 0 <= k < |rows| => Run(Read(rows[k].base), rows[k].offset, Read(rows[k].size)))
  }

  function Total(table: seq<Run>): nat {
    if |table| == 0 then 0 else Total(table[..|table| - 1]) + table[|table| - 1].size
  }

  /** Each run is stored after the header and all earlier runs, without gaps. */
  ghost predicate Contiguous(table: seq<Run>) {
    forall k :: 0 <= k < |table| ==> table[k].offset == HEADER + Total(table[..k])
  }

  lemma TotalNext(rows: seq<Row>, row: Row)
    ensures Reported(rows + [row])[..|rows|] == Reported(rows)
    ensures Total(Reported(rows + [row])) == Total(Reported(rows)) + Meant(row.size)
    ensures forall k :: 0 <= k < |rows| ==> Reported(rows + [row])[..k] == Reported(rows)[..k]
  {
  }

  lemma {:induction false} ScanContiguous(data: seq<Line>)
    ensures Contiguous(Reported(Scan(data).rows))
    ensures Scan(data).next == HEADER + Total(Reported(Scan(data).rows))
  {
    hide Reported;
    if |data| > 0 {
      var s, l := Scan(data[..|data| - 1]), data[|data| - 1];
      ScanContiguous(data[..|data| - 1]);
      if l.PageCount? {
        ContiguousNext(s.rows, Row(s.base, s.next, l.n));
      }
    } else {
      ReportedEmpty();
    }
  }

  lemma ReportedEmpty()
    ensures Reported([]) == [] && Total([]) == 0
  {
  }

  lemma ContiguousNext(rows: seq<Row>, row: Row)
    requires Contiguous(Reported(rows)) && row.offset == HEADER + Total(Reported(rows))
    ensures Contiguous(Reported(rows + [row]))
    ensures Total(Reported(rows + [row])) == Total(Reported(rows)) + Meant(row.size)
  {
    hide Total, Meant;
    TotalNext(rows, row);
    forall k | 0 <= k < |rows + [row]|
      ensures Reported(rows + [row])[k].offset == HEADER + Total(Reported(rows + [row])[..k])
    {
      if k < |rows| {
        assert Reported(rows + [row])[k] == Reported(rows)[k];
      }
    }
  }

  // ----- Looking an address up -----

  const WORD := 0x1_0000_0000

  /** The test of one row, on unsigned 32-bit values. */
  predicate Matches(r: Run, addr: nat) {
    r.base <= addr <= (r.base + r.size) % WORD
  }

  /** The first row that matches, unless a row with base 0 comes first. */
  function FirstMatch(table: seq<Run>, addr: nat): Option<Run> {
    if |table| == 0 || table[0].base == 0 then None
    else if Matches(table[0], addr) then Some(table[0])
    else FirstMatch(table[1..], addr)
  }

  /** The file offset physread seeks to, or none if the address is in no run. */
  function Lookup(table: seq<Run>, addr: nat): Option<int> {
    match FirstMatch(table, addr)
    case None => None
    case Some(r) => Some((addr - r.base + r.offset) % WORD)
  }

  method PhysRead(table: seq<Run>, physStart: nat) returns (offset: Option<int>)
    ensures offset == Lookup(table, physStart)
  {
    var i := 0;
    while true
      invariant 0 <= i <= |table|
      invariant FirstMatch(table, physStart) == FirstMatch(table[i..], physStart)
      decreases |table| - i
    {
      if i == |table| || table[i].base == 0 {
        return None;
      }
      if physStart >= table[i].base && physStart <= (table[i].base + table[i].size) % WORD {
        break;
      }
      assert table[i..][1..] == table[i + 1..];
      i := i + 1;
    }
    return Some((physStart - table[i].base + table[i].offset) % WORD);
  }

  // ----- The lookup inverts the layout -----

  /** Runs in the order of their addresses, not overlapping, not empty, within 32 bits. */
  ghost predicate Sorted(table: seq<Run>) {
    && (forall k :: 0 <= k < |table| ==>
          0 < table[k].size && table[k].base + table[k].size <= WORD)
    && (forall j, k :: 0 <= j < k < |table| ==> table[j].base + table[j].size <= table[k].base)
  }

  predicate Inside(r: Run, addr: nat) {
    r.base <= addr < r.base + r.size
  }

  lemma {:induction false} TotalPrefix(table: seq<Run>, k: nat)
    requires k < |table|
    ensures Total(table[..k]) + table[k].size == Total(table[..k + 1]) <= Total(table)
  {
    assert table[..k + 1][..k] == table[..k];
    if k + 1 < |table| {
      TotalPrefix(table[..|table| - 1], k);
      assert table[..|table| - 1][..k + 1] == table[..k + 1];
      assert table[..|table| - 1][..k] == table[..k];
    } else {
      assert table[..k + 1] == table;
    }
  }

  /** The only row before row `k` that can match an address inside it is the one that ends there. */
  lemma EarlierMatch(table: seq<Run>, j: nat, k: nat, addr: nat)
    requires Sorted(table) && j < k < |table| && Inside(table[k], addr) && Matches(table[j], addr)
    ensures addr == table[k].base == table[j].base + table[j].size && j + 1 == k
  {
    assert table[j].base + table[j].size <= table[j + 1].base;
  }

  lemma LaterNoMatch(table: seq<Run>, j: nat, k: nat, addr: nat)
    requires Sorted(table) && k < j < |table| && Inside(table[k], addr)
    ensures !Matches(table[j], addr)
  {
  }

  /** A row with base 0 in front hides all others. */
  lemma ZeroFirst(table: seq<Run>, addr: nat)
    requires |table| > 0 && table[0].base == 0
    ensures Lookup(table, addr) == None
  {
  }

  lemma NoZero(table: seq<Run>)
    requires Sorted(table) && (|table| > 0 ==> table[0].base != 0)
    ensures forall j :: 0 <= j < |table| ==> table[j].base != 0
  {
  }

  lemma {:induction false} FirstMatchIs(table: seq<Run>, m: nat, addr: nat)
    requires m <= |table|
    requires forall j :: 0 <= j < |table| ==> table[j].base != 0
    requires forall j :: 0 <= j < m ==> !Matches(table[j], addr)
    ensures m == |table| ==> FirstMatch(table, addr) == None
    ensures m < |table| && Matches(table[m], addr) ==> FirstMatch(table, addr) == Some(table[m])
  {
    if m > 0 {
      FirstMatchIs(table[1..], m - 1, addr);
    }
  }

  lemma {:induction false} FirstMatchRow(table: seq<Run>, addr: nat) returns (m: nat)
    requires FirstMatch(table, addr).Some?
    ensures m < |table| && FirstMatch(table, addr) == Some(table[m]) && Matches(table[m], addr)
  {
    if Matches(table[0], addr) {
      m := 0;
    } else {
      m := FirstMatchRow(table[1..], addr);
      m := m + 1;
    }
  }

  /** Where an address inside a run is stored: header, earlier runs, offset in the run. */
  function StoredAt(table: seq<Run>, k: nat, addr: nat): int
    requires k < |table|
  {
    HEADER + Total(table[..k]) + (addr - table[k].base)
  }

  /** The first address of a run that the preceding run touches. */
  predicate Touching(table: seq<Run>, k: nat, addr: nat)
    requires k < |table|
  {
    k > 0 && table[k - 1].base + table[k - 1].size == addr
  }

  /** The inclusive upper bound does no harm: if the preceding run matches the first address of
      a run, it leads to the same place in the file. */
  lemma TouchingSamePlace(table: seq<Run>, k: nat, addr: nat)
    requires Sorted(table) && Contiguous(table) && k < |table| && Inside(table[k], addr)
    requires Touching(table, k, addr)
    ensures Matches(table[k - 1], addr)
    ensures addr - table[k - 1].base + table[k - 1].offset == StoredAt(table, k, addr)
  {
    TotalPrefix(table, k - 1);
  }

  /** The run of an address matches it exactly when its end is below 2^32; no other run does,
      except a preceding run that touches the address. */
  lemma WhichMatch(table: seq<Run>, k: nat, addr: nat)
    requires Sorted(table) && k < |table| && Inside(table[k], addr) && table[k].base > 0
    ensures Matches(table[k], addr) <==> table[k].base + table[k].size < WORD
    ensures forall j :: 0 <= j < |table| && j != k && !(j + 1 == k && Touching(table, k, addr)) ==>
              !Matches(table[j], addr)
  {
    forall j | 0 <= j < |table| && j != k && !(j + 1 == k && Touching(table, k, addr))
      ensures !Matches(table[j], addr)
    {
      if j > k {
        LaterNoMatch(table, j, k, addr);
      } else if Matches(table[j], addr) {
        EarlierMatch(table, j, k, addr);
      }
    }
  }

  lemma OwnPlace(table: seq<Run>, k: nat, addr: nat)
    requires Contiguous(table) && k < |table|
    ensures addr - table[k].base + table[k].offset == StoredAt(table, k, addr)
  {
  }

  lemma LookupOfMatch(table: seq<Run>, r: Run, addr: nat)
    requires FirstMatch(table, addr) == Some(r)
    ensures Lookup(table, addr) == Some((addr - r.base + r.offset) % WORD)
  {
  }

  /** The lookup finds an address inside a run, at the place where it is stored, exactly when no row
      with base 0 is in front and either the end of the run is below 2^32 or the address is the
      first one and the preceding run touches it; otherwise it finds nothing. The place is right
      exactly when it is below 2^32. */
  lemma LookupInRun(table: seq<Run>, k: nat, addr: nat)
    requires Sorted(table) && Contiguous(table) && k < |table| && Inside(table[k], addr)
    ensures Lookup(table, addr)
         == if table[0].base != 0 && (table[k].base + table[k].size < WORD || Touching(table, k, addr))
            then Some(StoredAt(table, k, addr) % WORD) else None
  {
    hide Matches, Inside, Sorted, Contiguous, FirstMatch, StoredAt;
    if table[0].base == 0 {
      ZeroFirst(table, addr);
      return;
    }
    NoZero(table);
    OwnPlace(table, k, addr);
    WhichMatch(table, k, addr);
    if Touching(table, k, addr) {
      TouchingSamePlace(table, k, addr);
      FirstMatchIs(table, k - 1, addr);
      LookupOfMatch(table, table[k - 1], addr);
    } else if table[k].base + table[k].size < WORD {
      FirstMatchIs(table, k, addr);
      LookupOfMatch(table, table[k], addr);
    } else {
      FirstMatchIs(table, |table|, addr);
    }
  }

  /** A place from 2^32 on wraps. */
  lemma LargeFileWraps()
    ensures StoredAt([Run(0x1000, HEADER, 0xffff_0000)], 0, 0xffff_0000) == 0x1_0001_0000
    ensures Lookup([Run(0x1000, HEADER, 0xffff_0000)], 0xffff_0000) == Some(0x1_0000)
  {
  }

  /** A run of one page that ends at 2^32 is missed. */
  lemma LastPageMissed()
    ensures Lookup([Run(0xffff_f000, HEADER, 0x1000)], 0xffff_f800) == None
  {
    FirstMatchIs([Run(0xffff_f000, HEADER, 0x1000)], 1, 0xffff_f800);
  }

  lemma {:induction false} TotalOrder(table: seq<Run>, j: nat, k: nat)
    requires j <= k <= |table|
    ensures Total(table[..j]) <= Total(table[..k])
  {
    if j < k {
      TotalPrefix(table, k - 1);
      TotalOrder(table, j, k - 1);
    }
  }

  /** No two addresses inside runs are stored at the same place. */
  lemma StoredOnce(table: seq<Run>, j: nat, a: nat, k: nat, b: nat)
    requires j < |table| && Inside(table[j], a) && k < |table| && Inside(table[k], b)
    requires StoredAt(table, j, a) == StoredAt(table, k, b)
    ensures j == k && a == b
  {
    if j < k {
      TotalPrefix(table, j);
      TotalOrder(table, j + 1, k);
    } else if k < j {
      TotalPrefix(table, k);
      TotalOrder(table, k + 1, j);
    }
  }

  // ----- The table as it is compiled -----

  /** An address at distance `d` into run `k` that the debugger reported. */
  function AddressIn(rows: seq<Row>, k: nat, d: nat): nat
    requires k < |rows|
  {
    Meant(rows[k].base) + d
  }

  /** Are the base and the size of a row read as they were meant? */
  predicate Prefixed(row: Row) {
    row.base.Hex? && row.size.Hex?
  }

  /** Does row `k` of the compiled table hold distance `d` at its place? */
  predicate OwnRowHolds(rows: seq<Row>, k: nat, d: nat)
    requires k < |rows|
  {
    && rows[k].base.Hex?
    && d <= Read(rows[k].size)
    && Meant(rows[k].base) + Read(rows[k].size) < WORD
  }

  /** Does the row before row `k` end where run `k` begins? */
  predicate RowBeforeHolds(rows: seq<Row>, k: nat, d: nat)
    requires k < |rows|
  {
    && d == 0 && k > 0 && Prefixed(rows[k - 1])
    && Meant(rows[k - 1].base) + Meant(rows[k - 1].size) == Meant(rows[k].base)
  }

  lemma ReadAtMostMeant(x: Number)
    ensures Read(x) <= Meant(x) && Meant(x) % 0x1000 == 0
    ensures Read(x) == Meant(x) <==> x.Hex? || Meant(x) == 0
    ensures Read(x) == 0 <==> Meant(x) == 0
  {
  }

  /** No decimal thousand below ten thousand is a whole number of pages. */
  lemma ThousandsApart(x: Number)
    requires x.Bare? && Meant(x) > 0
    ensures Read(x) % 0x1000 != 0
  {
  }

  lemma RowBase(rows: seq<Row>, k: nat)
    requires Sorted(Reported(rows)) && k < |rows| && Meant(rows[0].base) != 0
    ensures Meant(rows[k].base) > 0 && Meant(rows[k].size) > 0
    ensures Meant(rows[k].base) + Meant(rows[k].size) <= WORD
  {
    hide Meant;
    var t := Reported(rows);
    assert t[0].base == Meant(rows[0].base) && t[k].base == Meant(rows[k].base) && t[k].size == Meant(rows[k].size);
  }

  lemma RowOrder(rows: seq<Row>, j: nat, k: nat)
    requires Sorted(Reported(rows)) && j < k < |rows|
    ensures Meant(rows[j].base) + Meant(rows[j].size) <= Meant(rows[k].base)
  {
    hide Meant;
    var t := Reported(rows);
    assert t[j].base == Meant(rows[j].base) && t[j].size == Meant(rows[j].size) && t[k].base == Meant(rows[k].base);
  }

  /** A compiled row before row `k` matches an address of run `k` only where it touches it. */
  lemma EarlierRow(rows: seq<Row>, j: nat, k: nat, d: nat)
    requires Sorted(Reported(rows)) && j < k < |rows| && Meant(rows[0].base) != 0 && d < Meant(rows[k].size)
    ensures Matches(Compiled(rows)[j], AddressIn(rows, k, d)) <==> j + 1 == k && RowBeforeHolds(rows, k, d)
  {
    hide Meant, Read, Reported, Sorted;
    RowBase(rows, j);
    RowBase(rows, k);
    RowOrder(rows, j, k);
    ReadAtMostMeant(rows[j].base);
    ReadAtMostMeant(rows[j].size);
    if j + 1 < k {
      RowBase(rows, j + 1);
      RowOrder(rows, j, j + 1);
      RowOrder(rows, j + 1, k);
    }
  }

  lemma OwnRow(rows: seq<Row>, k: nat, d: nat)
    requires Sorted(Reported(rows)) && k < |rows| && Meant(rows[0].base) != 0 && d < Meant(rows[k].size)
    requires rows[k].base.Hex?
    ensures Matches(Compiled(rows)[k], AddressIn(rows, k, d)) <==> OwnRowHolds(rows, k, d)
  {
    hide Meant, Read, Reported, Sorted;
    RowBase(rows, k);
    ReadAtMostMeant(rows[k].base);
    ReadAtMostMeant(rows[k].size);
  }

  lemma LaterRow(rows: seq<Row>, m: nat, k: nat, d: nat)
    requires Sorted(Reported(rows)) && k < m < |rows| && Meant(rows[0].base) != 0 && d < Meant(rows[k].size)
    requires rows[m].base.Hex?
    ensures !Matches(Compiled(rows)[m], AddressIn(rows, k, d))
  {
    hide Meant, Read, Reported, Sorted;
    RowOrder(rows, k, m);
    ReadAtMostMeant(rows[m].base);
  }

  /** Where run `k` holds distance `d` in the file. */
  function PlaceOf(rows: seq<Row>, k: nat, d: nat): nat
    requires k < |rows|
  {
    HEADER + Total(Reported(rows)[..k]) + d
  }

  lemma ReportedSize(rows: seq<Row>, k: nat)
    requires k < |rows|
    ensures Reported(rows)[k].size == Meant(rows[k].size)
  {
  }

  lemma {:induction false} WholePages(rows: seq<Row>, k: nat)
    requires k <= |rows|
    ensures Total(Reported(rows)[..k]) % 0x1000 == 0
  {
    hide Meant, Reported;
    if k > 0 {
      WholePages(rows, k - 1);
      ReadAtMostMeant(rows[k - 1].size);
      ReportedSize(rows, k - 1);
      assert Reported(rows)[..k][..k - 1] == Reported(rows)[..k - 1];
    }
  }

  lemma OffsetOf(rows: seq<Row>, k: nat)
    requires Contiguous(Reported(rows)) && k < |rows|
    ensures rows[k].offset == PlaceOf(rows, k, 0) && rows[k].offset % 0x1000 == 0
  {
    hide Total;
    WholePages(rows, k);
    assert Reported(rows)[k].offset == rows[k].offset;
  }

  lemma LookupInWord(table: seq<Run>, addr: nat)
    requires Lookup(table, addr).Some?
    ensures Lookup(table, addr).value < WORD
  {
  }

  /** The offset in the page decides. */
  lemma WrongInPage(base: nat, d: nat, r: nat, offset: nat, own: nat)
    requires base % 0x1000 == 0 && offset % 0x1000 == 0 && own % 0x1000 == 0 && r % 0x1000 != 0
    ensures (base + d - r + offset) % WORD != own + d
  {
    var b, o, w := base / 0x1000, offset / 0x1000, own / 0x1000;
    var v := base + d - r + offset;
    assert v == WORD * (v / WORD) + v % WORD;
    NoWholePages(r, b + o - w - 0x10_0000 * (v / WORD));
  }

  lemma NoWholePages(r: int, k: int)
    requires r % 0x1000 != 0
    ensures r != 0x1000 * k
  {
  }

  /** A row whose base was not read as meant leads to no right place: the offset in the page is off. */
  lemma BareBaseWrong(rows: seq<Row>, m: nat, k: nat, d: nat)
    requires Contiguous(Reported(rows)) && m < |rows| && k < |rows|
    requires rows[m].base.Bare? && Meant(rows[m].base) > 0
    ensures (AddressIn(rows, k, d) - Compiled(rows)[m].base + Compiled(rows)[m].offset) % WORD != PlaceOf(rows, k, d)
  {
    hide Meant, Read, Reported, Contiguous, Total;
    OffsetOf(rows, m);
    OffsetOf(rows, k);
    ReadAtMostMeant(rows[k].base);
    ThousandsApart(rows[m].base);
    WrongInPage(Meant(rows[k].base), d, Read(rows[m].base), rows[m].offset, rows[k].offset);
  }

  /** The rows that match lead to the right place if their bases were read as meant. */
  lemma RightPlace(rows: seq<Row>, k: nat, d: nat)
    requires Contiguous(Reported(rows)) && k < |rows|
    ensures rows[k].base.Hex? ==>
              AddressIn(rows, k, d) - Compiled(rows)[k].base + Compiled(rows)[k].offset == PlaceOf(rows, k, d)
    ensures RowBeforeHolds(rows, k, d) ==>
              AddressIn(rows, k, d) - Compiled(rows)[k - 1].base + Compiled(rows)[k - 1].offset == PlaceOf(rows, k, d)
  {
    hide Meant, Read, Contiguous, Total;
    OffsetOf(rows, k);
    ReadAtMostMeant(rows[k].base);
    if RowBeforeHolds(rows, k, d) {
      OffsetOf(rows, k - 1);
      ReadAtMostMeant(rows[k - 1].base);
      TotalPrefix(Reported(rows), k - 1);
      assert Reported(rows)[k - 1].size == Meant(rows[k - 1].size);
    }
  }

  /** If the lookup answers with the right place, a row holds the address there. */
  lemma FoundHolds(rows: seq<Row>, k: nat, d: nat)
    requires Sorted(Reported(rows)) && Contiguous(Reported(rows)) && k < |rows| && d < Meant(rows[k].size)
    requires Meant(rows[0].base) != 0
    requires Lookup(Compiled(rows), AddressIn(rows, k, d)) == Some(PlaceOf(rows, k, d))
    ensures OwnRowHolds(rows, k, d) || RowBeforeHolds(rows, k, d)
  {
    hide Meant, Read, Reported, Compiled, Sorted, Contiguous, Matches, FirstMatch, AddressIn, PlaceOf,
         OwnRowHolds, RowBeforeHolds;
    var m := FirstMatchRow(Compiled(rows), AddressIn(rows, k, d));
    if m < k {
      EarlierRow(rows, m, k, d);
    } else if rows[m].base.Bare? {
      RowBase(rows, m);
      BareBaseWrong(rows, m, k, d);
      assert false;
    } else if m == k {
      OwnRow(rows, k, d);
    } else {
      LaterRow(rows, m, k, d);
      assert false;
    }
  }

  lemma RowsNotZero(rows: seq<Row>)
    requires Sorted(Reported(rows)) && |rows| > 0
    ensures Compiled(rows)[0].base == 0 <==> Meant(rows[0].base) == 0
    ensures Meant(rows[0].base) != 0 ==> forall j :: 0 <= j < |rows| ==> Compiled(rows)[j].base != 0
  {
    hide Meant, Read, Sorted;
    ReadAtMostMeant(rows[0].base);
    if Meant(rows[0].base) != 0 {
      forall j | 0 <= j < |rows|
        ensures Compiled(rows)[j].base != 0
      {
        RowBase(rows, j);
        ReadAtMostMeant(rows[j].base);
      }
    }
  }

  lemma HoldsFound(rows: seq<Row>, k: nat, d: nat)
    requires Sorted(Reported(rows)) && Contiguous(Reported(rows)) && k < |rows| && d < Meant(rows[k].size)
    requires Meant(rows[0].base) != 0
    requires (OwnRowHolds(rows, k, d) || RowBeforeHolds(rows, k, d)) && PlaceOf(rows, k, d) < WORD
    ensures Lookup(Compiled(rows), AddressIn(rows, k, d)) == Some(PlaceOf(rows, k, d))
  {
    hide Meant, Read, Reported, Compiled, Sorted, Contiguous, Matches, FirstMatch, AddressIn, PlaceOf, Prefixed;
    var c, addr := Compiled(rows), AddressIn(rows, k, d);
    RowsNotZero(rows);
    RightPlace(rows, k, d);
    var m := if RowBeforeHolds(rows, k, d) then k - 1 else k;
    forall j | 0 <= j < k
      ensures Matches(c[j], addr) <==> j + 1 == k && RowBeforeHolds(rows, k, d)
    {
      EarlierRow(rows, j, k, d);
    }
    if m == k {
      OwnRow(rows, k, d);
    }
    FirstMatchIs(c, m, addr);
    LookupOfMatch(c, c[m], addr);
  }

  /** The lookup inverts the layout of the reported runs exactly where the printed numbers allow it:
      distance d into run k is found at header + sizes of the earlier runs + d if and only if the
      place is below 2^32, the first run does not begin at 0, and either the row has its base in
      hexadecimal, reaches as far as d when its size is read as C reads it, and ends below 2^32, or
      the run before, read as meant, ends at the address. */
  lemma LookupInverts(data: seq<Line>, k: nat, d: nat)
    requires Sorted(Reported(Scan(data).rows))
    requires k < |Scan(data).rows| && d < Meant(Scan(data).rows[k].size)
    ensures var rows := Scan(data).rows;
            Lookup(Compiled(rows), AddressIn(rows, k, d)) == Some(PlaceOf(rows, k, d))
            <==> PlaceOf(rows, k, d) < WORD && Meant(rows[0].base) != 0
                 && (OwnRowHolds(rows, k, d) || RowBeforeHolds(rows, k, d))
  {
    hide Sorted, Lookup, Scan, Reported, Compiled, Contiguous, Meant, AddressIn, PlaceOf, OwnRowHolds, RowBeforeHolds;
    var rows := Scan(data).rows;
    ScanContiguous(data);
    RowsNotZero(rows);
    if Meant(rows[0].base) == 0 {
      ZeroFirst(Compiled(rows), AddressIn(rows, k, d));
    } else if Lookup(Compiled(rows), AddressIn(rows, k, d)) == Some(PlaceOf(rows, k, d)) {
      FoundHolds(rows, k, d);
      LookupInWord(Compiled(rows), AddressIn(rows, k, d));
    } else if (OwnRowHolds(rows, k, d) || RowBeforeHolds(rows, k, d)) && PlaceOf(rows, k, d) < WORD {
      HoldsFound(rows, k, d);
    }
  }

  // ----- Where the table misses -----

  lemma ScanOne(base: Number, size: Number)
    ensures Scan([BasePage(base), PageCount(size)]) == State(base, HEADER + Meant(size), [Row(base, HEADER, size)])
  {
    var data := [BasePage(base), PageCount(size)];
    assert data[..1] == [BasePage(base)] && data[..1][..0] == [];
    assert Scan(data[..1]) == State(base, HEADER, []);
  }

  /** Two runs that the script is given: each has its own base, and the second begins a page later in
      the file. */
  lemma TwoRuns()
    ensures Scan([BasePage(Hex(0xf_d90e)), PageCount(Bare(1)), Other,
                  BasePage(Hex(0xf_d910)), PageCount(Hex(0x9dc))]).rows
         == [Row(Hex(0xf_d90e), 0x21000, Bare(1)), Row(Hex(0xf_d910), 0x22000, Hex(0x9dc))]
  {
    var data := [BasePage(Hex(0xf_d90e)), PageCount(Bare(1)), Other, BasePage(Hex(0xf_d910)), PageCount(Hex(0x9dc))];
    assert data[..4][..3] == data[..3] && data[..3][..2] == [BasePage(Hex(0xf_d90e)), PageCount(Bare(1))];
    ScanOne(Hex(0xf_d90e), Bare(1));
    assert Scan(data[..3]) == Scan(data[..2]);
  }

  /** A page count of 1 becomes 1000 bytes: the rest of the page is not found. */
  lemma OnePageCut(d: nat)
    requires d < 0x1000
    ensures var rows := Scan([BasePage(Hex(0xf_d909)), PageCount(Bare(1))]).rows;
            |rows| == 1 && Meant(rows[0].size) == 0x1000 && AddressIn(rows, 0, d) == 0xfd90_9000 + d
            && Lookup(Compiled(rows), 0xfd90_9000 + d) == if d <= 1000 then Some(PlaceOf(rows, 0, d)) else None
  {
    hide Scan;
    ScanOne(Hex(0xf_d909), Bare(1));
    FirstMatchIs([Run(0xfd90_9000, HEADER, 1000)], if d <= 1000 then 0 else 1, 0xfd90_9000 + d);
    assert Compiled([Row(Hex(0xf_d909), HEADER, Bare(1))]) == [Run(0xfd90_9000, HEADER, 1000)];
  }

  /** A base of one page becomes 1000: the run is found at the wrong place. */
  lemma OnePageShifted()
    ensures var rows := Scan([BasePage(Bare(1)), PageCount(Hex(0x9f))]).rows;
            |rows| == 1 && AddressIn(rows, 0, 0) == 0x1000
            && Lookup(Compiled(rows), 0x1000) == Some(PlaceOf(rows, 0, 0) + 3096)
  {
    hide Scan;
    ScanOne(Bare(1), Hex(0x9f));
    assert Compiled([Row(Bare(1), HEADER, Hex(0x9f))]) == [Run(1000, HEADER, 0x9_f000)];
  }
}
