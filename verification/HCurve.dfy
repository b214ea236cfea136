/** vis/scurve/scurve/hcurve.py: the H-curve, a Hamiltonian cycle on a square grid whose side is a
    power of two. The first half of the cycle fills the triangle on and above the diagonal, by
    recursion over four smaller triangles; the second half is its point reflection. */
module HCurve {
  import opened Bits

  predicate PowerOfTwo(n: nat) {
    n == 1 || (n >= 2 && n % 2 == 0 && PowerOfTwo(n / 2))
  }

  /** The number of cells of the grid: n**2, as the sum of the first n odd numbers. */
  function Square(n: nat): nat {
    if n == 0 then 0 else Square(n - 1) + 2 * n - 1
  }

  lemma {:induction false} SquareIs(n: nat)
    ensures Square(n) == n * n
  {
    if n > 0 {
      SquareIs(n - 1);
      assert (n - 1) * (n - 1) == n * n - 2 * n + 1;
    }
  }

  /** The number of cells of a triangle. */
  function TSize(n: nat): nat {
    Square(n) / 2
  }

  lemma SquareTwice(h: nat)
    ensures Square(2 * h) == 4 * Square(h)
    ensures h >= 1 ==> Square(h) >= 1
    ensures h == 1 ==> Square(h) == 1
  {
    SquareIs(2 * h);
    SquareIs(h);
    assert (2 * h) * (2 * h) == 4 * (h * h);
  }

  lemma TSizeEven(h: nat)
    requires h >= 1
    ensures Square(2 * h) == 4 * Square(h) == 2 * TSize(2 * h)
    ensures TSize(2 * h) == 2 * Square(h) >= 2
    ensures h == 1 ==> TSize(2 * h) == 2
    ensures h % 2 == 0 ==> TSize(2 * h) == 4 * TSize(h)
  {
    hide Square;
    SquareTwice(h);
    SquareTwice(h / 2);
  }

  lemma TSizes(n: nat)
    requires PowerOfTwo(n)
    ensures n == 1 ==> TSize(n) == 0 && Square(n) == 1
    ensures n >= 2 ==> PowerOfTwo(n / 2) && n == 2 * (n / 2)
    ensures n >= 2 ==> Square(n) == 2 * TSize(n) == 4 * Square(n / 2) && TSize(n) >= 2
    ensures n == 2 ==> TSize(n) == 2
    ensures n >= 4 ==> n / 2 % 2 == 0 && TSize(n) == 4 * TSize(n / 2) && TSize(n / 2) >= 2
  {
    if n == 1 {
      SquareTwice(1);
    } else {
      hide Square, TSize;
      var h := n / 2;
      assert n == 2 * h;
      TSizeEven(h);
      if n >= 4 {
        TSizeEven(h / 2);
      }
    }
  }

  /** Which quarter of a triangle of size `tsize` index `i` is in. */
  function Quarter(i: nat, tsize: nat): int
    requires tsize > 0
  {
    4 * i / tsize
  }

  lemma QuarterZero(i: nat, tsize: nat)
    requires tsize > 0
    ensures Quarter(i, tsize) == 0 <==> 4 * i < tsize
  {
    var q, r := Divide(4 * i, tsize);
    MulOrder(1, q, tsize);
  }

  lemma QuarterZeros(n: nat)
    ensures TSize(n) > 0 ==> forall i: nat :: Quarter(i, TSize(n)) == 0 <==> 4 * i < TSize(n)
  {
    hide TSize, Quarter;
    if TSize(n) > 0 {
      forall i: nat
        ensures Quarter(i, TSize(n)) == 0 <==> 4 * i < TSize(n)
      {
        QuarterZero(i, TSize(n));
      }
    }
  }

  // ----- The recursion -----

  function Cor(d: nat, i: int, n: nat): int
    requires PowerOfTwo(n) && i < Square(n)
    decreases n, i
  {
    hide Square, TSize, Quarter;
    TSizes(n);
    QuarterZeros(n);
    var tsize := TSize(n);
    if i < 0 then 0
    else if i < d + 1 then d
    else if i >= tsize then n - Cor(d, i - tsize, n) - 1
    else
      var x := Quarter(i, tsize);
      if x == 0 then Cor(d, i, n / 2)
      else if x == 1 then Cor(d, tsize / 2 - 1 - i, n / 2) - 0
      else if x == 2 then n / 2 - Cor(d, 3 * tsize / 4 - 1 - i, n / 2) - 1
      else n / 2 + Cor(d, i - 3 * tsize / 4, n / 2) - 0
  }

  function XCor(i: int, n: nat): int
    requires PowerOfTwo(n) && i < Square(n)
    decreases n, i
  {
    hide Square, TSize, Quarter;
    TSizes(n);
    QuarterZeros(n);
    var tsize := TSize(n);
    if i < 1 then 0
    else if i >= tsize then n - XCor(i - tsize, n) - 1
    else
      var x := Quarter(i, tsize);
      if x == 0 then XCor(i, n / 2)
      else if x == 1 then XCor(tsize / 2 - 1 - i, n / 2)
      else if x == 2 then n / 2 - XCor(3 * tsize / 4 - 1 - i, n / 2) - 1
      else n / 2 + XCor(i - 3 * tsize / 4, n / 2)
  }

  function YCor(i: int, n: nat): int
    requires PowerOfTwo(n) && i < Square(n)
    decreases n, i
  {
    hide Square, TSize, Quarter;
    TSizes(n);
    QuarterZeros(n);
    var tsize := TSize(n);
    if i < 2 then i
    else if i >= tsize then n - YCor(i - tsize, n) - 1
    else
      var x := Quarter(i, tsize);
      if x == 0 then YCor(i, n / 2)
      else if x == 1 then n - YCor(tsize / 2 - 1 - i, n / 2) - 1
      else if x == 2 then n / 2 + YCor(3 * tsize / 4 - 1 - i, n / 2)
      else n / 2 + YCor(i - 3 * tsize / 4, n / 2)
  }

  datatype Cell = Cell(x: int, y: int)

  function Point(idx: nat, size: nat): Cell
    requires PowerOfTwo(size) && idx < Square(size)
  {
    Cell(Cor(0, idx, size), YCor(idx, size))
  }

  // ----- The four triangles -----

  /** Which sub-triangle of size `q` index `i` falls in, and the index there; the middle two
      triangles are run backwards. */
  function Inner(i: nat, q: nat): (nat, int) {
    if i < q then (0, i)
    else if i < 2 * q then (1, 2 * q - 1 - i)
    else if i < 3 * q then (2, 3 * q - 1 - i)
    else (3, i - 3 * q)
  }

  /** A cell of sub-triangle number `k`, placed in a triangle of side 2*h. */
  function PlaceX(k: nat, x: int, h: nat): int {
    if k <= 1 then x else if k == 2 then h - x - 1 else h + x
  }

  function PlaceY(k: nat, y: int, h: nat): int {
    if k == 0 then y else if k == 1 then 2 * h - y - 1 else h + y
  }

  lemma InnerRange(i: nat, n: nat)
    requires PowerOfTwo(n) && n >= 4 && i < TSize(n)
    ensures PowerOfTwo(n / 2) && n / 2 >= 2
    ensures TSize(n) == 4 * TSize(n / 2) && TSize(n / 2) >= 2
    ensures Square(n) == 2 * TSize(n) && Square(n / 2) == 2 * TSize(n / 2)
    ensures Inner(i, TSize(n / 2)).0 < 4 && 0 <= Inner(i, TSize(n / 2)).1 < TSize(n / 2)
    ensures Quarter(i, TSize(n)) == Inner(i, TSize(n / 2)).0
  {
    hide TSize, Square, Quarter;
    TSizes(n);
    TSizes(n / 2);
    QuarterOf(i, TSize(n / 2));
  }

  /** One step of the recursion, in sizes of the sub-triangle. */
  lemma CorAt(d: nat, i: nat, n: nat, q: nat)
    requires PowerOfTwo(n) && n >= 4 && PowerOfTwo(n / 2)
    requires 2 <= q && TSize(n) == 4 * q && Square(n) == 8 * q && Square(n / 2) == 2 * q && d < i < 4 * q
    ensures Quarter(i, TSize(n)) == 0 ==> i < 2 * q && Cor(d, i, n) == Cor(d, i, n / 2)
    ensures Quarter(i, TSize(n)) == 1 ==> 2 * q - 1 - i < 2 * q && Cor(d, i, n) == Cor(d, 2 * q - 1 - i, n / 2)
    ensures Quarter(i, TSize(n)) == 2 ==>
              3 * q - 1 - i < 2 * q && Cor(d, i, n) == n / 2 - Cor(d, 3 * q - 1 - i, n / 2) - 1
    ensures Quarter(i, TSize(n)) == 3 ==> i - 3 * q < 2 * q && Cor(d, i, n) == n / 2 + Cor(d, i - 3 * q, n / 2)
  {
    hide TSize, Square, Quarter, PowerOfTwo;
    QuarterZero(i, TSize(n));
  }

  lemma CorFour(d: nat, i: nat, n: nat)
    requires PowerOfTwo(n) && n >= 4 && d < i < TSize(n)
    ensures PowerOfTwo(n / 2) && 0 <= Inner(i, TSize(n / 2)).1 < Square(n / 2)
    ensures i < Square(n)
    ensures Cor(d, i, n) == PlaceX(Inner(i, TSize(n / 2)).0, Cor(d, Inner(i, TSize(n / 2)).1, n / 2), n / 2)
  {
    hide TSize, Square, Quarter, PowerOfTwo, Cor;
    InnerRange(i, n);
    CorAt(d, i, n, TSize(n / 2));
  }

  lemma QuarterOf(i: nat, q: nat)
    requires i < 4 * q && q > 0
    ensures Quarter(i, 4 * q) == Inner(i, q).0
  {
    var k := Inner(i, q).0;
    assert 4 * i == k * (4 * q) + 4 * (i - k * q);
    RowAndColumn(4 * q, k, 4 * (i - k * q));
  }

  /** One step of the recursion, in sizes of the sub-triangle. */
  lemma YCorAt(i: nat, n: nat, q: nat)
    requires PowerOfTwo(n) && n >= 4 && PowerOfTwo(n / 2)
    requires 2 <= q && TSize(n) == 4 * q && Square(n) == 8 * q && Square(n / 2) == 2 * q && i < 4 * q
    ensures Quarter(i, TSize(n)) == 0 ==> i < 2 * q && YCor(i, n) == YCor(i, n / 2)
    ensures Quarter(i, TSize(n)) == 1 ==> 2 * q - 1 - i < 2 * q && YCor(i, n) == n - YCor(2 * q - 1 - i, n / 2) - 1
    ensures Quarter(i, TSize(n)) == 2 ==>
              3 * q - 1 - i < 2 * q && YCor(i, n) == n / 2 + YCor(3 * q - 1 - i, n / 2)
    ensures Quarter(i, TSize(n)) == 3 ==> i - 3 * q < 2 * q && YCor(i, n) == n / 2 + YCor(i - 3 * q, n / 2)
  {
    hide TSize, Square, Quarter, PowerOfTwo;
    QuarterZero(i, TSize(n));
  }

  lemma YCorFour(i: nat, n: nat)
    requires PowerOfTwo(n) && n >= 4 && i < TSize(n)
    ensures PowerOfTwo(n / 2) && 0 <= Inner(i, TSize(n / 2)).1 < Square(n / 2)
    ensures i < Square(n)
    ensures YCor(i, n) == PlaceY(Inner(i, TSize(n / 2)).0, YCor(Inner(i, TSize(n / 2)).1, n / 2), n / 2)
  {
    hide TSize, Square, Quarter, PowerOfTwo, YCor;
    TSizes(n);
    InnerRange(i, n);
    YCorAt(i, n, TSize(n / 2));
  }

  /** One step of the recursion, in sizes of the sub-triangle. */
  lemma XCorAt(i: nat, n: nat, q: nat)
    requires PowerOfTwo(n) && n >= 4 && PowerOfTwo(n / 2)
    requires 2 <= q && TSize(n) == 4 * q && Square(n) == 8 * q && Square(n / 2) == 2 * q && i < 4 * q
    ensures Quarter(i, TSize(n)) == 0 ==> i < 2 * q && XCor(i, n) == XCor(i, n / 2)
    ensures Quarter(i, TSize(n)) == 1 ==> 2 * q - 1 - i < 2 * q && XCor(i, n) == XCor(2 * q - 1 - i, n / 2)
    ensures Quarter(i, TSize(n)) == 2 ==>
              3 * q - 1 - i < 2 * q && XCor(i, n) == n / 2 - XCor(3 * q - 1 - i, n / 2) - 1
    ensures Quarter(i, TSize(n)) == 3 ==> i - 3 * q < 2 * q && XCor(i, n) == n / 2 + XCor(i - 3 * q, n / 2)
  {
    hide TSize, Square, Quarter, PowerOfTwo;
    QuarterZero(i, TSize(n));
  }

  lemma XCorFour(i: nat, n: nat)
    requires PowerOfTwo(n) && n >= 4 && i < TSize(n)
    ensures PowerOfTwo(n / 2) && 0 <= Inner(i, TSize(n / 2)).1 < Square(n / 2)
    ensures i < Square(n)
    ensures XCor(i, n) == PlaceX(Inner(i, TSize(n / 2)).0, XCor(Inner(i, TSize(n / 2)).1, n / 2), n / 2)
  {
    hide TSize, Square, Quarter, PowerOfTwo, XCor;
    InnerRange(i, n);
    XCorAt(i, n, TSize(n / 2));
  }

  function Place(k: nat, c: Cell, h: nat): Cell {
    Cell(PlaceX(k, c.x, h), PlaceY(k, c.y, h))
  }

  /** The first half of the curve puts four smaller first halves together. */
  lemma FourTriangles(i: nat, n: nat)
    requires PowerOfTwo(n) && n >= 4 && i < TSize(n)
    ensures PowerOfTwo(n / 2) && 0 <= Inner(i, TSize(n / 2)).1 < Square(n / 2)
    ensures i < Square(n)
    ensures Point(i, n) == Place(Inner(i, TSize(n / 2)).0, Point(Inner(i, TSize(n / 2)).1, n / 2), n / 2)
  {
    hide TSize, Square, YCor, Quarter, PowerOfTwo;
    TSizes(n);
    InnerRange(i, n);
    YCorFour(i, n);
    if i > 0 {
      CorFour(0, i, n);
    }
  }

  lemma CorSecondHalf(i: nat, n: nat)
    requires PowerOfTwo(n) && n >= 2 && TSize(n) <= i < Square(n) && TSize(n) > 0
    ensures Cor(0, i, n) == n - 1 - Cor(0, i - TSize(n), n)
  {
    hide TSize, Square, Quarter;
  }

  lemma YCorSecondHalf(i: nat, n: nat)
    requires PowerOfTwo(n) && n >= 2 && 2 <= TSize(n) <= i < Square(n)
    ensures YCor(i, n) == n - 1 - YCor(i - TSize(n), n)
  {
    hide TSize, Square, Quarter;
  }

  /** The second half of the curve is the first half reflected through the centre. */
  lemma SecondHalf(i: nat, n: nat)
    requires PowerOfTwo(n) && n >= 2 && TSize(n) <= i < Square(n)
    ensures 0 <= i - TSize(n) < TSize(n)
    ensures Point(i, n) == Cell(n - 1 - Point(i - TSize(n), n).x, n - 1 - Point(i - TSize(n), n).y)
  {
    hide TSize, Square, Cor, YCor;
    TSizes(n);
    CorSecondHalf(i, n);
    YCorSecondHalf(i, n);
  }

  /** The unused xcor computes the same coordinate as cor with offset 0. */
  lemma {:induction false} XCorIsCor(i: int, n: nat)
    requires PowerOfTwo(n) && i < Square(n)
    ensures XCor(i, n) == Cor(0, i, n)
    decreases n, i
  {
    TSizes(n);
    if i >= 1 {
      if i >= TSize(n) {
        XCorIsCor(i - TSize(n), n);
      } else if n >= 4 {
        XCorFour(i, n);
        CorFour(0, i, n);
        XCorIsCor(Inner(i, TSize(n / 2)).1, n / 2);
      }
    }
  }

  // ----- A Hamiltonian cycle -----

  /** Horizontally or vertically next to each other. */
  predicate Adjacent(a: Cell, b: Cell) {
    || (a.x == b.x && (b.y == a.y + 1 || a.y == b.y + 1))
    || (a.y == b.y && (b.x == a.x + 1 || a.x == b.x + 1))
  }

  lemma Start(n: nat)
    requires PowerOfTwo(n) && n >= 2
    ensures Square(n) > 1
    ensures Point(0, n) == Cell(0, 0) && YCor(1, n) == 1
  {
    hide TSize, Square;
    TSizes(n);
  }

  lemma CorNegative(i: int, n: nat)
    requires PowerOfTwo(n) && i < 0
    ensures i < Square(n) && Cor(0, i, n) == 0
  {
  }

  lemma CorThird(i: nat, k: int, n: nat)
    requires PowerOfTwo(n) && n >= 2 && PowerOfTwo(n / 2) && 0 < i < TSize(n) < Square(n)
    requires Quarter(i, TSize(n)) == 2
    requires k == 3 * TSize(n) / 4 - 1 - i < Square(n / 2)
    ensures Cor(0, i, n) == n / 2 - Cor(0, k, n / 2) - 1
  {
    hide TSize, Square, Quarter;
  }

  lemma SecondColumn(n: nat)
    requires n == 2 && PowerOfTwo(n) && TSize(n) == 2 && Square(n) > 2
    ensures Cor(0, 1, n) == 0
  {
    hide TSize, Square, Cor;
    TSizes(n);
    CorNegative(-1, n / 2);
    CorThird(1, -1, n);
  }

  lemma Side2(n: nat)
    requires n == 2 && PowerOfTwo(n)
    ensures Square(n) == 4 && TSize(n) == 2
    ensures Point(0, n) == Cell(0, 0) && Point(1, n) == Cell(0, 1)
  {
    hide TSize, Square, Cor, YCor;
    TSizes(n);
    Start(n);
    SecondColumn(n);
  }

  lemma {:induction false} TriangleEnds(n: nat)
    requires PowerOfTwo(n) && n >= 2
    ensures 0 < TSize(n) < Square(n)
    ensures Point(0, n) == Cell(0, 0)
    ensures Point(TSize(n) - 1, n) == Cell(n - 2, n - 1)
  {
    hide TSize, Square, Point, PowerOfTwo;
    TSizes(n);
    if n == 2 {
      Side2(n);
    } else {
      TriangleEnds(n / 2);
      Start(n);
      FourTriangles(TSize(n) - 1, n);
    }
  }

  /** Going on by one stays in the sub-triangle, forwards or backwards, or goes from the end of one to
      the start of the next. */
  lemma InnerNext(i: nat, q: nat)
    requires i + 1 < 4 * q
    ensures var (k, j) := Inner(i, q);
            var (l, m) := Inner(i + 1, q);
            if k == l then k < 4 && m == (if k == 0 || k == 3 then j + 1 else j - 1)
            else k < 3 && l == k + 1 && j == (if k == 0 then q - 1 else 0) && m == (if l < 3 then q - 1 else 0)
  {
  }

  lemma PlaceStep(k: nat, a: Cell, b: Cell, h: nat)
    requires Adjacent(a, b)
    ensures Adjacent(b, a) && Adjacent(Place(k, a, h), Place(k, b, h)) && Adjacent(Place(k, b, h), Place(k, a, h))
  {
  }

  /** Where one sub-triangle ends, the next one starts. */
  lemma PlaceJoin(k: nat, h: nat)
    requires k < 3
    ensures Adjacent(Place(k, if k == 0 then Cell(h - 2, h - 1) else Cell(0, 0), h),
                     Place(k + 1, if k + 1 < 3 then Cell(h - 2, h - 1) else Cell(0, 0), h))
  {
  }

  lemma {:induction false} TriangleStep(i: nat, n: nat)
    requires PowerOfTwo(n) && n >= 2 && i + 1 < TSize(n)
    ensures i + 1 < Square(n)
    ensures Adjacent(Point(i, n), Point(i + 1, n))
    decreases n
  {
    hide TSize, Square, Point, PowerOfTwo, Place, Inner, Adjacent;
    TSizes(n);
    if n == 2 {
      Side2(n);
      FirstStep();
    } else {
      var q, h := TSize(n / 2), n / 2;
      TSizes(h);
      FourTriangles(i, n);
      FourTriangles(i + 1, n);
      TriangleEnds(h);
      InnerNext(i, q);
      var (k, j) := Inner(i, q);
      var m := Inner(i + 1, q).1;
      if k != Inner(i + 1, q).0 {
        PlaceJoin(k, h);
      } else {
        InnerRange(i, n);
        InnerRange(i + 1, n);
        TriangleStep(if j < m then j else m, h);
        PlaceStep(k, Point(if j < m then j else m, h), Point(if j < m then m else j, h), h);
      }
    }
  }

  lemma FirstStep()
    ensures Adjacent(Cell(0, 0), Cell(0, 1))
  {
  }

  /** The curve is a closed walk by unit steps: each cell is next to the following one, and the
      last cell is next to the first. */
  lemma CycleStep(i: nat, n: nat)
    requires PowerOfTwo(n) && n >= 2 && i < Square(n)
    ensures Adjacent(Point(i, n), Point(if i + 1 < Square(n) then i + 1 else 0, n))
  {
    hide TSize, Square, Point, PowerOfTwo;
    TSizes(n);
    TriangleEnds(n);
    var t := TSize(n);
    if i + 1 < t {
      TriangleStep(i, n);
    } else if i + 1 == t {
      SecondHalf(i + 1, n);
    } else {
      SecondHalf(i, n);
      if i + 1 < Square(n) {
        SecondHalf(i + 1, n);
        TriangleStep(i - t, n);
      }
    }
  }

  // ----- Coverage -----

  /** The triangle on and above the diagonal, with every other cell of the diagonal. */
  predicate InTriangle(c: Cell, n: nat) {
    0 <= c.x < n && 0 <= c.y < n && (c.x < c.y || (c.x == c.y && c.x % 2 == 0))
  }

  predicate InGrid(c: Cell, n: nat) {
    0 <= c.x < n && 0 <= c.y < n
  }

  function Mirror(c: Cell, n: nat): Cell {
    Cell(n - 1 - c.x, n - 1 - c.y)
  }

  /** The sub-triangle a cell of a triangle of side 2*h belongs to, and the cell there. */
  function Region(c: Cell, h: nat): (nat, Cell) {
    if c.y < h then (0, c)
    else if c.x >= h then (3, Cell(c.x - h, c.y - h))
    else if InTriangle(Cell(c.x, 2 * h - 1 - c.y), h) then (1, Cell(c.x, 2 * h - 1 - c.y))
    else (2, Cell(h - 1 - c.x, c.y - h))
  }

  /** The index in the whole triangle of index `j` in sub-triangle `k` of size `q`. */
  function Outer(k: nat, j: int, q: nat): int {
    if k == 0 then j
    else if k == 1 then 2 * q - 1 - j
    else if k == 2 then 3 * q - 1 - j
    else 3 * q + j
  }

  /** The four sub-triangles partition the triangle. */
  lemma RegionOfCell(c: Cell, h: nat)
    requires h % 2 == 0 && InTriangle(c, 2 * h)
    ensures Region(c, h).0 < 4 && InTriangle(Region(c, h).1, h)
    ensures Place(Region(c, h).0, Region(c, h).1, h) == c
  {
    hide InTriangle;
    if c.y < h || c.x >= h {
      OuterRegion(c, h);
    } else {
      MiddleRegion(c, h);
    }
  }

  lemma OuterRegion(c: Cell, h: nat)
    requires h % 2 == 0 && InTriangle(c, 2 * h)
    ensures c.y < h ==> InTriangle(c, h)
    ensures c.x >= h ==> c.y >= h && InTriangle(Cell(c.x - h, c.y - h), h)
  {
  }

  lemma MiddleRegion(c: Cell, h: nat)
    requires h % 2 == 0 && InTriangle(c, 2 * h) && c.x < h <= c.y
    ensures InTriangle(Cell(c.x, 2 * h - 1 - c.y), h) || InTriangle(Cell(h - 1 - c.x, c.y - h), h)
  {
  }

  lemma RegionOfMiddle(k: nat, c: Cell, h: nat)
    requires 1 <= k <= 2 && h % 2 == 0 && InTriangle(c, h)
    ensures InTriangle(Place(k, c, h), 2 * h)
    ensures Region(Place(k, c, h), h) == (k, c)
  {
    if k == 2 {
      var d := Place(k, c, h);
      assert d == Cell(h - c.x - 1, h + c.y);
      assert !InTriangle(Cell(d.x, 2 * h - 1 - d.y), h);
    }
  }

  lemma RegionOfPlace(k: nat, c: Cell, h: nat)
    requires k < 4 && h % 2 == 0 && InTriangle(c, h)
    ensures InTriangle(Place(k, c, h), 2 * h)
    ensures Region(Place(k, c, h), h) == (k, c)
  {
    if 1 <= k <= 2 {
      RegionOfMiddle(k, c, h);
    }
  }

  lemma InnerOfOuter(k: nat, j: nat, q: nat)
    requires k < 4 && j < q
    ensures 0 <= Outer(k, j, q) < 4 * q && Inner(Outer(k, j, q), q) == (k, j)
  {
  }

  lemma OuterOfInner(i: nat, q: nat)
    requires i < 4 * q
    ensures Outer(Inner(i, q).0, Inner(i, q).1, q) == i
  {
  }

  /** The index at which the first half of the curve visits a cell of its triangle. */
  function TriangleIndex(c: Cell, n: nat): (i: int)
    requires PowerOfTwo(n) && n >= 2 && InTriangle(c, n)
    ensures 0 <= i < TSize(n)
    decreases n
  {
    hide TSize, Square, PowerOfTwo, InTriangle, Region;
    TSizes(n);
    if n == 2 then TwoCells(c, n); c.y else
      RegionOfCell(c, n / 2);
      var (k, d) := Region(c, n / 2);
      Outer(k, TriangleIndex(d, n / 2), TSize(n / 2))
  }

  lemma {:induction false} TrianglePoint(i: nat, n: nat)
    requires PowerOfTwo(n) && n >= 2 && i < TSize(n)
    ensures i < Square(n)
    ensures InTriangle(Point(i, n), n)
    ensures TriangleIndex(Point(i, n), n) == i
    decreases n
  {
    hide TSize, Square, Point, PowerOfTwo, Inner, Outer, Place, Region, InTriangle;
    TSizes(n);
    if n == 2 {
      Side2(n);
      TwoCells(Point(i, n), n);
    } else {
      var h, q := n / 2, TSize(n / 2);
      InnerRange(i, n);
      FourTriangles(i, n);
      OuterOfInner(i, q);
      TrianglePoint(Inner(i, q).1, h);
      RegionOfPlace(Inner(i, q).0, Point(Inner(i, q).1, h), h);
    }
  }

  lemma TwoCells(c: Cell, n: nat)
    requires n == 2
    ensures InTriangle(c, n) <==> c == Cell(0, 0) || c == Cell(0, 1)
  {
  }

  lemma {:induction false} TriangleCell(c: Cell, n: nat)
    requires PowerOfTwo(n) && n >= 2 && InTriangle(c, n)
    ensures TriangleIndex(c, n) < Square(n)
    ensures Point(TriangleIndex(c, n), n) == c
    decreases n
  {
    hide TSize, Square, Point, PowerOfTwo, Inner, Outer, Place, Region, InTriangle;
    TSizes(n);
    if n == 2 {
      Side2(n);
      TwoCells(c, n);
    } else {
      var h, q := n / 2, TSize(n / 2);
      RegionOfCell(c, h);
      var (k, d) := Region(c, h);
      TriangleCell(d, h);
      InnerOfOuter(k, TriangleIndex(d, h), q);
      FourTriangles(TriangleIndex(c, n), n);
    }
  }

  /** The index at which the curve visits a cell. */
  function CellIndex(c: Cell, n: nat): (i: nat)
    requires PowerOfTwo(n) && n >= 2 && InGrid(c, n)
    ensures i < Square(n)
  {
    hide TSize, Square, PowerOfTwo;
    TSizes(n);
    if InTriangle(c, n) then TriangleIndex(c, n) else TSize(n) + TriangleIndex(Mirror(c, n), n)
  }

  lemma TriangleInGrid(c: Cell, n: nat)
    requires InTriangle(c, n)
    ensures InGrid(c, n)
  {
  }

  lemma MirrorInTriangle(c: Cell, n: nat)
    requires n % 2 == 0 && InGrid(c, n)
    ensures InGrid(Mirror(c, n), n) && (InTriangle(Mirror(c, n), n) <==> !InTriangle(c, n))
  {
  }

  /** The first half of the indices fills exactly the triangle, the second half the rest. */
  lemma FirstHalf(i: nat, n: nat)
    requires PowerOfTwo(n) && n >= 2 && i < Square(n)
    ensures InGrid(Point(i, n), n)
    ensures InTriangle(Point(i, n), n) <==> i < TSize(n)
  {
    hide TSize, Square, Point, PowerOfTwo, InTriangle, InGrid;
    TSizes(n);
    if i < TSize(n) {
      TrianglePoint(i, n);
      TriangleInGrid(Point(i, n), n);
    } else {
      SecondHalf(i, n);
      TrianglePoint(i - TSize(n), n);
      TriangleInGrid(Point(i - TSize(n), n), n);
      MirrorInTriangle(Point(i - TSize(n), n), n);
    }
  }

  /** The curve visits every cell of the grid exactly once. */
  lemma IndexOfPoint(i: nat, n: nat)
    requires PowerOfTwo(n) && n >= 2 && i < Square(n)
    ensures InGrid(Point(i, n), n)
    ensures CellIndex(Point(i, n), n) == i
  {
    hide TSize, Square, Point, TriangleIndex, PowerOfTwo, InTriangle;
    TSizes(n);
    FirstHalf(i, n);
    if i < TSize(n) {
      TrianglePoint(i, n);
    } else {
      SecondHalf(i, n);
      TrianglePoint(i - TSize(n), n);
    }
  }

  lemma PointOfIndex(c: Cell, n: nat)
    requires PowerOfTwo(n) && n >= 2 && InGrid(c, n)
    ensures Point(CellIndex(c, n), n) == c
  {
    hide TSize, Square, Point, TriangleIndex, PowerOfTwo, InTriangle;
    TSizes(n);
    if InTriangle(c, n) {
      TriangleCell(c, n);
    } else {
      MirrorInTriangle(c, n);
      TriangleCell(Mirror(c, n), n);
      SecondHalf(CellIndex(c, n), n);
    }
  }
}
