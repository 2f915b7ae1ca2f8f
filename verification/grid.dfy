/**
 * The square playing field shared by both Snake games: cells, headings,
 * the bounds test and the counting facts that bound how many distinct
 * cells a snake can occupy.
 */
module Grid {
  import opened Collections

  /** Side length of the board, in cells. */
  const GridSize: nat := 20

  /** Number of cells on the board. */
  const Area: nat := GridSize * GridSize

  /** One board position; x grows to the right and y grows downward. */
  datatype Cell = Cell(x: int, y: int)

  /** The four headings a snake can take. */
  datatype Direction = Up | Down | Left | Right

  predicate InBounds(c: Cell) {
    0 <= c.x < GridSize && 0 <= c.y < GridSize
  }

  function Opposite(d: Direction): (r: Direction)
    ensures r != d
  {
    match d
    case Up => Down
    case Down => Up
    case Left => Right
    case Right => Left
  }

  lemma OppositeIsInvolution(d: Direction)
    ensures Opposite(Opposite(d)) == d
    ensures forall e :: Opposite(e) == d ==> e == Opposite(d)
  {
  }

  /** The cell one unit away from `c` along `d`. */
  function Shift(c: Cell, d: Direction): (r: Cell)
    ensures Adjacent(c, r)
    ensures d == Up ==> r == Cell(c.x, c.y - 1)
    ensures d == Down ==> r == Cell(c.x, c.y + 1)
    ensures d == Left ==> r == Cell(c.x - 1, c.y)
    ensures d == Right ==> r == Cell(c.x + 1, c.y)
  {
    match d
    case Up => Cell(c.x, c.y - 1)
    case Down => Cell(c.x, c.y + 1)
    case Left => Cell(c.x - 1, c.y)
    case Right => Cell(c.x + 1, c.y)
  }

  /** Two cells differ by exactly one unit along exactly one axis. */
  predicate Adjacent(a: Cell, b: Cell) {
    (a.x == b.x && (a.y - b.y == 1 || b.y - a.y == 1))
    || (a.y == b.y && (a.x - b.x == 1 || b.x - a.x == 1))
  }

  /** Shifting back the opposite way undoes a shift. */
  lemma ShiftOppositeUndoes(c: Cell, d: Direction)
    ensures Shift(Shift(c, d), Opposite(d)) == c
  {
  }

  // ---------------------------------------------------------------------
  // Snakes as sequences of cells
  // ---------------------------------------------------------------------

  predicate AllInBounds(s: seq<Cell>) {
    forall i :: 0 <= i < |s| ==> InBounds(s[i])
  }

  /** Consecutive segments touch: the body is a connected path. */
  predicate Connected(s: seq<Cell>) {
    forall i :: 0 <= i < |s| - 1 ==> Adjacent(s[i], s[i + 1])
  }

  /**
   * A snake moves by putting a new head in front of its body, all of it
   * when growing or all but the tail otherwise: if the head is on the
   * board, next to the old head and off the kept body, the snake stays
   * on the board, without overlaps and in one piece.
   */
  lemma Advance(s: seq<Cell>, head: Cell, body: seq<Cell>)
    requires s != [] && AllInBounds(s) && Distinct(s) && Connected(s)
    requires body <= s
    requires InBounds(head) && Adjacent(s[0], head) && head !in body
    ensures AllInBounds([head] + body) && Distinct([head] + body) && Connected([head] + body)
  {
    var r := [head] + body;
    assert forall i :: 1 <= i < |r| ==> r[i] == s[i - 1];
  }

  // ---------------------------------------------------------------------
  // Counting the board
  // ---------------------------------------------------------------------

  /** Row-major numbering of the board: cell number k of 0 .. Area-1. */
  function CellAt(k: nat): Cell {
    Cell(k % GridSize, k / GridSize)
  }

  /** The first k cells in row-major order. */
  function FirstCells(k: nat): set<Cell> {
    if k == 0 then {} else FirstCells(k - 1) + {CellAt(k - 1)}
  }

  /** Row-major number of a cell: the inverse of CellAt on the board. */
  function Number(c: Cell): int {
    c.y * GridSize + c.x
  }

  /** The first k cells are board columns, on non-negative rows, numbered below k. */
  lemma {:induction false} FirstCellsNumbered(k: nat)
    ensures forall c :: c in FirstCells(k) ==> 0 <= c.x < GridSize && 0 <= c.y && Number(c) < k
  {
    if k > 0 {
      FirstCellsNumbered(k - 1);
      var n: nat := k - 1;
      assert n == GridSize * (n / GridSize) + n % GridSize;
    }
  }

  lemma {:induction false} FirstCellsContain(k: nat, i: nat)
    requires i < k
    ensures CellAt(i) in FirstCells(k)
  {
    if i < k - 1 {
      FirstCellsContain(k - 1, i);
    }
  }

  lemma {:induction false} FirstCellsCount(k: nat)
    ensures |FirstCells(k)| == k
  {
    if k > 0 {
      FirstCellsCount(k - 1);
      FirstCellsNumbered(k - 1);
      var n: nat := k - 1;
      assert n == GridSize * (n / GridSize) + n % GridSize;
      assert Number(CellAt(n)) == n;
    }
  }

  /** Every in-bounds cell is one of the Area numbered cells. */
  lemma InBoundsIsNumbered(c: Cell)
    requires InBounds(c)
    ensures c in FirstCells(Area)
  {
    var k: nat := c.y * GridSize + c.x;
    assert CellAt(k) == c;
    FirstCellsContain(Area, k);
  }

  lemma NumberedIsInBounds(c: Cell)
    requires c in FirstCells(Area)
    ensures InBounds(c)
  {
    FirstCellsNumbered(Area);
    assert c.y * GridSize < Area;
  }

  /**
   * A snake shorter than the board leaves a free in-bounds cell, so the
   * rejection-sampling food spawner can succeed.
   */
  lemma FreeCellExists(s: seq<Cell>)
    requires |s| < Area
    ensures exists c :: InBounds(c) && c !in s
  {
    var free := FirstCells(Area) - Elems(s);
    if free == {} {
      forall c | c in FirstCells(Area)
        ensures c in Elems(s)
      {
        assert c !in free;
      }
      SubsetCount(FirstCells(Area), Elems(s));
      FirstCellsCount(Area);
      ElemsCountAtMost(s);
      assert false;
    }
    var c :| c in free;
    NumberedIsInBounds(c);
  }

  /**
   * A duplicate-free, in-bounds snake with a further free in-bounds cell
   * is shorter than the board.
   */
  lemma RoomForOneMore(s: seq<Cell>, c: Cell)
    requires AllInBounds(s) && Distinct(s)
    requires InBounds(c) && c !in s
    ensures |s| < Area
  {
    var occupied := Elems(s) + {c};
    forall e | e in occupied
      ensures e in FirstCells(Area)
    {
      InBoundsIsNumbered(e);
    }
    FirstCellsCount(Area);
    DistinctElemsCount(s);
    assert |occupied| == |Elems(s)| + 1;
    SubsetCount(occupied, FirstCells(Area));
  }
}
