/** Board addressing: the 32 dark squares, their (row, col) coordinates and the
    bounds-checked board query (GameState.java). */
module Board {
  import opened Constants

  const SQUARES := 32

  /** The 32 slots of `mCell`; slot `cell - 1` holds the contents of cell `cell`. */
  type Cells = s: seq<Occupant> | |s| == SQUARES witness seq(SQUARES, _ => CELL_EMPTY)

  predicate AllStorable(b: Cells)
  {
    forall i :: 0 <= i < SQUARES ==> Storable(b[i])
  }

  predicate IsCell(cell: int)
  {
    1 <= cell <= SQUARES
  }

  predicate OnBoard(r: int, c: int)
  {
    0 <= r <= 7 && 0 <= c <= 7
  }

  /** A dark square: on the board and with row and column of different parity. */
  predicate IsDark(r: int, c: int)
  {
    OnBoard(r, c) && r % 2 != c % 2
  }

  // Java's `x >> k` is floor division by 2^k and `x & (2^k - 1)` is the non-negative
  // remainder; Dafny's `/` and `%` by a positive constant are exactly these.

  /** `cellToRow`: `(cell - 1) >> 2`. */
  function CellToRow(cell: int): int
  {
    (cell - 1) / 4
  }

  /** `cellToCol`: `((cell - 1) & 3) << 1`, plus one when bit 2 of `cell - 1` is clear. */
  function CellToCol(cell: int): int
  {
    var col := ((cell - 1) % 4) * 2;
    if (cell - 1) / 4 % 2 == 0 then col + 1 else col
  }

  /** `rowColToCell`: `row * 4 + (col >> 1) + 1`, unchecked as in the source. */
  function RowColToCell(r: int, c: int): int
  {
    r * 4 + c / 2 + 1
  }

  /** Every cell 1..32 sits on a dark square and converting it back gives the cell. */
  lemma CellCoordinates(cell: int)
    requires IsCell(cell)
    ensures IsDark(CellToRow(cell), CellToCol(cell))
    ensures RowColToCell(CellToRow(cell), CellToCol(cell)) == cell
  {
    var k := cell - 1;
    assert k == 4 * (k / 4) + k % 4;
  }

  /** Every dark square is a cell 1..32 whose coordinates are that square. */
  lemma DarkSquareCell(r: int, c: int)
    requires IsDark(r, c)
    ensures IsCell(RowColToCell(r, c))
    ensures CellToRow(RowColToCell(r, c)) == r && CellToCol(RowColToCell(r, c)) == c
  {
    var k := RowColToCell(r, c) - 1;
    assert k == r * 4 + c / 2;
    assert k / 4 == r && k % 4 == c / 2;
  }

  /** Every on-board square, dark or light, maps to some cell 1..32. */
  lemma OnBoardCell(r: int, c: int)
    requires OnBoard(r, c)
    ensures IsCell(RowColToCell(r, c))
  {
    assert 0 <= c / 2 <= 3;
  }

  /** Distinct dark squares have distinct cells. */
  lemma CellsDistinct(r1: int, c1: int, r2: int, c2: int)
    requires IsDark(r1, c1) && IsDark(r2, c2)
    requires r1 != r2 || c1 != c2
    ensures RowColToCell(r1, c1) != RowColToCell(r2, c2)
  {
    DarkSquareCell(r1, c1);
    DarkSquareCell(r2, c2);
  }

  /** The square halfway between two dark squares two rows and two columns apart is
      a dark square diagonally adjacent to both. */
  lemma MidSquare(sr: int, sc: int, dr: int, dc: int)
    requires IsDark(sr, sc) && IsDark(dr, dc)
    requires dr - sr == 2 || dr - sr == -2
    requires dc - sc == 2 || dc - sc == -2
    ensures var mr, mc := (sr + dr) / 2, (sc + dc) / 2;
      && 2 * mr == sr + dr && 2 * mc == sc + dc
      && IsDark(mr, mc) && mr != sr && mr != dr
  {
    var mr := if dr == sr + 2 then sr + 1 else sr - 1;
    var mc := if dc == sc + 2 then sc + 1 else sc - 1;
    assert (sr + dr) / 2 == mr && (sc + dc) / 2 == mc;
    NeighbourParity(sr, mr);
    NeighbourParity(sc, mc);
  }

  /** Neighbouring integers have opposite parity. */
  lemma NeighbourParity(x: int, y: int)
    requires y == x + 1 || y == x - 1
    ensures y % 2 == 1 - x % 2
  {
  }

  /** The square (mr, mc) between (r, c) and the dark square (lr, lc) two diagonal
      steps away is itself dark. */
  lemma DiagonalBetween(r: int, c: int, mr: int, mc: int, lr: int, lc: int)
    requires IsDark(r, c) && IsDark(lr, lc)
    requires (mr == r + 1 || mr == r - 1) && (mc == c + 1 || mc == c - 1)
    requires lr == 2 * mr - r && lc == 2 * mc - c
    ensures IsDark(mr, mc)
  {
    NeighbourParity(r, mr);
    NeighbourParity(c, mc);
  }

  /** Halving the sum of a coordinate and its reflection in m. */
  lemma HalfWay(x: int, y: int, m: int)
    requires y == 2 * m - x
    ensures (x + y) / 2 == m
  {
    assert x + y == 2 * m;
  }

  /** Squares on different rows are held in different slots. */
  lemma SlotsOfRows(r1: int, c1: int, r2: int, c2: int)
    requires IsDark(r1, c1) && IsDark(r2, c2) && r1 != r2
    ensures r1 * 4 + c1 / 2 != r2 * 4 + c2 / 2
  {
    assert 0 <= c1 / 2 <= 3 && 0 <= c2 / 2 <= 3;
  }

  /** The slot of `mCell` that holds the dark square (r, c). */
  function Slot(r: int, c: int): (i: int)
    requires IsDark(r, c)
    ensures 0 <= i < SQUARES
    ensures i == RowColToCell(r, c) - 1
  {
    r * 4 + c / 2
  }

  /** `get(cell)`: the contents of cell 1..32. */
  function At(b: Cells, cell: int): Occupant
    requires IsCell(cell)
  {
    b[cell - 1]
  }

  /** `get(r, c)`: INVALID off the board and on light squares, otherwise the contents
      of the square's slot. */
  function Get(b: Cells, r: int, c: int): (v: Occupant)
    ensures !IsDark(r, c) ==> v == CELL_INVALID
    ensures IsDark(r, c) ==> v == At(b, RowColToCell(r, c))
  {
    if r < 0 || r > 7 || c < 0 || c > 7 then CELL_INVALID
    else if r % 2 == c % 2 then CELL_INVALID
    else b[Slot(r, c)]
  }

  /** On a board of storable codes, INVALID comes back exactly for the squares that
      are off the board or light. */
  lemma GetInvalidExactly(b: Cells, r: int, c: int)
    requires AllStorable(b)
    ensures Get(b, r, c) == CELL_INVALID <==> !IsDark(r, c)
  {
    if IsDark(r, c) {
      assert Storable(b[Slot(r, c)]);
    }
  }

  /** The private `set(r, c, v)` on a value board. */
  function Put(b: Cells, r: int, c: int, v: Occupant): (b': Cells)
    requires IsDark(r, c)
    ensures Get(b', r, c) == v
    ensures forall i :: 0 <= i < SQUARES && i != Slot(r, c) ==> b'[i] == b[i]
  {
    b[Slot(r, c) := v]
  }

  /** Writing back what a dark square held undoes a write to it. */
  lemma PutBack(b: Cells, r: int, c: int, v: Occupant)
    requires IsDark(r, c)
    ensures Put(Put(b, r, c, v), r, c, Get(b, r, c)) == b
  {
    assert Put(Put(b, r, c, v), r, c, Get(b, r, c)) == b[Slot(r, c) := b[Slot(r, c)]];
  }
}
