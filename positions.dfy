/** The value of a game state and the effect of applying a move to it: the value
    semantics of `doMove`, of the starting position and of `reversed`
    (GameState.java). */
module Positions {
  import opened Constants
  import opened Board
  import opened Moves

  const PLAYER_PIECES := 12
  const MOVES_UNTIL_DRAW := 50

  /** The four fields of a GameState: `mCell`, `mNextPlayer`, `mMovesUntilDraw`
      and `mLastMove`. */
  datatype Position = Position(board: Cells, next: Occupant, untilDraw: int, last: Move)

  /** The player who moves after `player`: `player ^ (CELL_RED | CELL_WHITE)`. */
  function Toggle(player: Occupant): (q: Occupant)
    ensures player == CELL_RED <==> q == CELL_WHITE
    ensures player == CELL_WHITE <==> q == CELL_RED
    ensures q ^ BOTH_COLOURS == player
  {
    player ^ BOTH_COLOURS
  }

  /** The standard opening: slots 0..11 red men, 20..31 white men, red to move. */
  function Initial(): Position
  {
    Position(
      seq(SQUARES, i => if i < PLAYER_PIECES then CELL_RED
                        else if i >= SQUARES - PLAYER_PIECES then CELL_WHITE
                        else CELL_EMPTY),
      CELL_RED, MOVES_UNTIL_DRAW, BeginOfGame)
  }

  // ---------------------------------------------------------------------------
  // doMove

  /** The promotion check made after every step: a piece with the RED bit that lands
      on row 7, or one with the WHITE bit that lands on row 0, gains the KING bit. */
  function Promote(v: Occupant, row: int): (w: Occupant)
    ensures Storable(v) ==> Storable(w)
    ensures (v & CELL_RED != 0 && row == 7) || (v & CELL_WHITE != 0 && row == 0) ==> w & CELL_KING != 0
    ensures w & (CELL_RED | CELL_WHITE) == v & (CELL_RED | CELL_WHITE)
    ensures v & CELL_KING != 0 ==> w == v
    ensures !((v & CELL_RED != 0 && row == 7) || (v & CELL_WHITE != 0 && row == 0)) ==> w == v
  {
    if (row == 7 && v & CELL_RED != 0) || (row == 0 && v & CELL_WHITE != 0) then v | CELL_KING else v
  }

  /** One step of a move: the occupant of `from` goes to `to`, `from` becomes EMPTY
      and the landed piece is checked for promotion. (Were the two cells the same,
      the source's writes would leave that square EMPTY; no generated move does so.) */
  function Slide(b: Cells, from: int, to: int): (b': Cells)
    requires IsCell(from) && IsCell(to)
    ensures from != to ==> b'[to - 1] == Promote(b[from - 1], CellToRow(to))
    ensures b'[from - 1] == CELL_EMPTY
    ensures forall i :: 0 <= i < SQUARES && i != from - 1 && i != to - 1 ==> b'[i] == b[i]
  {
    var moved := b[to - 1 := b[from - 1]][from - 1 := CELL_EMPTY];
    moved[to - 1 := Promote(moved[to - 1], CellToRow(to))]
  }

  /** The cell `((sr + dr) >> 1, (sc + dc) >> 1)` that a jump step clears. */
  function MidCell(from: int, to: int): (m: int)
    requires IsCell(from) && IsCell(to)
    ensures IsCell(m)
  {
    CellCoordinates(from);
    CellCoordinates(to);
    var r, c := (CellToRow(from) + CellToRow(to)) / 2, (CellToCol(from) + CellToCol(to)) / 2;
    OnBoardCell(r, c);
    RowColToCell(r, c)
  }

  /** The midpoint of two cells, given their coordinates. */
  lemma MidCellOf(from: int, to: int, sr: int, sc: int, dr: int, dc: int)
    requires IsCell(from) && IsCell(to)
    requires CellToRow(from) == sr && CellToCol(from) == sc
    requires CellToRow(to) == dr && CellToCol(to) == dc
    ensures MidCell(from, to) == RowColToCell((sr + dr) / 2, (sc + dc) / 2)
  {
  }

  /** One step of a jump: slide, then clear the midpoint. */
  function JumpStep(b: Cells, from: int, to: int): Cells
    requires IsCell(from) && IsCell(to)
  {
    Slide(b, from, to)[MidCell(from, to) - 1 := CELL_EMPTY]
  }

  /** Steps 1..n-1 of the jump chain `cs`, in order. */
  function RunJump(b: Cells, cs: seq<int>, n: nat): Cells
    requires n <= |cs|
    requires forall i :: 0 <= i < |cs| ==> IsCell(cs[i])
  {
    if n <= 1 then b else JumpStep(RunJump(b, cs, n - 1), cs[n - 2], cs[n - 1])
  }

  /** The moves `doMove` can be given without reading outside the board: all named
      cells are cells 1..32 and a jump names its start cell. */
  predicate Applicable(m: Move)
  {
    m.InRange() && (m.Jump? ==> |m.cells| >= 1)
  }

  /** `doMove`: a jump runs its steps and resets the draw counter, a simple move
      slides once and decrements it, a sentinel leaves board and counter alone;
      every move becomes the last move and hands the turn over. */
  function Apply(p: Position, m: Move): (q: Position)
    requires Applicable(m)
    ensures q.last == m
    ensures q.next == Toggle(p.next)
    ensures m.Jump? ==> q.untilDraw == MOVES_UNTIL_DRAW
    ensures m.Normal? ==> q.untilDraw == p.untilDraw - 1
    ensures !m.Jump? && !m.Normal? ==> q.board == p.board && q.untilDraw == p.untilDraw
  {
    match m
    case Jump(cs) =>
      Position(RunJump(p.board, cs, |cs|), Toggle(p.next), MOVES_UNTIL_DRAW, m)
    case Normal(from, to) =>
      Position(Slide(p.board, from, to), Toggle(p.next), p.untilDraw - 1, m)
    case _ =>
      Position(p.board, Toggle(p.next), p.untilDraw, m)
  }

  /** A step between dark squares two rows and two columns apart. */
  predicate JumpShape(from: int, to: int)
  {
    IsCell(from) && IsCell(to)
    && (CellToRow(to) - CellToRow(from) == 2 || CellToRow(to) - CellToRow(from) == -2)
    && (CellToCol(to) - CellToCol(from) == 2 || CellToCol(to) - CellToCol(from) == -2)
  }

  /** The midpoint of a jump-shaped step is the dark square between the two cells. */
  lemma MidCellBetween(from: int, to: int)
    requires JumpShape(from, to)
    ensures MidCell(from, to) != from && MidCell(from, to) != to
    ensures 2 * CellToRow(MidCell(from, to)) == CellToRow(from) + CellToRow(to)
    ensures 2 * CellToCol(MidCell(from, to)) == CellToCol(from) + CellToCol(to)
  {
    var sr, sc, dr, dc := CellToRow(from), CellToCol(from), CellToRow(to), CellToCol(to);
    var mr, mc := (sr + dr) / 2, (sc + dc) / 2;
    assert MidCell(from, to) == RowColToCell(mr, mc);
    CellCoordinates(from);
    CellCoordinates(to);
    MidSquare(sr, sc, dr, dc);
    DarkSquareCell(mr, mc);
    CellsDistinct(mr, mc, sr, sc);
    CellsDistinct(mr, mc, dr, dc);
  }

  /** The board effect of one jump step: the mover (promoted when it reaches the far
      row) stands on the landing cell, the start cell and the jumped cell are EMPTY,
      and no other cell changes. */
  lemma JumpStepEffect(b: Cells, from: int, to: int)
    requires JumpShape(from, to)
    ensures var b', mid := JumpStep(b, from, to), MidCell(from, to);
      && b'[to - 1] == Promote(b[from - 1], CellToRow(to))
      && b'[from - 1] == CELL_EMPTY
      && b'[mid - 1] == CELL_EMPTY
      && forall i :: 0 <= i < SQUARES && i != from - 1 && i != to - 1 && i != mid - 1 ==> b'[i] == b[i]
  {
    MidCellBetween(from, to);
    assert from != to by {
      CellCoordinates(from);
    }
  }

  /** doMove keeps every square one of the five storable codes. */
  lemma {:induction false} ApplyKeepsStorable(p: Position, m: Move)
    requires AllStorable(p.board) && Applicable(m)
    ensures AllStorable(Apply(p, m).board)
  {
    match m
    case Jump(cs) => RunJumpKeepsStorable(p.board, cs, |cs|);
    case Normal(from, to) =>
    case _ =>
  }

  lemma {:induction false} RunJumpKeepsStorable(b: Cells, cs: seq<int>, n: nat)
    requires AllStorable(b)
    requires n <= |cs|
    requires forall i :: 0 <= i < |cs| ==> IsCell(cs[i])
    ensures AllStorable(RunJump(b, cs, n))
  {
    if n > 1 {
      RunJumpKeepsStorable(b, cs, n - 1);
    }
  }

  // ---------------------------------------------------------------------------
  // reversed

  /** The board rotated by 180 degrees with the colours swapped: slot i takes the
      occupant of slot 31 - i with RED and WHITE exchanged (EMPTY stays EMPTY). */
  function ReverseBoard(b: Cells): Cells
  {
    seq(SQUARES, i requires 0 <= i < SQUARES =>
      if b[SQUARES - 1 - i] == CELL_EMPTY then CELL_EMPTY else b[SQUARES - 1 - i] ^ BOTH_COLOURS)
  }

  function Reverse(p: Position): Position
    requires p.last.InRange()
  {
    Position(ReverseBoard(p.board), Toggle(p.next), p.untilDraw, Mirror(p.last))
  }

  /** Reversing twice gives back the position. */
  lemma ReverseInvolution(p: Position)
    requires AllStorable(p.board) && p.last.InRange()
    ensures Reverse(p).last.InRange()
    ensures Reverse(Reverse(p)) == p
  {
    MirrorInvolution(p.last);
    var b := p.board;
    var r2 := ReverseBoard(ReverseBoard(b));
    forall i | 0 <= i < SQUARES
      ensures r2[i] == b[i]
    {
      assert Storable(b[i]);
      ColourSwap(b[i]);
    }
    assert r2 == b;
  }

  /** Reversal keeps boards storable and sends red men to white men. */
  lemma ReverseBoardSwapsSides(b: Cells, i: int)
    requires AllStorable(b) && 0 <= i < SQUARES
    ensures Storable(ReverseBoard(b)[i])
    ensures b[SQUARES - 1 - i] == CELL_RED <==> ReverseBoard(b)[i] == CELL_WHITE
    ensures b[SQUARES - 1 - i] == CELL_WHITE <==> ReverseBoard(b)[i] == CELL_RED
  {
    assert Storable(b[SQUARES - 1 - i]);
    ColourSwap(b[SQUARES - 1 - i]);
  }

  /** The colour swap of `reversed`: EMPTY stays EMPTY, any other code has its RED and
      WHITE bits exchanged. */
  function SwapColours(v: Occupant): (w: Occupant)
    ensures v == CELL_EMPTY ==> w == CELL_EMPTY
    ensures Storable(v) ==> Storable(w) && (w == CELL_EMPTY ==> v == CELL_EMPTY)
  {
    ColourSwap(v);
    if v == CELL_EMPTY then CELL_EMPTY else v ^ BOTH_COLOURS
  }

  /** Swapping twice gives back a storable code. */
  lemma SwapTwice(v: Occupant)
    requires Storable(v)
    ensures SwapColours(SwapColours(v)) == v
  {
    ColourSwap(v);
  }

  /** The loop of `reversed` as written. `Object.clone` copies the reference to
      `mCell`, so the copy and the original share one array: step i writes slot i with
      the swapped contents of slot 31 - i as the earlier steps have left it. Steps
      0..n-1. */
  function ReverseShared(b: Cells, n: nat): Cells
    requires n <= SQUARES
  {
    if n == 0 then b
    else
      var a := ReverseShared(b, n - 1);
      a[n - 1 := SwapColours(a[SQUARES - n])]
  }

  /** After n steps of the shared loop, the first min(n, 16) slots hold the reversed
      board and every other slot holds what it held before: the second half of the
      loop swaps back what the first half wrote. */
  lemma {:induction false} ReverseSharedSteps(b: Cells, n: nat)
    requires AllStorable(b) && n <= SQUARES
    ensures forall i :: 0 <= i < n && i < SQUARES / 2 ==> ReverseShared(b, n)[i] == SwapColours(b[SQUARES - 1 - i])
    ensures forall i :: 0 <= i < SQUARES && (i >= n || i >= SQUARES / 2) ==> ReverseShared(b, n)[i] == b[i]
  {
    if n > 0 {
      ReverseSharedSteps(b, n - 1);
      var a := ReverseShared(b, n - 1);
      var a' := ReverseShared(b, n);
      assert a' == a[n - 1 := SwapColours(a[SQUARES - n])];
      if n - 1 >= SQUARES / 2 {
        assert a[SQUARES - n] == SwapColours(b[n - 1]);
        assert Storable(b[n - 1]);
        SwapTwice(b[n - 1]);
      } else {
        assert a[SQUARES - n] == b[SQUARES - n];
      }
    }
  }

  /** The shared loop agrees with the reversal on the first half of the board and
      keeps the original second half. */
  lemma ReverseSharedResult(b: Cells)
    requires AllStorable(b)
    ensures forall i :: 0 <= i < SQUARES / 2 ==> ReverseShared(b, SQUARES)[i] == ReverseBoard(b)[i]
    ensures forall i :: SQUARES / 2 <= i < SQUARES ==> ReverseShared(b, SQUARES)[i] == b[i]
  {
    ReverseSharedSteps(b, SQUARES);
  }

  /** A lone red man on cell 1: the correct reversal puts a white man on cell 32, the
      shared loop empties the whole board. */
  lemma LoneManVanishes(b: Cells)
    requires b[0] == CELL_RED
    requires forall i :: 1 <= i < SQUARES ==> b[i] == CELL_EMPTY
    ensures ReverseBoard(b)[SQUARES - 1] == CELL_WHITE
    ensures forall i :: 0 <= i < SQUARES ==> ReverseShared(b, SQUARES)[i] == CELL_EMPTY
  {
    ReverseSharedSteps(b, SQUARES);
  }
}
