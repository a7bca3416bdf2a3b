/** The GameState object of the engine (GameState.java): the 32-slot board array
    `mCell`, the draw counter, the player to move and the last move, with the
    methods that build a state, apply a move, search for moves and print a state.
    Each method is proved against the value semantics in Positions, Generation and
    Codec. */
module GameStates {
  import opened Constants
  import opened Board
  import opened Text
  import opened Moves
  import opened Positions
  import opened Generation
  import opened Codec

  class GameState {
    var cells: array<Occupant>
    var movesUntilDraw: int
    var nextPlayer: Occupant
    var lastMove: Move

    predicate Valid()
      reads this
    {
      cells.Length == SQUARES
    }

    /** The value the object holds. */
    function Model(): Position
      reads this, cells
      requires Valid()
    {
      Position(cells[..], nextPlayer, movesUntilDraw, lastMove)
    }

    // -------------------------------------------------------------------------
    // Constructors

    /** The starting position: red men on slots 0..11, white men on 20..31, EMPTY in
        between, red to move, 50 moves until a draw, no move made yet. */
    constructor Init()
      ensures Valid() && fresh(cells)
      ensures Model() == Initial()
    {
      var a := new Occupant[SQUARES](_ => CELL_EMPTY);
      for i := 0 to PLAYER_PIECES
        invariant forall j :: 0 <= j < i ==> a[j] == CELL_RED
        invariant forall j :: SQUARES - i <= j < SQUARES ==> a[j] == CELL_WHITE
        invariant forall j :: i <= j < SQUARES - i ==> a[j] == CELL_EMPTY
      {
        a[i] := CELL_RED;
        a[SQUARES - 1 - i] := CELL_WHITE;
      }
      for i := PLAYER_PIECES to SQUARES - PLAYER_PIECES
        invariant forall j :: 0 <= j < PLAYER_PIECES ==> a[j] == CELL_RED
        invariant forall j :: SQUARES - PLAYER_PIECES <= j < SQUARES ==> a[j] == CELL_WHITE
        invariant forall j :: PLAYER_PIECES <= j < SQUARES - PLAYER_PIECES ==> a[j] == CELL_EMPTY
      {
        a[i] := CELL_EMPTY;
      }
      assert a[..] == Initial().board;
      cells := a;
      lastMove := BeginOfGame;
      movesUntilDraw := MOVES_UNTIL_DRAW;
      nextPlayer := CELL_RED;
    }

    /** The string constructor. The array starts as Java's zero-filled `int[]`, so a
        square whose symbol matches none of the five storable symbols stays EMPTY,
        and so does the player field when its symbol is unknown. */
    constructor FromMessage(msg: string)
      requires Parsable(msg)
      ensures Valid() && fresh(cells)
      ensures Model() == Parse(msg)
    {
      var ts := Tokens(msg);
      var board, last, player := ts[0], ts[1], ts[2];
      var left := ParseInt(ts[3]);
      var a := new Occupant[SQUARES](_ => CELL_EMPTY);
      for i := 0 to SQUARES
        invariant forall j :: 0 <= j < i ==> a[j] == OccupantOf(board[j])
        invariant forall j :: i <= j < SQUARES ==> a[j] == CELL_EMPTY
      {
        var ch := board[i];
        if ch == MESSAGE_SYMBOLS[CELL_EMPTY as int] {
          a[i] := CELL_EMPTY;
        } else if ch == MESSAGE_SYMBOLS[CELL_RED as int] {
          a[i] := CELL_RED;
        } else if ch == MESSAGE_SYMBOLS[CELL_WHITE as int] {
          a[i] := CELL_WHITE;
        } else if ch == MESSAGE_SYMBOLS[(CELL_RED | CELL_KING) as int] {
          a[i] := CELL_RED | CELL_KING;
        } else if ch == MESSAGE_SYMBOLS[(CELL_WHITE | CELL_KING) as int] {
          a[i] := CELL_WHITE | CELL_KING;
        }
      }
      cells := a;
      lastMove := Decode(last).value;
      var who := player[0];
      nextPlayer := CELL_EMPTY;
      if who == MESSAGE_SYMBOLS[CELL_EMPTY as int] {
        nextPlayer := CELL_EMPTY;
      } else if who == MESSAGE_SYMBOLS[CELL_RED as int] {
        nextPlayer := CELL_RED;
      } else if who == MESSAGE_SYMBOLS[CELL_WHITE as int] {
        nextPlayer := CELL_WHITE;
      } else if who == MESSAGE_SYMBOLS[(CELL_RED | CELL_KING) as int] {
        nextPlayer := CELL_RED | CELL_KING;
      } else if who == MESSAGE_SYMBOLS[(CELL_WHITE | CELL_KING) as int] {
        nextPlayer := CELL_WHITE | CELL_KING;
      }
      movesUntilDraw := left;
      new;
      assert cells[..] == ReadBoard(board);
    }

    /** The successor constructor: a copy of the parent's board array and fields,
        then `doMove`. The parent is left as it was. */
    constructor Successor(parent: GameState, m: Move)
      requires parent.Valid() && Applicable(m)
      ensures Valid() && fresh(cells)
      ensures Model() == Apply(parent.Model(), m)
      ensures unchanged(parent, parent.cells)
    {
      var a := new Occupant[SQUARES](_ => CELL_EMPTY);
      forall i | 0 <= i < SQUARES {
        a[i] := parent.cells[i];
      }
      cells := a;
      movesUntilDraw := parent.movesUntilDraw;
      nextPlayer := parent.nextPlayer;
      lastMove := parent.lastMove;
      new;
      assert Model() == parent.Model();
      DoMove(m);
    }

    /** `Object.clone`: the fields are copied, the board array is shared. */
    constructor ShallowCopy(src: GameState)
      requires src.Valid()
      ensures Valid() && cells == src.cells
      ensures movesUntilDraw == src.movesUntilDraw && nextPlayer == src.nextPlayer && lastMove == src.lastMove
    {
      cells := src.cells;
      movesUntilDraw := src.movesUntilDraw;
      nextPlayer := src.nextPlayer;
      lastMove := src.lastMove;
    }

    // -------------------------------------------------------------------------
    // Board access

    /** `set(pPos, v)`: writes the slot of cell 1..32 and nothing else. */
    method SetCell(cell: int, v: Occupant)
      requires Valid() && IsCell(cell)
      modifies cells
      ensures cells[..] == old(cells[..])[cell - 1 := v]
    {
      cells[cell - 1] := v;
    }

    /** The private `set(r, c, v)`: writes slot `r * 4 + (c >> 1)` unchecked; on a
        dark square that is the square's own slot. */
    method SetSquare(r: int, c: int, v: Occupant)
      requires Valid() && 0 <= r * 4 + c / 2 < SQUARES
      modifies cells
      ensures cells[..] == old(cells[..])[r * 4 + c / 2 := v]
      ensures IsDark(r, c) ==> cells[..] == Put(old(cells[..]), r, c, v)
    {
      cells[r * 4 + c / 2] := v;
    }

    // -------------------------------------------------------------------------
    // doMove

    /** `doMove`: a jump moves the piece along its chain, emptying each start and
        jumped square and promoting on the far row, and resets the counter; a simple
        move slides the piece once and decrements the counter; a sentinel changes
        neither. The move is recorded and the turn passes. */
    method DoMove(m: Move)
      requires Valid() && Applicable(m)
      modifies this, cells
      ensures Valid() && cells == old(cells)
      ensures Model() == Apply(old(Model()), m)
    {
      ghost var p := Model();
      match m {
        case Jump(cs) =>
          var sr, sc := CellToRow(cs[0]), CellToCol(cs[0]);
          for i := 1 to |cs|
            invariant Valid()
            invariant cells[..] == RunJump(p.board, cs, i)
            invariant sr == CellToRow(cs[i - 1]) && sc == CellToCol(cs[i - 1])
            modifies cells
          {
            var dr, dc := CellToRow(cs[i]), CellToCol(cs[i]);
            JumpOnce(cs[i - 1], cs[i], sr, sc, dr, dc);
            sr, sc := dr, dc;
          }
          movesUntilDraw := MOVES_UNTIL_DRAW;
        case Normal(from, to) =>
          MovePiece(from, to);
          movesUntilDraw := movesUntilDraw - 1;
        case _ =>
      }
      lastMove := m;
      nextPlayer := nextPlayer ^ BOTH_COLOURS;
    }

    /** One step of the jump loop of `doMove`: the piece moves from `from` to `to`
        (coordinates (sr, sc) and (dr, dc)) and the square halfway between is
        cleared. */
    method JumpOnce(from: int, to: int, sr: int, sc: int, dr: int, dc: int)
      requires Valid() && IsCell(from) && IsCell(to)
      requires sr == CellToRow(from) && sc == CellToCol(from) && dr == CellToRow(to) && dc == CellToCol(to)
      modifies cells
      ensures cells[..] == JumpStep(old(cells[..]), from, to)
    {
      MovePiece(from, to);
      MidCellOf(from, to, sr, sc, dr, dc);
      SetCell(RowColToCell((sr + dr) / 2, (sc + dc) / 2), CELL_EMPTY);
    }

    /** The piece on `from` moves to `to`, `from` is emptied, and the piece is
        promoted when it reaches the far row of its colour. */
    method MovePiece(from: int, to: int)
      requires Valid() && IsCell(from) && IsCell(to)
      modifies cells
      ensures cells[..] == Slide(old(cells[..]), from, to)
    {
      SetCell(to, cells[from - 1]);
      SetCell(from, CELL_EMPTY);
      var dr := CellToRow(to);
      if (dr == 7 && cells[to - 1] & CELL_RED != 0) || (dr == 0 && cells[to - 1] & CELL_WHITE != 0) {
        SetCell(to, cells[to - 1] | CELL_KING);
      }
    }

    // -------------------------------------------------------------------------
    // tryJump

    /** `tryJump` from the dark square (r, c), `path` being `pBuffer[0..pDepth)`: the
        piece is lifted, each allowed direction is tried, and the piece is put back.
        It reports whether any capture was open, appends the maximal chains the
        search finds, and leaves the board as it found it. */
    method TryJump(moves: seq<Move>, r: int, c: int, king: bool, path: seq<int>, ghost b: Cells)
      returns (found: bool, moves': seq<Move>)
      requires Valid() && IsDark(r, c) && cells[..] == b
      modifies cells
      ensures cells[..] == b
      ensures found == CanJump(b, nextPlayer, r, c, king)
      ensures moves' == moves + Chains(b, nextPlayer, r, c, king, path)
      decreases Occupied(b), 2
    {
      var oldSelf := Get(cells[..], r, c);
      SetSquare(r, c, CELL_EMPTY);
      ghost var L := Lift(b, r, c);
      assert cells[..] == L;
      OccupiedClear(b, Slot(r, c));
      var here := path + [RowColToCell(r, c)];
      var down, up := false, false;
      ghost var d: seq<Move>, u: seq<Move> := [], [];
      moves' := moves;
      if nextPlayer == CELL_RED || king {
        down, d, moves' := TryPair(moves', r, c, king, here, r + 1, r + 2, L);
      } else {
        assert moves + d == moves;
      }
      ghost var afterDown := moves';
      assert afterDown == moves + d;
      if nextPlayer == CELL_WHITE || king {
        up, u, moves' := TryPair(moves', r, c, king, here, r - 1, r - 2, L);
      } else {
        assert afterDown + u == afterDown;
      }
      assert moves' == afterDown + u;
      found := down || up;
      ChainsParts(b, nextPlayer, r, c, king, path, L, here, down, up, d, u);
      var tail: seq<Move> := if !found && |path| > 0 then [Jump(here)] else [];
      ghost var chains := Chains(b, nextPlayer, r, c, king, path);
      assert chains == d + u + tail;
      Associative(moves, d, u);
      Associative(moves, d + u, tail);
      assert moves' + tail == moves + chains;
      SetSquare(r, c, oldSelf);
      PutBack(b, r, c, CELL_EMPTY);
      moves' := moves' + tail;
    }

    /** The two "try capturing" blocks of one vertical direction of `tryJump`: towards
        row mr = r + 1 (lr = r + 2) or row mr = r - 1 (lr = r - 2), first to the left
        and then to the right. */
    method TryPair(moves: seq<Move>, r: int, c: int, king: bool, here: seq<int>, mr: int, lr: int, ghost L: Cells)
      returns (open: bool, ghost part: seq<Move>, moves': seq<Move>)
      requires Valid() && IsDark(r, c) && cells[..] == L
      requires (mr == r + 1 && lr == r + 2) || (mr == r - 1 && lr == r - 2)
      modifies cells
      ensures cells[..] == L
      ensures open == (CaptureOpen(L, nextPlayer, mr, c - 1, lr, c - 2) || CaptureOpen(L, nextPlayer, mr, c + 1, lr, c + 2))
      ensures part == Branch(L, nextPlayer, r, c, king, here, mr, c - 1, lr, c - 2)
                    + Branch(L, nextPlayer, r, c, king, here, mr, c + 1, lr, c + 2)
      ensures moves' == moves + part
      decreases Occupied(L), 1
    {
      var left, right;
      ghost var p1, p2;
      left, p1, moves' := TryCapture(moves, r, c, king, here, mr, c - 1, lr, c - 2, L);
      right, p2, moves' := TryCapture(moves', r, c, king, here, mr, c + 1, lr, c + 2, L);
      open := left || right;
      part := p1 + p2;
      Associative(moves, p1, p2);
    }

    /** One "try capturing" block of `tryJump`: when the square (mr, mc) holds a piece
        of the other player and (lr, lc) is EMPTY, the captured piece is taken off,
        the search continues from (lr, lc) one level deeper, and the piece is put
        back. */
    method TryCapture(moves: seq<Move>, r: int, c: int, king: bool, here: seq<int>,
                      mr: int, mc: int, lr: int, lc: int, ghost L: Cells)
      returns (open: bool, ghost part: seq<Move>, moves': seq<Move>)
      requires Valid() && IsDark(r, c) && Hop(r, c, mr, mc, lr, lc) && cells[..] == L
      modifies cells
      ensures cells[..] == L
      ensures open == CaptureOpen(L, nextPlayer, mr, mc, lr, lc)
      ensures part == Branch(L, nextPlayer, r, c, king, here, mr, mc, lr, lc)
      ensures moves' == moves + part
      decreases Occupied(L), 0
    {
      BranchStep(L, nextPlayer, r, c, king, here, mr, mc, lr, lc);
      part := Branch(L, nextPlayer, r, c, king, here, mr, mc, lr, lc);
      var other := Toggle(nextPlayer);
      open := Get(cells[..], mr, mc) & other != 0 && Get(cells[..], lr, lc) == CELL_EMPTY;
      moves' := moves;
      if open {
        var oldValue := Get(cells[..], mr, mc);
        SetSquare(mr, mc, CELL_EMPTY);
        var deeper;
        deeper, moves' := TryJump(moves', lr, lc, king, here, Put(L, mr, mc, CELL_EMPTY));
        SetSquare(mr, mc, oldValue);
        PutBack(L, mr, mc, CELL_EMPTY);
      }
    }

    // -------------------------------------------------------------------------
    // tryMove

    /** `tryMove`: appends the one-square moves of the piece on `cell` to the EMPTY
        diagonal neighbours in the directions it may use. */
    method TryMove(moves: seq<Move>, cell: int, king: bool) returns (moves': seq<Move>)
      requires Valid()
      ensures moves' == moves + StepMoves(cells[..], nextPlayer, cell, king)
    {
      var r, c := CellToRow(cell), CellToCol(cell);
      ghost var b: Cells := cells[..];
      ghost var down := if MayGoDown(nextPlayer, king) then StepTo(b, cell, r + 1, c - 1) + StepTo(b, cell, r + 1, c + 1) else [];
      ghost var up := if MayGoUp(nextPlayer, king) then StepTo(b, cell, r - 1, c - 1) + StepTo(b, cell, r - 1, c + 1) else [];
      assert StepMoves(b, nextPlayer, cell, king) == down + up;
      moves' := moves;
      if nextPlayer == CELL_RED || king {
        moves' := TryStep(moves', cell, r + 1, c - 1);
        moves' := TryStep(moves', cell, r + 1, c + 1);
        Associative(moves, StepTo(b, cell, r + 1, c - 1), StepTo(b, cell, r + 1, c + 1));
      }
      assert moves' == moves + down;
      if nextPlayer == CELL_WHITE || king {
        moves' := TryStep(moves', cell, r - 1, c - 1);
        moves' := TryStep(moves', cell, r - 1, c + 1);
        Associative(moves + down, StepTo(b, cell, r - 1, c - 1), StepTo(b, cell, r - 1, c + 1));
      }
      assert moves' == moves + down + up;
      Associative(moves, down, up);
    }

    /** One "try moving" block of `tryMove`: a move to (tr, tc) when that square is
        EMPTY. */
    method TryStep(moves: seq<Move>, cell: int, tr: int, tc: int) returns (moves': seq<Move>)
      requires Valid()
      ensures moves' == moves + StepTo(cells[..], cell, tr, tc)
    {
      moves' := moves;
      if Get(cells[..], tr, tc) == CELL_EMPTY {
        moves' := moves' + [Normal(cell, RowColToCell(tr, tc))];
      }
    }

    // -------------------------------------------------------------------------
    // findPossibleMoves

    /** `findPossibleMoves`: one fresh successor state per generated move, in the
        order of the search, with the board left as it was. */
    method FindPossibleMoves() returns (states: seq<GameState>)
      requires Valid()
      modifies cells
      ensures Valid() && Model() == old(Model())
      ensures |states| == |Successors(Model())|
      ensures forall i :: 0 <= i < |states| ==>
        fresh(states[i]) && fresh(states[i].cells) && states[i].Valid() && states[i].Model() == Successors(Model())[i]
      ensures forall i, j :: 0 <= i < j < |states| ==> states[i].cells != states[j].cells
    {
      ghost var p := Model();
      SuccessorsAtEnd(p);
      states := [];
      if lastMove.IsEOG() {
        return;
      }
      if movesUntilDraw <= 0 {
        var s := new GameState.Successor(this, Draw);
        states := [s];
        return;
      }
      var found, pieces, moves := ScanJumps();
      if !found {
        moves := ScanSimple(moves, pieces);
      }
      GenerateApplicable(p);
      assert moves != [] ==> Generate(p) == moves;
      states := BuildSuccessors(moves);
      if |states| == 0 {
        var s := new GameState.Successor(this, Resign(nextPlayer));
        states := [s];
      }
    }

    /** The first loop of `findPossibleMoves`: every cell holding a piece of the
        player to move is searched for captures and recorded in `lPieces`. */
    method ScanJumps() returns (found: bool, pieces: seq<int>, moves: seq<Move>)
      requires Valid()
      modifies cells
      ensures cells[..] == old(cells[..])
      ensures found == AnyJump(cells[..], nextPlayer, SQUARES)
      ensures pieces == Pieces(cells[..], nextPlayer, SQUARES)
      ensures moves == JumpScan(cells[..], nextPlayer, SQUARES)
    {
      ghost var b: Cells := cells[..];
      found, pieces, moves := false, [], [];
      for i := 1 to SQUARES + 1
        invariant cells[..] == b
        invariant found == AnyJump(b, nextPlayer, i - 1)
        invariant pieces == Pieces(b, nextPlayer, i - 1)
        invariant moves == JumpScan(b, nextPlayer, i - 1)
      {
        found, pieces, moves := ScanCell(i, found, pieces, moves, b);
      }
    }

    /** One round of the first loop of `findPossibleMoves`, for cell i. */
    method ScanCell(i: int, found: bool, pieces: seq<int>, moves: seq<Move>, ghost b: Cells)
      returns (found': bool, pieces': seq<int>, moves': seq<Move>)
      requires Valid() && IsCell(i) && cells[..] == b
      modifies cells
      ensures cells[..] == b
      ensures found' == (found || (Own(b, nextPlayer, i) && JumpsAt(b, nextPlayer, i)))
      ensures pieces' == pieces + (if Own(b, nextPlayer, i) then [i] else [])
      ensures moves' == moves + (if Own(b, nextPlayer, i) then JumpsFrom(b, nextPlayer, i) else [])
    {
      found', pieces', moves' := found, pieces, moves;
      if cells[i - 1] & nextPlayer != 0 {
        var isKing := cells[i - 1] & CELL_KING != 0;
        assert isKing == IsKing(b, i);
        CellCoordinates(i);
        var f;
        f, moves' := TryJump(moves, CellToRow(i), CellToCol(i), isKing, [], b);
        if f {
          found' := true;
        }
        pieces' := pieces + [i];
      } else {
        assert moves + [] == moves && pieces + [] == pieces;
      }
    }

    /** The second loop of `findPossibleMoves`: the one-square moves of every
        recorded piece, in order. */
    method ScanSimple(moves: seq<Move>, pieces: seq<int>) returns (moves': seq<Move>)
      requires Valid() && forall i :: 0 <= i < |pieces| ==> IsCell(pieces[i])
      ensures moves' == moves + SimpleOver(cells[..], nextPlayer, pieces)
    {
      ghost var b: Cells := cells[..];
      moves' := moves;
      for k := 0 to |pieces|
        invariant moves' == moves + SimpleOver(b, nextPlayer, pieces[..k])
      {
        var cell := pieces[k];
        var isKing := cells[cell - 1] & CELL_KING != 0;
        assert isKing == IsKing(b, cell);
        ghost var done := SimpleOver(b, nextPlayer, pieces[..k]);
        ghost var step := StepMoves(b, nextPlayer, cell, isKing);
        assert pieces[..k + 1][..k] == pieces[..k] && Last(pieces[..k + 1]) == cell;
        assert SimpleOver(b, nextPlayer, pieces[..k + 1]) == done + step;
        moves' := TryMove(moves', cell, isKing);
        Associative(moves, done, step);
      }
      assert pieces[..|pieces|] == pieces;
    }

    /** The third loop of `findPossibleMoves`: one fresh successor of this state per
        move, in order. */
    method BuildSuccessors(moves: seq<Move>) returns (states: seq<GameState>)
      requires Valid() && forall i :: 0 <= i < |moves| ==> Applicable(moves[i])
      ensures |states| == |moves|
      ensures forall j :: 0 <= j < |moves| ==>
        fresh(states[j]) && fresh(states[j].cells) && states[j].Valid() && states[j].Model() == Apply(Model(), moves[j])
      ensures forall j, k :: 0 <= j < k < |states| ==> states[j].cells != states[k].cells
    {
      states := [];
      for i := 0 to |moves|
        invariant |states| == i
        invariant forall j :: 0 <= j < i ==>
          fresh(states[j]) && fresh(states[j].cells) && states[j].Valid() && states[j].Model() == Apply(Model(), moves[j])
        invariant forall j, k :: 0 <= j < k < i ==> states[j].cells != states[k].cells
      {
        var s := new GameState.Successor(this, moves[i]);
        states := states + [s];
      }
    }

    // -------------------------------------------------------------------------
    // toMessage

    /** `toMessage`: the board symbols, then the move token, the player symbol and
        the counter, separated by single spaces. */
    method ToMessage() returns (s: string)
      requires Valid() && Encodable(Model())
      ensures s == Message(Model())
    {
      s := [];
      for i := 0 to SQUARES
        invariant s == BoardText(cells[..i])
      {
        s := s + [MESSAGE_SYMBOLS[cells[i] as int]];
        assert cells[..i + 1][..i] == cells[..i];
      }
      assert cells[..SQUARES] == cells[..];
      s := s + " " + Encode(lastMove) + " " + [MESSAGE_SYMBOLS[nextPlayer as int]] + " " + IntToString(movesUntilDraw);
    }

    // -------------------------------------------------------------------------
    // reversed

    /** `reversed` as written. The clone shares the board array with this state, so
        the loop reads squares it has already overwritten: both states end up with
        the board `ReverseShared` describes. */
    method ReversedAsWritten() returns (result: GameState)
      requires Valid() && lastMove.InRange()
      modifies cells
      ensures fresh(result) && result.Valid() && result.cells == cells
      ensures cells[..] == ReverseShared(old(cells[..]), SQUARES)
      ensures result.Model() == Position(cells[..], Toggle(nextPlayer), movesUntilDraw, Mirror(lastMove))
    {
      ghost var b: Cells := cells[..];
      result := new GameState.ShallowCopy(this);
      for i := 0 to SQUARES
        invariant result.cells == cells && result.Valid()
        invariant result.nextPlayer == nextPlayer && result.movesUntilDraw == movesUntilDraw
        invariant cells[..] == ReverseShared(b, i)
      {
        if cells[SQUARES - 1 - i] == CELL_EMPTY {
          result.cells[i] := CELL_EMPTY;
        } else {
          result.cells[i] := cells[SQUARES - 1 - i] ^ (CELL_RED | CELL_WHITE);
        }
      }
      result.nextPlayer := result.nextPlayer ^ (CELL_RED | CELL_WHITE);
      result.lastMove := Mirror(lastMove);
    }

    /** `reversed` with a board of its own: the board rotated by 180 degrees with the
        colours swapped, the other player to move and the mirrored last move; this
        state is left as it was. */
    method Reversed() returns (result: GameState)
      requires Valid() && lastMove.InRange()
      ensures fresh(result) && fresh(result.cells) && result.Valid()
      ensures result.Model() == Reverse(Model())
    {
      var a := new Occupant[SQUARES](_ => CELL_EMPTY);
      for i := 0 to SQUARES
        invariant forall j :: 0 <= j < i ==> a[j] == ReverseBoard(cells[..])[j]
      {
        if cells[SQUARES - 1 - i] == CELL_EMPTY {
          a[i] := CELL_EMPTY;
        } else {
          a[i] := cells[SQUARES - 1 - i] ^ (CELL_RED | CELL_WHITE);
        }
      }
      result := new GameState.ShallowCopy(this);
      result.cells := a;
      result.nextPlayer := result.nextPlayer ^ (CELL_RED | CELL_WHITE);
      result.lastMove := Mirror(lastMove);
      assert a[..] == ReverseBoard(cells[..]);
    }
  }

  lemma Associative<T>(a: seq<T>, b: seq<T>, c: seq<T>)
    ensures a + b + c == a + (b + c)
  {
  }
}
