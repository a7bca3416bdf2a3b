/** The value semantics of move generation (GameState.java): the capture search
    `tryJump`, the one-step moves `tryMove` and their combination in
    `findPossibleMoves`, with the rules they keep. */
module Generation {
  import opened Constants
  import opened Board
  import opened Moves
  import opened Positions

  /** Men of RED move and capture towards row 7; men of WHITE towards row 0; kings both. */
  predicate MayGoDown(player: Occupant, king: bool)
  {
    player == CELL_RED || king
  }

  predicate MayGoUp(player: Occupant, king: bool)
  {
    player == CELL_WHITE || king
  }

  /** (mr, mc) is a diagonal neighbour of (r, c) and (lr, lc) the square beyond it. */
  predicate Hop(r: int, c: int, mr: int, mc: int, lr: int, lc: int)
  {
    && (mr == r + 1 || mr == r - 1) && (mc == c + 1 || mc == c - 1)
    && lr == 2 * mr - r && lc == 2 * mc - c
  }

  /** A step from row r to row mr goes in a direction the piece may use. */
  predicate DirectionAllowed(player: Occupant, king: bool, r: int, mr: int)
  {
    (mr == r + 1 ==> MayGoDown(player, king)) && (mr == r - 1 ==> MayGoUp(player, king))
  }

  // ---------------------------------------------------------------------------
  // tryJump

  /** The jump test over (mr, mc) onto (lr, lc) on board L: the square jumped holds a
      piece of the other player (`lOther = mNextPlayer ^ (WHITE | RED)`) and the
      landing square is EMPTY. */
  predicate CaptureOpen(L: Cells, player: Occupant, mr: int, mc: int, lr: int, lc: int)
  {
    Get(L, mr, mc) & Toggle(player) != 0 && Get(L, lr, lc) == CELL_EMPTY
  }

  /** `lFound`: some direction the piece may use offers a capture. */
  predicate AnyCapture(L: Cells, player: Occupant, r: int, c: int, king: bool)
  {
    || (MayGoDown(player, king)
        && (CaptureOpen(L, player, r + 1, c - 1, r + 2, c - 2) || CaptureOpen(L, player, r + 1, c + 1, r + 2, c + 2)))
    || (MayGoUp(player, king)
        && (CaptureOpen(L, player, r - 1, c - 1, r - 2, c - 2) || CaptureOpen(L, player, r - 1, c + 1, r - 2, c + 2)))
  }

  /** The board with the square (r, c) emptied (a piece lifted during the search). */
  function Lift(b: Cells, r: int, c: int): Cells
    requires IsDark(r, c)
  {
    Put(b, r, c, CELL_EMPTY)
  }

  /** The result of `tryJump` from (r, c): the moving piece is lifted first, then the
      four directions are tested. */
  predicate CanJump(b: Cells, player: Occupant, r: int, c: int, king: bool)
    requires IsDark(r, c)
  {
    AnyCapture(Lift(b, r, c), player, r, c, king)
  }

  /** The non-empty slots. */
  function Filled(b: seq<Occupant>): set<int>
  {
    set i | 0 <= i < |b| && b[i] != CELL_EMPTY
  }

  /** The number of non-empty slots; each capture of the search removes one. */
  function Occupied(b: seq<Occupant>): nat
  {
    |Filled(b)|
  }

  lemma OccupiedClear(b: seq<Occupant>, i: int)
    requires 0 <= i < |b|
    ensures Occupied(b[i := CELL_EMPTY]) == Occupied(b) - (if b[i] != CELL_EMPTY then 1 else 0)
  {
    if b[i] != CELL_EMPTY {
      assert Filled(b[i := CELL_EMPTY]) == Filled(b) - {i};
    } else {
      assert Filled(b[i := CELL_EMPTY]) == Filled(b);
    }
  }

  /** The squares of a capture from (r, c) over (mr, mc) onto a dark square (lr, lc):
      the jumped square is dark and the three squares lie in distinct slots. */
  lemma JumpSquares(r: int, c: int, mr: int, mc: int, lr: int, lc: int)
    requires IsDark(r, c) && Hop(r, c, mr, mc, lr, lc) && IsDark(lr, lc)
    ensures IsDark(mr, mc)
    ensures Slot(mr, mc) != Slot(lr, lc) && Slot(mr, mc) != Slot(r, c)
  {
    DiagonalBetween(r, c, mr, mc, lr, lc);
    SlotsOfRows(mr, mc, lr, lc);
    SlotsOfRows(mr, mc, r, c);
  }

  /** An open capture jumps over a non-empty dark square onto an EMPTY dark square. */
  lemma CaptureGeometry(L: Cells, player: Occupant, r: int, c: int, mr: int, mc: int, lr: int, lc: int)
    requires IsDark(r, c) && Hop(r, c, mr, mc, lr, lc)
    requires CaptureOpen(L, player, mr, mc, lr, lc)
    ensures IsDark(mr, mc) && IsDark(lr, lc)
    ensures L[Slot(mr, mc)] != CELL_EMPTY
    ensures L[Slot(lr, lc)] == CELL_EMPTY
    ensures Slot(mr, mc) != Slot(lr, lc) && Slot(mr, mc) != Slot(r, c)
  {
    assert IsDark(lr, lc);
    JumpSquares(r, c, mr, mc, lr, lc);
  }

  /** The maximal capture chains from (r, c), in the order the depth-first search
      emits them. `path` holds the cells visited before (r, c) (`pBuffer[0..pDepth)`);
      a chain is emitted only where no further capture is open and at least one
      capture was made. */
  function Chains(b: Cells, player: Occupant, r: int, c: int, king: bool, path: seq<int>): seq<Move>
    requires IsDark(r, c)
    decreases Occupied(b), 1
  {
    var L := Lift(b, r, c);
    OccupiedClear(b, Slot(r, c));
    var here := path + [RowColToCell(r, c)];
    var down :=
      if MayGoDown(player, king)
      then Branch(L, player, r, c, king, here, r + 1, c - 1, r + 2, c - 2)
         + Branch(L, player, r, c, king, here, r + 1, c + 1, r + 2, c + 2)
      else [];
    var up :=
      if MayGoUp(player, king)
      then Branch(L, player, r, c, king, here, r - 1, c - 1, r - 2, c - 2)
         + Branch(L, player, r, c, king, here, r - 1, c + 1, r - 2, c + 2)
      else [];
    down + up + (if !AnyCapture(L, player, r, c, king) && |path| > 0 then [Jump(here)] else [])
  }

  /** One direction of the search: when the capture over (mr, mc) is open, remove the
      captured piece and continue from the landing square (lr, lc). */
  function Branch(L: Cells, player: Occupant, r: int, c: int, king: bool, here: seq<int>,
                  mr: int, mc: int, lr: int, lc: int): seq<Move>
    requires IsDark(r, c) && Hop(r, c, mr, mc, lr, lc)
    decreases Occupied(L), 0
  {
    if CaptureOpen(L, player, mr, mc, lr, lc) then
      CaptureGeometry(L, player, r, c, mr, mc, lr, lc);
      OccupiedClear(L, Slot(mr, mc));
      Chains(Put(L, mr, mc, CELL_EMPTY), player, lr, lc, king, here)
    else []
  }

  /** A capture step of a chain, read on the board the search started from: two rows
      in a direction the piece may use, two columns across, and a piece of the other
      player on the square in between. */
  predicate CaptureStep(b: Cells, player: Occupant, king: bool, from: int, to: int)
  {
    && JumpShape(from, to)
    && (CellToRow(to) - CellToRow(from) == 2 ==> MayGoDown(player, king))
    && (CellToRow(to) - CellToRow(from) == -2 ==> MayGoUp(player, king))
    && At(b, MidCell(from, to)) & Toggle(player) != 0
  }

  /** Step k of the chain `cs` is a capture step. */
  predicate CaptureStepAt(b: Cells, player: Occupant, king: bool, cs: seq<int>, k: int)
    requires 0 <= k < |cs| - 1
  {
    CaptureStep(b, player, king, cs[k], cs[k + 1])
  }

  /** `b'` differs from `b` only by squares that were emptied. */
  predicate ClearedFrom(b': Cells, b: Cells)
  {
    forall i :: 0 <= i < SQUARES ==> b'[i] == b[i] || b'[i] == CELL_EMPTY
  }

  lemma ClearSquare(b': Cells, b: Cells, r: int, c: int)
    requires IsDark(r, c) && ClearedFrom(b', b)
    ensures ClearedFrom(Put(b', r, c, CELL_EMPTY), b)
  {
  }

  lemma CaptureStepCleared(b': Cells, b: Cells, player: Occupant, king: bool, from: int, to: int)
    requires ClearedFrom(b', b)
    requires CaptureStep(b', player, king, from, to)
    ensures CaptureStep(b, player, king, from, to)
  {
    assert b'[MidCell(from, to) - 1] != CELL_EMPTY;
  }

  /** Capture steps read on a board stay capture steps on the board it was cleared from. */
  lemma StepsCleared(b': Cells, b: Cells, player: Occupant, king: bool, cs: seq<int>, lo: int)
    requires ClearedFrom(b', b)
    requires forall k :: lo <= k < |cs| - 1 && 0 <= k ==> CaptureStepAt(b', player, king, cs, k)
    ensures forall k :: lo <= k < |cs| - 1 && 0 <= k ==> CaptureStepAt(b, player, king, cs, k)
  {
    forall k | lo <= k < |cs| - 1 && 0 <= k
      ensures CaptureStepAt(b, player, king, cs, k)
    {
      assert CaptureStepAt(b', player, king, cs, k);
      CaptureStepCleared(b', b, player, king, cs[k], cs[k + 1]);
    }
  }

  /** A capture from (r, c) over (mr, mc) onto a dark square (lr, lc) lands on a cell
      two rows away whose midpoint with the start cell is the jumped square. */
  lemma LandingCells(r: int, c: int, mr: int, mc: int, lr: int, lc: int)
    requires IsDark(r, c) && Hop(r, c, mr, mc, lr, lc) && IsDark(lr, lc)
    ensures IsCell(RowColToCell(r, c)) && IsCell(RowColToCell(lr, lc))
    ensures CellToRow(RowColToCell(lr, lc)) - CellToRow(RowColToCell(r, c)) == 2 * (mr - r)
    ensures JumpShape(RowColToCell(r, c), RowColToCell(lr, lc))
    ensures MidCell(RowColToCell(r, c), RowColToCell(lr, lc)) == RowColToCell(mr, mc)
  {
    LandingRows(r, c, lr, lc);
    LandingMid(r, c, mr, mc, lr, lc);
  }

  lemma LandingRows(r: int, c: int, lr: int, lc: int)
    requires IsDark(r, c) && IsDark(lr, lc)
    ensures IsCell(RowColToCell(r, c)) && IsCell(RowColToCell(lr, lc))
    ensures CellToRow(RowColToCell(lr, lc)) - CellToRow(RowColToCell(r, c)) == lr - r
    ensures CellToCol(RowColToCell(lr, lc)) - CellToCol(RowColToCell(r, c)) == lc - c
  {
    DarkSquareCell(r, c);
    DarkSquareCell(lr, lc);
  }

  lemma LandingMid(r: int, c: int, mr: int, mc: int, lr: int, lc: int)
    requires IsDark(r, c) && IsDark(lr, lc)
    requires lr == 2 * mr - r && lc == 2 * mc - c
    ensures IsCell(RowColToCell(r, c)) && IsCell(RowColToCell(lr, lc))
    ensures MidCell(RowColToCell(r, c), RowColToCell(lr, lc)) == RowColToCell(mr, mc)
  {
    DarkSquareCell(r, c);
    DarkSquareCell(lr, lc);
    HalfWay(r, lr, mr);
    HalfWay(c, lc, mc);
    MidCellOf(RowColToCell(r, c), RowColToCell(lr, lc), r, c, lr, lc);
  }

  /** An open capture in an allowed direction is a capture step. */
  lemma OpenCaptureIsStep(L: Cells, player: Occupant, r: int, c: int, king: bool, mr: int, mc: int, lr: int, lc: int)
    requires IsDark(r, c) && Hop(r, c, mr, mc, lr, lc) && DirectionAllowed(player, king, r, mr)
    requires CaptureOpen(L, player, mr, mc, lr, lc)
    ensures IsCell(RowColToCell(lr, lc))
    ensures CaptureStep(L, player, king, RowColToCell(r, c), RowColToCell(lr, lc))
  {
    CaptureGeometry(L, player, r, c, mr, mc, lr, lc);
    LandingCells(r, c, mr, mc, lr, lc);
  }

  /** Which part of the search emitted a chain: the end of the chain at (r, c) (`leaf`),
      or the capture branch over (mr, mc) onto (lr, lc). */
  lemma ChainsCase(b: Cells, player: Occupant, r: int, c: int, king: bool, path: seq<int>, m: Move)
    returns (leaf: bool, mr: int, mc: int, lr: int, lc: int)
    requires IsDark(r, c)
    requires m in Chains(b, player, r, c, king, path)
    ensures leaf ==> && |path| > 0 && m == Jump(path + [RowColToCell(r, c)])
                     && !AnyCapture(Lift(b, r, c), player, r, c, king)
    ensures !leaf ==> && Hop(r, c, mr, mc, lr, lc) && DirectionAllowed(player, king, r, mr)
                      && m in Branch(Lift(b, r, c), player, r, c, king, path + [RowColToCell(r, c)], mr, mc, lr, lc)
  {
    var L := Lift(b, r, c);
    var here := path + [RowColToCell(r, c)];
    var down, up := MayGoDown(player, king), MayGoUp(player, king);
    var t := if !AnyCapture(L, player, r, c, king) && |path| > 0 then [Jump(here)] else [];
    assert Chains(b, player, r, c, king, path) ==
      ((if down then Branch(L, player, r, c, king, here, r + 1, c - 1, r + 2, c - 2) else [])
       + (if down then Branch(L, player, r, c, king, here, r + 1, c + 1, r + 2, c + 2) else []))
      + ((if up then Branch(L, player, r, c, king, here, r - 1, c - 1, r - 2, c - 2) else [])
         + (if up then Branch(L, player, r, c, king, here, r - 1, c + 1, r - 2, c + 2) else []))
      + t;
    leaf, mr, mc, lr, lc := BranchOf(L, player, r, c, king, path, here, m, down, up, t);
  }

  /** The direction, if any, whose branch holds a chain of the search's result. */
  lemma BranchOf(L: Cells, player: Occupant, r: int, c: int, king: bool, path: seq<int>, here: seq<int>, m: Move,
                 down: bool, up: bool, t: seq<Move>)
    returns (leaf: bool, mr: int, mc: int, lr: int, lc: int)
    requires IsDark(r, c) && down == MayGoDown(player, king) && up == MayGoUp(player, king)
    requires t == if !AnyCapture(L, player, r, c, king) && |path| > 0 then [Jump(here)] else []
    requires m in
      ((if down then Branch(L, player, r, c, king, here, r + 1, c - 1, r + 2, c - 2) else [])
       + (if down then Branch(L, player, r, c, king, here, r + 1, c + 1, r + 2, c + 2) else []))
      + ((if up then Branch(L, player, r, c, king, here, r - 1, c - 1, r - 2, c - 2) else [])
         + (if up then Branch(L, player, r, c, king, here, r - 1, c + 1, r - 2, c + 2) else []))
      + t
    ensures leaf ==> |path| > 0 && m == Jump(here) && !AnyCapture(L, player, r, c, king)
    ensures !leaf ==> && Hop(r, c, mr, mc, lr, lc) && DirectionAllowed(player, king, r, mr)
                      && m in Branch(L, player, r, c, king, here, mr, mc, lr, lc)
  {
    var k := CaseOfParts(m, down, up,
      Branch(L, player, r, c, king, here, r + 1, c - 1, r + 2, c - 2),
      Branch(L, player, r, c, king, here, r + 1, c + 1, r + 2, c + 2),
      Branch(L, player, r, c, king, here, r - 1, c - 1, r - 2, c - 2),
      Branch(L, player, r, c, king, here, r - 1, c + 1, r - 2, c + 2), t);
    leaf := k == 4;
    if k == 0 {
      mr, mc, lr, lc := r + 1, c - 1, r + 2, c - 2;
    } else if k == 1 {
      mr, mc, lr, lc := r + 1, c + 1, r + 2, c + 2;
    } else if k == 2 {
      mr, mc, lr, lc := r - 1, c - 1, r - 2, c - 2;
    } else if k == 3 {
      mr, mc, lr, lc := r - 1, c + 1, r - 2, c + 2;
    } else {
      mr, mc, lr, lc := 0, 0, 0, 0;
    }
  }

  /** Which part of the search's result holds a chain: one of the four branches,
      each counted only when its direction is allowed, or the chain ending here. */
  lemma CaseOfParts<T>(x: T, down: bool, up: bool, b1: seq<T>, b2: seq<T>, b3: seq<T>, b4: seq<T>, t: seq<T>)
    returns (k: int)
    requires x in ((if down then b1 else []) + (if down then b2 else [])) + ((if up then b3 else []) + (if up then b4 else [])) + t
    ensures 0 <= k <= 4
    ensures k == 0 ==> down && x in b1
    ensures k == 1 ==> down && x in b2
    ensures k == 2 ==> up && x in b3
    ensures k == 3 ==> up && x in b4
    ensures k == 4 ==> x in t
  {
    k := if down && x in b1 then 0 else if down && x in b2 then 1
         else if up && x in b3 then 2 else if up && x in b4 then 3 else 4;
  }

  lemma LastOfExtension(path: seq<int>, x: int)
    ensures (path + [x])[|path|..] == [x]
  {
  }

  lemma PrefixOf(cs: seq<int>, path: seq<int>, x: int)
    requires |cs| > |path| && cs[..|path| + 1] == path + [x]
    ensures cs[..|path|] == path && cs[|path|] == x
  {
    assert cs[..|path|] == cs[..|path| + 1][..|path|];
    assert cs[|path|] == cs[..|path| + 1][|path|];
  }

  /** Every emitted chain extends `path` by (r, c) and a run of capture steps, each
      two rows and two columns long with an opposing piece on its midpoint; a chain
      found from the start square has at least two cells. */
  lemma {:induction false} ChainsShape(b: Cells, player: Occupant, r: int, c: int, king: bool, path: seq<int>, m: Move)
    requires IsDark(r, c)
    requires forall i :: 0 <= i < |path| ==> IsCell(path[i])
    requires m in Chains(b, player, r, c, king, path)
    ensures m.Jump? && |m.cells| > |path|
    ensures path == [] ==> |m.cells| >= 2
    ensures m.cells[..|path|] == path && m.cells[|path|] == RowColToCell(r, c)
    ensures forall i :: 0 <= i < |m.cells| ==> IsCell(m.cells[i])
    ensures forall k :: |path| <= k < |m.cells| - 1 && 0 <= k ==> CaptureStepAt(b, player, king, m.cells, k)
    decreases Occupied(b), 1
  {
    var cell := RowColToCell(r, c);
    var here := path + [cell];
    OnBoardCell(r, c);
    var leaf, mr, mc, lr, lc := ChainsCase(b, player, r, c, king, path, m);
    if leaf {
      PrefixOf(m.cells, path, cell);
    } else {
      var L := Lift(b, r, c);
      OccupiedClear(b, Slot(r, c));
      ClearSquare(b, b, r, c);
      BranchShape(b, L, player, r, c, king, here, mr, mc, lr, lc, m);
      PrefixOf(m.cells, path, cell);
    }
  }

  lemma {:induction false} BranchShape(b: Cells, L: Cells, player: Occupant, r: int, c: int, king: bool, here: seq<int>,
                                       mr: int, mc: int, lr: int, lc: int, m: Move)
    requires IsDark(r, c) && Hop(r, c, mr, mc, lr, lc) && DirectionAllowed(player, king, r, mr)
    requires ClearedFrom(L, b) && Occupied(L) <= Occupied(b)
    requires |here| >= 1 && here[|here| - 1] == RowColToCell(r, c)
    requires forall i :: 0 <= i < |here| ==> IsCell(here[i])
    requires m in Branch(L, player, r, c, king, here, mr, mc, lr, lc)
    ensures m.Jump? && |m.cells| > |here|
    ensures m.cells[..|here|] == here
    ensures forall i :: 0 <= i < |m.cells| ==> IsCell(m.cells[i])
    ensures forall k :: |here| - 1 <= k < |m.cells| - 1 && 0 <= k ==> CaptureStepAt(b, player, king, m.cells, k)
    decreases Occupied(L), 0
  {
    BranchUnfold(L, player, r, c, king, here, mr, mc, lr, lc, m);
    var b' := Put(L, mr, mc, CELL_EMPTY);
    ClearSquare(L, b, mr, mc);
    ChainsShape(b', player, lr, lc, king, here, m);
    ComposeShape(b, L, b', player, r, c, king, here, mr, mc, lr, lc, m);
  }

  /** A chain from a branch comes from an open capture and the search from its landing square. */
  lemma BranchUnfold(L: Cells, player: Occupant, r: int, c: int, king: bool, here: seq<int>,
                     mr: int, mc: int, lr: int, lc: int, m: Move)
    requires IsDark(r, c) && Hop(r, c, mr, mc, lr, lc)
    requires m in Branch(L, player, r, c, king, here, mr, mc, lr, lc)
    ensures CaptureOpen(L, player, mr, mc, lr, lc)
    ensures IsDark(mr, mc) && IsDark(lr, lc)
    ensures Occupied(Put(L, mr, mc, CELL_EMPTY)) < Occupied(L)
    ensures m in Chains(Put(L, mr, mc, CELL_EMPTY), player, lr, lc, king, here)
  {
    CaptureGeometry(L, player, r, c, mr, mc, lr, lc);
    OccupiedClear(L, Slot(mr, mc));
  }

  /** One direction of the search read off: without an open capture it adds nothing;
      with one, the jumped square is a non-empty dark square and the direction adds
      the chains from the landing square once the jumped piece is removed. */
  lemma BranchStep(L: Cells, player: Occupant, r: int, c: int, king: bool, here: seq<int>,
                   mr: int, mc: int, lr: int, lc: int)
    requires IsDark(r, c) && Hop(r, c, mr, mc, lr, lc)
    ensures !CaptureOpen(L, player, mr, mc, lr, lc) ==> Branch(L, player, r, c, king, here, mr, mc, lr, lc) == []
    ensures CaptureOpen(L, player, mr, mc, lr, lc) ==>
      && IsDark(mr, mc) && IsDark(lr, lc)
      && Occupied(Put(L, mr, mc, CELL_EMPTY)) < Occupied(L)
      && Branch(L, player, r, c, king, here, mr, mc, lr, lc) == Chains(Put(L, mr, mc, CELL_EMPTY), player, lr, lc, king, here)
  {
    if CaptureOpen(L, player, mr, mc, lr, lc) {
      CaptureGeometry(L, player, r, c, mr, mc, lr, lc);
      OccupiedClear(L, Slot(mr, mc));
    }
  }

  /** The search from (r, c) assembled from its two vertical directions: given what
      each reports (whether one of its two captures is open, and the chains its two
      branches add, nothing for a direction the piece may not use), the result of the
      search and its chains follow. */
  lemma ChainsParts(b: Cells, player: Occupant, r: int, c: int, king: bool, path: seq<int>,
                    L: Cells, here: seq<int>, down: bool, up: bool, d: seq<Move>, u: seq<Move>)
    requires IsDark(r, c) && L == Lift(b, r, c) && here == path + [RowColToCell(r, c)]
    requires MayGoDown(player, king) ==>
      && down == (CaptureOpen(L, player, r + 1, c - 1, r + 2, c - 2) || CaptureOpen(L, player, r + 1, c + 1, r + 2, c + 2))
      && d == Branch(L, player, r, c, king, here, r + 1, c - 1, r + 2, c - 2)
            + Branch(L, player, r, c, king, here, r + 1, c + 1, r + 2, c + 2)
    requires !MayGoDown(player, king) ==> !down && d == []
    requires MayGoUp(player, king) ==>
      && up == (CaptureOpen(L, player, r - 1, c - 1, r - 2, c - 2) || CaptureOpen(L, player, r - 1, c + 1, r - 2, c + 2))
      && u == Branch(L, player, r, c, king, here, r - 1, c - 1, r - 2, c - 2)
            + Branch(L, player, r, c, king, here, r - 1, c + 1, r - 2, c + 2)
    requires !MayGoUp(player, king) ==> !up && u == []
    ensures CanJump(b, player, r, c, king) == (down || up)
    ensures Chains(b, player, r, c, king, path) == d + u + (if !(down || up) && |path| > 0 then [Jump(here)] else [])
  {
  }

  /** The capture over (mr, mc) in front of a chain from the landing square. */
  lemma ComposeShape(b: Cells, L: Cells, b': Cells, player: Occupant, r: int, c: int, king: bool, here: seq<int>,
                     mr: int, mc: int, lr: int, lc: int, m: Move)
    requires IsDark(r, c) && Hop(r, c, mr, mc, lr, lc) && DirectionAllowed(player, king, r, mr)
    requires CaptureOpen(L, player, mr, mc, lr, lc)
    requires ClearedFrom(L, b) && ClearedFrom(b', b)
    requires |here| >= 1 && here[|here| - 1] == RowColToCell(r, c)
    requires m.Jump? && |m.cells| > |here|
    requires m.cells[..|here|] == here && m.cells[|here|] == RowColToCell(lr, lc)
    requires forall k :: |here| <= k < |m.cells| - 1 && 0 <= k ==> CaptureStepAt(b', player, king, m.cells, k)
    ensures forall k :: |here| - 1 <= k < |m.cells| - 1 && 0 <= k ==> CaptureStepAt(b, player, king, m.cells, k)
  {
    StepsCleared(b', b, player, king, m.cells, |here|);
    OpenCaptureIsStep(L, player, r, c, king, mr, mc, lr, lc);
    CaptureStepCleared(L, b, player, king, RowColToCell(r, c), RowColToCell(lr, lc));
    assert m.cells[|here| - 1] == RowColToCell(r, c) by {
      assert m.cells[..|here|][|here| - 1] == here[|here| - 1];
    }
    assert CaptureStepAt(b, player, king, m.cells, |here| - 1);
  }

  // ---------------------------------------------------------------------------
  // Maximality

  /** The board after lifting the mover and removing, step by step, each captured
      midpoint of the chain `cs`. */
  function ClearMids(b: Cells, cs: seq<int>): Cells
    requires forall i :: 0 <= i < |cs| ==> IsCell(cs[i])
    decreases |cs|
  {
    if |cs| < 2 then b else ClearMids(b[MidCell(cs[0], cs[1]) - 1 := CELL_EMPTY], cs[1..])
  }

  function Last(cs: seq<int>): int
    requires |cs| >= 1
  {
    cs[|cs| - 1]
  }

  /** Every emitted chain is maximal: from its last cell, on the board with the mover
      lifted and the captured pieces removed, no capture is open. */
  lemma {:induction false} ChainsMaximal(b: Cells, player: Occupant, r: int, c: int, king: bool, path: seq<int>, m: Move)
    requires IsDark(r, c)
    requires forall i :: 0 <= i < |path| ==> IsCell(path[i])
    requires m in Chains(b, player, r, c, king, path)
    ensures m.Jump? && |m.cells| > |path|
    ensures m.cells[..|path|] == path && m.cells[|path|] == RowColToCell(r, c)
    ensures forall i :: 0 <= i < |m.cells| ==> IsCell(m.cells[i])
    ensures !AnyCapture(ClearMids(Lift(b, r, c), m.cells[|path|..]), player,
                        CellToRow(Last(m.cells)), CellToCol(Last(m.cells)), king)
    decreases Occupied(b), 2
  {
    ChainsShape(b, player, r, c, king, path, m);
    var leaf, mr, mc, lr, lc := ChainsCase(b, player, r, c, king, path, m);
    if leaf {
      LeafMaximal(b, player, r, c, king, path);
    } else {
      InnerMaximal(b, player, r, c, king, path, mr, mc, lr, lc, m);
    }
  }

  /** The case of `ChainsMaximal` where the chain continues in one direction. */
  lemma {:induction false} InnerMaximal(b: Cells, player: Occupant, r: int, c: int, king: bool, path: seq<int>,
                                        mr: int, mc: int, lr: int, lc: int, m: Move)
    requires IsDark(r, c) && Hop(r, c, mr, mc, lr, lc)
    requires forall i :: 0 <= i < |path| ==> IsCell(path[i])
    requires m in Branch(Lift(b, r, c), player, r, c, king, path + [RowColToCell(r, c)], mr, mc, lr, lc)
    ensures m.Jump? && |m.cells| > |path| + 1
    ensures forall i :: 0 <= i < |m.cells| ==> IsCell(m.cells[i])
    ensures !AnyCapture(ClearMids(Lift(b, r, c), m.cells[|path|..]), player,
                        CellToRow(Last(m.cells)), CellToCol(Last(m.cells)), king)
    decreases Occupied(b), 1
  {
    var here := path + [RowColToCell(r, c)];
    ExtendPath(path, r, c);
    OccupiedClear(b, Slot(r, c));
    BranchMaximal(Lift(b, r, c), player, r, c, king, here, mr, mc, lr, lc, m);
  }

  /** The path one level deeper in the search names cells only and ends at (r, c). */
  lemma ExtendPath(path: seq<int>, r: int, c: int)
    requires IsDark(r, c) && forall i :: 0 <= i < |path| ==> IsCell(path[i])
    ensures var here := path + [RowColToCell(r, c)];
      && |here| == |path| + 1 && here[|path|] == RowColToCell(r, c)
      && forall i :: 0 <= i < |here| ==> IsCell(here[i])
  {
    DarkSquareCell(r, c);
  }

  /** A chain that ends at (r, c) because no capture is open there is maximal. */
  lemma LeafMaximal(b: Cells, player: Occupant, r: int, c: int, king: bool, path: seq<int>)
    requires IsDark(r, c) && !AnyCapture(Lift(b, r, c), player, r, c, king)
    ensures var cs := path + [RowColToCell(r, c)];
      !AnyCapture(ClearMids(Lift(b, r, c), cs[|path|..]), player, CellToRow(Last(cs)), CellToCol(Last(cs)), king)
  {
    var cell := RowColToCell(r, c);
    LastOfExtension(path, cell);
    DarkSquareCell(r, c);
  }

  lemma {:induction false} BranchMaximal(L: Cells, player: Occupant, r: int, c: int, king: bool, here: seq<int>,
                                         mr: int, mc: int, lr: int, lc: int, m: Move)
    requires IsDark(r, c) && Hop(r, c, mr, mc, lr, lc)
    requires |here| >= 1 && here[|here| - 1] == RowColToCell(r, c)
    requires forall i :: 0 <= i < |here| ==> IsCell(here[i])
    requires m in Branch(L, player, r, c, king, here, mr, mc, lr, lc)
    ensures m.Jump? && |m.cells| > |here|
    ensures forall i :: 0 <= i < |m.cells| ==> IsCell(m.cells[i])
    ensures !AnyCapture(ClearMids(L, m.cells[|here| - 1..]), player,
                        CellToRow(Last(m.cells)), CellToCol(Last(m.cells)), king)
    decreases Occupied(L), 0
  {
    BranchUnfold(L, player, r, c, king, here, mr, mc, lr, lc, m);
    var b' := Put(L, mr, mc, CELL_EMPTY);
    ChainsMaximal(b', player, lr, lc, king, here, m);
    ComposeMaximal(L, b', player, r, c, here, mr, mc, lr, lc, m.cells);
  }

  /** Clearing the midpoints of a chain that starts with the capture over (mr, mc) is
      that capture followed by clearing the rest of the chain. */
  lemma ComposeMaximal(L: Cells, b': Cells, player: Occupant, r: int, c: int, here: seq<int>,
                       mr: int, mc: int, lr: int, lc: int, cs: seq<int>)
    requires IsDark(r, c) && Hop(r, c, mr, mc, lr, lc)
    requires CaptureOpen(L, player, mr, mc, lr, lc)
    requires IsDark(mr, mc) && b' == Put(L, mr, mc, CELL_EMPTY)
    requires |here| >= 1 && here[|here| - 1] == RowColToCell(r, c)
    requires |cs| > |here| && cs[..|here|] == here && cs[|here|] == RowColToCell(lr, lc)
    requires forall i :: 0 <= i < |cs| ==> IsCell(cs[i])
    ensures ClearMids(L, cs[|here| - 1..]) == ClearMids(Lift(b', lr, lc), cs[|here|..])
  {
    CaptureGeometry(L, player, r, c, mr, mc, lr, lc);
    LandingCells(r, c, mr, mc, lr, lc);
    assert Lift(b', lr, lc) == b';
    var rest := cs[|here| - 1..];
    assert rest[0] == RowColToCell(r, c) by {
      assert cs[..|here|][|here| - 1] == here[|here| - 1];
    }
    assert rest[1] == RowColToCell(lr, lc);
    assert rest[1..] == cs[|here|..];
    assert L[MidCell(rest[0], rest[1]) - 1 := CELL_EMPTY] == b';
  }

  // ---------------------------------------------------------------------------
  // Whether the search finds anything

  /** The search from (r, c) emits a chain exactly when a capture was already made
      (`path` is not empty) or a capture is open from (r, c): `tryJump`'s result
      agrees with whether it added moves, at the top level. */
  lemma {:induction false} ChainsNonEmpty(b: Cells, player: Occupant, r: int, c: int, king: bool, path: seq<int>)
    requires IsDark(r, c)
    ensures |Chains(b, player, r, c, king, path)| > 0 <==> |path| > 0 || CanJump(b, player, r, c, king)
    decreases Occupied(b), 1
  {
    var L := Lift(b, r, c);
    OccupiedClear(b, Slot(r, c));
    var here := path + [RowColToCell(r, c)];
    BranchNonEmpty(L, player, r, c, king, here, r + 1, c - 1, r + 2, c - 2);
    BranchNonEmpty(L, player, r, c, king, here, r + 1, c + 1, r + 2, c + 2);
    BranchNonEmpty(L, player, r, c, king, here, r - 1, c - 1, r - 2, c - 2);
    BranchNonEmpty(L, player, r, c, king, here, r - 1, c + 1, r - 2, c + 2);
  }

  /** One direction of the search emits a chain exactly when its capture is open. */
  lemma {:induction false} BranchNonEmpty(L: Cells, player: Occupant, r: int, c: int, king: bool, here: seq<int>,
                                          mr: int, mc: int, lr: int, lc: int)
    requires IsDark(r, c) && Hop(r, c, mr, mc, lr, lc) && |here| > 0
    ensures |Branch(L, player, r, c, king, here, mr, mc, lr, lc)| > 0 <==> CaptureOpen(L, player, mr, mc, lr, lc)
    decreases Occupied(L), 0
  {
    if CaptureOpen(L, player, mr, mc, lr, lc) {
      CaptureGeometry(L, player, r, c, mr, mc, lr, lc);
      OccupiedClear(L, Slot(mr, mc));
      ChainsNonEmpty(Put(L, mr, mc, CELL_EMPTY), player, lr, lc, king, here);
    }
  }

  // ---------------------------------------------------------------------------
  // The search finds exactly the legal chains

  predicate AllCells(cs: seq<int>)
  {
    forall i :: 0 <= i < |cs| ==> IsCell(cs[i])
  }

  /** A capture from cell `from` to cell `to` on the board S as it stands: two rows in
      a direction the piece may use and two columns across, a piece of the other
      player on the cell in between, and the landing cell EMPTY. */
  predicate OpenStep(S: Cells, player: Occupant, king: bool, from: int, to: int)
  {
    && JumpShape(from, to)
    && (CellToRow(to) - CellToRow(from) == 2 ==> MayGoDown(player, king))
    && (CellToRow(to) - CellToRow(from) == -2 ==> MayGoUp(player, king))
    && At(S, MidCell(from, to)) & Toggle(player) != 0
    && At(S, to) == CELL_EMPTY
  }

  /** The chain `cs` played from its first cell on the board S, from which the moving
      piece has been lifted: each step is an open capture on the board the earlier
      steps have left, each step removes the piece it captures, and at the last cell
      no capture is open. */
  predicate ChainFrom(S: Cells, player: Occupant, king: bool, cs: seq<int>)
    requires |cs| >= 1 && AllCells(cs)
    decreases |cs|
  {
    if |cs| == 1 then !AnyCapture(S, player, CellToRow(cs[0]), CellToCol(cs[0]), king)
    else
      && OpenStep(S, player, king, cs[0], cs[1])
      && ChainFrom(S[MidCell(cs[0], cs[1]) - 1 := CELL_EMPTY], player, king, cs[1..])
  }

  /** A legal capture sequence for `player` on b: at least one capture, from a piece of
      the player, played as `ChainFrom` with that piece lifted off the board. A man
      keeps moving as a man for the rest of the chain. */
  predicate LegalChain(b: Cells, player: Occupant, m: Move)
  {
    && m.Jump? && |m.cells| >= 2 && AllCells(m.cells)
    && Own(b, player, m.cells[0])
    && ChainFrom(b[m.cells[0] - 1 := CELL_EMPTY], player, IsKing(b, m.cells[0]), m.cells)
  }

  /** The chain m extends `path` by `cell` and continues legally from `cell` on S. */
  predicate ExtendsLegally(S: Cells, player: Occupant, king: bool, path: seq<int>, cell: int, m: Move)
  {
    && m.Jump? && |m.cells| >= 2 && |m.cells| > |path| && AllCells(m.cells)
    && m.cells[..|path|] == path && m.cells[|path|] == cell
    && ChainFrom(S, player, king, m.cells[|path|..])
  }

  /** The chain m extends `here`, its next cell is the square (lr, lc), and it continues
      legally on S from the last cell of `here`. */
  predicate ContinuesOver(S: Cells, player: Occupant, king: bool, here: seq<int>, lr: int, lc: int, m: Move)
  {
    && |here| >= 1 && m.Jump? && |m.cells| > |here| && AllCells(m.cells) && m.cells[..|here|] == here
    && CellToRow(m.cells[|here|]) == lr && CellToCol(m.cells[|here|]) == lc
    && ChainFrom(S, player, king, m.cells[|here| - 1..])
  }

  lemma {:induction false} ChainFromStep(S: Cells, player: Occupant, king: bool, cs: seq<int>)
    requires |cs| >= 2 && AllCells(cs)
    ensures AllCells(cs[1..])
    ensures ChainFrom(S, player, king, cs) ==
      (OpenStep(S, player, king, cs[0], cs[1])
       && ChainFrom(S[MidCell(cs[0], cs[1]) - 1 := CELL_EMPTY], player, king, cs[1..]))
  {
  }

  /** The jumped square and the landing square of a capture step from (r, c). */
  lemma HopOfStep(r: int, c: int, to: int) returns (mr: int, mc: int, lr: int, lc: int)
    requires IsDark(r, c) && JumpShape(RowColToCell(r, c), to)
    ensures Hop(r, c, mr, mc, lr, lc) && CellToRow(to) == lr && CellToCol(to) == lc
  {
    DarkSquareCell(r, c);
    lr, lc := CellToRow(to), CellToCol(to);
    mr, mc := (r + lr) / 2, (c + lc) / 2;
  }

  /** An open capture in an allowed direction is an open step, and the search's board
      after it is the board with the captured piece removed. */
  lemma OpenStepOfCapture(L: Cells, player: Occupant, r: int, c: int, king: bool, mr: int, mc: int, lr: int, lc: int)
    requires IsDark(r, c) && Hop(r, c, mr, mc, lr, lc) && DirectionAllowed(player, king, r, mr)
    requires CaptureOpen(L, player, mr, mc, lr, lc)
    ensures IsDark(mr, mc) && IsDark(lr, lc)
    ensures var from, to := RowColToCell(r, c), RowColToCell(lr, lc);
      && IsCell(from) && IsCell(to)
      && CellToRow(to) == lr && CellToCol(to) == lc
      && OpenStep(L, player, king, from, to)
      && L[MidCell(from, to) - 1 := CELL_EMPTY] == Put(L, mr, mc, CELL_EMPTY)
      && Lift(Put(L, mr, mc, CELL_EMPTY), lr, lc) == Put(L, mr, mc, CELL_EMPTY)
  {
    CaptureGeometry(L, player, r, c, mr, mc, lr, lc);
    OpenCaptureIsStep(L, player, r, c, king, mr, mc, lr, lc);
    LandingCells(r, c, mr, mc, lr, lc);
    DarkSquareCell(lr, lc);
  }

  /** An open step from (r, c) onto the cell at (lr, lc) is the capture over (mr, mc),
      open and in an allowed direction. */
  lemma CaptureOfOpenStep(L: Cells, player: Occupant, r: int, c: int, king: bool,
                          mr: int, mc: int, lr: int, lc: int, to: int)
    requires IsDark(r, c) && Hop(r, c, mr, mc, lr, lc)
    requires IsCell(to) && CellToRow(to) == lr && CellToCol(to) == lc
    ensures OpenStep(L, player, king, RowColToCell(r, c), to) ==>
      && DirectionAllowed(player, king, r, mr)
      && CaptureOpen(L, player, mr, mc, lr, lc)
  {
    CellCoordinates(to);
    DarkSquareCell(r, c);
    DiagonalBetween(r, c, mr, mc, lr, lc);
    LandingMid(r, c, mr, mc, lr, lc);
  }

  /** A chain of the branch of an allowed direction is one of the search's chains. */
  lemma BranchInChains(b: Cells, player: Occupant, r: int, c: int, king: bool, path: seq<int>,
                       mr: int, mc: int, lr: int, lc: int, m: Move)
    requires IsDark(r, c) && Hop(r, c, mr, mc, lr, lc) && DirectionAllowed(player, king, r, mr)
    requires m in Branch(Lift(b, r, c), player, r, c, king, path + [RowColToCell(r, c)], mr, mc, lr, lc)
    ensures m in Chains(b, player, r, c, king, path)
  {
  }

  /** The search from (r, c) emits exactly the chains that extend `path` through (r, c)
      into a legal continuation on the board where the piece has been lifted: the full
      capture tree is explored, and nothing else is emitted. */
  lemma {:induction false} ChainsExactly(b: Cells, player: Occupant, r: int, c: int, king: bool, path: seq<int>, m: Move)
    requires IsDark(r, c) && AllCells(path)
    ensures m in Chains(b, player, r, c, king, path) <==> ExtendsLegally(Lift(b, r, c), player, king, path, RowColToCell(r, c), m)
    decreases Occupied(b), 2
  {
    if m in Chains(b, player, r, c, king, path) {
      ChainsToLegal(b, player, r, c, king, path, m);
    }
    if ExtendsLegally(Lift(b, r, c), player, king, path, RowColToCell(r, c), m) {
      LegalToChains(b, player, r, c, king, path, m);
    }
  }

  /** Every chain the search emits is a legal continuation. */
  lemma {:induction false} ChainsToLegal(b: Cells, player: Occupant, r: int, c: int, king: bool, path: seq<int>, m: Move)
    requires IsDark(r, c) && AllCells(path)
    requires m in Chains(b, player, r, c, king, path)
    ensures ExtendsLegally(Lift(b, r, c), player, king, path, RowColToCell(r, c), m)
    decreases Occupied(b), 1
  {
    var cell := RowColToCell(r, c);
    ExtendPath(path, r, c);
    OccupiedClear(b, Slot(r, c));
    var leaf, mr, mc, lr, lc := ChainsCase(b, player, r, c, king, path, m);
    if leaf {
      LeafChain(Lift(b, r, c), player, r, c, king, path);
    } else {
      BranchExactly(Lift(b, r, c), player, r, c, king, path + [cell], mr, mc, lr, lc, m);
      PrefixOf(m.cells, path, cell);
    }
  }

  /** Every legal continuation is emitted by the search. */
  lemma {:induction false} LegalToChains(b: Cells, player: Occupant, r: int, c: int, king: bool, path: seq<int>, m: Move)
    requires IsDark(r, c) && AllCells(path)
    requires ExtendsLegally(Lift(b, r, c), player, king, path, RowColToCell(r, c), m)
    ensures m in Chains(b, player, r, c, king, path)
    decreases Occupied(b), 1
  {
    var cell := RowColToCell(r, c);
    var here := path + [cell];
    var L := Lift(b, r, c);
    ExtendPath(path, r, c);
    OccupiedClear(b, Slot(r, c));
    var tail := m.cells[|path|..];
    assert m.cells[..|path| + 1] == here;
    if |tail| == 1 {
      assert m.cells == here;
      LeafChain(L, player, r, c, king, path);
    } else {
      ChainFromStep(L, player, king, tail);
      var mr, mc, lr, lc := HopOfStep(r, c, tail[1]);
      CaptureOfOpenStep(L, player, r, c, king, mr, mc, lr, lc, tail[1]);
      BranchExactly(L, player, r, c, king, here, mr, mc, lr, lc, m);
      BranchInChains(b, player, r, c, king, path, mr, mc, lr, lc, m);
    }
  }

  /** The chain that ends at (r, c), read through `ChainFrom`. */
  lemma {:induction false} LeafChain(L: Cells, player: Occupant, r: int, c: int, king: bool, path: seq<int>)
    requires IsDark(r, c) && AllCells(path)
    ensures var here := path + [RowColToCell(r, c)];
      && AllCells(here) && here[|path|..] == [RowColToCell(r, c)]
      && (ChainFrom(L, player, king, here[|path|..]) <==> !AnyCapture(L, player, r, c, king))
  {
    ExtendPath(path, r, c);
    LastOfExtension(path, RowColToCell(r, c));
    DarkSquareCell(r, c);
  }

  /** One direction of the search emits exactly the chains whose next cell is the
      landing square (lr, lc) and whose continuation from (r, c) is legal. */
  lemma {:induction false} BranchExactly(L: Cells, player: Occupant, r: int, c: int, king: bool, here: seq<int>,
                                         mr: int, mc: int, lr: int, lc: int, m: Move)
    requires IsDark(r, c) && Hop(r, c, mr, mc, lr, lc) && DirectionAllowed(player, king, r, mr)
    requires |here| >= 1 && here[|here| - 1] == RowColToCell(r, c) && AllCells(here)
    ensures m in Branch(L, player, r, c, king, here, mr, mc, lr, lc) <==> ContinuesOver(L, player, king, here, lr, lc, m)
    decreases Occupied(L), 0
  {
    if CaptureOpen(L, player, mr, mc, lr, lc) {
      CaptureGeometry(L, player, r, c, mr, mc, lr, lc);
      OccupiedClear(L, Slot(mr, mc));
      var L' := Put(L, mr, mc, CELL_EMPTY);
      assert Branch(L, player, r, c, king, here, mr, mc, lr, lc) == Chains(L', player, lr, lc, king, here);
      ChainsExactly(L', player, lr, lc, king, here, m);
      OpenBranchChains(L, L', player, r, c, king, here, mr, mc, lr, lc, m);
    } else {
      ClosedBranchChains(L, player, r, c, king, here, mr, mc, lr, lc, m);
    }
  }

  /** The first cells of a chain that extends `here`. */
  lemma ChainPrefix(here: seq<int>, cs: seq<int>, x: int)
    requires |here| >= 1 && here[|here| - 1] == x
    requires |cs| > |here| && cs[..|here|] == here
    ensures cs[|here| - 1..][0] == x && cs[|here| - 1..][1] == cs[|here|]
    ensures cs[|here| - 1..][1..] == cs[|here|..]
  {
    assert cs[..|here|][|here| - 1] == here[|here| - 1];
  }

  /** With the capture over (mr, mc) open, a legal continuation through the landing
      square, read from (r, c), is the capture followed by a legal continuation from
      the landing square on the board without the captured piece. */
  lemma OpenBranchChains(L: Cells, L': Cells, player: Occupant, r: int, c: int, king: bool, here: seq<int>,
                         mr: int, mc: int, lr: int, lc: int, m: Move)
    requires IsDark(r, c) && Hop(r, c, mr, mc, lr, lc) && DirectionAllowed(player, king, r, mr)
    requires CaptureOpen(L, player, mr, mc, lr, lc) && IsDark(mr, mc) && IsDark(lr, lc)
    requires L' == Put(L, mr, mc, CELL_EMPTY)
    requires |here| >= 1 && here[|here| - 1] == RowColToCell(r, c) && AllCells(here)
    ensures ExtendsLegally(Lift(L', lr, lc), player, king, here, RowColToCell(lr, lc), m)
      <==> ContinuesOver(L, player, king, here, lr, lc, m)
  {
    OpenStepOfCapture(L, player, r, c, king, mr, mc, lr, lc);
    OpenStepChains(L, L', player, king, here, RowColToCell(r, c), RowColToCell(lr, lc), lr, lc, m);
  }

  /** The same on cells: after an open step from `from` to `to`, a legal continuation
      from `to` on the board without the captured piece is a legal continuation from
      `from` whose next cell is `to`. */
  lemma OpenStepChains(L: Cells, L': Cells, player: Occupant, king: bool, here: seq<int>,
                       from: int, to: int, lr: int, lc: int, m: Move)
    requires IsCell(from) && IsCell(to) && CellToRow(to) == lr && CellToCol(to) == lc
    requires OpenStep(L, player, king, from, to) && L' == L[MidCell(from, to) - 1 := CELL_EMPTY]
    requires |here| >= 1 && here[|here| - 1] == from && AllCells(here)
    ensures ExtendsLegally(L', player, king, here, to, m) <==> ContinuesOver(L, player, king, here, lr, lc, m)
  {
    if m.Jump? && |m.cells| > |here| && AllCells(m.cells) && m.cells[..|here|] == here {
      var x := m.cells[|here|];
      ChainPrefix(here, m.cells, from);
      SameLanding(x, to, lr, lc);
      if x == to {
        ChainFromHead(L, L', player, king, m.cells[|here| - 1..], from, to, m.cells[|here|..]);
      }
    }
  }

  /** `ChainFrom` unfolded once, with the first two cells, the rest and the next board
      named. */
  lemma {:induction false} ChainFromHead(S: Cells, S': Cells, player: Occupant, king: bool, cs: seq<int>, a: int, b: int, rest: seq<int>)
    requires |cs| >= 2 && AllCells(cs) && cs[0] == a && cs[1] == b && cs[1..] == rest
    requires S' == S[MidCell(a, b) - 1 := CELL_EMPTY]
    ensures |rest| >= 1 && AllCells(rest)
    ensures ChainFrom(S, player, king, cs) == (OpenStep(S, player, king, a, b) && ChainFrom(S', player, king, rest))
  {
    ChainFromStep(S, player, king, cs);
  }

  /** A cell is the landing cell exactly when it has the landing square's coordinates. */
  lemma SameLanding(x: int, to: int, lr: int, lc: int)
    requires IsCell(x) && IsCell(to) && CellToRow(to) == lr && CellToCol(to) == lc
    ensures x == to <==> CellToRow(x) == lr && CellToCol(x) == lc
  {
    CellCoordinates(x);
    CellCoordinates(to);
  }

  /** With the capture over (mr, mc) closed, no chain continues through its landing
      square. */
  lemma ClosedBranchChains(L: Cells, player: Occupant, r: int, c: int, king: bool, here: seq<int>,
                           mr: int, mc: int, lr: int, lc: int, m: Move)
    requires IsDark(r, c) && Hop(r, c, mr, mc, lr, lc)
    requires !CaptureOpen(L, player, mr, mc, lr, lc)
    requires |here| >= 1 && here[|here| - 1] == RowColToCell(r, c) && AllCells(here)
    ensures !ContinuesOver(L, player, king, here, lr, lc, m)
  {
    if m.Jump? && |m.cells| > |here| && AllCells(m.cells) && m.cells[..|here|] == here {
      var cs := m.cells[|here| - 1..];
      ChainPrefix(here, m.cells, RowColToCell(r, c));
      ChainFromStep(L, player, king, cs);
      if CellToRow(cs[1]) == lr && CellToCol(cs[1]) == lc {
        CaptureOfOpenStep(L, player, r, c, king, mr, mc, lr, lc, cs[1]);
      }
    }
  }

  // ---------------------------------------------------------------------------
  // findPossibleMoves

  /** `0 != (get(cell) & mNextPlayer)`: the cell holds a piece of the player to move. */
  predicate Own(b: Cells, player: Occupant, cell: int)
    requires IsCell(cell)
  {
    At(b, cell) & player != 0
  }

  /** `0 != (get(cell) & CELL_KING)`. */
  predicate IsKing(b: Cells, cell: int)
    requires IsCell(cell)
  {
    At(b, cell) & CELL_KING != 0
  }

  /** The chains the search emits for the piece on `cell`. */
  function JumpsFrom(b: Cells, player: Occupant, cell: int): seq<Move>
    requires IsCell(cell)
  {
    CellCoordinates(cell);
    Chains(b, player, CellToRow(cell), CellToCol(cell), IsKing(b, cell), [])
  }

  /** `tryJump`'s result for the piece on `cell`. */
  predicate JumpsAt(b: Cells, player: Occupant, cell: int)
    requires IsCell(cell)
  {
    CellCoordinates(cell);
    CanJump(b, player, CellToRow(cell), CellToCol(cell), IsKing(b, cell))
  }

  /** The moves collected by the first loop, over cells 1..n in order. */
  function JumpScan(b: Cells, player: Occupant, n: nat): seq<Move>
    requires n <= SQUARES
  {
    if n == 0 then []
    else JumpScan(b, player, n - 1) + (if Own(b, player, n) then JumpsFrom(b, player, n) else [])
  }

  /** `lFound` after cells 1..n. */
  predicate AnyJump(b: Cells, player: Occupant, n: nat)
    requires n <= SQUARES
  {
    n > 0 && (AnyJump(b, player, n - 1) || (Own(b, player, n) && JumpsAt(b, player, n)))
  }

  /** `lPieces[0..lNumPieces)` after cells 1..n. */
  function Pieces(b: Cells, player: Occupant, n: nat): (ps: seq<int>)
    requires n <= SQUARES
    ensures forall i :: 0 <= i < |ps| ==> IsCell(ps[i]) && ps[i] <= n
  {
    if n == 0 then [] else Pieces(b, player, n - 1) + (if Own(b, player, n) then [n] else [])
  }

  /** `tryMove` in one direction: a move to the neighbouring square (tr, tc) when it
      is EMPTY. */
  function StepTo(b: Cells, cell: int, tr: int, tc: int): seq<Move>
  {
    if Get(b, tr, tc) == CELL_EMPTY then [Normal(cell, RowColToCell(tr, tc))] else []
  }

  /** `tryMove`: the one-square moves of the piece on `cell`, in the source's order. */
  function StepMoves(b: Cells, player: Occupant, cell: int, king: bool): seq<Move>
  {
    var r, c := CellToRow(cell), CellToCol(cell);
    (if MayGoDown(player, king) then StepTo(b, cell, r + 1, c - 1) + StepTo(b, cell, r + 1, c + 1) else [])
    + (if MayGoUp(player, king) then StepTo(b, cell, r - 1, c - 1) + StepTo(b, cell, r - 1, c + 1) else [])
  }

  /** The moves collected by the second loop over the pieces `ps`. */
  function SimpleOver(b: Cells, player: Occupant, ps: seq<int>): seq<Move>
    requires forall i :: 0 <= i < |ps| ==> IsCell(ps[i])
  {
    if ps == [] then []
    else SimpleOver(b, player, ps[..|ps| - 1]) + StepMoves(b, player, Last(ps), IsKing(b, Last(ps)))
  }

  /** The moves `findPossibleMoves` turns into successor states: none after the end of
      the game, a draw once the counter has run out, the jumps when there is any (a
      capture is mandatory), otherwise the simple moves, and a loss for the player to
      move when that leaves nothing. */
  function Generate(p: Position): seq<Move>
  {
    if p.last.IsEOG() then []
    else if p.untilDraw <= 0 then [Draw]
    else
      var b, player := p.board, p.next;
      var moves := JumpScan(b, player, SQUARES)
        + (if AnyJump(b, player, SQUARES) then [] else SimpleOver(b, player, Pieces(b, player, SQUARES)));
      if moves == [] then [Resign(player)] else moves
  }

  // ---------------------------------------------------------------------------
  // What the scan finds

  /** The chains found for one piece are exactly the legal capture sequences that
      start on that piece. */
  lemma JumpsFromExactly(b: Cells, player: Occupant, cell: int, m: Move)
    requires IsCell(cell) && Own(b, player, cell)
    ensures m in JumpsFrom(b, player, cell) <==> LegalChain(b, player, m) && m.cells[0] == cell
  {
    CellCoordinates(cell);
    var r, c := CellToRow(cell), CellToCol(cell);
    ChainsExactly(b, player, r, c, IsKing(b, cell), [], m);
    assert Lift(b, r, c) == b[cell - 1 := CELL_EMPTY];
    StartsLegally(b, player, cell, m);
  }

  /** A legal continuation of the empty path from a piece, with that piece lifted, is
      a legal capture sequence starting on that piece. */
  lemma StartsLegally(b: Cells, player: Occupant, cell: int, m: Move)
    requires IsCell(cell) && Own(b, player, cell)
    ensures ExtendsLegally(b[cell - 1 := CELL_EMPTY], player, IsKing(b, cell), [], cell, m)
      <==> LegalChain(b, player, m) && m.cells[0] == cell
  {
    if m.Jump? {
      assert m.cells[0..] == m.cells;
    }
  }

  /** The search finds some chain for the piece exactly when `tryJump` reports one. */
  lemma JumpsFromNonEmpty(b: Cells, player: Occupant, cell: int)
    requires IsCell(cell)
    ensures |JumpsFrom(b, player, cell)| > 0 <==> JumpsAt(b, player, cell)
  {
    CellCoordinates(cell);
    ChainsNonEmpty(b, player, CellToRow(cell), CellToCol(cell), IsKing(b, cell), []);
  }

  /** The first loop collects moves exactly when `lFound` is set. */
  lemma {:induction false} JumpScanEmpty(b: Cells, player: Occupant, n: nat)
    requires n <= SQUARES
    ensures |JumpScan(b, player, n)| == 0 <==> !AnyJump(b, player, n)
  {
    if n > 0 {
      JumpScanEmpty(b, player, n - 1);
      JumpsFromNonEmpty(b, player, n);
    }
  }

  /** The first loop collects exactly the legal capture sequences that start on one
      of the cells 1..n. */
  lemma {:induction false} JumpScanExactly(b: Cells, player: Occupant, n: nat, m: Move)
    requires n <= SQUARES
    ensures m in JumpScan(b, player, n) <==> LegalChain(b, player, m) && m.cells[0] <= n
  {
    if n > 0 {
      JumpScanExactly(b, player, n - 1, m);
      if Own(b, player, n) {
        JumpsFromExactly(b, player, n, m);
      }
    }
  }

  /** The pieces list holds exactly the cells 1..n with a piece of the player. */
  lemma {:induction false} PiecesExactly(b: Cells, player: Occupant, n: nat, x: int)
    requires n <= SQUARES
    ensures x in Pieces(b, player, n) <==> 1 <= x <= n && Own(b, player, x)
  {
    if n > 0 {
      PiecesExactly(b, player, n - 1, x);
    }
  }

  /** The pieces list is in increasing cell order. */
  lemma {:induction false} PiecesAscending(b: Cells, player: Occupant, n: nat)
    requires n <= SQUARES
    ensures forall i, j :: 0 <= i < j < |Pieces(b, player, n)| ==> Pieces(b, player, n)[i] < Pieces(b, player, n)[j]
  {
    if n > 0 {
      PiecesAscending(b, player, n - 1);
    }
  }

  // ---------------------------------------------------------------------------
  // Simple moves

  /** A one-square diagonal step from `from` to `to` in a direction the piece may use. */
  predicate SimpleStep(player: Occupant, king: bool, from: int, to: int)
  {
    && IsCell(from) && IsCell(to)
    && (CellToCol(to) - CellToCol(from) == 1 || CellToCol(to) - CellToCol(from) == -1)
    && (|| (CellToRow(to) - CellToRow(from) == 1 && MayGoDown(player, king))
        || (CellToRow(to) - CellToRow(from) == -1 && MayGoUp(player, king)))
  }

  /** `tryMove` offers exactly the steps to an EMPTY diagonal neighbour in an allowed
      direction. */
  lemma StepMovesExactly(b: Cells, player: Occupant, cell: int, king: bool, m: Move)
    requires IsCell(cell)
    ensures m in StepMoves(b, player, cell, king) <==>
      m.Normal? && m.from == cell && SimpleStep(player, king, cell, m.to) && At(b, m.to) == CELL_EMPTY
  {
    if m in StepMoves(b, player, cell, king) {
      StepMovesSound(b, player, cell, king, m);
    }
    if m.Normal? && m.from == cell && SimpleStep(player, king, cell, m.to) && At(b, m.to) == CELL_EMPTY {
      StepMovesComplete(b, player, cell, king, m.to);
    }
  }

  lemma StepMovesSound(b: Cells, player: Occupant, cell: int, king: bool, m: Move)
    requires IsCell(cell)
    requires m in StepMoves(b, player, cell, king)
    ensures m.Normal? && m.from == cell && SimpleStep(player, king, cell, m.to) && At(b, m.to) == CELL_EMPTY
  {
    CellCoordinates(cell);
    var r, c := CellToRow(cell), CellToCol(cell);
    var tr, tc := StepOf(b, player, cell, king, r, c, m);
    StepHit(b, cell, tr, tc);
    LandingRows(r, c, tr, tc);
  }

  lemma StepMovesComplete(b: Cells, player: Occupant, cell: int, king: bool, to: int)
    requires IsCell(cell)
    requires SimpleStep(player, king, cell, to) && At(b, to) == CELL_EMPTY
    ensures Normal(cell, to) in StepMoves(b, player, cell, king)
  {
    CellCoordinates(to);
    StepToward(b, player, cell, king, CellToRow(cell), CellToCol(cell), CellToRow(to), CellToCol(to));
  }

  /** A step to an EMPTY neighbour (tr, tc) in an allowed direction is offered. */
  lemma StepToward(b: Cells, player: Occupant, cell: int, king: bool, r: int, c: int, tr: int, tc: int)
    requires r == CellToRow(cell) && c == CellToCol(cell)
    requires (tr == r + 1 && MayGoDown(player, king)) || (tr == r - 1 && MayGoUp(player, king))
    requires tc == c + 1 || tc == c - 1
    requires IsDark(tr, tc) && Get(b, tr, tc) == CELL_EMPTY
    ensures Normal(cell, RowColToCell(tr, tc)) in StepMoves(b, player, cell, king)
  {
    StepHit(b, cell, tr, tc);
    if tr == r + 1 && tc == c - 1 {
      assert StepTo(b, cell, r + 1, c - 1) == StepTo(b, cell, tr, tc);
    } else if tr == r + 1 && tc == c + 1 {
      assert StepTo(b, cell, r + 1, c + 1) == StepTo(b, cell, tr, tc);
    } else if tr == r - 1 && tc == c - 1 {
      assert StepTo(b, cell, r - 1, c - 1) == StepTo(b, cell, tr, tc);
    } else {
      assert StepTo(b, cell, r - 1, c + 1) == StepTo(b, cell, tr, tc);
    }
  }

  /** The move to (tr, tc), when that square is EMPTY; nothing otherwise. */
  lemma StepHit(b: Cells, cell: int, tr: int, tc: int)
    ensures Get(b, tr, tc) == CELL_EMPTY ==> IsDark(tr, tc) && StepTo(b, cell, tr, tc) == [Normal(cell, RowColToCell(tr, tc))]
    ensures Get(b, tr, tc) != CELL_EMPTY ==> StepTo(b, cell, tr, tc) == []
  {
  }

  /** Every move of `tryMove` starts on the piece's cell. */
  lemma StepMovesFrom(b: Cells, player: Occupant, cell: int, king: bool, m: Move)
    requires m in StepMoves(b, player, cell, king)
    ensures m.Normal? && m.from == cell
  {
    var tr, tc := StepOf(b, player, cell, king, CellToRow(cell), CellToCol(cell), m);
    StepHit(b, cell, tr, tc);
  }

  /** Which of the four directions of `tryMove` produced a move. */
  lemma StepOf(b: Cells, player: Occupant, cell: int, king: bool, r: int, c: int, m: Move) returns (tr: int, tc: int)
    requires r == CellToRow(cell) && c == CellToCol(cell)
    requires m in StepMoves(b, player, cell, king)
    ensures (tr == r + 1 || tr == r - 1) && (tc == c + 1 || tc == c - 1)
    ensures DirectionAllowed(player, king, r, tr)
    ensures m in StepTo(b, cell, tr, tc)
  {
    if MayGoDown(player, king) && m in StepTo(b, cell, r + 1, c - 1) {
      tr, tc := r + 1, c - 1;
    } else if MayGoDown(player, king) && m in StepTo(b, cell, r + 1, c + 1) {
      tr, tc := r + 1, c + 1;
    } else if MayGoUp(player, king) && m in StepTo(b, cell, r - 1, c - 1) {
      tr, tc := r - 1, c - 1;
    } else {
      tr, tc := r - 1, c + 1;
    }
  }

  /** A legal simple move for `player`: one of the player's pieces steps to an EMPTY
      diagonal neighbour in a direction it may use. */
  predicate SimpleLegal(b: Cells, player: Occupant, m: Move)
  {
    && m.Normal? && IsCell(m.from) && Own(b, player, m.from)
    && SimpleStep(player, IsKing(b, m.from), m.from, m.to) && At(b, m.to) == CELL_EMPTY
  }

  /** The second loop's moves are the one-square moves of the listed pieces. */
  lemma {:induction false} SimpleOverMember(b: Cells, player: Occupant, ps: seq<int>, m: Move)
    requires forall i :: 0 <= i < |ps| ==> IsCell(ps[i])
    ensures m in SimpleOver(b, player, ps) <==>
      m.Normal? && IsCell(m.from) && m.from in ps && m in StepMoves(b, player, m.from, IsKing(b, m.from))
  {
    if ps != [] {
      var init, last := ps[..|ps| - 1], Last(ps);
      SimpleOverMember(b, player, init, m);
      var steps := StepMoves(b, player, last, IsKing(b, last));
      assert ps == init + [last];
      assert SimpleOver(b, player, ps) == SimpleOver(b, player, init) + steps;
      if m in steps {
        StepMovesFrom(b, player, last, IsKing(b, last), m);
      }
      if m.Normal? && m.from == last {
        assert StepMoves(b, player, m.from, IsKing(b, m.from)) == steps;
      }
    }
  }

  /** With the pieces scanned over the whole board, the second loop produces exactly
      the legal simple moves. */
  lemma SimpleMovesExactly(b: Cells, player: Occupant, m: Move)
    ensures m in SimpleOver(b, player, Pieces(b, player, SQUARES)) <==> SimpleLegal(b, player, m)
  {
    SimpleOverMember(b, player, Pieces(b, player, SQUARES), m);
    if m.Normal? && IsCell(m.from) {
      PiecesExactly(b, player, SQUARES, m.from);
      StepMovesExactly(b, player, m.from, IsKing(b, m.from), m);
    }
  }

  /** The loss a player declares when no move is found. */
  function Resign(player: Occupant): Move
  {
    if player == CELL_WHITE then RedWins else WhiteWins
  }

  /** Capture is mandatory: when any piece of the player can jump, the moves are
      exactly the legal capture sequences of the player, and there is at least one. */
  lemma GenerateWithCapture(p: Position)
    requires !p.last.IsEOG() && p.untilDraw > 0
    requires AnyJump(p.board, p.next, SQUARES)
    ensures Generate(p) == JumpScan(p.board, p.next, SQUARES)
    ensures |Generate(p)| > 0
    ensures forall m :: m in Generate(p) <==> LegalChain(p.board, p.next, m)
  {
    JumpScanEmpty(p.board, p.next, SQUARES);
    forall m
      ensures m in Generate(p) <==> LegalChain(p.board, p.next, m)
    {
      JumpScanExactly(p.board, p.next, SQUARES, m);
    }
  }

  /** Without a capture the moves are exactly the legal simple moves; when there is
      none, the only move is the loss of the player to move. */
  lemma GenerateWithoutCapture(p: Position, m: Move)
    requires !p.last.IsEOG() && p.untilDraw > 0
    requires !AnyJump(p.board, p.next, SQUARES)
    ensures m.Normal? ==> (m in Generate(p) <==> SimpleLegal(p.board, p.next, m))
    ensures m in Generate(p) ==> m.Normal? || m == Resign(p.next)
    ensures Resign(p.next) in Generate(p) ==> Generate(p) == [Resign(p.next)] && !SimpleLegal(p.board, p.next, m)
  {
    var b, player := p.board, p.next;
    JumpScanEmpty(b, player, SQUARES);
    var simple := SimpleOver(b, player, Pieces(b, player, SQUARES));
    assert Generate(p) == if simple == [] then [Resign(player)] else simple;
    SimpleMovesExactly(b, player, m);
    SimpleMovesExactly(b, player, Resign(player));
    forall m' | m' in simple
      ensures m'.Normal?
    {
      SimpleMovesExactly(b, player, m');
    }
  }

  /** Every generated move can be given to `doMove`. */
  lemma GenerateApplicable(p: Position)
    ensures forall i :: 0 <= i < |Generate(p)| ==> Applicable(Generate(p)[i])
  {
    var b, player := p.board, p.next;
    if !p.last.IsEOG() && p.untilDraw > 0 {
      forall i | 0 <= i < |Generate(p)|
        ensures Applicable(Generate(p)[i])
      {
        GeneratedApplicable(p, Generate(p)[i]);
      }
    }
  }

  /** One generated move, when the game goes on and the counter has not run out. */
  lemma GeneratedApplicable(p: Position, m: Move)
    requires !p.last.IsEOG() && p.untilDraw > 0 && m in Generate(p)
    ensures Applicable(m)
  {
    var b, player := p.board, p.next;
    if AnyJump(b, player, SQUARES) {
      JumpScanEmpty(b, player, SQUARES);
      JumpScanExactly(b, player, SQUARES, m);
    } else {
      GenerateWithoutCapture(p, m);
      if m.Normal? {
        assert SimpleLegal(b, player, m);
      }
    }
  }

  /** The successor states `findPossibleMoves` builds, one per generated move. */
  function Successors(p: Position): (qs: seq<Position>)
    ensures |qs| == |Generate(p)|
    ensures forall i :: 0 <= i < |qs| ==> qs[i].last == Generate(p)[i] && qs[i].next == Toggle(p.next)
  {
    GenerateApplicable(p);
    var ms := Generate(p);
    seq(|ms|, i requires 0 <= i < |ms| => Apply(p, ms[i]))
  }

  /** After the end of the game there is no successor; once the draw counter has run
      out the only successor is the drawn game, with the board and counter unchanged;
      otherwise there is at least one successor. */
  lemma SuccessorsAtEnd(p: Position)
    ensures p.last.IsEOG() ==> Successors(p) == []
    ensures !p.last.IsEOG() && p.untilDraw <= 0 ==>
      Successors(p) == [Position(p.board, Toggle(p.next), p.untilDraw, Draw)]
    ensures !p.last.IsEOG() ==> |Successors(p)| >= 1
  {
    if !p.last.IsEOG() && p.untilDraw <= 0 {
      assert Generate(p) == [Draw];
      assert Successors(p)[0] == Apply(p, Draw);
    }
  }

  // ---------------------------------------------------------------------------
  // The opening position

  /** No red man of the opening position can capture: every square in front of it
      holds a red man, is EMPTY or is INVALID. */
  lemma OpeningCellNoJump(b: Cells, n: int)
    requires OpeningBoard(b) && 1 <= n <= PLAYER_PIECES
    ensures !JumpsAt(b, CELL_RED, n)
  {
    CellCoordinates(n);
    var r, c := CellToRow(n), CellToCol(n);
    assert !IsKing(b, n) by {
      assert At(b, n) == CELL_RED;
    }
    var L := Lift(b, r, c);
    assert r <= 2;
    OpeningFront(b, L, r, c, r + 1, c - 1, r + 2, c - 2);
    OpeningFront(b, L, r, c, r + 1, c + 1, r + 2, c + 2);
    ForwardOnly(L, CELL_RED, r, c, false);
  }

  /** A man of RED has only the two forward captures to consider. */
  lemma ForwardOnly(L: Cells, player: Occupant, r: int, c: int, king: bool)
    requires player == CELL_RED && !king
    requires !CaptureOpen(L, player, r + 1, c - 1, r + 2, c - 2)
    requires !CaptureOpen(L, player, r + 1, c + 1, r + 2, c + 2)
    ensures !AnyCapture(L, player, r, c, king)
  {
  }

  /** The square (mr, mc) diagonally in front of a red man of the opening holds no
      white piece, even with the man lifted. */
  lemma OpeningFront(b: Cells, L: Cells, r: int, c: int, mr: int, mc: int, lr: int, lc: int)
    requires OpeningBoard(b) && 0 <= r <= 2 && IsDark(r, c)
    requires L == Lift(b, r, c)
    requires mr == r + 1 && (mc == c - 1 || mc == c + 1)
    ensures !CaptureOpen(L, CELL_RED, mr, mc, lr, lc)
  {
    var v := Get(L, mr, mc);
    if IsDark(mr, mc) {
      var i := Slot(mr, mc);
      assert v == L[i];
      assert i < 16;
      assert v == CELL_RED || v == CELL_EMPTY;
    } else {
      assert v == CELL_INVALID;
    }
  }

  lemma {:induction false} OpeningNoJump(b: Cells, n: nat)
    requires OpeningBoard(b) && n <= SQUARES
    ensures !AnyJump(b, CELL_RED, n)
  {
    if n > 0 {
      OpeningNoJump(b, n - 1);
      if n <= PLAYER_PIECES {
        OpeningCellNoJump(b, n);
      }
    }
  }

  /** The cells 1..n in increasing order. */
  function UpTo(n: nat): (cs: seq<int>)
    ensures |cs| == n && forall i :: 0 <= i < n ==> cs[i] == i + 1
  {
    if n == 0 then [] else UpTo(n - 1) + [n]
  }

  /** The red pieces of the opening position are those on cells 1..12. */
  lemma {:induction false} OpeningPieces(b: Cells, n: nat)
    requires OpeningBoard(b) && n <= SQUARES
    ensures Pieces(b, CELL_RED, n) == UpTo(if n < PLAYER_PIECES then n else PLAYER_PIECES)
  {
    if n > 0 {
      OpeningPieces(b, n - 1);
    }
  }

  /** From the opening position RED has exactly the seven simple moves of its front
      row, in this order. */
  lemma OpeningMoves()
    ensures Generate(Initial()) ==
      [Normal(9, 13), Normal(9, 14), Normal(10, 14), Normal(10, 15), Normal(11, 15), Normal(11, 16), Normal(12, 16)]
  {
    OpeningMovesOf(Initial());
  }

  lemma OpeningMovesOf(p: Position)
    requires OpeningBoard(p.board) && p.next == CELL_RED && p.untilDraw > 0 && !p.last.IsEOG()
    ensures Generate(p) ==
      [Normal(9, 13), Normal(9, 14), Normal(10, 14), Normal(10, 15), Normal(11, 15), Normal(11, 16), Normal(12, 16)]
  {
    var b := p.board;
    OpeningNoJump(b, SQUARES);
    JumpScanEmpty(b, CELL_RED, SQUARES);
    OpeningPieces(b, SQUARES);
    OpeningSimpleUpTo(b, PLAYER_PIECES);
    OpeningListValue();
  }

  /** The squares of the opening position, stated slot by slot. */
  predicate OpeningBoard(b: Cells)
  {
    forall i :: 0 <= i < SQUARES ==> b[i] == Initial().board[i]
  }

  /** The moves of the front row, written out. */
  lemma OpeningListValue()
    ensures OpeningList(PLAYER_PIECES) ==
      [Normal(9, 13), Normal(9, 14), Normal(10, 14), Normal(10, 15), Normal(11, 15), Normal(11, 16), Normal(12, 16)]
  {
  }

  /** The simple moves of the red man on front-row cell k of the opening position:
      straight ahead to k + 4 and, except at the right edge, to k + 5. */
  function FrontMoves(k: int): seq<Move>
  {
    if k == 12 then [Normal(12, 16)] else [Normal(k, k + 4), Normal(k, k + 5)]
  }

  /** The moves of the second loop after the red men on cells 1..k. */
  function OpeningList(k: nat): seq<Move>
  {
    if k <= 8 then [] else OpeningList(k - 1) + FrontMoves(k)
  }

  lemma {:induction false} OpeningSimpleUpTo(b: Cells, k: nat)
    requires OpeningBoard(b) && k <= PLAYER_PIECES
    ensures SimpleOver(b, CELL_RED, UpTo(k)) == OpeningList(k)
  {
    if k > 0 {
      OpeningSimpleUpTo(b, k - 1);
      assert UpTo(k)[..k - 1] == UpTo(k - 1);
      if k <= 8 {
        OpeningBlocked(b, k);
      } else {
        OpeningFrontCell(b, k);
      }
    }
  }

  /** A red man on the front row moves to the EMPTY squares of row 3 before it. */
  lemma OpeningFrontCell(b: Cells, x: int)
    requires OpeningBoard(b) && 9 <= x <= 12
    ensures !IsKing(b, x)
    ensures StepMoves(b, CELL_RED, x, false) == FrontMoves(x)
  {
    assert At(b, x) == CELL_RED;
    var c := 2 * (x - 9) + 1;
    assert CellToRow(x) == 2 && CellToCol(x) == c;
    assert Get(b, 3, c - 1) == CELL_EMPTY by {
      assert Slot(3, c - 1) == x + 3;
    }
    if x < 12 {
      assert Get(b, 3, c + 1) == CELL_EMPTY by {
        assert Slot(3, c + 1) == x + 4;
      }
    } else {
      assert Get(b, 3, c + 1) == CELL_INVALID;
    }
  }

  /** The men on cells 1..8 have no simple move: their front squares are occupied. */
  lemma OpeningBlocked(b: Cells, k: int)
    requires OpeningBoard(b) && 1 <= k <= 8
    ensures !IsKing(b, k)
    ensures StepMoves(b, CELL_RED, k, false) == []
  {
    assert At(b, k) == CELL_RED;
    CellCoordinates(k);
    var r, c := CellToRow(k), CellToCol(k);
    assert r <= 1;
    OpeningOccupiedFront(b, r, c, -1);
    OpeningOccupiedFront(b, r, c, 1);
  }

  lemma OpeningOccupiedFront(b: Cells, r: int, c: int, dc: int)
    requires OpeningBoard(b) && 0 <= r <= 1
    ensures Get(b, r + 1, c + dc) != CELL_EMPTY
  {
    if IsDark(r + 1, c + dc) {
      assert Slot(r + 1, c + dc) < 12;
    }
  }
}
