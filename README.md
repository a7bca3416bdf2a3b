# Checkers rules engine: a Dafny model of `GameState`

This project models the English-draughts rules engine of the checkers bot
(`GameState.java`, with the cell codes and symbol tables of `Constants.java`) and
proves what that engine promises.

The engine keeps four things:
- a 32-slot board array `mCell`, whose slot `cell - 1` holds the contents of the dark square `cell`;
- the draw counter;
- the player to move;
- the last move.

The model is organised like this:

- **Constants** (`constants.dfy`) holds the cell flags as `bv8` bit sets, so `&`, `|` and `^`
  are exact. It also holds the message and diagram symbol tables, and the facts the
  codec and the colour swap rely on.
- **Board** (`board.dfy`) is cell addressing: `cellToRow`, `cellToCol` and `rowColToCell`. Java's
  `>>` and power-of-two `&` are floor division and non-negative remainder. With a
  positive divisor, Dafny's `/` and `%` are exactly these. The bounds-checked query
  `get(r, c)` is a function on a board value.
- **Positions** (`positions.dfy`) is the value semantics of a state: the opening position,
  `doMove` as `Apply`, and the 180-degree reversal.
- **Generation** (`generation.dfy`) is the value semantics of move generation:
  - `Chains`/`Branch` are the depth-first capture search of `tryJump`;
  - `StepMoves` is `tryMove`;
  - `Generate` and `Successors` are `findPossibleMoves`.

  The file also holds the lemmas on what the search finds: every chain is legal and
  maximal, capture is mandatory, and the simple moves are exactly the legal steps.
  It also works out the seven opening moves.
- **Text**, **Moves** and **Codec** (`text.dfy`, `moves.dfy`, `codec.dfy`) hold:
  - the message format: 32 board symbols, a move token, the player symbol and the counter;
  - whitespace tokenizing as `StringTokenizer` does it;
  - decimal numbers;
  - a token encoding for moves;
  - the round trip of the message.
- **GameStates** (`gamestate.dfy`) is the mutable object. It is a class with the array `cells`
  and the three fields. It has the constructors, `set`, `doMove`, the backtracking
  `tryJump` (it changes the board in place and restores it), `tryMove`,
  `findPossibleMoves`, `toMessage` and `reversed`. Each is an imperative method
  proved against the value semantics.

The search methods take the board they start from as a ghost parameter. Their
contracts say that they leave the array exactly as they found it, and that they
append `Chains(..)` of that board.

The source's `Move` class is not part of this model. `Moves.Move` follows the kinds of
move that `GameState.java` builds and queries. Its token encoding is this model's own:
`BOG`, `DRAW`, `RW`, `WW`, `N-a-b`, `J-a-b-...`.

## Model

| member | source | states |
|---|---|---|
| Constants.FlagsAreDistinctBits | Constants.java:9-13 | EMPTY is 0 and RED, WHITE, KING, INVALID are four pairwise-disjoint single bits |
| Constants.SymbolOf | Constants.java:51-61 | the symbol of a code is one of `. r w R W` exactly when the code is one of the five storable codes |
| Constants.OccupantOf | GameState.java:100-124 | the decoder's chain of comparisons yields a storable code; it inverts the symbol table on the five storable symbols and yields EMPTY for any other character |
| Constants.SymbolRoundTrip | Constants.java:51-61 | decoding the symbol of a storable code gives the code back |
| Constants.SymbolsInjective | Constants.java:51-61 | two storable codes with the same symbol are equal |
| Constants.UnusedSymbolsAreDistinct | Constants.java:55-60 | the INVALID symbol and the unused entries differ from every storable symbol |
| Constants.ColourSwap | Constants.java:10-12 | XOR with RED\|WHITE swaps RED and WHITE, and swaps the two kings, keeps the KING bit, is an involution and keeps non-empty storable codes storable |
| Constants.TablesCoverQueries | Constants.java:15-25 | every code `get(r, c)` can return, a storable code or INVALID, indexes both the diagram table and the symbol table |
| Board.CellToRow | GameState.java:284-286 | `(cell - 1) >> 2` as floor division; its properties are proved in `Board.CellCoordinates` and `Board.DarkSquareCell` |
| Board.CellToCol | GameState.java:292-299 | `((cell - 1) & 3) << 1`, plus one on even rows; its properties are proved in `Board.CellCoordinates` and `Board.DarkSquareCell` |
| Board.RowColToCell | GameState.java:313-315 | `r*4 + (c>>1) + 1`; `Board.CellCoordinates`, `Board.DarkSquareCell` and `Board.CellsDistinct` prove it is a bijection between dark squares and cells 1..32, inverse to the two conversions above |
| Board.At | GameState.java:227-231 | `get(cell)` reads slot `cell - 1`; it is defined only for cells 1..32, which the source asserts |
| Board.CellCoordinates | GameState.java:284-315 | every cell 1..32 lies on a dark square: row and column in 0..7 with different parity; `rowColToCell` of its coordinates is the cell |
| Board.DarkSquareCell | GameState.java:284-315 | every dark square is a cell 1..32 whose row and column convert back to the square |
| Board.CellsDistinct | GameState.java:313-315 | distinct dark squares have distinct cells |
| Board.Get | GameState.java:257-267 | INVALID off the board and on light squares; otherwise the contents of the square's cell |
| Board.GetInvalidExactly | GameState.java:257-267 | on a board of storable codes, `get(r, c)` is INVALID exactly for off-board and light squares |
| Board.Put | GameState.java:272-277 | writing a dark square changes that square and no other slot |
| Board.PutBack | GameState.java:349-353 | writing back the saved value undoes a write to a square |
| Positions.Toggle | GameState.java:586 | XOR with RED\|WHITE hands the turn from RED to WHITE and back, and is its own inverse |
| Positions.Initial | GameState.java:57-75 | the opening position; `GameStates.GameState.Init` builds it, and `Generation.OpeningMoves` proves its seven moves |
| Positions.Promote | GameState.java:537-545 | a RED piece on row 7 or a WHITE piece on row 0 gains KING, and in every other case the code is unchanged; colour bits are kept; storable codes stay storable |
| Positions.Slide | GameState.java:533-545 | after a step the destination holds the promoted mover, the source is EMPTY and no other square changes |
| Positions.JumpStepEffect | GameState.java:527-556 | after a jump step the mover, promoted if due, stands on the landing cell; the source and the jumped midpoint are EMPTY; no other square changes |
| Positions.JumpStep | GameState.java:529-555 | one round of the jump loop: the slide, then the removal of the jumped piece; its effect is stated by `Positions.JumpStepEffect` |
| Positions.RunJump | GameState.java:523-556 | the jump loop over steps 1..n-1 of the chain, in order; `Positions.ApplyKeepsStorable` and `GameStates.GameState.DoMove` rest on it |
| Positions.MidCell | GameState.java:548-551 | the jumped square of two cells is again a cell 1..32; `Positions.MidCellBetween` places it strictly between them |
| Positions.MidCellBetween | GameState.java:548-551 | the midpoint `((sr+dr)>>1, (sc+dc)>>1)` of a jump-shaped step lies strictly between its two cells |
| Positions.Apply | GameState.java:519-588 | every move becomes the last move and toggles the player; a jump resets the counter to 50; a simple move decrements it; a sentinel leaves board and counter unchanged |
| Positions.ApplyKeepsStorable | GameState.java:519-588 | applying a move keeps every square one of the five storable codes |
| Positions.ReverseInvolution | GameState.java:185-207 | the intended reversal is an involution on board, player and last move |
| Positions.Reverse | GameState.java:185-207 | the intended reversal of a whole state; `Positions.ReverseInvolution` proves it is an involution |
| Positions.ReverseBoard | GameState.java:188-197 | the intended board of `reversed()`; `Positions.ReverseBoardSwapsSides` and `Positions.ReverseInvolution` state its meaning |
| Positions.ReverseBoardSwapsSides | GameState.java:190-197 | under the intended reversal, slot i holds a white man exactly when slot 31-i held a red man, and the reverse |
| Positions.SwapColours | GameState.java:191-196 | the swap keeps EMPTY EMPTY and keeps storable codes storable and non-empty |
| Positions.SwapTwice | GameState.java:191-196 | swapping twice gives back a storable code |
| Positions.ReverseShared | GameState.java:188-197 | the loop of `reversed()` as written, over one shared array; `Positions.ReverseSharedSteps`, `Positions.ReverseSharedResult` and `Positions.LoneManVanishes` state what it computes |
| Positions.ReverseSharedSteps | GameState.java:188-197 | for the aliased loop, after n steps the first min(n, 16) slots hold the swapped mirror and every other slot holds its old content |
| Positions.ReverseSharedResult | GameState.java:188-197 | the aliased loop matches the reversal on slots 0..15 and leaves slots 16..31 as they were |
| Positions.LoneManVanishes | GameState.java:188-197 | counterexample: from one red man on cell 1, the reversal gives a white man on cell 32, and the aliased loop empties the board |
| Generation.OccupiedClear | GameState.java:349-383 | clearing an occupied slot lowers the count of occupied slots by one; this is why the search terminates |
| Generation.CaptureGeometry | GameState.java:348-383 | an open capture jumps a non-empty dark square onto an EMPTY dark square, in three distinct slots |
| Generation.Chains | GameState.java:333-397 | the capture search of `tryJump`; `Generation.ChainsExactly`, `Generation.ChainsShape`, `Generation.ChainsMaximal` and `Generation.ChainsNonEmpty` state what it emits |
| Generation.Branch | GameState.java:344-383 | one direction block of `tryJump`; `Generation.BranchExactly` states what it emits |
| Generation.ChainsShape | GameState.java:333-395 | every emitted chain extends the path through (r, c) and names cells only, and each of its steps is a capture step: two rows in an allowed direction, two columns across, an opposing piece on the midpoint |
| Generation.ChainsMaximal | GameState.java:389-395 | every emitted chain is maximal: with the mover lifted and the captured pieces removed, no capture is open from its last cell |
| Generation.ChainsNonEmpty | GameState.java:341-396 | the search emits a chain exactly when a capture was already made or some capture is open |
| Generation.ChainsExactly | GameState.java:333-397 | the search from a square emits a chain exactly when the chain extends the current path through that square into a legal continuation on the board with the mover lifted. Each step of the continuation (`ChainFrom`) jumps two rows in an allowed direction, over an opposing piece, onto an EMPTY square, and the captured piece is removed before the next step. The continuation ends only where no capture is open. So the whole capture tree is explored and nothing else is emitted |
| Generation.BranchExactly | GameState.java:344-383 | one direction block emits exactly the legal continuations whose next cell is that block's landing square; a closed capture emits nothing |
| Generation.JumpsFromExactly | GameState.java:470 | for a piece of the player, `tryJump` from its square emits a move exactly when the move is a legal capture sequence (`LegalChain`) starting on that piece |
| Generation.JumpsFromNonEmpty | GameState.java:470-472 | `tryJump`'s result for a piece agrees with whether it added chains |
| Generation.JumpScanEmpty | GameState.java:465-476 | the first loop collects moves exactly when `lFound` is set |
| Generation.JumpScanExactly | GameState.java:465-476 | after the cells 1..n, the first loop has collected exactly the legal capture sequences that start on one of those cells |
| Generation.JumpScan | GameState.java:465-476 | the moves of the first loop; `Generation.JumpScanExactly` and `Generation.JumpScanEmpty` state them |
| Generation.Pieces | GameState.java:465-476 | every recorded piece is a cell no greater than the cells scanned so far; `Generation.PiecesExactly` and `Generation.PiecesAscending` give the rest |
| Generation.PiecesExactly | GameState.java:465-476 | `lPieces` holds exactly the cells with a piece of the player to move |
| Generation.PiecesAscending | GameState.java:465 | pieces are scanned in increasing cell order |
| Generation.StepMoves | GameState.java:408-435 | the moves of `tryMove`; `Generation.StepMovesExactly` states them |
| Generation.SimpleOver | GameState.java:478-487 | the moves of the second loop; `Generation.SimpleMovesExactly` states them |
| Generation.Generate | GameState.java:444-510 | the moves of `findPossibleMoves`; `Generation.GenerateWithCapture`, `Generation.GenerateWithoutCapture` and `Generation.GenerateApplicable` state them |
| Generation.StepMovesExactly | GameState.java:408-435 | `tryMove` offers exactly the one-square diagonal steps to an EMPTY square in an allowed direction: forward for men, both ways for kings |
| Generation.SimpleMovesExactly | GameState.java:479-485 | the second loop produces exactly the legal simple moves of the player |
| Generation.GenerateWithCapture | GameState.java:461-487 | when any piece can capture, the moves are the capture chains and there is at least one. A move is generated exactly when it is a legal capture sequence of the player, so no simple move is generated |
| Generation.GenerateWithoutCapture | GameState.java:479-509 | without a capture the normal moves are exactly the legal simple moves; when there is none the only move is the loss of the player to move |
| Generation.GenerateApplicable | GameState.java:489-495 | every generated move can be applied |
| Generation.Successors | GameState.java:489-495 | one successor per generated move; each records its move and hands the turn over |
| Generation.SuccessorsAtEnd | GameState.java:446-459 | no successor after the end of the game; once the counter has run out, exactly one successor, the drawn game; otherwise at least one |
| Generation.OpeningMoves | GameState.java:408-435 | from the opening position RED has exactly the seven simple moves (9,13) (9,14) (10,14) (10,15) (11,15) (11,16) (12,16), in this order |
| Text.NatRoundTrip | GameState.java:92 | `Integer.parseInt` reads back the decimal rendering of a natural number |
| Text.IntRoundTrip | GameState.java:92 | and of any int, with its sign |
| Text.ParseInt | GameState.java:92 | `Integer.parseInt` on an optional sign and ASCII digits; `Text.IntRoundTrip` shows it inverts the decimal rendering |
| Text.SplitJoin | GameState.java:127 | splitting at a separator gives back the pieces that were joined, when no piece contains the separator |
| Text.TokensOfJoin | GameState.java:84-92 | tokenizing words joined by single spaces gives back the words |
| Text.Tokens | GameState.java:84-92 | every token is a non-empty run without a delimiter; `Text.TokensOfJoin` gives back words joined by spaces |
| Moves.MoveRoundTrip | GameState.java:127 | the move token decodes to the move it encodes |
| Moves.EncodeIsWord | GameState.java:694 | a move token is one whitespace-free token |
| Moves.MirrorInvolution | GameState.java:200 | mirroring a move twice gives it back |
| Moves.Encode | GameState.java:694 | the move token of a message; `Moves.MoveRoundTrip` and `Moves.EncodeIsWord` state its meaning |
| Moves.Decode | GameState.java:127 | reads a move token back, `None` for a token that is not an encoding; `Moves.MoveRoundTrip` inverts `Moves.Encode` |
| Moves.Mirror | GameState.java:200 | mirroring keeps every named cell in 1..32; `Moves.MirrorInvolution` proves it undoes itself |
| Codec.BoardText | GameState.java:687-689 | the board text has one character per slot, the symbol of its code |
| Codec.BoardRoundTrip | GameState.java:99-125 | reading the symbols of a storable board gives the board back |
| Codec.ReadBoard | GameState.java:99-125 | the board loop of the string constructor; `Codec.BoardRoundTrip` inverts `Codec.BoardText` with it |
| Codec.Message | GameState.java:682-697 | `toMessage()`: board text, move token, player symbol and counter, joined by spaces; `Codec.MessageRoundTrip` inverts it |
| Codec.Parse | GameState.java:82-158 | the string constructor on the four tokens; `Codec.MessageRoundTrip` and `Codec.ReencodingCheck` state its meaning |
| Codec.MessageRoundTrip | GameState.java:82-158 | for a storable board, RED or WHITE to move and a counter in 0..255, parsing `toMessage()` gives back board, last move, player and counter |
| Codec.ReencodingIsStable | GameState.java:82-158 | re-encoding reaches a fixed point after one step: the message printed for a parsed state parses back to that same state, and printing it again reproduces it |
| Codec.MessagePassesCheck | Main.java:56 | every message `toMessage()` prints for a storable state passes the process loop's check: parsing it and printing again gives the same text |
| Codec.ReencodingCheck | Main.java:56 | for a message that parses, the process loop's check `toMessage().equals(message)` holds exactly when the message is one that `toMessage()` prints for some storable state |
| GameStates.GameState.Init | GameState.java:57-75 | RED men on slots 0..11, WHITE men on 20..31, EMPTY between; RED to move; counter 50; last move BOG |
| GameStates.GameState.FromMessage | GameState.java:82-158 | the object holds the parsed state; unknown board symbols leave squares EMPTY and an unknown player symbol leaves the player EMPTY |
| GameStates.GameState.Successor | GameState.java:167-179 | the new state is `doMove` applied to a fresh copy of the parent's array; the parent and its array are unchanged |
| GameStates.GameState.ShallowCopy | GameState.java:188 | `clone()`: a new object with the same fields, sharing the board array |
| GameStates.GameState.SetCell | GameState.java:236-240 | `set(cell, v)` writes that cell's slot and nothing else |
| GameStates.GameState.SetSquare | GameState.java:272-277 | `set(r, c, v)` writes slot `r*4 + (c>>1)`, which is the square's own slot on a dark square |
| GameStates.GameState.DoMove | GameState.java:519-588 | the object ends up holding `Apply` of its old state and the move, in place, in the same array |
| GameStates.GameState.MovePiece | GameState.java:532-545 | the piece moves, its source is emptied and it is promoted on the far row |
| GameStates.GameState.JumpOnce | GameState.java:527-555 | one jump step: the piece moves and the jumped square is cleared |
| GameStates.GameState.TryJump | GameState.java:333-397 | on return the board is the board on entry; the result is whether a capture was open; the chains appended are `Chains` of the entry board, so each is legal and maximal |
| GameStates.GameState.TryPair | GameState.java:344-362 | both captures of one vertical direction, left then right; the board is restored |
| GameStates.GameState.TryCapture | GameState.java:346-353 | one capture test; when it is open the captured piece is lifted, the search recurses one level deeper, and the piece is put back |
| GameStates.GameState.TryMove | GameState.java:408-435 | appends exactly `StepMoves` of the piece, in the source's order |
| GameStates.GameState.TryStep | GameState.java:414-416 | appends the step to the neighbouring square when it is EMPTY |
| GameStates.GameState.ScanJumps | GameState.java:465-476 | the first loop leaves the board as it was and computes `lFound`, `lPieces` and the capture moves |
| GameStates.GameState.ScanCell | GameState.java:467-475 | one round of the first loop for one cell |
| GameStates.GameState.ScanSimple | GameState.java:479-485 | the second loop appends the simple moves of every recorded piece |
| GameStates.GameState.BuildSuccessors | GameState.java:489-496 | one fresh successor per move, in order, no two sharing a board array |
| GameStates.GameState.FindPossibleMoves | GameState.java:444-510 | the board is left as it was; the states are fresh objects with fresh arrays, one per element of `Successors`, in order, covering end of game, draw, mandatory capture and resignation; no two states share a board array |
| GameStates.GameState.ToMessage | GameState.java:682-697 | the printed string is `Message` of the state |
| GameStates.GameState.ReversedAsWritten | GameState.java:185-207 | the method as written: the result shares this state's array, which ends up as the aliased loop's board |
| GameStates.GameState.Reversed | GameState.java:185-207 | the intended reversal: a fresh state holding the board rotated by 180 degrees with colours swapped, the other player and the mirrored last move |

## Left out

- Main.java, ModMain.java and Deadline.java (the process loops, flag parsing and wall clock) are I/O and are not modelled. The one property the loop checks, that the received message equals `toMessage()` of the state parsed from it, is `Codec.ReencodingCheck` and `Codec.MessagePassesCheck`.
- `toString(int)`, the text diagram, is presentation only and is not modelled. Only the table bound it relies on is proved (`Constants.TablesCoverQueries`).
- The `Move` class is not part of this model. Its text tokens are replaced by the model's own encoding, and `mLastMove.reversed()` is modelled as `Moves.Mirror`: cell i becomes 33 - i.
- GameStates.GameState.FromMessage: the source's `assert`s (32 board symbols, a one-character player token, a counter in 0..255) are preconditions. So are a successful `Integer.parseInt`, at least four tokens and a move token that decodes. Tokens after the fourth are never read.
- The 12-slot buffers `lPieces` and `lMoveBuffer` are sequences. An array overflow, which needs more than 12 own pieces or a chain of 13 cells, is not modelled.
- `pMoves` and `Vector<GameState>` are modelled as sequences: the search returns the extended sequence instead of appending to a shared vector.
- GameStates.GameState.TryJump and GameStates.GameState.TryMove: the four `if` blocks of each are factored into helper methods, `TryPair`/`TryCapture` and `TryStep`. The statements are the same, in the same order.
- GameStates.GameState.FindPossibleMoves: `new GameState((GameState) this.clone(), m)` is modelled as `Successor(this, m)`. The shallow clone there is discarded at once, and the successor constructor copies the array.
- Text.IsIntegerText accepts ASCII digits only; `Integer.parseInt` also accepts other Unicode decimal digits. Strings are sequences of code points, while Java's `length()` counts UTF-16 units, so the 32-symbol board check is modelled on code points.
- The draw counter is an unbounded `int`. Java's 32-bit wrap-around would need 2^31 simple moves without a capture, and it is not modelled.
- `CloneNotSupportedException` handling does nothing and is not modelled.
- During the search the `pKing` flag is passed down unchanged, so a man promoted in mid-chain gains no backward captures within that chain. The model follows the source here.

## Findings

| source | as written | input that shows it | evidently intended | confidence | as-written member | corrected member |
|---|---|---|---|---|---|---|
| GameState.java:188-197 | `reversed()` copies the state with `Object.clone()`. That copy shares the `mCell` array, so the loop reads slots it has already overwritten: slots 16..31 get back their original contents, and the original state's board is overwritten too | one red man on cell 1, every other square EMPTY: the result, and the original, have an empty board | a board of its own holding the 180-degree rotation with colours swapped, with this state untouched | not executed | GameStates.GameState.ReversedAsWritten, Positions.LoneManVanishes | GameStates.GameState.Reversed, Positions.ReverseInvolution |
