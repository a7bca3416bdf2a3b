/** The message form of a game state (GameState.java `toMessage` and the string
    constructor): the 32 board symbols, the move token, the player symbol and the
    draw counter, separated by single spaces. */
module Codec {
  import opened Constants
  import opened Board
  import opened Text
  import opened Moves
  import opened Positions

  /** Every code indexes the symbol table. */
  predicate Printable(b: seq<Occupant>)
  {
    forall i :: 0 <= i < |b| ==> b[i] as int < |MESSAGE_SYMBOLS|
  }

  /** The board symbols, slot by slot, as the first loop of `toMessage` appends them. */
  function BoardText(b: seq<Occupant>): (s: string)
    requires Printable(b)
    ensures |s| == |b|
    ensures forall i :: 0 <= i < |b| ==> s[i] == SymbolOf(b[i])
  {
    if b == [] then [] else BoardText(b[..|b| - 1]) + [SymbolOf(b[|b| - 1])]
  }

  /** What `toMessage` needs of a state: codes the symbol table covers, RED or WHITE to
      move (the assertion before the move information) and a move whose cells are
      cells 1..32, so that it has a token. */
  predicate Encodable(p: Position)
  {
    Printable(p.board) && (p.next == CELL_RED || p.next == CELL_WHITE) && p.last.InRange()
  }

  /** `toMessage`. */
  function Message(p: Position): string
    requires Encodable(p)
  {
    BoardText(p.board) + " " + Encode(p.last) + " " + [SymbolOf(p.next)] + " " + IntToString(p.untilDraw)
  }

  /** What the string constructor demands of its message: four tokens (a missing one
      makes the tokenizer throw), 32 board symbols and a one-character player token
      (both asserted), a counter `Integer.parseInt` accepts and that lies in 0..255
      (asserted), and a move token the move parser reads. Tokens after the fourth are
      never read. */
  predicate Parsable(msg: string)
  {
    var ts := Tokens(msg);
    && |ts| >= 4
    && |ts[0]| == SQUARES
    && |ts[2]| == 1
    && IsIntegerText(ts[3]) && 0 <= ParseInt(ts[3]) < 256
    && Decode(ts[1]).Some?
  }

  /** The board loop of the string constructor: each symbol goes through the chain of
      comparisons, an unknown one leaving the square EMPTY. */
  function ReadBoard(t: string): (b: Cells)
    requires |t| == SQUARES
  {
    seq(SQUARES, i requires 0 <= i < SQUARES => OccupantOf(t[i]))
  }

  /** The string constructor. */
  function Parse(msg: string): (p: Position)
    requires Parsable(msg)
  {
    var ts := Tokens(msg);
    Position(ReadBoard(ts[0]), OccupantOf(ts[2][0]), ParseInt(ts[3]), Decode(ts[1]).value)
  }

  /** A parsed board holds only storable codes, so it can be printed again. */
  lemma ReadBoardStorable(t: string)
    requires |t| == SQUARES
    ensures AllStorable(ReadBoard(t)) && Printable(ReadBoard(t))
    ensures forall i :: 0 <= i < SQUARES && IsStorableSymbol(t[i]) ==> SymbolOf(ReadBoard(t)[i]) == t[i]
    ensures forall i :: 0 <= i < SQUARES && !IsStorableSymbol(t[i]) ==> ReadBoard(t)[i] == CELL_EMPTY
  {
    forall i | 0 <= i < SQUARES
      ensures Storable(ReadBoard(t)[i])
    {
      assert ReadBoard(t)[i] == OccupantOf(t[i]);
    }
    forall i | 0 <= i < SQUARES
      ensures ReadBoard(t)[i] as int < |MESSAGE_SYMBOLS|
    {
      TablesCoverQueries(ReadBoard(t)[i]);
    }
  }

  /** Reading the symbols of a storable board gives the board back. */
  lemma BoardRoundTrip(b: Cells)
    requires AllStorable(b)
    ensures Printable(b)
    ensures ReadBoard(BoardText(b)) == b
  {
    forall i | 0 <= i < SQUARES
      ensures b[i] as int < |MESSAGE_SYMBOLS|
    {
      TablesCoverQueries(b[i]);
    }
    var t := BoardText(b);
    forall i | 0 <= i < SQUARES
      ensures ReadBoard(t)[i] == b[i]
    {
      SymbolRoundTrip(b[i]);
    }
  }

  /** A printed board is one token: the symbol table holds no whitespace. */
  lemma BoardTextIsWord(b: Cells)
    requires Printable(b)
    ensures IsWord(BoardText(b))
  {
    var t := BoardText(b);
    forall i | 0 <= i < |t|
      ensures !IsDelimiter(t[i])
    {
      assert t[i] == MESSAGE_SYMBOLS[b[i] as int];
    }
  }

  /** A printed number is one token. */
  lemma IntTextIsWord(n: int)
    ensures IsWord(IntToString(n))
  {
    var s := IntToString(n);
    if n < 0 {
      var d := NatToString(-n);
      assert s == "-" + d;
      forall i | 0 <= i < |s|
        ensures !IsDelimiter(s[i])
      {
        if i > 0 {
          assert s[i] == d[i - 1];
        }
      }
    }
  }

  /** The message is its four fields joined by single spaces. */
  lemma MessageFields(p: Position)
    requires Encodable(p)
    ensures Message(p) == Join([BoardText(p.board), Encode(p.last), [SymbolOf(p.next)], IntToString(p.untilDraw)], ' ')
  {
    JoinFour(BoardText(p.board), Encode(p.last), [SymbolOf(p.next)], IntToString(p.untilDraw), ' ');
  }

  /** Parsing the message of a state gives the state back: the board, the move, the
      player and the counter. */
  lemma MessageRoundTrip(p: Position)
    requires Encodable(p) && AllStorable(p.board) && 0 <= p.untilDraw < 256
    ensures Parsable(Message(p))
    ensures Parse(Message(p)) == p
  {
    var fs := [BoardText(p.board), Encode(p.last), [SymbolOf(p.next)], IntToString(p.untilDraw)];
    MessageFields(p);
    BoardTextIsWord(p.board);
    EncodeIsWord(p.last);
    IntTextIsWord(p.untilDraw);
    assert IsWord(fs[2]) by {
      assert Storable(p.next);
    }
    TokensOfJoin(fs);
    assert Tokens(Message(p)) == fs;
    BoardRoundTrip(p.board);
    MoveRoundTrip(p.last);
    IntRoundTrip(p.untilDraw);
    SymbolRoundTrip(p.next);
  }

  /** The re-encoding check of the process loop: the message of a parsed state parses
      to the same state, so re-encoding it once more reproduces it exactly. */
  lemma ReencodingIsStable(msg: string)
    requires Parsable(msg) && Encodable(Parse(msg))
    ensures Parsable(Message(Parse(msg)))
    ensures Parse(Message(Parse(msg))) == Parse(msg)
    ensures Message(Parse(Message(Parse(msg)))) == Message(Parse(msg))
  {
    ReadBoardStorable(Tokens(msg)[0]);
    MessageRoundTrip(Parse(msg));
  }

  /** Every message the encoder prints passes the check of the process loop: parsing
      it and printing the result again gives the same text. */
  lemma MessagePassesCheck(p: Position)
    requires Encodable(p) && AllStorable(p.board) && 0 <= p.untilDraw < 256
    ensures Parsable(Message(p)) && Encodable(Parse(Message(p)))
    ensures Message(Parse(Message(p))) == Message(p)
  {
    MessageRoundTrip(p);
  }

  /** The check of the process loop, that a received message equals the message of
      the state parsed from it, holds exactly for the messages the encoder prints. */
  lemma ReencodingCheck(msg: string)
    requires Parsable(msg) && Encodable(Parse(msg))
    ensures Message(Parse(msg)) == msg <==>
      exists p :: Encodable(p) && AllStorable(p.board) && 0 <= p.untilDraw < 256 && Message(p) == msg
  {
    ReadBoardStorable(Tokens(msg)[0]);
    if exists p :: Encodable(p) && AllStorable(p.board) && 0 <= p.untilDraw < 256 && Message(p) == msg {
      var p :| Encodable(p) && AllStorable(p.board) && 0 <= p.untilDraw < 256 && Message(p) == msg;
      MessagePassesCheck(p);
    }
  }
}
