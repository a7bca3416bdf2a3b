/** The move value exchanged by the engine, with a token encoding of its own.
    The source's Move class is not part of this model; the variant below follows
    the kinds GameState.java constructs and queries (MOVE_BOG, MOVE_DRAW, MOVE_RW,
    MOVE_WW, a simple move from one cell to another, a jump through a cell chain). */
module Moves {
  import opened Board
  import opened Text

  datatype Option<T> = None | Some(value: T)

  datatype Move =
    | BeginOfGame
    | Draw
    | RedWins
    | WhiteWins
    | Normal(from: int, to: int)
    | Jump(cells: seq<int>)
  {
    /** End of game: a draw or a win for either side. */
    predicate IsEOG()
    {
      Draw? || RedWins? || WhiteWins?
    }

    /** Every cell the move names is one of the 32 cells. */
    predicate InRange()
    {
      match this
      case Normal(a, b) => IsCell(a) && IsCell(b)
      case Jump(cs) => forall i :: 0 <= i < |cs| ==> IsCell(cs[i])
      case _ => true
    }
  }

  // ---------------------------------------------------------------------------
  // Token encoding: fields joined by '-': a tag, then the cells in decimal.
  //   BeginOfGame "BOG", Draw "DRAW", RedWins "RW", WhiteWins "WW",
  //   Normal(9, 13) "N-9-13", Jump([9, 18, 27]) "J-9-18-27".

  const SEPARATOR := '-'

  function CellFields(cs: seq<int>): (fs: seq<string>)
    requires forall i :: 0 <= i < |cs| ==> cs[i] >= 0
    ensures |fs| == |cs|
    ensures forall i :: 0 <= i < |fs| ==> |fs[i]| >= 1 && AllDigits(fs[i])
  {
    if cs == [] then [] else [NatToString(cs[0])] + CellFields(cs[1..])
  }

  function ParseCells(fs: seq<string>): (cs: seq<int>)
    requires forall i :: 0 <= i < |fs| ==> AllDigits(fs[i])
    ensures |cs| == |fs|
  {
    if fs == [] then [] else [ParseNat(fs[0]) as int] + ParseCells(fs[1..])
  }

  lemma {:induction false} ParseCellFields(cs: seq<int>)
    requires forall i :: 0 <= i < |cs| ==> cs[i] >= 0
    ensures ParseCells(CellFields(cs)) == cs
  {
    if cs != [] {
      NatRoundTrip(cs[0]);
      ParseCellFields(cs[1..]);
      assert CellFields(cs)[1..] == CellFields(cs[1..]);
      assert cs == [cs[0]] + cs[1..];
    }
  }

  function Fields(m: Move): (fs: seq<string>)
    requires m.InRange()
    ensures |fs| >= 1
  {
    match m
    case BeginOfGame => ["BOG"]
    case Draw => ["DRAW"]
    case RedWins => ["RW"]
    case WhiteWins => ["WW"]
    case Normal(a, b) => ["N", NatToString(a), NatToString(b)]
    case Jump(cs) => ["J"] + CellFields(cs)
  }

  /** The move field of a message. */
  function Encode(m: Move): (t: string)
    requires m.InRange()
  {
    Join(Fields(m), SEPARATOR)
  }

  predicate DigitFields(fs: seq<string>)
  {
    forall i :: 0 <= i < |fs| ==> |fs[i]| >= 1 && AllDigits(fs[i])
  }

  /** Reads a move field back; None for a token that is not an encoding. */
  function Decode(t: string): Option<Move>
  {
    FromFields(Split(t, SEPARATOR))
  }

  function FromFields(fs: seq<string>): Option<Move>
    requires |fs| >= 1
  {
    var tag, args := fs[0], fs[1..];
    if tag == "BOG" && args == [] then Some(BeginOfGame)
    else if tag == "DRAW" && args == [] then Some(Draw)
    else if tag == "RW" && args == [] then Some(RedWins)
    else if tag == "WW" && args == [] then Some(WhiteWins)
    else if tag == "N" && |args| == 2 && DigitFields(args) then
      Some(Normal(ParseNat(args[0]), ParseNat(args[1])))
    else if tag == "J" && DigitFields(args) then Some(Jump(ParseCells(args)))
    else None
  }

  lemma DigitsFree(s: string)
    requires AllDigits(s)
    ensures Free(s, SEPARATOR)
    ensures forall i :: 0 <= i < |s| ==> !IsDelimiter(s[i])
  {
  }

  /** The encoding is a single whitespace-free token. */
  lemma EncodeIsWord(m: Move)
    requires m.InRange()
    ensures IsWord(Encode(m))
  {
    var fs := Fields(m);
    forall i | 0 <= i < |fs|
      ensures IsWord(fs[i])
    {
      if i > 0 {
        DigitsFree(fs[i]);
      }
    }
    JoinOfWords(fs);
  }

  lemma {:induction false} JoinOfWords(fs: seq<string>)
    requires |fs| >= 1
    requires forall i :: 0 <= i < |fs| ==> IsWord(fs[i])
    ensures IsWord(Join(fs, SEPARATOR))
  {
    if |fs| > 1 {
      JoinOfWords(fs[1..]);
      var s := Join(fs, SEPARATOR);
      assert s == fs[0] + [SEPARATOR] + Join(fs[1..], SEPARATOR);
      forall i | 0 <= i < |s|
        ensures !IsDelimiter(s[i])
      {
        if i < |fs[0]| {
          assert s[i] == fs[0][i];
        } else if i > |fs[0]| {
          assert s[i] == Join(fs[1..], SEPARATOR)[i - |fs[0]| - 1];
        }
      }
    }
  }

  /** Decoding an encoded move gives the move back. */
  lemma MoveRoundTrip(m: Move)
    requires m.InRange()
    ensures Decode(Encode(m)) == Some(m)
  {
    var fs := Fields(m);
    forall i | 0 <= i < |fs|
      ensures Free(fs[i], SEPARATOR)
    {
      if i > 0 {
        DigitsFree(fs[i]);
      }
    }
    SplitJoin(fs, SEPARATOR);
    FieldsRoundTrip(m);
  }

  lemma FieldsRoundTrip(m: Move)
    requires m.InRange()
    ensures FromFields(Fields(m)) == Some(m)
  {
    var fs := Fields(m);
    match m
    case Normal(a, b) =>
      assert fs[0] == "N" && fs[1..] == [NatToString(a), NatToString(b)];
      NatRoundTrip(a);
      NatRoundTrip(b);
    case Jump(cs) =>
      assert fs[0] == "J" && fs[1..] == CellFields(cs);
      ParseCellFields(cs);
    case _ =>
  }

  // ---------------------------------------------------------------------------

  /** The same move seen from the other side of the board: cell i becomes 33 - i. */
  function Mirror(m: Move): (m': Move)
    requires m.InRange()
    ensures m'.InRange()
  {
    match m
    case Normal(a, b) => Normal(SQUARES + 1 - a, SQUARES + 1 - b)
    case Jump(cs) => Jump(seq(|cs|, i requires 0 <= i < |cs| => SQUARES + 1 - cs[i]))
    case _ => m
  }

  lemma MirrorInvolution(m: Move)
    requires m.InRange()
    ensures Mirror(Mirror(m)) == m
  {
    if m.Jump? {
      assert Mirror(Mirror(m)).cells == m.cells;
    }
  }
}
