/** Cell flag constants and the text tables of the checkers engine (Constants.java). */
module Constants {

  /** The content of a square: a set of bit flags. The source keeps it in a Java
      `int`, but only the low four bits are ever used, so eight bits model it exactly
      and let `&`, `|` and `^` be the bit operations the source applies. */
  type Occupant = bv8

  const CELL_EMPTY: Occupant := 0
  const CELL_RED: Occupant := 1
  const CELL_WHITE: Occupant := 2
  const CELL_KING: Occupant := 4
  const CELL_INVALID: Occupant := 8

  /** Both colour bits: `^ BOTH_COLOURS` hands the turn to the other player. */
  const BOTH_COLOURS: Occupant := CELL_RED | CELL_WHITE

  /** One character per occupant code 0..8, used by the message codec. */
  const MESSAGE_SYMBOLS: seq<char> := ['.', 'r', 'w', '?', '?', 'R', 'W', '?', '_']

  /** Two characters per occupant code 0..8, used by the text diagram. */
  const SIMPLE_TEXT: seq<string> := [". ", "r ", "w ", "? ", "? ", "R ", "W ", "? ", "  "]

  /** The five codes a board square can hold: empty, a man or a king of either colour. */
  predicate Storable(v: Occupant)
  {
    v == CELL_EMPTY || v == CELL_RED || v == CELL_WHITE
    || v == CELL_RED | CELL_KING || v == CELL_WHITE | CELL_KING
  }

  predicate IsStorableSymbol(ch: char)
  {
    ch == '.' || ch == 'r' || ch == 'w' || ch == 'R' || ch == 'W'
  }

  /** The symbol of an occupant code, as the message encoder writes it. */
  function SymbolOf(v: Occupant): (ch: char)
    requires v as int < |MESSAGE_SYMBOLS|
    ensures Storable(v) ==> IsStorableSymbol(ch)
    ensures !Storable(v) ==> !IsStorableSymbol(ch)
  {
    MESSAGE_SYMBOLS[v as int]
  }

  /** The occupant a symbol stands for, as the message decoder reads it: the chain of
      comparisons against the symbols of the five storable codes, and EMPTY (the value
      a fresh Java `int` holds) for any other character. */
  function OccupantOf(ch: char): (v: Occupant)
    ensures Storable(v)
    ensures IsStorableSymbol(ch) ==> SymbolOf(v) == ch
    ensures !IsStorableSymbol(ch) ==> v == CELL_EMPTY
  {
    if ch == MESSAGE_SYMBOLS[CELL_EMPTY as int] then CELL_EMPTY
    else if ch == MESSAGE_SYMBOLS[CELL_RED as int] then CELL_RED
    else if ch == MESSAGE_SYMBOLS[CELL_WHITE as int] then CELL_WHITE
    else if ch == MESSAGE_SYMBOLS[(CELL_RED | CELL_KING) as int] then CELL_RED | CELL_KING
    else if ch == MESSAGE_SYMBOLS[(CELL_WHITE | CELL_KING) as int] then CELL_WHITE | CELL_KING
    else CELL_EMPTY
  }

  /** The flags are EMPTY and four distinct single bits. */
  lemma FlagsAreDistinctBits()
    ensures CELL_EMPTY == 0
    ensures CELL_RED & (CELL_RED - 1) == 0 && CELL_WHITE & (CELL_WHITE - 1) == 0
    ensures CELL_KING & (CELL_KING - 1) == 0 && CELL_INVALID & (CELL_INVALID - 1) == 0
    ensures CELL_RED & CELL_WHITE == 0 && CELL_RED & CELL_KING == 0 && CELL_RED & CELL_INVALID == 0
    ensures CELL_WHITE & CELL_KING == 0 && CELL_WHITE & CELL_INVALID == 0
    ensures CELL_KING & CELL_INVALID == 0
  {
  }

  /** The decoder inverts the encoder on the five storable codes, so the symbol table
      is injective there. */
  lemma SymbolRoundTrip(v: Occupant)
    requires Storable(v)
    ensures OccupantOf(SymbolOf(v)) == v
  {
  }

  lemma SymbolsInjective(a: Occupant, b: Occupant)
    requires Storable(a) && Storable(b)
    requires SymbolOf(a) == SymbolOf(b)
    ensures a == b
  {
    SymbolRoundTrip(a);
    SymbolRoundTrip(b);
  }

  /** The INVALID symbol and the unused entries differ from every storable symbol. */
  lemma UnusedSymbolsAreDistinct(v: Occupant)
    requires Storable(v)
    ensures SymbolOf(v) != SymbolOf(CELL_INVALID)
    ensures SymbolOf(v) != SymbolOf(3) && SymbolOf(v) != SymbolOf(4) && SymbolOf(v) != SymbolOf(7)
  {
  }

  /** XOR with both colour bits swaps RED and WHITE and keeps the KING bit; applied
      twice it gives back the original code. */
  lemma ColourSwap(v: Occupant)
    ensures v == CELL_RED ==> v ^ BOTH_COLOURS == CELL_WHITE
    ensures v == CELL_WHITE ==> v ^ BOTH_COLOURS == CELL_RED
    ensures v == CELL_RED | CELL_KING ==> v ^ BOTH_COLOURS == CELL_WHITE | CELL_KING
    ensures v == CELL_WHITE | CELL_KING ==> v ^ BOTH_COLOURS == CELL_RED | CELL_KING
    ensures (v ^ BOTH_COLOURS) & CELL_KING == v & CELL_KING
    ensures (v ^ BOTH_COLOURS) ^ BOTH_COLOURS == v
    ensures Storable(v) && v != CELL_EMPTY ==> Storable(v ^ BOTH_COLOURS)
  {
  }

  /** Every code a board query can return (a storable code or INVALID) indexes the
      diagram table and the symbol table. */
  lemma TablesCoverQueries(v: Occupant)
    requires Storable(v) || v == CELL_INVALID
    ensures v as int < |SIMPLE_TEXT| && v as int < |MESSAGE_SYMBOLS|
  {
  }
}
