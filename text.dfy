/** Text helpers the codec needs: decimal numbers (Java's `"" + int` and
    `Integer.parseInt`), splitting at a separator, and whitespace tokenizing
    (`java.util.StringTokenizer` with its default delimiters). */
module Text {

  predicate IsDigit(ch: char)
  {
    '0' <= ch <= '9'
  }

  predicate AllDigits(s: string)
  {
    forall i :: 0 <= i < |s| ==> IsDigit(s[i])
  }

  function DigitChar(d: int): (ch: char)
    requires 0 <= d < 10
    ensures IsDigit(ch)
  {
    ['0', '1', '2', '3', '4', '5', '6', '7', '8', '9'][d]
  }

  function DigitValue(ch: char): (d: int)
    requires IsDigit(ch)
    ensures 0 <= d < 10
  {
    (ch as int) - ('0' as int)
  }

  lemma DigitRoundTrip(d: int)
    requires 0 <= d < 10
    ensures DigitValue(DigitChar(d)) == d
  {
  }

  /** The decimal digits of a natural number, most significant first, no leading zero. */
  function NatToString(n: nat): (s: string)
    ensures |s| >= 1 && AllDigits(s)
  {
    if n < 10 then [DigitChar(n)] else NatToString(n / 10) + [DigitChar(n % 10)]
  }

  /** The value of a non-empty string of decimal digits. */
  function ParseNat(s: string): (n: nat)
    requires AllDigits(s)
  {
    if s == [] then 0 else ParseNat(s[..|s| - 1]) * 10 + DigitValue(s[|s| - 1])
  }

  lemma {:induction false} NatRoundTrip(n: nat)
    ensures ParseNat(NatToString(n)) == n
  {
    var s := NatToString(n);
    if n < 10 {
      DigitRoundTrip(n);
      assert s[..|s| - 1] == [];
    } else {
      NatRoundTrip(n / 10);
      DigitRoundTrip(n % 10);
      assert s[..|s| - 1] == NatToString(n / 10);
    }
  }

  /** Java's decimal rendering of an int: a minus sign for negative values. */
  function IntToString(i: int): (s: string)
    ensures |s| >= 1
  {
    if i < 0 then "-" + NatToString(-i) else NatToString(i)
  }

  /** The strings `Integer.parseInt` accepts: an optional sign and at least one digit. */
  predicate IsIntegerText(s: string)
  {
    if |s| >= 1 && (s[0] == '-' || s[0] == '+') then |s| >= 2 && AllDigits(s[1..])
    else |s| >= 1 && AllDigits(s)
  }

  function ParseInt(s: string): int
    requires IsIntegerText(s)
  {
    if s[0] == '-' then var n: int := ParseNat(s[1..]); -n
    else if s[0] == '+' then ParseNat(s[1..])
    else ParseNat(s)
  }

  lemma IntRoundTrip(i: int)
    ensures IsIntegerText(IntToString(i))
    ensures ParseInt(IntToString(i)) == i
  {
    if i < 0 {
      NatRoundTrip(-i);
      SignedText(NatToString(-i), "-" + NatToString(-i));
    } else {
      NatRoundTrip(i);
      UnsignedText(NatToString(i));
    }
  }

  lemma SignedText(t: string, s: string)
    requires |t| >= 1 && AllDigits(t) && s == "-" + t
    ensures IsIntegerText(s) && ParseInt(s) == -(ParseNat(t) as int)
  {
    assert s[0] == '-' && s[1..] == t;
  }

  lemma UnsignedText(s: string)
    requires |s| >= 1 && AllDigits(s)
    ensures IsIntegerText(s) && ParseInt(s) == ParseNat(s)
  {
    assert IsDigit(s[0]);
  }

  // ---------------------------------------------------------------------------
  // Splitting at a separator

  /** The index of the first `sep` in `s`, or `|s|` when there is none. */
  function IndexOf(s: string, sep: char): (k: nat)
    ensures k <= |s|
    ensures k < |s| ==> s[k] == sep
    ensures forall i :: 0 <= i < k ==> s[i] != sep
  {
    if s == [] then 0 else if s[0] == sep then 0 else 1 + IndexOf(s[1..], sep)
  }

  /** The pieces of `s` between occurrences of `sep` (always at least one). */
  function Split(s: string, sep: char): (parts: seq<string>)
    ensures |parts| >= 1
    decreases |s|
  {
    var k := IndexOf(s, sep);
    if k == |s| then [s] else [s[..k]] + Split(s[k + 1..], sep)
  }

  /** The pieces written out with `sep` between consecutive ones. */
  function Join(parts: seq<string>, sep: char): string
    requires |parts| >= 1
  {
    if |parts| == 1 then parts[0] else parts[0] + [sep] + Join(parts[1..], sep)
  }

  /** Four pieces joined: each separator sits between two consecutive pieces. */
  lemma JoinFour(a: string, b: string, c: string, d: string, sep: char)
    ensures Join([a, b, c, d], sep) == a + [sep] + b + [sep] + c + [sep] + d
  {
    assert [c, d][1..] == [d];
    assert Join([c, d], sep) == c + [sep] + d;
    assert [b, c, d][1..] == [c, d];
    assert Join([b, c, d], sep) == b + [sep] + (c + [sep] + d);
    assert [a, b, c, d][1..] == [b, c, d];
  }

  predicate Free(s: string, sep: char)
  {
    forall i :: 0 <= i < |s| ==> s[i] != sep
  }

  lemma IndexOfAfterFree(p: string, rest: string, sep: char)
    requires Free(p, sep)
    requires rest != [] ==> rest[0] == sep
    ensures IndexOf(p + rest, sep) == |p|
  {
    assert forall i :: 0 <= i < |p| ==> (p + rest)[i] == p[i];
    if rest != [] {
      assert (p + rest)[|p|] == sep;
    }
  }

  /** Splitting what Join wrote gives back the pieces, when no piece holds `sep`. */
  lemma {:induction false} SplitJoin(parts: seq<string>, sep: char)
    requires |parts| >= 1
    requires forall i :: 0 <= i < |parts| ==> Free(parts[i], sep)
    ensures Split(Join(parts, sep), sep) == parts
  {
    var s := Join(parts, sep);
    if |parts| == 1 {
      IndexOfAfterFree(parts[0], [], sep);
      assert parts[0] + [] == parts[0];
    } else {
      var tail := Join(parts[1..], sep);
      assert s == parts[0] + ([sep] + tail);
      IndexOfAfterFree(parts[0], [sep] + tail, sep);
      assert s[..|parts[0]|] == parts[0];
      assert s[|parts[0]| + 1..] == tail;
      SplitJoin(parts[1..], sep);
      assert parts == [parts[0]] + parts[1..];
    }
  }

  // ---------------------------------------------------------------------------
  // Whitespace tokenizing

  /** StringTokenizer's default delimiters: space, tab, newline, carriage return, form feed. */
  predicate IsDelimiter(ch: char)
  {
    ch == ' ' || ch == '\t' || ch == '\n' || ch == '\r' || ch == '\U{000C}'
  }

  /** A token: non-empty and free of delimiters. */
  predicate IsWord(s: string)
  {
    |s| >= 1 && forall i :: 0 <= i < |s| ==> !IsDelimiter(s[i])
  }

  /** The length of the run of non-delimiters that starts `s`. */
  function WordLength(s: string): (n: nat)
    ensures n <= |s|
    ensures n < |s| ==> IsDelimiter(s[n])
    ensures forall i :: 0 <= i < n ==> !IsDelimiter(s[i])
  {
    if s == [] || IsDelimiter(s[0]) then 0 else 1 + WordLength(s[1..])
  }

  /** The tokens of `s` in order: maximal runs of non-delimiters. */
  function Tokens(s: string): (ts: seq<string>)
    ensures forall i :: 0 <= i < |ts| ==> IsWord(ts[i])
    decreases |s|
  {
    if s == [] then []
    else if IsDelimiter(s[0]) then Tokens(s[1..])
    else
      var n := WordLength(s);
      [s[..n]] + Tokens(s[n..])
  }

  lemma WordLengthOfWord(w: string, rest: string)
    requires IsWord(w)
    requires rest != [] ==> IsDelimiter(rest[0])
    ensures WordLength(w + rest) == |w|
  {
    assert forall i :: 0 <= i < |w| ==> (w + rest)[i] == w[i];
    if rest != [] {
      assert IsDelimiter((w + rest)[|w|]);
    }
  }

  /** Tokenizing words joined by single spaces gives back the words. */
  lemma {:induction false} TokensOfJoin(words: seq<string>)
    requires |words| >= 1
    requires forall i :: 0 <= i < |words| ==> IsWord(words[i])
    ensures Tokens(Join(words, ' ')) == words
  {
    var w := words[0];
    var s := Join(words, ' ');
    if |words| == 1 {
      WordLengthOfWord(w, []);
      assert w + [] == w;
      assert s[|w|..] == [];
    } else {
      var tail := Join(words[1..], ' ');
      assert s == w + ([' '] + tail);
      WordLengthOfWord(w, [' '] + tail);
      assert s[..|w|] == w;
      assert s[|w|..] == [' '] + tail;
      assert ([' '] + tail)[1..] == tail;
      TokensOfJoin(words[1..]);
      assert words == [w] + words[1..];
    }
  }
}
