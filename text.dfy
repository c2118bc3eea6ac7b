/**
 * The character-stream behaviour the persistence code relies on, written as functions:
 * what `getline` yields line after line, what `operator>>` reads as whitespace-separated
 * tokens and numbers, and what `operator<<` prints for an integer.
 */
module Text {
  import opened Optional

  /** Index of the first occurrence of `c` in `s`, or `|s|` when `c` does not occur. */
  function IndexOf(s: string, c: char): (k: nat)
    ensures k <= |s|
    ensures k < |s| ==> s[k] == c
    ensures forall j :: 0 <= j < k ==> s[j] != c
  {
    if s == [] then 0
    else if s[0] == c then 0
    else 1 + IndexOf(s[1..], c)
  }

  // ---------------------------------------------------------------------------------
  // Lines

  /**
   * The lines successive `getline` calls return until one reports end of input: each
   * call takes the characters up to the next '\n' and drops that '\n'; a last piece
   * with no '\n' after it is a line too; an exhausted stream ends the reading.
   */
  function SplitLines(text: string): (lines: seq<string>)
    ensures forall i :: 0 <= i < |lines| ==> '\n' !in lines[i]
    decreases |text|
  {
    if text == [] then []
    else
      var k := IndexOf(text, '\n');
      if k == |text| then [text] else [text[..k]] + SplitLines(text[k + 1..])
  }

  /**
   * What writing every line followed by '\n' puts into an output stream: nothing for no
   * lines, and otherwise text that ends with a '\n'.
   */
  function JoinLines(lines: seq<string>): (s: string)
    ensures s == [] <==> lines == []
    ensures s != [] ==> s[|s| - 1] == '\n'
  {
    if lines == [] then [] else lines[0] + "\n" + JoinLines(lines[1..])
  }

  predicate NoNewlines(lines: seq<string>)
  {
    forall i :: 0 <= i < |lines| ==> '\n' !in lines[i]
  }

  lemma {:induction false} SplitJoinLinesExact(lines: seq<string>)
    requires NoNewlines(lines)
    ensures SplitLines(JoinLines(lines)) == lines
    decreases |lines|
  {
    if lines != [] {
      var l, rest := lines[0], JoinLines(lines[1..]);
      var text := JoinLines(lines);
      assert text == l + ("\n" + rest);
      assert text[|l|] == '\n';
      assert forall j :: 0 <= j < |l| ==> text[j] == l[j];
      assert IndexOf(text, '\n') == |l|;
      assert text[..|l|] == l;
      assert text[|l| + 1..] == rest;
      assert NoNewlines(lines[1..]);
      SplitJoinLinesExact(lines[1..]);
    }
  }

  /**
   * Writing lines one per '\n' and reading them back with `getline` gives the same
   * lines exactly when none of them contains a '\n'.
   */
  lemma SplitJoinLines(lines: seq<string>)
    ensures SplitLines(JoinLines(lines)) == lines <==> NoNewlines(lines)
  {
    if NoNewlines(lines) {
      SplitJoinLinesExact(lines);
    }
  }

  // ---------------------------------------------------------------------------------
  // Whitespace-separated tokens

  /** The characters `operator>>` skips before a token and stops a token at. */
  predicate IsSpace(c: char)
  {
    c == ' ' || c == '\t' || c == '\n' || c == '\r' || c == '\U{0B}' || c == '\U{0C}'
  }

  /** Index of the first whitespace character of `s`, or `|s|` when there is none. */
  function TokenEnd(s: string): (k: nat)
    ensures k <= |s|
    ensures k < |s| ==> IsSpace(s[k])
    ensures forall j :: 0 <= j < k ==> !IsSpace(s[j])
  {
    if s == [] then 0
    else if IsSpace(s[0]) then 0
    else 1 + TokenEnd(s[1..])
  }

  /** The tokens successive `operator>>` extractions read from `s`, in order. */
  function Tokens(s: string): (ts: seq<string>)
    ensures forall i :: 0 <= i < |ts| ==> ts[i] != [] && IsWord(ts[i])
    decreases |s|
  {
    if s == [] then []
    else if IsSpace(s[0]) then Tokens(s[1..])
    else
      var k := TokenEnd(s);
      [s[..k]] + Tokens(s[k..])
  }

  /** A non-empty run of non-whitespace characters: what one extraction can read. */
  predicate IsWord(t: string)
  {
    t != [] && forall j :: 0 <= j < |t| ==> !IsSpace(t[j])
  }

  /** Tokens written with one ' ' between neighbours, as `out << a << ' ' << b` does. */
  function JoinWords(ts: seq<string>): string
  {
    if |ts| == 0 then []
    else if |ts| == 1 then ts[0]
    else ts[0] + " " + JoinWords(ts[1..])
  }

  /** Joining lines free of '\n' with spaces gives a single line. */
  lemma {:induction false} JoinWordsOneLine(ts: seq<string>)
    requires NoNewlines(ts)
    ensures '\n' !in JoinWords(ts)
    decreases |ts|
  {
    if |ts| > 1 {
      JoinWordsOneLine(ts[1..]);
    }
  }

  lemma {:induction false} TokensOfWordThen(w: string, rest: string)
    requires IsWord(w)
    requires rest == [] || IsSpace(rest[0])
    ensures Tokens(w + rest) == [w] + Tokens(rest)
  {
    var s := w + rest;
    assert s[0] == w[0];
    assert forall j :: 0 <= j < |w| ==> s[j] == w[j];
    assert |w| < |s| ==> s[|w|] == rest[0];
    assert TokenEnd(s) == |w|;
    assert s[..|w|] == w;
    assert s[|w|..] == rest;
  }

  /** Words printed with single spaces between them read back as the same words. */
  lemma {:induction false} TokensOfJoinWords(ts: seq<string>)
    requires forall i :: 0 <= i < |ts| ==> IsWord(ts[i])
    ensures Tokens(JoinWords(ts)) == ts
    decreases |ts|
  {
    if |ts| == 1 {
      TokensOfWordThen(ts[0], []);
      assert ts[0] + [] == ts[0];
    } else if |ts| > 1 {
      var rest := JoinWords(ts[1..]);
      TokensOfWordThen(ts[0], " " + rest);
      assert ts[0] + " " + rest == ts[0] + (" " + rest);
      assert (" " + rest)[1..] == rest;
      TokensOfJoinWords(ts[1..]);
    }
  }

  // ---------------------------------------------------------------------------------
  // Decimal integers

  predicate IsDigit(c: char)
  {
    '0' <= c <= '9'
  }

  predicate AllDigits(s: string)
  {
    forall j :: 0 <= j < |s| ==> IsDigit(s[j])
  }

  function DigitChar(d: nat): (c: char)
    requires d < 10
    ensures IsDigit(c)
  {
    (('0' as int) + d) as char
  }

  /** The decimal digits `operator<<` prints for a non-negative integer, without leading zeros. */
  function DigitsOf(n: nat): (s: string)
    ensures s != [] && AllDigits(s)
  {
    if n < 10 then [DigitChar(n)] else DigitsOf(n / 10) + [DigitChar(n % 10)]
  }

  /** The value of a string of decimal digits, read most significant digit first. */
  function ValueOf(s: string): nat
    requires AllDigits(s)
  {
    if s == [] then 0 else 10 * ValueOf(s[..|s| - 1]) + (s[|s| - 1] as int - '0' as int)
  }

  lemma {:induction false} ValueOfDigitsOf(n: nat)
    ensures ValueOf(DigitsOf(n)) == n
  {
    if n >= 10 {
      var s := DigitsOf(n);
      assert s[..|s| - 1] == DigitsOf(n / 10);
      ValueOfDigitsOf(n / 10);
    }
  }

  /** What `operator<<` prints for an integer: a '-' for a negative value, then its digits. */
  function FormatInt(x: int): (s: string)
    ensures IsWord(s) && '\n' !in s
  {
    var s := if x < 0 then "-" + DigitsOf(-x) else DigitsOf(x);
    assert forall j :: 0 <= j < |s| ==> s[j] == '-' || IsDigit(s[j]);
    s
  }

  /**
   * The integer `operator>>` reads when a token is exactly an optional '+' or '-' followed
   * by at least one decimal digit. The model refuses every other token, including one such
   * as "12abc" from whose front `operator>>` would still read 12.
   */
  function ParseInt(t: string): (r: Option<int>)
    ensures r.Some? ==> IsWord(t)
    ensures r.Some? && r.value < 0 ==> t[0] == '-'
  {
    if t != [] && (t[0] == '-' || t[0] == '+') then
      if |t| > 1 && AllDigits(t[1..]) then
        var v: int := ValueOf(t[1..]);
        Some(if t[0] == '-' then -v else v)
      else None
    else if t != [] && AllDigits(t) then Some(ValueOf(t))
    else None
  }

  /** Reading back what `operator<<` printed gives the same integer. */
  lemma ParseFormatInt(x: int)
    ensures ParseInt(FormatInt(x)) == Some(x)
  {
    if x < 0 {
      var s := FormatInt(x);
      assert s[1..] == DigitsOf(-x);
      ValueOfDigitsOf(-x);
    } else {
      ValueOfDigitsOf(x);
    }
  }
}
