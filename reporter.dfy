/**
 * The reporter: the line printed for each Morse palindrome, holding the
 * running match number, the word, and its symbols as dots and dashes.
 */
module Reporter {
  import opened MorseTable

  predicate IsDigit(c: char) {
    '0' <= c <= '9'
  }

  function DigitChar(d: nat): (c: char)
    requires d < 10
    ensures IsDigit(c) && DigitValue(c) == d
  {
    ('0' as int + d) as char
  }

  function DigitValue(c: char): nat
    requires IsDigit(c)
  {
    c as int - '0' as int
  }

  /** The decimal numeral of n, without leading zeros, as string
      concatenation writes an int that is not negative. */
  function Digits(n: nat): string
    decreases n
  {
    if n < 10 then [DigitChar(n)] else Digits(n / 10) + [DigitChar(n % 10)]
  }

  /** The number a string of decimal digits stands for. */
  function DecimalValue(s: string): nat
    requires forall k :: 0 <= k < |s| ==> IsDigit(s[k])
  {
    if s == [] then 0
    else 10 * DecimalValue(s[..|s| - 1]) + DigitValue(s[|s| - 1])
  }

  /** A numeral is a non-empty run of digits with no leading zero. */
  lemma {:induction false} DigitsWellFormed(n: nat)
    ensures |Digits(n)| >= 1
    ensures forall k :: 0 <= k < |Digits(n)| ==> IsDigit(Digits(n)[k])
    ensures n >= 10 ==> Digits(n)[0] != '0'
    decreases n
  {
    if n >= 10 {
      DigitsWellFormed(n / 10);
    }
  }

  /** Reading a numeral back gives the number it was written from. */
  lemma {:induction false} DecimalRoundTrip(n: nat)
    ensures forall k :: 0 <= k < |Digits(n)| ==> IsDigit(Digits(n)[k])
    ensures DecimalValue(Digits(n)) == n
    decreases n
  {
    DigitsWellFormed(n);
    if n >= 10 {
      DecimalRoundTrip(n / 10);
      var s := Digits(n);
      assert s[..|s| - 1] == Digits(n / 10);
    }
  }

  lemma DigitsInjective(n: nat, n': nat)
    requires Digits(n) == Digits(n')
    ensures n == n'
  {
    DecimalRoundTrip(n);
    DecimalRoundTrip(n');
  }

  /** The line printed for the n-th match: "[n] word: ( " followed by one dot
      or dash per symbol and then " )" and a newline. */
  function ReportLine(n: nat, word: string, code: seq<bool>): string {
    "[" + Digits(n) + "] " + word + ": ( " + Render(code) + " )\n"
  }

  /** Two strings that each hold a marker x only at the point where they are
      cut are cut at the same point. */
  lemma SplitAtMarker(x: char, a: string, b: string, a': string, b': string)
    requires forall k :: 0 <= k < |a| ==> a[k] != x
    requires forall k :: 0 <= k < |a'| ==> a'[k] != x
    requires a + [x] + b == a' + [x] + b'
    ensures a == a' && b == b'
  {
    var s, s' := a + [x] + b, a' + [x] + b';
    assert s[|a|] == x && s'[|a'|] == x;
    assert |a| == |a'|;
    assert a == s[..|a|] == s'[..|a'|] == a';
    assert b == s[|a| + 1..] == s'[|a'| + 1..] == b';
  }

  /** The line cut at its first ']' and, after that, at its first ':'. */
  lemma ReportLineParts(n: nat, word: string, code: seq<bool>)
    ensures ReportLine(n, word, code) ==
      ("[" + Digits(n)) + [']'] + ((" " + word) + [':'] + (" ( " + Render(code) + " )\n"))
  {
  }

  lemma DropPrefix(p: string, a: string, a': string)
    requires p + a == p + a'
    ensures a == a'
  {
    assert a == (p + a)[|p|..];
    assert a' == (p + a')[|p|..];
  }

  lemma SymbolsTextInjective(t: string, t': string)
    requires " ( " + t + " )\n" == " ( " + t' + " )\n"
    ensures t == t'
  {
    var u, u' := " ( " + t + " )\n", " ( " + t' + " )\n";
    assert t == u[3..|u| - 3];
    assert t' == u'[3..|u'| - 3];
  }

  /** A line can be read back: for words without a colon, the line determines
      the match number, the word and the symbols it was printed from. */
  lemma ReportLineInjective(n: nat, word: string, code: seq<bool>,
                            n': nat, word': string, code': seq<bool>)
    requires forall k :: 0 <= k < |word| ==> word[k] != ':'
    requires forall k :: 0 <= k < |word'| ==> word'[k] != ':'
    requires ReportLine(n, word, code) == ReportLine(n', word', code')
    ensures n == n' && word == word' && code == code'
  {
    ReportLineParts(n, word, code);
    ReportLineParts(n', word', code');
    DigitsWellFormed(n);
    DigitsWellFormed(n');
    var rest, rest' := (" " + word) + [':'] + (" ( " + Render(code) + " )\n"),
                       (" " + word') + [':'] + (" ( " + Render(code') + " )\n");
    SplitAtMarker(']', "[" + Digits(n), rest, "[" + Digits(n'), rest');
    DropPrefix("[", Digits(n), Digits(n'));
    DigitsInjective(n, n');
    SplitAtMarker(':', " " + word, " ( " + Render(code) + " )\n", " " + word', " ( " + Render(code') + " )\n");
    DropPrefix(" ", word, word');
    SymbolsTextInjective(Render(code), Render(code'));
    RenderInjective(code, code');
  }

  /**
   * Builds the line for a match from the buffer, writing one character per
   * symbol of morseCode[0..morseLength) in buffer order.
   */
  method RenderLine(totalMorsePalindromes: nat, word: string, morseCode: array<bool>, morseLength: nat)
    returns (line: string)
    requires morseLength <= morseCode.Length
    ensures line == ReportLine(totalMorsePalindromes, word, morseCode[..morseLength])
  {
    var symbols := "";
    for i := 0 to morseLength
      invariant |symbols| == i
      invariant forall k :: 0 <= k < i ==> symbols[k] == SymbolChar(morseCode[k])
    {
      symbols := symbols + [if morseCode[i] then '.' else '-'];
    }
    RenderAt(morseCode[..morseLength]);
    assert symbols == Render(morseCode[..morseLength]);
    line := "[" + Digits(totalMorsePalindromes) + "] " + word + ": ( " + symbols + " )\n";
  }
}
