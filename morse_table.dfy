/**
 * The fixed Morse table for the letters 'a' to 'z', stored the way the program
 * stores it: one length-prefixed row of integers per letter. A symbol is a
 * boolean, true for a dot and false for a dash.
 */
module MorseTable {

  /** Row l describes the letter 'a' + l. Its first entry is the number of
      symbols; the entries after it are the symbols, 1 for a dot, 0 for a dash. */
  const MorseAlphabet: seq<seq<int>> := [
    [2, 1, 0],       // a (.-)
    [4, 0, 1, 1, 1], // b (-...)
    [4, 0, 1, 0, 1], // c (-.-.)
    [3, 0, 1, 1],    // d (-..)
    [1, 1],          // e (.)
    [4, 1, 1, 0, 1], // f (..-.)
    [3, 0, 0, 1],    // g (--.)
    [4, 1, 1, 1, 1], // h (....)
    [2, 1, 1],       // i (..)
    [4, 1, 0, 0, 0], // j (.---)
    [3, 0, 1, 0],    // k (-.-)
    [4, 1, 0, 1, 1], // l (.-..)
    [2, 0, 0],       // m (--)
    [2, 0, 1],       // n (-.)
    [3, 0, 0, 0],    // o (---)
    [4, 1, 0, 0, 1], // p (.--.)
    [4, 0, 0, 1, 0], // q (--.-)
    [3, 1, 0, 1],    // r (.-.)
    [3, 1, 1, 1],    // s (...)
    [1, 0],          // t (-)
    [3, 1, 1, 0],    // u (..-)
    [4, 1, 1, 1, 0], // v (...-)
    [3, 1, 0, 0],    // w (.--)
    [4, 0, 1, 1, 0], // x (-..-)
    [4, 0, 1, 0, 0], // y (-.--)
    [4, 0, 0, 1, 1]  // z (--..)
  ]

  /** The International Morse code of each letter, as the comment beside its
      row gives it: the independent reference the table is checked against. */
  const ItuCode: seq<string> := [
    ".-", "-...", "-.-.", "-..", ".", "..-.", "--.", "....", "..", ".---",
    "-.-", ".-..", "--", "-.", "---", ".--.", "--.-", ".-.", "...", "-",
    "..-", "...-", ".--", "-..-", "-.--", "--.."
  ]

  /** The longest code of any letter. */
  const MaxSymbols := 4

  /** The table offset of a character, computed as `c - 'a'`. */
  function LetterIndex(c: char): int {
    c as int - 'a' as int
  }

  /** A character the table can translate: its offset lies in [0, 25]. */
  predicate IsLetter(c: char) {
    0 <= LetterIndex(c) <= 25
  }

  lemma IsLetterExactly(c: char)
    ensures IsLetter(c) <==> 'a' <= c <= 'z'
  {
  }

  /** A row is well formed when its prefix, between 1 and 4, counts the
      entries after it and every such entry is 0 or 1. */
  predicate WellFormedRow(row: seq<int>) {
    |row| >= 1 && 1 <= row[0] <= MaxSymbols && row[0] == |row| - 1 &&
    forall j :: 1 <= j < |row| ==> row[j] == 0 || row[j] == 1
  }

  lemma TableWellFormed()
    ensures |MorseAlphabet| == 26
    ensures forall l :: 0 <= l < 26 ==> WellFormedRow(MorseAlphabet[l])
  {
  }

  /** The number of symbols of letter l, the row's length prefix. */
  function SymbolCount(l: int): (n: nat)
    requires 0 <= l < 26
    ensures 1 <= n <= MaxSymbols
  {
    TableWellFormed();
    MorseAlphabet[l][0]
  }

  /** The symbols a well-formed row lists, in order: entry 1 becomes a dot
      (true), entry 0 a dash (false). */
  function RowSymbols(row: seq<int>): (r: seq<bool>)
    requires WellFormedRow(row)
    ensures |r| == row[0] == |row| - 1
  {
    seq(row[0], j requires 0 <= j < row[0] => row[j + 1] == 1)
  }

  /** The symbols of letter l. */
  function Symbols(l: int): (r: seq<bool>)
    requires 0 <= l < 26
    ensures |r| == SymbolCount(l)
  {
    TableWellFormed();
    RowSymbols(MorseAlphabet[l])
  }

  /** The character that shows one symbol. */
  function SymbolChar(dot: bool): char {
    if dot then '.' else '-'
  }

  /** A symbol sequence written out as dots and dashes, with no separators. */
  function Render(s: seq<bool>): string {
    if s == [] then [] else [SymbolChar(s[0])] + Render(s[1..])
  }

  /** Reads a string of dots and dashes back as symbols. */
  function Parse(t: string): seq<bool> {
    if t == [] then [] else [t[0] == '.'] + Parse(t[1..])
  }

  predicate IsMorseText(t: string) {
    forall k :: 0 <= k < |t| ==> t[k] == '.' || t[k] == '-'
  }

  /** Rendering keeps the order and length: one character per symbol. */
  lemma {:induction false} RenderAt(s: seq<bool>)
    ensures |Render(s)| == |s|
    ensures forall k :: 0 <= k < |s| ==> Render(s)[k] == SymbolChar(s[k])
  {
    if s != [] {
      RenderAt(s[1..]);
    }
  }

  lemma {:induction false} RenderIsMorseText(s: seq<bool>)
    ensures IsMorseText(Render(s))
  {
    RenderAt(s);
  }

  lemma {:induction false} ParseRender(s: seq<bool>)
    ensures Parse(Render(s)) == s
  {
    if s != [] {
      ParseRender(s[1..]);
    }
  }

  lemma {:induction false} RenderParse(t: string)
    requires IsMorseText(t)
    ensures Render(Parse(t)) == t
  {
    if t != [] {
      RenderParse(t[1..]);
    }
  }

  /** Rendering loses nothing: different symbol sequences print differently. */
  lemma RenderInjective(s: seq<bool>, s': seq<bool>)
    requires Render(s) == Render(s')
    ensures s == s'
  {
    ParseRender(s);
    ParseRender(s');
  }

  lemma FirstRowsMatchItu()
    ensures forall l :: 0 <= l < 13 ==> Render(Symbols(l)) == ItuCode[l]
  {
    forall l | 0 <= l < 13
      ensures Render(Symbols(l)) == ItuCode[l]
    {
      RenderAt(Symbols(l));
    }
  }

  lemma LastRowsMatchItu()
    ensures forall l :: 13 <= l < 26 ==> Render(Symbols(l)) == ItuCode[l]
  {
    forall l | 13 <= l < 26
      ensures Render(Symbols(l)) == ItuCode[l]
    {
      RenderAt(Symbols(l));
    }
  }

  /** Every row of the table spells the letter's International Morse code. */
  lemma TableMatchesItu()
    ensures |ItuCode| == 26
    ensures forall l :: 0 <= l < 26 ==> Render(Symbols(l)) == ItuCode[l]
  {
    FirstRowsMatchItu();
    LastRowsMatchItu();
  }
}
