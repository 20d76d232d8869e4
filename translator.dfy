/**
 * The word translator: a word of the letters 'a' to 'z' becomes the
 * concatenation, in order, of its letters' Morse symbols; a word holding any
 * other character is rejected as a whole.
 */
module Translator {
  import opened Wrappers
  import opened MorseTable

  /** The number of slots of the program's reusable symbol buffer. */
  const BufferSize := 100

  /** Every character of w is one the table can translate. */
  predicate ValidWord(w: string) {
    forall i :: 0 <= i < |w| ==> IsLetter(w[i])
  }

  /** Puts p in front of a translation, and keeps a rejection a rejection. */
  function Prepend(p: seq<bool>, o: Option<seq<bool>>): Option<seq<bool>> {
    match o
    case None => None
    case Some(s) => Some(p + s)
  }

  lemma PrependPrepend(a: seq<bool>, b: seq<bool>, o: Option<seq<bool>>)
    ensures Prepend(a, Prepend(b, o)) == Prepend(a + b, o)
  {
    if o.Some? {
      assert a + (b + o.value) == (a + b) + o.value;
    }
  }

  /** The translation of w, read left to right: None as soon as a character
      falls outside the table, else the symbols of its letters one after the
      other. */
  function EncodeSpec(w: string): Option<seq<bool>> {
    if w == [] then Some([])
    else if !IsLetter(w[0]) then None
    else Prepend(Symbols(LetterIndex(w[0])), EncodeSpec(w[1..]))
  }

  /** How many symbols the translation loop writes before it finishes or meets
      the first character outside the table. */
  function WrittenCount(w: string): nat {
    if w == [] || !IsLetter(w[0]) then 0
    else SymbolCount(LetterIndex(w[0])) + WrittenCount(w[1..])
  }

  /** Concatenates a sequence of symbol sequences in order. */
  function Flatten(ss: seq<seq<bool>>): seq<bool> {
    if ss == [] then [] else ss[0] + Flatten(ss[1..])
  }

  /** The table rows of the letters of a valid word, in the word's order. */
  function LetterCodes(w: string): (r: seq<seq<bool>>)
    requires ValidWord(w)
    ensures |r| == |w|
  {
    seq(|w|, i requires 0 <= i < |w| => Symbols(LetterIndex(w[i])))
  }

  /** A word is rejected exactly when one of its characters is not a letter. */
  lemma {:induction false} EncodeRejects(w: string)
    ensures EncodeSpec(w) == None <==> !ValidWord(w)
  {
    if w != [] && IsLetter(w[0]) {
      EncodeRejects(w[1..]);
      assert ValidWord(w) <==> ValidWord(w[1..]) by {
        forall i | 0 < i < |w| ensures w[i] == w[1..][i - 1] { }
      }
    }
  }

  /** A valid word translates to the concatenation of its letters' rows. */
  lemma {:induction false} EncodeIsConcatenation(w: string)
    requires ValidWord(w)
    ensures EncodeSpec(w) == Some(Flatten(LetterCodes(w)))
  {
    if w != [] {
      assert ValidWord(w[1..]) by {
        forall i | 0 <= i < |w[1..]| ensures IsLetter(w[1..][i]) { assert w[1..][i] == w[i + 1]; }
      }
      EncodeIsConcatenation(w[1..]);
      assert LetterCodes(w)[1..] == LetterCodes(w[1..]);
    }
  }

  /** The translation of a valid word is as long as the sum of its letters'
      length prefixes. */
  lemma {:induction false} EncodeLength(w: string)
    requires EncodeSpec(w).Some?
    ensures |EncodeSpec(w).value| == WrittenCount(w)
  {
    if w != [] {
      EncodeLength(w[1..]);
    }
  }

  /** Translation turns the concatenation of two words into the
      concatenation of their translations, and rejects it when either part is
      rejected. */
  lemma {:induction false} EncodeConcat(u: string, v: string)
    ensures EncodeSpec(u + v) ==
      if EncodeSpec(u).Some? && EncodeSpec(v).Some?
      then Some(EncodeSpec(u).value + EncodeSpec(v).value)
      else None
  {
    if u == [] {
      assert u + v == v;
      if EncodeSpec(v).Some? {
        assert [] + EncodeSpec(v).value == EncodeSpec(v).value;
      }
    } else {
      assert (u + v)[0] == u[0];
      assert (u + v)[1..] == u[1..] + v;
      if IsLetter(u[0]) {
        EncodeConcat(u[1..], v);
        var o := EncodeSpec(u[1..]);
        if o.Some? && EncodeSpec(v).Some? {
          PrependPrepend(Symbols(LetterIndex(u[0])), o.value, EncodeSpec(v));
        }
      }
    }
  }

  /** Each letter writes at most four symbols. */
  lemma {:induction false} WrittenCountBound(w: string)
    ensures WrittenCount(w) <= MaxSymbols * |w|
  {
    if w != [] && IsLetter(w[0]) {
      WrittenCountBound(w[1..]);
    }
  }

  /** With at most 25 characters a word never writes past the 100-slot buffer;
      the dictionary's longest words, of 24 characters, need at most 96. */
  lemma BufferBound(w: string)
    requires |w| <= 25
    ensures WrittenCount(w) <= BufferSize
  {
    WrittenCountBound(w);
  }

  /** The inner copy loop: writes the symbols of one table row into
      morseCode from slot at on, leaving the slots before at as they were. */
  method CopySymbols(morseCode: array<bool>, at: nat, morseLetter: seq<int>) returns (morseLetterLength: nat)
    requires WellFormedRow(morseLetter)
    requires at + morseLetter[0] <= morseCode.Length
    modifies morseCode
    ensures morseLetterLength == morseLetter[0]
    ensures morseCode[..at + morseLetterLength] == old(morseCode[..at]) + RowSymbols(morseLetter)
  {
    morseLetterLength := morseLetter[0];
    for j := 0 to morseLetterLength
      invariant forall k :: 0 <= k < at ==> morseCode[k] == old(morseCode[k])
      invariant forall k :: 0 <= k < j ==> morseCode[at + k] == RowSymbols(morseLetter)[k]
    {
      morseCode[at + j] := morseLetter[j + 1] == 1;
    }
    assert morseCode[..at + morseLetterLength] == old(morseCode[..at]) + RowSymbols(morseLetter);
  }

  /**
   * The translation loop: copies the symbols of each letter of word into
   * morseCode from slot 0 on and stops at the first character outside the
   * table. When the word is valid, the first morseLength slots hold its
   * translation; the slots after them keep whatever they held.
   */
  method Encode(word: string, morseCode: array<bool>) returns (isValidWord: bool, morseLength: nat)
    requires WrittenCount(word) <= morseCode.Length
    modifies morseCode
    ensures morseLength <= morseCode.Length
    ensures isValidWord <==> EncodeSpec(word).Some?
    ensures isValidWord ==> EncodeSpec(word) == Some(morseCode[..morseLength])
  {
    isValidWord := true;
    morseLength := 0;
    assert word[0..] == word;
    assert Prepend(morseCode[..0], EncodeSpec(word)) == EncodeSpec(word) by {
      if EncodeSpec(word).Some? { assert [] + EncodeSpec(word).value == EncodeSpec(word).value; }
    }
    for i := 0 to |word|
      invariant morseLength + WrittenCount(word[i..]) == WrittenCount(word)
      invariant EncodeSpec(word) == Prepend(morseCode[..morseLength], EncodeSpec(word[i..]))
    {
      var letter := LetterIndex(word[i]);
      if letter < 0 || letter > 25 {
        isValidWord := false;
        break;
      }
      ghost var done := morseCode[..morseLength];
      assert word[i..][1..] == word[i + 1..];
      TableWellFormed();
      var morseLetterLength := CopySymbols(morseCode, morseLength, MorseAlphabet[letter]);
      PrependPrepend(done, Symbols(letter), EncodeSpec(word[i + 1..]));
      morseLength := morseLength + morseLetterLength;
    }
    if isValidWord {
      assert morseCode[..morseLength] + [] == morseCode[..morseLength];
    }
  }
}
