/**
 * The dictionary scan: every word is translated into the reusable buffer,
 * rejected words are skipped, and each word whose translation is a
 * palindrome raises the running count by one and yields one output line.
 */
module Finder {
  import opened Wrappers
  import opened MorseTable
  import opened Translator
  import opened Palindrome
  import opened Reporter

  /** A word that translates and whose translation reads the same backwards. */
  predicate IsMatch(w: string) {
    EncodeSpec(w).Some? && IsPalindrome(EncodeSpec(w).value)
  }

  /** The words of the dictionary that are reported, in dictionary order. */
  function Matches(words: seq<string>): (r: seq<string>)
    ensures |r| <= |words|
    ensures forall k :: 0 <= k < |r| ==> IsMatch(r[k])
  {
    if words == [] then []
    else
      var last := words[|words| - 1];
      Matches(words[..|words| - 1]) + (if IsMatch(last) then [last] else [])
  }

  /** Everything a scan prints: the k-th reported word, numbered k + 1,
      with its translation. */
  function Output(words: seq<string>): seq<string> {
    var m := Matches(words);
    seq(|m|, k requires 0 <= k < |m| => ReportLine(k + 1, m[k], EncodeSpec(m[k]).value))
  }

  /** One more word leaves the earlier lines alone and adds one line, with the
      next number, exactly when the word is a match. */
  lemma OutputStep(words: seq<string>, w: string)
    ensures |Matches(words + [w])| == |Matches(words)| + (if IsMatch(w) then 1 else 0)
    ensures Output(words + [w]) ==
      Output(words) + if IsMatch(w) then [ReportLine(|Matches(words)| + 1, w, EncodeSpec(w).value)] else []
  {
  }

  /** A word with a character outside 'a' to 'z' changes neither the count
      nor the output. */
  lemma RejectedWordIsSkipped(words: seq<string>, w: string, i: nat)
    requires i < |w| && !IsLetter(w[i])
    ensures |Matches(words + [w])| == |Matches(words)|
    ensures Output(words + [w]) == Output(words)
  {
    EncodeRejects(w);
    OutputStep(words, w);
    assert Output(words) + [] == Output(words);
  }

  /** Order is kept across a split of the dictionary. */
  lemma {:induction false} MatchesAppend(a: seq<string>, b: seq<string>)
    ensures Matches(a + b) == Matches(a) + Matches(b)
  {
    if b == [] {
      assert a + b == a;
    } else {
      var init := b[..|b| - 1];
      assert (a + b)[..|a + b| - 1] == a + init;
      MatchesAppend(a, init);
    }
  }

  /** A word is reported exactly when it occurs in the dictionary and is a match. */
  lemma {:induction false} MatchesMembers(words: seq<string>, w: string)
    ensures w in Matches(words) <==> w in words && IsMatch(w)
  {
    if words != [] {
      var init := words[..|words| - 1];
      MatchesMembers(init, w);
      assert words == init + [words[|words| - 1]];
    }
  }

  /** Output is append-only: scanning a longer dictionary extends the lines
      of any prefix of it. */
  lemma OutputExtends(words: seq<string>, i: nat)
    requires i <= |words|
    ensures Output(words[..i]) <= Output(words)
  {
    assert words == words[..i] + words[i..];
    MatchesAppend(words[..i], words[i..]);
  }

  /** Reported words are made of letters only, so they hold no colon. */
  lemma MatchHasNoColon(w: string)
    requires IsMatch(w)
    ensures ValidWord(w)
    ensures forall j :: 0 <= j < |w| ==> w[j] != ':'
  {
    EncodeRejects(w);
  }

  /** The number on the k-th line is k + 1, and the line shows the k-th
      reported word and its translation: nothing else prints it. */
  lemma OutputNumbering(words: seq<string>, k: nat, n: nat, w: string, code: seq<bool>)
    requires k < |Output(words)|
    requires forall j :: 0 <= j < |w| ==> w[j] != ':'
    requires Output(words)[k] == ReportLine(n, w, code)
    ensures n == k + 1
    ensures w == Matches(words)[k]
    ensures EncodeSpec(w) == Some(code)
  {
    var m := Matches(words)[k];
    MatchHasNoColon(m);
    ReportLineInjective(n, w, code, k + 1, m, EncodeSpec(m).value);
  }

  /**
   * The scan over the dictionary's tokens, with one 100-slot buffer reused
   * for every word. Returns the lines printed and the final count.
   */
  method FindMorsePalindromes(words: seq<string>) returns (lines: seq<string>, totalMorsePalindromes: nat)
    requires forall i :: 0 <= i < |words| ==> WrittenCount(words[i]) <= BufferSize
    ensures totalMorsePalindromes == |lines| == |Matches(words)|
    ensures lines == Output(words)
  {
    var morseCode := new bool[BufferSize];
    lines := [];
    totalMorsePalindromes := 0;
    for i := 0 to |words|
      invariant totalMorsePalindromes == |Matches(words[..i])|
      invariant lines == Output(words[..i])
    {
      var word := words[i];
      assert words[..i + 1] == words[..i] + [word];
      OutputStep(words[..i], word);
      var isValidWord, morseLength := Encode(word, morseCode);
      if !isValidWord {
        assert Output(words[..i]) + [] == Output(words[..i]);
        continue;
      }
      var isPalindrome := CheckPalindrome(morseCode, morseLength);
      if isPalindrome {
        totalMorsePalindromes := totalMorsePalindromes + 1;
        var line := RenderLine(totalMorsePalindromes, word, morseCode, morseLength);
        lines := lines + [line];
      } else {
        assert Output(words[..i]) + [] == Output(words[..i]);
      }
    }
    assert words[..|words|] == words;
  }

  /** "ya" translates to -.--.-, which reads the same backwards. */
  lemma YaIsMorsePalindrome()
    ensures EncodeSpec("ya") == Some([false, true, false, false, true, false])
    ensures Render(EncodeSpec("ya").value) == "-.--.-"
    ensures IsMatch("ya")
  {
    assert "ya"[1..] == "a" && "a"[1..] == "";
    var y, a := Symbols(LetterIndex('y')), Symbols(LetterIndex('a'));
    assert y == [false, true, false, false];
    assert a == [true, false];
    assert EncodeSpec("a") == Some(a + []);
    assert EncodeSpec("ya") == Some(y + (a + []));
    var s := [false, true, false, false, true, false];
    assert y + (a + []) == s;
    PalindromeMirror(s);
    RenderAt(s);
  }

  /** "a" (.-) is not a Morse palindrome; "e" (.) is. */
  lemma SingleLetters()
    ensures EncodeSpec("a") == Some([true, false]) && !IsMatch("a")
    ensures EncodeSpec("e") == Some([true]) && IsMatch("e")
  {
    assert "a"[1..] == "" && "e"[1..] == "";
    assert Symbols(LetterIndex('a')) == [true, false];
    assert Symbols(LetterIndex('e')) == [true];
    assert [true, false] + [] == [true, false];
    assert [true] + [] == [true];
    PalindromeMirror([true, false]);
    ShortIsPalindrome([true]);
  }

  /** A one-word dictionary prints one line numbered 1 or nothing. */
  lemma OutputOfOneWord(w: string)
    ensures Output([w]) == if IsMatch(w) then [ReportLine(1, w, EncodeSpec(w).value)] else []
  {
  }

  lemma SampleLineTexts()
    ensures ReportLine(1, "e", [true]) == "[1] e: ( . )\n"
    ensures ReportLine(2, "ya", [false, true, false, false, true, false]) == "[2] ya: ( -.--.- )\n"
  {
  }

  /** The empty dictionary prints nothing; "a" alone prints nothing; "e"
      alone prints "[1] e: ( . )"; "hi2" is rejected. */
  lemma SampleLines()
    ensures Output([]) == []
    ensures Output(["a"]) == []
    ensures Output(["e"]) == ["[1] e: ( . )\n"]
    ensures Output(["hi2"]) == []
  {
    SingleLetters();
    SampleLineTexts();
    OutputOfOneWord("a");
    OutputOfOneWord("e");
    OutputOfOneWord("hi2");
    EncodeRejects("hi2");
    assert !IsLetter("hi2"[2]);
  }

  /** An empty token has the empty translation, a palindrome, so it is
      reported with no symbols between the parentheses. */
  lemma EmptyTokenIsReported()
    ensures IsMatch("")
    ensures Output([""]) == ["[1] : (  )\n"]
  {
    ShortIsPalindrome([]);
    OutputOfOneWord("");
    assert Digits(1) == "1";
    assert ReportLine(1, "", []) == "[1] : (  )\n";
  }

  lemma SampleScanPrefix()
    ensures |Matches(["a", "e", "hi2"])| == 1
    ensures Output(["a", "e", "hi2"]) == ["[1] e: ( . )\n"]
  {
    var a, e := ["a"], ["a", "e"];
    SingleLetters();
    SampleLineTexts();
    OutputStep([], "a");
    assert [] + ["a"] == a;
    OutputStep(a, "e");
    assert a + ["e"] == e;
    assert Output(e) == ["[1] e: ( . )\n"];
    RejectedWordIsSkipped(e, "hi2", 2);
    assert e + ["hi2"] == ["a", "e", "hi2"];
  }

  /** In a mixed dictionary the reported words are numbered 1, 2, ... in
      dictionary order. */
  lemma SampleScan()
    ensures Output(["a", "e", "hi2", "ya"]) == ["[1] e: ( . )\n", "[2] ya: ( -.--.- )\n"]
  {
    SampleScanPrefix();
    YaIsMorsePalindrome();
    SampleLineTexts();
    OutputStep(["a", "e", "hi2"], "ya");
    assert ["a", "e", "hi2"] + ["ya"] == ["a", "e", "hi2", "ya"];
  }
}
