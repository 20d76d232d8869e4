/**
 * The palindrome check over a translated word: a two-pointer scan that moves
 * inwards from both ends of the buffer's filled prefix.
 */
module Palindrome {

  /** The sequence read backwards. */
  function Reverse(s: seq<bool>): seq<bool> {
    if s == [] then [] else Reverse(s[1..]) + [s[0]]
  }

  /** A symbol sequence that reads the same in both directions. */
  predicate IsPalindrome(s: seq<bool>) {
    s == Reverse(s)
  }

  /** Reversing keeps the length and mirrors every position. */
  lemma {:induction false} ReverseAt(s: seq<bool>)
    ensures |Reverse(s)| == |s|
    ensures forall k :: 0 <= k < |s| ==> Reverse(s)[k] == s[|s| - 1 - k]
  {
    if s != [] {
      ReverseAt(s[1..]);
    }
  }

  lemma {:induction false} ReverseReverse(s: seq<bool>)
    ensures Reverse(Reverse(s)) == s
  {
    ReverseAt(s);
    ReverseAt(Reverse(s));
  }

  /** A palindrome is a sequence whose k-th symbol equals its k-th symbol
      from the end, for every k. */
  lemma PalindromeMirror(s: seq<bool>)
    ensures IsPalindrome(s) <==> forall k :: 0 <= k < |s| ==> s[k] == s[|s| - 1 - k]
  {
    ReverseAt(s);
  }

  /** Symmetry law: a sequence and its reverse are both palindromes or
      neither is. */
  lemma PalindromeSymmetry(s: seq<bool>)
    ensures IsPalindrome(s) <==> IsPalindrome(Reverse(s))
  {
    ReverseReverse(s);
  }

  /** Sequences of length 0 and 1 are palindromes. */
  lemma ShortIsPalindrome(s: seq<bool>)
    requires |s| <= 1
    ensures IsPalindrome(s)
  {
  }

  /**
   * The two-pointer scan over morseCode[0..morseLength): compares the symbols
   * at left and right, moving both inwards, and stops at the first mismatch.
   */
  method CheckPalindrome(morseCode: array<bool>, morseLength: nat) returns (isPalindrome: bool)
    requires morseLength <= morseCode.Length
    ensures isPalindrome <==> IsPalindrome(morseCode[..morseLength])
  {
    ghost var s := morseCode[..morseLength];
    PalindromeMirror(s);
    isPalindrome := true;
    var left := 0;
    var right := morseLength - 1;
    while left < right
      invariant 0 <= left <= right + 1 <= morseLength
      invariant left + right == morseLength - 1
      invariant forall k :: 0 <= k < left ==> s[k] == s[morseLength - 1 - k]
    {
      if morseCode[left] != morseCode[right] {
        assert s[left] != s[morseLength - 1 - left];
        isPalindrome := false;
        break;
      }
      left := left + 1;
      right := right - 1;
    }
    if isPalindrome {
      forall k | 0 <= k < morseLength ensures s[k] == s[morseLength - 1 - k] {
        if left <= k && morseLength - 1 - k >= left {
          assert k == morseLength - 1 - k;
        }
      }
    }
  }
}
