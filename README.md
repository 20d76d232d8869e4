# Morse palindrome finder, modelled in Dafny

The program scans a dictionary and reports each word whose Morse code reads
the same forwards and backwards: "ya" is `-.--.-`. It has five parts, and
each gets one module here:

- `MorseTable` (morse_table.dfy): the fixed, length-prefixed table
  `MorseAlphabet` that gives the International Morse code of 'a' to 'z'. A
  dot is `true` and a dash is `false`. The module also holds the dot/dash
  text form of a symbol sequence (`Render`) and its inverse (`Parse`).
- `Translator` (translator.dfy): the word translator. `EncodeSpec` is the
  specification: `None` for a word with a character outside 'a' to 'z',
  otherwise the concatenation of its letters' symbols. The method `Encode`
  is the program's loop. It fills a reusable `array<bool>` buffer in place
  and is proved against `EncodeSpec`.
- `Palindrome` (palindrome.dfy): the two-pointer scan `CheckPalindrome`
  over the buffer's filled prefix. It is proved to answer exactly
  `s == Reverse(s)`.
- `Reporter` (reporter.dfy): the output line `[n] word: ( symbols )`.
  `Digits` writes a number in decimal. `RenderLine` is the printing loop.
- `Finder` (finder.dfy): the dictionary scan `FindMorsePalindromes`. It
  reuses one 100-slot buffer and keeps the running count. It returns the
  printed lines and the final count, both proved equal to
  specification functions (`Output`, `Matches`).

`Wrappers` (wrappers.dfy) holds the `Option` type.

The input is the dictionary's sequence of tokens. The output is the
sequence of printed lines. The program prints the symbols with no
separator (PalindromeFinder.java:143-144): `ya` is printed as
`[k] ya: ( -.--.- )`.

An empty token translates to the empty symbol sequence, which is a
palindrome, so the model reports it as `[n] : (  )` (`EmptyTokenIsReported`).
The program gets its tokens from `Scanner.next`, which never returns an
empty one, so this case does not arise there.

Running the scan twice gives the same output: `FindMorsePalindromes`
returns `Output(words)`, which is a function of the tokens alone.

## Model

| member | source | states |
|---|---|---|
| MorseTable.TableWellFormed | PalindromeFinder.java:21-52 | the table has 26 rows; each row's prefix is between 1 and 4 and counts the entries after it; every such entry is 0 or 1 |
| MorseTable.TableMatchesItu | PalindromeFinder.java:25-51 | every row, with entry 1 read as a dot and 0 as a dash, spells the code in the comment beside it (International Morse), for all 26 letters |
| MorseTable.IsLetterExactly | PalindromeFinder.java:98-101 | the offset test `0 <= c - 'a' <= 25` accepts exactly the characters 'a' to 'z'; upper case, digits and punctuation fail it |
| MorseTable.SymbolCount | PalindromeFinder.java:107 | a letter's length prefix is between 1 and 4 |
| MorseTable.RowSymbols | PalindromeFinder.java:109-110 | a row yields as many symbols as its prefix says |
| MorseTable.Symbols | PalindromeFinder.java:106-110 | the symbols read from a letter's row number exactly its length prefix |
| MorseTable.RenderAt | PalindromeFinder.java:143-144 | rendering writes one character per symbol, `.` for a dot and `-` for a dash, in the original order and with no separators |
| MorseTable.RenderIsMorseText | PalindromeFinder.java:143-144 | rendered text holds only dots and dashes |
| MorseTable.ParseRender | PalindromeFinder.java:143-144 | reading the rendered text back gives the symbol sequence it came from |
| MorseTable.RenderParse | PalindromeFinder.java:143-144 | every dot/dash text is the rendering of the sequence read from it |
| MorseTable.RenderInjective | PalindromeFinder.java:143-144 | two symbol sequences that render alike are equal |
| Translator.EncodeRejects | PalindromeFinder.java:98-104 | a word is rejected if and only if one of its characters lies outside 'a' to 'z' |
| Translator.EncodeIsConcatenation | PalindromeFinder.java:96-113 | a valid word translates to the concatenation, in the word's order, of its letters' table rows |
| Translator.EncodeConcat | PalindromeFinder.java:96-113 | the translation of `u + v` is the translation of u followed by that of v, and is rejected when either part is |
| Translator.EncodeLength | PalindromeFinder.java:107-112 | the translation of a valid word is as long as the sum of its letters' length prefixes |
| Translator.WrittenCountBound | PalindromeFinder.java:80-84 | a word of n characters writes at most 4·n symbols into the buffer |
| Translator.BufferBound | PalindromeFinder.java:80-84 | a word of at most 25 characters never writes past the 100-slot buffer |
| Translator.CopySymbols | PalindromeFinder.java:106-110 | the inner loop appends a row's symbols after slot `at`, in order, leaves the earlier slots alone and returns the row's length prefix |
| Translator.Encode | PalindromeFinder.java:91-113 | the translation loop reports the word valid exactly when `EncodeSpec` accepts it, and then the buffer's first `morseLength` slots hold that translation; it needs only that no write passes the buffer's end |
| Palindrome.PalindromeMirror | PalindromeFinder.java:124-133 | a sequence equals its reverse if and only if each symbol equals its mirror `s[n-1-k]` |
| Palindrome.PalindromeSymmetry | PalindromeFinder.java:119-133 | a sequence is a palindrome if and only if its reverse is |
| Palindrome.ShortIsPalindrome | PalindromeFinder.java:119-124 | sequences of length 0 and 1 are palindromes |
| Palindrome.CheckPalindrome | PalindromeFinder.java:119-133 | the two-pointer scan returns true exactly when `morseCode[0..morseLength)` equals its reverse |
| Reporter.DigitsWellFormed | PalindromeFinder.java:141 | the printed count is a non-empty run of decimal digits with no leading zero |
| Reporter.DecimalRoundTrip | PalindromeFinder.java:141 | reading the printed count back gives the count |
| Reporter.DigitsInjective | PalindromeFinder.java:141 | different counts print differently |
| Reporter.ReportLineInjective | PalindromeFinder.java:141-146 | for words without a colon, a line determines the count, the word and the symbols it was printed from |
| Reporter.RenderLine | PalindromeFinder.java:141-146 | the printing loop builds `"[" + n + "] " + word + ": ( "`, then one dot or dash per buffer symbol in order, then `" )\n"` |
| Finder.Matches | PalindromeFinder.java:87-147 | no more words are reported than scanned, and every reported word translates to a palindrome |
| Finder.OutputStep | PalindromeFinder.java:137-141 | one more word raises the count by exactly one and adds one line, numbered with the new count, if it is a valid Morse palindrome; otherwise it changes neither |
| Finder.RejectedWordIsSkipped | PalindromeFinder.java:115-117 | a word with any character outside 'a' to 'z' changes neither the count nor the output |
| Finder.MatchesAppend | PalindromeFinder.java:87-148 | reported words keep dictionary order: scanning `a + b` reports a's matches and then b's |
| Finder.MatchesMembers | PalindromeFinder.java:137-141 | a word is reported if and only if it is in the dictionary and is a valid Morse palindrome |
| Finder.OutputExtends | PalindromeFinder.java:141-146 | output is append-only: the lines of any prefix of the dictionary begin the lines of the whole |
| Finder.MatchHasNoColon | PalindromeFinder.java:98-104 | a reported word is made of letters only (`ValidWord`), so it holds no colon and its line can be read back |
| Finder.OutputNumbering | PalindromeFinder.java:139-141 | the k-th line (from 0) carries the number k + 1, the k-th reported word and that word's translation |
| Finder.FindMorsePalindromes | PalindromeFinder.java:75-148 | the scan returns exactly `Output(words)`, and its final count is the number of lines and of reported words |
| Finder.YaIsMorsePalindrome | PalindromeFinder.java:5-9 | "ya" translates to `-.--.-`, which is a palindrome |
| Finder.SingleLetters | PalindromeFinder.java:26-30 | "a" (`.-`) is not a palindrome and "e" (`.`) is |
| Finder.OutputOfOneWord | PalindromeFinder.java:137-141 | a one-word dictionary prints one line numbered 1 if the word is a match, else nothing |
| Finder.SampleLineTexts | PalindromeFinder.java:141-146 | the lines for "e" and "ya" read `[1] e: ( . )` and `[2] ya: ( -.--.- )` |
| Finder.SampleLines | PalindromeFinder.java:137-146 | the empty dictionary, "a" alone and "hi2" alone print nothing; "e" alone prints `[1] e: ( . )` |
| Finder.EmptyTokenIsReported | PalindromeFinder.java:119-124 | an empty token has the empty translation, a palindrome, and prints `[1] : (  )` |
| Finder.SampleScanPrefix | PalindromeFinder.java:87-147 | scanning "a", "e", "hi2" counts one match and prints the line for "e" |
| Finder.SampleScan | PalindromeFinder.java:87-147 | scanning "a", "e", "hi2", "ya" prints the lines for "e" and "ya", numbered 1 and 2 |

## Left out

- Opening `words.txt` and splitting it into tokens with a `Scanner`, and the
  `FileNotFoundException` that propagates from `main`, are I/O. The model
  takes the tokens as a `seq<string>`.
- `System.out.print` is modelled as a returned sequence of lines, one per
  match. The pieces the program prints separately are joined into one line.
- Encode: rules out the `ArrayIndexOutOfBoundsException` by a precondition
  instead of modelling it. The precondition is the exact one: the symbols
  written before the loop stops must fit the buffer. `BufferBound` shows
  that words of up to 25 characters meet it.
- The buffer slots after `morseLength` keep what earlier words wrote there.
  Nothing reads them, and the contracts speak only of the filled prefix.
- FindMorsePalindromes: counts with an unbounded `nat`. Java's `int` would
  wrap after 2^31 - 1 matches, far beyond any dictionary.
- Java's `charAt` gives UTF-16 code units, and a Dafny `char` is a Unicode
  scalar value. Both kinds of character outside 'a' to 'z' are rejected,
  so the two agree on every word.
- The table is `static final` and only read. It is a constant here.
