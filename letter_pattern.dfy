/**
  The regular expression both validators end with,
  `re.match(r"^[a-zA-ZäöåÄÖÅüÜýÝÿŸ]+$", s)`, with Python's meaning of `$`:
  it matches at the end of the string and also just before a final newline.
*/
module LetterPattern {
  import opened Text

  /** One character of the class `[a-zA-ZäöåÄÖÅüÜýÝÿŸ]`. */
  predicate InLetterClass(c: char) {
    || ('a' <= c <= 'z')
    || ('A' <= c <= 'Z')
    || c in "äöåÄÖÅüÜýÝÿŸ"
  }

  predicate AllLetters(s: string) {
    forall i :: 0 <= i < |s| ==> InLetterClass(s[i])
  }

  /** `re.match(r"^[...]+$", s)` is truthy. */
  predicate MatchesLetterPattern(s: string) {
    || (s != [] && AllLetters(s))
    || (|s| >= 2 && s[|s| - 1] == '\n' && AllLetters(s[..|s| - 1]))
  }

  /** Without a final newline the pattern means exactly "non-empty and letters only". */
  lemma MatchWithoutFinalNewline(s: string)
    requires s == [] || s[|s| - 1] != '\n'
    ensures MatchesLetterPattern(s) <==> s != [] && AllLetters(s)
  {
  }

  /** A string made only of characters of the letter class contains no whitespace. */
  lemma {:induction false} MatchedLettersAreNotSpace(s: string)
    requires AllLetters(s)
    ensures NoSpace(s)
  {
    forall i | 0 <= i < |s| ensures !IsSpace(s[i]) {
      assert InLetterClass(s[i]);
    }
  }

  lemma LowerKeepsLetterClass(c: char)
    requires InLetterClass(c)
    ensures InLetterClass(LowerChar(c))
  {
  }

  /** Lower-casing keeps a matching string matching. */
  lemma LowerKeepsMatch(s: string)
    requires MatchesLetterPattern(s)
    ensures MatchesLetterPattern(Lower(s))
  {
    var l := Lower(s);
    forall i | 0 <= i < |s| && InLetterClass(s[i]) ensures InLetterClass(l[i]) {
      LowerKeepsLetterClass(s[i]);
    }
    if !(s != [] && AllLetters(s)) {
      assert l[|s| - 1] == '\n';
      assert l[..|s| - 1] == Lower(s[..|s| - 1]);
    }
  }
}
