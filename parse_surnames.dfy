/**
  The batch import (parse_surnames.py): the surname validator, the cleaning of
  a surname cell, the per-row processing with its validation statistics, and
  the aggregation of counts into a replacement `guesses` table.
*/
module ParseSurnames {
  import opened Wrappers
  import opened Text
  import opened LetterPattern
  import opened GuessesTable

  const MinSurnameLength := 6
  const MaxSurnameLength := 15
  const MinTableColumns := 3
  const ValidStartingLetters: seq<string> := ["z", "s", "t", "c"]

  // ---------------------------------------------------------------------------
  // Validation
  // ---------------------------------------------------------------------------

  /** `is_valid_surname`: length 6..15, lower-cased start in z/s/t/c, then the letter pattern. */
  predicate IsValidSurname(surname: string) {
    if surname == [] || |surname| < MinSurnameLength || |surname| > MaxSurnameLength then false
    else
      var surnameLower := Lower(surname);
      if !StartsWithAny(surnameLower, ValidStartingLetters) then false
      else MatchesLetterPattern(surname)
  }

  /** The starting-letter rule read as a character test. */
  predicate StartsWithValidLetter(s: string) {
    s != [] && LowerChar(s[0]) in "zstc"
  }

  lemma StartingLetterRule(s: string)
    ensures StartsWithAny(Lower(s), ValidStartingLetters) <==> StartsWithValidLetter(s)
  {
    var l := Lower(s);
    if StartsWithValidLetter(s) {
      var k := if l[0] == 'z' then 0 else if l[0] == 's' then 1 else if l[0] == 't' then 2 else 3;
      assert StartsWith(l, ValidStartingLetters[k]);
    }
    if StartsWithAny(l, ValidStartingLetters) {
      var k :| 0 <= k < |ValidStartingLetters| && StartsWith(l, ValidStartingLetters[k]);
      assert l[..1] == ValidStartingLetters[k];
      assert l[0] == ValidStartingLetters[k][0];
    }
  }

  /**
    A surname is valid exactly when its length is within the inclusive bounds,
    its lower-cased first letter is z, s, t or c, and the letter pattern matches it.
  */
  lemma IsValidSurnameRules(s: string)
    ensures IsValidSurname(s) <==>
      && MinSurnameLength <= |s| <= MaxSurnameLength
      && StartsWithValidLetter(s)
      && MatchesLetterPattern(s)
  {
    StartingLetterRule(s);
  }

  /** For a string that does not end in a newline (any stripped or cleaned text) the letter rule is plain. */
  lemma IsValidSurnameWithoutFinalNewline(s: string)
    requires s == [] || s[|s| - 1] != '\n'
    ensures IsValidSurname(s) <==>
      && MinSurnameLength <= |s| <= MaxSurnameLength
      && StartsWithValidLetter(s)
      && AllLetters(s)
  {
    IsValidSurnameRules(s);
    MatchWithoutFinalNewline(s);
  }

  /** Python's `$` lets one final newline through: "zyskow\n" is accepted. */
  lemma FinalNewlineAccepted()
    ensures IsValidSurname("zyskow\n")
  {
    var s := "zyskow\n";
    assert s[..|s| - 1] == "zyskow";
    assert AllLetters("zyskow");
    IsValidSurnameRules(s);
  }

  /** The length bounds are inclusive: lengths 6 and 15 can pass, lengths 5 and 16 never do. */
  lemma LengthBoundsInclusive()
    ensures IsValidSurname("zzzzzz") && IsValidSurname("zzzzzzzzzzzzzzz")
    ensures forall s: string :: |s| == 5 || |s| == 16 ==> !IsValidSurname(s)
  {
    IsValidSurnameRules("zzzzzz");
    IsValidSurnameRules("zzzzzzzzzzzzzzz");
  }

  /** The lower-cased form of a valid surname is valid again and lower-casing it once more changes nothing. */
  lemma LoweredSurnameCanonical(s: string)
    requires IsValidSurname(s)
    ensures IsValidSurname(Lower(s)) && Lower(Lower(s)) == Lower(s)
  {
    IsValidSurnameRules(s);
    IsValidSurnameRules(Lower(s));
    LowerKeepsMatch(s);
    LowerIdempotent(s);
  }

  // ---------------------------------------------------------------------------
  // Cleaning a surname
  // ---------------------------------------------------------------------------

  /** Every `<` that is still there is directly followed by `>`, or no `>` comes after it. */
  predicate TagFree(s: string) {
    forall i :: 0 <= i < |s| && s[i] == '<' ==> StartsWith(s[i..], "<>") || '>' !in s[i..]
  }

  /** `re.sub(r"<[^>]+>", "", s)`: removes `<`, one or more characters other than `>`, then `>`, scanning from the left. */
  function RemoveTags(s: string): (r: string)
    ensures |r| <= |s|
    ensures '>' !in s ==> '>' !in r
    ensures s != [] && s[0] == '>' ==> r != [] && r[0] == '>'
    ensures TagFree(r)
    ensures '<' !in s ==> r == s
    decreases |s|
  {
    if s == [] then []
    else
      var close := 1 + IndexOf(s[1..], '>');
      if s[0] == '<' && 2 <= close < |s| then
        assert s[close] == '>';
        RemoveTags(s[close + 1..])
      else
        var rest := RemoveTags(s[1..]);
        assert s[0] == '<' ==> (rest != [] && rest[0] == '>') || '>' !in rest by {
          if s[0] == '<' && close < |s| {
            assert close == 1 && s[1] == '>';
          } else if s[0] == '<' {
            assert s[1..][..close - 1] == s[1..];
          }
        }
        ConsTagFree(s[0], rest);
        var r := [s[0]] + rest;
        assert s == [s[0]] + s[1..];
        r
  }

  /** Text before the first `<` is kept as it is. */
  lemma {:induction false} RemoveTagsKeepsPlainPrefix(a: string, b: string)
    requires '<' !in a
    ensures RemoveTags(a + b) == a + RemoveTags(b)
    decreases |a|
  {
    if a == [] {
      assert a + b == b;
    } else {
      PlainHead(a, b, RemoveTags(b));
      RemoveTagsCons(a[0], a[1..] + b);
      RemoveTagsKeepsPlainPrefix(a[1..], b);
    }
  }

  lemma PlainHead(a: string, b: string, r: string)
    requires a != [] && '<' !in a
    ensures a[0] != '<' && '<' !in a[1..]
    ensures a + b == [a[0]] + (a[1..] + b) && a + r == [a[0]] + (a[1..] + r)
  {
    HeadAndTail(a);
  }

  /** A first character other than `<` is kept. */
  lemma RemoveTagsCons(c: char, t: string)
    requires c != '<'
    ensures RemoveTags([c] + t) == [c] + RemoveTags(t)
  {
    assert ([c] + t)[1..] == t;
  }

  /** A `<` that opens no tag (nothing follows, `>` follows at once, or no `>` comes later) is kept. */
  lemma RemoveTagsKeepsStrayOpen(b: string)
    requires b == [] || b[0] == '>' || '>' !in b
    ensures RemoveTags("<" + b) == "<" + RemoveTags(b)
  {
    assert ("<" + b)[1..] == b;
  }

  /** A tag, `<`, one or more characters other than `>`, then `>`, is removed and the scan goes on after it. */
  lemma RemoveTagsDropsTag(t: string, b: string)
    requires t != [] && '>' !in t
    ensures RemoveTags("<" + t + ">" + b) == RemoveTags(b)
  {
    var s := "<" + t + ">" + b;
    assert s[1..] == t + ['>'] + b;
    IndexOfFirst(t, '>', b);
    assert s[|t| + 2..] == b;
  }

  /** A tag between two texts without `<` goes, and both texts are kept: "zysko<b>wicz" becomes "zyskowicz". */
  lemma RemoveTagsOfMarkedName(a: string, t: string, b: string)
    requires '<' !in a && '<' !in b && t != [] && '>' !in t
    ensures RemoveTags(a + ("<" + t + ">" + b)) == a + b
  {
    RemoveTagsKeepsPlainPrefix(a, "<" + t + ">" + b);
    RemoveTagsDropsTag(t, b);
  }

  /** A character in front of a tag-free text keeps it tag-free unless it is a `<` that would open a tag. */
  lemma ConsTagFree(c: char, rest: string)
    requires TagFree(rest)
    requires c == '<' ==> (rest != [] && rest[0] == '>') || '>' !in rest
    ensures TagFree([c] + rest)
  {
    var r := [c] + rest;
    forall i | 0 <= i < |r| && r[i] == '<' ensures StartsWith(r[i..], "<>") || '>' !in r[i..] {
      if i == 0 {
        if rest != [] && rest[0] == '>' {
          assert r[..2] == "<>";
        } else {
          assert r[1..] == rest;
        }
      } else {
        assert r[i..] == rest[i - 1..];
      }
    }
  }

  /** At most one whitespace character in a row, and every whitespace character is a plain space. */
  ghost predicate SingleSpaced(s: string) {
    && (forall i :: 0 <= i < |s| && IsSpace(s[i]) ==> s[i] == ' ')
    && (forall i, j :: 0 <= i && j == i + 1 && j < |s| && IsSpace(s[i]) ==> !IsSpace(s[j]))
  }

  /** `s` with its whitespace taken out. */
  function NonSpace(s: string): string {
    if s == [] then []
    else if IsSpace(s[|s| - 1]) then NonSpace(s[..|s| - 1])
    else NonSpace(s[..|s| - 1]) + [s[|s| - 1]]
  }

  lemma {:induction false} NonSpaceConcat(a: string, b: string)
    ensures NonSpace(a + b) == NonSpace(a) + NonSpace(b)
    decreases |b|
  {
    if b != [] {
      assert (a + b)[..|a + b| - 1] == a + b[..|b| - 1];
      NonSpaceConcat(a, b[..|b| - 1]);
    } else {
      assert a + b == a;
    }
  }

  lemma {:induction false} NonSpaceOfWhitespace(s: string)
    requires AllSpace(s)
    ensures NonSpace(s) == []
  {
    if s != [] {
      NonSpaceOfWhitespace(s[..|s| - 1]);
    }
  }

  /** `re.sub(r"\s+", " ", s)`: every run of whitespace becomes one plain space. */
  function CollapseWhitespace(s: string): (r: string)
    ensures s == [] <==> r == []
    ensures s != [] ==> (IsSpace(r[0]) <==> IsSpace(s[0]))
    decreases |s|
  {
    if s == [] then []
    else if IsSpace(s[0]) then [' '] + CollapseWhitespace(TrimLeft(s))
    else [s[0]] + CollapseWhitespace(s[1..])
  }

  /**
    No two whitespace characters in a row and every one a plain space, with
    the same non-whitespace characters as the input.
  */
  lemma {:induction false} CollapseShape(s: string)
    ensures SingleSpaced(CollapseWhitespace(s))
    ensures NonSpace(CollapseWhitespace(s)) == NonSpace(s)
    decreases |s|
  {
    if s != [] {
      if IsSpace(s[0]) {
        var t := TrimLeft(s);
        CollapseShape(t);
        CollapseSpaceStep(s, CollapseWhitespace(t));
      } else {
        CollapseShape(s[1..]);
        CollapseWordStep(s, CollapseWhitespace(s[1..]));
      }
    }
  }

  /** A whitespace run at the front becomes one space in front of the collapsed rest. */
  lemma CollapseSpaceStep(s: string, rest: string)
    requires s != [] && IsSpace(s[0])
    requires SingleSpaced(rest) && NonSpace(rest) == NonSpace(TrimLeft(s))
    requires rest == [] || !IsSpace(rest[0])
    ensures SingleSpaced([' '] + rest) && NonSpace([' '] + rest) == NonSpace(s)
  {
    ConsSingleSpaced(' ', rest);
    NonSpaceCons(' ', rest);
    NonSpaceTrimLeft(s);
  }

  /** A non-whitespace character at the front stays in front of the collapsed rest. */
  lemma CollapseWordStep(s: string, rest: string)
    requires s != [] && !IsSpace(s[0])
    requires SingleSpaced(rest) && NonSpace(rest) == NonSpace(s[1..])
    ensures SingleSpaced([s[0]] + rest) && NonSpace([s[0]] + rest) == NonSpace(s)
  {
    ConsSingleSpaced(s[0], rest);
    NonSpaceCons(s[0], rest);
    NonSpaceCons(s[0], s[1..]);
    HeadAndTail(s);
  }

  /** Collapsing leaves a text that is already single-spaced (in particular one with no whitespace) as it is. */
  lemma {:induction false} CollapseKeepsSingleSpaced(s: string)
    ensures SingleSpaced(s) ==> CollapseWhitespace(s) == s
    ensures NoSpace(s) ==> CollapseWhitespace(s) == s
    decreases |s|
  {
    if s != [] && SingleSpaced(s) {
      var r := CollapseWhitespace(s);
      SingleSpacedTail(s);
      CollapseKeepsSingleSpaced(s[1..]);
      if IsSpace(s[0]) {
        SingleSpacedSpaceHead(s);
        assert r == [' '] + CollapseWhitespace(s[1..]);
      } else {
        assert r == [s[0]] + CollapseWhitespace(s[1..]);
      }
      assert s == [s[0]] + s[1..];
    }
    if NoSpace(s) {
      NoSpaceSingleSpaced(s);
      if s != [] {
        SingleSpacedTail(s);
        CollapseKeepsSingleSpaced(s[1..]);
        assert CollapseWhitespace(s) == [s[0]] + CollapseWhitespace(s[1..]);
        assert s == [s[0]] + s[1..];
      }
    }
  }

  lemma NoSpaceSingleSpaced(s: string)
    ensures NoSpace(s) ==> SingleSpaced(s)
  {
  }

  /** The collapsed text ends with whitespace exactly when the input does. */
  lemma {:induction false} CollapseKeepsLastSpace(s: string)
    requires s != []
    ensures IsSpace(CollapseWhitespace(s)[|CollapseWhitespace(s)| - 1]) <==> IsSpace(s[|s| - 1])
    decreases |s|
  {
    var r := CollapseWhitespace(s);
    if IsSpace(s[0]) {
      var t := TrimLeft(s);
      assert r == [' '] + CollapseWhitespace(t);
      SpaceRunEnd(s);
      if t != [] {
        CollapseKeepsLastSpace(t);
      }
    } else if |s| > 1 {
      assert r == [s[0]] + CollapseWhitespace(s[1..]);
      CollapseKeepsLastSpace(s[1..]);
    }
  }

  /** The whitespace run at the front of `s` is all of `s`, or `s` ends where `TrimLeft(s)` ends. */
  lemma SpaceRunEnd(s: string)
    requires s != [] && IsSpace(s[0])
    ensures TrimLeft(s) == [] ==> IsSpace(s[|s| - 1])
    ensures TrimLeft(s) != [] ==> TrimLeft(s)[|TrimLeft(s)| - 1] == s[|s| - 1]
  {
    var t := TrimLeft(s);
    assert s[..|s| - |t|][|s| - 1 - |t|] == s[|s| - 1 - |t|];
  }

  /** A single-spaced text that starts with whitespace starts with one plain space followed by the rest. */
  lemma SingleSpacedSpaceHead(s: string)
    requires s != [] && IsSpace(s[0])
    ensures SingleSpaced(s) ==> s[0] == ' ' && TrimLeft(s) == s[1..] && SingleSpaced(s[1..])
  {
    if SingleSpaced(s) {
      assert s == [s[0]] + s[1..];
      assert s[1..] == [] || !IsSpace(s[1..][0]) by {
        if |s| > 1 {
          assert IsSpace(s[0]) ==> !IsSpace(s[1]);
        }
      }
      TrimLeftSkipsSpace([s[0]], s[1..]);
      SingleSpacedSlice(s, 1, |s|);
    }
  }

  lemma SingleSpacedTail(s: string)
    requires s != []
    ensures SingleSpaced(s) ==> SingleSpaced(s[1..])
  {
    if SingleSpaced(s) {
      SingleSpacedSlice(s, 1, |s|);
    }
  }

  /** Collapsing whitespace keeps the words: `split()` of the result is `split()` of the input. */
  lemma {:induction false} CollapseKeepsWords(s: string)
    ensures Words(CollapseWhitespace(s)) == Words(s)
    decreases |s|
  {
    if s != [] {
      if IsSpace(s[0]) {
        var t := TrimLeft(s);
        var rest := CollapseWhitespace(t);
        assert CollapseWhitespace(s) == [' '] + rest;
        CollapseKeepsWords(t);
        assert rest == [] || !IsSpace(rest[0]);
        WordsSpaceCons(rest);
        WordsSkipSpace(s);
      } else {
        var rest := CollapseWhitespace(s[1..]);
        assert CollapseWhitespace(s) == [s[0]] + rest;
        CollapseKeepsWords(s[1..]);
        WordsConsCongruent(s, rest);
      }
    }
  }

  /** One space in front of a text that does not start with whitespace adds no word. */
  lemma WordsSpaceCons(rest: string)
    requires rest == [] || !IsSpace(rest[0])
    ensures Words([' '] + rest) == Words(rest)
  {
    WordsSkipSpace([' '] + rest);
    TrimLeftSkipsSpace([' '], rest);
  }

  /**
    Replacing what follows the first character of `s` by a text with the same
    words, starting with a word exactly when the original tail does, keeps the words.
  */
  lemma WordsConsCongruent(s: string, y: string)
    requires s != [] && !IsSpace(s[0]) && Words(s[1..]) == Words(y)
    requires (s[1..] != [] && !IsSpace(s[1])) == (y != [] && !IsSpace(y[0]))
    ensures Words(s) == Words([s[0]] + y)
  {
    HeadAndTail(s);
    WordsOfCons(s[0], s[1..]);
    WordsOfCons(s[0], y);
  }

  lemma SplitAt<T>(s: seq<T>, k: nat)
    requires k <= |s|
    ensures s == s[..k] + s[k..]
  {
  }

  lemma HeadAndTail<T>(s: seq<T>)
    requires s != []
    ensures s == [s[0]] + s[1..]
  {
  }

  /** A plain space may go in front of a single-spaced string that does not start with whitespace; any other character in front of any. */
  lemma ConsSingleSpaced(c: char, rest: string)
    requires SingleSpaced(rest)
    requires IsSpace(c) ==> c == ' ' && (rest == [] || !IsSpace(rest[0]))
    ensures SingleSpaced([c] + rest)
  {
    var r := [c] + rest;
    assert forall i :: 1 <= i < |r| ==> r[i] == rest[i - 1];
  }

  lemma NonSpaceCons(c: char, rest: string)
    ensures NonSpace([c] + rest) == (if IsSpace(c) then [] else [c]) + NonSpace(rest)
  {
    NonSpaceConcat([c], rest);
    assert [c][..0] == [];
  }

  /** Leading whitespace carries no characters of `NonSpace`. */
  lemma NonSpaceTrimLeft(s: string)
    ensures NonSpace(TrimLeft(s)) == NonSpace(s)
  {
    var t := TrimLeft(s);
    var pad := s[..|s| - |t|];
    SplitAt(s, |s| - |t|);
    assert s == pad + t;
    NonSpaceDropSpace(pad, t);
  }

  lemma NonSpaceDropSpace(pad: string, t: string)
    requires AllSpace(pad)
    ensures NonSpace(pad + t) == NonSpace(t)
  {
    NonSpaceOfWhitespace(pad);
    NonSpaceConcat(pad, t);
    assert [] + NonSpace(t) == NonSpace(t);
  }

  lemma SingleSpacedSlice(s: string, lo: nat, hi: nat)
    requires SingleSpaced(s) && lo <= hi <= |s|
    ensures SingleSpaced(s[lo..hi])
  {
    var t := s[lo..hi];
    forall i, j | 0 <= i && j == i + 1 && j < |t| && IsSpace(t[i]) ensures !IsSpace(t[j]) {
      assert t[i] == s[lo + i] && t[j] == s[lo + j];
    }
  }

  lemma StripKeepsSingleSpacing(s: string)
    requires SingleSpaced(s)
    ensures SingleSpaced(Strip(s))
  {
    var t := TrimLeft(s);
    SingleSpacedSlice(s, |s| - |t|, |s|);
    SingleSpacedSlice(t, 0, |TrimRight(t)|);
  }

  lemma StripKeepsNonSpace(s: string)
    ensures NonSpace(Strip(s)) == NonSpace(s)
  {
    NonSpaceTrimLeft(s);
    NonSpaceTrimRight(TrimLeft(s));
  }

  /** Trailing whitespace carries no characters of `NonSpace`. */
  lemma NonSpaceTrimRight(t: string)
    ensures NonSpace(TrimRight(t)) == NonSpace(t)
  {
    var r := TrimRight(t);
    assert t == r + t[|r|..];
    NonSpaceConcat(r, t[|r|..]);
    NonSpaceOfWhitespace(t[|r|..]);
  }

  /** `clean_surname`: remove tags, collapse whitespace, strip. */
  function CleanSurname(surname: string): string {
    Strip(CollapseWhitespace(RemoveTags(surname)))
  }

  /** A name that is already clean (no tag, single plain spaces, no whitespace at the ends) is kept as it is. */
  lemma CleanSurnameKeepsCleanName(s: string)
    requires '<' !in s && SingleSpaced(s)
    requires s == [] || (!IsSpace(s[0]) && !IsSpace(s[|s| - 1]))
    ensures CleanSurname(s) == s
  {
    CollapseKeepsSingleSpaced(s);
    StripOfTrimmed(s);
  }

  /** A clean name with a tag inside cleans to the name without the tag. */
  lemma CleanSurnameOfMarkedName(a: string, t: string, b: string)
    requires '<' !in a && '<' !in b && t != [] && '>' !in t
    requires var n := a + b; SingleSpaced(n) && (n == [] || (!IsSpace(n[0]) && !IsSpace(n[|n| - 1])))
    ensures CleanSurname(a + ("<" + t + ">" + b)) == a + b
  {
    RemoveTagsOfMarkedName(a, t, b);
    CleanSurnameKeepsCleanName(a + b);
  }

  /** "zysko<b>wicz" cleans to "zyskowicz". */
  lemma CleanMarkedZyskowicz(s: string)
    requires s == "zysko<b>wicz"
    ensures RemoveTags(s) == "zyskowicz"
  {
    var a, t, b := MarkedZyskowiczParts(s);
    RemoveTagsOfMarkedName(a, t, b);
  }

  /** The whole cleaning of "zysko<b>wicz" gives "zyskowicz". */
  lemma CleanZyskowicz(s: string)
    requires s == "zysko<b>wicz"
    ensures CleanSurname(s) == "zyskowicz"
  {
    var a, t, b := MarkedZyskowiczParts(s);
    NoSpaceSingleSpaced(a + b);
    CleanSurnameOfMarkedName(a, t, b);
  }

  lemma MarkedZyskowiczParts(s: string) returns (a: string, t: string, b: string)
    requires s == "zysko<b>wicz"
    ensures s == a + ("<" + t + ">" + b) && a + b == "zyskowicz"
    ensures '<' !in a && '<' !in b && t != [] && '>' !in t && NoSpace(a + b)
  {
    a, t, b := "zysko", "b", "wicz";
  }

  /**
    A cleaned surname has no whitespace at either end, every whitespace
    character left is a single plain space, and apart from whitespace it has
    exactly the characters the tag removal left.
  */
  lemma CleanSurnameShape(surname: string)
    ensures var r := CleanSurname(surname);
      && (r == [] || (!IsSpace(r[0]) && !IsSpace(r[|r| - 1])))
      && SingleSpaced(r)
      && NonSpace(r) == NonSpace(RemoveTags(surname))
  {
    CollapseStripShape(RemoveTags(surname));
  }

  lemma CollapseStripShape(s: string)
    ensures var r := Strip(CollapseWhitespace(s));
      && (r == [] || (!IsSpace(r[0]) && !IsSpace(r[|r| - 1])))
      && SingleSpaced(r)
      && NonSpace(r) == NonSpace(s)
  {
    CollapseShape(s);
    StripShape(CollapseWhitespace(s));
  }

  /** Stripping a single-spaced text leaves it single-spaced with no whitespace at the ends and the same non-whitespace characters. */
  lemma StripShape(s: string)
    requires SingleSpaced(s)
    ensures var r := Strip(s);
      && (r == [] || (!IsSpace(r[0]) && !IsSpace(r[|r| - 1])))
      && SingleSpaced(r)
      && NonSpace(r) == NonSpace(s)
  {
    StripKeepsSingleSpacing(s);
    StripKeepsNonSpace(s);
  }

  // ---------------------------------------------------------------------------
  // Rows of the results table
  // ---------------------------------------------------------------------------

  /** The texts of one table row's cells (`get_text(strip=True)` already applied). */
  type Row = seq<string>

  const CorrectAnswerMarker := "oikea vastaus"
  const CorrectAnswerLabel := "(oikea vastaus)"

  /** What happened to one counted name; `AnswerRejected` is the correct-answer row failing validation. */
  datatype Verdict = Accepted | TooShort | TooLong | WrongStart | InvalidChars | AnswerRejected

  /** One name that entered the statistics, with its row's count. */
  datatype Entry = Entry(name: string, count: int, verdict: Verdict)

  /** The `validation_stats` dictionary. */
  datatype Stats = Stats(
    totalEntries: nat,
    totalSubmissions: int,
    validEntries: nat,
    validSubmissions: int,
    rejectedTooShort: nat,
    rejectedWrongStart: nat,
    rejectedInvalidChars: nat,
    rejectedTooLong: nat)

  const NoStats := Stats(0, 0, 0, 0, 0, 0, 0, 0)

  /** A count cell: spaces and no-break spaces removed, then `int()`; `None` is the ValueError. */
  function ParseCount(countText: string): Option<int> {
    ParseInt(ReplaceAll(ReplaceAll(countText, " ", ""), "\U{A0}", ""))
  }

  /** A count printed with a space between digit groups reads as the plain number. */
  lemma ParseCountOfGroupedDigits()
    ensures ParseCount("1 000") == Some(1000)
  {
    GroupedDigitsWithoutSpace();
    assert ReplaceAll("1000", "\U{A0}", "") == "1000";
    ParseIntOfThousand();
  }

  lemma GroupedDigitsWithoutSpace()
    ensures Without("1 000", ' ') == "1000"
  {
    var tail := "000";
    assert "1 000" == ['1'] + ([' '] + tail);
    WithoutCons('1', [' '] + tail, ' ');
    WithoutCons(' ', tail, ' ');
    WithoutAbsent(tail, ' ');
  }

  lemma ParseIntOfThousand()
    ensures ParseInt("1000") == Some(1000)
  {
    assert Decimal(1) == "1";
    assert Decimal(10) == "1" + "0";
    assert Decimal(100) == "10" + "0";
    assert IntToString(1000) == "100" + "0" == "1000";
    ParseIntOfString(1000);
  }

  /** Removing the label from a name followed by it leaves the name, provided the name holds no `(`. */
  lemma AnswerLabelRemoved(name: string)
    requires '(' !in name
    ensures ReplaceAll(name + CorrectAnswerLabel, CorrectAnswerLabel, "") == name
  {
    ReplaceTrailingPattern(name, CorrectAnswerLabel);
  }

  /** The rejection reasons of a regular row, tried in the order too short, too long, wrong start, invalid characters. */
  function Classify(surname: string): Verdict {
    if IsValidSurname(surname) then Accepted
    else if |surname| < MinSurnameLength then TooShort
    else if |surname| > MaxSurnameLength then TooLong
    else if !StartsWithAny(Lower(surname), ValidStartingLetters) then WrongStart
    else InvalidChars
  }

  /** The correct answer is only counted when valid; it never counts as one of the four rejection reasons. */
  function AnswerVerdict(correctAnswer: string): Verdict {
    if IsValidSurname(correctAnswer) then Accepted else AnswerRejected
  }

  /** The counters one entry bumps. */
  function CountEntry(stats: Stats, e: Entry): Stats {
    var s := stats.(totalEntries := stats.totalEntries + 1, totalSubmissions := stats.totalSubmissions + e.count);
    match e.verdict
    case Accepted => s.(validEntries := s.validEntries + 1, validSubmissions := s.validSubmissions + e.count)
    case TooShort => s.(rejectedTooShort := s.rejectedTooShort + 1)
    case TooLong => s.(rejectedTooLong := s.rejectedTooLong + 1)
    case WrongStart => s.(rejectedWrongStart := s.rejectedWrongStart + 1)
    case InvalidChars => s.(rejectedInvalidChars := s.rejectedInvalidChars + 1)
    case AnswerRejected => s
  }

  /** The statistics after counting `es` in order. */
  function StatsOf(es: seq<Entry>): Stats {
    if es == [] then NoStats else CountEntry(StatsOf(es[..|es| - 1]), es[|es| - 1])
  }

  /** The `(surname.lower(), count)` pairs the accepted entries of `es` append. */
  function DataOf(es: seq<Entry>): seq<(string, int)> {
    if es == [] then []
    else
      var e := es[|es| - 1];
      DataOf(es[..|es| - 1]) + (if e.verdict == Accepted then [(Lower(e.name), e.count)] else [])
  }

  /** One comma-separated name of a regular row (already stripped): nothing if it cleans to the empty string. */
  function NameEntry(name: string, count: int): seq<Entry> {
    SurnameEntry(CleanSurname(name), count)
  }

  /** The entry of a cleaned name: none for the empty name, else the name with its classification. */
  function SurnameEntry(surname: string, count: int): seq<Entry> {
    if surname == [] then [] else [Entry(surname, count, Classify(surname))]
  }

  function NameEntries(names: seq<string>, count: int): seq<Entry> {
    if names == [] then [] else NameEntries(names[..|names| - 1], count) + NameEntry(names[|names| - 1], count)
  }

  /** `[name.strip() for name in surname_text.split(",")]`. */
  function StrippedNames(surnameText: string): (names: seq<string>)
    ensures |names| == |SplitOn(surnameText, ',')|
  {
    var parts := SplitOn(surnameText, ',');
    seq(|parts|, k requires 0 <= k < |parts| => Strip(parts[k]))
  }

  /** The row of the correct answer: its surname cell mentions "oikea vastaus". */
  predicate IsAnswerRow(row: Row) {
    |row| >= MinTableColumns && Contains(row[1], CorrectAnswerMarker)
  }

  /** The entries one row contributes, in order. */
  function RowEntries(row: Row): seq<Entry> {
    if |row| < MinTableColumns then []
    else
      var surnameText := row[1];
      var countText := row[2];
      if Contains(surnameText, CorrectAnswerMarker) then AnswerEntries(surnameText, countText)
      else RegularEntries(surnameText, countText)
  }

  /** The correct-answer row: its one name, once the label is removed, if any is left and the count parses. */
  function AnswerEntries(surnameText: string, countText: string): seq<Entry> {
    var correctAnswer := Strip(ReplaceAll(surnameText, CorrectAnswerLabel, ""));
    if correctAnswer == [] then []
    else match ParseCount(countText)
      case None => []
      case Some(count) => [Entry(correctAnswer, count, AnswerVerdict(correctAnswer))]
  }

  /** A regular row: each comma-separated name with the row's count, if the count parses. */
  function RegularEntries(surnameText: string, countText: string): seq<Entry> {
    match ParseCount(countText)
    case None => []
    case Some(count) => NameEntries(StrippedNames(surnameText), count)
  }

  /** The entries of the whole table, row after row. */
  function TableEntries(rows: seq<Row>): seq<Entry> {
    if rows == [] then [] else TableEntries(rows[..|rows| - 1]) + RowEntries(rows[|rows| - 1])
  }

  lemma NameEntriesAppend(names: seq<string>, j: nat, count: int)
    requires j < |names|
    ensures NameEntries(names[..j + 1], count) == NameEntries(names[..j], count) + NameEntry(names[j], count)
  {
    assert names[..j + 1][..j] == names[..j];
  }

  /** Counting an accepted entry bumps the four totals and nothing else. */
  lemma CountAccepted(stats: Stats, e: Entry)
    requires e.verdict == Accepted
    ensures CountEntry(stats, e) == stats.(
      totalEntries := stats.totalEntries + 1, totalSubmissions := stats.totalSubmissions + e.count,
      validEntries := stats.validEntries + 1, validSubmissions := stats.validSubmissions + e.count)
  {
  }

  lemma AppendAssociates<T>(a: seq<T>, b: seq<T>, c: seq<T>)
    ensures (a + b) + c == a + (b + c)
  {
  }

  lemma StatsOfAppend(es: seq<Entry>, e: Entry)
    ensures StatsOf(es + [e]) == CountEntry(StatsOf(es), e)
    ensures DataOf(es + [e]) == DataOf(es) + (if e.verdict == Accepted then [(Lower(e.name), e.count)] else [])
  {
    assert (es + [e])[..|es|] == es;
  }

  /**
    `parse_html_table` from the cell texts on: skips short rows and counts that
    do not parse, treats the correct-answer row on its own, splits other rows at
    commas and counts every non-empty cleaned name.
  */
  method ParseHtmlTable(rows: seq<Row>) returns (surnamesData: seq<(string, int)>, validationStats: Stats)
    ensures surnamesData == DataOf(TableEntries(rows))
    ensures validationStats == StatsOf(TableEntries(rows))
  {
    surnamesData := [];
    validationStats := NoStats;
    for i := 0 to |rows|
      invariant surnamesData == DataOf(TableEntries(rows[..i]))
      invariant validationStats == StatsOf(TableEntries(rows[..i]))
    {
      assert rows[..i + 1][..i] == rows[..i];
      surnamesData, validationStats := CountRow(rows[i], TableEntries(rows[..i]), surnamesData, validationStats);
    }
    assert rows[..|rows|] == rows;
  }

  /** The body of the row loop: `counted` stands for the entries counted before this row. */
  method CountRow(cells: Row, ghost counted: seq<Entry>, surnamesData: seq<(string, int)>, validationStats: Stats)
    returns (newData: seq<(string, int)>, newStats: Stats)
    requires surnamesData == DataOf(counted) && validationStats == StatsOf(counted)
    ensures newData == DataOf(counted + RowEntries(cells))
    ensures newStats == StatsOf(counted + RowEntries(cells))
  {
    if |cells| >= MinTableColumns {
      var surnameText := cells[1];
      var countText := cells[2];
      if Contains(surnameText, CorrectAnswerMarker) {
        assert RowEntries(cells) == AnswerEntries(surnameText, countText);
        newData, newStats := CountAnswerRow(surnameText, countText, counted, surnamesData, validationStats);
      } else {
        assert RowEntries(cells) == RegularEntries(surnameText, countText);
        newData, newStats := CountRegularRow(surnameText, countText, counted, surnamesData, validationStats);
      }
    } else {
      newData, newStats := surnamesData, validationStats;
      assert counted + [] == counted;
    }
  }

  /** The correct-answer row: the label removed, the name counted if any is left and the count parses. */
  method CountAnswerRow(surnameText: string, countText: string, ghost counted: seq<Entry>,
                        surnamesData: seq<(string, int)>, validationStats: Stats)
    returns (newData: seq<(string, int)>, newStats: Stats)
    requires surnamesData == DataOf(counted) && validationStats == StatsOf(counted)
    ensures newData == DataOf(counted + AnswerEntries(surnameText, countText))
    ensures newStats == StatsOf(counted + AnswerEntries(surnameText, countText))
  {
    newData, newStats := surnamesData, validationStats;
    assert counted + [] == counted;
    var correctAnswer := Strip(ReplaceAll(surnameText, CorrectAnswerLabel, ""));
    if correctAnswer != [] {
      var parsed := ParseCount(countText);
      if parsed.Some? {
        var count := parsed.value;
        ghost var entry := Entry(correctAnswer, count, AnswerVerdict(correctAnswer));
        assert AnswerEntries(surnameText, countText) == [entry];
        StatsOfAppend(counted, entry);
        newData, newStats := CountAnswer(correctAnswer, count, newData, newStats);
      }
    }
  }

  /** A regular row: every comma-separated name counted, if the count parses. */
  method CountRegularRow(surnameText: string, countText: string, ghost counted: seq<Entry>,
                         surnamesData: seq<(string, int)>, validationStats: Stats)
    returns (newData: seq<(string, int)>, newStats: Stats)
    requires surnamesData == DataOf(counted) && validationStats == StatsOf(counted)
    ensures newData == DataOf(counted + RegularEntries(surnameText, countText))
    ensures newStats == StatsOf(counted + RegularEntries(surnameText, countText))
  {
    newData, newStats := surnamesData, validationStats;
    assert counted + [] == counted;
    var parsed := ParseCount(countText);
    if parsed.Some? {
      var count := parsed.value;
      var surnames := StrippedNames(surnameText);
      assert RegularEntries(surnameText, countText) == NameEntries(surnames, count);
      newData, newStats := CountNames(surnames, count, counted, newData, newStats);
    }
  }

  /** The loop over the comma-separated names of a regular row. */
  method CountNames(surnames: seq<string>, count: int, ghost counted: seq<Entry>, surnamesData: seq<(string, int)>, validationStats: Stats)
    returns (newData: seq<(string, int)>, newStats: Stats)
    requires surnamesData == DataOf(counted) && validationStats == StatsOf(counted)
    ensures newData == DataOf(counted + NameEntries(surnames, count))
    ensures newStats == StatsOf(counted + NameEntries(surnames, count))
  {
    newData, newStats := surnamesData, validationStats;
    ghost var seen := counted;
    assert counted + [] == counted;
    for j := 0 to |surnames|
      invariant seen == counted + NameEntries(surnames[..j], count)
      invariant newData == DataOf(seen)
      invariant newStats == StatsOf(seen)
    {
      ghost var prev := NameEntries(surnames[..j], count);
      NameEntriesAppend(surnames, j, count);
      var surname := CleanSurname(surnames[j]);
      if surname != [] {
        ghost var entry := Entry(surname, count, Classify(surname));
        assert NameEntry(surnames[j], count) == [entry];
        StatsOfAppend(seen, entry);
        AppendAssociates(counted, prev, [entry]);
        newData, newStats := CountName(surname, count, newData, newStats);
        seen := seen + [entry];
      } else {
        assert NameEntry(surnames[j], count) == [];
        assert prev + [] == prev;
      }
    }
    assert surnames[..|surnames|] == surnames;
  }

  /** Validating and counting one cleaned, non-empty name of a regular row. */
  method CountName(surname: string, count: int, surnamesData: seq<(string, int)>, validationStats: Stats)
    returns (newData: seq<(string, int)>, newStats: Stats)
    ensures var entry := Entry(surname, count, Classify(surname));
      && newStats == CountEntry(validationStats, entry)
      && newData == surnamesData + (if entry.verdict == Accepted then [(Lower(surname), count)] else [])
  {
    newData, newStats := surnamesData, validationStats;
    ghost var entry := Entry(surname, count, Classify(surname));
    newStats := newStats.(
      totalEntries := newStats.totalEntries + 1,
      totalSubmissions := newStats.totalSubmissions + count);
    if IsValidSurname(surname) {
      newData := newData + [(Lower(surname), count)];
      newStats := newStats.(
        validEntries := newStats.validEntries + 1,
        validSubmissions := newStats.validSubmissions + count);
      CountAccepted(validationStats, entry);
    } else if |surname| < MinSurnameLength {
      newStats := newStats.(rejectedTooShort := newStats.rejectedTooShort + 1);
    } else if |surname| > MaxSurnameLength {
      newStats := newStats.(rejectedTooLong := newStats.rejectedTooLong + 1);
    } else if !StartsWithAny(Lower(surname), ValidStartingLetters) {
      newStats := newStats.(rejectedWrongStart := newStats.rejectedWrongStart + 1);
    } else {
      newStats := newStats.(rejectedInvalidChars := newStats.rejectedInvalidChars + 1);
    }
  }

  /** Counting the correct answer: it adds to the totals, and to the valid pairs only when it passes validation. */
  method CountAnswer(correctAnswer: string, count: int, surnamesData: seq<(string, int)>, validationStats: Stats)
    returns (newData: seq<(string, int)>, newStats: Stats)
    ensures var entry := Entry(correctAnswer, count, AnswerVerdict(correctAnswer));
      && newStats == CountEntry(validationStats, entry)
      && newData == surnamesData + (if entry.verdict == Accepted then [(Lower(correctAnswer), count)] else [])
  {
    newData, newStats := surnamesData, validationStats;
    ghost var entry := Entry(correctAnswer, count, AnswerVerdict(correctAnswer));
    newStats := newStats.(
      totalEntries := newStats.totalEntries + 1,
      totalSubmissions := newStats.totalSubmissions + count);
    if IsValidSurname(correctAnswer) {
      newData := newData + [(Lower(correctAnswer), count)];
      newStats := newStats.(
        validEntries := newStats.validEntries + 1,
        validSubmissions := newStats.validSubmissions + count);
      CountAccepted(validationStats, entry);
    }
  }

  // ---------------------------------------------------------------------------
  // Populating the table
  // ---------------------------------------------------------------------------

  /** The sum of the counts of a list of `(surname, count)` pairs. */
  function SumCounts(data: seq<(string, int)>): int {
    if data == [] then 0 else SumCounts(data[..|data| - 1]) + data[|data| - 1].1
  }

  /** The surnames that occur in the list. */
  function KeysOf(data: seq<(string, int)>): set<string> {
    set i | 0 <= i < |data| :: data[i].0
  }

  /** The sum of the counts listed for one surname. */
  function SumFor(data: seq<(string, int)>, surname: string): int {
    if data == [] then 0
    else
      var last := data[|data| - 1];
      SumFor(data[..|data| - 1], surname) + (if last.0 == surname then last.1 else 0)
  }

  /** The `surname_totals` dictionary after the aggregation loop has seen all of `data`. */
  function Totals(data: seq<(string, int)>): map<string, int> {
    if data == [] then map[]
    else
      var last := data[|data| - 1];
      AddCount(Totals(data[..|data| - 1]), last.0, last.1)
  }

  /** The aggregation loop of `populate_database`: duplicate surnames have their counts added. */
  method AggregateTotals(surnamesData: seq<(string, int)>) returns (surnameTotals: map<string, int>)
    ensures surnameTotals == Totals(surnamesData)
  {
    surnameTotals := map[];
    for i := 0 to |surnamesData|
      invariant surnameTotals == Totals(surnamesData[..i])
    {
      assert surnamesData[..i + 1][..i] == surnamesData[..i];
      var (surname, count) := surnamesData[i];
      if surname in surnameTotals {
        surnameTotals := surnameTotals[surname := surnameTotals[surname] + count];
      } else {
        surnameTotals := surnameTotals[surname := count];
      }
    }
    assert surnamesData[..|surnamesData|] == surnamesData;
  }

  /**
    `populate_database`: the old rows are deleted, then one row per distinct
    surname is inserted with its aggregated count.
  */
  method PopulateDatabase(db: Table, surnamesData: seq<(string, int)>)
    modifies db
    ensures db.guesses == Totals(surnamesData)
  {
    db.guesses := map[];
    var surnameTotals := AggregateTotals(surnamesData);
    var pending := surnameTotals.Keys;
    while pending != {}
      invariant pending <= surnameTotals.Keys
      invariant db.guesses.Keys == surnameTotals.Keys - pending
      invariant forall k :: k in db.guesses ==> db.guesses[k] == surnameTotals[k]
      decreases |pending|
    {
      var surname :| surname in pending;
      // the primary key is free: each surname is inserted once
      assert surname !in db.guesses;
      db.guesses := db.guesses[surname := surnameTotals[surname]];
      pending := pending - {surname};
    }
    assert db.guesses == surnameTotals;
  }
}
