/**
  The parts of Python's `str` that the surname game relies on: whitespace,
  `strip()`, `split()`, `split(sep)`, `replace()`, `startswith()`, `in`,
  `lower()`, `int()` and the code-point order in which the database sorts text.
*/
module Text {
  import opened Wrappers

  // ---------------------------------------------------------------------------
  // Whitespace
  // ---------------------------------------------------------------------------

  /** `str.isspace()`: the characters that `\s`, `strip()` and `split()` treat as whitespace. */
  predicate IsSpace(c: char) {
    || ('\t' <= c <= '\r')
    || ('\U{1C}' <= c <= ' ')
    || c == '\U{85}' || c == '\U{A0}' || c == '\U{1680}'
    || ('\U{2000}' <= c <= '\U{200A}')
    || c == '\U{2028}' || c == '\U{2029}' || c == '\U{202F}' || c == '\U{205F}' || c == '\U{3000}'
  }

  predicate NoSpace(s: string) {
    forall i :: 0 <= i < |s| ==> !IsSpace(s[i])
  }

  predicate AllSpace(s: string) {
    forall i :: 0 <= i < |s| ==> IsSpace(s[i])
  }

  /** `str.lstrip()`: drops the leading whitespace and nothing else. */
  function TrimLeft(s: string): (r: string)
    ensures |r| <= |s| && r == s[|s| - |r|..]
    ensures r == [] || !IsSpace(r[0])
    ensures AllSpace(s[..|s| - |r|])
  {
    if s != [] && IsSpace(s[0]) then
      var r := TrimLeft(s[1..]);
      assert s[..|s| - |r|] == [s[0]] + s[1..][..|s| - 1 - |r|];
      r
    else
      s
  }

  /** `str.rstrip()`: drops the trailing whitespace and nothing else. */
  function TrimRight(s: string): (r: string)
    ensures |r| <= |s| && r == s[..|r|]
    ensures r == [] || !IsSpace(r[|r| - 1])
    ensures AllSpace(s[|r|..])
  {
    if s != [] && IsSpace(s[|s| - 1]) then
      var r := TrimRight(s[..|s| - 1]);
      assert s[|r|..] == s[..|s| - 1][|r|..] + [s[|s| - 1]];
      r
    else
      s
  }

  /** `str.strip()` with no argument. */
  function Strip(s: string): (r: string)
    ensures |r| <= |s|
    ensures r == [] <==> AllSpace(s)
    ensures r != [] ==> !IsSpace(r[0]) && !IsSpace(r[|r| - 1])
    ensures NoSpace(s) ==> r == s
  {
    var t := TrimLeft(s);
    var r := TrimRight(t);
    assert r == [] ==> AllSpace(s) by {
      if r == [] {
        assert AllSpace(t);
        assert s == s[..|s| - |t|] + t;
      }
    }
    assert NoSpace(s) ==> r == s by {
      if NoSpace(s) && s != [] {
        assert |t| == |s|;
      }
    }
    r
  }

  /** Leading whitespace in front of a non-whitespace character is exactly what `TrimLeft` removes. */
  lemma {:induction false} TrimLeftSkipsSpace(pad: string, t: string)
    requires AllSpace(pad) && (t == [] || !IsSpace(t[0]))
    ensures TrimLeft(pad + t) == t
    decreases |pad|
  {
    if pad == [] {
      assert pad + t == t;
    } else {
      assert (pad + t)[0] == pad[0] && (pad + t)[1..] == pad[1..] + t;
      TrimLeftSkipsSpace(pad[1..], t);
    }
  }

  /** Trailing whitespace after a non-whitespace character is exactly what `TrimRight` removes. */
  lemma {:induction false} TrimRightSkipsSpace(t: string, pad: string)
    requires AllSpace(pad) && (t == [] || !IsSpace(t[|t| - 1]))
    ensures TrimRight(t + pad) == t
    decreases |pad|
  {
    if pad == [] {
      assert t + pad == t;
    } else {
      var s := t + pad;
      assert s[|s| - 1] == pad[|pad| - 1] && s[..|s| - 1] == t + pad[..|pad| - 1];
      TrimRightSkipsSpace(t, pad[..|pad| - 1]);
    }
  }

  /** Trailing whitespace after a text with non-whitespace ends is exactly what `strip()` removes. */
  lemma StripOfPadded(t: string, pad: string)
    requires t != [] && !IsSpace(t[0]) && !IsSpace(t[|t| - 1]) && AllSpace(pad)
    ensures Strip(t + pad) == t
  {
    var s := t + pad;
    assert [] + s == s && s[0] == t[0];
    TrimLeftSkipsSpace([], s);
    TrimRightSkipsSpace(t, pad);
  }

  /** A text that neither starts nor ends with whitespace is its own `strip()`. */
  lemma StripOfTrimmed(s: string)
    requires s == [] || (!IsSpace(s[0]) && !IsSpace(s[|s| - 1]))
    ensures Strip(s) == s
  {
    assert [] + s == s && s + [] == s;
    TrimLeftSkipsSpace([], s);
    TrimRightSkipsSpace(s, []);
  }

  /** `TrimRight` never cuts into a prefix that ends in non-whitespace. */
  lemma TrimRightKeepsWord(word: string, rest: string)
    requires word != [] && !IsSpace(word[|word| - 1])
    ensures |TrimRight(word + rest)| >= |word|
  {
    var t := word + rest;
    var r := TrimRight(t);
    assert !IsSpace(t[|word| - 1]);
    assert forall i :: |r| <= i < |t| ==> t[i] == t[|r|..][i - |r|];
  }

  /** A prefix of `word + rest` at least as long as `word` is `word` followed by a prefix of `rest`. */
  lemma PrefixPastWord<T>(word: seq<T>, rest: seq<T>, r: seq<T>)
    requires |word| <= |r| <= |word + rest| && r == (word + rest)[..|r|]
    ensures r == word + r[|word|..] && r[|word|..] == rest[..|r| - |word|]
  {
  }

  /** A run of non-whitespace followed by whitespace or the end is the word `TakeWord` takes. */
  lemma {:induction false} TakeWordUpToSpace(word: string, rest: string)
    requires NoSpace(word) && (rest == [] || IsSpace(rest[0]))
    ensures TakeWord(word + rest) == word
    decreases |word|
  {
    if word == [] {
      assert word + rest == rest;
    } else {
      assert (word + rest)[0] == word[0] && (word + rest)[1..] == word[1..] + rest;
      TakeWordUpToSpace(word[1..], rest);
    }
  }

  /** The first separator of `a + [c] + b` is the one right after `a` when `a` has none. */
  lemma IndexOfFirst(a: string, c: char, b: string)
    requires c !in a
    ensures IndexOf(a + [c] + b, c) == |a|
  {
    var s := a + [c] + b;
    var i := IndexOf(s, c);
    assert forall k :: 0 <= k < |a| ==> s[k] != c;
    assert s[|a|] == c;
    assert forall k :: 0 <= k < i ==> s[k] == s[..i][k];
  }

  /** Stripping only removes characters: a character absent from `s` is absent from `Strip(s)`. */
  lemma StripKeepsAbsent(s: string, c: char)
    requires c !in s
    ensures c !in Strip(s)
  {
    var t := TrimLeft(s);
    SliceKeepsAbsent(s, |s| - |t|, |s|, c);
    SliceKeepsAbsent(t, 0, |TrimRight(t)|, c);
  }

  lemma SliceKeepsAbsent<T>(s: seq<T>, lo: nat, hi: nat, c: T)
    requires lo <= hi <= |s| && c !in s
    ensures c !in s[lo..hi]
  {
    assert forall i :: 0 <= i < hi - lo ==> s[lo..hi][i] == s[lo + i];
  }

  // ---------------------------------------------------------------------------
  // Splitting
  // ---------------------------------------------------------------------------

  /** The longest prefix of `s` without whitespace. */
  function TakeWord(s: string): (w: string)
    ensures |w| <= |s| && w == s[..|w|] && NoSpace(w)
    ensures |w| < |s| ==> IsSpace(s[|w|])
  {
    if s == [] || IsSpace(s[0]) then [] else [s[0]] + TakeWord(s[1..])
  }

  /** `str.split()` with no argument: the maximal runs of non-whitespace, in order. */
  function Words(s: string): (ws: seq<string>)
    ensures forall k :: 0 <= k < |ws| ==> ws[k] != [] && NoSpace(ws[k])
    decreases |s|
  {
    var t := TrimLeft(s);
    if t == [] then []
    else
      var w := TakeWord(t);
      assert w != [] by { TakeWordOfWord(t); }
      var rest := Words(t[|w|..]);
      WordsCons(w, rest);
      [w] + rest
  }

  lemma WordsCons(w: string, rest: seq<string>)
    requires w != [] && NoSpace(w)
    requires forall k :: 0 <= k < |rest| ==> rest[k] != [] && NoSpace(rest[k])
    ensures forall k :: 0 <= k < |[w] + rest| ==> ([w] + rest)[k] != [] && NoSpace(([w] + rest)[k])
  {
    forall k | 0 <= k < |[w] + rest| ensures ([w] + rest)[k] != [] && NoSpace(([w] + rest)[k]) {
      if k > 0 {
        assert ([w] + rest)[k] == rest[k - 1];
      }
    }
  }

  lemma TakeWordOfWord(t: string)
    requires t != [] && !IsSpace(t[0])
    ensures TakeWord(t) != []
  {
  }

  /** Leading whitespace does not change the words. */
  lemma WordsSkipSpace(s: string)
    ensures Words(s) == Words(TrimLeft(s))
  {
    var t := TrimLeft(s);
    assert [] + t == t;
    TrimLeftSkipsSpace([], t);
  }

  /**
    A non-whitespace character in front of `x` joins the first word of `x` when
    `x` starts with a word, and is a word of its own otherwise.
  */
  lemma WordsOfCons(c: char, x: string)
    requires !IsSpace(c)
    ensures Words([c] + x) ==
      if x != [] && !IsSpace(x[0]) then [[c] + Words(x)[0]] + Words(x)[1..]
      else [[c]] + Words(x)
  {
    var s := [c] + x;
    assert s[0] == c && s[1..] == x;
    assert TrimLeft(s) == s;
    var w := TakeWord(x);
    assert TakeWord(s) == [c] + w;
    assert s[|[c] + w|..] == x[|w|..];
    if x != [] && !IsSpace(x[0]) {
      assert TrimLeft(x) == x;
      TakeWordOfWord(x);
    } else {
      assert w == [];
      WordsSkipSpace(x);
    }
  }

  /** A string that starts with a non-whitespace character splits into words, the first one being its leading run. */
  lemma WordsHead(s: string)
    requires s != [] && !IsSpace(s[0])
    ensures Words(s) != [] && Words(s)[0] == TakeWord(s)
  {
    assert TrimLeft(s) == s;
  }

  /** The index of the first `c` in `s`, or `|s|` when there is none. */
  function IndexOf(s: string, c: char): (i: nat)
    ensures i <= |s| && c !in s[..i]
    ensures i < |s| ==> s[i] == c
  {
    if s == [] then 0
    else if s[0] == c then 0
    else
      var i := 1 + IndexOf(s[1..], c);
      assert s[..i] == [s[0]] + s[1..][..i - 1];
      i
  }

  /** `str.split(sep)` for a one-character separator: the pieces between the separators, always at least one. */
  function SplitOn(s: string, sep: char): (parts: seq<string>)
    ensures |parts| >= 1
    ensures forall k :: 0 <= k < |parts| ==> sep !in parts[k]
    ensures parts[0] == s[..IndexOf(s, sep)]
    decreases |s|
  {
    var i := IndexOf(s, sep);
    if i == |s| then [s] else [s[..i]] + SplitOn(s[i + 1..], sep)
  }

  /** `sep.join(parts)`. */
  function JoinWith(parts: seq<string>, sep: char): string
  {
    if parts == [] then []
    else if |parts| == 1 then parts[0]
    else parts[0] + [sep] + JoinWith(parts[1..], sep)
  }

  /** Splitting loses nothing: joining the pieces with the separator gives back the string. */
  lemma {:induction false} SplitOnJoin(s: string, sep: char)
    ensures JoinWith(SplitOn(s, sep), sep) == s
    decreases |s|
  {
    var i := IndexOf(s, sep);
    if i < |s| {
      var rest := s[i + 1..];
      SplitOnJoin(rest, sep);
      assert s == s[..i] + [sep] + rest;
    }
  }

  // ---------------------------------------------------------------------------
  // Prefixes, substrings, replacement
  // ---------------------------------------------------------------------------

  predicate StartsWith(s: string, prefix: string) {
    |prefix| <= |s| && s[..|prefix|] == prefix
  }

  /** `s.startswith(prefixes)` for a tuple of prefixes. */
  predicate StartsWithAny(s: string, prefixes: seq<string>) {
    exists k :: 0 <= k < |prefixes| && StartsWith(s, prefixes[k])
  }

  /** `pattern in s`. */
  predicate Contains(s: string, pattern: string)
    decreases |s|
  {
    StartsWith(s, pattern) || (s != [] && Contains(s[1..], pattern))
  }

  /** `s` with every `c` taken out and the other characters kept in order. */
  function Without(s: string, c: char): (r: string)
    ensures c !in r
  {
    if s == [] then []
    else
      var init := Without(s[..|s| - 1], c);
      if s[|s| - 1] == c then init else init + [s[|s| - 1]]
  }

  /** Every character other than `c` occurs in `Without(s, c)` as often as in `s`. */
  lemma {:induction false} WithoutKeepsOthers(s: string, c: char)
    ensures forall x :: x != c ==> multiset(Without(s, c))[x] == multiset(s)[x]
    decreases |s|
  {
    if s != [] {
      WithoutKeepsOthers(s[..|s| - 1], c);
      assert s == s[..|s| - 1] + [s[|s| - 1]];
    }
  }

  /** Taking a character out distributes over concatenation. */
  lemma {:induction false} WithoutConcat(a: string, b: string, c: char)
    ensures Without(a + b, c) == Without(a, c) + Without(b, c)
    decreases |b|
  {
    if b == [] {
      assert a + b == a;
    } else {
      assert (a + b)[..|a + b| - 1] == a + b[..|b| - 1];
      WithoutConcat(a, b[..|b| - 1], c);
    }
  }

  /** Removing a character that does not occur changes nothing. */
  lemma {:induction false} WithoutAbsent(s: string, c: char)
    requires c !in s
    ensures Without(s, c) == s
    decreases |s|
  {
    if s != [] {
      WithoutAbsent(s[..|s| - 1], c);
      assert s == s[..|s| - 1] + [s[|s| - 1]];
    }
  }

  lemma WithoutCons(x: char, s: string, c: char)
    ensures Without([x] + s, c) == (if x == c then [] else [x]) + Without(s, c)
  {
    WithoutConcat([x], s, c);
    assert [x][..0] == [];
  }

  /** `s.replace(pattern, replacement)`: every non-overlapping occurrence, scanning from the left. */
  function ReplaceAll(s: string, pattern: string, replacement: string): (r: string)
    requires pattern != []
    ensures |pattern| == 1 && pattern[0] !in s ==> r == s
    ensures !Contains(s, pattern) ==> r == s
    ensures |pattern| == 1 && replacement == [] ==> r == Without(s, pattern[0])
    decreases |s|
  {
    if s == [] then []
    else
      WithoutCons(s[0], s[1..], pattern[0]);
      assert s == [s[0]] + s[1..];
      if StartsWith(s, pattern) then replacement + ReplaceAll(s[|pattern|..], pattern, replacement)
      else [s[0]] + ReplaceAll(s[1..], pattern, replacement)
  }

  // ---------------------------------------------------------------------------
  // Lower case
  // ---------------------------------------------------------------------------

  /** `str.lower()` on one character: ASCII capitals and the capitals Ä Ö Å Ü Ý Ÿ; every other character is kept. */
  function LowerChar(c: char): char {
    if 'A' <= c <= 'Z' then (c as int + 32) as char
    else if c == 'Ä' then 'ä'
    else if c == 'Ö' then 'ö'
    else if c == 'Å' then 'å'
    else if c == 'Ü' then 'ü'
    else if c == 'Ý' then 'ý'
    else if c == 'Ÿ' then 'ÿ'
    else c
  }

  /** `str.lower()`, character by character. */
  function Lower(s: string): (r: string)
    ensures |r| == |s|
  {
    seq(|s|, i requires 0 <= i < |s| => LowerChar(s[i]))
  }

  /** Lower-casing a lower-cased string changes nothing: the lower-case form is a fixed point. */
  lemma LowerIdempotent(s: string)
    ensures Lower(Lower(s)) == Lower(s)
  {
  }

  // ---------------------------------------------------------------------------
  // int()
  // ---------------------------------------------------------------------------

  predicate IsDigit(c: char) {
    '0' <= c <= '9'
  }

  /** The digits `int()` accepts: ASCII digits, a single `_` allowed between two digits. */
  predicate DigitGroups(s: string)
    decreases |s|
  {
    && s != []
    && IsDigit(s[0])
    && (|s| == 1 || (if s[1] == '_' then DigitGroups(s[2..]) else DigitGroups(s[1..])))
  }

  lemma {:induction false} AllDigitsAreDigitGroups(s: string)
    requires s != [] && forall i :: 0 <= i < |s| ==> IsDigit(s[i])
    ensures DigitGroups(s)
  {
    if |s| > 1 {
      AllDigitsAreDigitGroups(s[1..]);
    }
  }

  /** Removing a pattern that the text ends with, and whose first character occurs nowhere before it, leaves what came before. */
  lemma {:induction false} ReplaceTrailingPattern(name: string, pattern: string)
    requires pattern != [] && pattern[0] !in name
    ensures ReplaceAll(name + pattern, pattern, "") == name
    decreases |name|
  {
    var s := name + pattern;
    if name == [] {
      assert s == pattern && s[..|pattern|] == pattern && s[|pattern|..] == [];
    } else {
      assert s[..|pattern|][0] == name[0] != pattern[0];
      assert s[1..] == name[1..] + pattern;
      ReplaceTrailingPattern(name[1..], pattern);
      assert name == [name[0]] + name[1..];
    }
  }

  /** The decimal value of the digits of `s`, ignoring underscores. */
  function DigitsValue(s: string): nat
  {
    if s == [] then 0
    else if IsDigit(s[|s| - 1]) then DigitsValue(s[..|s| - 1]) * 10 + (s[|s| - 1] as int - '0' as int)
    else DigitsValue(s[..|s| - 1])
  }

  /**
    The ASCII information separators U+001C..U+001F: `str.isspace()` holds for
    them, but `int()` skips only " \t\n\v\f\r" among ASCII characters.
  */
  predicate IsInfoSeparator(c: char) {
    '\U{1C}' <= c <= '\U{1F}'
  }

  /**
    `int(text)`: surrounding whitespace, an optional sign, then digit groups;
    anything else is a ValueError. An information separator is never skipped
    and is neither a sign nor a digit, so wherever it stands it is an error.
  */
  function ParseInt(text: string): Option<int>
  {
    if exists i | 0 <= i < |text| :: IsInfoSeparator(text[i]) then None
    else ParseSigned(Strip(text))
  }

  /** `int("\x1c5")` is a ValueError, though `"\x1c5".strip()` is "5". */
  lemma ParseIntRejectsInfoSeparator()
    ensures Strip("\U{1C}5") == "5"
    ensures ParseInt("\U{1C}5") == None
  {
    var s := "\U{1C}5";
    assert IsInfoSeparator(s[0]);
    assert s == [s[0]] + "5";
    TrimLeftSkipsSpace([s[0]], "5");
    assert "5" + [] == "5";
    TrimRightSkipsSpace("5", []);
  }

  /** An optional sign followed by digit groups, nothing around them. */
  function ParseSigned(t: string): Option<int>
  {
    if t != [] && (t[0] == '+' || t[0] == '-') then
      var magnitude: int := DigitsValue(t[1..]);
      if DigitGroups(t[1..]) then Some(if t[0] == '-' then -magnitude else magnitude)
      else None
    else if DigitGroups(t) then Some(DigitsValue(t))
    else None
  }

  function DigitChar(d: nat): (c: char)
    requires d < 10
    ensures IsDigit(c) && c as int - '0' as int == d
  {
    ('0' as int + d) as char
  }

  /** The decimal digits of `n`, most significant first. */
  function Decimal(n: nat): (s: string)
    ensures s != [] && forall i :: 0 <= i < |s| ==> IsDigit(s[i])
  {
    if n < 10 then [DigitChar(n)] else Decimal(n / 10) + [DigitChar(n % 10)]
  }

  /** `str(n)`. */
  function IntToString(n: int): string {
    if n < 0 then "-" + Decimal(-n) else Decimal(n)
  }

  lemma {:induction false} DecimalValue(n: nat)
    ensures DigitsValue(Decimal(n)) == n
  {
    if n >= 10 {
      var s := Decimal(n);
      DecimalValue(n / 10);
      assert s[..|s| - 1] == Decimal(n / 10);
    }
  }

  lemma ParseIntWithoutSpace(s: string)
    requires NoSpace(s)
    ensures ParseInt(s) == ParseSigned(s)
  {
    assert forall i | 0 <= i < |s| :: !IsInfoSeparator(s[i]) by {
      forall i | 0 <= i < |s| ensures !IsInfoSeparator(s[i]) {
        assert !IsSpace(s[i]);
      }
    }
  }

  /** What `str(n)` prints for a negative `n`: a minus sign, then digits. */
  predicate NegativeNumeral(s: string) {
    |s| >= 2 && s[0] == '-' && forall i :: 1 <= i < |s| ==> IsDigit(s[i])
  }

  lemma NumeralHasNoSpace(s: string)
    requires NegativeNumeral(s) || (forall i :: 0 <= i < |s| ==> IsDigit(s[i]))
    ensures NoSpace(s)
  {
    forall i | 0 <= i < |s| ensures !IsSpace(s[i]) {
      if i > 0 || !NegativeNumeral(s) { assert IsDigit(s[i]); }
    }
  }

  lemma ParseSignedOfNegativeNumeral(s: string)
    requires NegativeNumeral(s)
    ensures ParseSigned(s) == Some(-(DigitsValue(s[1..]) as int))
  {
    AllDigitsAreDigitGroups(s[1..]);
  }

  lemma ParseSignedOfDigits(s: string)
    requires s != [] && forall i :: 0 <= i < |s| ==> IsDigit(s[i])
    ensures ParseSigned(s) == Some(DigitsValue(s))
  {
    AllDigitsAreDigitGroups(s);
    assert IsDigit(s[0]);
  }

  /** `int(str(n)) == n`: the parser reads back every integer as Python prints it. */
  lemma ParseIntOfString(n: int)
    ensures ParseInt(IntToString(n)) == Some(n)
  {
    var s := IntToString(n);
    var m: nat := if n < 0 then -n else n;
    DecimalValue(m);
    if n < 0 {
      assert s[1..] == Decimal(m);
      assert NegativeNumeral(s);
      ParseSignedOfNegativeNumeral(s);
    } else {
      ParseSignedOfDigits(s);
    }
    NumeralHasNoSpace(s);
    ParseIntWithoutSpace(s);
  }

  // ---------------------------------------------------------------------------
  // Text order
  // ---------------------------------------------------------------------------

  /** Lexicographic order on code points: the database's binary collation of text. */
  predicate LexLess(a: string, b: string) {
    if a == [] then b != []
    else if b == [] then false
    else if a[0] != b[0] then a[0] < b[0]
    else LexLess(a[1..], b[1..])
  }

  lemma {:induction false} LexLessIrreflexive(a: string)
    ensures !LexLess(a, a)
  {
    if a != [] {
      LexLessIrreflexive(a[1..]);
    }
  }

  lemma {:induction false} LexLessTransitive(a: string, b: string, c: string)
    requires LexLess(a, b) && LexLess(b, c)
    ensures LexLess(a, c)
  {
    if a != [] && b != [] && c != [] && a[0] == b[0] && b[0] == c[0] {
      LexLessTransitive(a[1..], b[1..], c[1..]);
    }
  }

  lemma {:induction false} LexLessTotal(a: string, b: string)
    requires a != b
    ensures LexLess(a, b) || LexLess(b, a)
  {
    if a != [] && b != [] && a[0] == b[0] {
      assert a == [a[0]] + a[1..] && b == [b[0]] + b[1..];
      LexLessTotal(a[1..], b[1..]);
    }
  }
}
