/**
  The web application (app.py): its own copy of the surname validator, the
  submission of one guess (first token, validation, lower-casing, the client
  address for the audit line, increment-or-insert) and the leaderboard with
  its percentages.
*/
module App {
  import opened Wrappers
  import opened Text
  import opened LetterPattern
  import opened GuessesTable
  import ParseSurnames
  import ImportProperties

  /** The bounds in force: the later assignments of app.py replace the earlier 4 and 50. */
  const MinSurnameLength := 6
  const MaxSurnameLength := 15

  // ---------------------------------------------------------------------------
  // Validation
  // ---------------------------------------------------------------------------

  /** `is_valid_surname` of the web application. */
  predicate IsValidSurname(surname: string) {
    if surname == [] || |surname| < MinSurnameLength || |surname| > MaxSurnameLength then false
    else
      var surnameLower := Lower(surname);
      if !StartsWithAny(surnameLower, ["z", "s", "t", "c"]) then false
      else MatchesLetterPattern(surname)
  }

  /** The web application and the import accept exactly the same strings. */
  lemma ValidatorsAgree(s: string)
    ensures IsValidSurname(s) <==> ParseSurnames.IsValidSurname(s)
  {
    assert ParseSurnames.ValidStartingLetters == ["z", "s", "t", "c"];
  }

  /** A surname stored by the application: valid and already in lower case. */
  predicate CanonicalKey(k: string) {
    IsValidSurname(k) && Lower(k) == k
  }

  predicate CanonicalTable(m: map<string, int>) {
    forall k :: k in m ==> CanonicalKey(k)
  }

  predicate PositiveCounts(m: map<string, int>) {
    forall k :: k in m ==> m[k] >= 1
  }

  // ---------------------------------------------------------------------------
  // Submitting a guess
  // ---------------------------------------------------------------------------

  /**
    `raw.split()[0] if raw else ""` with `raw` the stripped form field: empty
    exactly when the field is blank, otherwise the leading run of
    non-whitespace of the stripped field.
  */
  function FirstToken(field: string): (token: string)
    ensures token == [] <==> Strip(field) == []
    ensures NoSpace(token)
    ensures token != [] ==>
      && |token| <= |Strip(field)|
      && token == Strip(field)[..|token|]
      && (|token| == |Strip(field)| || IsSpace(Strip(field)[|token|]))
  {
    var rawSurname := Strip(field);
    if rawSurname == [] then []
    else
      WordsHead(rawSurname);
      Words(rawSurname)[0]
  }

  /**
    The address written to the audit log: the X-Forwarded-For header if the
    request has one, else the peer address; of a comma-separated list only the
    first piece, stripped; "unknown" when nothing is left.
  */
  function ClientIp(forwardedFor: Option<string>, remoteAddr: Option<string>): (ip: string)
    ensures ip != []
    ensures var v := if forwardedFor.Some? then forwardedFor else remoteAddr;
      && (v.None? || v.value == [] ==> ip == "unknown")
      && (v.Some? && v.value != [] && ',' !in v.value ==> ip == v.value)
      && (v.Some? && ',' in v.value ==>
            && ',' !in ip
            && var first := Strip(v.value[..IndexOf(v.value, ',')]);
               ip == if first == [] then "unknown" else first)
  {
    var clientIp := if forwardedFor.Some? then forwardedFor else remoteAddr;
    var clientIp := if clientIp.Some? && clientIp.value != [] && ',' in clientIp.value
      then Some(Strip(SplitOn(clientIp.value, ',')[0]))
      else clientIp;
    if clientIp.Some? && clientIp.value != [] then
      assert ',' !in SplitOn(clientIp.value, ',')[0] ==> ',' !in Strip(SplitOn(clientIp.value, ',')[0]) by {
        if ',' !in SplitOn(clientIp.value, ',')[0] {
          StripKeepsAbsent(SplitOn(clientIp.value, ',')[0], ',');
        }
      }
      clientIp.value
    else "unknown"
  }

  /** What a submission leads to: back to the form, or to the results with an audit line. */
  datatype Outcome =
    | Rejected
    | Accepted(surname: string, clientIp: string)

  /**
    `submit_guess`: a rejected token leaves the table as it was; an accepted
    one is lower-cased, its row gains one (or is created with one), and the
    outcome carries the highlighted surname and the logged address.
  */
  method SubmitGuess(db: Table, surnameField: Option<string>, forwardedFor: Option<string>, remoteAddr: Option<string>)
    returns (outcome: Outcome)
    modifies db
    ensures var token := FirstToken(surnameField.GetOr(""));
      && (outcome.Rejected? <==> !IsValidSurname(token))
      && (outcome.Rejected? ==> db.guesses == old(db.guesses))
      && (outcome.Accepted? ==>
            && outcome.surname == Lower(token)
            && outcome.clientIp == ClientIp(forwardedFor, remoteAddr)
            && db.guesses == AddCount(old(db.guesses), Lower(token), 1))
  {
    var surname := FirstToken(surnameField.GetOr(""));
    if !IsValidSurname(surname) {
      return Rejected;
    }
    var surnameNormalized := Lower(surname);
    var clientIp := ClientIp(forwardedFor, remoteAddr);
    RecordGuess(db, surnameNormalized);
    outcome := Accepted(surnameNormalized, clientIp);
  }

  /** The increment-or-insert on the `guesses` table: one more guess of `surname`. */
  method RecordGuess(db: Table, surname: string)
    modifies db
    ensures db.guesses == AddCount(old(db.guesses), surname, 1)
  {
    if surname in db.guesses {
      var newCount := db.guesses[surname] + 1;
      db.guesses := db.guesses[surname := newCount];
    } else {
      db.guesses := db.guesses[surname := 1];
    }
  }

  /**
    An accepted submission keeps the table canonical and its counts positive,
    adds exactly one to the total, and leaves every other row alone.
  */
  lemma AcceptedSubmission(m: map<string, int>, token: string)
    requires IsValidSurname(token)
    ensures var r := AddCount(m, Lower(token), 1);
      && CanonicalKey(Lower(token))
      && (CanonicalTable(m) ==> CanonicalTable(r))
      && (PositiveCounts(m) ==> PositiveCounts(r))
      && TableTotal(r) == TableTotal(m) + 1
      && forall k :: k in m && k != Lower(token) ==> r[k] == m[k]
  {
    ValidatorsAgree(token);
    ParseSurnames.LoweredSurnameCanonical(token);
    ValidatorsAgree(Lower(token));
    TableTotalAddCount(m, Lower(token), 1);
  }

  /** The table after `n` accepted submissions of the same surname. */
  function SubmitTimes(m: map<string, int>, key: string, n: nat): map<string, int> {
    if n == 0 then m else AddCount(SubmitTimes(m, key, n - 1), key, 1)
  }

  /** `n` submissions of one surname raise its count by `n`, starting from 0 for a new surname. */
  lemma {:induction false} RepeatedSubmissions(m: map<string, int>, key: string, n: nat)
    requires n >= 1
    ensures SubmitTimes(m, key, n) == AddCount(m, key, n)
  {
    if n > 1 {
      RepeatedSubmissions(m, key, n - 1);
      AddCountTwice(m, key, n - 1, 1);
    }
  }

  /**
    Whatever whitespace comes before the first word and whatever follows the
    whitespace after it, the token is that first word.
  */
  lemma FirstTokenPicksWord(pad: string, word: string, rest: string)
    requires AllSpace(pad) && word != [] && NoSpace(word) && (rest == [] || IsSpace(rest[0]))
    ensures FirstToken(pad + word + rest) == word
  {
    var tail := StripPaddedWord(pad, word, rest);
    TakeWordUpToSpace(word, tail);
    WordsHead(word + tail);
  }

  /** Stripping `pad + word + rest` keeps the word and a prefix of what follows it. */
  lemma StripPaddedWord(pad: string, word: string, rest: string) returns (tail: string)
    requires AllSpace(pad) && word != [] && NoSpace(word)
    ensures Strip(pad + word + rest) == word + tail
    ensures tail == rest[..|tail|]
  {
    var r := TrimRight(word + rest);
    assert Strip(pad + word + rest) == r by {
      assert pad + word + rest == pad + (word + rest);
      TrimLeftSkipsSpace(pad, word + rest);
    }
    assert |word| <= |r| by {
      TrimRightKeepsWord(word, rest);
    }
    tail := r[|word|..];
    PrefixPastWord(word, rest, r);
  }

  /** The submission of the form field "TestSurname" is accepted and counted as "testsurname". */
  lemma TestSurnameAccepted()
    ensures FirstToken("TestSurname") == "TestSurname"
    ensures IsValidSurname("TestSurname") && Lower("TestSurname") == "testsurname"
  {
    var s := "TestSurname";
    assert NoSpace(s);
    assert "" + s + "" == s;
    FirstTokenPicksWord("", s, "");
    TestSurnameValid();
  }

  lemma TestSurnameValid()
    ensures IsValidSurname("TestSurname") && Lower("TestSurname") == "testsurname"
  {
    var s := "TestSurname";
    assert forall i :: 0 <= i < |s| ==> 'A' <= s[i] <= 'Z' || 'a' <= s[i] <= 'z';
    assert AllLetters(s);
    assert Lower(s) == "testsurname";
    ParseSurnames.IsValidSurnameRules(s);
    ValidatorsAgree(s);
  }

  /**
    A guess on a freshly created, empty table: a valid one creates the first
    row, with count 1, and is logged with "unknown" when the request carries
    no address; an invalid one leaves the table empty.
  */
  method SubmitToNewTable(surnameField: string) returns (outcome: Outcome, guesses: map<string, int>)
    ensures var token := FirstToken(surnameField);
      && (IsValidSurname(token) ==> outcome == Accepted(Lower(token), "unknown") && guesses == map[Lower(token) := 1])
      && (!IsValidSurname(token) ==> outcome == Rejected && guesses == map[])
  {
    var db := new Table();
    ClientIpFallbacks();
    outcome := SubmitGuess(db, Some(surnameField), None, None);
    guesses := db.guesses;
  }

  /** Only the first word counts: "  zysko wicz " submits "zysko", which is too short. */
  lemma OnlyFirstWordCounts()
    ensures FirstToken("  zysko wicz ") == "zysko"
    ensures !IsValidSurname("zysko")
  {
    assert "  zysko wicz " == "  " + "zysko" + " wicz ";
    assert NoSpace("zysko");
    FirstTokenPicksWord("  ", "zysko", " wicz ");
  }

  /** Of a forwarded list the first address is logged. */
  lemma ClientIpOfForwardedList(header: string, peer: string)
    requires header == "203.0.113.7, 10.0.0.1" && peer == "10.0.0.1"
    ensures ClientIp(Some(header), Some(peer)) == "203.0.113.7"
  {
    var first := ForwardedListSplit(header);
    AddressHasNoSpace(first);
  }

  lemma ForwardedListSplit(header: string) returns (first: string)
    requires header == "203.0.113.7, 10.0.0.1"
    ensures first == "203.0.113.7"
    ensures ',' in header && header[..IndexOf(header, ',')] == first
  {
    first := "203.0.113.7";
    var rest := " 10.0.0.1";
    assert header == first + [','] + rest;
    assert ',' in header by {
      assert header[|first|] == ',';
    }
    assert IndexOf(header, ',') == |first| by {
      assert ',' !in first;
      IndexOfFirst(first, ',', rest);
    }
    assert header[..|first|] == first;
  }

  lemma AddressHasNoSpace(address: string)
    requires address == "203.0.113.7"
    ensures NoSpace(address)
  {
    forall i | 0 <= i < |address| ensures !IsSpace(address[i]) {
      assert '.' <= address[i] <= '9';
    }
  }

  /** Without the header the peer address is logged; an empty header or no address at all logs "unknown". */
  lemma ClientIpFallbacks()
    ensures ClientIp(None, Some("192.168.1.1")) == "192.168.1.1"
    ensures ClientIp(None, None) == "unknown"
    ensures ClientIp(Some(""), Some("192.168.1.1")) == "unknown"
  {
    var peer := "192.168.1.1";
    assert forall i :: 0 <= i < |peer| ==> peer[i] != ',';
    assert ',' !in peer;
  }

  /** The table the import leaves is canonical for the web application. */
  lemma ImportedTableCanonical(rows: seq<ParseSurnames.Row>)
    ensures CanonicalTable(ParseSurnames.Totals(ParseSurnames.DataOf(ParseSurnames.TableEntries(rows))))
  {
    var m := ParseSurnames.Totals(ParseSurnames.DataOf(ParseSurnames.TableEntries(rows)));
    ImportProperties.ImportSummary(rows);
    forall k | k in m ensures CanonicalKey(k) {
      ValidatorsAgree(k);
    }
  }

  // ---------------------------------------------------------------------------
  // The leaderboard
  // ---------------------------------------------------------------------------

  /** One row of `SELECT surname, count FROM guesses`. */
  datatype Guess = Guess(surname: string, count: int)

  /** One entry of `guesses_with_percentages`. */
  datatype RankedGuess = RankedGuess(surname: string, count: int, percentage: real)

  /** `ORDER BY count DESC, surname ASC`: `a` is listed before `b`. */
  predicate Before(a: Guess, b: Guess) {
    a.count > b.count || (a.count == b.count && LexLess(a.surname, b.surname))
  }

  /** Listed in the order of the query, each row strictly before the next. */
  predicate Ranked(gs: seq<Guess>) {
    forall i, j :: 0 <= i < j < |gs| ==> Before(gs[i], gs[j])
  }

  /** `gs` holds the rows of the table: each listed pair is a row and each row is listed. */
  predicate ListsTable(gs: seq<Guess>, m: map<string, int>) {
    && (forall g :: g in gs ==> g.surname in m && m[g.surname] == g.count)
    && (forall k :: k in m ==> Guess(k, m[k]) in gs)
  }

  lemma BeforeIrreflexive(a: Guess)
    ensures !Before(a, a)
  {
    LexLessIrreflexive(a.surname);
  }

  lemma BeforeTransitive(a: Guess, b: Guess, c: Guess)
    requires Before(a, b) && Before(b, c)
    ensures Before(a, c)
  {
    if a.count == b.count == c.count {
      LexLessTransitive(a.surname, b.surname, c.surname);
    }
  }

  lemma BeforeAsymmetric(a: Guess, b: Guess)
    ensures !(Before(a, b) && Before(b, a))
  {
    if Before(a, b) && a.count == b.count {
      if LexLess(b.surname, a.surname) {
        LexLessTransitive(a.surname, b.surname, a.surname);
        LexLessIrreflexive(a.surname);
      }
    }
  }

  /** Rows with different surnames are always ordered one way or the other. */
  lemma BeforeTotal(a: Guess, b: Guess)
    requires a.surname != b.surname
    ensures Before(a, b) || Before(b, a)
  {
    LexLessTotal(a.surname, b.surname);
  }

  /** Places a row with a new surname among the ranked rows. */
  function InsertRanked(gs: seq<Guess>, g: Guess): (r: seq<Guess>)
    requires Ranked(gs)
    requires forall x :: x in gs ==> x.surname != g.surname
    ensures |r| == |gs| + 1
    ensures Ranked(r)
    ensures forall x :: x in r <==> x in gs || x == g
  {
    if gs == [] then [g]
    else
      RankedHead(gs);
      RankedTail(gs);
      if Before(g, gs[0]) then
        assert forall x :: x in gs ==> Before(g, x) by {
          forall x | x in gs[1..] {
            BeforeTransitive(g, gs[0], x);
          }
        }
        ConsRanked(g, gs);
        [g] + gs
      else
        assert gs[0] in gs;
        BeforeTotal(g, gs[0]);
        var rest := InsertRanked(gs[1..], g);
        ConsRanked(gs[0], rest);
        [gs[0]] + rest
  }

  /** A row placed before every row of a ranked list keeps it ranked. */
  lemma ConsRanked(h: Guess, rest: seq<Guess>)
    requires Ranked(rest) && forall x :: x in rest ==> Before(h, x)
    ensures Ranked([h] + rest)
    ensures forall x :: x in [h] + rest <==> x == h || x in rest
  {
    var r := [h] + rest;
    forall i, j | 0 <= i < j < |r| ensures Before(r[i], r[j]) {
      if i == 0 {
        assert r[j] == rest[j - 1];
      } else {
        assert r[i] == rest[i - 1] && r[j] == rest[j - 1];
      }
    }
  }

  /** The rest of a ranked list is ranked. */
  lemma RankedTail(a: seq<Guess>)
    requires Ranked(a) && a != []
    ensures Ranked(a[1..])
  {
    forall i, j | 0 <= i < j < |a[1..]| ensures Before(a[1..][i], a[1..][j]) {
      assert a[1..][i] == a[i + 1] && a[1..][j] == a[j + 1];
    }
  }

  /**
    `SELECT surname, count FROM guesses ORDER BY count DESC, surname ASC`: the
    database hands out the rows one at a time and each is placed among those
    already ordered.
  */
  method SelectOrdered(db: Table) returns (allGuesses: seq<Guess>)
    ensures Ranked(allGuesses) && ListsTable(allGuesses, db.guesses)
    ensures |allGuesses| == |db.guesses|
  {
    var pending := db.guesses.Keys;
    allGuesses := [];
    while pending != {}
      invariant pending <= db.guesses.Keys
      invariant Ranked(allGuesses)
      invariant forall g :: g in allGuesses ==>
        g.surname in db.guesses && db.guesses[g.surname] == g.count && g.surname !in pending
      invariant forall k :: k in db.guesses && k !in pending ==> Guess(k, db.guesses[k]) in allGuesses
      invariant |allGuesses| + |pending| == |db.guesses|
      decreases |pending|
    {
      var surname :| surname in pending;
      allGuesses := InsertRanked(allGuesses, Guess(surname, db.guesses[surname]));
      pending := pending - {surname};
    }
  }

  /** Two ranked listings of the same rows are the same list: the order of the query is fully determined. */
  lemma {:induction false} RankingUnique(a: seq<Guess>, b: seq<Guess>, m: map<string, int>)
    requires Ranked(a) && ListsTable(a, m)
    requires Ranked(b) && ListsTable(b, m)
    ensures a == b
  {
    SameRows(a, b, m);
    RankedSameElements(a, b);
  }

  lemma SameRows(a: seq<Guess>, b: seq<Guess>, m: map<string, int>)
    requires ListsTable(a, m) && ListsTable(b, m)
    ensures forall x :: x in a <==> x in b
  {
    forall x | x in a ensures x in b {
      assert Guess(x.surname, m[x.surname]) == x;
    }
    forall x | x in b ensures x in a {
      assert Guess(x.surname, m[x.surname]) == x;
    }
  }

  lemma HeadIsMember(a: seq<Guess>)
    ensures a == [] || a[0] in a
  {
  }

  /** The first row of a ranked list comes before every other. */
  lemma RankedHead(a: seq<Guess>)
    requires Ranked(a) && a != []
    ensures forall x :: x in a[1..] ==> x != a[0] && Before(a[0], x)
    ensures forall x :: x in a <==> x == a[0] || x in a[1..]
  {
    forall x | x in a[1..] ensures x != a[0] && Before(a[0], x) {
      var j :| 0 <= j < |a[1..]| && a[1..][j] == x;
      assert a[j + 1] == x;
      BeforeIrreflexive(a[0]);
    }
    assert a == [a[0]] + a[1..];
  }

  lemma {:induction false} RankedSameElements(a: seq<Guess>, b: seq<Guess>)
    requires Ranked(a) && Ranked(b)
    requires forall x :: x in a <==> x in b
    ensures a == b
    decreases |a|
  {
    if a == [] || b == [] {
      HeadIsMember(a);
      HeadIsMember(b);
    } else {
      RankedHead(a);
      RankedHead(b);
      if a[0] != b[0] {
        assert a[0] in b[1..] && b[0] in a[1..];
        BeforeAsymmetric(a[0], b[0]);
        assert false;
      }
      assert forall x :: x in a[1..] <==> x in b[1..];
      RankedTail(a);
      RankedTail(b);
      RankedSameElements(a[1..], b[1..]);
      assert a == [a[0]] + a[1..] && b == [b[0]] + b[1..];
    }
  }

  /** `SELECT SUM(count) FROM guesses`: NULL on an empty table. */
  method SelectTotal(db: Table) returns (totalCount: Option<int>)
    ensures totalCount == if |db.guesses| == 0 then None else Some(TableTotal(db.guesses))
  {
    if |db.guesses| == 0 {
      return None;
    }
    var rows := db.guesses;
    var sum := 0;
    while |rows| != 0
      invariant sum + TableTotal(rows) == TableTotal(db.guesses)
      decreases |rows|
    {
      var surname :| surname in rows;
      ghost var before := rows;
      sum := sum + rows[surname];
      rows := rows - {surname};
      assert sum + TableTotal(rows) == TableTotal(db.guesses) && |rows| < |before| by {
        TableTotalRemove(before, surname);
        RemoveShrinks(before, surname);
      }
    }
    totalCount := Some(sum);
  }

  /** The percentage of one row: its share of the total, or 0 when the total is not positive. */
  function Percentage(count: int, totalCount: int): real {
    if totalCount > 0 then count as real / totalCount as real * 100.0 else 0.0
  }

  /** The guard against a zero total: no positive total, no share; a count within a positive total gets a share between 0 and 100. */
  lemma PercentageRange(count: int, totalCount: int)
    ensures totalCount <= 0 ==> Percentage(count, totalCount) == 0.0
    ensures 0 <= count <= totalCount && totalCount > 0 ==> 0.0 <= Percentage(count, totalCount) <= 100.0
  {
    if 0 <= count <= totalCount && totalCount > 0 {
      var c, t := count as real, totalCount as real;
      assert c / t <= 1.0 by {
        assert c / t * t == c;
      }
    }
  }

  /** The rows of the leaderboard without their percentages. */
  function Unranked(rs: seq<RankedGuess>): (gs: seq<Guess>)
    ensures |gs| == |rs|
    ensures forall i :: 0 <= i < |rs| ==> gs[i] == Guess(rs[i].surname, rs[i].count)
  {
    seq(|rs|, i requires 0 <= i < |rs| => Guess(rs[i].surname, rs[i].count))
  }

  /**
    `results`: the table's rows in the order of the query, each with its share
    of the total count, and the number of rows.
  */
  method Results(db: Table) returns (guessesWithPercentages: seq<RankedGuess>, totalVariations: nat)
    ensures totalVariations == |guessesWithPercentages| == |db.guesses|
    ensures Ranked(Unranked(guessesWithPercentages)) && ListsTable(Unranked(guessesWithPercentages), db.guesses)
    ensures forall i :: 0 <= i < |guessesWithPercentages| ==>
      guessesWithPercentages[i].percentage == Percentage(guessesWithPercentages[i].count, TableTotal(db.guesses))
  {
    var allGuesses := SelectOrdered(db);
    totalVariations := |db.guesses|;
    var totalCount := SelectTotal(db);
    guessesWithPercentages := AddPercentages(allGuesses, totalCount);
  }

  /**
    The loop of `results` that gives each row its percentage; `totalCount` is
    the result of the `SUM` query, which is not NULL once there is a row.
  */
  method AddPercentages(allGuesses: seq<Guess>, totalCount: Option<int>) returns (guessesWithPercentages: seq<RankedGuess>)
    requires allGuesses != [] ==> totalCount.Some?
    ensures Unranked(guessesWithPercentages) == allGuesses
    ensures forall i :: 0 <= i < |guessesWithPercentages| ==>
      guessesWithPercentages[i].percentage == Percentage(guessesWithPercentages[i].count, totalCount.value)
  {
    guessesWithPercentages := [];
    for i := 0 to |allGuesses|
      invariant |guessesWithPercentages| == i
      invariant forall k :: 0 <= k < i ==>
        guessesWithPercentages[k] == RankedGuess(
          allGuesses[k].surname, allGuesses[k].count, Percentage(allGuesses[k].count, totalCount.value))
    {
      var guess := allGuesses[i];
      var percentage := if totalCount.value > 0 then guess.count as real / totalCount.value as real * 100.0 else 0.0;
      ghost var before := guessesWithPercentages;
      guessesWithPercentages := guessesWithPercentages + [RankedGuess(guess.surname, guess.count, percentage)];
      assert forall k :: 0 <= k < i ==> guessesWithPercentages[k] == before[k];
    }
    assert Unranked(guessesWithPercentages) == allGuesses;
  }

  /** The sum of the counts of listed rows. */
  function SumGuessCounts(gs: seq<Guess>): int {
    if gs == [] then 0 else gs[0].count + SumGuessCounts(gs[1..])
  }

  /** Listing the rows loses none and repeats none: the listed counts add up to the table's total. */
  lemma {:induction false} ListingTotal(gs: seq<Guess>, m: map<string, int>)
    requires Ranked(gs) && ListsTable(gs, m)
    ensures SumGuessCounts(gs) == TableTotal(m)
    decreases |gs|
  {
    if gs == [] {
    } else {
      var head := gs[0];
      var rest := gs[1..];
      var m' := m - {head.surname};
      assert head in gs;
      RankedHead(gs);
      assert ListsTable(rest, m') by {
        forall g | g in rest ensures g.surname in m' && m'[g.surname] == g.count {
        }
        forall k | k in m' ensures Guess(k, m'[k]) in rest {
          assert Guess(k, m[k]) in gs;
        }
      }
      RankedTail(gs);
      ListingTotal(rest, m');
      TableTotalRemove(m, head.surname);
    }
  }

  /** The sum of the percentages of the leaderboard rows. */
  function SumPercentages(rs: seq<RankedGuess>): real {
    if rs == [] then 0.0 else rs[0].percentage + SumPercentages(rs[1..])
  }

  lemma {:induction false} SumPercentagesScaled(rs: seq<RankedGuess>, totalCount: int)
    requires totalCount > 0
    requires forall i :: 0 <= i < |rs| ==> rs[i].percentage == Percentage(rs[i].count, totalCount)
    ensures SumPercentages(rs) == SumGuessCounts(Unranked(rs)) as real / totalCount as real * 100.0
  {
    if rs != [] {
      SumPercentagesScaled(rs[1..], totalCount);
      assert Unranked(rs)[1..] == Unranked(rs[1..]);
      var t := totalCount as real;
      var c := rs[0].count as real;
      var rest := SumGuessCounts(Unranked(rs[1..])) as real;
      assert c / t * 100.0 + rest / t * 100.0 == (c + rest) / t * 100.0;
    }
  }

  /** Whenever the total is positive the percentages of the leaderboard add up to 100. */
  lemma PercentagesAddUp(rs: seq<RankedGuess>, m: map<string, int>)
    requires Ranked(Unranked(rs)) && ListsTable(Unranked(rs), m)
    requires forall i :: 0 <= i < |rs| ==> rs[i].percentage == Percentage(rs[i].count, TableTotal(m))
    requires TableTotal(m) > 0
    ensures SumPercentages(rs) == 100.0
  {
    SumPercentagesScaled(rs, TableTotal(m));
    ListingTotal(Unranked(rs), m);
    DivideBySelf(TableTotal(m) as real);
  }

  lemma DivideBySelf(t: real)
    requires t != 0.0
    ensures t / t * 100.0 == 100.0
  {
  }
}
