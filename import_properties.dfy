/**
  What the batch import guarantees: the counters account for every counted
  name, each counted name carries the right verdict and its row's count, the
  skipped inputs contribute nothing, and the aggregation keeps every count.
*/
module ImportProperties {
  import opened Wrappers
  import opened Text
  import opened LetterPattern
  import opened GuessesTable
  import opened ParseSurnames

  /** The sum of the row counts of the counted names. */
  function SumEntryCounts(es: seq<Entry>): int {
    if es == [] then 0 else SumEntryCounts(es[..|es| - 1]) + es[|es| - 1].count
  }

  /** How many counted names received verdict `v`. */
  function CountVerdict(es: seq<Entry>, v: Verdict): nat {
    if es == [] then 0 else CountVerdict(es[..|es| - 1], v) + (if es[|es| - 1].verdict == v then 1 else 0)
  }

  lemma SumCountsAppend(data: seq<(string, int)>, extra: seq<(string, int)>)
    requires |extra| <= 1
    ensures SumCounts(data + extra) == SumCounts(data) + (if extra == [] then 0 else extra[0].1)
  {
    if extra == [] {
      assert data + extra == data;
    } else {
      assert (data + extra)[..|data|] == data;
    }
  }

  /**
    The statistics account for the counted names: one total entry per name,
    the totals are sums over the names, the valid counters describe exactly the
    collected pairs, each rejection counter counts its own verdict, and the
    only names counted in no verdict counter are rejected correct answers.
  */
  lemma {:induction false} StatsAccounting(es: seq<Entry>)
    ensures var st := StatsOf(es);
      && st.totalEntries == |es|
      && st.totalSubmissions == SumEntryCounts(es)
      && st.validEntries == CountVerdict(es, Accepted) == |DataOf(es)|
      && st.validSubmissions == SumCounts(DataOf(es))
      && st.rejectedTooShort == CountVerdict(es, TooShort)
      && st.rejectedTooLong == CountVerdict(es, TooLong)
      && st.rejectedWrongStart == CountVerdict(es, WrongStart)
      && st.rejectedInvalidChars == CountVerdict(es, InvalidChars)
      && st.totalEntries == st.validEntries + st.rejectedTooShort + st.rejectedTooLong
           + st.rejectedWrongStart + st.rejectedInvalidChars + CountVerdict(es, AnswerRejected)
  {
    if es != [] {
      var init := es[..|es| - 1];
      var e := es[|es| - 1];
      StatsAccounting(init);
      SumCountsAppend(DataOf(init), if e.verdict == Accepted then [(Lower(e.name), e.count)] else []);
    }
  }

  /** The rejection reasons are tried in order: too short, too long, wrong start, invalid characters. */
  lemma ClassifyOrder(s: string)
    ensures Classify(s) != AnswerRejected
    ensures Classify(s) == Accepted <==> IsValidSurname(s)
    ensures Classify(s) == TooShort <==> |s| < MinSurnameLength
    ensures Classify(s) == TooLong <==> |s| > MaxSurnameLength
    ensures Classify(s) == WrongStart <==>
      MinSurnameLength <= |s| <= MaxSurnameLength && !StartsWithValidLetter(s)
    ensures Classify(s) == InvalidChars <==>
      MinSurnameLength <= |s| <= MaxSurnameLength && StartsWithValidLetter(s) && !MatchesLetterPattern(s)
  {
    IsValidSurnameRules(s);
    StartingLetterRule(s);
  }

  /** A counted name is non-empty, accepted exactly when it is valid, and otherwise carries its classification unless it is the correct answer. */
  predicate WellFormed(e: Entry) {
    && e.name != []
    && (e.verdict == Accepted <==> IsValidSurname(e.name))
    && (e.verdict != AnswerRejected ==> e.verdict == Classify(e.name))
  }

  /** The names of a regular row: each non-empty cleaned name once, with the row's count and its classification. */
  lemma {:induction false} NameEntriesSound(names: seq<string>, count: int)
    ensures |NameEntries(names, count)| <= |names|
    ensures forall e :: e in NameEntries(names, count) ==>
      e.count == count && e.verdict == Classify(e.name) && WellFormed(e)
  {
    if names != [] {
      NameEntriesSound(names[..|names| - 1], count);
      NameEntrySound(names[|names| - 1], count);
    }
  }

  /** One name yields at most one entry, which carries the count and its classification. */
  lemma NameEntrySound(name: string, count: int)
    ensures |NameEntry(name, count)| <= 1
    ensures forall e :: e in NameEntry(name, count) ==>
      e.count == count && e.verdict == Classify(e.name) && WellFormed(e)
  {
    SurnameEntrySound(CleanSurname(name), count);
  }

  lemma SurnameEntrySound(surname: string, count: int)
    ensures |SurnameEntry(surname, count)| <= 1
    ensures forall e :: e in SurnameEntry(surname, count) ==>
      e.count == count && e.verdict == Classify(e.name) && WellFormed(e)
  {
    if surname != [] {
      ClassifyOrder(surname);
    }
  }

  /**
    What one row contributes: nothing unless it has three cells and a count
    that parses; every counted name carries that count; the correct-answer row
    yields at most one entry, which is accepted or counted as a rejected
    answer; a regular row yields at most one entry per comma-separated piece,
    each with its classification.
  */
  lemma RowEntriesSound(row: Row)
    ensures forall e :: e in RowEntries(row) ==>
      && |row| >= MinTableColumns && ParseCount(row[2]).Some?
      && e.count == ParseCount(row[2]).value
      && WellFormed(e)
    ensures IsAnswerRow(row) ==>
      && |RowEntries(row)| <= 1
      && forall e :: e in RowEntries(row) ==>
           && (e.verdict == Accepted || e.verdict == AnswerRejected)
           && e.name == Strip(ReplaceAll(row[1], CorrectAnswerLabel, ""))
    ensures |row| >= MinTableColumns && !IsAnswerRow(row) ==>
      && |RowEntries(row)| <= |SplitOn(row[1], ',')|
      && forall e :: e in RowEntries(row) ==> e.verdict == Classify(e.name)
  {
    if IsAnswerRow(row) {
      AnswerRowSound(row[1], row[2]);
    } else if |row| >= MinTableColumns {
      RegularRowSound(row[1], row[2]);
    }
  }

  /**
    A cell holding a name and then the label: the entry, if any, is that name
    stripped, with the parsed count; it is there exactly when the stripped name is
    non-empty and the count parses.
  */
  lemma LabelledAnswerRow(name: string, countText: string)
    requires '(' !in name
    ensures var es := AnswerEntries(name + CorrectAnswerLabel, countText);
      && (es != [] <==> Strip(name) != [] && ParseCount(countText).Some?)
      && forall e :: e in es ==> e.name == Strip(name) && e.count == ParseCount(countText).value
  {
    var surnameText := name + CorrectAnswerLabel;
    AnswerLabelRemoved(name);
    assert Strip(ReplaceAll(surnameText, CorrectAnswerLabel, "")) == Strip(name);
    AnswerEntriesPresent(surnameText, countText);
    AnswerRowSound(surnameText, countText);
  }

  /** The correct-answer row yields an entry exactly when the name left after removing the label is non-empty and the count parses. */
  lemma AnswerEntriesPresent(surnameText: string, countText: string)
    ensures AnswerEntries(surnameText, countText) != [] <==>
      Strip(ReplaceAll(surnameText, CorrectAnswerLabel, "")) != [] && ParseCount(countText).Some?
  {
  }

  /** A valid name followed by the label, with a count that parses, is one accepted entry: the stripped name with that count. */
  lemma ValidLabelledAnswer(name: string, countText: string)
    requires '(' !in name && IsValidSurname(Strip(name)) && ParseCount(countText).Some?
    ensures AnswerEntries(name + CorrectAnswerLabel, countText) ==
      [Entry(Strip(name), ParseCount(countText).value, Accepted)]
  {
    AnswerLabelRemoved(name);
  }

  /** "Zyskowicz (oikea vastaus)" with the count "1 000" is the accepted answer "Zyskowicz", counted 1000 times. */
  lemma ZyskowiczAnswerRow(surnameText: string, countText: string)
    requires surnameText == "Zyskowicz (oikea vastaus)" && countText == "1 000"
    ensures AnswerEntries(surnameText, countText) == [Entry("Zyskowicz", 1000, Accepted)]
  {
    var padded := "Zyskowicz ";
    PaddedZyskowicz(padded);
    ZyskowiczValid();
    ParseCountOfGroupedDigits();
    ValidLabelledAnswer(padded, countText);
    ZyskowiczCell(surnameText, padded);
  }

  lemma ZyskowiczCell(surnameText: string, padded: string)
    requires surnameText == "Zyskowicz (oikea vastaus)" && padded == "Zyskowicz "
    ensures surnameText == padded + CorrectAnswerLabel
  {
  }

  lemma PaddedZyskowicz(padded: string)
    requires padded == "Zyskowicz "
    ensures '(' !in padded && Strip(padded) == "Zyskowicz"
  {
    var name := "Zyskowicz";
    assert padded == name + " ";
    assert '(' !in padded by {
      forall i | 0 <= i < |padded| ensures padded[i] != '(' {
        assert 'A' <= padded[i] <= 'z' || padded[i] == ' ';
      }
    }
    StripOfPadded(name, " ");
  }

  lemma ZyskowiczValid()
    ensures IsValidSurname("Zyskowicz")
  {
    var name := "Zyskowicz";
    assert forall i :: 0 <= i < |name| ==> 'A' <= name[i] <= 'Z' || 'a' <= name[i] <= 'z';
    assert AllLetters(name);
    IsValidSurnameRules(name);
  }

  lemma AnswerRowSound(surnameText: string, countText: string)
    ensures |AnswerEntries(surnameText, countText)| <= 1
    ensures forall e :: e in AnswerEntries(surnameText, countText) ==>
      && ParseCount(countText).Some? && e.count == ParseCount(countText).value
      && WellFormed(e)
      && (e.verdict == Accepted || e.verdict == AnswerRejected)
      && e.name == Strip(ReplaceAll(surnameText, CorrectAnswerLabel, ""))
  {
    var es := AnswerEntries(surnameText, countText);
    var name := Strip(ReplaceAll(surnameText, CorrectAnswerLabel, ""));
    var parsed := ParseCount(countText);
    assert es == [] || (name != [] && parsed.Some? && es == [Entry(name, parsed.value, AnswerVerdict(name))]);
    if es != [] {
      AnswerEntryWellFormed(name, parsed.value);
    }
  }

  lemma AnswerEntryWellFormed(name: string, count: int)
    requires name != []
    ensures WellFormed(Entry(name, count, AnswerVerdict(name)))
  {
  }

  lemma RegularRowSound(surnameText: string, countText: string)
    ensures |RegularEntries(surnameText, countText)| <= |SplitOn(surnameText, ',')|
    ensures forall e :: e in RegularEntries(surnameText, countText) ==>
      && ParseCount(countText).Some? && e.count == ParseCount(countText).value
      && WellFormed(e) && e.verdict == Classify(e.name)
  {
    var parsed := ParseCount(countText);
    if parsed.Some? {
      NameEntriesSound(StrippedNames(surnameText), parsed.value);
    }
  }

  /** Rows with fewer than three cells, counts that do not parse and names that clean to nothing contribute nothing. */
  lemma SkippedInputs(row: Row, name: string, count: int)
    ensures |row| < MinTableColumns ==> RowEntries(row) == []
    ensures |row| >= MinTableColumns && ParseCount(row[2]) == None ==> RowEntries(row) == []
    ensures CleanSurname(name) == [] ==> NameEntry(name, count) == []
  {
  }

  /** The number of rows that mention the correct-answer marker. */
  function AnswerRows(rows: seq<Row>): nat {
    if rows == [] then 0 else AnswerRows(rows[..|rows| - 1]) + (if IsAnswerRow(rows[|rows| - 1]) then 1 else 0)
  }

  lemma {:induction false} CountVerdictConcat(a: seq<Entry>, b: seq<Entry>, v: Verdict)
    ensures CountVerdict(a + b, v) == CountVerdict(a, v) + CountVerdict(b, v)
    decreases |b|
  {
    if b == [] {
      assert a + b == a;
    } else {
      assert (a + b)[..|a + b| - 1] == a + b[..|b| - 1];
      CountVerdictConcat(a, b[..|b| - 1], v);
    }
  }

  lemma {:induction false} CountVerdictAbsent(es: seq<Entry>, v: Verdict)
    requires forall e :: e in es ==> e.verdict != v
    ensures CountVerdict(es, v) == 0
  {
    if es != [] {
      assert es[|es| - 1] in es;
      assert forall e :: e in es[..|es| - 1] ==> e in es;
      CountVerdictAbsent(es[..|es| - 1], v);
    }
  }

  lemma CountVerdictAtMostLength(es: seq<Entry>, v: Verdict)
    ensures CountVerdict(es, v) <= |es|
  {
  }

  /**
    Over the whole table every counted name is well formed, and the counted
    names that no verdict counter records (the rejected correct answers) are
    at most as many as the rows that mention the correct answer.
  */
  lemma {:induction false} TableEntriesSound(rows: seq<Row>)
    ensures forall e :: e in TableEntries(rows) ==> WellFormed(e)
    ensures CountVerdict(TableEntries(rows), AnswerRejected) <= AnswerRows(rows)
  {
    if rows != [] {
      var init := rows[..|rows| - 1];
      var row := rows[|rows| - 1];
      TableEntriesSound(init);
      RowEntriesSound(row);
      CountVerdictConcat(TableEntries(init), RowEntries(row), AnswerRejected);
      if IsAnswerRow(row) {
        CountVerdictAtMostLength(RowEntries(row), AnswerRejected);
      } else {
        if |row| >= MinTableColumns {
          ClassifyNeverAnswer(RowEntries(row));
        }
        CountVerdictAbsent(RowEntries(row), AnswerRejected);
      }
    }
  }

  lemma ClassifyNeverAnswer(es: seq<Entry>)
    requires forall e :: e in es ==> e.verdict == Classify(e.name)
    ensures forall e :: e in es ==> e.verdict != AnswerRejected
  {
    forall e | e in es ensures e.verdict != AnswerRejected {
      ClassifyOrder(e.name);
    }
  }

  /** Every collected pair is a valid surname in its lower-cased, canonical form. */
  lemma {:induction false} DataOfCanonical(es: seq<Entry>)
    requires forall e :: e in es ==> WellFormed(e)
    ensures forall p :: p in DataOf(es) ==> IsValidSurname(p.0) && Lower(p.0) == p.0
  {
    if es != [] {
      var e := es[|es| - 1];
      assert e in es;
      assert forall x :: x in es[..|es| - 1] ==> x in es;
      DataOfCanonical(es[..|es| - 1]);
      if e.verdict == Accepted {
        LoweredSurnameCanonical(e.name);
      }
    }
  }

  /** The pairs `parse_html_table` returns are valid, lower-cased surnames. */
  lemma ImportedPairsCanonical(rows: seq<Row>)
    ensures forall p :: p in DataOf(TableEntries(rows)) ==> IsValidSurname(p.0) && Lower(p.0) == p.0
  {
    TableEntriesSound(rows);
    DataOfCanonical(TableEntries(rows));
  }

  /**
    The aggregated table has exactly one row per surname of the input and the
    sum of that surname's counts in it; a surname absent from the input sums to 0.
  */
  lemma {:induction false} TotalsMeaning(data: seq<(string, int)>)
    ensures Totals(data).Keys == KeysOf(data)
    ensures forall k :: k in Totals(data) ==> Totals(data)[k] == SumFor(data, k)
    ensures forall k :: k !in KeysOf(data) ==> SumFor(data, k) == 0
  {
    if data != [] {
      var init := data[..|data| - 1];
      TotalsMeaning(init);
      assert KeysOf(data) == KeysOf(init) + {data[|data| - 1].0} by {
        forall k | k in KeysOf(data) ensures k in KeysOf(init) + {data[|data| - 1].0} {
          var i :| 0 <= i < |data| && data[i].0 == k;
          if i < |data| - 1 {
            assert init[i] == data[i];
          }
        }
        forall k | k in KeysOf(init) ensures k in KeysOf(data) {
          var i :| 0 <= i < |init| && init[i].0 == k;
          assert data[i] == init[i];
        }
      }
    }
  }

  /** Aggregating keeps the sum of all counts. */
  lemma {:induction false} AggregationConservesTotal(data: seq<(string, int)>)
    ensures TableTotal(Totals(data)) == SumCounts(data)
  {
    if data != [] {
      var init := data[..|data| - 1];
      var last := data[|data| - 1];
      AggregationConservesTotal(init);
      TableTotalAddCount(Totals(init), last.0, last.1);
    }
  }

  /**
    The whole import: the table it leaves sums to the valid submissions the
    statistics report, and every stored surname is valid and canonical.
  */
  lemma ImportSummary(rows: seq<Row>)
    ensures var es := TableEntries(rows);
      && TableTotal(Totals(DataOf(es))) == StatsOf(es).validSubmissions
      && forall k :: k in Totals(DataOf(es)) ==> IsValidSurname(k) && Lower(k) == k
  {
    var es := TableEntries(rows);
    var data := DataOf(es);
    StatsAccounting(es);
    AggregationConservesTotal(data);
    ImportedPairsCanonical(rows);
    TotalsMeaning(data);
    forall k | k in Totals(data) ensures IsValidSurname(k) && Lower(k) == k {
      var i :| 0 <= i < |data| && data[i].0 == k;
      assert data[i] in data;
    }
  }
}
