# Surname game: a verified model of its decision logic

The surname game (jvuori/ben) asks players to guess how a politician's surname
is spelled. The web application checks each guess, counts it in a `guesses`
table and shows a leaderboard with percentages. A separate import script
fills the same table from an HTML results page of an older poll. This project
models the logic both programs share and proves what it guarantees:

- the surname validator (`is_valid_surname`). Both programs have a copy, and
  both copies are proved to accept exactly the same strings;
- the surname cleaner (`clean_surname`) of the import;
- the row-by-row processing of `parse_html_table`, from the cell texts on,
  with its list of `(surname, count)` pairs and its statistics dictionary;
- `populate_database`, which clears the table, adds up duplicate surnames and
  inserts one row per surname;
- `submit_guess`: first word of the form field, validation, lower-casing, the
  client address for the audit line, and increment-or-insert;
- `results`: the rows in the order `count DESC, surname ASC`, the row count,
  and each row's share of the total count.

Files:

| file | module | contents |
|---|---|---|
| `wrappers.dfy` | `Wrappers` | `Option` (a missing value, a NULL, a ValueError) |
| `text.dfy` | `Text` | the parts of Python's `str` the programs use: `isspace`, `strip`, `split()`, `split(",")`, `replace`, `startswith`, `in`, `lower`, `int()`, plus the database's text order |
| `letter_pattern.dfy` | `LetterPattern` | `re.match(r"^[a-zA-ZäöåÄÖÅüÜýÝÿŸ]+$", s)`, where `$` also matches before one final newline |
| `guesses_table.dfy` | `GuessesTable` | the `guesses` table as a class with a `map<string, int>` field, increment-or-insert, and `SUM(count)` |
| `parse_surnames.dfy` | `ParseSurnames` | the import script: validator, cleaner, row loop, aggregation and insertion |
| `import_properties.dfy` | `ImportProperties` | what the import guarantees: counter accounting, classification order, skipped inputs, the correct-answer row, conservation of counts |
| `app.dfy` | `App` | the web application: validator, `submit_guess`, `results` |

Where the code and its documentation differ, the model follows the code:

- app.py assigns the length bounds twice. The later values, 6 and 15, are the
  ones in force, so the earlier 4 and 50 are not modelled.
- Python's `$` matches just before a final newline, so the validator accepts
  `"zyskow\n"` (`ParseSurnames.FinalNewlineAccepted`). Both callers strip or
  collapse whitespace first, so no caller ever passes such a string.
- The statistics dictionary has no rejection counter for a correct answer
  that fails validation. It then raises the total counters and nothing else.
- A count that `int()` reads as zero or negative is counted like any other.
  So counts in an imported table are not always at least 1. The web
  application keeps counts positive only if they were positive before
  (`App.AcceptedSubmission`).

## Model

| member | source | states |
|---|---|---|
| `Text.Strip` | app.py:118 | `strip()` is empty exactly when the text is all whitespace; otherwise it starts and ends with non-whitespace; a text without whitespace is unchanged |
| `Text.Words` | app.py:121 | every word `split()` returns is non-empty and holds no whitespace |
| `Text.WordsSkipSpace` | app.py:121 | leading whitespace adds no word |
| `Text.WordsOfCons` | app.py:121 | a non-whitespace character in front joins the first word when the text starts with one, and is a word of its own otherwise |
| `Text.StripOfTrimmed` | app.py:118 | a text with no whitespace at either end is unchanged by `strip()` |
| `Text.WordsHead` | app.py:121 | a text that starts with non-whitespace has a first word, namely its leading run of non-whitespace |
| `Text.SplitOn` | parse_surnames.py:148 | `split(",")` gives at least one piece; no piece holds a comma; the first piece is the text before the first comma |
| `Text.SplitOnJoin` | parse_surnames.py:148 | joining the pieces of `split(",")` with commas gives back the text |
| `Text.ReplaceAll` | parse_surnames.py:117-121 | replacing a pattern, of any length, that does not occur changes nothing; replacing a one-character pattern with "" gives the text with exactly that character taken out (`Without`) |
| `Text.Without` | parse_surnames.py:121 | the character taken out no longer occurs |
| `Text.WithoutKeepsOthers` | parse_surnames.py:121 | every other character occurs as often as before |
| `Text.WithoutAbsent` | parse_surnames.py:121 | taking out a character that does not occur changes nothing |
| `Text.WithoutConcat` | parse_surnames.py:121 | taking a character out of two joined texts is taking it out of each |
| `Text.StripKeepsAbsent` | app.py:135 | `strip()` adds no character: a comma absent before is absent after |
| `Text.LowerIdempotent` | app.py:129 | lower-casing a lower-cased string changes nothing |
| `Text.ParseIntOfString` | parse_surnames.py:121 | `int()` reads back every integer as Python prints it |
| `Text.ParseIntRejectsInfoSeparator` | parse_surnames.py:121-124 | "\x1c5" strips to "5" but is no numeral: `int()` does not skip the information separators U+001C..U+001F, so the count is rejected |
| `Text.ReplaceTrailingPattern` | parse_surnames.py:117 | removing a pattern that follows a text not holding its first character gives back that text |
| `Text.StripOfPadded` | parse_surnames.py:117 | `strip()` removes trailing whitespace after a text with non-whitespace ends and keeps the text |
| `Text.LexLessIrreflexive` | app.py:171-172 | no surname sorts before itself |
| `Text.LexLessTransitive` | app.py:171-172 | the text order of `surname ASC` is transitive |
| `Text.LexLessTotal` | app.py:171-172 | of two different surnames one sorts before the other |
| `LetterPattern.MatchWithoutFinalNewline` | parse_surnames.py:53 | for a text without a final newline the pattern means "non-empty and letters only" |
| `LetterPattern.MatchedLettersAreNotSpace` | parse_surnames.py:53 | the letter class holds no whitespace character |
| `LetterPattern.LowerKeepsMatch` | parse_surnames.py:53 | a text the pattern matches still matches after lower-casing |
| `GuessesTable.AddCount` | app.py:143-156 | increment-or-insert: the keys gain the surname; its row becomes old + n, or n if it was new; every other row is unchanged |
| `GuessesTable.AddCountTwice` | parse_surnames.py:205-209 | two updates of the same surname add up to one update by the sum |
| `GuessesTable.TableTotalRemove` | app.py:181-182 | `SUM(count)` does not depend on the order of the rows: any row can be taken out first |
| `GuessesTable.TableTotalAddCount` | app.py:143-156 | an increment-or-insert of n raises the total by exactly n |
| `ParseSurnames.StartingLetterRule` | parse_surnames.py:46-50 | the lower-cased text starts with one of "z", "s", "t", "c" exactly when its lower-cased first character is one of them |
| `ParseSurnames.IsValidSurnameRules` | parse_surnames.py:31-53 | valid exactly when 6 <= length <= 15, the lower-cased first letter is z, s, t or c, and the letter pattern matches |
| `ParseSurnames.IsValidSurnameWithoutFinalNewline` | parse_surnames.py:31-53 | without a final newline: valid exactly when the length is within bounds, the start letter is right and every character is in the letter class |
| `ParseSurnames.FinalNewlineAccepted` | parse_surnames.py:53 | the text "zyskow" followed by a newline is accepted |
| `ParseSurnames.LengthBoundsInclusive` | parse_surnames.py:38-43 | lengths 6 and 15 can pass; no text of length 5 or 16 passes |
| `ParseSurnames.LoweredSurnameCanonical` | parse_surnames.py:160-161 | the lower-cased form of a valid surname is valid, and lower-casing it again changes nothing |
| `ParseSurnames.RemoveTags` | parse_surnames.py:59 | after tag removal every `<` left is followed directly by `>` or by no `>` at all; the text does not grow; a text without `<` is unchanged |
| `ParseSurnames.RemoveTagsKeepsPlainPrefix` | parse_surnames.py:59 | a leading text without `<` is kept as it is, and tag removal goes on after it |
| `ParseSurnames.RemoveTagsCons` | parse_surnames.py:59 | a first character other than `<` is kept, and tag removal goes on after it |
| `ParseSurnames.RemoveTagsKeepsStrayOpen` | parse_surnames.py:59 | a `<` that opens no tag (at the end, directly before `>`, or with no `>` after it) is kept, and tag removal goes on after it |
| `ParseSurnames.RemoveTagsDropsTag` | parse_surnames.py:59 | a leading tag `<…>` with a non-empty inside holding no `>` is removed, and removal goes on after it |
| `ParseSurnames.RemoveTagsOfMarkedName` | parse_surnames.py:59 | a tag between two texts without `<` goes and both texts are kept |
| `ParseSurnames.CleanMarkedZyskowicz` | parse_surnames.py:59 | "zysko<b>wicz" loses its tag and becomes "zyskowicz" |
| `ParseSurnames.ConsTagFree` | parse_surnames.py:59 | a character in front of a tag-free text keeps it tag-free unless it is a `<` that opens a tag |
| `ParseSurnames.CollapseWhitespace` | parse_surnames.py:62 | the result is empty exactly when the input is, and starts with whitespace exactly when the input does |
| `ParseSurnames.CollapseShape` | parse_surnames.py:62 | no two whitespace characters in a row, every whitespace character a plain space, and the same non-whitespace characters in the same order; together with `ParseSurnames.CollapseKeepsWords` this makes every whitespace run one plain space |
| `ParseSurnames.CollapseKeepsSingleSpaced` | parse_surnames.py:62 | a text already single-spaced, in particular one without whitespace, is unchanged |
| `ParseSurnames.CollapseKeepsLastSpace` | parse_surnames.py:62 | the result ends with whitespace exactly when the input does |
| `ParseSurnames.CollapseKeepsWords` | parse_surnames.py:62 | `split()` of the result equals `split()` of the input |
| `ParseSurnames.StripKeepsSingleSpacing` | parse_surnames.py:65 | stripping keeps the single spacing |
| `ParseSurnames.StripKeepsNonSpace` | parse_surnames.py:65 | stripping removes only whitespace |
| `ParseSurnames.StripShape` | parse_surnames.py:65 | stripping a single-spaced text leaves no whitespace at the ends, keeps the single spacing and removes only whitespace |
| `ParseSurnames.CollapseStripShape` | parse_surnames.py:62-65 | collapsing then stripping gives no whitespace at the ends, single plain spaces inside, and the input's non-whitespace characters |
| `ParseSurnames.CleanSurnameKeepsCleanName` | parse_surnames.py:56-65 | a name without `<`, single-spaced, with no whitespace at either end is returned unchanged |
| `ParseSurnames.CleanSurnameOfMarkedName` | parse_surnames.py:56-65 | a clean name with a tag inserted cleans back to the name |
| `ParseSurnames.CleanZyskowicz` | parse_surnames.py:56-65 | "zysko<b>wicz" cleans to "zyskowicz" |
| `ParseSurnames.AnswerLabelRemoved` | parse_surnames.py:117 | removing the label "(oikea vastaus)" from a name followed by it gives back the name, when the name holds no `(` |
| `ParseSurnames.CleanSurnameShape` | parse_surnames.py:56-65 | a cleaned surname has no whitespace at either end, every whitespace character in it is a single plain space, and its non-whitespace characters are those left by tag removal |
| `ParseSurnames.StrippedNames` | parse_surnames.py:148 | one stripped name per comma-separated piece |
| `ParseSurnames.ParseHtmlTable` | parse_surnames.py:89-178 | the pairs and the statistics are those of the table's counted entries, row after row (`DataOf`, `StatsOf` of `TableEntries`) |
| `ParseSurnames.ParseCountOfGroupedDigits` | parse_surnames.py:142 | the count "1 000" reads as 1000 |
| `ParseSurnames.CountRow` | parse_surnames.py:102-145 | one row adds its entries to the pairs and the statistics: none for a short row, the correct-answer entries for a row holding the marker, the regular entries otherwise |
| `ParseSurnames.CountAnswerRow` | parse_surnames.py:115-138 | the correct-answer row adds its one entry when the name with the label removed is non-empty and the count parses, and nothing otherwise |
| `ParseSurnames.CountRegularRow` | parse_surnames.py:140-176 | a regular row adds the entries of its names when the count parses, and nothing otherwise |
| `ParseSurnames.CountNames` | parse_surnames.py:148-176 | the loop over the names of a regular row counts each non-empty cleaned name in order |
| `ParseSurnames.CountName` | parse_surnames.py:156-176 | one name adds 1 to the entries and its count to the submissions, bumps the counter of its verdict, and appends `(lower, count)` when valid |
| `ParseSurnames.CountAnswer` | parse_surnames.py:126-137 | the correct answer adds to the totals, and to the valid counters and the pairs only when valid |
| `ParseSurnames.AggregateTotals` | parse_surnames.py:204-209 | the aggregation loop yields `Totals` of the pairs |
| `ParseSurnames.PopulateDatabase` | parse_surnames.py:197-216 | the table holds exactly the aggregated totals; every earlier row is gone |
| `ImportProperties.StatsAccounting` | parse_surnames.py:126-176 | total entries = number of counted names; total submissions = sum of their counts; valid entries = accepted names = number of pairs; valid submissions = sum of the pairs' counts; each rejection counter = names with that verdict; entries = valid + the four rejections + rejected correct answers |
| `ImportProperties.ClassifyOrder` | parse_surnames.py:160-176 | the reasons are tried in order: accepted exactly when valid, too short exactly when length < 6, too long exactly when > 15, wrong start or invalid characters only within the bounds |
| `ImportProperties.SurnameEntrySound` | parse_surnames.py:152-176 | a cleaned name gives at most one entry, carrying the count and its classification |
| `ImportProperties.NameEntrySound` | parse_surnames.py:150-176 | one name of a regular row gives at most one entry, carrying the count and its classification |
| `ImportProperties.NameEntriesSound` | parse_surnames.py:148-176 | at most one entry per name; each carries the row's count and its classification |
| `ImportProperties.RowEntriesSound` | parse_surnames.py:101-176 | a row contributes only with three cells and a parsable count, and every entry carries that count; the correct-answer row gives at most one entry, accepted or rejected-answer; a regular row gives at most one entry per piece, each classified |
| `ImportProperties.AnswerRowSound` | parse_surnames.py:115-138 | the correct-answer row is not split: at most one entry, the text with the label removed and stripped, accepted or counted only in the totals |
| `ImportProperties.AnswerEntriesPresent` | parse_surnames.py:115-138 | the correct-answer row gives an entry exactly when the name with the label removed is non-empty and the count parses |
| `ImportProperties.LabelledAnswerRow` | parse_surnames.py:115-138 | for a name followed by the label, the row gives an entry exactly when the stripped name is non-empty and the count parses, and the entry holds the stripped name and that count |
| `ImportProperties.ValidLabelledAnswer` | parse_surnames.py:115-138 | a valid name followed by the label and a count that parses give exactly one accepted entry of the stripped name |
| `ImportProperties.ZyskowiczAnswerRow` | parse_surnames.py:115-138 | the row "Zyskowicz (oikea vastaus)" with the count "1 000" gives the accepted entry "Zyskowicz" with 1000 |
| `ImportProperties.ZyskowiczValid` | parse_surnames.py:31-53 | "Zyskowicz" passes the validator |
| `ImportProperties.PaddedZyskowicz` | parse_surnames.py:117 | "Zyskowicz " holds no `(` and strips to "Zyskowicz" |
| `ImportProperties.RegularRowSound` | parse_surnames.py:140-176 | a regular row yields at most one entry per comma-separated piece, each with the parsed count and its classification |
| `ImportProperties.SkippedInputs` | parse_surnames.py:103-154 | rows with fewer than 3 cells, counts that do not parse and names that clean to nothing contribute nothing |
| `ImportProperties.TableEntriesSound` | parse_surnames.py:101-178 | every counted name is well formed, and names counted in no verdict counter are at most as many as the correct-answer rows |
| `ImportProperties.DataOfCanonical` | parse_surnames.py:160-161 | every appended pair is a valid surname already in lower case |
| `ImportProperties.ImportedPairsCanonical` | parse_surnames.py:101-178 | the pairs `parse_html_table` returns are valid lower-cased surnames |
| `ImportProperties.TotalsMeaning` | parse_surnames.py:204-209 | one entry per distinct input surname, holding the sum of that surname's counts |
| `ImportProperties.AggregationConservesTotal` | parse_surnames.py:204-216 | the sum of the stored counts equals the sum of the input counts |
| `ImportProperties.ImportSummary` | parse_surnames.py:186-216 | the imported table sums to the valid submissions of the statistics, and every stored surname is valid and lower-case |
| `App.ValidatorsAgree` | app.py:59-83 | the application's validator and the import's accept exactly the same strings |
| `App.FirstToken` | app.py:118-121 | the token is "" exactly when the stripped field is empty; otherwise it is the leading run of non-whitespace of the stripped field, and it has no whitespace |
| `App.FirstTokenPicksWord` | app.py:118-121 | whatever whitespace precedes the first word and whatever follows the whitespace after it, the token is that word |
| `App.OnlyFirstWordCounts` | app.py:121 | the field "  zysko wicz " submits "zysko", which is rejected |
| `App.ClientIp` | app.py:132-138 | the header wins over the peer address; a missing or empty value logs "unknown"; a value without a comma is logged as is; with a comma, the first piece stripped, which holds no comma, or "unknown" if it is blank |
| `App.ClientIpOfForwardedList` | app.py:133-135 | of "203.0.113.7, 10.0.0.1" the first address is logged |
| `App.ClientIpFallbacks` | app.py:132-138 | without the header the peer address is logged; an empty header or no address at all logs "unknown" |
| `App.SubmitGuess` | app.py:116-158 | rejected exactly when the token is invalid, leaving the table unchanged; otherwise the lower-cased token gains one row count and the outcome carries it and the client address |
| `App.RecordGuess` | app.py:143-156 | the SELECT then UPDATE-or-INSERT is an increment-or-insert of 1 |
| `App.AcceptedSubmission` | app.py:143-156 | an accepted submission stores a canonical key, keeps the table canonical and its counts positive, adds one to the total and leaves other rows alone |
| `App.RepeatedSubmissions` | app.py:143-156 | n submissions of one surname raise its count by n, from 0 for a new surname |
| `App.SubmitToNewTable` | app.py:116-158 | on a new, empty table a valid guess creates the one row of its lower-cased token with count 1, logged as "unknown" without an address; an invalid guess leaves the table empty |
| `App.TestSurnameAccepted` | tests/test_app.py:30-34 | the field "TestSurname" is accepted and stored as "testsurname" |
| `App.ImportedTableCanonical` | app.py:129 | the table the import leaves holds only keys the application itself would store |
| `App.BeforeIrreflexive` | app.py:171-172 | no row comes before itself |
| `App.BeforeTransitive` | app.py:171-172 | `count DESC, surname ASC` is transitive |
| `App.BeforeAsymmetric` | app.py:171-172 | two rows are never each before the other |
| `App.BeforeTotal` | app.py:171-172 | rows with different surnames are always ordered |
| `App.InsertRanked` | app.py:171-173 | placing a row with a new surname keeps the list ordered and adds exactly that row |
| `App.SelectOrdered` | app.py:170-174 | the rows come in order `count DESC, surname ASC`, one per table row, each with its count |
| `App.RankingUnique` | app.py:171-172 | any two ordered listings of the same table are equal: the order is fully determined |
| `App.SelectTotal` | app.py:181-182 | `SUM(count)` is NULL on an empty table and the total of the counts otherwise |
| `App.PercentageRange` | app.py:187 | the share is 0 when the total is not positive, and between 0 and 100 for a count within a positive total |
| `App.AddPercentages` | app.py:185-194 | the rows are kept in order, each with its share of the total; on an empty list the total is never looked at |
| `App.Results` | app.py:165-194 | the rows of the table in query order, each with its share of the table's total, and their number as the number of variations |
| `App.ListingTotal` | app.py:181-182 | the counts of an ordered listing of the table add up to the table's total |
| `App.PercentagesAddUp` | app.py:185-194 | when the total is positive, the percentages of the leaderboard add up to exactly 100 |

## Left out

- Flask routing, redirects, templates, the `highlight` parameter of `results` and ProxyFix: framework plumbing. A submission's outcome is the `Outcome` value instead of a redirect.
- The health endpoint: it only reports on the database connection.
- The SQLite connection and schema setup: the `guesses` table is a map from surname to count. Its primary key is the map's key.
- Concurrency: submissions are modelled one after another, so the race between the SELECT and the UPDATE or INSERT of two requests is not modelled.
- The audit log file: the client address and surname that `log_user_guess` writes are the fields of `Accepted`. The logger's file handling is I/O.
- `SubmitGuess` does not model the request itself; the form field, the X-Forwarded-For header and the peer address are its parameters.
- Reading the HTML file (windows-1252 decoding, BeautifulSoup, `find_all`): a table row is the list of its cell texts after `get_text(strip=True)`.
- The `print` diagnostics and the statistics printed by `main`: output only.
- Floating point: a percentage is an exact real, and `round(..., 2)` is not modelled.
- `Text.Lower` maps only ASCII capitals and Ä, Ö, Å, Ü, Ý, Ÿ. Python lower-cases every cased character, but on strings the validator accepts the two agree.
- `Text.ParseInt` accepts only ASCII digits, with an optional sign and single underscores between digits. Python's `int()` also accepts other Unicode digits. Around the numeral the model, like `int()`, skips the whitespace `strip()` removes, except the information separators U+001C..U+001F: `isspace()` counts them as whitespace, but `int()` rejects them.
- `Text.IsSpace` is the whitespace set of `str.isspace()`, used for `\s`, `strip()` and `split()` alike.
- `ParseSurnames.CleanSurname` on its own states nothing; its properties are the lemmas `ParseSurnames.CleanSurnameShape`, `ParseSurnames.CleanSurnameKeepsCleanName` and `ParseSurnames.CleanSurnameOfMarkedName`.
- `Text.ParseInt` takes numerals of any length. Python 3.8.14 and later 3.8 releases, 3.9.14 and later 3.9 releases, and 3.10.7 and later raise ValueError for a numeral of more than 4300 digits, and the import then skips the row (parse_surnames.py:120-124, 141-145); the model parses it.
- `GuessesTable.AddCount` and `App.SelectTotal` work on unbounded integers. SQLite stores 64-bit integers: storing a count of 2^63 or more raises OverflowError at the writes (app.py:148-156, parse_surnames.py:213-216), and `SUM` raises "integer overflow" once the total leaves that range (app.py:181). The model stores and adds such counts.
- `ParseSurnames.PopulateDatabase` inserts the aggregated rows in no particular order. Python's dictionary insertion order is not modelled, because a table has no row order.
