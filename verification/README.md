# Name reconciliation for a points tool: a Dafny model

The tool matches students between two lists. One is the roster a school
points platform exports (`id`, first name, last name). The other is a list of
names from the school's own spreadsheet, or from a balance-transfer file.
Names in the two lists differ in casing, word order, middle names and
truncation. This project models the engine that reconciles them and proves
what it promises.

- `text.dfy` (module `Text`): the JavaScript string primitives the engine
  relies on, made explicit:
  - `trim`, ASCII `toUpperCase`/`toLowerCase`, `indexOf`, `startsWith`;
  - `split(/\s+/)`, `split(' ')` and `join`;
  - `parseInt(_, 10)` and the printing of a number in a template string.
- `parser.dfy` (module `Parser`), from `js/parser.js`:
  - the two name parsers: "LAST, FIRST MIDDLE" / "LAST FIRST" and "FIRST LAST LAST";
  - the row extraction of a spreadsheet with one name column or with separate
    last-name and first-name columns;
  - the balance rows with their points;
  - the header search and row loop of the roster export;
  - the row split of a balance file;
  - the column picker.

  Every extraction loop is a `method` proved equal to a specification
  function: the row-by-row concatenation (`Gather`) of what each row yields.
  Lemmas then prove the following about those functions:
  - every record comes from a qualifying row, with the fields the source
    gives it;
  - every qualifying row yields a record;
  - the records follow row order.
- `matcher.dfy` (module `Matcher`), from `js/matcher.js`:
  - the last-name and first-name tolerance rules, characterised exactly;
  - the score-to-confidence mapping and its 80-point acceptance boundary;
  - the fuzzy search, kept as an abstract engine with a stated contract;
  - the first-hit exact scan;
  - the three outcomes of `matchStudent`;
  - the order-preserving split of `matchAllStudents`;
  - the sorted dropdown list.

  The module-level matcher object is the class `StudentMatcher`; `initialize`
  replaces its roster and search index.
- `wrappers.dfy` (module `Wrappers`): `Option` and `Result`.

Two consequences of the code are worth knowing:

- Confidence 100 is not reserved for the rule-based exact pass. A fuzzy hit
  whose score is at most 0.005 also gets confidence 100 (`FullConfidence`).
- A name copied verbatim from a roster student is matched with confidence 100,
  but not necessarily to that student. The exact pass takes the first roster
  student the tolerance rules accept, which may come before the copied one.
  `VerbatimCopyMatches` states exactly which student it is.

## Model

| member | source | states |
|---|---|---|
| Text.UpperChar | js/parser.js:110 | a lower-case ASCII letter becomes its capital, 32 code points lower; every other character is kept |
| Text.Upper | js/parser.js:110 | `toUpperCase` keeps the length and upper-cases each character in place |
| Text.Lower | js/parser.js:61 | `toLowerCase` maps each character to its lower-case form, keeping the length |
| Text.Trim | js/parser.js:110 | `trim` returns a string with no whitespace at either end, made only of characters of the input, and leaves a trimmed string unchanged |
| Text.TrimIsSlice | js/parser.js:110 | `trim` returns a contiguous slice of the input with only whitespace outside it |
| Text.IndexOf | js/parser.js:113 | `indexOf` is absent exactly when the character does not occur; otherwise it is the position of its first occurrence |
| Text.SplitOn | js/matcher.js:49 | `split(' ')` gives several pieces exactly when a space occurs; the first piece is the text before the first space |
| Text.SplitWs | js/parser.js:117 | `split(/\s+/)` gives at least one piece, each free of whitespace and made of the input's characters |
| Text.SplitWsRebuild | js/parser.js:117 | the pieces of `split(/\s+/)`, with a non-empty run of whitespace put back between each two, spell the input again |
| Text.SplitWsInnerWords | js/parser.js:117 | only the first and the last piece of `split(/\s+/)` can be empty, and the first is non-empty when the input starts with a non-space |
| Text.SplitWsTrimmed | js/parser.js:117 | on a trimmed, non-empty string every piece of `split(/\s+/)` is a non-empty word |
| Text.SplitJoin | js/parser.js:117-121 | splitting words joined by single spaces gives the words back |
| Text.JoinWords | js/parser.js:121 | words joined by single spaces form a non-empty trimmed string |
| Text.NatToString | js/parser.js:222 | the decimal printing of a number is a non-empty string of digits |
| Text.NatToStringNoLeadingZero | js/parser.js:222 | the printing has no leading zero: it is a single digit or starts with a non-zero digit, and starts with '0' exactly when the number is 0 |
| Text.DecimalRoundTrip | js/parser.js:222 | reading back the decimal printing of a natural number gives the number |
| Text.ParseIntNeedsDigit | js/parser.js:319 | `parseInt(_, 10)` gives `NaN` for a string without digits, and a negative number only when the string has a minus sign |
| Text.ParseIntPrefix | js/parser.js:319 | `parseInt(_, 10)` reads an optional sign and the longest run of digits after it, ignoring whatever follows ("10-5" reads as 10) |
| Text.ParseIntSignWithoutDigit | js/parser.js:319 | a sign not followed by a digit reads as `NaN` ("--5" and "-" included) |
| Text.DecimalLeadingZero | js/parser.js:319 | a leading zero does not change the value of a digit string ("007" reads as 7) |
| Text.LeadingDigitsStop | js/parser.js:319 | a run of digits followed by a non-digit is exactly the leading digits |
| Text.ParseIntRoundTrip | js/parser.js:319 | `parseInt(_, 10)` of a printed integer, sign included, gives the integer |
| Parser.ParseStudentName | js/parser.js:105-137 | a missing or empty input gives three empty names; otherwise the full name is the input trimmed and upper-cased |
| Parser.SplitStudentName | js/parser.js:113-136 | the full name is the normalized input; with a comma both name parts are trimmed |
| Parser.StudentNameNormalized | js/parser.js:105-137 | every field `parseStudentName` returns is upper-cased and trimmed, whatever the input |
| Parser.BlankNameIsEmpty | js/parser.js:106-125 | a missing, empty or all-whitespace input gives first, last and full names all empty, in both parsers |
| Parser.StudentNameWithoutComma | js/parser.js:115-125 | without a comma and with two or more words, the last name is the first word and the first name is the other words joined by single spaces; a single word becomes the first name |
| Parser.StudentNameWithComma | js/parser.js:128-136 | with a comma, the input splits at its first comma into a comma-free part and the rest; the last name is the first part trimmed and the first name the rest trimmed |
| Parser.CommaRoundTrip | js/parser.js:128-136 | "LAST, FIRST" with a comma-free last name parses back into that last and first name, with the whole string as full name |
| Parser.ParseFirstLastName | js/parser.js:269-299 | a missing or empty input gives three empty names; otherwise the full name is the input trimmed and upper-cased |
| Parser.FirstLastNameNormalized | js/parser.js:269-299 | every field `parseFirstLastName` returns is upper-cased and trimmed |
| Parser.FirstLastNameShape | js/parser.js:274-298 | with two or more words, the first word is the first name and the last name is the other words joined by single spaces; one word becomes the first name |
| Parser.FirstLastRoundTrip | js/parser.js:290-298 | words joined by spaces parse into the first word and the rest joined, e.g. "JOHN MICHAEL SMITH" into JOHN / MICHAEL SMITH |
| Parser.SheetRecordFits | js/parser.js:150-158 | a row yields at most one record: its trimmed name cell, the parse of it and its own index; a row with a name yields one |
| Parser.SheetRecordsSound | js/parser.js:149-160 | every extracted record comes from a row after the header row whose trimmed name cell is non-empty, and carries that text and its parse |
| Parser.SheetRecordsComplete | js/parser.js:149-160 | every row after the header row with a non-empty name cell yields a record with that row index |
| Parser.SheetRecordsOrdered | js/parser.js:149-157 | row indices of the records strictly increase |
| Parser.ExtractStudentsFromSheet | js/parser.js:145-164 | the loop returns exactly the row-by-row records of the rows after the header row |
| Parser.ColumnsRecordFits | js/parser.js:178-197 | a row yields at most one record; it has both names upper-cased and trimmed, and the display name "LAST, FIRST" or whichever name is present |
| Parser.ColumnsRecordsSound | js/parser.js:177-199 | every record comes from a row after the header row with a last or a first name and has the shape above |
| Parser.ColumnsRecordsComplete | js/parser.js:177-199 | every row after the header row with a last or a first name yields a record |
| Parser.ColumnsRecordsOrdered | js/parser.js:177-197 | row indices of the records strictly increase |
| Parser.ExtractStudentsFromSeparateColumns | js/parser.js:173-203 | the loop returns exactly the row-by-row records of the rows after the header row |
| Parser.KeepDigitsAndMinus | js/parser.js:319 | `replace(/[^0-9-]/g, '')` keeps only digits and minus signs of the input and keeps a string made of them unchanged |
| Parser.KeepDigitsAndMinusChar | js/parser.js:319 | on one character the filter keeps a digit or a minus sign and drops anything else |
| Parser.KeepDigitsAndMinusConcat | js/parser.js:319 | the filter of two strings one after the other is the filter of the first followed by that of the second, so order is kept |
| Parser.PointsFromDigits | js/parser.js:319 | a points cell whose digits and minus signs spell an integer reads as that integer, whatever else it holds |
| Parser.PointsRoundTrip | js/parser.js:319 | a points cell holding a printed integer reads as that integer |
| Parser.PointsWithoutDigits | js/parser.js:319 | a points cell without digits, a missing one included, reads as 0 |
| Parser.BalanceRecordFits | js/parser.js:312-328 | a data row yields at most one record: its trimmed name, the "FIRST LAST" parse, the row's points and index plus one |
| Parser.BalanceRecordsSound | js/parser.js:311-329 | every balance record comes from a data row with a non-empty name and carries its name, parse and points |
| Parser.BalanceRecordsComplete | js/parser.js:311-329 | every data row with a non-empty name yields a record numbered `i + 1` |
| Parser.BalanceRecordsOrdered | js/parser.js:311-328 | row numbers of the balance records strictly increase |
| Parser.ExtractBalanceData | js/parser.js:308-332 | the loop returns exactly the row-by-row balance records |
| Parser.FirstHeaderNone | js/parser.js:57-72 | no header is found exactly when none of the first ten rows has three cells and a first cell reading "id" |
| Parser.FirstHeaderSome | js/parser.js:58-67 | the header found is such a row among the first ten, and no earlier row is |
| Parser.FindHeaderRow | js/parser.js:57-67 | the loop with `break` finds exactly the first header row among the first ten |
| Parser.RosterRow | js/parser.js:76-84 | a student is taken only from a row of three or more cells; its id is the first cell trimmed and non-empty, and its names are upper-cased, trimmed, one of them non-empty |
| Parser.RosterRowFits | js/parser.js:76-84 | a row yields a student exactly when it has three cells, a non-blank id cell and a non-blank first- or last-name cell; the id is the first cell trimmed, the first name the second cell and the last name the third, each trimmed and upper-cased |
| Parser.RosterRowsSound | js/parser.js:75-86 | every roster student is the student of some row after the header that describes one |
| Parser.RosterRowsComplete | js/parser.js:75-86 | every row after the header with an id and a name puts its student in the roster |
| Parser.RosterRowsMembers | js/parser.js:75-86 | a student is in the roster exactly when some row after the header describes it |
| Parser.RosterRowsWellFormed | js/parser.js:75-86 | every roster student is well formed as above |
| Parser.ParseRosterRows | js/parser.js:53-88 | an error exactly when no header row is found; otherwise the students of the rows after the first header row |
| Parser.CollectRoster | js/parser.js:75-86 | the row loop returns exactly the row-by-row students from its start row on |
| Parser.NonBlankRows | js/parser.js:249 | the kept rows are exactly the input rows with a non-empty cell |
| Parser.NonBlankRowsOne | js/parser.js:249 | a single row is kept when it has a non-empty cell and dropped otherwise |
| Parser.NonBlankRowsConcat | js/parser.js:249 | filtering two runs of rows one after the other is filtering each in turn, so row order is kept |
| Parser.ParseBalanceRows | js/parser.js:240-251 | an error exactly when there are fewer than two rows; otherwise header `i` is header cell `i` trimmed, and the rows are the later rows with content, in order |
| Parser.GetColumnInfo | js/parser.js:210-228 | nothing for fewer than two rows; otherwise one entry per header cell with its index, its header or "Column n", and the sample cell below |
| Matcher.LastNamesMatch | js/matcher.js:41-61 | an accepted platform last name is always a prefix of the school's last name |
| Matcher.LastNamesMatchCases | js/matcher.js:41-61 | last names match exactly when they are equal, or the school name is the platform name (without a space) followed by a space, or the school name starts with a platform name of 15 or more characters |
| Matcher.TruncatedLastNameMatches | js/matcher.js:54-58 | a platform last name of 15 or more characters that starts the school name is accepted |
| Matcher.ShortPrefixRejected | js/matcher.js:41-61 | a platform name shorter than 15 characters that is a different, one-word school name's prefix is rejected |
| Matcher.FourteenCharacterPrefixRejected | js/matcher.js:56 | a 14-character prefix is rejected and a 15-character one accepted |
| Matcher.FirstNamesMatchFirstWord | js/matcher.js:69-95 | first names match exactly when their first space-separated words agree (the other rules are implied) |
| Matcher.FirstNamesMatchSymmetric | js/matcher.js:69-95 | the first-name rule gives the same answer with its arguments swapped |
| Matcher.ConfidenceOf | js/matcher.js:138 | the confidence is the whole number nearest to `100 * (1 - score)`, a half rounded up, at most 100 |
| Matcher.ConfidenceThreshold | js/matcher.js:164 | confidence is 80 or more exactly when the score is at most 0.205 |
| Matcher.FullConfidence | js/matcher.js:138 | confidence is 100 exactly when the score is at most 0.005 |
| Matcher.ConfidenceMonotone | js/matcher.js:138 | a lower score never gives a lower confidence |
| Matcher.SearchItems | js/matcher.js:17-23 | the search collection has one item per roster student, in order, each carrying that student |
| Matcher.SearchKeys | js/matcher.js:17-23 | for a well-formed student the three keys are "FIRST LAST", "LAST FIRST" and "LAST, FIRST", with the missing name dropped as `trim` leaves it |
| Matcher.FuzzyMatches | js/matcher.js:126-140 | nothing for a blank query; otherwise one suggestion per hit of the engine, in the engine's order, with the hit's item and score and the confidence of that score; at most `limit` of them, confidences non-increasing |
| Matcher.Suggestions | js/matcher.js:135-139 | each hit becomes a suggestion with its item, score and confidence, in order, confidences non-increasing for ranked hits |
| Matcher.ExactFrom | js/matcher.js:107-117 | the scan's result is a roster position at or after its start |
| Matcher.ExactFromNone | js/matcher.js:102-118 | the exact pass finds nobody exactly when no roster student satisfies both rules |
| Matcher.ExactFromFirst | js/matcher.js:107-114 | what the exact pass finds satisfies both rules and no earlier roster student does |
| Matcher.ExactMatch | js/matcher.js:102-118 | nobody exactly when no roster student satisfies both rules; otherwise the first roster student that does |
| Matcher.MatchOf | js/matcher.js:147-184 | the result keeps the input's names; an exact hit gives a match to that student with confidence 100; otherwise a top fuzzy suggestion of confidence 80 or more gives a match to its student with its confidence; otherwise the result is unmatched and carries all the fuzzy suggestions (at most 5, each below 80) |
| Matcher.VerbatimCopyMatches | js/matcher.js:151-159 | a name copied from roster student k is matched with confidence 100 to the first accepted roster student, at or before k |
| Matcher.FuzzyAcceptance | js/matcher.js:163-173 | with no exact hit, the result is matched exactly when the query is non-blank and the top hit's score is at most 0.205 |
| Matcher.EmptyNameUnmatched | js/matcher.js:147-184 | with a well-formed roster, empty first and last names give an unmatched result with no suggestions |
| Matcher.MatchAll | js/matcher.js:195-196 | one result per input, the result of `matchStudent` for it |
| Matcher.Routed | js/matcher.js:191-205 | each routed list holds only results of its own kind, taken from the input, and is no longer than it |
| Matcher.RoutedStep | js/matcher.js:195-203 | one more result is appended to the list of its own kind and leaves the other list as it was |
| Matcher.Partition | js/matcher.js:191-205 | the matched and unmatched lists hold exactly the matched and unmatched results, and their lengths add up to the input's |
| Matcher.RoutedKeepsOrder | js/matcher.js:195-203 | both lists keep input order: for a longer input they extend the lists of its first part |
| Matcher.DropdownEntries | js/matcher.js:213-219 | one entry per roster student, in order, displayed as "LAST, FIRST" |
| Matcher.LexLeTotal | js/matcher.js:220 | any two display names are ordered one way or the other |
| Matcher.LexLeTransitive | js/matcher.js:220 | the order on display names is transitive |
| Matcher.SortedPairwise | js/matcher.js:220 | in a sorted list every name is at most every later name |
| Matcher.Insert | js/matcher.js:220 | insertion adds the entry to the multiset and puts either it or the old head first |
| Matcher.InsertSorted | js/matcher.js:220 | insertion keeps a sorted list sorted |
| Matcher.SortByName | js/matcher.js:220 | the sort returns a permutation of its input, sorted by display name |
| Matcher.StudentMatcher.constructor | js/matcher.js:13-32 | a matcher built over a roster holds that roster and its search index |
| Matcher.StudentMatcher.Initialize | js/matcher.js:13-32 | the roster and the index are replaced by the new students', not extended |
| Matcher.StudentMatcher.FindExactMatch | js/matcher.js:102-118 | the loop with early return finds exactly the first roster student both rules accept, or none |
| Matcher.StudentMatcher.MatchStudent | js/matcher.js:147-184 | the method returns exactly `MatchOf` of the current roster, so the three outcomes above, and changes nothing |
| Matcher.StudentMatcher.MatchAllStudents | js/matcher.js:191-206 | the loop returns exactly the matched and the unmatched results of all inputs, in input order |
| Matcher.StudentMatcher.GetAllStudentsForDropdown | js/matcher.js:212-221 | one entry per roster student, a permutation of the roster's entries, sorted by display name |

## Left out

- Reading files: the FileReader, XLSX and Papa.parse wrappers (js/parser.js:12-51, js/parser.js:236-238) are not modelled. The model starts from their output, rows of string cells.
- Non-string cells and missing rows: cells are strings and rows always exist. So the `row &&` guards and the `String(...)` conversions of numbers are not modelled, nor the "Failed to parse CSV data" error path, which only an exception raised on such data reaches.
- The Fuse.js search (js/matcher.js:26-31, js/matcher.js:133) is an abstract engine. Its scoring is not modelled; only the contract the matcher relies on is (`SoundHits`):
  - at most `limit` hits;
  - every hit drawn from the searched collection;
  - hits ranked best first.
- Matcher.ConfidenceOf: scores are fixed-point numbers with six decimal places rather than doubles, so floating-point rounding in `(1 - score) * 100` is not modelled.
- Matcher.MatchOf: a fuzzy-accepted match is the roster student itself. In the source it is the search item, which also carries the three search keys.
- The matcher's state before the first `initialize` (a null search index, where a fuzzy search would throw) is not modelled. The constructor performs the first `initialize`.
- Aliasing is not modelled: `initialize` keeps a reference to the caller's array, while the model keeps the roster as a value.
- Matcher.SortByName: `localeCompare` is replaced by code-point lexicographic order. That the sort is stable for equal display names is not stated.
- Unicode case mapping and whitespace are not modelled: upper- and lower-casing cover ASCII letters only, and whitespace is space, tab, line feed, carriage return, vertical tab and form feed.
- Matcher.LastNamesMatch: a string is a sequence of characters, so the length test `lsLast.length >= 15` (js/matcher.js:56) counts characters. JavaScript counts UTF-16 code units, so a name with characters outside the Basic Multilingual Plane can reach 15 with fewer characters.
- Parser.PointsRoundTrip: integers are unbounded, so the loss of precision of `parseInt` on numbers beyond 2^53 is not modelled.
- `matchStudent` and `matchAllStudents` read only `originalName` and `parsedName` of a school record (`Candidate`). The other fields of the records passed in (`rowIndex`, `points`) are not carried into the results, as in the source.
- All of js/app.js (rendering, sign-in, storage, script generation, the demo generator) is not part of this model.
