/**
 * The parsing half of the name-reconciliation engine (js/parser.js): turning
 * raw name strings into `{firstName, lastName, fullName}` records, and pulling
 * candidate records out of spreadsheet rows that a file reader has already
 * split into cells.
 */
module Parser {
  import opened Wrappers
  import opened Text

  /** A name split into its parts. Every field the parsers produce is upper-cased and trimmed. */
  datatype ParsedName = ParsedName(firstName: string, lastName: string, fullName: string)

  const EmptyName := ParsedName("", "", "")

  /** A student of the platform's roster export. */
  datatype Student = Student(id: string, firstName: string, lastName: string)

  /** A name found in the school's spreadsheet, with the row it came from. */
  datatype SheetStudent = SheetStudent(originalName: string, parsedName: ParsedName, rowIndex: nat)

  /** A name and point balance found in a balance-transfer file. */
  datatype BalanceEntry = BalanceEntry(originalName: string, parsedName: ParsedName, points: int, rowIndex: nat)

  /** What the column picker shows of one spreadsheet column. */
  datatype ColumnInfo = ColumnInfo(index: nat, header: string, sample: string)

  /** A balance file split into its trimmed header cells and its non-blank data rows. */
  datatype BalanceSheet = BalanceSheet(headers: seq<string>, rows: seq<Row>)

  type Row = seq<string>

  /** `row[i]`; `None` is the `undefined` read past the end of the row. */
  function CellAt(row: Row, i: nat): Option<string> {
    if i < |row| then Some(row[i]) else None
  }

  /** `String(row[i] || '')`. */
  function CellOrEmpty(row: Row, i: nat): string {
    if i < |row| then row[i] else ""
  }

  predicate IsNormal(s: string) {
    IsUpperCased(s) && IsTrimmed(s)
  }

  predicate Normalized(n: ParsedName) {
    IsNormal(n.firstName) && IsNormal(n.lastName) && IsNormal(n.fullName)
  }

  // ----- name parsing -----

  /**
   * `parseStudentName`: "LAST, FIRST MIDDLE" when there is a comma, otherwise
   * "LAST FIRST MIDDLE" split on whitespace.  `None` is a missing or non-string
   * argument.
   */
  function ParseStudentName(input: Option<string>): (r: ParsedName)
    ensures input.None? || input.value == "" ==> r == EmptyName
    ensures input.Some? && input.value != "" ==> r.fullName == Upper(Trim(input.value))
  {
    match input
    case None => EmptyName
    case Some(s) => if s == "" then EmptyName else SplitStudentName(Upper(Trim(s)))
  }

  /** The body of `parseStudentName` once the input is trimmed and upper-cased. */
  function SplitStudentName(normalized: string): (r: ParsedName)
    ensures r.fullName == normalized
    ensures ',' in normalized ==> IsTrimmed(r.firstName) && IsTrimmed(r.lastName)
  {
    match IndexOf(normalized, ',')
    case None =>
      var parts := SplitWs(normalized);
      if |parts| >= 2 then ParsedName(Join(parts[1..], " "), parts[0], normalized)
      else ParsedName(normalized, "", normalized)
    case Some(commaIndex) =>
      ParsedName(Trim(normalized[commaIndex + 1..]), Trim(normalized[..commaIndex]), normalized)
  }

  /** `parseFirstLastName`: "FIRST LAST LAST..." split on whitespace. */
  function ParseFirstLastName(input: Option<string>): (r: ParsedName)
    ensures input.None? || input.value == "" ==> r == EmptyName
    ensures input.Some? && input.value != "" ==> r.fullName == Upper(Trim(input.value))
  {
    match input
    case None => EmptyName
    case Some(s) =>
      if s == "" then EmptyName
      else
        var normalized := Upper(Trim(s));
        var parts := SplitWs(normalized);
        if |parts| == 1 then ParsedName(parts[0], "", normalized)
        else ParsedName(parts[0], Join(parts[1..], " "), normalized)
  }

  // ----- facts about the parsers -----

  lemma WordIsNormal(w: string)
    requires IsWord(w) && IsUpperCased(w)
    ensures IsNormal(w)
  {
    assert w[0] in w && w[|w| - 1] in w;
  }

  lemma SliceUpper(s: string, i: nat, j: nat)
    requires i <= j <= |s| && IsUpperCased(s)
    ensures IsUpperCased(s[i..j])
  {
    forall c | c in s[i..j] ensures !IsLowerLetter(c) {
      var k :| i <= k < j && s[k] == c;
      assert s[k] in s;
    }
  }

  /** The normalised input and the facts about its whitespace split the parsers rely on. */
  lemma NormalizedSplit(s: string)
    ensures IsNormal(Upper(Trim(s)))
    ensures forall i :: 0 <= i < |SplitWs(Upper(Trim(s)))| ==> IsUpperCased(SplitWs(Upper(Trim(s)))[i])
    ensures Upper(Trim(s)) != "" ==>
      forall i :: 0 <= i < |SplitWs(Upper(Trim(s)))| ==> IsWord(SplitWs(Upper(Trim(s)))[i])
  {
    var n := Upper(Trim(s));
    UpperKeepsTrimmed(Trim(s));
    if n != "" {
      SplitWsTrimmed(n);
    }
  }

  /** The words after the first, joined again: upper-cased and trimmed. */
  lemma RestNormal(parts: seq<string>)
    requires |parts| >= 2
    requires forall i :: 0 <= i < |parts| ==> IsWord(parts[i]) && IsUpperCased(parts[i])
    ensures IsNormal(parts[0]) && IsNormal(Join(parts[1..], " "))
    ensures SplitWs(Join(parts[1..], " ")) == parts[1..]
  {
    WordIsNormal(parts[0]);
    JoinWords(parts[1..]);
    JoinUpper(parts[1..]);
    SplitJoin(parts[1..]);
  }

  /** `parseStudentName` returns upper-cased, trimmed fields, whatever the input. */
  lemma {:induction false} StudentNameNormalized(input: Option<string>)
    ensures Normalized(ParseStudentName(input))
  {
    if input.Some? && input.value != "" {
      NormalizedSplit(input.value);
      SplitStudentNameNormal(Upper(Trim(input.value)));
    }
  }

  /** The split of an upper-cased, trimmed string has upper-cased, trimmed fields. */
  lemma SplitStudentNameNormal(n: string)
    requires IsNormal(n)
    requires forall i :: 0 <= i < |SplitWs(n)| ==> IsUpperCased(SplitWs(n)[i])
    requires n != "" ==> forall i :: 0 <= i < |SplitWs(n)| ==> IsWord(SplitWs(n)[i])
    ensures Normalized(SplitStudentName(n))
  {
    match IndexOf(n, ',')
    case None =>
      var parts := SplitWs(n);
      if |parts| >= 2 {
        RestNormal(parts);
      }
    case Some(ci) =>
      SliceUpper(n, 0, ci);
      SliceUpper(n, ci + 1, |n|);
  }

  /** `parseFirstLastName` returns upper-cased, trimmed fields, whatever the input. */
  lemma {:induction false} FirstLastNameNormalized(input: Option<string>)
    ensures Normalized(ParseFirstLastName(input))
  {
    if input.Some? && input.value != "" {
      var n := Upper(Trim(input.value));
      NormalizedSplit(input.value);
      var parts := SplitWs(n);
      if |parts| >= 2 {
        RestNormal(parts);
        assert ParseFirstLastName(input) == ParsedName(parts[0], Join(parts[1..], " "), n);
      } else if n != "" {
        WordIsNormal(parts[0]);
      }
    }
  }

  /** A missing, empty or all-whitespace input gives the empty name. */
  lemma BlankNameIsEmpty(input: Option<string>)
    requires input.Some? ==> Trim(input.value) == ""
    ensures ParseStudentName(input) == EmptyName
    ensures ParseFirstLastName(input) == EmptyName
  {
    if input.Some? && input.value != "" {
      assert Upper(Trim(input.value)) == "";
      assert SplitWs("") == [""];
    }
  }

  /**
   * Without a comma, `parseStudentName` takes the first whitespace-separated
   * word as the last name and the remaining words, single-spaced, as the first
   * name: the words of the input are the last name followed by the words of
   * the first name.  A single word becomes the first name.
   */
  lemma {:induction false} StudentNameWithoutComma(s: string)
    requires s != "" && ',' !in Upper(Trim(s))
    ensures var n := Upper(Trim(s)); var r := ParseStudentName(Some(s));
      && r.fullName == n
      && (|SplitWs(n)| >= 2 ==> r.lastName == SplitWs(n)[0] && r.firstName == Join(SplitWs(n)[1..], " "))
      && (|SplitWs(n)| >= 2 ==> IsWord(r.lastName) && SplitWs(n) == [r.lastName] + SplitWs(r.firstName))
      && (|SplitWs(n)| == 1 ==> r == ParsedName(n, "", n))
  {
    var n := Upper(Trim(s));
    NormalizedSplit(s);
    var parts := SplitWs(n);
    if |parts| >= 2 {
      assert n != "";
      RestNormal(parts);
      assert parts == [parts[0]] + parts[1..];
    } else {
      assert n == "" || NoSpace(n) by {
        if n != "" {
          assert IsWord(parts[0]);
          // a trimmed string without whitespace is its own single piece
          var k := FirstSpace(n);
          assert k == |n|;
        }
      }
    }
  }

  /**
   * With a comma, the normalised input is split at its first comma: the last
   * name is the trimmed text before it and the first name the trimmed text
   * after it, middle names and later commas kept.  Spaces around the comma
   * may be present or not ("SMITH,JOHN", "SMITH , JOHN"), and either side may
   * be empty ("SMITH,").
   */
  lemma StudentNameWithComma(s: string)
    requires s != "" && ',' in Upper(Trim(s))
    ensures var n := Upper(Trim(s)); var r := ParseStudentName(Some(s));
      && r.fullName == n
      && exists a, b :: n == a + "," + b && ',' !in a && r.lastName == Trim(a) && r.firstName == Trim(b)
  {
    var n := Upper(Trim(s));
    var r := ParseStudentName(Some(s));
    assert r == SplitStudentName(n);
    CommaSplit(n);
  }

  /** The split of a normalised string with a comma happens at its first comma. */
  lemma CommaSplit(n: string)
    requires ',' in n
    ensures exists a, b :: n == a + "," + b && ',' !in a && SplitStudentName(n) == ParsedName(Trim(b), Trim(a), n)
  {
    var ci := IndexOf(n, ',').value;
    var a, b := n[..ci], n[ci + 1..];
    assert n == a + "," + b;
    assert SplitStudentName(n) == ParsedName(Trim(b), Trim(a), n);
  }

  /**
   * "LAST, FIRST" of normal parts, with a comma-free last name and a first
   * name present, comes back apart.
   */
  lemma {:induction false} CommaRoundTrip(last: string, first: string)
    requires IsNormal(last) && IsNormal(first) && first != ""
    requires ',' !in last
    ensures ParseStudentName(Some(last + ", " + first)) == ParsedName(first, last, last + ", " + first)
  {
    var s := last + ", " + first;
    CommaJoinNormal(last, first);
    assert Upper(Trim(s)) == s;
    CommaSplitsAt(last, first);
  }

  lemma CommaSplitsAt(last: string, first: string)
    requires IsNormal(last) && IsNormal(first) && first != ""
    requires ',' !in last
    ensures SplitStudentName(last + ", " + first) == ParsedName(first, last, last + ", " + first)
  {
    var s := last + ", " + first;
    CommaIndex(last, first);
    TrimAfterSpace(first);
    assert s[..|last|] == last && s[|last| + 1..] == " " + first;
  }

  lemma CommaIndex(last: string, first: string)
    requires ',' !in last
    ensures IndexOf(last + ", " + first, ',') == Some(|last|)
  {
    assert last + ", " + first == last + [','] + (" " + first);
    IndexOfAfter(last, ',', " " + first);
  }

  lemma TrimAfterSpace(first: string)
    requires IsNormal(first) && first != ""
    ensures Trim(" " + first) == first
  {
    assert TrimStart(" " + first) == first;
  }

  /** "LAST, FIRST" of two normal parts is itself normal. */
  lemma CommaJoinNormal(last: string, first: string)
    requires IsNormal(last) && IsNormal(first) && first != ""
    ensures IsNormal(last + ", " + first)
  {
    var s := last + ", " + first;
    assert first[|first| - 1] in first;
    assert s[0] == (if last == [] then ',' else last[0]);
    assert last != [] ==> last[0] in last;
    assert s[|s| - 1] == first[|first| - 1];
    forall c | c in s ensures !IsLowerLetter(c) {
      assert c in last || c in ", " || c in first;
    }
  }

  /** "FIRST LAST..." comes back apart: the first word is the first name, the rest the last name. */
  lemma {:induction false} FirstLastRoundTrip(ws: seq<string>)
    requires |ws| >= 2
    requires forall i :: 0 <= i < |ws| ==> IsWord(ws[i]) && IsUpperCased(ws[i])
    ensures ParseFirstLastName(Some(Join(ws, " "))) == ParsedName(ws[0], Join(ws[1..], " "), Join(ws, " "))
  {
    var s := Join(ws, " ");
    JoinWords(ws);
    JoinUpper(ws);
    SplitJoin(ws);
    assert Upper(Trim(s)) == s;
  }

  /**
   * With at least two words, `parseFirstLastName` takes the first word as the
   * first name and the remaining words, single-spaced, as the last name; a
   * single word becomes the first name.
   */
  lemma {:induction false} FirstLastNameShape(s: string)
    requires s != ""
    ensures var n := Upper(Trim(s)); var r := ParseFirstLastName(Some(s));
      && r.fullName == n
      && (|SplitWs(n)| >= 2 ==> r.firstName == SplitWs(n)[0] && r.lastName == Join(SplitWs(n)[1..], " "))
      && (|SplitWs(n)| >= 2 ==> IsWord(r.firstName) && SplitWs(n) == [r.firstName] + SplitWs(r.lastName))
      && (|SplitWs(n)| == 1 ==> r == ParsedName(n, "", n))
  {
    var n := Upper(Trim(s));
    NormalizedSplit(s);
    var parts := SplitWs(n);
    if |parts| >= 2 {
      assert n != "";
      RestNormal(parts);
      assert parts == [parts[0]] + parts[1..];
    } else {
      assert n == "" || NoSpace(n) by {
        if n != "" {
          var k := FirstSpace(n);
          assert k == |n|;
        }
      }
      if n != "" { SplitWsNoSpace(n); } else { assert SplitWs(n) == [""]; }
    }
  }

  // ----- row extraction -----

  /** The pieces `f(lo)`, ..., `f(hi - 1)` one after the other: what a row loop appends, row by row. */
  function Gather<T>(lo: nat, hi: nat, f: nat -> seq<T>): seq<T>
    decreases hi
  {
    if hi <= lo then [] else Gather(lo, hi - 1, f) + f(hi - 1)
  }

  /** An item is gathered exactly when one of the pieces holds it. */
  lemma {:induction false} GatherMember<T>(lo: nat, hi: nat, f: nat -> seq<T>, x: T)
    ensures x in Gather(lo, hi, f) <==> exists i :: lo <= i < hi && x in f(i)
    decreases hi
  {
    if hi > lo {
      GatherMember(lo, hi - 1, f, x);
      assert Gather(lo, hi, f) == Gather(lo, hi - 1, f) + f(hi - 1);
    }
  }

  /**
   * When every piece holds at most one item, keyed by the piece's index, the
   * gathered items have keys in `lo..hi` that strictly increase.
   */
  lemma {:induction false} GatherOrdered<T>(lo: nat, hi: nat, f: nat -> seq<T>, key: T -> int)
    requires forall i :: lo <= i < hi ==> |f(i)| <= 1
    requires forall i :: lo <= i < hi ==> forall k :: 0 <= k < |f(i)| ==> key(f(i)[k]) == i
    ensures forall k :: 0 <= k < |Gather(lo, hi, f)| ==> lo <= key(Gather(lo, hi, f)[k]) < hi
    ensures forall k, l :: 0 <= k < l < |Gather(lo, hi, f)| ==> key(Gather(lo, hi, f)[k]) < key(Gather(lo, hi, f)[l])
    decreases hi
  {
    if hi > lo {
      GatherOrdered(lo, hi - 1, f, key);
      var p := Gather(lo, hi - 1, f);
      var h := f(hi - 1);
      var r := p + h;
      assert Gather(lo, hi, f) == r;
      forall k | 0 <= k < |r| ensures lo <= key(r[k]) < hi {
        if k < |p| { assert r[k] == p[k]; } else { assert r[k] == h[k - |p|]; }
      }
      forall k, l | 0 <= k < l < |r| ensures key(r[k]) < key(r[l]) {
        assert r[k] == p[k];
        if l < |p| { assert r[l] == p[l]; } else { assert r[l] == h[l - |p|]; }
      }
    }
  }

  /** The trimmed text of a cell; empty when the cell is missing or blank. */
  function NameCell(row: Row, col: nat): string {
    Trim(CellOrEmpty(row, col))
  }

  /** Some record was taken from row `i`. */
  predicate HasRow(students: seq<SheetStudent>, i: nat) {
    exists e :: e in students && e.rowIndex == i
  }

  /** The records follow the rows' order. */
  predicate InRowOrder(students: seq<SheetStudent>) {
    forall k, l :: 0 <= k < l < |students| ==> students[k].rowIndex < students[l].rowIndex
  }

  /** What `extractStudentsFromSheet` takes from row `i`: a record when its name cell holds some text. */
  function SheetRecord(sheet: seq<Row>, nameColumn: nat, i: nat): seq<SheetStudent> {
    if i >= |sheet| then []
    else
      var name := NameCell(sheet[i], nameColumn);
      if name != "" then [SheetStudent(name, ParseStudentName(Some(name)), i)] else []
  }

  function SheetRow(sheet: seq<Row>, nameColumn: nat): nat -> seq<SheetStudent> {
    (i: nat) => SheetRecord(sheet, nameColumn, i)
  }

  /** The records `extractStudentsFromSheet` takes from the rows after the header row. */
  function SheetRecords(sheet: seq<Row>, nameColumn: nat): seq<SheetStudent> {
    Gather(1, |sheet|, SheetRow(sheet, nameColumn))
  }

  /**
   * `e` was taken from a row after the header row whose name cell holds
   * text: it carries that text and its "LAST, FIRST" parse.
   */
  predicate FromNameRow(sheet: seq<Row>, nameColumn: nat, e: SheetStudent) {
    && 1 <= e.rowIndex < |sheet|
    && e.originalName == NameCell(sheet[e.rowIndex], nameColumn)
    && e.originalName != ""
    && e.parsedName == ParseStudentName(Some(e.originalName))
  }

  /** The record of one row, if any, is that row's name and its parse. */
  lemma SheetRecordFits(sheet: seq<Row>, nameColumn: nat, i: nat)
    requires 1 <= i
    ensures |SheetRecord(sheet, nameColumn, i)| <= 1
    ensures forall e :: e in SheetRecord(sheet, nameColumn, i) ==> FromNameRow(sheet, nameColumn, e) && e.rowIndex == i
    ensures i < |sheet| && NameCell(sheet[i], nameColumn) != "" ==> SheetRecord(sheet, nameColumn, i) != []
  {
    if i < |sheet| {
      var name := NameCell(sheet[i], nameColumn);
      if name != "" {
        var e := SheetStudent(name, ParseStudentName(Some(name)), i);
        assert FromNameRow(sheet, nameColumn, e);
        assert SheetRecord(sheet, nameColumn, i) == [e];
      } else {
        assert SheetRecord(sheet, nameColumn, i) == [];
      }
    }
  }

  /** Each record comes from a row after the header row that has a name. */
  lemma SheetRecordsSound(sheet: seq<Row>, nameColumn: nat)
    ensures forall e :: e in SheetRecords(sheet, nameColumn) ==> FromNameRow(sheet, nameColumn, e)
  {
    forall e | e in SheetRecords(sheet, nameColumn) ensures FromNameRow(sheet, nameColumn, e) {
      GatherMember(1, |sheet|, SheetRow(sheet, nameColumn), e);
      var i :| 1 <= i < |sheet| && e in SheetRow(sheet, nameColumn)(i);
      SheetRecordFits(sheet, nameColumn, i);
    }
  }

  /** Every row after the header row whose name cell holds text yields a record. */
  lemma SheetRecordsComplete(sheet: seq<Row>, nameColumn: nat)
    ensures forall i :: 1 <= i < |sheet| && NameCell(sheet[i], nameColumn) != "" ==> HasRow(SheetRecords(sheet, nameColumn), i)
  {
    forall i | 1 <= i < |sheet| && NameCell(sheet[i], nameColumn) != "" ensures HasRow(SheetRecords(sheet, nameColumn), i) {
      SheetRecordFits(sheet, nameColumn, i);
      var e := SheetRecord(sheet, nameColumn, i)[0];
      assert e in SheetRow(sheet, nameColumn)(i);
      GatherMember(1, |sheet|, SheetRow(sheet, nameColumn), e);
    }
  }

  /** The records follow the rows' order; so no row yields two records and row 0 yields none. */
  lemma SheetRecordsOrdered(sheet: seq<Row>, nameColumn: nat)
    ensures InRowOrder(SheetRecords(sheet, nameColumn))
  {
    var f := SheetRow(sheet, nameColumn);
    forall i | 1 <= i < |sheet| ensures |f(i)| <= 1 && forall k :: 0 <= k < |f(i)| ==> f(i)[k].rowIndex == i {
      SheetRecordFits(sheet, nameColumn, i);
      assert forall k :: 0 <= k < |f(i)| ==> f(i)[k] in f(i);
    }
    GatherOrdered(1, |sheet|, f, (e: SheetStudent) => e.rowIndex as int);
  }

  /** `extractStudentsFromSheet`: the records of all rows after the header row. */
  method ExtractStudentsFromSheet(sheet: seq<Row>, nameColumn: nat) returns (students: seq<SheetStudent>)
    ensures students == SheetRecords(sheet, nameColumn)
  {
    students := [];
    var i := 1;
    while i < |sheet|
      invariant 1 <= i && (i == 1 || i <= |sheet|)
      invariant students == Gather(1, i, SheetRow(sheet, nameColumn))
    {
      students := students + SheetRecord(sheet, nameColumn, i);
      i := i + 1;
    }
  }

  /** What `extractStudentsFromSeparateColumns` takes from row `i`. */
  function ColumnsRecord(sheet: seq<Row>, lastColumn: nat, firstColumn: nat, i: nat): seq<SheetStudent> {
    if i >= |sheet| then []
    else
      var lastName := Upper(NameCell(sheet[i], lastColumn));
      var firstName := Upper(NameCell(sheet[i], firstColumn));
      if lastName == "" && firstName == "" then []
      else
        var originalName := if lastName != "" && firstName != "" then lastName + ", " + firstName
                            else if lastName != "" then lastName else firstName;
        [SheetStudent(originalName, ParsedName(firstName, lastName, originalName), i)]
  }

  function ColumnsRow(sheet: seq<Row>, lastColumn: nat, firstColumn: nat): nat -> seq<SheetStudent> {
    (i: nat) => ColumnsRecord(sheet, lastColumn, firstColumn, i)
  }

  /** The records `extractStudentsFromSeparateColumns` takes from the rows after the header row. */
  function ColumnsRecords(sheet: seq<Row>, lastColumn: nat, firstColumn: nat): seq<SheetStudent> {
    Gather(1, |sheet|, ColumnsRow(sheet, lastColumn, firstColumn))
  }

  /**
   * `e` was taken from a row after the header row with a last or a first
   * name: it carries both names upper-cased and trimmed, and reads
   * "LAST, FIRST" when both are present, otherwise the one that is.
   */
  predicate FromColumnsRow(sheet: seq<Row>, lastColumn: nat, firstColumn: nat, e: SheetStudent) {
    var last := e.parsedName.lastName;
    var first := e.parsedName.firstName;
    && 1 <= e.rowIndex < |sheet|
    && last == Upper(NameCell(sheet[e.rowIndex], lastColumn))
    && first == Upper(NameCell(sheet[e.rowIndex], firstColumn))
    && (last != "" || first != "")
    && (last != "" && first != "" ==> e.originalName == last + ", " + first)
    && (first == "" ==> e.originalName == last)
    && (last == "" ==> e.originalName == first)
    && e.parsedName.fullName == e.originalName
  }

  /** The record of one row, if any, has the shape `FromColumnsRow` describes. */
  lemma ColumnsRecordFits(sheet: seq<Row>, lastColumn: nat, firstColumn: nat, i: nat)
    requires 1 <= i
    ensures |ColumnsRecord(sheet, lastColumn, firstColumn, i)| <= 1
    ensures forall e :: e in ColumnsRecord(sheet, lastColumn, firstColumn, i) ==>
      FromColumnsRow(sheet, lastColumn, firstColumn, e) && e.rowIndex == i
    ensures i < |sheet| && (NameCell(sheet[i], lastColumn) != "" || NameCell(sheet[i], firstColumn) != "") ==>
      ColumnsRecord(sheet, lastColumn, firstColumn, i) != []
  {
    if i < |sheet| {
      assert |Upper(NameCell(sheet[i], lastColumn))| == |NameCell(sheet[i], lastColumn)|;
      assert |Upper(NameCell(sheet[i], firstColumn))| == |NameCell(sheet[i], firstColumn)|;
    }
  }

  /** Each record comes from a row after the header row that has a last or a first name. */
  lemma ColumnsRecordsSound(sheet: seq<Row>, lastColumn: nat, firstColumn: nat)
    ensures forall e :: e in ColumnsRecords(sheet, lastColumn, firstColumn) ==> FromColumnsRow(sheet, lastColumn, firstColumn, e)
  {
    forall e | e in ColumnsRecords(sheet, lastColumn, firstColumn) ensures FromColumnsRow(sheet, lastColumn, firstColumn, e) {
      GatherMember(1, |sheet|, ColumnsRow(sheet, lastColumn, firstColumn), e);
      var i :| 1 <= i < |sheet| && e in ColumnsRow(sheet, lastColumn, firstColumn)(i);
      ColumnsRecordFits(sheet, lastColumn, firstColumn, i);
    }
  }

  /** Every row after the header row with a last or a first name yields a record. */
  lemma ColumnsRecordsComplete(sheet: seq<Row>, lastColumn: nat, firstColumn: nat)
    ensures forall i :: 1 <= i < |sheet| && (NameCell(sheet[i], lastColumn) != "" || NameCell(sheet[i], firstColumn) != "") ==>
      HasRow(ColumnsRecords(sheet, lastColumn, firstColumn), i)
  {
    forall i | 1 <= i < |sheet| && (NameCell(sheet[i], lastColumn) != "" || NameCell(sheet[i], firstColumn) != "")
      ensures HasRow(ColumnsRecords(sheet, lastColumn, firstColumn), i)
    {
      ColumnsRecordFits(sheet, lastColumn, firstColumn, i);
      var e := ColumnsRecord(sheet, lastColumn, firstColumn, i)[0];
      assert e in ColumnsRow(sheet, lastColumn, firstColumn)(i);
      GatherMember(1, |sheet|, ColumnsRow(sheet, lastColumn, firstColumn), e);
    }
  }

  /** The records follow the rows' order. */
  lemma ColumnsRecordsOrdered(sheet: seq<Row>, lastColumn: nat, firstColumn: nat)
    ensures InRowOrder(ColumnsRecords(sheet, lastColumn, firstColumn))
  {
    var f := ColumnsRow(sheet, lastColumn, firstColumn);
    forall i | 1 <= i < |sheet| ensures |f(i)| <= 1 && forall k :: 0 <= k < |f(i)| ==> f(i)[k].rowIndex == i {
      ColumnsRecordFits(sheet, lastColumn, firstColumn, i);
      assert forall k :: 0 <= k < |f(i)| ==> f(i)[k] in f(i);
    }
    GatherOrdered(1, |sheet|, f, (e: SheetStudent) => e.rowIndex as int);
  }

  /** `extractStudentsFromSeparateColumns`: the records of all rows after the header row. */
  method ExtractStudentsFromSeparateColumns(sheet: seq<Row>, lastColumn: nat, firstColumn: nat)
    returns (students: seq<SheetStudent>)
    ensures students == ColumnsRecords(sheet, lastColumn, firstColumn)
  {
    students := [];
    var i := 1;
    while i < |sheet|
      invariant 1 <= i && (i == 1 || i <= |sheet|)
      invariant students == Gather(1, i, ColumnsRow(sheet, lastColumn, firstColumn))
    {
      students := students + ColumnsRecord(sheet, lastColumn, firstColumn, i);
      i := i + 1;
    }
  }

  /** `String(value)`: a missing cell prints as "undefined". */
  function CellText(cell: Option<string>): string {
    match cell
    case None => "undefined"
    case Some(s) => s
  }

  /** `s.replace(/[^0-9-]/g, '')`: the digits and minus signs of `s`, in order. */
  function KeepDigitsAndMinus(s: string): (r: string)
    ensures forall c :: c in r ==> (IsDigit(c) || c == '-') && c in s
    ensures (forall c :: c in s ==> IsDigit(c) || c == '-') ==> r == s
  {
    if s == [] then []
    else
      var rest := KeepDigitsAndMinus(s[1..]);
      assert s == [s[0]] + s[1..];
      if IsDigit(s[0]) || s[0] == '-' then [s[0]] + rest else rest
  }

  /** The filter keeps a digit or a minus sign and drops every other character. */
  lemma KeepDigitsAndMinusChar(c: char)
    ensures KeepDigitsAndMinus([c]) == if IsDigit(c) || c == '-' then [c] else []
  {
    assert [c][1..] == [];
  }

  /** The filter works character by character: it distributes over concatenation, so order is kept. */
  lemma {:induction false} KeepDigitsAndMinusConcat(a: string, b: string)
    ensures KeepDigitsAndMinus(a + b) == KeepDigitsAndMinus(a) + KeepDigitsAndMinus(b)
    decreases |a|
  {
    if a != [] {
      assert (a + b)[0] == a[0] && (a + b)[1..] == a[1..] + b;
      KeepDigitsAndMinusConcat(a[1..], b);
    } else {
      assert a + b == b;
    }
  }

  /** The points of a balance row: `parseInt(String(value).replace(/[^0-9-]/g, ''), 10) || 0`. */
  function PointsOf(cell: Option<string>): int {
    match ParseInt(KeepDigitsAndMinus(CellText(cell)))
    case None => 0
    case Some(v) => v
  }

  /**
   * A points cell whose digits and minus signs spell an integer reads as
   * that integer, whatever else it holds ("1,250 pts" reads as 1250).
   */
  lemma PointsFromDigits(cell: Option<string>, n: int)
    requires KeepDigitsAndMinus(CellText(cell)) == IntToString(n)
    ensures PointsOf(cell) == n
  {
    ParseIntRoundTrip(n);
  }

  /** A points cell holding a printed integer reads back as that integer. */
  lemma PointsRoundTrip(n: int)
    ensures PointsOf(Some(IntToString(n))) == n
  {
    var s := IntToString(n);
    assert forall c :: c in s ==> IsDigit(c) || c == '-' by {
      if n < 0 {
        assert forall c :: c in s ==> c == '-' || c in NatToString(-n);
      }
    }
    ParseIntRoundTrip(n);
  }

  /** A points cell without any digit, a missing one included, counts as zero points. */
  lemma PointsWithoutDigits(cell: Option<string>)
    requires forall c :: c in CellText(cell) ==> !IsDigit(c)
    ensures PointsOf(cell) == 0
  {
    var t := KeepDigitsAndMinus(CellText(cell));
    assert TrimStart(t) == t by {
      if t != [] { assert t[0] in t; }
    }
    var body := if t != [] && (t[0] == '-' || t[0] == '+') then t[1..] else t;
    if body != [] {
      assert body[0] in t;
    }
    assert LeadingDigits(body) == [];
  }


  /** Some balance record was taken from data row `i` (counted from 1). */
  predicate HasBalanceRow(students: seq<BalanceEntry>, i: nat) {
    exists e :: e in students && e.rowIndex == i
  }

  /** The balance records follow the rows' order. */
  predicate InBalanceOrder(students: seq<BalanceEntry>) {
    forall k, l :: 0 <= k < l < |students| ==> students[k].rowIndex < students[l].rowIndex
  }

  /** What `extractBalanceData` takes from data row `i` (counted from 0). */
  function BalanceRecord(rows: seq<Row>, nameColumn: nat, pointsColumn: nat, i: nat): seq<BalanceEntry> {
    if i >= |rows| then []
    else
      var name := NameCell(rows[i], nameColumn);
      if name != "" then [BalanceEntry(name, ParseFirstLastName(Some(name)), PointsOf(CellAt(rows[i], pointsColumn)), i + 1)]
      else []
  }

  function BalanceRow(rows: seq<Row>, nameColumn: nat, pointsColumn: nat): nat -> seq<BalanceEntry> {
    (i: nat) => BalanceRecord(rows, nameColumn, pointsColumn, i)
  }

  /** The records `extractBalanceData` takes from the data rows. */
  function BalanceRecords(rows: seq<Row>, nameColumn: nat, pointsColumn: nat): seq<BalanceEntry> {
    Gather(0, |rows|, BalanceRow(rows, nameColumn, pointsColumn))
  }

  /**
   * `e` was taken from a data row whose name cell holds text (`rowIndex`
   * counts from 1): it carries that text, its "FIRST LAST" parse and the
   * row's points.
   */
  predicate FromBalanceRow(rows: seq<Row>, nameColumn: nat, pointsColumn: nat, e: BalanceEntry) {
    && 1 <= e.rowIndex <= |rows|
    && e.originalName == NameCell(rows[e.rowIndex - 1], nameColumn)
    && e.originalName != ""
    && e.parsedName == ParseFirstLastName(Some(e.originalName))
    && e.points == PointsOf(CellAt(rows[e.rowIndex - 1], pointsColumn))
  }

  /** The record of one data row, if any, is that row's name, its parse and its points. */
  lemma BalanceRecordFits(rows: seq<Row>, nameColumn: nat, pointsColumn: nat, i: nat)
    ensures |BalanceRecord(rows, nameColumn, pointsColumn, i)| <= 1
    ensures forall e :: e in BalanceRecord(rows, nameColumn, pointsColumn, i) ==>
      FromBalanceRow(rows, nameColumn, pointsColumn, e) && e.rowIndex == i + 1
    ensures i < |rows| && NameCell(rows[i], nameColumn) != "" ==> BalanceRecord(rows, nameColumn, pointsColumn, i) != []
  {
    if i < |rows| {
      var name := NameCell(rows[i], nameColumn);
      if name != "" {
        var e := BalanceEntry(name, ParseFirstLastName(Some(name)), PointsOf(CellAt(rows[i], pointsColumn)), i + 1);
        assert FromBalanceRow(rows, nameColumn, pointsColumn, e);
        assert BalanceRecord(rows, nameColumn, pointsColumn, i) == [e];
      } else {
        assert BalanceRecord(rows, nameColumn, pointsColumn, i) == [];
      }
    }
  }

  /** Each record comes from a data row that has a name. */
  lemma BalanceRecordsSound(rows: seq<Row>, nameColumn: nat, pointsColumn: nat)
    ensures forall e :: e in BalanceRecords(rows, nameColumn, pointsColumn) ==> FromBalanceRow(rows, nameColumn, pointsColumn, e)
  {
    forall e | e in BalanceRecords(rows, nameColumn, pointsColumn) ensures FromBalanceRow(rows, nameColumn, pointsColumn, e) {
      GatherMember(0, |rows|, BalanceRow(rows, nameColumn, pointsColumn), e);
      var i :| 0 <= i < |rows| && e in BalanceRow(rows, nameColumn, pointsColumn)(i);
      BalanceRecordFits(rows, nameColumn, pointsColumn, i);
    }
  }

  /** Every data row whose name cell holds text yields a record. */
  lemma BalanceRecordsComplete(rows: seq<Row>, nameColumn: nat, pointsColumn: nat)
    ensures forall i :: 0 <= i < |rows| && NameCell(rows[i], nameColumn) != "" ==>
      HasBalanceRow(BalanceRecords(rows, nameColumn, pointsColumn), i + 1)
  {
    forall i | 0 <= i < |rows| && NameCell(rows[i], nameColumn) != ""
      ensures HasBalanceRow(BalanceRecords(rows, nameColumn, pointsColumn), i + 1)
    {
      BalanceRecordFits(rows, nameColumn, pointsColumn, i);
      var e := BalanceRecord(rows, nameColumn, pointsColumn, i)[0];
      assert e in BalanceRow(rows, nameColumn, pointsColumn)(i);
      GatherMember(0, |rows|, BalanceRow(rows, nameColumn, pointsColumn), e);
    }
  }

  /** The balance records follow the rows' order. */
  lemma BalanceRecordsOrdered(rows: seq<Row>, nameColumn: nat, pointsColumn: nat)
    ensures InBalanceOrder(BalanceRecords(rows, nameColumn, pointsColumn))
  {
    var f := BalanceRow(rows, nameColumn, pointsColumn);
    forall i | 0 <= i < |rows| ensures |f(i)| <= 1 && forall k :: 0 <= k < |f(i)| ==> f(i)[k].rowIndex - 1 == i {
      BalanceRecordFits(rows, nameColumn, pointsColumn, i);
      assert forall k :: 0 <= k < |f(i)| ==> f(i)[k] in f(i);
    }
    GatherOrdered(0, |rows|, f, (e: BalanceEntry) => e.rowIndex - 1);
  }

  /** `extractBalanceData`: the records of all data rows. */
  method ExtractBalanceData(rows: seq<Row>, nameColumn: nat, pointsColumn: nat) returns (students: seq<BalanceEntry>)
    ensures students == BalanceRecords(rows, nameColumn, pointsColumn)
  {
    students := [];
    for i := 0 to |rows|
      invariant students == Gather(0, i, BalanceRow(rows, nameColumn, pointsColumn))
    {
      students := students + BalanceRecord(rows, nameColumn, pointsColumn, i);
    }
  }


  // ----- the roster export -----

  /** The header row of the roster export: at least three cells, the first reading "id". */
  predicate IsHeaderRow(row: Row) {
    |row| >= 3 && Trim(Lower(row[0])) == "id"
  }

  /** The first header row at or after row `i` among the first ten rows. */
  function FirstHeader(rows: seq<Row>, i: nat): (h: Option<nat>)
    decreases 10 - i
  {
    if i >= |rows| || i >= 10 then None
    else if IsHeaderRow(rows[i]) then Some(i)
    else FirstHeader(rows, i + 1)
  }

  /** `FirstHeader` finds nothing exactly when none of the first ten rows from `i` on is a header row. */
  lemma {:induction false} FirstHeaderNone(rows: seq<Row>, i: nat)
    ensures FirstHeader(rows, i).None? <==> forall j :: i <= j < |rows| && j < 10 ==> !IsHeaderRow(rows[j])
    decreases 10 - i
  {
    if i < |rows| && i < 10 && !IsHeaderRow(rows[i]) {
      FirstHeaderNone(rows, i + 1);
    }
  }

  /** What `FirstHeader` finds is a header row among the first ten, and no earlier row from `i` on is one. */
  lemma {:induction false} FirstHeaderSome(rows: seq<Row>, i: nat)
    ensures FirstHeader(rows, i).Some? ==>
      var h := FirstHeader(rows, i).value;
      && i <= h < |rows| && h < 10 && IsHeaderRow(rows[h])
      && forall j :: i <= j < h ==> !IsHeaderRow(rows[j])
    decreases 10 - i
  {
    if i < |rows| && i < 10 && !IsHeaderRow(rows[i]) {
      FirstHeaderSome(rows, i + 1);
    }
  }

  /** The header search of `parseLiveSchoolFile`. */
  method FindHeaderRow(rows: seq<Row>) returns (header: Option<nat>)
    ensures header == FirstHeader(rows, 0)
  {
    header := None;
    var limit := if |rows| < 10 then |rows| else 10;
    var i := 0;
    while i < limit
      invariant 0 <= i <= limit
      invariant FirstHeader(rows, i) == FirstHeader(rows, 0)
    {
      if IsHeaderRow(rows[i]) {
        header := Some(i);
        break;
      }
      i := i + 1;
    }
  }


  /** The student a data row of the roster export describes, if any. */
  function RosterRow(row: Row): (r: Option<Student>)
    ensures r.Some? ==> WellFormedStudent(r.value)
    ensures r.Some? ==> |row| >= 3 && r.value.id == Trim(row[0])
  {
    if |row| >= 3 && row[0] != "" then
      var id := Trim(row[0]);
      var firstName := Upper(Trim(row[1]));
      var lastName := Upper(Trim(row[2]));
      if id != "" && (firstName != "" || lastName != "") then Some(Student(id, firstName, lastName)) else None
    else None
  }

  /** A roster row that describes a student: three cells, an id, and a first or a last name. */
  predicate DescribesStudent(row: Row) {
    |row| >= 3 && Trim(row[0]) != "" && (Trim(row[1]) != "" || Trim(row[2]) != "")
  }

  /** The student such a row describes: the trimmed id cell and the trimmed, upper-cased name cells. */
  function RowStudent(row: Row): Student
    requires |row| >= 3
  {
    Student(Trim(row[0]), Upper(Trim(row[1])), Upper(Trim(row[2])))
  }

  /**
   * A row yields a student exactly when it describes one, and the student
   * takes its id from the first cell, its first name from the second and its
   * last name from the third.
   */
  lemma RosterRowFits(row: Row)
    ensures RosterRow(row).Some? ==> DescribesStudent(row) && RosterRow(row).value == RowStudent(row)
    ensures DescribesStudent(row) ==> RosterRow(row) == Some(RowStudent(row))
  {
    if |row| >= 3 {
      assert Trim(row[0]) != "" ==> row[0] != "";
      assert |Upper(Trim(row[1]))| == |Trim(row[1])| && |Upper(Trim(row[2]))| == |Trim(row[2])|;
    }
  }

  /** The student of row `i`, as a sequence of at most one element. */
  function RosterItem(rows: seq<Row>, i: nat): seq<Student> {
    if i >= |rows| then []
    else
      match RosterRow(rows[i])
      case Some(s) => [s]
      case None => []
  }

  function RosterOf(rows: seq<Row>): nat -> seq<Student> {
    (i: nat) => RosterItem(rows, i)
  }

  /** The students of the rows from `from` on, in row order. */
  function RosterRows(rows: seq<Row>, from: nat): seq<Student> {
    Gather(from, |rows|, RosterOf(rows))
  }

  /** A roster student as the export parser produces it. */
  predicate WellFormedStudent(s: Student) {
    s.id != "" && IsTrimmed(s.id) && IsNormal(s.firstName) && IsNormal(s.lastName)
    && (s.firstName != "" || s.lastName != "")
  }

  /** A student is in the roster exactly when some row from `from` on describes it. */
  lemma RosterRowsMembers(rows: seq<Row>, from: nat)
    ensures forall s :: s in RosterRows(rows, from) <==> exists i :: from <= i < |rows| && RosterRow(rows[i]) == Some(s)
  {
    forall s ensures s in RosterRows(rows, from) <==> exists i :: from <= i < |rows| && RosterRow(rows[i]) == Some(s) {
      GatherMember(from, |rows|, RosterOf(rows), s);
      forall i | from <= i < |rows| ensures s in RosterOf(rows)(i) <==> RosterRow(rows[i]) == Some(s) {
        assert RosterOf(rows)(i) == RosterItem(rows, i);
      }
    }
  }

  /** Every roster student is the student of some row from `from` on that describes one. */
  lemma RosterRowsSound(rows: seq<Row>, from: nat)
    ensures forall s :: s in RosterRows(rows, from) ==>
      exists i :: from <= i < |rows| && DescribesStudent(rows[i]) && s == RowStudent(rows[i])
  {
    RosterRowsMembers(rows, from);
    forall s | s in RosterRows(rows, from)
      ensures exists i :: from <= i < |rows| && DescribesStudent(rows[i]) && s == RowStudent(rows[i])
    {
      var i :| from <= i < |rows| && RosterRow(rows[i]) == Some(s);
      RosterRowFits(rows[i]);
    }
  }

  /** Every row from `from` on that describes a student puts that student in the roster. */
  lemma RosterRowsComplete(rows: seq<Row>, from: nat)
    ensures forall i :: from <= i < |rows| && DescribesStudent(rows[i]) ==> RowStudent(rows[i]) in RosterRows(rows, from)
  {
    RosterRowsMembers(rows, from);
    forall i | from <= i < |rows| && DescribesStudent(rows[i]) ensures RowStudent(rows[i]) in RosterRows(rows, from) {
      RosterRowFits(rows[i]);
    }
  }

  /** Every student of the roster is well formed. */
  lemma RosterRowsWellFormed(rows: seq<Row>, from: nat)
    ensures forall s :: s in RosterRows(rows, from) ==> WellFormedStudent(s)
  {
    RosterRowsMembers(rows, from);
    forall s | s in RosterRows(rows, from) ensures WellFormedStudent(s) {
      var i :| from <= i < |rows| && RosterRow(rows[i]) == Some(s);
    }
  }

  /**
   * The roster-row processing of `parseLiveSchoolFile`: an error when none of
   * the first ten rows is a header row, otherwise the students of the rows
   * after the first header row.
   */
  method ParseRosterRows(rows: seq<Row>) returns (result: Result<seq<Student>, string>)
    ensures result.Failure? <==> FirstHeader(rows, 0).None?
    ensures result.Success? ==> result.value == RosterRows(rows, FirstHeader(rows, 0).value + 1)
  {
    var header := FindHeaderRow(rows);
    if header.None? {
      return Failure("Could not find header row in LiveSchool CSV");
    }
    FirstHeaderSome(rows, 0);
    var students := CollectRoster(rows, header.value + 1);
    result := Success(students);
  }

  /** One more row adds its student, if any, at the end. */
  lemma RosterRowsStep(rows: seq<Row>, from: nat, i: nat)
    requires from <= i
    ensures Gather(from, i + 1, RosterOf(rows)) == Gather(from, i, RosterOf(rows)) + RosterItem(rows, i)
  {
    assert RosterOf(rows)(i) == RosterItem(rows, i);
  }

  /** The row loop of `parseLiveSchoolFile`: the students of the rows from `from` on. */
  method CollectRoster(rows: seq<Row>, from: nat) returns (students: seq<Student>)
    requires from <= |rows|
    ensures students == RosterRows(rows, from)
  {
    students := [];
    for i := from to |rows|
      invariant students == Gather(from, i, RosterOf(rows))
    {
      RosterRowsStep(rows, from, i);
      students := students + RosterItem(rows, i);
    }
  }

  // ----- the balance source file -----

  /** `row.some(cell => cell)`: some cell of the row is non-empty. */
  predicate HasContent(row: Row) {
    exists c :: c in row && c != ""
  }

  /** The rows that have some content, in order. */
  function NonBlankRows(rows: seq<Row>): (r: seq<Row>)
    ensures |r| <= |rows|
    ensures forall row :: row in r <==> row in rows && HasContent(row)
  {
    if rows == [] then []
    else
      assert rows == [rows[0]] + rows[1..];
      (if HasContent(rows[0]) then [rows[0]] else []) + NonBlankRows(rows[1..])
  }

  /** Dropping blank rows keeps a single row with content and drops a single blank one. */
  lemma NonBlankRowsOne(row: Row)
    ensures NonBlankRows([row]) == if HasContent(row) then [row] else []
  {
    assert [row][1..] == [];
  }

  /** Dropping blank rows from two runs of rows one after the other keeps their order. */
  lemma {:induction false} NonBlankRowsConcat(a: seq<Row>, b: seq<Row>)
    ensures NonBlankRows(a + b) == NonBlankRows(a) + NonBlankRows(b)
    decreases |a|
  {
    if a != [] {
      assert (a + b)[0] == a[0] && (a + b)[1..] == a[1..] + b;
      NonBlankRowsConcat(a[1..], b);
      assert NonBlankRows(a + b) == (if HasContent(a[0]) then [a[0]] else []) + NonBlankRows(a[1..] + b);
    } else {
      assert a + b == b;
    }
  }

  /**
   * The row processing of `parseBalanceSourceFile`: an error unless there is a
   * header row and one more row; otherwise the trimmed header cells and the
   * rows after the header that have some content.
   */
  function ParseBalanceRows(rows: seq<Row>): (r: Result<BalanceSheet, string>)
    ensures r.Failure? <==> |rows| < 2
    ensures r.Success? ==> |r.value.headers| == |rows[0]|
    ensures r.Success? ==> forall i :: 0 <= i < |rows[0]| ==> r.value.headers[i] == Trim(rows[0][i])
    ensures r.Success? ==> forall i :: 0 <= i < |rows[0]| ==> IsTrimmed(r.value.headers[i])
    ensures r.Success? ==> r.value.rows == NonBlankRows(rows[1..])
    ensures r.Success? ==> |r.value.rows| < |rows|
    ensures r.Success? ==> forall row :: row in r.value.rows <==> row in rows[1..] && HasContent(row)
  {
    if |rows| < 2 then Failure("File must have at least a header row and one data row")
    else
      var headers := seq(|rows[0]|, i requires 0 <= i < |rows[0]| => Trim(rows[0][i]));
      Success(BalanceSheet(headers, NonBlankRows(rows[1..])))
  }

  // ----- the column picker -----

  /**
   * `getColumnInfo`: one entry per cell of the header row, with the header
   * text (or "Column n" for a blank header, n counted from 1) and the cell
   * below it as a sample; nothing when the sheet has fewer than two rows.
   */
  method GetColumnInfo(sheet: seq<Row>) returns (columns: seq<ColumnInfo>)
    ensures |sheet| < 2 ==> columns == []
    ensures |sheet| >= 2 ==> |columns| == |sheet[0]|
    ensures |sheet| >= 2 ==> forall i :: 0 <= i < |columns| ==>
      && columns[i].index == i
      && columns[i].header != ""
      && (sheet[0][i] != "" ==> columns[i].header == sheet[0][i])
      && (sheet[0][i] == "" ==> columns[i].header == "Column " + NatToString(i + 1))
      && columns[i].sample == CellOrEmpty(sheet[1], i)
  {
    if |sheet| < 2 {
      return [];
    }
    var headerRow := sheet[0];
    var sampleRow := sheet[1];
    columns := [];
    for i := 0 to |headerRow|
      invariant |columns| == i
      invariant forall j :: 0 <= j < i ==>
        && columns[j].index == j
        && columns[j].header != ""
        && (headerRow[j] != "" ==> columns[j].header == headerRow[j])
        && (headerRow[j] == "" ==> columns[j].header == "Column " + NatToString(j + 1))
        && columns[j].sample == CellOrEmpty(sampleRow, j)
    {
      var header := if headerRow[i] != "" then headerRow[i] else "Column " + NatToString(i + 1);
      columns := columns + [ColumnInfo(i, header, CellOrEmpty(sampleRow, i))];
    }
  }
}
