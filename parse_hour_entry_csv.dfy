/**
 * The timesheet parser of src/hourEntry/parseHourEntryCSV.ts. The text is
 * trimmed and cut into rows of comma-separated fields; each row is checked
 * field by field and becomes an hour entry or one error of the first
 * failing kind; the result holds every entry, or, when any row failed,
 * every error and no entry.
 */
module Parser {
  import opened Wrappers
  import opened Text
  import opened Calendar
  import opened Times
  import opened Entries

  /** `ParseErrorType`. */
  datatype ErrorKind = InvalidColumns | InvalidName | InvalidId | InvalidDate | InvalidTime

  /** A row error: the zero-based index of the row and the kind of its error. */
  datatype ParseErrorOnRow = ParseErrorOnRow(row: nat, error: ErrorKind)

  /** `ParseResult`; `None` stands for `null`. */
  datatype ParseResult = ParseResult(entries: Option<seq<HourEntry>>, errors: Option<seq<ParseErrorOnRow>>)
  {
    /** `hasErrors`: the errors are not `null`. */
    predicate HasErrors() {
      errors.Some?
    }
  }

  /** What `parseHourEntryRow` returns: an entry or an error. */
  datatype RowResult = Parsed(entry: HourEntry) | Failed(kind: ErrorKind)

  // ------------------------------------------------------------------ dates

  /** `s` is day, month and year joined by dots: 1-2, 1-2 and 4 digits. */
  ghost predicate DateForm(s: string, d: string, m: string, y: string) {
    && 1 <= |d| <= 2 && 1 <= |m| <= 2 && |y| == 4
    && IsDigits(d) && IsDigits(m) && IsDigits(y)
    && s == d + "." + m + "." + y
  }

  /**
   * `s` is accepted by one of the strict formats `DD.MM.YYYY`, `D.MM.YYYY`,
   * `DD.M.YYYY`, `D.M.YYYY` and names the real calendar date `date`.
   */
  ghost predicate IsDateString(s: string, date: Date) {
    && ValidDate(date)
    && exists d, m, y :: DateForm(s, d, m, y) && date == Date(Value(y), Value(m), Value(d))
  }

  /** `moment(token, validDateFormats, true)`: the date, or no value when it is not valid. */
  function ParseDate(s: string): (r: Option<Date>)
    ensures r.Some? ==> IsDateString(s, r.value)
  {
    var parts := Split(s, '.');
    if && |parts| == 3
       && 1 <= |parts[0]| <= 2 && 1 <= |parts[1]| <= 2 && |parts[2]| == 4
       && IsDigits(parts[0]) && IsDigits(parts[1]) && IsDigits(parts[2])
    then
      var date := Date(Value(parts[2]), Value(parts[1]), Value(parts[0]));
      if ValidDate(date) then
        assert parts[1..][1..] == [parts[2]];
        assert Join(parts[1..][1..], '.') == parts[2];
        assert Join(parts[1..], '.') == parts[1] + ['.'] + parts[2];
        assert s == Join(parts, '.') == parts[0] + ['.'] + (parts[1] + ['.'] + parts[2]);
        assert "." == ['.'];
        assert DateForm(s, parts[0], parts[1], parts[2]);
        Some(date)
      else None
    else None
  }

  /** A string of the dotted form is read field by field; it is accepted iff the date is real. */
  lemma ParseDateOfForm(s: string, d: string, m: string, y: string)
    requires DateForm(s, d, m, y)
    ensures var date := Date(Value(y), Value(m), Value(d));
      ParseDate(s) == if ValidDate(date) then Some(date) else None
  {
    var parts := [d, m, y];
    assert "." == ['.'];
    assert parts[1..] == [m, y] && [m, y][1..] == [y];
    assert Join([y], '.') == y;
    assert Join([m, y], '.') == m + ['.'] + y;
    assert Join(parts, '.') == s;
    NoDotInDigits(d);
    NoDotInDigits(m);
    NoDotInDigits(y);
    SplitJoin(parts, '.');
    assert Split(s, '.') == parts;
  }

  lemma NoDotInDigits(s: string)
    requires IsDigits(s)
    ensures '.' !in s
  {
  }

  /** The parser accepts a date string exactly when it has the dotted form and names a real date. */
  lemma ParseDateMatches(s: string, date: Date)
    ensures ParseDate(s) == Some(date) <==> IsDateString(s, date)
  {
    if IsDateString(s, date) {
      var d, m, y :| DateForm(s, d, m, y) && date == Date(Value(y), Value(m), Value(d));
      ParseDateOfForm(s, d, m, y);
    }
  }

  /** When the parser gives no date, the string names no date at all. */
  lemma ParseDateRejects(s: string)
    requires ParseDate(s).None?
    ensures forall date :: !IsDateString(s, date)
  {
    forall date | IsDateString(s, date) ensures false {
      ParseDateMatches(s, date);
    }
  }

  /** Writing a real date of a four-digit year as `D.M.YYYY` reads back the same date. */
  lemma ParseDateRoundTrip(date: Date)
    requires ValidDate(date) && 1000 <= date.year <= 9999
    ensures ParseDate(Decimal(date.day) + "." + Decimal(date.month) + "." + Decimal(date.year)) == Some(date)
  {
    DecimalLength(date.year, 3);
    assert date.day <= 31;
    ParseDateOfForm(Decimal(date.day) + "." + Decimal(date.month) + "." + Decimal(date.year),
      Decimal(date.day), Decimal(date.month), Decimal(date.year));
  }

  /** A well-formed string naming a day the month does not have is rejected. */
  lemma ParseDateRejectsFebruary30()
    ensures ParseDate("30.2.2016") == None
  {
    assert "30"[..1] == "3" && "2016"[..3] == "201" && "201"[..2] == "20" && "20"[..1] == "2";
    assert Value("30") == 30 && Value("2") == 2;
    assert Value("2016") == 2016;
    ParseDateOfForm("30.2.2016", "30", "2", "2016");
  }

  // ------------------------------------------------------------------- rows

  /**
   * The entry for a row: start and end are the times set on the row's date,
   * and the end is moved one day later when it falls before the start.
   */
  function EntryOnDate(name: string, id: nat, date: Date, st: Time, et: Time): HourEntry
    requires ValidDate(date)
  {
    var day := DayNumber(date) * MinutesPerDay;
    var start := day + MinuteOfDay(st);
    var end := day + MinuteOfDay(et);
    HourEntry(name, id, start, if end < start then end + MinutesPerDay else end)
  }

  /** The end moves to the next day iff the end time comes before the start time on the day. */
  lemma EndRollsOver(name: string, id: nat, date: Date, st: Time, et: Time)
    requires ValidDate(date)
    ensures var e := EntryOnDate(name, id, date, st, et);
      && (MinuteOfDay(et) < MinuteOfDay(st) ==> e.end - e.start == MinuteOfDay(et) + MinutesPerDay - MinuteOfDay(st))
      && (MinuteOfDay(et) >= MinuteOfDay(st) ==> e.end - e.start == MinuteOfDay(et) - MinuteOfDay(st))
  {
  }

  /** Equal start and end times give an entry of no length. */
  lemma EqualTimesZeroLength(name: string, id: nat, date: Date, t: Time)
    requires ValidDate(date)
    ensures EntryOnDate(name, id, date, t, t).end == EntryOnDate(name, id, date, t, t).start
  {
  }

  /**
   * For in-range times the entry keeps the row's name and id, starts on the
   * row's date at the start time, and lasts less than a day, never a
   * negative time.
   */
  lemma InRangeEntry(name: string, id: nat, date: Date, st: Time, et: Time)
    requires ValidDate(date)
    requires st.hours < 24 && st.minutes < 60 && et.hours < 24 && et.minutes < 60
    ensures var e := EntryOnDate(name, id, date, st, et);
      && e.name == name && e.identifier == id
      && DateOfInstant(e.start) == date && e.start % MinutesPerDay == MinuteOfDay(st)
      && 0 <= e.end - e.start < MinutesPerDay
  {
    var e := EntryOnDate(name, id, date, st, et);
    assert DayOf(e.start) == DayNumber(date);
    DateOfDayNumber(date);
  }

  /** Without a range check on times, an end can still come before its start. */
  lemma EndMayPrecedeStart(date: Date)
    requires ValidDate(date)
    ensures var e := EntryOnDate("a", 1, date, Time(30, 0), Time(1, 0));
      e.end < e.start
  {
  }

  /** The name field after trimming is not empty. */
  ghost predicate NameOk(row: seq<string>)
    requires |row| == 5
  {
    Trim(row[0]) != []
  }

  /** The id field after trimming matches `^\d+$`. */
  ghost predicate IdOk(row: seq<string>)
    requires |row| == 5
  {
    IsDigits(Trim(row[1]))
  }

  ghost predicate DateOk(row: seq<string>)
    requires |row| == 5
  {
    exists date :: IsDateString(Trim(row[2]), date)
  }

  ghost predicate TimesOk(row: seq<string>)
    requires |row| == 5
  {
    IsTimeString(Trim(row[3])) && IsTimeString(Trim(row[4]))
  }

  /** `s` is the `H:MM` form of `t`. */
  ghost predicate IsTimeOf(s: string, t: Time) {
    exists h, m :: TimeForm(s, h, m) && t == Time(Value(h), Value(m))
  }

  /** `e` is the entry that the trimmed fields of `row` describe. */
  ghost predicate Describes(row: seq<string>, e: HourEntry)
    requires |row| == 5 && IdOk(row)
  {
    exists date, st, et ::
      && IsDateString(Trim(row[2]), date)
      && IsTimeOf(Trim(row[3]), st) && IsTimeOf(Trim(row[4]), et)
      && e == EntryOnDate(Trim(row[0]), Value(Trim(row[1])), date, st, et)
  }

  /**
   * `parseHourEntryRow`: the checks run in the order columns, name, id,
   * date, start time, end time; the first that fails names the error.
   */
  function ParseHourEntryRow(row: seq<string>): (r: RowResult)
    ensures r == Failed(InvalidColumns) <==> |row| != 5
    ensures r == Failed(InvalidName) <==> |row| == 5 && !NameOk(row)
    ensures r == Failed(InvalidId) <==> |row| == 5 && NameOk(row) && !IdOk(row)
    ensures r == Failed(InvalidDate) <==> |row| == 5 && NameOk(row) && IdOk(row) && !DateOk(row)
    ensures r == Failed(InvalidTime) <==> |row| == 5 && NameOk(row) && IdOk(row) && DateOk(row) && !TimesOk(row)
    ensures r.Parsed? ==> |row| == 5 && IdOk(row) && Describes(row, r.entry)
  {
    if |row| != 5 then Failed(InvalidColumns)
    else
      var name := Trim(row[0]);
      var idToken := Trim(row[1]);
      var dateToken := Trim(row[2]);
      var startToken := Trim(row[3]);
      var endToken := Trim(row[4]);
      if name == [] then Failed(InvalidName)
      else if !IsDigits(idToken) then Failed(InvalidId)
      else
        match ParseDate(dateToken)
        case None =>
          ParseDateRejects(dateToken);
          Failed(InvalidDate)
        case Some(date) =>
          FromStringMatches(startToken);
          FromStringMatches(endToken);
          match (FromString(startToken), FromString(endToken))
          case (None, _) => Failed(InvalidTime)
          case (_, None) => Failed(InvalidTime)
          case (Some(st), Some(et)) =>
            var e := EntryOnDate(name, Value(idToken), date, st, et);
            assert IsTimeOf(startToken, st) && IsTimeOf(endToken, et);
            assert IsDateString(dateToken, date);
            Parsed(e)
  }

  /** A row's entry is fully determined by its fields: two descriptions of one row agree. */
  lemma DescribesUnique(row: seq<string>, e: HourEntry, e': HourEntry)
    requires |row| == 5 && IdOk(row) && Describes(row, e) && Describes(row, e')
    ensures e == e'
  {
    var date, st, et :| && IsDateString(Trim(row[2]), date)
      && IsTimeOf(Trim(row[3]), st) && IsTimeOf(Trim(row[4]), et)
      && e == EntryOnDate(Trim(row[0]), Value(Trim(row[1])), date, st, et);
    var date', st', et' :| && IsDateString(Trim(row[2]), date')
      && IsTimeOf(Trim(row[3]), st') && IsTimeOf(Trim(row[4]), et')
      && e' == EntryOnDate(Trim(row[0]), Value(Trim(row[1])), date', st', et');
    ParseDateMatches(Trim(row[2]), date);
    ParseDateMatches(Trim(row[2]), date');
    TimeOfUnique(Trim(row[3]), st, st');
    TimeOfUnique(Trim(row[4]), et, et');
  }

  lemma TimeOfUnique(s: string, t: Time, t': Time)
    requires IsTimeOf(s, t) && IsTimeOf(s, t')
    ensures t == t'
  {
    var h, m :| TimeForm(s, h, m) && t == Time(Value(h), Value(m));
    var h', m' :| TimeForm(s, h', m') && t' == Time(Value(h'), Value(m'));
    FromStringOfForm(s, h, m);
    FromStringOfForm(s, h', m');
  }

  // ------------------------------------------------------------------ input

  /**
   * The rows of the text: trimmed, cut at line breaks, each line cut at
   * commas. Text that is all whitespace has no rows.
   */
  function Rows(data: string): (rows: seq<seq<string>>)
    ensures rows == [] <==> Trim(data) == []
    ensures forall i :: 0 <= i < |rows| ==> |rows[i]| >= 1
    ensures rows != [] ==> JoinRows(rows) == Trim(data)
    ensures forall i, j :: 0 <= i < |rows| && 0 <= j < |rows[i]| ==> ',' !in rows[i][j] && '\n' !in rows[i][j]
  {
    var text := Trim(data);
    if text == [] then []
    else
      var lines := Split(text, '\n');
      var rows := seq(|lines|, i requires 0 <= i < |lines| => Split(lines[i], ','));
      assert LinesOf(rows) == lines;
      FieldsOfLines(lines, rows);
      rows
  }

  /** Fields cut at commas from lines without line breaks hold neither. */
  lemma FieldsOfLines(lines: seq<string>, rows: seq<seq<string>>)
    requires |rows| == |lines|
    requires forall i :: 0 <= i < |lines| ==> '\n' !in lines[i] && rows[i] == Split(lines[i], ',')
    ensures forall i, j :: 0 <= i < |rows| && 0 <= j < |rows[i]| ==> ',' !in rows[i][j] && '\n' !in rows[i][j]
  {
    forall i, j | 0 <= i < |rows| && 0 <= j < |rows[i]|
      ensures '\n' !in rows[i][j]
    {
      if '\n' in rows[i][j] {
        PartInJoin(rows[i], ',', j, '\n');
      }
    }
  }

  /**
   * Rows written out with commas and line breaks read back as themselves,
   * when no field holds a comma or a line break and the text has no
   * whitespace at either end.
   */
  lemma RowsOfJoin(rows: seq<seq<string>>)
    requires |rows| >= 1 && forall i :: 0 <= i < |rows| ==> |rows[i]| >= 1
    requires forall i, j :: 0 <= i < |rows| && 0 <= j < |rows[i]| ==> ',' !in rows[i][j] && '\n' !in rows[i][j]
    requires var text := JoinRows(rows);
      text != [] && !IsWhitespace(text[0]) && !IsWhitespace(text[|text| - 1])
    ensures Rows(JoinRows(rows)) == rows
  {
    var text := JoinRows(rows);
    var lines := LinesOf(rows);
    TrimUnpadded(text);
    forall i | 0 <= i < |lines|
      ensures '\n' !in lines[i] && Split(lines[i], ',') == rows[i]
    {
      NoNewlineInJoin(rows[i]);
      SplitJoin(rows[i], ',');
    }
    SplitJoin(lines, '\n');
  }

  /** Each row's fields glued with commas. */
  function LinesOf(rows: seq<seq<string>>): seq<string>
    requires forall i :: 0 <= i < |rows| ==> |rows[i]| >= 1
  {
    seq(|rows|, i requires 0 <= i < |rows| => Join(rows[i], ','))
  }

  /** The text the rows come from: fields glued with commas, rows with line breaks. */
  function JoinRows(rows: seq<seq<string>>): string
    requires |rows| >= 1 && forall i :: 0 <= i < |rows| ==> |rows[i]| >= 1
  {
    Join(LinesOf(rows), '\n')
  }

  /** The outcome of every row, in row order. */
  function RowResults(rows: seq<seq<string>>): (rs: seq<RowResult>)
    ensures |rs| == |rows|
  {
    seq(|rows|, i requires 0 <= i < |rows| => ParseHourEntryRow(rows[i]))
  }

  predicate AnyFailed(rs: seq<RowResult>) {
    exists i :: 0 <= i < |rs| && rs[i].Failed?
  }

  /** The failed rows as errors with their zero-based row index, in row order. */
  function ErrorsOf(rs: seq<RowResult>): (errs: seq<ParseErrorOnRow>)
    ensures forall e :: e in errs ==> e.row < |rs| && rs[e.row] == Failed(e.error)
    ensures forall i :: 0 <= i < |rs| && rs[i].Failed? ==> ParseErrorOnRow(i, rs[i].kind) in errs
    ensures forall a, b :: 0 <= a < b < |errs| ==> errs[a].row < errs[b].row
    ensures errs == [] <==> !AnyFailed(rs)
  {
    if rs == [] then []
    else
      var n := |rs| - 1;
      var init := ErrorsOf(rs[..n]);
      assert forall i :: 0 <= i < n ==> rs[..n][i] == rs[i];
      if rs[n].Failed? then init + [ParseErrorOnRow(n, rs[n].kind)] else init
  }

  /** The entries of rows that all parsed, in row order. */
  function EntriesOf(rs: seq<RowResult>): (es: seq<HourEntry>)
    requires !AnyFailed(rs)
    ensures |es| == |rs| && forall i :: 0 <= i < |rs| ==> rs[i] == Parsed(es[i])
  {
    seq(|rs|, i requires 0 <= i < |rs| => assert !rs[i].Failed?; rs[i].entry)
  }

  /**
   * `parseHourEntryCsv`: the entries of every row when all rows parse,
   * otherwise the errors of the failing rows and no entries.
   */
  function ParseHourEntryCsv(data: string): (r: ParseResult)
    ensures r.entries.Some? != r.errors.Some?
    ensures var rs := RowResults(Rows(data));
      r.HasErrors() <==> AnyFailed(rs)
    ensures var rs := RowResults(Rows(data));
      r.HasErrors() ==> var errs := r.errors.value;
      && errs != []
      && (forall e :: e in errs ==> e.row < |rs| && rs[e.row] == Failed(e.error))
      && (forall i :: 0 <= i < |rs| && rs[i].Failed? ==> ParseErrorOnRow(i, rs[i].kind) in errs)
      && (forall a, b :: 0 <= a < b < |errs| ==> errs[a].row < errs[b].row)
    ensures var rs := RowResults(Rows(data));
      !r.HasErrors() ==> var es := r.entries.value;
      && |es| == |rs|
      && forall i :: 0 <= i < |es| ==> rs[i] == Parsed(es[i])
  {
    var rs := RowResults(Rows(data));
    if AnyFailed(rs) then ParseResult(None, Some(ErrorsOf(rs)))
    else ParseResult(Some(EntriesOf(rs)), None)
  }

  /** Whitespace around the text, blank lines included, adds no rows and changes nothing. */
  lemma ParseIgnoresPadding(before: string, data: string, after: string)
    requires AllWhitespace(before) && AllWhitespace(after)
    ensures ParseHourEntryCsv(before + data + after) == ParseHourEntryCsv(data)
  {
    TrimIgnoresPadding(before, data, after);
  }

  /** Text of whitespace only parses to no entries and no errors. */
  lemma BlankInputHasNoEntries(data: string)
    requires AllWhitespace(data)
    ensures ParseHourEntryCsv(data) == ParseResult(Some([]), None)
  {
    TrimBlank(data);
    assert Rows(data) == [];
    NoRows();
  }

  lemma NoRows()
    ensures RowResults([]) == [] && !AnyFailed([]) && EntriesOf([]) == []
  {
  }

  // --------------------------------------------------------------- examples

  /** A one-line text whose fields need no trimming is one row of those fields. */
  lemma OneLine(fields: seq<string>)
    requires |fields| >= 1
    requires forall i :: 0 <= i < |fields| ==> ',' !in fields[i] && '\n' !in fields[i]
    requires var line := Join(fields, ',');
      line != [] && !IsWhitespace(line[0]) && !IsWhitespace(line[|line| - 1])
    ensures Rows(Join(fields, ',')) == [fields]
  {
    var line := Join(fields, ',');
    TrimUnpadded(line);
    SplitJoin(fields, ',');
    assert '\n' !in line by {
      NoNewlineInJoin(fields);
    }
    SplitNoSeparator(line, '\n');
    var rows := Rows(line);
    assert |rows| == 1 && rows[0] == Split(line, ',');
    Singleton(rows);
  }

  lemma NoneFailed(e: HourEntry)
    ensures !AnyFailed([Parsed(e)])
  {
  }

  lemma OneFailed(kind: ErrorKind)
    ensures AnyFailed([Failed(kind)])
    ensures ErrorsOf([Failed(kind)]) == [ParseErrorOnRow(0, kind)]
  {
    assert [Failed(kind)][..0] == [];
    assert [Failed(kind)][0].Failed?;
  }

  lemma {:induction false} NoNewlineInJoin(fields: seq<string>)
    requires |fields| >= 1
    requires forall i :: 0 <= i < |fields| ==> '\n' !in fields[i]
    ensures '\n' !in Join(fields, ',')
    decreases |fields|
  {
    if |fields| > 1 {
      NoNewlineInJoin(fields[1..]);
    }
  }

  /** A one-line text whose row parses holds exactly that row's entry and no errors. */
  lemma OneLineParses(fields: seq<string>, e: HourEntry)
    requires |fields| >= 1
    requires forall i :: 0 <= i < |fields| ==> ',' !in fields[i] && '\n' !in fields[i]
    requires var line := Join(fields, ',');
      line != [] && !IsWhitespace(line[0]) && !IsWhitespace(line[|line| - 1])
    requires ParseHourEntryRow(fields) == Parsed(e)
    ensures ParseHourEntryCsv(Join(fields, ',')) == ParseResult(Some([e]), None)
  {
    var line := Join(fields, ',');
    OneLine(fields);
    var rs := RowResults(Rows(line));
    assert |rs| == 1 && rs[0] == Parsed(e);
    Singleton(rs);
    NoneFailed(e);
    var r := ParseHourEntryCsv(line);
    assert !r.HasErrors();
    var es := r.entries.value;
    assert |es| == 1 && es[0] == e;
    Singleton(es);
  }

  /** A one-line text whose row fails holds exactly one error, on row 0, and no entries. */
  lemma OneLineFails(fields: seq<string>, kind: ErrorKind)
    requires |fields| >= 1
    requires forall i :: 0 <= i < |fields| ==> ',' !in fields[i] && '\n' !in fields[i]
    requires var line := Join(fields, ',');
      line != [] && !IsWhitespace(line[0]) && !IsWhitespace(line[|line| - 1])
    requires ParseHourEntryRow(fields) == Failed(kind)
    ensures ParseHourEntryCsv(Join(fields, ',')) == ParseResult(None, Some([ParseErrorOnRow(0, kind)]))
  {
    var line := Join(fields, ',');
    OneLine(fields);
    var rs := RowResults(Rows(line));
    assert |rs| == 1 && rs[0] == Failed(kind);
    Singleton(rs);
    OneFailed(kind);
  }
}
