/**
 The CSV export of the audit trail (src/modules/audit/audit.service.ts) and a
 reader of comma-separated files in the sense of section 2 of RFC 4180.
 */
module AuditCsv {
  import opened Text
  import opened Wrappers
  import opened Calendar
  import opened LagosTime

  const COLUMNS: seq<string> := ["createdAt", "actor", "actorId", "action", "entityType", "entityId", "ip", "metadata"]
  const MOST_ROWS: nat := 100_000

  // ------------------------------------------------------------ Cells

  /** Characters that make a spreadsheet read a cell as a formula. */
  predicate Leads(v: string) {
    v != [] && v[0] in {'=', '+', '-', '@', '\t', '\r'}
  }

  /** A cell that starts with =, +, -, @, a tab or a carriage return is put behind an apostrophe, others are kept. */
  function Guard(v: string): (s: string)
    ensures !Leads(s)
    ensures v != [] && v[0] as int in {61, 43, 45, 64, 9, 13} ==> s == ['\''] + v
    ensures v == [] || v[0] as int !in {61, 43, 45, 64, 9, 13} ==> s == v
  {
    if Leads(v) then "'" + v else v
  }

  predicate Special(c: char) {
    c == '"' || c == ',' || c == '\n' || c == '\r'
  }

  /** `/[",\n\r]/.test(s)` */
  predicate NeedsQuotes(s: string) {
    exists i :: 0 <= i < |s| && Special(s[i])
  }

  /** Every quotation mark twice. */
  function Doubled(s: string): string {
    if s == [] then [] else (if s[0] == '"' then "\"\"" else [s[0]]) + Doubled(s[1..])
  }

  function CsvCell(v: string): string {
    var s := Guard(v);
    if NeedsQuotes(s) then "\"" + Doubled(s) + "\"" else s
  }

  /** A cell is quoted iff it holds a quotation mark, a comma or a line break; otherwise it stands as it is. */
  lemma QuotedExactly(v: string)
    ensures (exists i :: 0 <= i < |v| && v[i] as int in {34, 44, 10, 13}) ==>
      CsvCell(v) != [] && CsvCell(v)[0] as int == 34
    ensures (forall i :: 0 <= i < |v| ==> v[i] as int !in {34, 44, 10, 13}) ==> CsvCell(v) == Guard(v)
  {
    var s := Guard(v);
    if i :| 0 <= i < |v| && v[i] as int in {34, 44, 10, 13} {
      assert Special(s[if s == v then i else i + 1]);
    } else {
      assert forall i :: 0 <= i < |s| ==> !Special(s[i]);
    }
  }

  function CsvLine(cells: seq<string>): string {
    Join(seq(|cells|, i requires 0 <= i < |cells| => CsvCell(cells[i])), ",")
  }

  // ------------------------------------------------------------ Reading

  /** A field, or the fields of a record, and the text behind. */
  datatype Cut<T> = Cut(value: T, rest: string)

  /** The rest of a quoted field, up to its closing mark. */
  function Quoted(s: string): (r: Option<Cut<string>>)
    ensures r.Some? ==> |r.value.rest| < |s|
  {
    if s == [] then None
    else if s[0] != '"' then
      (match Quoted(s[1..]) case None => None case Some(c) => Some(Cut([s[0]] + c.value, c.rest)))
    else if |s| > 1 && s[1] == '"' then
      (match Quoted(s[2..]) case None => None case Some(c) => Some(Cut(['"'] + c.value, c.rest)))
    else Some(Cut([], s[1..]))
  }

  function Plain(s: string): (c: Cut<string>)
    ensures |c.rest| <= |s|
  {
    if s == [] || Special(s[0]) then Cut([], s)
    else var c := Plain(s[1..]); Cut([s[0]] + c.value, c.rest)
  }

  function ReadField(s: string): (r: Option<Cut<string>>)
    ensures r.Some? ==> |r.value.rest| <= |s|
  {
    if s != [] && s[0] == '"' then Quoted(s[1..]) else Some(Plain(s))
  }

  /** Fields with commas between them. */
  function ReadRecord(s: string): (r: Option<Cut<seq<string>>>)
    ensures r.Some? ==> |r.value.rest| <= |s|
    decreases |s|
  {
    match ReadField(s)
    case None => None
    case Some(f) =>
      if f.rest != [] && f.rest[0] == ',' then
        match ReadRecord(f.rest[1..])
        case None => None
        case Some(more) => Some(Cut([f.value] + more.value, more.rest))
      else Some(Cut([f.value], f.rest))
  }

  /** Records with a line break between them; the last one may have a line break too. */
  function ReadFile(s: string): Option<seq<seq<string>>>
    decreases |s|
  {
    match ReadRecord(s)
    case None => None
    case Some(c) =>
      if c.rest == [] || c.rest == "\r\n" then Some([c.value])
      else if |c.rest| > 2 && c.rest[..2] == "\r\n" then
        match ReadFile(c.rest[2..])
        case None => None
        case Some(more) => Some([c.value] + more)
      else None
  }

  // ------------------------------------------------------------ The export

  /** A row of the trail; `at` is `createdAt` in milliseconds, `createdAt` its ISO text, `metadata` its JSON text. */
  datatype AuditLog = AuditLog(
    at: int, createdAt: string, actorName: Option<string>, actorUserId: Option<string>,
    actorPlatformUserId: Option<string>, action: string, entityType: string, entityId: Option<string>,
    ip: Option<string>, metadata: Option<string>)

  function OrElse(v: Option<string>, w: string): string {
    match v case Some(x) => x case None => w
  }

  function Cells(r: AuditLog): (cells: seq<string>)
    ensures |cells| == |COLUMNS|
  {
    [r.createdAt, OrElse(r.actorName, ""), OrElse(r.actorUserId, OrElse(r.actorPlatformUserId, "")), r.action,
     r.entityType, OrElse(r.entityId, ""), OrElse(r.ip, ""), OrElse(r.metadata, "{}")]
  }

  /** The field that stands in the column of this name. */
  function Field(cells: seq<string>, column: string): Option<string>
    requires |cells| == |COLUMNS|
  {
    FieldFrom(cells, column, 0)
  }

  function FieldFrom(cells: seq<string>, column: string, i: nat): Option<string>
    requires i <= |cells| == |COLUMNS|
    decreases |cells| - i
  {
    if i == |cells| then None
    else if COLUMNS[i] == column then Some(cells[i])
    else FieldFrom(cells, column, i + 1)
  }

  /** Which field of the row stands in which column; the user comes before the platform user. */
  lemma ColumnsHold(r: AuditLog)
    ensures var cells := Cells(r);
      && Field(cells, "createdAt") == Some(r.createdAt) && Field(cells, "action") == Some(r.action)
      && Field(cells, "entityType") == Some(r.entityType)
      && Field(cells, "actor") == Some(if r.actorName == None then "" else r.actorName.value)
      && Field(cells, "actorId") == Some(if r.actorUserId.Some? then r.actorUserId.value
           else if r.actorPlatformUserId.Some? then r.actorPlatformUserId.value else "")
      && Field(cells, "entityId") == Some(if r.entityId == None then "" else r.entityId.value)
      && Field(cells, "ip") == Some(if r.ip == None then "" else r.ip.value)
      && Field(cells, "metadata") == Some(if r.metadata == None then "{}" else r.metadata.value)
  {
    hide FieldFrom;
    var cells := Cells(r);
    FieldAt(cells, 0);
    FieldAt(cells, 1);
    FieldAt(cells, 2);
    FieldAt(cells, 3);
    FieldAt(cells, 4);
    FieldAt(cells, 5);
    FieldAt(cells, 6);
    FieldAt(cells, 7);
    assert COLUMNS == ["createdAt", "actor", "actorId", "action", "entityType", "entityId", "ip", "metadata"];
  }

  lemma FieldAt(cells: seq<string>, k: nat)
    requires k < |cells| == |COLUMNS|
    ensures Field(cells, COLUMNS[k]) == Some(cells[k])
  {
    FieldFound(cells, k, 0);
  }

  lemma {:induction false} FieldFound(cells: seq<string>, k: nat, i: nat)
    requires i <= k < |cells| == |COLUMNS|
    ensures FieldFrom(cells, COLUMNS[k], i) == Some(cells[k])
    decreases k - i
  {
    ColumnsDiffer(i, k);
    if i < k {
      FieldFound(cells, k, i + 1);
    }
  }

  lemma ColumnsDiffer(i: nat, k: nat)
    requires i <= k < |COLUMNS|
    ensures i < k ==> COLUMNS[i] != COLUMNS[k]
  {
    assert COLUMNS[0][0] == 'c' && COLUMNS[3][1] == 'c' && COLUMNS[4][6] == 'T' && COLUMNS[5][6] == 'I';
  }

  function Rows(logs: seq<AuditLog>): (rows: seq<seq<string>>)
    ensures |rows| == |logs|
  {
    seq(|logs|, i requires 0 <= i < |logs| => Cells(logs[i]))
  }

  function Guarded(cells: seq<string>): (r: seq<string>)
    ensures |r| == |cells|
  {
    seq(|cells|, i requires 0 <= i < |cells| => Guard(cells[i]))
  }

  /** What a reader of the export should see. */
  function GuardedAll(rows: seq<seq<string>>): (r: seq<seq<string>>)
    ensures |r| == |rows|
  {
    seq(|rows|, i requires 0 <= i < |rows| => Guarded(rows[i]))
  }

  function Lines(rows: seq<seq<string>>): (r: seq<string>)
    ensures |r| == |rows|
  {
    seq(|rows|, i requires 0 <= i < |rows| => CsvLine(rows[i]))
  }

  /** Lines with a line break between them and one at the end. */
  function Body(rows: seq<seq<string>>): string {
    Join(Lines(rows), "\r\n") + "\r\n"
  }

  datatype Failure =
    | BadRange         // 'Give a valid date range'
    | RangeTooLong     // more than 366 days
    | InvalidDate      // `lagosStartOfDay` throws

  /** The rows the database query picks, in its order. */
  function Picked(trail: seq<AuditLog>, from: int, before: int): seq<AuditLog> {
    if trail == [] then []
    else (if from <= trail[0].at < before then [trail[0]] else []) + Picked(trail[1..], from, before)
  }

  function FirstRows(logs: seq<AuditLog>): seq<AuditLog> {
    if |logs| <= MOST_ROWS then logs else logs[..MOST_ROWS]
  }

  /** The first hundred thousand, in order. */
  lemma FirstRowsExactly(logs: seq<AuditLog>)
    ensures FirstRows(logs) <= logs
    ensures |FirstRows(logs)| == if |logs| < 100_000 then |logs| else 100_000
  {
  }

  predicate OnDates(r: AuditLog, from: string, to: string) {
    match LagosDate(r.at)
    case None => false
    case Some(d) => IsIsoDate(d) && AtMost(from, d) && AtMost(d, to)
  }

  /** The rows of the Lagos dates from one to another. */
  function OfDates(trail: seq<AuditLog>, from: string, to: string): seq<AuditLog> {
    if trail == [] then []
    else (if OnDates(trail[0], from, to) then [trail[0]] else []) + OfDates(trail[1..], from, to)
  }

  predicate ValidRange(from: string, to: string) {
    IsIsoDate(from) && IsIsoDate(to) && AtMost(from, to)
  }

  // ------------------------------------------------------------ Reading back

  /** What may stand behind a field. */
  predicate EndsField(rest: string) {
    rest == [] || rest[0] == ',' || rest[0] == '\r'
  }

  lemma {:induction false} QuotedReads(s: string, rest: string)
    requires EndsField(rest)
    ensures Quoted(Doubled(s) + "\"" + rest) == Some(Cut(s, rest))
  {
    hide Quoted;
    if s == [] {
      assert Doubled(s) + "\"" + rest == ['"'] + rest;
      ClosingMark(rest);
    } else {
      var more := Doubled(s[1..]) + "\"" + rest;
      QuotedReads(s[1..], rest);
      assert [s[0]] + s[1..] == s;
      if s[0] == '"' {
        assert Doubled(s) + "\"" + rest == ['"', '"'] + more;
        DoubledMark(more);
      } else {
        assert Doubled(s) + "\"" + rest == [s[0]] + more;
        PlainMark(s[0], more);
      }
    }
  }

  lemma ClosingMark(rest: string)
    requires EndsField(rest)
    ensures Quoted(['"'] + rest) == Some(Cut([], rest))
  {
    assert (['"'] + rest)[1..] == rest;
  }

  lemma DoubledMark(more: string)
    ensures Quoted(['"', '"'] + more)
      == match Quoted(more) case None => None case Some(c) => Some(Cut(['"'] + c.value, c.rest))
  {
    assert (['"', '"'] + more)[2..] == more;
  }

  lemma PlainMark(c: char, more: string)
    requires c != '"'
    ensures Quoted([c] + more) == match Quoted(more) case None => None case Some(m) => Some(Cut([c] + m.value, m.rest))
  {
    assert ([c] + more)[1..] == more;
  }

  lemma {:induction false} PlainReads(s: string, rest: string)
    requires EndsField(rest) && !NeedsQuotes(s)
    ensures Plain(s + rest) == Cut(s, rest)
  {
    if s == [] {
      assert s + rest == rest;
    } else {
      assert !Special(s[0]);
      assert !NeedsQuotes(s[1..]) by {
        forall i | 0 <= i < |s[1..]| ensures !Special(s[1..][i]) { assert s[1..][i] == s[i + 1]; }
      }
      PlainReads(s[1..], rest);
      assert (s + rest)[1..] == s[1..] + rest;
      assert [s[0]] + s[1..] == s;
    }
  }

  lemma CellReads(v: string, rest: string)
    requires EndsField(rest)
    ensures ReadField(CsvCell(v) + rest) == Some(Cut(Guard(v), rest))
  {
    hide Guard, Quoted, Plain, Doubled;
    var s := Guard(v);
    if NeedsQuotes(s) {
      QuotedReads(s, rest);
      assert CsvCell(v) + rest == ['"'] + (Doubled(s) + "\"" + rest);
    } else {
      PlainReads(s, rest);
      PlainStart(s, rest);
    }
  }

  lemma PlainStart(s: string, rest: string)
    requires EndsField(rest) && !NeedsQuotes(s)
    ensures s + rest != [] ==> (s + rest)[0] != '"'
  {
    if s != [] { assert !Special(s[0]); } else { assert s + rest == rest; }
  }

  lemma CsvLineSteps(cells: seq<string>)
    requires cells != []
    ensures |cells| == 1 ==> CsvLine(cells) == CsvCell(cells[0])
    ensures |cells| > 1 ==> CsvLine(cells) == CsvCell(cells[0]) + "," + CsvLine(cells[1..])
  {
    hide CsvCell;
    var parts := seq(|cells|, i requires 0 <= i < |cells| => CsvCell(cells[i]));
    assert parts[1..] == seq(|cells[1..]|, i requires 0 <= i < |cells[1..]| => CsvCell(cells[1..][i]));
  }

  lemma {:induction false} LineReads(cells: seq<string>, rest: string)
    requires cells != [] && (rest == [] || rest[0] == '\r')
    ensures ReadRecord(CsvLine(cells) + rest) == Some(Cut(Guarded(cells), rest))
  {
    hide CsvCell, CsvLine, Guard, ReadField;
    CsvLineSteps(cells);
    if |cells| == 1 {
      CellReads(cells[0], rest);
      assert Guarded(cells) == [Guard(cells[0])];
    } else {
      var more := CsvLine(cells[1..]) + rest;
      CellReads(cells[0], "," + more);
      LineReads(cells[1..], rest);
      assert CsvLine(cells) + rest == CsvCell(cells[0]) + ("," + more);
      assert ("," + more)[1..] == more;
      assert Guarded(cells) == [Guard(cells[0])] + Guarded(cells[1..]);
    }
  }

  lemma BodySteps(rows: seq<seq<string>>)
    requires rows != []
    ensures |rows| == 1 ==> Body(rows) == CsvLine(rows[0]) + "\r\n"
    ensures |rows| > 1 ==> Body(rows) == CsvLine(rows[0]) + ("\r\n" + Body(rows[1..]))
  {
    hide CsvLine;
    assert Lines(rows)[1..] == Lines(rows[1..]);
  }

  /** The rows read back, whatever text the cells hold. */
  lemma {:induction false} BodyReadsBack(rows: seq<seq<string>>)
    requires rows != [] && forall i :: 0 <= i < |rows| ==> rows[i] != []
    ensures ReadFile(Body(rows)) == Some(GuardedAll(rows))
  {
    hide CsvLine, ReadRecord, Guarded, Body;
    BodySteps(rows);
    if |rows| == 1 {
      LineReads(rows[0], "\r\n");
      assert GuardedAll(rows) == [Guarded(rows[0])];
    } else {
      var more := Body(rows[1..]);
      BodyReadsBack(rows[1..]);
      LineReads(rows[0], "\r\n" + more);
      BodySteps(rows[1..]);
      assert more != [];
      assert ("\r\n" + more)[..2] == "\r\n" && ("\r\n" + more)[2..] == more;
      assert GuardedAll(rows) == [Guarded(rows[0])] + GuardedAll(rows[1..]);
    }
  }

  /** Two cells are exported alike only if one is the other behind the guard's apostrophe. */
  lemma GuardsAlike(v: string, w: string)
    ensures Guard(v) == Guard(w) <==> v == w || (Leads(v) && w == "'" + v) || (Leads(w) && v == "'" + w)
  {
    if Leads(v) && Leads(w) {
      assert ("'" + v)[1..] == v && ("'" + w)[1..] == w;
      assert w != "'" + v && v != "'" + w;
    }
  }

  /** An export loses just what the guard loses: two bodies are equal only if every cell is guarded alike. */
  lemma BodiesAlike(a: seq<seq<string>>, b: seq<seq<string>>)
    requires a != [] && forall i :: 0 <= i < |a| ==> a[i] != []
    requires b != [] && forall i :: 0 <= i < |b| ==> b[i] != []
    ensures Body(a) == Body(b) <==> GuardedAll(a) == GuardedAll(b)
  {
    hide Body, ReadFile, GuardedAll;
    BodyReadsBack(a);
    BodyReadsBack(b);
    if GuardedAll(a) == GuardedAll(b) {
      LinesAlike(a, b);
    }
  }

  lemma LinesAlike(a: seq<seq<string>>, b: seq<seq<string>>)
    requires GuardedAll(a) == GuardedAll(b)
    ensures Body(a) == Body(b)
  {
    hide CsvLine, Guarded, Join;
    forall i | 0 <= i < |a| ensures CsvLine(a[i]) == CsvLine(b[i]) {
      assert GuardedAll(a)[i] == GuardedAll(b)[i];
      CellsAlike(a[i], b[i]);
    }
    assert Lines(a) == Lines(b);
  }

  lemma CellsAlike(a: seq<string>, b: seq<string>)
    requires Guarded(a) == Guarded(b)
    ensures CsvLine(a) == CsvLine(b)
  {
    hide Guard, Join;
    forall i | 0 <= i < |a| ensures CsvCell(a[i]) == CsvCell(b[i]) {
      assert Guarded(a)[i] == Guarded(b)[i];
    }
    assert seq(|a|, i requires 0 <= i < |a| => CsvCell(a[i])) == seq(|b|, i requires 0 <= i < |b| => CsvCell(b[i]));
  }

  // ------------------------------------------------------------ The rows of a date range

  /** The instants between the two starts of day are those of the Lagos dates in the range. */
  lemma WindowIsDates(at: int, from: string, to: string)
    requires IsIsoDate(from) && IsIsoDate(to)
    ensures Day(from) * DAY_MS - OFFSET_MS <= at < (Day(to) + 1) * DAY_MS - OFFSET_MS <==>
      exists d :: LagosDate(at) == Some(d) && IsIsoDate(d) && AtMost(from, d) && AtMost(d, to)
  {
    hide Iso, Parse, IsIsoDate, AtMost, Day;
    var n := (at + OFFSET_MS) / DAY_MS;
    IsoDay(from);
    IsoDay(to);
    if Day(from) <= n <= Day(to) {
      DayIsIso(n);
      var d := Iso(n).value;
      IsoOrder(from, d);
      IsoOrder(d, to);
      assert LagosDate(at) == Some(d);
    }
    if d :| LagosDate(at) == Some(d) && IsIsoDate(d) && AtMost(from, d) && AtMost(d, to) {
      DayShown(n, d);
      IsoOrder(from, d);
      IsoOrder(d, to);
    }
  }

  lemma DayShown(n: int, d: string)
    requires Iso(n) == Some(d) && IsIsoDate(d)
    ensures Day(d) == n
  {
    hide DaysInMonth, DayNumber, DateOf, Show;
    FourDigitText(d);
    DateOfDay(n);
    ShownYear(DateOf(n));
    ShowsAndParses(DateOf(n));
  }

  lemma {:induction false} PickedByDate(trail: seq<AuditLog>, from: string, to: string)
    requires IsIsoDate(from) && IsIsoDate(to)
    ensures Picked(trail, Day(from) * DAY_MS - OFFSET_MS, (Day(to) + 1) * DAY_MS - OFFSET_MS)
      == OfDates(trail, from, to)
  {
    hide IsIsoDate, LagosDate, AtMost, Day;
    if trail != [] {
      WindowIsDates(trail[0].at, from, to);
      PickedByDate(trail[1..], from, to);
    }
  }

  // ------------------------------------------------------------ The operation

  lemma HeaderLine()
    ensures Join(COLUMNS, ",") == CsvLine(COLUMNS) && Guarded(COLUMNS) == COLUMNS
  {
    hide Join, CsvCell, Guard;
    PlainWord("createdAt");
    PlainWord("actor");
    PlainWord("actorId");
    PlainWord("action");
    PlainWord("entityType");
    PlainWord("entityId");
    PlainWord("ip");
    PlainWord("metadata");
    assert seq(|COLUMNS|, i requires 0 <= i < |COLUMNS| => CsvCell(COLUMNS[i])) == COLUMNS;
  }

  lemma PlainWord(s: string)
    requires forall i :: 0 <= i < |s| ==> 'A' <= s[i] <= 'z'
    ensures CsvCell(s) == s == Guard(s)
  {
  }

  /**
   The body `export` makes of the tenant's trail in `createdAt` order.  A reader
   of it sees the column names and then the cells, guarded, of the rows whose
   Lagos date lies in the range.
   */
  method ExportBody(trail: seq<AuditLog>, from: string, to: string) returns (body: Result<string, Failure>)
    ensures !ValidRange(from, to) ==> body == Err(BadRange)
    ensures ValidRange(from, to) && Day(to) - Day(from) > 366 ==> body == Err(RangeTooLong)
    ensures ValidRange(from, to) && Day(to) - Day(from) <= 366 && to == LastDate() ==> body == Err(InvalidDate)
    ensures ValidRange(from, to) && Day(to) - Day(from) <= 366 && to != LastDate() ==>
      && body.Ok?
      && body.value == Body([COLUMNS] + Rows(FirstRows(OfDates(trail, from, to))))
      && ReadFile(body.value) == Some([COLUMNS] + GuardedAll(Rows(FirstRows(OfDates(trail, from, to)))))
  {
    hide COLUMNS, IsIsoDate, AtMost, Day, AddDays, LastDate, ReadFile, OfDates, Picked, CsvLine, Join, Minutes,
      FirstRows, GuardedAll, Guarded, Body;
    if !IsIsoDate(from) || !IsIsoDate(to) || !AtMost(from, to) {
      return Err(BadRange);
    }
    RangeParses(from, to);
    if DiffDays(from, to).value > 366 {
      return Err(RangeTooLong);
    }
    var next := AddDays(to, 1);
    if next == None || LagosDateTime(next.value, "00:00") == None {
      AfterLast(to);
      return Err(InvalidDate);
    }
    var start, end := LagosDateTime(from, "00:00").value, LagosDateTime(next.value, "00:00").value;
    AfterLast(to);
    Midnight();
    PickedByDate(trail, from, to);
    var logs := FirstRows(Picked(trail, start, end));
    var lines := [Join(COLUMNS, ",")];
    HeaderLine();
    for i := 0 to |logs|
      invariant lines == [CsvLine(COLUMNS)] + Lines(Rows(logs)[..i])
    {
      lines := lines + [CsvLine(Cells(logs[i]))];
    }
    body := Ok(Join(lines, "\r\n") + "\r\n");
    ReadsHeaderAndRows(Rows(logs), lines);
  }

  lemma ReadsHeaderAndRows(rows: seq<seq<string>>, lines: seq<string>)
    requires lines == [CsvLine(COLUMNS)] + Lines(rows)
    requires forall i :: 0 <= i < |rows| ==> rows[i] != []
    ensures Join(lines, "\r\n") + "\r\n" == Body([COLUMNS] + rows)
    ensures ReadFile(Join(lines, "\r\n") + "\r\n") == Some([COLUMNS] + GuardedAll(rows))
  {
    hide COLUMNS, CsvLine, ReadFile, Join, Guarded;
    HeaderLine();
    var all := [COLUMNS] + rows;
    assert Lines(all) == lines;
    assert COLUMNS != [] by {
      assert |Cells(AuditLog(0, "", None, None, None, "", "", None, None, None))| == |COLUMNS|;
    }
    BodyReadsBack(all);
    assert GuardedAll(all) == [Guarded(COLUMNS)] + GuardedAll(rows);
  }

  lemma Midnight()
    ensures Minutes("00:00") == 0
  {
  }

  /** Only the last four-digit date has no day after it. */
  lemma AfterLast(to: string)
    requires IsIsoDate(to)
    ensures to == LastDate() ==> AddDays(to, 1).None? || !IsIsoDate(AddDays(to, 1).value)
    ensures to != LastDate() ==>
      AddDays(to, 1).Some? && IsIsoDate(AddDays(to, 1).value) && Day(AddDays(to, 1).value) == Day(to) + 1
  {
    hide Iso, LastDate, IsIsoDate;
    if to == LastDate() {
      LastDateDay();
      var next := AddDays(to, 1);
      RangeParses(to, to);
      if next.Some? && IsIsoDate(next.value) {
        DayShown(LAST_DAY + 1, next.value);
        IsoDay(next.value);
      }
    } else {
      BeforeLast(to);
      OneDayOn(to);
    }
  }

  // ------------------------------------------------------------ The trail

  datatype Stamp = Stamp(at: int, text: string)

  datatype User = User(id: string, fullName: string)

  /** The metadata of an export as JSON. */
  function Metadata(from: string, to: string, count: nat): string {
    "{\"from\":\"" + from + "\",\"to\":\"" + to + "\",\"format\":\"csv\",\"count\":" + Decimal(count) + "}"
  }

  /** The entry an export leaves in the trail. */
  function ExportRecord(user: User, from: string, to: string, count: nat, ip: Option<string>, now: Stamp): AuditLog {
    AuditLog(now.at, now.text, Some(user.fullName), Some(user.id), None, "audit.exported", "audit_log", None, ip,
             Some(Metadata(from, to, count)))
  }

  /** What the entry says, as the export's own columns show it. */
  lemma RecordSays(user: User, from: string, to: string, count: nat, ip: Option<string>, now: Stamp)
    ensures var r := ExportRecord(user, from, to, count, ip, now);
      && r.at == now.at && r.createdAt == now.text && r.actorName == Some(user.fullName)
      && r.actorUserId == Some(user.id) && r.actorPlatformUserId == None && r.entityId == None && r.ip == ip
      && r.action == "audit" + ".exported" && r.entityType == "audit" + "_log"
      && r.metadata.Some?
      && (exists n: string ::
          && AllDigits(n) && ParseDecimal(n) == count
          && r.metadata.value
            == "{\"from\":\"" + from + "\",\"to\":\"" + to + "\",\"format\":\"csv\",\"count\":" + n + "}")
  {
    var n := Decimal(count);
    assert AllDigits(n) && ParseDecimal(n) == count;
  }

  ghost predicate Ordered(rows: seq<AuditLog>) {
    forall i, j :: 0 <= i < j < |rows| ==> rows[i].at <= rows[j].at
  }

  /** The trail of one tenant; rows are only ever added. */
  class AuditTrail {
    var rows: seq<AuditLog>

    constructor ()
      ensures rows == [] && Ordered(rows)
    {
      rows := [];
    }

    /**
     The CSV branch of `export`.  The export is recorded in the trail behind the
     rows it takes, which it counts; a refused one leaves the trail as it was.
     */
    method Export(user: User, from: string, to: string, ip: Option<string>, now: Stamp)
      returns (body: Result<string, Failure>)
      requires Ordered(rows) && forall i :: 0 <= i < |rows| ==> rows[i].at <= now.at
      modifies this
      ensures Ordered(rows)
      ensures body.Ok? <==> ValidRange(from, to) && Day(to) - Day(from) <= 366 && to != LastDate()
      ensures body.Err? ==> rows == old(rows)
      ensures body.Ok? ==>
        var logs := FirstRows(OfDates(old(rows), from, to));
        && rows == old(rows) + [ExportRecord(user, from, to, |logs|, ip, now)]
        && ReadFile(body.value) == Some([COLUMNS] + GuardedAll(Rows(logs)))
    {
      hide ReadFile, OfDates, FirstRows, GuardedAll, Guarded, COLUMNS, Metadata, ValidRange, IsIsoDate, Day, LastDate,
        Body;
      var r := ExportBody(rows, from, to);
      if r.Err? {
        return r;
      }
      var logs := FirstRows(OfDates(rows, from, to));
      rows := rows + [ExportRecord(user, from, to, |logs|, ip, now)];
      return r;
    }
  }

  /** A later export of the day shows the entry an earlier one left, as long as the row limit is not reached. */
  lemma ExportsAreExported(trail: seq<AuditLog>, r: AuditLog, from: string, to: string)
    ensures OfDates(trail + [r], from, to) == OfDates(trail, from, to) + if OnDates(r, from, to) then [r] else []
    ensures |OfDates(trail, from, to)| < MOST_ROWS && OnDates(r, from, to) ==>
      FirstRows(OfDates(trail + [r], from, to)) == FirstRows(OfDates(trail, from, to)) + [r]
  {
    hide OnDates;
    OneRowMore(trail, r, from, to);
  }

  lemma {:induction false} OneRowMore(trail: seq<AuditLog>, r: AuditLog, from: string, to: string)
    ensures OfDates(trail + [r], from, to) == OfDates(trail, from, to) + if OnDates(r, from, to) then [r] else []
  {
    hide OnDates;
    if trail == [] {
      assert trail + [r] == [r];
      assert OfDates([r], from, to) == (if OnDates(r, from, to) then [r] else []) + OfDates([], from, to);
    } else {
      var last := if OnDates(r, from, to) then [r] else [];
      var first := if OnDates(trail[0], from, to) then [trail[0]] else [];
      assert (trail + [r])[0] == trail[0] && (trail + [r])[1..] == trail[1..] + [r];
      OneRowMore(trail[1..], r, from, to);
      assert first + (OfDates(trail[1..], from, to) + last) == first + OfDates(trail[1..], from, to) + last;
    }
  }
}
