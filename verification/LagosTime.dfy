/**
 Dates, date ranges and hotel nights of src/common/time/lagos.ts.  Instants are
 milliseconds since 1970; Lagos is one hour ahead of UTC all year.
 */
module LagosTime {
  import opened Calendar
  import opened Text
  import opened Wrappers

  const DAY_MS: int := 86_400_000
  const OFFSET_MS: int := 3_600_000
  const FIRST_DAY: int := -719528
  const LAST_DAY: int := 2932896

  /** The last date with a four-digit year, 9999-12-31. */
  function LastDate(): string {
    Show(Date(9999, 12, 31))
  }

  predicate IsIsoDate(s: string) {
    FourDigitForm(s) && Parse(s).Some? && Iso(Parse(s).value) == Some(s)
  }

  /** `isIsoDate` accepts exactly the real Gregorian dates of four-digit years. */
  lemma IsoDatesAreRealDates(s: string)
    ensures IsIsoDate(s) <==> exists t: Date :: IsDate(t) && 0 <= t.y <= 9999 && s == Show(t)
  {
    hide DateOf, DaysInMonth, DayNumber;
    if IsIsoDate(s) {
      FourDigitText(s);
      var n := Parse(s).value;
      DateOfDay(n);
      FourDigitDays(DateOf(n));
      assert Show(DateOf(n)) == s;
      ShownYear(DateOf(n));
    }
    if t: Date :| IsDate(t) && 0 <= t.y <= 9999 && s == Show(t) {
      ShowsAndParses(t);
    }
  }

  lemma ShownYear(t: Date)
    requires IsDate(t) && FourDigitForm(Show(t))
    ensures 0 <= t.y <= 9999
  {
    hide Pad;
    assert Show(t)[..4][0] == Show(t)[0];
    assert IsDigit(Show(t)[0]);
  }

  /** The day number of an ISO date. */
  function Day(s: string): int
    requires IsIsoDate(s)
  {
    Parse(s).value
  }

  lemma IsoDay(s: string)
    requires IsIsoDate(s)
    ensures FIRST_DAY <= Day(s) <= LAST_DAY && Iso(Day(s)) == Some(s)
  {
    hide DaysInMonth, DayNumber, DateOf;
    DateOfIso(s);
    FourDigitDays(DateOf(Day(s)));
  }

  lemma DateOfIso(s: string)
    requires IsIsoDate(s)
    ensures var t := DateOf(Day(s)); IsDate(t) && 0 <= t.y <= 9999 && Show(t) == s && DayNumber(t) == Day(s)
  {
    hide DaysInMonth, DayNumber, DateOf;
    DateOfDay(Day(s));
    ShownYear(DateOf(Day(s)));
  }

  lemma DayIsIso(n: int)
    requires FIRST_DAY <= n <= LAST_DAY
    ensures Iso(n).Some? && IsIsoDate(Iso(n).value) && Day(Iso(n).value) == n
  {
    hide DaysInMonth, DayNumber, DateOf;
    DateOfDay(n);
    FourDigitDays(DateOf(n));
    ShowsAndParses(DateOf(n));
  }

  // ------------------------------------------------------------ Arithmetic

  /** None is the RangeError of `toISOString` on an invalid date. */
  function AddDays(date: string, days: int): Option<string> {
    match Parse(date)
    case None => None
    case Some(n) => Iso(n + days)
  }

  /** Whole days from `a` to `b`; None is NaN. */
  function DiffDays(a: string, b: string): Option<int> {
    if Parse(a).Some? && Parse(b).Some? then Some(Parse(b).value - Parse(a).value) else None
  }

  /** Within the four-digit years adding days and taking differences are inverse, and adding composes. */
  lemma AddDaysLaws(a: string, n: int, m: int)
    requires IsIsoDate(a)
    requires FIRST_DAY <= Day(a) + n <= LAST_DAY
    ensures AddDays(a, n).Some? && IsIsoDate(AddDays(a, n).value)
    ensures DiffDays(a, AddDays(a, n).value) == Some(n)
    ensures AddDays(AddDays(a, n).value, m) == AddDays(a, n + m)
  {
    hide Iso, Parse;
    DayIsIso(Day(a) + n);
  }

  lemma DiffDaysLeadsBack(a: string, b: string)
    requires IsIsoDate(a) && IsIsoDate(b)
    ensures DiffDays(a, b).Some? && AddDays(a, DiffDays(a, b).value) == Some(b)
  {
    hide Iso, Parse;
    IsoDay(b);
  }

  // ------------------------------------------------------------ Ranges

  /** The dates from day `n` to day `last`. */
  function Dates(n: int, last: int): seq<string>
    requires FIRST_DAY <= n && last <= LAST_DAY
    decreases last - n
  {
    if last < n then [] else [Iso(n).value] + Dates(n + 1, last)
  }

  lemma {:induction false} DatesFrom(n: int, last: int)
    requires FIRST_DAY <= n && last <= LAST_DAY
    ensures var ds := Dates(n, last);
      && |ds| == (if last < n then 0 else last - n + 1)
      && forall i :: 0 <= i < |ds| ==> Iso(n + i) == Some(ds[i])
    decreases last - n
  {
    hide Iso, IsIsoDate, Day;
    if n <= last {
      var more := Dates(n + 1, last);
      DayIsIso(n);
      DatesFrom(n + 1, last);
      forall i | 0 <= i < |Dates(n, last)| ensures Iso(n + i) == Some(Dates(n, last)[i]) {
        if i > 0 {
          assert Iso(n + 1 + (i - 1)) == Some(more[i - 1]);
        }
      }
    }
  }

  lemma IsoOrder(a: string, b: string)
    requires IsIsoDate(a) && IsIsoDate(b)
    ensures AtMost(a, b) <==> Day(a) <= Day(b)
  {
    hide AtMost, Parse, Iso, IsDate, DateOf, Show, DayNumber;
    DateOfIso(a);
    DateOfIso(b);
    TextOrderIsDayOrder(DateOf(Day(a)), DateOf(Day(b)));
  }

  lemma LastDayNumber()
    ensures DayNumber(Date(9999, 12, 31)) == LAST_DAY
  {
  }

  lemma LastDateDay()
    ensures IsIsoDate(LastDate()) && Day(LastDate()) == LAST_DAY
  {
    hide Show, Parse, Iso, FourDigitForm, DayNumber;
    var t := Date(9999, 12, 31);
    ShowsAndParses(t);
    assert DayNumber(t) == LAST_DAY by {
      LastDayNumber();
    }
  }

  lemma OneDayOn(d: string)
    requires IsIsoDate(d) && Day(d) < LAST_DAY
    ensures AddDays(d, 1).Some? && IsIsoDate(AddDays(d, 1).value) && Day(AddDays(d, 1).value) == Day(d) + 1
  {
    hide Iso, Parse;
    IsoDay(d);
    DayIsIso(Day(d) + 1);
  }

  lemma BeforeLast(to: string)
    requires IsIsoDate(to) && to != LastDate()
    ensures Day(to) < LAST_DAY
  {
    hide Parse, Iso, LastDate;
    IsoDay(to);
    LastDateDay();
    IsoDay(LastDate());
  }

  /** The dates from one ISO date to another. */
  function Range(from: string, to: string): seq<string>
    requires IsIsoDate(from) && IsIsoDate(to)
  {
    IsoDay(from);
    IsoDay(to);
    Dates(Day(from), Day(to))
  }

  lemma DatesFirst(n: int, last: int)
    requires FIRST_DAY <= n && last <= LAST_DAY
    ensures Dates(n, last) == if last < n then [] else [Iso(n).value] + Dates(n + 1, last)
  {
  }

  /** The range has one date per day, each a day after the one before, the i-th being `from` and `i` days. */
  lemma RangeIsEveryDay(from: string, to: string)
    requires IsIsoDate(from) && IsIsoDate(to)
    ensures var ds := Range(from, to);
      && |ds| == (if Day(to) < Day(from) then 0 else DiffDays(from, to).value + 1)
      && (forall i :: 0 <= i < |ds| ==> AddDays(from, i) == Some(ds[i]))
      && (forall i, j :: 0 <= i < j < |ds| ==> Less(ds[i], ds[j]))
  {
    hide AtMost, Parse, Iso, IsIsoDate, Dates, Less;
    IsoDay(from);
    IsoDay(to);
    var ds := Range(from, to);
    DatesFrom(Day(from), Day(to));
    RangeParses(from, to);
    forall i | 0 <= i < |ds| ensures AddDays(from, i) == Some(ds[i]) {
      assert Iso(Day(from) + i) == Some(ds[i]);
    }
    forall i, j | 0 <= i < j < |ds| ensures Less(ds[i], ds[j]) {
      assert Iso(Day(from) + i) == Some(ds[i]) && Iso(Day(from) + j) == Some(ds[j]);
      LaterIsMore(Day(from) + i, Day(from) + j);
    }
  }

  lemma RangeParses(from: string, to: string)
    requires IsIsoDate(from) && IsIsoDate(to)
    ensures Parse(from) == Some(Day(from)) && Parse(to) == Some(Day(to))
  {
  }

  lemma LaterIsMore(m: int, n: int)
    requires FIRST_DAY <= m < n <= LAST_DAY
    ensures Iso(m).Some? && Iso(n).Some? && Less(Iso(m).value, Iso(n).value)
  {
    hide Iso, IsIsoDate, Day, Less;
    DayIsIso(m);
    DayIsIso(n);
    IsoOrder(Iso(m).value, Iso(n).value);
    assert Iso(m).value != Iso(n).value;
  }

  // ------------------------------------------------------------ The loop of `dateRange`

  /** The loop variable of `dateRange` after `k` rounds; None is a RangeError. */
  function Rounds(from: string, k: nat): Option<string> {
    if k == 0 then Some(from)
    else match Rounds(from, k - 1)
      case None => None
      case Some(d) => AddDays(d, 1)
  }

  /** The loop is over before round `k`: its guard fails, or a date could not be computed. */
  predicate Stops(from: string, to: string, k: nat) {
    Rounds(from, k) == None || !AtMost(Rounds(from, k).value, to)
  }

  ghost predicate FirstStop(from: string, to: string, k: nat) {
    Stops(from, to, k) && forall j: nat :: j < k ==> !Stops(from, to, j)
  }

  /** The texts of the first `k` rounds, or None if one of them throws. */
  function Visited(from: string, k: nat): Option<seq<string>> {
    if k == 0 then Some([])
    else match (Visited(from, k - 1), Rounds(from, k))
      case (Some(ds), Some(_)) => Some(ds + [Rounds(from, k - 1).value])
      case _ => None
  }

  /**
   `dateRange` on any two texts for which its loop ends at all; None is the
   RangeError of a text that is no date.  Between ISO dates, although the guard
   compares text, it walks the days one by one.
   */
  method DateRange(from: string, to: string) returns (out: Option<seq<string>>)
    requires exists k: nat :: Stops(from, to, k)
    ensures exists k: nat :: FirstStop(from, to, k) && out == Visited(from, k)
    ensures IsIsoDate(from) && IsIsoDate(to) ==> out == Some(Range(from, to))
  {
    hide AtMost, AddDays, IsIsoDate, Range, Rounds, Visited;
    ghost var bound: nat :| Stops(from, to, bound);
    ghost var k: nat := 0;
    var ds: seq<string> := [];
    var d := from;
    RoundZero(from);
    while AtMost(d, to)
      invariant k <= bound && Rounds(from, k) == Some(d) && Visited(from, k) == Some(ds)
      invariant forall j: nat :: j < k ==> !Stops(from, to, j)
      decreases bound - k
    {
      assert !Stops(from, to, k);
      RoundOne(from, k);
      var next := AddDays(d, 1);
      if next == None {
        assert FirstStop(from, to, k + 1);
        RangeIsVisited(from, to, k + 1);
        return None;
      }
      ds := ds + [d];
      d := next.value;
      k := k + 1;
    }
    assert FirstStop(from, to, k);
    RangeIsVisited(from, to, k);
    return Some(ds);
  }

  lemma RoundZero(from: string)
    ensures Rounds(from, 0) == Some(from) && Visited(from, 0) == Some([])
  {
  }

  lemma RoundOne(from: string, k: nat)
    requires Rounds(from, k).Some?
    ensures Rounds(from, k + 1) == AddDays(Rounds(from, k).value, 1)
    ensures Visited(from, k + 1) == match (Visited(from, k), Rounds(from, k + 1))
      case (Some(ds), Some(_)) => Some(ds + [Rounds(from, k).value])
      case _ => None
  {
  }

  /** The first ten characters the engine shows of the day after 9999-12-31: a year and a month. */
  function Beyond(): string {
    Show(Date(10000, 1, 1))
  }

  lemma BeyondIsStuck()
    ensures AddDays(LastDate(), 1) == Some(Beyond()) && AddDays(Beyond(), 1) == Some(Beyond())
      && AtMost(Beyond(), LastDate())
  {
    hide Iso, Parse, Show;
    LastDateDay();
    FirstOfBeyond();
  }

  lemma FirstOfBeyond()
    ensures DayNumber(Date(10000, 1, 1)) == LAST_DAY + 1
    ensures Iso(LAST_DAY + 1) == Some(Beyond()) && Iso(LAST_DAY + 2) == Some(Beyond())
      && Parse(Beyond()) == Some(LAST_DAY + 1)
    ensures AtMost(Beyond(), LastDate())
  {
    hide DateOf, Pad, ParseDecimal;
    EndsOfCalendar();
    DayOfDate(Date(10000, 1, 1));
    DayOfDate(Date(10000, 1, 2));
    Powers10();
    PadParses(10000, 6, 1000000);
    PadParses(1, 2, 100);
    var b := Beyond();
    assert b[1..7] == Pad(10000, 6) && b[8..] == Pad(1, 2);
    assert LastDate()[0] == Pad(9999, 4)[0];
    assert IsDigit(Pad(9999, 4)[0]);
    assert !IsDigit(b[0]);
  }

  /** With `to` the last four-digit date the guard never fails and no round throws: the loop does not end. */
  lemma {:induction false} RangeToLastDateNeverEnds(from: string, k: nat)
    requires IsIsoDate(from)
    ensures Rounds(from, k).Some? && AtMost(Rounds(from, k).value, LastDate())
    ensures if Day(from) + k <= LAST_DAY
      then IsIsoDate(Rounds(from, k).value) && Day(Rounds(from, k).value) == Day(from) + k
      else Rounds(from, k).value == Beyond()
  {
    hide Iso, Parse, IsIsoDate, AddDays, AtMost, Day, LastDate, Beyond;
    IsoDay(from);
    LastDateDay();
    BeyondIsStuck();
    if k > 0 {
      RangeToLastDateNeverEnds(from, k - 1);
      var d := Rounds(from, k - 1).value;
      if Day(from) + k <= LAST_DAY {
        OneDayOn(d);
        IsoOrder(Rounds(from, k).value, LastDate());
      } else if Day(from) + k - 1 == LAST_DAY {
        IsoDay(d);
        IsoDay(LastDate());
      }
    } else {
      IsoOrder(from, LastDate());
    }
  }

  lemma {:induction false} RoundsFollowDays(from: string, k: nat)
    requires IsIsoDate(from) && Day(from) + k <= LAST_DAY
    ensures Rounds(from, k).Some? && IsIsoDate(Rounds(from, k).value) && Day(Rounds(from, k).value) == Day(from) + k
  {
    RangeToLastDateNeverEnds(from, k);
  }

  /** Exactly: the loop over two ISO dates ends iff `to` is not the last four-digit date. */
  lemma DateRangeEnds(from: string, to: string)
    requires IsIsoDate(from) && IsIsoDate(to)
    ensures (exists k: nat :: Stops(from, to, k)) <==> to != LastDate()
  {
    hide Iso, Parse, IsIsoDate, AddDays, AtMost, Day, LastDate, Rounds;
    if to == LastDate() {
      forall k: nat ensures !Stops(from, to, k) {
        RangeToLastDateNeverEnds(from, k);
      }
    } else {
      StopsBehindRange(from, to);
    }
  }

  /** The number of dates of a range. */
  function RangeLength(from: string, to: string): nat
    requires IsIsoDate(from) && IsIsoDate(to)
  {
    if Day(to) < Day(from) then 0 else Day(to) - Day(from) + 1
  }

  lemma StopsBehindRange(from: string, to: string)
    requires IsIsoDate(from) && IsIsoDate(to) && to != LastDate()
    ensures FirstStop(from, to, RangeLength(from, to)) && Day(from) + RangeLength(from, to) <= LAST_DAY
  {
    hide Iso, Parse, IsIsoDate, AddDays, AtMost, Day, LastDate, Rounds;
    IsoDay(from);
    IsoDay(to);
    BeforeLast(to);
    var n := RangeLength(from, to);
    forall j: nat | j <= n ensures Stops(from, to, j) <==> j == n {
      RoundsFollowDays(from, j);
      IsoOrder(Rounds(from, j).value, to);
    }
  }

  lemma {:induction false} DatesLast(n: int, last: int)
    requires FIRST_DAY <= n <= last <= LAST_DAY
    ensures Dates(n, last) == Dates(n, last - 1) + [Iso(last).value]
    decreases last - n
  {
    hide Iso, IsIsoDate, Day;
    DayIsIso(n);
    DayIsIso(last);
    if n < last {
      DatesLast(n + 1, last);
      assert [Iso(n).value] + (Dates(n + 1, last - 1) + [Iso(last).value])
        == [Iso(n).value] + Dates(n + 1, last - 1) + [Iso(last).value];
    } else {
      assert Dates(n, last) == [Iso(n).value] + Dates(n + 1, last);
    }
  }

  lemma {:induction false} VisitsDates(from: string, k: nat)
    requires IsIsoDate(from) && Day(from) + k <= LAST_DAY
    ensures FIRST_DAY <= Day(from) && Visited(from, k) == Some(Dates(Day(from), Day(from) + k - 1))
  {
    hide Iso, Parse, IsIsoDate, AddDays, Day, Rounds, Dates;
    IsoDay(from);
    if k == 0 {
      DatesFirst(Day(from), Day(from) - 1);
    } else {
      VisitsDates(from, k - 1);
      RoundsFollowDays(from, k);
      RoundsFollowDays(from, k - 1);
      IsoDay(Rounds(from, k - 1).value);
      DatesLast(Day(from), Day(from) + k - 1);
    }
  }

  lemma OneFirstStop(from: string, to: string, k: nat, n: nat)
    requires FirstStop(from, to, k) && FirstStop(from, to, n)
    ensures k == n
  {
    hide Stops;
  }

  /** Where the loop over two ISO dates ends, it has visited just the dates of the range. */
  lemma RangeIsVisited(from: string, to: string, k: nat)
    requires FirstStop(from, to, k)
    ensures IsIsoDate(from) && IsIsoDate(to) ==> Visited(from, k) == Some(Range(from, to))
  {
    hide Iso, Parse, IsIsoDate, AddDays, AtMost, Day, LastDate, Rounds, Stops, Visited, Dates;
    if IsIsoDate(from) && IsIsoDate(to) {
      DateRangeEnds(from, to);
      assert Stops(from, to, k);
      StopsBehindRange(from, to);
      var n := RangeLength(from, to);
      OneFirstStop(from, to, k, n);
      VisitsDates(from, n);
      IsoDay(from);
      IsoDay(to);
      if Day(to) < Day(from) {
        DatesFirst(Day(from), Day(to));
        DatesFirst(Day(from), Day(from) - 1);
      }
    }
  }

  // ------------------------------------------------------------ Hotel nights

  predicate IsTime(s: string) {
    && |s| == 5 && s[2] == ':' && IsDigit(s[0]) && IsDigit(s[1]) && IsDigit(s[3]) && IsDigit(s[4])
    && DigitValue(s[0]) * 10 + DigitValue(s[1]) < 24 && DigitValue(s[3]) < 6
  }

  /** Minutes after midnight; text that is no time counts as midnight. */
  function Minutes(time: string): (m: nat)
    ensures m < 1440
  {
    if IsTime(time) then
      (DigitValue(time[0]) * 10 + DigitValue(time[1])) * 60 + DigitValue(time[3]) * 10 + DigitValue(time[4])
    else 0
  }

  /** `lagosDateTime`; None is the thrown `Invalid date`. */
  function LagosDateTime(date: string, time: string): Option<int> {
    if IsIsoDate(date) then Some(Day(date) * DAY_MS + Minutes(time) * 60_000 - OFFSET_MS) else None
  }

  function LagosDate(ms: int): Option<string> {
    if -8_640_000_000_000_000 <= ms + OFFSET_MS <= 8_640_000_000_000_000 then Iso((ms + OFFSET_MS) / DAY_MS) else None
  }

  function NightsBetween(arrivalAt: int, departureAt: int): Option<int> {
    match (LagosDate(arrivalAt), LagosDate(departureAt))
    case (Some(a), Some(b)) =>
      (match DiffDays(a, b)
       case None => None
       case Some(n) => Some(if n < 1 then 1 else n))
    case _ => None
  }

  // ------------------------------------------------------------ What the clock says

  /** Lagos is an hour ahead of UTC: its days have 86 400 seconds and start at 23:00 UTC. */
  lemma LagosIsUtcPlusOne(ms: int, n: int)
    requires -100_000_000 * 86_400_000 <= ms + 3_600_000 <= 100_000_000 * 86_400_000
    requires n * 86_400_000 <= ms + 3_600_000 < (n + 1) * 86_400_000
    ensures LagosDate(ms) == Iso(n)
  {
    hide Iso;
    assert (ms + OFFSET_MS) / DAY_MS == n;
  }

  /** A time of two digits each counts as it says, every other text as midnight. */
  lemma TimesAreMinutes(hour: nat, minute: nat, a: char, b: char, c: char, d: char)
    requires hour < 24 && minute < 60 && IsDigit(a) && IsDigit(b) && IsDigit(c) && IsDigit(d)
    requires hour == 10 * DigitValue(a) + DigitValue(b) && minute == 10 * DigitValue(c) + DigitValue(d)
    ensures Minutes([a, b, ':', c, d]) == 60 * hour + minute
  {
    var s := [a, b, ':', c, d];
    assert s[0] == a && s[1] == b && s[2] == ':' && s[3] == c && s[4] == d;
  }

  lemma OtherTextsAreMidnight(time: string)
    requires forall a, b, c, d :: IsDigit(a) && IsDigit(b) && IsDigit(c) && IsDigit(d) && time == [a, b, ':', c, d] ==>
      24 <= 10 * DigitValue(a) + DigitValue(b) || 60 <= 10 * DigitValue(c) + DigitValue(d)
    ensures Minutes(time) == 0
  {
    if IsTime(time) {
      assert time == [time[0], time[1], ':', time[3], time[4]];
    }
  }

  /** The instant of a date and a time: so many days and minutes after 1970, less the hour that Lagos is ahead. */
  lemma DateTimeIsInstant(date: string, time: string)
    requires IsIsoDate(date)
    ensures LagosDateTime(date, time) == Some(Day(date) * 86_400_000 + Minutes(time) * 60_000 - 3_600_000)
  {
    hide Minutes, Day, IsIsoDate;
  }

  /** A stay has as many nights as days lie between its Lagos dates, and never less than one. */
  lemma NightsBetweenExactly(arrivalAt: int, departureAt: int, a: string, b: string)
    requires LagosDate(arrivalAt) == Some(a) && LagosDate(departureAt) == Some(b) && IsIsoDate(a) && IsIsoDate(b)
    ensures NightsBetween(arrivalAt, departureAt).Some?
    ensures var n := NightsBetween(arrivalAt, departureAt).value;
      && (Day(a) < Day(b) ==> n == Day(b) - Day(a)) && (Day(b) <= Day(a) ==> n == 1)
  {
    hide LagosDate, Iso;
    RangeParses(a, b);
  }

  /** Two spans overlap iff some instant lies in both; each takes in its start and not its end. */
  lemma OverlapsExactly(aStart: int, aEnd: int, bStart: int, bEnd: int)
    requires aStart < aEnd && bStart < bEnd
    ensures Overlaps(aStart, aEnd, bStart, bEnd)
      <==> exists t :: Inside(t, aStart, aEnd) && Inside(t, bStart, bEnd)
  {
    if Overlaps(aStart, aEnd, bStart, bEnd) {
      var t := if aStart < bStart then bStart else aStart;
      assert Inside(t, aStart, aEnd) && Inside(t, bStart, bEnd);
    }
  }

  predicate Inside(t: int, start: int, end: int) {
    start <= t < end
  }

  datatype Window = Window(start: int, end: int)

  function NightWindow(date: string, checkIn: string, checkOut: string): Option<Window> {
    match AddDays(date, 1)
    case None => None
    case Some(next) =>
      match (LagosDateTime(date, checkIn), LagosDateTime(next, checkOut))
      case (Some(s), Some(e)) => Some(Window(s, e))
      case _ => None
  }

  predicate Overlaps(aStart: int, aEnd: int, bStart: int, bEnd: int) {
    aStart < bEnd && bStart < aEnd
  }

  /** The Lagos date of an instant given by date and time is that date. */
  lemma DateOfDateTime(date: string, time: string)
    requires IsIsoDate(date)
    ensures LagosDateTime(date, time).Some? && LagosDate(LagosDateTime(date, time).value) == Some(date)
  {
    hide Iso, Parse, IsIsoDate, Minutes;
    IsoDay(date);
    var n, m := Day(date), Minutes(time) * 60_000;
    assert (n * DAY_MS + m) / DAY_MS == n;
  }

  /** A stay from check-in on `a` to check-out on `b` touches the window of night `n`. */
  predicate StayTouches(a: string, b: string, n: string, checkIn: string, checkOut: string)
  {
    match (LagosDateTime(a, checkIn), LagosDateTime(b, checkOut), NightWindow(n, checkIn, checkOut))
    case (Some(from), Some(to), Some(w)) => Overlaps(from, to, w.start, w.end)
    case _ => false
  }

  lemma WindowOfNight(n: string, checkIn: string, checkOut: string)
    requires IsIsoDate(n) && n != LastDate()
    ensures NightWindow(n, checkIn, checkOut)
      == Some(Window(Day(n) * DAY_MS + Minutes(checkIn) * 60_000 - OFFSET_MS,
                     (Day(n) + 1) * DAY_MS + Minutes(checkOut) * 60_000 - OFFSET_MS))
  {
    hide Iso, Parse, IsIsoDate, Minutes, AddDays, Day, LastDate;
    BeforeLast(n);
    OneDayOn(n);
  }

  lemma TouchesInDays(a: string, b: string, n: string, checkIn: string, checkOut: string)
    requires IsIsoDate(a) && IsIsoDate(b) && IsIsoDate(n) && n != LastDate()
    ensures StayTouches(a, b, n, checkIn, checkOut) <==>
      && (Day(a) - Day(n) - 1) * 1440 < Minutes(checkOut) - Minutes(checkIn)
      && (Day(n) - Day(b)) * 1440 < Minutes(checkOut) - Minutes(checkIn)
  {
    hide Iso, Parse, IsIsoDate, Minutes, Day, LastDate, NightWindow;
    WindowOfNight(n, checkIn, checkOut);
  }

  /** With check-out not after check-in, a stay touches exactly the nights from arrival up to departure. */
  lemma StayTouchesItsNights(a: string, b: string, n: string, checkIn: string, checkOut: string)
    requires IsIsoDate(a) && IsIsoDate(b) && IsIsoDate(n) && n != LastDate()
    requires Minutes(checkOut) <= Minutes(checkIn)
    ensures StayTouches(a, b, n, checkIn, checkOut) <==> Day(a) <= Day(n) < Day(b)
  {
    hide Iso, Parse, IsIsoDate, Minutes, Day, LastDate, StayTouches;
    TouchesInDays(a, b, n, checkIn, checkOut);
  }

  /** The rule the night windows are made for, over all stays and nights. */
  ghost predicate NightRule(checkIn: string, checkOut: string) {
    forall a: string, b: string, n: string :: IsIsoDate(a) && IsIsoDate(b) && IsIsoDate(n) && n != LastDate() ==>
      (StayTouches(a, b, n, checkIn, checkOut) <==> Day(a) <= Day(n) < Day(b))
  }

  /** It holds exactly when check-out is not after check-in. */
  lemma NightRuleExactly(checkIn: string, checkOut: string)
    ensures NightRule(checkIn, checkOut) <==> Minutes(checkOut) <= Minutes(checkIn)
  {
    hide Iso, Parse, IsIsoDate, Minutes, Day, LastDate, StayTouches;
    if Minutes(checkOut) <= Minutes(checkIn) {
      forall a: string, b: string, n: string | IsIsoDate(a) && IsIsoDate(b) && IsIsoDate(n) && n != LastDate()
        ensures StayTouches(a, b, n, checkIn, checkOut) <==> Day(a) <= Day(n) < Day(b)
      {
        StayTouchesItsNights(a, b, n, checkIn, checkOut);
      }
    } else {
      DayIsIso(0);
      DayIsIso(1);
      var n, a := Iso(0).value, Iso(1).value;
      LastDateDay();
      assert n != LastDate();
      TouchesInDays(a, a, n, checkIn, checkOut);
      assert StayTouches(a, a, n, checkIn, checkOut) && !(Day(a) <= Day(n));
    }
  }

  /** The nights a stay touches are a range of dates, as many as `nightsBetween` counts. */
  lemma NightsAreCounted(a: string, b: string, checkIn: string, checkOut: string)
    requires IsIsoDate(a) && IsIsoDate(b) && Day(a) < Day(b) && Minutes(checkOut) <= Minutes(checkIn)
    ensures AddDays(b, -1).Some? && IsIsoDate(AddDays(b, -1).value)
    ensures var nights := Range(a, AddDays(b, -1).value);
      && NightsBetween(LagosDateTime(a, checkIn).value, LagosDateTime(b, checkOut).value) == Some(|nights|)
      && forall n :: IsIsoDate(n) && n != LastDate() ==> (n in nights <==> StayTouches(a, b, n, checkIn, checkOut))
  {
    hide Iso, IsIsoDate, Minutes, LastDate, StayTouches, Dates, LagosDateTime, LagosDate;
    IsoDay(a);
    IsoDay(b);
    LastNight(b, Day(a));
    var last := AddDays(b, -1).value;
    DateOfDateTime(a, checkIn);
    DateOfDateTime(b, checkOut);
    RangeParses(a, b);
    DatesFrom(Day(a), Day(last));
    forall n | IsIsoDate(n) && n != LastDate()
      ensures n in Range(a, last) <==> StayTouches(a, b, n, checkIn, checkOut)
    {
      StayTouchesItsNights(a, b, n, checkIn, checkOut);
      InRange(a, last, n);
    }
  }

  lemma LastNight(b: string, n: int)
    requires IsIsoDate(b) && FIRST_DAY <= n < Day(b)
    ensures AddDays(b, -1).Some? && IsIsoDate(AddDays(b, -1).value) && Day(AddDays(b, -1).value) == Day(b) - 1
  {
    hide Iso, Parse;
    IsoDay(b);
    DayIsIso(Day(b) - 1);
  }

  lemma InRange(a: string, b: string, n: string)
    requires IsIsoDate(a) && IsIsoDate(b) && IsIsoDate(n)
    ensures n in Range(a, b) <==> Day(a) <= Day(n) <= Day(b)
  {
    hide Iso, Parse, IsIsoDate, Dates, Day;
    IsoDay(a);
    IsoDay(b);
    IsoDay(n);
    DatesFrom(Day(a), Day(b));
    var ds := Dates(Day(a), Day(b));
    if Day(a) <= Day(n) <= Day(b) {
      var i := Day(n) - Day(a);
      assert Iso(Day(a) + i) == Some(ds[i]);
    }
    if n in ds {
      var i :| 0 <= i < |ds| && ds[i] == n;
      assert Iso(Day(a) + i) == Some(ds[i]);
      DayIsIso(Day(a) + i);
    }
  }
}
