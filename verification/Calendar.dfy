/**
 The proleptic Gregorian calendar of the JavaScript Date object: days are
 counted from 1970-01-01, and a day is shown as `toISOString().slice(0, 10)`.
 */
module Calendar {
  import opened Text
  import opened Wrappers

  datatype Date = Date(y: int, m: int, d: int)

  predicate IsLeap(y: int) {
    y % 4 == 0 && (y % 100 != 0 || y % 400 == 0)
  }

  /** Day number of the first of January. */
  function DaysBeforeYear(y: int): int {
    365 * (y - 1970) + (y - 1969) / 4 - (y - 1901) / 100 + (y - 1601) / 400
  }

  function DaysBeforeMonth(y: int, m: int): int {
    var leap := if IsLeap(y) then 1 else 0;
    if m <= 1 then 0 else if m == 2 then 31
    else leap + if m == 3 then 59 else if m == 4 then 90 else if m == 5 then 120 else if m == 6 then 151
      else if m == 7 then 181 else if m == 8 then 212 else if m == 9 then 243 else if m == 10 then 273
      else if m == 11 then 304 else if m == 12 then 334 else 365
  }

  function DaysInMonth(y: int, m: int): int {
    if m == 2 then if IsLeap(y) then 29 else 28
    else if m in {4, 6, 9, 11} then 30 else 31
  }

  predicate IsDate(t: Date) {
    1 <= t.m <= 12 && 1 <= t.d <= DaysInMonth(t.y, t.m)
  }

  function DayNumber(t: Date): int {
    DaysBeforeYear(t.y) + DaysBeforeMonth(t.y, t.m) + t.d - 1
  }

  lemma YearLength(y: int)
    ensures DaysBeforeYear(y + 1) == DaysBeforeYear(y) + if IsLeap(y) then 366 else 365
  {
    EveryFourth(y);
    EveryHundredth(y);
    EveryFourHundredth(y);
    Centuries(y);
    assert y + 1 - 1969 == y - 1968 && y + 1 - 1901 == y - 1900 && y + 1 - 1601 == y - 1600;
  }

  lemma Centuries(y: int)
    ensures y % 400 == 0 ==> y % 100 == 0
    ensures y % 100 == 0 ==> y % 4 == 0
  {
    if y % 100 == 0 { assert y == 4 * (25 * (y / 100)); }
    if y % 400 == 0 { assert y == 100 * (4 * (y / 400)); }
  }

  lemma EveryFourth(y: int)
    ensures (y - 1968) / 4 == (y - 1969) / 4 + if y % 4 == 0 then 1 else 0
  {
  }

  lemma EveryHundredth(y: int)
    ensures (y - 1900) / 100 == (y - 1901) / 100 + if y % 100 == 0 then 1 else 0
  {
  }

  lemma EveryFourHundredth(y: int)
    ensures (y - 1600) / 400 == (y - 1601) / 400 + if y % 400 == 0 then 1 else 0
  {
  }

  lemma {:induction false} YearsAscend(y: int, z: int)
    requires y < z
    ensures DaysBeforeYear(y) + 365 * (z - y) <= DaysBeforeYear(z)
    decreases z - y
  {
    hide IsLeap;
    YearLength(y);
    if y + 1 < z {
      YearsAscend(y + 1, z);
    }
  }

  lemma MonthLength(y: int, m: int)
    requires 1 <= m <= 12
    ensures DaysBeforeMonth(y, m + 1) == DaysBeforeMonth(y, m) + DaysInMonth(y, m)
    ensures DaysBeforeMonth(y, 1) == 0 <= DaysBeforeMonth(y, m)
      && DaysBeforeMonth(y, m + 1) <= DaysBeforeMonth(y, 13) == if IsLeap(y) then 366 else 365
  {
    hide IsLeap;
  }

  /** The year a day lies in, searched from `y`. */
  function YearOf(n: int, y: int): (r: int)
    ensures DaysBeforeYear(r) <= n < DaysBeforeYear(r + 1)
    decreases if n < DaysBeforeYear(y) then DaysBeforeYear(y) - n else n - DaysBeforeYear(y)
  {
    hide DaysBeforeYear, IsLeap;
    YearLength(y);
    YearLength(y - 1);
    if n < DaysBeforeYear(y) then
      if n < DaysBeforeYear(y - 1) then YearOf(n, y - 1) else y - 1
    else if n < DaysBeforeYear(y + 1) then y
    else YearOf(n, y + 1)
  }

  function MonthOf(y: int, k: int, m: int): (r: int)
    requires 1 <= m <= 12 && DaysBeforeMonth(y, m) <= k < DaysBeforeMonth(y, 13)
    ensures 1 <= r <= 12 && DaysBeforeMonth(y, r) <= k < DaysBeforeMonth(y, r + 1)
    decreases 12 - m
  {
    if k < DaysBeforeMonth(y, m + 1) then m else MonthOf(y, k, m + 1)
  }

  function DateOf(n: int): Date {
    var y := YearOf(n, 1970);
    YearLength(y);
    MonthLength(y, 12);
    var k := n - DaysBeforeYear(y);
    var m := MonthOf(y, k, 1);
    Date(y, m, k - DaysBeforeMonth(y, m) + 1)
  }

  lemma DateOfDay(n: int)
    ensures IsDate(DateOf(n)) && DayNumber(DateOf(n)) == n
  {
    hide IsLeap, DaysInMonth, DaysBeforeYear, DaysBeforeMonth;
    var y := YearOf(n, 1970);
    YearLength(y);
    MonthLength(y, 12);
    var m := MonthOf(y, n - DaysBeforeYear(y), 1);
    MonthLength(y, m);
  }

  lemma DayOfYear(t: Date)
    requires IsDate(t)
    ensures DaysBeforeYear(t.y) <= DayNumber(t) < DaysBeforeYear(t.y + 1)
    ensures DaysBeforeMonth(t.y, t.m) <= DayNumber(t) - DaysBeforeYear(t.y) < DaysBeforeMonth(t.y, t.m + 1)
  {
    hide IsLeap, DaysInMonth, DaysBeforeYear, DaysBeforeMonth;
    MonthLength(t.y, t.m);
    YearLength(t.y);
  }

  lemma {:induction false} MonthsAscend(y: int, m: int, n: int)
    requires 1 <= m < n <= 13
    ensures DaysBeforeMonth(y, m) + 28 <= DaysBeforeMonth(y, n)
  {
    hide IsLeap;
  }

  /** Dates are ordered like their day numbers. */
  predicate Before(a: Date, b: Date) {
    a.y < b.y || (a.y == b.y && (a.m < b.m || (a.m == b.m && a.d < b.d)))
  }

  lemma OrderOfDays(a: Date, b: Date)
    requires IsDate(a) && IsDate(b)
    ensures Before(a, b) <==> DayNumber(a) < DayNumber(b)
    ensures a == b <==> DayNumber(a) == DayNumber(b)
  {
    if Before(a, b) {
      EarlierDay(a, b);
    } else if a != b {
      EarlierDay(b, a);
    }
  }

  lemma EarlierDay(a: Date, b: Date)
    requires IsDate(a) && IsDate(b) && Before(a, b)
    ensures DayNumber(a) < DayNumber(b)
  {
    hide IsLeap, DaysInMonth, DaysBeforeYear, DaysBeforeMonth;
    DayOfYear(a);
    DayOfYear(b);
    if a.y + 1 < b.y {
      YearsAscend(a.y + 1, b.y);
    } else if a.y == b.y && a.m + 1 < b.m {
      MonthsAscend(a.y, a.m + 1, b.m);
    }
  }

  lemma DayOfDate(t: Date)
    requires IsDate(t)
    ensures DateOf(DayNumber(t)) == t
  {
    hide DateOf, DayNumber, IsDate;
    DateOfDay(DayNumber(t));
    OrderOfDays(DateOf(DayNumber(t)), t);
  }

  // ------------------------------------------------------------ Text

  /** `n` in exactly `w` digits. */
  function Pad(n: nat, w: nat): (s: string)
    ensures |s| == w && AllDigits(s)
  {
    if w == 0 then "" else Pad(n / 10, w - 1) + [Digit(n % 10)]
  }

  lemma {:induction false} PadParses(n: nat, w: nat, bound: nat)
    requires bound == Pow10(w) && n < bound
    ensures ParseDecimal(Pad(n, w)) == n
  {
    if w > 0 {
      PadParses(n / 10, w - 1, Pow10(w - 1));
      var s := Pad(n, w);
      assert s[..w - 1] == Pad(n / 10, w - 1);
    }
  }

  function Pow10(w: nat): nat {
    if w == 0 then 1 else 10 * Pow10(w - 1)
  }

  lemma {:induction false} ParsePads(s: string)
    requires AllDigits(s)
    ensures ParseDecimal(s) < Pow10(|s|) && Pad(ParseDecimal(s), |s|) == s
  {
    if s != [] {
      var front := s[..|s| - 1];
      ParsePads(front);
      assert s == front + [s[|s| - 1]];
      SameDigit(s[|s| - 1]);
    }
  }

  lemma SameDigit(c: char)
    requires IsDigit(c)
    ensures Digit(DigitValue(c)) == c
  {
  }

  function Show(t: Date): string {
    if 0 <= t.y <= 9999 then ShowFour(t.y, t.m, t.d)
    else if 0 <= t.m then
      if t.y < 0 then "-" + Pad(-t.y, 6) + "-" + Pad(t.m, 2) else "+" + Pad(t.y, 6) + "-" + Pad(t.m, 2)
    else ""
  }

  function ShowFour(y: nat, m: int, d: int): string {
    Pad(y, 4) + "-" + Pad(if 0 <= m then m else 0, 2) + "-" + Pad(if 0 <= d then d else 0, 2)
  }

  /** `new Date(n * DAY_MS).toISOString().slice(0, 10)`; None is the RangeError beyond the time range. */
  function Iso(n: int): Option<string> {
    if -100_000_000 <= n <= 100_000_000 then Some(Show(DateOf(n))) else None
  }

  predicate FourDigitForm(s: string) {
    |s| == 10 && s[4] == '-' && s[7] == '-' && AllDigits(s[..4]) && AllDigits(s[5..7]) && AllDigits(s[8..])
  }

  predicate SixDigitForm(s: string) {
    |s| == 10 && s[0] in {'+', '-'} && s[7] == '-' && AllDigits(s[1..7]) && AllDigits(s[8..])
  }

  /**
   Day number of `new Date(s + 'T00:00:00Z')`, None for an invalid date.  Like
   the engine, a day up to 31 is accepted in any month and runs over into the
   next.  The ten-character form with a sign and six digits is a year and month.
   */
  function Parse(s: string): Option<int> {
    if FourDigitForm(s) then
      var y, m, d := ParseDecimal(s[..4]), ParseDecimal(s[5..7]), ParseDecimal(s[8..]);
      if 1 <= m <= 12 && 1 <= d <= 31 then Some(DayNumber(Date(y, m, d))) else None
    else if SixDigitForm(s) then
      var y: int, m := ParseDecimal(s[1..7]), ParseDecimal(s[8..]);
      if 1 <= m <= 12 && !(s[0] == '-' && y == 0) then
        InTimeRange(DayNumber(Date(if s[0] == '-' then -y else y, m, 1)))
      else None
    else None
  }

  function InTimeRange(n: int): Option<int> {
    if -100_000_000 <= n <= 100_000_000 then Some(n) else None
  }

  lemma Powers10()
    ensures Pow10(2) == 100 && Pow10(4) == 10000 && Pow10(6) == 1000000
  {
    assert Pow10(1) == 10 && Pow10(3) == 1000 && Pow10(5) == 100000;
  }

  lemma ShowFourParts(y: nat, m: nat, d: nat)
    requires y < 10000 && m < 100 && d < 100
    ensures var s := ShowFour(y, m, d);
      && FourDigitForm(s) && ParseDecimal(s[..4]) == y && ParseDecimal(s[5..7]) == m && ParseDecimal(s[8..]) == d
  {
    Powers10();
    PadParses(y, 4, 10000);
    PadParses(m, 2, 100);
    PadParses(d, 2, 100);
    var s := ShowFour(y, m, d);
    assert s[..4] == Pad(y, 4) && s[5..7] == Pad(m, 2) && s[8..] == Pad(d, 2);
  }

  lemma FourDigitText(s: string)
    requires FourDigitForm(s)
    ensures var y, m, d := ParseDecimal(s[..4]), ParseDecimal(s[5..7]), ParseDecimal(s[8..]);
      y < 10000 && m < 100 && d < 100 && s == ShowFour(y, m, d)
  {
    Powers10();
    ParsePads(s[..4]);
    ParsePads(s[5..7]);
    ParsePads(s[8..]);
    assert s == s[..4] + ['-'] + s[5..7] + ['-'] + s[8..];
  }

  /** A real date with a four-digit year is shown, and read back, as itself. */
  lemma ShowsAndParses(t: Date)
    requires IsDate(t) && 0 <= t.y <= 9999
    ensures Parse(Show(t)) == Some(DayNumber(t)) && FourDigitForm(Show(t))
    ensures -719528 <= DayNumber(t) <= 2932896 && Iso(DayNumber(t)) == Some(Show(t))
  {
    hide DaysInMonth, DateOf, Pad, ParseDecimal;
    MonthShort(t);
    ShowFourParts(t.y, t.m, t.d);
    DayOfDate(t);
    FourDigitDays(t);
  }

  lemma MonthShort(t: Date)
    requires IsDate(t)
    ensures t.d <= 31
  {
  }

  lemma FourDigitDays(t: Date)
    requires IsDate(t)
    ensures 0 <= t.y <= 9999 <==> -719528 <= DayNumber(t) <= 2932896
  {
    hide DayNumber, IsDate, DaysBeforeYear;
    DayOfYear(t);
    EndsOfCalendar();
    if t.y < 0 && t.y + 1 < 0 { YearsAscend(t.y + 1, 0); }
    if 0 < t.y { YearsAscend(0, t.y); }
    if t.y + 1 < 10000 { YearsAscend(t.y + 1, 10000); }
    if 10000 < t.y { YearsAscend(10000, t.y); }
  }

  lemma EndsOfCalendar()
    ensures DaysBeforeYear(0) == -719528 && DaysBeforeYear(10000) == 2932897
  {
  }

  // ------------------------------------------------------------ Order of text

  /** `a < b` on strings. */
  predicate Less(a: string, b: string) {
    if b == [] then false else if a == [] then true else a[0] < b[0] || (a[0] == b[0] && Less(a[1..], b[1..]))
  }

  predicate AtMost(a: string, b: string) {
    a == b || Less(a, b)
  }

  lemma {:induction false} LessAppend(p: string, q: string, r: string, s: string)
    requires |p| == |q|
    ensures Less(p + r, q + s) <==> Less(p, q) || (p == q && Less(r, s))
  {
    if p == [] {
      assert p + r == r && q + s == s;
    } else {
      assert (p + r)[1..] == p[1..] + r && (q + s)[1..] == q[1..] + s;
      LessAppend(p[1..], q[1..], r, s);
      assert p == q <==> p[0] == q[0] && p[1..] == q[1..] by {
        if p[0] == q[0] && p[1..] == q[1..] { assert p == [p[0]] + p[1..] && q == [q[0]] + q[1..]; }
      }
    }
  }

  lemma {:induction false} LessPad(a: nat, b: nat, w: nat)
    requires a < Pow10(w) && b < Pow10(w)
    ensures Less(Pad(a, w), Pad(b, w)) <==> a < b
    ensures Pad(a, w) == Pad(b, w) <==> a == b
  {
    if w > 0 {
      LessPad(a / 10, b / 10, w - 1);
      var x, y := Digit(a % 10), Digit(b % 10);
      LessAppend(Pad(a / 10, w - 1), Pad(b / 10, w - 1), [x], [y]);
      assert Less([x], [y]) <==> a % 10 < b % 10;
      PadParses(a, w, Pow10(w));
      PadParses(b, w, Pow10(w));
    }
  }

  /** On four-digit dates the order of the texts is the order of the days. */
  lemma TextOrderIsDayOrder(a: Date, b: Date)
    requires IsDate(a) && IsDate(b) && 0 <= a.y <= 9999 && 0 <= b.y <= 9999
    ensures AtMost(Show(a), Show(b)) <==> DayNumber(a) <= DayNumber(b)
  {
    hide Pad, DayNumber, Less, DaysInMonth;
    Powers10();
    MonthShort(a);
    MonthShort(b);
    OrderOfDays(a, b);
    LessPad(a.y, b.y, 4);
    LessPad(a.m, b.m, 2);
    LessPad(a.d, b.d, 2);
    var x, y := Pad(a.m, 2) + "-" + Pad(a.d, 2), Pad(b.m, 2) + "-" + Pad(b.d, 2);
    LessAppend(Pad(a.m, 2) + "-", Pad(b.m, 2) + "-", Pad(a.d, 2), Pad(b.d, 2));
    LessAppend(Pad(a.m, 2), Pad(b.m, 2), "-", "-");
    LessAppend(Pad(a.y, 4) + "-", Pad(b.y, 4) + "-", x, y);
    LessAppend(Pad(a.y, 4), Pad(b.y, 4), "-", "-");
    NotLessItself("-");
    SameBeforeDash(Pad(a.y, 4), Pad(b.y, 4));
    SameBeforeDash(Pad(a.m, 2), Pad(b.m, 2));
    assert Show(a) == Pad(a.y, 4) + "-" + x && Show(b) == Pad(b.y, 4) + "-" + y;
    if Show(a) == Show(b) {
      SameShow(a, b);
    }
  }

  lemma SameBeforeDash(p: string, q: string)
    requires |p| == |q|
    ensures p + "-" == q + "-" <==> p == q
  {
    assert p == (p + "-")[..|p|] && q == (q + "-")[..|q|];
  }

  lemma {:induction false} NotLessItself(s: string)
    ensures !Less(s, s)
  {
    if s != [] {
      NotLessItself(s[1..]);
    }
  }

  lemma SameShow(a: Date, b: Date)
    requires IsDate(a) && IsDate(b) && 0 <= a.y <= 9999 && 0 <= b.y <= 9999 && Show(a) == Show(b)
    ensures a == b
  {
    hide Pad, ParseDecimal;
    MonthShort(a);
    MonthShort(b);
    ShowFourParts(a.y, a.m, a.d);
    ShowFourParts(b.y, b.m, b.d);
  }
}
