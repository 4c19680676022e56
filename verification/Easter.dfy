/**
 `easterSunday` of prisma/seed-data/growth.ts, the anonymous Gregorian
 algorithm, against the rule it computes: Easter is the first Sunday after the
 ecclesiastical full moon, which the golden number and the epact of the
 Gregorian reform give.
 */
module Easter {
  import opened Calendar
  import opened Text
  import LagosTime

  // ------------------------------------------------------------ The algorithm

  function LunarTerm(b: nat): int {
    var f := (b + 8) / 25;
    (b - f + 1) / 3
  }

  /** `h` of the algorithm. */
  function Moon(year: nat): int {
    var a, b := year % 19, year / 100;
    (19 * a + b - b / 4 - LunarTerm(b) + 15) % 30
  }

  /** `l` of the algorithm. */
  function ToSunday(year: nat): int {
    var b, c := year / 100, year % 100;
    (32 + 2 * (b % 4) + 2 * (c / 4) - Moon(year) - c % 4) % 7
  }

  /** `m` of the algorithm. */
  function Correction(year: nat): int {
    (year % 19 + 11 * Moon(year) + 22 * ToSunday(year)) / 451
  }

  function EasterSunday(year: nat): Date {
    var n := Moon(year) + ToSunday(year) - 7 * Correction(year) + 114;
    Date(year, n / 31, n % 31 + 1)
  }

  /** The text `easterSunday` returns; the year is not padded. */
  function EasterText(year: nat): string {
    var t := EasterSunday(year);
    Decimal(year) + "-" + Pad(if 0 <= t.m then t.m else 0, 2) + "-" + Pad(if 0 <= t.d then t.d else 0, 2)
  }

  // ------------------------------------------------------------ The rule

  function GoldenNumber(year: nat): nat {
    year % 19 + 1
  }

  /** The epact, with the two exceptions that keep the moons of a cycle apart. */
  function Epact(year: nat): int {
    var century := year / 100 + 1;
    var solar := 3 * century / 4 - 12;
    var lunar := (8 * century + 5) / 25 - 5;
    var e := (11 * GoldenNumber(year) + 20 + lunar - solar) % 30;
    if (e == 25 && GoldenNumber(year) > 11) || e == 24 then e + 1 else e
  }

  /** Day number of the ecclesiastical full moon on or after 21 March. */
  function FullMoon(year: nat): int {
    var n := 44 - Epact(year);
    DayNumber(Date(year, 3, 1)) + (if n < 21 then n + 30 else n) - 1
  }

  predicate IsSunday(n: int) {
    (n + 4) % 7 == 0
  }

  // ------------------------------------------------------------ Lemmas

  lemma SolarIdentity(b: nat)
    ensures 3 * (b + 1) / 4 == b - b / 4
  {
  }

  lemma LunarIdentity(b: nat)
    ensures LunarTerm(b) == (8 * b + 13) / 25
  {
    var q, r := b / 25, b % 25;
    assert b == 25 * q + r;
    var carry := if r >= 17 then 1 else 0;
    assert (b + 8) / 25 == q + carry;
    assert (b - (b + 8) / 25 + 1) / 3 == 8 * q + (r + 1 - carry) / 3;
    assert (8 * b + 13) / 25 == 8 * q + (8 * r + 13) / 25;
  }

  /** No operand of the algorithm's remainders is negative, so they are plain remainders. */
  lemma OperandsAreNatural(year: nat)
    ensures var a, b, c := year % 19, year / 100, year % 100;
      && 0 <= b - (b + 8) / 25 + 1
      && 0 <= 19 * a + b - b / 4 - LunarTerm(b) + 15
      && 0 <= 32 + 2 * (b % 4) + 2 * (c / 4) - Moon(year) - c % 4
  {
    LunarIdentity(year / 100);
  }

  lemma CorrectionIsSmall(year: nat)
    ensures 0 <= Correction(year) <= 1
    ensures 0 <= Moon(year) + ToSunday(year) - 7 * Correction(year) <= 34
  {
    hide LunarTerm;
    var a, h, l := year % 19, Moon(year), ToSunday(year);
    assert a + 11 * h + 22 * l <= 469;
  }

  /** The full moon the algorithm aims at: `h` days after 21 March, a day less in the two exceptions. */
  function MoonOffset(year: nat): int {
    if Moon(year) == 29 || (Moon(year) == 28 && year % 19 > 10) then Moon(year) - 1 else Moon(year)
  }

  lemma MoonIsFullMoon(year: nat)
    ensures FullMoon(year) == DayNumber(Date(year, 3, 21)) + MoonOffset(year)
  {
    hide LunarTerm;
    var a, b := year % 19, year / 100;
    SolarIdentity(b);
    LunarIdentity(b);
    var s := b - b / 4 - (8 * b + 13) / 25;
    assert Moon(year) == (19 * a + s + 15) % 30;
    var e := (11 * (a + 1) + 20 + ((8 * (b + 1) + 5) / 25 - 5) - (3 * (b + 1) / 4 - 12)) % 30;
    assert e == (11 * a + 38 - s) % 30;
    assert (19 * a + s + 15) + (11 * a + 38 - s) == 30 * (a + 1) + 23;
    Complement(19 * a + s + 15, 11 * a + 38 - s, a + 1);
  }

  lemma Complement(x: int, y: int, k: int)
    requires x + y == 30 * k + 23
    ensures x % 30 == if y % 30 <= 23 then 23 - y % 30 else 53 - y % 30
  {
  }

  /** The algorithm lands in the seven days after that full moon. */
  lemma WithinAWeek(year: nat)
    ensures MoonOffset(year) <= Moon(year) + ToSunday(year) - 7 * Correction(year) <= MoonOffset(year) + 6
  {
    hide Moon, ToSunday;
    MoonRange(year);
  }

  lemma MoonRange(year: nat)
    ensures 0 <= Moon(year) < 30 && 0 <= ToSunday(year) < 7
  {
  }

  lemma DaysFromMarch(year: nat)
    ensures var x := Moon(year) + ToSunday(year) - 7 * Correction(year);
      && IsDate(EasterSunday(year))
      && DayNumber(EasterSunday(year)) == DayNumber(Date(year, 3, 22)) + x
      && EasterSunday(year) == if x <= 9 then Date(year, 3, 22 + x) else Date(year, 4, x - 9)
  {
    hide Moon, ToSunday, Correction, DaysBeforeYear;
    CorrectionIsSmall(year);
  }

  lemma WeekdayOfMarch22(year: nat)
    ensures IsSunday(DayNumber(Date(year, 3, 22)) + Moon(year) + ToSunday(year))
  {
    hide Moon;
    var b, c, h := year / 100, year % 100, Moon(year);
    var d, e, i, k := b / 4, b % 4, c / 4, c % 4;
    assert year == 100 * b + c && b == 4 * d + e && c == 4 * i + k;
    MarchFromCentury(year, b, c, d, e, i, k);
    var s := 32 + 2 * e + 2 * i - h - k;
    var q := s / 7;
    assert ToSunday(year) == s - 7 * q;
    SundaySum(DayNumber(Date(year, 3, 22)), d, e, i, k, h, q);
  }

  /** Day number of 22 March in terms of the algorithm's letters. */
  lemma MarchFromCentury(year: nat, b: nat, c: nat, d: nat, e: nat, i: nat, k: nat)
    requires year == 100 * b + c && b == 4 * d + e && c == 4 * i + k && c < 100 && e < 4 && k < 4
    ensures DayNumber(Date(year, 3, 22)) == 365 * year + 25 * b + i - b + d - 719447
  {
    MarchInYear(year);
    assert year / 4 == 25 * b + i && year / 100 == b && year / 400 == d;
  }

  lemma MarchInYear(year: nat)
    ensures DayNumber(Date(year, 3, 22)) == 365 * year + year / 4 - year / 100 + year / 400 - 719447
  {
    hide IsLeap;
    YearLength(year);
    EveryFourth(year);
    EveryHundredth(year);
    EveryFourHundredth(year);
    LeapByDivisors(year);
    Shifted(year);
  }

  lemma LeapByDivisors(y: int)
    ensures (if IsLeap(y) then 1 else 0)
      == (if y % 4 == 0 then 1 else 0) - (if y % 100 == 0 then 1 else 0) + (if y % 400 == 0 then 1 else 0)
  {
    Centuries(y);
  }

  lemma Shifted(y: int)
    ensures (y - 1968) / 4 == y / 4 - 492 && (y - 1900) / 100 == y / 100 - 19 && (y - 1600) / 400 == y / 400 - 4
  {
  }

  lemma SundaySum(n: int, d: int, e: int, i: int, k: int, h: int, q: int)
    requires var b := 4 * d + e;
      n == 365 * (100 * b + 4 * i + k) + 25 * b + i - b + d - 719447
    ensures IsSunday(n + h + (32 + 2 * e + 2 * i - h - k - 7 * q))
  {
    var total := n + h + (32 + 2 * e + 2 * i - h - k - 7 * q) + 4;
    assert total == 146097 * d + 36526 * e + 1463 * i + 364 * k - 7 * q - 719411;
    assert 146097 == 7 * 20871 && 36526 == 7 * 5218 && 1463 == 7 * 209 && 364 == 7 * 52 && 719411 == 7 * 102773;
    assert total == 7 * (20871 * d + 5218 * e + 209 * i + 52 * k - q - 102773);
  }

  /** For every year: a Sunday, from 22 March to 25 April. */
  lemma EasterIsASundayInRange(year: nat)
    ensures var t := EasterSunday(year);
      && IsDate(t) && t.y == year && IsSunday(DayNumber(t))
      && !Before(t, Date(year, 3, 22)) && !Before(Date(year, 4, 25), t)
  {
    hide Moon, ToSunday, Correction, DayNumber;
    DaysFromMarch(year);
    CorrectionIsSmall(year);
    WeekdayOfMarch22(year);
  }

  /** For every year: the first Sunday after the ecclesiastical full moon. */
  lemma EasterFollowsFullMoon(year: nat)
    ensures var n := DayNumber(EasterSunday(year));
      && IsSunday(n) && FullMoon(year) < n
      && forall k :: FullMoon(year) < k < n ==> !IsSunday(k)
  {
    hide Moon, ToSunday, Correction, DaysBeforeYear, Epact, EasterSunday;
    EasterIsASundayInRange(year);
    MoonIsFullMoon(year);
    WithinAWeek(year);
    DaysFromMarch(year);
    NoSundayBetween(DayNumber(EasterSunday(year)), FullMoon(year));
  }

  lemma NoSundayBetween(n: int, from: int)
    requires IsSunday(n) && n - 7 <= from
    ensures forall k :: from < k < n ==> !IsSunday(k)
  {
  }

  /** For four-digit years the text is the ISO date of that day. */
  lemma EasterTextIsIsoDate(year: nat)
    requires 1000 <= year <= 9999
    ensures EasterText(year) == Show(EasterSunday(year)) && LagosTime.IsIsoDate(EasterText(year))
  {
    hide Moon, ToSunday, Correction, DayNumber, DaysInMonth, DateOf, Pad;
    EasterIsASundayInRange(year);
    FourDigits(year);
    assert Show(EasterSunday(year)) == EasterText(year);
    LagosTime.IsoDatesAreRealDates(EasterText(year));
  }

  lemma FourDigits(n: nat)
    requires 1000 <= n <= 9999
    ensures Decimal(n) == Pad(n, 4)
  {
    hide Digit, Pad, Decimal;
    OneDigit(n / 1000);
    DigitSteps(n / 100, 1);
    DigitSteps(n / 10, 2);
    DigitSteps(n, 3);
    assert n / 100 / 10 == n / 1000 && n / 10 / 10 == n / 100;
  }

  lemma DigitSteps(n: nat, w: nat)
    requires 10 <= n
    ensures Decimal(n) == Decimal(n / 10) + [Digit(n % 10)] && Pad(n, w + 1) == Pad(n / 10, w) + [Digit(n % 10)]
  {
    hide Digit;
  }

  lemma OneDigit(n: nat)
    requires n < 10
    ensures Decimal(n) == Pad(n, 1)
  {
    assert Pad(n, 1) == "" + [Digit(n)];
  }
}
