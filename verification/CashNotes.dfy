/**
 `denominations` of prisma/seed-data/operations.ts: the greedy naira note
 breakdown of a cash count.  The notes do not divide one another (500 and 200,
 50 and 20), so that greedy is optimal has to be proved.
 */
module CashNotes {
  const NOTES: seq<nat> := [1000, 500, 200, 100, 50, 20, 10, 5]

  /** Value and number of notes of a breakdown, one count per note. */
  function Value(counts: seq<int>): int
    requires |counts| == 8
  {
    1000 * counts[0] + 500 * counts[1] + 200 * counts[2] + 100 * counts[3]
    + 50 * counts[4] + 20 * counts[5] + 10 * counts[6] + 5 * counts[7]
  }

  function Total(counts: seq<int>): int
    requires |counts| == 8
  {
    counts[0] + counts[1] + counts[2] + counts[3] + counts[4] + counts[5] + counts[6] + counts[7]
  }

  /** The remainder before note `i` is handed out. */
  function Left(naira: int, i: nat): int
    requires i <= 8
  {
    if i == 0 then naira else Left(naira, i - 1) % NOTES[i - 1]
  }

  /** The counts for an amount of whole naira: every note takes what the larger ones leave. */
  ghost predicate Greedy(naira: int, counts: seq<int>) {
    |counts| == 8 && forall i :: 0 <= i < 8 ==> counts[i] == Left(naira, i) / NOTES[i]
  }

  /** `Math.floor(kobo / 100)` */
  function Naira(kobo: real): int {
    (kobo / 100.0).Floor
  }

  /** For every natural amount: worth it to the last five naira, in as few notes as can be. */
  method Denominations(kobo: real) returns (counts: seq<int>)
    ensures Greedy(Naira(kobo), counts)
    ensures Value(counts) <= Naira(kobo) < Value(counts) + 5
    ensures (100 * Value(counts)) as real <= kobo < (100 * Value(counts) + 500) as real
    ensures forall i :: 1 <= i < 8 ==> 0 <= counts[i]
    ensures 0.0 <= kobo ==> Natural(counts)
    ensures forall other :: 0.0 <= kobo && Natural(other) && Value(other) == Value(counts) ==>
      Total(counts) <= Total(other)
  {
    hide Left, NOTES, Value, Total;
    var naira := Naira(kobo);
    ghost var all := naira;
    counts := [];
    LeftStart(naira);
    NotesArePositive();
    for i := 0 to 8
      invariant |counts| == i && naira == Left(all, i)
      invariant forall j :: 0 <= j < i ==> counts[j] == Left(all, j) / NOTES[j]
    {
      LeftStep(all, i);
      var n := naira / NOTES[i];
      counts := counts + [n];
      naira := naira - n * NOTES[i];
    }
    Conserves(all, counts);
    if 0.0 <= kobo {
      forall other | Natural(other) && Value(other) == Value(counts)
        ensures Total(counts) <= Total(other)
      {
        GreedyIsOptimal(all, counts, other);
      }
    }
  }

  lemma LeftStart(naira: int)
    ensures Left(naira, 0) == naira
  {
  }

  lemma NotesArePositive()
    ensures |NOTES| == 8 && forall i :: 0 <= i < 8 ==> 0 < NOTES[i]
  {
  }

  lemma Conserves(naira: int, counts: seq<int>)
    requires Greedy(naira, counts)
    ensures Value(counts) + Left(naira, 8) == naira && 0 <= Left(naira, 8) < 5
    ensures forall i :: 1 <= i < 8 ==> 0 <= counts[i]
    ensures 0 <= naira ==> 0 <= counts[0]
  {
    hide Left;
    LeftStart(naira);
    LeftStep(naira, 0);
    LeftStep(naira, 1);
    LeftStep(naira, 2);
    LeftStep(naira, 3);
    LeftStep(naira, 4);
    LeftStep(naira, 5);
    LeftStep(naira, 6);
    LeftStep(naira, 7);
  }

  lemma LeftStep(naira: int, i: nat)
    requires i < 8
    ensures Left(naira, i) == NOTES[i] * (Left(naira, i) / NOTES[i]) + Left(naira, i + 1)
    ensures 0 <= Left(naira, i + 1) < NOTES[i]
  {
  }

  // ------------------------------------------------------------ Fewest notes

  /** Notes for less than 50 naira, counted in fives. */
  function Tiny(v: nat): nat
    requires v < 10
  {
    v / 4 + v % 4 / 2 + v % 4 % 2
  }

  /** Notes up to 50 for less than 100 naira, counted in fives. */
  function Small(u: nat): nat
    requires u < 20
  {
    u / 10 + Tiny(u % 10)
  }

  /** Notes of 100, 200 and 500 for less than 1000 naira, counted in hundreds. */
  function Medium(s: nat): nat
    requires s < 10
  {
    s / 5 + s % 5 / 2 + s % 5 % 2
  }

  /** Notes from 100 on, counted in hundreds. */
  function Large(q: nat): nat {
    q / 10 + Medium(q % 10)
  }

  /** Notes greedy needs for `u` times five naira. */
  function Fewest(u: nat): nat {
    Large(u / 20) + Small(u % 20)
  }

  lemma TinyStep(v: nat, n: nat)
    requires v < 10 && n in {1, 2, 4}
    ensures v + n < 10 ==> Tiny(v + n) <= Tiny(v) + 1
    ensures 10 <= v + n ==> Tiny(v + n - 10) <= Tiny(v)
  {
    if n == 1 { TinyOne(v); } else if n == 2 { TinyTwo(v); } else { TinyFour(v); }
  }

  lemma TinyOne(v: nat)
    requires v < 10
    ensures v < 9 ==> Tiny(v + 1) <= Tiny(v) + 1
    ensures v == 9 ==> Tiny(0) <= Tiny(v)
  {
  }

  lemma TinyTwo(v: nat)
    requires v < 10
    ensures v < 8 ==> Tiny(v + 2) <= Tiny(v) + 1
    ensures 8 <= v ==> Tiny(v - 8) <= Tiny(v)
  {
  }

  lemma TinyFour(v: nat)
    requires v < 10
    ensures v < 6 ==> Tiny(v + 4) <= Tiny(v) + 1
    ensures 6 <= v ==> Tiny(v - 6) <= Tiny(v)
  {
  }

  lemma MediumStep(s: nat, n: nat)
    requires s < 10 && n in {1, 2, 5}
    ensures s + n < 10 ==> Medium(s + n) <= Medium(s) + 1
    ensures 10 <= s + n ==> Medium(s + n - 10) <= Medium(s)
  {
    if n == 1 { MediumOne(s); } else if n == 2 { MediumTwo(s); } else { MediumFive(s); }
  }

  lemma MediumOne(s: nat)
    requires s < 10
    ensures s < 9 ==> Medium(s + 1) <= Medium(s) + 1
    ensures s == 9 ==> Medium(0) <= Medium(s)
  {
  }

  lemma MediumTwo(s: nat)
    requires s < 10
    ensures s < 8 ==> Medium(s + 2) <= Medium(s) + 1
    ensures 8 <= s ==> Medium(s - 8) <= Medium(s)
  {
  }

  lemma MediumFive(s: nat)
    requires s < 10
    ensures s < 5 ==> Medium(s + 5) <= Medium(s) + 1
    ensures 5 <= s ==> Medium(s - 5) <= Medium(s)
  {
  }

  lemma OneSmallMore(u: nat, n: nat)
    requires u < 20 && n in {1, 2, 4, 10}
    ensures u + n < 20 ==> Small(u + n) <= Small(u) + 1
    ensures u + n >= 20 ==> Small(u + n - 20) <= Small(u)
  {
    hide Tiny;
    var a, v := u / 10, u % 10;
    assert u == 10 * a + v;
    if n < 10 { TinyStep(v, n); }
    SmallOfDigits(a, v);
    if u + n < 20 {
      if v + n < 10 { SmallOfDigits(a, v + n); } else { SmallOfDigits(a + 1, v + n - 10); }
    } else if n < 10 {
      SmallOfDigits(0, v + n - 10);
    } else {
      SmallOfDigits(0, v);
    }
  }

  lemma SmallOfDigits(a: nat, v: nat)
    requires a < 2 && v < 10
    ensures Small(10 * a + v) == a + Tiny(v)
  {
    hide Tiny;
  }

  lemma OneLargeMore(q: nat, n: nat)
    requires n in {1, 2, 5, 10}
    ensures Large(q + n) <= Large(q) + 1
  {
    hide Medium, Large;
    var t, s := q / 10, q % 10;
    assert q == 10 * t + s;
    LargeOfDigits(t, s);
    if n == 10 {
      LargeOfDigits(t + 1, s);
    } else {
      MediumStep(s, n);
      if s + n < 10 { LargeOfDigits(t, s + n); } else { LargeOfDigits(t + 1, s + n - 10); }
    }
  }

  lemma LargeOfDigits(t: nat, s: nat)
    requires s < 10
    ensures Large(10 * t + s) == t + Medium(s)
  {
    assert (10 * t + s) / 10 == t && (10 * t + s) % 10 == s;
  }

  /** One more note of any kind raises the fewest count by at most one. */
  lemma OneNoteMore(u: nat, note: nat)
    requires note in {1, 2, 4, 10, 20, 40, 100, 200}
    ensures Fewest(u + note) <= Fewest(u) + 1
  {
    hide Small, Large;
    var q, r := u / 20, u % 20;
    assert u == 20 * q + r;
    if note < 20 {
      OneSmallMore(r, note);
      OneLargeMore(q, 1);
      if r + note < 20 {
        assert (u + note) / 20 == q && (u + note) % 20 == r + note;
      } else {
        assert u + note == 20 * (q + 1) + (r + note - 20);
        assert (u + note) / 20 == q + 1 && (u + note) % 20 == r + note - 20;
      }
    } else {
      var n := note / 20;
      assert note == 20 * n;
      OneLargeMore(q, n);
      assert u + note == 20 * (q + n) + r;
      assert (u + note) / 20 == q + n && (u + note) % 20 == r;
    }
  }

  ghost predicate Natural(counts: seq<int>) {
    |counts| == 8 && forall i :: 0 <= i < 8 ==> 0 <= counts[i]
  }

  /** No breakdown gets by with fewer notes. */
  lemma {:induction false} NoBreakdownIsShorter(counts: seq<int>)
    requires Natural(counts)
    ensures 0 <= Value(counts) && Value(counts) % 5 == 0
    ensures Fewest(Value(counts) / 5) <= Total(counts)
    decreases Total(counts)
  {
    hide Fewest;
    if i: nat :| i < 8 && 0 < counts[i] {
      hide Value, Total, NOTES;
      var fewer := counts[i := counts[i] - 1];
      OneLess(counts, i);
      NoBreakdownIsShorter(fewer);
      var note := NOTES[i] / 5;
      NotesInFives(i);
      assert Value(counts) / 5 == Value(fewer) / 5 + note;
      OneNoteMore(Value(fewer) / 5, note);
    } else {
      NoNotes();
      assert Value(counts) == 0 && Total(counts) == 0;
    }
  }

  lemma NotesInFives(i: nat)
    requires i < 8
    ensures NOTES[i] == 5 * (NOTES[i] / 5) && NOTES[i] / 5 in {1, 2, 4, 10, 20, 40, 100, 200}
  {
  }

  lemma NoNotes()
    ensures Fewest(0) == 0
  {
    hide Tiny, Medium, Small, Large;
    LargeOfDigits(0, 0);
    SmallOfDigits(0, 0);
    NoSmallNotes();
  }

  lemma NoSmallNotes()
    ensures Tiny(0) == 0 && Medium(0) == 0
  {
    var v: nat := 0;
    assert v % 4 == 0 && v / 4 == 0;
    assert v % 5 == 0 && v / 5 == 0;
  }

  lemma OneLess(counts: seq<int>, i: nat)
    requires Natural(counts) && i < 8 && 0 < counts[i]
    ensures var fewer := counts[i := counts[i] - 1];
      && Natural(fewer) && Value(fewer) + NOTES[i] == Value(counts) && Total(fewer) + 1 == Total(counts)
      && 0 <= Total(fewer)
  {
  }

  /** Greedy needs exactly the fewest. */
  lemma GreedyCount(naira: nat, counts: seq<int>)
    requires Greedy(naira, counts)
    ensures 0 <= Value(counts) && Total(counts) == Fewest(Value(counts) / 5)
  {
    hide Small, Large, Left;
    Conserves(naira, counts);
    LargeNotes(naira, counts);
    SmallNotes(Left(naira, 4), counts, naira);
    var q, x := naira / 100, Left(naira, 4);
    assert naira == 100 * q + x;
    var u := Value(counts) / 5;
    assert Value(counts) == naira - Left(naira, 8);
    assert u == 20 * q + x / 5 by { FivesOf(naira, q, x, Value(counts), Left(naira, 8)); }
    assert u / 20 == q && u % 20 == x / 5;
  }

  lemma FivesOf(naira: nat, q: nat, x: nat, value: int, rest: nat)
    requires naira == 100 * q + x && value == naira - rest && rest == x % 5 && x < 100
    ensures value / 5 == 20 * q + x / 5
  {
  }

  lemma LargeNotes(naira: nat, counts: seq<int>)
    requires Greedy(naira, counts)
    ensures Left(naira, 4) == naira % 100 && counts[0] + counts[1] + counts[2] + counts[3] == Large(naira / 100)
  {
    LeftFour(naira);
    var t, w := naira / 1000, naira % 1000;
    var s, x := w / 100, w % 100;
    assert naira == 1000 * t + w && w == 100 * s + x;
    assert naira / 100 == 10 * t + s;
    LargeOfDigits(t, s);
    assert w / 500 == s / 5 && w % 500 == 100 * (s % 5) + x;
    assert w % 500 / 200 == s % 5 / 2 && w % 500 % 200 == 100 * (s % 5 % 2) + x;
    assert w % 500 % 200 / 100 == s % 5 % 2;
  }

  lemma LeftFour(naira: nat)
    ensures Left(naira, 0) == naira && Left(naira, 1) == naira % 1000 && Left(naira, 2) == naira % 1000 % 500
    ensures Left(naira, 3) == naira % 1000 % 500 % 200 && Left(naira, 4) == naira % 1000 % 500 % 200 % 100
  {
    assert Left(naira, 1) == Left(naira, 0) % 1000;
    assert Left(naira, 2) == Left(naira, 1) % 500;
    assert Left(naira, 3) == Left(naira, 2) % 200;
    assert Left(naira, 4) == Left(naira, 3) % 100;
  }

  lemma SmallNotes(x: nat, counts: seq<int>, naira: nat)
    requires Greedy(naira, counts)
    requires x == Left(naira, 4) && x < 100
    ensures Left(naira, 8) == x % 5 && counts[4] + counts[5] + counts[6] + counts[7] == Small(x / 5)
  {
    assert counts[4] == x / 50 && counts[5] == x % 50 / 20 && counts[6] == x % 50 % 20 / 10
        && counts[7] == x % 50 % 20 % 10 / 5 && Left(naira, 8) == x % 50 % 20 % 10 % 5 by {
      assert Left(naira, 5) == x % 50;
      assert Left(naira, 6) == Left(naira, 5) % 20;
      assert Left(naira, 7) == Left(naira, 6) % 10;
      assert Left(naira, 8) == Left(naira, 7) % 5;
    }
    InFives(x);
  }

  lemma InFives(x: nat)
    requires x < 100
    ensures x / 50 + x % 50 / 20 + x % 50 % 20 / 10 + x % 50 % 20 % 10 / 5 == Small(x / 5)
    ensures x % 50 % 20 % 10 % 5 == x % 5
  {
    var u, r := x / 5, x % 5;
    assert x == 5 * u + r;
    assert x / 50 == u / 10 && x % 50 == 5 * (u % 10) + r;
    assert x % 50 / 20 == u % 10 / 4 && x % 50 % 20 == 5 * (u % 10 % 4) + r;
    assert x % 50 % 20 / 10 == u % 10 % 4 / 2 && x % 50 % 20 % 10 == 5 * (u % 10 % 4 % 2) + r;
  }

  /** For every amount greedy uses the fewest notes that make what it makes. */
  lemma GreedyIsOptimal(naira: nat, counts: seq<int>, other: seq<int>)
    requires Greedy(naira, counts)
    requires Natural(other) && Value(other) == Value(counts)
    ensures Total(counts) <= Total(other)
  {
    GreedyCount(naira, counts);
    NoBreakdownIsShorter(other);
  }
}
