/**
 Amounts in words (src/common/utils/money-words.ts) and a reader that gets the
 amount back from the words.
 */
module MoneyWords {
  import opened Text
  import opened Wrappers

  const ONES: seq<string> := [
    "", "one", "two", "three", "four", "five", "six", "seven", "eight", "nine", "ten",
    "eleven", "twelve", "thirteen", "fourteen", "fifteen", "sixteen", "seventeen", "eighteen", "nineteen"]
  const TENS: seq<string> := ["", "", "twenty", "thirty", "forty", "fifty", "sixty", "seventy", "eighty", "ninety"]
  const SCALES: seq<string> := ["", "thousand", "million", "billion", "trillion"]

  function One(n: nat): string
    requires n < 20
  {
    ONES[n]
  }

  function Ten(n: nat): string
    requires n < 10
  {
    TENS[n]
  }

  /** Beyond the table there is no scale word. */
  function Scale(i: nat): string {
    if i < 5 then SCALES[i] else ""
  }

  // ------------------------------------------------------------ The words

  function Tens(r: nat): string
    requires r < 100
  {
    if r < 20 then One(r) else if r % 10 == 0 then Ten(r / 10) else Ten(r / 10) + "-" + One(r % 10)
  }

  function Group(n: nat): string
    requires n < 1000
  {
    if n < 100 then Tens(n)
    else if n % 100 == 0 then One(n / 100) + " " + "hundred"
    else One(n / 100) + " " + "hundred" + " " + "and" + " " + Tens(n % 100)
  }

  /** A group of three digits with its scale. */
  function Scaled(g: nat, i: nat): string
    requires g < 1000
  {
    if Scale(i) == "" then Group(g) else Group(g) + " " + Scale(i)
  }

  /** The groups of `n`, the lowest of scale `i`, without those that are zero. */
  function Groups(n: nat, i: nat): seq<string> {
    if n == 0 then [] else Groups(n / 1000, i + 1) + if n % 1000 == 0 then [] else [Scaled(n % 1000, i)]
  }

  function Whole(n: nat): string {
    if n == 0 then "zero" else Join(Groups(n, 0), ", ")
  }

  function Upper(c: char): char {
    if 'a' <= c <= 'z' then c - 'a' + 'A' else c
  }

  function Capital(s: string): string {
    if s == [] then [] else [Upper(s[0])] + s[1..]
  }

  function Abs(kobo: int): nat {
    if kobo < 0 then -kobo else kobo
  }

  function Unsigned(kobo: nat): string {
    var naira := Whole(kobo / 100) + " " + "naira";
    (if kobo % 100 == 0 then naira else naira + ", " + (Whole(kobo % 100) + " " + "kobo")) + " " + "only"
  }

  /** `Math.trunc`: the whole kobo, towards zero. */
  function Trunc(kobo: real): int {
    if kobo < 0.0 then -(-kobo).Floor else kobo.Floor
  }

  /** The sign is that of the amount itself, also of one that truncates to nothing. */
  function Amount(kobo: real): string {
    var whole := Unsigned(Abs(Trunc(kobo)));
    Capital(if kobo < 0.0 then "minus" + " " + whole else whole)
  }

  /** The part of a kobo is cut off, towards zero. */
  lemma TruncCuts(kobo: real)
    ensures 0.0 <= kobo ==> Trunc(kobo) as real <= kobo < (Trunc(kobo) + 1) as real
    ensures kobo < 0.0 ==> (Trunc(kobo) - 1) as real < kobo <= Trunc(kobo) as real
  {
  }

  // ------------------------------------------------------------ The operations

  method BelowThousand(n: nat) returns (s: string)
    requires n < 1000
    ensures s == Group(n)
  {
    hide One, Ten, Join;
    var parts: seq<string> := [];
    var h, r := n / 100, n % 100;
    if h != 0 {
      parts := parts + [One(h) + " " + "hundred"];
    }
    if r != 0 {
      var words := if r < 20 then One(r) else Ten(r / 10) + if r % 10 != 0 then "-" + One(r % 10) else "";
      assert words == Tens(r);
      parts := parts + [if h != 0 then "and" + " " + words else words];
    }
    s := Join(parts, " ");
    JoinsGroup(h, r, parts);
  }

  lemma JoinsGroup(h: nat, r: nat, parts: seq<string>)
    requires h < 10 && r < 100
    requires parts == (if h == 0 then [] else [One(h) + " " + "hundred"])
      + (if r == 0 then [] else [if h != 0 then "and" + " " + Tens(r) else Tens(r)])
    ensures Join(parts, " ") == Group(100 * h + r)
  {
    hide One, Tens, Join;
    var n := 100 * h + r;
    assert n / 100 == h && n % 100 == r;
    if h == 0 && r == 0 {
      NoHundreds();
      assert parts == [];
    } else if h == 0 {
      JoinOne(Tens(r), " ");
      assert parts == [Tens(r)];
    } else {
      var first := One(h) + " " + "hundred";
      JoinOne(first, " ");
      if r == 0 {
        assert parts == [first];
      } else {
        var second := "and" + " " + Tens(r);
        assert parts == [first, second];
        JoinTwo(first, second, " ");
        assert first + " " + second == first + " " + "and" + " " + Tens(r);
      }
    }
  }

  lemma JoinTwo(first: string, second: string, sep: string)
    ensures Join([first, second], sep) == first + sep + second
  {
    assert [first, second][1..] == [second];
  }

  lemma NoHundreds()
    ensures Join([], " ") == Tens(0) == ""
  {
  }

  method IntegerWords(n: nat) returns (s: string)
    ensures s == Whole(n)
  {
    hide Group, Scale, Join;
    if n == 0 {
      return "zero";
    }
    var left, i, groups := n, 0, [];
    assert Groups(n, 0) + [] == Groups(n, 0);
    while left > 0
      invariant Groups(n, 0) == Groups(left, i) + groups
    {
      var g, rest := left % 1000, left / 1000;
      if g != 0 {
        var words := BelowThousand(g);
        if Scale(i) != "" {
          words := words + " " + Scale(i);
        }
        assert words == Scaled(g, i);
        assert Groups(rest, i + 1) + [words] + groups == Groups(rest, i + 1) + ([words] + groups);
        groups := [words] + groups;
      } else {
        assert Groups(left, i) == Groups(rest, i + 1);
      }
      left := rest;
      i := i + 1;
    }
    assert Groups(left, i) + groups == groups;
    s := Join(groups, ", ");
  }

  /** The words of every amount below ten to the seventeenth kobo give the amount back. */
  method AmountInWords(kobo: real) returns (s: string)
    ensures s == Amount(kobo)
    ensures Abs(Trunc(kobo)) < LIMIT ==> ReadAmount(s) == Some(Trunc(kobo))
  {
    hide Whole, ReadAmount, Capital, Trunc;
    var abs := Abs(Trunc(kobo));
    var naira, k := abs / 100, abs % 100;
    var words := IntegerWords(naira);
    s := words + " " + "naira";
    if k != 0 {
      words := IntegerWords(k);
      s := s + ", " + (words + " " + "kobo");
    }
    s := s + " " + "only";
    assert s == Unsigned(abs);
    if kobo < 0.0 {
      s := "minus" + " " + s;
    }
    s := Capital(s);
    assert s == Amount(kobo) by { hide Unsigned; }
    if Abs(Trunc(kobo)) < LIMIT {
      hide Amount;
      AmountsReadBack(kobo);
    }
  }

  // ------------------------------------------------------------ The reader

  const LIMIT: nat := 100_000_000_000_000_000

  const WORDS: nat := 38

  /** The vocabulary: 0 to 19, the tens, hundred, the scales and the five words around them. */
  function Word(k: nat): string
    requires k < WORDS
  {
    if k == 0 then "zero" else if k < 20 then One(k) else if k < 28 then Ten(k - 18)
    else if k == 28 then "hundred" else if k < 33 then Scale(k - 28)
    else if k == 33 then "and" else if k == 34 then "naira" else if k == 35 then "kobo"
    else if k == 36 then "only" else "minus"
  }

  /** Where a word would stand in the vocabulary, told by its length and a few letters. */
  function Place(w: string): nat
    requires 3 <= |w|
  {
    if |w| == 3 then
      if w[0] == 'o' then 1 else if w[0] == 's' then 6 else if w[0] == 'a' then 33 else if w[1] == 'w' then 2 else 10
    else if |w| == 4 then
      if w[0] == 'z' then 0 else if w[0] == 'n' then 9 else if w[0] == 'k' then 35 else if w[0] == 'o' then 36
      else if w[1] == 'o' then 4 else 5
    else if |w| == 5 then
      if w[0] == 't' then 3 else if w[0] == 'e' then 8 else if w[0] == 'n' then 34 else if w[0] == 'm' then 37
      else if w[0] == 's' then if w[1] == 'e' then 7 else 24
      else if w[1] == 'o' then 22 else 23
    else if |w| == 6 then
      if w[0] == 'n' then 27 else if w[0] == 'e' then if w[1] == 'l' then 11 else 26
      else if w[1] == 'h' then 21 else if w[3] == 'l' then 12 else 20
    else if |w| == 7 then
      if w[0] == 'f' then 15 else if w[0] == 'h' then 28 else if w[0] == 'm' then 30 else if w[0] == 'b' then 31
      else if w[1] == 'i' then 16 else 25
    else if |w| == 8 then
      if w[0] == 'f' then 14 else if w[0] == 'e' then 18 else if w[0] == 'n' then 19
      else if w[1] == 'r' then 32 else if w[2] == 'i' then 13 else 29
    else 17
  }

  function Lookup(w: string): (r: Option<nat>)
    ensures r.Some? ==> r.value < WORDS && Word(r.value) == w
  {
    if 3 <= |w| && Place(w) < WORDS && Word(Place(w)) == w then Some(Place(w)) else None
  }

  datatype Reader = Reader(minus: bool, naira: nat, kobo: nat, total: nat, group: nat)

  function Thousands(i: nat): nat {
    if i == 0 then 1 else 1000 * Thousands(i - 1)
  }

  function Step(st: Reader, k: nat): Reader
    requires k < WORDS
  {
    if k < 20 then st.(group := st.group + k)
    else if k < 28 then st.(group := st.group + 10 * (k - 18))
    else if k == 28 then st.(group := 100 * st.group)
    else if k < 33 then st.(total := st.total + st.group * Thousands(k - 28), group := 0)
    else if k == 34 then st.(naira := st.total + st.group, total := 0, group := 0)
    else if k == 35 then st.(kobo := st.total + st.group, total := 0, group := 0)
    else if k == 37 then st.(minus := true)
    else st
  }

  /** Small letters, no commas, blanks for hyphens. */
  function Clean(s: string): string {
    if s == [] then []
    else (if s[0] == ',' then [] else if s[0] == '-' then " " else [LowerChar(s[0])]) + Clean(s[1..])
  }

  function Run(words: seq<string>, st: Reader): Option<Reader> {
    if words == [] then Some(st)
    else
      match Lookup(words[0])
      case None => None
      case Some(k) => Run(words[1..], Step(st, k))
  }

  function Read(text: string, st: Reader): Option<Reader> {
    Run(Split(Clean(text), ' '), st)
  }

  const START := Reader(false, 0, 0, 0, 0)

  function ReadAmount(text: string): Option<int> {
    match Read(text, START)
    case None => None
    case Some(st) => Some(if st.minus then -(100 * st.naira + st.kobo) else 100 * st.naira + st.kobo)
  }

  // ------------------------------------------------------------ Reading in steps

  lemma {:induction false} CleanAppend(a: string, b: string)
    ensures Clean(a + b) == Clean(a) + Clean(b)
  {
    if a == [] {
      assert a + b == b;
    } else {
      assert (a + b)[1..] == a[1..] + b;
      CleanAppend(a[1..], b);
    }
  }

  lemma {:induction false} SplitAppend(a: string, b: string)
    ensures Split(a + " " + b, ' ') == Split(a, ' ') + Split(b, ' ')
  {
    var s := a + " " + b;
    if a == [] {
      assert s[1..] == b;
    } else {
      assert s[1..] == a[1..] + " " + b;
      SplitAppend(a[1..], b);
    }
  }

  lemma {:induction false} RunAppend(a: seq<string>, b: seq<string>, st: Reader)
    ensures Run(a + b, st) == match Run(a, st) case None => None case Some(t) => Run(b, t)
  {
    hide Lookup, Step;
    if a == [] {
      assert a + b == b;
    } else {
      assert (a + b)[1..] == a[1..] + b;
      if Lookup(a[0]).Some? { RunAppend(a[1..], b, Step(st, Lookup(a[0]).value)); }
    }
  }

  lemma CleanSeparators()
    ensures Clean(" ") == " " && Clean("-") == " " && Clean(", ") == " "
  {
    assert ", "[1..] == " ";
  }

  /** Reading one text and then another is reading both with a separator between. */
  lemma ReadBoth(a: string, sep: string, b: string, st: Reader, mid: Reader)
    requires sep == " " || sep == "-" || sep == ", "
    requires Read(a, st) == Some(mid)
    ensures Read(a + sep + b, st) == Read(b, mid)
  {
    hide Clean, Split, Run;
    CleanSeparators();
    CleanAppend(a + sep, b);
    CleanAppend(a, sep);
    SplitAppend(Clean(a), Clean(b));
    RunAppend(Split(Clean(a), ' '), Split(Clean(b), ' '), st);
  }

  predicate Letters(w: string) {
    forall i :: 0 <= i < |w| ==> 'a' <= w[i] <= 'z'
  }

  lemma {:induction false} LettersAreClean(w: string)
    requires Letters(w)
    ensures Clean(w) == w && ' ' !in w
  {
    if w != [] {
      LettersAreClean(w[1..]);
      assert w == [w[0]] + w[1..];
    }
  }

  /** Every word of the vocabulary stands at its place. */
  lemma WordInPlace(k: nat)
    requires k < WORDS
    ensures Letters(Word(k)) && 3 <= |Word(k)| && Place(Word(k)) == k
  {
    if k < 20 { if k > 0 { OneInPlace(k); } else { ZeroInPlace(); } }
    else if k < 28 { TenInPlace(k - 18); }
    else if 28 < k < 33 { ScaleInPlace(k - 28); }
    else { OtherInPlace(k); }
  }

  lemma ZeroInPlace()
    ensures Letters("zero") && Place("zero") == 0
  {
  }

  lemma OneInPlace(n: nat)
    requires 0 < n < 20
    ensures Letters(One(n)) && 3 <= |One(n)| && Place(One(n)) == n
  {
    hide Letters, One, Place;
    if n < 10 { UnitInPlace(n); } else { TeenInPlace(n); }
  }

  lemma UnitInPlace(n: nat)
    requires 0 < n < 10
    ensures Letters(One(n)) && 3 <= |One(n)| && Place(One(n)) == n
  {
  }

  lemma TeenInPlace(n: nat)
    requires 10 <= n < 20
    ensures Letters(One(n)) && 3 <= |One(n)| && Place(One(n)) == n
  {
  }

  lemma TenInPlace(n: nat)
    requires 2 <= n < 10
    ensures Letters(Ten(n)) && 3 <= |Ten(n)| && Place(Ten(n)) == n + 18
  {
  }

  lemma ScaleInPlace(i: nat)
    requires 1 <= i < 5
    ensures Letters(Scale(i)) && 3 <= |Scale(i)| && Place(Scale(i)) == i + 28
  {
  }

  lemma OtherInPlace(k: nat)
    requires k == 28 || 33 <= k < WORDS
    ensures Letters(Word(k)) && 3 <= |Word(k)| && Place(Word(k)) == k
  {
  }

  lemma ReadWord(k: nat, st: Reader)
    requires k < WORDS
    ensures Read(Word(k), st) == Some(Step(st, k))
  {
    hide Word, Place, Letters, Clean, Split, Step;
    var w := Word(k);
    WordInPlace(k);
    LettersAreClean(w);
    SplitNone(w, ' ');
    assert Run([w], st) == Some(Step(st, k)) by {
      assert Lookup(w) == Some(k);
      assert [w][1..] == [];
    }
  }

  // ------------------------------------------------------------ Reading an amount

  lemma TensRead(r: nat, st: Reader)
    requires 0 < r < 100
    ensures Read(Tens(r), st) == Some(st.(group := st.group + r))
  {
    hide Read, Place, One, Ten, Scale;
    if r < 20 {
      ReadWord(r, st);
    } else {
      var t, o := r / 10, r % 10;
      ReadWord(t + 18, st);
      if o != 0 {
        var mid := st.(group := st.group + 10 * t);
        ReadWord(o, mid);
        ReadBoth(Ten(t), "-", One(o), st, mid);
      }
    }
  }

  lemma GroupReads(n: nat, st: Reader)
    requires 0 < n < 1000 && st.group == 0
    ensures Read(Group(n), st) == Some(st.(group := n))
  {
    hide Read, Place, One, Ten, Scale, Tens;
    if n < 100 {
      TensRead(n, st);
    } else {
      var h, r := n / 100, n % 100;
      var first, hundreds := st.(group := h), st.(group := 100 * h);
      ReadWord(h, st);
      ReadWord(28, first);
      ReadBoth(One(h), " ", "hundred", st, first);
      if r != 0 {
        var text := One(h) + " " + "hundred";
        ReadWord(33, hundreds);
        ReadBoth(text, " ", "and", st, hundreds);
        TensRead(r, hundreds);
        ReadBoth(text + " " + "and", " ", Tens(r), st, hundreds);
      }
    }
  }

  lemma ScaleWords(i: nat)
    ensures Scale(i) == "" <==> i == 0 || 5 <= i
    ensures 0 < i < 5 ==> Scale(i) == Word(28 + i)
  {
    if 0 < i < 5 { ScaleInPlace(i); }
  }

  lemma ScaledReads(g: nat, i: nat, st: Reader)
    requires 0 < g < 1000 && i < 5 && st.group == 0
    ensures Read(Scaled(g, i), st)
      == Some(if i == 0 then st.(group := g) else st.(total := st.total + g * Thousands(i)))
  {
    hide Read, Place, Word, Scale, Group, Thousands;
    GroupReads(g, st);
    ScaleWords(i);
    if i > 0 {
      ReadWord(28 + i, st.(group := g));
      ReadBoth(Group(g), " ", Scale(i), st, st.(group := g));
    }
  }

  lemma {:induction false} JoinLast(parts: seq<string>, last: string, sep: string)
    requires parts != []
    ensures Join(parts + [last], sep) == Join(parts, sep) + sep + last
  {
    if |parts| == 1 {
      assert parts + [last] == [parts[0], last];
      assert [parts[0], last][1..] == [last];
    } else {
      assert (parts + [last])[1..] == parts[1..] + [last];
      JoinLast(parts[1..], last, sep);
      assert Join(parts + [last], sep) == parts[0] + sep + (Join(parts[1..], sep) + sep + last);
    }
  }

  lemma GroupsNotEmpty(n: nat, i: nat)
    requires 0 < n
    ensures Groups(n, i) != []
  {
    hide Scaled;
  }

  /** What the groups of `n` from scale `i` on make of a reader. */
  function WithGroups(n: nat, i: nat, st: Reader): Reader {
    if i == 0 then st.(total := st.total + n / 1000 * 1000, group := n % 1000)
    else st.(total := st.total + n * Thousands(i))
  }

  lemma {:induction false} GroupsRead(n: nat, i: nat, st: Reader)
    requires 0 < n && i < 5 && n < Thousands(5 - i) && st.group == 0
    ensures Read(Join(Groups(n, i), ", "), st) == Some(WithGroups(n, i, st))
  {
    hide Read, Scaled, Join, Thousands;
    var q, g := n / 1000, n % 1000;
    ThousandsStep(i);
    ThousandsStep(4 - i);
    if q == 0 {
      assert Groups(n, i) == [Scaled(g, i)];
      JoinOne(Scaled(g, i), ", ");
      ScaledReads(g, i, st);
    } else {
      SplitThousands(n, q, g, Thousands(i), Thousands(i + 1));
      LessGroups(n, Thousands(4 - i), i);
      GroupsNotEmpty(q, i + 1);
      GroupsRead(q, i + 1, st);
      if g == 0 {
        assert Groups(n, i) == Groups(q, i + 1);
      } else {
        var mid := WithGroups(q, i + 1, st);
        JoinLast(Groups(q, i + 1), Scaled(g, i), ", ");
        ScaledReads(g, i, mid);
        ReadBoth(Join(Groups(q, i + 1), ", "), ", ", Scaled(g, i), st, mid);
      }
    }
  }

  lemma LessGroups(n: nat, below: nat, i: nat)
    requires 0 < n / 1000 && i < 5 && n < 1000 * below && below == Thousands(4 - i)
    ensures i < 4 && n / 1000 < Thousands(5 - (i + 1))
  {
  }

  lemma JoinOne(text: string, sep: string)
    ensures Join([text], sep) == text
  {
  }

  lemma ThousandsStep(i: nat)
    ensures Thousands(i + 1) == 1000 * Thousands(i) && Thousands(0) == 1
  {
  }

  lemma SplitThousands(n: nat, q: nat, g: nat, a: nat, b: nat)
    requires n == 1000 * q + g && b == 1000 * a
    ensures q * b + g * a == n * a
  {
  }

  lemma WholeReads(n: nat, st: Reader)
    requires n < 1_000_000_000_000_000 && st.group == st.total == 0
    ensures Read(Whole(n), st).Some?
    ensures var end := Read(Whole(n), st).value;
      end == st.(total := end.total, group := end.group) && end.total + end.group == n
  {
    hide Read, Join, Groups;
    if n == 0 {
      ReadWord(0, st);
    } else {
      assert Thousands(5) == 1_000_000_000_000_000;
      GroupsRead(n, 0, st);
    }
  }

  lemma UnsignedReads(kobo: nat, st: Reader)
    requires kobo < LIMIT && st.group == st.total == st.kobo == 0
    ensures Read(Unsigned(kobo), st) == Some(st.(naira := kobo / 100, kobo := kobo % 100))
  {
    hide Read, Whole, Place;
    var n, k := kobo / 100, kobo % 100;
    WholeReads(n, st);
    var counted, named := Read(Whole(n), st).value, st.(naira := n);
    ReadWord(34, counted);
    ReadBoth(Whole(n), " ", "naira", st, counted);
    var text := Whole(n) + " " + "naira";
    assert Read(text, st) == Some(named);
    if k == 0 {
      ReadWord(36, named);
      ReadBoth(text, " ", "only", st, named);
    } else {
      WholeReads(k, named);
      var more, done := Read(Whole(k), named).value, named.(kobo := k);
      ReadWord(35, more);
      ReadBoth(Whole(k), " ", "kobo", named, more);
      var tail := Whole(k) + " " + "kobo";
      ReadBoth(text, ", ", tail, st, named);
      ReadWord(36, done);
      ReadBoth(text + ", " + tail, " ", "only", st, done);
    }
  }

  lemma CapitalIsClean(s: string)
    ensures Clean(Capital(s)) == Clean(s)
  {
    if s != [] { assert Capital(s)[1..] == s[1..]; }
  }

  /** What the reader makes of the words of an amount. */
  lemma AmountIsRead(kobo: real)
    requires Abs(Trunc(kobo)) < LIMIT
    ensures var n := Abs(Trunc(kobo)); Read(Amount(kobo), START) == Some(Reader(kobo < 0.0, n / 100, n % 100, 0, 0))
  {
    hide Clean, Split, Run, Unsigned, Capital, Place, Trunc;
    var text := Unsigned(Abs(Trunc(kobo)));
    if kobo < 0.0 {
      var minus := START.(minus := true);
      ReadWord(37, START);
      ReadBoth("minus", " ", text, START, minus);
      UnsignedReads(Abs(Trunc(kobo)), minus);
      CapitalIsClean("minus" + " " + text);
    } else {
      UnsignedReads(Abs(Trunc(kobo)), START);
      CapitalIsClean(text);
    }
  }

  /** Reading the words of an amount gives the amount, to the whole kobo. */
  lemma AmountsReadBack(kobo: real)
    requires Abs(Trunc(kobo)) < LIMIT
    ensures ReadAmount(Amount(kobo)) == Some(Trunc(kobo))
  {
    hide Read, Amount;
    AmountIsRead(kobo);
    SignOfTrunc(kobo);
  }

  lemma SignOfTrunc(kobo: real)
    ensures if kobo < 0.0 then Trunc(kobo) <= 0 else 0 <= Trunc(kobo)
  {
  }

  /** Two amounts share their words iff they have the same sign and the same whole kobo. */
  lemma AmountsAlike(x: real, y: real)
    requires Abs(Trunc(x)) < LIMIT && Abs(Trunc(y)) < LIMIT
    ensures Amount(x) == Amount(y) <==> Trunc(x) == Trunc(y) && (x < 0.0 <==> y < 0.0)
  {
    hide Read, Unsigned, Capital;
    AmountIsRead(x);
    AmountIsRead(y);
    SignOfTrunc(x);
    SignOfTrunc(y);
  }

  ghost predicate TellsApart(bound: nat) {
    forall a: int, b: int :: Abs(a) < bound && Abs(b) < bound && WholeKobo(a) == WholeKobo(b) ==> a == b
  }

  /** The words of a whole number of kobo. */
  function WholeKobo(kobo: int): string {
    Amount(kobo as real)
  }

  lemma WholeIsWhole(kobo: int)
    ensures Trunc(kobo as real) == kobo
  {
  }

  /** The words tell whole amounts apart just as long as the scale words last. */
  lemma WordsTellAmountsApart(bound: nat)
    ensures TellsApart(bound) <==> bound <= LIMIT
  {
    hide Amount, ReadAmount, Trunc;
    if bound <= LIMIT {
      forall a: int, b: int | Abs(a) < bound && Abs(b) < bound && WholeKobo(a) == WholeKobo(b) ensures a == b {
        WholeIsWhole(a);
        WholeIsWhole(b);
        AmountsReadBack(a as real);
        AmountsReadBack(b as real);
      }
    } else {
      PastTheScales(1);
      assert WholeKobo(LIMIT) == WholeKobo(100) && Abs(LIMIT) < bound && Abs(100) < bound;
    }
  }

  /** A thousand trillion naira reads like one naira, and so on. */
  lemma PastTheScales(h: nat)
    requires 0 < h < 1000
    ensures WholeKobo(LIMIT * h) == WholeKobo(100 * h)
  {
    hide Capital, Join, Scaled, Groups, Trunc;
    var n := 1_000_000_000_000_000 * h;
    assert LIMIT * h == 100 * n;
    WholeIsWhole(LIMIT * h);
    WholeIsWhole(100 * h);
    GroupsShift(1_000_000_000_000 * h, 0);
    GroupsShift(1_000_000_000 * h, 1);
    GroupsShift(1_000_000 * h, 2);
    GroupsShift(1_000 * h, 3);
    GroupsShift(h, 4);
    OneGroup(h, 5);
    OneGroup(h, 0);
    LastScales(h);
    assert Whole(n) == Whole(h);
  }

  lemma GroupsShift(m: nat, i: nat)
    requires 0 < m
    ensures Groups(1000 * m, i) == Groups(m, i + 1)
  {
    hide Scaled;
    assert 1000 * m / 1000 == m && 1000 * m % 1000 == 0;
  }

  lemma OneGroup(h: nat, i: nat)
    requires 0 < h < 1000
    ensures Groups(h, i) == [Scaled(h, i)]
  {
    hide Scaled;
    assert h / 1000 == 0 && h % 1000 == h;
    assert Groups(0, i + 1) == [];
  }

  lemma LastScales(h: nat)
    requires 0 < h < 1000
    ensures Scaled(h, 5) == Scaled(h, 0)
  {
  }

  // ------------------------------------------------------------ The wording

  /** How a group of three digits is put. */
  lemma GroupPhrase(h: nat, t: nat, o: nat)
    requires 0 < h < 10 && 2 <= t < 10 && 0 < o < 10
    ensures Group(100 * h + 10 * t + o) == One(h) + " hundred and " + Ten(t) + "-" + One(o)
  {
    hide One, Ten, Tens;
    var n, r := 100 * h + 10 * t + o, 10 * t + o;
    assert n / 100 == h && n % 100 == r;
    TensPhrase(t, o);
    HundredPhrase(One(h), Ten(t), One(o));
  }

  lemma TensPhrase(t: nat, o: nat)
    requires 2 <= t < 10 && 0 < o < 10
    ensures Tens(10 * t + o) == Ten(t) + "-" + One(o)
  {
    hide One, Ten;
    assert (10 * t + o) / 10 == t && (10 * t + o) % 10 == o;
  }

  lemma HundredPhrase(h: string, t: string, o: string)
    ensures h + " " + "hundred" + " " + "and" + " " + (t + "-" + o) == h + " hundred and " + t + "-" + o
  {
  }

  /** How an amount of thousands, naira and kobo is put, and one that is owed. */
  lemma AmountPhrase(q: nat, g: nat, k: nat, owed: int)
    requires 0 < q < 1000 && 0 < g < 1000 && 0 < k < 100 && owed < 0
    ensures WholeKobo(100 * (1000 * q + g) + k)
      == Capital(Group(q) + " thousand, " + Group(g) + " naira, " + Group(k) + " kobo only")
    ensures WholeKobo(owed) == "Minus " + Unsigned(-owed)
  {
    hide Whole, Trunc, Capital, Unsigned, Group;
    var n := 100 * (1000 * q + g) + k;
    WholeIsWhole(n);
    WholeIsWhole(owed);
    UnsignedPhrase(q, g, k);
    CapitalMinus(Unsigned(-owed));
  }

  lemma CapitalMinus(rest: string)
    ensures Capital("minus" + " " + rest) == "Minus " + rest
  {
    hide Capital;
    MinusWord();
    CapitalFirst("minus", " " + rest);
    assert "minus" + " " + rest == "minus" + (" " + rest) && "Minus" + (" " + rest) == "Minus " + rest;
  }

  lemma MinusWord()
    ensures Capital("minus") == "Minus"
  {
    assert "minus"[1..] == "inus";
  }

  lemma CapitalFirst(word: string, rest: string)
    requires word != []
    ensures Capital(word + rest) == Capital(word) + rest
  {
    assert (word + rest)[1..] == word[1..] + rest;
  }

  lemma UnsignedPhrase(q: nat, g: nat, k: nat)
    requires 0 < q < 1000 && 0 < g < 1000 && 0 < k < 100
    ensures Unsigned(100 * (1000 * q + g) + k)
      == Group(q) + " thousand, " + Group(g) + " naira, " + Group(k) + " kobo only"
  {
    hide Whole, Group;
    var n := 100 * (1000 * q + g) + k;
    assert n / 100 == 1000 * q + g && n % 100 == k;
    WholePhrase(q, g);
    WholeGroup(k);
  }

  lemma WholePhrase(q: nat, g: nat)
    requires 0 < q < 1000 && 0 < g < 1000
    ensures Whole(1000 * q + g) == Group(q) + " thousand, " + Group(g)
  {
    hide Join, Groups, Group;
    OneGroup(q, 1);
    TwoGroups(1000 * q + g, q, g);
    JoinTwo(Scaled(q, 1), Scaled(g, 0), ", ");
    assert [Scaled(q, 1)] + [Scaled(g, 0)] == [Scaled(q, 1), Scaled(g, 0)];
  }

  lemma WholeGroup(k: nat)
    requires 0 < k < 1000
    ensures Whole(k) == Group(k)
  {
    hide Join, Groups, Group;
    OneGroup(k, 0);
    JoinOne(Group(k), ", ");
  }

  lemma TwoGroups(n: nat, q: nat, g: nat)
    requires n == 1000 * q + g && 0 < g < 1000 && 0 < q < 1000
    ensures Groups(n, 0) == Groups(q, 1) + [Scaled(g, 0)]
  {
    hide Scaled;
    assert n / 1000 == q && n % 1000 == g;
  }
}
