/**
 The address classifier of src/common/net/safe-fetch.ts: parsing the text of an
 IPv6 address into its eight groups, and deciding whether an address may be
 contacted.  Written forms follow RFC 4291, section 2.2; `isIP` is taken to
 accept exactly those (with an optional zone) and dotted decimal IPv4.
 */
module AddressFilter {
  import opened Text
  import opened Wrappers

  type Group = n: int | 0 <= n < 0x1_0000

  datatype V4 = V4(a: nat, b: nat, c: nat, d: nat) {
    predicate Valid() {
      a < 0x100 && b < 0x100 && c < 0x100 && d < 0x100
    }
  }

  // ------------------------------------------------------------ Hexadecimal

  function HexValue(c: char): (d: nat)
    requires IsHex(c)
    ensures d < 16
  {
    if IsDigit(c) then c as int - '0' as int
    else if 'a' <= c <= 'f' then c as int - 'a' as int + 10
    else c as int - 'A' as int + 10
  }

  predicate AllHex(s: string) {
    forall i :: 0 <= i < |s| ==> IsHex(s[i])
  }

  function ParseHex(s: string): nat
    requires AllHex(s)
  {
    if s == [] then 0 else 16 * ParseHex(s[..|s| - 1]) + HexValue(s[|s| - 1])
  }

  function HexDigit(d: nat): (c: char)
    requires d < 16
    ensures IsHex(c) && HexValue(c) == d
  {
    if d < 10 then Digit(d) else 'a' + (d - 10) as char
  }

  /** `n.toString(16)`. */
  function Hex(n: nat): (s: string)
    ensures s != [] && AllHex(s) && ParseHex(s) == n
  {
    if n < 16 then [HexDigit(n)] else Hex(n / 16) + [HexDigit(n % 16)]
  }

  /** `parseInt(s, 16)`: the longest run of hex digits in front, None (NaN) without one. */
  function ParseInt16(s: string): Option<nat> {
    if HexRun(s) == 0 then None else Some(ParseHex(s[..HexRun(s)]))
  }

  function HexRun(s: string): (n: nat)
    ensures n <= |s| && AllHex(s[..n])
    ensures AllHex(s) ==> n == |s|
  {
    if s == [] || !IsHex(s[0]) then 0
    else
      var n := HexRun(s[1..]);
      assert forall i :: 1 <= i < n + 1 ==> s[i] == s[1..][..n][i - 1];
      assert AllHex(s) ==> AllHex(s[1..]);
      n + 1
  }

  // ------------------------------------------------------------ The parser

  /** The text matches `\\d+\\.\\d+\\.\\d+\\.\\d+`. */
  predicate IsDotted(s: string) {
    var p := Split(s, '.');
    |p| == 4 && forall i :: 0 <= i < 4 ==> p[i] != [] && AllDigits(p[i])
  }

  /** Where the dotted tail of the text begins, searching from `i`. */
  function DottedAt(s: string, i: nat): (r: Option<nat>)
    requires i <= |s|
    ensures r.Some? ==> i <= r.value <= |s| && IsDotted(s[r.value..])
    decreases |s| - i
  {
    if IsDotted(s[i..]) then Some(i) else if i == |s| then None else DottedAt(s, i + 1)
  }

  /** `s.split('::')`. */
  function SplitGap(s: string): (parts: seq<string>)
    decreases |s|
  {
    var i := GapAt(s, 0);
    if i == |s| then [s] else [s[..i]] + SplitGap(s[i + 2..])
  }

  /** The first '::' at or after `i`, or the end. */
  function GapAt(s: string, i: nat): (r: nat)
    requires i <= |s|
    ensures i <= r <= |s| && (r < |s| ==> r + 2 <= |s|)
    decreases |s| - i
  {
    if i == |s| then |s| else if i + 2 <= |s| && s[i] == ':' && s[i + 1] == ':' then i else GapAt(s, i + 1)
  }

  function ParseGroups(parts: seq<string>): (r: Option<seq<nat>>)
    ensures r.Some? ==> |r.value| == |parts|
  {
    if parts == [] then Some([])
    else
      var head, rest := ParseInt16(parts[0]), ParseGroups(parts[1..]);
      if head == None || rest == None then None else Some([head.value] + rest.value)
  }

  /** `parse` of one half; the length counts even when a group is no number. */
  function HalfLength(s: string): nat {
    if s == [] then 0 else |Split(s, ':')|
  }

  function ParseHalf(s: string): Option<seq<nat>> {
    if s == [] then Some([]) else ParseGroups(Split(s, ':'))
  }

  function Zeros(n: nat): (z: seq<nat>)
    ensures |z| == n && forall i :: 0 <= i < n ==> z[i] == 0
  {
    seq(n, i => 0)
  }

  /** Two groups in place of the dotted tail; None when an octet is over 255. */
  function Undot(a: string): Option<string> {
    match DottedAt(a, 0)
    case None => Some(a)
    case Some(i) =>
      var p := Split(a[i..], '.');
      var o := V4(ParseDecimal(p[0]), ParseDecimal(p[1]), ParseDecimal(p[2]), ParseDecimal(p[3]));
      if !o.Valid() then None
      else Some(a[..i] + Hex(o.a * 0x100 + o.b) + ":" + Hex(o.c * 0x100 + o.d))
  }

  function ParseUndotted(a: string): (r: Option<seq<nat>>)
    ensures r.Some? ==> IsGroups(r.value)
  {
    var halves := SplitGap(a);
    if |halves| == 0 || |halves| > 2 then None
    else
      var tail := if |halves| == 2 then halves[1] else [];
      var fill := 8 - HalfLength(halves[0]) - HalfLength(tail);
      if fill < 0 || (|halves| == 1 && fill != 0) then None
      else
        var h, t := ParseHalf(halves[0]), ParseHalf(tail);
        if h == None || t == None then None else Filled(h.value, fill, t.value)
  }

  /** Head, zeros and tail, if every group fits into sixteen bits. */
  function Filled(head: seq<nat>, fill: nat, tail: seq<nat>): (r: Option<seq<nat>>)
    ensures r.Some? ==> |r.value| == |head| + fill + |tail| && forall i :: 0 <= i < |r.value| ==> r.value[i] <= 0xffff
  {
    var groups := head + Zeros(fill) + tail;
    if forall i :: 0 <= i < |groups| ==> groups[i] <= 0xffff then Some(groups) else None
  }

  predicate IsGroups(g: seq<nat>) {
    |g| == 8 && forall i :: 0 <= i < 8 ==> g[i] <= 0xffff
  }

  /** `ipv6Groups`. */
  function Ipv6Groups(address: string): (r: Option<seq<nat>>)
    ensures r.Some? ==> IsGroups(r.value)
  {
    match Undot(Split(Lower(address), '%')[0])
    case None => None
    case Some(a) => ParseUndotted(a)
  }

  // ------------------------------------------------------------ Written forms

  predicate IsGroup(s: string) {
    1 <= |s| <= 4 && AllHex(s)
  }

  predicate AreGroups(gs: seq<string>) {
    forall i :: 0 <= i < |gs| ==> IsGroup(gs[i])
  }

  /** Groups before and after an optional '::', an optional dotted tail, an optional zone. */
  datatype Form = Form(head: seq<string>, gap: bool, tail: seq<string>, dotted: Option<V4>, zone: Option<string>)

  /** A zone as `isIP` accepts it: letters, digits, '-', '.' and ':'. */
  predicate IsZone(s: string) {
    s != [] && forall i :: 0 <= i < |s| ==>
      IsDigit(s[i]) || 'a' <= s[i] <= 'z' || 'A' <= s[i] <= 'Z' || s[i] in {'-', '.', ':'}
  }

  ghost predicate ValidForm(f: Form) {
    && AreGroups(f.head) && AreGroups(f.tail)
    && (!f.gap ==> f.tail == [])
    && (f.dotted.Some? ==> f.dotted.value.Valid())
    && (f.zone.Some? ==> IsZone(f.zone.value))
    && var n := |f.head| + |f.tail| + if f.dotted.Some? then 2 else 0;
      if f.gap then n <= 7 else n == 8
  }

  function V4Text(v: V4): string {
    Decimal(v.a) + "." + Decimal(v.b) + "." + Decimal(v.c) + "." + Decimal(v.d)
  }

  /** The text of the groups and the dotted tail. */
  function Body(f: Form): string {
    var last := if f.dotted.Some? then [V4Text(f.dotted.value)] else [];
    if f.gap then Join(f.head, ":") + "::" + Join(f.tail + last, ":") else Join(f.head + last, ":")
  }

  function Render(f: Form): string {
    Body(f) + if f.zone.Some? then "%" + f.zone.value else ""
  }

  function Values(gs: seq<string>): (r: seq<nat>)
    requires AreGroups(gs)
    ensures |r| == |gs|
  {
    if gs == [] then [] else [ParseHex(gs[0])] + Values(gs[1..])
  }

  /** The eight groups a form stands for. */
  function Meaning(f: Form): seq<nat>
    requires AreGroups(f.head) && AreGroups(f.tail)
  {
    var last := if f.dotted.Some? then var v := f.dotted.value; [v.a * 0x100 + v.b, v.c * 0x100 + v.d] else [];
    var fill := 8 - |f.head| - |f.tail| - |last|;
    Values(f.head) + (if 0 <= fill then Zeros(fill) else []) + Values(f.tail) + last
  }

  // ------------------------------------------------------------ Groups of text

  lemma {:induction false} HexBound(s: string)
    requires AllHex(s) && |s| <= 4
    ensures ParseHex(s)
      < if |s| == 0 then 1 else if |s| == 1 then 0x10 else if |s| == 2 then 0x100 else if |s| == 3 then 0x1000
        else 0x1_0000
  {
    if s != [] {
      HexBound(s[..|s| - 1]);
    }
  }

  lemma {:induction false} HexLength(n: nat)
    requires n < 0x1_0000
    ensures |Hex(n)| <= 4
    ensures (n < 0x10 ==> |Hex(n)| <= 1) && (n < 0x100 ==> |Hex(n)| <= 2) && (n < 0x1000 ==> |Hex(n)| <= 3)
  {
    if n >= 16 {
      HexLength(n / 16);
    }
  }

  lemma {:induction false} ParsesGroups(gs: seq<string>)
    requires AreGroups(gs)
    ensures ParseGroups(gs) == Some(Values(gs))
    ensures forall i :: 0 <= i < |gs| ==> Values(gs)[i] <= 0xffff
  {
    if gs != [] {
      assert IsGroup(gs[0]) && gs[0][..|gs[0]|] == gs[0];
      HexBound(gs[0]);
      assert forall i :: 0 <= i < |gs| - 1 ==> gs[1..][i] == gs[i + 1];
      ParsesGroups(gs[1..]);
    }
  }

  lemma {:induction false} NotInJoin(parts: seq<string>, sep: string, c: char)
    requires c !in sep && forall p :: p in parts ==> c !in p
    ensures c !in Join(parts, sep)
  {
    if |parts| > 1 {
      NotInJoin(parts[1..], sep, c);
    }
  }

  lemma GroupsHold(gs: seq<string>, c: char)
    requires AreGroups(gs) && !IsHex(c)
    ensures forall g :: g in gs ==> c !in g
  {
    forall g | g in gs ensures c !in g {
      var i :| 0 <= i < |gs| && gs[i] == g;
      assert IsGroup(gs[i]);
    }
  }

  lemma ParsesHalf(gs: seq<string>)
    requires AreGroups(gs)
    ensures var s := Join(gs, ":");
      ParseHalf(s) == Some(Values(gs)) && HalfLength(s) == |gs|
  {
    ParsesGroups(gs);
    NoGapInGroups(gs);
    if gs != [] {
      GroupsHold(gs, ':');
      SplitJoin(gs, ':');
      assert [':'] == ":";
    }
  }

  predicate GapFree(s: string) {
    && (forall i :: 0 <= i < |s| - 1 ==> s[i] != ':' || s[i + 1] != ':')
    && (s != [] ==> s[0] != ':' && s[|s| - 1] != ':')
  }

  lemma {:induction false} NoGapInGroups(gs: seq<string>)
    requires AreGroups(gs)
    ensures GapFree(Join(gs, ":")) && (Join(gs, ":") == [] <==> gs == [])
  {
    if gs != [] {
      var g := gs[0];
      assert IsGroup(g);
      assert forall i :: 0 <= i < |g| ==> IsHex(g[i]);
      if |gs| > 1 {
        var rest := Join(gs[1..], ":");
        assert forall i :: 0 <= i < |gs| - 1 ==> gs[1..][i] == gs[i + 1];
        NoGapInGroups(gs[1..]);
        var s := Join(gs, ":");
        assert s == g + ":" + rest;
        forall i | 0 <= i < |s| - 1 ensures s[i] != ':' || s[i + 1] != ':' {
          if i < |g| {
            assert s[i] == g[i];
          } else if i == |g| {
            assert s[i + 1] == rest[0];
          } else {
            assert s[i] == rest[i - |g| - 1] && s[i + 1] == rest[i - |g|];
          }
        }
      }
    }
  }

  lemma {:induction false} GapFound(x: string, y: string, i: nat)
    requires GapFree(x) && i <= |x|
    ensures GapAt(x + "::" + y, i) == |x|
    decreases |x| - i
  {
    var a := x + "::" + y;
    if i < |x| {
      GapFound(x, y, i + 1);
      assert a[i] == x[i] && (i + 1 < |x| ==> a[i + 1] == x[i + 1]);
    }
  }

  lemma {:induction false} NoGapFound(x: string, i: nat)
    requires GapFree(x) && i <= |x|
    ensures GapAt(x, i) == |x|
    decreases |x| - i
  {
    if i < |x| {
      NoGapFound(x, i + 1);
    }
  }

  lemma SplitsAtGap(x: string, y: string)
    requires GapFree(x) && GapFree(y)
    ensures SplitGap(x) == [x] && SplitGap(x + "::" + y) == [x, y]
  {
    hide GapAt, GapFree;
    NoGapFound(x, 0);
    NoGapFound(y, 0);
    GapFound(x, y, 0);
    var a := x + "::" + y;
    assert a[..|x|] == x && a[|x| + 2..] == y;
    assert SplitGap(y) == [y];
  }

  /** A form without a dotted tail parses to its groups. */
  lemma ParsesUndotted(f: Form)
    requires ValidForm(f) && f.dotted == None
    ensures ParseUndotted(Body(f)) == Some(Meaning(f))
  {
    if f.gap { ParsesGap(f); } else { ParsesFull(f); }
  }

  /** Two halves give the groups they are written as, with zeros between. */
  lemma ParsesTwoHalves(a: string, head: seq<string>, tail: seq<string>)
    requires AreGroups(head) && AreGroups(tail) && |head| + |tail| <= 8
    requires SplitGap(a) == [Join(head, ":"), Join(tail, ":")]
    ensures ParseUndotted(a) == Some(Values(head) + Zeros(8 - |head| - |tail|) + Values(tail))
  {
    hide SplitGap, Join, AreGroups, ParseUndotted, Filled, HalfLength, ParseHalf, Values, Zeros;
    var fill := 8 - |head| - |tail|;
    ParsesHalf(head);
    ParsesHalf(tail);
    HalvesFilled(a, Join(head, ":"), Join(tail, ":"), fill, Values(head), Values(tail));
    ParsesGroups(head);
    ParsesGroups(tail);
    SmallGroups(Values(head), fill, Values(tail));
  }

  lemma ParsesOneHalf(a: string, head: seq<string>)
    requires AreGroups(head) && |head| == 8 && SplitGap(a) == [Join(head, ":")]
    ensures ParseUndotted(a) == Some(Values(head) + Zeros(0) + [])
  {
    hide SplitGap, Join, AreGroups, ParseUndotted, Filled, HalfLength, ParseHalf, Values, Zeros;
    ParsesHalf(head);
    HalfFilled(a, Join(head, ":"), Values(head));
    ParsesGroups(head);
    SmallGroups(Values(head), 0, []);
  }

  lemma HalvesFilled(a: string, x: string, y: string, fill: nat, head: seq<nat>, tail: seq<nat>)
    requires SplitGap(a) == [x, y] && fill == 8 - HalfLength(x) - HalfLength(y)
    requires ParseHalf(x) == Some(head) && ParseHalf(y) == Some(tail)
    ensures ParseUndotted(a) == Filled(head, fill, tail)
  {
    hide SplitGap, HalfLength, ParseHalf, Filled;
    assert SplitGap(a)[0] == x && SplitGap(a)[1] == y && |SplitGap(a)| == 2;
  }

  lemma HalfFilled(a: string, x: string, head: seq<nat>)
    requires SplitGap(a) == [x] && HalfLength(x) == 8 && ParseHalf(x) == Some(head)
    ensures ParseUndotted(a) == Filled(head, 0, [])
  {
    hide SplitGap, HalfLength, ParseHalf, Filled;
    NoHalf();
    assert SplitGap(a)[0] == x && |SplitGap(a)| == 1;
  }

  lemma NoHalf()
    ensures HalfLength([]) == 0 && ParseHalf([]) == Some([])
  {
  }

  lemma SmallGroups(head: seq<nat>, fill: nat, tail: seq<nat>)
    requires (forall i :: 0 <= i < |head| ==> head[i] <= 0xffff) && forall i :: 0 <= i < |tail| ==> tail[i] <= 0xffff
    ensures Filled(head, fill, tail) == Some(head + Zeros(fill) + tail)
  {
  }

  lemma ParsesGap(f: Form)
    requires ValidForm(f) && f.dotted == None && f.gap
    ensures ParseUndotted(Body(f)) == Some(Meaning(f))
  {
    hide HalfLength, ParseHalf, SplitGap, Join, Values, ParseUndotted;
    NoGapInGroups(f.head);
    NoGapInGroups(f.tail);
    assert f.head + [] == f.head && f.tail + [] == f.tail;
    SplitsAtGap(Join(f.head, ":"), Join(f.tail, ":"));
    ParsesTwoHalves(Body(f), f.head, f.tail);
    assert Meaning(f) == Values(f.head) + Zeros(8 - |f.head| - |f.tail|) + Values(f.tail);
  }

  lemma ParsesFull(f: Form)
    requires ValidForm(f) && f.dotted == None && !f.gap
    ensures ParseUndotted(Body(f)) == Some(Meaning(f))
  {
    hide HalfLength, ParseHalf, SplitGap, Join, Values, ParseUndotted;
    NoGapInGroups(f.head);
    assert f.head + [] == f.head;
    SplitsAtGap(Join(f.head, ":"), []);
    ParsesOneHalf(Body(f), f.head);
    NoValues();
    assert f.tail == [];
    assert Meaning(f) == Values(f.head) + Zeros(0) + [];
  }

  // ------------------------------------------------------------ The dotted tail

  function Lead(gs: seq<string>): string {
    if gs == [] then "" else Join(gs, ":") + ":"
  }

  lemma LeadSteps(first: string, rest: string, x: string, y: string)
    ensures first + (rest + x) == first + rest + x
    ensures first + (rest + x + ":" + y) == first + rest + x + ":" + y
  {
  }

  lemma {:induction false} JoinLast(gs: seq<string>, x: string, y: string)
    ensures Join(gs + [x], ":") == Lead(gs) + x
    ensures Join(gs + [x, y], ":") == Lead(gs) + x + ":" + y
  {
    if gs == [] {
      assert gs + [x] == [x] && gs + [x, y] == [x, y] && [x, y][1..] == [y];
    } else {
      assert (gs + [x])[1..] == gs[1..] + [x] && (gs + [x, y])[1..] == gs[1..] + [x, y];
      JoinLast(gs[1..], x, y);
      if |gs| > 1 {
        assert gs[0] + ":" + (Join(gs[1..], ":") + ":") == Lead(gs);
      }
      assert gs[0] + ":" + Lead(gs[1..]) == Lead(gs);
      LeadSteps(gs[0] + ":", Lead(gs[1..]), x, y);
    }
  }

  /** Everything in front of the dotted tail. */
  function Front(f: Form): string {
    if f.gap then Join(f.head, ":") + "::" + Lead(f.tail) else Lead(f.head)
  }

  function Undotted(f: Form): Form
    requires f.dotted.Some?
  {
    var v := f.dotted.value;
    var last := [Hex(v.a * 0x100 + v.b), Hex(v.c * 0x100 + v.d)];
    if f.gap then Form(f.head, true, f.tail + last, None, None) else Form(f.head + last, false, [], None, None)
  }

  lemma UndottedForm(f: Form)
    requires ValidForm(f) && f.dotted.Some?
    ensures ValidForm(Undotted(f)) && Meaning(Undotted(f)) == Meaning(f)
    ensures var v := f.dotted.value;
      && Body(f) == Front(f) + V4Text(v)
      && Body(Undotted(f)) == Front(f) + Hex(v.a * 0x100 + v.b) + ":" + Hex(v.c * 0x100 + v.d)
    ensures Front(f) != [] && Front(f)[|Front(f)| - 1] == ':'
    ensures forall i :: 0 <= i < |Front(f)| ==> IsHex(Front(f)[i]) || Front(f)[i] == ':'
  {
    hide Hex, Meaning, Body, Front, V4Text;
    FrontChars(f);
    UndottedBody(f);
    UndottedMeaning(f);
  }

  lemma UndottedMeaning(f: Form)
    requires ValidForm(f) && f.dotted.Some?
    ensures ValidForm(Undotted(f)) && Meaning(Undotted(f)) == Meaning(f)
  {
    hide Hex, Values;
    var v := f.dotted.value;
    var hi, lo := v.a * 0x100 + v.b, v.c * 0x100 + v.d;
    HexLength(hi);
    HexLength(lo);
    var gs := if f.gap then f.tail else f.head;
    GroupsAppend(gs, Hex(hi), Hex(lo));
    NoValues();
    var fill := 8 - |f.head| - |f.tail| - 2;
    RegroupsTail(Values(f.head), Zeros(fill), Values(f.tail), [hi, lo]);
  }

  lemma RegroupsTail(head: seq<nat>, fill: seq<nat>, tail: seq<nat>, last: seq<nat>)
    ensures head + fill + (tail + last) + [] == head + fill + tail + last
    ensures head + last + Zeros(0) + [] + [] == head + Zeros(0) + [] + last
  {
    assert Zeros(0) == [];
  }

  lemma NoValues()
    ensures Values([]) == []
  {
  }

  lemma UndottedBody(f: Form)
    requires f.dotted.Some? && (!f.gap ==> f.tail == [])
    ensures var v := f.dotted.value;
      && Body(f) == Front(f) + V4Text(v)
      && Body(Undotted(f)) == Front(f) + Hex(v.a * 0x100 + v.b) + ":" + Hex(v.c * 0x100 + v.d)
  {
    hide Hex, V4Text, Join, Lead;
    var v := f.dotted.value;
    var t, x, y := V4Text(v), Hex(v.a * 0x100 + v.b), Hex(v.c * 0x100 + v.d);
    var gs := if f.gap then f.tail else f.head;
    JoinLast(gs, t, "");
    JoinLast(gs, x, y);
    var u := Undotted(f);
    assert u.head + [] == u.head && u.tail + [] == u.tail;
    if f.gap {
      var h := Join(f.head, ":") + "::";
      assert h + (Lead(f.tail) + t) == h + Lead(f.tail) + t;
      assert h + (Lead(f.tail) + x + ":" + y) == h + Lead(f.tail) + x + ":" + y;
    }
  }

  lemma {:induction false} GroupsAppend(gs: seq<string>, x: string, y: string)
    requires AreGroups(gs) && IsGroup(x) && IsGroup(y)
    ensures AreGroups(gs + [x, y]) && Values(gs + [x, y]) == Values(gs) + [ParseHex(x), ParseHex(y)]
  {
    if gs == [] {
      assert gs + [x, y] == [x, y] && [x, y][1..] == [y] && [y][1..] == [];
      assert Values([y]) == [ParseHex(y)] + Values([]);
    } else {
      assert forall i :: 0 <= i < |gs| - 1 ==> gs[1..][i] == gs[i + 1];
      GroupsAppend(gs[1..], x, y);
      assert (gs + [x, y])[1..] == gs[1..] + [x, y];
    }
  }

  predicate HexOrColon(s: string) {
    forall i :: 0 <= i < |s| ==> IsHex(s[i]) || s[i] == ':'
  }

  lemma {:induction false} JoinChars(gs: seq<string>)
    requires AreGroups(gs)
    ensures HexOrColon(Join(gs, ":"))
  {
    if gs != [] {
      assert IsGroup(gs[0]);
      assert forall i :: 0 <= i < |gs| - 1 ==> gs[1..][i] == gs[i + 1];
      JoinChars(gs[1..]);
    }
  }

  lemma FrontChars(f: Form)
    requires ValidForm(f) && f.dotted.Some?
    ensures HexOrColon(Front(f)) && Front(f) != [] && Front(f)[|Front(f)| - 1] == ':'
  {
    JoinChars(f.head);
    JoinChars(f.tail);
  }

  lemma {:induction false} SplitCovers(s: string, sep: char, c: char)
    requires c in s && c != sep
    ensures exists k :: 0 <= k < |Split(s, sep)| && c in Split(s, sep)[k]
  {
    var rest := Split(s[1..], sep);
    if s[0] == c {
      assert c in Split(s, sep)[0];
    } else {
      assert c in s[1..];
      SplitCovers(s[1..], sep, c);
      var k :| 0 <= k < |rest| && c in rest[k];
      if s[0] == sep {
        assert Split(s, sep)[k + 1] == rest[k];
      } else if k == 0 {
        assert Split(s, sep)[0] == [s[0]] + rest[0];
      } else {
        assert Split(s, sep)[k] == rest[k];
      }
    }
  }

  lemma ColonIsNotDotted(s: string)
    requires ':' in s
    ensures !IsDotted(s)
  {
    hide Split;
    SplitCovers(s, '.', ':');
  }

  lemma V4TextIsDotted(v: V4)
    ensures Split(V4Text(v), '.') == [Decimal(v.a), Decimal(v.b), Decimal(v.c), Decimal(v.d)] && IsDotted(V4Text(v))
    ensures ':' !in V4Text(v) && '%' !in V4Text(v)
  {
    var parts := [Decimal(v.a), Decimal(v.b), Decimal(v.c), Decimal(v.d)];
    hide Decimal, Split;
    JoinFour(Decimal(v.a), Decimal(v.b), Decimal(v.c), Decimal(v.d));
    SplitJoin(parts, '.');
  }

  lemma JoinFour(a: string, b: string, c: string, d: string)
    ensures Join([a, b, c, d], ['.']) == a + "." + b + "." + c + "." + d
  {
    assert [a, b, c, d][1..] == [b, c, d] && [b, c, d][1..] == [c, d] && [c, d][1..] == [d];
    assert Join([c, d], ['.']) == c + ['.'] + d;
    assert Join([b, c, d], ['.']) == b + ['.'] + Join([c, d], ['.']);
    assert Join([a, b, c, d], ['.']) == a + ['.'] + Join([b, c, d], ['.']);
  }

  lemma {:induction false} DottedFound(front: string, v: V4, i: nat)
    requires i <= |front| && front != [] && front[|front| - 1] == ':'
    ensures DottedAt(front + V4Text(v), i) == Some(|front|)
    decreases |front| - i
  {
    hide IsDotted;
    var a := front + V4Text(v);
    if i < |front| {
      assert a[i..][|front| - 1 - i] == ':';
      ColonIsNotDotted(a[i..]);
      DottedFound(front, v, i + 1);
    } else {
      assert a[i..] == V4Text(v);
      V4TextIsDotted(v);
    }
  }

  lemma {:induction false} NoDotFound(a: string, i: nat)
    requires i <= |a| && '.' !in a
    ensures DottedAt(a, i) == None
    decreases |a| - i
  {
    SplitNone(a[i..], '.');
    assert !IsDotted(a[i..]);
    if i < |a| {
      NoDotFound(a, i + 1);
    }
  }

  lemma Undots(f: Form)
    requires ValidForm(f)
    ensures Undot(Body(f)) == Some(Body(if f.dotted.Some? then Undotted(f) else f))
  {
    hide Undot, Body, Undotted, ValidForm;
    if f.dotted.Some? {
      UndotsTail(f);
    } else {
      UndotsNothing(f);
    }
  }

  lemma UndotsTail(f: Form)
    requires ValidForm(f) && f.dotted.Some?
    ensures Undot(Body(f)) == Some(Body(Undotted(f)))
  {
    hide Split, IsDotted, DottedAt, Hex, Decimal, V4Text, Front, Body, Undotted;
    var v := f.dotted.value;
    UndottedForm(f);
    DottedFound(Front(f), v, 0);
    V4TextIsDotted(v);
    assert Body(f)[|Front(f)|..] == V4Text(v) && Body(f)[..|Front(f)|] == Front(f);
  }

  lemma UndotsNothing(f: Form)
    requires ValidForm(f) && f.dotted == None
    ensures Undot(Body(f)) == Some(Body(f))
  {
    hide Split, IsDotted, DottedAt, Join;
    JoinChars(f.head);
    JoinChars(f.tail);
    assert f.head + [] == f.head && f.tail + [] == f.tail;
    assert '.' !in Body(f);
    NoDotFound(Body(f), 0);
  }

  // ------------------------------------------------------------ Case and zone

  function LowerForm(f: Form): Form {
    Form(LowerAll(f.head), f.gap, LowerAll(f.tail), f.dotted, None)
  }

  lemma {:induction false} LowerHex(s: string)
    requires AllHex(s)
    ensures AllHex(Lower(s)) && ParseHex(Lower(s)) == ParseHex(s)
  {
    if s != [] {
      var front := s[..|s| - 1];
      LowerHex(front);
      assert Lower(s)[..|s| - 1] == Lower(front);
    }
  }

  lemma {:induction false} LowerGroups(gs: seq<string>)
    requires AreGroups(gs)
    ensures AreGroups(LowerAll(gs)) && Values(LowerAll(gs)) == Values(gs)
  {
    if gs != [] {
      assert IsGroup(gs[0]);
      LowerHex(gs[0]);
      assert forall i :: 0 <= i < |gs| - 1 ==> gs[1..][i] == gs[i + 1];
      LowerGroups(gs[1..]);
      assert LowerAll(gs)[1..] == LowerAll(gs[1..]);
      forall i | 0 <= i < |gs| ensures IsGroup(LowerAll(gs)[i]) {
        assert i > 0 ==> LowerAll(gs[1..])[i - 1] == LowerAll(gs)[i];
      }
    }
  }

  lemma {:induction false} LowerJoin(gs: seq<string>, last: string)
    ensures Lower(Join(gs, ":")) == Join(LowerAll(gs), ":")
    ensures Lower(last) == last ==> Lower(Join(gs + [last], ":")) == Join(LowerAll(gs) + [last], ":")
  {
    hide Lower;
    JoinLast(gs, last, "");
    JoinLast(LowerAll(gs), last, "");
    LowerSeparators();
    if gs == [] {
      LowerAppend(Lead(gs), last);
    } else {
      if |gs| > 1 {
        LowerJoin(gs[1..], last);
        assert LowerAll(gs)[1..] == LowerAll(gs[1..]);
        LowerAppend(gs[0] + ":", Join(gs[1..], ":"));
        LowerAppend(gs[0], ":");
      }
      LowerAppend(Lead(gs), last);
      LowerAppend(Join(gs, ":"), ":");
    }
  }

  lemma LowerSeparators()
    ensures Lower(":") == ":" && Lower("::") == "::" && Lower("%") == "%" && Lower("") == "" && Lower(".") == "."
  {
  }

  lemma LowerV4(v: V4)
    ensures Lower(V4Text(v)) == V4Text(v)
  {
    hide Decimal;
  }

  lemma LowerBody(f: Form)
    requires ValidForm(f)
    ensures Lower(Body(f)) == Body(LowerForm(f)) && ValidForm(LowerForm(f)) && Meaning(LowerForm(f)) == Meaning(f)
  {
    hide Lower, Join, Values, V4Text, Body;
    LowerGroups(f.head);
    LowerGroups(f.tail);
    LowerPieces(f);
  }

  lemma LowerPieces(f: Form)
    ensures Lower(Body(f)) == Body(LowerForm(f))
  {
    hide Lower, Join, V4Text;
    LowerSeparators();
    var l := LowerForm(f);
    assert f.head + [] == f.head && f.tail + [] == f.tail && l.head + [] == l.head && l.tail + [] == l.tail;
    var last := if f.dotted.Some? then V4Text(f.dotted.value) else "";
    if f.dotted.Some? { LowerV4(f.dotted.value); }
    LowerJoin(f.head, last);
    LowerJoin(f.tail, last);
    if f.gap {
      var y := if f.dotted.Some? then Join(f.tail + [last], ":") else Join(f.tail, ":");
      LowerAppend(Join(f.head, ":") + "::", y);
      LowerAppend(Join(f.head, ":"), "::");
    }
  }

  lemma NoPercent(f: Form)
    requires ValidForm(f)
    ensures '%' !in Body(f)
  {
    var last := if f.dotted.Some? then [V4Text(f.dotted.value)] else [];
    if f.dotted.Some? { V4TextIsDotted(f.dotted.value); }
    GroupsHold(f.head, '%');
    GroupsHold(f.tail, '%');
    NotInJoin(f.head, ":", '%');
    NotInJoin(f.head + last, ":", '%');
    NotInJoin(f.tail + last, ":", '%');
  }

  /** The parser recovers the eight groups from every written form of an address. */
  lemma ParsesEveryForm(f: Form)
    requires ValidForm(f)
    ensures Ipv6Groups(Render(f)) == Some(Meaning(f))
  {
    hide Split, Lower, Undot, ParseUndotted, Body, Meaning, ValidForm;
    LowerBody(f);
    var l := LowerForm(f);
    NoPercent(l);
    LowerSeparators();
    if f.zone.Some? {
      LowerAppend(Body(f), "%" + f.zone.value);
      LowerAppend("%", f.zone.value);
      assert Lower(Render(f)) == Body(l) + ['%'] + Lower(f.zone.value);
      SplitHead(Body(l), Lower(f.zone.value), '%');
    } else {
      assert Render(f) == Body(f);
      SplitNone(Body(l), '%');
    }
    Undots(l);
    if f.dotted.Some? {
      UndottedForm(l);
      ParsesUndotted(Undotted(l));
    } else {
      ParsesUndotted(l);
    }
  }

  // ------------------------------------------------------------ Prefixes

  function Pow2(n: nat): (p: nat)
    ensures 0 < p
  {
    if n == 0 then 1 else 2 * Pow2(n - 1)
  }

  lemma {:induction false} Pow2Add(a: nat, b: nat)
    ensures Pow2(a + b) == Pow2(a) * Pow2(b)
  {
    hide Pow2;
    Pow2Doubles(0);
    if a > 0 {
      Pow2Add(a - 1, b);
      DoubleFirst(Pow2(a - 1), Pow2(b));
      Pow2Doubles(a - 1);
      Pow2Doubles(a - 1 + b);
    } else {
      assert Pow2(0) * Pow2(b) == Pow2(b);
    }
  }

  lemma Pow2Doubles(n: nat)
    ensures Pow2(n + 1) == 2 * Pow2(n) && Pow2(0) == 1
  {
  }

  lemma DoubleFirst(x: nat, y: nat)
    ensures 2 * (x * y) == (2 * x) * y
  {
  }

  /** An address as its digits, `w` bits each, most significant first. */
  ghost predicate Digits(ds: seq<nat>, w: nat) {
    forall i :: 0 <= i < |ds| ==> ds[i] < Pow2(w)
  }

  function Number(ds: seq<nat>, w: nat): nat {
    if ds == [] then 0 else ds[0] * Pow2(w * (|ds| - 1)) + Number(ds[1..], w)
  }

  /** The subnet check of the block list: whole digits first, then the bits that are left. */
  predicate PrefixMatch(ds: seq<nat>, net: seq<nat>, bits: nat, w: nat)
    requires |ds| == |net|
  {
    if ds == [] || bits == 0 then true
    else if bits < w then ds[0] / Pow2(w - bits) == net[0] / Pow2(w - bits)
    else ds[0] == net[0] && PrefixMatch(ds[1..], net[1..], bits - w, w)
  }

  lemma {:induction false} NumberBound(ds: seq<nat>, w: nat)
    requires Digits(ds, w)
    ensures Number(ds, w) < Pow2(w * |ds|)
  {
    hide Pow2;
    if ds == [] {
      assert w * |ds| == 0;
    } else {
      NumberBound(ds[1..], w);
      var m := Pow2(w * (|ds| - 1));
      assert w * |ds| == w + w * (|ds| - 1);
      Pow2Add(w, w * (|ds| - 1));
      TopDigit(ds[0], Pow2(w), m);
    }
  }

  lemma TopDigit(d: nat, b: nat, m: nat)
    requires d < b
    ensures d * m + m <= b * m
  {
    var k: nat := b - d - 1;
    assert b * m == (k + (d + 1)) * m == k * m + (d * m + m);
    NaturalProduct(k, m);
  }

  lemma NaturalProduct(k: nat, m: nat)
    ensures 0 <= k * m
  {
  }

  lemma QuotientUnique(n: nat, d: nat, q: nat, r: nat)
    requires 0 < d && r < d && n == q * d + r
    ensures n / d == q && n % d == r
  {
    var p, s := n / d, n % d;
    assert n == p * d + s;
    if p < q {
      TopDigit(p, q, d);
      assert false;
    }
    if q < p {
      TopDigit(q, p, d);
      assert false;
    }
  }

  lemma QuotientSplit(q: nat, r: nat, d: nat)
    requires 0 < d
    ensures (q * d + r) / d == q + r / d
  {
    var p, s := r / d, r % d;
    assert r == p * d + s;
    assert q * d + r == (q + p) * d + s;
    QuotientUnique(q * d + r, d, q + p, s);
  }

  lemma QuotientBelow(r: nat, c: nat, d: nat)
    requires 0 < d && r < c * d
    ensures r / d < c
  {
    var p, s := r / d, r % d;
    assert r == p * d + s;
    if c < p {
      TopDigit(c, p, d);
      assert false;
    }
  }

  /** A number with a high part `a` over `c * d` and a low part `r` below it, divided by `d`. */
  lemma QuotientOfParts(a: nat, r: nat, c: nat, d: nat)
    requires 0 < c && 0 < d && r < c * d
    ensures (a * (c * d) + r) / d == a * c + r / d && r / d < c
  {
    assert a * (c * d) == (a * c) * d;
    QuotientSplit(a * c, r, d);
    QuotientBelow(r, c, d);
  }

  lemma QuotientsAgree(a: nat, b: nat, r: nat, s: nat, c: nat, d: nat)
    requires 0 < c && 0 < d && r < c * d && s < c * d
    ensures (a * (c * d) + r) / d == (b * (c * d) + s) / d <==> a == b && r / d == s / d
  {
    QuotientOfParts(a, r, c, d);
    QuotientOfParts(b, s, c, d);
    SameParts(a, b, r / d, s / d, c);
  }

  lemma SameParts(a: nat, b: nat, u: nat, v: nat, c: nat)
    requires u < c && v < c
    ensures a * c + u == b * c + v <==> a == b && u == v
  {
    if a * c + u == b * c + v {
      QuotientUnique(a * c + u, c, a, u);
      QuotientUnique(b * c + v, c, b, v);
    }
  }

  /** Matching a prefix digit by digit is comparing the leading bits of the whole number. */
  lemma {:induction false} PrefixIsQuotient(ds: seq<nat>, net: seq<nat>, bits: nat, w: nat)
    requires |ds| == |net| && Digits(ds, w) && Digits(net, w) && bits <= w * |ds|
    ensures PrefixMatch(ds, net, bits, w) <==>
      Number(ds, w) / Pow2(w * |ds| - bits) == Number(net, w) / Pow2(w * |ds| - bits)
  {
    hide Pow2;
    if ds == [] {
    } else if bits == 0 {
      NumberBound(ds, w);
      NumberBound(net, w);
      QuotientUnique(Number(ds, w), Pow2(w * |ds|), 0, Number(ds, w));
      QuotientUnique(Number(net, w), Pow2(w * |ds|), 0, Number(net, w));
    } else {
      var n := w * (|ds| - 1);
      assert w * |ds| == w + n;
      NumberBound(ds[1..], w);
      NumberBound(net[1..], w);
      var x, y := Number(ds[1..], w), Number(net[1..], w);
      if bits < w {
        Pow2Add(w - bits, n);
        LeadingDigit(ds[0], x, Pow2(n), Pow2(w - bits));
        LeadingDigit(net[0], y, Pow2(n), Pow2(w - bits));
      } else {
        PrefixIsQuotient(ds[1..], net[1..], bits - w, w);
        Pow2Add(bits - w, n - (bits - w));
        QuotientsAgree(ds[0], net[0], x, y, Pow2(bits - w), Pow2(n - (bits - w)));
      }
    }
  }

  lemma LeadingDigit(d: nat, x: nat, m: nat, k: nat)
    requires 0 < m && 0 < k && x < m
    ensures (d * m + x) / (k * m) == d / k
  {
    assert d == d / k * k + d % k;
    TopDigit(d % k, k, m);
    assert d * m + x == d / k * (k * m) + (d % k * m + x) by {
      assert d * m == (d / k * k + d % k) * m == d / k * k * m + d % k * m;
      assert d / k * k * m == d / k * (k * m);
    }
    QuotientUnique(d * m + x, k * m, d / k, d % k * m + x);
  }

  // ------------------------------------------------------------ The rules

  datatype Rule = Rule(net: seq<nat>, bits: nat)

  const V4_RULES: seq<Rule> := [
    Rule([0, 0, 0, 0], 8),
    Rule([10, 0, 0, 0], 8),
    Rule([100, 64, 0, 0], 10),
    Rule([127, 0, 0, 0], 8),
    Rule([169, 254, 0, 0], 16),
    Rule([172, 16, 0, 0], 12),
    Rule([192, 0, 0, 0], 24),
    Rule([192, 0, 2, 0], 24),
    Rule([192, 88, 99, 0], 24),
    Rule([192, 168, 0, 0], 16),
    Rule([198, 18, 0, 0], 15),
    Rule([198, 51, 100, 0], 24),
    Rule([203, 0, 113, 0], 24),
    Rule([224, 0, 0, 0], 4),
    Rule([240, 0, 0, 0], 4)
  ]

  const V6_RULES: seq<Rule> := [
    Rule([0, 0, 0, 0, 0, 0, 0, 0], 96),
    Rule([0x100, 0, 0, 0, 0, 0, 0, 0], 64),
    Rule([0x2001, 0, 0, 0, 0, 0, 0, 0], 23),
    Rule([0x2001, 0xdb8, 0, 0, 0, 0, 0, 0], 32),
    Rule([0xfc00, 0, 0, 0, 0, 0, 0, 0], 7),
    Rule([0xfe80, 0, 0, 0, 0, 0, 0, 0], 10),
    Rule([0xfec0, 0, 0, 0, 0, 0, 0, 0], 10),
    Rule([0xff00, 0, 0, 0, 0, 0, 0, 0], 8)
  ]

  const MAPPED: seq<nat> := [0, 0, 0, 0, 0, 0xffff, 0, 0]
  const NAT64: seq<nat> := [0x64, 0xff9b, 0, 0, 0, 0, 0, 0]
  const SIX_TO_FOUR: seq<nat> := [0x2002, 0, 0, 0, 0, 0, 0, 0]

  /** The rules are written for addresses of `size` digits of `w` bits. */
  ghost predicate Written(rules: seq<Rule>, size: nat, w: nat) {
    forall i :: 0 <= i < |rules| ==> |rules[i].net| == size && Digits(rules[i].net, w) && rules[i].bits <= w * size
  }

  /** `BlockList.check`: some rule's prefix matches. */
  predicate Check(rules: seq<Rule>, ds: seq<nat>, w: nat) {
    exists i :: 0 <= i < |rules| && |rules[i].net| == |ds| && PrefixMatch(ds, rules[i].net, rules[i].bits, w)
  }

  /** The same on whole numbers: some rule agrees on the leading bits. */
  ghost predicate InRules(rules: seq<Rule>, n: nat, size: nat, w: nat) {
    exists i :: 0 <= i < |rules| && Leads(rules[i].net, rules[i].bits, n, size, w)
  }

  ghost predicate Leads(net: seq<nat>, bits: nat, n: nat, size: nat, w: nat) {
    bits <= w * size && n / Pow2(w * size - bits) == Number(net, w) / Pow2(w * size - bits)
  }

  lemma CheckIsNumeric(rules: seq<Rule>, ds: seq<nat>, w: nat)
    requires Written(rules, |ds|, w) && Digits(ds, w)
    ensures Check(rules, ds, w) <==> InRules(rules, Number(ds, w), |ds|, w)
  {
    hide PrefixMatch, Leads, Digits;
    forall i | 0 <= i < |rules|
      ensures PrefixMatch(ds, rules[i].net, rules[i].bits, w) <==>
        Leads(rules[i].net, rules[i].bits, Number(ds, w), |ds|, w)
    {
      LeadsIsMatch(ds, rules[i].net, rules[i].bits, w);
    }
  }

  lemma LeadsIsMatch(ds: seq<nat>, net: seq<nat>, bits: nat, w: nat)
    requires |ds| == |net| && Digits(ds, w) && Digits(net, w) && bits <= w * |ds|
    ensures PrefixMatch(ds, net, bits, w) <==> Leads(net, bits, Number(ds, w), |ds|, w)
  {
    hide Pow2, Number, PrefixMatch, Digits;
    PrefixIsQuotient(ds, net, bits, w);
  }

  // ------------------------------------------------------------ The classifier

  function Octets(v: V4): (ds: seq<nat>) {
    [v.a, v.b, v.c, v.d]
  }

  /** `v4From(hi, lo)` as octets; its text is `V4Text` of them. */
  function V4From(hi: nat, lo: nat): (v: V4)
    ensures hi < 0x1_0000 && lo < 0x1_0000 ==> v.Valid()
  {
    V4(hi / 0x100, hi % 0x100, lo / 0x100, lo % 0x100)
  }

  ghost predicate IsIPv4(s: string) {
    exists v: V4 :: v.Valid() && s == V4Text(v)
  }

  ghost predicate IsIPv6(s: string) {
    exists f: Form :: ValidForm(f) && s == Render(f)
  }

  lemma V4TextInjective(v: V4, w: V4)
    requires V4Text(v) == V4Text(w)
    ensures v == w
  {
    hide Split, V4Text;
    V4TextIsDotted(v);
    V4TextIsDotted(w);
    assert Decimal(v.a) == Decimal(w.a) && Decimal(v.b) == Decimal(w.b) && Decimal(v.c) == Decimal(w.c)
      && Decimal(v.d) == Decimal(w.d);
  }

  ghost predicate BlockedV4(v: V4) {
    Check(V4_RULES, Octets(v), 8)
  }

  lemma V4TextIsIPv4(v: V4)
    requires v.Valid()
    ensures IsIPv4(V4Text(v))
  {
  }

  /** The IPv4 address an IPv6 address embeds: mapped, NAT64 or 6to4. */
  function Embedded(g: seq<nat>): (v: Option<V4>)
    requires IsGroups(g)
    ensures v.Some? ==> v.value.Valid()
  {
    if (forall i :: 0 <= i < 5 ==> g[i] == 0) && g[5] == 0xffff then Some(V4From(g[6], g[7]))
    else if g[0] == 0x64 && g[1] == 0xff9b && (forall i :: 2 <= i < 6 ==> g[i] == 0) then Some(V4From(g[6], g[7]))
    else if g[0] == 0x2002 then Some(V4From(g[1], g[2]))
    else None
  }

  /** `isBlockedAddress`; an IPv6 address recurses into the text of the IPv4 address it embeds. */
  ghost predicate IsBlockedAddress(address: string)
    decreases if IsIPv4(address) then 0 else 1
  {
    if IsIPv4(address) then
      var v: V4 :| v.Valid() && address == V4Text(v);
      BlockedV4(v)
    else if !IsIPv6(address) then true
    else match Ipv6Groups(address)
      case None => true
      case Some(g) =>
        match Embedded(g)
        case Some(v) =>
          V4TextIsIPv4(v);
          IsBlockedAddress(V4Text(v))
        case None => Check(V6_RULES, g, 16)
  }

  /** What the classifier should say of a 128-bit address. */
  ghost predicate BlockedNumber(n: nat) {
    if Leads(MAPPED, 96, n, 8, 16) || Leads(NAT64, 96, n, 8, 16) then InRules(V4_RULES, n % Pow2(32), 4, 8)
    else if Leads(SIX_TO_FOUR, 16, n, 8, 16) then InRules(V4_RULES, n / Pow2(80) % Pow2(32), 4, 8)
    else InRules(V6_RULES, n, 8, 16)
  }

  // ------------------------------------------------------------ Its meaning

  lemma Powers()
    ensures Pow2(8) == 0x100 && Pow2(16) == 0x1_0000 && Pow2(24) == 0x100_0000 && Pow2(32) == 0x1_0000_0000
  {
    assert Pow2(4) == 16;
    Pow2Add(4, 4);
    Pow2Add(8, 8);
    Pow2Add(16, 8);
    Pow2Add(16, 16);
  }

  lemma {:induction false} MatchWhole(ds: seq<nat>, net: seq<nat>, k: nat)
    requires |ds| == |net| && k <= |ds|
    ensures PrefixMatch(ds, net, 16 * k, 16) <==> forall i :: 0 <= i < k ==> ds[i] == net[i]
  {
    if k > 0 {
      MatchWhole(ds[1..], net[1..], k - 1);
      assert 16 * k - 16 == 16 * (k - 1);
      if forall i :: 0 <= i < k ==> ds[i] == net[i] {
        assert forall i :: 0 <= i < k - 1 ==> ds[1..][i] == net[1..][i];
      }
      if ds[0] == net[0] && forall i :: 0 <= i < k - 1 ==> ds[1..][i] == net[1..][i] {
        assert forall i :: 1 <= i < k ==> ds[i] == ds[1..][i - 1] == net[1..][i - 1] == net[i];
      }
    }
  }

  lemma {:induction false} NumberAppend(a: seq<nat>, b: seq<nat>, w: nat)
    ensures Number(a + b, w) == Number(a, w) * Pow2(w * |b|) + Number(b, w)
  {
    hide Pow2;
    if a == [] {
      assert a + b == b;
    } else {
      assert (a + b)[1..] == a[1..] + b;
      NumberAppend(a[1..], b, w);
      assert w * (|a| + |b| - 1) == w * (|a| - 1) + w * |b|;
      Pow2Add(w * (|a| - 1), w * |b|);
      Distributes(a[0], Pow2(w * (|a| - 1)), Pow2(w * |b|), Number(a[1..], w));
    }
  }

  lemma Distributes(x: nat, p: nat, q: nat, y: nat)
    ensures x * (p * q) + y * q == (x * p + y) * q
  {
  }

  lemma TwoGroups(hi: nat, lo: nat)
    requires hi < 0x1_0000 && lo < 0x1_0000
    ensures Number([hi, lo], 16) == hi * 0x1_0000 + lo == Number(Octets(V4From(hi, lo)), 8)
    ensures Digits(Octets(V4From(hi, lo)), 8)
  {
    var v := V4From(hi, lo);
    NumberOfTwo(hi, lo);
    NumberOfFour(v.a, v.b, v.c, v.d);
  }

  lemma NumberSteps(d: nat, ds: seq<nat>, w: nat)
    ensures Number([d] + ds, w) == d * Pow2(w * |ds|) + Number(ds, w)
  {
    assert ([d] + ds)[1..] == ds;
  }

  lemma NumberOfTwo(hi: nat, lo: nat)
    ensures Number([hi, lo], 16) == hi * 0x1_0000 + lo
  {
    hide Pow2, Number;
    Powers();
    NoDigits();
    NumberSteps(lo, [], 16);
    NumberSteps(hi, [lo], 16);
    assert [lo] + [] == [lo] && [hi] + [lo] == [hi, lo];
  }

  lemma NumberOfFour(a: nat, b: nat, c: nat, d: nat)
    ensures Number([a, b, c, d], 8) == a * 0x100_0000 + b * 0x1_0000 + c * 0x100 + d
  {
    hide Pow2, Number;
    Powers();
    NoDigits();
    NumberSteps(d, [], 8);
    NumberSteps(c, [d], 8);
    NumberSteps(b, [c, d], 8);
    NumberSteps(a, [b, c, d], 8);
    assert [d] + [] == [d] && [c] + [d] == [c, d] && [b] + [c, d] == [b, c, d] && [a] + [b, c, d] == [a, b, c, d];
  }

  lemma NoDigits()
    ensures Number([], 16) == 0 == Number([], 8) && Pow2(0) == 1
  {
  }

  /** The low 32 bits, and the 32 bits behind the first group. */
  lemma EmbeddedNumbers(g: seq<nat>)
    requires IsGroups(g)
    ensures Number(g, 16) % Pow2(32) == Number([g[6], g[7]], 16)
    ensures Number(g, 16) / Pow2(80) % Pow2(32) == Number([g[1], g[2]], 16)
  {
    hide Pow2, Number;
    DigitsOfGroups(g);
    assert g == g[..6] + [g[6], g[7]];
    NumberAppend(g[..6], [g[6], g[7]], 16);
    NumberBound([g[6], g[7]], 16);
    QuotientUnique(Number(g, 16), Pow2(32), Number(g[..6], 16), Number([g[6], g[7]], 16));
    assert g == g[..3] + g[3..];
    NumberAppend(g[..3], g[3..], 16);
    NumberBound(g[3..], 16);
    QuotientUnique(Number(g, 16), Pow2(80), Number(g[..3], 16), Number(g[3..], 16));
    assert g[..3] == [g[0]] + [g[1], g[2]];
    NumberAppend([g[0]], [g[1], g[2]], 16);
    NumberBound([g[1], g[2]], 16);
    QuotientUnique(Number(g[..3], 16), Pow2(32), Number([g[0]], 16), Number([g[1], g[2]], 16));
  }

  lemma DigitsOfGroups(g: seq<nat>)
    requires IsGroups(g)
    ensures Digits(g, 16) && Digits([g[6], g[7]], 16) && Digits(g[3..], 16) && Digits([g[1], g[2]], 16)
  {
    Powers();
  }

  lemma RulesAreWritten()
    ensures Written(V4_RULES, 4, 8) && Written(V6_RULES, 8, 16)
    ensures Digits(MAPPED, 16) && Digits(NAT64, 16) && Digits(SIX_TO_FOUR, 16)
  {
    hide Pow2, Written;
    Powers();
    V4RulesWritten();
    V6RulesWritten();
  }

  lemma V4RulesWritten()
    ensures Written(V4_RULES, 4, 8)
  {
    hide Pow2, Digits;
    Powers();
    forall i | 0 <= i < |V4_RULES| ensures |V4_RULES[i].net| == 4 && Digits(V4_RULES[i].net, 8) {
      var n := V4_RULES[i].net;
      FourDigits(n[0], n[1], n[2], n[3]);
      assert n == [n[0], n[1], n[2], n[3]];
    }
  }

  lemma FourDigits(a: nat, b: nat, c: nat, d: nat)
    requires a < 0x100 && b < 0x100 && c < 0x100 && d < 0x100
    ensures Digits([a, b, c, d], 8)
  {
    Powers();
  }

  lemma V6RulesWritten()
    ensures Written(V6_RULES, 8, 16)
  {
    hide Pow2, Digits;
    Powers();
    forall i | 0 <= i < |V6_RULES| ensures |V6_RULES[i].net| == 8 && Digits(V6_RULES[i].net, 16) {
      var n := V6_RULES[i].net;
      TwoDigitsThenZeros(n[0], n[1]);
      assert n == [n[0], n[1], 0, 0, 0, 0, 0, 0];
    }
  }

  lemma TwoDigitsThenZeros(a: nat, b: nat)
    requires a < 0x1_0000 && b < 0x1_0000
    ensures Digits([a, b, 0, 0, 0, 0, 0, 0], 16)
  {
    Powers();
  }

  /** The groups decide like the number they write. */
  lemma EmbeddedIsNumeric(g: seq<nat>)
    requires IsGroups(g)
    ensures Leads(MAPPED, 96, Number(g, 16), 8, 16) <==> forall i :: 0 <= i < 6 ==> g[i] == MAPPED[i]
    ensures Leads(NAT64, 96, Number(g, 16), 8, 16) <==> forall i :: 0 <= i < 6 ==> g[i] == NAT64[i]
    ensures Leads(SIX_TO_FOUR, 16, Number(g, 16), 8, 16) <==> g[0] == 0x2002
  {
    hide Pow2, Number, Leads, PrefixMatch, Digits;
    RulesAreWritten();
    DigitsOfGroups(g);
    LeadsIsMatch(g, MAPPED, 96, 16);
    LeadsIsMatch(g, NAT64, 96, 16);
    LeadsIsMatch(g, SIX_TO_FOUR, 16, 16);
    MatchWhole(g, MAPPED, 6);
    MatchWhole(g, NAT64, 6);
    MatchWhole(g, SIX_TO_FOUR, 1);
  }

  lemma GroupsBlockedIsNumeric(g: seq<nat>)
    requires IsGroups(g)
    ensures BlockedNumber(Number(g, 16)) <==>
      match Embedded(g)
      case Some(v) => BlockedV4(v)
      case None => Check(V6_RULES, g, 16)
  {
    hide Pow2, Number, Leads, InRules, Check, Digits, Written;
    RulesAreWritten();
    EmbeddedIsNumeric(g);
    EmbeddedNumbers(g);
    DigitsOfGroups(g);
    TwoGroups(g[6], g[7]);
    TwoGroups(g[1], g[2]);
    CheckIsNumeric(V4_RULES, Octets(V4From(g[6], g[7])), 8);
    CheckIsNumeric(V4_RULES, Octets(V4From(g[1], g[2])), 8);
    CheckIsNumeric(V6_RULES, g, 16);
  }

  /** An IPv4 address is blocked iff one of the IPv4 rules agrees on its leading bits. */
  lemma V4Classified(v: V4)
    requires v.Valid()
    ensures IsBlockedAddress(V4Text(v)) <==> BlockedV4(v)
    ensures BlockedV4(v) <==> InRules(V4_RULES, Number(Octets(v), 8), 4, 8)
  {
    hide V4Text, Check, Number, InRules;
    assert IsIPv4(V4Text(v));
    forall w: V4 | V4Text(v) == V4Text(w) ensures v == w { V4TextInjective(v, w); }
    RulesAreWritten();
    Powers();
    CheckIsNumeric(V4_RULES, Octets(v), 8);
  }

  lemma FormIsNotV4(f: Form)
    requires ValidForm(f)
    ensures !IsIPv4(Render(f))
  {
    hide V4Text, Join;
    if v: V4 :| v.Valid() && Render(f) == V4Text(v) {
      V4TextIsDotted(v);
      ColonInForm(f);
      assert false;
    }
  }

  lemma ColonInForm(f: Form)
    requires ValidForm(f)
    ensures ':' in Render(f)
  {
    if f.gap {
      assert Render(f)[|Join(f.head, ":")|] == ':';
    } else {
      var last := if f.dotted.Some? then [V4Text(f.dotted.value)] else [];
      var all := f.head + last;
      assert Join(all, ":") == all[0] + ":" + Join(all[1..], ":");
      assert Render(f)[|all[0]|] == ':';
    }
  }

  /**
   Whatever the written form of an IPv6 address, it is blocked iff the prefix
   test on its 128-bit number says so.
   */
  lemma EveryFormClassified(f: Form)
    requires ValidForm(f)
    ensures IsBlockedAddress(Render(f)) <==> BlockedNumber(Number(Meaning(f), 16))
  {
    hide Render, Ipv6Groups, BlockedNumber, Check, Number, V4Text, Values;
    FormIsNotV4(f);
    ParsesEveryForm(f);
    var g := Meaning(f);
    GroupsBlockedIsNumeric(g);
    if Embedded(g).Some? {
      V4Classified(Embedded(g).value);
    }
    assert IsIPv6(Render(f));
  }

  // ------------------------------------------------------------ Octets and groups

  /** What is not plainly public: the ranges the comments of the two lists name. */
  predicate V4Reserved(a: nat, b: nat, c: nat, d: nat) {
    || a == 0 || a == 10 || a == 127 || 224 <= a
    || (a == 100 && 64 <= b <= 127) || (a == 169 && b == 254) || (a == 172 && 16 <= b <= 31)
    || (a == 192 && (b == 168 || (b == 0 && (c == 0 || c == 2)) || (b == 88 && c == 99)))
    || (a == 198 && (18 <= b <= 19 || (b == 51 && c == 100)))
    || (a == 203 && b == 0 && c == 113)
  }

  predicate V6Reserved(g: seq<nat>)
    requires |g| == 8
  {
    || (g[0] == 0 && g[1] == 0 && g[2] == 0 && g[3] == 0 && g[4] == 0 && g[5] == 0)
    || (g[0] == 0x100 && g[1] == 0 && g[2] == 0 && g[3] == 0)
    || (g[0] == 0x2001 && (g[1] < 0x200 || g[1] == 0xdb8))
    || 0xfc00 <= g[0] <= 0xfdff || 0xfe80 <= g[0] <= 0xfeff || 0xff00 <= g[0]
  }

  /** `k` whole digits and `r` bits of the next. */
  lemma {:induction false} MatchParts(ds: seq<nat>, net: seq<nat>, k: nat, r: nat, w: nat)
    requires |ds| == |net| && r < w && k + (if r == 0 then 0 else 1) <= |ds|
    ensures PrefixMatch(ds, net, w * k + r, w) <==>
      && (forall i :: 0 <= i < k ==> ds[i] == net[i])
      && (r != 0 ==> ds[k] / Pow2(w - r) == net[k] / Pow2(w - r))
  {
    hide Pow2;
    if k > 0 {
      MatchParts(ds[1..], net[1..], k - 1, r, w);
      assert w * k + r - w == w * (k - 1) + r && w * k + r >= w;
      FirstAndRest(ds, net, k);
    }
  }

  lemma FirstAndRest(ds: seq<nat>, net: seq<nat>, k: nat)
    requires 0 < k <= |ds| == |net|
    ensures (forall i :: 0 <= i < k ==> ds[i] == net[i]) <==>
      ds[0] == net[0] && forall i :: 0 <= i < k - 1 ==> ds[1..][i] == net[1..][i]
  {
    if ds[0] == net[0] && forall i :: 0 <= i < k - 1 ==> ds[1..][i] == net[1..][i] {
      assert forall i :: 1 <= i < k ==> ds[i] == ds[1..][i - 1] == net[1..][i - 1] == net[i];
    }
  }

  lemma SmallPowers()
    ensures Pow2(1) == 2 && Pow2(4) == 16 && Pow2(6) == 64 && Pow2(9) == 512
  {
    Pow2Add(4, 4);
    assert Pow2(3) == 8;
    Pow2Add(3, 3);
    Pow2Doubles(8);
  }

  /** The range of each rule, as octets. */
  predicate InRange(v: V4, i: nat) {
    match i
    case 0 => v.a == 0
    case 1 => v.a == 10
    case 2 => v.a == 100 && 64 <= v.b <= 127
    case 3 => v.a == 127
    case 4 => v.a == 169 && v.b == 254
    case 5 => v.a == 172 && 16 <= v.b <= 31
    case 6 => v.a == 192 && v.b == 0 && v.c == 0
    case 7 => v.a == 192 && v.b == 0 && v.c == 2
    case 8 => v.a == 192 && v.b == 88 && v.c == 99
    case 9 => v.a == 192 && v.b == 168
    case 10 => v.a == 198 && 18 <= v.b <= 19
    case 11 => v.a == 198 && v.b == 51 && v.c == 100
    case 12 => v.a == 203 && v.b == 0 && v.c == 113
    case 13 => 224 <= v.a <= 239
    case 14 => 240 <= v.a
    case _ => false
  }

  /** Matching a rule of the list is lying in its range. */
  lemma RuleIsRange(v: V4, i: nat)
    requires v.Valid() && i < 15
    ensures |V4_RULES| == 15 && |V4_RULES[i].net| == 4
    ensures PrefixMatch(Octets(v), V4_RULES[i].net, V4_RULES[i].bits, 8) <==> InRange(v, i)
  {
    hide PrefixMatch, Pow2, InRange;
    assert V4_RULES[i].bits == 8 * (V4_RULES[i].bits / 8) + V4_RULES[i].bits % 8;
    MatchParts(Octets(v), V4_RULES[i].net, V4_RULES[i].bits / 8, V4_RULES[i].bits % 8, 8);
    if i < 5 { FirstRules(v, i); } else if i < 10 { MiddleRules(v, i); } else { LastRules(v, i); }
  }

  /** The octets that a rule fixes, and the bits of the next. */
  ghost predicate Parts(v: V4, rule: Rule)
    requires |rule.net| == 4 && rule.bits < 32
  {
    var ds, k, r := Octets(v), rule.bits / 8, rule.bits % 8;
    && (forall i :: 0 <= i < k ==> ds[i] == rule.net[i])
    && (r != 0 ==> ds[k] / Pow2(8 - r) == rule.net[k] / Pow2(8 - r))
  }

  lemma PartsOfRule(v: V4, a: nat, b: nat, c: nat, bits: nat)
    requires bits in {4, 8, 10, 12, 15, 16, 24}
    ensures Parts(v, Rule([a, b, c, 0], bits)) <==>
      && (bits == 4 ==> v.a / 16 == a / 16) && (8 <= bits ==> v.a == a)
      && (bits == 10 ==> v.b / 64 == b / 64) && (bits == 12 ==> v.b / 16 == b / 16) && (bits == 15 ==> v.b / 2 == b / 2)
      && (16 <= bits ==> v.b == b) && (24 <= bits ==> v.c == c)
  {
    hide Pow2;
    SmallPowers();
    var ds, net := Octets(v), [a, b, c, 0];
    assert ds[0] == v.a && ds[1] == v.b && ds[2] == v.c && net[0] == a && net[1] == b && net[2] == c;
  }

  lemma FirstRules(v: V4, i: nat)
    requires v.Valid() && 0 <= i < 5
    ensures Parts(v, V4_RULES[i]) <==> InRange(v, i)
  {
    hide Parts;
    var rule := V4_RULES[i];
    assert i == 0 ==> rule == Rule([0, 0, 0, 0], 8);
    assert i == 1 ==> rule == Rule([10, 0, 0, 0], 8);
    assert i == 2 ==> rule == Rule([100, 64, 0, 0], 10);
    assert i == 3 ==> rule == Rule([127, 0, 0, 0], 8);
    assert i == 4 ==> rule == Rule([169, 254, 0, 0], 16);
    PartsOfRule(v, rule.net[0], rule.net[1], rule.net[2], rule.bits);
    assert rule.net == [rule.net[0], rule.net[1], rule.net[2], 0];
  }

  lemma MiddleRules(v: V4, i: nat)
    requires v.Valid() && 5 <= i < 10
    ensures Parts(v, V4_RULES[i]) <==> InRange(v, i)
  {
    hide Parts;
    var rule := V4_RULES[i];
    assert i == 5 ==> rule == Rule([172, 16, 0, 0], 12);
    assert i == 6 ==> rule == Rule([192, 0, 0, 0], 24);
    assert i == 7 ==> rule == Rule([192, 0, 2, 0], 24);
    assert i == 8 ==> rule == Rule([192, 88, 99, 0], 24);
    assert i == 9 ==> rule == Rule([192, 168, 0, 0], 16);
    PartsOfRule(v, rule.net[0], rule.net[1], rule.net[2], rule.bits);
    assert rule.net == [rule.net[0], rule.net[1], rule.net[2], 0];
  }

  lemma LastRules(v: V4, i: nat)
    requires v.Valid() && 10 <= i < 15
    ensures Parts(v, V4_RULES[i]) <==> InRange(v, i)
  {
    hide Parts;
    var rule := V4_RULES[i];
    assert i == 10 ==> rule == Rule([198, 18, 0, 0], 15);
    assert i == 11 ==> rule == Rule([198, 51, 100, 0], 24);
    assert i == 12 ==> rule == Rule([203, 0, 113, 0], 24);
    assert i == 13 ==> rule == Rule([224, 0, 0, 0], 4);
    assert i == 14 ==> rule == Rule([240, 0, 0, 0], 4);
    PartsOfRule(v, rule.net[0], rule.net[1], rule.net[2], rule.bits);
    assert rule.net == [rule.net[0], rule.net[1], rule.net[2], 0];
  }

  lemma V4Ranges(v: V4)
    requires v.Valid()
    ensures BlockedV4(v) <==> V4Reserved(v.a, v.b, v.c, v.d)
  {
    hide PrefixMatch, InRange, V4_RULES;
    forall i | 0 <= i < 15
      ensures |V4_RULES| == 15 && |V4_RULES[i].net| == 4
        && (PrefixMatch(Octets(v), V4_RULES[i].net, V4_RULES[i].bits, 8) <==> InRange(v, i))
    {
      RuleIsRange(v, i);
    }
    assert |V4_RULES| == 15 by { RuleIsRange(v, 0); }
    assert BlockedV4(v) <==> exists i :: 0 <= i < 15 && InRange(v, i);
    RangesTogether(v);
  }

  lemma RangesTogether(v: V4)
    requires v.Valid()
    ensures (exists i :: 0 <= i < 15 && InRange(v, i)) <==> V4Reserved(v.a, v.b, v.c, v.d)
  {
    if V4Reserved(v.a, v.b, v.c, v.d) {
      assert InRange(v, 0) || InRange(v, 1) || InRange(v, 2) || InRange(v, 3) || InRange(v, 4)
        || InRange(v, 5) || InRange(v, 6) || InRange(v, 7) || InRange(v, 8) || InRange(v, 9)
        || InRange(v, 10) || InRange(v, 11) || InRange(v, 12) || InRange(v, 13) || InRange(v, 14);
    }
  }

  lemma V6Rule(g: seq<nat>, a: nat, b: nat, bits: nat)
    requires IsGroups(g) && bits in {7, 8, 10, 23, 32, 64, 96}
    ensures PrefixMatch(g, [a, b, 0, 0, 0, 0, 0, 0], bits, 16) <==>
      && (bits == 7 ==> g[0] / 512 == a / 512) && (bits == 8 ==> g[0] / 256 == a / 256)
      && (bits == 10 ==> g[0] / 64 == a / 64) && (23 <= bits ==> g[0] == a)
      && (bits == 23 ==> g[1] / 512 == b / 512) && (32 <= bits ==> g[1] == b)
      && (64 <= bits ==> g[2] == 0 && g[3] == 0) && (96 <= bits ==> g[4] == 0 && g[5] == 0)
  {
    hide PrefixMatch, Pow2;
    var net := [a, b, 0, 0, 0, 0, 0, 0];
    SmallPowers();
    Powers();
    assert bits == 16 * (bits / 16) + bits % 16;
    MatchParts(g, net, bits / 16, bits % 16, 16);
    assert net[0] == a && net[1] == b && net[2] == net[3] == net[4] == net[5] == 0;
  }

  lemma V6Ranges(g: seq<nat>)
    requires IsGroups(g)
    ensures Check(V6_RULES, g, 16) <==> V6Reserved(g)
  {
    hide PrefixMatch, Check;
    V6Rule(g, 0, 0, 96);
    V6Rule(g, 0x100, 0, 64);
    V6Rule(g, 0x2001, 0, 23);
    V6Rule(g, 0x2001, 0xdb8, 32);
    V6Rule(g, 0xfc00, 0, 7);
    V6Rule(g, 0xfe80, 0, 10);
    V6Rule(g, 0xfec0, 0, 10);
    V6Rule(g, 0xff00, 0, 8);
    V6RuleByRule(g);
  }

  lemma V6RuleByRule(g: seq<nat>)
    requires |g| == 8
    ensures Check(V6_RULES, g, 16) <==>
      || PrefixMatch(g, [0, 0, 0, 0, 0, 0, 0, 0], 96, 16)
      || PrefixMatch(g, [0x100, 0, 0, 0, 0, 0, 0, 0], 64, 16)
      || PrefixMatch(g, [0x2001, 0, 0, 0, 0, 0, 0, 0], 23, 16)
      || PrefixMatch(g, [0x2001, 0xdb8, 0, 0, 0, 0, 0, 0], 32, 16)
      || PrefixMatch(g, [0xfc00, 0, 0, 0, 0, 0, 0, 0], 7, 16)
      || PrefixMatch(g, [0xfe80, 0, 0, 0, 0, 0, 0, 0], 10, 16)
      || PrefixMatch(g, [0xfec0, 0, 0, 0, 0, 0, 0, 0], 10, 16)
      || PrefixMatch(g, [0xff00, 0, 0, 0, 0, 0, 0, 0], 8, 16)
  {
    hide PrefixMatch;
    assert forall i :: 0 <= i < 8 ==> |V6_RULES[i].net| == 8;
    if Check(V6_RULES, g, 16) {
      var i :| 0 <= i < |V6_RULES| && PrefixMatch(g, V6_RULES[i].net, V6_RULES[i].bits, 16);
    }
    assert V6_RULES[0] == Rule([0, 0, 0, 0, 0, 0, 0, 0], 96);
    assert V6_RULES[1] == Rule([0x100, 0, 0, 0, 0, 0, 0, 0], 64);
    assert V6_RULES[2] == Rule([0x2001, 0, 0, 0, 0, 0, 0, 0], 23);
    assert V6_RULES[3] == Rule([0x2001, 0xdb8, 0, 0, 0, 0, 0, 0], 32);
    assert V6_RULES[4] == Rule([0xfc00, 0, 0, 0, 0, 0, 0, 0], 7);
    assert V6_RULES[5] == Rule([0xfe80, 0, 0, 0, 0, 0, 0, 0], 10);
    assert V6_RULES[6] == Rule([0xfec0, 0, 0, 0, 0, 0, 0, 0], 10);
    assert V6_RULES[7] == Rule([0xff00, 0, 0, 0, 0, 0, 0, 0], 8);
  }

  /**
   The whole classifier on octets and groups: an IPv4 address is blocked iff it
   is reserved, an IPv6 address, however it is written, iff it is reserved or the
   IPv4 address that it maps, translates or tunnels to is; anything else is
   blocked.
   */
  lemma BlockedIffReserved(v: V4, f: Form, other: string)
    requires v.Valid() && ValidForm(f) && !IsIPv4(other) && !IsIPv6(other)
    ensures IsBlockedAddress(V4Text(v)) <==> V4Reserved(v.a, v.b, v.c, v.d)
    ensures var g := Meaning(f);
      && |g| == 8
      && (IsBlockedAddress(Render(f)) <==>
          if g[..6] == [0, 0, 0, 0, 0, 0xffff] || g[..6] == [0x64, 0xff9b, 0, 0, 0, 0]
          then V4Reserved(g[6] / 0x100, g[6] % 0x100, g[7] / 0x100, g[7] % 0x100)
          else if g[0] == 0x2002
          then V4Reserved(g[1] / 0x100, g[1] % 0x100, g[2] / 0x100, g[2] % 0x100)
          else V6Reserved(g))
    ensures IsBlockedAddress(other)
  {
    hide V4Text, Render, Meaning, V4Reserved, V6Reserved, BlockedV4, Check, BlockedNumber, Ipv6Groups, IsIPv4, IsIPv6;
    V4Classified(v);
    V4Ranges(v);
    ParsesEveryForm(f);
    EveryFormClassified(f);
    var g := Meaning(f);
    GroupsBlockedIsNumeric(g);
    EmbeddedByGroups(g);
    if Embedded(g).Some? { V4Ranges(Embedded(g).value); } else { V6Ranges(g); }
  }

  lemma EmbeddedByGroups(g: seq<nat>)
    requires IsGroups(g)
    ensures Embedded(g) ==
      if g[..6] == [0, 0, 0, 0, 0, 0xffff] || g[..6] == [0x64, 0xff9b, 0, 0, 0, 0]
      then Some(V4(g[6] / 0x100, g[6] % 0x100, g[7] / 0x100, g[7] % 0x100))
      else if g[0] == 0x2002 then Some(V4(g[1] / 0x100, g[1] % 0x100, g[2] / 0x100, g[2] % 0x100))
      else None
  {
    var six := g[..6];
    assert six[0] == g[0] && six[1] == g[1] && six[2] == g[2] && six[3] == g[3] && six[4] == g[4] && six[5] == g[5];
  }

  /** Two ways of writing one address are never told apart. */
  lemma FormsAgree(f: Form, h: Form)
    requires ValidForm(f) && ValidForm(h) && Meaning(f) == Meaning(h)
    ensures IsBlockedAddress(Render(f)) <==> IsBlockedAddress(Render(h))
  {
    EveryFormClassified(f);
    EveryFormClassified(h);
  }

  /** `::ffff:a.b.c.d` */
  function MappedForm(v: V4): Form {
    Form([], true, ["ffff"], Some(v), None)
  }

  /** `64:ff9b::a.b.c.d` */
  function Nat64Form(v: V4): Form {
    Form(["64", "ff9b"], true, [], Some(v), None)
  }

  /** `2002:hhhh:hhhh::` */
  function SixToFourForm(v: V4): Form {
    Form(["2002", Hex(v.a * 0x100 + v.b), Hex(v.c * 0x100 + v.d)], true, [], None, None)
  }

  /** An IPv4 address is blocked iff its IPv4-mapped, NAT64 and 6to4 addresses are. */
  lemma EmbeddingsAgree(v: V4)
    requires v.Valid()
    ensures IsBlockedAddress(Render(MappedForm(v))) <==> IsBlockedAddress(V4Text(v))
    ensures IsBlockedAddress(Render(Nat64Form(v))) <==> IsBlockedAddress(V4Text(v))
    ensures IsBlockedAddress(Render(SixToFourForm(v))) <==> IsBlockedAddress(V4Text(v))
  {
    hide Render, V4Text, Meaning, ValidForm, MappedForm, Nat64Form, SixToFourForm, IsBlockedAddress;
    assert V4From(v.a * 0x100 + v.b, v.c * 0x100 + v.d) == v;
    MappedMeaning(v);
    Nat64Meaning(v);
    SixToFourMeaning(v);
    EmbeddedBlocked(MappedForm(v), v);
    EmbeddedBlocked(Nat64Form(v), v);
    EmbeddedBlocked(SixToFourForm(v), v);
  }

  lemma EmbeddedBlocked(f: Form, v: V4)
    requires ValidForm(f) && v.Valid() && IsGroups(Meaning(f)) && Embedded(Meaning(f)) == Some(v)
    ensures IsBlockedAddress(Render(f)) <==> IsBlockedAddress(V4Text(v))
  {
    hide Render, BlockedNumber, Check, Number, V4Text, Values;
    EveryFormClassified(f);
    GroupsBlockedIsNumeric(Meaning(f));
    V4Classified(v);
  }

  lemma MappedMeaning(v: V4)
    requires v.Valid()
    ensures ValidForm(MappedForm(v))
      && Meaning(MappedForm(v)) == [0, 0, 0, 0, 0, 0xffff, v.a * 0x100 + v.b, v.c * 0x100 + v.d]
  {
    hide ParseHex, AllHex;
    ExampleGroups();
    NoValues();
    OneValue("ffff");
  }

  lemma Nat64Meaning(v: V4)
    requires v.Valid()
    ensures ValidForm(Nat64Form(v))
      && Meaning(Nat64Form(v)) == [0x64, 0xff9b, 0, 0, 0, 0, v.a * 0x100 + v.b, v.c * 0x100 + v.d]
  {
    hide ParseHex, AllHex;
    ExampleGroups();
    NoValues();
    GroupsAppend([], "64", "ff9b");
    assert [] + ["64", "ff9b"] == ["64", "ff9b"];
  }

  lemma SixToFourMeaning(v: V4)
    requires v.Valid()
    ensures ValidForm(SixToFourForm(v))
      && Meaning(SixToFourForm(v)) == [0x2002, v.a * 0x100 + v.b, v.c * 0x100 + v.d, 0, 0, 0, 0, 0]
  {
    hide ParseHex, AllHex, Hex;
    var hi, lo := v.a * 0x100 + v.b, v.c * 0x100 + v.d;
    HexLength(hi);
    HexLength(lo);
    ExampleGroups();
    NoValues();
    OneValue("2002");
    GroupsAppend(["2002"], Hex(hi), Hex(lo));
    assert ["2002"] + [Hex(hi), Hex(lo)] == ["2002", Hex(hi), Hex(lo)];
  }

  lemma OneValue(s: string)
    requires IsGroup(s)
    ensures Values([s]) == [ParseHex(s)]
  {
    assert Values([s]) == [ParseHex(s)] + Values([]);
  }

  lemma ExampleGroups()
    ensures IsGroup("ffff") && ParseHex("ffff") == 0xffff
    ensures IsGroup("64") && ParseHex("64") == 0x64
    ensures IsGroup("ff9b") && ParseHex("ff9b") == 0xff9b
    ensures IsGroup("2002") && ParseHex("2002") == 0x2002
  {
    assert "ffff"[..3] == "fff" && "fff"[..2] == "ff" && "ff"[..1] == "f" && "f"[..0] == "";
    assert "64"[..1] == "6" && "6"[..0] == "";
    assert "ff9b"[..3] == "ff9" && "ff9"[..2] == "ff";
    assert "2002"[..3] == "200" && "200"[..2] == "20" && "20"[..1] == "2" && "2"[..0] == "";
  }
}
