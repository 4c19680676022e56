/**
 The property filter of src/common/property-scope.ts: how a query on a
 property-scoped model is rewritten, and what that does to every run of
 operations on a table.
 */
module PropertyScope {
  import opened Wrappers
  import opened Text

  // ------------------------------------------------------------ Scopes

  datatype Scope = Scope(tenantId: string, propertyId: Option<string>, propertyIds: Option<seq<string>>)

  function CurrentScope(stored: Option<Scope>, tenantId: string): Option<Scope> {
    if stored.Some? && (tenantId == "" || Lower(stored.value.tenantId) == Lower(tenantId)) then stored else None
  }

  /** `withProperties`: the current property stays if it is among `ids`. */
  function WithProperties(stored: Option<Scope>, tenantId: string, ids: seq<string>): (s: Scope)
    ensures s.propertyIds == Some(ids) && (s.propertyId == None <==> ids == [])
    ensures s.propertyId.Some? ==> s.propertyId.value in ids
    ensures stored.Some? && (tenantId == "" || Lower(stored.value.tenantId) == Lower(tenantId)) ==>
      var current := stored.value.propertyId;
      current.Some? && current.value != "" && current.value in ids ==> s.propertyId == current
    ensures ids != [] && s.propertyId != Some(ids[0]) ==> stored.Some? && s.propertyId == stored.value.propertyId
    ensures ActiveFilter(Some(s), tenantId) == Some(ids)
  {
    var scope := CurrentScope(stored, tenantId);
    var current := if scope.Some? then scope.value.propertyId else None;
    Scope(tenantId,
          if current.Some? && current.value != "" && current.value in ids then current
          else if ids == [] then None else Some(ids[0]),
          Some(ids))
  }

  /** The filter a tenant transaction runs under; None is no filter. */
  function ActiveFilter(stored: Option<Scope>, tenantId: string): Option<seq<string>> {
    var scope := CurrentScope(stored, tenantId);
    if scope.Some? then scope.value.propertyIds else None
  }

  /** A transaction is filtered iff the scope is of its tenant, in whatever letters, and lists properties. */
  lemma FilteredExactly(stored: Option<Scope>, tenantId: string, ids: seq<string>)
    requires tenantId != ""
    ensures ActiveFilter(stored, tenantId) == Some(ids) <==>
      stored.Some? && Lower(stored.value.tenantId) == Lower(tenantId) && stored.value.propertyIds == Some(ids)
  {
  }

  // ------------------------------------------------------------ Queries

  /** A row of a property-scoped model, which always has a property. */
  datatype Row = Row(property: string, fields: map<string, string>)

  /** A `where` object: its own conditions, and its AND entry. */
  datatype Where = Where(conditions: seq<Condition>, and: AndEntry)

  datatype AndEntry = Absent | Single(w: Where) | List(ws: seq<Where>)

  datatype Condition =
    | PropertyIs(id: string)
    | PropertyIn(ids: seq<string>)
    | FieldIs(name: string, value: string)
    | Not(w: Where)
    | Or(ws: seq<Where>)

  predicate Matches(w: Where, row: Row)
    decreases w
  {
    && (forall i :: 0 <= i < |w.conditions| ==> Holds(w.conditions[i], row))
    && match w.and
       case Absent => true
       case Single(v) => Matches(v, row)
       case List(vs) => forall i :: 0 <= i < |vs| ==> Matches(vs[i], row)
  }

  predicate Holds(c: Condition, row: Row)
    decreases c
  {
    match c
    case PropertyIs(id) => row.property == id
    case PropertyIn(ids) => row.property in ids
    case FieldIs(name, value) => name in row.fields && row.fields[name] == value
    case Not(w) => !Matches(w, row)
    case Or(ws) => exists i :: 0 <= i < |ws| && Matches(ws[i], row)
  }

  predicate InScope(row: Row, ids: seq<string>) {
    row.property in ids
  }

  /** The extension's rewrite: the filter joins the AND list, everything else stays. */
  function Rewrite(w: Where, ids: seq<string>): Where {
    var condition := if |ids| == 1 then PropertyIs(ids[0]) else PropertyIn(ids);
    var and := match w.and
      case Absent => []
      case Single(v) => [v]
      case List(vs) => vs;
    Where(w.conditions, List(and + [Where([condition], Absent)]))
  }

  /** The rewritten query holds exactly on the rows of the original query that are in scope. */
  lemma RewriteMeaning(w: Where, ids: seq<string>, row: Row)
    ensures Matches(Rewrite(w, ids), row) <==> Matches(w, row) && InScope(row, ids)
  {
    var r := Rewrite(w, ids);
    var n := |r.and.ws| - 1;
    var filter := r.and.ws[n];
    assert filter.conditions[0] == if |ids| == 1 then PropertyIs(ids[0]) else PropertyIn(ids);
    assert Matches(filter, row) <==> InScope(row, ids);
    if Matches(w, row) && InScope(row, ids) {
      forall i | 0 <= i <= n ensures Matches(r.and.ws[i], row) {
        if i < n && w.and.List? { assert r.and.ws[i] == w.and.ws[i]; }
      }
    }
    if Matches(r, row) {
      match w.and {
        case Absent =>
        case Single(v) => assert r.and.ws[0] == v;
        case List(vs) => assert forall i :: 0 <= i < |vs| ==> r.and.ws[i] == vs[i];
      }
    }
  }

  // ------------------------------------------------------------ Operations

  /** The `data` of an update; a property in it, scalar or connected, is written as it is. */
  datatype Patch = Patch(property: Option<string>, fields: map<string, string>)

  /** The `data` of a create, with the property as a scalar id or as a relation to connect. */
  datatype Data = Data(scalar: Option<string>, connected: Option<string>, fields: map<string, string>)

  datatype Op =
    | FindFirst(where: Where)
    | FindMany(where: Where)
    | Count(where: Where)
    | Update(where: Where, patch: Patch)
    | UpdateMany(where: Where, patch: Patch)
    | Delete(where: Where)
    | DeleteMany(where: Where)
    | Create(data: Data)
    | CreateMany(list: seq<Data>)
    | Upsert(where: Where, data: Data, patch: Patch)

  datatype Reply = Rows(rows: seq<Row>) | Number(n: nat) | NotFound | Malformed | Denied(property: string)

  function Apply(p: Patch, row: Row): Row {
    Row(if p.property.Some? then p.property.value else row.property, row.fields + p.fields)
  }

  /** The row a create writes: its data names the property in exactly one of the two ways. */
  function Built(d: Data): Option<Row> {
    match (d.scalar, d.connected)
    case (Some(id), None) => Some(Row(id, d.fields))
    case (None, Some(id)) => Some(Row(id, d.fields))
    case _ => None
  }

  /** The rows a `createMany` writes, which takes no relations. */
  function BuiltMany(list: seq<Data>): (r: Option<seq<Row>>)
    ensures r.Some? ==>
      |r.value| == |list| && forall i :: 0 <= i < |list| ==> list[i].scalar == Some(r.value[i].property)
  {
    if list == [] then Some([])
    else
      var rest := BuiltMany(list[1..]);
      if list[0].scalar == None || list[0].connected.Some? || rest == None then None
      else Some([Row(list[0].scalar.value, list[0].fields)] + rest.value)
  }

  function Select(rows: seq<Row>, w: Where): seq<Row> {
    if rows == [] then [] else (if Matches(w, rows[0]) then [rows[0]] else []) + Select(rows[1..], w)
  }

  /** Every matching row gives way to what `to` makes of it. */
  function ReplaceAll(rows: seq<Row>, w: Where, to: Row -> seq<Row>): seq<Row> {
    if rows == [] then [] else (if Matches(w, rows[0]) then to(rows[0]) else [rows[0]]) + ReplaceAll(rows[1..], w, to)
  }

  /** The first matching row gives way to what `to` makes of it. */
  function ReplaceFirst(rows: seq<Row>, w: Where, to: Row -> seq<Row>): seq<Row> {
    if rows == [] then []
    else if Matches(w, rows[0]) then to(rows[0]) + rows[1..]
    else [rows[0]] + ReplaceFirst(rows[1..], w, to)
  }

  function Patched(p: Patch): Row -> seq<Row> {
    (row: Row) => [Apply(p, row)]
  }

  function Removed(): Row -> seq<Row> {
    (row: Row) => []
  }

  /** What the database does with a query. */
  function Run(op: Op, table: seq<Row>): (Reply, seq<Row>) {
    match op
    case FindFirst(w) => (Rows(if Select(table, w) == [] then [] else Select(table, w)[..1]), table)
    case FindMany(w) => (Rows(Select(table, w)), table)
    case Count(w) => (Number(|Select(table, w)|), table)
    case Update(w, p) =>
      if Select(table, w) == [] then (NotFound, table)
      else (Rows([Apply(p, Select(table, w)[0])]), ReplaceFirst(table, w, Patched(p)))
    case UpdateMany(w, p) => (Number(|Select(table, w)|), ReplaceAll(table, w, Patched(p)))
    case Delete(w) =>
      if Select(table, w) == [] then (NotFound, table)
      else (Rows(Select(table, w)[..1]), ReplaceFirst(table, w, Removed()))
    case DeleteMany(w) => (Number(|Select(table, w)|), ReplaceAll(table, w, Removed()))
    case Create(d) =>
      if Built(d) == None then (Malformed, table) else (Rows([Built(d).value]), table + [Built(d).value])
    case CreateMany(list) =>
      if BuiltMany(list) == None then (Malformed, table) else (Number(|list|), table + BuiltMany(list).value)
    case Upsert(w, d, p) =>
      if Built(d) == None then (Malformed, table)
      else if Select(table, w) == [] then (Rows([Built(d).value]), table + [Built(d).value])
      else (Rows([Apply(p, Select(table, w)[0])]), ReplaceFirst(table, w, Patched(p)))
  }

  // ------------------------------------------------------------ The guard

  /** The check looks at a scalar id only; a connected property passes. */
  predicate MayCreate(d: Data, ids: seq<string>) {
    d.scalar.Some? ==> d.scalar.value in ids
  }

  /** The first scalar property id out of scope. */
  function Offence(list: seq<Data>, ids: seq<string>): (r: Option<string>)
    ensures r == None <==> forall d :: d in list ==> MayCreate(d, ids)
    ensures r.Some? ==> r.value !in ids && exists d :: d in list && d.scalar == r
  {
    if list == [] then None
    else if !MayCreate(list[0], ids) then list[0].scalar
    else
      var r := Offence(list[1..], ids);
      assert list == [list[0]] + list[1..];
      r
  }

  method CheckCreate(list: seq<Data>, ids: seq<string>) returns (r: Option<string>)
    ensures r == Offence(list, ids)
  {
    for i := 0 to |list|
      invariant Offence(list[i..], ids) == Offence(list, ids)
    {
      if list[i].scalar.Some? && list[i].scalar.value !in ids { return list[i].scalar; }
    }
    r := None;
  }

  function Guard(op: Op, ids: seq<string>): Result<Op, string> {
    match op
    case FindFirst(w) => Ok(FindFirst(Rewrite(w, ids)))
    case FindMany(w) => Ok(FindMany(Rewrite(w, ids)))
    case Count(w) => Ok(Count(Rewrite(w, ids)))
    case Update(w, p) => Ok(Update(Rewrite(w, ids), p))
    case UpdateMany(w, p) => Ok(UpdateMany(Rewrite(w, ids), p))
    case Delete(w) => Ok(Delete(Rewrite(w, ids)))
    case DeleteMany(w) => Ok(DeleteMany(Rewrite(w, ids)))
    case Create(d) => if Offence([d], ids).Some? then Err(Offence([d], ids).value) else Ok(op)
    case CreateMany(list) => if Offence(list, ids).Some? then Err(Offence(list, ids).value) else Ok(op)
    case Upsert(w, d, p) =>
      if Offence([d], ids).Some? then Err(Offence([d], ids).value) else Ok(Upsert(Rewrite(w, ids), d, p))
  }

  /** An operation on a property-scoped model, under a filter. */
  function Execute(op: Op, ids: seq<string>, table: seq<Row>): (Reply, seq<Row>) {
    match Guard(op, ids)
    case Err(pid) => (Denied(pid), table)
    case Ok(q) => Run(q, table)
  }

  // ------------------------------------------------------------ Non-interference

  function Visible(rows: seq<Row>, ids: seq<string>): seq<Row> {
    if rows == [] then [] else (if InScope(rows[0], ids) then [rows[0]] else []) + Visible(rows[1..], ids)
  }

  function Hidden(rows: seq<Row>, ids: seq<string>): seq<Row> {
    if rows == [] then [] else (if InScope(rows[0], ids) then [] else [rows[0]]) + Hidden(rows[1..], ids)
  }

  /** The query reaches rows in scope only. */
  ghost predicate Confined(w: Where, ids: seq<string>) {
    forall row :: Matches(w, row) ==> InScope(row, ids)
  }

  lemma RewriteConfines(w: Where, ids: seq<string>)
    ensures Confined(Rewrite(w, ids), ids)
  {
    forall row | Matches(Rewrite(w, ids), row) ensures InScope(row, ids) {
      RewriteMeaning(w, ids, row);
    }
  }

  lemma Regroup(a: seq<Row>, b: seq<Row>, c: seq<Row>)
    ensures a + b + c == a + (b + c)
  {
  }

  lemma {:induction false} VisibleAppend(a: seq<Row>, b: seq<Row>, ids: seq<string>)
    ensures Visible(a + b, ids) == Visible(a, ids) + Visible(b, ids)
    ensures Hidden(a + b, ids) == Hidden(a, ids) + Hidden(b, ids)
  {
    hide InScope;
    if a == [] {
      assert a + b == b && Visible(a, ids) + Visible(b, ids) == Visible(b, ids)
        && Hidden(a, ids) + Hidden(b, ids) == Hidden(b, ids);
    } else {
      assert (a + b)[1..] == a[1..] + b && (a + b)[0] == a[0];
      VisibleAppend(a[1..], b, ids);
      if InScope(a[0], ids) {
        Regroup([a[0]], Visible(a[1..], ids), Visible(b, ids));
      } else {
        Regroup([a[0]], Hidden(a[1..], ids), Hidden(b, ids));
      }
    }
  }

  /** A confined query selects the same rows from the table and from its visible part. */
  lemma {:induction false} SelectsVisible(rows: seq<Row>, w: Where, ids: seq<string>)
    requires Confined(w, ids)
    ensures Select(rows, w) == Select(Visible(rows, ids), w)
    ensures forall r :: r in Select(rows, w) ==> InScope(r, ids)
  {
    hide Matches;
    if rows != [] {
      SelectsVisible(rows[1..], w, ids);
      SelectAfter(rows[0], Visible(rows[1..], ids), w);
      if !InScope(rows[0], ids) { assert !Matches(w, rows[0]); }
    }
  }

  lemma SelectAfter(row: Row, rest: seq<Row>, w: Where)
    ensures Select([row] + rest, w) == (if Matches(w, row) then [row] else []) + Select(rest, w)
    ensures [] + rest == rest
  {
    hide Matches;
    assert ([row] + rest)[1..] == rest;
  }

  /**
   A write that turned `before` into `after`, and the visible part of `before`
   into `onVisible`: what it leaves visible depends on what was visible, and
   all that was hidden is still there.
   */
  ghost predicate WritesVisible(before: seq<Row>, after: seq<Row>, onVisible: seq<Row>, ids: seq<string>) {
    && Visible(after, ids) == Visible(onVisible, ids)
    && multiset(Hidden(before, ids)) <= multiset(Hidden(after, ids))
  }

  /** Rows in scope are not moved out of it. */
  ghost predicate MovesNothing(to: Row -> seq<Row>, ids: seq<string>) {
    forall row :: InScope(row, ids) ==> Hidden(to(row), ids) == []
  }

  lemma {:induction false} ReplaceAllVisible(rows: seq<Row>, w: Where, to: Row -> seq<Row>, ids: seq<string>)
    requires Confined(w, ids)
    ensures WritesVisible(rows, ReplaceAll(rows, w, to), ReplaceAll(Visible(rows, ids), w, to), ids)
    ensures MovesNothing(to, ids) ==> Hidden(ReplaceAll(rows, w, to), ids) == Hidden(rows, ids)
  {
    hide Matches, InScope, WritesVisible;
    if rows == [] {
      NothingWritten(rows, ids);
    } else {
      var rest, seen := rows[1..], Visible(rows[1..], ids);
      ReplaceAllVisible(rest, w, to, ids);
      var piece := if Matches(w, rows[0]) then to(rows[0]) else [rows[0]];
      assert ReplaceAll([rows[0]] + seen, w, to) == piece + ReplaceAll(seen, w, to) by {
        assert ([rows[0]] + seen)[1..] == seen;
      }
      WriteAddsRow(rows[0], rest, piece, ReplaceAll(rest, w, to), ReplaceAll(seen, w, to), Matches(w, rows[0]), ids);
      assert [] + seen == seen && [rows[0]] + rest == rows;
    }
  }

  lemma {:induction false} ReplaceFirstVisible(rows: seq<Row>, w: Where, to: Row -> seq<Row>, ids: seq<string>)
    requires Confined(w, ids)
    ensures WritesVisible(rows, ReplaceFirst(rows, w, to), ReplaceFirst(Visible(rows, ids), w, to), ids)
    ensures MovesNothing(to, ids) ==> Hidden(ReplaceFirst(rows, w, to), ids) == Hidden(rows, ids)
  {
    hide Matches, InScope, WritesVisible;
    if rows == [] {
      NothingWritten(rows, ids);
    } else {
      var rest, seen := rows[1..], Visible(rows[1..], ids);
      assert ([rows[0]] + seen)[1..] == seen && [] + seen == seen && [rows[0]] + rest == rows;
      if Matches(w, rows[0]) {
        SeenTwice(rest, ids);
        WriteAddsRow(rows[0], rest, to(rows[0]), rest, seen, true, ids);
      } else {
        ReplaceFirstVisible(rest, w, to, ids);
        WriteAddsRow(rows[0], rest, [rows[0]], ReplaceFirst(rest, w, to), ReplaceFirst(seen, w, to), false, ids);
      }
    }
  }

  lemma NothingWritten(rows: seq<Row>, ids: seq<string>)
    requires rows == []
    ensures WritesVisible(rows, [], [], ids)
  {
  }

  lemma {:induction false} SeenTwice(rows: seq<Row>, ids: seq<string>)
    ensures Visible(Visible(rows, ids), ids) == Visible(rows, ids)
    ensures WritesVisible(rows, rows, Visible(rows, ids), ids)
  {
    if rows != [] {
      SeenTwice(rows[1..], ids);
      assert ([rows[0]] + Visible(rows[1..], ids))[1..] == Visible(rows[1..], ids);
      assert [] + Visible(rows[1..], ids) == Visible(rows[1..], ids);
    }
  }

  /** One more row in front of a write. */
  lemma WriteAddsRow(row: Row, rest: seq<Row>, piece: seq<Row>, after: seq<Row>, onVisible: seq<Row>, matched: bool,
      ids: seq<string>)
    requires WritesVisible(rest, after, onVisible, ids)
    requires if matched then InScope(row, ids) else piece == [row]
    ensures WritesVisible([row] + rest, piece + after, if InScope(row, ids) then piece + onVisible else onVisible, ids)
    ensures Hidden(piece + after, ids) == Hidden(piece, ids) + Hidden(after, ids)
    ensures Hidden([row] + rest, ids) == (if InScope(row, ids) then [] else [row]) + Hidden(rest, ids)
    ensures !matched ==> Hidden(piece, ids) == if InScope(row, ids) then [] else [row]
  {
    hide Visible, Hidden, InScope;
    VisibleAppend([row], rest, ids);
    VisibleAppend(piece, after, ids);
    VisibleAppend(piece, onVisible, ids);
    OneRow(row, ids);
  }

  lemma OneRow(row: Row, ids: seq<string>)
    ensures Hidden([row], ids) == if InScope(row, ids) then [] else [row]
    ensures Visible([row], ids) == if InScope(row, ids) then [row] else []
  {
    hide InScope;
    assert Visible([row], ids) == (if InScope(row, ids) then [row] else []) + Visible([], ids);
    assert Hidden([row], ids) == (if InScope(row, ids) then [] else [row]) + Hidden([], ids);
  }

  /** The effect of an operation under the filter is determined by the rows in scope. */
  lemma ExecuteSeesOnlyScope(op: Op, ids: seq<string>, table: seq<Row>)
    ensures Execute(op, ids, table).0 == Execute(op, ids, Visible(table, ids)).0
    ensures WritesVisible(table, Execute(op, ids, table).1, Execute(op, ids, Visible(table, ids)).1, ids)
  {
    hide Run, Visible, WritesVisible, Rewrite, Offence, Built, BuiltMany;
    SeenTwice(table, ids);
    match op {
      case Create(d) => CreationSeesOnlyScope(op, ids, table);
      case CreateMany(list) => CreationSeesOnlyScope(op, ids, table);
      case _ =>
        RewriteConfines(op.where, ids);
        if Guard(op, ids).Ok? { RunSeesOnlyScope(Guard(op, ids).value, ids, table); }
    }
  }

  lemma CreationSeesOnlyScope(op: Op, ids: seq<string>, table: seq<Row>)
    requires op.Create? || op.CreateMany?
    ensures Run(op, table).0 == Run(op, Visible(table, ids)).0
    ensures WritesVisible(table, Run(op, table).1, Run(op, Visible(table, ids)).1, ids)
  {
    hide Visible, WritesVisible, Built, BuiltMany;
    SeenTwice(table, ids);
    match op {
      case Create(d) => if Built(d).Some? { AppendVisible(table, [Built(d).value], ids); }
      case CreateMany(list) => if BuiltMany(list).Some? { AppendVisible(table, BuiltMany(list).value, ids); }
    }
  }

  /** What the database does with a confined query. */
  lemma RunSeesOnlyScope(op: Op, ids: seq<string>, table: seq<Row>)
    requires !op.Create? && !op.CreateMany? && Confined(op.where, ids)
    ensures Run(op, table).0 == Run(op, Visible(table, ids)).0
    ensures WritesVisible(table, Run(op, table).1, Run(op, Visible(table, ids)).1, ids)
  {
    hide Visible, Confined, WritesVisible, Select, ReplaceAll, ReplaceFirst, Built;
    SeenTwice(table, ids);
    SelectsVisible(table, op.where, ids);
    match op {
      case Upsert(w, d, p) =>
        ReplaceFirstVisible(table, w, Patched(p), ids);
        if Built(d).Some? { AppendVisible(table, [Built(d).value], ids); }
      case Update(w, p) => ReplaceFirstVisible(table, w, Patched(p), ids);
      case UpdateMany(w, p) => ReplaceAllVisible(table, w, Patched(p), ids);
      case Delete(w) => ReplaceFirstVisible(table, w, Removed(), ids);
      case DeleteMany(w) => ReplaceAllVisible(table, w, Removed(), ids);
      case _ =>
    }
  }

  /** The data of the operation carries a scalar property id out of scope. */
  predicate NamesForeign(op: Op, ids: seq<string>) {
    match op
    case Create(d) => d.scalar.Some? && d.scalar.value !in ids
    case CreateMany(list) => exists d :: d in list && d.scalar.Some? && d.scalar.value !in ids
    case Upsert(_, d, _) => d.scalar.Some? && d.scalar.value !in ids
    case _ => false
  }

  /**
   What an operation under the filter does: it is refused if its data names a
   property out of scope, and otherwise does to the rows in scope just what the
   operation that was asked for does on a table of those rows alone.
   */
  lemma ExecuteActsInScope(op: Op, ids: seq<string>, table: seq<Row>)
    ensures NamesForeign(op, ids) ==>
      Execute(op, ids, table).0.Denied? && Execute(op, ids, table).1 == table
        && Execute(op, ids, table).0.property !in ids
    ensures !NamesForeign(op, ids) ==>
      && Execute(op, ids, table).0 == Run(op, Visible(table, ids)).0
      && Visible(Execute(op, ids, table).1, ids) == Visible(Run(op, Visible(table, ids)).1, ids)
  {
    hide Run, Rewrite, Visible, Offence;
    RefusedExactly(op, ids);
    ExecuteSeesOnlyScope(op, ids, table);
    VisibleInScope(table, ids);
    if Guard(op, ids).Ok? { GuardIdleInScope(op, ids, Visible(table, ids)); }
  }

  lemma RefusedExactly(op: Op, ids: seq<string>)
    ensures NamesForeign(op, ids) <==> Guard(op, ids).Err?
    ensures Guard(op, ids).Err? ==> Guard(op, ids).error !in ids
  {
    hide Rewrite;
    match op {
      case Create(d) => assert d in [d];
      case Upsert(w, d, p) => assert d in [d];
      case _ =>
    }
  }

  lemma {:induction false} VisibleInScope(rows: seq<Row>, ids: seq<string>)
    ensures forall row :: row in Visible(rows, ids) ==> InScope(row, ids)
  {
    hide InScope;
    if rows != [] {
      VisibleInScope(rows[1..], ids);
    }
  }

  /** On rows in scope the filter makes no difference. */
  lemma GuardIdleInScope(op: Op, ids: seq<string>, rows: seq<Row>)
    requires Guard(op, ids).Ok? && forall row :: row in rows ==> InScope(row, ids)
    ensures Run(Guard(op, ids).value, rows) == Run(op, rows)
  {
    hide InScope, Rewrite, Offence, Select, ReplaceAll, ReplaceFirst, Built, BuiltMany;
    match op {
      case Create(d) =>
      case CreateMany(list) =>
      case Upsert(w, d, p) => SameInScope(rows, w, Patched(p), ids);
      case Update(w, p) => SameInScope(rows, w, Patched(p), ids);
      case UpdateMany(w, p) => SameInScope(rows, w, Patched(p), ids);
      case _ => SameInScope(rows, op.where, Removed(), ids);
    }
  }

  lemma {:induction false} SameInScope(rows: seq<Row>, w: Where, to: Row -> seq<Row>, ids: seq<string>)
    requires forall row :: row in rows ==> InScope(row, ids)
    ensures Select(rows, Rewrite(w, ids)) == Select(rows, w)
    ensures ReplaceAll(rows, Rewrite(w, ids), to) == ReplaceAll(rows, w, to)
    ensures ReplaceFirst(rows, Rewrite(w, ids), to) == ReplaceFirst(rows, w, to)
  {
    hide Matches, InScope, Rewrite;
    if rows != [] {
      RewriteMeaning(w, ids, rows[0]);
      assert rows[0] in rows;
      SameInScope(rows[1..], w, to, ids);
    }
  }

  lemma AppendVisible(table: seq<Row>, rows: seq<Row>, ids: seq<string>)
    ensures WritesVisible(table, table + rows, Visible(table, ids) + rows, ids)
  {
    VisibleAppend(table, rows, ids);
    VisibleAppend(Visible(table, ids), rows, ids);
    SeenTwice(table, ids);
  }

  /** Reads and deletes hand out rows in scope only. */
  lemma RepliesFromScope(op: Op, ids: seq<string>, table: seq<Row>)
    requires op.FindFirst? || op.FindMany? || op.Delete?
    ensures Execute(op, ids, table).0.Rows? ==> forall r :: r in Execute(op, ids, table).0.rows ==> InScope(r, ids)
  {
    hide Matches, InScope, Rewrite;
    RewriteConfines(op.where, ids);
    SelectsVisible(table, Rewrite(op.where, ids), ids);
  }

  // ------------------------------------------------------------ Rows that get out of scope

  predicate SetsForeign(p: Patch, ids: seq<string>) {
    p.property.Some? && p.property.value !in ids
  }

  /** A create that passes the check, and connects a property out of scope. */
  predicate ConnectsForeign(d: Data, ids: seq<string>) {
    d.scalar == None && d.connected.Some? && d.connected.value !in ids
  }

  /** The rows in scope that a query matches. */
  function Reached(w: Where, ids: seq<string>, table: seq<Row>): seq<Row> {
    Select(Visible(table, ids), w)
  }

  /**
   How many rows an operation puts out of scope: neither the data of an update
   nor the relations of a create are checked, so an update that sets a foreign
   property puts out all rows it changes, and a create that connects one the
   row it makes.
   */
  function PutOut(op: Op, ids: seq<string>, table: seq<Row>): nat {
    match op
    case Update(w, p) => if SetsForeign(p, ids) && Reached(w, ids, table) != [] then 1 else 0
    case UpdateMany(w, p) => if SetsForeign(p, ids) then |Reached(w, ids, table)| else 0
    case Create(d) => if ConnectsForeign(d, ids) then 1 else 0
    case Upsert(w, d, p) =>
      if !MayCreate(d, ids) || Built(d) == None then 0
      else if Reached(w, ids, table) == [] then if ConnectsForeign(d, ids) then 1 else 0
      else if SetsForeign(p, ids) then 1 else 0
    case _ => 0
  }

  lemma {:induction false} RewriteReaches(w: Where, ids: seq<string>, table: seq<Row>)
    ensures Select(table, Rewrite(w, ids)) == Reached(w, ids, table)
  {
    hide Matches, InScope, Rewrite;
    if table != [] {
      RewriteMeaning(w, ids, table[0]);
      RewriteReaches(w, ids, table[1..]);
      SelectAfter(table[0], Visible(table[1..], ids), w);
    }
  }

  lemma {:induction false} ReplaceAllPutsOut(rows: seq<Row>, w: Where, p: Patch, ids: seq<string>)
    requires Confined(w, ids) && SetsForeign(p, ids)
    ensures |Hidden(ReplaceAll(rows, w, Patched(p)), ids)| == |Hidden(rows, ids)| + |Select(rows, w)|
  {
    hide Matches;
    if rows != [] {
      var row, rest := rows[0], ReplaceAll(rows[1..], w, Patched(p));
      ReplaceAllPutsOut(rows[1..], w, p, ids);
      VisibleAppend(if Matches(w, row) then [Apply(p, row)] else [row], rest, ids);
      OneRow(row, ids);
      OneRow(Apply(p, row), ids);
    }
  }

  lemma {:induction false} ReplaceFirstPutsOut(rows: seq<Row>, w: Where, p: Patch, ids: seq<string>)
    requires Confined(w, ids) && SetsForeign(p, ids)
    ensures |Hidden(ReplaceFirst(rows, w, Patched(p)), ids)|
      == |Hidden(rows, ids)| + if Select(rows, w) == [] then 0 else 1
  {
    hide Matches;
    if rows != [] {
      var row, rest := rows[0], rows[1..];
      VisibleAppend([Apply(p, row)], rest, ids);
      OneRow(Apply(p, row), ids);
      if !Matches(w, row) {
        ReplaceFirstPutsOut(rest, w, p, ids);
        VisibleAppend([row], ReplaceFirst(rest, w, Patched(p)), ids);
        OneRow(row, ids);
      }
    }
  }

  lemma {:induction false} NothingSelected(rows: seq<Row>, w: Where, to: Row -> seq<Row>)
    requires Select(rows, w) == []
    ensures ReplaceAll(rows, w, to) == rows && ReplaceFirst(rows, w, to) == rows
  {
    hide Matches;
    if rows != [] {
      assert !Matches(w, rows[0]);
      NothingSelected(rows[1..], w, to);
    }
  }

  /**
   The exact rule of what an operation does to the rows out of scope: they stay
   as they are and none joins them, iff it neither sets a foreign property on a
   row it reaches nor creates a row connected to one; otherwise just the rows
   it changes or creates join them.
   */
  lemma HiddenRowsStay(op: Op, ids: seq<string>, table: seq<Row>)
    ensures var after := Execute(op, ids, table).1;
      && (Hidden(after, ids) == Hidden(table, ids) <==> PutOut(op, ids, table) == 0)
      && |Hidden(after, ids)| == |Hidden(table, ids)| + PutOut(op, ids, table)
  {
    hide Select, Reached, Rewrite, ReplaceAll, ReplaceFirst, SetsForeign, Hidden;
    hide MayCreate, ConnectsForeign, Built, BuiltMany, Offence;
    match op {
      case Create(d) => CreateEffect(table, d, ids);
      case CreateMany(list) =>
        if Offence(list, ids) == None && BuiltMany(list).Some? {
          CreateManyEffect(table, list, ids);
        }
      case Upsert(where, d, p) =>
        CreateEffect(table, d, ids);
        UpdateEffect(table, where, p, ids);
      case Update(where, p) => UpdateEffect(table, where, p, ids);
      case UpdateMany(where, p) => UpdateEffect(table, where, p, ids);
      case Delete(where) => DeleteEffect(table, where, ids);
      case DeleteMany(where) => DeleteEffect(table, where, ids);
      case _ =>
    }
  }

  lemma DeleteEffect(table: seq<Row>, where: Where, ids: seq<string>)
    ensures Hidden(ReplaceFirst(table, Rewrite(where, ids), Removed()), ids) == Hidden(table, ids)
    ensures Hidden(ReplaceAll(table, Rewrite(where, ids), Removed()), ids) == Hidden(table, ids)
  {
    hide Rewrite, WritesVisible, ReplaceFirst, ReplaceAll, Hidden;
    RewriteConfines(where, ids);
    RemovalMovesNothing(ids);
    ReplaceFirstVisible(table, Rewrite(where, ids), Removed(), ids);
    ReplaceAllVisible(table, Rewrite(where, ids), Removed(), ids);
  }

  lemma RemovalMovesNothing(ids: seq<string>)
    ensures MovesNothing(Removed(), ids)
  {
  }

  lemma PatchMovesNothing(p: Patch, ids: seq<string>)
    requires !SetsForeign(p, ids)
    ensures MovesNothing(Patched(p), ids)
  {
  }

  lemma UpdateEffect(table: seq<Row>, where: Where, p: Patch, ids: seq<string>)
    ensures Select(table, Rewrite(where, ids)) == Reached(where, ids, table)
    ensures var all := ReplaceAll(table, Rewrite(where, ids), Patched(p));
      var first := ReplaceFirst(table, Rewrite(where, ids), Patched(p));
      var n := |Reached(where, ids, table)|;
      && (SetsForeign(p, ids) ==>
          && |Hidden(all, ids)| == |Hidden(table, ids)| + n
          && |Hidden(first, ids)| == |Hidden(table, ids)| + if n == 0 then 0 else 1)
      && (!SetsForeign(p, ids) || n == 0 ==>
          Hidden(all, ids) == Hidden(table, ids) && Hidden(first, ids) == Hidden(table, ids))
  {
    hide Matches, InScope, WritesVisible, Rewrite, ReplaceAll, ReplaceFirst, Select, Hidden, SetsForeign;
    var w := Rewrite(where, ids);
    RewriteReaches(where, ids, table);
    RewriteConfines(where, ids);
    if Select(table, w) == [] { NothingSelected(table, w, Patched(p)); }
    if SetsForeign(p, ids) {
      ReplaceAllPutsOut(table, w, p, ids);
      ReplaceFirstPutsOut(table, w, p, ids);
    } else {
      PatchMovesNothing(p, ids);
      ReplaceFirstVisible(table, w, Patched(p), ids);
      ReplaceAllVisible(table, w, Patched(p), ids);
    }
  }

  lemma CreateEffect(table: seq<Row>, d: Data, ids: seq<string>)
    ensures Offence([d], ids) == None <==> MayCreate(d, ids)
    ensures ConnectsForeign(d, ids) ==> MayCreate(d, ids) && Built(d).Some?
    ensures MayCreate(d, ids) && Built(d).Some? ==>
      Hidden(table + [Built(d).value], ids)
        == Hidden(table, ids) + if ConnectsForeign(d, ids) then [Built(d).value] else []
  {
    assert d in [d];
    if Built(d).Some? {
      VisibleAppend(table, [Built(d).value], ids);
      OneRow(Built(d).value, ids);
    }
  }

  lemma CreateManyEffect(table: seq<Row>, list: seq<Data>, ids: seq<string>)
    requires Offence(list, ids) == None && BuiltMany(list).Some?
    ensures Hidden(table + BuiltMany(list).value, ids) == Hidden(table, ids)
  {
    hide BuiltMany;
    var rows := BuiltMany(list).value;
    forall i | 0 <= i < |rows| ensures InScope(rows[i], ids) {
      assert list[i] in list && MayCreate(list[i], ids);
    }
    VisibleAppend(table, rows, ids);
    NoneHidden(rows, ids);
  }

  lemma {:induction false} NoneHidden(rows: seq<Row>, ids: seq<string>)
    requires forall i :: 0 <= i < |rows| ==> InScope(rows[i], ids)
    ensures Hidden(rows, ids) == []
  {
    hide InScope;
    if rows != [] {
      NoneHidden(rows[1..], ids);
    }
  }

  /** So an update that reaches a row in scope and sets a foreign property id moves that row there. */
  lemma UpdateCanMoveRowOut(where: Where, patch: Patch, ids: seq<string>, table: seq<Row>, row: Row)
    requires row in table && Matches(where, row) && InScope(row, ids) && SetsForeign(patch, ids)
    ensures |Hidden(Execute(Update(where, patch), ids, table).1, ids)| == |Hidden(table, ids)| + 1
    ensures |Hidden(Execute(UpdateMany(where, patch), ids, table).1, ids)| > |Hidden(table, ids)|
  {
    hide Execute, Matches, InScope, Hidden;
    RowIsReached(where, ids, table, row);
    HiddenRowsStay(Update(where, patch), ids, table);
    HiddenRowsStay(UpdateMany(where, patch), ids, table);
  }

  lemma {:induction false} RowIsReached(w: Where, ids: seq<string>, table: seq<Row>, row: Row)
    requires row in table && Matches(w, row) && InScope(row, ids)
    ensures Reached(w, ids, table) != []
  {
    hide Matches, InScope;
    SelectAfter(table[0], Visible(table[1..], ids), w);
    if row != table[0] {
      RowIsReached(w, ids, table[1..], row);
    }
  }

  /** And a create that connects a foreign property puts its row there, where the same scalar id is refused. */
  lemma CreateCanConnectForeign(id: string, fields: map<string, string>, ids: seq<string>, table: seq<Row>)
    requires id !in ids
    ensures Execute(Create(Data(None, Some(id), fields)), ids, table).1 == table + [Row(id, fields)]
    ensures Hidden(table + [Row(id, fields)], ids) == Hidden(table, ids) + [Row(id, fields)]
    ensures Execute(Create(Data(Some(id), None, fields)), ids, table) == (Denied(id), table)
  {
    CreateEffect(table, Data(None, Some(id), fields), ids);
    CreateEffect(table, Data(Some(id), None, fields), ids);
  }

  // ------------------------------------------------------------ Whole runs

  /** A program: the next operation may depend on every reply so far. */
  type Program = seq<Reply> -> Op

  function Session(program: Program, ids: seq<string>, n: nat, table: seq<Row>): (seq<Reply>, seq<Row>) {
    if n == 0 then ([], table)
    else
      var (replies, before) := Session(program, ids, n - 1, table);
      var (reply, after) := Execute(program(replies), ids, before);
      (replies + [reply], after)
  }

  /**
   Two tables that agree on the rows in scope cannot be told apart by any
   program of any length, and still agree on those rows afterwards.
   */
  lemma {:induction false} NonInterference(program: Program, ids: seq<string>, n: nat, a: seq<Row>, b: seq<Row>)
    requires Visible(a, ids) == Visible(b, ids)
    ensures Session(program, ids, n, a).0 == Session(program, ids, n, b).0
    ensures Visible(Session(program, ids, n, a).1, ids) == Visible(Session(program, ids, n, b).1, ids)
  {
    hide Execute, Visible, InScope;
    if n > 0 {
      NonInterference(program, ids, n - 1, a, b);
      var (replies, x) := Session(program, ids, n - 1, a);
      var y := Session(program, ids, n - 1, b).1;
      ExecuteSeesOnlyScope(program(replies), ids, x);
      ExecuteSeesOnlyScope(program(replies), ids, y);
    }
  }

  /** Over any run no hidden row is changed or deleted: all of them are still there at the end. */
  lemma {:induction false} HiddenRowsSurvive(program: Program, ids: seq<string>, n: nat, table: seq<Row>)
    ensures multiset(Hidden(table, ids)) <= multiset(Hidden(Session(program, ids, n, table).1, ids))
  {
    hide Execute, Visible, InScope, Hidden;
    if n > 0 {
      HiddenRowsSurvive(program, ids, n - 1, table);
      var (replies, x) := Session(program, ids, n - 1, table);
      ExecuteSeesOnlyScope(program(replies), ids, x);
    }
  }

  /** Step `k` of a run puts no row out of scope. */
  ghost predicate StepStaysIn(program: Program, ids: seq<string>, k: nat, table: seq<Row>) {
    var (replies, before) := Session(program, ids, k, table);
    PutOut(program(replies), ids, before) == 0
  }

  /**
   Over any run, the rows out of scope stay as they are and none joins them,
   iff none of the operations the program really comes to sets a foreign
   property on a row it reaches or creates a row connected to one.
   */
  lemma {:induction false} NoForeignRowCreated(program: Program, ids: seq<string>, n: nat, table: seq<Row>)
    ensures var after := Session(program, ids, n, table).1;
      && (Hidden(after, ids) == Hidden(table, ids) <==>
        forall k: nat :: k < n ==> StepStaysIn(program, ids, k, table))
      && (|Hidden(after, ids)| == |Hidden(table, ids)| <==>
        forall k: nat :: k < n ==> StepStaysIn(program, ids, k, table))
      && |Hidden(table, ids)| <= |Hidden(after, ids)|
  {
    hide Execute, PutOut, Visible, InScope, Hidden;
    if n > 0 {
      NoForeignRowCreated(program, ids, n - 1, table);
      var (replies, x) := Session(program, ids, n - 1, table);
      HiddenRowsStay(program(replies), ids, x);
      assert StepStaysIn(program, ids, n - 1, table) <==> PutOut(program(replies), ids, x) == 0;
    }
  }
}
