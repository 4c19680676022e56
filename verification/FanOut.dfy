/**
 Which database serves a tenant (src/prisma/tenant-db-router.ts) and the
 fan-out over all of them (src/prisma/db.service.ts).  The routing is fixed
 during a call; a table lists its rows in the order the queries ask for.
 Tenant ids in rows and in the registry are lower case, as PostgreSQL prints them.
 */
module FanOut {
  import opened Text
  import opened Wrappers

  datatype Route = Route(tenantId: string, dbName: string, host: string, status: string, mode: string)

  predicate Serves(r: Route) {
    r.mode == "DEDICATED" && r.status in {"ACTIVE", "ROLLING_BACK"}
  }

  /** The routing table is a map keyed by tenant, in insertion order. */
  ghost predicate WellFormed(routes: seq<Route>) {
    && Distinct(routes)
    && (forall i :: 0 <= i < |routes| ==> Canonical(routes[i].tenantId))
  }

  ghost predicate Distinct(rs: seq<Route>) {
    forall i, j :: 0 <= i < j < |rs| ==> rs[i].tenantId != rs[j].tenantId
  }

  predicate Canonical(id: string) {
    Lower(id) == id
  }

  function RouteOf(routes: seq<Route>, id: string): (r: Option<Route>)
    ensures r.Some? ==> r.value in routes && r.value.tenantId == id
    ensures r == None ==> forall x :: x in routes ==> x.tenantId != id
  {
    if routes == [] then None else if routes[0].tenantId == id then Some(routes[0]) else RouteOf(routes[1..], id)
  }

  /** The dedicated route of a tenant; None when the shared database serves it. */
  function Dedicated(routes: seq<Route>, tenantId: string): Option<Route> {
    var r := RouteOf(routes, Lower(tenantId));
    if r.Some? && Serves(r.value) then r else None
  }

  /** Writes are refused during a cutover and a rollback. */
  predicate ReadOnly(routes: seq<Route>, tenantId: string) {
    var r := RouteOf(routes, Lower(tenantId));
    r.Some? && r.value.status in {"CUTOVER", "ROLLING_BACK"}
  }

  /** What the registry says of a tenant that a dedicated database serves. */
  ghost predicate ServedBy(routes: seq<Route>, tenantId: string, r: Route) {
    && r in routes && r.tenantId == Lower(tenantId)
    && r.mode == "DEDICATED" && (r.status == "ACTIVE" || r.status == "ROLLING_BACK")
  }

  /** A tenant has the dedicated route that the registry gives it, whatever letters its id is written in. */
  lemma DedicatedExactly(routes: seq<Route>, tenantId: string)
    requires WellFormed(routes)
    ensures forall r :: Dedicated(routes, tenantId) == Some(r) <==> ServedBy(routes, tenantId, r)
    ensures Dedicated(routes, tenantId) == None <==> forall r :: !ServedBy(routes, tenantId, r)
  {
    forall r | ServedBy(routes, tenantId, r) ensures Dedicated(routes, tenantId) == Some(r) {
      SameRoute(routes, r);
    }
    assert forall r :: Dedicated(routes, tenantId) == Some(r) ==> ServedBy(routes, tenantId, r);
  }

  /** Writes are refused iff the registry has the tenant in a cutover or a rollback. */
  lemma ReadOnlyExactly(routes: seq<Route>, tenantId: string)
    requires WellFormed(routes)
    ensures ReadOnly(routes, tenantId) <==>
      exists r :: r in routes && r.tenantId == Lower(tenantId) && (r.status == "CUTOVER" || r.status == "ROLLING_BACK")
  {
    forall r | r in routes && r.tenantId == Lower(tenantId) ensures RouteOf(routes, Lower(tenantId)) == Some(r) {
      SameRoute(routes, r);
    }
  }

  function ActiveDedicated(routes: seq<Route>): seq<Route> {
    if routes == [] then [] else (if Serves(routes[0]) then [routes[0]] else []) + ActiveDedicated(routes[1..])
  }

  // ------------------------------------------------------------ Databases

  datatype Row = Row(tenantId: string, id: string)

  /** The shared database, and a dedicated one per host and name. */
  datatype Databases = Databases(shared: seq<Row>, dedicated: (string, string) -> seq<Row>)

  function On(dbs: Databases, r: Route): seq<Row> {
    dbs.dedicated(r.host, r.dbName)
  }

  /** The database that serves a tenant. */
  function Serving(dbs: Databases, routes: seq<Route>, tenantId: string): seq<Row> {
    match Dedicated(routes, tenantId)
    case Some(r) => On(dbs, r)
    case None => dbs.shared
  }

  /** The `tenants` fragment of a target. */
  datatype TenantFilter = Everyone | NotIn(ids: seq<string>) | Only(id: string)

  datatype Target = Target(name: string, tenantId: Option<string>, tenants: TenantFilter)

  predicate Admits(f: TenantFilter, row: Row) {
    match f
    case Everyone => true
    case NotIn(ids) => row.tenantId !in ids
    case Only(id) => row.tenantId == id
  }

  function TenantIds(rs: seq<Route>): (ids: seq<string>)
    ensures |ids| == |rs| && forall i :: 0 <= i < |rs| ==> ids[i] == rs[i].tenantId
  {
    seq(|rs|, i requires 0 <= i < |rs| => rs[i].tenantId)
  }

  function SharedTarget(routes: seq<Route>): Target {
    var ids := TenantIds(ActiveDedicated(routes));
    Target("shared", None, if ids != [] then NotIn(ids) else Everyone)
  }

  /** The shared target is named so, belongs to no tenant, and leaves out just the tenants served elsewhere. */
  lemma SharedTargetSays(routes: seq<Route>, row: Row)
    requires WellFormed(routes)
    ensures SharedTarget(routes).name == "shared" && SharedTarget(routes).tenantId == None
    ensures Admits(SharedTarget(routes).tenants, row) <==> forall r :: r in routes && r.tenantId == row.tenantId ==>
      r.mode != "DEDICATED" || (r.status != "ACTIVE" && r.status != "ROLLING_BACK")
  {
    hide WellFormed, ActiveDedicated;
    var active := ActiveDedicated(routes);
    ActiveRoutes(routes);
    forall r | r in active ensures r.tenantId in TenantIds(active) {
      var k :| 0 <= k < |active| && active[k] == r;
      assert TenantIds(active)[k] == r.tenantId;
    }
    if row.tenantId in TenantIds(active) {
      var k :| 0 <= k < |active| && TenantIds(active)[k] == row.tenantId;
      assert active[k] in active;
    }
  }

  function DedicatedTarget(r: Route): Target {
    Target(r.dbName, Some(r.tenantId), Only(r.tenantId))
  }

  // ------------------------------------------------------------ Fan-out

  type Query<T> = (seq<Row>, Target) -> T

  function OnEach<T>(dbs: Databases, rs: seq<Route>, fn: Query<T>): seq<T> {
    if rs == [] then []
    else
      var last := rs[|rs| - 1];
      OnEach(dbs, rs[..|rs| - 1], fn) + [fn(On(dbs, last), DedicatedTarget(last))]
  }

  function SystemAllSpec<T>(dbs: Databases, routes: seq<Route>, fn: Query<T>): seq<T> {
    [fn(dbs.shared, SharedTarget(routes))] + OnEach(dbs, ActiveDedicated(routes), fn)
  }

  method SystemAll<T>(dbs: Databases, routes: seq<Route>, fn: Query<T>) returns (out: seq<T>)
    ensures out == SystemAllSpec(dbs, routes, fn)
    ensures var active := ActiveDedicated(routes);
      && |out| == 1 + |active| && out[0] == fn(dbs.shared, SharedTarget(routes))
      && forall i :: 0 <= i < |active| ==>
        var r := active[i];
        out[1 + i] == fn(dbs.dedicated(r.host, r.dbName), Target(r.dbName, Some(r.tenantId), Only(r.tenantId)))
  {
    RunsOnEach(dbs, ActiveDedicated(routes), fn);
    hide OnEach, SharedTarget, ActiveDedicated, On;
    NoneYet(dbs, fn);
    out := [fn(dbs.shared, SharedTarget(routes))];
    var active := ActiveDedicated(routes);
    for i := 0 to |active|
      invariant out == [fn(dbs.shared, SharedTarget(routes))] + OnEach(dbs, active[..i], fn)
    {
      OnOneMore(dbs, active, i, fn);
      out := out + [fn(On(dbs, active[i]), DedicatedTarget(active[i]))];
    }
    assert active[..|active|] == active;
  }

  lemma NoneYet<T>(dbs: Databases, fn: Query<T>)
    ensures OnEach(dbs, [], fn) == []
  {
  }

  lemma OnOneMore<T>(dbs: Databases, rs: seq<Route>, i: nat, fn: Query<T>)
    requires i < |rs|
    ensures OnEach(dbs, rs[..i + 1], fn) == OnEach(dbs, rs[..i], fn) + [fn(On(dbs, rs[i]), DedicatedTarget(rs[i]))]
  {
    assert rs[..i + 1][..i] == rs[..i];
  }

  /** The query runs once on the shared database and once on each active route's own, and is told which. */
  lemma {:induction false} RunsOnEach<T>(dbs: Databases, rs: seq<Route>, fn: Query<T>)
    ensures |OnEach(dbs, rs, fn)| == |rs|
    ensures forall i :: 0 <= i < |rs| ==>
      var r := rs[i];
      OnEach(dbs, rs, fn)[i]
        == fn(dbs.dedicated(r.host, r.dbName), Target(r.dbName, Some(r.tenantId), Only(r.tenantId)))
  {
    if rs != [] {
      RunsOnEach(dbs, rs[..|rs| - 1], fn);
    }
  }

  /** `findMany` with the target's filter and a list of tenants (None: all of them). */
  function Find(rows: seq<Row>, f: TenantFilter, only: Option<seq<string>>): seq<Row> {
    if rows == [] then []
    else
      var found := Admits(f, rows[0]) && (only.Some? ==> rows[0].tenantId in only.value);
      (if found then [rows[0]] else []) + Find(rows[1..], f, only)
  }

  function FindQuery(only: Option<seq<string>>): Query<seq<Row>> {
    (rows: seq<Row>, t: Target) => Find(rows, t.tenants, only)
  }

  function Flat(parts: seq<seq<Row>>): seq<Row> {
    if parts == [] then [] else Flat(parts[..|parts| - 1]) + parts[|parts| - 1]
  }

  /** The rows of one tenant. */
  function OfTenant(rows: seq<Row>, tenantId: string): seq<Row> {
    if rows == [] then [] else (if rows[0].tenantId == tenantId then [rows[0]] else []) + OfTenant(rows[1..], tenantId)
  }

  lemma {:induction false} OfTenantAppend(a: seq<Row>, b: seq<Row>, t: string)
    ensures OfTenant(a + b, t) == OfTenant(a, t) + OfTenant(b, t)
  {
    if a == [] {
      assert a + b == b;
    } else {
      assert (a + b)[1..] == a[1..] + b && (a + b)[0] == a[0];
      OfTenantAppend(a[1..], b, t);
      var head := if a[0].tenantId == t then [a[0]] else [];
      assert head + OfTenant(a[1..], t) + OfTenant(b, t) == head + (OfTenant(a[1..], t) + OfTenant(b, t));
    }
  }

  /** What a filter lets through of one tenant: all of its rows, or none. */
  lemma {:induction false} FindOfTenant(rows: seq<Row>, f: TenantFilter, only: Option<seq<string>>, t: string)
    ensures OfTenant(Find(rows, f, only), t)
      == if Admits(f, Row(t, "")) && (only.Some? ==> t in only.value) then OfTenant(rows, t) else []
  {
    if rows != [] {
      FindOfTenant(rows[1..], f, only, t);
      var head := if Admits(f, rows[0]) && (only.Some? ==> rows[0].tenantId in only.value) then [rows[0]] else [];
      OfTenantAppend(head, Find(rows[1..], f, only), t);
      assert OfTenant([rows[0]], t) == (if rows[0].tenantId == t then [rows[0]] else []) + OfTenant([], t);
    }
  }

  /** The active routes are just those that serve, one per tenant. */
  lemma ActiveRoutes(routes: seq<Route>)
    requires WellFormed(routes)
    ensures var active := ActiveDedicated(routes);
      && (forall r :: r in active <==>
          r in routes && r.mode == "DEDICATED" && (r.status == "ACTIVE" || r.status == "ROLLING_BACK"))
      && Distinct(active)
  {
    hide WellFormed, ActiveDedicated;
    ActiveServe(routes);
  }

  lemma {:induction false} ActiveServe(routes: seq<Route>)
    requires WellFormed(routes)
    ensures var active := ActiveDedicated(routes);
      && (forall r :: r in active <==> r in routes && Serves(r))
      && Distinct(active)
  {
    hide Serves, Canonical;
    if routes != [] {
      var rest := routes[1..];
      assert forall i :: 0 <= i < |rest| ==> rest[i] == routes[i + 1];
      ActiveServe(rest);
      assert routes == [routes[0]] + rest;
      assert forall r :: r in rest ==> r.tenantId != routes[0].tenantId;
    }
  }

  /** Over the dedicated databases a tenant shows up once, on its own route, or not at all. */
  lemma {:induction false} DedicatedShare(dbs: Databases, rs: seq<Route>, only: Option<seq<string>>, t: string)
    requires Distinct(rs)
    requires only.Some? ==> t in only.value
    ensures t !in TenantIds(rs) ==> OfTenant(Flat(OnEach(dbs, rs, FindQuery(only))), t) == []
    ensures forall r :: r in rs && r.tenantId == t ==>
      OfTenant(Flat(OnEach(dbs, rs, FindQuery(only))), t) == OfTenant(On(dbs, r), t)
  {
    hide Find, OfTenant, On, OnEach, Flat;
    if rs == [] {
      NoShare(dbs, only, t);
    } else {
      var n := |rs| - 1;
      var front, last := rs[..n], rs[n];
      DedicatedShare(dbs, front, only, t);
      ShareOfLast(dbs, rs, only, t);
      assert forall k :: 0 <= k < n ==> front[k] == rs[k] && TenantIds(front)[k] == TenantIds(rs)[k];
      assert TenantIds(rs)[n] == last.tenantId;
      if last.tenantId == t {
        assert t !in TenantIds(front) by {
          assert forall k :: 0 <= k < n ==> rs[k].tenantId != rs[n].tenantId;
        }
      }
      forall r | r in rs && r.tenantId == t
        ensures OfTenant(Flat(OnEach(dbs, rs, FindQuery(only))), t) == OfTenant(On(dbs, r), t)
      {
        if last.tenantId == t {
          SameTenantSameRoute(rs, r, last);
        } else {
          assert r in front;
        }
      }
    }
  }

  lemma SameTenantSameRoute(rs: seq<Route>, r: Route, s: Route)
    requires Distinct(rs) && r in rs && s in rs && r.tenantId == s.tenantId
    ensures r == s
  {
    var i :| 0 <= i < |rs| && rs[i] == r;
    var j :| 0 <= j < |rs| && rs[j] == s;
    assert i == j;
  }

  lemma NoShare(dbs: Databases, only: Option<seq<string>>, t: string)
    ensures OfTenant(Flat(OnEach(dbs, [], FindQuery(only))), t) == []
  {
  }

  /** The last database adds a tenant's rows exactly if it is that tenant's own. */
  lemma ShareOfLast(dbs: Databases, rs: seq<Route>, only: Option<seq<string>>, t: string)
    requires rs != [] && (only.Some? ==> t in only.value)
    ensures var last := rs[|rs| - 1];
      OfTenant(Flat(OnEach(dbs, rs, FindQuery(only))), t)
      == OfTenant(Flat(OnEach(dbs, rs[..|rs| - 1], FindQuery(only))), t)
         + if last.tenantId == t then OfTenant(On(dbs, last), t) else []
  {
    hide Find, OfTenant, On;
    var last := rs[|rs| - 1];
    var parts := OnEach(dbs, rs[..|rs| - 1], FindQuery(only));
    var more := Find(On(dbs, last), Only(last.tenantId), only);
    assert OnEach(dbs, rs, FindQuery(only)) == parts + [more];
    assert (parts + [more])[..|parts|] == parts;
    OfTenantAppend(Flat(parts), more, t);
    FindOfTenant(On(dbs, last), Only(last.tenantId), only, t);
  }

  lemma ServingExactly(dbs: Databases, routes: seq<Route>, t: string)
    requires WellFormed(routes)
    ensures forall r :: ServedBy(routes, t, r) ==> Serving(dbs, routes, t) == dbs.dedicated(r.host, r.dbName)
    ensures (forall r :: !ServedBy(routes, t, r)) ==> Serving(dbs, routes, t) == dbs.shared
  {
    hide Dedicated, ServedBy;
    DedicatedExactly(routes, t);
  }

  /**
   The fan-out is one logical table: whatever stale rows the shared database
   holds, each tenant's rows come exactly once, from the database that the
   registry says serves it.
   */
  lemma FanOutIsOneTable(dbs: Databases, routes: seq<Route>, only: Option<seq<string>>, t: string)
    requires WellFormed(routes) && Canonical(t) && (only.Some? ==> t in only.value)
    ensures var found := OfTenant(Flat(SystemAllSpec(dbs, routes, FindQuery(only))), t);
      && found == OfTenant(Serving(dbs, routes, t), t)
      && (forall r :: ServedBy(routes, t, r) ==> found == OfTenant(dbs.dedicated(r.host, r.dbName), t))
      && ((forall r :: !ServedBy(routes, t, r)) ==> found == OfTenant(dbs.shared, t))
  {
    hide WellFormed, Serving, ServedBy, SystemAllSpec, OfTenant, Canonical;
    ServingExactly(dbs, routes, t);
    FanOutGathers(dbs, routes, only, t);
  }

  lemma FanOutGathers(dbs: Databases, routes: seq<Route>, only: Option<seq<string>>, t: string)
    requires WellFormed(routes) && Canonical(t) && (only.Some? ==> t in only.value)
    ensures OfTenant(Flat(SystemAllSpec(dbs, routes, FindQuery(only))), t) == OfTenant(Serving(dbs, routes, t), t)
  {
    hide Find, OfTenant, On, Serves, ActiveDedicated;
    var active := ActiveDedicated(routes);
    var f := SharedTarget(routes).tenants;
    ActiveServe(routes);
    FlatFirst(Find(dbs.shared, f, only), OnEach(dbs, active, FindQuery(only)));
    OfTenantAppend(Find(dbs.shared, f, only), Flat(OnEach(dbs, active, FindQuery(only))), t);
    FindOfTenant(dbs.shared, f, only, t);
    DedicatedShare(dbs, active, only, t);
    match Dedicated(routes, t) {
      case Some(r) =>
        assert r in active;
        var k :| 0 <= k < |active| && active[k] == r;
        assert TenantIds(active)[k] == t;
      case None =>
        if t in TenantIds(active) {
          var k :| 0 <= k < |active| && TenantIds(active)[k] == t;
          assert active[k] in routes;
          SameRoute(routes, active[k]);
          assert false;
        }
    }
  }

  lemma {:induction false} SameRoute(routes: seq<Route>, r: Route)
    requires WellFormed(routes) && r in routes
    ensures RouteOf(routes, r.tenantId) == Some(r)
  {
    var i :| 0 <= i < |routes| && routes[i] == r;
    var found := RouteOf(routes, r.tenantId).value;
    var j :| 0 <= j < |routes| && routes[j] == found;
    assert i == j;
  }

  lemma {:induction false} FlatFirst(first: seq<Row>, parts: seq<seq<Row>>)
    ensures Flat([first] + parts) == first + Flat(parts)
  {
    if parts == [] {
      assert [first] + parts == [first] && [first][..0] == [];
    } else {
      assert ([first] + parts)[..|parts|] == [first] + parts[..|parts| - 1];
      FlatFirst(first, parts[..|parts| - 1]);
    }
  }

  // ------------------------------------------------------------ propertiesOf

  function Ids(rows: seq<Row>): seq<string> {
    if rows == [] then [] else Ids(rows[..|rows| - 1]) + [rows[|rows| - 1].id]
  }

  /** Every database prints the tenant ids of its rows in lower case. */
  ghost predicate StoredLower(dbs: Databases) {
    && AllCanonical(dbs.shared)
    && forall host, name :: AllCanonical(dbs.dedicated(host, name))
  }

  predicate AllCanonical(rows: seq<Row>) {
    rows == [] || (Canonical(rows[0].tenantId) && AllCanonical(rows[1..]))
  }

  /**
   Properties of the given tenants, each read from the database that serves it.
   The query compares ids as UUIDs, without case; the rows are then filed under
   the id as stored, so an id asked for in capitals is answered with nothing.
   */
  method PropertiesOf(dbs: Databases, routes: seq<Route>, tenantIds: seq<string>)
    returns (out: map<string, seq<string>>)
    requires WellFormed(routes) && StoredLower(dbs)
    ensures out.Keys == set t | t in tenantIds
    ensures forall t :: t in tenantIds ==>
      out[t] == if Canonical(t) then Ids(OfTenant(Serving(dbs, routes, t), t)) else []
  {
    hide Flat, OfTenant, Ids, SystemAllSpec, Serving, WellFormed, StoredLower, Canonical;
    NoRowsYet();
    out := map t | t in tenantIds :: [];
    if tenantIds == [] { return; }
    var parts := SystemAll(dbs, routes, FindQuery(Some(LowerAll(tenantIds))));
    var rows := Flat(parts);
    for i := 0 to |rows|
      invariant out.Keys == set t | t in tenantIds
      invariant forall t :: t in tenantIds ==> out[t] == Ids(OfTenant(rows[..i], t))
    {
      var r := rows[i];
      forall t | t in tenantIds
        ensures Ids(OfTenant(rows[..i + 1], t)) == Ids(OfTenant(rows[..i], t)) + if r.tenantId == t then [r.id] else []
      {
        OneRowMore(rows, i, t);
      }
      if r.tenantId in out { out := out[r.tenantId := out[r.tenantId] + [r.id]]; }
    }
    assert rows[..|rows|] == rows;
    forall t | t in tenantIds
      ensures out[t] == if Canonical(t) then Ids(OfTenant(Serving(dbs, routes, t), t)) else []
    {
      if Canonical(t) {
        AskedFor(tenantIds, t);
        FanOutIsOneTable(dbs, routes, Some(LowerAll(tenantIds)), t);
      } else {
        FanOutIsCanonical(dbs, routes, Some(LowerAll(tenantIds)));
        NotStored(rows, t);
        NoRowsYet();
      }
    }
  }

  lemma AskedFor(ids: seq<string>, t: string)
    requires t in ids && Canonical(t)
    ensures t in LowerAll(ids)
  {
    hide Lower;
    var i :| 0 <= i < |ids| && ids[i] == t;
    assert LowerAll(ids)[i] == t;
  }

  lemma {:induction false} NotStored(rows: seq<Row>, t: string)
    requires AllCanonical(rows) && !Canonical(t)
    ensures OfTenant(rows, t) == []
  {
    hide Canonical;
    if rows != [] {
      NotStored(rows[1..], t);
    }
  }

  lemma {:induction false} FindIsCanonical(rows: seq<Row>, f: TenantFilter, only: Option<seq<string>>)
    requires AllCanonical(rows)
    ensures AllCanonical(Find(rows, f, only))
  {
    hide Canonical, Admits;
    if rows != [] {
      FindIsCanonical(rows[1..], f, only);
      var more := Find(rows[1..], f, only);
      assert ([rows[0]] + more)[1..] == more && [] + more == more;
    }
  }

  lemma {:induction false} AppendIsCanonical(a: seq<Row>, b: seq<Row>)
    requires AllCanonical(a) && AllCanonical(b)
    ensures AllCanonical(a + b)
  {
    hide Canonical;
    if a == [] {
      assert a + b == b;
    } else {
      assert (a + b)[0] == a[0] && (a + b)[1..] == a[1..] + b;
      AppendIsCanonical(a[1..], b);
    }
  }

  lemma {:induction false} OnEachIsCanonical(dbs: Databases, rs: seq<Route>, only: Option<seq<string>>)
    requires StoredLower(dbs)
    ensures AllCanonical(Flat(OnEach(dbs, rs, FindQuery(only))))
  {
    hide AllCanonical, Find;
    if rs == [] {
      assert AllCanonical([]) by { Nothing(); }
    } else {
      var n := |rs| - 1;
      var parts, last := OnEach(dbs, rs[..n], FindQuery(only)), rs[n];
      var more := Find(On(dbs, last), Only(last.tenantId), only);
      OnEachIsCanonical(dbs, rs[..n], only);
      FindIsCanonical(On(dbs, last), Only(last.tenantId), only);
      AppendIsCanonical(Flat(parts), more);
      assert (parts + [more])[..|parts|] == parts;
    }
  }

  lemma Nothing()
    ensures AllCanonical([])
  {
  }

  lemma FanOutIsCanonical(dbs: Databases, routes: seq<Route>, only: Option<seq<string>>)
    requires StoredLower(dbs)
    ensures AllCanonical(Flat(SystemAllSpec(dbs, routes, FindQuery(only))))
  {
    hide AllCanonical, Find, Flat, OnEach, ActiveDedicated;
    var f, active := SharedTarget(routes).tenants, ActiveDedicated(routes);
    FindIsCanonical(dbs.shared, f, only);
    OnEachIsCanonical(dbs, active, only);
    FlatFirst(Find(dbs.shared, f, only), OnEach(dbs, active, FindQuery(only)));
    AppendIsCanonical(Find(dbs.shared, f, only), Flat(OnEach(dbs, active, FindQuery(only))));
  }

  lemma NoRowsYet()
    ensures forall rows: seq<Row>, t {:trigger OfTenant(rows, t)} :: rows == [] ==> Ids(OfTenant(rows, t)) == []
    ensures Ids([]) == []
  {
  }

  lemma OneRowMore(rows: seq<Row>, i: nat, t: string)
    requires i < |rows|
    ensures Ids(OfTenant(rows[..i + 1], t))
      == Ids(OfTenant(rows[..i], t)) + if rows[i].tenantId == t then [rows[i].id] else []
  {
    assert rows[..i + 1] == rows[..i] + [rows[i]];
    OfTenantAppend(rows[..i], [rows[i]], t);
    var more := if rows[i].tenantId == t then [rows[i]] else [];
    assert OfTenant([rows[i]], t) == more + OfTenant([], t);
    var before := OfTenant(rows[..i], t);
    if rows[i].tenantId == t {
      assert (before + [rows[i]])[..|before|] == before;
    } else {
      assert before + [] == before;
    }
  }
}
