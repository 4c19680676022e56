/**
 The gated tenant transactions of src/prisma/db.service.ts.  A callback is a
 program of reads, writes and locks; its statements, the check that follows it,
 the commit, and those of every other transaction are steps of their own, under
 the database's default isolation: a statement sees what is committed and what
 its own transaction wrote, and rows stay locked until the transaction ends.
 The gate is read when a transaction begins, the router's mark when its callback
 is done; both may change at any time.
 */
module TenantTransactions {
  import opened Text
  import opened Wrappers
  import FanOut

  type Table = map<string, string>

  // ------------------------------------------------------------ Callbacks

  /** What a callback does next: `Write` with no row deletes, `Lock` locks a row without changing it. */
  datatype Action<T> =
    | Read(key: string)
    | Write(key: string, row: Option<string>)
    | Lock(key: string)
    | Finish(result: T)
    | Throw

  /** The next action depends on every answer so far; a callback that takes more than `limit` actions times out. */
  datatype Callback<!T> = Callback(limit: nat, act: seq<Option<string>> -> Action<T>)

  function NextAction<T>(fn: Callback<T>, answers: seq<Option<string>>): Action<T> {
    if |answers| >= fn.limit then Throw else fn.act(answers)
  }

  predicate IsStatement<T>(a: Action<T>) {
    a.Read? || a.Write? || a.Lock?
  }

  /** What a transaction has written and locked; it is assigned an id with its first lock. */
  datatype Working = Working(writes: map<string, Option<string>>, locks: set<string>) {
    predicate Wrote() {
      locks != {}
    }
  }

  const IDLE := Working(map[], {})

  function Row(table: Table, key: string): Option<string> {
    if key in table then Some(table[key]) else None
  }

  /** A row as a transaction with these writes sees it. */
  function See(table: Table, writes: map<string, Option<string>>, key: string): Option<string> {
    if key in writes then writes[key] else Row(table, key)
  }

  /** The table once the writes are committed. */
  function Apply(table: Table, writes: map<string, Option<string>>): Table {
    map key | key in table.Keys + writes.Keys && See(table, writes, key).Some? :: See(table, writes, key).value
  }

  lemma ApplyRow(table: Table, writes: map<string, Option<string>>, key: string)
    ensures Row(Apply(table, writes), key) == See(table, writes, key)
  {
  }

  lemma ApplyNothing(table: Table)
    ensures Apply(table, map[]) == table
  {
  }

  /** A statement's effect on its transaction, and its answer. */
  function Performed<T>(table: Table, work: Working, a: Action<T>): (Working, Option<string>)
    requires IsStatement(a)
  {
    match a
    case Write(key, row) => (Working(work.writes[key := row], work.locks + {key}), None)
    case Lock(key) => (work.(locks := work.locks + {key}), See(table, work.writes, key))
    case Read(key) => (work, See(table, work.writes, key))
  }

  /** How a callback ended: with a result, or thrown. */
  datatype Attempt<T> = Attempt(work: Working, answers: seq<Option<string>>, result: Option<T>)

  /** A callback from some point on, with nothing in between. */
  function Exec<T>(fn: Callback<T>, table: Table, work: Working, answers: seq<Option<string>>): Attempt<T>
    decreases if |answers| < fn.limit then fn.limit - |answers| else 0
  {
    var a := NextAction(fn, answers);
    if IsStatement(a) then
      var (more, answer) := Performed(table, work, a);
      Exec(fn, table, more, answers + [answer])
    else Attempt(work, answers, if a.Finish? then Some(a.result) else None)
  }

  function Attempted<T>(fn: Callback<T>, table: Table): Attempt<T> {
    Exec(fn, table, IDLE, [])
  }

  method RunCallback<T>(fn: Callback<T>, table: Table) returns (r: Attempt<T>)
    ensures r == Attempted(fn, table)
  {
    var work, answers := IDLE, [];
    while |answers| < fn.limit
      invariant |answers| <= fn.limit && Exec(fn, table, work, answers) == Attempted(fn, table)
      decreases fn.limit - |answers|
    {
      match fn.act(answers) {
        case Read(key) =>
          answers := answers + [See(table, work.writes, key)];
        case Write(key, row) =>
          work := Working(work.writes[key := row], work.locks + {key});
          answers := answers + [None];
        case Lock(key) =>
          answers := answers + [See(table, work.writes, key)];
          work := work.(locks := work.locks + {key});
        case Finish(result) => return Attempt(work, answers, Some(result));
        case Throw => return Attempt(work, answers, None);
      }
    }
    return Attempt(work, answers, None);
  }

  // ------------------------------------------------------------ Databases

  datatype Place = Shared | Own(host: string, dbName: string)

  /** A tenant's data in one database. */
  datatype Site = Site(place: Place, tenant: string)

  /** A row of the table of idempotency keys. */
  datatype KeyRow = KeyRow(site: Site, key: string)

  datatype Db = Db(data: map<Site, Table>, keys: map<KeyRow, bool>)

  function TableAt(data: map<Site, Table>, site: Site): Table {
    if site in data then data[site] else map[]
  }

  function KeyState(keys: map<KeyRow, bool>, row: KeyRow): Option<bool> {
    if row in keys then Some(keys[row]) else None
  }

  /** The answers of `app_tenant_gate`. */
  datatype Gate = Served | ReadOnly | Moved

  datatype Idempotency = Idempotency(tenantId: string, key: string)

  /** A call of `tenant`, with the contexts it runs under. */
  datatype Request<!T> = Request(id: string, dry: Option<string>, idem: Option<Idempotency>, fn: Callback<T>)

  datatype Reply<T> = Returned(value: T) | BadTenantId | Migrating(retryAfterSec: nat) | DryRun(result: T) | Failed

  /** `Checked` is past the read of the mark and waits for its commit. */
  datatype Stage<T> = Open | Checked(result: T) | Done(reply: Reply<T>)

  /** A transaction: where it runs, what the gate said when it began, and how far it is. */
  datatype Txn<!T> = Txn(
    q: Request<T>, place: Place, gate: Gate, work: Working, answers: seq<Option<string>>, stage: Stage<T>)

  /** `commits` is the history of the data; `announced` counts the reloads of the routing asked for. */
  datatype State<!T> = State(
    db: Db, gates: map<Site, Gate>, routes: seq<FanOut.Route>, announced: nat, txns: seq<Txn<T>>, commits: seq<nat>)

  datatype Step<!T> =
    | Begin(q: Request<T>)
    | Act(txn: nat)
    | Check(txn: nat)
    | Commit(txn: nat)
    | Abort(txn: nat)
    | SetGate(site: Site, gate: Gate)
    | Reroute(routes: seq<FanOut.Route>)

  predicate IsUuid(s: string) {
    |s| == 36 && forall i :: 0 <= i < 36 ==> if i in {8, 13, 18, 23} then s[i] == '-' else IsHex(s[i])
  }

  function PlaceOf(routes: seq<FanOut.Route>, id: string): Place {
    match FanOut.Dedicated(routes, id)
    case Some(r) => Own(r.host, r.dbName)
    case None => Shared
  }

  function GateAt(gates: map<Site, Gate>, site: Site): Gate {
    if site in gates then gates[site] else Served
  }

  function SiteOf<T>(t: Txn<T>): Site {
    Site(t.place, Lower(t.q.id))
  }

  predicate IsActive<T>(t: Txn<T>) {
    !t.stage.Done?
  }

  predicate IsDry<T>(q: Request<T>) {
    q.dry.Some? && Lower(q.dry.value) == Lower(q.id)
  }

  /** The key a transaction marks, if the request has one for this tenant. */
  function KeyOf<T>(t: Txn<T>): Option<KeyRow> {
    if t.q.idem.Some? && Lower(t.q.idem.value.tenantId) == Lower(t.q.id)
    then Some(KeyRow(SiteOf(t), t.q.idem.value.key)) else None
  }

  function MarkApplied(keys: map<KeyRow, bool>, key: Option<KeyRow>, wrote: bool): map<KeyRow, bool> {
    if key.Some? && key.value in keys && !keys[key.value] && wrote then keys[key.value := true] else keys
  }

  // ------------------------------------------------------------ Steps

  /** `tenant` up to the gate. */
  function Begun<T>(s: State<T>, q: Request<T>): Txn<T> {
    var place := PlaceOf(s.routes, q.id);
    var gate := GateAt(s.gates, Site(place, Lower(q.id)));
    var stage := if !IsUuid(q.id) then Done(BadTenantId) else if gate == Moved then Done(Migrating(1)) else Open;
    Txn(q, place, gate, IDLE, [], stage)
  }

  /** Another transaction holds the row. */
  predicate IsLocked<T>(txns: seq<Txn<T>>, i: nat, site: Site, key: string) {
    exists j :: 0 <= j < |txns| && j != i && IsActive(txns[j]) && SiteOf(txns[j]) == site && key in txns[j].work.locks
  }

  /** The next action is a statement, and the row it locks is free. */
  predicate CanAct<T>(s: State<T>, i: nat) {
    && i < |s.txns| && s.txns[i].stage == Open
    && var a := NextAction(s.txns[i].q.fn, s.txns[i].answers);
      IsStatement(a) && (a.Read? || !IsLocked(s.txns, i, SiteOf(s.txns[i]), a.key))
  }

  predicate Enabled<T>(s: State<T>, step: Step<T>) {
    match step
    case Act(i) => CanAct(s, i)
    case Check(i) =>
      && i < |s.txns| && s.txns[i].stage == Open
      && !IsStatement(NextAction(s.txns[i].q.fn, s.txns[i].answers))
    case Commit(i) => i < |s.txns| && s.txns[i].stage.Checked?
    case Abort(i) => i < |s.txns| && IsActive(s.txns[i])
    case _ => true
  }

  function Acted<T>(t: Txn<T>, table: Table): Txn<T>
    requires IsStatement(NextAction(t.q.fn, t.answers))
  {
    var (work, answer) := Performed(table, t.work, NextAction(t.q.fn, t.answers));
    t.(work := work, answers := t.answers + [answer])
  }

  /** What the transaction comes to when its callback is done and the mark is read. */
  function Verdict<T>(t: Txn<T>, routes: seq<FanOut.Route>): Stage<T> {
    var a := NextAction(t.q.fn, t.answers);
    if !a.Finish? then Done(Failed)
    else if t.work.Wrote() && (t.gate == ReadOnly || FanOut.ReadOnly(routes, t.q.id)) then Done(Migrating(5))
    else if t.work.Wrote() && IsDry(t.q) then Done(DryRun(a.result))
    else Checked(a.result)
  }

  function Committed<T>(s: State<T>, i: nat): State<T>
    requires i < |s.txns| && s.txns[i].stage.Checked?
  {
    var t := s.txns[i];
    var table := Apply(TableAt(s.db.data, SiteOf(t)), t.work.writes);
    s.(db := Db(s.db.data[SiteOf(t) := table], MarkApplied(s.db.keys, KeyOf(t), t.work.Wrote())),
       txns := s.txns[i := t.(stage := Done(Returned(t.stage.result)))], commits := s.commits + [i])
  }

  function Put<T>(s: State<T>, i: nat, t: Txn<T>): State<T>
    requires i < |s.txns|
  {
    s.(txns := s.txns[i := t])
  }

  function Next<T>(s: State<T>, step: Step<T>): State<T>
    requires Enabled(s, step)
  {
    match step
    case Begin(q) =>
      var t := Begun(s, q);
      s.(txns := s.txns + [t], announced := s.announced + if t.stage == Done(Migrating(1)) then 1 else 0)
    case Act(i) => Put(s, i, Acted(s.txns[i], TableAt(s.db.data, SiteOf(s.txns[i]))))
    case Check(i) => Put(s, i, s.txns[i].(stage := Verdict(s.txns[i], s.routes)))
    case Commit(i) => Committed(s, i)
    case Abort(i) => Put(s, i, s.txns[i].(stage := Done(Failed)))
    case SetGate(site, gate) => s.(gates := s.gates[site := gate])
    case Reroute(routes) => s.(routes := routes)
  }

  ghost predicate Reaches<T(!new)>(s: State<T>, run: seq<Step<T>>, t: State<T>)
    decreases |run|
  {
    if run == [] then s == t else Enabled(s, run[0]) && Reaches(Next(s, run[0]), run[1..], t)
  }

  // ------------------------------------------------------------ Where a transaction runs

  /**
   A transaction runs on the database that the registry says serves its tenant,
   the one the fan-out reads its rows from, and on the shared one iff there is
   none.
   */
  lemma BeginsWhereServed<T>(s: State<T>, q: Request<T>)
    requires FanOut.WellFormed(s.routes)
    ensures var t := Begun(s, q);
      && t.q == q && SiteOf(t) == Site(t.place, Lower(q.id))
      && (forall r :: FanOut.ServedBy(s.routes, q.id, r) ==> t.place == Own(r.host, r.dbName))
      && (t.place == Shared <==> forall r :: !FanOut.ServedBy(s.routes, q.id, r))
      && forall dbs: FanOut.Databases ::
        FanOut.Serving(dbs, s.routes, q.id)
          == match t.place case Own(host, name) => dbs.dedicated(host, name) case Shared => dbs.shared
  {
    hide FanOut.ServedBy, FanOut.Dedicated, FanOut.WellFormed, GateAt, IsUuid, Lower;
    FanOut.DedicatedExactly(s.routes, q.id);
  }

  predicate AllHex(s: string) {
    forall i :: 0 <= i < |s| ==> IsHex(s[i])
  }

  /** Five groups of 8, 4, 4, 4 and 12 hexadecimal digits. */
  lemma UuidGroups(a: string, b: string, c: string, d: string, e: string)
    requires |a| == 8 && |b| == |c| == |d| == 4 && |e| == 12
    ensures IsUuid(a + "-" + b + "-" + c + "-" + d + "-" + e)
      <==> AllHex(a) && AllHex(b) && AllHex(c) && AllHex(d) && AllHex(e)
  {
    hide IsHex;
    var s := a + "-" + b + "-" + c + "-" + d + "-" + e;
    assert s[..8] == a && s[9..13] == b && s[14..18] == c && s[19..23] == d && s[24..] == e;
    assert s[8] == s[13] == s[18] == s[23] == '-';
    if IsUuid(s) {
      assert forall i :: 0 <= i < 8 ==> s[i] == a[i];
      assert forall i :: 0 <= i < 4 ==> s[9 + i] == b[i] && s[14 + i] == c[i] && s[19 + i] == d[i];
      assert forall i :: 0 <= i < 12 ==> s[24 + i] == e[i];
    }
  }

  lemma UuidShape(s: string)
    requires IsUuid(s)
    ensures |s| == 36
      && s == s[..8] + "-" + s[9..13] + "-" + s[14..18] + "-" + s[19..23] + "-" + s[24..]
  {
  }

  /** What comes of a call before its callback runs. */
  lemma BeginDecides<T>(s: State<T>, q: Request<T>)
    ensures var t, after := Begun(s, q), Next(s, Begin(q));
      && after.txns == s.txns + [t] && after.db == s.db
      && t.gate == (if SiteOf(t) in s.gates then s.gates[SiteOf(t)] else Served)
      && (t.stage == Done(BadTenantId) <==> !IsUuid(q.id))
      && (t.stage == Done(Migrating(1)) <==> IsUuid(q.id) && t.gate == Moved)
      && (t.stage == Open <==> IsUuid(q.id) && t.gate != Moved)
      && after.announced == s.announced + (if IsUuid(q.id) && t.gate == Moved then 1 else 0)
      && t.work.writes == map[] && t.work.locks == {} && t.answers == []
  {
    hide PlaceOf, IsUuid;
  }

  /**
   A statement acts on its tenant's data in its own database: it is answered
   with the row its transaction wrote, or else the row committed there; a write
   or a lock holds the row, and a read holds and changes nothing.
   */
  lemma StatementActs<T>(s: State<T>, i: nat)
    requires Enabled(s, Act(i))
    ensures var t, after := s.txns[i], Next(s, Act(i));
      var site := Site(t.place, Lower(t.q.id));
      var table := if site in s.db.data then s.db.data[site] else map[];
      var a := NextAction(t.q.fn, t.answers);
      var seen := if a.key in t.work.writes then t.work.writes[a.key]
        else if a.key in table then Some(table[a.key]) else None;
      var u := after.txns[i];
      && after.db == s.db && u.answers == t.answers + [if a.Write? then None else seen]
      && u.work.writes == (if a.Write? then t.work.writes[a.key := a.row] else t.work.writes)
      && u.work.locks == t.work.locks + (if a.Read? then {} else {a.key})
      && (u.work.Wrote() <==> t.work.Wrote() || !a.Read?)
  {
  }

  /** A read is never held up; a write or a lock waits for an active transaction of the site that holds the row. */
  lemma WaitsForHolders<T>(s: State<T>, i: nat)
    requires i < |s.txns| && s.txns[i].stage == Open && IsStatement(NextAction(s.txns[i].q.fn, s.txns[i].answers))
    ensures var t := s.txns[i];
      var a := NextAction(t.q.fn, t.answers);
      Enabled(s, Act(i)) <==>
        a.Read? || forall j :: 0 <= j < |s.txns| && j != i && a.key in s.txns[j].work.locks ==>
          s.txns[j].stage.Done? || s.txns[j].place != t.place || Lower(s.txns[j].q.id) != Lower(t.q.id)
  {
    hide Lower;
  }

  /**
   A commit puts the transaction's writes into its tenant's data in its own
   database, row by row, and marks the key of its request, if there is one for
   this tenant and something was written; nothing else changes.
   */
  lemma CommitActs<T(!new)>(s: State<T>, i: nat)
    requires Enabled(s, Commit(i))
    ensures var t, after := s.txns[i], Next(s, Commit(i));
      var site := Site(t.place, Lower(t.q.id));
      && (forall other :: other != site ==> TableAt(after.db.data, other) == TableAt(s.db.data, other))
      && (forall key ::
          var before, now := Row(TableAt(s.db.data, site), key), Row(TableAt(after.db.data, site), key);
          now == if key in t.work.writes then t.work.writes[key] else before)
      && (forall row ::
          var before, now := KeyState(s.db.keys, row), KeyState(after.db.keys, row);
          var marked := before == Some(false) && t.work.Wrote() && t.q.idem.Some?
            && Lower(t.q.idem.value.tenantId) == Lower(t.q.id) && row == KeyRow(site, t.q.idem.value.key);
          now == if marked then Some(true) else before)
      && after.txns[i].stage == Done(Returned(t.stage.result))
  {
    hide Lower;
    var t := s.txns[i];
    forall key ensures Row(Apply(TableAt(s.db.data, SiteOf(t)), t.work.writes), key)
      == See(TableAt(s.db.data, SiteOf(t)), t.work.writes, key)
    {
      ApplyRow(TableAt(s.db.data, SiteOf(t)), t.work.writes, key);
    }
    hide Apply;
  }

  // ------------------------------------------------------------ The check

  /** A transaction that may go on to commit writes. */
  predicate MayWrite<T>(t: Txn<T>, routes: seq<FanOut.Route>) {
    t.gate != ReadOnly && !FanOut.ReadOnly(routes, t.q.id) && !IsDry(t.q)
  }

  /**
   A transaction gets past its check iff its callback returned and, if it wrote,
   the gate served it when it began, the registry as the router knows it does
   not have its tenant in a cutover or rollback, and it is no dry run; nothing
   later asks again.  Otherwise it fails, is told to wait, or is rolled back
   with its result.
   */
  lemma CheckDecides<T>(s: State<T>, i: nat)
    requires Enabled(s, Check(i))
    ensures var t, after := s.txns[i], Next(s, Check(i));
      var last, marked := NextAction(t.q.fn, t.answers), FanOut.ReadOnly(s.routes, t.q.id);
      var dry := t.q.dry.Some? && Lower(t.q.dry.value) == Lower(t.q.id);
      && after.db == s.db
      && after.txns[i] == t.(stage :=
          if !last.Finish? then Done(Failed)
          else if t.work.Wrote() && (t.gate == ReadOnly || marked) then Done(Migrating(5))
          else if t.work.Wrote() && dry then Done(DryRun(last.result))
          else Checked(last.result))
      && (after.txns[i].stage.Checked? <==> last.Finish? && (t.work.Wrote() ==> MayWrite(t, s.routes)))
      && (after.txns[i].stage.Checked? ==> Enabled(after, Commit(i)) && Enabled(after, Abort(i)))
    ensures FanOut.WellFormed(s.routes) ==>
      (FanOut.ReadOnly(s.routes, s.txns[i].q.id) <==> exists r ::
        r in s.routes && r.tenantId == Lower(s.txns[i].q.id) && (r.status == "CUTOVER" || r.status == "ROLLING_BACK"))
  {
    hide FanOut.WellFormed;
    if FanOut.WellFormed(s.routes) { FanOut.ReadOnlyExactly(s.routes, s.txns[i].q.id); }
    hide FanOut.ReadOnly, Lower;
  }

  /**
   The check of a dry run gives what that of the same call without its mark
   gives, but that it carries the result out and rolls back exactly if the call
   wrote.
   */
  lemma DryRunMirrorsRealRun<T>(s: State<T>, i: nat)
    requires Enabled(s, Check(i)) && IsDry(s.txns[i].q)
    ensures var t := s.txns[i];
      var wet := Put(s, i, t.(q := t.q.(dry := None)));
      && Enabled(wet, Check(i))
      && var dry, full := Next(s, Check(i)).txns[i].stage, Next(wet, Check(i)).txns[i].stage;
        dry == if full.Checked? && t.work.Wrote() then Done(DryRun(full.result)) else full
  {
    hide FanOut.ReadOnly;
  }

  // ------------------------------------------------------------ What every step keeps

  /** The data and the keys of a site are the same in two states. */
  ghost predicate SameSite<T(!new)>(s: State<T>, t: State<T>, site: Site) {
    && TableAt(t.db.data, site) == TableAt(s.db.data, site)
    && forall key :: KeyState(t.db.keys, KeyRow(site, key)) == KeyState(s.db.keys, KeyRow(site, key))
  }

  /** The commit of this transaction would change its site. */
  predicate WouldChange<T>(s: State<T>, i: nat)
    requires i < |s.txns|
  {
    var t := s.txns[i];
    || Apply(TableAt(s.db.data, SiteOf(t)), t.work.writes) != TableAt(s.db.data, SiteOf(t))
    || (KeyOf(t).Some? && KeyState(s.db.keys, KeyOf(t).value) == Some(false) && t.work.Wrote())
  }

  /** Only a commit of the site's own changes its data and keys, and only one that has something to change. */
  lemma OnlyCommitsChange<T(!new)>(s: State<T>, step: Step<T>, site: Site)
    requires Enabled(s, step)
    ensures SameSite(s, Next(s, step), site) <==>
      !(step.Commit? && SiteOf(s.txns[step.txn]) == site && WouldChange(s, step.txn))
  {
    hide Apply, Begun, Acted, Verdict, IsLocked;
    if step.Commit? && SiteOf(s.txns[step.txn]) == site {
      var t, after := s.txns[step.txn], Next(s, step);
      assert TableAt(after.db.data, site) == Apply(TableAt(s.db.data, site), t.work.writes);
      if KeyOf(t).Some? {
        var row := KeyOf(t).value;
        assert row == KeyRow(site, row.key);
        assert KeyState(after.db.keys, row) == KeyState(s.db.keys, row)
          <==> !(KeyState(s.db.keys, row) == Some(false) && t.work.Wrote());
      }
    }
  }

  /** A transaction that is to commit, or has committed, writes was served and is no dry run. */
  ghost predicate Allowed<T(!new)>(t: Txn<T>) {
    && t.work.writes.Keys <= t.work.locks
    && (t.stage == Open ==> t.gate != Moved)
    && (t.work.Wrote() && (t.stage.Checked? || (t.stage.Done? && t.stage.reply.Returned?)) ==>
        t.gate == Served && !IsDry(t.q))
  }

  /** Rows are locked by one transaction at a time. */
  ghost predicate LocksApart<T(!new)>(txns: seq<Txn<T>>) {
    forall i, j :: 0 <= i < |txns| && 0 <= j < |txns| && i != j ==>
      IsActive(txns[i]) && IsActive(txns[j]) && SiteOf(txns[i]) == SiteOf(txns[j]) ==>
      txns[i].work.locks !! txns[j].work.locks
  }

  /** Just the transactions that returned a value have committed. */
  ghost predicate HistoryKept<T(!new)>(s: State<T>) {
    && (forall i :: i in s.commits ==> i < |s.txns|)
    && (forall i :: 0 <= i < |s.txns| ==>
        (i in s.commits <==> s.txns[i].stage.Done? && s.txns[i].stage.reply.Returned?))
  }

  ghost predicate Consistent<T(!new)>(s: State<T>) {
    && (forall i :: 0 <= i < |s.txns| ==> Allowed(s.txns[i]))
    && LocksApart(s.txns)
    && HistoryKept(s)
  }

  lemma VerdictAllowed<T(!new)>(t: Txn<T>, routes: seq<FanOut.Route>)
    requires Allowed(t) && t.stage == Open
    ensures Allowed(t.(stage := Verdict(t, routes)))
    ensures !(Verdict(t, routes).Done? && Verdict(t, routes).reply.Returned?) && Verdict(t, routes) != Open
  {
    hide FanOut.ReadOnly, IsDry;
  }

  lemma ActedAllowed<T(!new)>(t: Txn<T>, table: Table)
    requires Allowed(t) && t.stage == Open && IsStatement(NextAction(t.q.fn, t.answers))
    ensures var a, after := NextAction(t.q.fn, t.answers), Acted(t, table);
      && Allowed(after) && after.stage == Open && SiteOf(after) == SiteOf(t)
      && after.work.locks == t.work.locks + if a.Read? then {} else {a.key}
  {
    hide IsDry;
  }

  lemma StepKeepsConsistent<T(!new)>(s: State<T>, step: Step<T>)
    requires Consistent(s) && Enabled(s, step)
    ensures Consistent(Next(s, step))
  {
    hide Allowed, LocksApart, HistoryKept, Begun, Acted, Verdict, Committed, Enabled;
    match step {
      case Begin(q) => BeginKeeps(s, q);
      case Act(i) => ActKeeps(s, i);
      case Check(i) => CheckKeeps(s, i);
      case Commit(i) => CommitKeeps(s, i);
      case Abort(i) => AbortKeeps(s, i);
      case _ => SameTxns(s, Next(s, step));
    }
  }

  lemma SameTxns<T(!new)>(s: State<T>, t: State<T>)
    requires Consistent(s) && t.txns == s.txns && t.commits == s.commits
    ensures Consistent(t)
  {
    hide Allowed, LocksApart;
  }

  lemma BeginKeeps<T(!new)>(s: State<T>, q: Request<T>)
    requires Consistent(s)
    ensures Consistent(Next(s, Begin(q)))
  {
    hide IsDry, PlaceOf, GateAt, IsUuid;
    var t := Next(s, Begin(q));
    assert forall i :: 0 <= i < |s.txns| ==> t.txns[i] == s.txns[i];
  }

  lemma ActKeeps<T(!new)>(s: State<T>, i: nat)
    requires Consistent(s) && Enabled(s, Act(i))
    ensures Consistent(Next(s, Act(i)))
  {
    hide Allowed, Acted;
    ActedAllowed(s.txns[i], TableAt(s.db.data, SiteOf(s.txns[i])));
  }

  lemma CheckKeeps<T(!new)>(s: State<T>, i: nat)
    requires Consistent(s) && Enabled(s, Check(i))
    ensures Consistent(Next(s, Check(i)))
  {
    hide Allowed, Verdict;
    VerdictAllowed(s.txns[i], s.routes);
  }

  lemma CommitKeeps<T(!new)>(s: State<T>, i: nat)
    requires Consistent(s) && Enabled(s, Commit(i))
    ensures Consistent(Next(s, Commit(i)))
  {
    hide Apply, MarkApplied, KeyOf, IsDry;
    var t := Next(s, Commit(i));
    assert forall j :: j in t.commits <==> j in s.commits || j == i;
  }

  lemma AbortKeeps<T(!new)>(s: State<T>, i: nat)
    requires Consistent(s) && Enabled(s, Abort(i))
    ensures Consistent(Next(s, Abort(i)))
  {
    hide IsDry;
  }

  // ------------------------------------------------------------ The account of a run

  /** What the commits of a list make of one site's table. */
  ghost function Replay<T(!new)>(commits: seq<nat>, txns: seq<Txn<T>>, site: Site, table: Table): Table {
    if commits == [] then table
    else
      var before, i := Replay(commits[..|commits| - 1], txns, site, table), commits[|commits| - 1];
      if i < |txns| && SiteOf(txns[i]) == site then Apply(before, txns[i].work.writes) else before
  }

  /** Some commit of the list wrote under this key. */
  ghost predicate Marks<T(!new)>(commits: seq<nat>, txns: seq<Txn<T>>, row: KeyRow) {
    exists i :: i in commits && i < |txns| && txns[i].work.Wrote() && KeyOf(txns[i]) == Some(row)
  }

  /** The data is the replay of the commits from `origin`, and a key is applied iff it was or a commit marked it. */
  ghost predicate Accounted<T(!new)>(s: State<T>, origin: Db) {
    && (forall site :: TableAt(s.db.data, site) == Replay(s.commits, s.txns, site, TableAt(origin.data, site)))
    && s.db.keys.Keys == origin.keys.Keys
    && (forall row :: row in origin.keys ==> (s.db.keys[row] <==> origin.keys[row] || Marks(s.commits, s.txns, row)))
  }

  /** What a transaction commits: its site, its writes and its key. */
  ghost predicate SameWork<T(!new)>(commits: seq<nat>, a: seq<Txn<T>>, b: seq<Txn<T>>) {
    forall i :: i in commits ==>
      i < |a| && i < |b| && SiteOf(a[i]) == SiteOf(b[i]) && a[i].work == b[i].work && KeyOf(a[i]) == KeyOf(b[i])
  }

  lemma {:induction false} ReplayStable<T(!new)>(
      commits: seq<nat>, a: seq<Txn<T>>, b: seq<Txn<T>>, site: Site, table: Table)
    requires SameWork(commits, a, b)
    ensures Replay(commits, a, site, table) == Replay(commits, b, site, table)
  {
    hide Apply, SiteOf, KeyOf;
    if commits != [] {
      assert commits[|commits| - 1] in commits;
      assert SameWork(commits[..|commits| - 1], a, b);
      ReplayStable(commits[..|commits| - 1], a, b, site, table);
    }
  }

  lemma MarksStable<T(!new)>(commits: seq<nat>, a: seq<Txn<T>>, b: seq<Txn<T>>, row: KeyRow)
    requires SameWork(commits, a, b)
    ensures Marks(commits, a, row) <==> Marks(commits, b, row)
  {
    hide KeyOf, SiteOf;
  }

  /** Steps that commit nothing keep the account. */
  lemma AccountStays<T(!new)>(s: State<T>, t: State<T>, origin: Db)
    requires Accounted(s, origin) && t.db == s.db && t.commits == s.commits && SameWork(s.commits, s.txns, t.txns)
    ensures Accounted(t, origin)
  {
    hide Replay, Marks, SameWork, TableAt;
    forall site ensures TableAt(t.db.data, site) == Replay(t.commits, t.txns, site, TableAt(origin.data, site)) {
      ReplayStable(s.commits, s.txns, t.txns, site, TableAt(origin.data, site));
    }
    forall row | row in origin.keys ensures Marks(t.commits, t.txns, row) <==> Marks(s.commits, s.txns, row) {
      MarksStable(s.commits, s.txns, t.txns, row);
    }
  }

  lemma StepKeepsAccount<T(!new)>(s: State<T>, step: Step<T>, origin: Db)
    requires Consistent(s) && Accounted(s, origin) && Enabled(s, step)
    ensures Accounted(Next(s, step), origin)
  {
    hide Accounted, Consistent, Committed, Begun, Acted, Verdict;
    if step.Commit? {
      CommitKeepsAccount(s, step.txn, origin);
    } else {
      OthersKeepWork(s, step);
      AccountStays(s, Next(s, step), origin);
    }
  }

  lemma OthersKeepWork<T(!new)>(s: State<T>, step: Step<T>)
    requires Consistent(s) && Enabled(s, step) && !step.Commit?
    ensures var t := Next(s, step); t.db == s.db && t.commits == s.commits && SameWork(s.commits, s.txns, t.txns)
  {
    hide Allowed, LocksApart, Begun, Acted, Verdict, IsLocked, SiteOf, KeyOf;
  }

  lemma CommitKeepsAccount<T(!new)>(s: State<T>, i: nat, origin: Db)
    requires Consistent(s) && Accounted(s, origin) && Enabled(s, Commit(i))
    ensures Accounted(Committed(s, i), origin)
  {
    hide Replay, Marks, Committed, Allowed, LocksApart;
    var t := Committed(s, i);
    CommitWork(s, i);
    forall site ensures TableAt(t.db.data, site) == Replay(t.commits, t.txns, site, TableAt(origin.data, site)) {
      CommitReplays(s, i, site, TableAt(origin.data, site));
    }
    forall row | row in origin.keys ensures t.db.keys[row] <==> origin.keys[row] || Marks(t.commits, t.txns, row) {
      CommitMarks(s, i, row);
    }
  }

  lemma CommitWork<T(!new)>(s: State<T>, i: nat)
    requires Consistent(s) && Enabled(s, Commit(i))
    ensures var t := Committed(s, i);
      t.db.keys.Keys == s.db.keys.Keys && SameWork(s.commits, s.txns, t.txns)
  {
    hide Allowed, LocksApart, Apply;
  }

  lemma ReplayLast<T(!new)>(front: seq<nat>, i: nat, txns: seq<Txn<T>>, site: Site, table: Table)
    ensures var before := Replay(front, txns, site, table);
      Replay(front + [i], txns, site, table)
      == if i < |txns| && SiteOf(txns[i]) == site then Apply(before, txns[i].work.writes) else before
  {
    hide Apply, SiteOf;
    assert (front + [i])[..|front|] == front;
  }

  lemma CommitReplays<T(!new)>(s: State<T>, i: nat, site: Site, table: Table)
    requires Consistent(s) && Enabled(s, Commit(i))
    requires TableAt(s.db.data, site) == Replay(s.commits, s.txns, site, table)
    ensures var t := Committed(s, i); TableAt(t.db.data, site) == Replay(t.commits, t.txns, site, table)
  {
    hide Replay, Apply, Allowed, LocksApart, KeyOf, MarkApplied;
    var t := Committed(s, i);
    CommitWork(s, i);
    ReplayStable(s.commits, s.txns, t.txns, site, table);
    ReplayLast(s.commits, i, t.txns, site, table);
    assert SiteOf(t.txns[i]) == SiteOf(s.txns[i]);
  }

  lemma CommitMarks<T(!new)>(s: State<T>, i: nat, row: KeyRow)
    requires Consistent(s) && Enabled(s, Commit(i)) && row in s.db.keys
    requires Marks(s.commits, s.txns, row) ==> s.db.keys[row]
    ensures var t := Committed(s, i);
      && row in t.db.keys && (t.db.keys[row] <==> s.db.keys[row] || Marks(t.commits, t.txns, row))
      && (Marks(s.commits, s.txns, row) ==> Marks(t.commits, t.txns, row))
  {
    hide Apply, Allowed, LocksApart;
    var t := Committed(s, i);
    assert forall j :: j in t.commits <==> j in s.commits || j == i;
    assert KeyOf(t.txns[i]) == KeyOf(s.txns[i]);
    assert forall j :: j in s.commits ==> t.txns[j].work == s.txns[j].work && KeyOf(t.txns[j]) == KeyOf(s.txns[j]);
  }

  lemma {:induction false} RunKeepsAccount<T(!new)>(s: State<T>, run: seq<Step<T>>, t: State<T>, origin: Db)
    requires Consistent(s) && Accounted(s, origin) && Reaches(s, run, t)
    ensures Consistent(t) && Accounted(t, origin)
    decreases |run|
  {
    hide Consistent, Accounted, Next, Enabled;
    if run != [] {
      StepKeepsConsistent(s, run[0]);
      StepKeepsAccount(s, run[0], origin);
      RunKeepsAccount(Next(s, run[0]), run[1..], t, origin);
    }
  }

  // ------------------------------------------------------------ Over all runs

  /** A service that has not run a transaction yet, on whatever data, gates and routes. */
  predicate Fresh<T>(s: State<T>) {
    s.txns == [] && s.commits == []
  }

  lemma FreshIsAccounted<T(!new)>(s: State<T>)
    requires Fresh(s)
    ensures Consistent(s) && Accounted(s, s.db)
  {
  }

  /** The commits that wrote. */
  ghost function Writers<T(!new)>(commits: seq<nat>, txns: seq<Txn<T>>): seq<nat> {
    if commits == [] then []
    else
      var i := commits[|commits| - 1];
      Writers(commits[..|commits| - 1], txns) + if i < |txns| && txns[i].work.Wrote() then [i] else []
  }

  lemma {:induction false} WritersReplay<T(!new)>(commits: seq<nat>, txns: seq<Txn<T>>, site: Site, table: Table)
    requires forall i :: i in commits ==> i < |txns| && txns[i].work.writes.Keys <= txns[i].work.locks
    ensures Replay(Writers(commits, txns), txns, site, table) == Replay(commits, txns, site, table)
    ensures forall i :: i in Writers(commits, txns) <==> i in commits && i < |txns| && txns[i].work.Wrote()
  {
    hide Replay, Apply, SiteOf;
    if commits != [] {
      var front, i := commits[..|commits| - 1], commits[|commits| - 1];
      assert commits == front + [i] && i in commits;
      assert forall j :: j in front ==> j in commits;
      WritersReplay(front, txns, site, table);
      ReplayLast(front, i, txns, site, table);
      ReplayLast(Writers(front, txns), i, txns, site, table);
      if !txns[i].work.Wrote() {
        assert txns[i].work.writes == map[];
        ApplyNothing(Replay(front, txns, site, table));
        assert Writers(front, txns) + [] == Writers(front, txns);
      }
    }
  }

  /**
   In every reachable state each site's data is what the writes of its writing
   transactions make of it, in the order of their commits; each of them began
   while the gate served the tenant, and none is a dry run.
   */
  lemma OnlyServedWritesCount<T(!new)>(s: State<T>, run: seq<Step<T>>, t: State<T>)
    requires Fresh(s) && Reaches(s, run, t)
    ensures forall site ::
      TableAt(t.db.data, site) == Replay(Writers(t.commits, t.txns), t.txns, site, TableAt(s.db.data, site))
    ensures forall i :: i in Writers(t.commits, t.txns) ==>
      i < |t.txns| && t.txns[i].gate == Served && !IsDry(t.txns[i].q)
    ensures forall i :: 0 <= i < |t.txns| && t.txns[i].work.Wrote() ==>
      (i in Writers(t.commits, t.txns) <==> t.txns[i].stage.Done? && t.txns[i].stage.reply.Returned?)
  {
    hide Replay, Writers, IsDry;
    FreshIsAccounted(s);
    RunKeepsAccount(s, run, t, s.db);
    assert forall i :: i in t.commits ==> Allowed(t.txns[i]);
    WritersReplay(t.commits, t.txns, Site(Shared, ""), map[]);
    forall site
      ensures TableAt(t.db.data, site) == Replay(Writers(t.commits, t.txns), t.txns, site, TableAt(s.db.data, site))
    {
      WritersReplay(t.commits, t.txns, site, TableAt(s.db.data, site));
    }
  }

  /** In every reachable state a key is applied iff it was at the start, or a transaction under it committed writes. */
  lemma KeyAppliedIffWritesCommitted<T(!new)>(s: State<T>, run: seq<Step<T>>, t: State<T>, row: KeyRow)
    requires Fresh(s) && Reaches(s, run, t) && row in s.db.keys
    ensures row in t.db.keys && (t.db.keys[row] <==> s.db.keys[row] || Marks(t.commits, t.txns, row))
  {
    hide Replay, Marks;
    FreshIsAccounted(s);
    RunKeepsAccount(s, run, t, s.db);
  }

  // ------------------------------------------------------------ Locked rows

  ghost predicate Holds<T(!new)>(s: State<T>, i: nat, site: Site, key: string) {
    i < |s.txns| && IsActive(s.txns[i]) && SiteOf(s.txns[i]) == site && key in s.txns[i].work.locks
  }

  /** A step keeps a transaction's lock and the row under it, unless it ends the transaction. */
  lemma LockedRowStep<T(!new)>(s: State<T>, step: Step<T>, i: nat, site: Site, key: string)
    requires Consistent(s) && Enabled(s, step) && Holds(s, i, site, key)
    ensures i < |Next(s, step).txns|
    ensures IsActive(Next(s, step).txns[i]) ==>
      && Holds(Next(s, step), i, site, key)
      && Row(TableAt(Next(s, step).db.data, site), key) == Row(TableAt(s.db.data, site), key)
  {
    hide HistoryKept, Begun, Verdict, IsLocked, Apply, KeyOf, MarkApplied, IsDry;
    if step.Commit? && SiteOf(s.txns[step.txn]) == site && step.txn != i {
      var j := step.txn;
      assert Allowed(s.txns[j]);
      assert key !in s.txns[j].work.writes;
      ApplyRow(TableAt(s.db.data, site), s.txns[j].work.writes, key);
    }
  }

  lemma {:induction false} DoneStaysDone<T(!new)>(s: State<T>, run: seq<Step<T>>, t: State<T>, i: nat)
    requires Reaches(s, run, t) && i < |s.txns| && !IsActive(s.txns[i])
    ensures i < |t.txns| && t.txns[i] == s.txns[i]
    decreases |run|
  {
    if run != [] {
      DoneStep(s, run[0], i);
      DoneStaysDone(Next(s, run[0]), run[1..], t, i);
    }
  }

  lemma DoneStep<T(!new)>(s: State<T>, step: Step<T>, i: nat)
    requires Enabled(s, step) && i < |s.txns| && !IsActive(s.txns[i])
    ensures i < |Next(s, step).txns| && Next(s, step).txns[i] == s.txns[i]
  {
    hide Begun, Acted, Verdict, IsLocked, Apply, KeyOf, MarkApplied;
  }

  /**
   No update is lost on a row that was locked: whatever else runs, it stays as
   it was committed when the lock was taken, until the transaction ends.
   */
  lemma {:induction false} LockedRowsStay<T(!new)>(
      s: State<T>, run: seq<Step<T>>, t: State<T>, i: nat, site: Site, key: string)
    requires Consistent(s) && Reaches(s, run, t) && Holds(s, i, site, key)
    ensures i < |t.txns|
    ensures IsActive(t.txns[i]) ==>
      Holds(t, i, site, key) && Row(TableAt(t.db.data, site), key) == Row(TableAt(s.db.data, site), key)
    decreases |run|
  {
    hide Consistent, Next, Enabled, Row, TableAt;
    if run != [] {
      StepKeepsConsistent(s, run[0]);
      LockedRowStep(s, run[0], i, site, key);
      var next := Next(s, run[0]);
      if IsActive(next.txns[i]) {
        LockedRowsStay(next, run[1..], t, i, site, key);
      } else {
        DoneStaysDone(next, run[1..], t, i);
      }
    }
  }

  // ------------------------------------------------------------ Closing the gate

  /** The gate of a site is closed to writes, and the transactions it let through are over. */
  ghost predicate Drained<T(!new)>(s: State<T>, site: Site) {
    && GateAt(s.gates, site) != Served
    && forall i :: 0 <= i < |s.txns| && SiteOf(s.txns[i]) == site && IsActive(s.txns[i]) ==> s.txns[i].gate == ReadOnly
  }

  ghost predicate KeepsClosed<T(!new)>(run: seq<Step<T>>, site: Site) {
    forall i :: 0 <= i < |run| ==> run[i].SetGate? ==> run[i].site == site ==> run[i].gate != Served
  }

  lemma DrainedStep<T(!new)>(s: State<T>, step: Step<T>, site: Site)
    requires Consistent(s) && Drained(s, site) && Enabled(s, step)
    requires step.SetGate? && step.site == site ==> step.gate != Served
    ensures Drained(Next(s, step), site) && SameSite(s, Next(s, step), site)
  {
    hide HistoryKept, LocksApart, SameSite, WouldChange;
    OnlyCommitsChange(s, step, site);
    DrainedStays(s, step, site);
    if step.Commit? && SiteOf(s.txns[step.txn]) == site {
      assert Allowed(s.txns[step.txn]);
      IdleChangesNothing(s, step.txn);
    }
  }

  lemma DrainedStays<T(!new)>(s: State<T>, step: Step<T>, site: Site)
    requires Drained(s, site) && Enabled(s, step) && (step.SetGate? && step.site == site ==> step.gate != Served)
    ensures Drained(Next(s, step), site)
  {
    hide Apply, IsLocked, Verdict, PlaceOf, IsUuid, KeyOf, MarkApplied;
  }

  lemma IdleChangesNothing<T(!new)>(s: State<T>, i: nat)
    requires i < |s.txns| && Allowed(s.txns[i]) && !s.txns[i].work.Wrote()
    ensures !WouldChange(s, i)
  {
    hide Apply, IsDry;
    assert s.txns[i].work.writes == map[];
    ApplyNothing(TableAt(s.db.data, SiteOf(s.txns[i])));
  }

  /**
   A cutover is safe: once the gate of a site no longer serves the tenant and
   the transactions it served are over, its data and keys stay as they are for
   as long as the gate stays closed, whatever the routers of the service think.
   */
  lemma {:induction false} DrainedSiteIsFrozen<T(!new)>(s: State<T>, run: seq<Step<T>>, t: State<T>, site: Site)
    requires Consistent(s) && Drained(s, site) && KeepsClosed(run, site) && Reaches(s, run, t)
    ensures SameSite(s, t, site)
    decreases |run|
  {
    hide Consistent, Drained, Enabled, Next;
    if run != [] {
      StepKeepsConsistent(s, run[0]);
      DrainedStep(s, run[0], site);
      assert KeepsClosed(run[1..], site) by {
        assert forall i :: 0 <= i < |run[1..]| ==> run[1..][i] == run[i + 1];
      }
      DrainedSiteIsFrozen(Next(s, run[0]), run[1..], t, site);
    }
  }

  // ------------------------------------------------------------ Marking a tenant

  ghost predicate KeepsMarked<T(!new)>(run: seq<Step<T>>, tenant: string) {
    forall i :: 0 <= i < |run| ==> run[i].Reroute? ==> FanOut.ReadOnly(run[i].routes, tenant)
  }

  /** No transaction that is past its check has anything to change. */
  ghost predicate NothingPending<T(!new)>(s: State<T>, site: Site) {
    forall i :: 0 <= i < |s.txns| && s.txns[i].stage.Checked? && SiteOf(s.txns[i]) == site ==> !WouldChange(s, i)
  }

  /** As long as the mark stays, so do the data and keys of the site. */
  ghost predicate FrozenWhileMarked<T(!new)>(s: State<T>, site: Site) {
    forall run, t :: KeepsMarked(run, site.tenant) && Reaches(s, run, t) ==> SameSite(s, t, site)
  }

  predicate IsMarked<T>(s: State<T>, site: Site) {
    FanOut.ReadOnly(s.routes, site.tenant)
  }

  lemma MarkedStep<T(!new)>(s: State<T>, step: Step<T>, site: Site)
    requires Consistent(s) && IsMarked(s, site) && NothingPending(s, site) && FanOut.Canonical(site.tenant)
    requires Enabled(s, step) && (step.Reroute? ==> FanOut.ReadOnly(step.routes, site.tenant))
    ensures SameSite(s, Next(s, step), site) && NothingPending(Next(s, step), site) && IsMarked(Next(s, step), site)
  {
    hide Consistent, WouldChange, FanOut.ReadOnly, Committed, Begun, Acted, Verdict, SameSite;
    OnlyCommitsChange(s, step, site);
    var t := Next(s, step);
    forall i | 0 <= i < |t.txns| && t.txns[i].stage.Checked? && SiteOf(t.txns[i]) == site
      ensures !WouldChange(t, i)
    {
      PendingBefore(s, step, i, site);
    }
    RoutesStay(s, step, site);
  }

  lemma RoutesStay<T(!new)>(s: State<T>, step: Step<T>, site: Site)
    requires Enabled(s, step) && IsMarked(s, site) && (step.Reroute? ==> FanOut.ReadOnly(step.routes, site.tenant))
    ensures IsMarked(Next(s, step), site)
  {
    hide Apply, Begun, Acted, Verdict, FanOut.ReadOnly, IsLocked;
  }

  /** A transaction past its check was so before, or has just found the mark and so has written nothing. */
  lemma PendingBefore<T(!new)>(s: State<T>, step: Step<T>, i: nat, site: Site)
    requires Consistent(s) && IsMarked(s, site) && NothingPending(s, site) && FanOut.Canonical(site.tenant)
    requires Enabled(s, step) && SameSite(s, Next(s, step), site)
    requires i < |Next(s, step).txns| && Next(s, step).txns[i].stage.Checked? && SiteOf(Next(s, step).txns[i]) == site
    ensures !WouldChange(Next(s, step), i)
  {
    hide HistoryKept, LocksApart, WouldChange, Apply, IsLocked, Committed, Begun, Acted;
    var t := Next(s, step);
    StageBefore(s, step, i);
    if s.txns[i].stage.Checked? {
      SameTable(s, t, i);
    } else {
      assert Allowed(s.txns[i]);
      CheckedIdle(s, i);
      IdleChangesNothing(t, i);
    }
  }

  lemma StageBefore<T(!new)>(s: State<T>, step: Step<T>, i: nat)
    requires Enabled(s, step) && i < |Next(s, step).txns| && Next(s, step).txns[i].stage.Checked?
    ensures i < |s.txns| && SiteOf(s.txns[i]) == SiteOf(Next(s, step).txns[i])
    ensures s.txns[i].stage.Checked? ==> Next(s, step).txns[i] == s.txns[i]
    ensures !s.txns[i].stage.Checked? ==>
      step == Check(i) && Next(s, step).txns[i] == s.txns[i].(stage := Verdict(s.txns[i], s.routes))
  {
    hide Apply, IsLocked, FanOut.ReadOnly, IsDry, PlaceOf, IsUuid, GateAt, KeyOf, MarkApplied;
  }

  lemma SameTable<T(!new)>(s: State<T>, t: State<T>, i: nat)
    requires i < |s.txns| && i < |t.txns| && s.txns[i] == t.txns[i] && SameSite(s, t, SiteOf(s.txns[i]))
    ensures WouldChange(s, i) <==> WouldChange(t, i)
  {
    hide Apply;
    if KeyOf(s.txns[i]).Some? {
      var row := KeyOf(s.txns[i]).value;
      assert row == KeyRow(SiteOf(s.txns[i]), row.key);
    }
  }

  lemma CheckedIdle<T>(s: State<T>, i: nat)
    requires i < |s.txns| && IsMarked(s, SiteOf(s.txns[i])) && Verdict(s.txns[i], s.routes).Checked?
    ensures !s.txns[i].work.Wrote()
  {
    hide IsDry;
    LowerTwice(s.txns[i].q.id);
  }

  lemma LowerTwice(id: string)
    ensures Lower(Lower(id)) == Lower(id)
  {
  }

  lemma {:induction false} MarkedRun<T(!new)>(s: State<T>, run: seq<Step<T>>, t: State<T>, site: Site)
    requires Consistent(s) && IsMarked(s, site) && NothingPending(s, site) && FanOut.Canonical(site.tenant)
    requires KeepsMarked(run, site.tenant) && Reaches(s, run, t)
    ensures SameSite(s, t, site)
    decreases |run|
  {
    hide Consistent, IsMarked, NothingPending, Enabled, Next, FanOut.ReadOnly;
    if run != [] {
      StepKeepsConsistent(s, run[0]);
      MarkedStep(s, run[0], site);
      assert KeepsMarked(run[1..], site.tenant) by {
        assert forall i :: 0 <= i < |run[1..]| ==> run[1..][i] == run[i + 1];
      }
      MarkedRun(Next(s, run[0]), run[1..], t, site);
    }
  }

  /**
   A marked tenant's data stays as it is while it is marked iff no transaction
   that was past its check when the mark came has anything left to change.
   */
  lemma MarkedTenantIsFrozen<T(!new)>(s: State<T>, site: Site)
    requires Consistent(s) && IsMarked(s, site) && FanOut.Canonical(site.tenant)
    ensures FrozenWhileMarked(s, site) <==> NothingPending(s, site)
  {
    hide Consistent, IsMarked, WouldChange, SameSite;
    if NothingPending(s, site) {
      forall run, t | KeepsMarked(run, site.tenant) && Reaches(s, run, t) ensures SameSite(s, t, site) {
        MarkedRun(s, run, t, site);
      }
    } else {
      var i :| 0 <= i < |s.txns| && s.txns[i].stage.Checked? && SiteOf(s.txns[i]) == site && WouldChange(s, i);
      var step: Step<T> := Commit(i);
      OnlyCommitsChange(s, step, site);
      OneStep(s, step);
      assert KeepsMarked([step], site.tenant);
    }
  }

  lemma OneStep<T(!new)>(s: State<T>, step: Step<T>)
    requires Enabled(s, step)
    ensures Reaches(s, [step], Next(s, step))
  {
    hide Enabled, Next;
    assert [step][1..] == [];
    assert Reaches(Next(s, step), [], Next(s, step));
  }

  lemma {:induction false} ReachesOn<T(!new)>(
      s: State<T>, run: seq<Step<T>>, t: State<T>, more: seq<Step<T>>, u: State<T>)
    requires Reaches(s, run, t) && Reaches(t, more, u)
    ensures Reaches(s, run + more, u)
    decreases |run|
  {
    hide Enabled, Next;
    if run == [] {
      assert run + more == more;
    } else {
      assert (run + more)[0] == run[0] && (run + more)[1..] == run[1..] + more;
      ReachesOn(Next(s, run[0]), run[1..], t, more, u);
    }
  }

  /** Writes one row and returns. */
  function WriteOnce(key: string, row: string): Callback<()> {
    Callback(2, (answers: seq<Option<string>>) => if answers == [] then Write(key, Some(row)) else Finish(()))
  }

  /** The registry entry that marks a tenant at the start of a cutover. */
  function CutoverEntry(id: string): FanOut.Route {
    FanOut.Route(id, "", "", "CUTOVER", "SHARED")
  }

  /** A write that was checked before the mark is committed after it. */
  lemma {:induction false} LateCommit(id: string, key: string, row: string)
    returns (run: seq<Step<()>>, s: State<()>, t: State<()>)
    requires IsUuid(id) && FanOut.Canonical(id)
    ensures Fresh(s) && TableAt(s.db.data, Site(Shared, id)) == map[]
    ensures |run| == 5 && run[3] == Reroute([CutoverEntry(id)]) && run[4] == Commit(0)
    ensures Reaches(s, run, t) && FanOut.ReadOnly(t.routes, id)
    ensures TableAt(t.db.data, Site(Shared, id)) == map[key := row]
  {
    var q := Request(id, None, None, WriteOnce(key, row));
    var open := Txn(q, Shared, Served, IDLE, [], Open);
    var acted := open.(work := Working(map[key := Some(row)], {key}), answers := [None]);
    s := State(Db(map[], map[]), map[], [], 0, [], []);
    var s1, s2 := s.(txns := [open]), s.(txns := [acted]);
    var s3: State<()> := s.(txns := [acted.(stage := Checked(()))]);
    var s4 := s3.(routes := [CutoverEntry(id)]);
    LateBegins(s, q);
    LateWrites(s1, open, key, row);
    LateChecks(s2, acted);
    t := LateCommits(s4, acted, key, row);
    MarkedByEntry(id);
    hide Next, Enabled, Reaches;
    assert Enabled(s3, Reroute(s4.routes)) && Next(s3, Reroute(s4.routes)) == s4 by { Reroutes(s3, s4.routes); }
    FiveSteps(s, Begin(q), s1, Act(0), s2, Check(0), s3, Reroute(s4.routes), s4, Commit(0), t);
    run := [Begin(q), Act(0), Check(0), Reroute([CutoverEntry(id)]), Commit(0)];
  }

  lemma Reroutes<T>(s: State<T>, routes: seq<FanOut.Route>)
    ensures Enabled(s, Reroute(routes)) && Next(s, Reroute(routes)) == s.(routes := routes)
  {
  }

  lemma LateBegins(s: State<()>, q: Request<()>)
    requires s == State(Db(map[], map[]), map[], [], 0, [], []) && IsUuid(q.id)
    ensures Enabled(s, Begin(q)) && Next(s, Begin(q)) == s.(txns := [Txn(q, Shared, Served, IDLE, [], Open)])
  {
    hide IsUuid;
    assert FanOut.Dedicated([], q.id) == None;
  }

  lemma LateWrites(s: State<()>, open: Txn<()>, key: string, row: string)
    requires s.txns == [open] && open.stage == Open && open.work == IDLE && open.answers == []
    requires open.q.fn == WriteOnce(key, row)
    ensures Enabled(s, Act(0))
    ensures Next(s, Act(0)) == s.(txns := [open.(work := Working(map[key := Some(row)], {key}), answers := [None])])
  {
    var table := TableAt(s.db.data, SiteOf(open));
    var (work, answer) := Performed(table, open.work, NextAction(open.q.fn, open.answers));
    assert work == Working(map[key := Some(row)], {key}) && answer == None;
    assert [] + [answer] == [None];
  }

  lemma LateChecks(s: State<()>, acted: Txn<()>)
    requires s.txns == [acted] && acted.stage == Open && acted.answers == [None] && acted.gate == Served
    requires (exists key, row :: acted.q.fn == WriteOnce(key, row)) && acted.q.dry == None && s.routes == []
    ensures Enabled(s, Check(0)) && Next(s, Check(0)) == s.(txns := [acted.(stage := Checked(()))])
  {
    assert NextAction(acted.q.fn, acted.answers) == Finish(());
    assert !FanOut.ReadOnly([], acted.q.id);
  }

  lemma LateCommits(s: State<()>, acted: Txn<()>, key: string, row: string) returns (t: State<()>)
    requires s.txns == [acted.(stage := Checked(()))] && acted.place == Shared && FanOut.Canonical(acted.q.id)
    requires acted.work == Working(map[key := Some(row)], {key}) && s.db == Db(map[], map[])
    ensures Enabled(s, Commit(0)) && t == Next(s, Commit(0)) && t.routes == s.routes
    ensures TableAt(t.db.data, Site(Shared, acted.q.id)) == map[key := row]
  {
    t := Next(s, Commit(0));
    assert Apply(map[], acted.work.writes) == map[key := row];
  }

  lemma MarkedByEntry(id: string)
    requires FanOut.Canonical(id)
    ensures FanOut.ReadOnly([CutoverEntry(id)], id)
  {
    assert FanOut.RouteOf([CutoverEntry(id)], id) == Some(CutoverEntry(id));
  }

  lemma FiveSteps<T(!new)>(s: State<T>, a: Step<T>, s1: State<T>, b: Step<T>, s2: State<T>, c: Step<T>, s3: State<T>,
                           d: Step<T>, s4: State<T>, e: Step<T>, t: State<T>)
    requires Enabled(s, a) && Next(s, a) == s1 && Enabled(s1, b) && Next(s1, b) == s2
    requires Enabled(s2, c) && Next(s2, c) == s3 && Enabled(s3, d) && Next(s3, d) == s4
    requires Enabled(s4, e) && Next(s4, e) == t
    ensures Reaches(s, [a, b, c, d, e], t)
  {
    hide Enabled, Next;
    OneStep(s, a);
    OneStep(s1, b);
    OneStep(s2, c);
    OneStep(s3, d);
    OneStep(s4, e);
    ReachesOn(s, [a], s1, [b], s2);
    ReachesOn(s, [a] + [b], s2, [c], s3);
    ReachesOn(s, [a] + [b] + [c], s3, [d], s4);
    ReachesOn(s, [a] + [b] + [c] + [d], s4, [e], t);
    assert [a] + [b] + [c] + [d] + [e] == [a, b, c, d, e];
  }

  // ------------------------------------------------------------ One call on its own

  ghost predicate Quiet<T(!new)>(txns: seq<Txn<T>>) {
    forall i :: 0 <= i < |txns| ==> !IsActive(txns[i])
  }

  /** One call with nothing in between. */
  function Alone<T>(s: State<T>, q: Request<T>): State<T> {
    var begun, n := Next(s, Begin(q)), |s.txns|;
    var t := begun.txns[n];
    if t.stage != Open then begun
    else
      var a := Attempted(q.fn, TableAt(s.db.data, SiteOf(t)));
      var ran := t.(work := a.work, answers := a.answers);
      var checked := Put(begun, n, ran.(stage := Verdict(ran, s.routes)));
      if checked.txns[n].stage.Checked? then Committed(checked, n) else checked
  }

  /** The statements of the only active transaction, one after the other. */
  lemma {:induction false} ActsAlone<T(!new)>(s: State<T>, i: nat) returns (run: seq<Step<T>>)
    requires i < |s.txns| && s.txns[i].stage == Open
    requires forall j :: 0 <= j < |s.txns| && j != i ==> !IsActive(s.txns[j])
    ensures var t := s.txns[i];
      var a := Exec(t.q.fn, TableAt(s.db.data, SiteOf(t)), t.work, t.answers);
      && Reaches(s, run, Put(s, i, t.(work := a.work, answers := a.answers)))
      && !IsStatement(NextAction(t.q.fn, a.answers))
    decreases if |s.txns[i].answers| < s.txns[i].q.fn.limit then s.txns[i].q.fn.limit - |s.txns[i].answers| else 0
  {
    hide Performed;
    var t := s.txns[i];
    if IsStatement(NextAction(t.q.fn, t.answers)) {
      var next := Next(s, Act(i));
      var more := ActsAlone(next, i);
      run := [Act(i)] + more;
      OneStep(s, Act(i));
      var a := Exec(t.q.fn, TableAt(s.db.data, SiteOf(t)), t.work, t.answers);
      var end := t.(work := a.work, answers := a.answers);
      assert Put(next, i, end) == Put(s, i, end);
      ReachesOn(s, [Act(i)], next, more, Put(s, i, end));
    } else {
      run := [];
      assert Put(s, i, t) == s;
    }
  }

  /** A call on its own is one of the runs the theorems are about. */
  lemma AloneIsARun<T(!new)>(s: State<T>, q: Request<T>) returns (run: seq<Step<T>>)
    requires Quiet(s.txns)
    ensures Reaches(s, run, Alone(s, q))
  {
    hide Begun, Attempted, Verdict, Apply;
    var begun, n := Next(s, Begin(q)), |s.txns|;
    OneStep(s, Begin(q));
    run := [Begin(q)];
    if begun.txns[n].stage == Open {
      var acts := ActsAlone(begun, n);
      var t := begun.txns[n];
      var a := Exec(t.q.fn, TableAt(begun.db.data, SiteOf(t)), t.work, t.answers);
      BegunIdle(s, q);
      var ran := Put(begun, n, t.(work := a.work, answers := a.answers));
      ReachesOn(s, run, begun, acts, ran);
      var checked := Next(ran, Check(n));
      OneStep(ran, Check(n));
      ReachesOn(s, run + acts, ran, [Check(n)], checked);
      run := run + acts + [Check(n)];
      assert checked == Put(begun, n, ran.txns[n].(stage := Verdict(ran.txns[n], s.routes)));
      if checked.txns[n].stage.Checked? {
        OneStep(checked, Commit(n));
        ReachesOn(s, run, checked, [Commit(n)], Next(checked, Commit(n)));
        run := run + [Commit(n)];
      }
    }
  }

  lemma BegunIdle<T(!new)>(s: State<T>, q: Request<T>)
    ensures var t := Begun(s, q);
      var table := TableAt(s.db.data, SiteOf(t));
      t.q == q && t.work == IDLE && t.answers == []
      && Exec(t.q.fn, table, t.work, t.answers) == Attempted(q.fn, table)
  {
    hide Exec, IsUuid, PlaceOf, GateAt;
  }

  /** The tenant's data in the database that the registry says serves it. */
  ghost predicate IsHome(routes: seq<FanOut.Route>, id: string, site: Site) {
    && site.tenant == Lower(id)
    && (site.place == Shared ==> forall r :: !FanOut.ServedBy(routes, id, r))
    && (site.place.Own? ==>
        exists r :: FanOut.ServedBy(routes, id, r) && site.place == Own(r.host, r.dbName))
  }

  /**
   A call on its own runs its callback on its tenant's data in the database that
   serves it; what it returns is committed there, and nothing changes elsewhere
   or if it does not return.
   */
  lemma AloneActsAtHome<T(!new)>(s: State<T>, q: Request<T>, site: Site)
    requires FanOut.WellFormed(s.routes)
    ensures var after := Alone(s, q);
      var a := Attempted(q.fn, TableAt(s.db.data, site));
      var stage := after.txns[|s.txns|].stage;
      && |after.txns| == |s.txns| + 1 && stage.Done?
      && (IsHome(s.routes, q.id, site) && stage.reply.Returned? ==>
          && a.result == Some(stage.reply.value)
          && TableAt(after.db.data, site) == Apply(TableAt(s.db.data, site), a.work.writes))
      && (!IsHome(s.routes, q.id, site) || !stage.reply.Returned? ==>
          TableAt(after.db.data, site) == TableAt(s.db.data, site))
  {
    BeginsWhereServed(s, q);
    HomeOfBegun(s, q, site);
    BeginDecides(s, q);
    hide Begun, Apply, Attempted, IsHome, FanOut.WellFormed, FanOut.ReadOnly, IsDry;
    var t := Begun(s, q);
    if t.stage == Open {
      AloneFromAttempt(s, q);
      AttemptEnds(q.fn, TableAt(s.db.data, SiteOf(t)));
    }
  }

  lemma HomeOfBegun<T>(s: State<T>, q: Request<T>, site: Site)
    requires FanOut.WellFormed(s.routes)
    ensures IsHome(s.routes, q.id, site) <==> site == SiteOf(Begun(s, q))
  {
    hide FanOut.ServedBy, FanOut.WellFormed, Lower, IsUuid, GateAt;
    BeginsWhereServed(s, q);
    FanOut.DedicatedExactly(s.routes, q.id);
  }

  // ------------------------------------------------------------ Control transactions

  /** `control`: the shared database, no gate, no mark and no idempotency key. */
  function ControlRun<T>(q: Request<T>, table: Table): (Reply<T>, Table) {
    var a := Attempted(q.fn, table);
    if !IsUuid(q.id) then (BadTenantId, table)
    else if a.result == None then (Failed, table)
    else if a.work.Wrote() && IsDry(q) then (DryRun(a.result.value), table)
    else (Returned(a.result.value), Apply(table, a.work.writes))
  }

  /** Which reply a control transaction gives; it changes the rows as its callback wrote them iff it returns. */
  lemma ControlDecides<T(!new)>(q: Request<T>, table: Table)
    ensures var a, (reply, after) := Attempted(q.fn, table), ControlRun(q, table);
      var dry := q.dry.Some? && Lower(q.dry.value) == Lower(q.id);
      && reply == (if !IsUuid(q.id) then BadTenantId
          else if a.result == None then Failed
          else if a.work.locks != {} && dry then DryRun(a.result.value)
          else Returned(a.result.value))
      && (!reply.Returned? ==> after == table)
      && (reply.Returned? ==> forall key ::
          Row(after, key) == if key in a.work.writes then a.work.writes[key] else Row(table, key))
  {
    hide Exec, IsUuid, Lower;
    forall key ensures Row(Apply(table, Attempted(q.fn, table).work.writes), key)
      == See(table, Attempted(q.fn, table).work.writes, key)
    {
      ApplyRow(table, Attempted(q.fn, table).work.writes, key);
    }
    hide Apply;
  }

  lemma {:induction false} WritesAreLocked<T>(
      fn: Callback<T>, table: Table, work: Working, answers: seq<Option<string>>)
    requires work.writes.Keys <= work.locks
    ensures var a := Exec(fn, table, work, answers); a.work.writes.Keys <= a.work.locks
    decreases if |answers| < fn.limit then fn.limit - |answers| else 0
  {
    var a := NextAction(fn, answers);
    if IsStatement(a) {
      var (more, answer) := Performed(table, work, a);
      WritesAreLocked(fn, table, more, answers + [answer]);
    }
  }

  /** A dry run gives what the real call gives and changes nothing, carried out as such exactly if the call wrote. */
  lemma ControlDryRun<T>(q: Request<T>, table: Table)
    requires IsDry(q)
    ensures var dry, full := ControlRun(q, table), ControlRun(q.(dry := None), table);
      var wrote := Attempted(q.fn, table).work.Wrote();
      && dry.1 == table
      && dry.0 == (if full.0.Returned? && wrote then DryRun(full.0.value) else full.0)
      && (!wrote ==> full.1 == table)
  {
    hide Exec, Apply;
    WritesAreLocked(q.fn, table, IDLE, []);
    if Attempted(q.fn, table).work.writes == map[] { ApplyNothing(table); }
  }

  // ------------------------------------------------------------ The service

  class DbService<T(!new)> {
    var data: map<Site, Table>
    var keys: map<KeyRow, bool>
    var controlData: map<string, Table>
    var gates: map<Site, Gate>
    var routes: seq<FanOut.Route>
    var announced: nat
    ghost var txns: seq<Txn<T>>
    ghost var commits: seq<nat>

    ghost function View(): State<T>
      reads this
    {
      State(Db(data, keys), gates, routes, announced, txns, commits)
    }

    constructor (data: map<Site, Table>, keys: map<KeyRow, bool>, gates: map<Site, Gate>, routes: seq<FanOut.Route>)
      ensures View() == State(Db(data, keys), gates, routes, 0, [], []) && Fresh(View()) && controlData == map[]
    {
      this.data, this.keys, this.gates, this.routes := data, keys, gates, routes;
      controlData, announced, txns, commits := map[], 0, [], [];
    }

    /** `tenant` and `runTenant`, with nothing in between. */
    method TenantTransaction(q: Request<T>) returns (r: Reply<T>)
      modifies this`data, this`keys, this`announced, this`txns, this`commits
      ensures View() == Alone(old(View()), q)
      ensures |txns| == |old(txns)| + 1 && txns[|old(txns)|].stage == Done(r)
    {
      hide Attempted, FanOut.ReadOnly, IsUuid, PlaceOf, GateAt, TableAt, IsDry, Apply;
      var site := Site(PlaceOf(routes, q.id), Lower(q.id));
      ghost var t := Begun(View(), q);
      if !IsUuid(q.id) {
        txns := txns + [t];
        return BadTenantId;
      }
      var gate := GateAt(gates, site);
      if gate == Moved {
        announced := announced + 1;
        txns := txns + [t];
        return Migrating(1);
      }
      var attempt := RunCallback(q.fn, TableAt(data, site));
      var work := attempt.work;
      AttemptEnds(q.fn, TableAt(data, site));
      AloneFromAttempt(View(), q);
      hide Alone, Begun;
      t := t.(work := work, answers := attempt.answers);
      if attempt.result == None {
        txns := txns + [t.(stage := Done(Failed))];
        return Failed;
      }
      var readOnly := gate == ReadOnly || FanOut.ReadOnly(routes, q.id);
      if (readOnly || IsDry(q)) && work.Wrote() {
        r := if readOnly then Migrating(5) else DryRun(attempt.result.value);
        txns := txns + [t.(stage := Done(r))];
        return;
      }
      if q.idem.Some? && Lower(q.idem.value.tenantId) == Lower(q.id) {
        var row := KeyRow(site, q.idem.value.key);
        if row in keys && !keys[row] && work.Wrote() { keys := keys[row := true]; }
      }
      data := data[site := Apply(TableAt(data, site), work.writes)];
      commits := commits + [|txns|];
      r := Returned(attempt.result.value);
      txns := txns + [t.(stage := Done(r))];
    }

    method ControlTransaction(q: Request<T>) returns (r: Reply<T>)
      modifies this`controlData
      ensures var tenant := Lower(q.id);
        var before := if tenant in old(controlData) then old(controlData)[tenant] else map[];
        && r == ControlRun(q, before).0
        && controlData == if r.Returned? then old(controlData)[tenant := ControlRun(q, before).1] else old(controlData)
    {
      hide Attempted, IsUuid, Apply;
      if !IsUuid(q.id) { return BadTenantId; }
      var tenant := Lower(q.id);
      var before := if tenant in controlData then controlData[tenant] else map[];
      var attempt := RunCallback(q.fn, before);
      if attempt.result == None { return Failed; }
      if IsDry(q) && attempt.work.Wrote() { return DryRun(attempt.result.value); }
      controlData := controlData[tenant := Apply(before, attempt.work.writes)];
      return Returned(attempt.result.value);
    }
  }

  /** A call on its own that the gate let in, in terms of what its callback did. */
  lemma AloneFromAttempt<T(!new)>(s: State<T>, q: Request<T>)
    requires Begun(s, q).stage == Open
    ensures var t := Begun(s, q);
      var a := Attempted(q.fn, TableAt(s.db.data, SiteOf(t)));
      var ran := t.(work := a.work, answers := a.answers);
      var stage := Verdict(ran, s.routes);
      Alone(s, q) == if stage.Checked? then
        State(Db(s.db.data[SiteOf(t) := Apply(TableAt(s.db.data, SiteOf(t)), a.work.writes)],
                 MarkApplied(s.db.keys, KeyOf(t), a.work.Wrote())),
              s.gates, s.routes, s.announced, s.txns + [ran.(stage := Done(Returned(stage.result)))],
              s.commits + [|s.txns|])
      else s.(txns := s.txns + [ran.(stage := stage)])
  {
    hide Begun, Attempted, Verdict, Apply, MarkApplied;
  }

  /** What a callback ended with is its next action. */
  lemma AttemptEnds<T>(fn: Callback<T>, table: Table)
    ensures var a := Attempted(fn, table);
      var last := NextAction(fn, a.answers);
      !IsStatement(last) && a.result == if last.Finish? then Some(last.result) else None
  {
    ExecEnds(fn, table, IDLE, []);
  }

  lemma {:induction false} ExecEnds<T>(fn: Callback<T>, table: Table, work: Working, answers: seq<Option<string>>)
    ensures var a := Exec(fn, table, work, answers);
      var last := NextAction(fn, a.answers);
      !IsStatement(last) && a.result == if last.Finish? then Some(last.result) else None
    decreases if |answers| < fn.limit then fn.limit - |answers| else 0
  {
    var a := NextAction(fn, answers);
    if IsStatement(a) {
      var (more, answer) := Performed(table, work, a);
      ExecEnds(fn, table, more, answers + [answer]);
    }
  }
}
