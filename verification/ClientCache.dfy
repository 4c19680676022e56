/**
 The bounded client cache of src/prisma/tenant-db-router.ts.  Clients are
 objects that outlive their place in the map, so they are kept in a pool and
 the map holds their positions in it, in insertion order.
 */
module ClientCache {
  import opened Wrappers

  /** How far the connection of a client has come: its `ready` promise. */
  datatype Setup = Pending | Ready | Failed

  datatype Client = Client(key: string, lastUsed: int, inflight: nat, setup: Setup)

  /** Every client made so far, and the ones in the map. */
  datatype Cache = Cache(pool: seq<Client>, open: seq<nat>)

  ghost predicate Distinct<T>(s: seq<T>) {
    forall i, j :: 0 <= i < j < |s| ==> s[i] != s[j]
  }

  ghost predicate WellFormed(c: Cache) {
    && (forall i :: 0 <= i < |c.open| ==> c.open[i] < |c.pool|)
    && Distinct(c.open)
  }

  // ------------------------------------------------------------ Eviction

  function Idle(pool: seq<Client>, open: seq<nat>): seq<nat> {
    if open == [] then []
    else (if open[0] < |pool| && pool[open[0]].inflight == 0 then [open[0]] else []) + Idle(pool, open[1..])
  }

  function LastUsed(pool: seq<Client>, id: nat): int {
    if id < |pool| then pool[id].lastUsed else 0
  }

  /** A stable sort by last use: earlier entries stay before later ones used at the same time. */
  function Insert(pool: seq<Client>, id: nat, sorted: seq<nat>): seq<nat> {
    if sorted == [] || LastUsed(pool, id) <= LastUsed(pool, sorted[0]) then [id] + sorted
    else [sorted[0]] + Insert(pool, id, sorted[1..])
  }

  function Sort(pool: seq<Client>, ids: seq<nat>): seq<nat> {
    if ids == [] then [] else Insert(pool, ids[0], Sort(pool, ids[1..]))
  }

  function Without(open: seq<nat>, out: seq<nat>): seq<nat> {
    if open == [] then [] else (if open[0] in out then [] else [open[0]]) + Without(open[1..], out)
  }

  function Min(a: int, b: int): int {
    if a < b then a else b
  }

  /** How many clients an eviction removes: the excess, as far as there are idle ones. */
  function Removals(c: Cache, max: nat): nat {
    if |c.open| <= max then 0 else Min(|Idle(c.pool, c.open)|, |c.open| - max)
  }

  function Victims(c: Cache, max: nat): seq<nat> {
    var sorted := Sort(c.pool, Idle(c.pool, c.open));
    if Removals(c, max) <= |sorted| then sorted[..Removals(c, max)] else sorted
  }

  function Evict(c: Cache, max: nat): Cache {
    c.(open := Without(c.open, Victims(c, max)))
  }

  // ------------------------------------------------------------ Its lemmas

  lemma {:induction false} IdleMembers(pool: seq<Client>, open: seq<nat>)
    ensures forall x :: x in Idle(pool, open) <==> x in open && x < |pool| && pool[x].inflight == 0
    ensures Distinct(open) ==> Distinct(Idle(pool, open))
    ensures |Idle(pool, open)| <= |open|
  {
    if open != [] {
      IdleMembers(pool, open[1..]);
      assert open == [open[0]] + open[1..];
    }
  }

  ghost predicate Sorted(pool: seq<Client>, ids: seq<nat>) {
    forall i, j :: 0 <= i < j < |ids| ==> LastUsed(pool, ids[i]) <= LastUsed(pool, ids[j])
  }

  lemma {:induction false} InsertAdds(pool: seq<Client>, id: nat, ids: seq<nat>)
    ensures multiset(Insert(pool, id, ids)) == multiset([id]) + multiset(ids)
  {
    hide LastUsed;
    if ids != [] && LastUsed(pool, id) > LastUsed(pool, ids[0]) {
      InsertAdds(pool, id, ids[1..]);
      assert ids == [ids[0]] + ids[1..];
    }
  }

  lemma {:induction false} InsertSorts(pool: seq<Client>, id: nat, ids: seq<nat>)
    requires Sorted(pool, ids)
    ensures Sorted(pool, Insert(pool, id, ids))
  {
    hide LastUsed;
    if ids != [] && LastUsed(pool, id) > LastUsed(pool, ids[0]) {
      InsertSorts(pool, id, ids[1..]);
      InsertAdds(pool, id, ids[1..]);
      var rest := Insert(pool, id, ids[1..]);
      forall i | 0 <= i < |rest| ensures LastUsed(pool, ids[0]) <= LastUsed(pool, rest[i]) {
        assert rest[i] in multiset(rest);
        assert rest[i] in multiset([id]) + multiset(ids[1..]);
        assert rest[i] == id || rest[i] in ids[1..];
      }
    }
  }

  lemma {:induction false} SortSorts(pool: seq<Client>, ids: seq<nat>)
    ensures Sorted(pool, Sort(pool, ids)) && multiset(Sort(pool, ids)) == multiset(ids)
    ensures |Sort(pool, ids)| == |ids| && forall x :: x in Sort(pool, ids) <==> x in ids
    ensures Distinct(ids) ==> Distinct(Sort(pool, ids))
  {
    hide Sorted, Distinct;
    if ids == [] {
      NothingToSort(pool);
    } else {
      SortSorts(pool, ids[1..]);
      InsertSorts(pool, ids[0], Sort(pool, ids[1..]));
      InsertAdds(pool, ids[0], Sort(pool, ids[1..]));
      assert ids == [ids[0]] + ids[1..];
      SameElements(Sort(pool, ids), ids);
    }
  }

  lemma NothingToSort(pool: seq<Client>)
    ensures Sorted(pool, []) && Distinct<nat>([])
  {
  }

  lemma SameElements(a: seq<nat>, b: seq<nat>)
    requires multiset(a) == multiset(b)
    ensures |a| == |b| && (forall x :: x in a <==> x in b) && (Distinct(b) ==> Distinct(a))
  {
    assert |multiset(a)| == |multiset(b)|;
    forall x ensures x in a <==> x in b {
      assert x in a <==> x in multiset(a);
      assert x in b <==> x in multiset(b);
    }
    if Distinct(b) && !Distinct(a) {
      var i, j :| 0 <= i < j < |a| && a[i] == a[j];
      TwiceInMultiset(a, i, j);
      OnceInMultiset(b, a[i]);
      assert false;
    }
  }

  lemma TwiceInMultiset(s: seq<nat>, i: nat, j: nat)
    requires i < j < |s| && s[i] == s[j]
    ensures multiset(s)[s[i]] >= 2
  {
    assert s == s[..i] + [s[i]] + s[i + 1..j] + [s[j]] + s[j + 1..];
  }

  lemma {:induction false} OnceInMultiset(s: seq<nat>, x: nat)
    requires Distinct(s)
    ensures multiset(s)[x] <= 1
  {
    if s != [] {
      assert s == [s[0]] + s[1..];
      OnceInMultiset(s[1..], x);
      if x == s[0] {
        assert x !in s[1..];
      }
    }
  }

  /** Taking out clients that are in the map leaves the others, in order. */
  lemma WithoutKeeps(open: seq<nat>, out: seq<nat>)
    requires Distinct(open)
    ensures forall x :: x in Without(open, out) <==> x in open && x !in out
    ensures Distinct(Without(open, out))
    ensures Distinct(out) && (forall x :: x in out ==> x in open) ==> |Without(open, out)| == |open| - |out|
  {
    WithoutMembers(open, out);
    if Distinct(out) && forall x :: x in out ==> x in open {
      WithoutCounts(open, out);
    }
  }

  lemma {:induction false} WithoutMembers(open: seq<nat>, out: seq<nat>)
    requires Distinct(open)
    ensures forall x :: x in Without(open, out) <==> x in open && x !in out
    ensures Distinct(Without(open, out))
  {
    if open != [] {
      assert open == [open[0]] + open[1..];
      WithoutMembers(open[1..], out);
    }
  }

  lemma {:induction false} WithoutCounts(open: seq<nat>, out: seq<nat>)
    requires Distinct(open) && Distinct(out) && forall x :: x in out ==> x in open
    ensures |Without(open, out)| == |open| - |out|
  {
    if open == [] {
      HasMember(out);
    } else {
      var rest := open[1..];
      assert open == [open[0]] + rest;
      if open[0] in out {
        var k :| 0 <= k < |out| && out[k] == open[0];
        var fewer := out[..k] + out[k + 1..];
        LeavingOut(out, k, fewer);
        WithoutCounts(rest, fewer);
        WithoutSame(rest, out, fewer, open[0]);
      } else {
        forall x | x in out ensures x in rest {
          assert x in open && x != open[0];
        }
        WithoutCounts(rest, out);
      }
    }
  }

  lemma HasMember(s: seq<nat>)
    ensures s != [] ==> exists x :: x in s
  {
    if s != [] { assert s[0] in s; }
  }

  lemma LeavingOut(out: seq<nat>, k: nat, fewer: seq<nat>)
    requires Distinct(out) && k < |out| && fewer == out[..k] + out[k + 1..]
    ensures Distinct(fewer) && forall x :: x in fewer <==> x in out && x != out[k]
  {
    forall i | 0 <= i < |fewer| ensures fewer[i] == out[if i < k then i else i + 1] {
    }
    forall x ensures x in fewer <==> x in out && x != out[k] {
      if x in out && x != out[k] {
        var l :| 0 <= l < |out| && out[l] == x;
        assert fewer[if l < k then l else l - 1] == x;
      }
      if x in fewer {
        var l :| 0 <= l < |fewer| && fewer[l] == x;
      }
    }
  }

  lemma {:induction false} WithoutSame(open: seq<nat>, a: seq<nat>, b: seq<nat>, x: nat)
    requires x !in open && forall y :: y != x ==> (y in a <==> y in b)
    ensures Without(open, a) == Without(open, b)
    decreases |open|
  {
    if open != [] {
      assert open == [open[0]] + open[1..];
      WithoutSame(open[1..], a, b, x);
    }
  }

  /** An eviction removes exactly as many clients as it must or can, all idle, the least recently used first. */
  lemma EvictIsLru(c: Cache, max: nat)
    requires WellFormed(c)
    ensures var d := Evict(c, max);
      && WellFormed(d) && d.pool == c.pool && |d.open| == |c.open| - Removals(c, max)
      && (|c.open| <= max ==> d == c) && (max < |c.open| ==> max <= |d.open|)
      && (forall x :: x in d.open ==> x in c.open)
      && (forall x :: x in c.open && x !in d.open ==> c.pool[x].inflight == 0)
      && (|d.open| <= max || forall x :: x in d.open ==> 0 < c.pool[x].inflight)
      && (forall x, y :: x in c.open && x !in d.open && y in d.open && c.pool[y].inflight == 0 ==>
            c.pool[x].lastUsed <= c.pool[y].lastUsed)
  {
    hide Idle, Sort, Sorted, Without, Distinct;
    var idle := Idle(c.pool, c.open);
    var sorted, victims := Sort(c.pool, idle), Victims(c, max);
    IdleMembers(c.pool, c.open);
    SortSorts(c.pool, idle);
    PrefixDistinct(sorted, Removals(c, max));
    WithoutKeeps(c.open, victims);
    forall x, y | x in c.open && x in victims && y in c.open && y !in victims && c.pool[y].inflight == 0
      ensures c.pool[x].lastUsed <= c.pool[y].lastUsed
    {
      assert y in sorted;
      EarlierInSort(c.pool, sorted, Removals(c, max), x, y);
    }
    if |c.open| - Removals(c, max) > max {
      assert victims == sorted;
    }
    if |c.open| <= max {
      WithoutNone(c.open);
      assert victims == [];
    }
    var d := Evict(c, max);
    forall i | 0 <= i < |d.open| ensures d.open[i] < |c.pool| {
      assert d.open[i] in d.open;
    }
  }

  lemma PrefixDistinct(s: seq<nat>, k: nat)
    requires Distinct(s) && k <= |s|
    ensures Distinct(s[..k])
  {
  }

  lemma EarlierInSort(pool: seq<Client>, sorted: seq<nat>, k: nat, x: nat, y: nat)
    requires Sorted(pool, sorted) && k <= |sorted| && x in sorted[..k] && y in sorted && y !in sorted[..k]
    ensures LastUsed(pool, x) <= LastUsed(pool, y)
  {
    hide LastUsed;
    var i :| 0 <= i < k && sorted[..k][i] == x;
    var j :| 0 <= j < |sorted| && sorted[j] == y;
    assert forall l :: 0 <= l < k ==> sorted[l] in sorted[..k];
    assert j >= k;
  }

  // ------------------------------------------------------------ A new client

  /** `clientsFor` on a missing key, before it evicts. */
  function Opened(c: Cache, key: string, now: int): Cache {
    Cache(c.pool + [Client(key, now, 0, Pending)], c.open + [|c.pool|])
  }

  /**
   A client that has just been put in the map is idle, so its own eviction may
   close it: it stays exactly when the idle clients before it make room enough.
   */
  lemma OpenedClientSurvives(c: Cache, key: string, now: int, max: nat)
    requires WellFormed(c)
    requires forall x :: x in c.open ==> c.pool[x].lastUsed <= now
    ensures WellFormed(Opened(c, key, now))
    ensures |c.pool| in Evict(Opened(c, key, now), max).open <==> |c.open| + 1 - max <= |Idle(c.pool, c.open)|
  {
    hide Sort, Idle, Without;
    var d, id := Opened(c, key, now), |c.pool|;
    var idle := Idle(c.pool, c.open);
    IdleOpened(c.pool, c.open, Client(key, now, 0, Pending));
    IdleMembers(c.pool, c.open);
    SortLast(d.pool, idle, id);
    SortSorts(d.pool, idle);
    var sorted := Sort(d.pool, idle);
    assert Sort(d.pool, Idle(d.pool, d.open)) == sorted + [id];
    assert id !in sorted;
    WithoutKeeps(d.open, Victims(d, max));
    assert id in Victims(d, max) <==> Removals(d, max) == |idle| + 1 by {
      if Removals(d, max) == |idle| + 1 { assert (sorted + [id])[|idle|] == id; }
      assert Removals(d, max) <= |idle| ==> Victims(d, max) == sorted[..Removals(d, max)];
    }
    assert d.open[|c.open|] == id;
  }

  lemma {:induction false} IdleOpened(pool: seq<Client>, open: seq<nat>, added: Client)
    requires added.inflight == 0 && forall i :: 0 <= i < |open| ==> open[i] < |pool|
    ensures Idle(pool + [added], open + [|pool|]) == Idle(pool, open) + [|pool|]
  {
    if open == [] {
      assert open + [|pool|] == [|pool|];
      assert Idle(pool + [added], [|pool|]) == [|pool|] + Idle(pool + [added], []);
    } else {
      assert (open + [|pool|])[1..] == open[1..] + [|pool|] && (open + [|pool|])[0] == open[0];
      IdleOpened(pool, open[1..], added);
      var rest := Idle(pool, open[1..]);
      assert (pool + [added])[open[0]] == pool[open[0]];
      assert [open[0]] + (rest + [|pool|]) == [open[0]] + rest + [|pool|];
      assert [] + (rest + [|pool|]) == [] + rest + [|pool|];
    }
  }

  lemma {:induction false} SortLast(pool: seq<Client>, ids: seq<nat>, last: nat)
    requires forall x :: x in ids ==> LastUsed(pool, x) <= LastUsed(pool, last)
    ensures Sort(pool, ids + [last]) == Sort(pool, ids) + [last]
  {
    hide LastUsed;
    if ids == [] {
      assert ids + [last] == [last];
      assert Sort(pool, [last]) == Insert(pool, last, Sort(pool, []));
    } else {
      assert (ids + [last])[1..] == ids[1..] + [last];
      SortLast(pool, ids[1..], last);
      InsertBefore(pool, ids[0], Sort(pool, ids[1..]), last);
    }
  }

  lemma {:induction false} InsertBefore(pool: seq<Client>, id: nat, sorted: seq<nat>, last: nat)
    requires LastUsed(pool, id) <= LastUsed(pool, last)
    ensures Insert(pool, id, sorted + [last]) == Insert(pool, id, sorted) + [last]
  {
    hide LastUsed;
    if sorted == [] {
      assert sorted + [last] == [last];
    } else if LastUsed(pool, id) > LastUsed(pool, sorted[0]) {
      assert (sorted + [last])[1..] == sorted[1..] + [last];
      InsertBefore(pool, id, sorted[1..], last);
    }
  }

  // ------------------------------------------------------------ Whole runs

  /** The cache together with the `use` bodies that are running, by client. */
  datatype State = State(cache: Cache, running: multiset<nat>)

  /**
   The two halves of `clientsFor` around the wait for the connection, the end of
   that wait, and the two halves of `use` around its body.
   */
  datatype Step =
    | Acquire(key: string, now: int)
    | Connect(id: nat, ok: bool)
    | HandOver(id: nat, now: int)
    | Begin(id: nat)
    | End(id: nat, now: int)

  const INITIAL := State(Cache([], []), multiset{})

  function Find(c: Cache, key: string, i: nat): (r: Option<nat>)
    requires i <= |c.open|
    ensures r.Some? ==> r.value in c.open && r.value < |c.pool| && c.pool[r.value].key == key
    ensures r == None ==> forall j :: i <= j < |c.open| && c.open[j] < |c.pool| ==> c.pool[c.open[j]].key != key
    decreases |c.open| - i
  {
    if i == |c.open| then None
    else if c.open[i] < |c.pool| && c.pool[c.open[i]].key == key then Some(c.open[i])
    else Find(c, key, i + 1)
  }

  predicate Enabled(s: State, step: Step) {
    match step
    case Acquire(_, _) => true
    case Connect(id, _) => id < |s.cache.pool| && s.cache.pool[id].setup == Pending
    case HandOver(id, _) => id < |s.cache.pool| && s.cache.pool[id].setup == Ready
    case Begin(id) => id < |s.cache.pool| && s.cache.pool[id].setup == Ready
    case End(id, _) => id < |s.cache.pool| && 0 < s.cache.pool[id].inflight && 0 < s.running[id]
  }

  function Acquired(c: Cache, key: string, now: int, max: nat): Cache {
    if Find(c, key, 0).Some? then c else Evict(Opened(c, key, now), max)
  }

  /** A client that cannot be reached takes its key out of the map, whichever client the map holds under it. */
  function Dropped(c: Cache, key: string): Cache {
    match Find(c, key, 0)
    case None => c
    case Some(id) => c.(open := Without(c.open, [id]))
  }

  function Changed(c: Cache, id: nat, client: Client): Cache
    requires id < |c.pool|
  {
    c.(pool := c.pool[id := client])
  }

  function Next(s: State, step: Step, max: nat): State
    requires Enabled(s, step)
  {
    match step
    case Acquire(key, now) => s.(cache := Acquired(s.cache, key, now, max))
    case Connect(id, ok) =>
      var c := s.cache.pool[id];
      if ok then s.(cache := Changed(s.cache, id, c.(setup := Ready)))
      else s.(cache := Dropped(Changed(s.cache, id, c.(setup := Failed)), c.key))
    case HandOver(id, now) => s.(cache := Changed(s.cache, id, s.cache.pool[id].(lastUsed := now)))
    case Begin(id) =>
      var c := s.cache.pool[id];
      State(Changed(s.cache, id, c.(inflight := c.inflight + 1)), s.running + multiset{id})
    case End(id, now) =>
      var c := s.cache.pool[id];
      State(Changed(s.cache, id, c.(inflight := c.inflight - 1, lastUsed := now)), s.running - multiset{id})
  }

  ghost predicate Reaches(s: State, run: seq<Step>, t: State, max: nat)
    decreases |run|
  {
    if run == [] then s == t else Enabled(s, run[0]) && Reaches(Next(s, run[0], max), run[1..], t, max)
  }

  ghost predicate DistinctKeys(pool: seq<Client>, open: seq<nat>)
    requires forall i :: 0 <= i < |open| ==> open[i] < |pool|
  {
    forall i, j :: 0 <= i < j < |open| ==> pool[open[i]].key != pool[open[j]].key
  }

  /**
   `inflight` counts the bodies running on a client, all of them on connected
   ones; the map holds one client per key, and none that failed.
   */
  ghost predicate Invariant(s: State) {
    && WellFormed(s.cache)
    && (forall id :: 0 <= id < |s.cache.pool| ==> s.cache.pool[id].inflight == s.running[id])
    && (forall id :: 0 <= id < |s.cache.pool| && 0 < s.running[id] ==> s.cache.pool[id].setup == Ready)
    && (forall id :: id in s.running ==> id < |s.cache.pool|)
    && (forall i :: 0 <= i < |s.cache.open| ==> s.cache.pool[s.cache.open[i]].setup != Failed)
    && DistinctKeys(s.cache.pool, s.cache.open)
  }

  /** A client that left the map fails to connect, while another under its key is in the map. */
  predicate StaleFailure(s: State, step: Step, id: nat) {
    && step.Connect? && !step.ok && step.id < |s.cache.pool| && step.id != id
    && id < |s.cache.pool| && s.cache.pool[step.id].key == s.cache.pool[id].key
  }

  /** A step takes a client in use out of the map iff an older client of its key fails to connect. */
  lemma StepKeepsInvariant(s: State, step: Step, max: nat)
    requires Invariant(s) && Enabled(s, step)
    ensures Invariant(Next(s, step, max))
    ensures forall id :: id in s.cache.open && 0 < s.running[id] ==>
      (id in Next(s, step, max).cache.open <==> !StaleFailure(s, step, id))
  {
    hide Evict, Invariant, Next, StaleFailure;
    match step {
      case Acquire(key, now) => AcquireKeepsInvariant(s, key, now, max);
      case Connect(id, ok) => if ok { ClientKeepsInvariant(s, step, max); } else { FailureInUse(s, id, max); }
      case _ => ClientKeepsInvariant(s, step, max);
    }
  }

  lemma AcquireKeepsInvariant(s: State, key: string, now: int, max: nat)
    requires Invariant(s)
    ensures Invariant(Next(s, Acquire(key, now), max))
    ensures forall id :: id in s.cache.open && 0 < s.running[id] ==>
      id in Next(s, Acquire(key, now), max).cache.open && !StaleFailure(s, Acquire(key, now), id)
  {
    hide Evict, Invariant;
    if Find(s.cache, key, 0) == None { OpenKeepsInvariant(s, key, now, max); }
  }

  /** Steps that change one client only. */
  lemma ClientKeepsInvariant(s: State, step: Step, max: nat)
    requires Invariant(s) && Enabled(s, step) && !step.Acquire? && (step.Connect? ==> step.ok)
    ensures Invariant(Next(s, step, max)) && Next(s, step, max).cache.open == s.cache.open
    ensures forall id :: !StaleFailure(s, step, id)
  {
    hide Invariant, Changed;
    match step {
      case Connect(id, ok) =>
        ChangedKeeps(s, id, s.cache.pool[id].(setup := Ready), s.running);
      case HandOver(id, now) =>
        ChangedKeeps(s, id, s.cache.pool[id].(lastUsed := now), s.running);
      case Begin(id) =>
        var c := s.cache.pool[id];
        ChangedKeeps(s, id, c.(inflight := c.inflight + 1), s.running + multiset{id});
      case End(id, now) =>
        var c := s.cache.pool[id];
        ChangedKeeps(s, id, c.(inflight := c.inflight - 1, lastUsed := now), s.running - multiset{id});
    }
  }

  /** A client may change, but not its key, as long as its count agrees and it runs bodies only when connected. */
  lemma ChangedKeeps(s: State, id: nat, client: Client, running: multiset<nat>)
    requires Invariant(s) && id < |s.cache.pool| && client.key == s.cache.pool[id].key
    requires client.setup == s.cache.pool[id].setup || client.setup == Ready
    requires forall x :: x != id ==> running[x] == s.running[x]
    requires s.cache.pool[id].inflight == s.running[id] ==> client.inflight == running[id]
    requires 0 < running[id] ==> client.setup == Ready || 0 < s.running[id]
    ensures Invariant(State(Changed(s.cache, id, client), running))
    ensures Changed(s.cache, id, client).open == s.cache.open
  {
    hide Distinct, DistinctKeys;
    var t := State(Changed(s.cache, id, client), running);
    forall x | x in running ensures x < |t.cache.pool| {
      if x != id { assert x in s.running; }
    }
    SameClients(s, t);
  }

  lemma FailureInUse(s: State, id: nat, max: nat)
    requires Invariant(s) && Enabled(s, Connect(id, false))
    ensures Invariant(Next(s, Connect(id, false), max))
    ensures forall x :: x in s.cache.open && 0 < s.running[x] ==>
      (x in Next(s, Connect(id, false), max).cache.open <==> !StaleFailure(s, Connect(id, false), x))
  {
    hide Distinct, DistinctKeys, Dropped;
    FailureKeepsInvariant(s, id);
    assert forall x :: x in s.cache.open ==> x < |s.cache.pool|;
  }

  /** As long as the counts agree, keys and map may stay as they are. */
  lemma SameClients(s: State, t: State)
    requires Invariant(s) && t.cache.open == s.cache.open && |t.cache.pool| == |s.cache.pool|
    requires forall i :: 0 <= i < |s.cache.pool| ==>
      && t.cache.pool[i].key == s.cache.pool[i].key
      && (t.cache.pool[i].setup == s.cache.pool[i].setup || t.cache.pool[i].setup == Ready)
    requires forall i :: 0 <= i < |s.cache.pool| ==> t.cache.pool[i].inflight == t.running[i]
    requires forall i :: 0 <= i < |s.cache.pool| && 0 < t.running[i] ==> t.cache.pool[i].setup == Ready
    requires forall id :: id in t.running ==> id < |t.cache.pool|
    ensures Invariant(t)
  {
    hide Distinct;
  }

  /** After a failed connection the map holds the other clients, in order, and none under the failed key. */
  lemma FailureKeepsInvariant(s: State, id: nat)
    requires Invariant(s) && Enabled(s, Connect(id, false))
    ensures var t := Next(s, Connect(id, false), 0);
      && Invariant(t)
      && forall x :: x in t.cache.open <==> x in s.cache.open && s.cache.pool[x].key != s.cache.pool[id].key
  {
    hide Distinct, DistinctKeys, Dropped;
    var c := Changed(s.cache, id, s.cache.pool[id].(setup := Failed));
    var key := s.cache.pool[id].key;
    SameKeys(s.cache.pool, c.pool, s.cache.open);
    DropsKey(c, key);
    var t := Dropped(c, key);
    assert forall i :: 0 <= i < |t.open| ==> t.open[i] in t.open && t.open[i] in s.cache.open;
    forall i | 0 <= i < |t.open| ensures t.pool[t.open[i]].setup != Failed {
      assert t.open[i] != id;
      var k :| 0 <= k < |s.cache.open| && s.cache.open[k] == t.open[i];
    }
  }

  lemma SameKeys(a: seq<Client>, b: seq<Client>, open: seq<nat>)
    requires |a| == |b| && forall i :: 0 <= i < |a| ==> a[i].key == b[i].key
    requires (forall i :: 0 <= i < |open| ==> open[i] < |a|) && DistinctKeys(a, open)
    ensures DistinctKeys(b, open)
  {
  }

  lemma DropsKey(c: Cache, key: string)
    requires WellFormed(c) && DistinctKeys(c.pool, c.open)
    ensures var d := Dropped(c, key);
      && WellFormed(d) && d.pool == c.pool && DistinctKeys(d.pool, d.open)
      && forall x :: x in d.open <==> x in c.open && c.pool[x].key != key
  {
    hide Distinct, DistinctKeys, Without;
    var d := Dropped(c, key);
    match Find(c, key, 0) {
      case None =>
        assert forall i :: 0 <= i < |c.open| ==> c.pool[c.open[i]].key != key;
      case Some(x) =>
        WithoutMembers(c.open, [x]);
        KeyIsOnce(c, x);
        FewerKeys(c.pool, c.open, d.open);
    }
  }

  lemma KeyIsOnce(c: Cache, x: nat)
    requires (forall i :: 0 <= i < |c.open| ==> c.open[i] < |c.pool|) && DistinctKeys(c.pool, c.open) && x in c.open
    ensures forall y :: y in c.open && c.pool[y].key == c.pool[x].key ==> y == x
  {
    forall y | y in c.open && c.pool[y].key == c.pool[x].key ensures y == x {
      var i :| 0 <= i < |c.open| && c.open[i] == x;
      var j :| 0 <= j < |c.open| && c.open[j] == y;
      assert i == j;
    }
  }

  lemma OpenKeepsInvariant(s: State, key: string, now: int, max: nat)
    requires Invariant(s) && Find(s.cache, key, 0) == None
    ensures Invariant(s.(cache := Evict(Opened(s.cache, key, now), max)))
    ensures forall id :: id in s.cache.open && 0 < s.running[id] ==> id in Evict(Opened(s.cache, key, now), max).open
  {
    hide Evict, Distinct, DistinctKeys, Opened;
    var d := Opened(s.cache, key, now);
    var e := Evict(d, max);
    OpenedIsWellFormed(s.cache, key, now);
    OpenedKeeps(s.cache, key, now);
    EvictIsLru(d, max);
    FewerKeys(d.pool, d.open, e.open);
    assert forall i :: 0 <= i < |e.open| ==> e.open[i] in e.open && e.open[i] in d.open;
    assert forall x :: x in s.cache.open ==> x < |s.cache.pool|;
  }

  lemma OpenedKeeps(c: Cache, key: string, now: int)
    ensures var d := Opened(c, key, now);
      && |d.pool| == |c.pool| + 1 && d.pool[|c.pool|] == Client(key, now, 0, Pending)
      && (forall i :: 0 <= i < |c.pool| ==> d.pool[i] == c.pool[i])
      && (forall x :: x in d.open <==> x in c.open || x == |c.pool|)
  {
  }

  lemma OpenedIsWellFormed(c: Cache, key: string, now: int)
    requires WellFormed(c) && DistinctKeys(c.pool, c.open) && Find(c, key, 0) == None
    ensures var d := Opened(c, key, now); WellFormed(d) && DistinctKeys(d.pool, d.open)
  {
  }

  lemma FewerKeys(pool: seq<Client>, open: seq<nat>, fewer: seq<nat>)
    requires forall i :: 0 <= i < |open| ==> open[i] < |pool|
    requires DistinctKeys(pool, open) && Distinct(fewer) && forall x :: x in fewer ==> x in open
    ensures (forall i :: 0 <= i < |fewer| ==> fewer[i] < |pool|) && DistinctKeys(pool, fewer)
  {
    assert forall i :: 0 <= i < |fewer| ==> fewer[i] in open;
    forall i, j | 0 <= i < j < |fewer| ensures pool[fewer[i]].key != pool[fewer[j]].key {
      var k :| 0 <= k < |open| && open[k] == fewer[i];
      var l :| 0 <= l < |open| && open[l] == fewer[j];
    }
  }

  /** Over any run, `inflight` is the number of bodies running on each client, whether it is in the map or not. */
  lemma {:induction false} RunKeepsInvariant(s: State, run: seq<Step>, t: State, max: nat)
    requires Invariant(s) && Reaches(s, run, t, max)
    ensures Invariant(t)
    decreases |run|
  {
    hide Invariant, Next, Enabled;
    if run != [] {
      StepKeepsInvariant(s, run[0], max);
      RunKeepsInvariant(Next(s, run[0], max), run[1..], t, max);
    }
  }

  ghost predicate InUseThroughout(s: State, run: seq<Step>, id: nat, max: nat)
    decreases |run|
  {
    && 0 < s.running[id]
    && (run != [] ==> Enabled(s, run[0]) && InUseThroughout(Next(s, run[0], max), run[1..], id, max))
  }

  /** No older client of its key fails to connect during the run. */
  ghost predicate NoStaleFailure(s: State, run: seq<Step>, id: nat, max: nat)
    decreases |run|
  {
    run != [] ==>
      Enabled(s, run[0]) && !StaleFailure(s, run[0], id) && NoStaleFailure(Next(s, run[0], max), run[1..], id, max)
  }

  /** A client that left the map does not come back. */
  lemma StepReturnsNone(s: State, step: Step, id: nat, max: nat)
    requires Invariant(s) && Enabled(s, step) && id < |s.cache.pool| && id !in s.cache.open
    ensures id !in Next(s, step, max).cache.open && id < |Next(s, step, max).cache.pool|
  {
    hide Evict, Distinct, DistinctKeys, Without;
    match step {
      case Acquire(key, now) =>
        if Find(s.cache, key, 0) == None {
          OpenedIsWellFormed(s.cache, key, now);
          EvictIsLru(Opened(s.cache, key, now), max);
        }
      case Connect(x, ok) => if !ok { FailureKeepsInvariant(s, x); }
      case _ =>
    }
  }

  lemma {:induction false} NoneReturns(s: State, run: seq<Step>, t: State, id: nat, max: nat)
    requires Invariant(s) && Reaches(s, run, t, max) && id < |s.cache.pool| && id !in s.cache.open
    ensures id !in t.cache.open
    decreases |run|
  {
    hide Invariant, Next, Enabled;
    if run != [] {
      StepKeepsInvariant(s, run[0], max);
      StepReturnsNone(s, run[0], id, max);
      NoneReturns(Next(s, run[0], max), run[1..], t, id, max);
    }
  }

  /** A client in use stays in the map, however many others are opened, iff no older client of its key fails. */
  lemma {:induction false} InUseIsNeverEvicted(s: State, run: seq<Step>, t: State, id: nat, max: nat)
    requires Invariant(s) && Reaches(s, run, t, max) && InUseThroughout(s, run, id, max) && id in s.cache.open
    ensures id in t.cache.open <==> NoStaleFailure(s, run, id, max)
    decreases |run|
  {
    hide Invariant, Next, Enabled, StaleFailure;
    if run != [] {
      StepKeepsInvariant(s, run[0], max);
      if StaleFailure(s, run[0], id) {
        PoolGrows(s, run[0], id, max);
        NoneReturns(Next(s, run[0], max), run[1..], t, id, max);
      } else {
        InUseIsNeverEvicted(Next(s, run[0], max), run[1..], t, id, max);
      }
    }
  }

  lemma PoolGrows(s: State, step: Step, id: nat, max: nat)
    requires Invariant(s) && Enabled(s, step) && id in s.cache.open
    ensures id < |Next(s, step, max).cache.pool|
  {
    hide Evict, Distinct, DistinctKeys, Dropped;
    if step.Acquire? && Find(s.cache, step.key, 0) == None {
      OpenedIsWellFormed(s.cache, step.key, step.now);
      EvictIsLru(Opened(s.cache, step.key, step.now), max);
    }
    if step.Connect? && !step.ok {
      var c := s.cache.pool[step.id];
      DroppedPool(Changed(s.cache, step.id, c.(setup := Failed)), c.key);
    }
  }

  lemma DroppedPool(c: Cache, key: string)
    ensures Dropped(c, key).pool == c.pool
  {
  }

  /**
   It does happen: with room for one client, one of `b` is evicted as it is
   opened, another of `b` is opened and used, and then the first one fails.
   */
  lemma StaleFailureDropsClientInUse() returns (run: seq<Step>, t: State)
    ensures Reaches(INITIAL, run, t, 1) && |t.cache.pool| == 3 && t.cache.open == []
    ensures t.cache.pool[2].key == "b" && t.cache.pool[2].inflight == t.running[2] == 1
  {
    var a0, b0, b1 := Client("a", 0, 0, Pending), Client("b", 1, 0, Pending), Client("b", 3, 0, Pending);
    var s3 := UsesFirst("a");
    var s5 := OpensAndIdles(s3, a0, b0);
    t := OpensAndLoses(s5, s5.cache.pool[0], b0, b1);
    var r1, r2, r3 := [Acquire("a", 0), Connect(0, true), Begin(0)], [Acquire("b", 1), End(0, 2)],
      [Acquire("b", 3), Connect(2, true), Begin(2), Connect(1, false)];
    ReachesOn(INITIAL, r1, s3, r2, s5, 1);
    ReachesOn(INITIAL, r1 + r2, s5, r3, t, 1);
    run := r1 + r2 + r3;
  }

  lemma {:induction false} ReachesOn(s: State, run: seq<Step>, t: State, more: seq<Step>, u: State, max: nat)
    requires Reaches(s, run, t, max) && Reaches(t, more, u, max)
    ensures Reaches(s, run + more, u, max)
    decreases |run|
  {
    hide Enabled, Next;
    if run == [] {
      assert run + more == more;
    } else {
      assert (run + more)[0] == run[0] && (run + more)[1..] == run[1..] + more;
      ReachesOn(Next(s, run[0], max), run[1..], t, more, u, max);
    }
  }

  lemma OneStep(s: State, step: Step, max: nat)
    requires Enabled(s, step)
    ensures Reaches(s, [step], Next(s, step, max), max)
  {
    hide Enabled, Next;
    assert [step][1..] == [];
    assert Reaches(Next(s, step, max), [], Next(s, step, max), max);
  }

  lemma UsesFirst(key: string) returns (s: State)
    ensures s == State(Cache([Client(key, 0, 1, Ready)], [0]), multiset{0})
    ensures Reaches(INITIAL, [Acquire(key, 0), Connect(0, true), Begin(0)], s, 1)
  {
    var s1 := State(Cache([Client(key, 0, 0, Pending)], [0]), multiset{});
    var s2 := State(Cache([Client(key, 0, 0, Ready)], [0]), multiset{});
    s := State(Cache([Client(key, 0, 1, Ready)], [0]), multiset{0});
    FirstOpens(key);
    assert Next(INITIAL, Acquire(key, 0), 1) == s1;
    assert Next(s1, Connect(0, true), 1) == s2;
    assert Next(s2, Begin(0), 1) == s;
    ThreeSteps(INITIAL, Acquire(key, 0), s1, Connect(0, true), s2, Begin(0), s);
  }

  lemma ThreeSteps(s: State, x: Step, s1: State, y: Step, s2: State, z: Step, t: State)
    requires Enabled(s, x) && Next(s, x, 1) == s1 && Enabled(s1, y) && Next(s1, y, 1) == s2
    requires Enabled(s2, z) && Next(s2, z, 1) == t
    ensures Reaches(s, [x, y, z], t, 1)
  {
    hide Enabled, Next;
    OneStep(s, x, 1);
    OneStep(s1, y, 1);
    OneStep(s2, z, 1);
    ReachesOn(s, [x], s1, [y], s2, 1);
    ReachesOn(s, [x] + [y], s2, [z], t, 1);
    assert [x] + [y] + [z] == [x, y, z];
  }

  lemma OpensAndIdles(s: State, a: Client, b: Client) returns (t: State)
    requires a.inflight == 0 && b == Client(b.key, 1, 0, Pending) && a.key != b.key
    requires s == State(Cache([a.(inflight := 1, setup := Ready)], [0]), multiset{0})
    ensures t == State(Cache([a.(lastUsed := 2, setup := Ready), b], [0]), multiset{})
    ensures Reaches(s, [Acquire(b.key, 1), End(0, 2)], t, 1)
  {
    OpensNextToBusy(s.cache.pool[0], b.key, 1);
    var s4 := State(Cache([s.cache.pool[0], b], [0]), multiset{0});
    t := State(Cache([a.(lastUsed := 2, setup := Ready), b], [0]), multiset{});
    assert Next(s, Acquire(b.key, 1), 1) == s4;
    assert Next(s4, End(0, 2), 1) == t;
    hide Next, Enabled;
    OneStep(s, Acquire(b.key, 1), 1);
    assert Enabled(s4, End(0, 2)) by { EndsFirst(s4, 2); }
    OneStep(s4, End(0, 2), 1);
    ReachesOn(s, [Acquire(b.key, 1)], s4, [End(0, 2)], t, 1);
    assert [Acquire(b.key, 1)] + [End(0, 2)] == [Acquire(b.key, 1), End(0, 2)];
  }

  lemma EndsFirst(s: State, now: int)
    requires s.cache.pool != [] && 0 < s.cache.pool[0].inflight && 0 < s.running[0]
    ensures Enabled(s, End(0, now))
  {
  }

  lemma OpensAndLoses(s: State, a: Client, b: Client, d: Client) returns (t: State)
    requires s == State(Cache([a, b], [0]), multiset{}) && a.inflight == 0 && a.lastUsed == 2
    requires b.key == d.key != a.key && b.setup == Pending && d == Client(d.key, 3, 0, Pending)
    ensures t == State(Cache([a, b.(setup := Failed), d.(setup := Ready, inflight := 1)], []), multiset{2})
    ensures Reaches(s, [Acquire(d.key, 3), Connect(2, true), Begin(2), Connect(1, false)], t, 1)
  {
    var u := OpensAndUses(s, a, b, d);
    t := Loses(u, a, b, d.(setup := Ready, inflight := 1));
    hide Next, Enabled;
    var run := [Acquire(d.key, 3), Connect(2, true), Begin(2)];
    ReachesOn(s, run, u, [Connect(1, false)], t, 1);
    assert run + [Connect(1, false)] == [Acquire(d.key, 3), Connect(2, true), Begin(2), Connect(1, false)];
  }

  lemma OpensAndUses(s: State, a: Client, b: Client, d: Client) returns (t: State)
    requires s == State(Cache([a, b], [0]), multiset{}) && a.inflight == 0 && a.lastUsed == 2
    requires b.key == d.key != a.key && d == Client(d.key, 3, 0, Pending)
    ensures t == State(Cache([a, b, d.(setup := Ready, inflight := 1)], [2]), multiset{2})
    ensures Reaches(s, [Acquire(d.key, 3), Connect(2, true), Begin(2)], t, 1)
  {
    var s6 := State(Cache([a, b, d], [2]), multiset{});
    var s7 := State(Cache([a, b, d.(setup := Ready)], [2]), multiset{});
    t := State(Cache([a, b, d.(setup := Ready, inflight := 1)], [2]), multiset{2});
    OpensNextToIdle(s.cache.pool, d.key, 3);
    assert [a, b] + [d] == [a, b, d];
    hide Acquired;
    assert Next(s, Acquire(d.key, 3), 1) == s6;
    assert Next(s6, Connect(2, true), 1) == s7;
    assert Next(s7, Begin(2), 1) == t;
    ThreeSteps(s, Acquire(d.key, 3), s6, Connect(2, true), s7, Begin(2), t);
  }

  lemma Loses(s: State, a: Client, b: Client, d: Client) returns (t: State)
    requires s == State(Cache([a, b, d], [2]), multiset{2}) && b.key == d.key && b.setup == Pending
    ensures t == State(Cache([a, b.(setup := Failed), d], []), multiset{2})
    ensures Reaches(s, [Connect(1, false)], t, 1)
  {
    t := State(Cache([a, b.(setup := Failed), d], []), multiset{2});
    DropsOther(s.cache, 1, 2);
    assert Next(s, Connect(1, false), 1) == t;
    OneStep(s, Connect(1, false), 1);
  }

  // ------------------------------------------------------------ The router

  class TenantDbRouter {
    const maxClients: nat
    var pool: seq<Client>
    var open: seq<nat>
    ghost var running: multiset<nat>

    ghost function View(): State
      reads this
    {
      State(Cache(pool, open), running)
    }

    constructor (maxClients: nat)
      ensures View() == INITIAL && this.maxClients == maxClients
    {
      this.maxClients := maxClients;
      pool, open, running := [], [], multiset{};
    }

    /** `evict`: idle clients go, least recently used first, until the bound holds. */
    method EvictIdle()
      requires WellFormed(View().cache)
      modifies this`open
      ensures View() == old(View()).(cache := Evict(old(View()).cache, maxClients))
    {
      hide Sort, Idle, Without;
      ghost var c := Cache(pool, open);
      WithoutNone(open);
      if |open| <= maxClients { return; }
      var idle := Sort(pool, Idle(pool, open));
      IdleMembers(pool, open);
      SortSorts(pool, Idle(pool, open));
      var i := 0;
      while i < |idle| && |open| > maxClients
        invariant i <= |idle| && open == Without(c.open, idle[..i]) && |open| == |c.open| - i
        invariant i <= Removals(c, maxClients)
      {
        PrefixDistinct(idle, i + 1);
        WithoutKeeps(c.open, idle[..i + 1]);
        WithoutOneMore(c.open, idle, i);
        open := Without(open, [idle[i]]);
        i := i + 1;
      }
    }

    /** `clientsFor` up to the wait for the connection. */
    method ClientsFor(key: string, now: int) returns (id: nat)
      requires Invariant(View())
      modifies this`pool, this`open
      ensures View() == Next(old(View()), Acquire(key, now), maxClients) && Invariant(View())
      ensures id < |pool| && pool[id].key == key
      ensures id in old(open) || (id == |old(pool)| && pool[id].setup == Pending)
      ensures (exists x :: x in old(open) && x < |old(pool)| && old(pool)[x].key == key) ==>
        id in old(open) && pool == old(pool) && open == old(open)
      ensures (forall x :: x in old(open) && x < |old(pool)| ==> old(pool)[x].key != key) ==>
        pool == old(pool) + [Client(key, now, 0, Pending)]
          && open == Evict(Cache(pool, old(open) + [id]), maxClients).open
    {
      hide Evict, Removals;
      StepKeepsInvariant(View(), Acquire(key, now), maxClients);
      var found := Find(Cache(pool, open), key, 0);
      if found.Some? {
        id := found.value;
      } else {
        id := |pool|;
        pool := pool + [Client(key, now, 0, Pending)];
        open := open + [id];
        EvictIdle();
      }
    }

    /** `ready`: a client that cannot be reached takes its key out of the map. */
    method Connected(id: nat, ok: bool)
      requires Invariant(View()) && Enabled(View(), Connect(id, ok))
      modifies this`pool, this`open
      ensures View() == Next(old(View()), Connect(id, ok), maxClients) && Invariant(View())
      ensures !ok ==> forall x :: x in open ==> x < |pool| && pool[x].key != pool[id].key
      ensures pool == old(pool)[id := old(pool)[id].(setup := if ok then Ready else Failed)]
      ensures ok ==> open == old(open)
    {
      StepKeepsInvariant(View(), Connect(id, ok), maxClients);
      if ok {
        pool := pool[id := pool[id].(setup := Ready)];
      } else {
        FailureKeepsInvariant(View(), id);
        pool := pool[id := pool[id].(setup := Failed)];
        open := Dropped(Cache(pool, open), pool[id].key).open;
      }
    }

    /** `clientsFor` behind the wait: the client is handed out as used now. */
    method HandOut(id: nat, now: int)
      requires Invariant(View()) && Enabled(View(), HandOver(id, now))
      modifies this`pool
      ensures View() == Next(old(View()), HandOver(id, now), maxClients) && Invariant(View())
      ensures pool == old(pool)[id := old(pool)[id].(lastUsed := now)]
    {
      StepKeepsInvariant(View(), HandOver(id, now), maxClients);
      pool := pool[id := pool[id].(lastUsed := now)];
    }

    /** `use` before its body: an eviction leaves the client alone from now on. */
    method BeginUse(id: nat)
      requires Invariant(View()) && Enabled(View(), Begin(id))
      modifies this`pool, this`running
      ensures View() == Next(old(View()), Begin(id), maxClients) && Invariant(View())
      ensures pool == old(pool)[id := old(pool)[id].(inflight := old(pool)[id].inflight + 1)]
      ensures id in open ==> id in Evict(Cache(pool, open), maxClients).open
    {
      StepKeepsInvariant(View(), Begin(id), maxClients);
      pool := pool[id := pool[id].(inflight := pool[id].inflight + 1)];
      running := running + multiset{id};
      EvictIsLru(Cache(pool, open), maxClients);
    }

    /** `use` behind its body: the client is idle again once no other body runs on it. */
    method EndUse(id: nat, now: int)
      requires Invariant(View()) && Enabled(View(), End(id, now))
      modifies this`pool, this`running
      ensures View() == Next(old(View()), End(id, now), maxClients) && Invariant(View())
      ensures pool == old(pool)[id := old(pool)[id].(inflight := old(pool)[id].inflight - 1, lastUsed := now)]
      ensures id in Idle(pool, open) <==> id in open && running[id] == 0
    {
      StepKeepsInvariant(View(), End(id, now), maxClients);
      pool := pool[id := pool[id].(inflight := pool[id].inflight - 1, lastUsed := now)];
      running := running - multiset{id};
      IdleMembers(pool, open);
    }
  }

  lemma {:induction false} WithoutNone(open: seq<nat>)
    ensures Without(open, []) == open
  {
    if open != [] {
      WithoutNone(open[1..]);
    }
  }

  lemma WithoutOneMore(open: seq<nat>, out: seq<nat>, i: nat)
    requires i < |out|
    ensures Without(Without(open, out[..i]), [out[i]]) == Without(open, out[..i + 1])
  {
    assert out[..i + 1] == out[..i] + [out[i]];
    WithoutTwice(open, out[..i], out[i]);
  }

  lemma {:induction false} WithoutTwice(open: seq<nat>, a: seq<nat>, x: nat)
    ensures Without(Without(open, a), [x]) == Without(open, a + [x])
  {
    if open != [] {
      WithoutTwice(open[1..], a, x);
      assert open[0] in a + [x] <==> open[0] in a || open[0] == x;
      var rest := Without(open[1..], a);
      assert ([open[0]] + rest)[1..] == rest && [] + rest == rest;
    }
  }

  // ------------------------------------------------------------ The run above, step by step

  lemma FirstOpens(key: string)
    ensures Acquired(Cache([], []), key, 0, 1) == Cache([Client(key, 0, 0, Pending)], [0])
  {
    var c := Opened(Cache([], []), key, 0);
    assert c == Cache([Client(key, 0, 0, Pending)], [0]);
    hide Sort;
    assert Removals(c, 1) == 0;
    assert Victims(c, 1) == [];
    WithoutNone(c.open);
  }

  /** Next to a client in use, the new one is the only idle one, and goes. */
  lemma OpensNextToBusy(busy: Client, key: string, now: int)
    requires 0 < busy.inflight && busy.key != key
    ensures Acquired(Cache([busy], [0]), key, now, 1) == Cache([busy, Client(key, now, 0, Pending)], [0])
  {
    var c := Opened(Cache([busy], [0]), key, now);
    assert c == Cache([busy, Client(key, now, 0, Pending)], [0, 1]);
    IdleOfTwo(c.pool, 0, 1);
    assert Sort(c.pool, [1]) == [1] by { assert Insert(c.pool, 1, []) == [1]; }
    assert [1][..1] == [1];
    WithoutOne(0, 1);
  }

  lemma IdleOfTwo(pool: seq<Client>, a: nat, b: nat)
    requires a < |pool| && b < |pool| && a != b && 0 == pool[b].inflight
    ensures Idle(pool, [a, b]) == if pool[a].inflight == 0 then [a, b] else [b]
  {
    assert [a, b][1..] == [b] && [b][1..] == [];
    assert Idle(pool, [b]) == [b] + Idle(pool, []);
  }

  lemma WithoutOne(a: nat, b: nat)
    requires a != b
    ensures Without([a, b], [b]) == [a] && Without([a, b], [a]) == [b]
  {
    assert [a, b][1..] == [b] && [b][1..] == [];
    assert Without([b], [b]) == [] + Without([], [b]);
    assert Without([b], [a]) == [b] + Without([], [a]);
  }

  /** Next to an idle client used before, the older one goes. */
  lemma OpensNextToIdle(pool: seq<Client>, key: string, now: int)
    requires |pool| == 2 && pool[0].inflight == 0 && pool[0].key != key && pool[0].lastUsed < now
    ensures Acquired(Cache(pool, [0]), key, now, 1) == Cache(pool + [Client(key, now, 0, Pending)], [2])
  {
    var c := Opened(Cache(pool, [0]), key, now);
    assert c == Cache(pool + [Client(key, now, 0, Pending)], [0, 2]);
    IdleOfTwo(c.pool, 0, 2);
    assert Sort(c.pool, [0, 2]) == [0, 2] by {
      assert [0, 2][1..] == [2] && [2][1..] == [];
      assert Sort(c.pool, [2]) == Insert(c.pool, 2, Sort(c.pool, [])) == [2];
      assert Insert(c.pool, 0, [2]) == [0] + [2];
    }
    assert [0, 2][..1] == [0];
    WithoutOne(0, 2);
  }

  lemma DropsOther(c: Cache, failed: nat, used: nat)
    requires failed < |c.pool| && used < |c.pool| && failed != used && c.pool[failed].key == c.pool[used].key
    requires c.open == [used]
    ensures Dropped(Changed(c, failed, c.pool[failed].(setup := Failed)), c.pool[failed].key)
      == Cache(c.pool[failed := c.pool[failed].(setup := Failed)], [])
  {
    assert Without([used], [used]) == [] + Without([used][1..], [used]);
  }
}
