/**
 Refresh-token families of src/modules/auth/auth.service.ts.  A run interleaves
 sign-ins, log-outs and any number of presentations of tokens.  Inside one
 presentation the read of the row, the conditional claim together with the
 issue of the next token, and the revocation of the family are separate atomic
 steps, so presentations of one token can overtake each other between them.
 Tokens are never deleted; a token's identifier is its place in the table.
 */
module RefreshTokens {
  import opened Wrappers

  datatype Reason = Rotated | ReuseDetected | UserInactive | LoggedOut

  datatype Token = Token(user: nat, family: nat, expiresAt: int, revoked: Option<Reason>, replacedBy: Option<nat>)

  datatype Outcome = Issued(token: nat) | Reused | Invalid

  /** How far a presentation has come. */
  datatype Stage = Found | ToClaim | ToRevoke(reason: Reason) | Done(outcome: Outcome)

  datatype Presentation = Presentation(token: nat, stage: Stage)

  datatype State = State(tokens: seq<Token>, inactive: set<nat>, presentations: seq<Presentation>)

  datatype Step =
    | SignIn(user: nat, freshFamily: nat, expiresAt: int)
    | Activate(user: nat)
    | Deactivate(user: nat)
    | Present(token: nat)
    | Read(p: nat, now: int)
    | Claim(p: nat, expiresAt: int)
    | Revoke(p: nat)
    | LogOut(token: nat)

  const INITIAL := State([], {}, [])

  // ------------------------------------------------------------ The table

  /** `revokeFamily`: every token of the family that is not revoked yet. */
  function RevokeFamily(tokens: seq<Token>, family: nat, reason: Reason): (r: seq<Token>)
    ensures |r| == |tokens|
  {
    seq(|tokens|, i requires 0 <= i < |tokens| =>
      if tokens[i].family == family && tokens[i].revoked == None then tokens[i].(revoked := Some(reason))
      else tokens[i])
  }

  function Unrevoked(tokens: seq<Token>, family: nat): nat {
    if tokens == [] then 0
    else Unrevoked(tokens[..|tokens| - 1], family)
         + if tokens[|tokens| - 1].family == family && tokens[|tokens| - 1].revoked == None then 1 else 0
  }

  function Issue(tokens: seq<Token>, user: nat, family: nat, expiresAt: int): seq<Token> {
    tokens + [Token(user, family, expiresAt, None, None)]
  }

  /** The claim of an unrevoked token by an active user: revoked as rotated, and replaced. */
  function Rotate(tokens: seq<Token>, id: nat, expiresAt: int): seq<Token>
    requires id < |tokens|
  {
    Issue(tokens[id := tokens[id].(revoked := Some(Rotated), replacedBy := Some(|tokens|))],
          tokens[id].user, tokens[id].family, expiresAt)
  }

  /** What the read inside the transaction decides. */
  function Decide(t: Token, now: int): Stage {
    if t.revoked == Some(Rotated) then ToRevoke(ReuseDetected)
    else if t.revoked.Some? || t.expiresAt <= now then Done(Invalid)
    else ToClaim
  }

  function Verdict(reason: Reason): Outcome {
    if reason == ReuseDetected then Reused else Invalid
  }

  // ------------------------------------------------------------ The steps

  predicate Enabled(s: State, step: Step) {
    match step
    case SignIn(_, f, _) => forall i :: 0 <= i < |s.tokens| ==> s.tokens[i].family != f
    case Activate(_) => true
    case Deactivate(_) => true
    case Present(id) => id < |s.tokens|
    case Read(p, _) => At(s, p, Found)
    case Claim(p, _) => At(s, p, ToClaim)
    case Revoke(p) => p < |s.presentations| && s.presentations[p].token < |s.tokens|
      && s.presentations[p].stage.ToRevoke?
    case LogOut(id) => id < |s.tokens|
  }

  predicate At(s: State, p: nat, stage: Stage) {
    p < |s.presentations| && s.presentations[p].token < |s.tokens| && s.presentations[p].stage == stage
  }

  function Move(s: State, p: nat, stage: Stage): State
    requires p < |s.presentations|
  {
    s.(presentations := s.presentations[p := s.presentations[p].(stage := stage)])
  }

  function Next(s: State, step: Step): State
    requires Enabled(s, step)
  {
    match step
    case SignIn(user, f, expiresAt) => s.(tokens := Issue(s.tokens, user, f, expiresAt))
    case Activate(user) => s.(inactive := s.inactive - {user})
    case Deactivate(user) => s.(inactive := s.inactive + {user})
    case Present(id) => s.(presentations := s.presentations + [Presentation(id, Found)])
    case Read(p, now) => Move(s, p, Decide(s.tokens[s.presentations[p].token], now))
    case Claim(p, expiresAt) =>
      var id := s.presentations[p].token;
      if s.tokens[id].revoked.Some? then Move(s, p, ToRevoke(ReuseDetected))
      else if s.tokens[id].user in s.inactive then
        Move(s.(tokens := s.tokens[id := s.tokens[id].(revoked := Some(Rotated))]), p, ToRevoke(UserInactive))
      else Move(s.(tokens := Rotate(s.tokens, id, expiresAt)), p, Done(Issued(|s.tokens|)))
    case Revoke(p) =>
      var reason := s.presentations[p].stage.reason;
      Move(s.(tokens := RevokeFamily(s.tokens, s.tokens[s.presentations[p].token].family, reason)), p,
        Done(Verdict(reason)))
    case LogOut(id) => s.(tokens := RevokeFamily(s.tokens, s.tokens[id].family, LoggedOut))
  }

  ghost predicate Reaches(s: State, run: seq<Step>, t: State)
    decreases |run|
  {
    if run == [] then s == t else Enabled(s, run[0]) && Reaches(Next(s, run[0]), run[1..], t)
  }

  // ------------------------------------------------------------ The invariant

  /** Token `j` is the next of its family after token `i`. */
  ghost predicate NextOfFamily(tokens: seq<Token>, i: nat, j: nat) {
    && i < j < |tokens| && tokens[i].family == tokens[j].family
    && forall k :: i < k < j ==> tokens[k].family != tokens[i].family
  }

  ghost predicate LastOfFamily(tokens: seq<Token>, i: nat) {
    i < |tokens| && forall k :: i < k < |tokens| ==> tokens[k].family != tokens[i].family
  }

  /** A token points at the next one of its family, and only the last one of a family can be unrevoked. */
  ghost predicate Chained(tokens: seq<Token>) {
    forall i :: 0 <= i < |tokens| ==>
      match tokens[i].replacedBy
      case Some(j) => NextOfFamily(tokens, i, j) && tokens[i].revoked == Some(Rotated)
      case None => LastOfFamily(tokens, i)
  }

  /** Every token of the family is revoked, and there is one. */
  ghost predicate Dead(tokens: seq<Token>, family: nat) {
    && (exists i :: 0 <= i < |tokens| && tokens[i].family == family)
    && (forall i :: 0 <= i < |tokens| && tokens[i].family == family ==> tokens[i].revoked.Some?)
  }

  /** A presentation that got a token was the one that rotated its own; one reported as reuse left a dead family. */
  ghost predicate Accounted(s: State) {
    && (forall p :: 0 <= p < |s.presentations| ==> s.presentations[p].token < |s.tokens|)
    && (forall p :: 0 <= p < |s.presentations| && s.presentations[p].stage.Done? ==>
          match s.presentations[p].stage.outcome
          case Issued(n) => s.tokens[s.presentations[p].token].replacedBy == Some(n)
          case Reused => Dead(s.tokens, s.tokens[s.presentations[p].token].family)
          case Invalid => true)
    && (forall p :: 0 <= p < |s.presentations| && s.presentations[p].stage.ToRevoke? ==>
          s.tokens[s.presentations[p].token].revoked.Some?)
    && (forall p, q :: 0 <= p < q < |s.presentations| && Got(s, p) && Got(s, q) ==>
      s.presentations[p].token != s.presentations[q].token)
  }

  ghost predicate Got(s: State, p: nat)
    requires p < |s.presentations|
  {
    s.presentations[p].stage.Done? && s.presentations[p].stage.outcome.Issued?
  }

  ghost predicate Invariant(s: State) {
    Chained(s.tokens) && Accounted(s)
  }

  /** How a table may change: rows stay, revocations and successors stay, and new rows join no dead family. */
  ghost predicate Grows(a: seq<Token>, b: seq<Token>) {
    && |a| <= |b|
    && (forall i :: 0 <= i < |a| ==>
          && a[i].family == b[i].family && a[i].user == b[i].user && a[i].expiresAt == b[i].expiresAt
          && (a[i].revoked.Some? ==> b[i].revoked == a[i].revoked)
          && (a[i].replacedBy.Some? ==> b[i].replacedBy == a[i].replacedBy))
    && (forall i :: |a| <= i < |b| ==> !Dead(a, b[i].family))
  }

  lemma RevokeKeepsChain(tokens: seq<Token>, family: nat, reason: Reason)
    ensures var r := RevokeFamily(tokens, family, reason);
      && Grows(tokens, r)
      && (Chained(tokens) ==> Chained(r))
      && ((exists i :: 0 <= i < |tokens| && tokens[i].family == family) ==> Dead(r, family))
  {
    var r := RevokeFamily(tokens, family, reason);
    assert forall i :: 0 <= i < |tokens| ==> r[i].family == tokens[i].family && r[i].replacedBy == tokens[i].replacedBy;
    if Chained(tokens) {
      forall i | 0 <= i < |r|
        ensures match r[i].replacedBy
          case Some(j) => NextOfFamily(r, i, j) && r[i].revoked == Some(Rotated)
          case None => LastOfFamily(r, i)
      {
        assert match tokens[i].replacedBy
          case Some(j) => NextOfFamily(tokens, i, j) && tokens[i].revoked == Some(Rotated)
          case None => LastOfFamily(tokens, i);
      }
    }
    if i :| 0 <= i < |tokens| && tokens[i].family == family {
      assert r[i].family == family;
    }
  }

  lemma IssueKeepsChain(tokens: seq<Token>, user: nat, family: nat, expiresAt: int)
    requires Chained(tokens) && forall i :: 0 <= i < |tokens| ==> tokens[i].family != family
    ensures Chained(Issue(tokens, user, family, expiresAt)) && Grows(tokens, Issue(tokens, user, family, expiresAt))
  {
  }

  lemma ClaimKeepsChain(tokens: seq<Token>, id: nat)
    requires Chained(tokens) && id < |tokens| && tokens[id].revoked == None
    ensures var r := tokens[id := tokens[id].(revoked := Some(Rotated))]; Chained(r) && Grows(tokens, r)
  {
    var r := tokens[id := tokens[id].(revoked := Some(Rotated))];
    forall i | 0 <= i < |r|
      ensures match r[i].replacedBy
        case Some(j) => NextOfFamily(r, i, j) && r[i].revoked == Some(Rotated)
        case None => LastOfFamily(r, i)
    {
      assert match tokens[i].replacedBy
        case Some(j) => NextOfFamily(tokens, i, j) && tokens[i].revoked == Some(Rotated)
        case None => LastOfFamily(tokens, i);
    }
  }

  lemma RotateKeepsChain(tokens: seq<Token>, id: nat, expiresAt: int)
    requires Chained(tokens) && id < |tokens| && tokens[id].revoked == None
    ensures Chained(Rotate(tokens, id, expiresAt)) && Grows(tokens, Rotate(tokens, id, expiresAt))
  {
    var r := Rotate(tokens, id, expiresAt);
    assert LastOfFamily(tokens, id);
    forall i | 0 <= i < |r|
      ensures match r[i].replacedBy
        case Some(j) => NextOfFamily(r, i, j) && r[i].revoked == Some(Rotated)
        case None => LastOfFamily(r, i)
    {
      if i < |tokens| && i != id {
        assert r[i] == tokens[i];
        assert match tokens[i].replacedBy
          case Some(j) => NextOfFamily(tokens, i, j) && tokens[i].revoked == Some(Rotated)
          case None => LastOfFamily(tokens, i);
        assert tokens[i].replacedBy == None ==> tokens[i].family != tokens[id].family;
      }
    }
    assert !Dead(tokens, tokens[id].family);
  }

  lemma DeathLasts(a: seq<Token>, b: seq<Token>, family: nat)
    requires Grows(a, b) && Dead(a, family)
    ensures Dead(b, family)
  {
    var i :| 0 <= i < |a| && a[i].family == family;
    assert b[i].family == family;
  }

  lemma StepGrows(s: State, step: Step)
    requires Invariant(s) && Enabled(s, step)
    ensures Grows(s.tokens, Next(s, step).tokens) && Chained(Next(s, step).tokens)
  {
    hide Chained, Grows, RevokeFamily, Rotate, Issue;
    NothingGrows(s.tokens);
    match step {
      case SignIn(user, f, expiresAt) => IssueKeepsChain(s.tokens, user, f, expiresAt);
      case Claim(p, expiresAt) =>
        var id := s.presentations[p].token;
        if s.tokens[id].revoked == None {
          ClaimKeepsChain(s.tokens, id);
          RotateKeepsChain(s.tokens, id, expiresAt);
        }
      case Revoke(p) => RevokeKeepsChain(s.tokens, s.tokens[s.presentations[p].token].family,
        s.presentations[p].stage.reason);
      case LogOut(id) => RevokeKeepsChain(s.tokens, s.tokens[id].family, LoggedOut);
      case _ =>
    }
  }

  lemma NothingGrows(tokens: seq<Token>)
    ensures Grows(tokens, tokens)
  {
  }

  // ------------------------------------------------------------ Presentations

  /** Presentations other than the moving one keep their account as the table grows. */
  lemma GrowthKeepsAccounts(s: State, tokens: seq<Token>)
    requires Accounted(s) && Grows(s.tokens, tokens)
    ensures Accounted(s.(tokens := tokens))
  {
    var t := s.(tokens := tokens);
    forall p | 0 <= p < |t.presentations| && t.presentations[p].stage.Done?
      ensures match t.presentations[p].stage.outcome
        case Issued(n) => t.tokens[t.presentations[p].token].replacedBy == Some(n)
        case Reused => Dead(t.tokens, t.tokens[t.presentations[p].token].family)
        case Invalid => true
    {
      if s.presentations[p].stage.outcome == Reused {
        DeathLasts(s.tokens, tokens, s.tokens[s.presentations[p].token].family);
      }
    }
    assert forall p :: 0 <= p < |t.presentations| ==> (Got(t, p) <==> Got(s, p));
  }

  lemma MoveKeepsAccounts(s: State, p: nat, stage: Stage)
    requires Accounted(s) && p < |s.presentations|
    requires match stage
      case Done(Issued(n)) =>
        && s.tokens[s.presentations[p].token].replacedBy == Some(n)
        && forall q :: 0 <= q < |s.presentations| && Got(s, q) ==> s.presentations[q].token != s.presentations[p].token
      case Done(Reused) => Dead(s.tokens, s.tokens[s.presentations[p].token].family)
      case ToRevoke(_) => s.tokens[s.presentations[p].token].revoked.Some?
      case _ => true
    ensures Accounted(Move(s, p, stage))
  {
    hide Dead;
    var t := Move(s, p, stage);
    assert forall q :: 0 <= q < |t.presentations| && q != p ==>
      t.presentations[q] == s.presentations[q] && (Got(t, q) <==> Got(s, q));
  }

  lemma StepKeepsInvariant(s: State, step: Step)
    requires Invariant(s) && Enabled(s, step)
    ensures Invariant(Next(s, step))
  {
    hide Chained, Grows, RevokeFamily, Accounted;
    StepGrows(s, step);
    var t := Next(s, step);
    GrowthKeepsAccounts(s, t.tokens);
    match step {
      case Present(id) => PresentKeepsAccounts(s, id);
      case Read(p, now) => ReadKeepsAccounts(s, p, now);
      case Claim(p, expiresAt) => ClaimKeepsAccounts(s, p, expiresAt);
      case Revoke(p) => RevokeKeepsAccounts(s, p);
      case _ => NotPresenting(s, step);
    }
  }

  lemma NotPresenting(s: State, step: Step)
    requires Enabled(s, step) && (step.SignIn? || step.Activate? || step.Deactivate? || step.LogOut?)
    requires Accounted(s.(tokens := Next(s, step).tokens))
    ensures Accounted(Next(s, step))
  {
    hide RevokeFamily, Issue, Dead;
    assert forall p :: 0 <= p < |s.presentations| ==>
      (Got(Next(s, step), p) <==> Got(s.(tokens := Next(s, step).tokens), p));
  }

  lemma PresentKeepsAccounts(s: State, id: nat)
    requires Accounted(s) && id < |s.tokens|
    ensures Accounted(Next(s, Present(id)))
  {
    hide Dead;
    var t := Next(s, Present(id));
    assert forall q :: 0 <= q < |s.presentations| ==>
      t.presentations[q] == s.presentations[q] && (Got(t, q) <==> Got(s, q));
    assert !Got(t, |s.presentations|);
  }

  lemma ReadKeepsAccounts(s: State, p: nat, now: int)
    requires Accounted(s) && Enabled(s, Read(p, now))
    ensures Accounted(Next(s, Read(p, now)))
  {
    MoveKeepsAccounts(s, p, Decide(s.tokens[s.presentations[p].token], now));
  }

  lemma ClaimKeepsAccounts(s: State, p: nat, expiresAt: int)
    requires Accounted(s) && Chained(s.tokens) && Enabled(s, Claim(p, expiresAt))
    requires Accounted(s.(tokens := Next(s, Claim(p, expiresAt)).tokens))
    ensures Accounted(Next(s, Claim(p, expiresAt)))
  {
    hide Dead;
    var id, t := s.presentations[p].token, Next(s, Claim(p, expiresAt));
    var grown := s.(tokens := t.tokens);
    forall q | 0 <= q < |s.presentations| && Got(grown, q) && s.tokens[id].revoked == None
      ensures s.presentations[q].token != id
    {
      assert Got(s, q);
      assert s.tokens[s.presentations[q].token].replacedBy.Some?;
    }
    MoveKeepsAccounts(grown, p, t.presentations[p].stage);
  }

  lemma RevokeKeepsAccounts(s: State, p: nat)
    requires Enabled(s, Revoke(p))
    requires Accounted(s.(tokens := Next(s, Revoke(p)).tokens))
    ensures Accounted(Next(s, Revoke(p)))
  {
    var t := Next(s, Revoke(p));
    var id := s.presentations[p].token;
    RevokeKeepsChain(s.tokens, s.tokens[id].family, s.presentations[p].stage.reason);
    assert t.tokens[id].family == s.tokens[id].family;
    MoveKeepsAccounts(s.(tokens := t.tokens), p, t.presentations[p].stage);
  }

  lemma {:induction false} RunKeepsInvariant(s: State, run: seq<Step>, t: State)
    requires Invariant(s) && Reaches(s, run, t)
    ensures Invariant(t)
    decreases |run|
  {
    hide Invariant, Next, Enabled;
    if run != [] {
      StepKeepsInvariant(s, run[0]);
      RunKeepsInvariant(Next(s, run[0]), run[1..], t);
    }
  }

  lemma InitiallyInvariant()
    ensures Invariant(INITIAL)
  {
  }

  // ------------------------------------------------------------ Over all runs

  /** The tokens of a family, oldest first. */
  function Members(tokens: seq<Token>, family: nat): (ids: seq<nat>) {
    if tokens == [] then []
    else Members(tokens[..|tokens| - 1], family) + if tokens[|tokens| - 1].family == family then [|tokens| - 1] else []
  }

  /** `ids` lists exactly the tokens of the family, in order of issue. */
  ghost predicate Lists(tokens: seq<Token>, family: nat, ids: seq<nat>) {
    && (forall k :: 0 <= k < |ids| ==> ids[k] < |tokens| && tokens[ids[k]].family == family)
    && (forall k, l :: 0 <= k < l < |ids| ==> ids[k] < ids[l])
    && (forall i :: 0 <= i < |tokens| && tokens[i].family == family ==> i in ids)
  }

  lemma {:induction false} MembersList(tokens: seq<Token>, family: nat)
    ensures Lists(tokens, family, Members(tokens, family))
  {
    hide Lists;
    if tokens == [] {
      assert Lists(tokens, family, []) by { NothingListed(tokens, family); }
    } else {
      MembersList(tokens[..|tokens| - 1], family);
      ListExtends(tokens, family, Members(tokens[..|tokens| - 1], family));
    }
  }

  lemma NothingListed(tokens: seq<Token>, family: nat)
    requires tokens == []
    ensures Lists(tokens, family, [])
  {
  }

  lemma ListExtends(tokens: seq<Token>, family: nat, ids: seq<nat>)
    requires tokens != [] && Lists(tokens[..|tokens| - 1], family, ids)
    ensures Lists(tokens, family, ids + if tokens[|tokens| - 1].family == family then [|tokens| - 1] else [])
  {
    var n := |tokens| - 1;
    var more := ids + if tokens[n].family == family then [n] else [];
    forall i | 0 <= i < |tokens| && tokens[i].family == family ensures i in more {
      if i < n {
        assert tokens[..n][i].family == family;
        var k :| 0 <= k < |ids| && ids[k] == i;
        assert more[k] == i;
      } else {
        assert more[|ids|] == i;
      }
    }
    assert forall k :: 0 <= k < |ids| ==> more[k] == ids[k] && tokens[..n][ids[k]] == tokens[ids[k]];
  }

  /** Each token of the list is replaced by the next one, the last by none. */
  ghost predicate Linked(tokens: seq<Token>, ids: seq<nat>) {
    forall k :: 0 <= k < |ids| ==> LinkedAt(tokens, ids, k)
  }

  ghost predicate LinkedAt(tokens: seq<Token>, ids: seq<nat>, k: nat)
    requires k < |ids|
  {
    && ids[k] < |tokens|
    && if k + 1 < |ids| then tokens[ids[k]].replacedBy == Some(ids[k + 1]) && tokens[ids[k]].revoked == Some(Rotated)
       else tokens[ids[k]].replacedBy == None
  }

  /**
   In every reachable state each family is one chain: its tokens in order of
   issue, each replaced by the next and revoked as rotated, the last replaced
   by none; so at most one of them, the last, is unrevoked.
   */
  lemma FamiliesAreChains(run: seq<Step>, t: State, family: nat)
    requires Reaches(INITIAL, run, t)
    ensures Lists(t.tokens, family, Members(t.tokens, family)) && Linked(t.tokens, Members(t.tokens, family))
    ensures Unrevoked(t.tokens, family) <= 1
  {
    hide Lists;
    InitiallyInvariant();
    RunKeepsInvariant(INITIAL, run, t);
    MembersList(t.tokens, family);
    ChainLinked(t.tokens, family, Members(t.tokens, family));
    OnlyLastUnrevoked(t.tokens, family);
  }

  lemma ChainLinked(tokens: seq<Token>, family: nat, chain: seq<nat>)
    requires Chained(tokens) && Lists(tokens, family, chain)
    ensures Linked(tokens, chain)
  {
    hide Lists, Chained;
    forall k | 0 <= k < |chain| ensures LinkedAt(tokens, chain, k) {
      SuccessorInChain(tokens, family, chain, k);
    }
  }

  lemma SuccessorInChain(tokens: seq<Token>, family: nat, chain: seq<nat>, k: nat)
    requires Chained(tokens) && Lists(tokens, family, chain) && k < |chain|
    ensures chain[k] < |tokens|
    ensures tokens[chain[k]].replacedBy == if k + 1 < |chain| then Some(chain[k + 1]) else None
    ensures tokens[chain[k]].replacedBy.Some? ==> tokens[chain[k]].revoked == Some(Rotated)
  {
    hide NextOfFamily, LastOfFamily, Lists;
    ListedAt(tokens, family, chain, k);
    var i := chain[k];
    match tokens[i].replacedBy {
      case Some(j) => NextIsListedNext(tokens, family, chain, k, j);
      case None => LastIsListedLast(tokens, family, chain, k);
    }
  }

  lemma ListedAt(tokens: seq<Token>, family: nat, chain: seq<nat>, k: nat)
    requires Lists(tokens, family, chain) && k < |chain|
    ensures chain[k] < |tokens| && tokens[chain[k]].family == family
    ensures k + 1 < |chain| ==> chain[k] < chain[k + 1]
  {
  }

  lemma LastIsListedLast(tokens: seq<Token>, family: nat, chain: seq<nat>, k: nat)
    requires Lists(tokens, family, chain) && k < |chain| && LastOfFamily(tokens, chain[k])
    ensures k + 1 == |chain|
  {
    hide Lists;
    ListedAt(tokens, family, chain, k);
    if k + 1 < |chain| {
      ListedAt(tokens, family, chain, k + 1);
      assert false;
    }
  }

  lemma NextIsListedNext(tokens: seq<Token>, family: nat, chain: seq<nat>, k: nat, j: nat)
    requires Lists(tokens, family, chain) && k < |chain| && NextOfFamily(tokens, chain[k], j)
    ensures k + 1 < |chain| && chain[k + 1] == j
  {
    ListedAt(tokens, family, chain, k);
    assert j in chain;
    var l :| 0 <= l < |chain| && chain[l] == j;
    assert k < l;
    ListedAt(tokens, family, chain, k + 1);
  }

  lemma {:induction false} OnlyLastUnrevoked(tokens: seq<Token>, family: nat)
    requires forall i, j :: 0 <= i < j < |tokens| && tokens[i].family == tokens[j].family ==> tokens[i].revoked.Some?
    ensures Unrevoked(tokens, family) <= 1
    ensures tokens != [] && tokens[|tokens| - 1].family == family ==> Unrevoked(tokens[..|tokens| - 1], family) == 0
  {
    if tokens != [] {
      var n := |tokens| - 1;
      OnlyLastUnrevoked(tokens[..n], family);
      if tokens[n].family == family {
        AllRevokedCount(tokens[..n], family);
      }
    }
  }

  lemma {:induction false} AllRevokedCount(tokens: seq<Token>, family: nat)
    requires forall i :: 0 <= i < |tokens| && tokens[i].family == family ==> tokens[i].revoked.Some?
    ensures Unrevoked(tokens, family) == 0
  {
    if tokens != [] {
      AllRevokedCount(tokens[..|tokens| - 1], family);
    }
  }

  /** Once every token of a family is revoked, none ever comes back, and none is ever issued to it again. */
  lemma {:induction false} DeadFamiliesStayDead(s: State, run: seq<Step>, t: State, family: nat)
    requires Invariant(s) && Dead(s.tokens, family) && Reaches(s, run, t)
    ensures Dead(t.tokens, family)
    ensures |s.tokens| <= |t.tokens| && forall i :: |s.tokens| <= i < |t.tokens| ==> t.tokens[i].family != family
    decreases |run|
  {
    hide Invariant, Next, Enabled, Dead;
    if run != [] {
      var next := Next(s, run[0]);
      StepKeepsInvariant(s, run[0]);
      StepLeavesDead(s, run[0], family);
      DeadFamiliesStayDead(next, run[1..], t, family);
      RunGrows(next, run[1..], t);
    }
  }

  lemma StepLeavesDead(s: State, step: Step, family: nat)
    requires Invariant(s) && Dead(s.tokens, family) && Enabled(s, step)
    ensures Dead(Next(s, step).tokens, family) && |s.tokens| <= |Next(s, step).tokens|
    ensures forall i :: |s.tokens| <= i < |Next(s, step).tokens| ==> Next(s, step).tokens[i].family != family
  {
    hide Chained, RevokeFamily, Dead;
    StepGrows(s, step);
    DeathLasts(s.tokens, Next(s, step).tokens, family);
  }

  /** Whose token it is, its family and its expiry. */
  ghost predicate SameHolder(a: Token, b: Token) {
    a.user == b.user && a.family == b.family && a.expiresAt == b.expiresAt
  }

  lemma {:induction false} RunGrows(s: State, run: seq<Step>, t: State)
    requires Invariant(s) && Reaches(s, run, t)
    ensures |s.tokens| <= |t.tokens| && forall i :: 0 <= i < |s.tokens| ==> SameHolder(s.tokens[i], t.tokens[i])
    decreases |run|
  {
    hide Invariant, Next, Enabled;
    if run != [] {
      StepKeepsInvariant(s, run[0]);
      StepKeepsFamilies(s, run[0]);
      RunGrows(Next(s, run[0]), run[1..], t);
    }
  }

  lemma StepKeepsFamilies(s: State, step: Step)
    requires Invariant(s) && Enabled(s, step)
    ensures var b := Next(s, step).tokens;
      |s.tokens| <= |b| && forall i :: 0 <= i < |s.tokens| ==> SameHolder(s.tokens[i], b[i])
  {
    hide Chained, RevokeFamily, Dead;
    StepGrows(s, step);
  }

  /** A reuse, a lost claim, an inactive user and a log-out each end in a dead family. */
  lemma RevocationKills(s: State, step: Step)
    requires Invariant(s) && Enabled(s, step) && (step.Revoke? || step.LogOut?)
    ensures Dead(Next(s, step).tokens,
      s.tokens[if step.Revoke? then s.presentations[step.p].token else step.token].family)
  {
    hide Chained, Accounted;
    var id := if step.Revoke? then s.presentations[step.p].token else step.token;
    var reason := if step.Revoke? then s.presentations[step.p].stage.reason else LoggedOut;
    RevokeKeepsChain(s.tokens, s.tokens[id].family, reason);
  }

  /** However many presentations of one token run, at most one gets a new token. */
  lemma AtMostOneIssued(run: seq<Step>, t: State, p: nat, q: nat)
    requires Reaches(INITIAL, run, t) && p < |t.presentations| && q < |t.presentations|
    requires Got(t, p) && Got(t, q) && t.presentations[p].token == t.presentations[q].token
    ensures p == q
  {
    InitiallyInvariant();
    RunKeepsInvariant(INITIAL, run, t);
  }

  /** A presentation is reported as reuse only once its family is dead. */
  lemma ReusedOnlyAfterRevocation(run: seq<Step>, t: State, p: nat)
    requires Reaches(INITIAL, run, t) && p < |t.presentations| && t.presentations[p].stage == Done(Reused)
    ensures t.presentations[p].token < |t.tokens| && Dead(t.tokens, t.tokens[t.presentations[p].token].family)
  {
    InitiallyInvariant();
    RunKeepsInvariant(INITIAL, run, t);
  }

  /** A presentation that comes too late: nothing but a reported reuse is left for it. */
  ghost predicate Late(s: State, p: nat) {
    && p < |s.presentations| && s.presentations[p].token < |s.tokens|
    && match s.presentations[p].stage
       case Found => s.tokens[s.presentations[p].token].revoked == Some(Rotated)
       case ToClaim => s.tokens[s.presentations[p].token].revoked.Some?
       case ToRevoke(reason) => reason == ReuseDetected
       case Done(outcome) => outcome == Reused
  }

  /** Its own steps lead on to the revocation and to the report, with the family dead. */
  ghost predicate EndsInReuse(s: State, p: nat) {
    && p < |s.presentations| && s.presentations[p].token < |s.tokens|
    && match s.presentations[p].stage
       case Found => forall now :: MovesTo(s, Read(p, now), p, ToRevoke(ReuseDetected))
       case ToClaim => forall expiresAt :: MovesTo(s, Claim(p, expiresAt), p, ToRevoke(ReuseDetected))
       case ToRevoke(_) => MovesTo(s, Revoke(p), p, Done(Reused))
       case Done(outcome) => outcome == Reused && Dead(s.tokens, s.tokens[s.presentations[p].token].family)
  }

  ghost predicate MovesTo(s: State, step: Step, p: nat, stage: Stage) {
    Enabled(s, step) && At(Next(s, step), p, stage)
  }

  /**
   Once a token is rotated, every other presentation of it, one that has read
   it already as well as one that comes later, is reported as reuse and leaves
   the family dead, whatever happens in between.
   */
  lemma LostRaceKillsFamily(s: State, id: nat, run: seq<Step>, t: State, p: nat)
    requires Invariant(s) && Reaches(s, run, t)
    requires id < |s.tokens| && s.tokens[id].revoked == Some(Rotated)
    requires p < |t.presentations| && t.presentations[p].token == id
    requires p < |s.presentations| ==> s.presentations[p].stage in {Found, ToClaim}
    ensures EndsInReuse(t, p)
  {
    hide Invariant, Reaches, EndsInReuse;
    RunKeepsInvariant(s, run, t);
    PresentedLate(s, id, run, t, p);
    LateEndsInReuse(t, p);
  }

  lemma {:induction false} PresentedLate(s: State, id: nat, run: seq<Step>, t: State, p: nat)
    requires Invariant(s) && Reaches(s, run, t)
    requires id < |s.tokens| && s.tokens[id].revoked == Some(Rotated)
    requires p < |t.presentations| && t.presentations[p].token == id
    requires p < |s.presentations| && s.presentations[p].token == id ==> Late(s, p)
    ensures Late(t, p)
    decreases |run|
  {
    hide Invariant, Next, Enabled, Late;
    if run == [] {
      return;
    }
    StepKeepsInvariant(s, run[0]);
    RevocationStays(s, run[0], id);
    if p < |Next(s, run[0]).presentations| && Next(s, run[0]).presentations[p].token == id {
      StepMakesLate(s, id, run[0], p);
    }
    PresentedLate(Next(s, run[0]), id, run[1..], t, p);
  }

  lemma StepMakesLate(s: State, id: nat, step: Step, p: nat)
    requires Invariant(s) && Enabled(s, step)
    requires id < |s.tokens| && s.tokens[id].revoked == Some(Rotated)
    requires p < |Next(s, step).presentations| && Next(s, step).presentations[p].token == id
    requires p < |s.presentations| && s.presentations[p].token == id ==> Late(s, p)
    ensures Late(Next(s, step), p)
  {
    hide Invariant, Next, Enabled;
    RevocationStays(s, step, id);
    OnlyPresentPresents(s, step, p);
    if p < |s.presentations| {
      StepKeepsLate(s, step, p);
    }
  }

  lemma RevocationStays(s: State, step: Step, id: nat)
    requires Invariant(s) && Enabled(s, step) && id < |s.tokens| && s.tokens[id].revoked.Some?
    ensures id < |Next(s, step).tokens| && Next(s, step).tokens[id].revoked == s.tokens[id].revoked
  {
    hide Chained, Accounted, Next;
    StepGrows(s, step);
  }

  lemma StepKeepsLate(s: State, step: Step, p: nat)
    requires Invariant(s) && Enabled(s, step) && Late(s, p)
    ensures Late(Next(s, step), p)
  {
    hide Invariant, RevokeFamily, Rotate, Issue;
    if s.tokens[s.presentations[p].token].revoked.Some? {
      RevocationStays(s, step, s.presentations[p].token);
    }
    StepKeepsRows(s, step);
  }

  lemma StepKeepsRows(s: State, step: Step)
    requires Enabled(s, step)
    ensures |s.tokens| <= |Next(s, step).tokens|
  {
  }

  /** A step leaves the token of a presentation as it is, and only a new presentation adds one. */
  lemma OnlyPresentPresents(s: State, step: Step, p: nat)
    requires Enabled(s, step) && p < |Next(s, step).presentations|
    ensures p < |s.presentations| ==> Next(s, step).presentations[p].token == s.presentations[p].token
    ensures |s.presentations| <= p ==>
      Next(s, step).presentations[p].stage == Found && Next(s, step).tokens == s.tokens
  {
    hide RevokeFamily, Rotate, Issue;
  }

  lemma LateEndsInReuse(s: State, p: nat)
    requires Invariant(s) && Late(s, p)
    ensures EndsInReuse(s, p)
  {
    hide Chained, Dead;
  }

  // ------------------------------------------------------------ Who gets a token

  /** The unrevoked tokens of the family are revoked for this reason, and nothing else changes. */
  ghost predicate RevokesFamily(a: seq<Token>, b: seq<Token>, family: nat, reason: Reason) {
    && |a| == |b|
    && forall i :: 0 <= i < |a| ==>
        b[i] == if a[i].family == family && a[i].revoked == None then a[i].(revoked := Some(reason)) else a[i]
  }

  /** The read goes on to the claim iff the token is unrevoked and has not expired, and detects a rotated one. */
  lemma ReadDecides(s: State, p: nat, now: int)
    requires Enabled(s, Read(p, now))
    ensures var t, after := s.tokens[s.presentations[p].token], Next(s, Read(p, now));
      var stage := after.presentations[p].stage;
      && after.tokens == s.tokens
      && (stage == ToClaim <==> t.revoked == None && now < t.expiresAt)
      && (stage == ToRevoke(ReuseDetected) <==> t.revoked == Some(Rotated))
      && (stage == ToClaim || stage == ToRevoke(ReuseDetected) || stage == Done(Invalid))
  {
  }

  /**
   The claim issues a token iff its own is still unrevoked and the user is
   active: to the same user and family, with the expiry given.
   */
  lemma ClaimDecides(s: State, p: nat, expiresAt: int)
    requires Enabled(s, Claim(p, expiresAt))
    ensures var id, n := s.presentations[p].token, |s.tokens|;
      var t, after := s.tokens[id], Next(s, Claim(p, expiresAt));
      var stage := after.presentations[p].stage;
      && (t.revoked == None && t.user !in s.inactive ==>
          && stage == Done(Issued(n))
          && after.tokens == s.tokens[id := t.(revoked := Some(Rotated), replacedBy := Some(n))]
            + [Token(t.user, t.family, expiresAt, None, None)])
      && (t.revoked == None && t.user in s.inactive ==>
          stage == ToRevoke(UserInactive) && after.tokens == s.tokens[id := t.(revoked := Some(Rotated))])
      && (t.revoked.Some? ==> stage == ToRevoke(ReuseDetected) && after.tokens == s.tokens)
  {
  }

  /** A revocation and a log-out touch no other family, and say why. */
  lemma RevocationTouchesFamily(s: State, step: Step)
    requires Enabled(s, step) && (step.Revoke? || step.LogOut?)
    ensures var id := if step.Revoke? then s.presentations[step.p].token else step.token;
      var reason := if step.Revoke? then s.presentations[step.p].stage.reason else LoggedOut;
      && RevokesFamily(s.tokens, Next(s, step).tokens, s.tokens[id].family, reason)
      && (step.Revoke? ==>
          Next(s, step).presentations[step.p].stage == Done(if reason == ReuseDetected then Reused else Invalid))
  {
  }

  /** A presentation that will not be issued a token any more. */
  ghost predicate Refused(s: State, p: nat) {
    p < |s.presentations| && (s.presentations[p].stage.ToRevoke? || (s.presentations[p].stage.Done? && !Got(s, p)))
  }

  lemma {:induction false} RefusedForGood(s: State, run: seq<Step>, t: State, p: nat)
    requires Refused(s, p) && Reaches(s, run, t)
    ensures Refused(t, p)
    decreases |run|
  {
    hide Next, Enabled, Refused;
    if run != [] {
      StaysRefused(s, run[0], p);
      RefusedForGood(Next(s, run[0]), run[1..], t, p);
    }
  }

  lemma StaysRefused(s: State, step: Step, p: nat)
    requires Refused(s, p) && Enabled(s, step)
    ensures Refused(Next(s, step), p)
  {
    hide RevokeFamily, Rotate, Issue;
  }

  /** Read when it had expired, or claimed while its user was inactive, a token is never exchanged. */
  lemma ExpiredOrInactiveNeverIssued(s: State, step: Step, run: seq<Step>, t: State)
    requires (step.Read? || step.Claim?) && Enabled(s, step) && Reaches(Next(s, step), run, t)
    requires var token := s.tokens[s.presentations[step.p].token];
      if step.Read? then token.expiresAt <= step.now else token.user in s.inactive
    ensures step.p < |t.presentations| && !Got(t, step.p)
  {
    hide Rotate;
    RefusedForGood(Next(s, step), run, t, step.p);
  }

  /**
   Every token that is issued was earned: the presentation read its token
   unrevoked and not expired, later claimed it still unrevoked and with the user
   active, and what it got is a token of the same user and family with the
   expiry of that claim.
   */
  lemma {:induction false} IssuedWasEarned(run: seq<Step>, t: State, p: nat)
    returns (k: nat, u: State, l: nat, v: State)
    requires Reaches(INITIAL, run, t) && p < |t.presentations| && Got(t, p)
    ensures k < l < |run| && Reaches(INITIAL, run[..k], u) && Reaches(INITIAL, run[..l], v)
    ensures ReadGood(u, run[k], p) && ClaimedGood(v, run[l], p)
    ensures var id, n := t.presentations[p].token, t.presentations[p].stage.outcome.token;
      && u.presentations[p].token == v.presentations[p].token == id && id < |t.tokens|
      && n == |v.tokens| && n < |t.tokens|
      && t.tokens[n].user == t.tokens[id].user && t.tokens[n].family == t.tokens[id].family
      && t.tokens[n].expiresAt == run[l].expiresAt
  {
    InitiallyInvariant();
    k, u, l, v := FindsRead(INITIAL, run, t, p);
  }

  ghost predicate ReadGood(u: State, step: Step, p: nat) {
    && step.Read? && step.p == p && Enabled(u, step)
    && var token := u.tokens[u.presentations[p].token];
      token.revoked == None && step.now < token.expiresAt
  }

  ghost predicate ClaimedGood(v: State, step: Step, p: nat) {
    && step.Claim? && step.p == p && Enabled(v, step)
    && var token := v.tokens[v.presentations[p].token];
      token.revoked == None && token.user !in v.inactive
  }

  /** The token that the claim at `v` issued. */
  ghost predicate Earned(t: State, p: nat, v: State, step: Step) {
    && step.Claim? && p < |t.presentations| && p < |v.presentations| && Got(t, p)
    && var id, n := t.presentations[p].token, t.presentations[p].stage.outcome.token;
      && v.presentations[p].token == id && id < |t.tokens| && n == |v.tokens| && n < |t.tokens|
      && t.tokens[n].user == t.tokens[id].user && t.tokens[n].family == t.tokens[id].family
      && t.tokens[n].expiresAt == step.expiresAt
  }

  lemma {:induction false} FindsClaim(s: State, run: seq<Step>, t: State, p: nat) returns (l: nat, v: State)
    requires Invariant(s) && Reaches(s, run, t) && At(s, p, ToClaim) && p < |t.presentations| && Got(t, p)
    ensures l < |run| && Reaches(s, run[..l], v) && ClaimedGood(v, run[l], p) && Earned(t, p, v, run[l])
    ensures v.presentations[p].token == s.presentations[p].token
    decreases |run|
  {
    hide Invariant, Next, Enabled, ClaimedGood, Earned;
    var next := Next(s, run[0]);
    StepKeepsInvariant(s, run[0]);
    if run[0].Claim? && run[0].p == p {
      if Refused(next, p) {
        RefusedForGood(next, run[1..], t, p);
        assert false;
      }
      ClaimEarns(s, run[0], run[1..], t, p);
      l, v := 0, s;
      assert run[..0] == [];
    } else {
      OthersWait(s, run[0], p);
      l, v := FindsClaim(next, run[1..], t, p);
      l := l + 1;
      assert run[..l][1..] == run[1..][..l - 1];
    }
  }

  /** The step before anything has become of the read. */
  lemma {:induction false} FindsRead(s: State, run: seq<Step>, t: State, p: nat)
    returns (k: nat, u: State, l: nat, v: State)
    requires Invariant(s) && Reaches(s, run, t) && p < |t.presentations| && Got(t, p)
    requires p < |s.presentations| ==> s.presentations[p].stage == Found
    ensures k < l < |run| && Reaches(s, run[..k], u) && Reaches(s, run[..l], v)
    ensures ReadGood(u, run[k], p) && ClaimedGood(v, run[l], p) && Earned(t, p, v, run[l])
    ensures p < |u.presentations| && u.presentations[p].token == v.presentations[p].token
    decreases |run|
  {
    hide Invariant, Next, Enabled, ReadGood, ClaimedGood, Earned;
    var next := Next(s, run[0]);
    StepKeepsInvariant(s, run[0]);
    if run[0].Read? && run[0].p == p {
      if Refused(next, p) {
        RefusedForGood(next, run[1..], t, p);
        assert false;
      }
      ReadEarns(s, run[0], p);
      k, u := 0, s;
      l, v := FindsClaim(next, run[1..], t, p);
      assert run[..0] == [];
    } else {
      OthersWait(s, run[0], p);
      k, u, l, v := FindsRead(next, run[1..], t, p);
      k := k + 1;
      assert run[..k][1..] == run[1..][..k - 1];
    }
    l := l + 1;
    assert run[..l][1..] == run[1..][..l - 1];
  }

  lemma ReadEarns(s: State, step: Step, p: nat)
    requires step.Read? && step.p == p && Enabled(s, step) && !Refused(Next(s, step), p)
    ensures ReadGood(s, step, p) && At(Next(s, step), p, ToClaim)
    ensures p < |s.presentations| && Next(s, step).presentations[p].token == s.presentations[p].token
  {
  }

  /** Only its own steps move a presentation. */
  lemma OthersWait(s: State, step: Step, p: nat)
    requires Enabled(s, step)
    requires p < |s.presentations| ==> s.presentations[p].stage == Found || s.presentations[p].stage == ToClaim
    requires p < |s.presentations| ==>
      && (step.Read? && step.p == p ==> s.presentations[p].stage != Found)
      && (step.Claim? && step.p == p ==> s.presentations[p].stage != ToClaim)
    ensures p < |s.presentations| ==>
      p < |Next(s, step).presentations| && Next(s, step).presentations[p] == s.presentations[p]
        && (s.presentations[p].token < |s.tokens| ==> s.presentations[p].token < |Next(s, step).tokens|)
    ensures |s.presentations| <= p < |Next(s, step).presentations| ==> Next(s, step).presentations[p].stage == Found
  {
    hide RevokeFamily, Rotate, Issue;
    StepKeepsRows(s, step);
  }

  lemma {:induction false} DoneStays(s: State, run: seq<Step>, t: State, p: nat)
    requires Reaches(s, run, t) && p < |s.presentations| && s.presentations[p].stage.Done?
    ensures p < |t.presentations| && t.presentations[p] == s.presentations[p]
    decreases |run|
  {
    hide Next, Enabled;
    if run != [] {
      DoneWaits(s, run[0], p);
      DoneStays(Next(s, run[0]), run[1..], t, p);
    }
  }

  lemma DoneWaits(s: State, step: Step, p: nat)
    requires Enabled(s, step) && p < |s.presentations| && s.presentations[p].stage.Done?
    ensures p < |Next(s, step).presentations| && Next(s, step).presentations[p] == s.presentations[p]
  {
    hide RevokeFamily, Rotate, Issue;
  }

  lemma ClaimEarns(s: State, step: Step, run: seq<Step>, t: State, p: nat)
    requires Invariant(s) && step.Claim? && step.p == p && Enabled(s, step)
    requires Reaches(Next(s, step), run, t) && p < |t.presentations| && Got(t, p) && !Refused(Next(s, step), p)
    ensures ClaimedGood(s, step, p) && Earned(t, p, s, step)
  {
    hide Invariant, Next, Reaches;
    StepKeepsInvariant(s, step);
    ClaimDecides(s, p, step.expiresAt);
    ClaimKeepsToken(s, step, p);
    RunGrows(Next(s, step), run, t);
    DoneStays(Next(s, step), run, t, p);
  }

  lemma ClaimKeepsToken(s: State, step: Step, p: nat)
    requires step.Claim? && step.p == p && Enabled(s, step)
    ensures p < |Next(s, step).presentations| && Next(s, step).presentations[p].token == s.presentations[p].token
  {
    hide Rotate;
  }

  // ------------------------------------------------------------ The service

  class AuthStore {
    var tokens: seq<Token>
    var inactive: set<nat>
    ghost var presentations: seq<Presentation>

    ghost function View(): State
      reads this
    {
      State(tokens, inactive, presentations)
    }

    constructor ()
      ensures View() == INITIAL
    {
      tokens, inactive, presentations := [], {}, [];
    }

    method RevokeFamilyOf(family: nat, reason: Reason) returns (count: nat)
      modifies this`tokens
      ensures tokens == RevokeFamily(old(tokens), family, reason)
      ensures |tokens| == |old(tokens)|
      ensures forall i :: 0 <= i < |tokens| ==>
        var before := old(tokens)[i];
        && (before.family == family && before.revoked == None ==> tokens[i] == before.(revoked := Some(reason)))
        && (before.family != family || before.revoked.Some? ==> tokens[i] == before)
      ensures Unrevoked(tokens, family) == 0 && count == Unrevoked(old(tokens), family)
    {
      count := Unrevoked(tokens, family);
      tokens := RevokeFamily(tokens, family, reason);
      AllRevokedCount(tokens, family);
    }

    method SignInUser(user: nat, freshFamily: nat, expiresAt: int) returns (id: nat)
      requires Enabled(View(), SignIn(user, freshFamily, expiresAt))
      modifies this`tokens
      ensures View() == Next(old(View()), SignIn(user, freshFamily, expiresAt)) && id == |old(tokens)|
      ensures tokens == old(tokens) + [Token(user, freshFamily, expiresAt, None, None)]
    {
      id := |tokens|;
      tokens := Issue(tokens, user, freshFamily, expiresAt);
    }

    method Logout(id: nat) returns (audited: bool)
      requires Enabled(View(), LogOut(id))
      modifies this`tokens
      ensures View() == Next(old(View()), LogOut(id))
      ensures RevokesFamily(old(tokens), tokens, old(tokens)[id].family, LoggedOut)
      ensures audited == (0 < Unrevoked(old(tokens), old(tokens)[id].family))
    {
      var revoked := RevokeFamilyOf(tokens[id].family, LoggedOut);
      audited := 0 < revoked;
    }

    /** One presentation with nothing in between. */
    method Refresh(id: nat, now: int, expiresAt: int) returns (o: Outcome)
      requires id < |tokens|
      modifies this`tokens, this`presentations
      ensures View() == Alone(old(View()), id, now, expiresAt)
      ensures Answers(old(View()), id, now, expiresAt, tokens, o)
      ensures presentations == old(presentations) + [Presentation(id, Done(o))]
    {
      AloneAnswers(View(), id, now, expiresAt);
      var stage := Decide(tokens[id], now);
      if stage == ToClaim {
        if tokens[id].revoked.Some? {
          stage := ToRevoke(ReuseDetected);
        } else if tokens[id].user in inactive {
          tokens := tokens[id := tokens[id].(revoked := Some(Rotated))];
          stage := ToRevoke(UserInactive);
        } else {
          var issued := |tokens|;
          tokens := Rotate(tokens, id, expiresAt);
          stage := Done(Issued(issued));
        }
      }
      if stage.ToRevoke? {
        var _ := RevokeFamilyOf(tokens[id].family, stage.reason);
        stage := Done(Verdict(stage.reason));
      }
      o := stage.outcome;
      presentations := presentations + [Presentation(id, stage)];
    }
  }

  /** The steps of one presentation, run without interruption. */
  ghost function AloneSteps(s: State, id: nat, now: int, expiresAt: int): (run: seq<Step>)
    requires id < |s.tokens|
  {
    var p := |s.presentations|;
    var begun := [Present(id), Read(p, now)];
    match Decide(s.tokens[id], now)
    case ToRevoke(_) => begun + [Revoke(p)]
    case ToClaim =>
      if s.tokens[id].user in s.inactive then begun + [Claim(p, expiresAt), Revoke(p)]
      else begun + [Claim(p, expiresAt)]
    case _ => begun
  }

  ghost function Alone(s: State, id: nat, now: int, expiresAt: int): State
    requires id < |s.tokens|
  {
    var stage := Decide(s.tokens[id], now);
    var t := s.tokens[id];
    var (tokens, last) :=
      match stage
      case ToRevoke(reason) => (RevokeFamily(s.tokens, t.family, reason), Done(Verdict(reason)))
      case ToClaim =>
        if t.user in s.inactive
        then (RevokeFamily(s.tokens[id := t.(revoked := Some(Rotated))], t.family, UserInactive), Done(Invalid))
        else (Rotate(s.tokens, id, expiresAt), Done(Issued(|s.tokens|)))
      case _ => (s.tokens, stage);
    State(tokens, s.inactive, s.presentations + [Presentation(id, last)])
  }

  /**
   What a presentation that nothing interrupts comes to: a token if its own is
   unrevoked, not expired, and the user active; reuse if it was rotated; invalid
   otherwise.
   */
  ghost predicate Answers(s: State, id: nat, now: int, expiresAt: int, tokens: seq<Token>, o: Outcome)
    requires id < |s.tokens|
  {
    var t, n := s.tokens[id], |s.tokens|;
    && (o.Issued? <==> t.revoked == None && now < t.expiresAt && t.user !in s.inactive)
    && (o == Reused <==> t.revoked == Some(Rotated))
    && (o.Issued? ==>
        && o.token == n
        && tokens == s.tokens[id := t.(revoked := Some(Rotated), replacedBy := Some(n))]
          + [Token(t.user, t.family, expiresAt, None, None)])
    && (o == Reused ==> RevokesFamily(s.tokens, tokens, t.family, ReuseDetected))
    && (o == Invalid ==>
        if t.revoked == None && now < t.expiresAt
        then RevokesFamily(s.tokens[id := t.(revoked := Some(Rotated))], tokens, t.family, UserInactive)
        else tokens == s.tokens)
  }

  lemma AloneAnswers(s: State, id: nat, now: int, expiresAt: int)
    requires id < |s.tokens|
    ensures var t := Alone(s, id, now, expiresAt);
      && |t.presentations| == |s.presentations| + 1
      && t.presentations[|s.presentations|].stage.Done?
      && Answers(s, id, now, expiresAt, t.tokens, t.presentations[|s.presentations|].stage.outcome)
  {
  }

  ghost function Last(tokens: seq<Token>, inactive: set<nat>, before: seq<Presentation>, id: nat, stage: Stage): State {
    State(tokens, inactive, before + [Presentation(id, stage)])
  }

  lemma LastMoves(tokens: seq<Token>, inactive: set<nat>, before: seq<Presentation>, id: nat, stage: Stage, now: int,
      expiresAt: int)
    requires id < |tokens|
    ensures var s, p := Last(tokens, inactive, before, id, stage), |before|;
      && (stage == Found ==> Next(s, Read(p, now)) == Last(tokens, inactive, before, id, Decide(tokens[id], now)))
      && (stage.ToRevoke? ==>
            Next(s, Revoke(p)) == Last(RevokeFamily(tokens, tokens[id].family, stage.reason), inactive, before, id,
              Done(Verdict(stage.reason))))
      && (stage == ToClaim && tokens[id].revoked == None && tokens[id].user in inactive ==>
            Next(s, Claim(p, expiresAt)) == Last(tokens[id := tokens[id].(revoked := Some(Rotated))], inactive,
              before, id, ToRevoke(UserInactive)))
      && (stage == ToClaim && tokens[id].revoked == None && tokens[id].user !in inactive ==>
            Next(s, Claim(p, expiresAt)) == Last(Rotate(tokens, id, expiresAt), inactive, before, id,
              Done(Issued(|tokens|))))
  {
    hide RevokeFamily, Rotate, Decide;
    var s := Last(tokens, inactive, before, id, stage);
    assert forall x: Stage :: Move(s, |before|, x) == Last(tokens, inactive, before, id, x);
  }

  /** An uninterrupted presentation is one of the runs the theorems are about. */
  lemma AloneIsARun(s: State, id: nat, now: int, expiresAt: int)
    requires id < |s.tokens|
    ensures Reaches(s, AloneSteps(s, id, now, expiresAt), Alone(s, id, now, expiresAt))
  {
    hide RevokeFamily, Rotate, Next, Enabled;
    var p, stage := |s.presentations|, Decide(s.tokens[id], now);
    var s1 := Last(s.tokens, s.inactive, s.presentations, id, Found);
    var s2 := Last(s.tokens, s.inactive, s.presentations, id, stage);
    LastEnables(s, id, now, expiresAt, stage);
    LastMoves(s.tokens, s.inactive, s.presentations, id, Found, now, expiresAt);
    LastMoves(s.tokens, s.inactive, s.presentations, id, stage, now, expiresAt);
    TwoSteps(s, Present(id), Read(p, now));
    var begun := [Present(id), Read(p, now)];
    if stage.ToRevoke? {
      OneStepMore(s, begun, s2, Revoke(p));
    } else if stage == ToClaim {
      OneStepMore(s, begun, s2, Claim(p, expiresAt));
      if s.tokens[id].user in s.inactive {
        var claimed := s.tokens[id := s.tokens[id].(revoked := Some(Rotated))];
        var s3 := Last(claimed, s.inactive, s.presentations, id, ToRevoke(UserInactive));
        LastMoves(claimed, s.inactive, s.presentations, id, ToRevoke(UserInactive), now, expiresAt);
        LastEnables(s.(tokens := claimed), id, now, expiresAt, ToRevoke(UserInactive));
        OneStepMore(s, begun + [Claim(p, expiresAt)], s3, Revoke(p));
        assert begun + [Claim(p, expiresAt)] + [Revoke(p)] == begun + [Claim(p, expiresAt), Revoke(p)];
      }
    }
  }

  lemma LastEnables(s: State, id: nat, now: int, expiresAt: int, stage: Stage)
    requires id < |s.tokens|
    ensures var p := |s.presentations|;
      && Enabled(s, Present(id)) && Next(s, Present(id)) == Last(s.tokens, s.inactive, s.presentations, id, Found)
      && Enabled(Last(s.tokens, s.inactive, s.presentations, id, Found), Read(p, now))
      && (stage.ToRevoke? ==> Enabled(Last(s.tokens, s.inactive, s.presentations, id, stage), Revoke(p)))
      && (stage == ToClaim ==> Enabled(Last(s.tokens, s.inactive, s.presentations, id, stage), Claim(p, expiresAt)))
  {
  }

  lemma {:induction false} OneStepMore(s: State, run: seq<Step>, t: State, step: Step)
    requires Reaches(s, run, t) && Enabled(t, step)
    ensures Reaches(s, run + [step], Next(t, step))
    decreases |run|
  {
    hide Enabled, Next;
    if run == [] {
      assert Reaches(Next(t, step), [], Next(t, step));
      assert [step][1..] == [];
    } else {
      assert (run + [step])[1..] == run[1..] + [step];
      OneStepMore(Next(s, run[0]), run[1..], t, step);
    }
  }

  lemma TwoSteps(s: State, a: Step, b: Step)
    requires Enabled(s, a) && Enabled(Next(s, a), b)
    ensures Reaches(s, [a, b], Next(Next(s, a), b))
  {
    hide Enabled, Next;
    OneStepMore(s, [], s, a);
    OneStepMore(s, [a], Next(s, a), b);
    assert [] + [a] == [a] && [a] + [b] == [a, b];
  }
}
