/** ApprovalStore, its coordinator and the governed calls waiting on it, under every interleaving. */
module Approvals {
  import opened Common
  import opened Contract
  import opened Enforcement

  datatype Status = Pending | Approved | Denied | TimedOut

  datatype Request = Request(agent: string, reasons: seq<Reason>, status: Status, resolver: Option<string>)

  datatype Grant = Grant(agent: string, principleRef: string, grantedBy: string, approvalId: nat,
                         expiresAt: int, revoked: bool)

  datatype LifecycleEvent =
    | ApprovalResolved(id: nat, approved: bool)
    | ApprovalTimedOut(id: nat)
    | ExceptionGranted(id: nat, principleRef: string)

  datatype Store = Store(requests: seq<Request>, grants: seq<Grant>, log: seq<LifecycleEvent>)

  datatype StoreError = BadArguments | UnknownId | AlreadyResolved | CommitError | AuditError

  /** Whether the session commits, and how many of the audit events that follow are written before one raises. */
  datatype Luck = Luck(commits: bool, written: nat)

  /** Distinct fired-principle refs from the parked reasons, in order. */
  function FiredRefs(reasons: seq<Reason>): seq<string> {
    if reasons == [] then []
    else
      var refs, r := FiredRefs(reasons[..|reasons| - 1]), reasons[|reasons| - 1];
      if r.stage == "policy" && r.principleRef.Some? && r.principleRef.value != "" && r.principleRef.value !in refs
      then refs + [r.principleRef.value] else refs
  }

  function GrantsFor(req: Request, id: nat, resolver: string, until: int): seq<Grant> {
    var refs := FiredRefs(req.reasons);
    seq(|refs|, i requires 0 <= i < |refs| => Grant(req.agent, refs[i], resolver, id, until, false))
  }

  function ResolutionEvents(id: nat, approved: bool, granted: seq<Grant>): seq<LifecycleEvent> {
    [ApprovalResolved(id, approved)] +
    seq(|granted|, i requires 0 <= i < |granted| => ExceptionGranted(id, granted[i].principleRef))
  }

  function Prefix<T>(s: seq<T>, n: nat): seq<T> {
    if n <= |s| then s[..n] else s
  }

  /** ApprovalStore.resolve: one session block, then its audit events. */
  function ResolveStep(s: Store, id: nat, approved: bool, resolver: string, until: Option<int>, luck: Luck)
    : (Store, Result<Status, StoreError>)
  {
    if until.Some? && !approved then (s, Err(BadArguments))
    else if id >= |s.requests| then (s, Err(UnknownId))
    else if s.requests[id].status != Pending then (s, Err(AlreadyResolved))
    else if !luck.commits then (s, Err(CommitError))
    else
      var status := if approved then Approved else Denied;
      var req := s.requests[id].(status := status, resolver := Some(resolver));
      var granted := if until.Some? then GrantsFor(req, id, resolver, until.value) else [];
      var events := ResolutionEvents(id, approved, granted);
      (Store(s.requests[id := req], s.grants + granted, s.log + Prefix(events, luck.written)),
       if luck.written < |events| then Err(AuditError) else Ok(status))
  }

  /** _mark_timed_out: a racing resolve wins. None is the answer of a row this call timed out itself. */
  function TimeOutStep(s: Store, id: nat, luck: Luck): (Store, Result<Option<Status>, StoreError>)
    requires id < |s.requests|
  {
    if s.requests[id].status != Pending then (s, Ok(Some(s.requests[id].status)))
    else if !luck.commits then (s, Err(CommitError))
    else
      var requests := s.requests[id := s.requests[id].(status := TimedOut)];
      (Store(requests, s.grants, s.log + Prefix([ApprovalTimedOut(id)], luck.written)),
       if luck.written < 1 then Err(AuditError) else Ok(None))
  }

  function RevokeStep(s: Store, k: nat): (Store, Result<(), StoreError>) {
    if k >= |s.grants| then (s, Err(UnknownId))
    else (s.(grants := s.grants[k := s.grants[k].(revoked := true)]), Ok(()))
  }

  predicate ActiveGrant(g: Grant, agent: string, refs: seq<string>, now: int) {
    g.agent == agent && g.principleRef in refs && !g.revoked && g.expiresAt > now
  }

  /** active_exceptions over the first n grant rows: the latest expiry per ref. */
  function ActiveUpTo(grants: seq<Grant>, agent: string, refs: seq<string>, now: int, n: nat): map<string, int>
    requires n <= |grants|
  {
    if n == 0 then map[]
    else
      var active, g := ActiveUpTo(grants, agent, refs, now, n - 1), grants[n - 1];
      if ActiveGrant(g, agent, refs, now) &&
         (g.principleRef !in active || g.expiresAt > active[g.principleRef])
      then active[g.principleRef := g.expiresAt] else active
  }

  function ActiveExceptions(s: Store, agent: string, refs: seq<string>, now: int): map<string, int> {
    ActiveUpTo(s.grants, agent, refs, now, |s.grants|)
  }

  class ApprovalStore {
    var requests: seq<Request>
    var grants: seq<Grant>
    var log: seq<LifecycleEvent>

    ghost function Contents(): Store
      reads this
    {
      Store(requests, grants, log)
    }

    constructor ()
      ensures Contents() == Store([], [], [])
    {
      requests, grants, log := [], [], [];
    }

    /** A request whose payload the redactor refuses, or whose insert fails, leaves no row. */
    method Create(agent: string, reasons: seq<Reason>, accepted: bool) returns (id: Option<nat>)
      modifies this
      ensures !accepted ==> id == None && Contents() == old(Contents())
      ensures accepted ==>
                && id == Some(|old(requests)|)
                && Contents() == old(Contents()).(requests := old(requests) + [Request(agent, reasons, Pending, None)])
    {
      if !accepted {
        return None;
      }
      id := Some(|requests|);
      requests := requests + [Request(agent, reasons, Pending, None)];
    }

    method Resolve(id: nat, approved: bool, resolver: string, until: Option<int>, luck: Luck)
      returns (r: Result<Status, StoreError>)
      modifies this
      ensures (Contents(), r) == ResolveStep(old(Contents()), id, approved, resolver, until, luck)
      // A pending request takes the status asked for, and nothing else happens to the requests.
      ensures until.Some? && !approved ==> r == Err(BadArguments)
      ensures (until.None? || approved) && id >= |old(requests)| ==> r == Err(UnknownId)
      ensures (until.None? || approved) && id < |old(requests)| && old(requests)[id].status != Pending ==>
                r == Err(AlreadyResolved)
      ensures r.Ok? || r == Err(AuditError) ==>
                && id < |old(requests)| && old(requests)[id].status == Pending && luck.commits
                && requests == old(requests)[id := Request(old(requests)[id].agent, old(requests)[id].reasons,
                                                           if approved then Approved else Denied, Some(resolver))]
      ensures r.Ok? ==> r.value == if approved then Approved else Denied
      ensures r.Err? && r.error != AuditError ==> Contents() == old(Contents())
      ensures until.None? ==> grants == old(grants)
    {
      if until.Some? && !approved {
        return Err(BadArguments);
      }
      if id >= |requests| {
        return Err(UnknownId);
      }
      if requests[id].status != Pending {
        return Err(AlreadyResolved);
      }
      if !luck.commits {
        return Err(CommitError);
      }
      var status := if approved then Approved else Denied;
      var req := requests[id].(status := status, resolver := Some(resolver));
      var granted := if until.Some? then GrantsFor(req, id, resolver, until.value) else [];
      requests := requests[id := req];
      grants := grants + granted;
      var events := ResolutionEvents(id, approved, granted);
      ghost var before := log;
      var n := 0;
      while n < |events| && n < luck.written
        invariant n <= |events| && n <= luck.written
        invariant requests == old(requests)[id := req] && grants == old(grants) + granted
        invariant log == before + events[..n]
      {
        log := log + [events[n]];
        n := n + 1;
      }
      assert events[..n] == Prefix(events, luck.written);
      if n < |events| {
        return Err(AuditError);
      }
      r := Ok(status);
    }

    method MarkTimedOut(id: nat, luck: Luck) returns (r: Result<Option<Status>, StoreError>)
      requires id < |requests|
      modifies this
      ensures (Contents(), r) == TimeOutStep(old(Contents()), id, luck)
      ensures old(requests)[id].status != Pending ==>
                Contents() == old(Contents()) && r == Ok(Some(old(requests)[id].status))
      ensures old(requests)[id].status == Pending && luck.commits ==>
                requests == old(requests)[id := old(requests)[id].(status := TimedOut)]
    {
      if requests[id].status != Pending {
        return Ok(Some(requests[id].status));
      }
      if !luck.commits {
        return Err(CommitError);
      }
      requests := requests[id := requests[id].(status := TimedOut)];
      assert Prefix([ApprovalTimedOut(id)], luck.written) == if luck.written < 1 then [] else [ApprovalTimedOut(id)];
      if luck.written < 1 {
        assert log + [] == log;
        return Err(AuditError);
      }
      log := log + [ApprovalTimedOut(id)];
      r := Ok(None);
    }

    method ActiveFor(agent: string, refs: seq<string>, now: int) returns (active: map<string, int>)
      ensures active == ActiveExceptions(Contents(), agent, refs, now)
    {
      active := map[];
      for n := 0 to |grants|
        invariant active == ActiveUpTo(grants, agent, refs, now, n)
      {
        var g := grants[n];
        if ActiveGrant(g, agent, refs, now) {
          if g.principleRef !in active || g.expiresAt > active[g.principleRef] {
            active := active[g.principleRef := g.expiresAt];
          }
        }
      }
    }

    method Revoke(k: nat) returns (r: Result<(), StoreError>)
      modifies this
      ensures (Contents(), r) == RevokeStep(old(Contents()), k)
    {
      if k >= |grants| {
        return Err(UnknownId);
      }
      grants := grants[k := grants[k].(revoked := true)];
      r := Ok(());
    }
  }

  /** An active grant for r that expires at this time. */
  predicate Supplies(g: Grant, agent: string, refs: seq<string>, now: int, r: string, expiry: int) {
    ActiveGrant(g, agent, refs, now) && g.principleRef == r && g.expiresAt == expiry
  }

  /** The lookup holds exactly the refs with an active grant, each with the latest expiry among them. */
  lemma {:induction false} ActiveUpToMeans(grants: seq<Grant>, agent: string, refs: seq<string>, now: int, n: nat)
    requires n <= |grants|
    ensures var active := ActiveUpTo(grants, agent, refs, now, n);
            && (forall r :: r in active ==>
                  exists i :: 0 <= i < n && Supplies(grants[i], agent, refs, now, r, active[r]))
            && (forall i :: 0 <= i < n && ActiveGrant(grants[i], agent, refs, now) ==>
                  grants[i].principleRef in active && grants[i].expiresAt <= active[grants[i].principleRef])
  {
    if n > 0 {
      ActiveUpToMeans(grants, agent, refs, now, n - 1);
      var before, active := ActiveUpTo(grants, agent, refs, now, n - 1), ActiveUpTo(grants, agent, refs, now, n);
      forall r | r in active ensures exists i :: 0 <= i < n && Supplies(grants[i], agent, refs, now, r, active[r]) {
        if r in before && active[r] == before[r] {
          var i :| 0 <= i < n - 1 && Supplies(grants[i], agent, refs, now, r, before[r]);
        } else {
          assert Supplies(grants[n - 1], agent, refs, now, r, active[r]);
        }
      }
    }
  }

  /** A grant to this agent for this principle, neither revoked nor expired. */
  predicate GoodGrant(g: Grant, agent: string, ref: string, now: int) {
    g.agent == agent && g.principleRef == ref && !g.revoked && now < g.expiresAt
  }

  /** The lookup of one agent: a ref asked for is found exactly if one of its grants is good, with the latest end. */
  lemma LookupExactly(s: Store, agent: string, refs: seq<string>, now: int, ref: string)
    ensures var active := ActiveExceptions(s, agent, refs, now);
            && (ref in active <==> ref in refs && exists g :: g in s.grants && GoodGrant(g, agent, ref, now))
            && (ref in active ==>
                  && (exists g :: g in s.grants && GoodGrant(g, agent, ref, now) && g.expiresAt == active[ref])
                  && (forall g :: g in s.grants && GoodGrant(g, agent, ref, now) ==> g.expiresAt <= active[ref]))
  {
    ActiveUpToMeans(s.grants, agent, refs, now, |s.grants|);
    var active := ActiveExceptions(s, agent, refs, now);
    if ref in active {
      var i :| 0 <= i < |s.grants| && Supplies(s.grants[i], agent, refs, now, ref, active[ref]);
      assert s.grants[i] in s.grants && GoodGrant(s.grants[i], agent, ref, now);
    }
    forall g | ref in refs && g in s.grants && GoodGrant(g, agent, ref, now)
      ensures ref in active && g.expiresAt <= active[ref]
    {
      var i :| 0 <= i < |s.grants| && s.grants[i] == g;
      assert ActiveGrant(s.grants[i], agent, refs, now);
    }
  }

  /** No ref is granted twice by one approval. */
  lemma {:induction false} FiredRefsDistinct(reasons: seq<Reason>)
    ensures forall i, j :: 0 <= i < j < |FiredRefs(reasons)| ==> FiredRefs(reasons)[i] != FiredRefs(reasons)[j]
  {
    if reasons != [] {
      FiredRefsDistinct(reasons[..|reasons| - 1]);
    }
  }

  /** With a working audit a resolution is announced once, and then each grant it issued, in order. */
  lemma ResolutionIsLogged(s: Store, id: nat, approved: bool, resolver: string, until: Option<int>, luck: Luck)
    requires id < |s.requests| && s.requests[id].status == Pending && luck.commits && (until.Some? ==> approved)
    ensures var t, refs := ResolveStep(s, id, approved, resolver, until, luck).0, FiredRefs(s.requests[id].reasons);
            var issued := if until.Some? then |refs| else 0;
            && |t.grants| == |s.grants| + issued && t.grants[..|s.grants|] == s.grants
            && (forall i :: 0 <= i < issued ==>
                  t.grants[|s.grants| + i] ==
                  Grant(s.requests[id].agent, refs[i], resolver, id, until.value, false))
            && (luck.written > issued ==>
                  && |t.log| == |s.log| + 1 + issued && t.log[..|s.log|] == s.log
                  && t.log[|s.log|] == ApprovalResolved(id, approved)
                  && (forall i :: 0 <= i < issued ==> t.log[|s.log| + 1 + i] == ExceptionGranted(id, refs[i])))
            && (luck.written <= issued ==> |t.log| == |s.log| + luck.written)
  {
    hide FiredRefs;
  }

  /** The refs granted are those some policy reason cites. */
  lemma {:induction false} FiredRefsMean(reasons: seq<Reason>, ref: string)
    ensures ref in FiredRefs(reasons) <==>
            ref != "" && exists r :: r in reasons && r.stage == "policy" && r.principleRef == Some(ref)
  {
    if reasons != [] {
      var front, last := reasons[..|reasons| - 1], reasons[|reasons| - 1];
      FiredRefsMean(front, ref);
      assert reasons == front + [last];
    }
  }

  // ----- the interleaved system -----

  /** Where a governed call stands: waiting on its row, past its deadline with the row still pending, or over. */
  datatype Phase = Waiting(id: nat) | Expired(id: nat) | Over

  datatype Call = Call(decision: Decision, failOpen: bool, request: Option<nat>, phase: Phase, runs: nat)

  datatype System = System(store: Store, calls: seq<Call>)

  /** Park is a request created by hand, with no call waiting on it. */
  datatype Event =
    | Begin(agent: string, decision: Decision, failOpen: bool, seams: Seams, accepted: bool)
    | Poll(c: nat, deadlinePassed: bool)
    | Expire(c: nat, luck: Luck)
    | Park(agent: string, reasons: seq<Reason>)
    | Resolve(id: nat, approved: bool, resolver: string, until: Option<int>, luck: Luck)
    | Revoke(k: nat)

  /** The wait is over: the operation runs or the call is refused. */
  function Finish(call: Call, permitted: bool): Call {
    call.(phase := Over, runs := call.runs + (if permitted then 1 else 0))
  }

  /** The synchronous start of a governed call, up to its first wait. */
  function BeginStep(s: System, agent: string, d: Decision, failOpen: bool, seams: Seams, accepted: bool): System {
    var started := Call(d, failOpen, None, Over, 0);
    match Prelude(d, seams).1
    case RunNow => s.(calls := s.calls + [Finish(started, true)])
    case Park =>
      if accepted then
        var id := |s.store.requests|;
        System(s.store.(requests := s.store.requests + [Request(agent, d.reasons, Pending, None)]),
               s.calls + [started.(request := Some(id), phase := Waiting(id))])
      else s.(calls := s.calls + [started])
    case _ => s.(calls := s.calls + [started])
  }

  function Step(s: System, e: Event): System {
    match e
    case Begin(agent, d, failOpen, seams, accepted) => BeginStep(s, agent, d, failOpen, seams, accepted)
    case Poll(c, deadlinePassed) =>
      if c < |s.calls| && s.calls[c].phase.Waiting? && s.calls[c].phase.id < |s.store.requests| then
        var call := s.calls[c];
        var status := s.store.requests[call.phase.id].status;
        if status != Pending then s.(calls := s.calls[c := Finish(call, status == Approved)])
        else if deadlinePassed then s.(calls := s.calls[c := call.(phase := Expired(call.phase.id))])
        else s
      else s
    case Expire(c, luck) =>
      if c < |s.calls| && s.calls[c].phase.Expired? && s.calls[c].phase.id < |s.store.requests| then
        var call := s.calls[c];
        var (store, r) := TimeOutStep(s.store, call.phase.id, luck);
        var permitted := r.Ok? && (if r.value.Some? then r.value.value == Approved else call.failOpen);
        System(store, s.calls[c := Finish(call, permitted)])
      else s
    case Park(agent, reasons) =>
      s.(store := s.store.(requests := s.store.requests + [Request(agent, reasons, Pending, None)]))
    case Resolve(id, approved, resolver, until, luck) =>
      s.(store := ResolveStep(s.store, id, approved, resolver, until, luck).0)
    case Revoke(k) => s.(store := RevokeStep(s.store, k).0)
  }

  function Run(s: System, events: seq<Event>): System
    decreases |events|
  {
    if events == [] then s else Run(Step(s, events[0]), events[1..])
  }

  const EMPTY: System := System(Store([], [], []), [])

  // ----- grants: added by approvals, changed by revocation only -----

  /** From s to t every grant is still there, and at most revoked. */
  ghost predicate OnlyRevoked(s: seq<Grant>, t: seq<Grant>) {
    && |s| <= |t|
    && forall k :: 0 <= k < |s| ==> t[k] == s[k] || t[k] == s[k].(revoked := true)
  }

  /** In every interleaving grants only appear, and change only by a revocation that names them. */
  lemma {:induction false} GrantsOnlyRevoked(s: System, events: seq<Event>)
    ensures var t := Run(s, events);
            && OnlyRevoked(s.store.grants, t.store.grants)
            && forall k: nat :: k < |s.store.grants| && Revoke(k) !in events ==>
                                t.store.grants[k] == s.store.grants[k]
    decreases |events|
  {
    hide FiredRefs, Prefix, Prelude;
    if events != [] {
      assert events == [events[0]] + events[1..];
      GrantsOnlyRevoked(Step(s, events[0]), events[1..]);
    }
  }

  /** Grants that are not active leave the lookup as if they were not there. */
  lemma {:induction false} InactiveGrantIsIgnored(grants: seq<Grant>, k: nat, agent: string, refs: seq<string>,
                                                  now: int, n: nat)
    requires k < n <= |grants| && !ActiveGrant(grants[k], agent, refs, now)
    ensures ActiveUpTo(grants[..k] + grants[k + 1..], agent, refs, now, n - 1) ==
            ActiveUpTo(grants, agent, refs, now, n)
  {
    if n == k + 1 {
      SameGrantsSameLookup(grants[..k] + grants[k + 1..], grants, agent, refs, now, k);
    } else {
      InactiveGrantIsIgnored(grants, k, agent, refs, now, n - 1);
    }
  }

  lemma {:induction false} SameGrantsSameLookup(a: seq<Grant>, b: seq<Grant>, agent: string, refs: seq<string>,
                                                now: int, n: nat)
    requires n <= |a| && n <= |b| && a[..n] == b[..n]
    ensures ActiveUpTo(a, agent, refs, now, n) == ActiveUpTo(b, agent, refs, now, n)
  {
    if n > 0 {
      assert a[n - 1] == a[..n][n - 1] && b[n - 1] == b[..n][n - 1];
      assert a[..n - 1] == a[..n][..n - 1] && b[..n - 1] == b[..n][..n - 1];
      SameGrantsSameLookup(a, b, agent, refs, now, n - 1);
    }
  }

  /** Once revoked, a grant is to every later lookup as if it had never been, in every interleaving. */
  lemma RevokedNeverCounts(s: System, k: nat, events: seq<Event>, agent: string, refs: seq<string>, now: int)
    requires k < |s.store.grants|
    ensures var grants := Run(Step(s, Revoke(k)), events).store.grants;
            && k < |grants|
            && ActiveExceptions(Run(Step(s, Revoke(k)), events).store, agent, refs, now) ==
               ActiveUpTo(grants[..k] + grants[k + 1..], agent, refs, now, |grants| - 1)
  {
    hide Run, ActiveUpTo;
    GrantsOnlyRevoked(Step(s, Revoke(k)), events);
    var grants := Run(Step(s, Revoke(k)), events).store.grants;
    InactiveGrantIsIgnored(grants, k, agent, refs, now, |grants|);
  }

  /** No event revokes a grant at these places. */
  predicate NoRevocation(events: seq<Event>, low: nat, high: nat) {
    forall e :: e in events && e.Revoke? ==> !(low <= e.k < high)
  }

  /**
   * An approval that grants until a later time takes effect, and stays in effect: whatever happens next,
   * short of a revocation of the grants it added, every principle the request cites is in the lookup for
   * its agent, at least until then.
   */
  lemma GrantTakesEffect(s: System, id: nat, resolver: string, until: int, luck: Luck, events: seq<Event>,
                         ref: string, refs: seq<string>, now: int)
    requires id < |s.store.requests| && s.store.requests[id].status == Pending && luck.commits
    requires ref in FiredRefs(s.store.requests[id].reasons) && ref in refs && now < until
    requires var granted := Step(s, Resolve(id, true, resolver, Some(until), luck));
             NoRevocation(events, |s.store.grants|, |granted.store.grants|)
    ensures var t := Run(Step(s, Resolve(id, true, resolver, Some(until), luck)), events).store;
            var active := ActiveExceptions(t, s.store.requests[id].agent, refs, now);
            ref in active && active[ref] >= until
  {
    hide Run, ActiveUpTo, Prefix;
    var resolved := Step(s, Resolve(id, true, resolver, Some(until), luck));
    var req := s.store.requests[id].(status := Approved, resolver := Some(resolver));
    var granted := GrantsFor(req, id, resolver, until);
    var i :| 0 <= i < |FiredRefs(req.reasons)| && FiredRefs(req.reasons)[i] == ref;
    var k := |s.store.grants| + i;
    assert granted[i] == Grant(req.agent, ref, resolver, id, until, false);
    assert resolved.store.grants[k] == granted[i];
    GrantsOnlyRevoked(resolved, events);
    var t := Run(resolved, events).store;
    assert Revoke(k) !in events;
    ActiveUpToMeans(t.grants, req.agent, refs, now, |t.grants|);
    assert ActiveGrant(t.grants[k], req.agent, refs, now);
  }

  // ----- requests: one transition, one event -----

  /** How many lifecycle events the log holds for one request. */
  function Lifecycle(log: seq<LifecycleEvent>, id: nat): nat {
    if log == [] then 0
    else
      var e := log[|log| - 1];
      Lifecycle(log[..|log| - 1], id) + (if !e.ExceptionGranted? && e.id == id then 1 else 0)
  }

  /** The status a lifecycle event announces. */
  function Announced(e: LifecycleEvent): Status {
    match e
    case ApprovalResolved(_, approved) => if approved then Approved else Denied
    case ApprovalTimedOut(_) => TimedOut
    case ExceptionGranted(_, _) => Approved
  }

  /** A grant stems from an approved request of the same agent whose reasons cite the principle. */
  ghost predicate Traced(requests: seq<Request>, g: Grant) {
    && g.approvalId < |requests|
    && var req := requests[g.approvalId];
       req.status == Approved && req.agent == g.agent && req.resolver == Some(g.grantedBy)
       && g.principleRef in FiredRefs(req.reasons)
  }

  ghost predicate StoreInv(s: Store) {
    && (forall g :: g in s.grants ==> Traced(s.requests, g))
    && (forall e :: e in s.log ==> e.id < |s.requests| && s.requests[e.id].status == Announced(e))
    && (forall id: nat ::
          Lifecycle(s.log, id) <= (if id < |s.requests| && s.requests[id].status != Pending then 1 else 0))
  }

  /** With no audit failure: every request that has left pending has its event. */
  ghost predicate Audited(s: Store) {
    forall id :: 0 <= id < |s.requests| && s.requests[id].status != Pending ==> Lifecycle(s.log, id) == 1
  }

  /** From s to t, settled requests stay as they are and no request disappears. */
  ghost predicate Settled(s: Store, t: Store) {
    && |s.requests| <= |t.requests|
    && forall id :: 0 <= id < |s.requests| ==>
         && t.requests[id].agent == s.requests[id].agent && t.requests[id].reasons == s.requests[id].reasons
         && (s.requests[id].status != Pending ==> t.requests[id] == s.requests[id])
  }

  lemma {:induction false} LifecycleAppend(log: seq<LifecycleEvent>, more: seq<LifecycleEvent>, id: nat)
    ensures Lifecycle(log + more, id) == Lifecycle(log, id) + Lifecycle(more, id)
  {
    if more == [] {
      assert log + more == log;
    } else {
      var front := more[..|more| - 1];
      assert (log + more)[..|log + more| - 1] == log + front;
      LifecycleAppend(log, front, id);
    }
  }

  lemma {:induction false} GrantEventsAreNotLifecycle(events: seq<LifecycleEvent>, id: nat)
    requires forall i :: 0 <= i < |events| ==> events[i].ExceptionGranted?
    ensures Lifecycle(events, id) == 0
  {
    if events != [] {
      GrantEventsAreNotLifecycle(events[..|events| - 1], id);
    }
  }

  /** The audit events of a resolution hold exactly one lifecycle event, at their head. */
  lemma ResolutionLifecycle(id: nat, approved: bool, granted: seq<Grant>, n: nat, other: nat)
    ensures Lifecycle(Prefix(ResolutionEvents(id, approved, granted), n), other) ==
            if n > 0 && other == id then 1 else 0
  {
    var events := ResolutionEvents(id, approved, granted);
    var p := Prefix(events, n);
    if n > 0 {
      var head := ApprovalResolved(id, approved);
      assert p == [head] + p[1..];
      LifecycleAppend([head], p[1..], other);
      assert [head][..0] == [];
      assert Lifecycle([head], other) == Lifecycle([], other) + (if id == other then 1 else 0);
      GrantEventsAreNotLifecycle(p[1..], other);
    }
  }

  lemma TracedSurvives(s: Store, t: Store, g: Grant)
    requires Settled(s, t) && Traced(s.requests, g)
    ensures Traced(t.requests, g)
  {
  }

  /** One pending request settles, with the grants and the audit events of its settlement. */
  lemma SettleKeepsInv(s: Store, id: nat, req: Request, granted: seq<Grant>, more: seq<LifecycleEvent>, n: nat)
    requires StoreInv(s) && id < |s.requests| && s.requests[id].status == Pending && req.status != Pending
    requires req.agent == s.requests[id].agent && req.reasons == s.requests[id].reasons
    requires forall g :: g in granted ==> Traced(s.requests[id := req], g)
    requires forall e :: e in more ==> e.id == id && Announced(e) == req.status
    requires n <= 1 && forall other: nat :: Lifecycle(more, other) == if other == id then n else 0
    ensures var t := Store(s.requests[id := req], s.grants + granted, s.log + more);
            StoreInv(t) && Settled(s, t) && (Audited(s) && n == 1 ==> Audited(t))
  {
    hide FiredRefs;
    var t := Store(s.requests[id := req], s.grants + granted, s.log + more);
    assert Settled(s, t);
    forall g | g in t.grants ensures Traced(t.requests, g) {
      if g in s.grants {
        TracedSurvives(s, t, g);
      }
    }
    forall other: nat
      ensures Lifecycle(t.log, other) == Lifecycle(s.log, other) + (if other == id then n else 0)
    {
      LifecycleAppend(s.log, more, other);
    }
  }

  lemma ResolveKeepsInv(s: Store, id: nat, approved: bool, resolver: string, until: Option<int>, luck: Luck)
    requires StoreInv(s)
    ensures var t := ResolveStep(s, id, approved, resolver, until, luck).0;
            StoreInv(t) && Settled(s, t) && (Audited(s) && luck.written > 0 ==> Audited(t))
  {
    if (until.None? || approved) && id < |s.requests| && s.requests[id].status == Pending && luck.commits {
      hide StoreInv, Settled, Audited, Lifecycle, FiredRefs;
      var req := s.requests[id].(status := if approved then Approved else Denied, resolver := Some(resolver));
      var granted := if until.Some? then GrantsFor(req, id, resolver, until.value) else [];
      var more := Prefix(ResolutionEvents(id, approved, granted), luck.written);
      forall other: nat ensures Lifecycle(more, other) == if luck.written > 0 && other == id then 1 else 0 {
        ResolutionLifecycle(id, approved, granted, luck.written, other);
      }
      SettleKeepsInv(s, id, req, granted, more, if luck.written > 0 then 1 else 0);
    }
  }

  lemma TimeOutKeepsInv(s: Store, id: nat, luck: Luck)
    requires StoreInv(s) && id < |s.requests|
    ensures var t := TimeOutStep(s, id, luck).0;
            StoreInv(t) && Settled(s, t) && (Audited(s) && luck.written > 0 ==> Audited(t))
  {
    if s.requests[id].status == Pending && luck.commits {
      var more := Prefix([ApprovalTimedOut(id)], luck.written);
      assert more == if luck.written > 0 then [ApprovalTimedOut(id)] else [];
      assert [ApprovalTimedOut(id)][..0] == [];
      hide StoreInv, Settled, Audited, FiredRefs;
      SettleKeepsInv(s, id, s.requests[id].(status := TimedOut), [], more, if luck.written > 0 then 1 else 0);
      assert s.grants + [] == s.grants;
    }
  }

  lemma RevokeKeepsInv(s: Store, k: nat)
    requires StoreInv(s)
    ensures var t := RevokeStep(s, k).0; StoreInv(t) && Settled(s, t) && (Audited(s) ==> Audited(t))
  {
    var t := RevokeStep(s, k).0;
    forall g | g in t.grants ensures Traced(t.requests, g) {
      if g !in s.grants {
        assert s.grants[k] in s.grants;
      }
    }
  }

  lemma CreateKeepsInv(s: Store, req: Request)
    requires StoreInv(s) && req.status == Pending
    ensures var t := s.(requests := s.requests + [req]);
            StoreInv(t) && Settled(s, t) && (Audited(s) ==> Audited(t))
  {
    var t := s.(requests := s.requests + [req]);
    forall g | g in t.grants ensures Traced(t.requests, g) {
      TracedSurvives(s, t, g);
    }
  }

  // ----- calls: at most one run, and only when permitted -----

  /** What a call may have done so far, given its decision and the row it waits on. */
  ghost predicate CallInv(s: Store, c: Call) {
    && c.runs <= 1
    && (c.phase != Over ==> c.runs == 0)
    && (c.phase.Waiting? || c.phase.Expired? ==> c.request == Some(c.phase.id))
    && (c.request.Some? ==>
          c.request.value < |s.requests| && c.decision.outcome !in EXECUTABLE && c.decision.outcome != Deny)
    && (c.runs == 1 ==>
          || c.decision.outcome in EXECUTABLE
          || (c.request.Some? && c.request.value < |s.requests| &&
              var status := s.requests[c.request.value].status;
              status == Approved || (status == TimedOut && c.failOpen)))
  }

  ghost predicate Inv(s: System) {
    && StoreInv(s.store)
    && forall c :: 0 <= c < |s.calls| ==> CallInv(s.store, s.calls[c])
  }

  lemma CallInvSurvives(s: Store, t: Store, c: Call)
    requires Settled(s, t) && CallInv(s, c)
    ensures CallInv(t, c)
  {
  }

  /** No audit append of this event fails. */
  predicate WorkingAudit(e: Event) {
    match e
    case Resolve(_, _, _, _, luck) => luck.written > 0
    case Expire(_, luck) => luck.written > 0
    case _ => true
  }

  lemma SettledReflexive(s: Store)
    ensures Settled(s, s)
  {
  }

  lemma StoreStep(s: System, e: Event)
    requires Inv(s)
    ensures var t := Step(s, e);
            StoreInv(t.store) && Settled(s.store, t.store) &&
            (Audited(s.store) && WorkingAudit(e) ==> Audited(t.store))
  {
    hide StoreInv, Settled, Audited, ResolveStep, TimeOutStep, RevokeStep;
    SettledReflexive(s.store);
    match e {
      case Begin(agent, d, _, _, _) => CreateKeepsInv(s.store, Request(agent, d.reasons, Pending, None));
      case Park(agent, reasons) => CreateKeepsInv(s.store, Request(agent, reasons, Pending, None));
      case Poll(_, _) =>
      case Expire(c, luck) =>
        if c < |s.calls| && s.calls[c].phase.Expired? && s.calls[c].phase.id < |s.store.requests| {
          TimeOutKeepsInv(s.store, s.calls[c].phase.id, luck);
        }
      case Resolve(id, approved, resolver, until, luck) =>
        ResolveKeepsInv(s.store, id, approved, resolver, until, luck);
      case Revoke(k) => RevokeKeepsInv(s.store, k);
    }
  }

  lemma StepKeepsInv(s: System, e: Event)
    requires Inv(s)
    ensures Inv(Step(s, e))
  {
    hide StoreInv, Settled, Audited;
    StoreStep(s, e);
    var t := Step(s, e);
    forall c | 0 <= c < |t.calls| ensures CallInv(t.store, t.calls[c]) {
      StepKeepsCall(s, e, c);
    }
  }

  lemma StepKeepsCall(s: System, e: Event, c: nat)
    requires Inv(s) && c < |Step(s, e).calls|
    ensures CallInv(Step(s, e).store, Step(s, e).calls[c])
  {
    hide StoreInv, Audited, Lifecycle;
    StoreStep(s, e);
    if c < |s.calls| {
      CallInvSurvives(s.store, Step(s, e).store, s.calls[c]);
    }
  }

  lemma {:induction false} RunKeepsInv(s: System, events: seq<Event>)
    requires Inv(s)
    ensures Inv(Run(s, events))
    decreases |events|
  {
    if events != [] {
      StepKeepsInv(s, events[0]);
      RunKeepsInv(Step(s, events[0]), events[1..]);
    }
  }

  /** In every interleaving, a request that has left pending never changes again. */
  lemma {:induction false} LeavesPendingOnce(s: System, events: seq<Event>)
    requires Inv(s)
    ensures Settled(s.store, Run(s, events).store)
    decreases |events|
  {
    if events != [] {
      StoreStep(s, events[0]);
      StepKeepsInv(s, events[0]);
      LeavesPendingOnce(Step(s, events[0]), events[1..]);
    }
  }

  lemma {:induction false} RunStaysAudited(s: System, events: seq<Event>)
    requires Inv(s) && Audited(s.store) && forall e :: e in events ==> WorkingAudit(e)
    ensures Audited(Run(s, events).store)
    decreases |events|
  {
    if events != [] {
      assert events[0] in events && forall e :: e in events[1..] ==> e in events;
      StoreStep(s, events[0]);
      StepKeepsInv(s, events[0]);
      RunStaysAudited(Step(s, events[0]), events[1..]);
    }
  }

  /**
   * In every interleaving each request has at most one lifecycle event, announcing the status it
   * settled on; with a working audit it has exactly one as soon as it has left pending, and none before.
   */
  lemma OneMatchingEvent(events: seq<Event>, id: nat)
    requires id < |Run(EMPTY, events).store.requests|
    ensures var s := Run(EMPTY, events).store;
            && Lifecycle(s.log, id) <= (if s.requests[id].status == Pending then 0 else 1)
            && (forall e :: e in s.log && e.id == id ==> s.requests[id].status == Announced(e))
            && ((forall e :: e in events ==> WorkingAudit(e)) ==>
                  (Lifecycle(s.log, id) == 1 <==> s.requests[id].status != Pending))
  {
    RunKeepsInv(EMPTY, events);
    if forall e :: e in events ==> WorkingAudit(e) {
      RunStaysAudited(EMPTY, events);
    }
  }

  /**
   * In every interleaving a governed call runs its operation at most once, never on deny, and on a
   * blocking outcome only if its own row was approved, or timed out on a fail-open class.
   */
  lemma RunsOnlyWhenPermitted(events: seq<Event>, c: nat)
    requires c < |Run(EMPTY, events).calls|
    ensures var s := Run(EMPTY, events);
            var call := s.calls[c];
            && call.runs <= 1
            && (call.decision.outcome == Deny ==> call.runs == 0)
            && (call.runs == 1 && call.decision.outcome !in EXECUTABLE ==>
                  && call.request.Some? && call.request.value < |s.store.requests|
                  && var status := s.store.requests[call.request.value].status;
                     status == Approved || (status == TimedOut && call.failOpen))
  {
    RunKeepsInv(EMPTY, events);
    assert CallInv(Run(EMPTY, events).store, Run(EMPTY, events).calls[c]);
  }

  /** Every grant there ever is stems from a human approval of a request that cited its principle. */
  lemma GrantsAreTraced(events: seq<Event>, g: Grant)
    requires g in Run(EMPTY, events).store.grants
    ensures Traced(Run(EMPTY, events).store.requests, g)
  {
    RunKeepsInv(EMPTY, events);
  }
}
