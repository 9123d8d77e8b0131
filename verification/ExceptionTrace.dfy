/** From a temporary_exception outcome back to the human approvals that allow it. */
module ExceptionTrace {
  import opened Common
  import opened Contract
  import Approvals
  import Enforcement
  import Pipeline
  import Risk

  /** g is an active grant for this agent and principle, and none of its active siblings expires later. */
  ghost predicate LatestGrant(s: Approvals.Store, agent: string, ref: string, now: int, g: Approvals.Grant) {
    && g in s.grants
    && g.agent == agent && g.principleRef == ref && !g.revoked && g.expiresAt > now
    && forall h :: h in s.grants && Approvals.GoodGrant(h, agent, ref, now) ==> h.expiresAt <= g.expiresAt
  }

  lemma LookupGivesLatest(s: Approvals.Store, agent: string, refs: seq<string>, now: int, ref: string)
    returns (g: Approvals.Grant)
    requires ref in refs && ref in Approvals.ActiveExceptions(s, agent, refs, now)
    ensures LatestGrant(s, agent, ref, now, g)
    ensures g.expiresAt == Approvals.ActiveExceptions(s, agent, refs, now)[ref]
  {
    hide Approvals.ActiveExceptions;
    Approvals.LookupExactly(s, agent, refs, now, ref);
    g :| g in s.grants && Approvals.GoodGrant(g, agent, ref, now)
         && g.expiresAt == Approvals.ActiveExceptions(s, agent, refs, now)[ref];
  }

  /** A live grant for a matched deny principle, ratified by a human, that outlasts the decision. */
  ghost predicate Ratified(s: Approvals.Store, agent: string, ref: string, lookupNow: int, now: int, expiresAt: int,
                           g: Approvals.Grant)
  {
    && LatestGrant(s, agent, ref, lookupNow, g)
    && Approvals.Traced(s.requests, g)
    && g.expiresAt > now && g.expiresAt >= expiresAt
  }

  /**
   * A temporary_exception on a fail-closed class, with the approval store behind the lookup, whatever
   * interleaving the store went through: every matched deny principle has an unexpired, unrevoked grant
   * for this agent that stems from an approved request citing it; nothing else matched above allow; and
   * the decision expires at the minimum over the deny principles of the latest of their grants.
   */
  lemma TemporaryExceptionIsRatified(cfg: Pipeline.Config, t: ActionType, a: Pipeline.Answers, f: Pipeline.Faults,
                                     next: nat, events: seq<Approvals.Event>, agent: string, lookupNow: int)
    requires cfg.posture.FailPosture(t) == Closed
    requires cfg.posture.NoMatchFloor(t) != TemporaryException
    requires forall m :: m in a.matched ==> Authorable(m.effect)
    requires a.exceptions == Some(Approvals.ActiveExceptions(
                                    Approvals.Run(Approvals.EMPTY, events).store, agent,
                                    Pipeline.DenyRefs(a.matched), lookupNow))
    ensures var s := Approvals.Run(Approvals.EMPTY, events).store;
            var d := Pipeline.Evaluate(cfg, t, a, f, next).decision;
            d.outcome == TemporaryException ==>
              && d.expiresAt.Some?
              && (forall m :: m in a.matched && m.effect == Deny ==>
                    exists g :: Ratified(s, agent, m.principleRef, lookupNow, a.now, d.expiresAt.value, g))
              && (exists m: MatchedPrinciple, g: Approvals.Grant ::
                    m in a.matched && m.effect == Deny && g.expiresAt == d.expiresAt.value
                    && Ratified(s, agent, m.principleRef, lookupNow, a.now, d.expiresAt.value, g))
              && (forall m :: m in a.matched && m.effect != Deny ==> m.effect == Allow)
  {
    hide Pipeline.Evaluate, Approvals.Run, Approvals.ActiveExceptions;
    Pipeline.TemporaryExceptionIsJustified(cfg, t, a, f, next);
    var d := Pipeline.Evaluate(cfg, t, a, f, next).decision;
    if d.outcome == TemporaryException {
      LiftIsRatified(a, events, agent, lookupNow, d.expiresAt.value);
    }
  }

  lemma LiftIsRatified(a: Pipeline.Answers, events: seq<Approvals.Event>, agent: string, lookupNow: int, expiresAt: int)
    requires a.exceptions == Some(Approvals.ActiveExceptions(
                                    Approvals.Run(Approvals.EMPTY, events).store, agent,
                                    Pipeline.DenyRefs(a.matched), lookupNow))
    requires Pipeline.LiftJustified(a.matched, a.exceptions.value, a.now, expiresAt)
    ensures var s := Approvals.Run(Approvals.EMPTY, events).store;
            && (forall m :: m in a.matched && m.effect == Deny ==>
                  exists g :: Ratified(s, agent, m.principleRef, lookupNow, a.now, expiresAt, g))
            && (exists m: MatchedPrinciple, g: Approvals.Grant ::
                  m in a.matched && m.effect == Deny && g.expiresAt == expiresAt
                  && Ratified(s, agent, m.principleRef, lookupNow, a.now, expiresAt, g))
  {
    hide Approvals.Run, Approvals.ActiveExceptions;
    var s := Approvals.Run(Approvals.EMPTY, events).store;
    var refs := Pipeline.DenyRefs(a.matched);
    Pipeline.DenyRefsAre(a.matched);
    forall m | m in a.matched && m.effect == Deny
      ensures exists g :: Ratified(s, agent, m.principleRef, lookupNow, a.now, expiresAt, g)
                          && g.expiresAt == a.exceptions.value[m.principleRef]
    {
      assert m == MatchedPrinciple(m.principleRef, Deny);
      var g := LookupGivesLatest(s, agent, refs, lookupNow, m.principleRef);
      Approvals.GrantsAreTraced(events, g);
      assert Ratified(s, agent, m.principleRef, lookupNow, a.now, expiresAt, g);
    }
    var m :| m in a.matched && m.effect == Deny && expiresAt == a.exceptions.value[m.principleRef];
    var g :| Ratified(s, agent, m.principleRef, lookupNow, a.now, expiresAt, g)
             && g.expiresAt == a.exceptions.value[m.principleRef];
  }

  /**
   * The converse: once a pending request of the agent that cites every matched deny principle is approved
   * with a grant, those denies lift until the grant ends, whatever happens to the store in between short
   * of a revocation of the grants the approval added.
   */
  lemma GrantLiftsDeny(s: Approvals.System, id: nat, resolver: string, until: int, luck: Approvals.Luck,
                       events: seq<Approvals.Event>, matched: seq<MatchedPrinciple>, lookupNow: int, now: int)
    requires id < |s.store.requests| && s.store.requests[id].status == Approvals.Pending && luck.commits
    requires forall m :: m in matched && m.effect == Deny ==>
               m.principleRef in Approvals.FiredRefs(s.store.requests[id].reasons)
    requires exists m :: m in matched && m.effect == Deny
    requires lookupNow <= now < until
    requires var granted := Approvals.Step(s, Approvals.Resolve(id, true, resolver, Some(until), luck));
             Approvals.NoRevocation(events, |s.store.grants|, |granted.store.grants|)
    ensures var granted := Approvals.Step(s, Approvals.Resolve(id, true, resolver, Some(until), luck));
            var active := Approvals.ActiveExceptions(Approvals.Run(granted, events).store, s.store.requests[id].agent,
                                                     Pipeline.DenyRefs(matched), lookupNow);
            var lifted := Pipeline.Transform(matched, active, now);
            lifted.expiry.Some? && lifted.expiry.value >= until
  {
    hide Approvals.FiredRefs, Approvals.ActiveExceptions, Approvals.Step, Approvals.Run;
    var granted := Approvals.Step(s, Approvals.Resolve(id, true, resolver, Some(until), luck));
    var refs := Pipeline.DenyRefs(matched);
    var store, agent := Approvals.Run(granted, events).store, s.store.requests[id].agent;
    var active := Approvals.ActiveExceptions(store, agent, refs, lookupNow);
    Pipeline.DenyRefsAre(matched);
    var deny :| deny in matched && deny.effect == Deny;
    assert deny == MatchedPrinciple(deny.principleRef, Deny);
    forall r | r in refs ensures r in active && active[r] >= until {
      assert MatchedPrinciple(r, Deny) in matched;
      Approvals.GrantTakesEffect(s, id, resolver, until, luck, events, r, refs, lookupNow);
    }
    var earliest := Pipeline.MinExpiryIsMin(active, refs);
  }

  // ----- which denies can be lifted from inside -----

  /** The effect each principle of the loaded constitution is authored with. */
  type Effects = string -> Outcome

  /** A deny principle; the empty string names none. */
  predicate IsDeny(effects: Effects, ref: string) {
    ref != "" && effects(ref) == Deny
  }

  /**
   * The decision a governed call starts from is the pipeline's, under these effects and with this store
   * behind the exception lookup, made no earlier than `since`.
   */
  ghost predicate Decided(effects: Effects, since: int, s: Approvals.Store, agent: string, d: Decision) {
    exists cfg: Pipeline.Config, t: ActionType, a: Pipeline.Answers, f: Pipeline.Faults, next: nat, now: int ::
      DecidedBy(effects, since, s, agent, d, cfg, t, a, f, next, now)
  }

  ghost predicate DecidedBy(effects: Effects, since: int, s: Approvals.Store, agent: string, d: Decision,
                            cfg: Pipeline.Config, t: ActionType, a: Pipeline.Answers, f: Pipeline.Faults, next: nat,
                            now: int)
  {
    && d == Pipeline.Evaluate(cfg, t, a, f, next).decision
    && (forall m :: m in a.matched ==> m.effect == effects(m.principleRef))
    && (a.exceptions.Some? ==>
          since <= now && a.exceptions.value == Approvals.ActiveExceptions(s, agent, Pipeline.DenyRefs(a.matched), now))
  }

  /** Every request comes from a governed call on a pipeline decision; none is created by hand. */
  ghost predicate GovernedOnly(effects: Effects, since: int, s: Approvals.System, events: seq<Approvals.Event>)
    decreases |events|
  {
    events == [] ||
    (&& !events[0].Park?
     && (events[0].Begin? ==> Decided(effects, since, s.store, events[0].agent, events[0].decision))
     && GovernedOnly(effects, since, Approvals.Step(s, events[0]), events[1..]))
  }

  /** No lookup from `since` on finds a deny principle. */
  ghost predicate NoDenyWaived(effects: Effects, since: int, s: Approvals.Store) {
    forall agent, refs: seq<string>, now, ref ::
      now >= since && ref in Approvals.ActiveExceptions(s, agent, refs, now) ==> !IsDeny(effects, ref)
  }

  /** No grant that is still good at `since` waives a deny principle, and no pending request cites one. */
  ghost predicate NoDenyExposed(effects: Effects, since: int, s: Approvals.Store) {
    && (forall g :: g in s.grants && !g.revoked && g.expiresAt > since ==> !IsDeny(effects, g.principleRef))
    && (forall r, ref :: r in s.requests && r.status == Approvals.Pending && ref in Approvals.FiredRefs(r.reasons) ==>
          !IsDeny(effects, ref))
  }

  lemma LookedUpIsGranted(s: Approvals.Store, agent: string, refs: seq<string>, now: int, ref: string)
    returns (g: Approvals.Grant)
    requires ref in Approvals.ActiveExceptions(s, agent, refs, now)
    ensures g in s.grants && g.principleRef == ref && !g.revoked && g.expiresAt > now
  {
    var active := Approvals.ActiveExceptions(s, agent, refs, now);
    Approvals.ActiveUpToMeans(s.grants, agent, refs, now, |s.grants|);
    var i :| 0 <= i < |s.grants| && Approvals.Supplies(s.grants[i], agent, refs, now, ref, active[ref]);
    g := s.grants[i];
  }

  lemma GrantedIsLookedUp(s: Approvals.Store, g: Approvals.Grant, now: int)
    requires g in s.grants && !g.revoked && g.expiresAt > now
    ensures g.principleRef in Approvals.ActiveExceptions(s, g.agent, [g.principleRef], now)
  {
    Approvals.ActiveUpToMeans(s.grants, g.agent, [g.principleRef], now, |s.grants|);
    var i :| 0 <= i < |s.grants| && s.grants[i] == g;
    assert Approvals.ActiveGrant(s.grants[i], g.agent, [g.principleRef], now);
  }

  lemma NotExposedNotWaived(effects: Effects, since: int, s: Approvals.Store)
    requires NoDenyExposed(effects, since, s)
    ensures NoDenyWaived(effects, since, s)
  {
    hide Approvals.ActiveExceptions, Approvals.FiredRefs;
    forall agent, refs: seq<string>, now, ref | now >= since && ref in Approvals.ActiveExceptions(s, agent, refs, now)
      ensures !IsDeny(effects, ref)
    {
      var g := LookedUpIsGranted(s, agent, refs, now, ref);
    }
  }

  /** A decision parked while no deny principle is exposed cites no deny principle. */
  lemma ParkedCitesNoDeny(effects: Effects, since: int, s: Approvals.Store, agent: string, d: Decision, ref: string)
    requires NoDenyExposed(effects, since, s) && Decided(effects, since, s, agent, d)
    requires d.outcome != Deny && ref in Approvals.FiredRefs(d.reasons)
    ensures !IsDeny(effects, ref)
  {
    hide Pipeline.Evaluate, Approvals.ActiveExceptions;
    var cfg, t, a, f, next, now :| DecidedBy(effects, since, s, agent, d, cfg, t, a, f, next, now);
    NotExposedNotWaived(effects, since, s);
    Approvals.FiredRefsMean(d.reasons, ref);
    var r :| r in d.reasons && r.stage == "policy" && r.principleRef == Some(ref);
    Pipeline.DecisionCitesMatched(cfg, t, a, f, next, r);
    Pipeline.PolicyFloorHolds(cfg, t, a, f, next, MatchedPrinciple(ref, r.effect.value));
  }

  lemma StepExposesNoDeny(effects: Effects, since: int, s: Approvals.System, e: Approvals.Event)
    requires NoDenyExposed(effects, since, s.store) && !e.Park?
    requires e.Begin? ==> Decided(effects, since, s.store, e.agent, e.decision)
    ensures NoDenyExposed(effects, since, Approvals.Step(s, e).store)
  {
    hide Pipeline.Evaluate, Approvals.FiredRefs, Decided;
    var t := Approvals.Step(s, e);
    match e {
      case Begin(agent, d, _, seams, _) =>
        if t.store != s.store {
          assert d.outcome != Deny;
          forall ref | ref in Approvals.FiredRefs(d.reasons) ensures !IsDeny(effects, ref) {
            ParkedCitesNoDeny(effects, since, s.store, agent, d, ref);
          }
        }
      case Resolve(id, approved, resolver, until, luck) =>
        ResolveExposesNoDeny(effects, since, s.store, id, approved, resolver, until, luck);
      case Expire(c, luck) =>
        if c < |s.calls| && s.calls[c].phase.Expired? && s.calls[c].phase.id < |s.store.requests| {
          assert s.store.requests[s.calls[c].phase.id] in s.store.requests;
        }
      case Revoke(k) =>
      case _ =>
    }
  }

  lemma ResolveExposesNoDeny(effects: Effects, since: int, s: Approvals.Store, id: nat, approved: bool,
                             resolver: string, until: Option<int>, luck: Approvals.Luck)
    requires NoDenyExposed(effects, since, s)
    ensures NoDenyExposed(effects, since, Approvals.ResolveStep(s, id, approved, resolver, until, luck).0)
  {
    hide Approvals.FiredRefs;
    if id < |s.requests| {
      assert s.requests[id] in s.requests;
    }
  }

  lemma {:induction false} RunExposesNoDeny(effects: Effects, since: int, s: Approvals.System,
                                            events: seq<Approvals.Event>)
    requires NoDenyExposed(effects, since, s.store) && GovernedOnly(effects, since, s, events)
    ensures NoDenyExposed(effects, since, Approvals.Run(s, events).store)
    decreases |events|
  {
    hide Approvals.Step, NoDenyExposed, Decided;
    if events != [] {
      StepExposesNoDeny(effects, since, s, events[0]);
      RunExposesNoDeny(effects, since, Approvals.Step(s, events[0]), events[1..]);
    }
  }

  /** Whatever happens from here with every request from a governed call, no deny principle is waived. */
  ghost predicate NeverWaived(effects: Effects, since: int, s: Approvals.System) {
    forall events :: GovernedOnly(effects, since, s, events) ==>
                       NoDenyWaived(effects, since, Approvals.Run(s, events).store)
  }

  /**
   * A constitution takes effect at `since` on any store. However calls, resolvers, pollers, deadlines and
   * revocations interleave while every request stems from a governed call, none of its deny principles is
   * ever waived, exactly when none is exposed in the store it starts from: by a grant that is still good,
   * or by a pending request that cites it.
   */
  lemma NoDenyWaivedFromInside(effects: Effects, since: int, s: Approvals.System)
    ensures NeverWaived(effects, since, s) <==> NoDenyExposed(effects, since, s.store)
  {
    hide NoDenyExposed, NoDenyWaived, GovernedOnly, Approvals.Run;
    if NoDenyExposed(effects, since, s.store) {
      forall events | GovernedOnly(effects, since, s, events)
        ensures NoDenyWaived(effects, since, Approvals.Run(s, events).store)
      {
        RunExposesNoDeny(effects, since, s, events);
        NotExposedNotWaived(effects, since, Approvals.Run(s, events).store);
      }
    } else {
      var events := ExposedIsWaived(effects, since, s);
    }
  }

  /** How an exposed deny is waived: at once, or by approving the request that cites it. */
  lemma ExposedIsWaived(effects: Effects, since: int, s: Approvals.System) returns (events: seq<Approvals.Event>)
    requires !NoDenyExposed(effects, since, s.store)
    ensures GovernedOnly(effects, since, s, events)
    ensures !NoDenyWaived(effects, since, Approvals.Run(s, events).store)
  {
    hide Approvals.ActiveExceptions, Approvals.FiredRefs, Approvals.ResolveStep;
    if g :| g in s.store.grants && !g.revoked && g.expiresAt > since && IsDeny(effects, g.principleRef) {
      events := [];
      GrantedIsLookedUp(s.store, g, since);
    } else {
      var r, ref :| r in s.store.requests && r.status == Approvals.Pending
                    && ref in Approvals.FiredRefs(r.reasons) && IsDeny(effects, ref);
      var id :| 0 <= id < |s.store.requests| && s.store.requests[id] == r;
      var approve := Approvals.Resolve(id, true, "operator", Some(since + 1), Approvals.Luck(true, 0));
      events := [approve];
      assert Approvals.Run(s, events) == Approvals.Run(Approvals.Step(s, approve), []);
      Approvals.GrantTakesEffect(s, id, "operator", since + 1, Approvals.Luck(true, 0), [], ref, [ref], since);
    }
  }

  // ----- reloading the constitution -----

  /** A principle becomes a deny that was none. */
  ghost predicate Hardens(effects: Effects, later: Effects) {
    exists ref :: !IsDeny(effects, ref) && IsDeny(later, ref)
  }

  /** After any governed history under `effects`, `later` taking effect leaves its denies unwaived for good. */
  ghost predicate SafeReload(effects: Effects, since: int, later: Effects, at: int) {
    forall events :: GovernedOnly(effects, since, Approvals.EMPTY, events) ==>
                       NeverWaived(later, at, Approvals.Run(Approvals.EMPTY, events))
  }

  lemma SofteningExposesNoDeny(effects: Effects, since: int, later: Effects, at: int, s: Approvals.Store)
    requires NoDenyExposed(effects, since, s) && since <= at && !Hardens(effects, later)
    ensures NoDenyExposed(later, at, s)
  {
    hide Approvals.FiredRefs, IsDeny;
  }

  /**
   * Grants outlive a reload and are keyed by ref. A reload is safe after every governed history exactly
   * when it turns no principle into a deny.
   */
  lemma ReloadSafeExactly(effects: Effects, since: int, later: Effects, at: int)
    requires since <= at
    ensures SafeReload(effects, since, later, at) <==> !Hardens(effects, later)
  {
    hide NeverWaived, GovernedOnly, Approvals.Run, Approvals.ActiveExceptions, Approvals.FiredRefs;
    if Hardens(effects, later) {
      var ref :| !IsDeny(effects, ref) && IsDeny(later, ref);
      var events, g := SofterRefIsGranted(effects, since, ref, at + 1);
      NoDenyWaivedFromInside(later, at, Approvals.Run(Approvals.EMPTY, events));
    } else {
      forall events | GovernedOnly(effects, since, Approvals.EMPTY, events)
        ensures NeverWaived(later, at, Approvals.Run(Approvals.EMPTY, events))
      {
        var s := Approvals.Run(Approvals.EMPTY, events);
        RunExposesNoDeny(effects, since, Approvals.EMPTY, events);
        SofteningExposesNoDeny(effects, since, later, at, s.store);
        NoDenyWaivedFromInside(later, at, s);
      }
    }
  }

  /** What one loaded constitution sees: its effects, when it took effect, and the events until the next reload. */
  datatype Era = Era(effects: Effects, since: int, events: seq<Approvals.Event>)

  ghost function RunEras(s: Approvals.System, eras: seq<Era>): Approvals.System
    decreases |eras|
  {
    if eras == [] then s else RunEras(Approvals.Run(s, eras[0].events), eras[1..])
  }

  ghost predicate GovernedEras(s: Approvals.System, eras: seq<Era>)
    decreases |eras|
  {
    eras == [] ||
    (&& GovernedOnly(eras[0].effects, eras[0].since, s, eras[0].events)
     && GovernedEras(Approvals.Run(s, eras[0].events), eras[1..]))
  }

  /** Reloads happen in time and turn no principle into a deny. */
  ghost predicate NeverHardens(eras: seq<Era>) {
    forall i {:trigger eras[i]} :: 0 < i < |eras| ==>
      eras[i - 1].since <= eras[i].since && !Hardens(eras[i - 1].effects, eras[i].effects)
  }

  /** Over any number of reloads that turn no principle into a deny, governed calls never get a deny waived. */
  lemma {:induction false} ReloadsKeepDenies(s: Approvals.System, eras: seq<Era>)
    requires eras != [] && NoDenyExposed(eras[0].effects, eras[0].since, s.store)
    requires GovernedEras(s, eras) && NeverHardens(eras)
    ensures var last := eras[|eras| - 1]; NoDenyWaived(last.effects, last.since, RunEras(s, eras).store)
    decreases |eras|
  {
    hide NoDenyExposed, NoDenyWaived, GovernedOnly, Hardens, Approvals.Run;
    var era, s' := eras[0], Approvals.Run(s, eras[0].events);
    RunExposesNoDeny(era.effects, era.since, s, era.events);
    if |eras| == 1 {
      NotExposedNotWaived(era.effects, era.since, s'.store);
      assert RunEras(s', eras[1..]) == s';
    } else {
      assert eras[1..][0] == eras[1];
      SofteningExposesNoDeny(era.effects, era.since, eras[1].effects, eras[1].since, s'.store);
      assert NeverHardens(eras[1..]) by {
        forall i | 0 < i < |eras[1..]|
          ensures eras[1..][i - 1].since <= eras[1..][i].since
          ensures !Hardens(eras[1..][i - 1].effects, eras[1..][i].effects)
        {
          assert eras[1..][i] == eras[i + 1];
        }
      }
      ReloadsKeepDenies(s', eras[1..]);
    }
  }

  const CALM: Pipeline.Config := Pipeline.Config(PostureMap({}, map[]), Thresholds(0.5, 1.0, 0.0))
  const HARDENED: Pipeline.Config := Pipeline.Config(PostureMap({}, map[]), Thresholds(0.0, 1.0, 1.0))

  function Matching(m: MatchedPrinciple, exceptions: Option<map<string, int>>, now: int): Pipeline.Answers {
    Pipeline.Answers(None, Pipeline.Identity(true, 1.0), [m], None, exceptions, now, [], [], [])
  }

  /** Low trust turns any effect short of deny into require_approval, and the request cites the principle. */
  lemma SofterRefIsParked(effects: Effects, since: int, s: Approvals.Store, agent: string, ref: string)
    returns (d: Decision)
    requires ref != "" && !IsDeny(effects, ref)
    ensures Decided(effects, since, s, agent, d) && d.outcome == RequireApproval
    ensures ref in Approvals.FiredRefs(d.reasons)
  {
    hide Pipeline.Evaluate, Pipeline.Transform, Approvals.FiredRefs, Approvals.ActiveExceptions;
    var m := MatchedPrinciple(ref, effects(ref));
    var a := Matching(m, None, since);
    d := Pipeline.Evaluate(HARDENED, ToolCall, a, Pipeline.NO_FAULTS, 0).decision;
    assert DecidedBy(effects, since, s, agent, d, HARDENED, ToolCall, a, Pipeline.NO_FAULTS, 0, since);
    assert SelectFloor(a.matched) == Some(m.effect);
    assert Risk.AssessRisk([], [], []) == 0.0;
    Pipeline.FailureFreeOutcome(HARDENED, ToolCall, a, 0);
    Pipeline.UnmatchedRefExactly(HARDENED, ToolCall, a, 0);
    assert m in a.matched;
    Approvals.FiredRefsMean(d.reasons, ref);
  }

  /** A principle short of a deny comes by a grant through a governed call, parked and approved. */
  lemma SofterRefIsGranted(effects: Effects, since: int, ref: string, until: int)
    returns (events: seq<Approvals.Event>, g: Approvals.Grant)
    requires ref != "" && !IsDeny(effects, ref)
    ensures GovernedOnly(effects, since, Approvals.EMPTY, events)
    ensures g in Approvals.Run(Approvals.EMPTY, events).store.grants
    ensures g.principleRef == ref && !g.revoked && g.expiresAt == until
  {
    hide Decided, Pipeline.Evaluate, Approvals.FiredRefs;
    var d := SofterRefIsParked(effects, since, Approvals.EMPTY.store, "agent", ref);
    var seams := Enforcement.Seams(false, false, true, false, false, Some(true));
    var begin := Approvals.Begin("agent", d, false, seams, true);
    var approve := Approvals.Resolve(0, true, "operator", Some(until), Approvals.Luck(true, 0));
    events := [begin, approve];
    var parked := Approvals.Step(Approvals.EMPTY, begin);
    assert parked.store.requests == [Approvals.Request("agent", d.reasons, Approvals.Pending, None)];
    var granted := Approvals.Step(parked, approve);
    assert events[1..] == [approve] && [approve][1..] == [];
    assert GovernedOnly(effects, since, granted, []);
    assert GovernedOnly(effects, since, parked, [approve]);
    assert Approvals.Run(granted, []) == granted;
    assert Approvals.Run(Approvals.EMPTY, events) == Approvals.Run(parked, [approve]) == granted;
    var i :| 0 <= i < |Approvals.FiredRefs(d.reasons)| && Approvals.FiredRefs(d.reasons)[i] == ref;
    g := granted.store.grants[i];
  }

  /**
   * What that means for a decision: a principle granted while it was short of a deny, reloaded as a deny,
   * comes back temporary_exception although the request behind the grant never cited a deny.
   */
  lemma HardenedDenyIsExcepted(effects: Effects, since: int, later: Effects, at: int, ref: string)
    returns (events: seq<Approvals.Event>, agent: string)
    requires !IsDeny(effects, ref) && IsDeny(later, ref)
    ensures GovernedOnly(effects, since, Approvals.EMPTY, events)
    ensures var s := Approvals.Run(Approvals.EMPTY, events).store;
            var active := Approvals.ActiveExceptions(s, agent, [ref], at);
            var a := Matching(MatchedPrinciple(ref, later(ref)), Some(active), at);
            Pipeline.Evaluate(CALM, ToolCall, a, Pipeline.NO_FAULTS, 0).decision.outcome == TemporaryException
  {
    hide Pipeline.Evaluate, Approvals.ActiveExceptions, Approvals.FiredRefs, Approvals.Run, GovernedOnly;
    var g;
    events, g := SofterRefIsGranted(effects, since, ref, at + 1);
    agent := g.agent;
    var s := Approvals.Run(Approvals.EMPTY, events).store;
    GrantedIsLookedUp(s, g, at);
    var latest := LookupGivesLatest(s, agent, [ref], at, ref);
    var a := Matching(MatchedPrinciple(ref, Deny), Some(Approvals.ActiveExceptions(s, agent, [ref], at)), at);
    assert SelectFloor(a.matched) == Some(Deny);
    assert Pipeline.DenyRefs(a.matched) == [ref];
    assert Pipeline.NonDeny(a.matched) == [];
    assert Risk.AssessRisk([], [], []) == 0.0;
    Pipeline.FailureFreeOutcome(CALM, ToolCall, a, 0);
  }
}
