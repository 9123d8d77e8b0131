/** Which event settled a request, issued a grant or ran a call: the approval store read back from its history. */
module ApprovalHistory {
  import opened Common
  import opened Contract
  import opened Enforcement
  import opened Approvals

  lemma {:induction false} RunSplit(s: System, events: seq<Event>, more: seq<Event>)
    ensures Run(s, events + more) == Run(Run(s, events), more)
    decreases |events|
  {
    hide Step;
    if events == [] {
      assert events + more == more;
    } else {
      assert (events + more)[1..] == events[1..] + more;
      RunSplit(Step(s, events[0]), events[1..], more);
    }
  }

  /** The system before event i of a history. */
  function Before(events: seq<Event>, i: nat): System
    requires i <= |events|
  {
    Run(EMPTY, events[..i])
  }

  lemma BeforeNext(events: seq<Event>, i: nat)
    requires i < |events|
    ensures Before(events, i + 1) == Step(Before(events, i), events[i])
  {
    hide Step;
    assert events[..i + 1] == events[..i] + [events[i]];
    RunSplit(EMPTY, events[..i], [events[i]]);
    assert [events[i]][1..] == [];
  }

  lemma BeforeGrows(events: seq<Event>, i: nat, j: nat)
    requires i <= j <= |events|
    ensures Inv(Before(events, i)) && Settled(Before(events, i).store, Before(events, j).store)
    ensures OnlyRevoked(Before(events, i).store.grants, Before(events, j).store.grants)
  {
    hide Inv, Settled, OnlyRevoked, Run;
    RunKeepsInv(EMPTY, events[..i]);
    LeavesPendingOnce(Before(events, i), events[i..j]);
    GrantsOnlyRevoked(Before(events, i), events[i..j]);
    assert events[..j] == events[..i] + events[i..j];
    RunSplit(EMPTY, events[..i], events[i..j]);
  }

  // ----- who settled a request -----

  /** A resolution of this request, one way or the other, that is well-formed and commits. */
  predicate Resolves(e: Event, id: nat, approved: bool) {
    && e.Resolve? && e.id == id && e.approved == approved
    && (e.until.Some? ==> approved) && e.luck.commits
  }

  /** A call past its deadline times this request out, and commits. */
  predicate TimesOut(s: System, e: Event, id: nat) {
    && e.Expire? && e.c < |s.calls| && s.calls[e.c].phase == Expired(id) && e.luck.commits
  }

  predicate IsPending(s: System, id: nat) {
    id < |s.store.requests| && s.store.requests[id].status == Pending
  }

  /** Event i finds the request pending and gives it this status. */
  ghost predicate Settles(events: seq<Event>, i: nat, id: nat, status: Status)
    requires i < |events|
  {
    var s := Before(events, i);
    && IsPending(s, id)
    && match status
       case Approved => Resolves(events[i], id, true)
       case Denied => Resolves(events[i], id, false)
       case TimedOut => TimesOut(s, events[i], id)
       case Pending => false
  }

  lemma StepSettles(s: System, e: Event, id: nat, status: Status)
    requires id < |Step(s, e).store.requests| && status != Pending
    ensures Step(s, e).store.requests[id].status == status <==>
            || (id < |s.store.requests| && s.store.requests[id].status == status)
            || (IsPending(s, id) &&
                match status
                case Approved => Resolves(e, id, true)
                case Denied => Resolves(e, id, false)
                case TimedOut => TimesOut(s, e, id)
                case Pending => false)
  {
    hide Prelude, FiredRefs, GrantsFor, ResolutionEvents, Prefix;
  }

  /**
   * In every interleaving: a request is approved exactly if some committed resolution that said approve found
   * it pending, denied exactly if one that said deny did, and timed out exactly if a call past its deadline
   * did. Whichever came first stands for good.
   */
  lemma {:induction false} StatusStems(events: seq<Event>, id: nat, status: Status, n: nat)
    requires n <= |events| && id < |Before(events, n).store.requests| && status != Pending
    ensures Before(events, n).store.requests[id].status == status <==>
            exists i :: 0 <= i < n && Settles(events, i, id, status)
  {
    hide Step, Run, Settles;
    if n == 0 {
      NothingYet(events);
    } else {
      var s := Before(events, n - 1);
      BeforeNext(events, n - 1);
      StepSettles(s, events[n - 1], id, status);
      if id < |s.store.requests| {
        StatusStems(events, id, status, n - 1);
      } else {
        forall i | 0 <= i < n - 1 ensures !Settles(events, i, id, status) {
          SettlesExists(events, i, id, status, n - 1);
        }
      }
      SettlesMeans(events, n - 1, id, status);
    }
  }

  lemma NothingYet(events: seq<Event>)
    ensures Before(events, 0) == EMPTY
  {
    assert events[..0] == [];
  }

  lemma SettlesExists(events: seq<Event>, i: nat, id: nat, status: Status, n: nat)
    requires i <= n <= |events| && i < |events|
    ensures Settles(events, i, id, status) ==> id < |Before(events, n).store.requests|
  {
    hide Before;
    BeforeGrows(events, i, n);
  }

  lemma SettlesMeans(events: seq<Event>, i: nat, id: nat, status: Status)
    requires i < |events|
    ensures Settles(events, i, id, status) <==>
            IsPending(Before(events, i), id) &&
            match status
            case Approved => Resolves(events[i], id, true)
            case Denied => Resolves(events[i], id, false)
            case TimedOut => TimesOut(Before(events, i), events[i], id)
            case Pending => false
  {
  }

  /** The first committed resolution of a pending request fixes its status and resolver, whatever comes later. */
  lemma ResolutionStands(events: seq<Event>, i: nat, id: nat, approved: bool)
    requires i < |events| && IsPending(Before(events, i), id) && Resolves(events[i], id, approved)
    ensures var requests := Run(EMPTY, events).store.requests;
            && id < |requests|
            && requests[id].status == (if approved then Approved else Denied)
            && requests[id].resolver == Some(events[i].resolver)
  {
    hide Run, FiredRefs, Prefix;
    BeforeNext(events, i);
    BeforeGrows(events, i + 1, |events|);
    assert events[..|events|] == events;
    assert Before(events, i + 1).store.requests[id].status == (if approved then Approved else Denied);
  }

  /** Hence after a human denial a governed call on a blocking outcome never runs. */
  lemma NeverRunsAfterDenial(events: seq<Event>, i: nat, c: nat)
    requires c < |Run(EMPTY, events).calls| && i < |events|
    requires var call := Run(EMPTY, events).calls[c];
             && call.request.Some? && IsPending(Before(events, i), call.request.value)
             && Resolves(events[i], call.request.value, false)
    ensures Run(EMPTY, events).calls[c].runs == 0
  {
    hide Run, Before;
    var call := Run(EMPTY, events).calls[c];
    ResolutionStands(events, i, call.request.value, false);
    RunsOnlyWhenPermitted(events, c);
    RunKeepsInv(EMPTY, events);
    assert CallInv(Run(EMPTY, events).store, call);
  }

  /** A blocked call that ran has an event behind it: an approval of its row, or its timeout on a fail-open class. */
  lemma RunStems(events: seq<Event>, c: nat)
    requires c < |Run(EMPTY, events).calls|
    ensures var call := Run(EMPTY, events).calls[c];
            call.runs > 0 && call.decision.outcome !in EXECUTABLE ==>
              && call.request.Some?
              && exists i :: 0 <= i < |events| &&
                             (|| Settles(events, i, call.request.value, Approved)
                              || (call.failOpen && Settles(events, i, call.request.value, TimedOut)))
  {
    hide Run, Settles;
    var call := Run(EMPTY, events).calls[c];
    RunsOnlyWhenPermitted(events, c);
    if call.runs > 0 && call.decision.outcome !in EXECUTABLE {
      assert events[..|events|] == events;
      StatusStems(events, call.request.value, Approved, |events|);
      StatusStems(events, call.request.value, TimedOut, |events|);
    }
  }

  /**
   * A waiting call that looks at its row: it runs on an approval, ends without running on a denial or a
   * timeout, and goes past its deadline only while the row is pending.
   */
  lemma PollMeans(s: System, c: nat, late: bool)
    requires c < |s.calls| && s.calls[c].phase.Waiting? && s.calls[c].phase.id < |s.store.requests|
    ensures var call, next := s.calls[c], Step(s, Poll(c, late)).calls[c];
            match s.store.requests[call.phase.id].status
            case Approved => next.phase == Over && next.runs == call.runs + 1
            case Pending => next == if late then call.(phase := Expired(call.phase.id)) else call
            case _ => next.phase == Over && next.runs == call.runs
  {
  }

  /**
   * A call past its deadline: a resolution that came first decides; otherwise it times its row out, and runs
   * exactly on a fail-open class whose timeout was recorded.
   */
  lemma ExpireMeans(s: System, c: nat, luck: Luck)
    requires c < |s.calls| && s.calls[c].phase.Expired? && s.calls[c].phase.id < |s.store.requests|
    ensures var call, next := s.calls[c], Step(s, Expire(c, luck)).calls[c];
            && next.phase == Over
            && next.runs == call.runs +
               (match s.store.requests[call.phase.id].status
                case Approved => 1
                case Pending => if call.failOpen && luck.commits && luck.written > 0 then 1 else 0
                case _ => 0)
  {
  }

  /**
   * A governed call begins: an executable outcome runs at once; a blocking one waits on a request of its own
   * when that was accepted; every other one is over without having run.
   */
  lemma BeginMeans(s: System, agent: string, d: Decision, failOpen: bool, seams: Seams, accepted: bool)
    ensures var t := Step(s, Begin(agent, d, failOpen, seams, accepted));
            && |t.calls| == |s.calls| + 1 && t.calls[..|s.calls|] == s.calls
            && t.store.grants == s.store.grants
            && var call := t.calls[|s.calls|];
               && call.decision == d && call.failOpen == failOpen
               && match Prelude(d, seams).1
                  case RunNow => call.phase == Over && call.runs == 1 && t.store == s.store
                  case Park =>
                    && call.runs == 0
                    && (if accepted then
                          call.phase == Waiting(|s.store.requests|) && call.request == Some(|s.store.requests|)
                        else call.phase == Over && call.request == None && t.store == s.store)
                  case _ => call.phase == Over && call.runs == 0 && t.store == s.store
  {
    hide Prelude;
  }

  // ----- where requests and grants come from -----

  /** The event creates a request of this agent with these reasons: a call that parks, or one made by hand. */
  predicate Creates(e: Event, agent: string, reasons: seq<Reason>) {
    || (e.Park? && e.agent == agent && e.reasons == reasons)
    || (e.Begin? && e.agent == agent && e.decision.reasons == reasons && e.accepted &&
        Prelude(e.decision, e.seams).1 == Next.Park)
  }

  lemma StepCreates(s: System, e: Event)
    ensures var t := Step(s, e);
            && |t.store.requests| <= |s.store.requests| + 1
            && (forall agent, reasons :: Creates(e, agent, reasons) ==>
                  t.store.requests == s.store.requests + [Request(agent, reasons, Pending, None)])
            && (|t.store.requests| > |s.store.requests| ==>
                  var r := t.store.requests[|s.store.requests|]; Creates(e, r.agent, r.reasons))
  {
    hide FiredRefs, GrantsFor, ResolutionEvents, Prefix;
  }

  /** Every request stems from the event that created it, with that agent and those reasons. */
  lemma {:induction false} RequestsStem(events: seq<Event>, id: nat, n: nat) returns (i: nat)
    requires n <= |events| && id < |Before(events, n).store.requests|
    ensures i < n && |Before(events, i).store.requests| == id
    ensures var r := Before(events, n).store.requests[id]; Creates(events[i], r.agent, r.reasons)
  {
    hide Step, Run, Creates;
    if n == 0 {
      NothingYet(events);
      assert false;
    } else {
      BeforeNext(events, n - 1);
      StepCreates(Before(events, n - 1), events[n - 1]);
      BeforeGrows(events, n - 1, n);
      if id < |Before(events, n - 1).store.requests| {
        i := RequestsStem(events, id, n - 1);
      } else {
        i := n - 1;
      }
    }
  }

  /** An approval of request id that grants until a time. */
  predicate GrantsUntil(e: Event, id: nat, resolver: string, until: int) {
    Resolves(e, id, true) && e.resolver == resolver && e.until == Some(until)
  }

  lemma StepGrants(s: System, e: Event, k: nat)
    requires k < |Step(s, e).store.grants|
    ensures k < |s.store.grants| ||
            var g := Step(s, e).store.grants[k];
            && !g.revoked && IsPending(s, g.approvalId)
            && GrantsUntil(e, g.approvalId, g.grantedBy, g.expiresAt)
            && g.agent == s.store.requests[g.approvalId].agent
            && g.principleRef in FiredRefs(s.store.requests[g.approvalId].reasons)
  {
    hide Prelude, FiredRefs, ResolutionEvents, Prefix;
  }

  /** Every grant stems from an approval that found its request pending, and lasts exactly until the time granted. */
  lemma {:induction false} GrantsStem(events: seq<Event>, k: nat, n: nat) returns (i: nat)
    requires n <= |events| && k < |Before(events, n).store.grants|
    ensures i < n
    ensures var g := Before(events, n).store.grants[k];
            && IsPending(Before(events, i), g.approvalId)
            && GrantsUntil(events[i], g.approvalId, g.grantedBy, g.expiresAt)
  {
    hide Step, Run, GrantsUntil, IsPending;
    if n == 0 {
      NothingYet(events);
      assert false;
    } else {
      BeforeNext(events, n - 1);
      StepGrants(Before(events, n - 1), events[n - 1], k);
      BeforeGrows(events, n - 1, n);
      if k < |Before(events, n - 1).store.grants| {
        i := GrantsStem(events, k, n - 1);
      } else {
        i := n - 1;
      }
    }
  }
}
