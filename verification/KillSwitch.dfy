/** KillSwitchStore: the in-memory kills, their durable table and their audit events. */
module KillSwitch {
  import opened Common

  const FLEET: string := "*"

  datatype Row = Row(active: bool, reason: string)

  datatype AuditEvent = KillSet(target: string) | KillCleared(target: string)

  /** CommitLost: the table row is durable, but the commit call raised. */
  datatype Fault = Works | CommitFails | CommitLost | AuditFails

  datatype State = State(killed: map<string, string>, table: map<string, Row>, chain: seq<AuditEvent>)

  /** _set: memory first, then the table, then the audit event. */
  function SetStep(s: State, target: string, reason: string, fault: Fault): State {
    var killed := s.killed[target := reason];
    var table := if fault == CommitFails then s.table else s.table[target := Row(true, reason)];
    State(killed, table, if fault == Works then s.chain + [KillSet(target)] else s.chain)
  }

  /** A clear of a target with no row commits nothing, so only its audit append can fail. */
  predicate ClearFails(s: State, target: string, fault: Fault) {
    fault == AuditFails || (fault != Works && target in s.table)
  }

  /** _clear: the table, then the audit event, and only then memory. */
  function ClearStep(s: State, target: string, fault: Fault): State {
    var table :=
      if target in s.table && fault != CommitFails then s.table[target := s.table[target].(active := false)]
      else s.table;
    if ClearFails(s, target, fault) then State(s.killed, table, s.chain)
    else State(s.killed - {target}, table, s.chain + [KillCleared(target)])
  }

  function Loaded(table: map<string, Row>): map<string, string> {
    map t | t in table && table[t].active :: table[t].reason
  }

  datatype Status = FleetKilled(reason: string) | AgentKilled(reason: string)

  function StatusOf(killed: map<string, string>, agent: string): Option<Status> {
    if FLEET in killed then Some(FleetKilled(killed[FLEET]))
    else if agent in killed then Some(AgentKilled(killed[agent]))
    else None
  }

  class KillSwitchStore {
    var killed: map<string, string>
    var table: map<string, Row>
    var chain: seq<AuditEvent>

    ghost function Contents(): State
      reads this
    {
      State(killed, table, chain)
    }

    /** A process start over an existing table and chain. */
    constructor (table: map<string, Row>, chain: seq<AuditEvent>)
      ensures Contents() == State(Loaded(table), table, chain)
    {
      this.table, this.chain := table, chain;
      killed := map t | t in table && table[t].active :: table[t].reason;
    }

    method Set(target: string, reason: string, fault: Fault) returns (ok: bool)
      modifies this
      ensures Contents() == SetStep(old(Contents()), target, reason, fault)
      ensures ok <==> fault == Works
    {
      killed := killed[target := reason];
      if fault == CommitFails {
        return false;
      }
      table := table[target := Row(true, reason)];
      if fault != Works {
        return false;
      }
      chain := chain + [KillSet(target)];
      ok := true;
    }

    method Clear(target: string, fault: Fault) returns (ok: bool)
      modifies this
      ensures Contents() == ClearStep(old(Contents()), target, fault)
      ensures ok <==> !ClearFails(old(Contents()), target, fault)
    {
      if target in table {
        if fault == CommitFails {
          return false;
        }
        table := table[target := table[target].(active := false)];
        if fault == CommitLost {
          return false;
        }
      }
      if fault == AuditFails {
        return false;
      }
      chain := chain + [KillCleared(target)];
      killed := killed - {target};
      ok := true;
    }

    method Status(agent: string) returns (status: Option<Status>)
      ensures status == StatusOf(killed, agent)
    {
      if FLEET in killed {
        return Some(FleetKilled(killed[FLEET]));
      }
      if agent in killed {
        return Some(AgentKilled(killed[agent]));
      }
      return None;
    }
  }

  // ----- whole runs -----

  datatype Event =
    | Kill(target: string, reason: string, fault: Fault)
    | Clear(target: string, fault: Fault)
    | Restart

  function Step(s: State, e: Event): State {
    match e
    case Kill(target, reason, fault) => SetStep(s, target, reason, fault)
    case Clear(target, fault) => ClearStep(s, target, fault)
    case Restart => s.(killed := Loaded(s.table))
  }

  function Run(events: seq<Event>): State {
    if events == [] then State(map[], map[], [])
    else Step(Run(events[..|events| - 1]), events[|events| - 1])
  }

  predicate Active(s: State, target: string) {
    target in s.table && s.table[target].active
  }

  ghost predicate Contained(s: State) {
    forall t :: Active(s, t) ==> t in s.killed
  }

  lemma StepKeepsContained(s: State, e: Event)
    requires Contained(s)
    ensures Contained(Step(s, e))
  {
    var next := Step(s, e);
    forall t | Active(next, t) ensures t in next.killed {
      assert e.Restart? || t == e.target || Active(s, t);
    }
  }

  /** In every run, with failures anywhere, a target durably marked killed is killed in memory. */
  lemma {:induction false} ActiveRowsAreKilled(events: seq<Event>)
    ensures Contained(Run(events))
  {
    if events != [] {
      ActiveRowsAreKilled(events[..|events| - 1]);
      StepKeepsContained(Run(events[..|events| - 1]), events[|events| - 1]);
    }
  }

  /** So an agent with an active row, or under an active fleet row, is always reported killed. */
  lemma ActiveRowsAreReported(events: seq<Event>, agent: string)
    ensures var s := Run(events);
            Active(s, agent) || Active(s, FLEET) ==> StatusOf(s.killed, agent).Some?
  {
    ActiveRowsAreKilled(events);
  }

  // ----- what a kill and a clear do, over later events -----

  /** The event leaves this target alone. */
  predicate Spares(e: Event, target: string) {
    e.Restart? || e.target != target
  }

  /** A target killed for this reason, in memory and durably. */
  predicate KilledFor(s: State, target: string, reason: string) {
    && target in s.killed && s.killed[target] == reason
    && target in s.table && s.table[target] == Row(true, reason)
  }

  lemma {:induction false} StaysKilled(events: seq<Event>, more: seq<Event>, target: string, reason: string)
    requires KilledFor(Run(events), target, reason) && forall e :: e in more ==> Spares(e, target)
    ensures KilledFor(Run(events + more), target, reason)
  {
    if more == [] {
      assert events + more == events;
    } else {
      var front := more[..|more| - 1];
      assert (events + more)[..|events + more| - 1] == events + front;
      assert more[|more| - 1] in more && forall e :: e in front ==> e in more;
      StaysKilled(events, front, target, reason);
    }
  }

  /**
   * A kill that went through is reported, with its reason and scope, until the next kill or clear of its
   * target, whatever else happens and fails, restarts included. A fleet kill is reported for every agent,
   * and an agent's own unless the fleet is killed too.
   */
  lemma KillIsReported(events: seq<Event>, target: string, reason: string, more: seq<Event>, agent: string)
    requires forall e :: e in more ==> Spares(e, target)
    ensures var s := Run(events + [Kill(target, reason, Works)] + more);
            && (target == FLEET ==> StatusOf(s.killed, agent) == Some(FleetKilled(reason)))
            && (target == agent && FLEET !in s.killed ==> StatusOf(s.killed, agent) == Some(AgentKilled(reason)))
  {
    var killed := events + [Kill(target, reason, Works)];
    assert killed[..|killed| - 1] == events;
    StaysKilled(killed, more, target, reason);
  }

  /** A kill takes effect in memory at once, whatever fails afterwards. */
  lemma KillIsImmediate(s: State, target: string, reason: string, fault: Fault, agent: string)
    ensures var next := Step(s, Kill(target, reason, fault));
            && (target == FLEET ==> StatusOf(next.killed, agent) == Some(FleetKilled(reason)))
            && (target == agent && FLEET !in next.killed ==> StatusOf(next.killed, agent) == Some(AgentKilled(reason)))
            && (agent != target && target != FLEET ==> StatusOf(next.killed, agent) == StatusOf(s.killed, agent))
  {
  }

  /** Which durable steps a kill got to: the row unless the commit failed, the event only when all went through. */
  lemma KillSteps(s: State, target: string, reason: string, fault: Fault)
    ensures var next := Step(s, Kill(target, reason, fault));
            && (fault == CommitFails ==> next.table == s.table)
            && (fault != CommitFails ==> next.table == s.table[target := Row(true, reason)])
            && next.chain == s.chain + (if fault == Works then [KillSet(target)] else [])
  {
  }

  /** A clear drops the kill from memory exactly when the row, if there is one, and the event both went through. */
  lemma ClearSteps(s: State, target: string, fault: Fault)
    ensures var next := Step(s, Clear(target, fault));
            var done := fault == Works || (fault in {CommitFails, CommitLost} && target !in s.table);
            && next.killed == (if done then s.killed - {target} else s.killed)
            && next.chain == (if done then s.chain + [KillCleared(target)] else s.chain)
            && next.table.Keys == s.table.Keys
            && (forall t :: t in s.table ==>
                  next.table[t] == if t == target && fault != CommitFails then s.table[t].(active := false)
                                   else s.table[t])
  {
  }

  predicate Unkilled(s: State, target: string) {
    target !in s.killed && !Active(s, target)
  }

  lemma {:induction false} StaysUnkilled(events: seq<Event>, more: seq<Event>, target: string)
    requires Unkilled(Run(events), target) && forall e :: e in more ==> !e.Kill? || e.target != target
    ensures Unkilled(Run(events + more), target)
  {
    if more == [] {
      assert events + more == events;
    } else {
      var front := more[..|more| - 1];
      assert (events + more)[..|events + more| - 1] == events + front;
      assert more[|more| - 1] in more && forall e :: e in front ==> e in more;
      StaysUnkilled(events, front, target);
    }
  }

  /** A clear that went through ends the kill until the next one, restarts included. */
  lemma ClearIsFinal(events: seq<Event>, target: string, more: seq<Event>)
    requires forall e :: e in more ==> !e.Kill? || e.target != target
    ensures target !in Run(events + [Clear(target, Works)] + more).killed
  {
    var cleared := events + [Clear(target, Works)];
    assert cleared[..|cleared| - 1] == events;
    StaysUnkilled(cleared, more, target);
  }

  /** An agent with no kill of its own or of the fleet in the history is never reported killed. */
  lemma NeverKilledNeverReported(events: seq<Event>, agent: string)
    requires forall e :: e in events ==> !e.Kill? || (e.target != agent && e.target != FLEET)
    ensures StatusOf(Run(events).killed, agent) == None
  {
    assert Run([]) == State(map[], map[], []);
    assert [] + events == events;
    StaysUnkilled([], events, agent);
    StaysUnkilled([], events, FLEET);
  }

  predicate Faultless(e: Event) {
    match e
    case Kill(_, _, fault) => fault == Works
    case Clear(_, fault) => fault == Works
    case Restart => true
  }

  /** The targets whose last event on the chain is a kill. */
  function Replay(chain: seq<AuditEvent>): set<string> {
    if chain == [] then {}
    else
      var before := Replay(chain[..|chain| - 1]);
      match chain[|chain| - 1]
      case KillSet(t) => before + {t}
      case KillCleared(t) => before - {t}
  }

  /** Memory, the active rows with their reasons, and the replayed chain all coincide. */
  ghost predicate Coincide(s: State) {
    s.killed == Loaded(s.table) && s.killed.Keys == Replay(s.chain)
  }

  lemma {:induction false} ReplayAppend(chain: seq<AuditEvent>, e: AuditEvent)
    ensures Replay(chain + [e]) == if e.KillSet? then Replay(chain) + {e.target} else Replay(chain) - {e.target}
  {
    assert (chain + [e])[..|chain|] == chain;
  }

  lemma LoadedSet(table: map<string, Row>, target: string, reason: string)
    ensures Loaded(table[target := Row(true, reason)]) == Loaded(table)[target := reason]
  {
  }

  lemma LoadedCleared(table: map<string, Row>, target: string)
    ensures target in table ==>
              Loaded(table[target := table[target].(active := false)]) == Loaded(table) - {target}
    ensures target !in table ==> Loaded(table) - {target} == Loaded(table)
  {
  }

  lemma StepKeepsCoincide(s: State, e: Event)
    requires Coincide(s) && Faultless(e)
    ensures Coincide(Step(s, e))
  {
    hide Loaded, Replay;
    match e {
      case Kill(target, reason, _) =>
        LoadedSet(s.table, target, reason);
        ReplayAppend(s.chain, KillSet(target));
      case Clear(target, _) =>
        LoadedCleared(s.table, target);
        ReplayAppend(s.chain, KillCleared(target));
      case Restart =>
    }
  }

  lemma {:induction false} FaultlessRunsCoincide(events: seq<Event>)
    requires forall e :: e in events ==> Faultless(e)
    ensures Coincide(Run(events))
  {
    if events != [] {
      FaultlessRunsCoincide(events[..|events| - 1]);
      StepKeepsCoincide(Run(events[..|events| - 1]), events[|events| - 1]);
    }
  }
}
