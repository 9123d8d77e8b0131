/** The runner over the audit chain: which rows an evaluate call leaves, and what they say for good. */
module Evidence {
  import opened Common
  import opened Contract
  import opened AuditChain
  import AuditWriters
  import Pipeline
  import Risk

  // ----- the appends of one call -----

  function Durable(fault: Pipeline.AppendFault): Pipeline.AppendFault {
    match fault
    case Works => Pipeline.Works
    case Raises(exc, _) => Pipeline.Raises(exc, true)
  }

  /** The same failures, with every append durable. */
  function Durably(f: Pipeline.Faults): Pipeline.Faults {
    f.(appends := (i: nat) => Durable(f.appends(i)))
  }

  /** What each append of the call tries to record: the log if every append committed. */
  function Attempts(cfg: Pipeline.Config, t: ActionType, a: Pipeline.Answers, f: Pipeline.Faults): seq<Pipeline.Entry> {
    Pipeline.Evaluate(cfg, t, a, Durably(f), 0).records
  }

  predicate Commits(fault: Pipeline.AppendFault) {
    fault.Works? || fault.durable
  }

  /** Those of the first n attempts that committed. */
  function Kept(attempts: seq<Pipeline.Entry>, f: Pipeline.Faults, n: nat): seq<Pipeline.Entry>
    requires n <= |attempts|
  {
    if n == 0 then []
    else Kept(attempts, f, n - 1) + (if Commits(f.appends(n - 1)) then [attempts[n - 1]] else [])
  }

  lemma {:induction false} KeptOfPrefix(x: seq<Pipeline.Entry>, y: seq<Pipeline.Entry>, f: Pipeline.Faults, n: nat)
    requires n <= |x|
    ensures Kept(x + y, f, n) == Kept(x, f, n)
  {
    if n > 0 {
      KeptOfPrefix(x, y, f, n - 1);
    }
  }

  lemma DurablyAt(f: Pipeline.Faults, i: nat)
    ensures Durably(f).appends(i) == Durable(f.appends(i))
  {
  }

  lemma WriteAttempts(cfg: Pipeline.Config, t: ActionType, d: Decision, f: Pipeline.Faults, next: nat)
    requires d.evidenceRef == None
    ensures var w, tried := Pipeline.Write(cfg, t, d, f, next), Pipeline.Write(cfg, t, d, Durably(f), 0);
            && w.calls == tried.calls == |tried.records| >= 1
            && w.records == Kept(tried.records, f, w.calls)
            && (w.result.Ok? <==> tried.result.Ok?) && (w.result.Err? ==> w.result == tried.result)
            && (w.result.Ok? <==> f.appends(w.calls - 1).Works?)
            && (w.result.Ok? ==> w.result.value.evidenceRef.Some? &&
                                 tried.records[w.calls - 1].decision == w.result.value.(evidenceRef := None))
  {
    hide Durably, Kept;
    DurablyAt(f, 0);
    DurablyAt(f, 1);
    var tried := Pipeline.Write(cfg, t, d, Durably(f), 0).records;
    KeptFew(tried, f);
  }

  /** The committed ones of one attempt, and of two. */
  lemma KeptFew(attempts: seq<Pipeline.Entry>, f: Pipeline.Faults)
    requires |attempts| >= 1
    ensures Kept(attempts, f, 1) == if Commits(f.appends(0)) then [attempts[0]] else []
    ensures |attempts| >= 2 ==>
              Kept(attempts, f, 2) == Kept(attempts, f, 1) + if Commits(f.appends(1)) then [attempts[1]] else []
  {
    assert Kept(attempts, f, 0) == [];
  }

  lemma FailSafeAttempts(cfg: Pipeline.Config, t: ActionType, exc: Pipeline.Exception, box: Option<Outcome>,
                         fault: Pipeline.AppendFault, next: nat)
    ensures var (d, records) := Pipeline.FailSafe(cfg, t, exc, box, fault, next);
            var tried := Pipeline.FailSafe(cfg, t, exc, box, Durable(fault), 0).1;
            && |tried| == 1 && records == (if Commits(fault) then tried else [])
            && (d.evidenceRef.Some? <==> fault.Works?)
            && (d.evidenceRef.Some? ==> tried[0].decision == d.(evidenceRef := None))
  {
    hide Pipeline.FailSafeReasons, Pipeline.PostureOutcome;
  }

  /** The records of a call are its committed attempts; the decision names one exactly when the last attempt worked. */
  lemma AttemptsAre(cfg: Pipeline.Config, t: ActionType, a: Pipeline.Answers, f: Pipeline.Faults, next: nat)
    ensures var e, attempts := Pipeline.Evaluate(cfg, t, a, f, next), Attempts(cfg, t, a, f);
            && |attempts| == e.tried >= 1
            && e.records == Kept(attempts, f, e.tried)
            && (e.decision.evidenceRef.Some? <==> f.appends(e.tried - 1).Works?)
            && (e.decision.evidenceRef.Some? ==> attempts[e.tried - 1].decision == e.decision.(evidenceRef := None))
  {
    hide Pipeline.Decide, Pipeline.Write, Pipeline.FailSafe;
    Pipeline.DecidedIsBoxed(cfg, t, a, f);
    SameDecided(cfg, t, a, f, Durably(f));
    var p := Pipeline.Decide(cfg, t, a, f);
    var w := Pipeline.Written([], 0, Err(Pipeline.Generic));
    var tried: seq<Pipeline.Entry> := [];
    if p.result.Ok? {
      WriteAttempts(cfg, t, p.result.value, f, next);
      w := Pipeline.Write(cfg, t, p.result.value, f, next);
      tried := Pipeline.Write(cfg, t, p.result.value, Durably(f), 0).records;
    } else {
      w := Pipeline.Written([], 0, Err(p.result.error));
    }
    if w.result.Err? {
      FailSafeAttempts(cfg, t, w.result.error, p.box, f.appends(w.calls), next + |w.records|);
      FailSafeAttempts(cfg, t, w.result.error, p.box, f.appends(w.calls), 0);
      FailSafeAgrees(cfg, t, w.result.error, p.box, f.appends(w.calls), f.appends(w.calls), |tried|, 0);
      var last := Pipeline.FailSafe(cfg, t, w.result.error, p.box, Durable(f.appends(w.calls)), 0).1;
      KeptOfPrefix(tried, last, f, w.calls);
    }
  }

  /** The stages do not depend on the appends. */
  lemma SameDecided(cfg: Pipeline.Config, t: ActionType, a: Pipeline.Answers, f: Pipeline.Faults, g: Pipeline.Faults)
    requires g == f.(appends := g.appends)
    ensures Pipeline.Decide(cfg, t, a, f) == Pipeline.Decide(cfg, t, a, g)
  {
    hide Pipeline.Transform, SelectFloor, Pipeline.Interpret, Pipeline.FiredReasons;
    hide Risk.GraduatedResponse, Risk.Gathered, Risk.MaxRisk;
  }

  /** The first attempt is the decision itself, and whether there is a second depends on how the first ended. */
  lemma WriteSteps(cfg: Pipeline.Config, t: ActionType, d: Decision, f: Pipeline.Faults)
    ensures var w := Pipeline.Write(cfg, t, d, Durably(f), 0);
            && w.calls == |w.records| && 1 <= w.calls <= 2
            && w.records[0] == Pipeline.Entry(false, d)
            && (w.calls == 2 <==> f.appends(0).Raises? && f.appends(0).exc == Pipeline.Redaction)
  {
    hide Durably;
    DurablyAt(f, 0);
    DurablyAt(f, 1);
  }

  lemma WriteDepends(cfg: Pipeline.Config, t: ActionType, d: Decision, f: Pipeline.Faults, g: Pipeline.Faults)
    requires f.appends(0) == g.appends(0)
    ensures var w, v := Pipeline.Write(cfg, t, d, Durably(f), 0), Pipeline.Write(cfg, t, d, Durably(g), 0);
            && w.records == v.records
            && (w.calls == 1 || f.appends(1) == g.appends(1) ==> w == v)
  {
    hide Durably;
    DurablyAt(f, 0);
    DurablyAt(f, 1);
    DurablyAt(g, 0);
    DurablyAt(g, 1);
  }

  lemma WriteAgrees(cfg: Pipeline.Config, t: ActionType, d: Decision, f: Pipeline.Faults, g: Pipeline.Faults, n: nat)
    requires forall i: nat :: i < n ==> f.appends(i) == g.appends(i)
    ensures var w, v := Pipeline.Write(cfg, t, d, Durably(f), 0), Pipeline.Write(cfg, t, d, Durably(g), 0);
            && w.calls == |w.records| && v.calls == |v.records| && 1 <= w.calls <= 2
            && (w.calls > n <==> v.calls > n)
            && (if w.calls > n then w.records[..n + 1] == v.records[..n + 1] else w == v)
  {
    hide Durably, Pipeline.Write;
    WriteSteps(cfg, t, d, f);
    WriteSteps(cfg, t, d, g);
    if n > 0 {
      WriteDepends(cfg, t, d, f, g);
    } else {
      var w, v := Pipeline.Write(cfg, t, d, Durably(f), 0), Pipeline.Write(cfg, t, d, Durably(g), 0);
      assert w.records[..1] == [w.records[0]] && v.records[..1] == [v.records[0]];
    }
  }

  lemma FailSafeAgrees(cfg: Pipeline.Config, t: ActionType, exc: Pipeline.Exception, box: Option<Outcome>,
                       x: Pipeline.AppendFault, y: Pipeline.AppendFault, next: nat, next': nat)
    ensures var tried := Pipeline.FailSafe(cfg, t, exc, box, Durable(x), next).1;
            |tried| == 1 && tried == Pipeline.FailSafe(cfg, t, exc, box, Durable(y), next').1
  {
    hide Pipeline.FailSafeReasons, Pipeline.PostureOutcome;
  }

  /** The attempts of the stages' decision, if they finished one, and then the fail-safe's if none of those worked. */
  lemma AttemptsSplit(cfg: Pipeline.Config, t: ActionType, a: Pipeline.Answers, f: Pipeline.Faults)
    ensures var p := Pipeline.Decide(cfg, t, a, f);
            var last := exc => Pipeline.FailSafe(cfg, t, exc, p.box, Durable(f.appends(0)), 0).1;
            if p.result.Err? then |last(p.result.error)| == 1 && Attempts(cfg, t, a, f) == last(p.result.error)
            else
              var w := Pipeline.Write(cfg, t, p.result.value, Durably(f), 0);
              if w.result.Ok? then Attempts(cfg, t, a, f) == w.records
              else |last(w.result.error)| == 1 && Attempts(cfg, t, a, f) == w.records + last(w.result.error)
  {
    hide Pipeline.Decide, Pipeline.Write, Pipeline.FailSafe;
    SameDecided(cfg, t, a, f, Durably(f));
    var p := Pipeline.Decide(cfg, t, a, f);
    if p.result.Err? {
      FailSafeAgrees(cfg, t, p.result.error, p.box, f.appends(0), f.appends(0), 0, 0);
    } else {
      var w := Pipeline.Write(cfg, t, p.result.value, Durably(f), 0);
      if w.result.Err? {
        FailSafeAgrees(cfg, t, w.result.error, p.box, f.appends(w.calls), f.appends(0), |w.records|, 0);
      }
    }
  }

  /** The attempts depend on the appends before them only. */
  lemma AttemptsAgree(cfg: Pipeline.Config, t: ActionType, a: Pipeline.Answers, f: Pipeline.Faults, g: Pipeline.Faults,
                      n: nat)
    requires g == f.(appends := g.appends) && forall i: nat :: i < n ==> f.appends(i) == g.appends(i)
    ensures var x, y := Attempts(cfg, t, a, f), Attempts(cfg, t, a, g);
            && 1 <= |x| <= 3
            && (|x| > n <==> |y| > n)
            && (if |x| > n then x[..n + 1] == y[..n + 1] else x == y)
  {
    hide Attempts, Durably, Pipeline.Decide, Pipeline.Write, Pipeline.FailSafe;
    AttemptsSplit(cfg, t, a, f);
    AttemptsSplit(cfg, t, a, g);
    SameDecided(cfg, t, a, f, g);
    var p := Pipeline.Decide(cfg, t, a, f);
    if p.result.Err? {
      FailSafeAgrees(cfg, t, p.result.error, p.box, f.appends(0), g.appends(0), 0, 0);
    } else {
      WriteAgrees(cfg, t, p.result.value, f, g, n);
      var w := Pipeline.Write(cfg, t, p.result.value, Durably(f), 0);
      var v := Pipeline.Write(cfg, t, p.result.value, Durably(g), 0);
      var x, y := Attempts(cfg, t, a, f), Attempts(cfg, t, a, g);
      assert w.records == x[..|w.records|] && v.records == y[..|v.records|];
      if w.calls > n {
        assert x[..n + 1] == w.records[..n + 1] && y[..n + 1] == v.records[..n + 1];
      } else if w.result.Err? {
        FailSafeAgrees(cfg, t, w.result.error, p.box, f.appends(0), g.appends(0), 0, 0);
      }
    }
  }

  // ----- the appends on the chain -----

  /**
   * One append by a writer process among others: what happens before it reads the head and before it
   * inserts, the redactor's answer, the columns the model leaves open, and the commit.
   */
  datatype Turn = Turn(before: seq<AuditWriters.Event>, between: seq<AuditWriters.Event>,
                       fields: AuditWriters.DecisionFields, redacted: Option<Json>, fault: AuditWriters.Fault)

  /** The decision columns of a record. */
  function RecordOf(d: Decision, turn: Turn): AuditWriters.Content {
    AuditWriters.DecisionRecord(
      turn.fields.(outcome := Str(Pipeline.OutcomeName(d.outcome)),
                   riskScore := Float(d.riskScore), trustScore := Float(d.trustScore)),
      turn.redacted)
  }

  /** The system as the insert finds it. */
  function Reached(env: AuditWriters.Env, s: AuditWriters.System, w: nat, turn: Turn): AuditWriters.System {
    var read := AuditWriters.Step(env, AuditWriters.Run(env, s, turn.before), AuditWriters.ReadHead(w));
    AuditWriters.Run(env, read, turn.between)
  }

  function Inserted(env: AuditWriters.Env, s: AuditWriters.System, w: nat, turn: Turn, d: Decision)
    : AuditWriters.System
  {
    AuditWriters.Step(env, Reached(env, s, w, turn), AuditWriters.Insert(w, RecordOf(d, turn), turn.fault))
  }

  function Raised(error: AuditWriters.AppendError): Pipeline.Exception {
    match error
    case Refused => Pipeline.Redaction
    case SecretLeak => Pipeline.SecretLeak
    case IntegrityError => Pipeline.Generic
    case CommitError => Pipeline.Generic
  }

  /** How the append ends for the runner that awaits it. */
  function Ended(env: AuditWriters.Env, s: AuditWriters.System, w: nat, turn: Turn, d: Decision): Pipeline.AppendFault {
    var r := Reached(env, s, w, turn);
    if w >= |r.writers| || r.writers[w].inFlight.None? then Pipeline.Raises(Pipeline.Generic, false)
    else
      var a := AuditWriters.Attempt(env, r.rows, r.writers[w].inFlight.value, RecordOf(d, turn), turn.fault);
      if a.result.Ok? then Pipeline.Works else Pipeline.Raises(Raised(a.result.error), a.rows != r.rows)
  }

  /** The system after the first n appends of the call. */
  function After(env: AuditWriters.Env, s: AuditWriters.System, w: nat, turns: nat -> Turn,
                 attempts: seq<Pipeline.Entry>, n: nat): AuditWriters.System
    requires n <= |attempts|
  {
    if n == 0 then s
    else Inserted(env, After(env, s, w, turns, attempts, n - 1), w, turns(n - 1), attempts[n - 1].decision)
  }

  /** The failure schedule of the appends is the one the chain gives them. */
  ghost predicate OnChain(env: AuditWriters.Env, s: AuditWriters.System, w: nat, turns: nat -> Turn,
                          attempts: seq<Pipeline.Entry>, f: Pipeline.Faults)
  {
    forall i :: 0 <= i < |attempts| ==>
      f.appends(i) == Ended(env, After(env, s, w, turns, attempts, i), w, turns(i), attempts[i].decision)
  }

  lemma {:induction false} AfterOfPrefix(env: AuditWriters.Env, s: AuditWriters.System, w: nat, turns: nat -> Turn,
                                         x: seq<Pipeline.Entry>, y: seq<Pipeline.Entry>, n: nat)
    requires n <= |x| && n <= |y| && x[..n] == y[..n]
    ensures After(env, s, w, turns, x, n) == After(env, s, w, turns, y, n)
  {
    hide Inserted;
    if n > 0 {
      assert x[..n - 1] == x[..n][..n - 1] && y[..n - 1] == y[..n][..n - 1];
      assert x[n - 1] == x[..n][n - 1] && y[n - 1] == y[..n][n - 1];
      AfterOfPrefix(env, s, w, turns, x, y, n - 1);
    }
  }

  /** The chain gives the first n appends their endings. */
  ghost predicate OnChainUpTo(env: AuditWriters.Env, s: AuditWriters.System, w: nat, turns: nat -> Turn,
                              attempts: seq<Pipeline.Entry>, f: Pipeline.Faults, n: nat)
  {
    forall i :: 0 <= i < |attempts| && i < n ==>
      f.appends(i) == Ended(env, After(env, s, w, turns, attempts, i), w, turns(i), attempts[i].decision)
  }

  /** Whatever surrounds the appends, the chain gives the call a failure schedule. */
  lemma ChainGivesSchedule(env: AuditWriters.Env, s: AuditWriters.System, w: nat, turns: nat -> Turn,
                           cfg: Pipeline.Config, t: ActionType, a: Pipeline.Answers, f: Pipeline.Faults)
    returns (g: Pipeline.Faults)
    ensures g == f.(appends := g.appends) && OnChain(env, s, w, turns, Attempts(cfg, t, a, g), g)
  {
    hide Attempts, After, Ended;
    g := ScheduleUpTo(env, s, w, turns, cfg, t, a, f, 3);
    AttemptsAgree(cfg, t, a, g, g, 0);
  }

  lemma {:induction false} ScheduleUpTo(env: AuditWriters.Env, s: AuditWriters.System, w: nat, turns: nat -> Turn,
                                        cfg: Pipeline.Config, t: ActionType, a: Pipeline.Answers, f: Pipeline.Faults,
                                        n: nat) returns (g: Pipeline.Faults)
    ensures g == f.(appends := g.appends) && OnChainUpTo(env, s, w, turns, Attempts(cfg, t, a, g), g, n)
  {
    hide Attempts, After, Ended;
    if n == 0 {
      g := f;
    } else {
      var h := ScheduleUpTo(env, s, w, turns, cfg, t, a, f, n - 1);
      var x := Attempts(cfg, t, a, h);
      if |x| < n {
        g := h;
      } else {
        var ended := Ended(env, After(env, s, w, turns, x, n - 1), w, turns(n - 1), x[n - 1].decision);
        g := h.(appends := (i: nat) => if i == n - 1 then ended else h.appends(i));
        var y := Attempts(cfg, t, a, g);
        AttemptsAgree(cfg, t, a, h, g, n - 1);
        forall i | 0 <= i < |y| && i < n
          ensures g.appends(i) == Ended(env, After(env, s, w, turns, y, i), w, turns(i), y[i].decision)
        {
          assert x[..n][..i] == x[..i] && y[..n][..i] == y[..i];
          assert x[..n][i] == x[i] && y[..n][i] == y[i];
          AfterOfPrefix(env, s, w, turns, x, y, i);
        }
      }
    }
  }

  /** Whose action a record is about. */
  datatype Subject = Subject(actionId: Json, agentId: Json, actionType: Json)

  function SubjectOf(turn: Turn): Subject {
    Subject(turn.fields.actionId, turn.fields.agentId, turn.fields.actionType)
  }

  /** The row's hashed body carries this action, and this decision's outcome and scores. */
  ghost predicate Carries(row: Row, who: Subject, d: Decision) {
    && "action_id" in row.body && row.body["action_id"] == who.actionId
    && "agent_id" in row.body && row.body["agent_id"] == who.agentId
    && "action_type" in row.body && row.body["action_type"] == who.actionType
    && "outcome" in row.body && row.body["outcome"] == Str(Pipeline.OutcomeName(d.outcome))
    && "risk_score" in row.body && row.body["risk_score"] == Float(d.riskScore)
    && "trust_score" in row.body && row.body["trust_score"] == Float(d.trustScore)
  }

  /** One outcome per name, so a row carries one outcome. */
  lemma CarriesOneOutcome(row: Row, who: Subject, d: Decision, e: Decision)
    requires Carries(row, who, d) && Carries(row, who, e)
    ensures d.outcome == e.outcome
  {
  }

  lemma BodyCarries(d: Decision, turn: Turn, row: Row, head: AuditWriters.Head)
    requires AuditWriters.BuildBody(RecordOf(d, turn), head) == Some(row.body)
    ensures Carries(row, SubjectOf(turn), d)
  {
    hide AuditWriters.BuildBody;
    AuditWriters.BodyReadsBack(RecordOf(d, turn), head);
  }

  /** The insert itself, on the system it finds. */
  lemma InsertAdds(env: AuditWriters.Env, r: AuditWriters.System, w: nat, turn: Turn, d: Decision)
    requires w < |r.writers| && r.writers[w].inFlight.Some?
    ensures var content, head := RecordOf(d, turn), r.writers[w].inFlight.value;
            var a, next := AuditWriters.Attempt(env, r.rows, head, content, turn.fault),
                           AuditWriters.Step(env, r, AuditWriters.Insert(w, content, turn.fault));
            && next.rows == a.rows
            && (a.rows != r.rows ==>
                  |a.rows| == |r.rows| + 1 && Carries(a.rows[|r.rows|], SubjectOf(turn), d))
            && (a.result.Ok? ==> a.rows != r.rows)
  {
    hide AuditWriters.BuildBody, Carries, RecordOf;
    var head := r.writers[w].inFlight.value;
    var body := AuditWriters.BuildBody(RecordOf(d, turn), head);
    if body.Some? {
      BodyCarries(d, turn, AuditWriters.Seal(env, head, body.value), head);
    }
  }

  /** One append keeps the chain, and adds the row that carries its decision exactly when it commits. */
  lemma InsertCarries(env: AuditWriters.Env, s: AuditWriters.System, w: nat, turn: Turn, d: Decision)
    requires AuditWriters.Inv(env, s)
    ensures var r, next := Reached(env, s, w, turn), Inserted(env, s, w, turn, d);
            && AuditWriters.Inv(env, next) && s.rows <= r.rows <= next.rows
            && (if Commits(Ended(env, s, w, turn, d))
                then |next.rows| == |r.rows| + 1 && Carries(next.rows[|r.rows|], SubjectOf(turn), d)
                else next.rows == r.rows)
  {
    hide AuditWriters.Inv, AuditWriters.Run, AuditWriters.Attempt, Carries, RecordOf;
    AuditWriters.RunKeepsInv(env, s, turn.before);
    var before := AuditWriters.Run(env, s, turn.before);
    AuditWriters.StepKeepsInv(env, before, AuditWriters.ReadHead(w));
    var read := AuditWriters.Step(env, before, AuditWriters.ReadHead(w));
    AuditWriters.RunKeepsInv(env, read, turn.between);
    var r := Reached(env, s, w, turn);
    AuditWriters.StepKeepsInv(env, r, AuditWriters.Insert(w, RecordOf(d, turn), turn.fault));
    if w < |r.writers| && r.writers[w].inFlight.Some? {
      InsertAdds(env, r, w, turn, d);
    }
  }

  /** The writer's next head read gives the end of the table: it starts afresh, or wrote the last row itself. */
  ghost predicate UpToDate(s: AuditWriters.System, w: nat) {
    && w < |s.writers| && s.writers[w].inFlight.None?
    && (s.writers[w].cached.Some? ==> s.writers[w].cached.value.next == |s.rows|)
  }

  /**
   * An append with no other writer in between works whenever the redactor and the secret scan let its body
   * through and the commit does, and leaves the writer up to date.
   */
  lemma QuietAppendWorks(env: AuditWriters.Env, s: AuditWriters.System, w: nat, turn: Turn, d: Decision)
    requires AuditWriters.Inv(env, s) && UpToDate(s, w) && turn.before == [] && turn.between == []
    requires turn.redacted.Some? && turn.fault == AuditWriters.Works
    requires forall body :: !env.leaks(env.h.canonical(body))
    ensures Ended(env, s, w, turn, d) == Pipeline.Works
    ensures UpToDate(Inserted(env, s, w, turn, d), w)
  {
    hide AuditWriters.ChainedTable, AuditWriters.BuildBody;
    var read := AuditWriters.Step(env, s, AuditWriters.ReadHead(w));
    assert AuditWriters.Run(env, s, []) == s && AuditWriters.Run(env, read, []) == read;
    AuditWriters.StepKeepsInv(env, s, AuditWriters.ReadHead(w));
    AuditWriters.LastIsEnd(env, s.rows);
    var head := AuditWriters.HeadOf(s.writers[w].cached, s.rows);
    assert AuditWriters.WriterFits(env, read.rows, read.writers[w]);
    AuditWriters.AttemptExtends(env, s.rows, head, RecordOf(d, turn), turn.fault);
    AuditWriters.RefusedExactly(RecordOf(d, turn), head);
  }

  /** A restart brings any writer up to date, so a stale one works again. */
  lemma RestartRecovers(env: AuditWriters.Env, s: AuditWriters.System, w: nat)
    requires w < |s.writers|
    ensures UpToDate(AuditWriters.Step(env, s, AuditWriters.Restart(w)), w)
    ensures AuditWriters.Step(env, s, AuditWriters.Restart(w)).rows == s.rows
  {
  }

  ghost predicate Increasing(places: seq<nat>) {
    forall i, j :: 0 <= i < j < |places| ==> places[i] < places[j]
  }

  /** These records stand in the table, in order, above its first `low` rows. */
  ghost predicate StandAt(rows: seq<Row>, low: nat, who: Subject, records: seq<Pipeline.Entry>, places: seq<nat>) {
    && |places| == |records| && Increasing(places)
    && forall i :: 0 <= i < |places| ==> low <= places[i] < |rows| && Carries(rows[places[i]], who, records[i].decision)
  }

  lemma StandGrows(rows: seq<Row>, more: seq<Row>, low: nat, who: Subject, records: seq<Pipeline.Entry>,
                   places: seq<nat>)
    requires StandAt(rows, low, who, records, places) && rows <= more
    ensures StandAt(more, low, who, records, places)
  {
    hide Carries;
  }

  lemma StandAppend(rows: seq<Row>, low: nat, who: Subject, records: seq<Pipeline.Entry>, places: seq<nat>, row: Row,
                    entry: Pipeline.Entry)
    requires StandAt(rows, low, who, records, places) && Carries(row, who, entry.decision) && low <= |rows|
    ensures StandAt(rows + [row], low, who, records + [entry], places + [|rows|])
  {
    hide Carries;
  }

  /** One append more: its record, if it commits, stands next. */
  lemma StandStep(env: AuditWriters.Env, s: AuditWriters.System, w: nat, turn: Turn, entry: Pipeline.Entry,
                  low: nat, records: seq<Pipeline.Entry>, places: seq<nat>) returns (more: seq<nat>)
    requires AuditWriters.Inv(env, s) && low <= |s.rows| && StandAt(s.rows, low, SubjectOf(turn), records, places)
    ensures var next := Inserted(env, s, w, turn, entry.decision);
            var fault := Ended(env, s, w, turn, entry.decision);
            && AuditWriters.Inv(env, next) && s.rows <= next.rows
            && StandAt(next.rows, low, SubjectOf(turn), records + (if Commits(fault) then [entry] else []), more)
  {
    hide AuditWriters.Inv, Inserted, Ended, Reached, StandAt, Carries;
    InsertCarries(env, s, w, turn, entry.decision);
    var r, next := Reached(env, s, w, turn), Inserted(env, s, w, turn, entry.decision);
    StandGrows(s.rows, r.rows, low, SubjectOf(turn), records, places);
    more := places;
    if Commits(Ended(env, s, w, turn, entry.decision)) {
      StandAppend(r.rows, low, SubjectOf(turn), records, places, next.rows[|r.rows|], entry);
      assert next.rows == r.rows + [next.rows[|r.rows|]];
      more := places + [|r.rows|];
    } else {
      assert records + [] == records;
    }
  }

  lemma OnChainAt(env: AuditWriters.Env, s: AuditWriters.System, w: nat, turns: nat -> Turn,
                  attempts: seq<Pipeline.Entry>, f: Pipeline.Faults, i: nat)
    requires OnChain(env, s, w, turns, attempts, f) && i < |attempts|
    ensures f.appends(i) == Ended(env, After(env, s, w, turns, attempts, i), w, turns(i), attempts[i].decision)
  {
    hide Ended, After;
  }

  lemma {:induction false} KeptStand(env: AuditWriters.Env, s: AuditWriters.System, w: nat, turns: nat -> Turn,
                                     attempts: seq<Pipeline.Entry>, f: Pipeline.Faults, who: Subject, n: nat)
    returns (places: seq<nat>)
    requires AuditWriters.Inv(env, s) && OnChain(env, s, w, turns, attempts, f) && n <= |attempts|
    requires forall i :: SubjectOf(turns(i)) == who
    ensures var t := After(env, s, w, turns, attempts, n);
            && AuditWriters.Inv(env, t) && s.rows <= t.rows
            && StandAt(t.rows, |s.rows|, who, Kept(attempts, f, n), places)
  {
    hide AuditWriters.Inv, Inserted, Ended, StandAt, OnChain;
    if n == 0 {
      places := [];
      NothingStands(s.rows, |s.rows|, who);
    } else {
      OnChainAt(env, s, w, turns, attempts, f, n - 1);
      var t := After(env, s, w, turns, attempts, n - 1);
      places := KeptStand(env, s, w, turns, attempts, f, who, n - 1);
      places := StandStep(env, t, w, turns(n - 1), attempts[n - 1], |s.rows|, Kept(attempts, f, n - 1), places);
    }
  }

  lemma NothingStands(rows: seq<Row>, low: nat, who: Subject)
    ensures StandAt(rows, low, who, [], [])
  {
  }

  /**
   * An evaluate call appends through any writer of the chain, among any others. Its records are rows of the
   * table, in order, each with the action and the outcome and scores it was appended with; the record the decision
   * names carries the decision returned; and in every later interleaving those rows are still there, in a
   * table the verifier accepts.
   */
  lemma EvidenceStands(env: AuditWriters.Env, s: AuditWriters.System, w: nat, turns: nat -> Turn, cfg: Pipeline.Config,
                       t: ActionType, a: Pipeline.Answers, f: Pipeline.Faults, next: nat, who: Subject,
                       later: seq<AuditWriters.Event>, key: Option<Verifier>, tsa: Option<Verifier>)
    returns (places: seq<nat>)
    requires AuditWriters.Inv(env, s) && OnChain(env, s, w, turns, Attempts(cfg, t, a, f), f)
    requires AuditWriters.KeysMatch(env, key, tsa) && forall i :: SubjectOf(turns(i)) == who
    ensures var e, attempts := Pipeline.Evaluate(cfg, t, a, f, next), Attempts(cfg, t, a, f);
            var table := AuditWriters.Run(env, After(env, s, w, turns, attempts, |attempts|), later).rows;
            && StandAt(table, |s.rows|, who, e.records, places)
            && (e.decision.evidenceRef.Some? ==> places != [] && Carries(table[places[|places| - 1]], who, e.decision))
            && RowsOk(env.h, key, table)
  {
    hide Pipeline.Evaluate, Attempts, OnChain, AuditWriters.Inv, AuditWriters.Run, RowsOk, AuditWriters.KeysMatch;
    var e, attempts := Pipeline.Evaluate(cfg, t, a, f, next), Attempts(cfg, t, a, f);
    AttemptsAre(cfg, t, a, f, next);
    places := KeptStand(env, s, w, turns, attempts, f, who, |attempts|);
    var after := After(env, s, w, turns, attempts, |attempts|);
    AuditWriters.RunKeepsInv(env, after, later);
    var end := AuditWriters.Run(env, after, later);
    StandGrows(after.rows, end.rows, |s.rows|, who, e.records, places);
    AuditWriters.KeptTableVerifies(env, end, key, tsa);
    if e.decision.evidenceRef.Some? {
      assert e.records[|e.records| - 1] == attempts[|attempts| - 1];
    }
  }
}
