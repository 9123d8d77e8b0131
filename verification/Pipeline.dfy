/** Pipeline.evaluate: the decision pipeline, with every collaborator call possibly raising. */
module Pipeline {
  import opened Common
  import opened Contract
  import opened Risk

  /** What an exception's class tells the runner. */
  datatype Exception = Generic | SecretLeak | Redaction

  /** An audit append works, or raises; a durable one has committed its record all the same. */
  datatype AppendFault = Works | Raises(exc: Exception, durable: bool)

  datatype Identity = Identity(ok: bool, trust: real)

  /**
   * The interpreter's answer: it raises (or its outcome cannot be looked up), or gives a verdict. An
   * outcome of None is a name that is not an outcome; malformed marks a verdict whose reason fields
   * cannot be built.
   */
  datatype Interpretation =
    | InterpreterRaises
    | Verdict(outcome: Option<Outcome>, principleRef: Option<string>, malformed: bool)

  /** What each collaborator answers for this action when its call does not raise. */
  datatype Answers = Answers(
    kill: Option<string>, identity: Identity, matched: seq<MatchedPrinciple>,
    interpreter: Option<Interpretation>, exceptions: Option<map<string, int>>, now: int,
    scorers: seq<Scorer>, carried: seq<Finding>, expensive: seq<Scorer>)

  /** Which calls raise; `appends` schedules the audit appends of one evaluate call by number. */
  datatype Faults = Faults(
    kill: bool, identity: bool, enrich: bool, correlator: bool, policy: bool, request: bool,
    firedReasons: bool, exceptions: bool, exceptionReason: bool, scorers: bool, decision: bool,
    appends: nat -> AppendFault)

  datatype Config = Config(posture: PostureMap, thresholds: Thresholds)

  /** One audit record: the decision as appended, and whether the payload was stripped. */
  datatype Entry = Entry(stripped: bool, decision: Decision)

  // ----- the exception transform -----

  /** The distinct refs of the matched deny principles, in order. */
  function DenyRefs(matched: seq<MatchedPrinciple>): seq<string> {
    if matched == [] then []
    else
      var refs, last := DenyRefs(matched[..|matched| - 1]), matched[|matched| - 1];
      if last.effect == Deny && last.principleRef !in refs then refs + [last.principleRef] else refs
  }

  function NonDeny(matched: seq<MatchedPrinciple>): seq<MatchedPrinciple> {
    if matched == [] then []
    else
      NonDeny(matched[..|matched| - 1]) +
      (if matched[|matched| - 1].effect == Deny then [] else [matched[|matched| - 1]])
  }

  predicate Covered(active: map<string, int>, now: int, ref: string) {
    ref in active && active[ref] > now
  }

  function MinExpiry(active: map<string, int>, refs: seq<string>): int
    requires refs != [] && forall r :: r in refs ==> r in active
  {
    var last := active[refs[|refs| - 1]];
    if |refs| == 1 then last
    else
      var rest := MinExpiry(active, refs[..|refs| - 1]);
      if last < rest then last else rest
  }

  /** A floor after the exception transform, and the expiry consumed when one was applied. */
  datatype Lifted = Lifted(floor: Outcome, expiry: Option<int>)

  function Transform(matched: seq<MatchedPrinciple>, active: map<string, int>, now: int): Lifted {
    var refs := DenyRefs(matched);
    if refs == [] || exists i :: 0 <= i < |refs| && !Covered(active, now, refs[i]) then Lifted(Deny, None)
    else
      assert forall r :: r in refs ==> Covered(active, now, r);
      var floor := SelectFloor(NonDeny(matched));
      Lifted(if floor.Some? then floor.value else Allow, Some(MinExpiry(active, refs)))
  }

  // ----- reasons -----

  function PlainReason(stage: string, code: string): Reason {
    Reason(stage, code, None, None)
  }

  function FiredReasons(matched: seq<MatchedPrinciple>): seq<Reason> {
    if matched == [] then []
    else
      FiredReasons(matched[..|matched| - 1]) +
      [Reason("policy", "constitution_principle_fired", Some(matched[|matched| - 1].principleRef),
              Some(matched[|matched| - 1].effect))]
  }

  /** The reason an applied exception leaves. */
  function AppliedReasons(lifted: Lifted): seq<Reason> {
    if lifted.expiry.Some? then [PlainReason("policy", "temporary_exception_applied")] else []
  }

  function RiskReasons(findings: seq<Finding>): seq<Reason> {
    if findings == [] then []
    else RiskReasons(findings[..|findings| - 1]) + [PlainReason("risk", findings[|findings| - 1].category)]
  }

  function OutcomeName(o: Outcome): string {
    match o
    case Allow => "allow"
    case Warn => "warn"
    case GovernanceReview => "governance_review"
    case TemporaryException => "temporary_exception"
    case Sandbox => "sandbox"
    case RequireConsensus => "require_consensus"
    case RequireApproval => "require_approval"
    case Deny => "deny"
  }

  // ----- the specification -----

  /** The ref an advisory reason carries: its first 64 characters, and none when it is empty. */
  function AdvisoryRef(ref: Option<string>): (r: Option<string>)
    ensures r.None? <==> ref.None? || ref.value == []
    ensures r.Some? ==> r.value <= ref.value && |r.value| == if |ref.value| > 64 then 64 else |ref.value|
  {
    if ref.None? || ref.value == "" then None
    else Some(if |ref.value| <= 64 then ref.value else ref.value[..64])
  }

  /** The no-match floor after the advisory interpreter, and the reason it leaves. */
  function Interpret(floor: Outcome, answer: Option<Interpretation>): (Outcome, seq<Reason>) {
    match answer
    case None => (floor, [])
    case Some(InterpreterRaises) => (floor, [PlainReason("interpreter", "interpreter_error")])
    case Some(Verdict(outcome, ref, malformed)) =>
      if outcome.None? || !Authorable(outcome.value) then
        (floor, [PlainReason("interpreter", "interpreter_invalid_verdict")])
      else
        // The floor is raised before the reason is built, so a malformed verdict still restricts.
        (MaxOutcome(floor, outcome.value),
         [if malformed then PlainReason("interpreter", "interpreter_error")
          else Reason("interpreter", "interpreter_advisory", AdvisoryRef(ref), None)])
  }

  /** Where _evaluate stands before its audit append: the last floor_box value, and a decision or an exception. */
  datatype Progress = Progress(box: Option<Outcome>, result: Result<Decision, Exception>)

  function Terminal(f: Faults, reason: Reason): Progress {
    Progress(Some(Deny), if f.decision then Err(Generic) else Ok(Decision(Deny, 0.0, 0.0, [reason], None, None)))
  }

  /** Stages 4 and 5 on a floor; `box` is the untransformed floor. */
  function Grade(cfg: Config, a: Answers, f: Faults, box: Outcome, lifted: Lifted, reasons: seq<Reason>): Progress {
    if f.scorers then Progress(Some(box), Err(Generic))
    else
      var findings := Gathered(a.scorers, a.carried, a.expensive);
      var risk := MaxRisk(findings);
      var graded := GraduatedResponse(lifted.floor, risk, a.identity.trust, cfg.thresholds);
      var outcome := Relabel(graded, lifted.expiry);
      var expiresAt := if graded == Allow then lifted.expiry else None;
      Progress(Some(outcome),
               if f.decision then Err(Generic)
               else Ok(Decision(outcome, risk, a.identity.trust,
                                reasons + RiskReasons(findings) + [PlainReason("graduated", OutcomeName(outcome))],
                                expiresAt, None)))
  }

  function Decide(cfg: Config, t: ActionType, a: Answers, f: Faults): Progress {
    if f.kill then Progress(None, Err(Generic))
    else if a.kill.Some? then Terminal(f, PlainReason("killswitch", a.kill.value + "_killed"))
    else if f.identity then Progress(None, Err(Generic))
    else if !a.identity.ok then Terminal(f, PlainReason("identity", "forged_or_unknown_identity"))
    else if f.enrich || f.correlator || f.policy then Progress(None, Err(Generic))
    else
      var verified := PlainReason("identity", "identity_verified");
      var matchedFloor := SelectFloor(a.matched);
      if matchedFloor.None? then
        var base := cfg.posture.NoMatchFloor(t);
        if a.interpreter.Some? && f.request then Progress(Some(base), Err(Generic))
        else
          var (floor, why) := Interpret(base, a.interpreter);
          Grade(cfg, a, f, floor, Lifted(floor, None),
                [verified] + why + [PlainReason("policy", "no_principle_matched")])
      else
        var floor := matchedFloor.value;
        var fired := [verified] + FiredReasons(a.matched);
        if f.firedReasons then Progress(Some(floor), Err(Generic))
        else if floor == Deny && a.exceptions.Some? then
          if f.exceptions then Progress(Some(floor), Err(Generic))
          else
            var lifted := Transform(a.matched, a.exceptions.value, a.now);
            if lifted.expiry.Some? && f.exceptionReason then Progress(Some(floor), Err(Generic))
            else Grade(cfg, a, f, floor, lifted,
                       fired + AppliedReasons(lifted))
        else Grade(cfg, a, f, floor, Lifted(floor, None), fired)
  }

  /** What one append leaves in the log. */
  function Appended(stripped: bool, d: Decision, fault: AppendFault): seq<Entry> {
    if fault.Works? || fault.durable then [Entry(stripped, d)] else []
  }

  /** The records written, how many appends were tried, and the evidenced decision or what escaped. */
  datatype Written = Written(records: seq<Entry>, calls: nat, result: Result<Decision, Exception>)

  /** The audit append with its payload-free retry; `next` is the id of the next record. */
  function Write(cfg: Config, t: ActionType, d: Decision, f: Faults, next: nat): Written {
    var first := Appended(false, d, f.appends(0));
    match f.appends(0)
    case Works => Written(first, 1, Ok(d.(evidenceRef := Some(next))))
    case Raises(exc, _) =>
      if exc != Redaction then Written(first, 1, Err(exc))
      else
        var demoted := d.(
          outcome := if cfg.posture.FailPosture(t) == Closed then Deny else d.outcome,
          reasons := d.reasons + [PlainReason("pipeline", "redaction_failed")]);
        var both := first + Appended(true, demoted, f.appends(1));
        match f.appends(1)
        case Works => Written(both, 2, Ok(demoted.(evidenceRef := Some(next + |first|))))
        case Raises(e, _) => Written(both, 2, Err(e))
  }

  function PostureOutcome(cfg: Config, t: ActionType): Outcome {
    if cfg.posture.FailPosture(t) == Open then Allow else Deny
  }

  function FailSafeReasons(cfg: Config, t: ActionType, exc: Exception): seq<Reason> {
    [PlainReason("pipeline", if cfg.posture.FailPosture(t) == Open then "control_plane_failure_fail_open"
                             else "control_plane_failure_fail_closed")] +
    if exc == SecretLeak then [PlainReason("pipeline", "secret_leak_in_audit_body")] else []
  }

  function FailSafe(cfg: Config, t: ActionType, exc: Exception, box: Option<Outcome>, fault: AppendFault, next: nat)
    : (Decision, seq<Entry>)
  {
    var posture := PostureOutcome(cfg, t);
    var outcome := if box.Some? then MaxOutcome(posture, box.value) else posture;
    var reasons := FailSafeReasons(cfg, t, exc);
    var d := Decision(outcome, 0.0, 0.0, reasons, None, None);
    (if fault.Works? then d.(evidenceRef := Some(next))
     else if outcome == Allow then
       d.(outcome := Deny, reasons := reasons + [PlainReason("pipeline", "fail_open_unaudited_demoted_to_deny")])
     else d,
     Appended(true, d, fault))
  }

  /** One evaluate call: the decision returned, the records written, the last floor_box value, and the appends tried. */
  datatype Evaluation = Evaluation(decision: Decision, records: seq<Entry>, box: Option<Outcome>, tried: nat)

  function Evaluate(cfg: Config, t: ActionType, a: Answers, f: Faults, next: nat): Evaluation {
    var p := Decide(cfg, t, a, f);
    var w := if p.result.Ok? then Write(cfg, t, p.result.value, f, next) else Written([], 0, Err(p.result.error));
    if w.result.Ok? then Evaluation(w.result.value, w.records, p.box, w.calls)
    else
      var (d, records) := FailSafe(cfg, t, w.result.error, p.box, f.appends(w.calls), next + |w.records|);
      Evaluation(d, w.records + records, p.box, w.calls + 1)
  }

  // ----- the runner -----

  class AuditLog {
    var records: seq<Entry>

    constructor ()
      ensures records == []
    {
      records := [];
    }

    /** Returns the record's id, or raises. */
    method Append(stripped: bool, d: Decision, fault: AppendFault) returns (r: Result<nat, Exception>)
      modifies this
      ensures records == old(records) + Appended(stripped, d, fault)
      ensures r == if fault.Works? then Ok(|old(records)|) else Err(fault.exc)
    {
      var id := |records|;
      if fault.Works? || fault.durable {
        records := records + [Entry(stripped, d)];
      }
      match fault {
        case Works => r := Ok(id);
        case Raises(exc, _) => r := Err(exc);
      }
    }
  }

  /** The mutable holder evaluate threads through _evaluate. */
  class FloorBox {
    var floor: Option<Outcome>

    constructor ()
      ensures floor == None
    {
      floor := None;
    }
  }

  class Runner {
    const cfg: Config
    const audit: AuditLog

    constructor (cfg: Config, audit: AuditLog)
      ensures this.cfg == cfg && this.audit == audit
    {
      this.cfg, this.audit := cfg, audit;
    }

    /** Stages 4 and 5, on the floor the policy stage left. */
    method GradeStages(a: Answers, f: Faults, lifted: Lifted, policyReasons: seq<Reason>, box: FloorBox)
      returns (r: Result<Decision, Exception>)
      requires box.floor.Some?
      modifies box
      ensures Grade(cfg, a, f, old(box.floor).value, lifted, policyReasons) == Progress(box.floor, r)
    {
      if f.scorers {
        return Err(Generic);
      }
      var findings := Gathered(a.scorers, a.carried, a.expensive);
      var risk := MaxRisk(findings);
      var reasons := policyReasons + RiskReasons(findings);
      var outcome := GraduatedResponse(lifted.floor, risk, a.identity.trust, cfg.thresholds);
      var expiresAt: Option<int> := None;
      if lifted.expiry.Some? && outcome == Allow {
        outcome, expiresAt := TemporaryException, lifted.expiry;
      }
      box.floor := Some(outcome);
      reasons := reasons + [PlainReason("graduated", OutcomeName(outcome))];
      if f.decision {
        return Err(Generic);
      }
      r := Ok(Decision(outcome, risk, a.identity.trust, reasons, expiresAt, None));
    }

    /** Stages 0 to 5; the box is written as soon as each floor is known. */
    method DecideStages(t: ActionType, a: Answers, f: Faults, box: FloorBox)
      returns (r: Result<Decision, Exception>)
      requires box.floor == None
      modifies box
      ensures Decide(cfg, t, a, f) == Progress(box.floor, r)
    {
      hide Grade, Transform, SelectFloor, FiredReasons;
      if f.kill {
        return Err(Generic);
      }
      if a.kill.Some? {
        box.floor := Some(Deny);
        if f.decision {
          return Err(Generic);
        }
        return Ok(Decision(Deny, 0.0, 0.0, [PlainReason("killswitch", a.kill.value + "_killed")], None, None));
      }
      if f.identity {
        return Err(Generic);
      }
      if !a.identity.ok {
        box.floor := Some(Deny);
        if f.decision {
          return Err(Generic);
        }
        return Ok(Decision(Deny, 0.0, 0.0, [PlainReason("identity", "forged_or_unknown_identity")], None, None));
      }
      var reasons := [PlainReason("identity", "identity_verified")];
      if f.enrich || f.correlator || f.policy {
        return Err(Generic);
      }
      var selected := SelectFloor(a.matched);
      var floor: Outcome;
      var expiry: Option<int> := None;
      if selected.None? {
        floor := cfg.posture.NoMatchFloor(t);
        box.floor := Some(floor);
        if a.interpreter.Some? {
          if f.request {
            return Err(Generic);
          }
          var (advised, why) := Interpret(floor, a.interpreter);
          floor, reasons := advised, reasons + why;
        } else {
          assert reasons + [] == reasons;
        }
        box.floor := Some(floor);
        reasons := reasons + [PlainReason("policy", "no_principle_matched")];
      } else {
        floor := selected.value;
        box.floor := Some(floor);
        if f.firedReasons {
          return Err(Generic);
        }
        reasons := reasons + FiredReasons(a.matched);
        if floor == Deny && a.exceptions.Some? {
          if f.exceptions {
            return Err(Generic);
          }
          var lifted := Transform(a.matched, a.exceptions.value, a.now);
          floor, expiry := lifted.floor, lifted.expiry;
          if expiry.Some? {
            if f.exceptionReason {
              return Err(Generic);
            }
            reasons := reasons + [PlainReason("policy", "temporary_exception_applied")];
          } else {
            assert reasons + [] == reasons;
          }
        }
      }
      r := GradeStages(a, f, Lifted(floor, expiry), reasons, box);
    }

    /** Appends the decision; a redaction failure falls to the posture first and retries without the payload. */
    method AppendWithRedactionFallback(t: ActionType, d: Decision, f: Faults)
      returns (r: Result<Decision, Exception>, calls: nat)
      modifies audit
      ensures var w := Write(cfg, t, d, f, |old(audit.records)|);
              r == w.result && calls == w.calls && audit.records == old(audit.records) + w.records
    {
      var first := audit.Append(false, d, f.appends(0));
      calls := 1;
      match first {
        case Ok(id) =>
          return Ok(d.(evidenceRef := Some(id))), 1;
        case Err(exc) =>
          if exc != Redaction {
            return Err(exc), 1;
          }
      }
      var demoted := d;
      if cfg.posture.FailPosture(t) == Closed {
        demoted := demoted.(outcome := Deny);
      }
      demoted := demoted.(reasons := demoted.reasons + [PlainReason("pipeline", "redaction_failed")]);
      var second := audit.Append(true, demoted, f.appends(1));
      calls := 2;
      match second {
        case Ok(id) => r := Ok(demoted.(evidenceRef := Some(id)));
        case Err(e) => r := Err(e);
      }
    }

    method FailSafeDecision(t: ActionType, exc: Exception, computedFloor: Option<Outcome>, fault: AppendFault)
      returns (d: Decision)
      modifies audit
      ensures var (decision, records) := FailSafe(cfg, t, exc, computedFloor, fault, |old(audit.records)|);
              d == decision && audit.records == old(audit.records) + records
    {
      var outcome := PostureOutcome(cfg, t);
      if computedFloor.Some? {
        outcome := MaxOutcome(outcome, computedFloor.value);
      }
      var reasons := FailSafeReasons(cfg, t, exc);
      d := Decision(outcome, 0.0, 0.0, reasons, None, None);
      var appended := audit.Append(true, d, fault);
      match appended {
        case Ok(id) =>
          d := d.(evidenceRef := Some(id));
        case Err(_) =>
          if outcome == Allow {
            d := d.(outcome := Deny,
                    reasons := reasons + [PlainReason("pipeline", "fail_open_unaudited_demoted_to_deny")]);
          }
      }
    }

    method EvaluateAction(t: ActionType, a: Answers, f: Faults) returns (d: Decision)
      modifies audit
      ensures var e := Evaluate(cfg, t, a, f, |old(audit.records)|);
              d == e.decision && audit.records == old(audit.records) + e.records
    {
      hide Decide, Write, FailSafe;
      var box := new FloorBox();
      var decided := DecideStages(t, a, f, box);
      var escaped: Exception;
      var calls := 0;
      match decided {
        case Ok(decision) =>
          var written;
          written, calls := AppendWithRedactionFallback(t, decision, f);
          match written {
            case Ok(evidenced) => return evidenced;
            case Err(e) => escaped := e;
          }
        case Err(e) => escaped := e;
      }
      d := FailSafeDecision(t, escaped, box.floor, f.appends(calls));
    }
  }

  // ----- properties over every failure schedule -----

  const NO_FAULTS: Faults :=
    Faults(false, false, false, false, false, false, false, false, false, false, false, _ => Works)

  /**
   * On a fail-closed class, with the answers (the interpreter's included) fixed, every schedule of
   * failures yields the failure-free outcome or deny.
   */
  lemma FailClosedNeverDeviates(cfg: Config, t: ActionType, a: Answers, f: Faults, next: nat)
    requires cfg.posture.FailPosture(t) == Closed
    ensures var outcome := Evaluate(cfg, t, a, f, next).decision.outcome;
            outcome == Deny || outcome == Evaluate(cfg, t, a, NO_FAULTS, next).decision.outcome
  {
    hide Decide;
    var p := Decide(cfg, t, a, f);
    if p.result.Ok? {
      FaultsOnlyCrash(cfg, t, a, f);
      assert Evaluate(cfg, t, a, NO_FAULTS, next).decision.outcome == p.result.value.outcome;
      ClosedWrite(cfg, t, p, f, next);
    }
  }

  lemma ClosedWrite(cfg: Config, t: ActionType, p: Progress, f: Faults, next: nat)
    requires cfg.posture.FailPosture(t) == Closed && p.result.Ok?
    ensures var w := Write(cfg, t, p.result.value, f, next);
            w.result.Ok? ==> w.result.value.outcome in {Deny, p.result.value.outcome}
  {
  }

  /** A schedule under which the stages finish decides as the failure-free one does. */
  lemma FaultsOnlyCrash(cfg: Config, t: ActionType, a: Answers, f: Faults)
    requires Decide(cfg, t, a, f).result.Ok?
    ensures Decide(cfg, t, a, f) == Decide(cfg, t, a, NO_FAULTS)
  {
    hide Gathered, MaxRisk, GraduatedResponse, Transform, SelectFloor, Interpret;
  }

  /** The decided outcome is what the box last held. */
  lemma DecidedIsBoxed(cfg: Config, t: ActionType, a: Answers, f: Faults)
    ensures var p := Decide(cfg, t, a, f);
            p.result.Ok? ==> p.box == Some(p.result.value.outcome) && p.result.value.evidenceRef == None
  {
    hide Gathered, MaxRisk, GraduatedResponse, Transform, SelectFloor, Interpret;
  }

  /** On any class, whatever fails, the outcome never ranks below the last floor recorded. */
  lemma NeverBelowTheBox(cfg: Config, t: ActionType, a: Answers, f: Faults, next: nat)
    ensures var e := Evaluate(cfg, t, a, f, next);
            e.box.Some? ==> Rank(e.decision.outcome) >= Rank(e.box.value)
  {
    hide Decide;
    DecidedIsBoxed(cfg, t, a, f);
  }

  /** The lookup that would have stopped the action raised instead. */
  predicate LookupRaised(a: Answers, f: Faults) {
    f.kill || (a.kill.None? && f.identity)
  }

  /**
   * When a killed or forged action is denied, over every schedule: unless its class fails open, the kill
   * or identity lookup raised, and the fail-safe record was appended.
   */
  lemma KilledOrForgedIsDenied(cfg: Config, t: ActionType, a: Answers, f: Faults, next: nat)
    requires a.kill.Some? || !a.identity.ok
    ensures Evaluate(cfg, t, a, f, next).decision.outcome == Deny <==>
            cfg.posture.FailPosture(t) == Closed || !LookupRaised(a, f) || f.appends(0).Raises?
  {
    hide Write, Grade;
    if LookupRaised(a, f) {
      assert Decide(cfg, t, a, f) == Progress(None, Err(Generic));
    } else {
      NeverBelowTheBox(cfg, t, a, f, next);
      assert Decide(cfg, t, a, f).box == Some(Deny);
    }
  }

  /** Kills and forgeries are denied whatever fails exactly on the fail-closed classes. */
  lemma EveryKillIsDeniedExactlyWhenClosed(cfg: Config, t: ActionType)
    ensures (forall a: Answers, f: Faults, next: nat {:trigger Evaluate(cfg, t, a, f, next)} ::
               a.kill.Some? || !a.identity.ok ==> Evaluate(cfg, t, a, f, next).decision.outcome == Deny)
            <==> cfg.posture.FailPosture(t) == Closed
  {
    hide Evaluate;
    forall a: Answers, f: Faults, next: nat | a.kill.Some? || !a.identity.ok
      ensures Evaluate(cfg, t, a, f, next).decision.outcome == Deny <==>
              cfg.posture.FailPosture(t) == Closed || !LookupRaised(a, f) || f.appends(0).Raises?
    {
      KilledOrForgedIsDenied(cfg, t, a, f, next);
    }
    var killed := Answers(Some("agent"), Identity(true, 1.0), [], None, None, 0, [], [], []);
    var raising := NO_FAULTS.(kill := true);
    assert Evaluate(cfg, t, killed, raising, 0).decision.outcome == Deny <==> cfg.posture.FailPosture(t) == Closed;
  }

  /** An operator-killed tool call on a fail-open class that comes back allow: its kill lookup raised. */
  lemma KilledToolCallCanBeAllowed()
    ensures exists cfg: Config, a: Answers, f: Faults ::
              a.kill.Some? && !f.identity && Evaluate(cfg, ToolCall, a, f, 0).decision.outcome == Allow
  {
    var cfg := Config(PostureMap({ToolCall}, map[]), Thresholds(0.4, 0.7, 0.2));
    var killed := Answers(Some("agent"), Identity(true, 1.0), [], None, None, 0, [], [], []);
    assert Evaluate(cfg, ToolCall, killed, NO_FAULTS.(kill := true), 0).decision.outcome == Allow;
  }

  predicate Lost(fault: AppendFault) {
    fault.Raises? && fault.durable
  }

  /** How many of the first n appends raised although their record was committed. */
  function LostCommits(f: Faults, n: nat): nat {
    if n == 0 then 0 else LostCommits(f, n - 1) + (if Lost(f.appends(n - 1)) then 1 else 0)
  }

  /**
   * Evidence: beside the records of lost commits, one record is appended when the decision names one, and
   * none otherwise; the named record is the last one and holds the decision returned. An allow always has
   * evidence, and on a fail-closed class a decision without evidence is a deny.
   */
  lemma EvidenceMatchesDecision(cfg: Config, t: ActionType, a: Answers, f: Faults, next: nat)
    ensures var e := Evaluate(cfg, t, a, f, next);
            && |e.records| == (if e.decision.evidenceRef.Some? then 1 else 0) + LostCommits(f, e.tried)
            && (e.decision.evidenceRef.Some? ==>
                  && e.decision.evidenceRef.value == next + |e.records| - 1
                  && e.records[|e.records| - 1].decision == e.decision.(evidenceRef := None))
            && (e.decision.outcome == Allow ==> e.decision.evidenceRef.Some?)
            && (cfg.posture.FailPosture(t) == Closed && e.decision.evidenceRef.None? ==> e.decision.outcome == Deny)
            && 1 <= e.tried <= 3
  {
    hide Decide, Write, FailSafe;
    DecidedIsBoxed(cfg, t, a, f);
    var p := Decide(cfg, t, a, f);
    if p.result.Ok? {
      WriteEvidence(cfg, t, p.result.value, f, next);
    }
    var w := if p.result.Ok? then Write(cfg, t, p.result.value, f, next) else Written([], 0, Err(p.result.error));
    if w.result.Err? {
      FailSafeEvidence(cfg, t, w.result.error, p.box, f.appends(w.calls), next + |w.records|);
    }
  }

  lemma FailSafeEvidence(cfg: Config, t: ActionType, exc: Exception, box: Option<Outcome>, fault: AppendFault,
                         next: nat)
    ensures var (d, records) := FailSafe(cfg, t, exc, box, fault, next);
            && |records| == (if d.evidenceRef.Some? || Lost(fault) then 1 else 0)
            && (d.evidenceRef.Some? <==> fault.Works?)
            && (d.evidenceRef.Some? ==>
                  d.evidenceRef == Some(next) && records[0].decision == d.(evidenceRef := None))
            && (d.outcome == Allow ==> d.evidenceRef.Some?)
            && (cfg.posture.FailPosture(t) == Closed ==> d.outcome == Deny)
  {
    hide FailSafeReasons;
  }

  lemma WriteEvidence(cfg: Config, t: ActionType, d: Decision, f: Faults, next: nat)
    requires d.evidenceRef == None
    ensures var w := Write(cfg, t, d, f, next);
            && 1 <= w.calls <= 2
            && |w.records| == (if w.result.Ok? then 1 else 0) + LostCommits(f, w.calls)
            && (w.result.Ok? ==>
                  && w.result.value.evidenceRef == Some(next + |w.records| - 1)
                  && w.records[|w.records| - 1].decision == w.result.value.(evidenceRef := None)
                  && (w.result.value.outcome == d.outcome || w.result.value.outcome == Deny))
  {
    assert LostCommits(f, 1) == if Lost(f.appends(0)) then 1 else 0;
  }

  /** On a fail-open class every outcome but allow can come back without evidence. */
  lemma OpenClassCanLoseEvidence(cfg: Config, t: ActionType, o: Outcome) returns (a: Answers, f: Faults)
    requires cfg.posture.FailPosture(t) == Open && o != Allow
    ensures forall next: nat ::
              var d := Evaluate(cfg, t, a, f, next).decision; d.outcome == o && d.evidenceRef == None
  {
    a := Answers(None, Identity(true, 1.0), [MatchedPrinciple("p", o)], None, None, 0, [], [], []);
    f := NO_FAULTS.(scorers := true, appends := _ => Raises(Generic, false));
    assert SelectFloor(a.matched) == Some(o);
    assert Decide(cfg, t, a, f) == Progress(Some(o), Err(Generic));
  }

  /** A decision without evidence is a deny, whatever fails, exactly on the fail-closed classes. */
  lemma EvidenceOrDenyExactlyWhenClosed(cfg: Config, t: ActionType)
    ensures (forall a: Answers, f: Faults, next: nat {:trigger Evaluate(cfg, t, a, f, next)} ::
               var d := Evaluate(cfg, t, a, f, next).decision; d.evidenceRef.None? ==> d.outcome == Deny)
            <==> cfg.posture.FailPosture(t) == Closed
  {
    hide Evaluate;
    if cfg.posture.FailPosture(t) == Closed {
      forall a: Answers, f: Faults, next: nat
        ensures var d := Evaluate(cfg, t, a, f, next).decision; d.evidenceRef.None? ==> d.outcome == Deny
      {
        EvidenceMatchesDecision(cfg, t, a, f, next);
      }
    } else {
      var a, f := OpenClassCanLoseEvidence(cfg, t, Warn);
      assert Evaluate(cfg, t, a, f, 0).decision.outcome == Warn;
    }
  }

  // ----- the policy floor -----

  /** The matched principles' verdict is known, and was not cut short by a kill or a forged identity. */
  predicate PolicyReached(a: Answers, f: Faults) {
    !f.kill && a.kill.None? && !f.identity && a.identity.ok && !f.enrich && !f.correlator && !f.policy
  }

  /**
   * Once the policy stage has answered, whatever fails later and on any class: every matched effect but
   * deny bounds the outcome from below, and a matched deny stands unless every deny ref is covered.
   */
  lemma PolicyFloorHolds(cfg: Config, t: ActionType, a: Answers, f: Faults, next: nat, m: MatchedPrinciple)
    requires PolicyReached(a, f) && m in a.matched
    ensures var outcome := Evaluate(cfg, t, a, f, next).decision.outcome;
            if m.effect != Deny then Rank(outcome) >= Rank(m.effect)
            else outcome == Deny ||
                 (a.exceptions.Some? && forall d :: d in a.matched && d.effect == Deny ==>
                    Covered(a.exceptions.value, a.now, d.principleRef))
  {
    hide Write, Decide, LiftJustified;
    BoxHoldsFloor(cfg, t, a, f, m);
    NeverBelowTheBox(cfg, t, a, f, next);
    EvaluationKeepsBox(cfg, t, a, f, next);
  }

  lemma EvaluationKeepsBox(cfg: Config, t: ActionType, a: Answers, f: Faults, next: nat)
    ensures Evaluate(cfg, t, a, f, next).box == Decide(cfg, t, a, f).box
  {
    hide Decide, Write;
  }

  lemma GradeKeepsFloor(cfg: Config, a: Answers, f: Faults, box: Outcome, lifted: Lifted, reasons: seq<Reason>)
    requires Rank(box) >= Rank(lifted.floor)
    ensures var p := Grade(cfg, a, f, box, lifted, reasons);
            p.box.Some? && Rank(p.box.value) >= Rank(lifted.floor)
  {
    hide Gathered, MaxRisk;
  }

  lemma BoxHoldsFloor(cfg: Config, t: ActionType, a: Answers, f: Faults, m: MatchedPrinciple)
    requires PolicyReached(a, f) && m in a.matched
    ensures var box := Decide(cfg, t, a, f).box;
            box.Some? &&
            if m.effect != Deny then Rank(box.value) >= Rank(m.effect)
            else box.value == Deny ||
                 (a.exceptions.Some? && forall d :: d in a.matched && d.effect == Deny ==>
                    Covered(a.exceptions.value, a.now, d.principleRef))
  {
    hide Grade, Transform, FiredReasons;
    var floor := SelectFloor(a.matched).value;
    var fired := [PlainReason("identity", "identity_verified")] + FiredReasons(a.matched);
    GradeKeepsFloor(cfg, a, f, floor, Lifted(floor, None), fired);
    if floor == Deny && a.exceptions.Some? {
      var lifted := Transform(a.matched, a.exceptions.value, a.now);
      TransformJustified(a.matched, a.exceptions.value, a.now);
      GradeKeepsFloor(cfg, a, f, floor, lifted,
                      fired + AppliedReasons(lifted));
    }
  }

  /** The interpreter never touches a real policy floor: with a matched principle its answer is not consulted. */
  lemma InterpreterIgnoredOnMatch(cfg: Config, t: ActionType, a: Answers, f: Faults, next: nat,
                                  other: Option<Interpretation>)
    requires a.matched != []
    ensures Evaluate(cfg, t, a.(interpreter := other), f, next) == Evaluate(cfg, t, a, f, next)
  {
    hide Decide, Write, FailSafe;
    StagesIgnoreInterpreter(cfg, t, a, f, other);
  }

  lemma StagesIgnoreInterpreter(cfg: Config, t: ActionType, a: Answers, f: Faults, other: Option<Interpretation>)
    requires a.matched != []
    ensures Decide(cfg, t, a.(interpreter := other), f) == Decide(cfg, t, a, f)
  {
    hide Grade, Transform, SelectFloor, FiredReasons;
    var floor := SelectFloor(a.matched).value;
    var fired := [PlainReason("identity", "identity_verified")] + FiredReasons(a.matched);
    GradeIgnoresInterpreter(cfg, a, f, floor, Lifted(floor, None), fired, other);
    if a.exceptions.Some? {
      var lifted := Transform(a.matched, a.exceptions.value, a.now);
      GradeIgnoresInterpreter(cfg, a, f, floor, lifted, fired + AppliedReasons(lifted), other);
    }
  }

  lemma GradeIgnoresInterpreter(cfg: Config, a: Answers, f: Faults, box: Outcome, lifted: Lifted,
                                reasons: seq<Reason>, other: Option<Interpretation>)
    ensures Grade(cfg, a.(interpreter := other), f, box, lifted, reasons) == Grade(cfg, a, f, box, lifted, reasons)
  {
  }

  lemma FaultFreeOutcome(cfg: Config, t: ActionType, a: Answers, next: nat)
    ensures var p := Decide(cfg, t, a, NO_FAULTS);
            p.result.Ok? && Evaluate(cfg, t, a, NO_FAULTS, next).decision.outcome == p.result.value.outcome
  {
    hide Gathered, MaxRisk, GraduatedResponse, Transform, SelectFloor, Interpret, FiredReasons;
  }

  lemma HigherFloorHigherGrade(cfg: Config, a: Answers, low: Outcome, high: Outcome,
                               lowReasons: seq<Reason>, highReasons: seq<Reason>)
    requires Rank(low) <= Rank(high)
    ensures Rank(Grade(cfg, a, NO_FAULTS, low, Lifted(low, None), lowReasons).result.value.outcome) <=
            Rank(Grade(cfg, a, NO_FAULTS, high, Lifted(high, None), highReasons).result.value.outcome)
  {
    hide Gathered, MaxRisk;
  }

  /** The failure-free decision on no match. */
  lemma DecideUnmatched(cfg: Config, t: ActionType, a: Answers)
    requires PolicyReached(a, NO_FAULTS) && a.matched == []
    ensures var (floor, why) := Interpret(cfg.posture.NoMatchFloor(t), a.interpreter);
            Decide(cfg, t, a, NO_FAULTS) ==
            Grade(cfg, a, NO_FAULTS, floor, Lifted(floor, None),
                  [PlainReason("identity", "identity_verified")] + why +
                  [PlainReason("policy", "no_principle_matched")])
  {
    hide Grade;
  }

  lemma DecideCutShort(cfg: Config, t: ActionType, a: Answers, other: Option<Interpretation>)
    requires !PolicyReached(a, NO_FAULTS)
    ensures Decide(cfg, t, a.(interpreter := other), NO_FAULTS) == Decide(cfg, t, a, NO_FAULTS)
  {
    hide Grade, SelectFloor, Transform;
  }

  /** On no match the interpreter may only restrict: no answer of its lowers the failure-free outcome. */
  lemma InterpreterOnlyRestricts(cfg: Config, t: ActionType, a: Answers, next: nat)
    ensures Rank(Evaluate(cfg, t, a, NO_FAULTS, next).decision.outcome) >=
            Rank(Evaluate(cfg, t, a.(interpreter := None), NO_FAULTS, next).decision.outcome)
  {
    hide Evaluate, Decide, Grade;
    var b := a.(interpreter := None);
    FaultFreeOutcome(cfg, t, a, next);
    FaultFreeOutcome(cfg, t, b, next);
    if a.matched != [] {
      InterpreterIgnoredOnMatch(cfg, t, a, NO_FAULTS, next, None);
    } else if !PolicyReached(a, NO_FAULTS) {
      DecideCutShort(cfg, t, a, None);
    } else {
      var base := cfg.posture.NoMatchFloor(t);
      var (floor, why) := Interpret(base, a.interpreter);
      var verified := PlainReason("identity", "identity_verified");
      var unmatched := PlainReason("policy", "no_principle_matched");
      DecideUnmatched(cfg, t, a);
      DecideUnmatched(cfg, t, b);
      HigherFloorHigherGrade(cfg, a, base, floor, [verified] + [] + [unmatched], [verified] + why + [unmatched]);
      GradeIgnoresInterpreter(cfg, a, NO_FAULTS, base, Lifted(base, None), [verified] + [] + [unmatched], None);
    }
  }

  // ----- the failure-free outcome -----

  /** The floor stage 4 starts from: posture and interpreter on no match, else the lifted or plain policy floor. */
  function LiftedFloor(cfg: Config, t: ActionType, a: Answers): Lifted {
    var selected := SelectFloor(a.matched);
    if selected.None? then Lifted(Interpret(cfg.posture.NoMatchFloor(t), a.interpreter).0, None)
    else if selected.value == Deny && a.exceptions.Some? then Transform(a.matched, a.exceptions.value, a.now)
    else Lifted(selected.value, None)
  }

  /** Deny principles matched, and each of them is covered. */
  ghost predicate LiftGranted(a: Answers) {
    && a.exceptions.Some?
    && (exists m :: m in a.matched && m.effect == Deny)
    && (forall m :: m in a.matched && m.effect == Deny ==> Covered(a.exceptions.value, a.now, m.principleRef))
  }

  /** Once denies are lifted only the other effects count. */
  predicate Counts(m: MatchedPrinciple, lifted: bool) {
    !lifted || m.effect != Deny
  }

  /** o is the first of the strictest effects that count. */
  ghost predicate Strictest(matched: seq<MatchedPrinciple>, lifted: bool, o: Outcome) {
    exists i :: 0 <= i < |matched| && StrictestAt(matched, lifted, o, i)
  }

  ghost predicate StrictestAt(matched: seq<MatchedPrinciple>, lifted: bool, o: Outcome, i: nat)
    requires i < |matched|
  {
    && Counts(matched[i], lifted) && matched[i].effect == o
    && (forall j :: 0 <= j < |matched| && Counts(matched[j], lifted) ==> Rank(matched[j].effect) <= Rank(o))
    && (forall j :: 0 <= j < i && Counts(matched[j], lifted) ==> Rank(matched[j].effect) < Rank(o))
  }

  /** The advised no-match floor: the stricter of the two, the class's own on a tie or without a usable verdict. */
  ghost predicate AdvisedFloor(base: Outcome, answer: Option<Interpretation>, floor: Outcome) {
    if answer.Some? && answer.value.Verdict? && answer.value.outcome.Some? && Authorable(answer.value.outcome.value)
    then
      var o := answer.value.outcome.value;
      floor == if Rank(o) <= Rank(base) then base else o
    else floor == base
  }

  /** The floor stage 4 starts from and the expiry it carries, read off the answers. */
  ghost predicate FloorIs(cfg: Config, t: ActionType, a: Answers, floor: Outcome, expiry: Option<int>) {
    if a.matched == [] then
      && expiry.None?
      && AdvisedFloor(if t in cfg.posture.noMatchFloors then cfg.posture.noMatchFloors[t] else Allow,
                      a.interpreter, floor)
    else if LiftGranted(a) then
      && expiry.Some? && LiftJustified(a.matched, a.exceptions.value, a.now, expiry.value)
      && (if forall m :: m in a.matched ==> m.effect == Deny then floor == Allow
          else Strictest(a.matched, true, floor))
    else
      expiry.None? && Strictest(a.matched, false, floor)
  }

  lemma SelectedIsStrictest(matched: seq<MatchedPrinciple>)
    requires matched != []
    ensures Strictest(matched, false, SelectFloor(matched).value)
  {
    var floor := SelectFloor(matched).value;
    var i :| 0 <= i < |matched| && matched[i].effect == floor &&
             forall j :: 0 <= j < i ==> Rank(matched[j].effect) < Rank(floor);
    forall j | 0 <= j < |matched| ensures Rank(matched[j].effect) <= Rank(floor) {
      assert matched[j] in matched;
    }
    assert StrictestAt(matched, false, floor, i);
  }

  lemma StrictestStep(front: seq<MatchedPrinciple>, last: MatchedPrinciple, best: Outcome)
    requires Strictest(front, true, best)
    ensures Strictest(front + [last], true, if last.effect == Deny then best else MaxOutcome(best, last.effect))
  {
    var matched := front + [last];
    var i :| 0 <= i < |front| && StrictestAt(front, true, best, i);
    assert forall j :: 0 <= j < |front| ==> matched[j] == front[j];
    if last.effect != Deny && Rank(last.effect) > Rank(best) {
      assert StrictestAt(matched, true, last.effect, |front|);
    } else {
      assert StrictestAt(matched, true, best, i);
    }
  }

  lemma StrictestFirst(front: seq<MatchedPrinciple>, last: MatchedPrinciple)
    requires (forall m :: m in front ==> m.effect == Deny) && last.effect != Deny
    ensures Strictest(front + [last], true, last.effect)
  {
    var matched := front + [last];
    forall j | 0 <= j < |front| ensures !Counts(matched[j], true) {
      assert matched[j] == front[j] && front[j] in front;
    }
    assert StrictestAt(matched, true, last.effect, |front|);
  }

  lemma {:induction false} RestIsStrictest(matched: seq<MatchedPrinciple>)
    ensures NonDeny(matched) == [] <==> forall m :: m in matched ==> m.effect == Deny
    ensures NonDeny(matched) != [] ==> Strictest(matched, true, SelectFloor(NonDeny(matched)).value)
  {
    hide Strictest, Rank, SelectFloor, MaxOutcome;
    if matched != [] {
      var front, last := matched[..|matched| - 1], matched[|matched| - 1];
      assert matched == front + [last];
      RestIsStrictest(front);
      var rest := NonDeny(front);
      if last.effect == Deny {
        assert NonDeny(matched) == rest;
        if rest != [] {
          StrictestStep(front, last, SelectFloor(rest).value);
        }
      } else {
        assert NonDeny(matched) == rest + [last];
        SelectLast(rest, last);
        if rest == [] {
          StrictestFirst(front, last);
        } else {
          StrictestStep(front, last, SelectFloor(rest).value);
        }
      }
    }
  }

  lemma SelectLast(rest: seq<MatchedPrinciple>, last: MatchedPrinciple)
    ensures var all := rest + [last];
            SelectFloor(all) ==
            Some(if rest == [] then last.effect else MaxOutcome(SelectFloor(rest).value, last.effect))
  {
    hide Rank, MaxOutcome;
    assert (rest + [last])[..|rest|] == rest;
  }

  /** The transform lifts exactly when every matched deny is covered, to the strictest of the other effects. */
  lemma TransformExactly(a: Answers)
    requires a.exceptions.Some?
    ensures var lifted := Transform(a.matched, a.exceptions.value, a.now);
            && (lifted.expiry.Some? <==> LiftGranted(a))
            && (LiftGranted(a) ==>
                  if forall m :: m in a.matched ==> m.effect == Deny then lifted.floor == Allow
                  else Strictest(a.matched, true, lifted.floor))
  {
    hide SelectFloor, NonDeny, DenyRefs, Covered, MinExpiry, Strictest;
    DenyRefsAre(a.matched);
    RestIsStrictest(a.matched);
    var refs := DenyRefs(a.matched);
    if LiftGranted(a) {
      var m :| m in a.matched && m.effect == Deny;
      assert m == MatchedPrinciple(m.principleRef, Deny);
      forall i | 0 <= i < |refs| ensures Covered(a.exceptions.value, a.now, refs[i]) {
        assert refs[i] in refs;
        assert MatchedPrinciple(refs[i], Deny) in a.matched;
      }
    }
    var lifted := Transform(a.matched, a.exceptions.value, a.now);
    if lifted.expiry.Some? {
      assert refs[0] in refs && MatchedPrinciple(refs[0], Deny) in a.matched;
      forall m | m in a.matched && m.effect == Deny ensures Covered(a.exceptions.value, a.now, m.principleRef) {
        assert m == MatchedPrinciple(m.principleRef, Deny);
        var i :| 0 <= i < |refs| && refs[i] == m.principleRef;
      }
    }
  }

  lemma LiftedFloorIs(cfg: Config, t: ActionType, a: Answers)
    ensures var lifted := LiftedFloor(cfg, t, a); FloorIs(cfg, t, a, lifted.floor, lifted.expiry)
  {
    hide Transform, LiftJustified, Strictest, Covered;
    if a.matched != [] {
      SelectedIsStrictest(a.matched);
      var floor := SelectFloor(a.matched).value;
      if a.exceptions.Some? {
        TransformExactly(a);
        TransformJustified(a.matched, a.exceptions.value, a.now);
      }
      DenySelected(a.matched);
    }
  }

  /** The policy floor is deny exactly when a deny matched. */
  lemma DenySelected(matched: seq<MatchedPrinciple>)
    requires matched != []
    ensures SelectFloor(matched).value == Deny <==> exists m :: m in matched && m.effect == Deny
  {
    var i :| 0 <= i < |matched| && matched[i].effect == SelectFloor(matched).value;
    assert matched[i] in matched;
  }

  lemma DecideGrades(cfg: Config, t: ActionType, a: Answers) returns (box: Outcome, reasons: seq<Reason>)
    requires PolicyReached(a, NO_FAULTS)
    ensures Decide(cfg, t, a, NO_FAULTS) == Grade(cfg, a, NO_FAULTS, box, LiftedFloor(cfg, t, a), reasons)
  {
    hide Grade, Transform, FiredReasons;
    var verified := PlainReason("identity", "identity_verified");
    var selected := SelectFloor(a.matched);
    if selected.None? {
      var (floor, why) := Interpret(cfg.posture.NoMatchFloor(t), a.interpreter);
      box, reasons := floor, [verified] + why + [PlainReason("policy", "no_principle_matched")];
    } else {
      box, reasons := selected.value, [verified] + FiredReasons(a.matched);
      if box == Deny && a.exceptions.Some? {
        var lifted := Transform(a.matched, a.exceptions.value, a.now);
        reasons := reasons +
          AppliedReasons(lifted);
      }
    }
  }

  /**
   * Failure-free, the outcome is the graduated response to the floor the answers describe, the pooled risk and
   * the agent's trust.
   */
  lemma FailureFreeOutcome(cfg: Config, t: ActionType, a: Answers, next: nat)
    requires PolicyReached(a, NO_FAULTS)
    ensures var lifted := LiftedFloor(cfg, t, a);
            && FloorIs(cfg, t, a, lifted.floor, lifted.expiry)
            && Evaluate(cfg, t, a, NO_FAULTS, next).decision.outcome ==
               FinalOutcome(lifted.floor, lifted.expiry, AssessRisk(a.scorers, a.carried, a.expensive),
                            a.identity.trust, cfg.thresholds)
  {
    hide Evaluate, Decide, Gathered, MaxRisk, GraduatedResponse, FloorIs;
    LiftedFloorIs(cfg, t, a);
    FaultFreeOutcome(cfg, t, a, next);
    var box, reasons := DecideGrades(cfg, t, a);
  }

  /**
   * The advisory interpreter, malformed verdicts included: failure-free and on no match, the outcome is the
   * graduated response to the stricter of the class's own floor and the authorable outcome it names, and to
   * the class's own floor on every other answer.
   */
  lemma AdvisedOutcome(cfg: Config, t: ActionType, a: Answers, next: nat)
    requires PolicyReached(a, NO_FAULTS) && a.matched == []
    ensures var base := if t in cfg.posture.noMatchFloors then cfg.posture.noMatchFloors[t] else Allow;
            var outcome := Evaluate(cfg, t, a, NO_FAULTS, next).decision.outcome;
            var risk := AssessRisk(a.scorers, a.carried, a.expensive);
            match a.interpreter
            case Some(Verdict(Some(o), _, _)) =>
              outcome == FinalOutcome(if Authorable(o) && Rank(o) > Rank(base) then o else base, None,
                                      risk, a.identity.trust, cfg.thresholds)
            case _ => outcome == FinalOutcome(base, None, risk, a.identity.trust, cfg.thresholds)
  {
    hide Evaluate, AssessRisk, FinalOutcome;
    FailureFreeOutcome(cfg, t, a, next);
  }

  /** Every other field of the failure-free decision. */
  lemma FailureFreeDecision(cfg: Config, t: ActionType, a: Answers, next: nat)
    requires PolicyReached(a, NO_FAULTS)
    ensures var d, risk := Evaluate(cfg, t, a, NO_FAULTS, next).decision, AssessRisk(a.scorers, a.carried, a.expensive);
            && d.riskScore == risk && d.trustScore == a.identity.trust && d.evidenceRef == Some(next)
            && (d.expiresAt.Some? <==>
                  LiftGranted(a) && LiftedFloor(cfg, t, a).floor == Allow
                  && Band(risk, a.identity.trust, cfg.thresholds) == Allow)
            && (d.expiresAt.Some? ==> LiftJustified(a.matched, a.exceptions.value, a.now, d.expiresAt.value))
  {
    hide Evaluate, Decide, Gathered, MaxRisk, LiftJustified, Transform;
    FaultFreeReasons(cfg, t, a, next);
    FaultFreeScores(cfg, t, a, next);
    var box, reasons := DecideGrades(cfg, t, a);
    if a.exceptions.Some? {
      TransformExactly(a);
      TransformJustified(a.matched, a.exceptions.value, a.now);
    }
    if a.matched != [] {
      DenySelected(a.matched);
    }
  }

  lemma FaultFreeScores(cfg: Config, t: ActionType, a: Answers, next: nat)
    ensures var p, d := Decide(cfg, t, a, NO_FAULTS), Evaluate(cfg, t, a, NO_FAULTS, next).decision;
            && p.result.Ok? && d == p.result.value.(evidenceRef := Some(next))
  {
    hide Gathered, MaxRisk, GraduatedResponse, Transform, SelectFloor, Interpret, FiredReasons;
  }

  // ----- what each failure does -----

  /** A failure on the way to stage 4, policy having answered. */
  ghost predicate FailsAfterPolicy(a: Answers, f: Faults) {
    if a.matched == [] then a.interpreter.Some? && f.request
    else f.firedReasons ||
         (a.exceptions.Some? && (exists m :: m in a.matched && m.effect == Deny) &&
          (f.exceptions || (f.exceptionReason && LiftGranted(a))))
  }

  /** The stages raise exactly when a collaborator they get to does. */
  lemma RaisesExactly(cfg: Config, t: ActionType, a: Answers, f: Faults)
    ensures Decide(cfg, t, a, f).result.Err? <==>
            || f.kill
            || (a.kill.None? && f.identity)
            || (a.kill.None? && a.identity.ok && (f.enrich || f.correlator || f.policy))
            || (a.kill.None? && a.identity.ok && (FailsAfterPolicy(a, f) || f.scorers))
            || f.decision
  {
    hide Gathered, MaxRisk, GraduatedResponse, Transform, SelectFloor, Interpret, FiredReasons, LiftGranted;
    if a.matched != [] {
      DenySelected(a.matched);
      if a.exceptions.Some? {
        TransformExactly(a);
      }
    }
  }

  /** No floor is known before policy has answered; a failure afterwards leaves the floor that was not lifted. */
  lemma BoxExactly(cfg: Config, t: ActionType, a: Answers, f: Faults)
    ensures var box := Decide(cfg, t, a, f).box;
            if !f.kill && (a.kill.Some? || (!f.identity && !a.identity.ok)) then box == Some(Deny)
            else if !PolicyReached(a, f) then box == None
            else if FailsAfterPolicy(a, f) || f.scorers then
              && box.Some?
              && (if a.matched != [] then Strictest(a.matched, false, box.value)
                  else if f.request && a.interpreter.Some? then box.value == cfg.posture.NoMatchFloor(t)
                  else AdvisedFloor(cfg.posture.NoMatchFloor(t), a.interpreter, box.value))
            else
              var lifted := LiftedFloor(cfg, t, a);
              box == Some(FinalOutcome(lifted.floor, lifted.expiry, AssessRisk(a.scorers, a.carried, a.expensive),
                                       a.identity.trust, cfg.thresholds))
  {
    hide Decide, LiftGranted, Strictest, LiftedFloor, FinalOutcome, AssessRisk;
    if !PolicyReached(a, f) {
      CutShortBox(cfg, t, a, f);
    } else if a.matched == [] {
      UnmatchedBox(cfg, t, a, f);
    } else {
      MatchedBox(cfg, t, a, f);
    }
  }

  lemma CutShortBox(cfg: Config, t: ActionType, a: Answers, f: Faults)
    requires !PolicyReached(a, f)
    ensures Decide(cfg, t, a, f).box ==
            if !f.kill && (a.kill.Some? || (!f.identity && !a.identity.ok)) then Some(Deny) else None
  {
    hide Grade, Transform, SelectFloor;
  }

  lemma GradeBox(cfg: Config, a: Answers, f: Faults, box: Outcome, lifted: Lifted, reasons: seq<Reason>)
    ensures Grade(cfg, a, f, box, lifted, reasons).box ==
            Some(if f.scorers then box
                 else FinalOutcome(lifted.floor, lifted.expiry, AssessRisk(a.scorers, a.carried, a.expensive),
                                   a.identity.trust, cfg.thresholds))
  {
    hide Gathered, MaxRisk, GraduatedResponse;
  }

  lemma UnmatchedBox(cfg: Config, t: ActionType, a: Answers, f: Faults)
    requires PolicyReached(a, f) && a.matched == []
    ensures var box, lifted := Decide(cfg, t, a, f).box, LiftedFloor(cfg, t, a);
            if FailsAfterPolicy(a, f) then box == Some(cfg.posture.NoMatchFloor(t))
            else if f.scorers then
              box.Some? && AdvisedFloor(cfg.posture.NoMatchFloor(t), a.interpreter, box.value)
            else box == Some(FinalOutcome(lifted.floor, lifted.expiry, AssessRisk(a.scorers, a.carried, a.expensive),
                                          a.identity.trust, cfg.thresholds))
  {
    hide Grade, AssessRisk, FinalOutcome;
    var (floor, why) := Interpret(cfg.posture.NoMatchFloor(t), a.interpreter);
    GradeBox(cfg, a, f, floor, Lifted(floor, None),
             [PlainReason("identity", "identity_verified")] + why + [PlainReason("policy", "no_principle_matched")]);
  }

  lemma MatchedBox(cfg: Config, t: ActionType, a: Answers, f: Faults)
    requires PolicyReached(a, f) && a.matched != []
    ensures var box, lifted := Decide(cfg, t, a, f).box, LiftedFloor(cfg, t, a);
            if FailsAfterPolicy(a, f) || f.scorers then box.Some? && Strictest(a.matched, false, box.value)
            else box == Some(FinalOutcome(lifted.floor, lifted.expiry, AssessRisk(a.scorers, a.carried, a.expensive),
                                          a.identity.trust, cfg.thresholds))
  {
    hide Grade, Transform, Interpret, FiredReasons, LiftGranted, Strictest, AssessRisk, FinalOutcome;
    DenySelected(a.matched);
    SelectedIsStrictest(a.matched);
    var floor := SelectFloor(a.matched).value;
    var fired := [PlainReason("identity", "identity_verified")] + FiredReasons(a.matched);
    GradeBox(cfg, a, f, floor, Lifted(floor, None), fired);
    if a.exceptions.Some? {
      TransformExactly(a);
      var lifted := Transform(a.matched, a.exceptions.value, a.now);
      GradeBox(cfg, a, f, floor, lifted, fired + AppliedReasons(lifted));
    }
  }

  /**
   * The outcome under every schedule. On a fail-closed class it is the stages' own, if they finished and the
   * first append worked, and deny otherwise. On a fail-open class it is what the box last held, or allow when
   * it held nothing, and an allow whose last append raised is a deny.
   */
  lemma OutcomeExactly(cfg: Config, t: ActionType, a: Answers, f: Faults, next: nat)
    ensures var p, e := Decide(cfg, t, a, f), Evaluate(cfg, t, a, f, next);
            e.tried >= 1 &&
            e.decision.outcome ==
            if t !in cfg.posture.failOpenTypes then
              if p.result.Ok? && f.appends(0).Works? then p.result.value.outcome else Deny
            else
              var known := if p.box.Some? then p.box.value else Allow;
              if known == Allow && f.appends(e.tried - 1).Raises? then Deny else known
  {
    hide Decide;
    DecidedIsBoxed(cfg, t, a, f);
  }

  /**
   * Only the first append of the stages' decision carries the payload; the retry and the fail-safe record are
   * stripped of it. When that first append commits, its record is the first and holds that decision.
   */
  lemma PayloadOnFirstAppendOnly(cfg: Config, t: ActionType, a: Answers, f: Faults, next: nat)
    ensures var p, records := Decide(cfg, t, a, f), Evaluate(cfg, t, a, f, next).records;
            && (forall i :: 0 <= i < |records| && !records[i].stripped ==> i == 0 && p.result.Ok?)
            && (p.result.Ok? && (f.appends(0).Works? || f.appends(0).durable) ==>
                  records != [] && records[0] == Entry(false, p.result.value))
  {
    hide Decide, FailSafeReasons, PostureOutcome;
  }

  /** The stages finished no decision, or no append of it worked. */
  predicate FellThrough(p: Progress, f: Faults) {
    p.result.Err? ||
    (f.appends(0).Raises? && (f.appends(0).exc != Redaction || f.appends(1).Raises?))
  }

  predicate Says(reasons: seq<Reason>, code: string) {
    PlainReason("pipeline", code) in reasons
  }

  const FAIL_OPEN := "control_plane_failure_fail_open"
  const FAIL_CLOSED := "control_plane_failure_fail_closed"
  const SECRET_LEAK := "secret_leak_in_audit_body"
  const DEMOTED := "fail_open_unaudited_demoted_to_deny"
  const REDACTION_FAILED := "redaction_failed"

  lemma CodesDiffer()
    ensures |FAIL_OPEN| == 31 && |FAIL_CLOSED| == 33 && |DEMOTED| == 35
    ensures |SECRET_LEAK| == 25 && |REDACTION_FAILED| == 16
  {
  }

  lemma SaysEither(x: seq<Reason>, y: seq<Reason>, code: string)
    ensures Says(x + y, code) <==> Says(x, code) || Says(y, code)
  {
  }

  lemma SaysOne(said: string, code: string)
    ensures Says([PlainReason("pipeline", said)], code) <==> code == said
    ensures !Says([], code)
  {
  }

  /** The fail-safe's reasons: the posture first, then a secret leak, then the demotion. */
  lemma FailSafeReasonsAre(cfg: Config, t: ActionType, exc: Exception, box: Option<Outcome>, fault: AppendFault,
                           next: nat, code: string)
    ensures Says(FailSafe(cfg, t, exc, box, fault, next).0.reasons, code) <==>
            || code == (if t in cfg.posture.failOpenTypes then FAIL_OPEN else FAIL_CLOSED)
            || (exc == SecretLeak && code == SECRET_LEAK)
            || (t in cfg.posture.failOpenTypes && box in {None, Some(Allow)} && fault.Raises? && code == DEMOTED)
  {
    hide Says;
    var posture := [PlainReason("pipeline", if t in cfg.posture.failOpenTypes then FAIL_OPEN else FAIL_CLOSED)];
    var leak := if exc == SecretLeak then [PlainReason("pipeline", SECRET_LEAK)] else [];
    var demoted := [PlainReason("pipeline", DEMOTED)];
    assert FailSafeReasons(cfg, t, exc) == posture + leak;
    SaysEither(posture, leak, code);
    SaysEither(posture + leak, demoted, code);
    SaysOne(posture[0].code, code);
    SaysOne(SECRET_LEAK, code);
    SaysOne(DEMOTED, code);
  }

  lemma FailSafeSays(cfg: Config, t: ActionType, exc: Exception, box: Option<Outcome>, fault: AppendFault, next: nat)
    ensures var reasons := FailSafe(cfg, t, exc, box, fault, next).0.reasons;
            && (Says(reasons, FAIL_OPEN) <==> t in cfg.posture.failOpenTypes)
            && (Says(reasons, FAIL_CLOSED) <==> t !in cfg.posture.failOpenTypes)
            && (Says(reasons, SECRET_LEAK) <==> exc == SecretLeak)
            && (Says(reasons, DEMOTED) <==>
                  t in cfg.posture.failOpenTypes && box in {None, Some(Allow)} && fault.Raises?)
            && !Says(reasons, REDACTION_FAILED)
  {
    hide Says, FailSafe;
    CodesDiffer();
    FailSafeReasonsAre(cfg, t, exc, box, fault, next, FAIL_OPEN);
    FailSafeReasonsAre(cfg, t, exc, box, fault, next, FAIL_CLOSED);
    FailSafeReasonsAre(cfg, t, exc, box, fault, next, SECRET_LEAK);
    FailSafeReasonsAre(cfg, t, exc, box, fault, next, DEMOTED);
    FailSafeReasonsAre(cfg, t, exc, box, fault, next, REDACTION_FAILED);
  }

  /** What the append with its retry leaves: how it ends, and whether it says the redaction failed. */
  lemma WriteSays(cfg: Config, t: ActionType, d: Decision, f: Faults, next: nat)
    requires forall r :: r in d.reasons ==> r.stage != "pipeline"
    ensures var w := Write(cfg, t, d, f, next);
            if w.result.Ok? then
              && (f.appends(0).Works? || (f.appends(0).exc == Redaction && f.appends(1).Works?))
              && (forall code :: Says(w.result.value.reasons, code) <==>
                    code == REDACTION_FAILED && f.appends(0).Raises?)
            else
              && f.appends(0).Raises?
              && (if f.appends(0).exc != Redaction then w.result.error == f.appends(0).exc
                  else f.appends(1).Raises? && w.result.error == f.appends(1).exc)
  {
  }

  /** What the reasons of the fail-safe and of the redaction fallback mean. */
  lemma FailureReasonsMean(cfg: Config, t: ActionType, a: Answers, f: Faults, next: nat)
    ensures var p, e := Decide(cfg, t, a, f), Evaluate(cfg, t, a, f, next);
            var reasons := e.decision.reasons;
            && (Says(reasons, FAIL_OPEN) <==> FellThrough(p, f) && t in cfg.posture.failOpenTypes)
            && (Says(reasons, FAIL_CLOSED) <==> FellThrough(p, f) && t !in cfg.posture.failOpenTypes)
            && (Says(reasons, REDACTION_FAILED) <==> f.appends(0).Raises? && !FellThrough(p, f))
            && (Says(reasons, SECRET_LEAK) <==>
                  p.result.Ok? && f.appends(0).Raises? &&
                  (f.appends(0).exc == SecretLeak ||
                   (f.appends(0).exc == Redaction && f.appends(1).Raises? && f.appends(1).exc == SecretLeak)))
            && (Says(reasons, DEMOTED) <==>
                  FellThrough(p, f) && t in cfg.posture.failOpenTypes && p.box in {None, Some(Allow)}
                  && e.tried >= 1 && f.appends(e.tried - 1).Raises?)
  {
    hide Decide, Write, FailSafe, Says;
    StagesSayNothing(cfg, t, a, f);
    CodesDiffer();
    var p := Decide(cfg, t, a, f);
    var w := if p.result.Ok? then Write(cfg, t, p.result.value, f, next) else Written([], 0, Err(p.result.error));
    if p.result.Ok? {
      WriteSays(cfg, t, p.result.value, f, next);
    }
    if w.result.Err? {
      FailSafeSays(cfg, t, w.result.error, p.box, f.appends(w.calls), next + |w.records|);
    }
  }

  lemma {:induction false} RiskReasonsAre(findings: seq<Finding>)
    ensures forall r :: r in RiskReasons(findings) <==>
              exists x :: x in findings && r == PlainReason("risk", x.category)
  {
    if findings != [] {
      RiskReasonsAre(findings[..|findings| - 1]);
      assert findings == findings[..|findings| - 1] + [findings[|findings| - 1]];
    }
  }

  lemma GradeReasons(cfg: Config, a: Answers, f: Faults, box: Outcome, lifted: Lifted, reasons: seq<Reason>)
    ensures var p := Grade(cfg, a, f, box, lifted, reasons);
            && (p.result.Ok? ==>
                  p.result.value.reasons ==
                  reasons + RiskReasons(Gathered(a.scorers, a.carried, a.expensive)) +
                  [PlainReason("graduated", OutcomeName(p.result.value.outcome))])
            && (p.result.Err? ==> p.result.error == Generic)
  {
    hide Gathered, MaxRisk, GraduatedResponse;
  }

  /** The one reason an interpreter's answer leaves. */
  function AdviceReason(answer: Interpretation): Reason {
    match answer
    case InterpreterRaises => PlainReason("interpreter", "interpreter_error")
    case Verdict(Some(o), ref, malformed) =>
      if !Authorable(o) then PlainReason("interpreter", "interpreter_invalid_verdict")
      else if malformed then PlainReason("interpreter", "interpreter_error")
      else Reason("interpreter", "interpreter_advisory", AdvisoryRef(ref), None)
    case Verdict(None, _, _) => PlainReason("interpreter", "interpreter_invalid_verdict")
  }

  /** The reasons policy leaves. */
  ghost function PolicyReasons(a: Answers): seq<Reason> {
    if a.matched == [] then
      (if a.interpreter.Some? then [AdviceReason(a.interpreter.value)] else []) +
      [PlainReason("policy", "no_principle_matched")]
    else
      FiredReasons(a.matched) +
      (if LiftGranted(a) then [PlainReason("policy", "temporary_exception_applied")] else [])
  }

  /** The reasons of the stages, in order, when they finish past policy. */
  ghost predicate ReasonsInOrder(a: Answers, p: Progress) {
    && (p.result.Err? ==> p.result.error == Generic)
    && (p.result.Ok? ==>
          p.result.value.reasons ==
          [PlainReason("identity", "identity_verified")] + PolicyReasons(a) +
          RiskReasons(Gathered(a.scorers, a.carried, a.expensive)) +
          [PlainReason("graduated", OutcomeName(p.result.value.outcome))])
  }

  lemma ReasonsPastPolicy(cfg: Config, t: ActionType, a: Answers, f: Faults)
    requires PolicyReached(a, f)
    ensures ReasonsInOrder(a, Decide(cfg, t, a, f))
  {
    hide Grade, Gathered, Transform, OutcomeName, LiftGranted, FiredReasons, RiskReasons;
    if a.matched == [] {
      UnmatchedReasons(cfg, t, a, f);
    } else {
      MatchedReasons(cfg, t, a, f);
    }
  }

  lemma UnmatchedReasons(cfg: Config, t: ActionType, a: Answers, f: Faults)
    requires PolicyReached(a, f) && a.matched == []
    ensures ReasonsInOrder(a, Decide(cfg, t, a, f))
  {
    hide Grade, Gathered, Transform, OutcomeName, LiftGranted, FiredReasons, RiskReasons;
    var verified := PlainReason("identity", "identity_verified");
    var (floor, why) := Interpret(cfg.posture.NoMatchFloor(t), a.interpreter);
    var reasons := [verified] + why + [PlainReason("policy", "no_principle_matched")];
    assert reasons == [verified] + PolicyReasons(a);
    GradeReasons(cfg, a, f, floor, Lifted(floor, None), reasons);
  }

  lemma MatchedReasons(cfg: Config, t: ActionType, a: Answers, f: Faults)
    requires PolicyReached(a, f) && a.matched != []
    ensures ReasonsInOrder(a, Decide(cfg, t, a, f))
  {
    hide Grade, Gathered, Transform, Interpret, OutcomeName, LiftGranted, FiredReasons, RiskReasons;
    var verified := PlainReason("identity", "identity_verified");
    DenySelected(a.matched);
    var floor := SelectFloor(a.matched).value;
    var fired := [verified] + FiredReasons(a.matched);
    if a.exceptions.Some? {
      TransformExactly(a);
      var lifted := Transform(a.matched, a.exceptions.value, a.now);
      assert fired + AppliedReasons(lifted) == [verified] + PolicyReasons(a);
      GradeReasons(cfg, a, f, floor, lifted, fired + AppliedReasons(lifted));
    }
    LiftNeedsDeny(a);
    if !LiftGranted(a) {
      assert fired == [verified] + PolicyReasons(a);
    }
    GradeReasons(cfg, a, f, floor, Lifted(floor, None), fired);
  }

  lemma LiftNeedsDeny(a: Answers)
    ensures LiftGranted(a) ==> a.exceptions.Some? && exists m :: m in a.matched && m.effect == Deny
  {
  }

  lemma PolicyReasonsAre(a: Answers)
    ensures forall r :: r in PolicyReasons(a) ==> r.stage in {"policy", "interpreter"}
    ensures PlainReason("policy", "no_principle_matched") in PolicyReasons(a) <==> a.matched == []
    ensures PlainReason("policy", "temporary_exception_applied") in PolicyReasons(a) <==> LiftGranted(a)
    ensures forall r :: r in PolicyReasons(a) && r.stage == "interpreter" <==>
              a.matched == [] && a.interpreter.Some? && r == AdviceReason(a.interpreter.value)
  {
    forall r | r in FiredReasons(a.matched) ensures r.stage == "policy" && r.principleRef.Some? {
      FiredReasonsCite(a.matched, r);
    }
  }

  /** The stages leave no pipeline reason, and end in an error of their own only as a plain failure. */
  lemma StagesSayNothing(cfg: Config, t: ActionType, a: Answers, f: Faults)
    ensures var p := Decide(cfg, t, a, f);
            && (p.result.Ok? ==> forall r :: r in p.result.value.reasons ==> r.stage != "pipeline")
            && (p.result.Err? ==> p.result.error == Generic)
  {
    hide Decide, PolicyReached, PolicyReasons, RiskReasons, Gathered, OutcomeName;
    if PolicyReached(a, f) {
      ReasonsPastPolicy(cfg, t, a, f);
      PolicyReasonsAre(a);
      RiskReasonsAre(Gathered(a.scorers, a.carried, a.expensive));
    } else {
      CutShortReason(cfg, t, a, f);
      assert "identity"[0] == 'i' && "pipeline"[0] == 'p';
    }
  }

  /** A kill or a forged identity leaves one reason. */
  lemma CutShortReason(cfg: Config, t: ActionType, a: Answers, f: Faults)
    requires !PolicyReached(a, f)
    ensures var p := Decide(cfg, t, a, f);
            && (p.result.Err? ==> p.result.error == Generic)
            && (p.result.Ok? ==>
                  p.result.value ==
                  Decision(Deny, 0.0, 0.0,
                           if a.kill.Some? then [PlainReason("killswitch", a.kill.value + "_killed")]
                           else [PlainReason("identity", "forged_or_unknown_identity")], None, None))
  {
    hide Grade, Transform, SelectFloor;
  }

  /** What the reasons of a failure-free decision past policy mean, beside the fired principles. */
  lemma FailureFreeReasonsMean(cfg: Config, t: ActionType, a: Answers, next: nat)
    requires PolicyReached(a, NO_FAULTS)
    ensures var d := Evaluate(cfg, t, a, NO_FAULTS, next).decision;
            && d.reasons != [] && d.reasons[0] == PlainReason("identity", "identity_verified")
            && d.reasons[|d.reasons| - 1] == PlainReason("graduated", OutcomeName(d.outcome))
            && (PlainReason("policy", "no_principle_matched") in d.reasons <==> a.matched == [])
            && (PlainReason("policy", "temporary_exception_applied") in d.reasons <==> LiftGranted(a))
            && (forall c :: PlainReason("risk", c) in d.reasons <==>
                  exists x :: x in Gathered(a.scorers, a.carried, a.expensive) && x.category == c)
            && (forall r :: r in d.reasons && r.stage == "interpreter" <==>
                  a.matched == [] && a.interpreter.Some? && r == AdviceReason(a.interpreter.value))
  {
    hide Evaluate, Decide, Gathered, OutcomeName, LiftGranted, PolicyReasons, RiskReasons, AdviceReason, PolicyReached;
    FaultFreeScores(cfg, t, a, next);
    ReasonsPastPolicy(cfg, t, a, NO_FAULTS);
    PolicyReasonsAre(a);
    RiskReasonsAre(Gathered(a.scorers, a.carried, a.expensive));
  }

  // ----- a malformed interpreter verdict -----

  /** Raising the floor changes the final outcome exactly when it is raised above that outcome. */
  lemma RaisedFloor(floor: Outcome, o: Outcome, risk: real, trust: real, t: Thresholds)
    requires Authorable(o)
    ensures FinalOutcome(MaxOutcome(floor, o), None, risk, trust, t) == FinalOutcome(floor, None, risk, trust, t) <==>
            Rank(o) <= Rank(FinalOutcome(floor, None, risk, trust, t))
  {
  }

  /**
   * When a malformed verdict is as harmless as a raising interpreter, failure-free and on no match: for
   * the floor, exactly when it names no authorable outcome above the no-match floor; for the decision,
   * exactly when it names none above the graduated response to that floor, the pooled risk and the trust.
   */
  lemma MalformedVerdictStands(cfg: Config, t: ActionType, a: Answers, o: Option<Outcome>, ref: Option<string>,
                               next: nat)
    requires PolicyReached(a, NO_FAULTS) && a.matched == []
    ensures var base := cfg.posture.NoMatchFloor(t);
            Interpret(base, Some(Verdict(o, ref, true))).0 == Interpret(base, Some(InterpreterRaises)).0 <==>
            o.None? || !Authorable(o.value) || Rank(o.value) <= Rank(base)
    ensures var malformed := Evaluate(cfg, t, a.(interpreter := Some(Verdict(o, ref, true))), NO_FAULTS, next).decision;
            var raised := Evaluate(cfg, t, a.(interpreter := Some(InterpreterRaises)), NO_FAULTS, next).decision;
            malformed.outcome == raised.outcome <==>
            o.None? || !Authorable(o.value) ||
            Rank(o.value) <= Rank(FinalOutcome(cfg.posture.NoMatchFloor(t), None,
                                               AssessRisk(a.scorers, a.carried, a.expensive),
                                               a.identity.trust, cfg.thresholds))
  {
    hide Evaluate, FinalOutcome, AssessRisk;
    FailureFreeOutcome(cfg, t, a.(interpreter := Some(Verdict(o, ref, true))), next);
    FailureFreeOutcome(cfg, t, a.(interpreter := Some(InterpreterRaises)), next);
    if o.Some? && Authorable(o.value) {
      RaisedFloor(cfg.posture.NoMatchFloor(t), o.value, AssessRisk(a.scorers, a.carried, a.expensive),
                  a.identity.trust, cfg.thresholds);
    }
  }

  /** A tool call nothing matches: allowed when the interpreter raises, denied when its deny is malformed. */
  lemma MalformedDenyStillDenies(next: nat)
    ensures exists cfg: Config, a: Answers ::
              && Evaluate(cfg, ToolCall, a.(interpreter := Some(InterpreterRaises)), NO_FAULTS, next)
                 .decision.outcome == Allow
              && Evaluate(cfg, ToolCall, a.(interpreter := Some(Verdict(Some(Deny), None, true))), NO_FAULTS, next)
                 .decision.outcome == Deny
  {
    hide Evaluate;
    var cfg := Config(PostureMap({}, map[]), Thresholds(0.4, 0.7, 0.2));
    var a := Answers(None, Identity(true, 1.0), [], None, None, 0, [], [], []);
    assert AssessRisk([], [], []) == 0.0;
    FailureFreeOutcome(cfg, ToolCall, a.(interpreter := Some(InterpreterRaises)), next);
    FailureFreeOutcome(cfg, ToolCall, a.(interpreter := Some(Verdict(Some(Deny), None, true))), next);
  }

  // ----- monotonicity of the outcome -----

  /**
   * For fixed matches, exceptions and thresholds, more scorers or findings, higher scores or lower trust
   * never lower the rank of the outcome the pipeline returns.
   */
  lemma PipelineNeverRelaxes(cfg: Config, t: ActionType, a: Answers, b: Answers, next: nat)
    requires a.kill == b.kill && a.identity.ok == b.identity.ok && b.identity.trust <= a.identity.trust
    requires a.matched == b.matched && a.interpreter == b.interpreter && a.exceptions == b.exceptions && a.now == b.now
    requires ScorersCover(b.scorers, a.scorers) && Covers(b.carried, a.carried)
    requires ScorersCover(b.expensive, a.expensive)
    requires forall x :: x in Gathered(b.scorers, b.carried, b.expensive) ==> x.risk >= 0.0
    ensures Rank(Evaluate(cfg, t, a, NO_FAULTS, next).decision.outcome) <=
            Rank(Evaluate(cfg, t, b, NO_FAULTS, next).decision.outcome)
  {
    hide Evaluate, Decide, Gathered, MaxRisk, GraduatedResponse, Transform, Interpret;
    if PolicyReached(a, NO_FAULTS) {
      FailureFreeOutcome(cfg, t, a, next);
      FailureFreeOutcome(cfg, t, b, next);
      var lifted := LiftedFloor(cfg, t, a);
      OutcomeNeverRelaxes(lifted.floor, lifted.expiry, cfg.thresholds, a.identity.trust, b.identity.trust,
                          a.scorers, a.carried, a.expensive, b.scorers, b.carried, b.expensive);
    } else {
      FaultFreeOutcome(cfg, t, a, next);
      CutShortIsDeny(cfg, t, a);
      FaultFreeOutcome(cfg, t, b, next);
      CutShortIsDeny(cfg, t, b);
    }
  }

  lemma CutShortIsDeny(cfg: Config, t: ActionType, a: Answers)
    requires !PolicyReached(a, NO_FAULTS)
    ensures Decide(cfg, t, a, NO_FAULTS).result.Ok? && Decide(cfg, t, a, NO_FAULTS).result.value.outcome == Deny
  {
    hide Grade, SelectFloor, Transform;
  }

  // ----- what a decision cites -----

  lemma {:induction false} FiredReasonsCite(matched: seq<MatchedPrinciple>, r: Reason)
    requires r in FiredReasons(matched)
    ensures r.stage == "policy" && r.principleRef.Some? && r.effect.Some?
    ensures MatchedPrinciple(r.principleRef.value, r.effect.value) in matched
  {
    var front := matched[..|matched| - 1];
    assert matched == front + [matched[|matched| - 1]];
    if r in FiredReasons(front) {
      FiredReasonsCite(front, r);
    }
  }

  lemma {:induction false} FiredReasonsCover(matched: seq<MatchedPrinciple>, m: MatchedPrinciple) returns (r: Reason)
    requires m in matched
    ensures r in FiredReasons(matched) && r.stage == "policy"
    ensures r.principleRef == Some(m.principleRef) && r.effect == Some(m.effect)
  {
    var front := matched[..|matched| - 1];
    assert matched == front + [matched[|matched| - 1]];
    if m in front {
      r := FiredReasonsCover(front, m);
    } else {
      r := Reason("policy", "constitution_principle_fired", Some(m.principleRef), Some(m.effect));
    }
  }

  lemma {:induction false} RiskReasonsCiteNothing(findings: seq<Finding>, r: Reason)
    requires r in RiskReasons(findings)
    ensures r.principleRef.None?
  {
    if r in RiskReasons(findings[..|findings| - 1]) {
      RiskReasonsCiteNothing(findings[..|findings| - 1], r);
    }
  }

  /** The ref a well-formed verdict with an authorable outcome names. */
  function NamedRef(answer: Option<Interpretation>): Option<string> {
    match answer
    case Some(Verdict(Some(o), ref, false)) => if Authorable(o) then AdvisoryRef(ref) else None
    case _ => None
  }

  /** The reasons that may carry a ref: one per matched principle, or the advisory one when nothing matched. */
  function CitingReasons(a: Answers): seq<Reason> {
    if a.matched != [] then FiredReasons(a.matched)
    else if NamedRef(a.interpreter).None? then []
    else [Reason("interpreter", "interpreter_advisory", NamedRef(a.interpreter), None)]
  }

  /** Beside reasons without a ref, these are some of the given ones. */
  ghost predicate CitesWithin(reasons: seq<Reason>, citing: seq<Reason>) {
    forall r :: r in reasons && r.principleRef.Some? ==> r in citing
  }

  ghost predicate CitesAll(reasons: seq<Reason>, citing: seq<Reason>) {
    forall r :: r in citing ==> r in reasons
  }

  lemma GradeCites(cfg: Config, a: Answers, f: Faults, box: Outcome, lifted: Lifted, reasons: seq<Reason>,
                   citing: seq<Reason>)
    requires CitesWithin(reasons, citing) && CitesAll(reasons, citing)
    ensures var p := Grade(cfg, a, f, box, lifted, reasons);
            p.result.Ok? ==> CitesWithin(p.result.value.reasons, citing) && CitesAll(p.result.value.reasons, citing)
  {
    hide Gathered, MaxRisk, GraduatedResponse;
    var findings := Gathered(a.scorers, a.carried, a.expensive);
    forall r | r in RiskReasons(findings) ensures r.principleRef.None? {
      RiskReasonsCiteNothing(findings, r);
    }
  }

  /** The reasons before stage 4. */
  lemma UnmatchedCites(a: Answers, base: Outcome)
    requires a.matched == []
    ensures var reasons := [PlainReason("identity", "identity_verified")] + Interpret(base, a.interpreter).1 +
                           [PlainReason("policy", "no_principle_matched")];
            CitesWithin(reasons, CitingReasons(a)) && CitesAll(reasons, CitingReasons(a))
  {
  }

  lemma MatchedCites(a: Answers, applied: seq<Reason>)
    requires a.matched != [] && forall r :: r in applied ==> r.principleRef.None?
    ensures var reasons := [PlainReason("identity", "identity_verified")] + FiredReasons(a.matched) + applied;
            CitesWithin(reasons, CitingReasons(a)) && CitesAll(reasons, CitingReasons(a))
  {
  }

  lemma DecideCites(cfg: Config, t: ActionType, a: Answers, f: Faults)
    requires Decide(cfg, t, a, f).result.Ok?
    ensures var reasons := Decide(cfg, t, a, f).result.value.reasons;
            if PolicyReached(a, f) then CitesWithin(reasons, CitingReasons(a)) && CitesAll(reasons, CitingReasons(a))
            else CitesWithin(reasons, [])
  {
    hide Grade, Transform, CitesWithin, CitesAll, FiredReasons, CitingReasons;
    if PolicyReached(a, f) {
      var verified := PlainReason("identity", "identity_verified");
      var selected := SelectFloor(a.matched);
      if selected.None? {
        var (floor, why) := Interpret(cfg.posture.NoMatchFloor(t), a.interpreter);
        UnmatchedCites(a, cfg.posture.NoMatchFloor(t));
        GradeCites(cfg, a, f, floor, Lifted(floor, None),
                   [verified] + why + [PlainReason("policy", "no_principle_matched")], CitingReasons(a));
      } else {
        var fired := [verified] + FiredReasons(a.matched);
        MatchedCites(a, []);
        assert fired + [] == fired;
        GradeCites(cfg, a, f, selected.value, Lifted(selected.value, None), fired, CitingReasons(a));
        if a.exceptions.Some? {
          var lifted := Transform(a.matched, a.exceptions.value, a.now);
          var applied := AppliedReasons(lifted);
          MatchedCites(a, applied);
          GradeCites(cfg, a, f, selected.value, lifted, fired + applied, CitingReasons(a));
        }
      }
    } else {
      PlainCites(Decide(cfg, t, a, f).result.value.reasons, []);
    }
  }

  lemma PlainCites(reasons: seq<Reason>, citing: seq<Reason>)
    requires forall r :: r in reasons ==> r.principleRef.None?
    ensures CitesWithin(reasons, citing)
  {
  }

  lemma WriteCites(cfg: Config, t: ActionType, d: Decision, f: Faults, next: nat, citing: seq<Reason>)
    requires CitesWithin(d.reasons, citing)
    ensures var w := Write(cfg, t, d, f, next); w.result.Ok? ==> CitesWithin(w.result.value.reasons, citing)
  {
  }

  lemma FailSafeCites(cfg: Config, t: ActionType, exc: Exception, box: Option<Outcome>, fault: AppendFault, next: nat,
                      citing: seq<Reason>)
    ensures CitesWithin(FailSafe(cfg, t, exc, box, fault, next).0.reasons, citing)
  {
    hide CitesWithin, PostureOutcome, MaxOutcome;
    PlainCites(FailSafe(cfg, t, exc, box, fault, next).0.reasons, citing);
  }

  /** Whatever fails, the reasons that carry a ref are citing ones, and there are none when policy never answered. */
  lemma EvaluationCites(cfg: Config, t: ActionType, a: Answers, f: Faults, next: nat)
    ensures CitesWithin(Evaluate(cfg, t, a, f, next).decision.reasons,
                        if PolicyReached(a, f) then CitingReasons(a) else [])
  {
    hide Decide, Write, FailSafe, CitesWithin, CitingReasons;
    var p := Decide(cfg, t, a, f);
    var citing := if PolicyReached(a, f) then CitingReasons(a) else [];
    var w := if p.result.Ok? then Write(cfg, t, p.result.value, f, next) else Written([], 0, Err(p.result.error));
    if p.result.Ok? {
      DecideCites(cfg, t, a, f);
      WriteCites(cfg, t, p.result.value, f, next, citing);
    }
    if w.result.Err? {
      FailSafeCites(cfg, t, w.result.error, p.box, f.appends(w.calls), next + |w.records|, citing);
    }
  }

  /**
   * Whatever fails, a ref in a decision means that policy answered, and is either a policy reason citing a
   * matched principle with its effect, or, when nothing matched, the ref the interpreter named.
   */
  lemma DecisionCitesMatched(cfg: Config, t: ActionType, a: Answers, f: Faults, next: nat, r: Reason)
    requires r in Evaluate(cfg, t, a, f, next).decision.reasons && r.principleRef.Some?
    ensures PolicyReached(a, f)
    ensures if a.matched != []
            then r.stage == "policy" && r.effect.Some? &&
                 MatchedPrinciple(r.principleRef.value, r.effect.value) in a.matched
            else r.stage == "interpreter" && r.principleRef == NamedRef(a.interpreter)
  {
    hide Evaluate, FiredReasons, NamedRef;
    EvaluationCites(cfg, t, a, f, next);
    if a.matched != [] {
      FiredReasonsCite(a.matched, r);
    }
  }

  /**
   * Failure-free, a decision carries an unmatched ref exactly when policy answered that nothing matched and
   * a well-formed verdict with an authorable outcome names one; every matched principle is cited.
   */
  lemma UnmatchedRefExactly(cfg: Config, t: ActionType, a: Answers, next: nat)
    ensures var reasons := Evaluate(cfg, t, a, NO_FAULTS, next).decision.reasons;
            && ((exists r :: r in reasons && r.principleRef.Some?
                             && forall m :: m in a.matched ==> m.principleRef != r.principleRef.value) <==>
                PolicyReached(a, NO_FAULTS) && a.matched == [] && NamedRef(a.interpreter).Some?)
            && (PolicyReached(a, NO_FAULTS) ==> forall m :: m in a.matched ==>
                  exists r :: r in reasons && r.stage == "policy"
                              && r.principleRef == Some(m.principleRef) && r.effect == Some(m.effect))
  {
    hide Evaluate, Decide, FiredReasons, NamedRef, CitesWithin;
    FaultFreeReasons(cfg, t, a, next);
    DecideCites(cfg, t, a, NO_FAULTS);
    var reasons := Evaluate(cfg, t, a, NO_FAULTS, next).decision.reasons;
    forall r | r in reasons && r.principleRef.Some?
      ensures PolicyReached(a, NO_FAULTS)
      ensures if a.matched != [] then exists m :: m in a.matched && m.principleRef == r.principleRef.value
              else r.principleRef == NamedRef(a.interpreter)
    {
      DecisionCitesMatched(cfg, t, a, NO_FAULTS, next, r);
      if a.matched != [] {
        assert MatchedPrinciple(r.principleRef.value, r.effect.value) in a.matched;
      }
    }
    if PolicyReached(a, NO_FAULTS) {
      if a.matched == [] && NamedRef(a.interpreter).Some? {
        assert Reason("interpreter", "interpreter_advisory", NamedRef(a.interpreter), None) in CitingReasons(a);
      }
      forall m | m in a.matched
        ensures exists r :: r in reasons && r.stage == "policy"
                            && r.principleRef == Some(m.principleRef) && r.effect == Some(m.effect)
      {
        var fired := FiredReasonsCover(a.matched, m);
        assert fired in CitingReasons(a);
      }
    }
  }

  lemma FaultFreeReasons(cfg: Config, t: ActionType, a: Answers, next: nat)
    ensures var p := Decide(cfg, t, a, NO_FAULTS);
            p.result.Ok? && Evaluate(cfg, t, a, NO_FAULTS, next).decision.reasons == p.result.value.reasons
  {
    hide Gathered, MaxRisk, GraduatedResponse, Transform, SelectFloor, Interpret, FiredReasons;
  }

  // ----- temporary exceptions -----

  lemma {:induction false} DenyRefsAre(matched: seq<MatchedPrinciple>)
    ensures forall r :: r in DenyRefs(matched) <==> MatchedPrinciple(r, Deny) in matched
  {
    if matched != [] {
      DenyRefsAre(matched[..|matched| - 1]);
      assert matched == matched[..|matched| - 1] + [matched[|matched| - 1]];
    }
  }

  lemma {:induction false} NonDenyAre(matched: seq<MatchedPrinciple>)
    ensures forall m :: m in NonDeny(matched) <==> m in matched && m.effect != Deny
  {
    if matched != [] {
      NonDenyAre(matched[..|matched| - 1]);
      assert matched == matched[..|matched| - 1] + [matched[|matched| - 1]];
    }
  }

  lemma {:induction false} MinExpiryIsMin(active: map<string, int>, refs: seq<string>) returns (earliest: string)
    requires refs != [] && forall r :: r in refs ==> r in active
    ensures earliest in refs && MinExpiry(active, refs) == active[earliest]
    ensures forall r :: r in refs ==> active[earliest] <= active[r]
  {
    earliest := refs[|refs| - 1];
    assert refs == refs[..|refs| - 1] + [earliest];
    if |refs| > 1 {
      var rest := MinExpiryIsMin(active, refs[..|refs| - 1]);
      if active[earliest] >= active[rest] {
        earliest := rest;
      }
    }
  }

  /** What a lifted deny floor means for the matched principles and the grants looked up. */
  ghost predicate LiftJustified(matched: seq<MatchedPrinciple>, active: map<string, int>, now: int, expiry: int) {
    && (forall m :: m in matched && m.effect == Deny ==> Covered(active, now, m.principleRef))
    && (forall m :: m in matched && m.effect == Deny ==> expiry <= active[m.principleRef])
    && (exists m :: m in matched && m.effect == Deny && expiry == active[m.principleRef])
  }

  lemma TransformJustified(matched: seq<MatchedPrinciple>, active: map<string, int>, now: int)
    ensures var lifted := Transform(matched, active, now);
            && (lifted.expiry.None? ==> lifted.floor == Deny)
            && (lifted.expiry.Some? ==>
                  && LiftJustified(matched, active, now, lifted.expiry.value)
                  && forall m :: m in matched && m.effect != Deny ==> Rank(m.effect) <= Rank(lifted.floor))
  {
    DenyRefsAre(matched);
    NonDenyAre(matched);
    var refs := DenyRefs(matched);
    var lifted := Transform(matched, active, now);
    if lifted.expiry.Some? {
      assert forall r :: r in refs ==> Covered(active, now, r);
      var r := MinExpiryIsMin(active, refs);
      assert MatchedPrinciple(r, Deny) in matched;
      assert forall m :: m in matched && m.effect == Deny ==> m == MatchedPrinciple(m.principleRef, Deny);
    }
  }

  /**
   * On a fail-closed class, with authorable effects and no temporary_exception no-match floor, a
   * temporary_exception outcome means: every matched deny principle is covered by a looked-up grant that
   * has not expired, no other matched effect ranks above allow, and the decision expires with the
   * earliest of those grants.
   */
  lemma TemporaryExceptionIsJustified(cfg: Config, t: ActionType, a: Answers, f: Faults, next: nat)
    requires cfg.posture.FailPosture(t) == Closed
    requires cfg.posture.NoMatchFloor(t) != TemporaryException
    requires forall m :: m in a.matched ==> Authorable(m.effect)
    ensures var d := Evaluate(cfg, t, a, f, next).decision;
            d.outcome == TemporaryException ==>
              && a.exceptions.Some? && d.expiresAt.Some?
              && LiftJustified(a.matched, a.exceptions.value, a.now, d.expiresAt.value)
              && forall m :: m in a.matched && m.effect != Deny ==> m.effect == Allow
  {
    hide Decide, LiftJustified;
    ClosedKeepsExpiry(cfg, t, a, f, next);
    TemporaryExceptionDecided(cfg, t, a, f);
  }

  /** On a fail-closed class a temporary_exception can only be the decision of the stages. */
  lemma ClosedKeepsExpiry(cfg: Config, t: ActionType, a: Answers, f: Faults, next: nat)
    requires cfg.posture.FailPosture(t) == Closed
    ensures var p := Decide(cfg, t, a, f);
            Evaluate(cfg, t, a, f, next).decision.outcome == TemporaryException ==>
              && p.result.Ok? && p.result.value.outcome == TemporaryException
              && p.result.value.expiresAt == Evaluate(cfg, t, a, f, next).decision.expiresAt
  {
    hide Decide;
  }

  /** Stages 4 and 5 end in temporary_exception only on a lifted floor that is allow. */
  lemma GradedException(cfg: Config, a: Answers, f: Faults, box: Outcome, lifted: Lifted, reasons: seq<Reason>)
    requires lifted.floor != TemporaryException
    ensures var p := Grade(cfg, a, f, box, lifted, reasons);
            p.result.Ok? && p.result.value.outcome == TemporaryException ==>
              lifted.floor == Allow && lifted.expiry.Some? && p.result.value.expiresAt == lifted.expiry
  {
    hide Gathered, MaxRisk;
  }

  lemma InterpretAuthorable(floor: Outcome, answer: Option<Interpretation>)
    requires floor != TemporaryException
    ensures Interpret(floor, answer).0 != TemporaryException
  {
  }

  lemma TemporaryExceptionDecided(cfg: Config, t: ActionType, a: Answers, f: Faults)
    requires cfg.posture.NoMatchFloor(t) != TemporaryException
    requires forall m :: m in a.matched ==> Authorable(m.effect)
    ensures var p := Decide(cfg, t, a, f);
            p.result.Ok? && p.result.value.outcome == TemporaryException ==>
              && a.exceptions.Some? && p.result.value.expiresAt.Some?
              && LiftJustified(a.matched, a.exceptions.value, a.now, p.result.value.expiresAt.value)
              && forall m :: m in a.matched && m.effect != Deny ==> m.effect == Allow
  {
    hide Grade, LiftJustified, Transform, Interpret, FiredReasons, SelectFloor;
    var verified := PlainReason("identity", "identity_verified");
    var floor := SelectFloor(a.matched);
    if floor.None? {
      var base := cfg.posture.NoMatchFloor(t);
      InterpretAuthorable(base, a.interpreter);
      var (advised, why) := Interpret(base, a.interpreter);
      GradedException(cfg, a, f, advised, Lifted(advised, None),
                      [verified] + why + [PlainReason("policy", "no_principle_matched")]);
    } else {
      var i :| 0 <= i < |a.matched| && a.matched[i].effect == floor.value;
      assert Authorable(floor.value);
      var fired := [verified] + FiredReasons(a.matched);
      GradedException(cfg, a, f, floor.value, Lifted(floor.value, None), fired);
      if floor.value == Deny && a.exceptions.Some? {
        LiftedException(cfg, a, f, fired);
      }
    }
  }

  lemma LiftedException(cfg: Config, a: Answers, f: Faults, fired: seq<Reason>)
    requires forall m :: m in a.matched ==> Authorable(m.effect)
    requires a.exceptions.Some?
    ensures var lifted := Transform(a.matched, a.exceptions.value, a.now);
            var p := Grade(cfg, a, f, Deny, lifted,
                           fired + AppliedReasons(lifted));
            p.result.Ok? && p.result.value.outcome == TemporaryException ==>
              && p.result.value.expiresAt.Some?
              && LiftJustified(a.matched, a.exceptions.value, a.now, p.result.value.expiresAt.value)
              && forall m :: m in a.matched && m.effect != Deny ==> m.effect == Allow
  {
    hide Grade, LiftJustified;
    var lifted := Transform(a.matched, a.exceptions.value, a.now);
    TransformJustified(a.matched, a.exceptions.value, a.now);
    TransformAuthorable(a.matched, a.exceptions.value, a.now);
    GradedException(cfg, a, f, Deny, lifted,
                    fired + AppliedReasons(lifted));
  }

  lemma TransformAuthorable(matched: seq<MatchedPrinciple>, active: map<string, int>, now: int)
    requires forall m :: m in matched ==> Authorable(m.effect)
    ensures Transform(matched, active, now).floor != TemporaryException
  {
    NonDenyAre(matched);
    var floor := SelectFloor(NonDeny(matched));
    if floor.Some? {
      var i :| 0 <= i < |NonDeny(matched)| && NonDeny(matched)[i].effect == floor.value;
      assert NonDeny(matched)[i] in matched;
    }
  }
}
