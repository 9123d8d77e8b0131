/** governed_call: the one enforcement map from a decision to what runs. */
module Enforcement {
  import opened Common
  import opened Contract

  const EXECUTABLE: set<Outcome> := {Allow, Warn, TemporaryException, GovernanceReview}
  const SUBSTITUTED: set<Outcome> := {Sandbox, RequireConsensus}

  datatype Effect = Dispatched | ReviewOpened | ReviewDropped | Substituted(requested: Outcome) | Parked | Ran

  /** GovernanceDenied, or an exception escaping from a collaborator. */
  datatype Ending = Returned | Refused | Escaped

  /** Which seams are wired and which of them raise; park is the coordinator's answer, None when it raises. */
  datatype Seams = Seams(
    dispatcher: bool, dispatchRaises: bool,
    coordinator: bool, reviewRaises: bool, substitutionRaises: bool, park: Option<bool>)

  /** A review is owed on a governance_review outcome, and on any fired principle with that effect. */
  predicate ReviewObliged(d: Decision) {
    || d.outcome == GovernanceReview
    || exists i :: 0 <= i < |d.reasons| && d.reasons[i].code == "constitution_principle_fired"
                   && d.reasons[i].effect == Some(GovernanceReview)
  }

  /** Without a coordinator an owed review is only logged as dropped. */
  function ReviewEffect(s: Seams): Effect {
    if s.coordinator then ReviewOpened else ReviewDropped
  }

  datatype Next = RunNow | Refuse | Escape | Park

  /** Everything before the operation or the wait: dispatch, review, and the enforcement map itself. */
  function Prelude(d: Decision, s: Seams): (seq<Effect>, Next) {
    var dispatched := if s.dispatcher then [Dispatched] else [];
    if s.dispatcher && s.dispatchRaises then ([], Escape)
    else if ReviewObliged(d) && s.coordinator && s.reviewRaises then (dispatched, Escape)
    else
      var reviewed := dispatched +
        (if ReviewObliged(d) then [ReviewEffect(s)] else []);
      if d.outcome in EXECUTABLE then (reviewed, RunNow)
      else if d.outcome == Deny || !s.coordinator then (reviewed, Refuse)
      else if d.outcome in SUBSTITUTED then
        if s.substitutionRaises then (reviewed, Escape) else (reviewed + [Substituted(d.outcome)], Park)
      else (reviewed, Park)
  }

  function GovernedCall(d: Decision, s: Seams): (seq<Effect>, Ending) {
    var (effects, next) := Prelude(d, s);
    match next
    case RunNow => (effects + [Ran], Returned)
    case Refuse => (effects, Refused)
    case Escape => (effects, Escaped)
    case Park =>
      if s.park.None? then (effects + [Parked], Escaped)
      else if s.park.value then (effects + [Parked, Ran], Returned)
      else (effects + [Parked], Refused)
  }

  class EffectLog {
    var effects: seq<Effect>

    constructor ()
      ensures effects == []
    {
      effects := [];
    }

    method Add(e: Effect)
      modifies this
      ensures effects == old(effects) + [e]
    {
      effects := effects + [e];
    }
  }

  /** Dispatch, then the review, then the enforcement map up to the wait. */
  method Begin(d: Decision, s: Seams, log: EffectLog) returns (next: Next)
    modifies log
    ensures var (effects, n) := Prelude(d, s); log.effects == old(log.effects) + effects && next == n
  {
    ghost var before := log.effects;
    if s.dispatcher {
      if s.dispatchRaises {
        assert log.effects == before + [];
        return Escape;
      }
      log.Add(Dispatched);
    }
    ghost var dispatched := if s.dispatcher then [Dispatched] else [];
    assert log.effects == before + dispatched;
    if ReviewObliged(d) {
      if s.coordinator {
        if s.reviewRaises {
          return Escape;
        }
        log.Add(ReviewOpened);
      } else {
        log.Add(ReviewDropped);
      }
    }
    ghost var reviewed := dispatched + if ReviewObliged(d) then [ReviewEffect(s)] else [];
    assert log.effects == before + reviewed;
    if d.outcome in EXECUTABLE {
      return RunNow;
    }
    if d.outcome == Deny || !s.coordinator {
      return Refuse;
    }
    if d.outcome in SUBSTITUTED {
      if s.substitutionRaises {
        return Escape;
      }
      log.Add(Substituted(d.outcome));
      assert log.effects == before + (reviewed + [Substituted(d.outcome)]);
    }
    next := Park;
  }

  /** The ordered effects of one governed call, each as its collaborator performs it. */
  method Govern(d: Decision, s: Seams, log: EffectLog) returns (ending: Ending)
    modifies log
    ensures var (effects, e) := GovernedCall(d, s); log.effects == old(log.effects) + effects && ending == e
  {
    hide Prelude;
    var next := Begin(d, s, log);
    match next {
      case Refuse => return Refused;
      case Escape => return Escaped;
      case RunNow =>
        log.Add(Ran);
        return Returned;
      case Park =>
    }
    log.Add(Parked);
    if s.park.None? {
      return Escaped;
    }
    if !s.park.value {
      return Refused;
    }
    log.Add(Ran);
    ending := Returned;
  }

  /** Position p of the effects is this one. */
  predicate At(effects: seq<Effect>, p: int, e: Effect) {
    0 <= p < |effects| && effects[p] == e
  }

  /** Nothing runs before the wait; and where the start of a call ends. */
  lemma PreludeEnds(d: Decision, s: Seams)
    ensures var (effects, next) := Prelude(d, s);
            && (forall p :: !At(effects, p, Ran))
            && (next == RunNow || next == Park <==>
                  && !(s.dispatcher && s.dispatchRaises)
                  && !(ReviewObliged(d) && s.coordinator && s.reviewRaises)
                  && d.outcome != Deny
                  && (d.outcome in EXECUTABLE ||
                      (s.coordinator && !(d.outcome in SUBSTITUTED && s.substitutionRaises))))
            && (next == RunNow ==> d.outcome in EXECUTABLE)
            && (next == Park ==> d.outcome !in EXECUTABLE && s.coordinator)
  {
    hide ReviewObliged;
  }

  /**
   * The operation runs at most once, as the last effect, exactly when the call returns: on an executable
   * outcome whose dispatch and review went through, or on a blocking one the coordinator approved.
   */
  lemma RunsExactlyWhenPermitted(d: Decision, s: Seams)
    ensures var (effects, ending) := GovernedCall(d, s);
            && (forall p :: At(effects, p, Ran) ==> p == |effects| - 1)
            && (At(effects, |effects| - 1, Ran) <==> ending == Returned)
            && (ending == Returned <==>
                  && !(s.dispatcher && s.dispatchRaises)
                  && !(ReviewObliged(d) && s.coordinator && s.reviewRaises)
                  && d.outcome != Deny
                  && (d.outcome in EXECUTABLE ||
                      (s.coordinator && s.park == Some(true) && !(d.outcome in SUBSTITUTED && s.substitutionRaises))))
  {
    hide ReviewObliged, Prelude;
    PreludeEnds(d, s);
    var before := Prelude(d, s).0;
    var (effects, _) := GovernedCall(d, s);
    assert effects == before + effects[|before|..];
    forall p | At(effects, p, Ran) ensures p == |effects| - 1 {
      assert !At(before, p, Ran);
    }
    assert !At(before, |effects| - 1, Ran);
  }

  /** An owed review is opened, or its dropping recorded, before anything runs; a substitution precedes the wait. */
  lemma ObligationsComeFirst(d: Decision, s: Seams)
    ensures var (effects, ending) := GovernedCall(d, s);
            && (ending == Returned && ReviewObliged(d) ==>
                  exists p :: p < |effects| - 1 && At(effects, p, ReviewEffect(s)))
            && (forall p :: At(effects, p, Parked) && d.outcome in SUBSTITUTED ==>
                  At(effects, p - 1, Substituted(d.outcome)))
            && (Parked in effects ==> s.coordinator && d.outcome !in EXECUTABLE && d.outcome != Deny)
  {
    var (effects, ending) := GovernedCall(d, s);
    if ReviewObliged(d) {
      assert ending == Returned ==> At(effects, if s.dispatcher then 1 else 0, ReviewEffect(s));
    }
  }

  // ----- the map, outcome by outcome -----

  /** What an outcome asks for once dispatch and review went through. */
  datatype Way = AtOnce | AfterApproval(substituted: bool) | Never

  function WayOf(o: Outcome): Way {
    match o
    case Allow => AtOnce
    case Warn => AtOnce
    case GovernanceReview => AtOnce
    case TemporaryException => AtOnce
    case Sandbox => AfterApproval(true)
    case RequireConsensus => AfterApproval(true)
    case RequireApproval => AfterApproval(false)
    case Deny => Never
  }

  /** A reason of a fired principle whose effect is governance_review. */
  predicate FiredReview(r: Reason) {
    r.code == "constitution_principle_fired" && r.effect == Some(GovernanceReview)
  }

  ghost predicate OwesReview(d: Decision) {
    d.outcome == GovernanceReview || exists r :: r in d.reasons && FiredReview(r)
  }

  lemma ReviewOwedExactly(d: Decision)
    ensures ReviewObliged(d) <==> OwesReview(d)
  {
    if r :| r in d.reasons && FiredReview(r) {
      var i :| 0 <= i < |d.reasons| && d.reasons[i] == r;
    }
    if i :| 0 <= i < |d.reasons| && d.reasons[i].code == "constitution_principle_fired"
            && d.reasons[i].effect == Some(GovernanceReview) {
      assert d.reasons[i] in d.reasons && FiredReview(d.reasons[i]);
    }
  }

  /**
   * A governed call written out by the way its outcome goes. The dispatcher, when wired, comes first on every
   * decision; a governance_review outcome or fired principle opens a review, or has it logged as dropped
   * without a coordinator; then the operation runs at once, after an approval, or never.
   */
  lemma GovernedByOutcome(d: Decision, s: Seams)
    ensures var (effects, ending) := GovernedCall(d, s);
            var dispatched := if s.dispatcher then [Dispatched] else [];
            var review := if !OwesReview(d) then [] else if s.coordinator then [ReviewOpened] else [ReviewDropped];
            if s.dispatcher && s.dispatchRaises then effects == [] && ending == Escaped
            else if OwesReview(d) && s.coordinator && s.reviewRaises then effects == dispatched && ending == Escaped
            else
              match WayOf(d.outcome)
              case AtOnce => effects == dispatched + review + [Ran] && ending == Returned
              case Never => effects == dispatched + review && ending == Refused
              case AfterApproval(substituted) =>
                var asked := if substituted then [Substituted(d.outcome)] else [];
                if !s.coordinator then effects == dispatched + review && ending == Refused
                else if substituted && s.substitutionRaises then effects == dispatched + review && ending == Escaped
                else
                  match s.park
                  case None => effects == dispatched + review + asked + [Parked] && ending == Escaped
                  case Some(true) => effects == dispatched + review + asked + [Parked, Ran] && ending == Returned
                  case Some(false) => effects == dispatched + review + asked + [Parked] && ending == Refused
  {
    hide ReviewObliged, OwesReview;
    ReviewOwedExactly(d);
  }
}
