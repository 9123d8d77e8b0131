/** The vocabulary shared by the compiler, the pipeline and enforcement. */
module Contract {
  import opened Common

  datatype Outcome =
    | Allow | Warn | GovernanceReview | TemporaryException
    | Sandbox | RequireConsensus | RequireApproval | Deny

  /** OUTCOME_RESTRICTIVENESS: Allow is minimal, Deny maximal, the two oversight outcomes tie. */
  function Rank(o: Outcome): nat {
    match o
    case Allow => 0
    case Warn => 1
    case GovernanceReview => 2
    case TemporaryException => 2
    case Sandbox => 3
    case RequireConsensus => 4
    case RequireApproval => 5
    case Deny => 6
  }

  /** The order of restrictiveness, and its one tie. */
  lemma RankOrder(a: Outcome, b: Outcome)
    ensures Rank(Allow) < Rank(Warn) < Rank(GovernanceReview) == Rank(TemporaryException) < Rank(Sandbox)
            < Rank(RequireConsensus) < Rank(RequireApproval) < Rank(Deny)
    ensures Rank(a) == Rank(b) ==> a == b || {a, b} == {GovernanceReview, TemporaryException}
  {
  }

  /** Python's two-argument max by rank: the first argument wins a tie. */
  function MaxOutcome(a: Outcome, b: Outcome): Outcome {
    if Rank(b) > Rank(a) then b else a
  }

  /** temporary_exception is human-ratified only. */
  predicate Authorable(o: Outcome) {
    o != TemporaryException
  }

  datatype ActionType = ToolCall | MemoryAccess | McpCall | ModelInvocation | Delegation

  datatype MatchedPrinciple = MatchedPrinciple(principleRef: string, effect: Outcome)

  /** Deny-overrides-allow: the first effect of greatest rank, or None when nothing matched. */
  function SelectFloor(matched: seq<MatchedPrinciple>): (floor: Option<Outcome>)
    ensures floor.None? <==> matched == []
    ensures floor.Some? ==> exists i :: 0 <= i < |matched| && matched[i].effect == floor.value &&
                                        forall j :: 0 <= j < i ==> Rank(matched[j].effect) < Rank(floor.value)
    ensures floor.Some? ==> forall m :: m in matched ==> Rank(m.effect) <= Rank(floor.value)
  {
    if matched == [] then None
    else
      var last := matched[|matched| - 1].effect;
      var best := SelectFloor(matched[..|matched| - 1]);
      assert matched == matched[..|matched| - 1] + [matched[|matched| - 1]];
      if best.None? then Some(last) else Some(MaxOutcome(best.value, last))
  }

  datatype FailPosture = Closed | Open

  /** PostureMap: which classes fail open, and each class's no-match floor. */
  datatype PostureMap = PostureMap(failOpenTypes: set<ActionType>, noMatchFloors: map<ActionType, Outcome>) {
    /** A class fails open exactly when it is listed. */
    function FailPosture(t: ActionType): (posture: FailPosture)
      ensures posture == Open <==> t in failOpenTypes
    {
      if t in failOpenTypes then Open else Closed
    }

    /** Nothing listed for a class means allow. */
    function NoMatchFloor(t: ActionType): (floor: Outcome)
      ensures t in noMatchFloors ==> floor == noMatchFloors[t]
      ensures t !in noMatchFloors ==> floor == Allow
    {
      if t in noMatchFloors then noMatchFloors[t] else Allow
    }
  }

  /** GraduatedThresholds: the risk bands and the trust at or below which they harden. */
  datatype Thresholds = Thresholds(sandboxAt: real, denyAt: real, trustHardenAt: real)

  /** One machine-readable reason; `effect` is the evidence a fired principle carries. */
  datatype Reason = Reason(stage: string, code: string, principleRef: Option<string>, effect: Option<Outcome>)

  datatype Decision = Decision(
    outcome: Outcome, riskScore: real, trustScore: real, reasons: seq<Reason>,
    expiresAt: Option<int>, evidenceRef: Option<nat>)
}
