/** From an authored constitution and an action to the decision the pipeline returns. */
module EndToEnd {
  import opened Common
  import opened Contract
  import opened Constitution
  import Compiler
  import Pipeline
  import Risk

  /** The schema accepts these principles and the compiler compiles them. */
  ghost predicate Loaded(ps: set<Principle>, lists: Lists) {
    forall p :: p in ps ==> ValidPrinciple(p, lists) && Compiler.PrincipleRules(p).Ok?
  }

  /** An action as the pipeline sees it at its policy stage: enriched, with the sequence refs it matched. */
  datatype Call = Call(lib: Library, action: Action, enrichment: Enrichment, refs: seq<string>) {
    function Document(): Option<Document> {
      BuildPolicyInput(lib, action, enrichment, refs)
    }

    ghost predicate Fires(lists: Lists, p: Principle) {
      Constitution.Fires(lib, lists, p, action, enrichment, refs)
    }
  }

  /** The pipeline's policy answer is this constitution's on this call; without a document the stage raises. */
  ghost predicate AnsweredBy(ps: set<Principle>, lists: Lists, c: Call, a: Pipeline.Answers, f: Pipeline.Faults)
    requires Loaded(ps, lists)
  {
    var doc := c.Document();
    && (doc.None? ==> f.policy)
    && (doc.Some? ==> forall m :: m in a.matched <==> m in Compiler.Matched(c.lib, lists, doc.value, ps))
  }

  lemma MatchedFire(ps: set<Principle>, lists: Lists, c: Call, a: Pipeline.Answers, f: Pipeline.Faults)
    requires Loaded(ps, lists) && AnsweredBy(ps, lists, c, a, f) && !f.policy
    ensures forall m :: m in a.matched <==>
              exists p :: p in ps && c.Fires(lists, p) && m == MatchedPrinciple(p.id, p.effect)
  {
    hide Compiler.Matched, Compiler.PrincipleRules, BuildPolicyInput, Constitution.Fires, ValidPrinciple;
    Compiler.CompiledConstitutionMatches(c.lib, lists, ps, c.action, c.enrichment, c.refs);
  }

  /**
   * A principle that fires in two-valued logic binds the decision, whatever fails after policy and on any
   * class: its effect bounds the outcome from below, and a deny stands unless an exception covers it.
   */
  lemma FiringPrincipleBinds(ps: set<Principle>, lists: Lists, c: Call, cfg: Pipeline.Config, a: Pipeline.Answers,
                             f: Pipeline.Faults, next: nat, p: Principle)
    requires Loaded(ps, lists) && AnsweredBy(ps, lists, c, a, f) && Pipeline.PolicyReached(a, f)
    requires p in ps && c.Fires(lists, p)
    ensures var outcome := Pipeline.Evaluate(cfg, c.action.actionType, a, f, next).decision.outcome;
            if p.effect != Deny then Rank(outcome) >= Rank(p.effect)
            else outcome == Deny || (a.exceptions.Some? && Pipeline.Covered(a.exceptions.value, a.now, p.id))
  {
    hide Pipeline.Evaluate, AnsweredBy, Loaded, Constitution.Fires, Pipeline.Covered;
    MatchedFire(ps, lists, c, a, f);
    var m := MatchedPrinciple(p.id, p.effect);
    assert m in a.matched;
    Pipeline.PolicyFloorHolds(cfg, c.action.actionType, a, f, next, m);
  }

  /** The floor a constitution gives a call: the strictest effect that fires, or the class's own when none does. */
  ghost predicate AuthoredFloor(ps: set<Principle>, lists: Lists, c: Call, posture: PostureMap, floor: Outcome) {
    if forall p :: p in ps ==> !c.Fires(lists, p) then floor == posture.NoMatchFloor(c.action.actionType)
    else
      && (exists p :: p in ps && c.Fires(lists, p) && p.effect == floor)
      && (forall p :: p in ps && c.Fires(lists, p) ==> Rank(p.effect) <= Rank(floor))
  }

  /**
   * Failure-free, with neither interpreter nor exceptions: the decision is the graduated response to the
   * authored floor, read off the action in two-valued logic.
   */
  lemma AuthoredOutcome(ps: set<Principle>, lists: Lists, c: Call, cfg: Pipeline.Config, a: Pipeline.Answers, next: nat)
    returns (floor: Outcome)
    requires Loaded(ps, lists) && AnsweredBy(ps, lists, c, a, Pipeline.NO_FAULTS)
    requires Pipeline.PolicyReached(a, Pipeline.NO_FAULTS) && a.interpreter.None? && a.exceptions.None?
    ensures AuthoredFloor(ps, lists, c, cfg.posture, floor)
    ensures Pipeline.Evaluate(cfg, c.action.actionType, a, Pipeline.NO_FAULTS, next).decision.outcome ==
            Risk.FinalOutcome(floor, None, Risk.AssessRisk(a.scorers, a.carried, a.expensive), a.identity.trust,
                              cfg.thresholds)
  {
    hide Pipeline.Evaluate, AnsweredBy, Loaded, Constitution.Fires, Risk.FinalOutcome, Risk.AssessRisk;
    var t := c.action.actionType;
    Pipeline.FailureFreeOutcome(cfg, t, a, next);
    MatchedFire(ps, lists, c, a, Pipeline.NO_FAULTS);
    floor := Pipeline.LiftedFloor(cfg, t, a).floor;
    if a.matched == [] {
      assert forall p :: p in ps && c.Fires(lists, p) ==> MatchedPrinciple(p.id, p.effect) in a.matched;
    } else {
      var i :| 0 <= i < |a.matched| && a.matched[i].effect == floor;
      assert a.matched[i] in a.matched;
      forall p | p in ps && c.Fires(lists, p) ensures Rank(p.effect) <= Rank(floor) {
        assert MatchedPrinciple(p.id, p.effect) in a.matched;
      }
    }
  }

  // ----- a URL that cannot be parsed -----

  /** Nothing before the policy engine fails, and it fails exactly for want of a document. */
  predicate OnlyUrlFails(c: Call, a: Pipeline.Answers, f: Pipeline.Faults) {
    && a.kill.None? && a.identity.ok && !f.kill && !f.identity && !f.enrich && !f.correlator
    && (f.policy <==> c.Document().None?)
  }

  /**
   * When a deny that fires is denied, an unparseable URL standing for the empty host: unless the document
   * is missing for it, the class fails open, and the fail-safe record was appended.
   */
  lemma FiringDenyIsDeniedExactly(ps: set<Principle>, lists: Lists, c: Call, cfg: Pipeline.Config, a: Pipeline.Answers,
                                  f: Pipeline.Faults, next: nat, p: Principle)
    requires Loaded(ps, lists) && AnsweredBy(ps, lists, c, a, f) && OnlyUrlFails(c, a, f)
    requires p in ps && c.Fires(lists, p) && p.effect == Deny && a.exceptions.None?
    ensures Pipeline.Evaluate(cfg, c.action.actionType, a, f, next).decision.outcome == Deny <==>
            !UrlRaises(c.lib, c.action) || cfg.posture.FailPosture(c.action.actionType) == Closed ||
            f.appends(0).Raises?
  {
    hide Pipeline.Evaluate, AnsweredBy, Loaded, Constitution.Fires, UrlRaises;
    if UrlRaises(c.lib, c.action) {
      PolicyRaises(cfg, c.action.actionType, a, f, next);
    } else {
      FiringPrincipleBinds(ps, lists, c, cfg, a, f, next, p);
    }
  }

  /** A policy stage that raises leaves the posture, demoted to deny when its record is not written. */
  lemma PolicyRaises(cfg: Pipeline.Config, t: ActionType, a: Pipeline.Answers, f: Pipeline.Faults, next: nat)
    requires a.kill.None? && a.identity.ok && !f.kill && !f.identity && f.policy
    ensures Pipeline.Evaluate(cfg, t, a, f, next).decision.outcome == Deny <==>
            cfg.posture.FailPosture(t) == Closed || f.appends(0).Raises?
  {
    assert Pipeline.Decide(cfg, t, a, f) == Pipeline.Progress(None, Err(Pipeline.Generic));
  }

  /** Deny tool calls to hosts outside a list. */
  const EGRESS: Principle :=
    Principle("1.1", "egress", "Only approved hosts.", ActionKind, Only([ToolCall]), Deny,
              Some(Test(Leaf(EgressHost, NotIn, None, Some("approved_hosts")))), None, [], [])

  /** A tool call whose URL cannot be parsed: the egress deny fires on its empty host, and the call is allowed. */
  lemma UnparseableUrlIsAllowed(lists: Lists)
    requires "approved_hosts" in lists && "" !in lists["approved_hosts"]
    ensures exists c: Call, cfg: Pipeline.Config, a: Pipeline.Answers, f: Pipeline.Faults ::
              && c.action.actionType == ToolCall && Loaded({EGRESS}, lists) && AnsweredBy({EGRESS}, lists, c, a, f)
              && OnlyUrlFails(c, a, f) && c.Fires(lists, EGRESS)
              && Pipeline.Evaluate(cfg, ToolCall, a, f, 0).decision.outcome == Allow
  {
    hide Pipeline.Evaluate, Loaded, Constitution.Fires, Compiler.Matched, Compiler.PrincipleRules;
    var url := Str("http://[");
    var lib := Library(v => if v == url then Err(()) else Ok(None), _ => "", (_, _) => false, (_, _) => 0);
    var c := Call(lib, Action(ToolCall, "http_get", map["url" := url]), Enrichment(None, false, false, false), []);
    var cfg := Pipeline.Config(PostureMap({ToolCall}, map[]), Thresholds(0.4, 0.7, 0.2));
    var a := Pipeline.Answers(None, Pipeline.Identity(true, 1.0), [], None, None, 0, [], [], []);
    var f := Pipeline.NO_FAULTS.(policy := true);
    EgressFires(lists, c);
    EgressLoads(lists);
    assert OnlyUrlFails(c, a, f) && AnsweredBy({EGRESS}, lists, c, a, f);
    PolicyRaisesOpen(cfg, ToolCall, a, 0);
  }

  lemma PolicyRaisesOpen(cfg: Pipeline.Config, t: ActionType, a: Pipeline.Answers, next: nat)
    requires a.kill.None? && a.identity.ok && cfg.posture.FailPosture(t) == Open
    ensures Pipeline.Evaluate(cfg, t, a, Pipeline.NO_FAULTS.(policy := true), next).decision.outcome == Allow
  {
    assert Pipeline.Decide(cfg, t, a, Pipeline.NO_FAULTS.(policy := true)) ==
           Pipeline.Progress(None, Err(Pipeline.Generic));
  }

  lemma EgressFires(lists: Lists, c: Call)
    requires c.action.actionType == ToolCall && Host(c.lib, c.action) == ""
    requires "approved_hosts" in lists && "" !in lists["approved_hosts"]
    ensures c.Fires(lists, EGRESS)
  {
  }

  lemma EgressLoads(lists: Lists)
    requires "approved_hosts" in lists
    ensures Loaded({EGRESS}, lists)
  {
    var leaf := Leaf(EgressHost, NotIn, None, Some("approved_hosts"));
    assert Leaves(Test(leaf)) == [leaf];
    assert Compiler.ToDnf(EGRESS.when.value, false) == [[(leaf, false)]];
  }
}
