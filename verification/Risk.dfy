/** Risk aggregation and the graduated response: risk and trust may only restrict. */
module Risk {
  import opened Common
  import opened Contract

  /** A guardrail finding; `matched` holds pattern ids. */
  datatype Finding = Finding(category: string, risk: real, matched: seq<string>)

  /** A scorer, with the finding it returns for the action at hand. */
  datatype Scorer = Scorer(inlineTier: bool, finding: Finding)

  /** The findings of the scorers of one tier. */
  function FindingsOf(scorers: seq<Scorer>, inlineTier: bool): seq<Finding> {
    if scorers == [] then []
    else
      (if scorers[0].inlineTier == inlineTier then [scorers[0].finding] else []) +
      FindingsOf(scorers[1..], inlineTier)
  }

  predicate Flagged(findings: seq<Finding>) {
    exists i :: 0 <= i < |findings| && findings[i].matched != []
  }

  function MaxRisk(findings: seq<Finding>): (r: real)
    ensures findings != [] ==> exists i :: 0 <= i < |findings| && r == findings[i].risk
    ensures forall i :: 0 <= i < |findings| ==> findings[i].risk <= r
    ensures findings == [] ==> r == 0.0
  {
    if findings == [] then 0.0
    else if |findings| == 1 then findings[0].risk
    else
      var rest := MaxRisk(findings[1..]);
      assert forall i :: 0 < i < |findings| ==> findings[i] == findings[1..][i - 1];
      if findings[0].risk >= rest then findings[0].risk else rest
  }

  /** Everything the stage looks at: the expensive tier runs only on an inline or carried flag. */
  function Gathered(scorers: seq<Scorer>, carried: seq<Finding>, expensive: seq<Scorer>): seq<Finding> {
    var findings := FindingsOf(scorers, true) + carried;
    if Flagged(findings) then findings + FindingsOf(expensive, false) else findings
  }

  function AssessRisk(scorers: seq<Scorer>, carried: seq<Finding>, expensive: seq<Scorer>): real {
    MaxRisk(Gathered(scorers, carried, expensive))
  }

  // ----- the graduated response -----

  function RiskToOutcome(risk: real, t: Thresholds): Outcome {
    if risk >= t.denyAt then Deny else if risk >= t.sandboxAt then Sandbox else Allow
  }

  /** _HARDEN_NEXT: low trust tightens one step. */
  function HardenNext(o: Outcome): Outcome {
    match o
    case Allow => Sandbox
    case Sandbox => RequireApproval
    case _ => o
  }

  function ApplyTrustBand(base: Outcome, trust: real, t: Thresholds): Outcome {
    if trust <= t.trustHardenAt then HardenNext(base) else base
  }

  /** The two bands as one table: what risk and trust ask for on an allow floor. */
  function Band(risk: real, trust: real, t: Thresholds): Outcome {
    if risk >= t.denyAt then Deny
    else if risk >= t.sandboxAt && trust <= t.trustHardenAt then RequireApproval
    else if risk >= t.sandboxAt || trust <= t.trustHardenAt then Sandbox
    else Allow
  }

  /** The stricter of the floor and the band: a strict lower bound, on which a deny floor is terminal. */
  function GraduatedResponse(floor: Outcome, risk: real, trust: real, t: Thresholds): (o: Outcome)
    ensures Rank(o) >= Rank(floor)
    ensures o == if Rank(Band(risk, trust, t)) > Rank(floor) then Band(risk, trust, t) else floor
    ensures floor == Deny ==> o == Deny
    ensures risk >= t.denyAt ==> o == Deny
    ensures risk >= t.sandboxAt ==> Rank(o) >= Rank(if trust <= t.trustHardenAt then RequireApproval else Sandbox)
    ensures trust <= t.trustHardenAt ==> Rank(o) >= Rank(Sandbox)
    ensures risk < t.sandboxAt && risk < t.denyAt && trust > t.trustHardenAt ==> o == floor
    ensures o == floor || o in {Sandbox, RequireApproval, Deny}
  {
    if floor == Deny then Deny
    else MaxOutcome(floor, ApplyTrustBand(RiskToOutcome(risk, t), trust, t))
  }

  /** An exception-transformed floor that survived as allow is labelled for what it is. */
  function Relabel(o: Outcome, expiry: Option<int>): Outcome {
    if expiry.Some? && o == Allow then TemporaryException else o
  }

  function FinalOutcome(floor: Outcome, expiry: Option<int>, risk: real, trust: real, t: Thresholds): Outcome {
    Relabel(GraduatedResponse(floor, risk, trust, t), expiry)
  }

  // ----- what is pooled -----

  /** An inline scorer's finding, or one carried over from enrichment. */
  predicate CheapFinding(scorers: seq<Scorer>, carried: seq<Finding>, f: Finding) {
    f in carried || Scorer(true, f) in scorers
  }

  /**
   * The findings pooled are the inline and the carried ones, and those of the expensive tier exactly when
   * one of them is flagged; the risk is the greatest of theirs, or zero when there is none.
   */
  lemma PooledExactly(scorers: seq<Scorer>, carried: seq<Finding>, expensive: seq<Scorer>)
    ensures var pool, risk := Gathered(scorers, carried, expensive), AssessRisk(scorers, carried, expensive);
            && (forall f :: f in pool <==>
                  || CheapFinding(scorers, carried, f)
                  || (Scorer(false, f) in expensive &&
                      exists g :: CheapFinding(scorers, carried, g) && g.matched != []))
            && (pool == [] ==> risk == 0.0)
            && (pool != [] ==> (exists f :: f in pool && f.risk == risk) && forall f :: f in pool ==> f.risk <= risk)
  {
    FindingsAre(scorers, true);
    FindingsAre(expensive, false);
    var cheap := FindingsOf(scorers, true) + carried;
    assert forall f :: f in cheap <==> CheapFinding(scorers, carried, f);
    if g :| CheapFinding(scorers, carried, g) && g.matched != [] {
      var i :| 0 <= i < |cheap| && cheap[i] == g;
    }
    assert Flagged(cheap) <==> exists g :: CheapFinding(scorers, carried, g) && g.matched != [];
    var pool := Gathered(scorers, carried, expensive);
    if pool != [] {
      var i :| 0 <= i < |pool| && MaxRisk(pool) == pool[i].risk;
      assert pool[i] in pool;
    }
  }

  // ----- monotonicity -----

  /** g is at least as severe as f. */
  predicate AtLeast(g: Finding, f: Finding) {
    g.risk >= f.risk && (f.matched != [] ==> g.matched != [])
  }

  /** Every finding of fs has a counterpart in gs that is at least as severe. */
  ghost predicate Covers(gs: seq<Finding>, fs: seq<Finding>) {
    forall f :: f in fs ==> exists g :: g in gs && AtLeast(g, f)
  }

  /** Every scorer of a has a counterpart in b, of the same tier, that scores at least as high. */
  ghost predicate ScorersCover(b: seq<Scorer>, a: seq<Scorer>) {
    forall s :: s in a ==> exists t :: t in b && t.inlineTier == s.inlineTier && AtLeast(t.finding, s.finding)
  }

  lemma {:induction false} FindingsAre(scorers: seq<Scorer>, tier: bool)
    ensures forall f :: f in FindingsOf(scorers, tier) <==> Scorer(tier, f) in scorers
  {
    if scorers != [] {
      FindingsAre(scorers[1..], tier);
      assert scorers == [scorers[0]] + scorers[1..];
    }
  }

  lemma ScorersCoverFindings(b: seq<Scorer>, a: seq<Scorer>, tier: bool)
    requires ScorersCover(b, a)
    ensures Covers(FindingsOf(b, tier), FindingsOf(a, tier))
  {
    FindingsAre(a, tier);
    FindingsAre(b, tier);
    forall f | f in FindingsOf(a, tier) ensures exists g :: g in FindingsOf(b, tier) && AtLeast(g, f) {
      var t :| t in b && t.inlineTier == tier && AtLeast(t.finding, Scorer(tier, f).finding);
      assert t == Scorer(tier, t.finding);
      assert t.finding in FindingsOf(b, tier);
    }
  }

  lemma GatheredCovers(scorers: seq<Scorer>, carried: seq<Finding>, expensive: seq<Scorer>,
                       scorers': seq<Scorer>, carried': seq<Finding>, expensive': seq<Scorer>)
    requires ScorersCover(scorers', scorers) && Covers(carried', carried) && ScorersCover(expensive', expensive)
    ensures Covers(Gathered(scorers', carried', expensive'), Gathered(scorers, carried, expensive))
  {
    ScorersCoverFindings(scorers', scorers, true);
    ScorersCoverFindings(expensive', expensive, false);
    var fs, gs := FindingsOf(scorers, true) + carried, FindingsOf(scorers', true) + carried';
    assert Covers(gs, fs);
    if Flagged(fs) {
      var i :| 0 <= i < |fs| && fs[i].matched != [];
      assert fs[i] in fs;
      var g :| g in gs && AtLeast(g, fs[i]);
      var j :| 0 <= j < |gs| && gs[j] == g;
      assert Flagged(gs);
    }
  }

  /** More findings, or more severe ones, never lower the pooled risk, across the expensive-tier gate. */
  lemma RiskGrows(scorers: seq<Scorer>, carried: seq<Finding>, expensive: seq<Scorer>,
                  scorers': seq<Scorer>, carried': seq<Finding>, expensive': seq<Scorer>)
    requires ScorersCover(scorers', scorers) && Covers(carried', carried) && ScorersCover(expensive', expensive)
    requires forall f :: f in Gathered(scorers', carried', expensive') ==> f.risk >= 0.0
    ensures AssessRisk(scorers, carried, expensive) <= AssessRisk(scorers', carried', expensive')
  {
    var fs, gs := Gathered(scorers, carried, expensive), Gathered(scorers', carried', expensive');
    GatheredCovers(scorers, carried, expensive, scorers', carried', expensive');
    if fs == [] {
      assert gs != [] ==> gs[0] in gs && MaxRisk(gs) >= gs[0].risk >= 0.0;
    } else {
      var i :| 0 <= i < |fs| && fs[i].risk == MaxRisk(fs);
      assert fs[i] in fs;
      var g :| g in gs && AtLeast(g, fs[i]);
    }
  }

  /** More risk or less trust never lowers the outcome: risk band, trust band, floor clamp and relabel. */
  lemma BandsMonotone(floor: Outcome, expiry: Option<int>, t: Thresholds,
                      risk: real, trust: real, risk': real, trust': real)
    requires risk <= risk' && trust' <= trust
    ensures Rank(FinalOutcome(floor, expiry, risk, trust, t)) <= Rank(FinalOutcome(floor, expiry, risk', trust', t))
  {
    var o, o' := RiskToOutcome(risk, t), RiskToOutcome(risk', t);
    assert Rank(o) <= Rank(o');
    assert Rank(ApplyTrustBand(o, trust, t)) <= Rank(ApplyTrustBand(o', trust', t));
  }

  /**
   * For fixed matches, exceptions and thresholds: adding scorers or carried findings, raising any
   * score, or lowering trust never lowers the rank of the final outcome.
   */
  lemma OutcomeNeverRelaxes(floor: Outcome, expiry: Option<int>, t: Thresholds, trust: real, trust': real,
                            scorers: seq<Scorer>, carried: seq<Finding>, expensive: seq<Scorer>,
                            scorers': seq<Scorer>, carried': seq<Finding>, expensive': seq<Scorer>)
    requires ScorersCover(scorers', scorers) && Covers(carried', carried) && ScorersCover(expensive', expensive)
    requires forall f :: f in Gathered(scorers', carried', expensive') ==> f.risk >= 0.0
    requires trust' <= trust
    ensures Rank(FinalOutcome(floor, expiry, AssessRisk(scorers, carried, expensive), trust, t)) <=
            Rank(FinalOutcome(floor, expiry, AssessRisk(scorers', carried', expensive'), trust', t))
  {
    RiskGrows(scorers, carried, expensive, scorers', carried', expensive');
    BandsMonotone(floor, expiry, t, AssessRisk(scorers, carried, expensive), trust,
                  AssessRisk(scorers', carried', expensive'), trust');
  }
}
