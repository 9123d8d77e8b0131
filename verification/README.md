# Agentos-guard: verified core

A Dafny 4.11 model of the parts of agentos-guard its guarantees rest on: the tamper-evident audit
chain, the decision pipeline, the Constitution compiler, the sequence correlator, the identity cache,
approvals and temporary exceptions, enforcement, the kill switch, and two self-contained detectors.
`dafny verify dfyconfig.toml` checks everything.

- **Audit chain** (`AuditChain`, `AuditVerify`, `AuditWriters`, `AuditTamper`). SHA-256 over
  `canonical_json` and Ed25519 are uninterpreted functions. Nothing assumes the hash is injective: the
  tamper theorems end in "the tables agree, or they exhibit a collision at the same position". The
  writers are interleaved head reads and inserts over one table with a unique `seq`; an insert may be
  refused, fail, or commit and still raise. Any signature a verifier accepts is one the control-plane
  key issued: on a committed record, on a checkpoint message, or on a token.
- **Pipeline** (`Contract`, `Risk`, `Pipeline`). A `Runner` with the mutable floor box and audit log is
  proved equal to a specification function over *answers* (what each collaborator says) and *faults*
  (which calls raise, for every audit append separately). The properties are stated over all schedules.
- **Constitution** (`Constitution`, `Compiler`, `Sorting`, `Canonical`, `CompiledBundle`). Condition trees, their normal
  form and the lowered rule bodies as lists of literals, with Rego's undefined-aware evaluation; the
  meaning of a principle is read off the action, independently of the input document.
- **Across the parts** (`EndToEnd`, `Evidence`). From an authored principle that fires in two-valued logic to
  the decision returned, and from that decision to the row of the chain that records it.
- **Bounded memory** (`Sequence`, `IdentityCache`). Ordered dictionaries are a map and a key sequence.
- **Human control** (`Approvals`, `ApprovalHistory`, `Enforcement`, `ExceptionTrace`, `KillSwitch`). Each session block is
  one atomic step; requests, pollers, deadlines, resolutions and revocations interleave freely.
- **Detectors** (`FormatCheck`, `Luhn`).

`hide` statements inside proofs only keep definitions away from the solver.

## Where the code and its documentation differ

- `packages/controlplane/src/agentos_controlplane/audit_verify.py:8-11` promises that any edit made without
  the private key is caught. The verifier takes a row without a signature on trust (line 143) and does not
  miss one, so the promise holds of the rows up to the last signed one and of no other:
  `AuditTamper.SignedRowPinsHistory` and its converse `AuditTamper.UnsignedTailIsRewritable`.
- `packages/pipeline/src/agentos_pipeline/policy_input.py:7-9` and `:26-32` promise an empty host for a URL that
  cannot be parsed, so that a not_in egress principle denies. `urlsplit` raises on some of them
  (`http://[`); there is then no document, and the class's posture decides.
  `EndToEnd.FiringDenyIsDeniedExactly` is the exact condition, `EndToEnd.UnparseableUrlIsAllowed` an instance.
- `packages/pipeline/src/agentos_pipeline/runner.py:281-284` says a malformed interpreter verdict degrades
  to `interpreter_error` and the floor stands. The floor is raised at line 299, before the reason is built
  at lines 300-308, so a verdict with a valid outcome and a malformed rationale still restricts.
  `Pipeline.MalformedVerdictStands` says exactly when that matters, for the floor and for the decision;
  `Pipeline.MalformedDenyStillDenies` is a tool call whose two outcomes are deny and allow.
- `packages/pipeline/src/agentos_pipeline/runner.py:187-193` promises that a killed agent is denied. On a
  fail-open class it is not when the kill lookup itself raises (or, for a forged token, the identity lookup)
  and the fail-safe record is appended: `Pipeline.KilledOrForgedIsDenied` is the exact condition,
  `Pipeline.EveryKillIsDeniedExactlyWhenClosed` the classes, `Pipeline.KilledToolCallCanBeAllowed` an instance.
- `packages/constitution/src/agentos_constitution/schema.py:213-215` says ne and not_in would fire on a field
  the document lacks. `ne` lowers to `!=`, which is undefined there and does not fire; what does fire is
  not_in and a negated in, prefix or glob (`Compiler.AbsentFieldFiresNegations`). Either way an absent field
  has no two-valued meaning, so the check is needed: `Compiler.ScopeCheckNeededExactly`.
- `packages/constitution/src/agentos_constitution/version.py:1-6` promises the same version for the same
  content in any authoring order. The schema rejects equal id strings only, and `1.1` and `1.01` share a
  sort key: `Canonical.OrderForgottenExactly` gives the exact condition and `Canonical.SharedKeyExists` an
  instance.
- `tests/integration/test_approval_e2e.py:163-206` obtains the first exception for a deny principle from a
  request created by hand. A denied action is never parked, so governed calls alone get there only across a
  reload of the constitution (`packages/pipeline/src/agentos_pipeline/policy.py:89-103`), which swaps the
  effects while grants and pending requests, keyed by ref, live on. `ExceptionTrace.NoDenyWaivedFromInside`
  is the exact condition on the store a constitution starts from, `ExceptionTrace.ReloadSafeExactly` the one
  on the two constitutions, and `ExceptionTrace.HardenedDenyIsExcepted` the decision that then comes back.
- An audit append that commits and then raises leaves a record no decision names:
  `Pipeline.EvidenceMatchesDecision` counts these exactly.
- The identity cache with `max_entries` 0 raises on its first successful verdict, where
  `next(iter(...))` meets an empty dict; the model returns no verdict there.
  `IdentityCache.InvisibleExactlyWithRoom`: that is the only size at which a coherent cache shows.

## Model

| member | source | states |
|---|---|---|
| AuditVerify.VerifyChain | packages/controlplane/src/agentos_controlplane/audit_verify.py:59-231 | Accepts exactly the tables that are intact, written out over JSON, the two primitives and the keys alone; every proof of an accepted table was accepted by the key of its kind where there is one, and a proof violation means that key refused it; otherwise the least bad row (or checkpoint), the first check it fails, and all counters |
| AuditVerify.VerifyRows | packages/controlplane/src/agentos_controlplane/audit_verify.py:73-171 | The row loop stops at the first bad row with the number of good rows before it, and re-derives every hash by seq |
| AuditVerify.CheckRow | packages/controlplane/src/agentos_controlplane/audit_verify.py:78-167 | A row passes iff it satisfies every clause of the chain predicate; otherwise the check named is the first it fails |
| AuditVerify.VerifyCheckpoints | packages/controlplane/src/agentos_controlplane/audit_verify.py:176-231 | The checkpoint loop accepts iff every checkpoint binds a row of the table and no key refuses its proof; skipped are exactly those whose kind has no key at hand or is unknown |
| AuditVerify.CheckCheckpoint | packages/controlplane/src/agentos_controlplane/audit_verify.py:182-230 | Truncation, mismatch and proof failure in that order; missing verification material is a skip |
| AuditVerify.OkIsIntact | packages/controlplane/src/agentos_controlplane/audit_verify.py:59-231 | The chain and checkpoint predicates say exactly what each row and checkpoint must carry in its own columns and body |
| AuditChain.ProofCheck | packages/controlplane/src/agentos_controlplane/checkpoint.py:58-86 | Unavailable exactly when the kind's key is missing or the kind unknown, invalid exactly when that key refuses the proof over the seq and hash bound |
| AuditChain.AllSigned | packages/controlplane/src/agentos_controlplane/audit_verify.py:75-167 | The signature count equals the record count exactly when every row is signed |
| AuditWriters.AuditWriter.Append | packages/controlplane/src/agentos_controlplane/audit.py:210-348 | One append keeps the table a contiguous linked chain, changes no row, and moves the cached head only after a commit that returned; the row it writes reads back as the content appended, hashed and signed as it stands |
| AuditWriters.BodyCarriesHead | packages/controlplane/src/agentos_controlplane/audit.py:262-289 | Whatever passes the reserved-key and kind guards carries its own seq and prev_hash and the keys the verifier requires |
| AuditWriters.BodyReadsBack | packages/controlplane/src/agentos_controlplane/audit.py:218-289 | Every decision field and the redacted payload, or the event kind and body, can be read back from the hashed body under its own key |
| AuditWriters.BodiesTellApart | packages/controlplane/src/agentos_controlplane/audit.py:218-289 | Two appends with the same body were given the same content at the same head |
| AuditWriters.RefusedExactly | packages/controlplane/src/agentos_controlplane/audit.py:212-287 | A body is refused exactly for a failed redaction, an unknown event kind, or an event body that shadows a chain field |
| AuditWriters.AttemptExtends | packages/controlplane/src/agentos_controlplane/audit.py:303-348 | A row is written exactly when the guards, the secret scan and the commit let it through and the writer's head is the end of the table; it extends the chain |
| AuditWriters.LastIsEnd | packages/controlplane/src/agentos_controlplane/audit.py:314-320 | Reading the head of a chained table gives its end, with the matching link |
| AuditWriters.RunKeepsInv | packages/controlplane/src/agentos_controlplane/audit.py:303-348 | For any number of writers and any interleaving of head reads, inserts, failures and restarts, rows stay contiguous from 0 and linked, and written rows never change |
| AuditWriters.ReachableTablesVerify | packages/controlplane/src/agentos_controlplane/audit_verify.py:59-231 | Every reachable table is accepted by the verifier, with every checkpoint taken along the way, and with all rows signed when the writers sign |
| AuditWriters.StaleWriterNeverCommits | packages/controlplane/src/agentos_controlplane/audit.py:307-311 | A writer whose cached head has fallen behind adds no row in any later interleaving until it restarts |
| AuditWriters.CheckpointService.Take | packages/controlplane/src/agentos_controlplane/checkpoint.py:161-182 | Stores a checkpoint that binds the end of the chain with the anchor's proof; an empty chain or a failed commit stores nothing |
| AuditWriters.CheckpointIsTaken | packages/controlplane/src/agentos_controlplane/checkpoint.py:161-182 | A checkpoint stored after any interleaving binds the row that was the end when its head was read |
| AuditTamper.CheckpointBindsHistory | packages/controlplane/src/agentos_controlplane/audit_verify.py:173-206 | A table accepted with a checkpoint of the original chain at seq s is no shorter than s and agrees with it on all rows up to s, or the two exhibit a hash collision |
| AuditTamper.LinksBindBackwards | packages/controlplane/src/agentos_controlplane/audit_verify.py:122-141 | Equal hashes at one row force equal rows at every earlier one, or a collision |
| AuditTamper.SigningDomainsDisjoint | packages/controlplane/src/agentos_controlplane/checkpoint.py:25 | Record, checkpoint and token messages signed with the one key never coincide |
| AuditTamper.SignedTableIsPrefix | packages/controlplane/src/agentos_controlplane/audit_verify.py:142-167 | With a key, every row signed and only issued signatures available, an accepted table is a prefix of the committed chain, or canonical_json collides |
| AuditTamper.SignedRowPinsHistory | packages/controlplane/src/agentos_controlplane/audit_verify.py:122-167 | One signed row of an accepted table pins it and every row before it to the committed chain, or a collision is exhibited |
| AuditTamper.UnsignedTailIsRewritable | packages/controlplane/src/agentos_controlplane/audit_verify.py:78-167 | The converse: at any row exactly the bodies that fit there can stand in an accepted table that is equal below, as long, and unsigned from that row on |
| AuditTamper.StrippedRewriteIsAccepted | packages/controlplane/src/agentos_controlplane/audit_verify.py:143 | The end of that scale: a consistent table with no signature at all is accepted under any key with none checked |
| Contract.SelectFloor | packages/contract/src/agentos_contract/policy_io.py:67-72 | The floor is the first matched effect of greatest rank; none exactly on no match |
| Risk.GraduatedResponse | packages/pipeline/src/agentos_pipeline/graduated.py:84-98 | The stricter of the floor and the band that risk and trust ask for, as one table; a deny floor is terminal |
| Risk.PooledExactly | packages/pipeline/src/agentos_pipeline/risk/aggregator.py:23-37 | The pool is the inline and carried findings, with the expensive tier exactly when one of those is flagged; the risk is the greatest in it |
| Risk.RiskGrows | packages/pipeline/src/agentos_pipeline/risk/aggregator.py:23-37 | More findings or more severe ones never lower the pooled risk, across the expensive-tier gate |
| Risk.BandsMonotone | packages/pipeline/src/agentos_pipeline/graduated.py:56-98 | More risk or less trust never lowers the outcome, through both bands, the floor clamp and the exception relabel |
| Risk.OutcomeNeverRelaxes | packages/pipeline/src/agentos_pipeline/runner.py:347-370 | For fixed matches, exceptions and thresholds, adding or raising findings or lowering trust never lowers the final rank |
| Pipeline.Runner.EvaluateAction | packages/pipeline/src/agentos_pipeline/runner.py:175-182 | The runner returns the specified decision and appends the specified records for every answer and failure schedule |
| Pipeline.Runner.DecideStages | packages/pipeline/src/agentos_pipeline/runner.py:184-389 | Stages 0 to 5 reach the specified decision or exception, leaving the specified floor in the box |
| Pipeline.Runner.GradeStages | packages/pipeline/src/agentos_pipeline/runner.py:347-389 | Stages 4 and 5 on a floor: the specified decision, with the box moved to the final outcome |
| Pipeline.Runner.AppendWithRedactionFallback | packages/pipeline/src/agentos_pipeline/runner.py:505-525 | A redaction failure falls to the posture first, then retries payload-free; other failures escape |
| Pipeline.Runner.FailSafeDecision | packages/pipeline/src/agentos_pipeline/runner.py:527-577 | Posture or computed floor, whichever is stricter; an allow without a record is demoted |
| Pipeline.FailClosedNeverDeviates | packages/pipeline/src/agentos_pipeline/runner.py:175-392 | On a fail-closed class every failure schedule yields the failure-free outcome or deny |
| Pipeline.NeverBelowTheBox | packages/pipeline/src/agentos_pipeline/runner.py:527-577 | On any class the outcome never ranks below the last floor recorded before the failure |
| Pipeline.KilledOrForgedIsDenied | packages/pipeline/src/agentos_pipeline/runner.py:186-233 | Over every schedule, a killed or forged action is denied unless its class fails open, the lookup that would have stopped it raised, and the fail-safe record was appended |
| Pipeline.EveryKillIsDeniedExactlyWhenClosed | packages/pipeline/src/agentos_pipeline/runner.py:175-233 | Kills and forgeries are denied whatever fails exactly on the fail-closed classes |
| Pipeline.KilledToolCallCanBeAllowed | packages/pipeline/src/agentos_pipeline/runner.py:565-577 | An operator-killed tool call on a fail-open class that comes back allow |
| Pipeline.EvidenceMatchesDecision | packages/pipeline/src/agentos_pipeline/runner.py:505-577 | One record exactly when the decision names one, holding the returned decision, beside the records of lost commits; allow always has evidence, and fail-closed without evidence is deny |
| Evidence.EvidenceStands | packages/controlplane/src/agentos_controlplane/audit.py:210-275 | A call that appends through any writer among others leaves its records as rows of the chain, in order, each with its action, agent, outcome and scores; the named one carries the decision returned; and all of them stay, in a table the verifier accepts, over every later interleaving |
| Evidence.ChainGivesSchedule | packages/pipeline/src/agentos_pipeline/runner.py:505-577 | Whatever happens around the appends of a call, the chain gives each an ending, so the call's failure schedule exists |
| Evidence.QuietAppendWorks | packages/controlplane/src/agentos_controlplane/audit.py:210-348 | A writer that is up to date, with a working redactor, scan and commit, appends and stays up to date; a restart brings any writer up to date (RestartRecovers) |
| Pipeline.EvidenceOrDenyExactlyWhenClosed | packages/pipeline/src/agentos_pipeline/runner.py:565-576 | A decision without evidence is a deny, whatever fails, exactly on the fail-closed classes |
| Pipeline.OpenClassCanLoseEvidence | packages/pipeline/src/agentos_pipeline/runner.py:565-576 | On a fail-open class every outcome but allow can come back without evidence |
| Pipeline.PolicyFloorHolds | packages/pipeline/src/agentos_pipeline/runner.py:250-343 | Once policy has answered, whatever fails later, matched effects bound the outcome from below, and a matched deny stands unless every deny ref is covered |
| Pipeline.InterpreterIgnoredOnMatch | packages/pipeline/src/agentos_pipeline/runner.py:261-319 | With a matched principle the interpreter's answer changes nothing |
| Pipeline.InterpreterOnlyRestricts | packages/pipeline/src/agentos_pipeline/runner.py:285-319 | On no match no interpreter answer lowers the failure-free outcome |
| Pipeline.FailureFreeOutcome | packages/pipeline/src/agentos_pipeline/runner.py:254-370 | Without failures the outcome is the graduated, relabelled response to the floor the answers describe (strictest effect, lifted or not, or advised no-match floor), the pooled risk and the trust |
| Pipeline.AdvisedOutcome | packages/pipeline/src/agentos_pipeline/runner.py:285-319 | On no match, a verdict with an authorable outcome, malformed or not, gives the graduated response to the stricter of that and the class's own floor; every other answer the class's own |
| Pipeline.FailureFreeDecision | packages/pipeline/src/agentos_pipeline/runner.py:347-389 | The other fields of the failure-free decision: pooled risk, trust, evidence, and an expiry exactly when an exception survived as allow |
| Pipeline.FailureFreeReasonsMean | packages/pipeline/src/agentos_pipeline/runner.py:246-377 | What each kind of reason in a failure-free decision means, both ways |
| Pipeline.RaisesExactly | packages/pipeline/src/agentos_pipeline/runner.py:184-389 | The stages raise exactly when a collaborator they get to does |
| Pipeline.BoxExactly | packages/pipeline/src/agentos_pipeline/runner.py:175-372 | The floor known at any failure: none before policy, the unlifted one after it, the final outcome after stage 5 |
| Pipeline.OutcomeExactly | packages/pipeline/src/agentos_pipeline/runner.py:505-577 | The outcome under every schedule: on a fail-closed class the stages' own or deny, on a fail-open class what the box held or allow, demoted when unrecorded |
| Pipeline.FailureReasonsMean | packages/pipeline/src/agentos_pipeline/runner.py:505-577 | When a decision says fail-open, fail-closed, redaction failed, secret leak and demoted, both ways |
| Pipeline.PayloadOnFirstAppendOnly | packages/pipeline/src/agentos_pipeline/runner.py:505-577 | Only the first append carries the payload, and it records the decision of the stages |
| Pipeline.MalformedVerdictStands | packages/pipeline/src/agentos_pipeline/runner.py:281-316 | Failure-free and on no match, a verdict whose reason cannot be built leaves the floor, and ends in the outcome, of a raising interpreter exactly when it names nothing authorable above that floor, or above the graduated response to it |
| Pipeline.MalformedDenyStillDenies | packages/pipeline/src/agentos_pipeline/runner.py:299-308 | A tool call allowed when the interpreter raises and denied when its deny is malformed |
| Pipeline.PipelineNeverRelaxes | packages/pipeline/src/agentos_pipeline/runner.py:347-370 | The same as Risk.OutcomeNeverRelaxes at the pipeline's end: more or worse findings or less trust never lower the returned outcome |
| Pipeline.DecisionCitesMatched | packages/pipeline/src/agentos_pipeline/runner.py:300-334 | Whatever fails, a ref in a decision means policy answered, and is a policy reason citing a matched principle with its effect, or, when nothing matched, the ref the interpreter named |
| Pipeline.UnmatchedRefExactly | packages/pipeline/src/agentos_pipeline/runner.py:300-334 | Failure-free, an unmatched ref appears exactly on no match with a well-formed authorable verdict that names one; every matched principle is cited |
| Pipeline.TransformJustified | packages/pipeline/src/agentos_pipeline/runner.py:394-441 | A deny floor lifts only with every deny ref covered now, expires with the earliest of them, and keeps the other matched effects as its floor |
| Pipeline.TransformExactly | packages/pipeline/src/agentos_pipeline/runner.py:394-441 | The deny lifts exactly when denies matched and each is covered, to the strictest of the other effects |
| Pipeline.TemporaryExceptionIsJustified | packages/pipeline/src/agentos_pipeline/runner.py:340-371 | On a fail-closed class a temporary_exception means covered deny refs, nothing else above allow, and the minimum expiry |
| ExceptionTrace.TemporaryExceptionIsRatified | packages/controlplane/src/agentos_controlplane/approvals.py:114-255 | Behind such an outcome every deny principle has a live grant for this agent stemming from an approved request that cites it; expiry is the minimum over refs of the latest grant |
| ExceptionTrace.GrantLiftsDeny | packages/pipeline/src/agentos_pipeline/runner.py:411-441 | The converse: after an approval that cites every matched deny principle and grants until a time, the denies lift until then in every later interleaving that does not revoke those grants |
| ExceptionTrace.NoDenyWaivedFromInside | packages/sdk/src/agentos_sdk/enforce.py:135-154 | From any store a constitution takes effect on: in every interleaving in which all requests stem from governed calls no lookup ever finds one of its deny principles, if and only if no good grant waives one and no pending request cites one at the start |
| ExceptionTrace.ReloadSafeExactly | packages/pipeline/src/agentos_pipeline/policy.py:89-103 | A reload keeps that promise after every governed history exactly when it turns no principle into a deny |
| ExceptionTrace.ReloadsKeepDenies | packages/pipeline/src/agentos_pipeline/policy.py:89-103 | Over any number of reloads that turn no principle into a deny, no deny is ever waived by governed calls |
| ExceptionTrace.HardenedDenyIsExcepted | packages/pipeline/src/agentos_pipeline/policy.py:89-103 | A principle granted through a governed call while short of a deny and reloaded as a deny comes back temporary_exception |
| Approvals.ApprovalStore.Create | packages/controlplane/src/agentos_controlplane/approvals.py:79-98 | A refused context leaves no row; otherwise one pending request is added |
| Approvals.ApprovalStore.Resolve | packages/controlplane/src/agentos_controlplane/approvals.py:114-179 | A pending request takes the status asked for, with its grants and audit events; every error path leaves the store as it was or names the lost event |
| Approvals.ApprovalStore.MarkTimedOut | packages/controlplane/src/agentos_controlplane/approvals.py:213-231 | Pending to timed_out with its event; a racing resolution wins |
| Approvals.ApprovalStore.ActiveFor | packages/controlplane/src/agentos_controlplane/approvals.py:235-255 | The loop computes the specified lookup |
| Approvals.ActiveUpToMeans | packages/controlplane/src/agentos_controlplane/approvals.py:240-242 | The lookup holds exactly the refs with an active grant, each with the latest expiry |
| Approvals.LookupExactly | packages/controlplane/src/agentos_controlplane/approvals.py:235-255 | A ref asked for is found exactly if the agent has a grant for it that is neither revoked nor expired, with the latest end of those |
| Approvals.ResolutionIsLogged | packages/controlplane/src/agentos_controlplane/approvals.py:141-179 | A resolution issues one grant per cited ref when it grants, and announces itself and then each of them; a failing audit leaves a prefix |
| Approvals.FiredRefsMean | packages/controlplane/src/agentos_controlplane/approvals.py:181-189 | The refs granted are exactly the non-empty refs some policy reason cites |
| Approvals.GrantTakesEffect | packages/controlplane/src/agentos_controlplane/approvals.py:143-155 | Every principle an approved request cites is in its agent's lookup at least until the granted time, in every later interleaving that does not revoke those grants |
| Approvals.GrantsOnlyRevoked | packages/controlplane/src/agentos_controlplane/approvals.py:143-268 | In every interleaving grants only appear, and change only by a revocation that names them |
| Approvals.ApprovalStore.Revoke | packages/controlplane/src/agentos_controlplane/approvals.py:261-268 | Marks one grant revoked, or reports an unknown id |
| Approvals.RevokedNeverCounts | packages/controlplane/src/agentos_controlplane/approvals.py:235-268 | Once revoked, a grant is to every later lookup, in every interleaving, as if it had never been |
| Approvals.LeavesPendingOnce | packages/controlplane/src/agentos_controlplane/approvals.py:114-231 | In every interleaving a request that has left pending never changes again |
| ApprovalHistory.StatusStems | packages/controlplane/src/agentos_controlplane/approvals.py:114-231 | In every interleaving a request is approved, denied or timed out exactly if some committed event of that kind found it pending |
| ApprovalHistory.ResolutionStands | packages/controlplane/src/agentos_controlplane/approvals.py:137-155 | The first committed resolution of a pending request fixes its status and resolver for good |
| ApprovalHistory.NeverRunsAfterDenial | packages/controlplane/src/agentos_controlplane/coordinator.py:55-68 | After a human denial a governed call on a blocking outcome never runs |
| ApprovalHistory.RunStems | packages/controlplane/src/agentos_controlplane/coordinator.py:55-68 | A blocked call that ran has an approval of its own row behind it, or a timeout on a fail-open class |
| ApprovalHistory.BeginMeans | packages/sdk/src/agentos_sdk/enforce.py:119-154 | A governed call that begins runs at once, waits on its own request, or is over without having run |
| ApprovalHistory.PollMeans | packages/controlplane/src/agentos_controlplane/approvals.py:191-211 | What a waiting call does on each status of its row |
| ApprovalHistory.ExpireMeans | packages/controlplane/src/agentos_controlplane/approvals.py:213-231 | What a call past its deadline does, resolution first |
| ApprovalHistory.RequestsStem | packages/controlplane/src/agentos_controlplane/approvals.py:79-98 | Every request stems from the call or the hand that created it, with that agent and those reasons |
| ApprovalHistory.GrantsStem | packages/controlplane/src/agentos_controlplane/approvals.py:143-155 | Every grant stems from an approval that found its request pending, and lasts exactly until the time granted |
| Approvals.OneMatchingEvent | packages/controlplane/src/agentos_controlplane/approvals.py:157-166 | At most one lifecycle event per request, announcing its status; with a working audit exactly one once it has left pending |
| Approvals.GrantsAreTraced | packages/controlplane/src/agentos_controlplane/approvals.py:143-155 | Every grant stems from an approved request of the same agent citing the principle |
| Approvals.RunsOnlyWhenPermitted | packages/controlplane/src/agentos_controlplane/coordinator.py:55-68 | In every interleaving an operation runs at most once, never on deny, and on blocking outcomes only with its row approved or timed out on a fail-open class |
| Enforcement.Govern | packages/sdk/src/agentos_sdk/enforce.py:104-154 | The ordered effects and the ending of one governed call |
| Enforcement.RunsExactlyWhenPermitted | packages/sdk/src/agentos_sdk/enforce.py:119-154 | The operation runs at most once, last, and exactly under the stated conditions |
| Enforcement.ObligationsComeFirst | packages/sdk/src/agentos_sdk/enforce.py:123-151 | An owed review and an audited substitution come before the operation or the wait |
| Enforcement.GovernedByOutcome | packages/sdk/src/agentos_sdk/enforce.py:104-154 | The exact effects and ending of a governed call, outcome by outcome: dispatch first, the review owed, then at once, after approval, or never |
| Compiler.DnfMeansTree | packages/constitution/src/agentos_constitution/compiler.py:51-67 | The normal form of a tree, negated or not, is satisfied exactly when the tree is true, or false |
| Compiler.LoweredLeafIsExact | packages/constitution/src/agentos_constitution/compiler.py:97-104 | On a present field a lowered leaf says what the leaf says, or its opposite |
| Compiler.ScopeCheckNeededExactly | packages/constitution/src/agentos_constitution/schema.py:212-227 | Some value makes every rule on a text field two-valued for an action if and only if the field is scoped to its type; out of scope each value is contradicted by a principle only the scope check refuses |
| Constitution.DocumentIsTotal | packages/pipeline/src/agentos_pipeline/policy_input.py:22-70 | A document is missing exactly when it would hold the host of a URL whose parsing raises; in a document every registered field is present, with the value it stands for, for exactly the action types it is scoped to |
| Constitution.PayloadFieldsRead | packages/pipeline/src/agentos_pipeline/policy_input.py:25-70 | What each payload field stands for on strings, other values, missing keys and URLs |
| Compiler.CompiledPrincipleFires | packages/constitution/src/agentos_constitution/compiler.py:113-139 | For a schema-valid principle and any document built, some emitted body succeeds under undefined-aware semantics exactly when the type is in scope and the condition (or sequence) is true classically |
| Compiler.CompiledConstitutionMatches | packages/constitution/src/agentos_constitution/compiler.py:151-152 | The matched set is exactly the principles that fire, and no_match exactly when none does |
| Compiler.RefusedExactlyAboveCeiling | packages/constitution/src/agentos_constitution/compiler.py:45-48 | Compilation is refused exactly when the branch counts multiply out past 64 |
| EndToEnd.FiringPrincipleBinds | packages/pipeline/src/agentos_pipeline/runner.py:245-343 | A principle that fires in two-valued logic bounds the decision from below whatever fails after policy, and a deny stands unless an exception covers it |
| EndToEnd.AuthoredOutcome | packages/pipeline/src/agentos_pipeline/runner.py:245-370 | Failure-free, without interpreter or exceptions, the outcome is the graduated response to the strictest effect that fires, or to the class's own floor when none does |
| EndToEnd.FiringDenyIsDeniedExactly | packages/pipeline/src/agentos_pipeline/policy_input.py:25-34 | With nothing failing before policy, a deny that fires on the empty host of an unparseable URL too is denied unless parsing raises, the class fails open and the fail-safe record is appended |
| EndToEnd.UnparseableUrlIsAllowed | packages/pipeline/src/agentos_pipeline/policy_input.py:25-34 | An egress deny that fires on a tool call's empty host, and the call allowed |
| Sorting.SortStable | packages/constitution/src/agentos_constitution/version.py:23 | Elements with equal keys keep their order |
| Sorting.SortForgetsOrder | packages/constitution/src/agentos_constitution/version.py:23-24 | With a telling key, sorting forgets exactly the order |
| Sorting.LessMeans | packages/constitution/src/agentos_constitution/version.py:14-16 | Keys compare as Python tuples: the first difference decides, a prefix comes first |
| Canonical.CanonicalFormDecidesContent | packages/constitution/src/agentos_constitution/version.py:19-28 | Equal canonical forms mean principles agree up to order, lists as sets, and the rest is equal; with ids told apart by their keys the converse holds too |
| Canonical.CanonicalFormIdempotent | packages/constitution/src/agentos_constitution/version.py:19-28 | Canonicalising twice is canonicalising once |
| Canonical.IdKeyReads | packages/constitution/src/agentos_constitution/version.py:14-16 | The sort key of an id is the sequence of numbers between its dots |
| Canonical.OrderForgottenExactly | packages/constitution/src/agentos_constitution/version.py:14-23 | For a constitution the schema accepts, authoring order is forgotten iff no two ids share a sort key |
| Canonical.SharedKeyExists | packages/constitution/src/agentos_constitution/version.py:14-16 | "1.1" and "1.01" are such ids |
| Canonical.SameContentSameBundle | packages/constitution/src/agentos_constitution/compiler.py:175-207 | The same content compiles to the same version, YAML principles, rules, sequence metadata and lists |
| CompiledBundle.BundleHolds | packages/constitution/src/agentos_constitution/compiler.py:175-207 | The rules are those of the constitution's principles, each once and by id, the YAML layer and sequences the same ones, the lists the authored entries sorted and once each |
| CompiledBundle.CompilesExactly | packages/constitution/src/agentos_constitution/compiler.py:129-136 | Compilation fails exactly when a principle is above the ceiling, with the count of the first by id |
| CompiledBundle.BundleDecidesAsAuthored | packages/constitution/src/agentos_constitution/compiler.py:175-207 | For any document the entries of the bundle that match, with the bundle's own lists, are exactly the principles that fire |
| Sequence.TestDecidesEmbedding | packages/pipeline/src/agentos_pipeline/sequence.py:38-41 | The iterator-consuming test holds iff a strictly increasing embedding exists |
| Sequence.SequenceCorrelator.Observe | packages/pipeline/src/agentos_pipeline/sequence.py:52-78 | One observation gives the specified table and refs, within the bound |
| Sequence.RefsDecided | packages/pipeline/src/agentos_pipeline/sequence.py:70-76 | A ref is reported iff its sequence ends here and its earlier steps embed in the window |
| Sequence.ObserveExactly | packages/pipeline/src/agentos_pipeline/sequence.py:63-77 | A tagged observation leaves its class newest in its window, cut to size; a new key goes last and pushes out the oldest when full; nothing else changes |
| Sequence.MatchIsReported | packages/pipeline/src/agentos_pipeline/sequence.py:52-78 | While no more conversations were seen than fit, a sequence whose earlier steps lie in the last window classes is reported |
| Sequence.RunValid | packages/pipeline/src/agentos_pipeline/sequence.py:64-68 | After any run the table is within max_conversations and its order lists its keys once |
| Sequence.WindowIsRecentHistory | packages/pipeline/src/agentos_pipeline/sequence.py:63-77 | After any run each window is the last `window` tagged classes since that key's window was opened |
| Sequence.MatchHoldsOfFullHistory | packages/pipeline/src/agentos_pipeline/sequence.py:12-16 | A reported match embeds in the key's full, unbounded history |
| IdentityCache.CachingIdentityStage.Verify | packages/pipeline/src/agentos_pipeline/identity.py:92-105 | The specified verdict and cache, on hit, miss, failure and eviction |
| IdentityCache.CachingIdentityStage.Invalidate | packages/pipeline/src/agentos_pipeline/identity.py:107-115 | Clears everything, or one agent's entries |
| IdentityCache.VerifyKeepsValid | packages/pipeline/src/agentos_pipeline/identity.py:99-104 | The cache stays within max_entries and holds only ok verdicts |
| IdentityCache.ServedVerdictIsRecent | packages/pipeline/src/agentos_pipeline/identity.py:67-71 | Every served verdict was returned by the wrapped stage for the same token and agent less than ttl ago, with no covering invalidation since |
| IdentityCache.FreshVerdictIsServed | packages/pipeline/src/agentos_pipeline/identity.py:92-99 | An ok verdict given less than ttl ago, not invalidated or evicted since, is served whatever the wrapped stage would do |
| IdentityCache.StoreExactly | packages/pipeline/src/agentos_pipeline/identity.py:99-104 | First in, first out: a new key goes last and in a full cache pushes out the oldest and no other |
| IdentityCache.MissAsks | packages/pipeline/src/agentos_pipeline/identity.py:92-105 | Without a live entry the wrapped stage decides, and a failed verdict leaves nothing to serve |
| IdentityCache.CachedEqualsUncached | packages/pipeline/src/agentos_pipeline/identity.py:67-71 | If answers change only together with an invalidation, cached and uncached verdicts are identical at every call, except exactly where a zero-sized cache is to store an ok verdict |
| IdentityCache.InvisibleExactlyWithRoom | packages/pipeline/src/agentos_pipeline/identity.py:99-103 | Over all coherent runs the two agree exactly when max_entries is at least 1 |
| KillSwitch.KillSwitchStore.Set | packages/controlplane/src/agentos_controlplane/killswitch.py:64-77 | Memory, then table, then chain, stopping at the failure |
| KillSwitch.KillSwitchStore.Clear | packages/controlplane/src/agentos_controlplane/killswitch.py:79-92 | Table, then chain, and only then memory, stopping at the failure |
| KillSwitch.ActiveRowsAreKilled | packages/controlplane/src/agentos_controlplane/killswitch.py:80-83 | In every run of kills, clears and restarts with failures anywhere, active rows are killed in memory |
| KillSwitch.ActiveRowsAreReported | packages/controlplane/src/agentos_controlplane/killswitch.py:39-44 | An agent with an active row, or under an active fleet row, is always reported killed |
| KillSwitch.KillIsReported | packages/controlplane/src/agentos_controlplane/killswitch.py:39-77 | A kill that went through is reported with its reason and scope until the next kill or clear of its target, over failures and restarts |
| KillSwitch.KillIsImmediate | packages/controlplane/src/agentos_controlplane/killswitch.py:64-66 | A kill takes effect in memory at once, whatever fails afterwards, for its target alone |
| KillSwitch.KillSteps | packages/controlplane/src/agentos_controlplane/killswitch.py:64-77 | Which of the table and the chain a kill reached under each failure |
| KillSwitch.ClearSteps | packages/controlplane/src/agentos_controlplane/killswitch.py:79-92 | A clear drops the kill from memory exactly when its row, if any, and its event went through |
| KillSwitch.ClearIsFinal | packages/controlplane/src/agentos_controlplane/killswitch.py:79-92 | A clear that went through ends the kill until the next one |
| KillSwitch.NeverKilledNeverReported | packages/controlplane/src/agentos_controlplane/killswitch.py:39-44 | An agent with neither itself nor the fleet killed is never reported |
| KillSwitch.FaultlessRunsCoincide | packages/controlplane/src/agentos_controlplane/killswitch.py:34-92 | Without failures memory, active rows and the replayed chain coincide |
| FormatCheck.Walk | packages/pipeline/src/agentos_pipeline/risk/format_check.py:51-67 | The explicit-stack walk terminates and raises each flag iff some path into the payload shows the anomaly |
| FormatCheck.WalkDecidesPresence | packages/pipeline/src/agentos_pipeline/risk/format_check.py:54-67 | Pruning below depth 8 loses no anomaly: recursive walk and path meaning coincide |
| FormatCheck.FlagsOfText | packages/pipeline/src/agentos_pipeline/risk/format_check.py:62-67 | Which flags a single string raises |
| FormatCheck.Score | packages/pipeline/src/agentos_pipeline/risk/format_check.py:69-83 | The finding lists exactly the anomalies present, each once and in the fixed order, and scores iff there is one |
| Luhn.LuhnValid | packages/pipeline/src/agentos_pipeline/risk/pii.py:34-44 | The loop computes the checksum |
| Luhn.TwoDigits | packages/pipeline/src/agentos_pipeline/risk/pii.py:34-44 | The last digit counts as it is and the one before it doubled; with LeadingZero, positions count from the right |
| Luhn.SubstitutionDetected | packages/pipeline/src/agentos_pipeline/risk/pii.py:34-44 | Every single-digit substitution in a valid string is detected |
| Luhn.TranspositionDetected | packages/pipeline/src/agentos_pipeline/risk/pii.py:34-44 | An adjacent transposition goes unnoticed exactly for equal digits and for 0 with 9 |
| Luhn.CardFound | packages/pipeline/src/agentos_pipeline/risk/pii.py:68-78 | The candidate loop reports a card iff some candidate has an issuer digit, a card's length and a passing checksum |
| Luhn.DigitsRead | packages/pipeline/src/agentos_pipeline/risk/pii.py:68-78 | A candidate's digits keep their order and values, separators count for nothing |

## Left out

- The redactor and the secret scan: a refused payload and a leaking body are inputs of the model, for any refusal and any scan.
- Bodies that are not JSON objects, on which the verifier raises instead of reporting a violation.
- RFC 3161 tokens, Ed25519, SHA-256 and JSON text: uninterpreted functions, for any choice of which the results hold.
- Floating point: scores, trust and clocks are reals.
- Payload values that are not JSON, and `str()` of the ones that are no strings: uninterpreted.
- Decision fields that only explain: rationale, detail, side effects, remediation, inferred intent and version strings. Building them may raise, and that is a fault of the model.
- The polling loop of `wait_resolved`: each poll and each deadline is a step of the interleaved system, and time between polls is unmodelled.
- Overlapping database transactions on one approval row: each session block is one atomic step.
- Time between a call's evaluation and its parking: a governed call evaluates and parks in one step, so the exception lookup behind its decision is the store's at that step and no reload falls between them.
- Rendered Rego, YAML and comment text, and OPA's own parser: rule bodies are lists of literals.
- Unicode digits in principle ids and card candidates: digits are ASCII.
- Regular expressions of the detectors; the card scan starts from the candidates the expression finds.
- API routes, dashboard, inventory, resources, registry, middleware and model adapters.
