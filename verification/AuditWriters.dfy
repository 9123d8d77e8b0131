/** AuditWriter: appends through a cached head, for any number of writers over one table. */
module AuditWriters {
  import opened Common
  import opened AuditChain

  const EVENT_KINDS: set<string> :=
    {"approval_resolved", "approval_timed_out", "exception_granted", "review_opened",
     "enforcement_substitution", "side_effect", "kill_switch_set", "kill_switch_cleared"}

  const RESERVED_EVENT_KEYS: set<string> := {"seq", "prev_hash", "kind"}

  /** The action, decision and lineage values of a decision record. */
  datatype DecisionFields = DecisionFields(
    actionId: Json, agentId: Json, actionType: Json, parentActionId: Json, conversationId: Json,
    outcome: Json, riskScore: Json, trustScore: Json, reasons: Json, sideEffects: Json,
    inferredIntent: Json, remediation: Json, constitutionVersion: Json, policyVersion: Json, expiresAt: Json)

  /** What a caller appends; redacted is None when the redactor raised. */
  datatype Content =
    | DecisionRecord(fields: DecisionFields, redacted: Option<Json>)
    | EventRecord(kind: string, body: Body)

  /** (prior record hash, next seq), as AuditWriter caches it. */
  datatype Head = Head(prev: Option<string>, next: int)

  /** CommitLost: the row is durable, but the commit call raised. */
  datatype Fault = Works | CommitFails | CommitLost

  datatype AppendError = Refused | SecretLeak | IntegrityError | CommitError

  /** The hash and signature primitives, the secret scan, and the checkpoint anchor in use. */
  datatype Env = Env(h: Hashing, signer: Option<Bytes -> Bytes>, leaks: Bytes -> bool,
                     anchorKind: AnchorKind, anchor: Bytes -> Bytes)

  function PrevJson(prev: Option<string>): Json {
    if prev.Some? then Str(prev.value) else Null
  }

  /** The hash-covered body, or None when the redactor or one of the event guards raises. */
  function BuildBody(content: Content, head: Head): Option<Body> {
    match content
    case DecisionRecord(f, redacted) =>
      if redacted.None? then None
      else Some(map["seq" := Int(head.next), "prev_hash" := PrevJson(head.prev),
                    "action_id" := f.actionId, "agent_id" := f.agentId, "action_type" := f.actionType,
                    "parent_action_id" := f.parentActionId, "conversation_id" := f.conversationId,
                    "outcome" := f.outcome, "risk_score" := f.riskScore, "trust_score" := f.trustScore,
                    "reasons" := f.reasons, "redacted_payload" := redacted.value,
                    "side_effects" := f.sideEffects, "inferred_intent" := f.inferredIntent,
                    "remediation" := f.remediation, "constitution_version" := f.constitutionVersion,
                    "policy_version" := f.policyVersion, "expires_at" := f.expiresAt])
    case EventRecord(kind, body) =>
      if kind !in EVENT_KINDS || RESERVED_EVENT_KEYS * body.Keys != {} then None
      else Some(map["seq" := Int(head.next), "prev_hash" := PrevJson(head.prev), "kind" := Str(kind)] + body)
  }

  const DECISION_KEYS: set<string> :=
    {"action_id", "agent_id", "action_type", "parent_action_id", "conversation_id", "outcome", "risk_score",
     "trust_score", "reasons", "redacted_payload", "side_effects", "inferred_intent", "remediation",
     "constitution_version", "policy_version", "expires_at"}

  /** Reading a body back: the event or the decision it records. */
  function ReadContent(body: Body): Option<Content> {
    if "kind" in body && body["kind"].Str? then
      Some(EventRecord(body["kind"].s, body - {"seq", "prev_hash", "kind"}))
    else if DECISION_KEYS <= body.Keys then
      Some(DecisionRecord(
             DecisionFields(
               actionId := body["action_id"], agentId := body["agent_id"], actionType := body["action_type"],
               parentActionId := body["parent_action_id"], conversationId := body["conversation_id"],
               outcome := body["outcome"], riskScore := body["risk_score"], trustScore := body["trust_score"],
               reasons := body["reasons"], sideEffects := body["side_effects"],
               inferredIntent := body["inferred_intent"], remediation := body["remediation"],
               constitutionVersion := body["constitution_version"], policyVersion := body["policy_version"],
               expiresAt := body["expires_at"]),
             Some(body["redacted_payload"])))
    else None
  }

  /** Every field an append is given can be read back from the body it hashes, under its own key. */
  lemma BodyReadsBack(content: Content, head: Head)
    requires BuildBody(content, head).Some?
    ensures ReadContent(BuildBody(content, head).value) == Some(content)
  {
    hide ReadContent;
    match content {
      case DecisionRecord(_, _) => DecisionReadsBack(content, head);
      case EventRecord(kind, body) => EventReadsBack(kind, body, head);
    }
  }

  lemma DecisionSubject(content: Content, head: Head)
    requires content.DecisionRecord? && content.redacted.Some?
    ensures BuildBody(content, head).Some?
    ensures var body, f := BuildBody(content, head).value, content.fields;
            && "action_id" in body && body["action_id"] == f.actionId
            && "agent_id" in body && body["agent_id"] == f.agentId
            && "action_type" in body && body["action_type"] == f.actionType
            && "parent_action_id" in body && body["parent_action_id"] == f.parentActionId
            && "conversation_id" in body && body["conversation_id"] == f.conversationId
  {
  }

  lemma DecisionIsNoEvent(content: Content, head: Head)
    requires content.DecisionRecord? && content.redacted.Some?
    ensures BuildBody(content, head).Some? && "kind" !in BuildBody(content, head).value
  {
  }

  lemma DecisionVerdict(content: Content, head: Head)
    requires content.DecisionRecord? && content.redacted.Some?
    ensures BuildBody(content, head).Some?
    ensures var body, f := BuildBody(content, head).value, content.fields;
            && "outcome" in body && body["outcome"] == f.outcome
            && "risk_score" in body && body["risk_score"] == f.riskScore
            && "trust_score" in body && body["trust_score"] == f.trustScore
            && "reasons" in body && body["reasons"] == f.reasons
            && "redacted_payload" in body && body["redacted_payload"] == content.redacted.value
  {
  }

  lemma DecisionExtras(content: Content, head: Head)
    requires content.DecisionRecord? && content.redacted.Some?
    ensures BuildBody(content, head).Some?
    ensures var body, f := BuildBody(content, head).value, content.fields;
            && "side_effects" in body && body["side_effects"] == f.sideEffects
            && "inferred_intent" in body && body["inferred_intent"] == f.inferredIntent
            && "remediation" in body && body["remediation"] == f.remediation
            && "constitution_version" in body && body["constitution_version"] == f.constitutionVersion
            && "policy_version" in body && body["policy_version"] == f.policyVersion
            && "expires_at" in body && body["expires_at"] == f.expiresAt
  {
  }

  lemma DecisionReadsBack(content: Content, head: Head)
    requires content.DecisionRecord? && content.redacted.Some?
    ensures BuildBody(content, head).Some? && ReadContent(BuildBody(content, head).value) == Some(content)
  {
    hide BuildBody;
    DecisionIsNoEvent(content, head);
    DecisionSubject(content, head);
    DecisionVerdict(content, head);
    DecisionExtras(content, head);
  }

  lemma EventReadsBack(kind: string, body: Body, head: Head)
    requires BuildBody(EventRecord(kind, body), head).Some?
    ensures ReadContent(BuildBody(EventRecord(kind, body), head).value) == Some(EventRecord(kind, body))
  {
    var built := BuildBody(EventRecord(kind, body), head).value;
    forall k | k in RESERVED_EVENT_KEYS ensures k !in body {
      assert k in body ==> k in RESERVED_EVENT_KEYS * body.Keys;
    }
    assert built - {"seq", "prev_hash", "kind"} == body;
  }

  /** So two appends with the same body were given the same content at the same head. */
  lemma BodiesTellApart(content: Content, head: Head, other: Content, otherHead: Head)
    requires BuildBody(content, head).Some? && BuildBody(content, head) == BuildBody(other, otherHead)
    ensures content == other && head == otherHead
  {
    hide BuildBody, ReadContent;
    BodyReadsBack(content, head);
    BodyReadsBack(other, otherHead);
    BodyCarriesHead(content, head);
    BodyCarriesHead(other, otherHead);
  }

  /** The guards refuse a failed redaction, an unknown kind, and an event body that shadows a chain field. */
  lemma RefusedExactly(content: Content, head: Head)
    ensures BuildBody(content, head).None? <==>
            match content
            case DecisionRecord(_, redacted) => redacted.None?
            case EventRecord(kind, body) =>
              kind !in EVENT_KINDS || "seq" in body || "prev_hash" in body || "kind" in body
  {
    match content {
      case DecisionRecord(_, _) =>
      case EventRecord(kind, body) =>
        if k :| k in RESERVED_EVENT_KEYS * body.Keys {
          assert k in RESERVED_EVENT_KEYS;
        }
        assert forall k :: k in body && k in RESERVED_EVENT_KEYS ==> k in RESERVED_EVENT_KEYS * body.Keys;
    }
  }

  /** The row with the greatest seq: `order by seq desc limit 1`. */
  function LastBySeq(rows: seq<Row>): Option<Row> {
    if rows == [] then None
    else
      var best := LastBySeq(rows[..|rows| - 1]);
      var row := rows[|rows| - 1];
      if best.None? || row.seqNo > best.value.seqNo then Some(row) else best
  }

  /** _chain_head: the cache when there is one, else the table. */
  function HeadOf(cached: Option<Head>, rows: seq<Row>): Head {
    if cached.Some? then cached.value
    else
      var last := LastBySeq(rows);
      if last.None? then Head(None, 0) else Head(Some(last.value.recordHash), last.value.seqNo + 1)
  }

  function Sign(env: Env, canonical: Bytes): Option<SignatureText> {
    if env.signer.None? then None else Some(Hex(env.signer.value(SIG_DOMAIN + canonical)))
  }

  function Seal(env: Env, head: Head, body: Body): Row {
    Row(head.next, head.prev, env.h.Of(body), Sign(env, env.h.canonical(body)), body)
  }

  /** The UNIQUE constraint on seq. */
  predicate SeqTaken(rows: seq<Row>, seqNo: int) {
    exists i :: 0 <= i < |rows| && rows[i].seqNo == seqNo
  }

  datatype Attempted = Attempted(rows: seq<Row>, result: Result<Head, AppendError>)

  /** One append with the head already read: the new table, and the new head or what was raised. */
  function Attempt(env: Env, rows: seq<Row>, head: Head, content: Content, fault: Fault): Attempted {
    var body := BuildBody(content, head);
    if body.None? then Attempted(rows, Err(Refused))
    else if env.leaks(env.h.canonical(body.value)) then Attempted(rows, Err(SecretLeak))
    else if SeqTaken(rows, head.next) then Attempted(rows, Err(IntegrityError))
    else
      var row := Seal(env, head, body.value);
      match fault
      case Works => Attempted(rows + [row], Ok(Head(Some(row.recordHash), head.next + 1)))
      case CommitFails => Attempted(rows, Err(CommitError))
      case CommitLost => Attempted(rows + [row], Err(CommitError))
  }

  // ----- the invariant of the table -----

  /** Row i is exactly what some append wrote at position i. */
  ghost predicate Chained(env: Env, rows: seq<Row>, i: nat)
    requires i < |rows|
  {
    var row := rows[i];
    && row.seqNo == i
    && "seq" in row.body && row.body["seq"] == Int(i)
    && PrevAgrees(row.body, row.prevHash)
    && Complete(row.body)
    && row.recordHash == env.h.Of(row.body)
    && row.prevHash == Link(env.h, rows, i)
    && row.signature == Sign(env, env.h.canonical(row.body))
  }

  /** Contiguous from 0, hash-linked, no fork. */
  ghost predicate ChainedTable(env: Env, rows: seq<Row>) {
    forall i :: 0 <= i < |rows| ==> Chained(env, rows, i)
  }

  /** A head some writer read at one time: it names a position the table has reached. */
  ghost predicate HeadFits(env: Env, rows: seq<Row>, head: Head) {
    0 <= head.next <= |rows| && head.prev == Link(env.h, rows, head.next)
  }

  lemma {:induction false} LastOfContiguous(rows: seq<Row>)
    requires forall i :: 0 <= i < |rows| ==> rows[i].seqNo == i
    ensures LastBySeq(rows) == if rows == [] then None else Some(rows[|rows| - 1])
  {
    if rows != [] {
      LastOfContiguous(rows[..|rows| - 1]);
    }
  }

  /** Reading the head of a chained table gives its end. */
  lemma LastIsEnd(env: Env, rows: seq<Row>)
    requires ChainedTable(env, rows)
    ensures LastBySeq(rows) == if rows == [] then None else Some(rows[|rows| - 1])
    ensures HeadFits(env, rows, HeadOf(None, rows)) && HeadOf(None, rows).next == |rows|
  {
    forall i | 0 <= i < |rows| ensures rows[i].seqNo == i {
      assert Chained(env, rows, i);
    }
    LastOfContiguous(rows);
    if rows != [] {
      assert Chained(env, rows, |rows| - 1);
    }
  }

  /** Whatever the guards let through carries its own seq and prev_hash, and the required keys. */
  lemma BodyCarriesHead(content: Content, head: Head)
    requires BuildBody(content, head).Some?
    ensures var body := BuildBody(content, head).value;
            && "seq" in body && body["seq"] == Int(head.next)
            && "prev_hash" in body && body["prev_hash"] == (if head.prev.Some? then Str(head.prev.value) else Null)
            && PrevAgrees(body, head.prev)
            && Complete(body)
  {
    match content {
      case DecisionRecord(_, _) =>
      case EventRecord(kind, body) =>
        assert "seq" in RESERVED_EVENT_KEYS && "prev_hash" in RESERVED_EVENT_KEYS;
        assert "seq" in body ==> "seq" in RESERVED_EVENT_KEYS * body.Keys;
        assert "prev_hash" in body ==> "prev_hash" in RESERVED_EVENT_KEYS * body.Keys;
    }
  }

  /**
   * An append writes a row exactly when its content passes the guards, the secret scan is quiet, its
   * head is the end of the table and the commit goes through; the row written extends the chain, and what
   * is raised otherwise names the first of these that failed.
   */
  lemma AttemptExtends(env: Env, rows: seq<Row>, head: Head, content: Content, fault: Fault)
    requires ChainedTable(env, rows) && HeadFits(env, rows, head)
    ensures var a := Attempt(env, rows, head, content, fault);
            && rows <= a.rows && |a.rows| <= |rows| + 1
            && ChainedTable(env, a.rows)
            && (a.result.Ok? ==> HeadFits(env, a.rows, a.result.value) && a.result.value.next == |a.rows|)
            && (a.rows != rows <==>
                && BuildBody(content, head).Some?
                && !env.leaks(env.h.canonical(BuildBody(content, head).value))
                && head.next == |rows|
                && fault != CommitFails)
            && (a.result.Err? ==>
                  a.result.error ==
                  if BuildBody(content, head).None? then Refused
                  else if env.leaks(env.h.canonical(BuildBody(content, head).value)) then SecretLeak
                  else if head.next < |rows| then IntegrityError
                  else CommitError)
            && (a.result.Ok? <==> a.rows != rows && fault == Works)
  {
    var a := Attempt(env, rows, head, content, fault);
    forall i | 0 <= i < |rows| ensures rows[i].seqNo == i {
      assert Chained(env, rows, i);
    }
    assert head.next < |rows| ==> rows[head.next].seqNo == head.next;
    if |a.rows| > |rows| {
      BodyCarriesHead(content, head);
      var row := a.rows[|rows|];
      forall i | 0 <= i < |a.rows| ensures Chained(env, a.rows, i) {
        if i < |rows| {
          assert Chained(env, rows, i);
        }
      }
    }
  }

  // ----- the writer -----

  class AuditStore {
    var rows: seq<Row>
    var checkpoints: seq<Checkpoint>

    constructor ()
      ensures rows == [] && checkpoints == []
    {
      rows, checkpoints := [], [];
    }
  }

  class AuditWriter {
    const env: Env
    const store: AuditStore
    var head: Option<Head>

    constructor (env: Env, store: AuditStore)
      ensures this.env == env && this.store == store && head == None
    {
      this.env, this.store, head := env, store, None;
    }

    /** append / append_event: one row or nothing, and the cached head moves only after the commit. */
    method Append(content: Content, fault: Fault) returns (r: Result<nat, AppendError>)
      requires ChainedTable(env, store.rows)
      requires head.Some? ==> HeadFits(env, store.rows, head.value)
      modifies this`head, store`rows
      ensures ChainedTable(env, store.rows) && old(store.rows) <= store.rows
      ensures head.Some? ==> HeadFits(env, store.rows, head.value)
      ensures var a := Attempt(env, old(store.rows), HeadOf(old(head), old(store.rows)), content, fault);
              && store.rows == a.rows
              && head == (if a.result.Ok? then Some(a.result.value) else old(head))
              && r == (if a.result.Ok? then Ok(|old(store.rows)|) else Err(a.result.error))
      // The row written, if one was, says what the caller appended, and hashes and signs exactly that.
      ensures store.rows != old(store.rows) ==>
                && store.rows == old(store.rows) + [store.rows[|old(store.rows)|]]
                && var row := store.rows[|old(store.rows)|];
                   && ReadContent(row.body) == Some(content)
                   && row.recordHash == env.h.sha256(env.h.canonical(row.body))
                   && (env.signer.None? ==> row.signature == None)
                   && (env.signer.Some? ==>
                         row.signature == Some(Hex(env.signer.value(SIG_DOMAIN + env.h.canonical(row.body)))))
    {
      hide ReadContent, BuildBody, LastBySeq, Complete;
      LastIsEnd(env, store.rows);
      var current := HeadOf(head, store.rows);
      AttemptExtends(env, store.rows, current, content, fault);
      var body := BuildBody(content, current);
      if body.None? {
        return Err(Refused);
      }
      BodyReadsBack(content, current);
      var canonical := env.h.canonical(body.value);
      if env.leaks(canonical) {
        return Err(SecretLeak);
      }
      var recordHash := env.h.sha256(canonical);
      var row := Row(current.next, current.prev, recordHash, Sign(env, canonical), body.value);
      if SeqTaken(store.rows, row.seqNo) {
        return Err(IntegrityError);
      }
      if fault != CommitFails {
        store.rows := store.rows + [row];
      }
      if fault != Works {
        return Err(CommitError);
      }
      head := Some(Head(Some(recordHash), current.next + 1));
      r := Ok(row.seqNo);
    }
  }

  /** The checkpoint binds a row of this table, with the proof the anchor gives for it. */
  ghost predicate CheckpointFits(env: Env, rows: seq<Row>, cp: Checkpoint) {
    && 0 <= cp.seqNo < |rows|
    && cp.recordHash == env.h.Of(rows[cp.seqNo].body)
    && cp.kind == env.anchorKind
    && cp.proof == env.anchor(CheckpointMessage(env.h, cp.seqNo, cp.recordHash))
  }

  class CheckpointService {
    const env: Env
    const store: AuditStore

    constructor (env: Env, store: AuditStore)
      ensures this.env == env && this.store == store
    {
      this.env, this.store := env, store;
    }

    /** Anchors the current chain head; an empty chain, or a failed commit, raises and stores nothing. */
    method Take(commits: bool) returns (r: Option<Checkpoint>)
      requires ChainedTable(env, store.rows)
      modifies store`checkpoints
      ensures r.None? <==> store.rows == [] || !commits
      ensures r.None? ==> store.checkpoints == old(store.checkpoints)
      ensures r.Some? ==>
                && store.checkpoints == old(store.checkpoints) + [r.value]
                && r.value.seqNo == |store.rows| - 1
                && CheckpointFits(env, store.rows, r.value)
    {
      LastIsEnd(env, store.rows);
      var head := LastBySeq(store.rows);
      if head.None? || !commits {
        return None;
      }
      assert Chained(env, store.rows, |store.rows| - 1);
      var row := head.value;
      var proof := env.anchor(CheckpointMessage(env.h, row.seqNo, row.recordHash));
      var cp := Checkpoint(row.seqNo, row.recordHash, env.anchorKind, proof);
      store.checkpoints := store.checkpoints + [cp];
      r := Some(cp);
    }
  }

  // ----- any number of writers, interleaved -----

  /** One writer process: its cached head, and the head an append in progress has read. */
  datatype Writer = Writer(cached: Option<Head>, inFlight: Option<Head>)

  /** headReads: heads a checkpoint in progress has read but not yet stored. */
  datatype System = System(rows: seq<Row>, writers: seq<Writer>, headReads: seq<Row>, checkpoints: seq<Checkpoint>)

  datatype Event =
    | ReadHead(w: nat)
    | Insert(w: nat, content: Content, fault: Fault)
    | Restart(w: nat)
    | ReadCheckpointHead
    | StoreCheckpoint(read: nat)

  function Step(env: Env, s: System, e: Event): System {
    match e
    case ReadHead(w) =>
      if w < |s.writers| && s.writers[w].inFlight.None? then
        s.(writers := s.writers[w := s.writers[w].(inFlight := Some(HeadOf(s.writers[w].cached, s.rows)))])
      else s
    case Insert(w, content, fault) =>
      if w < |s.writers| && s.writers[w].inFlight.Some? then
        var a := Attempt(env, s.rows, s.writers[w].inFlight.value, content, fault);
        var cached := if a.result.Ok? then Some(a.result.value) else s.writers[w].cached;
        s.(rows := a.rows, writers := s.writers[w := Writer(cached, None)])
      else s
    case Restart(w) =>
      if w < |s.writers| then s.(writers := s.writers[w := Writer(None, None)]) else s
    case ReadCheckpointHead =>
      var last := LastBySeq(s.rows);
      if last.Some? then s.(headReads := s.headReads + [last.value]) else s
    case StoreCheckpoint(k) =>
      if k < |s.headReads| then
        var row := s.headReads[k];
        var msg := CheckpointMessage(env.h, row.seqNo, row.recordHash);
        s.(checkpoints := s.checkpoints + [Checkpoint(row.seqNo, row.recordHash, env.anchorKind, env.anchor(msg))])
      else s
  }

  function Run(env: Env, s: System, events: seq<Event>): System
    decreases |events|
  {
    if events == [] then s else Run(env, Step(env, s, events[0]), events[1..])
  }

  function Fresh(n: nat): System {
    System([], seq(n, _ => Writer(None, None)), [], [])
  }

  ghost predicate WriterFits(env: Env, rows: seq<Row>, w: Writer) {
    && (w.cached.Some? ==> HeadFits(env, rows, w.cached.value))
    && (w.inFlight.Some? ==> HeadFits(env, rows, w.inFlight.value))
    && (w.cached.Some? && w.inFlight.Some? ==> w.inFlight == w.cached)
  }

  ghost predicate Inv(env: Env, s: System) {
    && ChainedTable(env, s.rows)
    && (forall w :: 0 <= w < |s.writers| ==> WriterFits(env, s.rows, s.writers[w]))
    && (forall k :: 0 <= k < |s.headReads| ==> s.headReads[k] in s.rows)
    && (forall j :: 0 <= j < |s.checkpoints| ==> CheckpointFits(env, s.rows, s.checkpoints[j]))
  }

  lemma FitsGrows(env: Env, rows: seq<Row>, more: seq<Row>, w: Writer)
    requires rows <= more && WriterFits(env, rows, w)
    ensures WriterFits(env, more, w)
  {
    forall i: nat | i <= |rows| ensures Link(env.h, rows, i) == Link(env.h, more, i) {
    }
  }

  lemma InsertKeepsInv(env: Env, s: System, w: nat, content: Content, fault: Fault)
    requires Inv(env, s) && w < |s.writers| && s.writers[w].inFlight.Some?
    ensures var next := Step(env, s, Insert(w, content, fault));
            Inv(env, next) && s.rows <= next.rows && |next.writers| == |s.writers|
  {
    hide Chained, Link, Attempt, BuildBody, CheckpointMessage;
    var head := s.writers[w].inFlight.value;
    assert WriterFits(env, s.rows, s.writers[w]);
    AttemptExtends(env, s.rows, head, content, fault);
    var a := Attempt(env, s.rows, head, content, fault);
    forall v | 0 <= v < |s.writers| ensures WriterFits(env, a.rows, s.writers[v]) {
      FitsGrows(env, s.rows, a.rows, s.writers[v]);
    }
  }

  /** A checkpoint over a row of the table binds it. */
  lemma ReadRowAnchors(env: Env, rows: seq<Row>, row: Row)
    requires ChainedTable(env, rows) && row in rows
    ensures CheckpointFits(env, rows, Checkpoint(row.seqNo, row.recordHash, env.anchorKind,
                                                 env.anchor(CheckpointMessage(env.h, row.seqNo, row.recordHash))))
  {
    var i :| 0 <= i < |rows| && rows[i] == row;
    assert Chained(env, rows, i);
  }

  lemma StepKeepsInv(env: Env, s: System, e: Event)
    requires Inv(env, s)
    ensures Inv(env, Step(env, s, e)) && s.rows <= Step(env, s, e).rows
    ensures |Step(env, s, e).writers| == |s.writers|
  {
    hide Chained, Link, BuildBody, CheckpointFits, CheckpointMessage, LastBySeq;
    LastIsEnd(env, s.rows);
    match e {
      case Insert(w, content, fault) =>
        if w < |s.writers| && s.writers[w].inFlight.Some? {
          InsertKeepsInv(env, s, w, content, fault);
        }
      case StoreCheckpoint(k) =>
        if k < |s.headReads| {
          ReadRowAnchors(env, s.rows, s.headReads[k]);
        }
      case _ =>
    }
  }

  /** Every interleaving keeps the chain contiguous and linked, and never changes a written row. */
  lemma {:induction false} RunKeepsInv(env: Env, s: System, events: seq<Event>)
    requires Inv(env, s)
    ensures Inv(env, Run(env, s, events)) && s.rows <= Run(env, s, events).rows
    ensures |Run(env, s, events).writers| == |s.writers|
    decreases |events|
  {
    if events != [] {
      StepKeepsInv(env, s, events[0]);
      RunKeepsInv(env, Step(env, s, events[0]), events[1..]);
    }
  }

  lemma {:induction false} HeadReadsGrow(env: Env, s: System, events: seq<Event>)
    ensures s.headReads <= Run(env, s, events).headReads
    decreases |events|
  {
    hide Attempt, HeadOf, LastBySeq, CheckpointMessage;
    if events != [] {
      HeadReadsGrow(env, Step(env, s, events[0]), events[1..]);
    }
  }

  /** A head read for a checkpoint and stored later, whatever happened in between, binds what was then the end. */
  lemma CheckpointIsTaken(env: Env, s: System, events: seq<Event>)
    requires Inv(env, s) && s.rows != []
    ensures var later := Run(env, Step(env, s, ReadCheckpointHead), events);
            var t := Step(env, later, StoreCheckpoint(|s.headReads|));
            && |t.checkpoints| == |later.checkpoints| + 1
            && var cp := t.checkpoints[|later.checkpoints|];
               cp.seqNo == |s.rows| - 1 && CheckpointFits(env, t.rows, cp)
  {
    hide Chained, CheckpointMessage, Run, LastBySeq, HeadFits, HeadOf;
    LastIsEnd(env, s.rows);
    EndSeq(env, s.rows);
    var read := Step(env, s, ReadCheckpointHead);
    assert read.headReads[|s.headReads|] == s.rows[|s.rows| - 1];
    StepKeepsInv(env, s, ReadCheckpointHead);
    RunKeepsInv(env, read, events);
    HeadReadsGrow(env, read, events);
    StepKeepsInv(env, Run(env, read, events), StoreCheckpoint(|s.headReads|));
  }

  lemma EndSeq(env: Env, rows: seq<Row>)
    requires ChainedTable(env, rows) && rows != []
    ensures rows[|rows| - 1].seqNo == |rows| - 1
  {
    assert Chained(env, rows, |rows| - 1);
  }

  /** The verifier's keys match the keys the writers and the anchor sign with. */
  ghost predicate KeysMatch(env: Env, key: Option<Verifier>, tsa: Option<Verifier>) {
    && (key.Some? && env.signer.Some? ==> forall m :: key.value(env.signer.value(m), m))
    && (key.Some? && env.anchorKind == LocalEd25519 ==> forall m :: key.value(env.anchor(m), CHECKPOINT_DOMAIN + m))
    && (tsa.Some? && env.anchorKind == Rfc3161 ==> forall m :: tsa.value(env.anchor(m), m))
  }

  lemma KeptTableVerifies(env: Env, s: System, key: Option<Verifier>, tsa: Option<Verifier>)
    requires Inv(env, s) && KeysMatch(env, key, tsa)
    ensures RowsOk(env.h, key, s.rows) && CheckpointsOk(env.h, key, tsa, s.rows, s.checkpoints)
    ensures env.signer.Some? ==> CountSigned(s.rows, |s.rows|) == |s.rows|
  {
    forall i | 0 <= i < |s.rows|
      ensures RowOk(env.h, key, s.rows, i) && (env.signer.Some? ==> s.rows[i].signature.Some?)
    {
      assert Chained(env, s.rows, i);
    }
    AllSigned(s.rows, |s.rows|);
    forall j | 0 <= j < |s.checkpoints| ensures CheckpointOk(env.h, key, tsa, s.rows, s.checkpoints[j]) {
      assert CheckpointFits(env, s.rows, s.checkpoints[j]);
    }
  }

  /**
   * Whatever n writers did, in whatever order and with whatever failures, the verifier accepts the
   * table and every checkpoint taken along the way, and checks a signature on every row of a signing writer.
   */
  lemma ReachableTablesVerify(env: Env, n: nat, events: seq<Event>, key: Option<Verifier>, tsa: Option<Verifier>)
    requires KeysMatch(env, key, tsa)
    ensures var s := Run(env, Fresh(n), events);
            && RowsOk(env.h, key, s.rows) && CheckpointsOk(env.h, key, tsa, s.rows, s.checkpoints)
            && (env.signer.Some? ==> CountSigned(s.rows, |s.rows|) == |s.rows|)
  {
    RunKeepsInv(env, Fresh(n), events);
    KeptTableVerifies(env, Run(env, Fresh(n), events), key, tsa);
  }

  /** Writer w's cached head has fallen behind the table. */
  ghost predicate Stale(s: System, w: nat) {
    w < |s.writers| && s.writers[w].cached.Some? && s.writers[w].cached.value.next < |s.rows|
  }

  /** How many rows writer w adds over a run. */
  function RowsBy(env: Env, s: System, events: seq<Event>, w: nat): nat
    decreases |events|
  {
    if events == [] then 0
    else
      var next := Step(env, s, events[0]);
      (if events[0].Insert? && events[0].w == w && next.rows != s.rows then 1 else 0) +
      RowsBy(env, next, events[1..], w)
  }

  /** A writer that has fallen behind fails every later append, until its process restarts. */
  lemma {:induction false} StaleWriterNeverCommits(env: Env, s: System, events: seq<Event>, w: nat)
    requires Inv(env, s) && Stale(s, w)
    requires Restart(w) !in events
    ensures RowsBy(env, s, events, w) == 0
    ensures Stale(Run(env, s, events), w)
    decreases |events|
  {
    hide Chained, Link, BuildBody, CheckpointFits, CheckpointMessage, LastBySeq;
    if events != [] {
      var e := events[0];
      var next := Step(env, s, e);
      assert WriterFits(env, s.rows, s.writers[w]);
      StepKeepsInv(env, s, e);
      if e.Insert? && e.w == w && s.writers[w].inFlight.Some? {
        AttemptExtends(env, s.rows, s.writers[w].inFlight.value, e.content, e.fault);
      }
      assert e in events;
      StaleWriterNeverCommits(env, next, events[1..], w);
    }
  }
}
