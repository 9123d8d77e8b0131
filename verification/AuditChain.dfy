/** The audit chain's data: records, bodies and the primitives it is built from. */
module AuditChain {
  import opened Common

  type Bytes = string

  /** The body column. */
  type Body = map<string, Json>

  /** SHA-256 over canonical_json, both uninterpreted: every result holds for any pair of functions. */
  datatype Hashing = Hashing(canonical: Body -> Bytes, sha256: Bytes -> string) {
    function Of(body: Body): string {
      sha256(canonical(body))
    }
  }

  /** A public key, seen as the (signature, message) pairs it accepts. */
  type Verifier = (Bytes, Bytes) -> bool

  /** The signature column: a hex text, or text `bytes.fromhex` rejects. */
  datatype SignatureText = Hex(bytes: Bytes) | NotHex

  datatype Row = Row(seqNo: int, prevHash: Option<string>, recordHash: string,
                     signature: Option<SignatureText>, body: Body)

  datatype AnchorKind = LocalEd25519 | Rfc3161 | UnknownKind

  datatype Checkpoint = Checkpoint(seqNo: int, recordHash: string, kind: AnchorKind, proof: Bytes)

  const SIG_DOMAIN: Bytes := "agentos-guard/audit-record/v1\0"
  const CHECKPOINT_DOMAIN: Bytes := "agentos-guard/audit-checkpoint/v1\0"

  const REQUIRED_DECISION_KEYS: set<string> :=
    {"action_id", "agent_id", "action_type", "outcome", "reasons", "constitution_version", "policy_version"}

  function CheckpointMessage(h: Hashing, seqNo: int, recordHash: string): Bytes {
    h.canonical(map["seq" := Int(seqNo), "record_hash" := Str(recordHash)])
  }

  /** Python's `body.get("seq") == seqNo`: a bool or an integral float compares equal to an int. */
  predicate SeqAgrees(body: Body, seqNo: int) {
    "seq" in body &&
    match body["seq"]
    case Int(n) => n == seqNo
    case Bool(b) => seqNo == (if b then 1 else 0)
    case Float(x) => x == seqNo as real
    case _ => false
  }

  /** Python's `body.get("prev_hash") == prev`: a missing key reads as None. */
  predicate PrevAgrees(body: Body, prev: Option<string>) {
    match prev
    case None => "prev_hash" !in body || body["prev_hash"] == Null
    case Some(h) => "prev_hash" in body && body["prev_hash"] == Str(h)
  }

  ghost predicate Complete(body: Body) {
    "kind" in body || REQUIRED_DECISION_KEYS <= body.Keys
  }

  /** The hash the next row must link to, re-derived from the body of the row before it. */
  ghost function Link(h: Hashing, rows: seq<Row>, i: nat): Option<string>
    requires i <= |rows|
  {
    if i == 0 then None else Some(h.Of(rows[i - 1].body))
  }

  ghost predicate SignatureOk(h: Hashing, key: Option<Verifier>, row: Row) {
    key.Some? && row.signature.Some? ==>
      row.signature.value.Hex? &&
      key.value(row.signature.value.bytes, SIG_DOMAIN + h.canonical(row.body))
  }

  /** Row i stands where it should, says what its columns say, hashes and links correctly. */
  ghost predicate RowOk(h: Hashing, key: Option<Verifier>, rows: seq<Row>, i: nat)
    requires i < |rows|
  {
    var row := rows[i];
    && row.seqNo == i
    && SeqAgrees(row.body, row.seqNo)
    && PrevAgrees(row.body, row.prevHash)
    && Complete(row.body)
    && row.recordHash == h.Of(row.body)
    && row.prevHash == Link(h, rows, i)
    && SignatureOk(h, key, row)
  }

  ghost predicate RowsOk(h: Hashing, key: Option<Verifier>, rows: seq<Row>) {
    forall i :: 0 <= i < |rows| ==> RowOk(h, key, rows, i)
  }

  /** Nothing to check this checkpoint's proof with: its kind's key is missing, or its kind is unknown. */
  predicate Skippable(key: Option<Verifier>, tsa: Option<Verifier>, cp: Checkpoint) {
    && (cp.kind == LocalEd25519 ==> key.None?)
    && (cp.kind == Rfc3161 ==> tsa.None?)
  }

  /** The key of its kind is at hand, and refuses the proof over the seq and hash the checkpoint binds. */
  ghost predicate Refused(h: Hashing, key: Option<Verifier>, tsa: Option<Verifier>, cp: Checkpoint) {
    var msg := h.canonical(map["seq" := Int(cp.seqNo), "record_hash" := Str(cp.recordHash)]);
    || (cp.kind == LocalEd25519 && key.Some? && !key.value(cp.proof, CHECKPOINT_DOMAIN + msg))
    || (cp.kind == Rfc3161 && tsa.Some? && !tsa.value(cp.proof, msg))
  }

  datatype ProofStatus = Verified | Invalid | Unavailable

  /** verify_checkpoint_proof: a missing key, a missing TSA root or an unknown kind is a skip, not a failure. */
  function ProofCheck(h: Hashing, key: Option<Verifier>, tsa: Option<Verifier>, cp: Checkpoint): (status: ProofStatus)
    ensures status == Unavailable <==> Skippable(key, tsa, cp)
    ensures status == Invalid <==> Refused(h, key, tsa, cp)
  {
    var msg := CheckpointMessage(h, cp.seqNo, cp.recordHash);
    match cp.kind
    case LocalEd25519 =>
      if key.None? then Unavailable
      else if key.value(cp.proof, CHECKPOINT_DOMAIN + msg) then Verified else Invalid
    case Rfc3161 =>
      if tsa.None? then Unavailable
      else if tsa.value(cp.proof, msg) then Verified else Invalid
    case UnknownKind => Unavailable
  }

  /** The checkpoint binds a row of this table, and its anchor does not refute it. */
  ghost predicate CheckpointOk(h: Hashing, key: Option<Verifier>, tsa: Option<Verifier>,
                               rows: seq<Row>, cp: Checkpoint)
  {
    && 0 <= cp.seqNo < |rows|
    && h.Of(rows[cp.seqNo].body) == cp.recordHash
    && !Refused(h, key, tsa, cp)
  }

  ghost predicate CheckpointsOk(h: Hashing, key: Option<Verifier>, tsa: Option<Verifier>,
                          rows: seq<Row>, cps: seq<Checkpoint>)
  {
    forall j :: 0 <= j < |cps| ==> CheckpointOk(h, key, tsa, rows, cps[j])
  }

  /** How many of the first n rows carry a signature. */
  ghost function CountSigned(rows: seq<Row>, n: nat): nat
    requires n <= |rows|
  {
    if n == 0 then 0
    else CountSigned(rows, n - 1) + (if rows[n - 1].signature.Some? then 1 else 0)
  }

  /** Counting to the top is the same as every row being signed. */
  lemma {:induction false} AllSigned(rows: seq<Row>, n: nat)
    requires n <= |rows|
    ensures CountSigned(rows, n) <= n
    ensures CountSigned(rows, n) == n <==> forall i :: 0 <= i < n ==> rows[i].signature.Some?
  {
    if n > 0 {
      AllSigned(rows, n - 1);
    }
  }
}
