/** verify_chain: the streaming verifier, proved against the declarative chain predicate. */
module AuditVerify {
  import opened Common
  import opened AuditChain

  datatype Check =
    | SeqContinuity | Genesis | BodyColumnAgreement | DecisionCompleteness
    | RecordHash | PrevHashLinkage | Signature
    | CheckpointTruncation | CheckpointMismatch | CheckpointProof

  datatype Violation = Violation(seqNo: int, check: Check)

  datatype VerifyResult = VerifyResult(
    ok: bool, recordsChecked: nat, violation: Option<Violation>,
    signaturesChecked: nat, checkpointsChecked: nat, skippedCheckpoints: nat)

  /** `c` is what row i fails, and it passes everything the verifier looks at earlier. */
  ghost predicate FirstFailure(h: Hashing, key: Option<Verifier>, rows: seq<Row>, i: nat, c: Check)
    requires i < |rows|
  {
    var row := rows[i];
    var placed := row.seqNo == i;
    var rooted := i == 0 ==> row.prevHash == None;
    var agrees := SeqAgrees(row.body, row.seqNo) && PrevAgrees(row.body, row.prevHash);
    var hashed := row.recordHash == h.Of(row.body);
    var linked := row.prevHash == Link(h, rows, i);
    match c
    case SeqContinuity => !placed
    case Genesis => placed && !rooted
    case BodyColumnAgreement => placed && rooted && !agrees
    case DecisionCompleteness => placed && rooted && agrees && !Complete(row.body)
    case RecordHash => placed && rooted && agrees && Complete(row.body) && !hashed
    case PrevHashLinkage => placed && rooted && agrees && Complete(row.body) && hashed && !linked
    case Signature =>
      placed && rooted && agrees && Complete(row.body) && hashed && linked && !SignatureOk(h, key, row)
    case _ => false
  }

  ghost predicate FirstCheckpointFailure(h: Hashing, key: Option<Verifier>, tsa: Option<Verifier>,
                                   rows: seq<Row>, cp: Checkpoint, c: Check)
  {
    var present := 0 <= cp.seqNo < |rows| && h.Of(rows[cp.seqNo].body) == cp.recordHash;
    match c
    case CheckpointTruncation => cp.seqNo >= |rows|
    case CheckpointMismatch => cp.seqNo < |rows| && !present
    case CheckpointProof => present && Refused(h, key, tsa, cp)
    case _ => false
  }

  /** How many of the first n checkpoints there is nothing to check with. */
  function CountSkippable(key: Option<Verifier>, tsa: Option<Verifier>, cps: seq<Checkpoint>, n: nat): nat
    requires n <= |cps|
  {
    if n == 0 then 0
    else CountSkippable(key, tsa, cps, n - 1) + (if Skippable(key, tsa, cps[n - 1]) then 1 else 0)
  }

  /** Every row below n is good and row n is the first bad one, failing v.check. */
  ghost predicate ReportsRow(h: Hashing, key: Option<Verifier>, rows: seq<Row>, n: nat, v: Violation) {
    && n < |rows|
    && RowsOkBelow(h, key, rows, n)
    && !RowOk(h, key, rows, n)
    && v.seqNo == rows[n].seqNo
    && FirstFailure(h, key, rows, n, v.check)
  }

  ghost predicate RowsOkBelow(h: Hashing, key: Option<Verifier>, rows: seq<Row>, n: nat)
    requires n <= |rows|
  {
    forall i :: 0 <= i < n ==> RowOk(h, key, rows, i)
  }

  ghost predicate CheckpointsOkBelow(h: Hashing, key: Option<Verifier>, tsa: Option<Verifier>, rows: seq<Row>,
                                     cps: seq<Checkpoint>, n: nat)
    requires n <= |cps|
  {
    forall i :: 0 <= i < n ==> CheckpointOk(h, key, tsa, rows, cps[i])
  }

  /** The checkpoint after the counted ones is the first bad one, failing v.check. */
  ghost predicate ReportsCheckpoint(h: Hashing, key: Option<Verifier>, tsa: Option<Verifier>, rows: seq<Row>,
                              cps: seq<Checkpoint>, checked: nat, skipped: nat, v: Violation)
  {
    var j := checked + skipped;
    && j < |cps|
    && CheckpointsOkBelow(h, key, tsa, rows, cps, j)
    && !CheckpointOk(h, key, tsa, rows, cps[j])
    && v.seqNo == cps[j].seqNo
    && FirstCheckpointFailure(h, key, tsa, rows, cps[j], v.check)
    && skipped == CountSkippable(key, tsa, cps, j)
  }

  /** What one row must say, written out over JSON, the two primitives and the key alone. */
  ghost predicate IntactRow(h: Hashing, key: Option<Verifier>, rows: seq<Row>, i: nat)
    requires i < |rows|
  {
    var row, body := rows[i], rows[i].body;
    && row.seqNo == i && row.recordHash == h.sha256(h.canonical(body))
    && "seq" in body && body["seq"] in {Int(i), Float(i as real)} + (if i < 2 then {Bool(i == 1)} else {})
    && (if i == 0 then row.prevHash == None && ("prev_hash" !in body || body["prev_hash"] == Null)
        else
          var before := h.sha256(h.canonical(rows[i - 1].body));
          row.prevHash == Some(before) && "prev_hash" in body && body["prev_hash"] == Str(before))
    && ("kind" in body || forall k :: k in REQUIRED_DECISION_KEYS ==> k in body)
    && (key.Some? && row.signature.Some? ==>
          row.signature.value.Hex? && key.value(row.signature.value.bytes, SIG_DOMAIN + h.canonical(body)))
  }

  /** What one checkpoint must bind, and every key at hand must accept. */
  ghost predicate IntactCheckpoint(h: Hashing, key: Option<Verifier>, tsa: Option<Verifier>, rows: seq<Row>,
                                   cp: Checkpoint)
  {
    var msg := h.canonical(map["seq" := Int(cp.seqNo), "record_hash" := Str(cp.recordHash)]);
    && 0 <= cp.seqNo < |rows| && cp.recordHash == h.sha256(h.canonical(rows[cp.seqNo].body))
    && (cp.kind == LocalEd25519 && key.Some? ==> key.value(cp.proof, CHECKPOINT_DOMAIN + msg))
    && (cp.kind == Rfc3161 && tsa.Some? ==> tsa.value(cp.proof, msg))
  }

  /** The table and the checkpoints are intact. */
  ghost predicate Intact(h: Hashing, key: Option<Verifier>, tsa: Option<Verifier>, rows: seq<Row>,
                         cps: seq<Checkpoint>)
  {
    && (forall i :: 0 <= i < |rows| ==> IntactRow(h, key, rows, i))
    && (forall cp :: cp in cps ==> IntactCheckpoint(h, key, tsa, rows, cp))
  }

  /** The chain and checkpoint predicates say no more and no less. */
  lemma OkIsIntact(h: Hashing, key: Option<Verifier>, tsa: Option<Verifier>, rows: seq<Row>, cps: seq<Checkpoint>)
    ensures RowsOk(h, key, rows) && CheckpointsOk(h, key, tsa, rows, cps) <==> Intact(h, key, tsa, rows, cps)
  {
    hide IntactRow, RowOk, IntactCheckpoint, CheckpointOk;
    forall i | 0 <= i < |rows| ensures RowOk(h, key, rows, i) <==> IntactRow(h, key, rows, i) {
      RowOkIsIntact(h, key, rows, i);
    }
    forall cp ensures CheckpointOk(h, key, tsa, rows, cp) <==> IntactCheckpoint(h, key, tsa, rows, cp) {
      CheckpointOkIsIntact(h, key, tsa, rows, cp);
    }
    assert forall j :: 0 <= j < |cps| ==> cps[j] in cps;
  }

  lemma RowOkIsIntact(h: Hashing, key: Option<Verifier>, rows: seq<Row>, i: nat)
    requires i < |rows|
    ensures RowOk(h, key, rows, i) <==> IntactRow(h, key, rows, i)
  {
  }

  lemma CheckpointOkIsIntact(h: Hashing, key: Option<Verifier>, tsa: Option<Verifier>, rows: seq<Row>, cp: Checkpoint)
    ensures CheckpointOk(h, key, tsa, rows, cp) <==> IntactCheckpoint(h, key, tsa, rows, cp)
  {
  }

  /** The re-derived hash of every row, by seq: what the checkpoint loop looks up. */
  ghost predicate Recomputed(h: Hashing, rows: seq<Row>, n: nat, bySeq: map<int, string>)
    requires n <= |rows|
  {
    && (forall s :: s in bySeq <==> 0 <= s < n)
    && (forall s :: 0 <= s < n ==> bySeq[s] == h.Of(rows[s].body))
  }

  /** What one row fails, given the hash re-derived from the row before it; None when it is good. */
  method CheckRow(h: Hashing, key: Option<Verifier>, row: Row, expected: nat, prevRecomputed: Option<string>,
                  ghost rows: seq<Row>)
    returns (failed: Option<Check>, recomputed: string, signed: bool)
    requires expected < |rows| && row == rows[expected] && prevRecomputed == Link(h, rows, expected)
    ensures failed.None? <==> RowOk(h, key, rows, expected)
    ensures failed.Some? ==> FirstFailure(h, key, rows, expected, failed.value)
    ensures failed.None? ==> row.seqNo == expected
    ensures failed.None? ==> recomputed == h.Of(row.body) && signed == (key.Some? && row.signature.Some?)
  {
    recomputed, signed := "", false;
    if row.seqNo != expected {
      return Some(SeqContinuity), recomputed, signed;
    }
    if expected == 0 && row.prevHash != None {
      return Some(Genesis), recomputed, signed;
    }
    var body := row.body;
    if !SeqAgrees(body, row.seqNo) || !PrevAgrees(body, row.prevHash) {
      return Some(BodyColumnAgreement), recomputed, signed;
    }
    if "kind" !in body && !(REQUIRED_DECISION_KEYS <= body.Keys) {
      return Some(DecisionCompleteness), recomputed, signed;
    }
    var canonical := h.canonical(body);
    recomputed := h.sha256(canonical);
    if recomputed != row.recordHash {
      return Some(RecordHash), recomputed, signed;
    }
    if row.prevHash != prevRecomputed {
      return Some(PrevHashLinkage), recomputed, signed;
    }
    if key.Some? && row.signature.Some? {
      match row.signature.value {
        case NotHex =>
          return Some(Signature), recomputed, signed;
        case Hex(bytes) =>
          if !key.value(bytes, SIG_DOMAIN + canonical) {
            return Some(Signature), recomputed, signed;
          }
      }
      signed := true;
    }
    failed := None;
  }

  /** The row loop: stops at the first bad row, n counting the good rows before it. */
  method VerifyRows(h: Hashing, key: Option<Verifier>, rows: seq<Row>)
    returns (n: nat, sigs: nat, bySeq: map<int, string>, maxSeq: int, violation: Option<Violation>)
    ensures n <= |rows|
    ensures violation.None? <==> RowsOk(h, key, rows)
    ensures violation.None? ==> n == |rows| && maxSeq == n - 1 && Recomputed(h, rows, n, bySeq)
    ensures violation.Some? ==> ReportsRow(h, key, rows, n, violation.value)
    ensures sigs == if key.Some? then CountSigned(rows, n) else 0
  {
    hide RowOk, FirstFailure;
    var prevRecomputed: Option<string> := None;
    n, sigs, bySeq, maxSeq, violation := 0, 0, map[], -1, None;
    for expected := 0 to |rows|
      invariant n == expected && maxSeq == expected - 1 && violation.None?
      invariant RowsOkBelow(h, key, rows, expected)
      invariant prevRecomputed == Link(h, rows, expected)
      invariant sigs == if key.Some? then CountSigned(rows, expected) else 0
      invariant Recomputed(h, rows, expected, bySeq)
    {
      var row := rows[expected];
      var failed, recomputed, signed := CheckRow(h, key, row, expected, prevRecomputed, rows);
      if failed.Some? {
        violation := Some(Violation(row.seqNo, failed.value));
        return;
      }
      if signed {
        sigs := sigs + 1;
      }
      prevRecomputed := Some(recomputed);
      bySeq := bySeq[row.seqNo := recomputed];
      maxSeq := row.seqNo;
      n := n + 1;
    }
  }

  /** What one checkpoint fails against a verified chain; skipped when its anchor cannot be checked. */
  method CheckCheckpoint(h: Hashing, key: Option<Verifier>, tsa: Option<Verifier>, cp: Checkpoint,
                         bySeq: map<int, string>, maxSeq: int, ghost rows: seq<Row>)
    returns (failed: Option<Check>, skipped: bool)
    requires maxSeq == |rows| - 1 && Recomputed(h, rows, |rows|, bySeq)
    ensures failed.None? <==> CheckpointOk(h, key, tsa, rows, cp)
    ensures failed.Some? ==> FirstCheckpointFailure(h, key, tsa, rows, cp, failed.value)
    ensures failed.None? ==> (skipped <==> Skippable(key, tsa, cp))
  {
    if cp.seqNo > maxSeq {
      return Some(CheckpointTruncation), false;
    }
    if cp.seqNo !in bySeq || bySeq[cp.seqNo] != cp.recordHash {
      return Some(CheckpointMismatch), false;
    }
    match ProofCheck(h, key, tsa, cp) {
      case Unavailable => return None, true;
      case Invalid => return Some(CheckpointProof), false;
      case Verified => return None, false;
    }
  }

  /** The checkpoint loop over a verified chain. */
  method VerifyCheckpoints(h: Hashing, key: Option<Verifier>, tsa: Option<Verifier>, ghost rows: seq<Row>,
                           bySeq: map<int, string>, maxSeq: int, cps: seq<Checkpoint>)
    returns (checked: nat, skipped: nat, violation: Option<Violation>)
    requires maxSeq == |rows| - 1 && Recomputed(h, rows, |rows|, bySeq)
    ensures violation.None? <==> CheckpointsOk(h, key, tsa, rows, cps)
    ensures violation.None? ==>
              skipped == CountSkippable(key, tsa, cps, |cps|) && checked + skipped == |cps|
    ensures violation.Some? ==>
              ReportsCheckpoint(h, key, tsa, rows, cps, checked, skipped, violation.value)
  {
    hide CheckpointOk, Skippable, FirstCheckpointFailure, Recomputed;
    checked, skipped, violation := 0, 0, None;
    for j := 0 to |cps|
      invariant CheckpointsOkBelow(h, key, tsa, rows, cps, j)
      invariant skipped == CountSkippable(key, tsa, cps, j)
      invariant checked + skipped == j && violation.None?
    {
      var cp := cps[j];
      var failed, skip := CheckCheckpoint(h, key, tsa, cp, bySeq, maxSeq, rows);
      if failed.Some? {
        violation := Some(Violation(cp.seqNo, failed.value));
        return;
      }
      if skip {
        skipped := skipped + 1;
      } else {
        checked := checked + 1;
      }
    }
  }

  /**
   * Verifies the rows in table order, then the checkpoints, and reports the first violation.
   * The clauses below leave exactly one possible result for every table.
   */
  method VerifyChain(h: Hashing, key: Option<Verifier>, tsa: Option<Verifier>,
                     rows: seq<Row>, cps: seq<Checkpoint>)
    returns (r: VerifyResult)
    ensures r.ok <==> r.violation.None?
    ensures r.ok <==> RowsOk(h, key, rows) && CheckpointsOk(h, key, tsa, rows, cps)
    ensures r.ok <==> Intact(h, key, tsa, rows, cps)
    // Every proof is accepted by its key where there is one, and refused by it where the violation says so.
    ensures r.ok ==> forall cp :: cp in cps ==>
              var msg := h.canonical(map["seq" := Int(cp.seqNo), "record_hash" := Str(cp.recordHash)]);
              && (key.Some? && cp.kind == LocalEd25519 ==> key.value(cp.proof, CHECKPOINT_DOMAIN + msg))
              && (tsa.Some? && cp.kind == Rfc3161 ==> tsa.value(cp.proof, msg))
    ensures r.violation.Some? && r.violation.value.check == CheckpointProof ==>
              r.checkpointsChecked + r.skippedCheckpoints < |cps| &&
              var cp := cps[r.checkpointsChecked + r.skippedCheckpoints];
              var msg := h.canonical(map["seq" := Int(cp.seqNo), "record_hash" := Str(cp.recordHash)]);
              || (key.Some? && cp.kind == LocalEd25519 && !key.value(cp.proof, CHECKPOINT_DOMAIN + msg))
              || (tsa.Some? && cp.kind == Rfc3161 && !tsa.value(cp.proof, msg))
    ensures RowsOk(h, key, rows) ==> r.recordsChecked == |rows|
    ensures !RowsOk(h, key, rows) ==>
              && ReportsRow(h, key, rows, r.recordsChecked, r.violation.value)
              && r.checkpointsChecked == r.skippedCheckpoints == 0
    ensures r.ok ==>
              && r.skippedCheckpoints == CountSkippable(key, tsa, cps, |cps|)
              && r.checkpointsChecked + r.skippedCheckpoints == |cps|
    ensures !r.ok && RowsOk(h, key, rows) ==>
              ReportsCheckpoint(h, key, tsa, rows, cps, r.checkpointsChecked, r.skippedCheckpoints,
                                r.violation.value)
    ensures r.recordsChecked <= |rows|
    ensures r.signaturesChecked ==
            if key.Some? then CountSigned(rows, r.recordsChecked) else 0
  {
    OkIsIntact(h, key, tsa, rows, cps);
    var n, sigs, bySeq, maxSeq, violation := VerifyRows(h, key, rows);
    if violation.Some? {
      return VerifyResult(false, n, violation, sigs, 0, 0);
    }
    var checked, skipped, bad := VerifyCheckpoints(h, key, tsa, rows, bySeq, maxSeq, cps);
    return VerifyResult(bad.None?, n, bad, sigs, checked, skipped);
  }
}
