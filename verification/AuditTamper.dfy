/** What an accepted table says about the chain the writers really produced. */
module AuditTamper {
  import opened Common
  import opened AuditChain
  import opened AuditWriters

  /** Rows i of two tables carry the same columns and body. */
  ghost predicate SameRow(a: seq<Row>, b: seq<Row>, i: nat) {
    && i < |a| && i < |b|
    && a[i].body == b[i].body && a[i].prevHash == b[i].prevHash
    && a[i].seqNo == b[i].seqNo && a[i].recordHash == b[i].recordHash
  }

  /** Two different bodies standing at the same position of the two tables hash to the same text. */
  ghost predicate HashCollision(h: Hashing, a: seq<Row>, b: seq<Row>, i: nat) {
    i < |a| && i < |b| && a[i].body != b[i].body && h.Of(a[i].body) == h.Of(b[i].body)
  }

  /** Backwards along the hash links: equal hashes at n mean equal rows below, or a collision. */
  lemma {:induction false} LinksBindBackwards(h: Hashing, key: Option<Verifier>, a: seq<Row>, b: seq<Row>, n: nat)
    requires RowsOk(h, None, a) && RowsOk(h, key, b)
    requires n < |a| && n < |b| && h.Of(a[n].body) == h.Of(b[n].body)
    ensures (forall i :: 0 <= i <= n ==> SameRow(a, b, i)) || exists i :: 0 <= i <= n && HashCollision(h, a, b, i)
  {
    assert RowOk(h, None, a, n) && RowOk(h, key, b, n);
    if a[n].body != b[n].body {
      assert HashCollision(h, a, b, n);
    } else {
      assert SameRow(a, b, n);
      if n > 0 {
        LinksBindBackwards(h, key, a, b, n - 1);
      }
    }
  }

  /**
   * A checkpoint taken on the original chain at seq s: a table the verifier accepts with it is no
   * shorter than s, and agrees with the original on every row up to s, whatever was rewritten,
   * unless the two tables exhibit a hash collision.
   */
  lemma CheckpointBindsHistory(h: Hashing, key: Option<Verifier>, tsa: Option<Verifier>,
                               original: seq<Row>, table: seq<Row>, cps: seq<Checkpoint>, cp: Checkpoint)
    requires RowsOk(h, None, original)
    requires cp in cps && 0 <= cp.seqNo < |original| && cp.recordHash == original[cp.seqNo].recordHash
    requires RowsOk(h, key, table) && CheckpointsOk(h, key, tsa, table, cps)
    ensures cp.seqNo < |table|
    ensures || (forall i :: 0 <= i <= cp.seqNo ==> SameRow(original, table, i))
            || exists i :: 0 <= i <= cp.seqNo && HashCollision(h, original, table, i)
  {
    var j :| 0 <= j < |cps| && cps[j] == cp;
    assert CheckpointOk(h, key, tsa, table, cps[j]);
    assert RowOk(h, None, original, cp.seqNo);
    LinksBindBackwards(h, key, original, table, cp.seqNo);
  }

  // ----- signatures -----

  predicate Base64UrlOrDot(c: char) {
    'a' <= c <= 'z' || 'A' <= c <= 'Z' || '0' <= c <= '9' || c in "-_."
  }

  /** The signing input of a JSON Web Token: the same key also signs these. */
  predicate TokenMessage(m: Bytes) {
    forall i :: 0 <= i < |m| ==> Base64UrlOrDot(m[i])
  }

  /** The three kinds of message the control-plane key signs never coincide. */
  lemma SigningDomainsDisjoint(record: Bytes, checkpoint: Bytes, token: Bytes)
    ensures SIG_DOMAIN + record != CHECKPOINT_DOMAIN + checkpoint
    ensures TokenMessage(token) ==> token != SIG_DOMAIN + record && token != CHECKPOINT_DOMAIN + checkpoint
  {
    assert (SIG_DOMAIN + record)[20] == 'r' && (CHECKPOINT_DOMAIN + checkpoint)[20] == 'c';
    assert (SIG_DOMAIN + record)[13] == '/' && (CHECKPOINT_DOMAIN + checkpoint)[13] == '/';
    assert !Base64UrlOrDot('/');
  }

  /** What the key may have signed: committed records, any checkpoint message, any token. */
  ghost predicate Issued(h: Hashing, committed: seq<Row>, m: Bytes) {
    || (exists j :: 0 <= j < |committed| && m == SIG_DOMAIN + h.canonical(committed[j].body))
    || (exists c :: m == CHECKPOINT_DOMAIN + c)
    || TokenMessage(m)
  }

  ghost predicate Unforgeable(h: Hashing, committed: seq<Row>, key: Verifier) {
    forall s, m :: key(s, m) ==> Issued(h, committed, m)
  }

  /** Two different bodies with the same canonical text. */
  ghost predicate CanonicalCollision(h: Hashing, a: seq<Row>, b: seq<Row>, i: nat, j: nat) {
    i < |a| && j < |b| && a[i].body != b[j].body && h.canonical(a[i].body) == h.canonical(b[j].body)
  }

  lemma SignedRowIsCommitted(env: Env, key: Verifier, committed: seq<Row>, table: seq<Row>, i: nat)
    requires ChainedTable(env, committed) && Unforgeable(env.h, committed, key)
    requires i < |table| && RowOk(env.h, Some(key), table, i) && table[i].signature.Some?
    ensures SameRow(committed, table, i) || exists j :: CanonicalCollision(env.h, table, committed, i, j)
  {
    var row := table[i];
    var canonical := env.h.canonical(row.body);
    assert Issued(env.h, committed, SIG_DOMAIN + canonical);
    forall c ensures SIG_DOMAIN + canonical != CHECKPOINT_DOMAIN + c {
      SigningDomainsDisjoint(canonical, c, []);
    }
    SigningDomainsDisjoint(canonical, [], SIG_DOMAIN + canonical);
    var j :| 0 <= j < |committed| && SIG_DOMAIN + canonical == SIG_DOMAIN + env.h.canonical(committed[j].body);
    SamePrefix(SIG_DOMAIN, canonical, env.h.canonical(committed[j].body));
    assert Chained(env, committed, j);
    if row.body != committed[j].body {
      assert CanonicalCollision(env.h, table, committed, i, j);
    }
  }

  lemma SamePrefix(p: Bytes, x: Bytes, y: Bytes)
    requires p + x == p + y
    ensures x == y
  {
    assert x == (p + x)[|p|..] && y == (p + y)[|p|..];
  }

  /**
   * With a key given and a signature on every row, and no signatures but those the key issued, an
   * accepted table is a prefix of the committed chain, unless canonical_json itself collides.
   */
  lemma SignedTableIsPrefix(env: Env, key: Verifier, committed: seq<Row>, table: seq<Row>)
    requires ChainedTable(env, committed) && Unforgeable(env.h, committed, key)
    requires RowsOk(env.h, Some(key), table)
    requires CountSigned(table, |table|) == |table|
    ensures || (|table| <= |committed| && forall i :: 0 <= i < |table| ==> SameRow(committed, table, i))
            || exists i, j :: CanonicalCollision(env.h, table, committed, i, j)
  {
    AllSigned(table, |table|);
    if i :| 0 <= i < |table| && !SameRow(committed, table, i) {
      assert RowOk(env.h, Some(key), table, i);
      SignedRowIsCommitted(env, key, committed, table, i);
    } else if table != [] {
      assert SameRow(committed, table, |table| - 1);
    }
  }

  // ----- tables signed in part -----

  /**
   * One signed row pins everything before it: with only issued signatures available, an accepted table
   * agrees with the committed chain up to and including any row of it that is signed, or collides.
   */
  lemma SignedRowPinsHistory(env: Env, key: Verifier, committed: seq<Row>, table: seq<Row>, m: nat)
    requires ChainedTable(env, committed) && Unforgeable(env.h, committed, key)
    requires RowsOk(env.h, Some(key), table) && m < |table| && table[m].signature.Some?
    ensures || (m < |committed| && forall i :: 0 <= i <= m ==> SameRow(committed, table, i))
            || (exists j :: CanonicalCollision(env.h, table, committed, m, j))
            || (exists i :: 0 <= i <= m && HashCollision(env.h, committed, table, i))
  {
    assert RowOk(env.h, Some(key), table, m);
    SignedRowIsCommitted(env, key, committed, table, m);
    if SameRow(committed, table, m) {
      ChainedIsOk(env, committed);
      LinksBindBackwards(env.h, Some(key), committed, table, m);
    }
  }

  lemma ChainedIsOk(env: Env, rows: seq<Row>)
    requires ChainedTable(env, rows)
    ensures RowsOk(env.h, None, rows)
  {
    forall i | 0 <= i < |rows| ensures RowOk(env.h, None, rows, i) {
      assert Chained(env, rows, i);
    }
  }

  /** A body that could be the next one of this table, or stand at position |rows| of a longer one. */
  ghost predicate Fits(h: Hashing, rows: seq<Row>, body: Body) {
    SeqAgrees(body, |rows|) && PrevAgrees(body, Link(h, rows, |rows|)) && Complete(body)
  }

  /** The table with one more row, unsigned. */
  ghost function Extended(h: Hashing, rows: seq<Row>, body: Body): seq<Row> {
    rows + [Row(|rows|, Link(h, rows, |rows|), h.Of(body), None, body)]
  }

  lemma ExtendedIsAccepted(h: Hashing, key: Option<Verifier>, rows: seq<Row>, body: Body)
    requires RowsOk(h, key, rows) && Fits(h, rows, body)
    ensures RowsOk(h, key, Extended(h, rows, body))
  {
    hide Complete, SeqAgrees, PrevAgrees;
    var table := Extended(h, rows, body);
    forall i | 0 <= i < |table| ensures RowOk(h, key, table, i) {
      if i < |rows| {
        assert RowOk(h, key, rows, i) && Link(h, table, i) == Link(h, rows, i);
      }
    }
  }

  lemma PrefixIsAccepted(h: Hashing, key: Option<Verifier>, rows: seq<Row>, k: nat)
    requires RowsOk(h, key, rows) && k <= |rows|
    ensures RowsOk(h, key, rows[..k])
  {
    hide Complete, SeqAgrees, PrevAgrees, SignatureOk;
    forall i | 0 <= i < k ensures RowOk(h, key, rows[..k], i) {
      assert RowOk(h, key, rows, i) && Link(h, rows[..k], i) == Link(h, rows, i);
    }
  }

  /** The first n rows with another body at k, and the rows after it linked up again, none of them signed. */
  ghost function Relinked(h: Hashing, rows: seq<Row>, k: nat, body: Body, n: nat): (table: seq<Row>)
    requires k < n <= |rows|
    ensures |table| == n
  {
    if n == k + 1 then Extended(h, rows[..k], body)
    else
      var before := Relinked(h, rows, k, body, n - 1);
      Extended(h, before, rows[n - 1].body["prev_hash" := Str(h.Of(before[n - 2].body))])
  }

  lemma {:induction false} RelinkedIsAccepted(h: Hashing, key: Option<Verifier>, rows: seq<Row>, k: nat, body: Body,
                                              n: nat)
    requires RowsOk(h, key, rows) && k < n <= |rows| && Fits(h, rows[..k], body)
    ensures var table := Relinked(h, rows, k, body, n);
            && RowsOk(h, key, table)
            && table[..k] == rows[..k] && table[k].body == body
            && forall i :: k <= i < n ==> table[i].signature.None?
  {
    hide RowsOk, RowOk, Complete, SeqAgrees;
    if n == k + 1 {
      PrefixIsAccepted(h, key, rows, k);
      ExtendedIsAccepted(h, key, rows[..k], body);
    } else {
      var before := Relinked(h, rows, k, body, n - 1);
      RelinkedIsAccepted(h, key, rows, k, body, n - 1);
      RestampedFits(h, key, rows, before, n - 1);
      ExtendedIsAccepted(h, key, before, rows[n - 1].body["prev_hash" := Str(h.Of(before[n - 2].body))]);
    }
  }

  /** Another prev_hash leaves the seq and the required keys of an accepted row in place. */
  lemma RestampedFits(h: Hashing, key: Option<Verifier>, rows: seq<Row>, before: seq<Row>, n: nat)
    requires RowsOk(h, key, rows) && 0 < n < |rows| && |before| == n
    ensures Fits(h, before, rows[n].body["prev_hash" := Str(h.Of(before[n - 1].body))])
  {
    assert RowOk(h, key, rows, n);
  }

  lemma AcceptedFits(h: Hashing, key: Option<Verifier>, rows: seq<Row>, k: nat)
    requires RowsOk(h, key, rows) && k < |rows|
    ensures Fits(h, rows[..k], rows[k].body)
  {
    hide Complete;
    assert RowOk(h, key, rows, k);
    assert Link(h, rows[..k], k) == Link(h, rows, k);
  }

  /** Whether an accepted table of the same length, equal below k and unsigned from k on, can hold this body at k. */
  ghost predicate Rewritable(h: Hashing, key: Option<Verifier>, rows: seq<Row>, k: nat, body: Body)
    requires k < |rows|
  {
    exists table: seq<Row> ::
      && |table| == |rows| && RowsOk(h, key, table)
      && table[..k] == rows[..k] && table[k].body == body
      && forall i :: k <= i < |table| ==> table[i].signature.None?
  }

  /**
   * The converse: the verifier takes a row without a signature on trust, and does not miss one. At any row
   * exactly the bodies that fit there can stand in an accepted table that is equal below, as long, and
   * signed nowhere from that row on.
   */
  lemma UnsignedTailIsRewritable(h: Hashing, key: Option<Verifier>, rows: seq<Row>, k: nat, body: Body)
    requires RowsOk(h, key, rows) && k < |rows|
    ensures Rewritable(h, key, rows, k, body) <==> Fits(h, rows[..k], body)
  {
    hide RowsOk, Fits;
    if Fits(h, rows[..k], body) {
      RelinkedIsAccepted(h, key, rows, k, body, |rows|);
    }
    if Rewritable(h, key, rows, k, body) {
      var table: seq<Row> :| && |table| == |rows| && RowsOk(h, key, table)
                             && table[..k] == rows[..k] && table[k].body == body;
      AcceptedFits(h, key, table, k);
    }
  }

  /** The signature column emptied. */
  ghost function Stripped(rows: seq<Row>): (bare: seq<Row>)
    ensures |bare| == |rows|
    ensures forall i :: 0 <= i < |rows| ==> bare[i] == rows[i].(signature := None)
  {
    seq(|rows|, i requires 0 <= i < |rows| => rows[i].(signature := None))
  }

  /**
   * Why every row must be signed: a consistent rewrite without signatures is accepted under any key,
   * with no signature checked.
   */
  lemma StrippedRewriteIsAccepted(h: Hashing, key: Option<Verifier>, rows: seq<Row>)
    requires RowsOk(h, None, rows)
    ensures RowsOk(h, key, Stripped(rows)) && CountSigned(Stripped(rows), |rows|) == 0
  {
    var bare := Stripped(rows);
    forall i | 0 <= i < |rows| ensures RowOk(h, key, bare, i) {
      assert RowOk(h, None, rows, i);
      assert Link(h, bare, i) == Link(h, rows, i);
    }
    NoneSigned(bare, |rows|);
  }

  lemma {:induction false} NoneSigned(rows: seq<Row>, n: nat)
    requires n <= |rows| && forall i :: 0 <= i < n ==> rows[i].signature.None?
    ensures CountSigned(rows, n) == 0
  {
    if n > 0 {
      NoneSigned(rows, n - 1);
    }
  }
}
