/** Canonical form of a Constitution: what authoring order does and does not change. */
module Canonical {
  import opened Common
  import opened Contract
  import opened Constitution
  import opened Sorting
  import Compiler

  datatype Graduated = Graduated(default: Thresholds, perActionType: map<ActionType, Thresholds>)

  datatype ConstitutionDoc = ConstitutionDoc(
    name: string, principles: seq<Principle>, lists: Lists, graduated: Option<Graduated>)

  // ----- ids as sort keys -----

  /** `tuple(int(x) for x in id.split("."))`, scanning with the segment read so far. */
  function SegmentsFrom(s: string, acc: int): Key {
    if s == [] then [acc]
    else if s[0] == '.' then [acc] + SegmentsFrom(s[1..], 0)
    else SegmentsFrom(s[1..], 10 * acc + (s[0] as int - '0' as int))
  }

  function IdKey(id: string): Key {
    SegmentsFrom(id, 0)
  }

  function PrincipleKey(p: Principle): Key {
    IdKey(p.id)
  }

  /** The number a run of digits stands for. */
  function Numeral(s: string): int {
    if s == [] then 0 else 10 * Numeral(s[..|s| - 1]) + (s[|s| - 1] as int - '0' as int)
  }

  predicate Undotted(s: string) {
    forall i :: 0 <= i < |s| ==> s[i] != '.'
  }

  lemma {:induction false} SegmentReads(s: string, t: string)
    requires Undotted(t)
    ensures SegmentsFrom(t, Numeral(s)) == [Numeral(s + t)]
    decreases |t|
  {
    if t == [] {
      assert s + t == s;
    } else {
      var next := s + [t[0]];
      assert next[..|next| - 1] == s && next + t[1..] == s + t;
      SegmentReads(next, t[1..]);
    }
  }

  lemma {:induction false} SegmentsJoin(s: string, t: string, acc: int)
    ensures SegmentsFrom(s + "." + t, acc) == SegmentsFrom(s, acc) + SegmentsFrom(t, 0)
  {
    var all := s + "." + t;
    if s == [] {
      assert all[1..] == t;
    } else {
      assert all[0] == s[0] && all[1..] == s[1..] + "." + t;
      SegmentsJoin(s[1..], t, if s[0] == '.' then 0 else 10 * acc + (s[0] as int - '0' as int));
    }
  }

  /** The sort key of an id: the numbers between its dots, in order. */
  lemma IdKeyReads(segment: string, rest: string)
    requires Undotted(segment)
    ensures IdKey(segment) == [Numeral(segment)]
    ensures IdKey(segment + "." + rest) == [Numeral(segment)] + IdKey(rest)
  {
    assert [] + segment == segment;
    SegmentReads([], segment);
    SegmentsJoin(segment, rest, 0);
  }

  // ----- the canonical form -----

  function Dedup(s: seq<string>): seq<string> {
    if s == [] then []
    else
      var rest := Dedup(s[1..]);
      if s[0] in rest then rest else [s[0]] + rest
  }

  /** `sorted(set(values))`. */
  function SortedSet(s: seq<string>): seq<string> {
    Sort(CodePoints, Dedup(s))
  }

  function CanonicalForm(c: ConstitutionDoc): ConstitutionDoc {
    ConstitutionDoc(c.name, Sort(PrincipleKey, c.principles),
                    map n | n in c.lists :: SortedSet(c.lists[n]), c.graduated)
  }

  /** The same set of strings. */
  ghost predicate SameSet(s: seq<string>, t: seq<string>) {
    forall x :: x in s <==> x in t
  }

  /** The same constitution up to the order of principles and the order and repetition of list entries. */
  ghost predicate SameContent(c: ConstitutionDoc, d: ConstitutionDoc) {
    && multiset(c.principles) == multiset(d.principles)
    && c.lists.Keys == d.lists.Keys
    && (forall n :: n in c.lists ==> SameSet(c.lists[n], d.lists[n]))
    && c.name == d.name
    && c.graduated == d.graduated
  }

  lemma {:induction false} DedupKeepsSet(s: seq<string>)
    ensures forall x :: x in Dedup(s) <==> x in s
    ensures forall x :: multiset(Dedup(s))[x] == if x in s then 1 else 0
  {
    if s != [] {
      DedupKeepsSet(s[1..]);
      assert s == [s[0]] + s[1..];
    }
  }

  /** A sorted, deduplicated list is determined by its set of entries, and determines it. */
  lemma SortedSetCanonical(s: seq<string>, t: seq<string>)
    ensures SortedSet(s) == SortedSet(t) <==> SameSet(s, t)
    ensures SameSet(s, SortedSet(s))
  {
    hide Dedup, Sort, Sorted;
    DedupKeepsSet(s);
    DedupKeepsSet(t);
    forall i, j | 0 <= i < |Dedup(s)| && 0 <= j < |Dedup(s)| && CodePoints(Dedup(s)[i]) == CodePoints(Dedup(s)[j])
      ensures Dedup(s)[i] == Dedup(s)[j]
    {
      CodePointsInjective(Dedup(s)[i], Dedup(s)[j]);
    }
    SortForgetsOrder(CodePoints, Dedup(s), Dedup(t));
    assert SameSet(s, t) ==> multiset(Dedup(s)) == multiset(Dedup(t));
    if multiset(Dedup(s)) == multiset(Dedup(t)) {
      forall x ensures x in s <==> x in t {
        assert x in s <==> multiset(Dedup(s))[x] == 1;
        assert x in t <==> multiset(Dedup(t))[x] == 1;
      }
    }
    SortSorts(CodePoints, Dedup(s));
    forall x ensures x in s <==> x in SortedSet(s) {
      assert x in SortedSet(s) <==> x in multiset(SortedSet(s));
    }
  }

  lemma CanonicalLists(c: ConstitutionDoc, d: ConstitutionDoc)
    ensures CanonicalForm(c).lists == CanonicalForm(d).lists <==>
            c.lists.Keys == d.lists.Keys && forall n :: n in c.lists ==> SameSet(c.lists[n], d.lists[n])
  {
    var f, g := CanonicalForm(c).lists, CanonicalForm(d).lists;
    assert f.Keys == c.lists.Keys && g.Keys == d.lists.Keys;
    forall n | n in c.lists && n in d.lists ensures f[n] == g[n] <==> SameSet(c.lists[n], d.lists[n]) {
      SortedSetCanonical(c.lists[n], d.lists[n]);
    }
  }

  /**
   * Equal canonical forms always mean the same content; with ids told apart by their keys the same content
   * also means equal forms.
   */
  lemma CanonicalFormDecidesContent(c: ConstitutionDoc, d: ConstitutionDoc)
    ensures CanonicalForm(c) == CanonicalForm(d) ==> SameContent(c, d)
    ensures KeyInjective(PrincipleKey, c.principles) ==> (CanonicalForm(c) == CanonicalForm(d) <==> SameContent(c, d))
  {
    SortSorts(PrincipleKey, c.principles);
    SortSorts(PrincipleKey, d.principles);
    if KeyInjective(PrincipleKey, c.principles) {
      SortForgetsOrder(PrincipleKey, c.principles, d.principles);
    }
    CanonicalLists(c, d);
  }

  lemma CanonicalFormIdempotent(c: ConstitutionDoc)
    ensures CanonicalForm(CanonicalForm(c)) == CanonicalForm(c)
  {
    var f := CanonicalForm(c);
    SortSorts(PrincipleKey, c.principles);
    SortOfSorted(PrincipleKey, f.principles);
    forall n | n in c.lists ensures SortedSet(f.lists[n]) == f.lists[n] {
      SortedSetCanonical(c.lists[n], SortedSet(c.lists[n]));
    }
    assert CanonicalForm(f).lists == f.lists;
  }

  // ----- exactly when authoring order is forgotten -----

  function Reverse<T>(s: seq<T>): seq<T> {
    if s == [] then [] else Reverse(s[1..]) + [s[0]]
  }

  lemma {:induction false} ReversePermutes<T>(s: seq<T>)
    ensures multiset(Reverse(s)) == multiset(s)
  {
    if s != [] {
      ReversePermutes(s[1..]);
      assert s == [s[0]] + s[1..];
    }
  }

  lemma {:induction false} WithKeyAppend<T>(key: T -> Key, k: Key, s: seq<T>, t: seq<T>)
    ensures WithKey(key, k, s + t) == WithKey(key, k, s) + WithKey(key, k, t)
  {
    if s == [] {
      assert s + t == t;
    } else {
      var head := if key(s[0]) == k then [s[0]] else [];
      assert (s + t)[0] == s[0] && (s + t)[1..] == s[1..] + t;
      WithKeyAppend(key, k, s[1..], t);
      assert WithKey(key, k, s + t) == head + WithKey(key, k, s[1..] + t);
    }
  }

  lemma {:induction false} WithKeyReverse<T>(key: T -> Key, k: Key, s: seq<T>)
    ensures WithKey(key, k, Reverse(s)) == Reverse(WithKey(key, k, s))
  {
    if s != [] {
      WithKeyReverse(key, k, s[1..]);
      WithKeyAppend(key, k, Reverse(s[1..]), [s[0]]);
      assert [s[0]][1..] == [];
      var rest := WithKey(key, k, s[1..]);
      if key(s[0]) == k {
        assert WithKey(key, k, [s[0]]) == [s[0]];
        assert WithKey(key, k, s) == [s[0]] + rest;
        assert ([s[0]] + rest)[1..] == rest;
      } else {
        assert WithKey(key, k, [s[0]]) == [];
        assert WithKey(key, k, s) == rest;
      }
    }
  }

  lemma {:induction false} ReverseEnds<T>(s: seq<T>)
    requires s != []
    ensures |Reverse(s)| == |s| && Reverse(s)[0] == s[|s| - 1]
  {
    if |s| > 1 {
      ReverseEnds(s[1..]);
    }
  }

  lemma {:induction false} WithKeyHolds<T>(key: T -> Key, k: Key, s: seq<T>, i: nat)
    requires i < |s| && key(s[i]) == k
    ensures s[i] in WithKey(key, k, s)
  {
    if i > 0 {
      WithKeyHolds(key, k, s[1..], i - 1);
    }
  }

  lemma {:induction false} WithKeyNoDuplicates<T>(key: T -> Key, k: Key, s: seq<T>)
    requires NoDuplicates(s)
    ensures forall x :: x in WithKey(key, k, s) ==> x in s
    ensures NoDuplicates(WithKey(key, k, s))
  {
    if s != [] {
      var rest := WithKey(key, k, s[1..]);
      WithKeyNoDuplicates(key, k, s[1..]);
      if key(s[0]) == k {
        var w := [s[0]] + rest;
        assert WithKey(key, k, s) == w;
        forall i, j | 0 <= i < j < |w| ensures w[i] != w[j] {
          assert w[j] == rest[j - 1] && rest[j - 1] in s[1..];
        }
      } else {
        assert WithKey(key, k, s) == [] + rest == rest;
      }
    }
  }

  /** Two different elements sharing a key: the reverse order sorts differently. */
  lemma SharedKeyKeepsOrder<T>(key: T -> Key, s: seq<T>, i: nat, j: nat)
    requires NoDuplicates(s)
    requires i < |s| && j < |s| && s[i] != s[j] && key(s[i]) == key(s[j])
    ensures Sort(key, Reverse(s)) != Sort(key, s)
  {
    var k := key(s[i]);
    var w := WithKey(key, k, s);
    WithKeyHolds(key, k, s, i);
    WithKeyHolds(key, k, s, j);
    WithKeyNoDuplicates(key, k, s);
    ReverseEnds(w);
    SortStable(key, k, s);
    SortStable(key, k, Reverse(s));
    WithKeyReverse(key, k, s);
  }

  /** Every reordering of the principles has the same canonical form. */
  ghost predicate OrderForgotten(c: ConstitutionDoc) {
    forall ps: seq<Principle> :: multiset(ps) == multiset(c.principles) ==>
      CanonicalForm(c.(principles := ps)) == CanonicalForm(c)
  }

  /**
   * The schema only rejects equal id strings. For a constitution it accepts, authoring order is
   * forgotten exactly when no two ids share a sort key.
   */
  lemma OrderForgottenExactly(c: ConstitutionDoc)
    requires forall i, j :: 0 <= i < j < |c.principles| ==> c.principles[i].id != c.principles[j].id
    ensures OrderForgotten(c) <==>
            forall i, j :: 0 <= i < j < |c.principles| ==> IdKey(c.principles[i].id) != IdKey(c.principles[j].id)
  {
    var s := c.principles;
    if i, j :| 0 <= i < j < |s| && IdKey(s[i].id) == IdKey(s[j].id) {
      SharedKeyKeepsOrder(PrincipleKey, s, i, j);
      ReversePermutes(s);
      var d := c.(principles := Reverse(s));
      assert CanonicalForm(d).principles != CanonicalForm(c).principles;
    } else {
      assert KeyInjective(PrincipleKey, s) by {
        forall i, j | 0 <= i < |s| && 0 <= j < |s| && PrincipleKey(s[i]) == PrincipleKey(s[j]) ensures s[i] == s[j] {
        }
      }
      forall ps: seq<Principle> | multiset(ps) == multiset(s)
        ensures CanonicalForm(c.(principles := ps)) == CanonicalForm(c)
      {
        CanonicalFormDecidesContent(c, c.(principles := ps));
      }
    }
  }

  /** Such ids exist: "1.1" and "1.01" are different strings with the same key. */
  lemma SharedKeyExists()
    ensures "1.1" != "1.01" && IdKey("1.1") == IdKey("1.01") == [1, 1]
  {
  }

  // ----- the compiled bundle -----

  /** One emitted principle: its provenance and its rule bodies. */
  datatype Emitted = Emitted(principle: Principle, rules: seq<Compiler.Body>)

  datatype SequenceMeta = SequenceMeta(principleRef: string, intentClasses: seq<string>, effect: Outcome)

  datatype Bundle = Bundle(version: string, yamlPolicy: seq<Principle>, rego: seq<Emitted>,
                           sequences: seq<SequenceMeta>, graduatedConfig: Graduated, lists: Lists)

  const DEFAULT_GRADUATED: Graduated := Graduated(Thresholds(0.4, 0.7, 0.2), map[])

  function EmitAll(ps: seq<Principle>): Result<seq<Emitted>, Compiler.CompileError> {
    if ps == [] then Ok([])
    else
      var rules := Compiler.PrincipleRules(ps[0]);
      var rest := EmitAll(ps[1..]);
      if rules.Err? then Err(rules.error)
      else if rest.Err? then rest
      else Ok([Emitted(ps[0], rules.value)] + rest.value)
  }

  function SequenceMetas(ps: seq<Principle>): seq<SequenceMeta> {
    if ps == [] then []
    else
      (if ps[0].kind == SequenceKind && ps[0].sequence.Some? then
         [SequenceMeta(ps[0].id, ps[0].sequence.value, ps[0].effect)]
       else []) + SequenceMetas(ps[1..])
  }

  /** compile_constitution; `hash` stands for SHA-256 over the canonical JSON of the form. */
  function Compile(hash: ConstitutionDoc -> string, c: ConstitutionDoc): Result<Bundle, Compiler.CompileError> {
    var form := CanonicalForm(c);
    var principles := Sort(PrincipleKey, c.principles);
    var emitted := EmitAll(principles);
    if emitted.Err? then Err(emitted.error)
    else Ok(Bundle(hash(form), form.principles, emitted.value, SequenceMetas(principles),
                   if c.graduated.Some? then c.graduated.value else DEFAULT_GRADUATED, form.lists))
  }

  /** Constitutions with the same content compile to the same bundle: version, YAML, Rego, sequences and lists. */
  lemma SameContentSameBundle(hash: ConstitutionDoc -> string, c: ConstitutionDoc, d: ConstitutionDoc)
    requires KeyInjective(PrincipleKey, c.principles) && SameContent(c, d)
    ensures Compile(hash, c) == Compile(hash, d)
  {
    CanonicalFormDecidesContent(c, d);
    assert CanonicalForm(c).principles == CanonicalForm(d).principles;
  }
}
