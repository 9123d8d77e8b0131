/** What the compiled bundle says of the constitution it was compiled from. */
module CompiledBundle {
  import opened Common
  import opened Contract
  import opened Constitution
  import opened Sorting
  import opened Canonical
  import Compiler

  // ----- the rules -----

  /** The principles the emitted rules stand for, in order. */
  function Provenance(rego: seq<Emitted>): seq<Principle> {
    seq(|rego|, i requires 0 <= i < |rego| => rego[i].principle)
  }

  /** How many rule bodies the condition multiplies out to. */
  function Branches(p: Principle): nat {
    if p.kind == ActionKind && p.when.Some? then Compiler.DisjunctCount(p.when.value, false) else 1
  }

  predicate AboveCeiling(p: Principle) {
    Branches(p) > 64
  }

  lemma {:induction false} EmitsAll(ps: seq<Principle>)
    ensures EmitAll(ps).Ok? <==> forall p :: p in ps ==> !AboveCeiling(p)
    ensures EmitAll(ps).Ok? ==>
              var rego := EmitAll(ps).value;
              && Provenance(rego) == ps
              && forall i :: 0 <= i < |rego| ==> Ok(rego[i].rules) == Compiler.PrincipleRules(rego[i].principle)
    ensures EmitAll(ps).Err? ==>
              exists i :: 0 <= i < |ps| && AboveCeiling(ps[i]) && (forall j :: 0 <= j < i ==> !AboveCeiling(ps[j]))
                          && EmitAll(ps).error == Compiler.TooManyDisjuncts(Branches(ps[i]))
  {
    hide AboveCeiling, Branches, Compiler.PrincipleRules;
    if ps != [] {
      RefusedAboveCeiling(ps[0]);
      EmitsAll(ps[1..]);
      assert ps == [ps[0]] + ps[1..];
      var all, rest := EmitAll(ps), EmitAll(ps[1..]);
      if all.Ok? {
        assert all.value == [Emitted(ps[0], Compiler.PrincipleRules(ps[0]).value)] + rest.value;
        assert Provenance(all.value) == [ps[0]] + Provenance(rest.value);
      } else if AboveCeiling(ps[0]) {
        assert ps[0] in ps;
      } else {
        var i :| 0 <= i < |ps[1..]| && AboveCeiling(ps[1..][i])
                 && (forall j :: 0 <= j < i ==> !AboveCeiling(ps[1..][j]))
                 && rest.error == Compiler.TooManyDisjuncts(Branches(ps[1..][i]));
        assert ps[i + 1] == ps[1..][i];
        forall j | 0 <= j < i + 1 ensures !AboveCeiling(ps[j]) {
          assert j == 0 || ps[j] == ps[1..][j - 1];
        }
      }
    }
  }

  lemma RefusedAboveCeiling(p: Principle)
    ensures Compiler.PrincipleRules(p).Err? <==> AboveCeiling(p)
    ensures AboveCeiling(p) ==> Compiler.PrincipleRules(p) == Err(Compiler.TooManyDisjuncts(Branches(p)))
  {
    Compiler.RefusedExactlyAboveCeiling(p);
    if p.when.Some? {
      Compiler.DnfSize(p.when.value, false);
    }
  }

  /** Compilation fails exactly when some principle is above the ceiling, with the count of the first one by id. */
  lemma CompilesExactly(hash: ConstitutionDoc -> string, c: ConstitutionDoc)
    ensures Compile(hash, c).Ok? <==> forall p :: p in c.principles ==> !AboveCeiling(p)
    ensures Compile(hash, c).Err? ==>
              exists p :: p in c.principles && AboveCeiling(p)
                          && (forall q :: q in c.principles && Less(PrincipleKey(q), PrincipleKey(p)) ==>
                                !AboveCeiling(q))
                          && Compile(hash, c).error == Compiler.TooManyDisjuncts(Branches(p))
  {
    hide AboveCeiling, Branches, Less, PrincipleKey, CanonicalForm, EmitAll, Sort;
    var sorted := Sort(PrincipleKey, c.principles);
    SortedPrinciples(c);
    EmitsAll(sorted);
    if Compile(hash, c).Err? {
      var i :| 0 <= i < |sorted| && AboveCeiling(sorted[i]) && (forall j :: 0 <= j < i ==> !AboveCeiling(sorted[j]))
               && EmitAll(sorted).error == Compiler.TooManyDisjuncts(Branches(sorted[i]));
      assert sorted[i] in c.principles;
      forall q | q in c.principles && Less(PrincipleKey(q), PrincipleKey(sorted[i])) ensures !AboveCeiling(q) {
        var j :| 0 <= j < |sorted| && sorted[j] == q;
        LessTotal(PrincipleKey(q), PrincipleKey(sorted[i]));
      }
    }
  }

  lemma SortedPrinciples(c: ConstitutionDoc)
    ensures var sorted := Sort(PrincipleKey, c.principles);
            && multiset(sorted) == multiset(c.principles) && Sorted(PrincipleKey, sorted)
            && (forall p :: p in sorted <==> p in c.principles)
  {
    SortSorts(PrincipleKey, c.principles);
    var sorted := Sort(PrincipleKey, c.principles);
    forall p ensures p in sorted <==> p in c.principles {
      assert p in sorted <==> p in multiset(sorted);
      assert p in c.principles <==> p in multiset(c.principles);
    }
  }

  lemma {:induction false} MetasMember(ps: seq<Principle>)
    ensures forall m :: m in SequenceMetas(ps) <==>
              exists p :: p in ps && p.kind == SequenceKind && p.sequence.Some?
                          && m == SequenceMeta(p.id, p.sequence.value, p.effect)
  {
    if ps != [] {
      MetasMember(ps[1..]);
      assert ps == [ps[0]] + ps[1..];
    }
  }

  /**
   * The parts of a bundle. The rules are those of the constitution's principles, each once, by id; the YAML
   * layer holds the same principles; the sequences are those of the sequence principles; the lists hold the
   * authored entries, each once, in order; thresholds are the authored ones or the defaults.
   */
  lemma BundleHolds(hash: ConstitutionDoc -> string, c: ConstitutionDoc)
    requires Compile(hash, c).Ok?
    ensures var b := Compile(hash, c).value;
            && multiset(Provenance(b.rego)) == multiset(c.principles) && Sorted(PrincipleKey, Provenance(b.rego))
            && (forall i :: 0 <= i < |b.rego| ==> Ok(b.rego[i].rules) == Compiler.PrincipleRules(b.rego[i].principle))
            && b.yamlPolicy == Provenance(b.rego)
            && (forall m :: m in b.sequences <==>
                  exists p :: p in c.principles && p.kind == SequenceKind && p.sequence.Some?
                              && m == SequenceMeta(p.id, p.sequence.value, p.effect))
            && b.lists.Keys == c.lists.Keys
            && (forall n :: n in c.lists ==>
                  SameSet(b.lists[n], c.lists[n]) && NoDuplicates(b.lists[n]) && Sorted(CodePoints, b.lists[n]))
            && b.version == hash(CanonicalForm(c))
            && (c.graduated.Some? ==> b.graduatedConfig == c.graduated.value)
            && (c.graduated.None? ==> b.graduatedConfig == DEFAULT_GRADUATED)
  {
    hide Sorted, SameSet, NoDuplicates, SortedSet, EmitAll, Compiler.PrincipleRules;
    var sorted := Sort(PrincipleKey, c.principles);
    SortedPrinciples(c);
    EmitsAll(sorted);
    MetasMember(sorted);
    forall n | n in c.lists
      ensures SameSet(SortedSet(c.lists[n]), c.lists[n])
      ensures NoDuplicates(SortedSet(c.lists[n])) && Sorted(CodePoints, SortedSet(c.lists[n]))
    {
      SortedSetIs(c.lists[n]);
    }
  }

  lemma SortedSetIs(s: seq<string>)
    ensures SameSet(SortedSet(s), s) && NoDuplicates(SortedSet(s)) && Sorted(CodePoints, SortedSet(s))
  {
    hide Sorted, Sort, Dedup;
    SortedSetCanonical(s, s);
    DedupKeepsSet(s);
    SortSorts(CodePoints, Dedup(s));
    OnceEach(SortedSet(s));
  }

  lemma OnceEach(t: seq<string>)
    requires forall x :: multiset(t)[x] <= 1
    ensures NoDuplicates(t)
  {
    forall i, j | 0 <= i < j < |t| ensures t[i] != t[j] {
      TwiceAt(t, i, j);
    }
  }

  lemma TwiceAt(t: seq<string>, i: nat, j: nat)
    requires i < j < |t|
    ensures t[i] == t[j] ==> multiset(t)[t[i]] >= 2
  {
    assert t == t[..j] + [t[j]] + t[j + 1..];
    assert t[..j] == t[..i] + [t[i]] + t[i + 1..j];
  }

  // ----- the decision of the bundle -----

  /** The refs and effects of the emitted entries with a succeeding body: Rego's `matched`, with the bundle's lists. */
  ghost function BundleMatched(lib: Library, b: Bundle, doc: Document): set<MatchedPrinciple> {
    set e | e in b.rego && Compiler.RuleMatches(lib, b.lists, doc, e.rules) ::
      MatchedPrinciple(e.principle.id, e.principle.effect)
  }

  /** The lists agree as sets. */
  ghost predicate SameLists(x: Lists, y: Lists) {
    x.Keys == y.Keys && forall n :: n in x ==> SameSet(x[n], y[n])
  }

  lemma {:induction false} SameTruthSameTree(node: Node, f: Leaf -> bool, g: Leaf -> bool)
    requires forall leaf :: f(leaf) == g(leaf)
    ensures TreeHolds(node, f) == TreeHolds(node, g)
    decreases node
  {
    match node {
      case Test(_) =>
      case Not(n) => SameTruthSameTree(n, f, g);
      case All(ns) =>
        forall i | 0 <= i < |ns| ensures TreeHolds(ns[i], f) == TreeHolds(ns[i], g) {
          SameTruthSameTree(ns[i], f, g);
        }
      case Any(ns) =>
        forall i | 0 <= i < |ns| ensures TreeHolds(ns[i], f) == TreeHolds(ns[i], g) {
          SameTruthSameTree(ns[i], f, g);
        }
    }
  }

  /** Lists only matter as sets. */
  lemma SameListsSameMeaning(lib: Library, x: Lists, y: Lists, p: Principle, a: Action, e: Enrichment,
                             refs: seq<string>)
    requires SameLists(x, y)
    ensures Fires(lib, x, p, a, e, refs) <==> Fires(lib, y, p, a, e, refs)
    ensures ValidPrinciple(p, x) <==> ValidPrinciple(p, y)
  {
    if p.when.Some? {
      var f := (leaf: Leaf) => LeafHolds(lib, x, leaf, FieldValue(lib, a, e, leaf.field));
      var g := (leaf: Leaf) => LeafHolds(lib, y, leaf, FieldValue(lib, a, e, leaf.field));
      forall leaf ensures f(leaf) == g(leaf) {
        SameListsSameLeaf(lib, x, y, leaf, FieldValue(lib, a, e, leaf.field));
      }
      hide LeafHolds, FieldValue;
      SameTruthSameTree(p.when.value, f, g);
    }
  }

  lemma SameListsSameLeaf(lib: Library, x: Lists, y: Lists, leaf: Leaf, v: Value)
    requires SameLists(x, y)
    ensures LeafHolds(lib, x, leaf, v) == LeafHolds(lib, y, leaf, v)
  {
  }

  /**
   * The bundle decides as authored: for a schema-valid constitution that compiles, and any document built, the
   * entries that match are exactly those of its principles that fire in two-valued logic.
   */
  lemma BundleDecidesAsAuthored(hash: ConstitutionDoc -> string, c: ConstitutionDoc, lib: Library, a: Action,
                                e: Enrichment, refs: seq<string>)
    requires Compile(hash, c).Ok? && forall p :: p in c.principles ==> ValidPrinciple(p, c.lists)
    ensures var doc := BuildPolicyInput(lib, a, e, refs);
            doc.Some? ==>
            var matched := BundleMatched(lib, Compile(hash, c).value, doc.value);
            && (forall m :: m in matched <==>
                  exists p :: p in c.principles && Fires(lib, c.lists, p, a, e, refs)
                              && m == MatchedPrinciple(p.id, p.effect))
            && (matched == {} <==> forall p :: p in c.principles ==> !Fires(lib, c.lists, p, a, e, refs))
  {
    hide Compile, Sorted, SameSet, Fires, ValidPrinciple, Compiler.RuleMatches, Compiler.PrincipleRules;
    hide BuildPolicyInput, CanonicalForm;
    BundleHolds(hash, c);
    var b := Compile(hash, c).value;
    var doc := BuildPolicyInput(lib, a, e, refs);
    forall i | 0 <= i < |b.rego|
      ensures b.rego[i].principle in c.principles
      ensures doc.Some? ==> (Compiler.RuleMatches(lib, b.lists, doc.value, b.rego[i].rules) <==>
                             Fires(lib, c.lists, b.rego[i].principle, a, e, refs))
    {
      var p := b.rego[i].principle;
      assert p == Provenance(b.rego)[i] && p in multiset(Provenance(b.rego));
      SameSetFlips(b.lists, c.lists);
      SameListsSameMeaning(lib, b.lists, c.lists, p, a, e, refs);
      Compiler.CompiledPrincipleFires(lib, b.lists, p, a, e, refs);
    }
    if doc.Some? {
      var matched := BundleMatched(lib, b, doc.value);
      forall p | p in c.principles && Fires(lib, c.lists, p, a, e, refs)
        ensures MatchedPrinciple(p.id, p.effect) in matched
      {
        assert p in multiset(Provenance(b.rego));
        var i :| 0 <= i < |b.rego| && Provenance(b.rego)[i] == p;
        assert b.rego[i] in b.rego;
      }
    }
  }

  lemma SameSetFlips(x: Lists, y: Lists)
    requires x.Keys == y.Keys && forall n :: n in y ==> SameSet(x[n], y[n])
    ensures SameLists(x, y)
  {
  }
}
