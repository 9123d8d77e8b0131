/** The Constitution compiler: condition trees to Rego rule bodies, with Rego's own semantics. */
module Compiler {
  import opened Common
  import opened Contract
  import opened Constitution

  // ----- disjunctive normal form -----

  /** A leaf, negated or not. */
  type Signed = (Leaf, bool)
  type Dnf = seq<seq<Signed>>

  function ToDnf(node: Node, negated: bool): Dnf
    decreases node, 1
  {
    match node
    case Test(leaf) => [[(leaf, negated)]]
    case Not(n) => ToDnf(n, !negated)
    case All(ns) => if negated then Flatten(ChildDnfs(ns, true)) else CrossFold([[]], ChildDnfs(ns, false))
    case Any(ns) => if negated then CrossFold([[]], ChildDnfs(ns, true)) else Flatten(ChildDnfs(ns, false))
  }

  function ChildDnfs(nodes: seq<Node>, negated: bool): (r: seq<Dnf>)
    ensures |r| == |nodes|
    decreases nodes, 0
  {
    if nodes == [] then [] else [ToDnf(nodes[0], negated)] + ChildDnfs(nodes[1..], negated)
  }

  function Flatten(dnfs: seq<Dnf>): Dnf {
    if dnfs == [] then [] else dnfs[0] + Flatten(dnfs[1..])
  }

  /** Each accumulated disjunct extended by each disjunct of one child, in that nesting order. */
  function Cross(accs: Dnf, dnf: Dnf): Dnf {
    if accs == [] then [] else seq(|dnf|, i requires 0 <= i < |dnf| => accs[0] + dnf[i]) + Cross(accs[1..], dnf)
  }

  function CrossFold(acc: Dnf, dnfs: seq<Dnf>): Dnf
    decreases |dnfs|
  {
    if dnfs == [] then acc else CrossFold(Cross(acc, dnfs[0]), dnfs[1..])
  }

  ghost predicate SatConj(c: seq<Signed>, truth: Leaf -> bool) {
    forall i :: 0 <= i < |c| ==> truth(c[i].0) != c[i].1
  }

  ghost predicate Sat(dnf: Dnf, truth: Leaf -> bool) {
    exists i :: 0 <= i < |dnf| && SatConj(dnf[i], truth)
  }

  lemma SatAppend(x: Dnf, y: Dnf, truth: Leaf -> bool)
    ensures Sat(x + y, truth) <==> Sat(x, truth) || Sat(y, truth)
  {
    if i :| 0 <= i < |x| && SatConj(x[i], truth) {
      assert (x + y)[i] == x[i];
    }
    if i :| 0 <= i < |y| && SatConj(y[i], truth) {
      assert (x + y)[|x| + i] == y[i];
    }
  }

  lemma SatConjAppend(c: seq<Signed>, d: seq<Signed>, truth: Leaf -> bool)
    ensures SatConj(c + d, truth) <==> SatConj(c, truth) && SatConj(d, truth)
  {
    if SatConj(c + d, truth) {
      forall i | 0 <= i < |c| ensures truth(c[i].0) != c[i].1 {
        assert (c + d)[i] == c[i];
      }
      forall i | 0 <= i < |d| ensures truth(d[i].0) != d[i].1 {
        assert (c + d)[|c| + i] == d[i];
      }
    }
  }

  lemma {:induction false} SatCross(accs: Dnf, dnf: Dnf, truth: Leaf -> bool)
    ensures Sat(Cross(accs, dnf), truth) <==> Sat(accs, truth) && Sat(dnf, truth)
  {
    if accs != [] {
      var first := seq(|dnf|, i requires 0 <= i < |dnf| => accs[0] + dnf[i]);
      forall i | 0 <= i < |dnf|
        ensures SatConj(first[i], truth) <==> SatConj(accs[0], truth) && SatConj(dnf[i], truth)
      {
        SatConjAppend(accs[0], dnf[i], truth);
      }
      assert Sat(first, truth) <==> SatConj(accs[0], truth) && Sat(dnf, truth);
      SatAppend(first, Cross(accs[1..], dnf), truth);
      SatCross(accs[1..], dnf, truth);
      assert accs == [accs[0]] + accs[1..];
      SatAppend([accs[0]], accs[1..], truth);
      assert Sat([accs[0]], truth) <==> SatConj([accs[0]][0], truth);
    }
  }

  lemma {:induction false} SatCrossFold(acc: Dnf, dnfs: seq<Dnf>, truth: Leaf -> bool)
    ensures Sat(CrossFold(acc, dnfs), truth) <==>
            Sat(acc, truth) && forall k :: 0 <= k < |dnfs| ==> Sat(dnfs[k], truth)
    decreases |dnfs|
  {
    if dnfs != [] {
      SatCross(acc, dnfs[0], truth);
      SatCrossFold(Cross(acc, dnfs[0]), dnfs[1..], truth);
      assert dnfs == [dnfs[0]] + dnfs[1..];
    }
  }

  lemma {:induction false} SatFlatten(dnfs: seq<Dnf>, truth: Leaf -> bool)
    ensures Sat(Flatten(dnfs), truth) <==> exists k :: 0 <= k < |dnfs| && Sat(dnfs[k], truth)
  {
    if dnfs != [] {
      SatAppend(dnfs[0], Flatten(dnfs[1..]), truth);
      SatFlatten(dnfs[1..], truth);
      if k :| 0 <= k < |dnfs[1..]| && Sat(dnfs[1..][k], truth) {
        assert Sat(dnfs[k + 1], truth);
      }
      if k :| 0 < k < |dnfs| && Sat(dnfs[k], truth) {
        assert Sat(dnfs[1..][k - 1], truth);
      }
    }
  }

  /** The normal form of a tree, negated or not, is satisfied exactly when the tree is true, or false. */
  lemma {:induction false} DnfMeansTree(node: Node, negated: bool, truth: Leaf -> bool)
    ensures Sat(ToDnf(node, negated), truth) <==> TreeHolds(node, truth) != negated
    decreases node, 1
  {
    match node {
      case Test(leaf) =>
        assert SatConj([(leaf, negated)], truth) <==> truth([(leaf, negated)][0].0) != negated;
        assert Sat([[(leaf, negated)]], truth) <==> SatConj([[(leaf, negated)]][0], truth);
      case Not(n) =>
        DnfMeansTree(n, !negated, truth);
      case All(ns) =>
        DnfsMeanTrees(ns, negated, truth);
        SatFlatten(ChildDnfs(ns, negated), truth);
        SatCrossFold([[]], ChildDnfs(ns, negated), truth);
        assert SatConj([[]][0], truth);
      case Any(ns) =>
        DnfsMeanTrees(ns, negated, truth);
        SatFlatten(ChildDnfs(ns, negated), truth);
        SatCrossFold([[]], ChildDnfs(ns, negated), truth);
        assert SatConj([[]][0], truth);
    }
  }

  lemma {:induction false} DnfsMeanTrees(nodes: seq<Node>, negated: bool, truth: Leaf -> bool)
    ensures forall k :: 0 <= k < |nodes| ==>
              (Sat(ChildDnfs(nodes, negated)[k], truth) <==> TreeHolds(nodes[k], truth) != negated)
    decreases nodes, 0
  {
    if nodes != [] {
      DnfMeansTree(nodes[0], negated, truth);
      DnfsMeanTrees(nodes[1..], negated, truth);
    }
  }

  /** Only leaves of the tree reach its normal form. */
  lemma {:induction false} DnfLeaves(node: Node, negated: bool, c: seq<Signed>, l: Signed)
    requires c in ToDnf(node, negated) && l in c
    ensures l.0 in Leaves(node)
    decreases node, 1
  {
    match node {
      case Test(leaf) =>
      case Not(n) =>
        DnfLeaves(n, !negated, c, l);
      case All(ns) =>
        DnfLeavesOf(ns, negated, c, l);
      case Any(ns) =>
        DnfLeavesOf(ns, negated, c, l);
    }
  }

  lemma {:induction false} DnfLeavesOf(nodes: seq<Node>, negated: bool, c: seq<Signed>, l: Signed)
    requires l in c && (c in Flatten(ChildDnfs(nodes, negated)) || c in CrossFold([[]], ChildDnfs(nodes, negated)))
    ensures l.0 in LeavesOf(nodes)
    decreases nodes, 1
  {
    var dnfs := ChildDnfs(nodes, negated);
    var k, d := FromChild([[]], dnfs, c, l);
    FromNode(nodes, negated, k, d, l);
  }

  lemma {:induction false} FromNode(nodes: seq<Node>, negated: bool, k: nat, d: seq<Signed>, l: Signed)
    requires k < |nodes| && d in ChildDnfs(nodes, negated)[k] && l in d
    ensures l.0 in LeavesOf(nodes)
    decreases nodes, 0
  {
    if k == 0 {
      DnfLeaves(nodes[0], negated, d, l);
    } else {
      FromNode(nodes[1..], negated, k - 1, d, l);
    }
  }

  /** A literal of a flattened or multiplied-out disjunct comes from a disjunct of some child. */
  lemma {:induction false} FromChild(acc: Dnf, dnfs: seq<Dnf>, c: seq<Signed>, l: Signed)
    returns (k: nat, d: seq<Signed>)
    requires l in c && forall a :: a in acc ==> l !in a
    requires c in Flatten(dnfs) || c in CrossFold(acc, dnfs)
    ensures k < |dnfs| && d in dnfs[k] && l in d
    decreases |dnfs|
  {
    if c in dnfs[0] {
      return 0, c;
    }
    var next := Cross(acc, dnfs[0]);
    if a :| a in next && l in a {
      d := FromCross(acc, dnfs[0], a, l);
      return 0, d;
    }
    k, d := FromChild(next, dnfs[1..], c, l);
    k := k + 1;
  }

  lemma {:induction false} FromCross(accs: Dnf, dnf: Dnf, c: seq<Signed>, l: Signed) returns (d: seq<Signed>)
    requires c in Cross(accs, dnf) && l in c && forall a :: a in accs ==> l !in a
    ensures d in dnf && l in d
  {
    var first := seq(|dnf|, i requires 0 <= i < |dnf| => accs[0] + dnf[i]);
    if c in first {
      var i :| 0 <= i < |dnf| && c == accs[0] + dnf[i];
      d := dnf[i];
    } else {
      d := FromCross(accs[1..], dnf, c, l);
    }
  }

  // ----- lowering to Rego -----

  datatype RegoOp = OpEq | OpNe | OpIn | OpNotIn | OpPrefix | OpGlob | OpGte | OpLte | OpLt | OpGt

  datatype Expr =
    | FieldTest(op: RegoOp, field: Field, leaf: Leaf)
    | TypeIn(types: seq<ActionType>)
    | RefMatched(id: string)
    | True

  /** One line of a rule body: an expression, possibly under Rego's `not`. */
  datatype Literal = Literal(negated: bool, expr: Expr)

  type Body = seq<Literal>

  function AuthoredOp(op: Op): RegoOp {
    match op
    case Eq => OpEq
    case Ne => OpNe
    case In => OpIn
    case NotIn => OpNotIn
    case Prefix => OpPrefix
    case Glob => OpGlob
    case Gte => OpGte
    case Lte => OpLte
  }

  /** The exact inverse under negation; prefix and glob have none and stay as they are. */
  function NegatedOp(op: RegoOp): RegoOp {
    match op
    case OpEq => OpNe
    case OpNe => OpEq
    case OpIn => OpNotIn
    case OpNotIn => OpIn
    case OpGte => OpLt
    case OpLte => OpGt
    case _ => op
  }

  function LowerLeaf(leaf: Leaf, negated: bool): Literal {
    var authored := AuthoredOp(leaf.op);
    var op := if negated then NegatedOp(authored) else authored;
    // The not_in template is the only one that carries its own `not`.
    var line :=
      if op == OpNotIn then Literal(true, FieldTest(OpIn, leaf.field, leaf))
      else Literal(false, FieldTest(op, leaf.field, leaf));
    if negated && op == authored then Literal(true, line.expr) else line
  }

  datatype Truth = Undefined | False | Defined

  function Holds(b: bool): Truth {
    if b then Defined else False
  }

  /** Rego's value of an expression: a missing field, list or operand leaves it undefined. */
  function Eval(lib: Library, lists: Lists, doc: Document, expr: Expr): Truth {
    match expr
    case True => Defined
    case TypeIn(types) =>
      if Type !in doc.fields then Undefined
      else Holds(exists t :: t in types && doc.fields[Type] == Text(TypeName(t)))
    case RefMatched(id) => Holds(id in doc.matchedRefs)
    case FieldTest(op, f, leaf) =>
      if f !in doc.fields then Undefined
      else
        var v := doc.fields[f];
        if op == OpIn then
          if leaf.listRef.Some? && leaf.listRef.value !in lists then Undefined else Holds(Member(lists, leaf, v))
        else
          var w := ScalarOperand(leaf);
          if w.None? then Undefined
          else
            match op
            case OpEq => Holds(v == w.value)
            case OpNe => Holds(v != w.value)
            case OpPrefix => if TextPair(v, w) then Holds(w.value.s <= v.s) else Undefined
            case OpGlob => if TextPair(v, w) then Holds(lib.glob(w.value.s, v.s)) else Undefined
            case OpGte => Holds(lib.order(v, w.value) >= 0)
            case OpLte => Holds(lib.order(v, w.value) <= 0)
            case OpLt => Holds(lib.order(v, w.value) < 0)
            case OpGt => Holds(lib.order(v, w.value) > 0)
            case _ => Undefined
  }

  /** Rego's `not` succeeds on an expression that is false and on one that is undefined. */
  predicate Succeeds(lib: Library, lists: Lists, doc: Document, l: Literal) {
    if l.negated then Eval(lib, lists, doc, l.expr) != Defined else Eval(lib, lists, doc, l.expr) == Defined
  }

  predicate BodySucceeds(lib: Library, lists: Lists, doc: Document, body: Body) {
    forall i :: 0 <= i < |body| ==> Succeeds(lib, lists, doc, body[i])
  }

  const MAX_DISJUNCTS: nat := 64

  datatype CompileError = TooManyDisjuncts(count: nat)

  function ScopeBody(p: Principle): Body {
    if p.appliesTo.AllTypes? then [] else [Literal(false, TypeIn(p.appliesTo.types))]
  }

  function LowerDisjunct(c: seq<Signed>): Body {
    seq(|c|, i requires 0 <= i < |c| => LowerLeaf(c[i].0, c[i].1))
  }

  /** `scope + lines or ["true"]`. */
  function OrTrue(body: Body): Body {
    if body == [] then [Literal(false, True)] else body
  }

  /** The rule bodies emitted for one principle; Rego's OR is one rule per disjunct. */
  function PrincipleRules(p: Principle): Result<seq<Body>, CompileError> {
    match p.kind
    case SequenceKind => Ok([ScopeBody(p) + [Literal(false, RefMatched(p.id))]])
    case ActionKind =>
      var disjuncts := if p.when.Some? then ToDnf(p.when.value, false) else [[]];
      if |disjuncts| > MAX_DISJUNCTS then Err(TooManyDisjuncts(|disjuncts|))
      else Ok(seq(|disjuncts|, i requires 0 <= i < |disjuncts| => OrTrue(ScopeBody(p) + LowerDisjunct(disjuncts[i]))))
  }

  predicate RuleMatches(lib: Library, lists: Lists, doc: Document, rules: seq<Body>) {
    exists i :: 0 <= i < |rules| && BodySucceeds(lib, lists, doc, rules[i])
  }

  /** The operand fits the operator: a known list or string items, text for prefix and glob, else a scalar. */
  predicate OperandFits(lists: Lists, leaf: Leaf, v: Value) {
    match leaf.op
    case In | NotIn => leaf.listRef.Some? ==> leaf.listRef.value in lists
    case Prefix | Glob => TextPair(v, ScalarOperand(leaf))
    case _ => ScalarOperand(leaf).Some?
  }

  /** On a field the document carries, a lowered leaf says what the leaf says, or its opposite. */
  lemma LoweredLeafIsExact(lib: Library, lists: Lists, doc: Document, leaf: Leaf, negated: bool)
    requires leaf.field in doc.fields && OperandFits(lists, leaf, doc.fields[leaf.field])
    ensures Succeeds(lib, lists, doc, LowerLeaf(leaf, negated)) <==>
            LeafHolds(lib, lists, leaf, doc.fields[leaf.field]) != negated
  {
  }

  /** On a field the document lacks, a lowered leaf succeeds exactly when its line carries Rego's `not`. */
  lemma AbsentFieldFiresNegations(lib: Library, lists: Lists, doc: Document, leaf: Leaf, negated: bool)
    requires leaf.field !in doc.fields
    ensures Succeeds(lib, lists, doc, LowerLeaf(leaf, negated)) <==>
            (match leaf.op
             case NotIn => !negated
             case In => negated
             case Prefix => negated
             case Glob => negated
             case _ => false)
  {
  }

  lemma BodyAppend(lib: Library, lists: Lists, doc: Document, x: Body, y: Body)
    ensures BodySucceeds(lib, lists, doc, x + y) <==>
            BodySucceeds(lib, lists, doc, x) && BodySucceeds(lib, lists, doc, y)
  {
    if BodySucceeds(lib, lists, doc, x + y) {
      forall i | 0 <= i < |x| ensures Succeeds(lib, lists, doc, x[i]) {
        assert (x + y)[i] == x[i];
      }
      forall i | 0 <= i < |y| ensures Succeeds(lib, lists, doc, y[i]) {
        assert (x + y)[|x| + i] == y[i];
      }
    }
  }

  lemma ScopeIsExact(lib: Library, lists: Lists, p: Principle, a: Action, e: Enrichment, refs: seq<string>)
    ensures BodySucceeds(lib, lists, DocumentOf(lib, a, e, refs), ScopeBody(p)) <==>
            InScope(p.appliesTo, a.actionType)
  {
    hide ScopedFields;
    var doc := DocumentOf(lib, a, e, refs);
    FieldsArePresent(lib, a, e, refs, Type);
    if p.appliesTo.Only? {
      assert ScopeBody(p)[0].expr == TypeIn(p.appliesTo.types);
      assert doc.fields[Type] == Text(TypeName(a.actionType));
      assert forall t :: TypeName(t) == TypeName(a.actionType) ==> t == a.actionType;
      assert Succeeds(lib, lists, doc, ScopeBody(p)[0]) <==> a.actionType in p.appliesTo.types;
    }
  }

  /** Every field the condition tests is in the document, and the leaf is as true as the truth assigned to it. */
  ghost predicate Reads(lib: Library, lists: Lists, doc: Document, node: Node, truth: Leaf -> bool) {
    forall leaf :: leaf in Leaves(node) ==>
      leaf.field in doc.fields && truth(leaf) == LeafHolds(lib, lists, leaf, doc.fields[leaf.field])
  }

  /** One disjunct of a condition, lowered: its body succeeds exactly when the disjunct is true. */
  lemma DisjunctIsExact(lib: Library, lists: Lists, p: Principle, a: Action, e: Enrichment, refs: seq<string>,
                        truth: Leaf -> bool, c: seq<Signed>)
    requires WellTyped(p, lists) && p.when.Some? && c in ToDnf(p.when.value, false)
    requires Reads(lib, lists, DocumentOf(lib, a, e, refs), p.when.value, truth)
    ensures BodySucceeds(lib, lists, DocumentOf(lib, a, e, refs), LowerDisjunct(c)) <==> SatConj(c, truth)
  {
    var doc := DocumentOf(lib, a, e, refs);
    forall i | 0 <= i < |c|
      ensures Succeeds(lib, lists, doc, LowerDisjunct(c)[i]) <==> truth(c[i].0) != c[i].1
    {
      var leaf := c[i].0;
      DnfLeaves(p.when.value, false, c, c[i]);
      assert ValidLeaf(leaf);
      FieldsArePresent(lib, a, e, refs, leaf.field);
      LoweredLeafIsExact(lib, lists, doc, leaf, c[i].1);
    }
  }

  lemma OrTrueSucceeds(lib: Library, lists: Lists, doc: Document, body: Body)
    ensures BodySucceeds(lib, lists, doc, OrTrue(body)) <==> BodySucceeds(lib, lists, doc, body)
  {
  }

  /** A principle's type scope and its condition (or sequence), for any truth of its leaves. */
  ghost predicate FiresFor(p: Principle, t: ActionType, refs: seq<string>, truth: Leaf -> bool) {
    && InScope(p.appliesTo, t)
    && match p.kind
       case SequenceKind => p.id in refs
       case ActionKind => p.when.Some? ==> TreeHolds(p.when.value, truth)
  }

  /** Where the document carries what the principle reads, its rules match exactly when it fires. */
  lemma RulesMatch(lib: Library, lists: Lists, p: Principle, a: Action, e: Enrichment, refs: seq<string>,
                   truth: Leaf -> bool)
    requires WellTyped(p, lists) && PrincipleRules(p).Ok?
    requires InScope(p.appliesTo, a.actionType) && p.when.Some? ==>
               Reads(lib, lists, DocumentOf(lib, a, e, refs), p.when.value, truth)
    ensures RuleMatches(lib, lists, DocumentOf(lib, a, e, refs), PrincipleRules(p).value) <==>
            FiresFor(p, a.actionType, refs, truth)
  {
    var doc := DocumentOf(lib, a, e, refs);
    var rules := PrincipleRules(p).value;
    ScopeIsExact(lib, lists, p, a, e, refs);
    match p.kind {
      case SequenceKind =>
        var tail := [Literal(false, RefMatched(p.id))];
        BodyAppend(lib, lists, doc, ScopeBody(p), tail);
        assert BodySucceeds(lib, lists, doc, tail) <==> Succeeds(lib, lists, doc, tail[0]);
        assert RuleMatches(lib, lists, doc, rules) <==> BodySucceeds(lib, lists, doc, rules[0]);
      case ActionKind =>
        ActionRulesMatch(lib, lists, p, a, e, refs, truth);
    }
  }

  lemma ActionRulesMatch(lib: Library, lists: Lists, p: Principle, a: Action, e: Enrichment, refs: seq<string>,
                         truth: Leaf -> bool)
    requires WellTyped(p, lists) && PrincipleRules(p).Ok? && p.kind == ActionKind
    requires InScope(p.appliesTo, a.actionType) && p.when.Some? ==>
               Reads(lib, lists, DocumentOf(lib, a, e, refs), p.when.value, truth)
    ensures RuleMatches(lib, lists, DocumentOf(lib, a, e, refs), PrincipleRules(p).value) <==>
            FiresFor(p, a.actionType, refs, truth)
  {
    hide Reads;
    var doc := DocumentOf(lib, a, e, refs);
    var disjuncts := if p.when.Some? then ToDnf(p.when.value, false) else [[]];
    var rules := PrincipleRules(p).value;
    ScopeIsExact(lib, lists, p, a, e, refs);
    forall i | 0 <= i < |disjuncts|
      ensures BodySucceeds(lib, lists, doc, rules[i]) <==>
              InScope(p.appliesTo, a.actionType) && SatConj(disjuncts[i], truth)
    {
      OrTrueSucceeds(lib, lists, doc, ScopeBody(p) + LowerDisjunct(disjuncts[i]));
      BodyAppend(lib, lists, doc, ScopeBody(p), LowerDisjunct(disjuncts[i]));
      if InScope(p.appliesTo, a.actionType) && p.when.Some? {
        DisjunctIsExact(lib, lists, p, a, e, refs, truth, disjuncts[i]);
      }
    }
    if p.when.Some? {
      DnfMeansTree(p.when.value, false, truth);
    } else {
      assert SatConj(disjuncts[0], truth);
    }
  }

  /**
   * Meaning is preserved: for a schema-valid principle and any document, some emitted rule body succeeds
   * under Rego's undefined-aware semantics exactly when the principle fires in two-valued logic.
   */
  lemma CompiledPrincipleFires(lib: Library, lists: Lists, p: Principle, a: Action, e: Enrichment, refs: seq<string>)
    requires ValidPrinciple(p, lists) && PrincipleRules(p).Ok?
    ensures var doc := BuildPolicyInput(lib, a, e, refs);
            doc.Some? ==> (RuleMatches(lib, lists, doc.value, PrincipleRules(p).value) <==>
                           Fires(lib, lists, p, a, e, refs))
  {
    hide RuleMatches, PrincipleRules, TreeHolds;
    var truth := (leaf: Leaf) => LeafHolds(lib, lists, leaf, FieldValue(lib, a, e, leaf.field));
    if InScope(p.appliesTo, a.actionType) && p.when.Some? {
      forall leaf | leaf in Leaves(p.when.value)
        ensures var doc := DocumentOf(lib, a, e, refs);
                leaf.field in doc.fields && truth(leaf) == LeafHolds(lib, lists, leaf, doc.fields[leaf.field])
      {
        assert ValidLeaf(leaf) && LeafScoped(p.appliesTo, leaf);
        FieldsArePresent(lib, a, e, refs, leaf.field);
      }
    }
    RulesMatch(lib, lists, p, a, e, refs, truth);
  }

  // ----- why a field is only used in its scope -----

  predicate ReadsOnly(p: Principle, f: Field) {
    p.when.Some? ==> forall leaf :: leaf in Leaves(p.when.value) ==> leaf.field == f
  }

  /** The rules of every well-typed principle on field f alone match exactly when it fires with f standing for v. */
  ghost predicate StandsFor(lib: Library, lists: Lists, a: Action, e: Enrichment, refs: seq<string>,
                            f: Field, v: Value)
  {
    forall p :: WellTyped(p, lists) && PrincipleRules(p).Ok? && ReadsOnly(p, f) ==>
      (RuleMatches(lib, lists, DocumentOf(lib, a, e, refs), PrincipleRules(p).value) <==>
       FiresFor(p, a.actionType, refs, (leaf: Leaf) => LeafHolds(lib, lists, leaf, v)))
  }

  /**
   * The schema's field-scope check is needed exactly where it applies. On an action some value makes the
   * rules on a text field two-valued if and only if the field is scoped to the action's type; out of its
   * scope every value is contradicted by a principle that only the scope check refuses.
   */
  lemma ScopeCheckNeededExactly(lib: Library, lists: Lists, a: Action, e: Enrichment, refs: seq<string>, f: Field)
    requires FieldTypeOf(f) == Some(TextField)
    ensures (exists v :: StandsFor(lib, lists, a, e, refs, f, v)) <==> InScope(FieldScopeOf(f), a.actionType)
  {
    hide StandsFor;
    FieldsArePresent(lib, a, e, refs, f);
    if InScope(FieldScopeOf(f), a.actionType) {
      PresentFieldStands(lib, lists, a, e, refs, f);
    } else {
      forall v ensures !StandsFor(lib, lists, a, e, refs, f, v) {
        AbsentFieldStandsForNothing(lib, lists, a, e, refs, f, v);
      }
    }
  }

  lemma PresentFieldStands(lib: Library, lists: Lists, a: Action, e: Enrichment, refs: seq<string>, f: Field)
    requires f in DocumentOf(lib, a, e, refs).fields
    ensures StandsFor(lib, lists, a, e, refs, f, DocumentOf(lib, a, e, refs).fields[f])
  {
    hide RuleMatches, PrincipleRules, FiresFor, WellTyped;
    var v := DocumentOf(lib, a, e, refs).fields[f];
    var truth := (leaf: Leaf) => LeafHolds(lib, lists, leaf, v);
    forall p | WellTyped(p, lists) && PrincipleRules(p).Ok? && ReadsOnly(p, f)
      ensures RuleMatches(lib, lists, DocumentOf(lib, a, e, refs), PrincipleRules(p).value) <==>
              FiresFor(p, a.actionType, refs, truth)
    {
      RulesMatch(lib, lists, p, a, e, refs, truth);
    }
  }

  /** A principle on every action type with a one-leaf condition. */
  function Testing(leaf: Leaf): Principle {
    Principle("1", "title", "statement", ActionKind, AllTypes, Warn, Some(Test(leaf)), None, [], [])
  }

  lemma TestingFires(leaf: Leaf, t: ActionType, refs: seq<string>, truth: Leaf -> bool)
    ensures FiresFor(Testing(leaf), t, refs, truth) <==> truth(leaf)
  {
  }

  /** Its one rule is the lowered leaf. */
  lemma TestingMatches(lib: Library, lists: Lists, doc: Document, leaf: Leaf)
    ensures PrincipleRules(Testing(leaf)).Ok?
    ensures RuleMatches(lib, lists, doc, PrincipleRules(Testing(leaf)).value) <==>
            Succeeds(lib, lists, doc, LowerLeaf(leaf, false))
  {
    hide LowerLeaf, Succeeds;
    var p := Testing(leaf);
    var rules := PrincipleRules(p).value;
    assert ToDnf(p.when.value, false) == [[(leaf, false)]];
    assert LowerDisjunct([(leaf, false)]) == [LowerLeaf(leaf, false)];
    assert |rules| == 1 && rules[0] == OrTrue(ScopeBody(p) + LowerDisjunct(ToDnf(p.when.value, false)[0]));
    assert rules[0] == [LowerLeaf(leaf, false)];
    assert BodySucceeds(lib, lists, doc, rules[0]) <==> Succeeds(lib, lists, doc, rules[0][0]);
  }

  /** On the absent field `not_in` succeeds whatever it lists, and `ne` fails whatever it compares with. */
  lemma AbsentFieldStandsForNothing(lib: Library, lists: Lists, a: Action, e: Enrichment, refs: seq<string>, f: Field,
                                    v: Value)
    requires FieldTypeOf(f) == Some(TextField) && f !in DocumentOf(lib, a, e, refs).fields
    ensures !StandsFor(lib, lists, a, e, refs, f, v)
  {
    hide PrincipleRules, RuleMatches, Succeeds, LowerLeaf, DocumentOf, FiresFor;
    var leaf := if v.Text? then Leaf(f, NotIn, Some(Items([v.s])), None) else Leaf(f, Ne, Some(Scalar(Text(""))), None);
    var doc := DocumentOf(lib, a, e, refs);
    AbsentFieldFiresNegations(lib, lists, doc, leaf, false);
    TestingMatches(lib, lists, doc, leaf);
    assert Leaves(Test(leaf)) == [leaf];
    assert WellTyped(Testing(leaf), lists) && ReadsOnly(Testing(leaf), f);
    assert LeafHolds(lib, lists, leaf, v) == !v.Text?;
    TestingFires(leaf, a.actionType, refs, (leaf: Leaf) => LeafHolds(lib, lists, leaf, v));
  }

  // ----- the whole constitution -----

  /** Rego's `matched` set: one entry per principle with a succeeding rule. */
  ghost function Matched(lib: Library, lists: Lists, doc: Document, ps: set<Principle>): set<MatchedPrinciple>
    requires forall p :: p in ps ==> PrincipleRules(p).Ok?
  {
    set p | p in ps && RuleMatches(lib, lists, doc, PrincipleRules(p).value) :: MatchedPrinciple(p.id, p.effect)
  }

  /** The compiled result lists exactly the principles that fire, and reports no_match exactly when none does. */
  lemma CompiledConstitutionMatches(lib: Library, lists: Lists, ps: set<Principle>, a: Action, e: Enrichment,
                                    refs: seq<string>)
    requires forall p :: p in ps ==> ValidPrinciple(p, lists) && PrincipleRules(p).Ok?
    ensures var doc := BuildPolicyInput(lib, a, e, refs);
            doc.Some? ==>
            var matched := Matched(lib, lists, doc.value, ps);
            && (forall m :: m in matched <==>
                  exists p :: p in ps && Fires(lib, lists, p, a, e, refs) && m == MatchedPrinciple(p.id, p.effect))
            && (matched == {} <==> forall p :: p in ps ==> !Fires(lib, lists, p, a, e, refs))
  {
    var doc := BuildPolicyInput(lib, a, e, refs);
    if doc.Some? {
      hide RuleMatches, Fires, PrincipleRules;
      var matched := Matched(lib, lists, doc.value, ps);
      forall p | p in ps
        ensures RuleMatches(lib, lists, doc.value, PrincipleRules(p).value) <==> Fires(lib, lists, p, a, e, refs)
      {
        CompiledPrincipleFires(lib, lists, p, a, e, refs);
      }
      forall p | p in ps && Fires(lib, lists, p, a, e, refs) ensures MatchedPrinciple(p.id, p.effect) in matched {
      }
    }
  }

  // ----- the disjunct ceiling -----

  /** The number of disjuncts, read off the tree: branches add up under a disjunction, multiply under a conjunction. */
  function DisjunctCount(node: Node, negated: bool): nat
    decreases node, 1
  {
    match node
    case Test(_) => 1
    case Not(n) => DisjunctCount(n, !negated)
    case All(ns) => if negated then Sum(ns, true) else Product(ns, false)
    case Any(ns) => if negated then Product(ns, true) else Sum(ns, false)
  }

  function Sum(nodes: seq<Node>, negated: bool): nat
    decreases nodes, 0
  {
    if nodes == [] then 0 else DisjunctCount(nodes[0], negated) + Sum(nodes[1..], negated)
  }

  function Product(nodes: seq<Node>, negated: bool): nat
    decreases nodes, 0
  {
    if nodes == [] then 1 else DisjunctCount(nodes[0], negated) * Product(nodes[1..], negated)
  }

  lemma {:induction false} CrossSize(accs: Dnf, dnf: Dnf)
    ensures |Cross(accs, dnf)| == |accs| * |dnf|
  {
    if accs != [] {
      CrossSize(accs[1..], dnf);
      assert |accs| * |dnf| == |dnf| + |accs[1..]| * |dnf|;
    }
  }

  lemma {:induction false} DnfSize(node: Node, negated: bool)
    ensures |ToDnf(node, negated)| == DisjunctCount(node, negated)
    decreases node, 1
  {
    match node {
      case Test(_) =>
      case Not(n) =>
        DnfSize(n, !negated);
      case All(ns) =>
        SumSize(ns, negated);
        ProductSize([[]], ns, negated);
      case Any(ns) =>
        SumSize(ns, negated);
        ProductSize([[]], ns, negated);
    }
  }

  lemma {:induction false} SumSize(nodes: seq<Node>, negated: bool)
    ensures |Flatten(ChildDnfs(nodes, negated))| == Sum(nodes, negated)
    decreases nodes, 0
  {
    if nodes != [] {
      DnfSize(nodes[0], negated);
      SumSize(nodes[1..], negated);
    }
  }

  lemma {:induction false} ProductSize(acc: Dnf, nodes: seq<Node>, negated: bool)
    ensures |CrossFold(acc, ChildDnfs(nodes, negated))| == |acc| * Product(nodes, negated)
    decreases nodes, 0
  {
    if nodes != [] {
      DnfSize(nodes[0], negated);
      var first := ToDnf(nodes[0], negated);
      CrossSize(acc, first);
      assert ChildDnfs(nodes, negated)[1..] == ChildDnfs(nodes[1..], negated);
      ProductSize(Cross(acc, first), nodes[1..], negated);
      Regroup(|acc|, |first|, Product(nodes[1..], negated));
    }
  }

  lemma Regroup(a: nat, b: nat, c: nat)
    ensures (a * b) * c == a * (b * c)
  {
  }

  /** Compilation of a principle is refused exactly when its condition multiplies out past the ceiling. */
  lemma RefusedExactlyAboveCeiling(p: Principle)
    ensures PrincipleRules(p).Err? <==>
            p.kind == ActionKind && p.when.Some? && DisjunctCount(p.when.value, false) > MAX_DISJUNCTS
  {
    if p.when.Some? {
      DnfSize(p.when.value, false);
    }
  }
}
