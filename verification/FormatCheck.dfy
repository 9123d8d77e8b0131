/** FormatViolationScorer: the explicit-stack payload walk, against what it means for the payload tree. */
module FormatCheck {
  /** A payload value; keys are values too, since they are attacker-controlled. */
  datatype Node =
    | Dict(keys: seq<Node>, values: seq<Node>)
    | List(items: seq<Node>)
    | Text(s: string)
    | Other

  const MAX_VALUE_LEN: nat := 32768
  const MAX_DEPTH: nat := 8

  datatype Kind = ControlChars | OversizedValue | ExcessiveNesting

  function Children(n: Node): seq<Node> {
    match n
    case Dict(keys, values) => keys + values
    case List(items) => items
    case _ => []
  }

  predicate Forbidden(c: char) {
    c < ' ' && c != '\t' && c != '\n' && c != '\r'
  }

  predicate HasForbidden(s: string) {
    exists i :: 0 <= i < |s| && Forbidden(s[i])
  }

  /** What a node at an inspected depth shows by itself. */
  predicate Shows(k: Kind, n: Node) {
    match k
    case ControlChars => n.Text? && |n.s| <= MAX_VALUE_LEN && HasForbidden(n.s)
    case OversizedValue => n.Text? && |n.s| > MAX_VALUE_LEN
    case ExcessiveNesting => false
  }

  // ----- what the flags mean: paths into the tree -----

  /** The node a path of child positions leads to; the payload itself is at depth 1. */
  ghost predicate LeadsTo(root: Node, path: seq<nat>, n: Node)
    decreases |path|
  {
    if path == [] then n == root
    else path[0] < |Children(root)| && LeadsTo(Children(root)[path[0]], path[1..], n)
  }

  /** Some key or value lies deeper than the limit; or some string within it shows the anomaly. */
  ghost predicate Present(k: Kind, payload: Node) {
    exists path, n :: Witness(k, payload, path, n)
  }

  ghost predicate Witness(k: Kind, payload: Node, path: seq<nat>, n: Node) {
    LeadsTo(payload, path, n) &&
    if k == ExcessiveNesting then 1 + |path| > MAX_DEPTH else 1 + |path| <= MAX_DEPTH && Shows(k, n)
  }

  /** The flags of a single string: a control character other than tab, newline and return, or its length. */
  lemma FlagsOfText(s: string)
    ensures Present(OversizedValue, Text(s)) <==> |s| > 32768
    ensures Present(ControlChars, Text(s)) <==>
              |s| <= 32768 && exists i :: 0 <= i < |s| && s[i] as int < 32 && s[i] as int !in {9, 10, 13}
    ensures !Present(ExcessiveNesting, Text(s))
  {
    forall k, path, n | Witness(k, Text(s), path, n) ensures path == [] && n == Text(s) {
    }
    forall k ensures Present(k, Text(s)) <==> Witness(k, Text(s), [], Text(s)) {
    }
    assert forall i :: 0 <= i < |s| ==> (Forbidden(s[i]) <==> s[i] as int < 32 && s[i] as int !in {9, 10, 13});
  }

  // ----- the recursive walk -----

  /** The anomaly, found by a walk that stops below the depth limit. */
  ghost predicate Found(k: Kind, n: Node, depth: nat) {
    if depth > MAX_DEPTH then k == ExcessiveNesting
    else Shows(k, n) ||
         match n
         case Dict(keys, values) =>
           || (exists i :: 0 <= i < |keys| && Found(k, keys[i], depth + 1))
           || (exists i :: 0 <= i < |values| && Found(k, values[i], depth + 1))
         case List(items) => exists i :: 0 <= i < |items| && Found(k, items[i], depth + 1)
         case _ => false
  }

  lemma FoundUnfolds(k: Kind, n: Node, depth: nat)
    requires depth <= MAX_DEPTH
    ensures Found(k, n, depth) <==> Shows(k, n) ||
                                    exists i :: 0 <= i < |Children(n)| && Found(k, Children(n)[i], depth + 1)
  {
    match n {
      case Dict(keys, values) =>
        if i :| 0 <= i < |keys| && Found(k, keys[i], depth + 1) {
          assert Children(n)[i] == keys[i];
        }
        if i :| 0 <= i < |values| && Found(k, values[i], depth + 1) {
          assert Children(n)[|keys| + i] == values[i];
        }
        if i :| 0 <= i < |Children(n)| && Found(k, Children(n)[i], depth + 1) {
          if i < |keys| {
            assert Found(k, keys[i], depth + 1);
          } else {
            assert Found(k, values[i - |keys|], depth + 1);
          }
        }
      case List(items) =>
        assert Children(n) == items;
      case _ =>
    }
  }

  /** A walk that finds the anomaly below a node gives a path to it. */
  lemma {:induction false} FoundHasPath(k: Kind, n: Node, depth: nat) returns (path: seq<nat>, m: Node)
    requires Found(k, n, depth) && 1 <= depth <= MAX_DEPTH + 1
    ensures LeadsTo(n, path, m)
    ensures if k == ExcessiveNesting then depth + |path| > MAX_DEPTH else depth + |path| <= MAX_DEPTH && Shows(k, m)
    decreases MAX_DEPTH + 1 - depth
  {
    path, m := [], n;
    if depth <= MAX_DEPTH && !Shows(k, n) {
      FoundUnfolds(k, n, depth);
      var i :| 0 <= i < |Children(n)| && Found(k, Children(n)[i], depth + 1);
      var rest;
      rest, m := FoundHasPath(k, Children(n)[i], depth + 1);
      path := [i] + rest;
    }
  }

  lemma {:induction false} PathIsFound(k: Kind, n: Node, depth: nat, path: seq<nat>, m: Node)
    requires LeadsTo(n, path, m)
    requires if k == ExcessiveNesting then depth + |path| > MAX_DEPTH else depth + |path| <= MAX_DEPTH && Shows(k, m)
    ensures Found(k, n, depth)
    decreases |path|
  {
    if depth <= MAX_DEPTH {
      FoundUnfolds(k, n, depth);
      if path != [] {
        PathIsFound(k, Children(n)[path[0]], depth + 1, path[1..], m);
      }
    }
  }

  /** The pruned walk finds an anomaly exactly when the payload has one. */
  lemma WalkDecidesPresence(k: Kind, payload: Node)
    ensures Found(k, payload, 1) <==> Present(k, payload)
  {
    if Found(k, payload, 1) {
      var path, n := FoundHasPath(k, payload, 1);
      assert Witness(k, payload, path, n);
    }
    if path, n :| Witness(k, payload, path, n) {
      PathIsFound(k, payload, 1, path, n);
    }
  }

  // ----- the explicit stack -----

  type Entry = (Node, nat)

  ghost predicate Pending(k: Kind, stack: seq<Entry>) {
    exists j :: 0 <= j < |stack| && Found(k, stack[j].0, stack[j].1)
  }

  function Entries(nodes: seq<Node>, depth: nat): (r: seq<Entry>)
    ensures |r| == |nodes| && forall i :: 0 <= i < |nodes| ==> r[i] == (nodes[i], depth)
  {
    seq(|nodes|, i requires 0 <= i < |nodes| => (nodes[i], depth))
  }

  lemma PendingAppend(k: Kind, a: seq<Entry>, b: seq<Entry>)
    ensures Pending(k, a + b) <==> Pending(k, a) || Pending(k, b)
  {
    if j :| 0 <= j < |a| && Found(k, a[j].0, a[j].1) {
      assert (a + b)[j] == a[j];
    }
    if j :| 0 <= j < |b| && Found(k, b[j].0, b[j].1) {
      assert (a + b)[|a| + j] == b[j];
    }
  }

  lemma PendingEntries(k: Kind, ns: seq<Node>, depth: nat)
    ensures Pending(k, Entries(ns, depth)) <==> exists i :: 0 <= i < |ns| && Found(k, ns[i], depth)
  {
    hide Found;
    var es := Entries(ns, depth);
    if i :| 0 <= i < |ns| && Found(k, ns[i], depth) {
      assert Found(k, es[i].0, es[i].1);
    }
  }

  /** Replacing a node by its children keeps what is pending, apart from what the node itself shows. */
  lemma PendingStep(k: Kind, rest: seq<Entry>, n: Node, depth: nat)
    ensures Pending(k, rest + [(n, depth)]) <==> Pending(k, rest) || Found(k, n, depth)
    ensures depth > MAX_DEPTH ==> (Found(k, n, depth) <==> k == ExcessiveNesting)
    ensures depth <= MAX_DEPTH ==>
              (Pending(k, rest + Entries(Children(n), depth + 1)) || Shows(k, n) <==>
               Pending(k, rest) || Found(k, n, depth))
  {
    hide Shows;
    PendingAppend(k, rest, [(n, depth)]);
    assert Pending(k, [(n, depth)]) <==> Found(k, n, depth) by {
      assert [(n, depth)][0] == (n, depth);
    }
    if depth <= MAX_DEPTH {
      hide Found;
      FoundUnfolds(k, n, depth);
      PendingAppend(k, rest, Entries(Children(n), depth + 1));
      PendingEntries(k, Children(n), depth + 1);
    }
  }

  lemma StackStarts(payload: Node)
    ensures forall k :: Pending(k, [(payload, 1)]) <==> Found(k, payload, 1)
  {
    assert [(payload, 1)][0] == (payload, 1);
  }

  lemma StackEnds()
    ensures forall k :: !Pending(k, [])
  {
  }

  /** The number of nodes of a tree: what the stack holds shrinks by one node at every pop. */
  ghost function Size(n: Node): nat
    decreases n, 1
  {
    match n
    case Dict(keys, values) => 1 + Sizes(keys) + Sizes(values)
    case List(items) => 1 + Sizes(items)
    case _ => 1
  }

  ghost function Sizes(ns: seq<Node>): nat
    decreases ns, 0
  {
    if ns == [] then 0 else Size(ns[0]) + Sizes(ns[1..])
  }

  ghost function Load(stack: seq<Entry>): nat {
    if stack == [] then 0 else Load(stack[..|stack| - 1]) + Size(stack[|stack| - 1].0)
  }

  lemma {:induction false} LoadAppend(stack: seq<Entry>, ns: seq<Node>, depth: nat)
    ensures Load(stack + Entries(ns, depth)) == Load(stack) + Sizes(ns)
    decreases |ns|
  {
    if ns == [] {
      assert stack + Entries(ns, depth) == stack;
    } else {
      var first := stack + [(ns[0], depth)];
      assert first[..|stack|] == stack;
      LoadAppend(first, ns[1..], depth);
      assert stack + Entries(ns, depth) == first + Entries(ns[1..], depth);
    }
  }

  /** One pop: the children together are smaller than the node. */
  lemma LoadStep(rest: seq<Entry>, n: Node, depth: nat)
    ensures Load(rest) < Load(rest + [(n, depth)])
    ensures Load(rest + Entries(Children(n), depth + 1)) < Load(rest + [(n, depth)])
  {
    assert (rest + [(n, depth)])[..|rest|] == rest;
    LoadAppend(rest, Children(n), depth + 1);
    match n {
      case Dict(keys, values) => SizesAppend(keys, values);
      case _ =>
    }
  }

  lemma {:induction false} SizesAppend(xs: seq<Node>, ys: seq<Node>)
    ensures Sizes(xs + ys) == Sizes(xs) + Sizes(ys)
    decreases |xs|
  {
    if xs == [] {
      assert xs + ys == ys;
    } else {
      assert (xs + ys)[1..] == xs[1..] + ys;
      SizesAppend(xs[1..], ys);
    }
  }

  /** The scorer's walk: whatever order the stack visits, each flag is raised exactly when its anomaly is present. */
  method Walk(payload: Node) returns (controlChars: bool, oversized: bool, tooDeep: bool)
    ensures controlChars <==> Present(ControlChars, payload)
    ensures oversized <==> Present(OversizedValue, payload)
    ensures tooDeep <==> Present(ExcessiveNesting, payload)
  {
    hide Found, Present, Load, Pending;
    controlChars, oversized, tooDeep := false, false, false;
    var stack: seq<Entry> := [(payload, 1)];
    StackStarts(payload);
    while stack != []
      invariant controlChars || Pending(ControlChars, stack) <==> Found(ControlChars, payload, 1)
      invariant oversized || Pending(OversizedValue, stack) <==> Found(OversizedValue, payload, 1)
      invariant tooDeep || Pending(ExcessiveNesting, stack) <==> Found(ExcessiveNesting, payload, 1)
      decreases Load(stack)
    {
      var (n, depth) := stack[|stack| - 1];
      var rest := stack[..|stack| - 1];
      assert stack == rest + [(n, depth)];
      PendingStep(ControlChars, rest, n, depth);
      PendingStep(OversizedValue, rest, n, depth);
      PendingStep(ExcessiveNesting, rest, n, depth);
      LoadStep(rest, n, depth);
      stack := rest;
      if depth > MAX_DEPTH {
        tooDeep := true;
        continue;
      }
      match n {
        case Dict(keys, values) =>
          stack := rest + Entries(keys, depth + 1) + Entries(values, depth + 1);
        case List(items) =>
          stack := rest + Entries(items, depth + 1);
        case Text(s) =>
          if |s| > MAX_VALUE_LEN {
            oversized := true;
          } else if !controlChars && HasForbidden(s) {
            controlChars := true;
          }
        case Other =>
      }
      assert stack == rest + Entries(Children(n), depth + 1);
    }
    StackEnds();
    WalkDecidesPresence(ControlChars, payload);
    WalkDecidesPresence(OversizedValue, payload);
    WalkDecidesPresence(ExcessiveNesting, payload);
  }

  const FORMAT_RISK: real := 0.2

  /** The place of an anomaly in a finding. */
  function Place(k: Kind): nat {
    match k
    case ControlChars => 0
    case OversizedValue => 1
    case ExcessiveNesting => 2
  }

  /** The finding: the ids of the anomalies present, each once and in a fixed order, and the advisory score. */
  method Score(payload: Node) returns (matched: seq<Kind>, risk: real)
    ensures forall k :: k in matched <==> Present(k, payload)
    ensures forall i, j :: 0 <= i < j < |matched| ==> Place(matched[i]) < Place(matched[j])
    ensures risk == if (exists k :: Present(k, payload)) then FORMAT_RISK else 0.0
  {
    var controlChars, oversized, tooDeep := Walk(payload);
    matched := [];
    if controlChars {
      matched := matched + [ControlChars];
    }
    if oversized {
      matched := matched + [OversizedValue];
    }
    if tooDeep {
      matched := matched + [ExcessiveNesting];
    }
    risk := if matched != [] then FORMAT_RISK else 0.0;
    assert matched != [] ==> matched[0] in matched;
  }
}
