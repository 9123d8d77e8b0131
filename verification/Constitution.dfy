/** The Constitution schema, the policy-input document, and what a principle means. */
module Constitution {
  import opened Common
  import opened Contract

  datatype Value = Text(s: string) | Flag(b: bool) | Number(x: real)

  /** A leaf's authored value: one scalar, or a list of strings. */
  datatype LeafValue = Scalar(v: Value) | Items(items: seq<string>)

  datatype Op = Eq | Ne | In | NotIn | Prefix | Glob | Gte | Lte

  /** The dotted paths of the versioned policy-input registry, and any other path. */
  datatype Field =
    | Type | Target | IntentClass | GuardrailPii | GuardrailUnsafe | GuardrailFormat | SequenceMatchedRefs
    | EgressHost | MemoryOperation | MemoryKey | McpServer | McpTool | DelegationToAgent | ModelName
    | UnknownPath(path: string)

  datatype Leaf = Leaf(field: Field, op: Op, value: Option<LeafValue>, listRef: Option<string>)

  datatype Node = Test(leaf: Leaf) | All(nodes: seq<Node>) | Any(nodes: seq<Node>) | Not(node: Node)

  datatype Kind = ActionKind | SequenceKind

  datatype Scope = AllTypes | Only(types: seq<ActionType>)

  datatype Principle = Principle(
    id: string, title: string, statement: string, kind: Kind, appliesTo: Scope, effect: Outcome,
    when: Option<Node>, sequence: Option<seq<string>>, sideEffects: seq<string>, remediation: seq<string>)

  type Lists = map<string, seq<string>>

  // ----- the versioned field registry -----

  datatype FieldType = TextField | FlagField | NumberField | ListField

  /** The registered type of a policy-input path; None for an unknown path. */
  function FieldTypeOf(f: Field): Option<FieldType> {
    match f
    case UnknownPath(_) => None
    case SequenceMatchedRefs => Some(ListField)
    case GuardrailPii | GuardrailUnsafe | GuardrailFormat => Some(FlagField)
    case _ => Some(TextField)
  }

  /** The action types a path is scoped to; AllTypes when it is present for every one. */
  function FieldScopeOf(f: Field): Scope {
    match f
    case EgressHost => Only([ToolCall, McpCall])
    case MemoryOperation | MemoryKey => Only([MemoryAccess])
    case McpServer | McpTool => Only([McpCall])
    case DelegationToAgent => Only([Delegation])
    case ModelName => Only([ModelInvocation])
    case _ => AllTypes
  }

  predicate InScope(s: Scope, t: ActionType) {
    s.AllTypes? || t in s.types
  }

  // ----- validation -----

  predicate ScalarOfType(v: LeafValue, t: FieldType) {
    v.Scalar? &&
    match t
    case TextField => v.v.Text?
    case FlagField => v.v.Flag?
    case NumberField => v.v.Number?
    case ListField => false
  }

  /** Leaf._validate_leaf. */
  predicate ValidLeaf(leaf: Leaf) {
    && FieldTypeOf(leaf.field).Some?
    && (leaf.value.None? <==> leaf.listRef.Some?)
    && (leaf.listRef.Some? ==> leaf.op in {In, NotIn})
    && var t := FieldTypeOf(leaf.field).value;
       match leaf.op
       case Prefix | Glob => t == TextField && leaf.value.Some? && ScalarOfType(leaf.value.value, TextField)
       case Gte | Lte => t == NumberField && leaf.value.Some? && ScalarOfType(leaf.value.value, NumberField)
       case Eq | Ne => leaf.value.Some? && ScalarOfType(leaf.value.value, t)
       case In | NotIn => t == TextField && (leaf.value.Some? ==> leaf.value.value.Items?)
  }

  function Leaves(node: Node): seq<Leaf>
    decreases node, 1
  {
    match node
    case Test(leaf) => [leaf]
    case Not(n) => Leaves(n)
    case All(ns) => LeavesOf(ns)
    case Any(ns) => LeavesOf(ns)
  }

  function LeavesOf(nodes: seq<Node>): seq<Leaf>
    decreases nodes, 0
  {
    if nodes == [] then [] else Leaves(nodes[0]) + LeavesOf(nodes[1..])
  }

  function Depth(node: Node): nat
    decreases node, 1
  {
    match node
    case Test(_) => 0
    case Not(n) => 1 + Depth(n)
    case All(ns) => 1 + MaxDepth(ns)
    case Any(ns) => 1 + MaxDepth(ns)
  }

  function MaxDepth(nodes: seq<Node>): nat
    decreases nodes, 0
  {
    if nodes == [] then 0
    else
      var first, rest := Depth(nodes[0]), MaxDepth(nodes[1..]);
      if first > rest then first else rest
  }

  const MAX_DEPTH: nat := 3

  /** Principle._field_scope for one leaf: applies_to lies inside the field's own scope. */
  predicate LeafScoped(appliesTo: Scope, leaf: Leaf) {
    var allowed := FieldScopeOf(leaf.field);
    allowed.AllTypes? || (appliesTo.Only? && forall t :: t in appliesTo.types ==> t in allowed.types)
  }

  /** What the schema demands of a principle beside the scope of its fields, given the names of the lists. */
  predicate WellTyped(p: Principle, lists: Lists) {
    && Authorable(p.effect)
    && (p.kind == SequenceKind ==> p.sequence.Some? && |p.sequence.value| >= 2 && p.when.None?)
    && (p.kind == ActionKind ==> p.sequence.None?)
    && (p.when.Some? ==>
          && Depth(p.when.value) <= MAX_DEPTH
          && forall leaf :: leaf in Leaves(p.when.value) ==>
               && ValidLeaf(leaf)
               && (leaf.listRef.Some? ==> leaf.listRef.value in lists))
  }

  predicate ValidPrinciple(p: Principle, lists: Lists) {
    && WellTyped(p, lists)
    && (p.when.Some? ==> forall leaf :: leaf in Leaves(p.when.value) ==> LeafScoped(p.appliesTo, leaf))
  }

  // ----- actions and the policy-input document -----

  datatype Action = Action(actionType: ActionType, target: string, payload: map<string, Json>)

  datatype Enrichment = Enrichment(intentClass: Option<string>, pii: bool, unsafe: bool, format: bool)

  /**
   * Uninterpreted library calls: urlsplit().hostname, which may raise; str() of a payload value that is
   * no string; Rego's glob.match; and OPA's order on terms.
   */
  datatype Library = Library(
    hostname: Json -> Result<Option<string>, ()>, str: Json -> string,
    glob: (string, string) -> bool, order: (Value, Value) -> int)

  function TypeName(t: ActionType): string {
    match t
    case ToolCall => "tool_call"
    case MemoryAccess => "memory_access"
    case McpCall => "mcp_call"
    case ModelInvocation => "model_invocation"
    case Delegation => "delegation"
  }

  /** `str(payload.get(key, ""))`. */
  function PayloadText(lib: Library, a: Action, key: string): string {
    if key !in a.payload then ""
    else if a.payload[key].Str? then a.payload[key].s
    else lib.str(a.payload[key])
  }

  function Url(a: Action): Json {
    if "url" in a.payload then a.payload["url"] else Str("")
  }

  /** The host an action's URL stands for: empty when it has none or cannot be parsed. */
  function Host(lib: Library, a: Action): string {
    var host := lib.hostname(Url(a));
    if host.Ok? && host.value.Some? then host.value.value else ""
  }

  /** The document of this action type holds the host, and parsing the URL raises. */
  predicate UrlRaises(lib: Library, a: Action) {
    a.actionType in {ToolCall, McpCall} && lib.hostname(Url(a)).Err?
  }

  /** The input document: scalar fields by dotted path, and the matched sequence refs. */
  datatype Document = Document(fields: map<Field, Value>, matchedRefs: seq<string>)

  function CommonFields(a: Action, e: Enrichment): map<Field, Value> {
    map[Type := Text(TypeName(a.actionType)),
        Target := Text(a.target),
        IntentClass := Text(if e.intentClass.Some? then e.intentClass.value else ""),
        GuardrailPii := Flag(e.pii),
        GuardrailUnsafe := Flag(e.unsafe),
        GuardrailFormat := Flag(e.format)]
  }

  function ScopedFields(lib: Library, a: Action): map<Field, Value> {
    match a.actionType
    case ToolCall => map[EgressHost := Text(Host(lib, a))]
    case McpCall => map[McpServer := Text(PayloadText(lib, a, "server")),
                        McpTool := Text(PayloadText(lib, a, "tool")),
                        EgressHost := Text(Host(lib, a))]
    case MemoryAccess => map[MemoryOperation := Text(PayloadText(lib, a, "operation")),
                             MemoryKey := Text(PayloadText(lib, a, "key"))]
    case Delegation => map[DelegationToAgent := Text(PayloadText(lib, a, "to_agent"))]
    case ModelInvocation => map[ModelName := Text(PayloadText(lib, a, "model"))]
  }

  function DocumentOf(lib: Library, a: Action, e: Enrichment, refs: seq<string>): Document {
    Document(CommonFields(a, e) + ScopedFields(lib, a), refs)
  }

  /** build_policy_input: None when it raises. */
  function BuildPolicyInput(lib: Library, a: Action, e: Enrichment, refs: seq<string>): Option<Document> {
    if UrlRaises(lib, a) then None else Some(DocumentOf(lib, a, e, refs))
  }

  // ----- what a principle means -----

  /** The value a scalar field stands for, read off the action itself. */
  function FieldValue(lib: Library, a: Action, e: Enrichment, f: Field): Value {
    match f
    case Type => Text(TypeName(a.actionType))
    case Target => Text(a.target)
    case IntentClass => Text(if e.intentClass.Some? then e.intentClass.value else "")
    case GuardrailPii => Flag(e.pii)
    case GuardrailUnsafe => Flag(e.unsafe)
    case GuardrailFormat => Flag(e.format)
    case EgressHost => Text(Host(lib, a))
    case MemoryOperation => Text(PayloadText(lib, a, "operation"))
    case MemoryKey => Text(PayloadText(lib, a, "key"))
    case McpServer => Text(PayloadText(lib, a, "server"))
    case McpTool => Text(PayloadText(lib, a, "tool"))
    case DelegationToAgent => Text(PayloadText(lib, a, "to_agent"))
    case ModelName => Text(PayloadText(lib, a, "model"))
    case _ => Text("")
  }

  predicate Member(lists: Lists, leaf: Leaf, v: Value) {
    v.Text? &&
    if leaf.listRef.Some? then leaf.listRef.value in lists && v.s in lists[leaf.listRef.value]
    else leaf.value.Some? && leaf.value.value.Items? && v.s in leaf.value.value.items
  }

  /** The one scalar a comparison leaf was authored with. */
  function ScalarOperand(leaf: Leaf): Option<Value> {
    if leaf.value.Some? && leaf.value.value.Scalar? then Some(leaf.value.value.v) else None
  }

  predicate TextPair(v: Value, w: Option<Value>) {
    v.Text? && w.Some? && w.value.Text?
  }

  /** Two-valued truth of a leaf of its field's value. */
  predicate LeafHolds(lib: Library, lists: Lists, leaf: Leaf, v: Value) {
    var w := ScalarOperand(leaf);
    match leaf.op
    case In => Member(lists, leaf, v)
    case NotIn => !Member(lists, leaf, v)
    case Eq => w.Some? && v == w.value
    case Ne => w.Some? && v != w.value
    case Prefix => TextPair(v, w) && w.value.s <= v.s
    case Glob => TextPair(v, w) && lib.glob(w.value.s, v.s)
    case Gte => w.Some? && lib.order(v, w.value) >= 0
    case Lte => w.Some? && lib.order(v, w.value) <= 0
  }

  /** Two-valued truth of a condition tree, given the truth of its leaves. */
  ghost predicate TreeHolds(node: Node, truth: Leaf -> bool) {
    match node
    case Test(leaf) => truth(leaf)
    case Not(n) => !TreeHolds(n, truth)
    case All(ns) => forall i :: 0 <= i < |ns| ==> TreeHolds(ns[i], truth)
    case Any(ns) => exists i :: 0 <= i < |ns| && TreeHolds(ns[i], truth)
  }

  ghost predicate ConditionHolds(lib: Library, lists: Lists, a: Action, e: Enrichment, node: Node) {
    TreeHolds(node, (leaf: Leaf) => LeafHolds(lib, lists, leaf, FieldValue(lib, a, e, leaf.field)))
  }

  /** Membership leaves: in the authored items, or in the named list when there is one; only text is ever a member. */
  lemma MembershipMeans(lib: Library, lists: Lists, f: Field, items: seq<string>, name: string, v: Value)
    ensures LeafHolds(lib, lists, Leaf(f, In, Some(Items(items)), None), v) <==> v.Text? && v.s in items
    ensures LeafHolds(lib, lists, Leaf(f, NotIn, Some(Items(items)), None), v) <==> !(v.Text? && v.s in items)
    ensures name in lists ==>
              && (LeafHolds(lib, lists, Leaf(f, In, None, Some(name)), v) <==> v.Text? && v.s in lists[name])
              && (LeafHolds(lib, lists, Leaf(f, NotIn, None, Some(name)), v) <==> !(v.Text? && v.s in lists[name]))
  {
  }

  /**
   * What the payload fields stand for: a string as it is, another value as str() gives it, nothing for a
   * missing one; and of a URL its host, or nothing when it has none or cannot be parsed.
   */
  lemma PayloadFieldsRead(lib: Library, a: Action, e: Enrichment)
    ensures forall f, key :: (f, key) in {(MemoryOperation, "operation"), (MemoryKey, "key"), (McpServer, "server"),
                                          (McpTool, "tool"), (DelegationToAgent, "to_agent"), (ModelName, "model")} ==>
              FieldValue(lib, a, e, f) ==
              Text(if key !in a.payload then ""
                   else match a.payload[key] case Str(s) => s case other => lib.str(other))
    ensures FieldValue(lib, a, e, EgressHost) ==
            Text(match lib.hostname(if "url" in a.payload then a.payload["url"] else Str(""))
                 case Ok(Some(host)) => host
                 case _ => "")
  {
  }

  /** The principle applies to the action's type and its condition (or sequence) is met. */
  ghost predicate Fires(lib: Library, lists: Lists, p: Principle, a: Action, e: Enrichment, refs: seq<string>) {
    && InScope(p.appliesTo, a.actionType)
    && match p.kind
       case SequenceKind => p.id in refs
       case ActionKind => p.when.Some? ==> ConditionHolds(lib, lists, a, e, p.when.value)
  }

  lemma FieldsArePresent(lib: Library, a: Action, e: Enrichment, refs: seq<string>, f: Field)
    requires FieldTypeOf(f).Some? && FieldTypeOf(f) != Some(ListField)
    ensures var doc := DocumentOf(lib, a, e, refs);
            && (f in doc.fields <==> InScope(FieldScopeOf(f), a.actionType))
            && (f in doc.fields ==> doc.fields[f] == FieldValue(lib, a, e, f))
  {
    hide Host, PayloadText, TypeName, FieldValue, FieldScopeOf;
    CommonFieldsAre(a, e, lib, f);
    ScopedFieldsAre(lib, a, e, f);
  }

  lemma CommonFieldsAre(a: Action, e: Enrichment, lib: Library, f: Field)
    requires FieldTypeOf(f).Some? && FieldTypeOf(f) != Some(ListField)
    ensures f in CommonFields(a, e) <==> FieldScopeOf(f).AllTypes?
    ensures f in CommonFields(a, e) ==> CommonFields(a, e)[f] == FieldValue(lib, a, e, f)
  {
    hide Host, PayloadText, TypeName;
  }

  lemma ScopedFieldsAre(lib: Library, a: Action, e: Enrichment, f: Field)
    ensures f in ScopedFields(lib, a) <==> FieldScopeOf(f).Only? && a.actionType in FieldScopeOf(f).types
    ensures f in ScopedFields(lib, a) ==> ScopedFields(lib, a)[f] == FieldValue(lib, a, e, f)
  {
    hide Host, PayloadText, TypeName;
  }

  /**
   * A document is missing exactly when it would hold the host of a URL whose parsing raises. In a document,
   * every field is present, with the value it stands for, for exactly the types it is scoped to.
   */
  lemma DocumentIsTotal(lib: Library, a: Action, e: Enrichment, refs: seq<string>, f: Field)
    requires FieldTypeOf(f).Some? && FieldTypeOf(f) != Some(ListField)
    ensures var doc := BuildPolicyInput(lib, a, e, refs);
            && (doc.None? <==> InScope(FieldScopeOf(EgressHost), a.actionType) && lib.hostname(Url(a)).Err?)
            && (doc.Some? ==> (f in doc.value.fields <==> InScope(FieldScopeOf(f), a.actionType)))
            && (doc.Some? && f in doc.value.fields ==> doc.value.fields[f] == FieldValue(lib, a, e, f))
  {
    hide DocumentOf;
    FieldsArePresent(lib, a, e, refs, f);
  }
}
