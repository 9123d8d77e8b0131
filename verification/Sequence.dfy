/** SequenceCorrelator: bounded windows of intent classes, matched against declared sequences. */
module Sequence {
  import opened Common
  import opened Sorting

  // ----- the iterator-consuming test -----

  /** `cls in it`: what is left of the iterator after the first cls, or None when it runs out. */
  function After(cls: string, it: seq<string>): Option<seq<string>> {
    if it == [] then None else if it[0] == cls then Some(it[1..]) else After(cls, it[1..])
  }

  /** `all(cls in it for cls in needle)` over one shared iterator. */
  predicate OrderedSubsequence(needle: seq<string>, it: seq<string>) {
    needle == [] ||
    var rest := After(needle[0], it);
    rest.Some? && OrderedSubsequence(needle[1..], rest.value)
  }

  /** f places needle in haystack, each element strictly after the one before. */
  ghost predicate Embedding(f: seq<nat>, needle: seq<string>, haystack: seq<string>) {
    && |f| == |needle|
    && (forall i :: 0 <= i < |f| ==> f[i] < |haystack| && haystack[f[i]] == needle[i])
    && (forall i, j :: 0 <= i < j < |f| ==> f[i] < f[j])
  }

  ghost predicate Embeds(needle: seq<string>, haystack: seq<string>) {
    exists f :: Embedding(f, needle, haystack)
  }

  /** The iterator stops right after the first occurrence. */
  lemma {:induction false} AfterFirst(cls: string, it: seq<string>) returns (k: nat)
    ensures After(cls, it).None? <==> cls !in it
    ensures cls in it ==> k < |it| && it[k] == cls && After(cls, it) == Some(it[k + 1..])
    ensures k <= |it| && forall p :: 0 <= p < k ==> it[p] != cls
  {
    if it == [] || it[0] == cls {
      k := 0;
    } else {
      k := AfterFirst(cls, it[1..]);
      assert it == [it[0]] + it[1..];
      k := k + 1;
    }
  }

  lemma {:induction false} TestFindsEmbedding(needle: seq<string>, it: seq<string>) returns (f: seq<nat>)
    requires OrderedSubsequence(needle, it)
    ensures Embedding(f, needle, it)
  {
    if needle == [] {
      f := [];
    } else {
      var k := AfterFirst(needle[0], it);
      var g := TestFindsEmbedding(needle[1..], it[k + 1..]);
      f := [k] + seq(|g|, i requires 0 <= i < |g| => g[i] + k + 1);
    }
  }

  lemma {:induction false} EmbeddingPasses(f: seq<nat>, needle: seq<string>, it: seq<string>)
    requires Embedding(f, needle, it)
    ensures OrderedSubsequence(needle, it)
    decreases |needle|
  {
    if needle != [] {
      var k := AfterFirst(needle[0], it);
      assert it[f[0]] == needle[0];
      var g: seq<nat> := seq(|f| - 1, i requires 0 <= i < |f| - 1 => f[i + 1] - (k + 1));
      EmbeddingPasses(g, needle[1..], it[k + 1..]);
    }
  }

  /** The consuming test decides the existence of a strictly increasing embedding. */
  lemma TestDecidesEmbedding(needle: seq<string>, haystack: seq<string>)
    ensures OrderedSubsequence(needle, haystack) <==> Embeds(needle, haystack)
  {
    if OrderedSubsequence(needle, haystack) {
      var f := TestFindsEmbedding(needle, haystack);
    }
    if f :| Embedding(f, needle, haystack) {
      EmbeddingPasses(f, needle, haystack);
    }
  }

  // ----- the correlator -----

  /** One compiled sequence principle. */
  datatype Declared = Declared(principleRef: string, classes: seq<string>)

  /** An OrderedDict of windows: the map, and its keys in insertion order. */
  datatype Table = Table(windows: map<string, seq<string>>, order: seq<string>)

  datatype Bounds = Bounds(window: nat, maxConversations: nat)

  function LastN<T>(s: seq<T>, n: nat): seq<T> {
    if |s| <= n then s else s[|s| - n..]
  }

  predicate Tagged(cls: Option<string>) {
    cls.Some? && cls.value != ""
  }

  /** `popitem(last=False)` until the table is within its bound. */
  function Evict(t: Table, limit: nat): Table
    decreases |t.order|
  {
    if |t.order| <= limit then t else Evict(Table(t.windows - {t.order[0]}, t.order[1..]), limit)
  }

  predicate Completes(d: Declared, cls: string, prior: seq<string>) {
    && d.classes != []
    && d.classes[|d.classes| - 1] == cls
    && OrderedSubsequence(d.classes[..|d.classes| - 1], prior)
  }

  function MatchedRefs(declared: seq<Declared>, cls: string, prior: seq<string>): seq<string> {
    if declared == [] then []
    else
      (if Completes(declared[0], cls, prior) then [declared[0].principleRef] else []) +
      MatchedRefs(declared[1..], cls, prior)
  }

  function WindowOf(t: Table, key: string): seq<string> {
    if key in t.windows then t.windows[key] else []
  }

  function ObserveStep(b: Bounds, t: Table, key: string, cls: Option<string>): Table {
    if !Tagged(cls) then t
    else
      var added :=
        if key in t.windows then t else Evict(Table(t.windows[key := []], t.order + [key]), b.maxConversations);
      if key in added.windows then
        added.(windows := added.windows[key := LastN(WindowOf(t, key) + [cls.value], b.window)])
      else added
  }

  function ObserveRefs(t: Table, key: string, cls: Option<string>, declared: seq<Declared>): seq<string> {
    if !Tagged(cls) then [] else Sort(CodePoints, MatchedRefs(declared, cls.value, WindowOf(t, key)))
  }

  ghost predicate ValidTable(b: Bounds, t: Table) {
    && (forall k :: k in t.windows <==> k in t.order)
    && NoDuplicates(t.order)
    && |t.order| <= b.maxConversations
  }

  class SequenceCorrelator {
    const bounds: Bounds
    var windows: map<string, seq<string>>
    var order: seq<string>

    ghost function Contents(): Table
      reads this
    {
      Table(windows, order)
    }

    constructor (window: nat, maxConversations: nat)
      ensures bounds == Bounds(window, maxConversations) && Contents() == Table(map[], [])
      ensures ValidTable(bounds, Contents())
    {
      bounds := Bounds(window, maxConversations);
      windows, order := map[], [];
    }

    method Observe(key: string, cls: Option<string>, declared: seq<Declared>) returns (refs: seq<string>)
      requires ValidTable(bounds, Contents())
      modifies this
      ensures ValidTable(bounds, Contents())
      ensures Contents() == ObserveStep(bounds, old(Contents()), key, cls)
      ensures refs == ObserveRefs(old(Contents()), key, cls, declared)
    {
      StepKeepsValid(bounds, Contents(), key, cls);
      if !Tagged(cls) {
        return [];
      }
      var prior := if key in windows then windows[key] else [];
      if key !in windows {
        windows, order := windows[key := []], order + [key];
        ghost var added := Contents();
        while |order| > bounds.maxConversations
          invariant Evict(Contents(), bounds.maxConversations) == Evict(added, bounds.maxConversations)
          decreases |order|
        {
          windows, order := windows - {order[0]}, order[1..];
        }
      }
      refs := Sort(CodePoints, MatchedRefs(declared, cls.value, prior));
      if key in windows {
        windows := windows[key := LastN(prior + [cls.value], bounds.window)];
      }
    }
  }

  lemma {:induction false} EvictKeepsKeys(t: Table, limit: nat)
    requires (forall k :: k in t.windows <==> k in t.order) && NoDuplicates(t.order)
    ensures var e := Evict(t, limit);
            && (forall k :: k in e.windows <==> k in e.order)
            && NoDuplicates(e.order)
            && |e.order| <= limit
            && (forall k :: k in e.windows ==> k in t.windows && e.windows[k] == t.windows[k])
    decreases |t.order|
  {
    if |t.order| > limit {
      var next := Table(t.windows - {t.order[0]}, t.order[1..]);
      assert t.order == [t.order[0]] + t.order[1..];
      EvictKeepsKeys(next, limit);
    }
  }

  /**
   * A tagged observation: its class is the newest of its key's window, which is cut to the last `window`; a new
   * key goes last, and pushes out the oldest one when the table is full; every other window stays as it is.
   */
  lemma ObserveExactly(b: Bounds, t: Table, key: string, cls: Option<string>)
    requires ValidTable(b, t) && Tagged(cls) && b.maxConversations >= 1
    ensures var next := ObserveStep(b, t, key, cls);
            && key in next.windows
            && (var seen := (if key in t.windows then t.windows[key] else []) + [cls.value];
                next.windows[key] == if |seen| <= b.window then seen else seen[|seen| - b.window..])
            && next.order == (if key in t.windows then t.order
                              else if |t.order| < b.maxConversations then t.order + [key]
                              else t.order[1..] + [key])
            && (forall k :: k in next.windows && k != key ==> k in t.windows && next.windows[k] == t.windows[k])
            && (forall k :: k in t.windows ==>
                  (k in next.windows <==>
                   key in t.windows || |t.order| < b.maxConversations || k != t.order[0]))
  {
    if key !in t.windows {
      var grown := Table(t.windows[key := []], t.order + [key]);
      if |t.order| < b.maxConversations {
        assert Evict(grown, b.maxConversations) == grown;
      } else {
        var cut := Table(grown.windows - {grown.order[0]}, grown.order[1..]);
        assert Evict(grown, b.maxConversations) == Evict(cut, b.maxConversations) == cut;
        assert t.order[0] in t.order && cut.order == t.order[1..] + [key];
      }
    }
  }

  /** An untagged observation changes nothing and matches nothing. */
  lemma UntaggedIsIgnored(b: Bounds, t: Table, key: string, cls: Option<string>, declared: seq<Declared>)
    requires cls.None? || cls.value == ""
    ensures ObserveStep(b, t, key, cls) == t && ObserveRefs(t, key, cls, declared) == []
  {
  }

  /** The table never exceeds its bound, and its key order never disagrees with its keys. */
  lemma StepKeepsValid(b: Bounds, t: Table, key: string, cls: Option<string>)
    requires ValidTable(b, t)
    ensures ValidTable(b, ObserveStep(b, t, key, cls))
  {
    if Tagged(cls) && key !in t.windows {
      EvictKeepsKeys(Table(t.windows[key := []], t.order + [key]), b.maxConversations);
    }
  }

  /** A ref is reported exactly for the declared sequences that end here and embed in the window before. */
  lemma RefsDecided(t: Table, key: string, cls: Option<string>, declared: seq<Declared>, ref: string)
    ensures ref in ObserveRefs(t, key, cls, declared) <==>
            && Tagged(cls)
            && exists d :: d in declared && d.principleRef == ref && d.classes != []
                        && d.classes[|d.classes| - 1] == cls.value
                        && Embeds(d.classes[..|d.classes| - 1], WindowOf(t, key))
  {
    if Tagged(cls) {
      var prior := WindowOf(t, key);
      var refs := MatchedRefs(declared, cls.value, prior);
      SortSorts(CodePoints, refs);
      assert ref in Sort(CodePoints, refs) <==> ref in multiset(Sort(CodePoints, refs));
      assert ref in refs <==> ref in multiset(refs);
      RefsAreCompleted(declared, cls.value, prior, ref);
      forall d | d in declared && d.classes != []
        ensures OrderedSubsequence(d.classes[..|d.classes| - 1], prior) <==>
                Embeds(d.classes[..|d.classes| - 1], prior)
      {
        TestDecidesEmbedding(d.classes[..|d.classes| - 1], prior);
      }
    }
  }

  lemma {:induction false} RefsAreCompleted(declared: seq<Declared>, cls: string, prior: seq<string>, ref: string)
    ensures ref in MatchedRefs(declared, cls, prior) <==>
            exists d :: d in declared && d.principleRef == ref && Completes(d, cls, prior)
  {
    if declared != [] {
      RefsAreCompleted(declared[1..], cls, prior, ref);
      assert declared == [declared[0]] + declared[1..];
    }
  }

  // ----- whole runs -----

  /** One observed action: its conversation key and intent class. */
  datatype Observation = Observation(key: string, cls: Option<string>)

  /** The table after the first n observations. */
  function RunTo(b: Bounds, obs: seq<Observation>, n: nat): Table
    requires n <= |obs|
  {
    if n == 0 then Table(map[], []) else ObserveStep(b, RunTo(b, obs, n - 1), obs[n - 1].key, obs[n - 1].cls)
  }

  /** The tagged classes observed under one key from observation i up to n, with no bound. */
  function History(obs: seq<Observation>, key: string, i: nat, n: nat): seq<string>
    requires i <= n <= |obs|
  {
    if n == i then []
    else
      History(obs, key, i, n - 1) +
      (if obs[n - 1].key == key && Tagged(obs[n - 1].cls) then [obs[n - 1].cls.value] else [])
  }

  lemma {:induction false} RunValid(b: Bounds, obs: seq<Observation>, n: nat)
    requires n <= |obs|
    ensures ValidTable(b, RunTo(b, obs, n))
  {
    if n > 0 {
      RunValid(b, obs, n - 1);
      StepKeepsValid(b, RunTo(b, obs, n - 1), obs[n - 1].key, obs[n - 1].cls);
    }
  }

  /** Observation i opened the window key still has after n: absent before i, present ever since. */
  ghost predicate OpenedAt(b: Bounds, obs: seq<Observation>, key: string, i: nat, n: nat)
    requires n <= |obs|
  {
    && i < n
    && obs[i].key == key && Tagged(obs[i].cls)
    && key !in RunTo(b, obs, i).windows
    && forall j :: i < j <= n ==> key in RunTo(b, obs, j).windows
  }

  lemma LastNGrows(s: seq<string>, x: string, n: nat)
    ensures LastN(LastN(s, n) + [x], n) == LastN(s + [x], n)
  {
  }

  /** What one observation does to one key's window. */
  lemma StepWindow(b: Bounds, t: Table, key: string, cls: Option<string>, k: string)
    requires ValidTable(b, t)
    ensures var next := ObserveStep(b, t, key, cls);
            k in next.windows ==>
              if k == key && Tagged(cls) then next.windows[k] == LastN(WindowOf(t, k) + [cls.value], b.window)
              else k in t.windows && next.windows[k] == t.windows[k]
  {
    if Tagged(cls) && key !in t.windows {
      EvictKeepsKeys(Table(t.windows[key := []], t.order + [key]), b.maxConversations);
    }
  }

  /**
   * After any run, every window in the table holds the last `window` tagged classes observed under its
   * key since the observation that opened it.
   */
  lemma {:induction false} WindowIsRecentHistory(b: Bounds, obs: seq<Observation>, n: nat, key: string)
    returns (i: nat)
    requires n <= |obs| && key in RunTo(b, obs, n).windows
    ensures OpenedAt(b, obs, key, i, n)
    ensures RunTo(b, obs, n).windows[key] == LastN(History(obs, key, i, n), b.window)
  {
    hide ObserveStep, ValidTable, LastN;
    var t := RunTo(b, obs, n - 1);
    var last := obs[n - 1];
    RunValid(b, obs, n - 1);
    StepWindow(b, t, last.key, last.cls, key);
    if key in t.windows {
      i := WindowIsRecentHistory(b, obs, n - 1, key);
      if last.key == key && Tagged(last.cls) {
        LastNGrows(History(obs, key, i, n - 1), last.cls.value, b.window);
      } else {
        assert History(obs, key, i, n) == History(obs, key, i, n - 1);
      }
    } else {
      i := n - 1;
      assert History(obs, key, i, n) == WindowOf(t, key) + [last.cls.value];
    }
  }

  lemma {:induction false} HistorySplit(obs: seq<Observation>, key: string, i: nat, n: nat)
    requires i <= n <= |obs|
    ensures History(obs, key, 0, n) == History(obs, key, 0, i) + History(obs, key, i, n)
  {
    if i < n {
      HistorySplit(obs, key, i, n - 1);
    }
  }

  /** Every window in the table is an end of its key's full history. */
  lemma WindowEndsHistory(b: Bounds, obs: seq<Observation>, n: nat, key: string) returns (head: seq<string>)
    requires n <= |obs|
    ensures History(obs, key, 0, n) == head + WindowOf(RunTo(b, obs, n), key)
  {
    var full := History(obs, key, 0, n);
    head := full;
    if key in RunTo(b, obs, n).windows {
      var i := WindowIsRecentHistory(b, obs, n, key);
      HistorySplit(obs, key, i, n);
      var recent := History(obs, key, i, n);
      var window := LastN(recent, b.window);
      head := History(obs, key, 0, i) + recent[..|recent| - |window|];
    }
  }

  /** An embedding into the end of a sequence, followed by one more element, embeds in the whole. */
  lemma EmbedsLater(needle: seq<string>, head: seq<string>, tail: seq<string>, x: string)
    requires Embeds(needle, tail)
    ensures Embeds(needle + [x], head + tail + [x])
  {
    var f :| Embedding(f, needle, tail);
    var g: seq<nat> := seq(|f|, i requires 0 <= i < |f| => f[i] + |head|) + [|head| + |tail|];
    assert Embedding(g, needle + [x], head + tail + [x]);
  }

  /** A reported match is never an artefact of the bounds: the sequence embeds in the key's full history. */
  lemma MatchHoldsOfFullHistory(b: Bounds, obs: seq<Observation>, n: nat, declared: seq<Declared>, ref: string)
    requires n < |obs| && ref in ObserveRefs(RunTo(b, obs, n), obs[n].key, obs[n].cls, declared)
    ensures exists d :: d in declared && d.principleRef == ref && Embeds(d.classes, History(obs, obs[n].key, 0, n + 1))
  {
    hide Embeds, RunTo, ObserveRefs, WindowOf;
    var key, cls := obs[n].key, obs[n].cls;
    RefsDecided(RunTo(b, obs, n), key, cls, declared, ref);
    var window := WindowOf(RunTo(b, obs, n), key);
    var d :| d in declared && d.principleRef == ref && d.classes != [] &&
             d.classes[|d.classes| - 1] == cls.value && Embeds(d.classes[..|d.classes| - 1], window);
    var head := WindowEndsHistory(b, obs, n, key);
    EmbedsLater(d.classes[..|d.classes| - 1], head, window, cls.value);
    assert d.classes == d.classes[..|d.classes| - 1] + [cls.value];
  }

  // ----- completeness: within the bounds no match is missed -----

  /** The keys with a tagged observation among the first n. */
  function SeenKeys(obs: seq<Observation>, n: nat): set<string>
    requires n <= |obs|
  {
    set i | 0 <= i < n && Tagged(obs[i].cls) :: obs[i].key
  }

  /** The windows are those of the keys seen. */
  ghost predicate AllSeen(obs: seq<Observation>, n: nat, t: Table)
    requires n <= |obs|
  {
    forall k :: k in SeenKeys(obs, n) <==> k in t.windows
  }

  lemma NoMoreThanKeys(t: Table, keys: set<string>)
    requires NoDuplicates(t.order) && forall k :: k in t.order ==> k in keys
    ensures |t.order| <= |keys|
    decreases |t.order|
  {
    if t.order != [] {
      var rest := Table(t.windows, t.order[1..]);
      forall k | k in rest.order ensures k in keys - {t.order[0]} {
        var i :| 0 <= i < |rest.order| && rest.order[i] == k;
        assert t.order[i + 1] == k;
      }
      NoMoreThanKeys(rest, keys - {t.order[0]});
    }
  }

  /** While no more conversations were seen than fit, every one has its window, of its whole recent history. */
  lemma {:induction false} NothingForgotten(b: Bounds, obs: seq<Observation>, n: nat, total: nat)
    requires n <= total <= |obs| && |SeenKeys(obs, total)| <= b.maxConversations
    ensures AllSeen(obs, n, RunTo(b, obs, n))
    ensures forall k :: WindowOf(RunTo(b, obs, n), k) == LastN(History(obs, k, 0, n), b.window)
  {
    hide ObserveStep, ValidTable, LastN;
    if n == 0 {
      EmptyLastN(b.window);
    } else {
      var t, last := RunTo(b, obs, n - 1), obs[n - 1];
      NothingForgotten(b, obs, n - 1, total);
      RunValid(b, obs, n - 1);
      assert forall k :: k in SeenKeys(obs, n) <==> k in SeenKeys(obs, n - 1) || (Tagged(last.cls) && k == last.key);
      if Tagged(last.cls) {
        KeysFit(b, obs, n, total);
        ObserveKeeps(b, t, last.key, last.cls);
        LastNGrows(History(obs, last.key, 0, n - 1), last.cls.value, b.window);
      } else {
        UntaggedIsIgnored(b, t, last.key, last.cls, []);
      }
      forall k ensures WindowOf(RunTo(b, obs, n), k) == LastN(History(obs, k, 0, n), b.window) {
        if !(k == last.key && Tagged(last.cls)) {
          assert History(obs, k, 0, n) == History(obs, k, 0, n - 1);
        }
      }
    }
  }

  lemma EmptyLastN(n: nat)
    ensures LastN<string>([], n) == []
  {
  }

  /** A key not seen before still has room. */
  lemma KeysFit(b: Bounds, obs: seq<Observation>, n: nat, total: nat)
    requires 0 < n <= total <= |obs| && |SeenKeys(obs, total)| <= b.maxConversations && Tagged(obs[n - 1].cls)
    requires AllSeen(obs, n - 1, RunTo(b, obs, n - 1))
    ensures b.maxConversations >= 1
    ensures obs[n - 1].key !in RunTo(b, obs, n - 1).windows ==> |RunTo(b, obs, n - 1).order| < b.maxConversations
  {
    hide RunTo;
    var t, key := RunTo(b, obs, n - 1), obs[n - 1].key;
    RunValid(b, obs, n - 1);
    assert key in SeenKeys(obs, total);
    if key !in t.windows {
      var others := SeenKeys(obs, total) - {key};
      forall k | k in t.order ensures k in others {
        assert k in SeenKeys(obs, n - 1);
      }
      NoMoreThanKeys(t, others);
    }
  }

  lemma ObserveKeeps(b: Bounds, t: Table, key: string, cls: Option<string>)
    requires ValidTable(b, t) && Tagged(cls) && b.maxConversations >= 1
    requires key !in t.windows ==> |t.order| < b.maxConversations
    ensures var next := ObserveStep(b, t, key, cls);
            && (forall k :: k in next.windows <==> k in t.windows || k == key)
            && (forall k :: WindowOf(next, k) ==
                            if k == key then LastN(WindowOf(t, k) + [cls.value], b.window) else WindowOf(t, k))
  {
    hide ObserveStep;
    ObserveExactly(b, t, key, cls);
  }

  /**
   * No match is missed within the bounds: while no more conversations were seen than fit, a declared sequence
   * that ends here and whose earlier steps embed in its key's last `window` tagged classes is reported.
   */
  lemma {:induction false} MatchIsReported(b: Bounds, obs: seq<Observation>, n: nat, declared: seq<Declared>,
                                           d: Declared)
    requires n < |obs| && Tagged(obs[n].cls) && |SeenKeys(obs, n)| <= b.maxConversations
    requires d in declared && d.classes != [] && d.classes[|d.classes| - 1] == obs[n].cls.value
    requires var past := History(obs, obs[n].key, 0, n);
             Embeds(d.classes[..|d.classes| - 1], if |past| <= b.window then past else past[|past| - b.window..])
    ensures d.principleRef in ObserveRefs(RunTo(b, obs, n), obs[n].key, obs[n].cls, declared)
  {
    hide RunTo, ObserveRefs, Embeds, History;
    NothingForgotten(b, obs, n, n);
    RefsDecided(RunTo(b, obs, n), obs[n].key, obs[n].cls, declared, d.principleRef);
  }
}
