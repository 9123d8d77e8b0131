/** CachingIdentityStage: a bounded TTL cache that must agree with the stage it wraps. */
module IdentityCache {
  import opened Common

  datatype Verdict = Verdict(ok: bool, detail: string, trust: real)

  /** (identity token, claimed agent id). */
  type Key = (Option<string>, string)

  datatype Entry = Entry(verdict: Verdict, expires: real)

  /** A Python dict: the map, and its keys in insertion order. */
  datatype Cache = Cache(entries: map<Key, Entry>, order: seq<Key>)

  datatype Config = Config(ttl: real, maxEntries: nat)

  const EMPTY: Cache := Cache(map[], [])

  predicate Hit(c: Cache, key: Key, now: real) {
    key in c.entries && c.entries[key].expires > now
  }

  function Without(order: seq<Key>, key: Key): seq<Key> {
    if order == [] then []
    else (if order[0] == key then [] else [order[0]]) + Without(order[1..], key)
  }

  function Drop(c: Cache, key: Key): Cache {
    if key in c.entries then Cache(c.entries - {key}, Without(c.order, key)) else c
  }

  /** Storing under a present key keeps its place in the order; a new key evicts the oldest when full. */
  function Store(cfg: Config, c: Cache, key: Key, entry: Entry): Cache {
    if key in c.entries then c.(entries := c.entries[key := entry])
    else
      var room :=
        if |c.order| >= cfg.maxEntries && c.order != [] then Cache(c.entries - {c.order[0]}, c.order[1..]) else c;
      Cache(room.entries[key := entry], room.order + [key])
  }

  /** What verify returns; None when the wrapped stage, or the eviction of an unusable zero-sized cache, raises. */
  function VerifyResult(cfg: Config, c: Cache, key: Key, now: real, answer: Option<Verdict>): Option<Verdict> {
    if Hit(c, key, now) then Some(c.entries[key].verdict)
    else if answer.Some? && answer.value.ok && EvictionRaises(cfg, c, key) then None
    else answer
  }

  /** `next(iter({}))` on an empty dict. */
  predicate EvictionRaises(cfg: Config, c: Cache, key: Key) {
    key !in c.entries && |c.order| >= cfg.maxEntries && c.order == []
  }

  function VerifyStep(cfg: Config, c: Cache, key: Key, now: real, answer: Option<Verdict>): Cache {
    if Hit(c, key, now) || answer.None? then c
    else if !answer.value.ok then Drop(c, key)
    else if EvictionRaises(cfg, c, key) then c
    else Store(cfg, c, key, Entry(answer.value, now + cfg.ttl))
  }

  function KeysOf(order: seq<Key>, agent: string): seq<Key> {
    if order == [] then []
    else (if order[0].1 == agent then [order[0]] else []) + KeysOf(order[1..], agent)
  }

  function DropAll(c: Cache, keys: seq<Key>): Cache
    decreases |keys|
  {
    if keys == [] then c else DropAll(Drop(c, keys[0]), keys[1..])
  }

  function InvalidateStep(c: Cache, agent: Option<string>): Cache {
    if agent.None? then EMPTY else DropAll(c, KeysOf(c.order, agent.value))
  }

  ghost predicate ValidCache(cfg: Config, c: Cache) {
    && (forall k :: k in c.entries <==> k in c.order)
    && (forall i, j :: 0 <= i < j < |c.order| ==> c.order[i] != c.order[j])
    && |c.order| <= cfg.maxEntries
    && (forall k :: k in c.entries ==> c.entries[k].verdict.ok)
  }

  class CachingIdentityStage {
    const cfg: Config
    var entries: map<Key, Entry>
    var order: seq<Key>

    ghost function Contents(): Cache
      reads this
    {
      Cache(entries, order)
    }

    constructor (cfg: Config)
      ensures this.cfg == cfg && Contents() == EMPTY && ValidCache(cfg, Contents())
    {
      this.cfg := cfg;
      entries, order := map[], [];
    }

    /** `answer` is what the wrapped stage gives for this key now; it is consulted only on a miss. */
    method Verify(key: Key, now: real, answer: Option<Verdict>) returns (r: Option<Verdict>)
      requires ValidCache(cfg, Contents())
      modifies this
      ensures ValidCache(cfg, Contents())
      ensures Contents() == VerifyStep(cfg, old(Contents()), key, now, answer)
      ensures r == VerifyResult(cfg, old(Contents()), key, now, answer)
      // A failed verdict leaves nothing to serve for the key.
      ensures answer.Some? && !answer.value.ok && !Hit(old(Contents()), key, now) ==> key !in entries
    {
      hide ValidCache;
      VerifyKeepsValid(cfg, Contents(), key, now, answer);
      if key in entries && entries[key].expires > now {
        return Some(entries[key].verdict);
      }
      if answer.None? {
        return None;
      }
      var verdict := answer.value;
      if verdict.ok {
        if key !in entries && |order| >= cfg.maxEntries {
          if order == [] {
            return None;
          }
          entries, order := entries - {order[0]}, order[1..];
        }
        if key !in entries {
          order := order + [key];
        }
        entries := entries[key := Entry(verdict, now + cfg.ttl)];
      } else if key in entries {
        entries, order := entries - {key}, Without(order, key);
      }
      r := Some(verdict);
    }

    method Invalidate(agent: Option<string>)
      requires ValidCache(cfg, Contents())
      modifies this
      ensures ValidCache(cfg, Contents())
      ensures Contents() == InvalidateStep(old(Contents()), agent)
    {
      if agent.None? {
        entries, order := map[], [];
        return;
      }
      ghost var before := Contents();
      var keys := KeysOf(order, agent.value);
      DropAllKeepsValid(cfg, before, keys);
      var rest := keys;
      while rest != []
        invariant DropAll(Contents(), rest) == DropAll(before, keys)
      {
        if rest[0] in entries {
          entries, order := entries - {rest[0]}, Without(order, rest[0]);
        }
        rest := rest[1..];
      }
    }
  }

  // ----- the bound and the contents -----

  lemma {:induction false} WithoutRemoves(order: seq<Key>, key: Key)
    requires forall i, j :: 0 <= i < j < |order| ==> order[i] != order[j]
    ensures var r := Without(order, key);
            && (forall k :: k in r <==> k in order && k != key)
            && (forall i, j :: 0 <= i < j < |r| ==> r[i] != r[j])
            && |r| == |order| - (if key in order then 1 else 0)
  {
    if order != [] {
      WithoutRemoves(order[1..], key);
      assert order == [order[0]] + order[1..];
      var tail := Without(order[1..], key);
      assert forall i :: 0 <= i < |tail| ==> tail[i] in order[1..];
      assert order[0] !in order[1..];
    }
  }

  lemma DropKeepsValid(cfg: Config, c: Cache, key: Key)
    requires ValidCache(cfg, c)
    ensures ValidCache(cfg, Drop(c, key))
  {
    WithoutRemoves(c.order, key);
  }

  lemma {:induction false} DropAllKeepsValid(cfg: Config, c: Cache, keys: seq<Key>)
    requires ValidCache(cfg, c)
    ensures ValidCache(cfg, DropAll(c, keys))
    decreases |keys|
  {
    if keys != [] {
      DropKeepsValid(cfg, c, keys[0]);
      DropAllKeepsValid(cfg, Drop(c, keys[0]), keys[1..]);
    }
  }

  lemma StoreKeepsValid(cfg: Config, c: Cache, key: Key, entry: Entry)
    requires ValidCache(cfg, c) && entry.verdict.ok && !EvictionRaises(cfg, c, key)
    ensures ValidCache(cfg, Store(cfg, c, key, entry))
  {
    if key !in c.entries && |c.order| >= cfg.maxEntries {
      assert c.order == [c.order[0]] + c.order[1..];
    }
  }

  /** The cache stays within its bound and holds only ok verdicts. */
  lemma VerifyKeepsValid(cfg: Config, c: Cache, key: Key, now: real, answer: Option<Verdict>)
    requires ValidCache(cfg, c)
    ensures ValidCache(cfg, VerifyStep(cfg, c, key, now, answer))
  {
    hide ValidCache, Store, Drop;
    DropKeepsValid(cfg, c, key);
    if answer.Some? && answer.value.ok && !EvictionRaises(cfg, c, key) {
      StoreKeepsValid(cfg, c, key, Entry(answer.value, now + cfg.ttl));
    }
  }

  // ----- whole runs -----

  datatype Event =
    | Verify(key: Key, now: real, answer: Option<Verdict>)
    | Invalidate(agent: Option<string>)

  function Step(cfg: Config, c: Cache, e: Event): Cache {
    match e
    case Verify(key, now, answer) => VerifyStep(cfg, c, key, now, answer)
    case Invalidate(agent) => InvalidateStep(c, agent)
  }

  function RunTo(cfg: Config, events: seq<Event>, n: nat): Cache
    requires n <= |events|
  {
    if n == 0 then EMPTY else Step(cfg, RunTo(cfg, events, n - 1), events[n - 1])
  }

  lemma {:induction false} RunValid(cfg: Config, events: seq<Event>, n: nat)
    requires n <= |events|
    ensures ValidCache(cfg, RunTo(cfg, events, n))
  {
    if n > 0 {
      RunValid(cfg, events, n - 1);
      var c := RunTo(cfg, events, n - 1);
      match events[n - 1] {
        case Verify(key, now, answer) => VerifyKeepsValid(cfg, c, key, now, answer);
        case Invalidate(agent) =>
          if agent.Some? {
            DropAllKeepsValid(cfg, c, KeysOf(c.order, agent.value));
          }
      }
    }
  }

  /** The event invalidates this key: the whole cache, or the key's agent. */
  predicate Clears(e: Event, key: Key) {
    e.Invalidate? && (e.agent.None? || e.agent.value == key.1)
  }

  ghost predicate Untouched(events: seq<Event>, key: Key, i: nat, n: nat)
    requires n <= |events|
  {
    forall j :: i < j < n ==> !Clears(events[j], key)
  }

  /** Event i asked the wrapped stage and stored what it answered, and nothing has cleared the key up to n. */
  ghost predicate ComesFrom(cfg: Config, events: seq<Event>, key: Key, entry: Entry, i: nat, n: nat)
    requires n <= |events|
  {
    && i < n
    && events[i].Verify? && events[i].key == key
    && !Hit(RunTo(cfg, events, i), key, events[i].now)
    && events[i].answer == Some(entry.verdict)
    && entry.expires == events[i].now + cfg.ttl
    && Untouched(events, key, i, n)
  }

  lemma {:induction false} KeysOfAgent(order: seq<Key>, agent: string)
    ensures forall k :: k in KeysOf(order, agent) <==> k in order && k.1 == agent
  {
    if order != [] {
      KeysOfAgent(order[1..], agent);
      assert order == [order[0]] + order[1..];
    }
  }

  lemma {:induction false} DropAllDrops(c: Cache, keys: seq<Key>)
    ensures forall k :: k in DropAll(c, keys).entries <==> k in c.entries && k !in keys
    ensures forall k :: k in DropAll(c, keys).entries ==> DropAll(c, keys).entries[k] == c.entries[k]
    decreases |keys|
  {
    if keys != [] {
      DropAllDrops(Drop(c, keys[0]), keys[1..]);
      assert keys == [keys[0]] + keys[1..];
    }
  }

  /** An entry present after a step was present before it, or is the one the step stored. */
  lemma StepEntries(cfg: Config, c: Cache, e: Event, key: Key)
    requires ValidCache(cfg, c) && key in Step(cfg, c, e).entries
    ensures var entry := Step(cfg, c, e).entries[key];
            || (key in c.entries && c.entries[key] == entry && !Clears(e, key))
            || (e.Verify? && e.key == key && !Hit(c, key, e.now) && e.answer == Some(entry.verdict) &&
                entry.expires == e.now + cfg.ttl)
  {
    match e {
      case Verify(_, _, _) =>
      case Invalidate(agent) =>
        if agent.Some? {
          KeysOfAgent(c.order, agent.value);
          DropAllDrops(c, KeysOf(c.order, agent.value));
        }
    }
  }

  lemma {:induction false} EntryComesFrom(cfg: Config, events: seq<Event>, n: nat, key: Key) returns (i: nat)
    requires n <= |events| && key in RunTo(cfg, events, n).entries
    ensures ComesFrom(cfg, events, key, RunTo(cfg, events, n).entries[key], i, n)
  {
    var c := RunTo(cfg, events, n - 1);
    RunValid(cfg, events, n - 1);
    StepEntries(cfg, c, events[n - 1], key);
    if key in c.entries && c.entries[key] == RunTo(cfg, events, n).entries[key] && !Clears(events[n - 1], key) {
      i := EntryComesFrom(cfg, events, n - 1, key);
    } else {
      i := n - 1;
    }
  }

  /**
   * Every verdict served from the cache is an ok verdict the wrapped stage returned for the same token
   * and agent less than ttl ago, with no covering invalidation since.
   */
  lemma ServedVerdictIsRecent(cfg: Config, events: seq<Event>, n: nat) returns (i: nat)
    requires n < |events| && events[n].Verify?
    requires Hit(RunTo(cfg, events, n), events[n].key, events[n].now)
    ensures var served := VerifyResult(cfg, RunTo(cfg, events, n), events[n].key, events[n].now, events[n].answer);
            && i < n && events[i].Verify? && events[i].key == events[n].key
            && !Hit(RunTo(cfg, events, i), events[i].key, events[i].now)
            && served == events[i].answer && served.Some? && served.value.ok
            && events[n].now - events[i].now < cfg.ttl
            && Untouched(events, events[n].key, i, n)
  {
    RunValid(cfg, events, n);
    i := EntryComesFrom(cfg, events, n, events[n].key);
  }

  /** The wrapped stage's answers for a key change only together with an invalidation covering it. */
  ghost predicate Coherent(events: seq<Event>) {
    forall i, j :: 0 <= i < j < |events| && events[i].Verify? && events[j].Verify? &&
                   events[i].key == events[j].key && Untouched(events, events[i].key, i, j)
                   ==> events[i].answer == events[j].answer
  }

  /**
   * Then the cached and the uncached stage give the same answer at every call, except where a zero-sized
   * cache is asked to store an ok verdict.
   */
  lemma CachedEqualsUncached(cfg: Config, events: seq<Event>, n: nat)
    requires Coherent(events) && n < |events| && events[n].Verify?
    ensures VerifyResult(cfg, RunTo(cfg, events, n), events[n].key, events[n].now, events[n].answer) ==
            events[n].answer
            <==> cfg.maxEntries >= 1 || events[n].answer.None? || !events[n].answer.value.ok
  {
    RunValid(cfg, events, n);
    if Hit(RunTo(cfg, events, n), events[n].key, events[n].now) {
      var i := ServedVerdictIsRecent(cfg, events, n);
    }
  }

  ghost predicate AlwaysAgrees(cfg: Config) {
    forall events: seq<Event>, n: nat :: n < |events| && Coherent(events) && events[n].Verify? ==>
      VerifyResult(cfg, RunTo(cfg, events, n), events[n].key, events[n].now, events[n].answer) == events[n].answer
  }

  /** Over all coherent runs the cache is invisible exactly when it has room for an entry. */
  lemma InvisibleExactlyWithRoom(cfg: Config)
    ensures AlwaysAgrees(cfg) <==> cfg.maxEntries >= 1
  {
    hide RunTo, VerifyResult, Coherent;
    forall events: seq<Event>, n: nat | n < |events| && Coherent(events) && events[n].Verify?
      ensures VerifyResult(cfg, RunTo(cfg, events, n), events[n].key, events[n].now, events[n].answer) ==
              events[n].answer
              <==> cfg.maxEntries >= 1 || events[n].answer.None? || !events[n].answer.value.ok
    {
      CachedEqualsUncached(cfg, events, n);
    }
    // A zero-sized cache raises on the first ok verdict.
    var first := [Verify((None, "agent"), 0.0, Some(Verdict(true, "", 1.0)))];
    OneEventIsCoherent(first);
    assert first[0].Verify? && first[0].answer.value.ok;
    assert VerifyResult(cfg, RunTo(cfg, first, 0), first[0].key, first[0].now, first[0].answer) == first[0].answer
           <==> cfg.maxEntries >= 1;
  }

  lemma OneEventIsCoherent(events: seq<Event>)
    requires |events| == 1
    ensures Coherent(events)
  {
  }

  // ----- hits and evictions -----

  /** A call that stores a new key into a full cache, in which this key is the oldest. */
  predicate Displaces(cfg: Config, c: Cache, e: Event, key: Key) {
    && e.Verify? && e.key !in c.entries
    && e.answer.Some? && e.answer.value.ok
    && |c.order| >= cfg.maxEntries && c.order != [] && c.order[0] == key
  }

  /** First in, first out: a new key goes last, and in a full cache it pushes out the oldest and no other. */
  lemma StoreExactly(cfg: Config, c: Cache, key: Key, now: real, answer: Verdict)
    requires ValidCache(cfg, c) && cfg.maxEntries >= 1 && answer.ok && !Hit(c, key, now)
    ensures var next := VerifyStep(cfg, c, key, now, Some(answer));
            && key in next.entries && next.entries[key] == Entry(answer, now + cfg.ttl)
            && next.order == (if key in c.entries then c.order
                              else if |c.order| < cfg.maxEntries then c.order + [key]
                              else c.order[1..] + [key])
            && (forall k :: k in next.entries && k != key ==> k in c.entries && next.entries[k] == c.entries[k])
            && (forall k :: k in c.entries ==>
                  (k in next.entries <==> key in c.entries || |c.order| < cfg.maxEntries || k != c.order[0]))
  {
  }

  /** What an event leaves of another key's entry: all of it, unless it clears it or displaces it as the oldest. */
  lemma EntryStays(cfg: Config, c: Cache, e: Event, key: Key)
    requires ValidCache(cfg, c) && cfg.maxEntries >= 1 && key in c.entries
    requires !Clears(e, key) && !Displaces(cfg, c, e, key)
    requires e.Verify? && e.key == key ==> Hit(c, key, e.now)
    ensures key in Step(cfg, c, e).entries && Step(cfg, c, e).entries[key] == c.entries[key]
  {
    match e {
      case Verify(_, _, _) =>
      case Invalidate(agent) =>
        KeysOfAgent(c.order, agent.value);
        DropAllDrops(c, KeysOf(c.order, agent.value));
    }
  }

  /** Between i and n nothing clears the key, displaces it, or asks for it when it is already stale. */
  ghost predicate Kept(cfg: Config, events: seq<Event>, key: Key, i: nat, n: nat, until: real)
    requires n <= |events|
  {
    forall j :: i < j < n ==>
      && !Clears(events[j], key)
      && !Displaces(cfg, RunTo(cfg, events, j), events[j], key)
      && (events[j].Verify? && events[j].key == key ==> events[j].now < until)
  }

  lemma {:induction false} EntryIsKept(cfg: Config, events: seq<Event>, i: nat, n: nat)
    requires cfg.maxEntries >= 1 && i < n <= |events| && events[i].Verify?
    requires events[i].answer.Some? && events[i].answer.value.ok
    requires !Hit(RunTo(cfg, events, i), events[i].key, events[i].now)
    requires Kept(cfg, events, events[i].key, i, n, events[i].now + cfg.ttl)
    ensures var key, c := events[i].key, RunTo(cfg, events, n);
            key in c.entries && c.entries[key] == Entry(events[i].answer.value, events[i].now + cfg.ttl)
  {
    hide ValidCache, VerifyStep, InvalidateStep, Clears, Displaces;
    var c := RunTo(cfg, events, n - 1);
    RunValid(cfg, events, n - 1);
    if n == i + 1 {
      StoreExactly(cfg, c, events[i].key, events[i].now, events[i].answer.value);
    } else {
      EntryIsKept(cfg, events, i, n - 1);
      EntryStays(cfg, c, events[n - 1], events[i].key);
    }
  }

  /**
   * A cached verdict is served: an ok verdict the wrapped stage gave less than ttl ago, with no covering
   * invalidation and no eviction of its key since, is the answer whatever the wrapped stage would say now, and
   * even if it would raise.
   */
  lemma FreshVerdictIsServed(cfg: Config, events: seq<Event>, i: nat, n: nat, now: real, answer: Option<Verdict>)
    requires cfg.maxEntries >= 1 && i < n <= |events| && events[i].Verify?
    requires events[i].answer.Some? && events[i].answer.value.ok
    requires !Hit(RunTo(cfg, events, i), events[i].key, events[i].now)
    requires Kept(cfg, events, events[i].key, i, n, events[i].now + cfg.ttl)
    requires now - events[i].now < cfg.ttl
    ensures VerifyResult(cfg, RunTo(cfg, events, n), events[i].key, now, answer) == events[i].answer
  {
    hide RunTo, Kept;
    EntryIsKept(cfg, events, i, n);
  }

  /** Without such a verdict the wrapped stage is asked, and its own answer returned. */
  lemma MissAsks(cfg: Config, c: Cache, key: Key, now: real, answer: Option<Verdict>)
    requires key in c.entries ==> c.entries[key].expires <= now
    requires cfg.maxEntries >= 1
    ensures VerifyResult(cfg, c, key, now, answer) == answer
    ensures answer.Some? && !answer.value.ok ==> key !in VerifyStep(cfg, c, key, now, answer).entries
    ensures answer.None? ==> VerifyStep(cfg, c, key, now, answer) == c
  {
  }
}
