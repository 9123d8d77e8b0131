/** Python's stable `sorted` with a tuple key, and what it determines. */
module Sorting {
  type Key = seq<int>

  /** Tuple order. */
  predicate Less(a: Key, b: Key) {
    b != [] && (a == [] || a[0] < b[0] || (a[0] == b[0] && Less(a[1..], b[1..])))
  }

  lemma {:induction false} LessTransitive(a: Key, b: Key, c: Key)
    requires Less(a, b) && Less(b, c)
    ensures Less(a, c)
  {
    if a != [] && a[0] == b[0] == c[0] {
      LessTransitive(a[1..], b[1..], c[1..]);
    }
  }

  /** Exactly one of: less, equal, greater. */
  lemma {:induction false} LessTotal(a: Key, b: Key)
    ensures (if Less(a, b) then 1 else 0) + (if a == b then 1 else 0) + (if Less(b, a) then 1 else 0) == 1
  {
    if a != [] && b != [] && a[0] == b[0] {
      LessTotal(a[1..], b[1..]);
      assert a == [a[0]] + a[1..] && b == [b[0]] + b[1..];
    }
  }

  /** Where two tuples first differ, or the shorter one ends. */
  predicate DiffersAt(a: Key, b: Key, n: nat) {
    && n <= |a| && n < |b| && a[..n] == b[..n]
    && (n == |a| || a[n] < b[n])
  }

  /** The order is Python's: the first difference decides, and a prefix comes first. */
  lemma {:induction false} LessMeans(a: Key, b: Key)
    ensures Less(a, b) <==> exists n :: 0 <= n <= |a| && DiffersAt(a, b, n)
  {
    if b == [] {
    } else if a == [] {
      assert DiffersAt(a, b, 0);
    } else if a[0] != b[0] {
      assert DiffersAt(a, b, 0) <==> a[0] < b[0];
      forall n | 0 < n <= |a| ensures !DiffersAt(a, b, n) {
        if n <= |b| {
          assert a[..n][0] == a[0] && b[..n][0] == b[0];
        }
      }
    } else {
      LessMeans(a[1..], b[1..]);
      forall n | 0 < n <= |a| ensures DiffersAt(a, b, n) <==> DiffersAt(a[1..], b[1..], n - 1) {
        if n < |b| {
          assert a[..n] == [a[0]] + a[1..][..n - 1] && b[..n] == [b[0]] + b[1..][..n - 1];
        }
      }
      if n :| 0 <= n <= |a[1..]| && DiffersAt(a[1..], b[1..], n) {
        assert DiffersAt(a, b, n + 1);
      }
      assert !DiffersAt(a, b, 0);
    }
  }

  /** The key of a plain string: its characters. */
  function CodePoints(s: string): Key {
    seq(|s|, i requires 0 <= i < |s| => s[i] as int)
  }

  lemma CodePointsInjective(s: string, t: string)
    requires CodePoints(s) == CodePoints(t)
    ensures s == t
  {
    forall i | 0 <= i < |s| ensures s[i] == t[i] {
      assert CodePoints(s)[i] == CodePoints(t)[i];
    }
  }

  ghost predicate NoDuplicates<T>(s: seq<T>) {
    forall i, j :: 0 <= i < j < |s| ==> s[i] != s[j]
  }

  /** Places x before every element whose key is not smaller. */
  function Insert<T>(key: T -> Key, x: T, s: seq<T>): seq<T> {
    if s == [] || !Less(key(s[0]), key(x)) then [x] + s else [s[0]] + Insert(key, x, s[1..])
  }

  function Sort<T>(key: T -> Key, s: seq<T>): seq<T> {
    if s == [] then [] else Insert(key, s[0], Sort(key, s[1..]))
  }

  ghost predicate Sorted<T>(key: T -> Key, s: seq<T>) {
    forall i, j :: 0 <= i < j < |s| ==> !Less(key(s[j]), key(s[i]))
  }

  /** The key tells the elements of s apart. */
  ghost predicate KeyInjective<T>(key: T -> Key, s: seq<T>) {
    forall i, j :: 0 <= i < |s| && 0 <= j < |s| && key(s[i]) == key(s[j]) ==> s[i] == s[j]
  }

  lemma {:induction false} InsertPermutes<T>(key: T -> Key, x: T, s: seq<T>)
    ensures multiset(Insert(key, x, s)) == multiset(s) + multiset{x}
  {
    hide Less;
    if s != [] && Less(key(s[0]), key(x)) {
      InsertPermutes(key, x, s[1..]);
      assert s == [s[0]] + s[1..];
    }
  }

  lemma NotLessTransitive(a: Key, b: Key, c: Key)
    requires !Less(a, b) && !Less(b, c)
    ensures !Less(a, c)
  {
    hide Less;
    LessTotal(a, b);
    if Less(a, c) && Less(b, a) {
      LessTransitive(b, a, c);
    }
  }

  /** Nothing in s has a smaller key than x. */
  ghost predicate Bounds<T>(key: T -> Key, x: T, s: seq<T>) {
    forall i :: 0 <= i < |s| ==> !Less(key(s[i]), key(x))
  }

  lemma SortedPrepend<T>(key: T -> Key, x: T, s: seq<T>)
    ensures Sorted(key, [x] + s) <==> Bounds(key, x, s) && Sorted(key, s)
  {
    hide Less;
    var r := [x] + s;
    if Sorted(key, r) {
      forall i | 0 <= i < |s| ensures !Less(key(s[i]), key(x)) {
        assert r[0] == x && r[i + 1] == s[i];
      }
      forall i, j | 0 <= i < j < |s| ensures !Less(key(s[j]), key(s[i])) {
        assert r[i + 1] == s[i] && r[j + 1] == s[j];
      }
    }
  }

  lemma BoundsGrow<T>(key: T -> Key, h: T, x: T, s: seq<T>)
    requires Bounds(key, h, s) && !Less(key(x), key(h))
    ensures Bounds(key, h, Insert(key, x, s))
  {
    hide Less, Insert;
    var r := Insert(key, x, s);
    InsertPermutes(key, x, s);
    forall i | 0 <= i < |r| ensures !Less(key(r[i]), key(h)) {
      assert r[i] in multiset(s) + multiset{x};
    }
  }

  lemma {:induction false} InsertSorts<T>(key: T -> Key, x: T, s: seq<T>)
    requires Sorted(key, s)
    ensures Sorted(key, Insert(key, x, s))
  {
    hide Less, Sorted, Bounds;
    if s != [] {
      assert s == [s[0]] + s[1..];
      SortedPrepend(key, s[0], s[1..]);
      if Less(key(s[0]), key(x)) {
        LessTotal(key(x), key(s[0]));
        InsertSorts(key, x, s[1..]);
        BoundsGrow(key, s[0], x, s[1..]);
        SortedPrepend(key, s[0], Insert(key, x, s[1..]));
      } else {
        BoundsDown(key, s[0], x, s);
        SortedPrepend(key, x, s);
      }
    } else {
      assert [x] + s == [x];
      SingleSorted(key, x);
    }
  }

  lemma BoundsDown<T>(key: T -> Key, h: T, x: T, s: seq<T>)
    requires s != [] && s[0] == h && Bounds(key, h, s[1..]) && !Less(key(h), key(x))
    ensures Bounds(key, x, s)
  {
    hide Less;
    forall i | 0 <= i < |s| ensures !Less(key(s[i]), key(x)) {
      if i > 0 {
        assert s[i] == s[1..][i - 1];
        NotLessTransitive(key(s[i]), key(h), key(x));
      }
    }
  }

  lemma SingleSorted<T>(key: T -> Key, x: T)
    ensures Sorted(key, [x])
  {
  }

  /** Sorting permutes its input and orders it by key. */
  lemma {:induction false} SortSorts<T>(key: T -> Key, s: seq<T>)
    ensures multiset(Sort(key, s)) == multiset(s)
    ensures Sorted(key, Sort(key, s))
  {
    hide Less;
    if s != [] {
      assert s == [s[0]] + s[1..];
      SortSorts(key, s[1..]);
      InsertPermutes(key, s[0], Sort(key, s[1..]));
      InsertSorts(key, s[0], Sort(key, s[1..]));
    }
  }

  /** The elements with key k, in order. */
  function WithKey<T>(key: T -> Key, k: Key, s: seq<T>): seq<T> {
    if s == [] then []
    else (if key(s[0]) == k then [s[0]] else []) + WithKey(key, k, s[1..])
  }

  lemma WithKeyPrepend<T>(key: T -> Key, k: Key, x: T, s: seq<T>)
    ensures WithKey(key, k, [x] + s) == (if key(x) == k then [x] else []) + WithKey(key, k, s)
  {
    assert ([x] + s)[1..] == s;
  }

  lemma {:induction false} InsertStable<T>(key: T -> Key, k: Key, x: T, s: seq<T>)
    ensures WithKey(key, k, Insert(key, x, s)) == (if key(x) == k then [x] else []) + WithKey(key, k, s)
  {
    hide Less, WithKey;
    if s != [] && Less(key(s[0]), key(x)) {
      LessTotal(key(s[0]), key(x));
      InsertStable(key, k, x, s[1..]);
      assert s == [s[0]] + s[1..];
      WithKeyPrepend(key, k, s[0], s[1..]);
      WithKeyPrepend(key, k, s[0], Insert(key, x, s[1..]));
    } else {
      WithKeyPrepend(key, k, x, s);
    }
  }

  /** Stability: elements with equal keys keep their order. */
  lemma {:induction false} SortStable<T>(key: T -> Key, k: Key, s: seq<T>)
    ensures WithKey(key, k, Sort(key, s)) == WithKey(key, k, s)
  {
    if s != [] {
      SortStable(key, k, s[1..]);
      InsertStable(key, k, s[0], Sort(key, s[1..]));
    }
  }

  /** A sorted sequence is its own sort. */
  lemma {:induction false} SortOfSorted<T>(key: T -> Key, s: seq<T>)
    requires Sorted(key, s)
    ensures Sort(key, s) == s
  {
    if s != [] {
      SortOfSorted(key, s[1..]);
      assert s == [s[0]] + s[1..];
    }
  }

  lemma SameHead<T>(key: T -> Key, a: seq<T>, b: seq<T>)
    requires Sorted(key, a) && Sorted(key, b) && KeyInjective(key, a) && multiset(a) == multiset(b)
    requires a != [] && b != []
    ensures a[0] == b[0]
  {
    hide Less;
    assert b[0] in multiset(b) && a[0] in multiset(a);
    var i :| 0 <= i < |a| && a[i] == b[0];
    var j :| 0 <= j < |b| && b[j] == a[0];
    LessTotal(key(a[0]), key(b[0]));
    assert i == 0 || !Less(key(a[i]), key(a[0]));
    assert j == 0 || !Less(key(b[j]), key(b[0]));
  }

  lemma SameTail<T>(a: seq<T>, b: seq<T>)
    requires a != [] && b != [] && a[0] == b[0] && multiset(a) == multiset(b)
    ensures multiset(a[1..]) == multiset(b[1..])
  {
    assert a == [a[0]] + a[1..] && b == [b[0]] + b[1..];
    assert multiset(a[1..]) == multiset(a) - multiset{a[0]};
  }

  /** Sorted by a telling key, with the same elements: the same sequence. */
  lemma {:induction false} SortedUnique<T>(key: T -> Key, a: seq<T>, b: seq<T>)
    requires Sorted(key, a) && Sorted(key, b) && KeyInjective(key, a) && multiset(a) == multiset(b)
    ensures a == b
  {
    hide Less, Sorted, Bounds;
    assert |a| == |multiset(a)| == |multiset(b)| == |b|;
    if a != [] {
      SameHead(key, a, b);
      SameTail(a, b);
      assert a == [a[0]] + a[1..] && b == [b[0]] + b[1..];
      SortedPrepend(key, a[0], a[1..]);
      SortedPrepend(key, b[0], b[1..]);
      SortedUnique(key, a[1..], b[1..]);
    }
  }

  /** With a telling key, sorting forgets exactly the order. */
  lemma SortForgetsOrder<T>(key: T -> Key, a: seq<T>, b: seq<T>)
    requires KeyInjective(key, a)
    ensures Sort(key, a) == Sort(key, b) <==> multiset(a) == multiset(b)
  {
    SortSorts(key, a);
    SortSorts(key, b);
    if multiset(a) == multiset(b) {
      InjectiveSurvives(key, a, Sort(key, a));
      SortedUnique(key, Sort(key, a), Sort(key, b));
    }
  }

  lemma InjectiveSurvives<T>(key: T -> Key, a: seq<T>, b: seq<T>)
    requires KeyInjective(key, a) && multiset(a) == multiset(b)
    ensures KeyInjective(key, b)
  {
    forall i, j | 0 <= i < |b| && 0 <= j < |b| && key(b[i]) == key(b[j]) ensures b[i] == b[j] {
      assert b[i] in multiset(b) && b[j] in multiset(b);
      assert b[i] in multiset(a) && b[j] in multiset(a);
    }
  }
}
