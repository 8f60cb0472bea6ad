/** Python's `sorted(data, key=..., reverse=...)`: a stable sort of keyed items.
    Every sort key the image lists use (a filename, a `(length, name)` pair, a
    usage count) is encoded as a sequence of integers compared lexicographically,
    which is how Python compares strings and tuples. With `reverse` set Python
    sorts in descending order and still keeps equal keys in their original order. */
module Sorting {
  import opened Sequences

  type Key = seq<int>

  /** Lexicographic "strictly less" on keys; a proper prefix is smaller. */
  predicate KeyLess(a: Key, b: Key)
    decreases |a|
  {
    if a == [] then b != []
    else if b == [] then false
    else a[0] < b[0] || (a[0] == b[0] && KeyLess(a[1..], b[1..]))
  }

  lemma {:induction false} KeyLessIrreflexive(a: Key)
    ensures !KeyLess(a, a)
    decreases |a|
  {
    if a != [] { KeyLessIrreflexive(a[1..]); }
  }

  lemma {:induction false} KeyLessTransitive(a: Key, b: Key, c: Key)
    requires KeyLess(a, b) && KeyLess(b, c)
    ensures KeyLess(a, c)
    decreases |a|
  {
    if a != [] && b != [] && c != [] && a[0] == b[0] == c[0] {
      KeyLessTransitive(a[1..], b[1..], c[1..]);
    }
  }

  lemma {:induction false} KeyLessTotal(a: Key, b: Key)
    ensures a == b || KeyLess(a, b) || KeyLess(b, a)
    decreases |a|
  {
    if a != [] && b != [] && a[0] == b[0] {
      KeyLessTotal(a[1..], b[1..]);
      if a[1..] == b[1..] {
        assert a == [a[0]] + a[1..] && b == [b[0]] + b[1..];
      }
    }
  }

  /** `x` goes strictly before `y` in the requested direction. */
  predicate Before<T>(x: (Key, T), y: (Key, T), reverse: bool) {
    if reverse then KeyLess(y.0, x.0) else KeyLess(x.0, y.0)
  }

  lemma BeforeTransitive<T>(x: (Key, T), y: (Key, T), z: (Key, T), reverse: bool)
    requires Before(x, y, reverse) && Before(y, z, reverse)
    ensures Before(x, z, reverse)
  {
    if reverse { KeyLessTransitive(z.0, y.0, x.0); } else { KeyLessTransitive(x.0, y.0, z.0); }
  }

  lemma BeforeIrreflexive<T>(x: (Key, T), y: (Key, T), reverse: bool)
    requires x.0 == y.0
    ensures !Before(x, y, reverse)
  {
    KeyLessIrreflexive(x.0);
  }

  /** No element is strictly before an element to its left. */
  predicate Sorted<T>(s: seq<(Key, T)>, reverse: bool) {
    forall i, j :: 0 <= i < j < |s| ==> !Before(s[j], s[i], reverse)
  }

  /** The items of `s` whose key is `k`, in their order in `s`. */
  function WithKey<T>(s: seq<(Key, T)>, k: Key): (r: seq<(Key, T)>)
    ensures |r| <= |s|
    decreases |s|
  {
    if s == [] then []
    else WithKey(s[..|s| - 1], k) + (if s[|s| - 1].0 == k then [s[|s| - 1]] else [])
  }

  function Insert<T>(x: (Key, T), s: seq<(Key, T)>, reverse: bool): (r: seq<(Key, T)>)
    ensures |r| == |s| + 1
    decreases |s|
  {
    if s == [] then [x]
    else if Before(x, s[0], reverse) then [x] + s
    else [s[0]] + Insert(x, s[1..], reverse)
  }

  /** `sorted(s, key=..., reverse=reverse)`: insertion of each item, from the
      first to the last, after every already placed item that it does not go
      strictly before. */
  function StableSort<T>(s: seq<(Key, T)>, reverse: bool): (r: seq<(Key, T)>)
    ensures |r| == |s|
    decreases |s|
  {
    if s == [] then [] else Insert(s[|s| - 1], StableSort(s[..|s| - 1], reverse), reverse)
  }

  lemma {:induction false} InsertPermutes<T>(x: (Key, T), s: seq<(Key, T)>, reverse: bool)
    ensures multiset(Insert(x, s, reverse)) == multiset(s) + multiset{x}
    decreases |s|
  {
    if s != [] && !Before(x, s[0], reverse) {
      InsertPermutes(x, s[1..], reverse);
      assert s == [s[0]] + s[1..];
    }
  }

  lemma {:induction false} InsertSorted<T>(x: (Key, T), s: seq<(Key, T)>, reverse: bool)
    requires Sorted(s, reverse)
    ensures Sorted(Insert(x, s, reverse), reverse)
    ensures forall i :: 0 <= i < |Insert(x, s, reverse)| ==>
      Insert(x, s, reverse)[i] == x || Insert(x, s, reverse)[i] in s
    decreases |s|
  {
    var r := Insert(x, s, reverse);
    if s == [] {
    } else if Before(x, s[0], reverse) {
      forall i, j | 0 <= i < j < |r| ensures !Before(r[j], r[i], reverse) {
        if i == 0 {
          BeforeIrreflexive(s[0], s[0], reverse);
          assert !Before(s[j - 1], s[0], reverse);
          if Before(r[j], x, reverse) { BeforeTransitive(r[j], x, s[0], reverse); }
        } else {
          assert r[i] == s[i - 1] && r[j] == s[j - 1];
        }
      }
    } else {
      InsertSorted(x, s[1..], reverse);
      var t := Insert(x, s[1..], reverse);
      assert r == [s[0]] + t;
      forall i, j | 0 <= i < j < |r| ensures !Before(r[j], r[i], reverse) {
        if i == 0 {
          assert r[j] == t[j - 1];
          if r[j] != x {
            assert r[j] in s[1..];
          }
        } else {
          assert r[i] == t[i - 1] && r[j] == t[j - 1];
        }
      }
    }
  }

  /** Items with a key equal to `x`'s all stay in front of `x`. */
  lemma {:induction false} InsertStable<T>(x: (Key, T), s: seq<(Key, T)>, reverse: bool, k: Key)
    requires Sorted(s, reverse)
    ensures WithKey(Insert(x, s, reverse), k) == WithKey(s, k) + (if x.0 == k then [x] else [])
    decreases |s|
  {
    if s == [] {
      assert WithKey([x], k) == WithKey([], k) + (if x.0 == k then [x] else []);
    } else if Before(x, s[0], reverse) {
      InsertStableFront(x, s, reverse, k);
    } else {
      SortedTail(s, reverse);
      InsertStable(x, s[1..], reverse, k);
      InsertStableBehind(x, s, reverse, k);
    }
  }

  /** When `x` goes behind the first item, the first item stays in front. */
  lemma InsertStableBehind<T>(x: (Key, T), s: seq<(Key, T)>, reverse: bool, k: Key)
    requires s != [] && !Before(x, s[0], reverse)
    requires WithKey(Insert(x, s[1..], reverse), k) == WithKey(s[1..], k) + (if x.0 == k then [x] else [])
    ensures WithKey(Insert(x, s, reverse), k) == WithKey(s, k) + (if x.0 == k then [x] else [])
  {
    var t := s[1..];
    var front := if s[0].0 == k then [s[0]] else [];
    var back := if x.0 == k then [x] else [];
    assert Insert(x, s, reverse) == [s[0]] + Insert(x, t, reverse);
    WithKeyPrepend(s[0], Insert(x, t, reverse), k);
    HeadAndTail(s);
    WithKeyPrepend(s[0], t, k);
    AppendAssociative(front, WithKey(t, k), back);
  }

  lemma SortedTail<T>(s: seq<(Key, T)>, reverse: bool)
    requires Sorted(s, reverse) && s != []
    ensures Sorted(s[1..], reverse)
  {
    var t := s[1..];
    forall i, j | 0 <= i < j < |t| ensures !Before(t[j], t[i], reverse) {
      assert t[j] == s[j + 1] && t[i] == s[i + 1];
    }
  }

  /** When `x` goes in front of everything, no item of `s` shares its key. */
  lemma InsertStableFront<T>(x: (Key, T), s: seq<(Key, T)>, reverse: bool, k: Key)
    requires Sorted(s, reverse) && s != [] && Before(x, s[0], reverse)
    ensures WithKey(Insert(x, s, reverse), k) == WithKey(s, k) + (if x.0 == k then [x] else [])
  {
    assert Insert(x, s, reverse) == [x] + s;
    if x.0 == k {
      forall i | 0 <= i < |s| ensures s[i].0 != k {
        BeforeIrreflexive(s[0], s[0], reverse);
        if s[i].0 == k {
          assert Before(s[i], s[0], reverse);
        }
      }
      WithKeyNone(s, k);
    }
    WithKeyPrepend(x, s, k);
  }

  lemma {:induction false} WithKeyPrepend<T>(y: (Key, T), s: seq<(Key, T)>, k: Key)
    ensures WithKey([y] + s, k) == (if y.0 == k then [y] else []) + WithKey(s, k)
    decreases |s|
  {
    if s == [] {
      assert WithKey([y], k) == WithKey([], k) + (if y.0 == k then [y] else []);
    } else {
      var init := s[..|s| - 1];
      assert ([y] + s)[..|[y] + s| - 1] == [y] + init;
      WithKeyPrepend(y, init, k);
    }
  }

  lemma {:induction false} WithKeyNone<T>(s: seq<(Key, T)>, k: Key)
    requires forall i :: 0 <= i < |s| ==> s[i].0 != k
    ensures WithKey(s, k) == []
    decreases |s|
  {
    if s != [] { WithKeyNone(s[..|s| - 1], k); }
  }

  /** The sort's three promises: the result is ordered, it is a permutation of
      the input, and items with equal keys keep their relative order. */
  lemma {:induction false} StableSortCorrect<T>(s: seq<(Key, T)>, reverse: bool)
    ensures Sorted(StableSort(s, reverse), reverse)
    ensures multiset(StableSort(s, reverse)) == multiset(s)
    ensures forall k :: WithKey(StableSort(s, reverse), k) == WithKey(s, k)
    decreases |s|
  {
    if s != [] {
      var init := s[..|s| - 1];
      StableSortCorrect(init, reverse);
      InsertSorted(s[|s| - 1], StableSort(init, reverse), reverse);
      InsertPermutes(s[|s| - 1], StableSort(init, reverse), reverse);
      assert s == init + [s[|s| - 1]];
      forall k ensures WithKey(StableSort(s, reverse), k) == WithKey(s, k) {
        InsertStable(s[|s| - 1], StableSort(init, reverse), reverse, k);
      }
    }
  }
}
