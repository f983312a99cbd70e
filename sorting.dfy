/**
 * `rows.sort((a, b) => key(b) - key(a))`: JavaScript's `Array.prototype.sort` is stable, so with
 * this comparator it orders by `key` from largest to smallest and keeps the input order among
 * rows with equal keys. That result is modelled as a stable insertion sort, and the lemmas
 * below show it is the only ordering with both properties.
 */
module Sorting {

  /** Non-increasing by `key`. */
  ghost predicate SortedDesc<T>(s: seq<T>, key: T -> real) {
    forall i, j :: 0 <= i < j < |s| ==> key(s[i]) >= key(s[j])
  }

  /** The elements of `s` whose key is `k`, in their order in `s`. */
  function WithKey<T>(s: seq<T>, key: T -> real, k: real): seq<T>
    decreases |s|
  {
    if |s| == 0 then []
    else (if key(s[0]) == k then [s[0]] else []) + WithKey(s[1..], key, k)
  }

  /** Puts `x` in front of the first element whose key is not larger than its own. */
  function Insert<T>(x: T, s: seq<T>, key: T -> real): (r: seq<T>)
    ensures multiset(r) == multiset(s) + multiset{x}
    ensures |r| == |s| + 1
    decreases |s|
  {
    if |s| == 0 || key(x) >= key(s[0]) then [x] + s
    else
      assert s == [s[0]] + s[1..];
      [s[0]] + Insert(x, s[1..], key)
  }

  lemma {:induction false} InsertSorted<T>(x: T, s: seq<T>, key: T -> real)
    requires SortedDesc(s, key)
    ensures SortedDesc(Insert(x, s, key), key)
    decreases |s|
  {
    if |s| > 0 && key(x) < key(s[0]) {
      var t := Insert(x, s[1..], key);
      InsertSorted(x, s[1..], key);
      forall j | 0 <= j < |t| ensures key(t[j]) <= key(s[0]) {
        assert t[j] in multiset(t);
        assert t[j] == x || t[j] in multiset(s[1..]);
      }
      assert Insert(x, s, key) == [s[0]] + t;
    }
  }

  /** The stable descending sort of `s` by `key`. */
  function SortDesc<T>(s: seq<T>, key: T -> real): (r: seq<T>)
    ensures multiset(r) == multiset(s)
    ensures |r| == |s|
    ensures SortedDesc(r, key)
    decreases |s|
  {
    if |s| == 0 then []
    else
      var r := Insert(s[0], SortDesc(s[1..], key), key);
      InsertSorted(s[0], SortDesc(s[1..], key), key);
      assert s == [s[0]] + s[1..];
      r
  }

  lemma {:induction false} InsertWithKey<T>(x: T, s: seq<T>, key: T -> real, k: real)
    requires SortedDesc(s, key)
    ensures WithKey(Insert(x, s, key), key, k) == (if key(x) == k then [x] else []) + WithKey(s, key, k)
    decreases |s|
  {
    if |s| == 0 || key(x) >= key(s[0]) {
      WithKeyCons(x, s, key, k);
    } else {
      SortedDescTail(s, key);
      InsertWithKey(x, s[1..], key, k);
      InsertWithKeyStep(x, s, key, k);
    }
  }

  /** Inserting past the first element, given the result for the rest. */
  lemma InsertWithKeyStep<T>(x: T, s: seq<T>, key: T -> real, k: real)
    requires |s| > 0 && key(x) < key(s[0])
    requires WithKey(Insert(x, s[1..], key), key, k) == (if key(x) == k then [x] else []) + WithKey(s[1..], key, k)
    ensures WithKey(Insert(x, s, key), key, k) == (if key(x) == k then [x] else []) + WithKey(s, key, k)
  {
    var t := Insert(x, s[1..], key);
    InsertPast(x, s, key);
    WithKeyCons(s[0], t, key, k);
    WithKeyHead(s, key, k);
    SwapEmpty(if key(x) == k then [x] else [], if key(s[0]) == k then [s[0]] else [], WithKey(s[1..], key, k));
  }

  lemma InsertPast<T>(x: T, s: seq<T>, key: T -> real)
    requires |s| > 0 && key(x) < key(s[0])
    ensures Insert(x, s, key) == [s[0]] + Insert(x, s[1..], key)
  {
  }

  lemma WithKeyHead<T>(s: seq<T>, key: T -> real, k: real)
    requires |s| > 0
    ensures WithKey(s, key, k) == (if key(s[0]) == k then [s[0]] else []) + WithKey(s[1..], key, k)
  {
  }

  /** Two parts of which one is empty may be swapped. */
  lemma SwapEmpty<T>(a: seq<T>, b: seq<T>, w: seq<T>)
    requires a == [] || b == []
    ensures b + (a + w) == a + (b + w)
  {
    if a == [] {
      assert a + w == w && a + (b + w) == b + w;
    } else {
      assert b + (a + w) == a + w && b + w == w;
    }
  }

  lemma SortedDescTail<T>(s: seq<T>, key: T -> real)
    requires |s| > 0 && SortedDesc(s, key)
    ensures SortedDesc(s[1..], key)
  {
    forall i, j | 0 <= i < j < |s| - 1 ensures key(s[1..][i]) >= key(s[1..][j]) {
      assert s[1..][i] == s[i + 1] && s[1..][j] == s[j + 1];
    }
  }

  lemma WithKeyCons<T>(y: T, t: seq<T>, key: T -> real, k: real)
    ensures WithKey([y] + t, key, k) == (if key(y) == k then [y] else []) + WithKey(t, key, k)
  {
    assert ([y] + t)[0] == y && ([y] + t)[1..] == t;
  }

  /** Sorting keeps the relative order of the elements that share a key. */
  lemma {:induction false} SortDescStable<T>(s: seq<T>, key: T -> real, k: real)
    ensures WithKey(SortDesc(s, key), key, k) == WithKey(s, key, k)
    decreases |s|
  {
    if |s| > 0 {
      SortDescStable(s[1..], key, k);
      InsertWithKey(s[0], SortDesc(s[1..], key), key, k);
    }
  }

  lemma {:induction false} WithKeyHas<T>(s: seq<T>, key: T -> real, j: nat)
    requires j < |s|
    ensures WithKey(s, key, key(s[j])) != []
    decreases |s|
  {
    if j > 0 {
      WithKeyHas(s[1..], key, j - 1);
    }
  }

  lemma {:induction false} WithKeyFound<T>(s: seq<T>, key: T -> real, k: real) returns (j: nat)
    requires WithKey(s, key, k) != []
    ensures j < |s| && key(s[j]) == k
    decreases |s|
  {
    if key(s[0]) == k {
      j := 0;
    } else {
      j := WithKeyFound(s[1..], key, k);
      j := j + 1;
    }
  }

  /** Uniqueness: two non-increasing sequences with the same elements per key, in the same
      order, are equal. So a stable non-increasing sort has exactly one possible result. */
  lemma {:induction false} SortedByKeyClassesUnique<T>(a: seq<T>, b: seq<T>, key: T -> real)
    requires SortedDesc(a, key) && SortedDesc(b, key)
    requires forall k :: WithKey(a, key, k) == WithKey(b, key, k)
    ensures a == b
    decreases |a|
  {
    if |a| > 0 { WithKeyHas(a, key, 0); }
    if |b| > 0 { WithKeyHas(b, key, 0); }
    if |a| == 0 || |b| == 0 {
      // the first element of a non-empty one would have its key's class empty in the other
    } else {
      var ka, kb := key(a[0]), key(b[0]);
      var jb := WithKeyFound(b, key, ka);
      var ja := WithKeyFound(a, key, kb);
      assert ka == kb;
      var wa, wb := WithKey(a, key, ka), WithKey(b, key, ka);
      assert wa == wb;
      assert wa == [a[0]] + WithKey(a[1..], key, ka);
      assert wb == [b[0]] + WithKey(b[1..], key, ka);
      assert a[0] == wa[0] == wb[0] == b[0];
      forall k ensures WithKey(a[1..], key, k) == WithKey(b[1..], key, k) {
        var p := if ka == k then [a[0]] else [];
        assert WithKey(a, key, k) == p + WithKey(a[1..], key, k);
        assert WithKey(b, key, k) == p + WithKey(b[1..], key, k);
        assert WithKey(a, key, k) == WithKey(b, key, k);
        assert (p + WithKey(a[1..], key, k))[|p|..] == WithKey(a[1..], key, k);
        assert (p + WithKey(b[1..], key, k))[|p|..] == WithKey(b[1..], key, k);
      }
      SortedByKeyClassesUnique(a[1..], b[1..], key);
      assert a == [a[0]] + a[1..] && b == [b[0]] + b[1..];
    }
  }

  /** `SortDesc` is characterised by its two properties: whatever is non-increasing and keeps
      each key's elements in input order is `SortDesc(s, key)`. */
  lemma SortDescCharacterised<T>(s: seq<T>, r: seq<T>, key: T -> real)
    requires SortedDesc(r, key)
    requires forall k :: WithKey(r, key, k) == WithKey(s, key, k)
    ensures r == SortDesc(s, key)
  {
    forall k ensures WithKey(r, key, k) == WithKey(SortDesc(s, key), key, k) {
      SortDescStable(s, key, k);
    }
    SortedByKeyClassesUnique(r, SortDesc(s, key), key);
  }
}
