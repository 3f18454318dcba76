/** A stable sort by a numeric key, largest key first: what Python's
    `list.sort(key=..., reverse=True)` does to a list in place. Python
    documents that `reverse=True` keeps the sort stable, so elements with
    equal keys stay in their input order. */
module StableSort {

  /** Keys never increase from left to right. */
  predicate SortedDesc<T>(s: seq<T>, key: T -> real) {
    forall i, j :: 0 <= i < j < |s| ==> key(s[i]) >= key(s[j])
  }

  /** The elements of `s` whose key is `v`, in their order in `s`. */
  function WithKey<T>(s: seq<T>, key: T -> real, v: real): seq<T>
    decreases |s|
  {
    if s == [] then []
    else WithKey(s[..|s| - 1], key, v) + (if key(s[|s| - 1]) == v then [s[|s| - 1]] else [])
  }

  /** Inserts `x` after every element whose key is at least `key(x)`,
      scanning from the right as an insertion sort does. */
  function Insert<T>(s: seq<T>, x: T, key: T -> real): seq<T>
    decreases |s|
  {
    if s == [] || key(s[|s| - 1]) >= key(x) then s + [x]
    else Insert(s[..|s| - 1], x, key) + [s[|s| - 1]]
  }

  /** Insertion sort, one element at a time from the left. */
  function SortDesc<T>(s: seq<T>, key: T -> real): seq<T>
    decreases |s|
  {
    if s == [] then []
    else Insert(SortDesc(s[..|s| - 1], key), s[|s| - 1], key)
  }

  lemma {:induction false} InsertPermutes<T>(s: seq<T>, x: T, key: T -> real)
    ensures multiset(Insert(s, x, key)) == multiset(s) + multiset{x}
    decreases |s|
  {
    if s != [] && key(s[|s| - 1]) < key(x) {
      InsertPermutes(s[..|s| - 1], x, key);
      assert s == s[..|s| - 1] + [s[|s| - 1]];
    }
  }

  /** The sorted result holds the same elements, each as often. */
  lemma {:induction false} SortDescPermutes<T>(s: seq<T>, key: T -> real)
    ensures multiset(SortDesc(s, key)) == multiset(s)
    ensures |SortDesc(s, key)| == |s|
    decreases |s|
  {
    if s != [] {
      SortDescPermutes(s[..|s| - 1], key);
      InsertPermutes(SortDesc(s[..|s| - 1], key), s[|s| - 1], key);
      assert s == s[..|s| - 1] + [s[|s| - 1]];
    }
    assert |multiset(SortDesc(s, key))| == |multiset(s)|;
  }

  lemma {:induction false} InsertSorted<T>(s: seq<T>, x: T, key: T -> real)
    requires SortedDesc(s, key)
    ensures SortedDesc(Insert(s, x, key), key)
    decreases |s|
  {
    if s == [] || key(s[|s| - 1]) >= key(x) {
      var r := s + [x];
      forall i, j | 0 <= i < j < |r|
        ensures key(r[i]) >= key(r[j])
      {
        if j == |s| && i < |s| - 1 {
          assert key(s[i]) >= key(s[|s| - 1]);
        }
      }
    } else {
      var p := s[..|s| - 1];
      var last := s[|s| - 1];
      InsertSorted(p, x, key);
      InsertPermutes(p, x, key);
      var r := Insert(p, x, key);
      assert Insert(s, x, key) == r + [last];
      forall i | 0 <= i < |r|
        ensures key(r[i]) >= key(last)
      {
        assert r[i] in multiset(r);
        assert r[i] in multiset(p) + multiset{x};
        if r[i] in multiset(p) {
          var k :| 0 <= k < |p| && p[k] == r[i];
          assert s[k] == r[i];
        }
      }
    }
  }

  /** The sorted result never increases in key. */
  lemma {:induction false} SortDescSorted<T>(s: seq<T>, key: T -> real)
    ensures SortedDesc(SortDesc(s, key), key)
    decreases |s|
  {
    if s != [] {
      SortDescSorted(s[..|s| - 1], key);
      InsertSorted(SortDesc(s[..|s| - 1], key), s[|s| - 1], key);
    }
  }

  lemma WithKeySnoc<T>(s: seq<T>, e: T, key: T -> real, v: real)
    ensures WithKey(s + [e], key, v) == WithKey(s, key, v) + (if key(e) == v then [e] else [])
  {
    assert (s + [e])[..|s|] == s;
  }

  /** An element is kept by WithKey exactly when it occurs with that key. */
  lemma {:induction false} WithKeyMembers<T>(s: seq<T>, key: T -> real, v: real, e: T)
    ensures e in WithKey(s, key, v) <==> e in s && key(e) == v
    decreases |s|
  {
    if s != [] {
      WithKeyMembers(s[..|s| - 1], key, v, e);
      assert s == s[..|s| - 1] + [s[|s| - 1]];
    }
  }

  /** Inserting `x` adds it to its own key's elements, last, and disturbs no
      other element's relative order. */
  lemma {:induction false} InsertStable<T>(s: seq<T>, x: T, key: T -> real, v: real)
    ensures WithKey(Insert(s, x, key), key, v) == WithKey(s, key, v) + (if key(x) == v then [x] else [])
    decreases |s|
  {
    if s == [] || key(s[|s| - 1]) >= key(x) {
      WithKeySnoc(s, x, key, v);
    } else {
      var p, last := s[..|s| - 1], s[|s| - 1];
      var r := Insert(p, x, key);
      assert s == p + [last];
      InsertStable(p, x, key, v);
      WithKeySnoc(r, last, key, v);
      WithKeySnoc(p, last, key, v);
      if key(x) == v {
        assert key(last) != v;
      }
    }
  }

  /** Stability: the elements that share a key appear in the sorted result in
      exactly their input order. */
  lemma {:induction false} SortDescStable<T>(s: seq<T>, key: T -> real, v: real)
    ensures WithKey(SortDesc(s, key), key, v) == WithKey(s, key, v)
    decreases |s|
  {
    if s != [] {
      var p, last := s[..|s| - 1], s[|s| - 1];
      SortDescStable(p, key, v);
      InsertStable(SortDesc(p, key), last, key, v);
    }
  }

  /** Keeping a prefix of `s` keeps a prefix of each key's elements. */
  lemma {:induction false} WithKeyOfPrefix<T>(s: seq<T>, n: nat, key: T -> real, v: real)
    requires n <= |s|
    ensures WithKey(s[..n], key, v) <= WithKey(s, key, v)
    decreases |s| - n
  {
    if n < |s| {
      var p := s[..|s| - 1];
      assert s[..n] == p[..n];
      WithKeyOfPrefix(p, n, key, v);
    } else {
      assert s[..n] == s;
    }
  }

  /** In a sorted sequence, whatever a prefix leaves over has a key no larger
      than any key in the prefix. */
  lemma SortedPrefixDominates<T>(s: seq<T>, n: nat, key: T -> real, e: T)
    requires SortedDesc(s, key) && n <= |s|
    requires e in multiset(s) - multiset(s[..n])
    ensures forall i :: 0 <= i < n ==> key(s[i]) >= key(e)
  {
    assert s == s[..n] + s[n..];
    assert multiset(s) == multiset(s[..n]) + multiset(s[n..]);
    assert e in multiset(s[n..]);
    var j :| n <= j < |s| && s[j] == e;
  }

  /** Two sequences sorted by key that agree on every key's elements, in
      order, are the same sequence. */
  lemma {:induction false} SortedByKeyUnique<T>(t1: seq<T>, t2: seq<T>, key: T -> real)
    requires SortedDesc(t1, key) && SortedDesc(t2, key)
    requires forall v :: WithKey(t1, key, v) == WithKey(t2, key, v)
    ensures t1 == t2
    decreases |t1| + |t2|
  {
    if t1 == [] && t2 == [] {
      return;
    }
    if t1 == [] || t2 == [] {
      var y := if t1 == [] then t2[|t2| - 1] else t1[|t1| - 1];
      WithKeyMembers(t1, key, key(y), y);
      WithKeyMembers(t2, key, key(y), y);
      assert false;
    }
    var p1, x1 := t1[..|t1| - 1], t1[|t1| - 1];
    var p2, x2 := t2[..|t2| - 1], t2[|t2| - 1];
    WithKeyMembers(t1, key, key(x2), x2);
    WithKeyMembers(t2, key, key(x2), x2);
    WithKeyMembers(t1, key, key(x1), x1);
    WithKeyMembers(t2, key, key(x1), x1);
    assert key(x1) <= key(x2) by {
      var k :| 0 <= k < |t1| && t1[k] == x2;
    }
    assert key(x2) <= key(x1) by {
      var k :| 0 <= k < |t2| && t2[k] == x1;
    }
    var m := key(x1);
    assert WithKey(t1, key, m) == WithKey(p1, key, m) + [x1];
    assert WithKey(t2, key, m) == WithKey(p2, key, m) + [x2];
    assert x1 == x2 by {
      assert WithKey(t1, key, m)[|WithKey(t1, key, m)| - 1] == x1;
    }
    forall v
      ensures WithKey(p1, key, v) == WithKey(p2, key, v)
    {
      var a, b := WithKey(p1, key, v), WithKey(p2, key, v);
      assert WithKey(t1, key, v) == WithKey(t2, key, v);
      if v == m {
        assert a + [x1] == b + [x1];
        assert a == (a + [x1])[..|a|] && b == (b + [x1])[..|b|];
      } else {
        assert WithKey(t1, key, v) == a && WithKey(t2, key, v) == b;
      }
    }
    SortedByKeyUnique(p1, p2, key);
    assert t1 == p1 + [x1] && t2 == p2 + [x2];
  }

  /** SortDesc is the one stable descending sort: any arrangement that is
      sorted by key and keeps every key's elements in input order is it. */
  lemma SortDescUnique<T>(s: seq<T>, t: seq<T>, key: T -> real)
    requires SortedDesc(t, key)
    requires forall v :: WithKey(t, key, v) == WithKey(s, key, v)
    ensures t == SortDesc(s, key)
  {
    SortDescSorted(s, key);
    forall v
      ensures WithKey(t, key, v) == WithKey(SortDesc(s, key), key, v)
    {
      SortDescStable(s, key, v);
    }
    SortedByKeyUnique(t, SortDesc(s, key), key);
  }

  /** Where the shift stops: `x` goes after the first `j` elements when all
      elements from `j` on have a smaller key and the one before `j` does not. */
  lemma {:induction false} InsertAt<T>(prefix: seq<T>, j: nat, x: T, key: T -> real)
    requires j <= |prefix|
    requires j == 0 || key(prefix[j - 1]) >= key(x)
    requires forall k :: j <= k < |prefix| ==> key(prefix[k]) < key(x)
    ensures Insert(prefix, x, key) == prefix[..j] + [x] + prefix[j..]
    decreases |prefix|
  {
    if j == |prefix| {
      assert prefix[..j] == prefix && prefix[j..] == [];
    } else {
      var p := prefix[..|prefix| - 1];
      InsertAt(p, j, x, key);
      assert p[..j] == prefix[..j];
      assert prefix[j..] == p[j..] + [prefix[|prefix| - 1]];
    }
  }

  /** Moves `a[i]` left into the sorted prefix `a[..i]`, past the elements
      whose key is strictly smaller; the rest of the array is untouched. */
  method InsertInPlace<T>(a: array<T>, i: nat, key: T -> real)
    requires i < a.Length
    modifies a
    ensures a[..i + 1] == Insert(old(a[..i]), old(a[i]), key)
    ensures a[i + 1..] == old(a[i + 1..])
  {
    var x := a[i];
    ghost var prefix := a[..i];
    var j := i;
    while j > 0 && key(a[j - 1]) < key(x)
      invariant 0 <= j <= i
      invariant forall k :: 0 <= k < j ==> a[k] == prefix[k]
      invariant forall k :: j < k <= i ==> a[k] == prefix[k - 1]
      invariant forall k :: i < k < a.Length ==> a[k] == old(a[k])
      invariant forall k :: j <= k < i ==> key(prefix[k]) < key(x)
    {
      a[j] := a[j - 1];
      j := j - 1;
    }
    a[j] := x;
    InsertAt(prefix, j, x, key);
    assert a[..i + 1] == prefix[..j] + [x] + prefix[j..];
    assert a[i + 1..] == old(a[i + 1..]);
  }

  /** Sorts `a` in place, stably, largest key first (insertion sort; an
      element moves left only past elements with a strictly smaller key). */
  method SortInPlace<T>(a: array<T>, key: T -> real)
    modifies a
    ensures a[..] == SortDesc(old(a[..]), key)
  {
    ghost var orig := a[..];
    var i := 0;
    while i < a.Length
      invariant 0 <= i <= a.Length
      invariant a[..i] == SortDesc(orig[..i], key)
      invariant a[i..] == orig[i..]
    {
      assert a[i] == orig[i] by { assert a[i..][0] == orig[i..][0]; }
      InsertInPlace(a, i, key);
      assert orig[..i + 1][..i] == orig[..i];
      assert a[i + 1..] == orig[i + 1..] by {
        assert forall k :: i + 1 <= k < a.Length ==> orig[i..][k - i] == orig[k];
      }
      i := i + 1;
    }
    assert a[..] == a[..a.Length];
    assert orig == orig[..a.Length];
  }
}
