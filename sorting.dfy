/** The library sort the backend calls (`Array.prototype.sort` with a
    comparator `(a, b) => key(b) - key(a)`), as a stable insertion sort into
    non-increasing key order, and the slicing and mapping around it. A stable
    sort under a total preorder has exactly one possible result, so any stable
    implementation returns what this one returns. */
module Sorting {
  import opened Seqs

  /** Keys never increase along `s`. */
  predicate SortedDesc<T>(s: seq<T>, key: T -> real) {
    forall i, j :: 0 <= i < j < |s| ==> key(s[i]) >= key(s[j])
  }

  /** Places `x` after every element whose key is at least `key(x)`. */
  function Insert<T>(x: T, s: seq<T>, key: T -> real): (r: seq<T>)
    ensures multiset(r) == multiset(s) + multiset{x}
  {
    if s == [] then [x]
    else if key(s[0]) >= key(x) then
      assert s == [s[0]] + s[1..];
      [s[0]] + Insert(x, s[1..], key)
    else [x] + s
  }

  lemma {:induction false} InsertSorted<T>(x: T, s: seq<T>, key: T -> real)
    requires SortedDesc(s, key)
    ensures SortedDesc(Insert(x, s, key), key)
  {
    if s == [] {
    } else if key(s[0]) >= key(x) {
      var rest := Insert(x, s[1..], key);
      SortedTail(s, key);
      InsertSorted(x, s[1..], key);
      forall i | 0 <= i < |rest| ensures key(s[0]) >= key(rest[i]) {
        var y := rest[i];
        assert y in multiset(rest);
        if y != x {
          var j := InMultiset(y, s[1..]);
          assert s[j + 1] == y;
        }
      }
      SortedCons(s[0], rest, key);
    } else {
      forall i | 0 <= i < |s| ensures key(x) >= key(s[i]) {
        assert key(s[0]) >= key(s[i]) || i == 0;
      }
      SortedCons(x, s, key);
    }
  }

  /** A head that outranks every element of a sorted list keeps it sorted. */
  lemma {:induction false} SortedCons<T>(h: T, t: seq<T>, key: T -> real)
    requires SortedDesc(t, key)
    requires forall i :: 0 <= i < |t| ==> key(h) >= key(t[i])
    ensures SortedDesc([h] + t, key)
  {
    var r := [h] + t;
    forall i, j | 0 <= i < j < |r| ensures key(r[i]) >= key(r[j]) {
      assert r[j] == t[j - 1];
      if i > 0 { assert r[i] == t[i - 1]; }
    }
  }

  /** A stable sort into non-increasing key order. */
  function SortDesc<T>(s: seq<T>, key: T -> real): (r: seq<T>)
    ensures multiset(r) == multiset(s)
    ensures SortedDesc(r, key)
  {
    if s == [] then []
    else
      InitLast(s);
      InsertSorted(s[|s| - 1], SortDesc(s[..|s| - 1], key), key);
      Insert(s[|s| - 1], SortDesc(s[..|s| - 1], key), key)
  }

  /** The elements whose key is `k`, in their order in `s`. */
  function WithKey<T>(s: seq<T>, key: T -> real, k: real): seq<T> {
    if s == [] then []
    else (if key(s[0]) == k then [s[0]] else []) + WithKey(s[1..], key, k)
  }

  lemma {:induction false} WithKeyAppend<T>(a: seq<T>, b: seq<T>, key: T -> real, k: real)
    ensures WithKey(a + b, key, k) == WithKey(a, key, k) + WithKey(b, key, k)
  {
    if a == [] {
      assert a + b == b;
    } else {
      var h := if key(a[0]) == k then [a[0]] else [];
      assert (a + b)[0] == a[0] && (a + b)[1..] == a[1..] + b;
      assert WithKey(a + b, key, k) == h + WithKey(a[1..] + b, key, k);
      WithKeyAppend(a[1..], b, key, k);
      assert WithKey(a, key, k) == h + WithKey(a[1..], key, k);
    }
  }

  lemma {:induction false} WithKeyNone<T>(s: seq<T>, key: T -> real, k: real)
    requires forall i :: 0 <= i < |s| ==> key(s[i]) != k
    ensures WithKey(s, key, k) == []
  {
    if s != [] {
      WithKeyNone(s[1..], key, k);
    }
  }

  /** Inserting into a sorted list puts `x` after the elements of equal key. */
  lemma {:induction false} WithKeyInsert<T>(x: T, t: seq<T>, key: T -> real, k: real)
    requires SortedDesc(t, key)
    ensures WithKey(Insert(x, t, key), key, k) == WithKey(t, key, k) + WithKey([x], key, k)
  {
    if t == [] {
      assert Insert(x, t, key) == [x];
    } else if key(t[0]) >= key(x) {
      SortedTail(t, key);
      WithKeyInsert(x, t[1..], key, k);
      WithKeyBehindHead(x, t, key, k);
    } else {
      WithKeyInFront(x, t, key, k);
    }
  }

  /** The step of `WithKeyInsert` where `x` goes past the head of `t`. */
  lemma {:induction false} WithKeyBehindHead<T>(x: T, t: seq<T>, key: T -> real, k: real)
    requires t != [] && key(t[0]) >= key(x)
    requires WithKey(Insert(x, t[1..], key), key, k) == WithKey(t[1..], key, k) + WithKey([x], key, k)
    ensures WithKey(Insert(x, t, key), key, k) == WithKey(t, key, k) + WithKey([x], key, k)
  {
    var r := Insert(x, t[1..], key);
    var h := if key(t[0]) == k then [t[0]] else [];
    InsertUnfold(x, t, key);
    WithKeyCons(t[0], r, key, k);
    WithKeyCons(t[0], t[1..], key, k);
    HeadTail(t);
    Reassociate(h, WithKey(t[1..], key, k), WithKey([x], key, k),
            WithKey(Insert(x, t, key), key, k), WithKey(t, key, k));
  }

  /** One step of `Insert` on a non-empty list. */
  lemma {:induction false} InsertUnfold<T>(x: T, t: seq<T>, key: T -> real)
    requires t != []
    ensures Insert(x, t, key)
         == if key(t[0]) >= key(x) then [t[0]] + Insert(x, t[1..], key) else [x] + t
  {
  }

  /** One step of `SortDesc` on a non-empty list. */
  lemma {:induction false} SortDescUnfold<T>(s: seq<T>, key: T -> real)
    requires s != []
    ensures SortDesc(s, key) == Insert(s[|s| - 1], SortDesc(s[..|s| - 1], key), key)
  {
  }

  /** `WithKey` on a list given by its head and tail. */
  lemma {:induction false} WithKeyCons<T>(h: T, r: seq<T>, key: T -> real, k: real)
    ensures WithKey([h] + r, key, k) == (if key(h) == k then [h] else []) + WithKey(r, key, k)
  {
    assert ([h] + r)[0] == h && ([h] + r)[1..] == r;
  }

  /** The step of `WithKeyInsert` where `x` goes in front of a sorted `t`. */
  lemma {:induction false} WithKeyInFront<T>(x: T, t: seq<T>, key: T -> real, k: real)
    requires SortedDesc(t, key)
    requires t != [] && key(t[0]) < key(x)
    ensures WithKey(Insert(x, t, key), key, k) == WithKey(t, key, k) + WithKey([x], key, k)
  {
    InsertUnfold(x, t, key);
    WithKeyCons(x, t, key, k);
    if key(x) == k {
      forall i | 0 <= i < |t| ensures key(t[i]) != k {
        assert i == 0 || key(t[0]) >= key(t[i]);
      }
      WithKeyNone(t, key, k);
    }
  }

  /** Stability: for every key, the elements with that key come out of the sort
      in the order they went in. */
  lemma {:induction false} SortDescStable<T>(s: seq<T>, key: T -> real, k: real)
    ensures WithKey(SortDesc(s, key), key, k) == WithKey(s, key, k)
  {
    if s != [] {
      var init, last := s[..|s| - 1], s[|s| - 1];
      SortDescStable(init, key, k);
      SortDescUnfold(s, key);
      WithKeyInsert(last, SortDesc(init, key), key, k);
      InitLast(s);
      WithKeyAppend(init, [last], key, k);
    }
  }

  /** Removing the element at `j` removes one copy of it from the multiset. */
  lemma {:induction false} MultisetRemoveAt<T>(s: seq<T>, j: nat)
    requires j < |s|
    ensures multiset(s[..j] + s[j + 1..]) == multiset(s) - multiset{s[j]}
  {
    assert s == s[..j] + [s[j]] + s[j + 1..];
    assert multiset(s) == multiset(s[..j]) + multiset{s[j]} + multiset(s[j + 1..]);
  }

  /** Dropping the head removes one copy of it from the multiset. */
  lemma {:induction false} MultisetTail<T>(s: seq<T>)
    requires s != []
    ensures multiset(s[1..]) == multiset(s) - multiset{s[0]}
  {
    assert s == [s[0]] + s[1..];
  }

  /** An element of the multiset of `s` sits at some index of `s`. */
  lemma {:induction false} InMultiset<T>(x: T, s: seq<T>) returns (j: nat)
    requires x in multiset(s)
    ensures j < |s| && s[j] == x
  {
    assert x in s;
    j :| 0 <= j < |s| && s[j] == x;
  }

  /** The tail of a sorted list is sorted. */
  lemma {:induction false} SortedTail<T>(s: seq<T>, key: T -> real)
    requires SortedDesc(s, key) && s != []
    ensures SortedDesc(s[1..], key)
  {
    forall i, j | 0 <= i < j < |s| - 1 ensures key(s[1..][i]) >= key(s[1..][j]) {
      assert s[1..][i] == s[i + 1] && s[1..][j] == s[j + 1];
    }
  }

  /** `map` over a sequence. */
  function Map<T, U>(f: T -> U, s: seq<T>): (r: seq<U>)
    ensures |r| == |s|
    ensures forall i :: 0 <= i < |s| ==> r[i] == f(s[i])
  {
    if s == [] then [] else [f(s[0])] + Map(f, s[1..])
  }

  /** Mapping a permutation gives a permutation of the mapped list. */
  lemma {:induction false} MapPermutation<T, U>(f: T -> U, s: seq<T>, t: seq<T>)
    requires multiset(s) == multiset(t)
    ensures multiset(Map(f, s)) == multiset(Map(f, t))
    decreases |s|
  {
    if s != [] {
      var j := InMultiset(s[0], t);
      var rest := t[..j] + t[j + 1..];
      MultisetRemoveAt(t, j);
      MultisetTail(s);
      MapPermutation(f, s[1..], rest);
      MapHeadMultiset(f, s);
      MapRemoveAtMultiset(f, t, j);
    }
  }

  lemma {:induction false} MapHeadMultiset<T, U>(f: T -> U, s: seq<T>)
    requires s != []
    ensures multiset(Map(f, s)) == multiset{f(s[0])} + multiset(Map(f, s[1..]))
  {
    assert Map(f, s) == [f(s[0])] + Map(f, s[1..]);
  }

  lemma {:induction false} MapRemoveAtMultiset<T, U>(f: T -> U, t: seq<T>, j: nat)
    requires j < |t|
    ensures multiset(Map(f, t)) == multiset{f(t[j])} + multiset(Map(f, t[..j] + t[j + 1..]))
  {
    var m := Map(f, t);
    MapRemoveAt(f, t, j);
    MultisetRemoveAt(m, j);
    assert m[j] == f(t[j]) && m[j] in multiset(m);
  }

  lemma {:induction false} MapRemoveAt<T, U>(f: T -> U, s: seq<T>, j: nat)
    requires j < |s|
    ensures Map(f, s[..j] + s[j + 1..]) == Map(f, s)[..j] + Map(f, s)[j + 1..]
  {
    var r, m := s[..j] + s[j + 1..], Map(f, s);
    var lhs, rhs := Map(f, r), m[..j] + m[j + 1..];
    assert |lhs| == |rhs|;
    forall i | 0 <= i < |lhs| ensures lhs[i] == rhs[i] {
      if i < j {
        assert r[i] == s[i] && rhs[i] == m[i];
      } else {
        assert r[i] == s[i + 1] && rhs[i] == m[i + 1];
      }
    }
  }

  /** Mapping commutes with taking a prefix. */
  lemma {:induction false} MapPrefix<T, U>(f: T -> U, s: seq<T>, e: nat)
    requires e <= |s|
    ensures Map(f, s[..e]) == Map(f, s)[..e]
  {
  }

  lemma {:induction false} MapInsert<T, U>(f: T -> U, x: T, s: seq<T>, key: T -> real, key2: U -> real)
    requires forall y :: key(y) == key2(f(y))
    ensures Map(f, Insert(x, s, key)) == Insert(f(x), Map(f, s), key2)
  {
    if s != [] {
      assert Map(f, s)[1..] == Map(f, s[1..]);
      if key(s[0]) >= key(x) {
        MapInsert(f, x, s[1..], key, key2);
      }
    }
  }

  /** Sorting commutes with a map when the key factors through it: sorting
      records by a field and then projecting the field equals projecting
      first and sorting the values. */
  lemma {:induction false} MapSortDesc<T, U>(f: T -> U, s: seq<T>, key: T -> real, key2: U -> real)
    requires forall y :: key(y) == key2(f(y))
    ensures Map(f, SortDesc(s, key)) == SortDesc(Map(f, s), key2)
  {
    if s != [] {
      var init := s[..|s| - 1];
      MapSortDesc(f, init, key, key2);
      MapInsert(f, s[|s| - 1], SortDesc(init, key), key, key2);
      assert Map(f, s)[..|s| - 1] == Map(f, init);
    }
  }

  /** `s.slice(0, k)`: a negative `k` counts from the end, and the end is
      clamped to the length. */
  function SliceEnd(n: nat, k: int): (e: nat)
    ensures e <= n
    ensures k >= 0 ==> e == if k < n then k else n
  {
    if k >= 0 then (if k < n then k else n)
    else if n + k > 0 then n + k else 0
  }

  function Slice<T>(s: seq<T>, k: int): seq<T> {
    s[..SliceEnd(|s|, k)]
  }

  /** A prefix of a sorted list is sorted. */
  lemma {:induction false} SortedPrefix<T>(t: seq<T>, n: nat, key: T -> real)
    requires SortedDesc(t, key) && n <= |t|
    ensures SortedDesc(t[..n], key)
  {
    forall i, j | 0 <= i < j < n ensures key(t[..n][i]) >= key(t[..n][j]) {
      assert t[..n][i] == t[i] && t[..n][j] == t[j];
    }
  }

  /** The first `n` elements of a sorted list outrank everything the slice
      drops: each dropped element has a key at most that of each kept one. */
  lemma {:induction false} SortedPrefixIsTop<T>(t: seq<T>, n: nat, key: T -> real)
    requires SortedDesc(t, key) && n <= |t|
    ensures forall x, y :: x in t[..n] && y in t[n..] ==> key(x) >= key(y)
  {
    forall x, y | x in t[..n] && y in t[n..] ensures key(x) >= key(y) {
      var i :| 0 <= i < n && t[..n][i] == x;
      var j :| 0 <= j < |t| - n && t[n..][j] == y;
      assert t[i] == x && t[n + j] == y;
    }
  }
}
