/** In-place descending sort by a natural-number key.
    Both `Array.prototype.sort` calls of the page use a comparator of the
    shape `(a, b) => key(b) - key(a)`: the star counts themselves before the
    h-index scan, and the repositories by `stargazers_count` before display. */
module Sorting {

  /** Every element's key is at least the key of every later element. */
  predicate SortedDescBy<T>(s: seq<T>, key: T -> nat) {
    forall i, j :: 0 <= i < j < |s| ==> key(s[i]) >= key(s[j])
  }

  /** The elements of `s` whose key is `k`, in their order in `s`. */
  function WithKey<T>(s: seq<T>, key: T -> nat, k: nat): seq<T> {
    if s == [] then []
    else WithKey(s[..|s| - 1], key, k) + (if key(s[|s| - 1]) == k then [s[|s| - 1]] else [])
  }

  /** The elements of key `k` are taken from `s`, and none of `s` is missed. */
  lemma {:induction false} WithKeyMembers<T>(s: seq<T>, key: T -> nat, k: nat)
    ensures forall x :: x in WithKey(s, key, k) ==> x in s && key(x) == k
    ensures forall i :: 0 <= i < |s| && key(s[i]) == k ==> s[i] in WithKey(s, key, k)
    decreases |s|
  {
    if s != [] {
      WithKeyMembers(s[..|s| - 1], key, k);
      assert s == s[..|s| - 1] + [s[|s| - 1]];
    }
  }

  /** `s` and `t` list the elements of every key in the same order: a sort
      that keeps this is stable. */
  ghost predicate SameTieOrder<T>(s: seq<T>, t: seq<T>, key: T -> nat) {
    forall k :: WithKey(s, key, k) == WithKey(t, key, k)
  }

  lemma {:induction false} WithKeyAppend<T>(a: seq<T>, b: seq<T>, key: T -> nat, k: nat)
    ensures WithKey(a + b, key, k) == WithKey(a, key, k) + WithKey(b, key, k)
    decreases |b|
  {
    if b == [] {
      assert a + b == a;
    } else {
      assert (a + b)[..|a + b| - 1] == a + b[..|b| - 1];
      WithKeyAppend(a, b[..|b| - 1], key, k);
    }
  }

  /** Exchanging two neighbours with different keys changes the order of no
      two elements of equal key. */
  lemma SwapKeepsTieOrder<T>(s: seq<T>, j: nat, key: T -> nat)
    requires 0 < j < |s| && key(s[j - 1]) != key(s[j])
    ensures SameTieOrder(s[..j - 1] + [s[j], s[j - 1]] + s[j + 1..], s, key)
  {
    var t := s[..j - 1] + [s[j], s[j - 1]] + s[j + 1..];
    assert s == s[..j - 1] + [s[j - 1], s[j]] + s[j + 1..];
    forall k
      ensures WithKey(t, key, k) == WithKey(s, key, k)
    {
      WithKeyAppend(s[..j - 1] + [s[j], s[j - 1]], s[j + 1..], key, k);
      WithKeyAppend(s[..j - 1], [s[j], s[j - 1]], key, k);
      WithKeyAppend(s[..j - 1] + [s[j - 1], s[j]], s[j + 1..], key, k);
      WithKeyAppend(s[..j - 1], [s[j - 1], s[j]], key, k);
      WithKeyAppend([s[j]], [s[j - 1]], key, k);
      WithKeyAppend([s[j - 1]], [s[j]], key, k);
      assert [s[j]] + [s[j - 1]] == [s[j], s[j - 1]];
      assert [s[j - 1]] + [s[j]] == [s[j - 1], s[j]];
    }
  }

  /** Two descending orders with the same tie order end in elements of the
      same key: the smallest key present. */
  lemma LastKeysAgree<T>(s: seq<T>, t: seq<T>, key: T -> nat)
    requires SortedDescBy(s, key) && SortedDescBy(t, key)
    requires SameTieOrder(s, t, key) && s != []
    ensures t != [] && key(s[|s| - 1]) == key(t[|t| - 1])
  {
    var x := s[|s| - 1];
    WithKeyMembers(s, key, key(x));
    WithKeyMembers(t, key, key(x));
    assert x in WithKey(t, key, key(x));
    var i :| 0 <= i < |t| && t[i] == x;
    var y := t[|t| - 1];
    WithKeyMembers(t, key, key(y));
    WithKeyMembers(s, key, key(y));
    assert y in WithKey(s, key, key(y));
    var j :| 0 <= j < |s| && s[j] == y;
    assert key(t[i]) >= key(y) && key(s[j]) >= key(x);
  }

  /** With the same tie order and last elements of the same key, the last
      elements coincide, and what precedes them keeps the same tie order. */
  lemma DropLastKeepsTieOrder<T>(s: seq<T>, t: seq<T>, key: T -> nat)
    requires s != [] && t != [] && key(s[|s| - 1]) == key(t[|t| - 1])
    requires SameTieOrder(s, t, key)
    ensures s[|s| - 1] == t[|t| - 1]
    ensures SameTieOrder(s[..|s| - 1], t[..|t| - 1], key)
  {
    var m := key(s[|s| - 1]);
    var s', t' := s[..|s| - 1], t[..|t| - 1];
    assert WithKey(s, key, m) == WithKey(s', key, m) + [s[|s| - 1]];
    assert WithKey(t, key, m) == WithKey(t', key, m) + [t[|t| - 1]];
    forall k
      ensures WithKey(s', key, k) == WithKey(t', key, k)
    {
      if k == m {
        assert WithKey(s', key, m) == WithKey(s, key, m)[..|WithKey(s, key, m)| - 1];
        assert WithKey(t', key, m) == WithKey(t, key, m)[..|WithKey(t, key, m)| - 1];
      } else {
        assert WithKey(s, key, k) == WithKey(s', key, k);
        assert WithKey(t, key, k) == WithKey(t', key, k);
      }
    }
  }

  /** A descending order that keeps the tie order of `t` is unique: the
      contract of a stable descending sort fixes its output completely. */
  lemma {:induction false} StableSortUnique<T>(s: seq<T>, t: seq<T>, key: T -> nat)
    requires SortedDescBy(s, key) && SortedDescBy(t, key)
    requires SameTieOrder(s, t, key)
    ensures s == t
    decreases |s|
  {
    if s != [] {
      LastKeysAgree(s, t, key);
      DropLastKeepsTieOrder(s, t, key);
      StableSortUnique(s[..|s| - 1], t[..|t| - 1], key);
      assert s == s[..|s| - 1] + [s[|s| - 1]];
      assert t == t[..|t| - 1] + [t[|t| - 1]];
    } else if t != [] {
      LastKeysAgree(t, s, key);
    }
  }

  /** Two lists with the same multiset: the first element of one sits at
      some position `i` of the other, and the rest of the first list is a
      permutation of the other with position `i` taken out. */
  lemma PermutationSplit<T>(s: seq<T>, t: seq<T>) returns (i: nat)
    requires multiset(s) == multiset(t) && s != []
    ensures i < |t| && t[i] == s[0]
    ensures s == [s[0]] + s[1..] && t == t[..i] + [t[i]] + t[i + 1..]
    ensures multiset(s[1..]) == multiset(t[..i] + t[i + 1..])
  {
    assert s[0] in multiset(t);
    i :| 0 <= i < |t| && t[i] == s[0];
    assert s == [s[0]] + s[1..];
    assert t == t[..i] + [t[i]] + t[i + 1..];
    assert multiset(t[..i] + t[i + 1..]) == multiset(t) - multiset{s[0]};
    assert multiset(s[1..]) == multiset(s) - multiset{s[0]};
  }

  /** Exchanges two elements and leaves the rest of the array alone. */
  method Swap<T>(a: array<T>, i: nat, j: nat)
    requires i < a.Length && j < a.Length
    modifies a
    ensures a[i] == old(a[j]) && a[j] == old(a[i])
    ensures forall k :: 0 <= k < a.Length && k != i && k != j ==> a[k] == old(a[k])
    ensures multiset(a[..]) == old(multiset(a[..]))
  {
    a[i], a[j] := a[j], a[i];
  }

  /** Sorts `a` in place so that keys do not increase; the result is a
      permutation of the original contents, and elements of equal key keep
      their original order (the sort is stable, as JavaScript's is). */
  method SortDescendingBy<T>(a: array<T>, key: T -> nat)
    modifies a
    ensures SortedDescBy(a[..], key)
    ensures multiset(a[..]) == old(multiset(a[..]))
    ensures SameTieOrder(a[..], old(a[..]), key)
  {
    var i := 0;
    while i < a.Length
      invariant 0 <= i <= a.Length
      invariant SortedDescBy(a[..i], key)
      invariant multiset(a[..]) == old(multiset(a[..]))
      invariant SameTieOrder(a[..], old(a[..]), key)
    {
      // sink a[i] to its place among a[..i]
      var j := i;
      while 0 < j && key(a[j - 1]) < key(a[j])
        invariant 0 <= j <= i
        invariant forall p, q :: 0 <= p < q <= i && q != j ==> key(a[p]) >= key(a[q])
        invariant 0 < j < i ==> key(a[j - 1]) >= key(a[j + 1])
        invariant multiset(a[..]) == old(multiset(a[..]))
        invariant SameTieOrder(a[..], old(a[..]), key)
      {
        ghost var before := a[..];
        SwapKeepsTieOrder(before, j, key);
        Swap(a, j - 1, j);
        assert a[..] == before[..j - 1] + [before[j], before[j - 1]] + before[j + 1..];
        j := j - 1;
      }
      i := i + 1;
    }
  }
}
