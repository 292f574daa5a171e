/** The h-index of a list of star counts: the largest `h` such that at
    least `h` of the counts are each at least `h`. */
module HIndex {
  import opened Sorting

  /** The key under which star counts are sorted: the count itself. */
  function Id(n: nat): nat { n }

  /** How many entries of `s` are at least `k`. */
  function CountAtLeast(s: seq<nat>, k: nat): (c: nat)
    ensures c <= |s|
  {
    if s == [] then 0 else (if s[0] >= k then 1 else 0) + CountAtLeast(s[1..], k)
  }

  /** Reference definition: scanning `h` upward from `from` while at least
      `h + 1` entries are each at least `h + 1`. */
  function HFrom(s: seq<nat>, from: nat): nat
    requires from <= |s|
    decreases |s| - from
  {
    if from < |s| && CountAtLeast(s, from + 1) >= from + 1 then HFrom(s, from + 1) else from
  }

  /** The h-index of a list of counts, independent of its order. */
  function HIndexOf(s: seq<nat>): nat {
    HFrom(s, 0)
  }

  lemma {:induction false} CountAtLeastAppend(a: seq<nat>, b: seq<nat>, k: nat)
    ensures CountAtLeast(a + b, k) == CountAtLeast(a, k) + CountAtLeast(b, k)
  {
    if a != [] {
      assert (a + b)[0] == a[0];
      assert (a + b)[1..] == a[1..] + b;
      CountAtLeastAppend(a[1..], b, k);
      assert CountAtLeast(a + b, k) == (if a[0] >= k then 1 else 0) + CountAtLeast(a[1..] + b, k);
    } else {
      assert a + b == b;
    }
  }

  /** Raising the threshold never raises the count. */
  lemma {:induction false} CountAtLeastAntitone(s: seq<nat>, k1: nat, k2: nat)
    requires k1 <= k2
    ensures CountAtLeast(s, k2) <= CountAtLeast(s, k1)
  {
    if s != [] {
      CountAtLeastAntitone(s[1..], k1, k2);
    }
  }

  /** The count depends only on the multiset of entries. */
  lemma {:induction false} CountAtLeastPermutation(s: seq<nat>, t: seq<nat>, k: nat)
    requires multiset(s) == multiset(t)
    ensures CountAtLeast(s, k) == CountAtLeast(t, k)
    decreases |s|
  {
    if s != [] {
      var i := PermutationSplit(s, t);
      CountAtLeastPermutation(s[1..], t[..i] + t[i + 1..], k);
      CountAtLeastAppend(t[..i] + [t[i]], t[i + 1..], k);
      CountAtLeastAppend(t[..i], [t[i]], k);
      CountAtLeastAppend(t[..i], t[i + 1..], k);
    }
  }

  /** Every entry of `s` is at least `k`: all of them are counted. */
  lemma {:induction false} CountAtLeastAll(s: seq<nat>, k: nat)
    requires forall i :: 0 <= i < |s| ==> s[i] >= k
    ensures CountAtLeast(s, k) == |s|
  {
    if s != [] {
      CountAtLeastAll(s[1..], k);
    }
  }

  /** No entry of `s` reaches `k`: none of them is counted. */
  lemma {:induction false} CountAtLeastNone(s: seq<nat>, k: nat)
    requires forall i :: 0 <= i < |s| ==> s[i] < k
    ensures CountAtLeast(s, k) == 0
  {
    if s != [] {
      CountAtLeastNone(s[1..], k);
    }
  }

  /** The scan stops at the first `h` that cannot be raised, and that `h`
      is attained. */
  lemma {:induction false} HFromStops(s: seq<nat>, from: nat)
    requires from <= |s| && CountAtLeast(s, from) >= from
    ensures from <= HFrom(s, from) <= |s|
    ensures CountAtLeast(s, HFrom(s, from)) >= HFrom(s, from)
    ensures HFrom(s, from) < |s| ==> CountAtLeast(s, HFrom(s, from) + 1) < HFrom(s, from) + 1
    decreases |s| - from
  {
    if from < |s| && CountAtLeast(s, from + 1) >= from + 1 {
      HFromStops(s, from + 1);
    }
  }

  /** The h-index is exactly the largest `k` for which at least `k` entries
      are each at least `k`: the property holds for `k` if and only if `k`
      does not exceed the h-index, and the h-index never exceeds the length. */
  lemma HIndexCharacterization(s: seq<nat>, k: nat)
    ensures HIndexOf(s) <= |s|
    ensures CountAtLeast(s, k) >= k <==> k <= HIndexOf(s)
  {
    var h := HIndexOf(s);
    HFromStops(s, 0);
    if k <= h {
      CountAtLeastAntitone(s, k, h);
    } else if h < |s| {
      CountAtLeastAntitone(s, h + 1, k);
    }
  }

  /** The h-index depends only on the multiset of counts. */
  lemma HIndexPermutationInvariant(s: seq<nat>, t: seq<nat>)
    requires multiset(s) == multiset(t)
    ensures HIndexOf(s) == HIndexOf(t)
  {
    var hs, ht := HIndexOf(s), HIndexOf(t);
    HIndexCharacterization(s, hs);
    HIndexCharacterization(t, ht);
    CountAtLeastPermutation(s, t, hs);
    CountAtLeastPermutation(s, t, ht);
    HIndexCharacterization(s, ht);
    HIndexCharacterization(t, hs);
  }

  /** On a descending list, the first `h + 1` entries are at least `s[h]`. */
  lemma SortedPrefixAtLeast(s: seq<nat>, h: nat)
    requires SortedDescBy(s, Id) && h < |s|
    ensures forall i :: 0 <= i <= h ==> s[i] >= s[h]
  {
    forall i | 0 <= i < h + 1
      ensures s[i] >= s[h]
    {
      if i < h {
        assert Id(s[i]) >= Id(s[h]);
      }
    }
  }

  /** On a descending list, the entries from position `h` on are at most `s[h]`. */
  lemma SortedSuffixAtMost(s: seq<nat>, h: nat)
    requires SortedDescBy(s, Id) && h < |s|
    ensures forall i :: h <= i < |s| ==> s[i] <= s[h]
  {
    forall i | h <= i < |s|
      ensures s[i] <= s[h]
    {
      if h < i {
        assert Id(s[h]) >= Id(s[i]);
      }
    }
  }

  lemma CountAtLeastSplit(s: seq<nat>, i: nat, k: nat)
    requires i <= |s|
    ensures CountAtLeast(s, k) == CountAtLeast(s[..i], k) + CountAtLeast(s[i..], k)
  {
    assert s == s[..i] + s[i..];
    CountAtLeastAppend(s[..i], s[i..], k);
  }

  /** On a descending list the test at position `h` of the scan, `s[h] > h`,
      says exactly that at least `h + 1` entries are each at least `h + 1`. */
  lemma SortedScanStep(s: seq<nat>, h: nat)
    requires SortedDescBy(s, Id) && h < |s|
    ensures s[h] > h <==> CountAtLeast(s, h + 1) >= h + 1
  {
    if s[h] > h {
      CountAtLeastSplit(s, h + 1, h + 1);
      SortedPrefixAtLeast(s, h);
      CountAtLeastAll(s[..h + 1], h + 1);
    } else {
      CountAtLeastSplit(s, h, h + 1);
      SortedSuffixAtMost(s, h);
      CountAtLeastNone(s[h..], h + 1);
    }
  }

  /** `calculateHIndex`: sorts the counts in place, descending, then walks
      `h` upward while `citations[h] > h`. */
  method CalculateHIndex(citations: array<nat>) returns (h: nat)
    modifies citations
    ensures SortedDescBy(citations[..], Id)
    ensures multiset(citations[..]) == old(multiset(citations[..]))
    ensures h == HIndexOf(old(citations[..]))
  {
    SortDescendingBy(citations, Id);
    ghost var sorted := citations[..];
    h := 0;
    while h < citations.Length && citations[h] > h
      invariant h <= citations.Length
      invariant citations[..] == sorted
      invariant HFrom(sorted, h) == HIndexOf(sorted)
    {
      SortedScanStep(sorted, h);
      h := h + 1;
    }
    if h < citations.Length {
      SortedScanStep(sorted, h);
    }
    HIndexPermutationInvariant(sorted, old(citations[..]));
  }

  /** Worked values: the strict test `citations[h] > h` gives the usual
      h-index, ties at the boundary included. */
  lemma HIndexExamples()
    ensures HIndexOf([]) == 0
    ensures HIndexOf([0, 0, 0]) == 0
    ensures HIndexOf([5, 5, 5, 5, 5]) == 5
    ensures HIndexOf([10, 8, 5, 4, 3]) == 4
    ensures HIndexOf([1]) == 1 && HIndexOf([0]) == 0
  {
  }
}
