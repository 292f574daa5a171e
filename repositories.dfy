/** The repository record the listing endpoints return, and the star total
    shown above and below the table. */
module Repositories {
  import opened Sorting

  datatype Option<T> = None | Some(value: T)

  /** A repository as the page uses it: `description` may be null. */
  datatype Repository = Repository(
    name: string,
    description: Option<string>,
    stargazersCount: nat,
    ownerLogin: string)

  /** The sort key of the display order. */
  function Stars(r: Repository): nat { r.stargazersCount }

  /** `repositories.map((repo) => repo.stargazers_count)`. */
  function StarCounts(repos: seq<Repository>): seq<nat> {
    seq(|repos|, i requires 0 <= i < |repos| => repos[i].stargazersCount)
  }

  /** `repositories.reduce((sum, x) => sum + x.stargazers_count, 0)`: a left
      fold starting from 0. The total is 0 for no repositories and is at
      least the star count of every repository. */
  function TotalStars(repos: seq<Repository>): (total: nat)
    ensures repos == [] ==> total == 0
    ensures forall i :: 0 <= i < |repos| ==> repos[i].stargazersCount <= total
  {
    if repos == [] then 0
    else TotalStars(repos[..|repos| - 1]) + repos[|repos| - 1].stargazersCount
  }

  /** The total of a concatenation is the sum of the totals. */
  lemma {:induction false} TotalStarsAppend(a: seq<Repository>, b: seq<Repository>)
    ensures TotalStars(a + b) == TotalStars(a) + TotalStars(b)
    decreases |b|
  {
    if b == [] {
      assert a + b == a;
    } else {
      assert (a + b)[..|a + b| - 1] == a + b[..|b| - 1];
      TotalStarsAppend(a, b[..|b| - 1]);
    }
  }

  /** The total depends only on the multiset of repositories, so sorting the
      list for display does not change it. */
  lemma {:induction false} TotalStarsPermutation(s: seq<Repository>, t: seq<Repository>)
    requires multiset(s) == multiset(t)
    ensures TotalStars(s) == TotalStars(t)
    decreases |s|
  {
    if s != [] {
      var i := PermutationSplit(s, t);
      TotalStarsPermutation(s[1..], t[..i] + t[i + 1..]);
      TotalStarsAppend([s[0]], s[1..]);
      TotalStarsAppend(t[..i] + [t[i]], t[i + 1..]);
      TotalStarsAppend(t[..i], [t[i]]);
      TotalStarsAppend(t[..i], t[i + 1..]);
    } else {
      assert t == [];
    }
  }

  /** Mapping a concatenation maps each part in turn: the counts keep the
      order and multiplicity of the repositories. */
  lemma StarCountsAppend(a: seq<Repository>, b: seq<Repository>)
    ensures StarCounts(a + b) == StarCounts(a) + StarCounts(b)
  {
  }

  /** Taking repository `i` out of the list takes its star count out of the
      multiset of counts. */
  lemma StarCountsRemove(t: seq<Repository>, i: nat)
    requires i < |t|
    ensures multiset(StarCounts(t)) == multiset(StarCounts(t[..i] + t[i + 1..])) + multiset{t[i].stargazersCount}
  {
    assert t == t[..i] + [t[i]] + t[i + 1..];
    StarCountsAppend(t[..i] + [t[i]], t[i + 1..]);
    StarCountsAppend(t[..i], [t[i]]);
    StarCountsAppend(t[..i], t[i + 1..]);
  }

  /** Permuting the repositories permutes their star counts. */
  lemma {:induction false} StarCountsPermutation(s: seq<Repository>, t: seq<Repository>)
    requires multiset(s) == multiset(t)
    ensures multiset(StarCounts(s)) == multiset(StarCounts(t))
    decreases |s|
  {
    if s != [] {
      var i := PermutationSplit(s, t);
      StarCountsPermutation(s[1..], t[..i] + t[i + 1..]);
      StarCountsRemove(t, i);
      StarCountsRemove(s, 0);
      assert s[..0] + s[1..] == s[1..];
    } else {
      assert t == [];
    }
  }
}
