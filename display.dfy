/** What the page shows once the aggregate is in: the repositories sorted
    by stars (the `repositories.sort(...)` passed to `OutputView`) and the
    two header figures of `OutputView`, the h-index and the star total. */
module Display {
  import opened Sorting
  import opened HIndex
  import opened Repositories
  import opened Pagination
  import opened Aggregation

  /** The two header figures of `OutputView`: `calculateHIndex` over a fresh
      array of the star counts, and the `reduce` total. */
  method OutputViewHeader(repositories: seq<Repository>) returns (hIndex: nat, totalStars: nat)
    ensures hIndex == HIndexOf(StarCounts(repositories))
    ensures totalStars == TotalStars(repositories)
    ensures hIndex * hIndex <= totalStars
  {
    totalStars := TotalStars(repositories);
    var counts := StarCounts(repositories);
    var citations := new nat[|counts|](i requires 0 <= i < |counts| => counts[i]);
    assert citations[..] == counts;
    hIndex := CalculateHIndex(citations);
    TotalStarsAtLeastHIndexSquared(repositories);
  }

  /** Sorts the repositories by stars, descending, in place, keeping
      repositories of equal stars in the order the aggregation produced
      them, and computes the header from the sorted list. Neither figure
      depends on the order, so both are those of the list as it was before
      sorting. */
  method ShowRepositories(repositories: array<Repository>) returns (hIndex: nat, totalStars: nat)
    modifies repositories
    ensures SortedDescBy(repositories[..], Stars)
    ensures multiset(repositories[..]) == old(multiset(repositories[..]))
    ensures hIndex == HIndexOf(StarCounts(old(repositories[..])))
    ensures totalStars == TotalStars(old(repositories[..]))
    ensures SameTieOrder(repositories[..], old(repositories[..]), Stars)
  {
    SortDescendingBy(repositories, Stars);
    hIndex, totalStars := OutputViewHeader(repositories[..]);
    StarCountsPermutation(repositories[..], old(repositories[..]));
    HIndexPermutationInvariant(StarCounts(repositories[..]), StarCounts(old(repositories[..])));
    TotalStarsPermutation(repositories[..], old(repositories[..]));
  }

  /** The total counts every repository with at least `k` stars for at least
      `k` stars. */
  lemma {:induction false} TotalStarsAtLeastCount(repos: seq<Repository>, k: nat)
    ensures k * CountAtLeast(StarCounts(repos), k) <= TotalStars(repos)
    decreases |repos|
  {
    if repos != [] {
      var init, last := repos[..|repos| - 1], repos[|repos| - 1];
      assert repos == init + [last];
      TotalStarsAtLeastCount(init, k);
      StarCountsAppend(init, [last]);
      CountAtLeastAppend(StarCounts(init), StarCounts([last]), k);
      assert StarCounts([last]) == [last.stargazersCount];
      var before := CountAtLeast(StarCounts(init), k);
      var one := CountAtLeast(StarCounts([last]), k);
      assert one == if last.stargazersCount >= k then 1 else 0;
      assert k * one <= last.stargazersCount;
      MulDistributes(k, before, one);
      assert TotalStars(repos) == TotalStars(init) + last.stargazersCount;
    }
  }

  lemma MulDistributes(a: nat, b: nat, c: nat)
    ensures a * (b + c) == a * b + a * c
  {
  }

  /** An h-index of h means h repositories with at least h stars each, so at
      least h * h stars in all. */
  lemma TotalStarsAtLeastHIndexSquared(repos: seq<Repository>)
    ensures HIndexOf(StarCounts(repos)) * HIndexOf(StarCounts(repos)) <= TotalStars(repos)
  {
    var h := HIndexOf(StarCounts(repos));
    var c := CountAtLeast(StarCounts(repos), h);
    HIndexCharacterization(StarCounts(repos), h);
    TotalStarsAtLeastCount(repos, h);
    MulDistributes(h, h, c - h);
  }

  function Repo(name: string, stars: nat, owner: string): Repository {
    Repository(name, None, stars, owner)
  }

  /** A user with three repositories of 2 stars each, in one organisation
      whose two repositories have 10 and 1 stars. */
  function SmallAccount(): Server {
    Server(
      [Ok([Repo("a", 2, "alice"), Repo("b", 2, "alice"), Repo("c", 2, "alice")])],
      Ok([OrgRef("acme")]),
      (org: string) => if org == "acme" then [Ok([Repo("x", 10, "acme"), Repo("y", 1, "acme")])] else [])
  }

  /** Five repositories and 17 stars; the counts 10, 2, 2, 2, 1 have an
      h-index of 2, since only one of them reaches 3. */
  lemma SmallAccountExample()
    ensures |Aggregate(SmallAccount())| == 5
    ensures TotalStars(Aggregate(SmallAccount())) == 17
    ensures HIndexOf(StarCounts(Aggregate(SmallAccount()))) == 2
  {
    var server := SmallAccount();
    var own := [Repo("a", 2, "alice"), Repo("b", 2, "alice"), Repo("c", 2, "alice")];
    var acme := [Repo("x", 10, "acme"), Repo("y", 1, "acme")];
    assert Collected(server.userPages) == own;
    assert Collected(server.orgPages("acme")) == acme;
    assert OrgRepositories([OrgRef("acme")], server.orgPages) == acme;
    var all := own + acme;
    assert Aggregate(server) == all;
    assert StarCounts(all) == [2, 2, 2, 10, 1];
    TotalStarsAppend(own, acme);
    assert TotalStars(own) == 6;
    assert TotalStars(acme) == 11;
    var counts := [2, 2, 2, 10, 1];
    assert CountAtLeast(counts, 3) == 1;
    assert CountAtLeast(counts, 2) == 4;
    HIndexCharacterization(counts, 2);
    HIndexCharacterization(counts, 3);
  }

  /** The table order for the small account: the 10-star organisation
      repository, then the user's three 2-star repositories in their
      aggregation order, then the 1-star one. Any stable descending order
      of the aggregate is this one. */
  lemma SmallAccountDisplayOrder(shown: seq<Repository>)
    requires SortedDescBy(shown, Stars)
    requires SameTieOrder(shown, Aggregate(SmallAccount()), Stars)
    ensures shown == [Repo("x", 10, "acme"), Repo("a", 2, "alice"), Repo("b", 2, "alice"),
                      Repo("c", 2, "alice"), Repo("y", 1, "acme")]
  {
    var server := SmallAccount();
    var own := [Repo("a", 2, "alice"), Repo("b", 2, "alice"), Repo("c", 2, "alice")];
    var acme := [Repo("x", 10, "acme"), Repo("y", 1, "acme")];
    assert Collected(server.userPages) == own;
    assert Collected(server.orgPages("acme")) == acme;
    assert OrgRepositories([OrgRef("acme")], server.orgPages) == acme;
    var aggregate := own + acme;
    assert Aggregate(server) == aggregate;
    var expected := [acme[0]] + own + [acme[1]];
    forall k
      ensures WithKey(expected, Stars, k) == WithKey(aggregate, Stars, k)
    {
      WithKeyAppend([acme[0]] + own, [acme[1]], Stars, k);
      WithKeyAppend([acme[0]], own, Stars, k);
      WithKeyAppend(own, acme, Stars, k);
      WithKeyAppend([acme[0]], [acme[1]], Stars, k);
      assert [acme[0]] + [acme[1]] == acme;
    }
    StableSortUnique(shown, expected, Stars);
  }
}
