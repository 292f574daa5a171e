/** `fetchUserAndOrgRepos`: the user's repositories, then the organisation
    listing, then every listed organisation's repositories, with each
    `fetch` replaced by a script of server responses. */
module Aggregation {
  import opened Pagination
  import opened Repositories

  /** An entry of the organisation listing; only `login` is used. */
  datatype OrgRef = OrgRef(login: string)

  /** The requests the aggregation issues, in the order it issues them. */
  datatype Request =
    | UserReposPage(page: nat)               // /users/{username}/repos?per_page=100&page=n
    | UserOrgs                               // /users/{username}/orgs
    | OrgReposPage(org: string, page: nat)   // /orgs/{org}/repos?per_page=100&page=n

  /** The scripted server: what the user's repository listing answers, what
      the organisation listing answers, and what each organisation's
      repository listing answers, by login. */
  datatype Server = Server(
    userPages: seq<Response<Repository>>,
    orgListing: Response<OrgRef>,
    orgPages: string -> seq<Response<Repository>>)

  function UserPageRequests(pages: seq<nat>): seq<Request> {
    seq(|pages|, i requires 0 <= i < |pages| => UserReposPage(pages[i]))
  }

  function OrgPageRequests(org: string, pages: seq<nat>): seq<Request> {
    seq(|pages|, i requires 0 <= i < |pages| => OrgReposPage(org, pages[i]))
  }

  /** Reference definition: the organisations' repositories, appended in
      listing order. */
  function OrgRepositories(orgs: seq<OrgRef>, orgPages: string -> seq<Response<Repository>>): seq<Repository>
  {
    if orgs == [] then []
    else OrgRepositories(orgs[..|orgs| - 1], orgPages) + Collected(orgPages(orgs[|orgs| - 1].login))
  }

  /** Reference definition: the requests of the organisations' loops. */
  function OrgRequests(orgs: seq<OrgRef>, orgPages: string -> seq<Response<Repository>>): seq<Request>
  {
    if orgs == [] then []
    else
      var org := orgs[|orgs| - 1].login;
      OrgRequests(orgs[..|orgs| - 1], orgPages) + OrgPageRequests(org, PageNumbers(RequestCount(orgPages(org))))
  }

  /** Reference definition of the aggregate: the user's repositories, then,
      when the listing succeeded, every organisation's. */
  function Aggregate(server: Server): seq<Repository> {
    Collected(server.userPages) +
      match server.orgListing
      case Err => []
      case Ok(orgs) => OrgRepositories(orgs, server.orgPages)
  }

  /** Reference definition of the request sequence. */
  function AggregateRequests(server: Server): seq<Request> {
    UserPageRequests(PageNumbers(RequestCount(server.userPages))) + [UserOrgs] +
      match server.orgListing
      case Err => []
      case Ok(orgs) => OrgRequests(orgs, server.orgPages)
  }

  /** `fetchOrgRepos(org)`: the paginated loop against one organisation. */
  method FetchOrgRepos(org: string, orgPages: string -> seq<Response<Repository>>)
    returns (orgRepos: seq<Repository>, log: seq<Request>)
    ensures orgRepos == Collected(orgPages(org))
    ensures log == OrgPageRequests(org, PageNumbers(RequestCount(orgPages(org))))
  {
    var pages;
    orgRepos, pages := FetchAllPages(orgPages(org));
    log := OrgPageRequests(org, pages);
  }

  /** `fetchUserAndOrgRepos()`: returns the aggregate and the requests made. */
  method FetchUserAndOrgRepos(server: Server) returns (allRepositories: seq<Repository>, log: seq<Request>)
    ensures allRepositories == Aggregate(server)
    ensures log == AggregateRequests(server)
  {
    var pages;
    allRepositories, pages := FetchAllPages(server.userPages);
    log := UserPageRequests(pages) + [UserOrgs];
    match server.orgListing {
      case Err =>
      case Ok(orgs) =>
        var i := 0;
        while i < |orgs|
          invariant i <= |orgs|
          invariant allRepositories == Collected(server.userPages) + OrgRepositories(orgs[..i], server.orgPages)
          invariant log == UserPageRequests(pages) + [UserOrgs] + OrgRequests(orgs[..i], server.orgPages)
        {
          var orgRepos, orgLog := FetchOrgRepos(orgs[i].login, server.orgPages);
          assert orgs[..i + 1][..i] == orgs[..i];
          allRepositories := allRepositories + orgRepos;
          log := log + orgLog;
          i := i + 1;
        }
        assert orgs[..|orgs|] == orgs;
    }
  }

  /** Listing more organisations appends their repositories after the
      earlier ones'. */
  lemma {:induction false} OrgRepositoriesAppend(a: seq<OrgRef>, b: seq<OrgRef>, orgPages: string -> seq<Response<Repository>>)
    ensures OrgRepositories(a + b, orgPages) == OrgRepositories(a, orgPages) + OrgRepositories(b, orgPages)
    decreases |b|
  {
    if b == [] {
      assert a + b == a;
    } else {
      assert (a + b)[..|a + b| - 1] == a + b[..|b| - 1];
      OrgRepositoriesAppend(a, b[..|b| - 1], orgPages);
    }
  }

  /** An organisation listed between `before` and `after` contributes
      exactly what its own loop collected, whole, after the repositories of
      the organisations before it and ahead of those after it; nothing is
      merged or deduplicated. */
  lemma OrgSegment(before: seq<OrgRef>, org: OrgRef, after: seq<OrgRef>, orgPages: string -> seq<Response<Repository>>)
    ensures OrgRepositories(before + [org] + after, orgPages) ==
      OrgRepositories(before, orgPages) + Collected(orgPages(org.login)) + OrgRepositories(after, orgPages)
  {
    OrgRepositoriesAppend(before + [org], after, orgPages);
    OrgRepositoriesAppend(before, [org], orgPages);
    OrgRepositoriesSingle(org, orgPages);
  }

  lemma OrgRepositoriesSingle(org: OrgRef, orgPages: string -> seq<Response<Repository>>)
    ensures OrgRepositories([org], orgPages) == Collected(orgPages(org.login))
  {
    assert [org][..0] == [];
  }

  lemma {:induction false} OrgRequestsAppend(a: seq<OrgRef>, b: seq<OrgRef>, orgPages: string -> seq<Response<Repository>>)
    ensures OrgRequests(a + b, orgPages) == OrgRequests(a, orgPages) + OrgRequests(b, orgPages)
    decreases |b|
  {
    if b == [] {
      assert a + b == a;
    } else {
      var last := b[|b| - 1];
      var own := OrgPageRequests(last.login, PageNumbers(RequestCount(orgPages(last.login))));
      assert (a + b)[..|a + b| - 1] == a + b[..|b| - 1];
      assert (a + b)[|a + b| - 1] == last;
      assert OrgRequests(a + b, orgPages) == OrgRequests(a + b[..|b| - 1], orgPages) + own;
      assert OrgRequests(b, orgPages) == OrgRequests(b[..|b| - 1], orgPages) + own;
      OrgRequestsAppend(a, b[..|b| - 1], orgPages);
    }
  }

  /** When the organisation listing succeeds, every listed organisation gets
      its own loop, starting at page 1, whatever happened to the loops of
      the organisations before it. */
  lemma EveryListedOrgIsFetched(server: Server, i: nat)
    requires server.orgListing.Ok? && i < |server.orgListing.items|
    ensures OrgReposPage(server.orgListing.items[i].login, 1) in AggregateRequests(server)
  {
    var orgs, orgPages := server.orgListing.items, server.orgPages;
    var org := orgs[i].login;
    assert orgs == orgs[..i] + [orgs[i]] + orgs[i + 1..];
    OrgRequestsAppend(orgs[..i] + [orgs[i]], orgs[i + 1..], orgPages);
    OrgRequestsAppend(orgs[..i], [orgs[i]], orgPages);
    StopRule(orgPages(org));
    var own := OrgPageRequests(org, PageNumbers(RequestCount(orgPages(org))));
    assert own[0] == OrgReposPage(org, 1);
    assert OrgRequests([orgs[i]], orgPages) == own;
    assert own[0] in OrgRequests(orgs, orgPages);
  }

  /** When the organisation listing fails, the aggregate is exactly the
      user's repositories and no organisation repository is requested. */
  lemma ListingFailureKeepsUserRepos(server: Server)
    requires server.orgListing.Err?
    ensures Aggregate(server) == Collected(server.userPages)
    ensures forall r :: r in AggregateRequests(server) ==> !r.OrgReposPage?
  {
    var log := AggregateRequests(server);
    forall r | r in log
      ensures !r.OrgReposPage?
    {
      var k :| 0 <= k < |log| && log[k] == r;
    }
  }

  /** How many repositories the organisations' loops gathered together. */
  function OrgRepositoryCount(orgs: seq<OrgRef>, orgPages: string -> seq<Response<Repository>>): nat
  {
    if orgs == [] then 0
    else OrgRepositoryCount(orgs[..|orgs| - 1], orgPages) + |Collected(orgPages(orgs[|orgs| - 1].login))|
  }

  /** With no deduplication, the aggregate's length is the sum of what every
      source gathered. */
  lemma {:induction false} OrgRepositoriesLength(orgs: seq<OrgRef>, orgPages: string -> seq<Response<Repository>>)
    ensures |OrgRepositories(orgs, orgPages)| == OrgRepositoryCount(orgs, orgPages)
  {
    if orgs != [] {
      OrgRepositoriesLength(orgs[..|orgs| - 1], orgPages);
    }
  }

  lemma AggregateLength(server: Server)
    ensures |Aggregate(server)| == |Collected(server.userPages)| +
      match server.orgListing
      case Err => 0
      case Ok(orgs) => OrgRepositoryCount(orgs, server.orgPages)
  {
    if server.orgListing.Ok? {
      OrgRepositoriesLength(server.orgListing.items, server.orgPages);
    }
  }
}
