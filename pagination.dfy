/** The paginated listing loop of `fetchOrgRepos` (and, identically, of the
    user-repository part of `fetchUserAndOrgRepos`), with `fetch` replaced
    by a finite script of server responses. */
module Pagination {

  /** `per_page=100` in every listing URL. */
  const PageSize: nat := 100

  /** What one request yields: a successful JSON array, or a failure
      (a non-ok status or a thrown exception). */
  datatype Response<T> = Ok(items: seq<T>) | Err

  /** The response to page `page` (1-based) of a source whose server answers
      with `responses`; past the end of the script the server returns an
      empty page. */
  function Respond<T>(responses: seq<Response<T>>, page: nat): Response<T>
    requires 1 <= page
  {
    if page <= |responses| then responses[page - 1] else Ok([])
  }

  /** A page after which the loop asks for another: `repos.length === 100`. */
  predicate IsFull<T>(r: Response<T>) {
    r.Ok? && |r.items| == PageSize
  }

  /** What a response contributes to the accumulator. */
  function ItemsOf<T>(r: Response<T>): seq<T> {
    if r.Ok? then r.items else []
  }

  /** Reference definition of a source's result: each successful page is
      appended, and the next page is asked for only after a full one. */
  function Collected<T>(responses: seq<Response<T>>): seq<T>
    decreases |responses|
  {
    if responses == [] then []
    else if IsFull(responses[0]) then responses[0].items + Collected(responses[1..])
    else ItemsOf(responses[0])
  }

  /** Reference definition of how many requests a source costs. */
  function RequestCount<T>(responses: seq<Response<T>>): nat
    decreases |responses|
  {
    if responses == [] then 1
    else if IsFull(responses[0]) then 1 + RequestCount(responses[1..])
    else 1
  }

  /** The page numbers 1, 2, ..., n in order. */
  function PageNumbers(n: nat): seq<nat> {
    seq(n, i requires 0 <= i < n => i + 1)
  }

  /** Concatenation of what pages 1..n contributed, in page order. */
  function Gathered<T>(responses: seq<Response<T>>, n: nat): seq<T> {
    if n == 0 then [] else Gathered(responses, n - 1) + ItemsOf(Respond(responses, n))
  }

  /** The loop of `fetchOrgRepos`: request page 1, 2, ...; append each
      successful page; go on only while the last page held exactly
      `PageSize` items; stop at the first failure, keeping what was gathered.
      Returns the gathered items and the page numbers requested, in order. */
  method FetchAllPages<T>(responses: seq<Response<T>>) returns (gathered: seq<T>, requested: seq<nat>)
    ensures gathered == Collected(responses)
    ensures requested == PageNumbers(RequestCount(responses))
  {
    var page := 1;
    var fetchMore := true;
    gathered := [];
    requested := [];
    while fetchMore
      invariant 1 <= page <= |responses| + 2
      invariant fetchMore ==> page <= |responses| + 1 && |requested| == page - 1
      invariant fetchMore ==> gathered + Collected(responses[page - 1..]) == Collected(responses)
      invariant fetchMore ==> |requested| + RequestCount(responses[page - 1..]) == RequestCount(responses)
      invariant !fetchMore ==> gathered == Collected(responses) && |requested| == RequestCount(responses)
      invariant forall i :: 0 <= i < |requested| ==> requested[i] == i + 1
      decreases if fetchMore then |responses| + 2 - page else 0
    {
      var response := Respond(responses, page);
      requested := requested + [page];
      assert responses[page - 1..] == [] || responses[page - 1..][0] == response;
      match response {
        case Err =>
          fetchMore := false;
        case Ok(repos) =>
          fetchMore := |repos| == PageSize;
          assert page <= |responses| ==> responses[page - 1..][1..] == responses[page..];
          gathered := gathered + repos;
          page := page + 1;
      }
    }
  }

  lemma {:induction false} RespondShift<T>(responses: seq<Response<T>>, page: nat)
    requires 1 <= page && responses != []
    ensures Respond(responses[1..], page) == Respond(responses, page + 1)
  {
  }

  /** The stopping rule: pages 1 .. n-1 all came back full, and page n (the
      last one requested) failed or came back short. So the loop stops right
      after the first page that is not exactly full, and asks for nothing
      after it. */
  lemma {:induction false} StopRule<T>(responses: seq<Response<T>>)
    ensures 1 <= RequestCount(responses) <= |responses| + 1
    ensures forall p :: 1 <= p < RequestCount(responses) ==> IsFull(Respond(responses, p))
    ensures !IsFull(Respond(responses, RequestCount(responses)))
    decreases |responses|
  {
    if responses != [] && IsFull(responses[0]) {
      var n := RequestCount(responses);
      StopRule(responses[1..]);
      forall p | 2 <= p < n
        ensures IsFull(Respond(responses, p))
      {
        RespondShift(responses, p - 1);
      }
      RespondShift(responses, n - 1);
    }
  }

  /** Gathering pages 1..n+1 is page 1 followed by pages 2..n+1. */
  lemma {:induction false} GatheredShift<T>(responses: seq<Response<T>>, n: nat)
    requires responses != []
    ensures Gathered(responses, n + 1) == ItemsOf(responses[0]) + Gathered(responses[1..], n)
  {
    if n > 0 {
      GatheredShift(responses, n - 1);
      RespondShift(responses, n);
    }
  }

  /** A source's result is exactly the in-order concatenation of what every
      requested page returned: nothing is skipped, reordered or dropped. */
  lemma {:induction false} CollectedIsGathered<T>(responses: seq<Response<T>>)
    ensures Collected(responses) == Gathered(responses, RequestCount(responses))
    decreases |responses|
  {
    if responses == [] {
    } else if IsFull(responses[0]) {
      CollectedIsGathered(responses[1..]);
      GatheredShift(responses, RequestCount(responses[1..]));
    } else {
      GatheredShift(responses, 0);
    }
  }

  /** Gathering more pages only ever extends what was gathered before. */
  lemma {:induction false} GatheredGrows<T>(responses: seq<Response<T>>, m: nat, n: nat)
    requires m <= n
    ensures Gathered(responses, m) <= Gathered(responses, n)
    decreases n - m
  {
    if m < n {
      GatheredGrows(responses, m, n - 1);
    }
  }

  /** What pages 1..p returned, for any page p up to the last requested one,
      is a prefix of the source's result: the loop never discards items. */
  lemma PartialResultsKept<T>(responses: seq<Response<T>>, p: nat)
    requires p <= RequestCount(responses)
    ensures Gathered(responses, p) <= Collected(responses)
  {
    CollectedIsGathered(responses);
    GatheredGrows(responses, p, RequestCount(responses));
  }

  /** A failure on page k + 1 after k full pages: exactly k + 1 requests were
      made, and everything the first k pages returned is kept. */
  lemma ErrorKeepsEarlierPages<T>(responses: seq<Response<T>>, k: nat)
    requires k < |responses| && responses[k].Err?
    requires forall i :: 0 <= i < k ==> IsFull(responses[i])
    ensures RequestCount(responses) == k + 1
    ensures Collected(responses) == Gathered(responses, k)
  {
    StopRule(responses);
    assert !IsFull(Respond(responses, k + 1));
    CollectedIsGathered(responses);
  }

  /** A full first page and an empty second page: exactly two requests,
      and the first page's items. */
  lemma FullPageThenEmptyPage<T>(items: seq<T>)
    requires |items| == PageSize
    ensures RequestCount([Ok(items), Ok([])]) == 2
    ensures Collected([Ok(items), Ok([])]) == items
  {
    assert [Ok(items), Ok([])][1..] == [Ok([])];
  }

  /** A failure on page 1: one request and nothing gathered, whatever the
      later pages would have been. */
  lemma FirstPageFails<T>(later: seq<Response<T>>)
    ensures RequestCount([Err] + later) == 1
    ensures Collected([Err] + later) == []
  {
  }
}
