# GitHub H-Index: a Dafny model of the page's logic

The page takes a GitHub username and lists the user's repositories together
with the repositories of every organisation the user belongs to. It shows the
user's h-index over star counts and the total number of stars. This project
models that logic from `src/pages/index.tsx`:

- **`calculateHIndex`** (module `HIndex`). It sorts the star counts in place,
  descending. Then it walks `h` upward while `citations[h] > h`. The model
  keeps the array and the loop. It proves the result against an
  order-independent reference definition, `HIndexOf`: the largest `h` such
  that at least `h` counts are each at least `h`.
- **The two sorts** (module `Sorting`). Both `Array.prototype.sort` calls use
  a comparator `(a, b) => key(b) - key(a)`. One sorts the counts before the
  scan. The other sorts the repositories by `stargazers_count` before display.
  Both are modelled by one in-place method, `SortDescendingBy`, proved to give
  a descending permutation of its input that keeps elements of equal key in
  their input order, as JavaScript's sort does. Repositories with equal star
  counts therefore stay in aggregation order in the table.
- **`totalStars`** (module `Repositories`). The `reduce` is a left fold from
  0, modelled as the recursive function `TotalStars`.
- **The pagination loop** (module `Pagination`). It requests pages 1, 2, 3, …
  and appends each successful page. It continues only after a page of exactly
  100 items. On a failure it stops and keeps what it has gathered.
  `FetchAllPages` keeps that loop with its `page` and `fetchMore` variables.
  It is proved against the reference definitions `Collected` and
  `RequestCount`.
- **`fetchOrgRepos` / `fetchUserAndOrgRepos`** (module `Aggregation`). The
  user's repositories come first. Then the organisation listing is fetched.
  Then each listed organisation's repositories are appended, in listing order,
  with no deduplication. A failed listing adds no organisation repositories.
- **What `OutputView` shows** (module `Display`). These are the header
  figures, computed from the list after the display sort.

`fetch` is replaced by a scripted server (`Pagination.Response`,
`Aggregation.Server`). A response is `Ok(items)` for a successful JSON array,
or `Err` for a non-ok status or a thrown exception. For each repository
listing (the user's, and each organisation's by login) the server holds a
finite sequence of responses, and the response to page `p` is element
`p - 1`. The organisation listing is not paginated and is one response.
Asking past the end of the script returns an empty page. That choice makes
every loop terminate. A server that answered every page with exactly 100
items would keep the real loop running forever, and that case is not
modelled. Each fetch method also returns the sequence of requests it issued
(`Aggregation.Request`), so the order of requests and the point where they
stop can be stated.

For a user with three repositories of 2 stars each in an organisation whose
two repositories have 10 and 1 stars, the code returns an h-index of 2.
Sorted, the counts are 10, 2, 2, 2, 1, and the scan stops at `h = 2` because
`citations[2] > 2` fails. Only one count reaches 3, so 2 is also the h-index
by its definition. `Display.SmallAccountExample` proves this value.

## Model

| member | source | states |
|---|---|---|
| `Sorting.SortDescendingBy` | src/pages/index.tsx:30 | sorts the array in place so that keys do not increase (comparator `b - a`); the result is a permutation of the original contents, and elements of equal key keep their original order (stable) |
| `Sorting.StableSortUnique` | src/pages/index.tsx:254 | two descending orders with the same order among equal keys are equal, so the sort's contract determines its output completely |
| `HIndex.CalculateHIndex` | src/pages/index.tsx:29-38 | leaves `citations` sorted descending and a permutation of the original counts; returns the h-index of the original counts (`HIndexOf`) |
| `HIndex.HIndexCharacterization` | src/pages/index.tsx:239 | for every `k`, at least `k` counts are each at least `k` if and only if `k <= HIndexOf(s)`; and `HIndexOf(s) <= |s|`. So the h-index is the largest such `k`, is 0 for no counts, and is attained |
| `HIndex.HIndexPermutationInvariant` | src/pages/index.tsx:30 | two lists with the same multiset of counts have the same h-index, so sorting first does not change the answer |
| `HIndex.SortedScanStep` | src/pages/index.tsx:33 | on a descending list, the loop test `s[h] > h` holds exactly when at least `h + 1` counts are each at least `h + 1` |
| `HIndex.HFromStops` | src/pages/index.tsx:32-35 | the upward scan ends at a value `h` within the list length that is attained (at least `h` counts `>= h`), and `h + 1` is not attained when `h` is below the length |
| `HIndex.CountAtLeastPermutation` | src/pages/index.tsx:30 | how many counts reach a threshold depends only on the multiset of counts |
| `HIndex.CountAtLeastAntitone` | src/pages/index.tsx:239 | raising the threshold never raises the number of counts that reach it |
| `HIndex.HIndexExamples` | src/pages/index.tsx:29-38 | worked values: `[]` gives 0, `[0,0,0]` 0, `[5,5,5,5,5]` 5, `[10,8,5,4,3]` 4, `[1]` 1, `[0]` 0 |
| `Repositories.StarCountsAppend` | src/pages/index.tsx:48 | mapping a concatenation of repository lists gives the concatenation of their star-count lists, so the counts keep the repositories' order and multiplicity |
| `Repositories.TotalStars` | src/pages/index.tsx:42 | the fold is 0 for no repositories and at least the star count of every repository |
| `Repositories.TotalStarsAppend` | src/pages/index.tsx:42 | the total of a concatenation is the sum of the totals: the fold is the sum of `stargazers_count` over the list |
| `Repositories.TotalStarsPermutation` | src/pages/index.tsx:254 | the total depends only on the multiset of repositories, so the display sort does not change it |
| `Repositories.StarCountsPermutation` | src/pages/index.tsx:254 | permuting the repositories permutes the mapped star counts |
| `Pagination.FetchAllPages` | src/pages/index.tsx:144-163 | the loop's result is `Collected(responses)` and the pages it requests are exactly 1 .. `RequestCount(responses)`, in order |
| `Pagination.StopRule` | src/pages/index.tsx:156-161 | every page before the last requested one came back `Ok` with exactly 100 items, and the last requested page failed or was not exactly full: the loop stops right after the first such page and asks for nothing after it |
| `Pagination.CollectedIsGathered` | src/pages/index.tsx:157 | a source's result is the in-order concatenation of what every requested page returned, a failed page contributing nothing |
| `Pagination.PartialResultsKept` | src/pages/index.tsx:159-162 | what pages 1..p returned is a prefix of the final result for every requested p: items already gathered are never discarded |
| `Pagination.ErrorKeepsEarlierPages` | src/pages/index.tsx:150-162 | after k full pages and a failure on page k + 1, exactly k + 1 requests are made and the result is everything the k full pages returned |
| `Pagination.GatheredGrows` | src/pages/index.tsx:157 | gathering more pages only extends what was gathered before |
| `Pagination.FullPageThenEmptyPage` | src/pages/index.tsx:156 | 100 items on page 1 and none on page 2 give exactly two requests and the 100 items |
| `Pagination.FirstPageFails` | src/pages/index.tsx:152-161 | a failure on page 1 gives one request and an empty result, whatever later pages would hold |
| `Aggregation.FetchOrgRepos` | src/pages/index.tsx:143-166 | returns what the organisation's paginated loop collected and the page requests it made, tagged with the organisation |
| `Aggregation.FetchUserAndOrgRepos` | src/pages/index.tsx:168-211 | returns `Aggregate(server)` (user repositories, then each listed organisation's, in order) and the request sequence `AggregateRequests(server)` (user pages, the listing, then each organisation's pages) |
| `Aggregation.OrgRepositoriesAppend` | src/pages/index.tsx:202-205 | the repositories of a longer organisation list are those of the first part followed by those of the rest |
| `Aggregation.OrgSegment` | src/pages/index.tsx:202-205 | each listed organisation contributes exactly its own loop's result, whole, between the organisations before it and those after it, with no merging or deduplication |
| `Aggregation.OrgRequestsAppend` | src/pages/index.tsx:202-205 | the requests for a longer organisation list are those of the first part followed by those of the rest |
| `Aggregation.EveryListedOrgIsFetched` | src/pages/index.tsx:202-205 | when the listing succeeds, page 1 of every listed organisation is requested, whatever happened in the other organisations' loops |
| `Aggregation.ListingFailureKeepsUserRepos` | src/pages/index.tsx:192-208 | when the organisation listing fails, the aggregate is exactly the user's repositories and no organisation repository page is requested |
| `Aggregation.OrgRepositoriesLength` | src/pages/index.tsx:202-205 | the organisations' part is as long as the sum of what each organisation's loop collected |
| `Aggregation.AggregateLength` | src/pages/index.tsx:210 | the aggregate's length is the user's count plus the sum of the organisations' counts (none when the listing failed) |
| `Display.OutputViewHeader` | src/pages/index.tsx:42-51 | the header shows the h-index of the star counts and the star total, and the total is at least the square of the h-index |
| `Display.ShowRepositories` | src/pages/index.tsx:254 | sorts the repositories by stars, descending, as a permutation, keeping repositories of equal stars in aggregation order; the header figures computed from the sorted list equal those of the list before sorting |
| `Display.TotalStarsAtLeastCount` | src/pages/index.tsx:239 | for any `k`, `k` times the number of repositories with at least `k` stars is at most the total |
| `Display.TotalStarsAtLeastHIndexSquared` | src/pages/index.tsx:239 | an h-index of `h` means `h` repositories with at least `h` stars each, so at least `h * h` stars in all |
| `Display.SmallAccountExample` | src/pages/index.tsx:168-211 | three user repositories of 2 stars and one organisation with 10 and 1 stars aggregate to five repositories, 17 stars and an h-index of 2 |
| `Display.SmallAccountDisplayOrder` | src/pages/index.tsx:254 | for the small account, the table lists the 10-star organisation repository, then the user's three 2-star repositories in their aggregation order, then the 1-star one |

## Left out

- Rendering in `OutputView` and `Home` (tables, skeleton rows, the logo, links, the form) is presentation. So is `src/pages/_app.tsx`, which is not part of this model.
- The real `fetch`, `response.json()` and URL construction are network I/O. They are replaced by the scripted `Server`. A JSON body that is not an array is not modelled; the model treats a failed `json()` like a failed status (`Err`).
- `console.log` and `console.error` are observability only and are left out.
- React state (`useState`, `setRepositories`, `setIsLoading`, the `fetchKey` counter) and `async`/`await` scheduling are framework plumbing. The model runs one fetch-and-aggregate pass sequentially. Nothing guards against a stale pass, and the source has no such guard either.
- Pagination.FetchAllPages: a server that returns exactly 100 items on every page forever is not modelled. The response script is finite, and past its end the server answers with an empty page.
- The JavaScript engine's sorting algorithm is not visible. An insertion sort stands in for it, and only its result is specified: descending, a permutation, and stable.
- Star counts are `nat`. JavaScript `number` floating point and its precision limits are not modelled.
