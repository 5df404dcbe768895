# GitHub repository commit counter, modelled in Dafny

`get_repos_and_commit_counts(user, session)` lists the repositories of a GitHub user, page
by page, and makes one commits request per repository. It records the length of each
commits body as that repository's commit count. It raises `ValueError` for a missing or
empty user. It raises `GitHubApiError` when a listing page answers 404 (user not found) or
403 (rate limit). `_get_next_url` gives the URL to fetch after a page: the group of the first
`<URL>; rel="next"` in the page's `Link` header.

The model runs the collector against the test suite's fake transport:

- `FakeResponse` is a canned status, decoded JSON body and header map.
- `FakeSession` answers from a map keyed by URL, answers 404 for unknown URLs, and logs every
  request in order.

Files:

- `wrappers.dfy`: `Option` and `Result`.
- `text.dfy`: Python's substring test `p in s` and `str.lower` (ASCII).
- `fake_transport.dfy`: decoded bodies (`Json`), `FakeResponse`, and the `FakeSession` class
  with its `calls` log.
- `link_header.dfy`: `_get_next_url`. The regular expression `<([^>]+)>;\s*rel="next"` is
  written as a left-to-right scan. It is proved equal to a declarative statement of the
  pattern (`PatternAt`) under a leftmost search. `\s` is Python's set of `str.isspace`
  characters.
- `github_api.dfy`: the collector as a method with its `while url` and `for repo in data`
  loops. The method is proved to agree with a reference function, `Collect`. `Collect` gives
  the outcome (the pairs, or the exception) and the exact request log. Lemmas characterise
  `Collect` page by page.
- `test_github_api.dfy`: the six tests of `test_github_api.py`. The happy-path, missing-name
  and pagination tests each have a lemma giving the run over their fixture. The 404 and 403
  tests share one lemma, `ErrorStatusRun`. The invalid-user test needs no fixture and has
  only a method. Each test has a method that runs the collector against a fresh
  `FakeSession`.

Loop termination. The `while url` loop ends only if the chain of `next` links ends. The model
makes that a precondition: `PagesEnd`, meaning some page bound reaches a page with no next
URL. `SelfLinkNeverEnds` shows the precondition is needed: a page linking to itself makes
the source loop forever.

Object bodies. `for repo in data` iterates whatever `response.json()` returns. Suppose a
listing is answered with a status other than 404 or 403 and its body is a non-empty JSON
object. Then the loop walks the object's keys, and `"name" not in repo` becomes a substring
test on each key. A key containing "name" makes `repo["name"]` raise `TypeError`; every
other key is skipped. The model follows the code: `Raises` includes that case, and the
error is `TypeError`. An object body's keys are distinct, as in a Python dict.

Commit counts. The commits request passes `per_page=1`, but the count is the raw length of
whatever body comes back. The fake ignores parameters, so the count is the canned body's
length. Commits responses are never checked for status. An unknown commits URL gets the
fake's one-key error object, so it counts as 1 (`UnknownCommitsUrlCountsOne`).

## Model

| member | source | states |
|---|---|---|
| `Text.Contains` | test_github_api.py:72 | Python's `p in s`: true exactly when `p` occurs in `s` at some index |
| `FakeTransport.NewFakeResponse` | test_github_api.py:7-13 | the response keeps its status and body (`json()` returns the body unchanged); missing headers become an empty map |
| `FakeTransport.FakeSession.constructor` | test_github_api.py:20-22 | the session keeps the canned map and starts with an empty call log |
| `FakeTransport.FakeSession.Get` | test_github_api.py:24-29 | appends `(url, params or {})` to the log and changes nothing else; returns the canned response for a known URL, otherwise status 404 with a one-key error object and no headers; parameters play no part in the lookup |
| `FakeTransport.Respond` | test_github_api.py:26-29 | the canned response for a known URL; for an unknown URL status 404, no headers, and a one-key error object whose length is 1 and which is truthy |
| `LinkHeader.FindClose` | github_api.py:83 | `[^>]+` runs to the first `>` at or after `p`, or to the end of the text |
| `LinkHeader.SkipSpaces` | github_api.py:83 | `\s*` runs over exactly the whitespace that starts at `p` |
| `LinkHeader.SkipSpacesUnique` | github_api.py:83 | whitespace that ends where `rel="next"` begins is exactly the run the scan skips |
| `LinkHeader.GroupEndsAtFirstClose` | github_api.py:83 | a group without `>` followed by `>` ends at the first `>` after `<` |
| `LinkHeader.PatternGivesMatch` | github_api.py:83 | wherever the pattern matches, the scan at that index returns the same group |
| `LinkHeader.MatchGivesPattern` | github_api.py:83 | whatever the scan at an index returns is a match of the pattern there, with a non-empty group free of `>` |
| `LinkHeader.MatchAt` | github_api.py:83 | a match at `i` starts with `<`, its group is the non-empty text up to the next `>`, free of `>`, and `>;` follows it; no `<` at `i` means no match |
| `LinkHeader.MatchAtIsPattern` | github_api.py:83 | the scan at `i` returns `url` if and only if the pattern matches at `i` with group `url` |
| `LinkHeader.Search` | github_api.py:83-85 | a URL found by the search is non-empty and holds no `>` (that it is the leftmost match is `SearchIsLeftmost`) |
| `LinkHeader.SearchIsLeftmost` | github_api.py:83-85 | searching from an index returns the group of the first match at or after it, and None exactly when no match starts there or later |
| `LinkHeader.LeftmostUnique` | github_api.py:83-85 | two leftmost matches have the same group, so `match.group(1)` is well defined |
| `LinkHeader.SearchFindsLeftmost` | github_api.py:83-87 | `re.search`: None if and only if the pattern matches nowhere; `Some(url)` if and only if `url` is the leftmost match's group |
| `LinkHeader.GetNextUrl` | github_api.py:73-87 | no exact `Link` key gives None; otherwise the result is the leftmost match's group, or None when there is no match; a returned URL is non-empty and holds no `>` |
| `LinkHeader.NextEntryMatches` | github_api.py:83 | `<url>; rel="next"` matches wherever it stands in a header, with group `url` |
| `LinkHeader.SearchSkips` | github_api.py:83 | positions without `<` are passed over by the search |
| `LinkHeader.NextFirstRoundTrip` | github_api.py:83-85 | a header that starts with the entry `<url>; rel="next"` yields `url` |
| `LinkHeader.OtherEntryNoMatch` | github_api.py:83 | an entry whose relation is not `next` is not a match |
| `LinkHeader.NextAfterOtherEntry` | github_api.py:83-85 | in `<a>; rel="other", <url>; rel="next"...` the search skips the first entry and yields `url` |
| `GitHubApi.Raises` | github_api.py:39-56 | a 404 or 403 listing always raises, whatever its body; an array body or an empty body raises only then; an object body with a `"name"` key raises |
| `GitHubApi.RaisedError` | github_api.py:39-56 | the error is GitHubApiError exactly for 404 and 403, and TypeError otherwise; the 404 message names "404" and the user; the lower-cased 403 message contains "rate limit" |
| `GitHubApi.Listing` | github_api.py:35-70 | the run of the `while url` loop from `url` makes the request for `url` first; it never raises ValueError; on success it has fewer pairs than requests |
| `GitHubApi.PageSizes` | github_api.py:51-65 | a page adds exactly as many pairs as it makes commits requests |
| `GitHubApi.Collect` | github_api.py:26-70 | ValueError, with no request, exactly when the user is None or empty; otherwise the first request is the user's repository listing |
| `GitHubApi.CountPageCommits` | github_api.py:51-65 | the inner loop appends one pair per entry with a string name, in order, and makes one commits request with `per_page` 1 for each |
| `GitHubApi.GetReposAndCommitCounts` | github_api.py:10-70 | returns or raises what `Collect` gives, and appends to the session log exactly the requests `Collect` lists |
| `GitHubApi.CollectIsListing` | github_api.py:26-35 | for a valid user, the run is the loop run from `.../users/<user>/repos`, for any page bound that reaches the chain's end |
| `GitHubApi.ListingPagesIrrelevant` | github_api.py:35-68 | the loop run does not depend on the page bound chosen |
| `GitHubApi.ListingContinues` | github_api.py:44-68 | a page that neither raises nor is empty contributes its pairs and its requests, then the run continues at its next link or stops |
| `GitHubApi.ListingRaises` | github_api.py:39-42 | a listing page that raises ends the run with its exception after its own request; pairs gathered so far are not returned |
| `GitHubApi.ChainUrls` | github_api.py:35-68 | the listing URLs requested start at the given URL; each is the next link of the page before; the last page stops the loop |
| `GitHubApi.ListingAlongChain` | github_api.py:35-70 | only the last page of the chain can raise; the run succeeds if and only if that page does not raise; on success the result is the pairs of all pages in page order; otherwise the exception is that page's; the log is each page's request followed by its commits requests |
| `GitHubApi.CollectAlongChain` | github_api.py:26-70 | for a valid user the first request is the repository listing with `per_page` 100, and the outcome and log are as in `ListingAlongChain` |
| `GitHubApi.SelfLinkNeverEnds` | github_api.py:35-68 | a page whose next link is its own URL makes the loop run forever |
| `GitHubApi.EmptyPageStops` | github_api.py:46-48 | an empty listing page that does not raise ends the loop with no pairs from it, even when it carries a next link |
| `GitHubApi.UnknownCommitsUrlCountsOne` | github_api.py:60-63 | a commits response is never checked for status: an unknown commits URL counts 1 |
| `GitHubApi.PageMatchesNamedEntries` | github_api.py:51-65 | the pairs of a page are its entries with a string name, in order and with repetitions, each with its commits body's length; entries without a name key or with a null name add no pair and no request |
| `GitHubApi.NotFoundMessageMentions` | github_api.py:39-40 | the not-found message contains "404" and the user |
| `GitHubApi.RateLimitMessageMentions` | github_api.py:41-42 | the lower-cased rate-limit message contains "rate limit" |
| `Text.Lower` | test_github_api.py:86 | `str.lower` on ASCII: each capital letter becomes its small letter, every other character stays, and no capital is left |
| `GitHubApiTests.EmptyObjects` | test_github_api.py:42-43 | `[{}] * n` has length `n` |
| `GitHubApiTests.HappyPathRun` | test_github_api.py:34-51 | the happy-path fixture yields exactly `[("Triangle567", 10), ("Square567", 27)]` after one listing request and two commits requests |
| `GitHubApiTests.HappyPathTwoRepos` | test_github_api.py:34-51 | the collector run on a fresh fake session returns those two pairs and makes three requests, the listing first |
| `GitHubApiTests.InvalidUserId` | test_github_api.py:53-58 | `""` and None raise ValueError and the session log stays empty |
| `GitHubApiTests.ErrorStatusRun` | test_github_api.py:60-86 | a 404 or 403 listing raises GitHubApiError with the matching message after one request |
| `GitHubApiTests.UserNotFound404` | test_github_api.py:60-72 | the 404 fixture raises GitHubApiError whose message contains "404" |
| `GitHubApiTests.RateLimit403` | test_github_api.py:74-86 | the 403 fixture raises GitHubApiError whose lower-cased message contains "rate limit" |
| `GitHubApiTests.MissingNameRun` | test_github_api.py:88-100 | the missing-name fixture yields exactly `[("GoodRepo", 3)]` with no commits request for the unnamed entry |
| `GitHubApiTests.RepoMissingNameIsSkipped` | test_github_api.py:88-100 | the collector run returns `[("GoodRepo", 3)]` after two requests |
| `GitHubApiTests.PaginationLink` | test_github_api.py:108-111 | the first page's `Link` header yields `?page=2` |
| `GitHubApiTests.PaginationRun` | test_github_api.py:102-121 | the pagination fixture yields `[("R1", 1), ("R2", 2)]`; the second listing request is to the link verbatim, with `per_page` 100 |
| `GitHubApiTests.PaginationForRepos` | test_github_api.py:102-121 | the collector run returns `[("R1", 1), ("R2", 2)]` and its third request is to the second page |

## Left out

- `requests.Session()` and real network I/O. The session is always the injected fake;
  `session=None` is not modelled.
- The general `re` engine. Only the one pattern of `_get_next_url` is modelled.
- JSON values outside the modelled shapes. A body is an array of objects or an object given
  by its keys. Non-object array elements (where `"name" in element` is a substring or
  membership test), non-string names, `null` and scalar bodies are not modelled. A name is
  a string, absent, or null.
- The `headers` parameter of `FakeSession.get`. The collector never passes it.
- `str.lower` outside ASCII. Only the ASCII message text is lower-cased.
- The case-insensitive header map of `requests`. Headers are a plain map with the exact key
  `Link`, as in the code and the fake.
- GetReposAndCommitCounts: requires that the chain of next links ends (`PagesEnd`). The
  source loops forever on a link cycle, and `SelfLinkNeverEnds` shows such a cycle.
- The `unittest` runner and `unittest.mock.patch`. Each scenario passes the fake session to
  the collector directly.
- `test_happy_path_two_repos` checks membership and length. `test_pagination_for_repos`
  compares the sorted result. The scenarios state the exact result in order, which implies
  both.
