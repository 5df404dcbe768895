/**
 * `get_repos_and_commit_counts`: list a user's repositories page by page and count the
 * commits the commits endpoint returns for each, over the injected session.
 *
 * The ghost function `Collect` is the reference behaviour (what is returned or raised, and
 * the requests made, in order); the method `GetReposAndCommitCounts` is the loop itself,
 * proved to agree with it, and the lemmas state what the source promises about `Collect`.
 */
module GitHubApi {
  import opened Wrappers
  import opened Text
  import opened FakeTransport
  import opened LinkHeader

  /** One `(repo_name, commit_count)` tuple of the result. */
  datatype RepoCount = RepoCount(name: string, commitCount: nat)

  /** The exceptions the call raises. */
  datatype Error =
    | ValueError(message: string)
    | GitHubApiError(message: string)
    | TypeError  // indexing a string key with "name", when a listing body is an object

  const InvalidUserMessage: string := "User ID cannot be None or empty"
  const RateLimitMessage: string := "403: rate limit exceeded"

  function NotFoundMessage(user: string): string
  {
    "404: User '" + user + "' not found"
  }

  function ReposUrl(user: string): string
  {
    "https://api.github.com/users/" + user + "/repos"
  }

  function CommitsUrl(user: string, repo: string): string
  {
    "https://api.github.com/repos/" + user + "/" + repo + "/commits"
  }

  const ListingParams: Params := map["per_page" := 100]
  const CommitsParams: Params := map["per_page" := 1]

  /** The user passes validation: it is neither None nor the empty string. */
  predicate ValidUser(user: Option<string>)
  {
    user.Some? && user.value != ""
  }

  /** An object body raises while it is iterated as soon as one of its keys contains "name". */
  predicate SomeKeyMentionsName(keys: seq<string>)
  {
    exists i :: 0 <= i < |keys| && Contains(keys[i], "name")
  }

  // ---------------------------------------------------------------------------
  // Reference behaviour

  /** What a call returns or raises, and the requests it makes, in order. */
  datatype Run = Run(outcome: Result<seq<RepoCount>, Error>, calls: seq<Call>)

  /** A run that first appends `pairs` and makes `calls`, then continues as `rest`. */
  function Then(pairs: seq<RepoCount>, calls: seq<Call>, rest: Run): Run
  {
    Run(match rest.outcome
        case Ok(v) => Ok(pairs + v)
        case Err(e) => Err(e),
        calls + rest.calls)
  }

  /** The commit count recorded for a repository: the length of its commits body, status unchecked. */
  function CommitCount(responses: map<string, FakeResponse>, user: string, repo: string): nat
  {
    Length(Respond(responses, CommitsUrl(user, repo)).Json())
  }

  /** The pairs the inner loop appends for the entries of one listing page. */
  function PagePairs(responses: map<string, FakeResponse>, user: string, entries: seq<Entry>): seq<RepoCount>
  {
    if entries == [] then []
    else
      var last := entries[|entries| - 1];
      PagePairs(responses, user, entries[..|entries| - 1]) +
        if last.name.StringName? then [RepoCount(last.name.value, CommitCount(responses, user, last.name.value))] else []
  }

  /** The commits requests the inner loop makes for the entries of one listing page. */
  function PageCalls(user: string, entries: seq<Entry>): seq<Call>
  {
    if entries == [] then []
    else
      var last := entries[|entries| - 1];
      PageCalls(user, entries[..|entries| - 1]) +
        if last.name.StringName? then [Call(CommitsUrl(user, last.name.value), CommitsParams)] else []
  }

  /** The pairs a listing body adds: those of its entries; an object body adds none. */
  function BodyPairs(responses: map<string, FakeResponse>, user: string, data: Json): seq<RepoCount>
  {
    if data.JsonArray? then PagePairs(responses, user, data.items) else []
  }

  /** The commits requests a listing body leads to. */
  function BodyCalls(user: string, data: Json): seq<Call>
  {
    if data.JsonArray? then PageCalls(user, data.items) else []
  }

  /**
   * A listing response the loop raises on: status 404 or 403 (checked first), or a non-empty
   * object body one of whose keys contains "name". Commits responses are never checked.
   */
  function Raises(response: FakeResponse): (b: bool)
    ensures response.statusCode == 404 || response.statusCode == 403 ==> b
    ensures response.Json().JsonArray? || !Truthy(response.Json()) ==>
      (b <==> response.statusCode == 404 || response.statusCode == 403)
    ensures response.Json().JsonObject? && "name" in response.Json().keys ==> b
  {
    var data := response.Json();
    assert data.JsonObject? ==>
      forall i :: 0 <= i < |data.keys| && data.keys[i] == "name" ==> OccursAt(data.keys[i], "name", 0);
    response.statusCode == 404 || response.statusCode == 403 ||
    (Truthy(response.Json()) && response.Json().JsonObject? && SomeKeyMentionsName(response.Json().keys))
  }

  /** The exception a raising listing response leads to. */
  function RaisedError(user: string, response: FakeResponse): (e: Error)
    requires Raises(response)
    ensures e.GitHubApiError? <==> response.statusCode == 404 || response.statusCode == 403
    ensures e.TypeError? <==> !(response.statusCode == 404 || response.statusCode == 403)
    ensures response.statusCode == 404 ==> Contains(e.message, "404") && Contains(e.message, user)
    ensures response.statusCode == 403 ==> Contains(Lower(e.message), "rate limit")
  {
    NotFoundMessageMentions(user);
    RateLimitMessageMentions();
    if response.statusCode == 404 then GitHubApiError(NotFoundMessage(user))
    else if response.statusCode == 403 then GitHubApiError(RateLimitMessage)
    else TypeError
  }

  /** The listing URL requested after the page at `url`, or None when the loop stops there. */
  function NextListing(responses: map<string, FakeResponse>, url: string): Option<string>
  {
    var response := Respond(responses, url);
    if Raises(response) || !Truthy(response.Json()) then None else GetNextUrl(response)
  }

  /** The chain of listing pages from `url` stops within `pages` pages. */
  ghost predicate ChainEnds(responses: map<string, FakeResponse>, url: string, pages: nat)
    decreases pages
  {
    pages > 0 &&
    match NextListing(responses, url)
    case None => true
    case Some(next) => ChainEnds(responses, next, pages - 1)
  }

  /** The chain of listing pages from `url` stops: no Link cycle keeps the loop going forever. */
  ghost predicate PagesEnd(responses: map<string, FakeResponse>, url: string)
  {
    exists pages: nat :: ChainEnds(responses, url, pages)
  }

  /** The run of the `while url` loop from the listing page at `url` on. */
  function Listing(responses: map<string, FakeResponse>, user: string, url: string, pages: nat): (r: Run)
    requires ChainEnds(responses, url, pages)
    ensures |r.calls| > 0 && r.calls[0] == Call(url, ListingParams)
    ensures r.outcome.Err? ==> !r.outcome.error.ValueError?
    ensures r.outcome.Ok? ==> |r.outcome.value| < |r.calls|
    decreases pages
  {
    var response := Respond(responses, url);
    PageSizes(responses, user, if response.Json().JsonArray? then response.Json().items else []);
    var call := Call(url, ListingParams);
    var data := response.Json();
    if Raises(response) then Run(Err(RaisedError(user, response)), [call])
    else if !Truthy(data) then Run(Ok([]), [call])
    else
      var pairs := BodyPairs(responses, user, data);
      var calls := [call] + BodyCalls(user, data);
      match GetNextUrl(response)
      case None => Run(Ok(pairs), calls)
      case Some(next) => Then(pairs, calls, Listing(responses, user, next, pages - 1))
  }

  /** Each pair a page adds comes with its own commits request. */
  lemma {:induction false} PageSizes(responses: map<string, FakeResponse>, user: string, entries: seq<Entry>)
    ensures |PagePairs(responses, user, entries)| == |PageCalls(user, entries)|
  {
    if entries != [] {
      PageSizes(responses, user, entries[..|entries| - 1]);
    }
  }

  /** The run that appends nothing and makes no request. */
  const Done: Run := Run(Ok([]), [])

  /** The run of `get_repos_and_commit_counts(user, session)` over a session with these responses. */
  ghost function Collect(responses: map<string, FakeResponse>, user: Option<string>): (r: Run)
    requires ValidUser(user) ==> PagesEnd(responses, ReposUrl(user.value))
    ensures r.outcome == Err(ValueError(InvalidUserMessage)) <==> !ValidUser(user)
    ensures r.calls == [] <==> !ValidUser(user)
    ensures ValidUser(user) ==> r.calls[0] == Call(ReposUrl(user.value), ListingParams)
  {
    if !ValidUser(user) then Run(Err(ValueError(InvalidUserMessage)), [])
    else
      var pages: nat :| ChainEnds(responses, ReposUrl(user.value), pages);
      Listing(responses, user.value, ReposUrl(user.value), pages)
  }

  // ---------------------------------------------------------------------------
  // The collector

  /** The inner `for repo in data` loop over one listing page's entries. */
  method CountPageCommits(login: string, items: seq<Entry>, session: FakeSession)
    returns (pairs: seq<RepoCount>)
    modifies session`calls
    ensures pairs == PagePairs(session.responsesByUrl, login, items)
    ensures session.calls == old(session.calls) + PageCalls(login, items)
  {
    pairs := [];
    for i := 0 to |items|
      invariant pairs == PagePairs(session.responsesByUrl, login, items[..i])
      invariant session.calls == old(session.calls) + PageCalls(login, items[..i])
    {
      assert items[..i + 1][..i] == items[..i];
      var repo := items[i];
      if repo.name.NoNameKey? || repo.name.NullName? {
        continue;
      }
      var repoName := repo.name.value;
      var commitsResponse := session.Get(CommitsUrl(login, repoName), Some(CommitsParams));
      var commitCount := Length(commitsResponse.Json());
      pairs := pairs + [RepoCount(repoName, commitCount)];
    }
    assert items[..|items|] == items;
  }

  /**
   * `get_repos_and_commit_counts(user, session)`: validate the user before any request,
   * then page through the listing. The session is the injected fake.
   */
  method GetReposAndCommitCounts(user: Option<string>, session: FakeSession)
    returns (result: Result<seq<RepoCount>, Error>)
    requires ValidUser(user) ==> PagesEnd(session.responsesByUrl, ReposUrl(user.value))
    modifies session`calls
    ensures result == Collect(session.responsesByUrl, user).outcome
    ensures session.calls == old(session.calls) + Collect(session.responsesByUrl, user).calls
  {
    if user.None? || user.value == "" {
      return Err(ValueError(InvalidUserMessage));
    }
    var login := user.value;
    ghost var pages: nat :| ChainEnds(session.responsesByUrl, ReposUrl(login), pages);
    CollectIsListing(session.responsesByUrl, user, pages);
    ghost var responses := session.responsesByUrl;
    var reposAndCounts: seq<RepoCount> := [];
    var url: Option<string> := Some(ReposUrl(login));

    ghost var whole := Listing(responses, login, url.value, pages);
    ghost var made: seq<Call> := [];
    assert whole == Then(reposAndCounts, made, whole) by {
      assert [] + whole.calls == whole.calls;
      if whole.outcome.Ok? { assert [] + whole.outcome.value == whole.outcome.value; }
    }

    while url.Some?
      invariant session.calls == old(session.calls) + made
      invariant url.Some? ==> ChainEnds(responses, url.value, pages)
      invariant url.Some? ==> whole == Then(reposAndCounts, made, Listing(responses, login, url.value, pages))
      invariant url.None? ==> whole == Run(Ok(reposAndCounts), made)
      decreases pages
    {
      ghost var madeBefore := made;
      var response := session.Get(url.value, Some(ListingParams));
      made := made + [Call(url.value, ListingParams)];
      AppendAssoc(old(session.calls), madeBefore, [Call(url.value, ListingParams)]);

      if response.statusCode == 404 {
        ListingRaises(responses, login, url.value, pages, reposAndCounts, madeBefore, whole);
        return Err(GitHubApiError(NotFoundMessage(login)));
      } else if response.statusCode == 403 {
        ListingRaises(responses, login, url.value, pages, reposAndCounts, madeBefore, whole);
        return Err(GitHubApiError(RateLimitMessage));
      }

      var data := response.Json();
      if !Truthy(data) {
        assert whole == Run(Ok(reposAndCounts), made) by {
          assert reposAndCounts + [] == reposAndCounts;
        }
        break;
      }

      var pagePairs: seq<RepoCount> := [];
      match data {
        case JsonObject(keys) =>
          if SomeKeyMentionsName(keys) {
            ListingRaises(responses, login, url.value, pages, reposAndCounts, madeBefore, whole);
            return Err(TypeError);
          }
          assert made == madeBefore + ([Call(url.value, ListingParams)] + BodyCalls(login, data));
        case JsonArray(items) =>
          ghost var madeHere := made;
          pagePairs := CountPageCommits(login, items, session);
          made := made + PageCalls(login, items);
          AppendAssoc(old(session.calls), madeHere, PageCalls(login, items));
          AppendAssoc(madeBefore, [Call(url.value, ListingParams)], PageCalls(login, items));
      }

      var next := GetNextUrl(response);
      ListingContinues(responses, login, url.value, pages);
      ghost var rest := if next.Some? then Listing(responses, login, next.value, pages - 1) else Done;
      ThenThen(reposAndCounts, madeBefore, pagePairs, [Call(url.value, ListingParams)] + BodyCalls(login, data), rest);
      reposAndCounts := reposAndCounts + pagePairs;
      if next.None? {
        ThenDone(reposAndCounts, made);
      }
      url := next;
      pages := pages - 1;
    }
    return Ok(reposAndCounts);
  }

  // ---------------------------------------------------------------------------
  // Properties

  /** Collect is the run of the loop from the listing URL, for any page bound that reaches the end. */
  lemma CollectIsListing(responses: map<string, FakeResponse>, user: Option<string>, pages: nat)
    requires ValidUser(user) && ChainEnds(responses, ReposUrl(user.value), pages)
    ensures Collect(responses, user) == Listing(responses, user.value, ReposUrl(user.value), pages)
  {
    ListingPagesIrrelevant(responses, user.value, ReposUrl(user.value), pages);
  }

  /** The run does not depend on which page bound is used to reach the end of the chain. */
  lemma {:induction false} ListingPagesIrrelevant(responses: map<string, FakeResponse>, user: string, url: string, pages: nat)
    requires ChainEnds(responses, url, pages)
    ensures forall other: nat :: ChainEnds(responses, url, other) ==>
      Listing(responses, user, url, other) == Listing(responses, user, url, pages)
    decreases pages
  {
    forall other: nat | ChainEnds(responses, url, other)
      ensures Listing(responses, user, url, other) == Listing(responses, user, url, pages)
    {
      var next := NextListing(responses, url);
      if next.Some? {
        ListingPagesIrrelevant(responses, user, next.value, pages - 1);
      }
    }
  }

  lemma ThenThen(a: seq<RepoCount>, c: seq<Call>, b: seq<RepoCount>, d: seq<Call>, rest: Run)
    ensures Then(a, c, Then(b, d, rest)) == Then(a + b, c + d, rest)
  {
    assert (c + d) + rest.calls == c + (d + rest.calls);
    if rest.outcome.Ok? {
      assert (a + b) + rest.outcome.value == a + (b + rest.outcome.value);
    }
  }

  lemma AppendAssoc<T>(a: seq<T>, b: seq<T>, c: seq<T>)
    ensures (a + b) + c == a + (b + c)
  {
  }

  lemma ThenDone(a: seq<RepoCount>, c: seq<Call>)
    ensures Then(a, c, Done) == Run(Ok(a), c)
  {
    assert a + [] == a && c + [] == c;
  }

  /** One page of the loop that neither raises nor ends on an empty body: its pairs and requests, then the rest. */
  lemma ListingContinues(responses: map<string, FakeResponse>, user: string, url: string, pages: nat)
    requires ChainEnds(responses, url, pages)
    requires !Raises(Respond(responses, url)) && Truthy(Respond(responses, url).Json())
    ensures var r := Respond(responses, url);
      var next := GetNextUrl(r);
      (next.Some? ==> ChainEnds(responses, next.value, pages - 1)) &&
      Listing(responses, user, url, pages) ==
        Then(BodyPairs(responses, user, r.Json()), [Call(url, ListingParams)] + BodyCalls(user, r.Json()),
             if next.Some? then Listing(responses, user, next.value, pages - 1) else Done)
  {
    var r := Respond(responses, url);
    if GetNextUrl(r).None? {
      ThenDone(BodyPairs(responses, user, r.Json()), [Call(url, ListingParams)] + BodyCalls(user, r.Json()));
    }
  }

  /** A listing page that raises ends the run with its exception; the pairs so far are dropped. */
  lemma ListingRaises(responses: map<string, FakeResponse>, user: string, url: string, pages: nat,
                      pairs: seq<RepoCount>, calls: seq<Call>, whole: Run)
    requires ChainEnds(responses, url, pages) && Raises(Respond(responses, url))
    requires whole == Then(pairs, calls, Listing(responses, user, url, pages))
    ensures whole == Run(Err(RaisedError(user, Respond(responses, url))), calls + [Call(url, ListingParams)])
  {
  }

  // ---------------------------------------------------------------------------
  // The run, page by page

  /**
   * The listing URLs the loop requests from `url` on, in order: each page's next link is the
   * following URL, and the last page is one that raises, is empty, or has no next link.
   */
  ghost function ChainUrls(responses: map<string, FakeResponse>, url: string, pages: nat): (urls: seq<string>)
    requires ChainEnds(responses, url, pages)
    ensures 0 < |urls| <= pages && urls[0] == url
    ensures forall k :: 0 <= k < |urls| - 1 ==> NextListing(responses, urls[k]) == Some(urls[k + 1])
    ensures NextListing(responses, urls[|urls| - 1]).None?
    decreases pages
  {
    match NextListing(responses, url)
    case None => [url]
    case Some(next) =>
      var rest := ChainUrls(responses, next, pages - 1);
      assert forall k :: 1 <= k < |rest| + 1 ==> ([url] + rest)[k] == rest[k - 1];
      [url] + rest
  }

  /** The pairs the pages at `urls` contribute, page after page. */
  function ChainPairs(responses: map<string, FakeResponse>, user: string, urls: seq<string>): seq<RepoCount>
  {
    if urls == [] then []
    else BodyPairs(responses, user, Respond(responses, urls[0]).Json()) + ChainPairs(responses, user, urls[1..])
  }

  /** The requests one listing page leads to: the page itself, then, unless it raises, its commits requests. */
  function PageRequests(responses: map<string, FakeResponse>, user: string, url: string): seq<Call>
  {
    var response := Respond(responses, url);
    [Call(url, ListingParams)] + if Raises(response) then [] else BodyCalls(user, response.Json())
  }

  /** The requests the pages at `urls` lead to, page after page. */
  function ChainCalls(responses: map<string, FakeResponse>, user: string, urls: seq<string>): seq<Call>
  {
    if urls == [] then []
    else PageRequests(responses, user, urls[0]) + ChainCalls(responses, user, urls[1..])
  }

  /**
   * The loop from `url` requests exactly the pages of the chain and their commits; it returns
   * the pairs of all pages when the last page does not raise, and otherwise raises that page's
   * exception. Only the last page of the chain can raise.
   */
  lemma {:induction false} ListingAlongChain(responses: map<string, FakeResponse>, user: string, url: string, pages: nat)
    requires ChainEnds(responses, url, pages)
    ensures var urls := ChainUrls(responses, url, pages);
      var run := Listing(responses, user, url, pages);
      var last := Respond(responses, urls[|urls| - 1]);
      (forall k :: 0 <= k < |urls| - 1 ==> !Raises(Respond(responses, urls[k])))
      && run.calls == ChainCalls(responses, user, urls)
      && (run.outcome.Ok? <==> !Raises(last))
      && (run.outcome.Ok? ==> run.outcome.value == ChainPairs(responses, user, urls))
      && (run.outcome.Err? ==> run.outcome.error == RaisedError(user, last))
    decreases pages
  {
    var urls := ChainUrls(responses, url, pages);
    var response := Respond(responses, url);
    match NextListing(responses, url)
    case None =>
      assert urls == [url] && urls[1..] == [];
      assert ChainPairs(responses, user, urls) == BodyPairs(responses, user, response.Json()) + [];
      assert ChainCalls(responses, user, urls) == PageRequests(responses, user, url) + [];
    case Some(next) =>
      var rest := ChainUrls(responses, next, pages - 1);
      assert urls[1..] == rest;
      ListingAlongChain(responses, user, next, pages - 1);
      ListingContinues(responses, user, url, pages);
      assert urls[|urls| - 1] == rest[|rest| - 1];
  }

  /**
   * `get_repos_and_commit_counts` for a valid user: the first request is the user's repository
   * listing with `per_page` 100, and the run is the run of the chain of listing pages from there.
   */
  lemma CollectAlongChain(responses: map<string, FakeResponse>, user: string, pages: nat)
    requires user != "" && ChainEnds(responses, ReposUrl(user), pages)
    ensures var urls := ChainUrls(responses, ReposUrl(user), pages);
      var run := Collect(responses, Some(user));
      var last := Respond(responses, urls[|urls| - 1]);
      urls[0] == ReposUrl(user)
      && run.calls != [] && run.calls[0] == Call(ReposUrl(user), ListingParams)
      && run.calls == ChainCalls(responses, user, urls)
      && (run.outcome.Ok? <==> !Raises(last))
      && (run.outcome.Ok? ==> run.outcome.value == ChainPairs(responses, user, urls))
      && (run.outcome.Err? ==> run.outcome.error == RaisedError(user, last))
  {
    CollectIsListing(responses, Some(user), pages);
    ListingAlongChain(responses, user, ReposUrl(user), pages);
    var urls := ChainUrls(responses, ReposUrl(user), pages);
    assert ChainCalls(responses, user, urls)[0] == Call(ReposUrl(user), ListingParams);
  }

  /** A page whose next link points back at itself keeps the `while url` loop going forever. */
  lemma SelfLinkNeverEnds(responses: map<string, FakeResponse>, url: string)
    requires NextListing(responses, url) == Some(url)
    ensures !PagesEnd(responses, url)
  {
    forall pages: nat ensures !ChainEnds(responses, url, pages) {
      SelfLinkChainFails(responses, url, pages);
    }
  }

  lemma {:induction false} SelfLinkChainFails(responses: map<string, FakeResponse>, url: string, pages: nat)
    requires NextListing(responses, url) == Some(url)
    ensures !ChainEnds(responses, url, pages)
    decreases pages
  {
    if pages > 0 {
      SelfLinkChainFails(responses, url, pages - 1);
    }
  }

  /**
   * A listing page that does not raise and whose body is empty ends the run with no pair from
   * it, whatever its Link header says: the next link is never looked at.
   */
  lemma EmptyPageStops(responses: map<string, FakeResponse>, user: string, url: string, pages: nat)
    requires ChainEnds(responses, url, pages)
    requires !Raises(Respond(responses, url)) && !Truthy(Respond(responses, url).Json())
    ensures NextListing(responses, url) == None
    ensures ChainUrls(responses, url, pages) == [url]
    ensures Listing(responses, user, url, pages) == Run(Ok([]), [Call(url, ListingParams)])
  {
  }

  /**
   * A commits request is never checked for its status: an unknown commits URL gets the fake's
   * 404 error object, whose one key is counted as one commit.
   */
  lemma UnknownCommitsUrlCountsOne(responses: map<string, FakeResponse>, user: string, repo: string)
    requires CommitsUrl(user, repo) !in responses
    ensures Respond(responses, CommitsUrl(user, repo)).statusCode == 404
    ensures CommitCount(responses, user, repo) == 1
  {
  }

  // ---------------------------------------------------------------------------
  // One page's entries

  /** The names of the entries whose "name" is a string, in order; the others are skipped. */
  function NamedEntries(entries: seq<Entry>): seq<string>
  {
    if entries == [] then []
    else (if entries[0].name.StringName? then [entries[0].name.value] else []) + NamedEntries(entries[1..])
  }

  lemma {:induction false} NamedEntriesSnoc(entries: seq<Entry>, last: Entry)
    ensures NamedEntries(entries + [last]) ==
      NamedEntries(entries) + if last.name.StringName? then [last.name.value] else []
  {
    if entries != [] {
      assert (entries + [last])[1..] == entries[1..] + [last];
      NamedEntriesSnoc(entries[1..], last);
    }
  }

  /**
   * The inner loop keeps the entries whose name is a string, in order and with repetitions, and
   * pairs each with the length of its commits body; it requests each one's commits URL with
   * `per_page` 1. Entries without a "name" key or with a null name add nothing.
   */
  lemma {:induction false} PageMatchesNamedEntries(responses: map<string, FakeResponse>, user: string, entries: seq<Entry>)
    ensures var names := NamedEntries(entries);
      var pairs := PagePairs(responses, user, entries);
      var calls := PageCalls(user, entries);
      |pairs| == |names| == |calls|
      && (forall k :: 0 <= k < |pairs| ==> pairs[k] == RepoCount(names[k], CommitCount(responses, user, names[k])))
      && (forall k :: 0 <= k < |calls| ==> calls[k] == Call(CommitsUrl(user, names[k]), CommitsParams))
  {
    if entries != [] {
      var init := entries[..|entries| - 1];
      var last := entries[|entries| - 1];
      assert entries == init + [last];
      NamedEntriesSnoc(init, last);
      PageMatchesNamedEntries(responses, user, init);
    }
  }

  // ---------------------------------------------------------------------------
  // Messages

  /** The not-found message names the status code and the user. */
  lemma NotFoundMessageMentions(user: string)
    ensures Contains(NotFoundMessage(user), "404")
    ensures Contains(NotFoundMessage(user), user)
  {
    var m := NotFoundMessage(user);
    assert OccursAt(m, "404", 0) by { assert m[..3] == "404"; }
    assert OccursAt(m, user, 11) by { assert m[11..11 + |user|] == user; }
  }

  /** The rate-limit message says "rate limit", whatever its case. */
  lemma RateLimitMessageMentions()
    ensures Contains(Lower(RateLimitMessage), "rate limit")
  {
    var m := Lower(RateLimitMessage);
    assert m == RateLimitMessage by {
      forall i | 0 <= i < |m| ensures m[i] == RateLimitMessage[i] {
        assert !('A' <= RateLimitMessage[i] <= 'Z');
      }
    }
    assert OccursAt(m, "rate limit", 5) by { assert m[5..15] == "rate limit"; }
  }
}
