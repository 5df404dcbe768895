/**
 * The unit tests' scenarios. Each fixture's canned responses are a function; a lemma states
 * the run `get_repos_and_commit_counts` has over them, and a method runs the collector against
 * a fresh fake session and states what the test asserts (often more: the whole result and the
 * requests made, in order).
 */
module GitHubApiTests {
  import opened Wrappers
  import opened Text
  import opened FakeTransport
  import opened LinkHeader
  import opened GitHubApi

  /** A body of `n` empty objects, as `[{}] * n`. */
  function EmptyObjects(n: nat): (j: Json)
    ensures Length(j) == n && j.JsonArray?
  {
    JsonArray(seq(n, _ => Entry(NoNameKey)))
  }

  /** A listing entry `{"name": name}`. */
  function Repo(name: string): Entry
  {
    Entry(StringName(name))
  }

  // ---------------------------------------------------------------------------
  // Facts the scenarios share

  /** The listing URL of a user is never a commits URL: it is shorter. */
  lemma ListingIsNotCommits(user: string, repo: string)
    ensures ReposUrl(user) != CommitsUrl(user, repo)
  {
    assert |ReposUrl(user)| < |CommitsUrl(user, repo)|;
  }

  /** Commits URLs of one user for different repository names of one length are different. */
  lemma CommitsUrlsDiffer(user: string, a: string, b: string)
    requires |a| == |b| && a != b
    ensures CommitsUrl(user, a) != CommitsUrl(user, b)
  {
    var p := 30 + |user|;
    assert CommitsUrl(user, a)[p..p + |a|] == a;
    assert CommitsUrl(user, b)[p..p + |b|] == b;
  }

  /** A page of one named entry adds that repository and requests its commits. */
  lemma OneRepoPage(responses: map<string, FakeResponse>, user: string, name: string)
    ensures PagePairs(responses, user, [Repo(name)]) == [RepoCount(name, CommitCount(responses, user, name))]
    ensures PageCalls(user, [Repo(name)]) == [Call(CommitsUrl(user, name), CommitsParams)]
  {
    assert [Repo(name)][..0] == [];
  }

  /**
   * A listing page at `url` that succeeds with these entries: its pairs and requests, then
   * the rest of the chain.
   */
  lemma ArrayPage(responses: map<string, FakeResponse>, user: string, url: string, pages: nat, entries: seq<Entry>)
    requires ChainEnds(responses, url, pages)
    requires Respond(responses, url).statusCode == 200 && Respond(responses, url).Json() == JsonArray(entries)
    requires entries != []
    ensures var next := GetNextUrl(Respond(responses, url));
      (next.Some? ==> ChainEnds(responses, next.value, pages - 1)) &&
      Listing(responses, user, url, pages) ==
        Then(PagePairs(responses, user, entries), [Call(url, ListingParams)] + PageCalls(user, entries),
             if next.Some? then Listing(responses, user, next.value, pages - 1) else Done)
  {
    ListingContinues(responses, user, url, pages);
  }

  // ---------------------------------------------------------------------------
  // test_happy_path_two_repos

  function HappyPathResponses(): map<string, FakeResponse>
  {
    map[
      ReposUrl("john567") := NewFakeResponse(200, JsonArray([Repo("Triangle567"), Repo("Square567")]), None),
      CommitsUrl("john567", "Triangle567") := NewFakeResponse(200, EmptyObjects(10), None),
      CommitsUrl("john567", "Square567") := NewFakeResponse(200, EmptyObjects(27), None)]
  }

  /** Two repositories with 10 and 27 commits give both pairs, in listing order, after one listing request. */
  lemma HappyPathRun()
    ensures PagesEnd(HappyPathResponses(), ReposUrl("john567"))
    ensures Collect(HappyPathResponses(), Some("john567")) ==
      Run(Ok([RepoCount("Triangle567", 10), RepoCount("Square567", 27)]),
          [Call(ReposUrl("john567"), ListingParams),
           Call(CommitsUrl("john567", "Triangle567"), CommitsParams),
           Call(CommitsUrl("john567", "Square567"), CommitsParams)])
  {
    var responses, user := HappyPathResponses(), "john567";
    var listing := [Repo("Triangle567"), Repo("Square567")];
    ListingIsNotCommits(user, "Triangle567");
    ListingIsNotCommits(user, "Square567");
    assert |CommitsUrl(user, "Triangle567")| != |CommitsUrl(user, "Square567")|;
    assert Respond(responses, ReposUrl(user)).Json() == JsonArray(listing);
    assert CommitCount(responses, user, "Triangle567") == 10;
    assert CommitCount(responses, user, "Square567") == 27;
    assert ChainEnds(responses, ReposUrl(user), 1);
    CollectIsListing(responses, Some(user), 1);
    assert listing[..1] == [Repo("Triangle567")];
    OneRepoPage(responses, user, "Triangle567");
    ArrayPage(responses, user, ReposUrl(user), 1, listing);
    ThenDone(PagePairs(responses, user, listing), [Call(ReposUrl(user), ListingParams)] + PageCalls(user, listing));
    assert GetNextUrl(Respond(responses, ReposUrl(user))) == None;
    assert PagePairs(responses, user, listing) == [RepoCount("Triangle567", 10), RepoCount("Square567", 27)];
    assert PageCalls(user, listing) == [Call(CommitsUrl("john567", "Triangle567"), CommitsParams),
           Call(CommitsUrl("john567", "Square567"), CommitsParams)];
    assert Collect(responses, Some(user)) == Listing(responses, user, ReposUrl(user), 1);
  }

  method HappyPathTwoRepos() returns (result: Result<seq<RepoCount>, Error>, calls: seq<Call>)
    ensures result == Ok([RepoCount("Triangle567", 10), RepoCount("Square567", 27)])
    ensures |calls| == 3 && calls[0] == Call(ReposUrl("john567"), ListingParams)
  {
    var fake := new FakeSession(HappyPathResponses());
    HappyPathRun();
    result := GetReposAndCommitCounts(Some("john567"), fake);
    calls := fake.calls;
  }

  // ---------------------------------------------------------------------------
  // test_invalid_user_id

  /** The empty string and None are refused with ValueError before any request. */
  method InvalidUserId() returns (empty: Result<seq<RepoCount>, Error>, none: Result<seq<RepoCount>, Error>,
                                  calls: seq<Call>)
    ensures empty == Err(ValueError(InvalidUserMessage)) && none == Err(ValueError(InvalidUserMessage))
    ensures calls == []
  {
    var fake := new FakeSession(map[]);
    empty := GetReposAndCommitCounts(Some(""), fake);
    none := GetReposAndCommitCounts(None, fake);
    calls := fake.calls;
  }

  // ---------------------------------------------------------------------------
  // test_user_not_found_404 and test_rate_limit_403

  /** A listing answered with `status` and an error object, for `user`. */
  function ErrorResponses(user: string, status: int): map<string, FakeResponse>
  {
    map[ReposUrl(user) := NewFakeResponse(status, JsonObject(["message"]), None)]
  }

  /** A 404 or 403 on the first listing request raises at once. */
  lemma ErrorStatusRun(user: string, status: int)
    requires user != "" && (status == 404 || status == 403)
    ensures PagesEnd(ErrorResponses(user, status), ReposUrl(user))
    ensures Collect(ErrorResponses(user, status), Some(user)) ==
      Run(Err(GitHubApiError(if status == 404 then NotFoundMessage(user) else RateLimitMessage)),
          [Call(ReposUrl(user), ListingParams)])
  {
    assert ChainEnds(ErrorResponses(user, status), ReposUrl(user), 1);
    CollectIsListing(ErrorResponses(user, status), Some(user), 1);
  }

  /** A 404 on the listing raises GitHubApiError, whose message mentions 404. */
  method UserNotFound404() returns (result: Result<seq<RepoCount>, Error>, calls: seq<Call>)
    ensures result.Err? && result.error.GitHubApiError? && Contains(result.error.message, "404")
    ensures calls == [Call(ReposUrl("no_such_user_123"), ListingParams)]
  {
    var fake := new FakeSession(ErrorResponses("no_such_user_123", 404));
    ErrorStatusRun("no_such_user_123", 404);
    result := GetReposAndCommitCounts(Some("no_such_user_123"), fake);
    NotFoundMessageMentions("no_such_user_123");
    calls := fake.calls;
  }

  /** A 403 on the listing raises GitHubApiError, whose lower-cased message mentions the rate limit. */
  method RateLimit403() returns (result: Result<seq<RepoCount>, Error>, calls: seq<Call>)
    ensures result.Err? && result.error.GitHubApiError? && Contains(Lower(result.error.message), "rate limit")
    ensures calls == [Call(ReposUrl("someone"), ListingParams)]
  {
    var fake := new FakeSession(ErrorResponses("someone", 403));
    ErrorStatusRun("someone", 403);
    result := GetReposAndCommitCounts(Some("someone"), fake);
    RateLimitMessageMentions();
    calls := fake.calls;
  }

  // ---------------------------------------------------------------------------
  // test_repo_missing_name_is_skipped

  function MissingNameResponses(): map<string, FakeResponse>
  {
    map[
      ReposUrl("x") := NewFakeResponse(200, JsonArray([Entry(NoNameKey), Repo("GoodRepo")]), None),
      CommitsUrl("x", "GoodRepo") := NewFakeResponse(200, EmptyObjects(3), None)]
  }

  /** An entry without a "name" key adds no pair and no commits request. */
  lemma MissingNameRun()
    ensures PagesEnd(MissingNameResponses(), ReposUrl("x"))
    ensures Collect(MissingNameResponses(), Some("x")) ==
      Run(Ok([RepoCount("GoodRepo", 3)]),
          [Call(ReposUrl("x"), ListingParams), Call(CommitsUrl("x", "GoodRepo"), CommitsParams)])
  {
    var responses, user := MissingNameResponses(), "x";
    var listing := [Entry(NoNameKey), Repo("GoodRepo")];
    ListingIsNotCommits(user, "GoodRepo");
    assert Respond(responses, ReposUrl(user)).Json() == JsonArray(listing);
    assert CommitCount(responses, user, "GoodRepo") == 3;
    assert ChainEnds(responses, ReposUrl(user), 1);
    CollectIsListing(responses, Some(user), 1);
    assert listing[..1] == [Entry(NoNameKey)] && listing[..1][..0] == [];
    ArrayPage(responses, user, ReposUrl(user), 1, listing);
    ThenDone(PagePairs(responses, user, listing), [Call(ReposUrl(user), ListingParams)] + PageCalls(user, listing));
    assert GetNextUrl(Respond(responses, ReposUrl(user))) == None;
    assert PagePairs(responses, user, listing) == [RepoCount("GoodRepo", 3)];
    assert PageCalls(user, listing) == [Call(CommitsUrl("x", "GoodRepo"), CommitsParams)];
    assert Collect(responses, Some(user)) == Listing(responses, user, ReposUrl(user), 1);
  }

  method RepoMissingNameIsSkipped() returns (result: Result<seq<RepoCount>, Error>, calls: seq<Call>)
    ensures result == Ok([RepoCount("GoodRepo", 3)])
    ensures |calls| == 2
  {
    var fake := new FakeSession(MissingNameResponses());
    MissingNameRun();
    result := GetReposAndCommitCounts(Some("x"), fake);
    calls := fake.calls;
  }

  // ---------------------------------------------------------------------------
  // test_pagination_for_repos

  const NextRepos: string := "https://api.github.com/users/p/repos?page=2"

  function PaginationResponses(): map<string, FakeResponse>
  {
    map[
      ReposUrl("p") := NewFakeResponse(200, JsonArray([Repo("R1")]), Some(map["Link" := LinkEntry(NextRepos, "next")])),
      NextRepos := NewFakeResponse(200, JsonArray([Repo("R2")]), None),
      CommitsUrl("p", "R1") := NewFakeResponse(200, EmptyObjects(1), None),
      CommitsUrl("p", "R2") := NewFakeResponse(200, EmptyObjects(2), None)]
  }

  /** The first page's Link header names the second page. */
  lemma PaginationLink()
    ensures GetNextUrl(Respond(PaginationResponses(), ReposUrl("p"))) == Some(NextRepos)
  {
    var responses := PaginationResponses();
    assert |NextRepos| != |ReposUrl("p")| && |ReposUrl("p")| < |CommitsUrl("p", "R1")|;
    assert Respond(responses, ReposUrl("p")).headers == map["Link" := LinkEntry(NextRepos, "next")];
    NextFirstRoundTrip(NextRepos, "");
    assert LinkEntry(NextRepos, "next") + "" == LinkEntry(NextRepos, "next");
  }

  /** The canned responses of the pagination fixture, looked up by URL. */
  lemma PaginationLookups()
    ensures Respond(PaginationResponses(), ReposUrl("p")).statusCode == 200
    ensures Respond(PaginationResponses(), ReposUrl("p")).Json() == JsonArray([Repo("R1")])
    ensures Respond(PaginationResponses(), NextRepos) == NewFakeResponse(200, JsonArray([Repo("R2")]), None)
    ensures CommitCount(PaginationResponses(), "p", "R1") == 1
    ensures CommitCount(PaginationResponses(), "p", "R2") == 2
  {
    ListingIsNotCommits("p", "R1");
    ListingIsNotCommits("p", "R2");
    CommitsUrlsDiffer("p", "R1", "R2");
    assert |NextRepos| != |ReposUrl("p")| && |NextRepos| != |CommitsUrl("p", "R1")|;
  }

  /** The second page, reached through the link, adds R2 and ends the chain. */
  lemma PaginationSecondPage()
    ensures ChainEnds(PaginationResponses(), NextRepos, 1)
    ensures Listing(PaginationResponses(), "p", NextRepos, 1) ==
      Run(Ok([RepoCount("R2", 2)]), [Call(NextRepos, ListingParams), Call(CommitsUrl("p", "R2"), CommitsParams)])
  {
    var responses, user := PaginationResponses(), "p";
    PaginationLookups();
    assert ChainEnds(responses, NextRepos, 1);
    OneRepoPage(responses, user, "R2");
    ArrayPage(responses, user, NextRepos, 1, [Repo("R2")]);
    ThenDone([RepoCount("R2", 2)], [Call(NextRepos, ListingParams), Call(CommitsUrl(user, "R2"), CommitsParams)]);
  }

  /** The first page adds R1, then the loop follows the link. */
  lemma PaginationFirstPage()
    ensures ChainEnds(PaginationResponses(), ReposUrl("p"), 2)
    ensures Listing(PaginationResponses(), "p", ReposUrl("p"), 2) ==
      Then([RepoCount("R1", 1)], [Call(ReposUrl("p"), ListingParams), Call(CommitsUrl("p", "R1"), CommitsParams)],
           Listing(PaginationResponses(), "p", NextRepos, 1))
  {
    var responses, user := PaginationResponses(), "p";
    PaginationLink();
    PaginationLookups();
    PaginationSecondPage();
    assert ChainEnds(responses, ReposUrl(user), 2);
    OneRepoPage(responses, user, "R1");
    ArrayPage(responses, user, ReposUrl(user), 2, [Repo("R1")]);
  }

  /** The `next` link of the first page is followed verbatim, and the second page's pairs come after the first's. */
  lemma PaginationRun()
    ensures PagesEnd(PaginationResponses(), ReposUrl("p"))
    ensures Collect(PaginationResponses(), Some("p")) ==
      Run(Ok([RepoCount("R1", 1), RepoCount("R2", 2)]),
          [Call(ReposUrl("p"), ListingParams), Call(CommitsUrl("p", "R1"), CommitsParams),
           Call(NextRepos, ListingParams), Call(CommitsUrl("p", "R2"), CommitsParams)])
  {
    var responses, user := PaginationResponses(), "p";
    PaginationFirstPage();
    PaginationSecondPage();
    CollectIsListing(responses, Some(user), 2);
    assert [RepoCount("R1", 1)] + [RepoCount("R2", 2)] == [RepoCount("R1", 1), RepoCount("R2", 2)];
  }

  method PaginationForRepos() returns (result: Result<seq<RepoCount>, Error>, calls: seq<Call>)
    ensures result == Ok([RepoCount("R1", 1), RepoCount("R2", 2)])
    ensures |calls| == 4 && calls[2] == Call(NextRepos, ListingParams)
  {
    var fake := new FakeSession(PaginationResponses());
    PaginationRun();
    result := GetReposAndCommitCounts(Some("p"), fake);
    calls := fake.calls;
  }
}
