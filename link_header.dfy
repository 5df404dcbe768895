/**
 * `_get_next_url`: the URL of the first `<URL>; rel="next"` entry of a response's `Link`
 * header, found by a left-to-right scan that behaves as the regular expression
 * `<([^>]+)>;\s*rel="next"` under a leftmost search does.
 */
module LinkHeader {
  import opened Wrappers
  import opened FakeTransport

  /** The literal text that must follow the whitespace after `;`. */
  const RelNext: string := "rel=\"next\""

  /** Python's `\s` on text: the characters for which `str.isspace()` holds. */
  predicate IsSpace(c: char)
  {
    '\t' <= c <= '\r' || '\U{1c}' <= c <= ' ' || c == '\U{85}' || c == '\U{a0}' || c == '\U{1680}'
    || '\U{2000}' <= c <= '\U{200a}' || c == '\U{2028}' || c == '\U{2029}' || c == '\U{202f}'
    || c == '\U{205f}' || c == '\U{3000}'
  }

  predicate AllSpaces(s: string)
  {
    forall i :: 0 <= i < |s| ==> IsSpace(s[i])
  }

  // ---------------------------------------------------------------------------
  // The pattern, stated declaratively

  /** After index `p`, only whitespace up to index `k`, where `rel="next"` begins. */
  ghost predicate SpacesThenRelNext(s: string, p: nat, k: nat)
  {
    p <= k && k + |RelNext| <= |s| && AllSpaces(s[p..k]) && s[k..k + |RelNext|] == RelNext
  }

  /** Whitespace from index `p` on, then `rel="next"`. */
  ghost predicate RelNextFollows(s: string, p: nat)
  {
    exists k: nat :: SpacesThenRelNext(s, p, k)
  }

  /**
   * The pattern `<([^>]+)>;\s*rel="next"` matches `s` at index `i` with group `url`:
   * `<`, then `url` (non-empty, no `>`), then `>;`, whitespace, and `rel="next"`.
   */
  ghost predicate PatternAt(s: string, i: nat, url: string)
  {
    var j := i + 1 + |url|;
    j + 1 < |s| && s[i] == '<' && s[i + 1..j] == url && url != [] && '>' !in url
    && s[j] == '>' && s[j + 1] == ';' && RelNextFollows(s, j + 2)
  }

  /** No match of the pattern starts at an index in [from, to). */
  ghost predicate NoMatchIn(s: string, from: nat, to: nat)
  {
    forall i: nat, url :: from <= i < to ==> !PatternAt(s, i, url)
  }

  /** `url` is the group of the leftmost match: what `re.search(...).group(1)` returns. */
  ghost predicate LeftmostMatch(s: string, url: string)
  {
    exists i: nat :: PatternAt(s, i, url) && NoMatchIn(s, 0, i)
  }

  // ---------------------------------------------------------------------------
  // The scan

  /** The first index at or after `p` that holds `>`, or `|s|` when there is none. */
  function FindClose(s: string, p: nat): (q: nat)
    requires p <= |s|
    ensures p <= q <= |s|
    ensures q < |s| ==> s[q] == '>'
    ensures forall r :: p <= r < q ==> s[r] != '>'
    decreases |s| - p
  {
    if p == |s| || s[p] == '>' then p else FindClose(s, p + 1)
  }

  /** The end of the run of whitespace that starts at `p`. */
  function SkipSpaces(s: string, p: nat): (q: nat)
    requires p <= |s|
    ensures p <= q <= |s|
    ensures AllSpaces(s[p..q])
    ensures q < |s| ==> !IsSpace(s[q])
    decreases |s| - p
  {
    if p == |s| || !IsSpace(s[p]) then p
    else
      var q := SkipSpaces(s, p + 1);
      assert s[p..q] == [s[p]] + s[p + 1..q];
      q
  }

  /**
   * The group of a match at index `i`, if the pattern matches there. `[^>]+` and `\s*` are
   * greedy, and backing off either cannot help: the character after a shorter run is not
   * `>` (resp. not `r`), so taking the longest runs decides the match.
   */
  function MatchAt(s: string, i: nat): (r: Option<string>)
    requires i <= |s|
    ensures (i == |s| || s[i] != '<') ==> r.None?
    ensures r.Some? ==>
      var j := i + 1 + |r.value|;
      j + 1 < |s| && s[i] == '<' && s[i + 1..j] == r.value && r.value != [] && '>' !in r.value
      && s[j] == '>' && s[j + 1] == ';'
  {
    if i < |s| && s[i] == '<' then
      var j := FindClose(s, i + 1);
      if i + 1 < j && j + 1 < |s| && s[j + 1] == ';' then
        var k := SkipSpaces(s, j + 2);
        if k + |RelNext| <= |s| && s[k..k + |RelNext|] == RelNext then
          GroupHasNoClose(s, i + 1);
          Some(s[i + 1..j])
        else None
      else None
    else None
  }

  /** `re.search`: try each start index from `from` on, and keep the first match. */
  function Search(s: string, from: nat): (r: Option<string>)
    requires from <= |s|
    ensures r.Some? ==> r.value != [] && '>' !in r.value
    decreases |s| - from
  {
    if from == |s| then None
    else if MatchAt(s, from).Some? then MatchAt(s, from)
    else Search(s, from + 1)
  }

  /**
   * `_get_next_url(response)`: None when there is no exact "Link" key; otherwise the group
   * of the leftmost match of the pattern, and None exactly when it matches nowhere. A
   * returned URL is never empty and holds no `>`.
   */
  function GetNextUrl(response: FakeResponse): (r: Option<string>)
    ensures "Link" !in response.headers ==> r == None
    ensures "Link" in response.headers ==>
      var link := response.headers["Link"];
      (r.None? <==> NoMatchIn(link, 0, |link| + 1)) &&
      (forall url :: r == Some(url) <==> LeftmostMatch(link, url))
    ensures r.Some? ==> r.value != [] && '>' !in r.value
  {
    if "Link" !in response.headers then None
    else
      var link := response.headers["Link"];
      SearchFindsLeftmost(link);
      Search(link, 0)
  }

  // ---------------------------------------------------------------------------
  // The scan computes the pattern

  /** A run of whitespace ending before `rel="next"` is exactly the one SkipSpaces finds. */
  lemma SkipSpacesUnique(s: string, p: nat, k: nat)
    requires SpacesThenRelNext(s, p, k)
    ensures SkipSpaces(s, p) == k
  {
    var q := SkipSpaces(s, p);
    assert s[k] == RelNext[0];
  }

  /** The `>` closing a matched group is the first one after the `<`. */
  lemma GroupEndsAtFirstClose(s: string, i: nat, url: string)
    requires i + 1 + |url| < |s| && s[i + 1..i + 1 + |url|] == url && '>' !in url && s[i + 1 + |url|] == '>'
    ensures FindClose(s, i + 1) == i + 1 + |url|
  {
    forall r | i + 1 <= r < i + 1 + |url| ensures s[r] != '>' {
      assert s[r] == url[r - i - 1];
    }
  }

  /** MatchAt succeeds once each of its steps does. */
  lemma MatchAtSteps(s: string, i: nat, j: nat, k: nat)
    requires i < |s| && s[i] == '<' && FindClose(s, i + 1) == j && i + 1 < j && j + 1 < |s| && s[j + 1] == ';'
    requires SkipSpaces(s, j + 2) == k && k + |RelNext| <= |s| && s[k..k + |RelNext|] == RelNext
    ensures MatchAt(s, i) == Some(s[i + 1..j])
  {
  }

  /** A match of the pattern at `i` is found by MatchAt, with the same group. */
  lemma PatternGivesMatch(s: string, i: nat, url: string)
    requires PatternAt(s, i, url)
    ensures MatchAt(s, i) == Some(url)
  {
    var j := i + 1 + |url|;
    GroupEndsAtFirstClose(s, i, url);
    var k: nat :| SpacesThenRelNext(s, j + 2, k);
    SkipSpacesUnique(s, j + 2, k);
    MatchAtSteps(s, i, j, k);
  }

  /** The text FindClose passes over holds no `>`. */
  lemma GroupHasNoClose(s: string, p: nat)
    requires p <= |s|
    ensures '>' !in s[p..FindClose(s, p)]
  {
    var group := s[p..FindClose(s, p)];
    forall m | 0 <= m < |group| ensures group[m] != '>' {
      assert group[m] == s[p + m];
    }
  }

  /** The pattern's parts, found one after another, make a match. */
  lemma PatternBySteps(s: string, i: nat, url: string, k: nat)
    requires var j := i + 1 + |url|;
      j + 1 < |s| && s[i] == '<' && s[i + 1..j] == url && url != [] && '>' !in url
      && s[j] == '>' && s[j + 1] == ';' && SpacesThenRelNext(s, j + 2, k)
    ensures PatternAt(s, i, url)
  {
  }

  /** The steps a successful MatchAt took. */
  lemma MatchAtParts(s: string, i: nat)
    requires i <= |s| && MatchAt(s, i).Some?
    ensures var j := FindClose(s, i + 1);
      var k := SkipSpaces(s, j + 2);
      i < |s| && s[i] == '<' && i + 1 < j && j + 1 < |s| && s[j + 1] == ';'
      && k + |RelNext| <= |s| && s[k..k + |RelNext|] == RelNext && MatchAt(s, i).value == s[i + 1..j]
  {
  }

  /** What MatchAt finds is a match of the pattern. */
  lemma MatchGivesPattern(s: string, i: nat)
    requires i <= |s| && MatchAt(s, i).Some?
    ensures PatternAt(s, i, MatchAt(s, i).value)
  {
    MatchAtParts(s, i);
    GroupHasNoClose(s, i + 1);
    var j := FindClose(s, i + 1);
    PatternBySteps(s, i, s[i + 1..j], SkipSpaces(s, j + 2));
  }

  /** MatchAt finds a match at `i`, with group `url`, exactly when the pattern matches there. */
  lemma MatchAtIsPattern(s: string, i: nat, url: string)
    requires i <= |s|
    ensures MatchAt(s, i) == Some(url) <==> PatternAt(s, i, url)
  {
    if PatternAt(s, i, url) {
      PatternGivesMatch(s, i, url);
    }
    if MatchAt(s, i) == Some(url) {
      MatchGivesPattern(s, i);
    }
  }

  /** Search from `from` returns the group of the first match at or after `from`, or None if none. */
  lemma {:induction false} SearchIsLeftmost(s: string, from: nat)
    requires from <= |s|
    ensures Search(s, from).None? ==> NoMatchIn(s, from, |s| + 1)
    ensures Search(s, from).Some? ==>
      exists i: nat :: from <= i && PatternAt(s, i, Search(s, from).value) && NoMatchIn(s, from, i)
    decreases |s| - from
  {
    if from == |s| {
      forall i: nat, url | from <= i < |s| + 1 ensures !PatternAt(s, i, url) {}
    } else {
      forall url ensures MatchAt(s, from) == Some(url) <==> PatternAt(s, from, url) {
        MatchAtIsPattern(s, from, url);
      }
      if MatchAt(s, from).None? {
        SearchIsLeftmost(s, from + 1);
      } else {
        assert PatternAt(s, from, Search(s, from).value);
      }
    }
  }

  /** The pattern's leftmost match has one group: two leftmost matches agree. */
  lemma LeftmostUnique(s: string, i: nat, url: string, i': nat, url': string)
    requires PatternAt(s, i, url) && NoMatchIn(s, 0, i)
    requires PatternAt(s, i', url') && NoMatchIn(s, 0, i')
    ensures url == url'
  {
    PatternGivesMatch(s, i, url);
    PatternGivesMatch(s, i', url');
  }

  /** Search from the start finds exactly the leftmost match, and nothing when there is none. */
  lemma SearchFindsLeftmost(s: string)
    ensures Search(s, 0).None? <==> NoMatchIn(s, 0, |s| + 1)
    ensures forall url :: Search(s, 0) == Some(url) <==> LeftmostMatch(s, url)
  {
    SearchIsLeftmost(s, 0);
    if Search(s, 0).Some? {
      var found := Search(s, 0).value;
      var i: nat :| PatternAt(s, i, found) && NoMatchIn(s, 0, i);
      assert LeftmostMatch(s, found);
      forall url | LeftmostMatch(s, url) ensures url == found {
        var i': nat :| PatternAt(s, i', url) && NoMatchIn(s, 0, i');
        LeftmostUnique(s, i, found, i', url);
      }
      assert !NoMatchIn(s, 0, |s| + 1) by {
        assert i < |s| + 1;
      }
    }
  }

  // ---------------------------------------------------------------------------
  // The header formats the pagination links come in

  /** One entry of a Link header: `<url>; rel="relation"`. */
  function LinkEntry(url: string, relation: string): string
  {
    "<" + url + ">; rel=\"" + relation + "\""
  }

  /** The pattern matches wherever a well-formed `next` entry starts, whatever surrounds it. */
  lemma NextEntryMatches(before: string, url: string, after: string)
    requires url != [] && '>' !in url
    ensures PatternAt(before + LinkEntry(url, "next") + after, |before|, url)
  {
    var s := before + LinkEntry(url, "next") + after;
    var i := |before|;
    var j := i + 1 + |url|;
    assert s[i..j + 13] == LinkEntry(url, "next");
    assert s[i + 1..j] == url;
    assert SpacesThenRelNext(s, j + 2, j + 3) by {
      assert s[j + 2..j + 3] == [' '];
      assert s[j + 3..j + 13] == RelNext;
    }
  }

  /** Skipping start indices that hold no `<`, where no match can start. */
  lemma {:induction false} SearchSkips(s: string, from: nat, to: nat)
    requires from <= to <= |s|
    requires forall i :: from <= i < to ==> s[i] != '<'
    ensures Search(s, from) == Search(s, to)
    decreases |s| - from
  {
    if from < to {
      SearchSkips(s, from + 1, to);
    }
  }

  /** A header whose first entry is `next` yields that entry's URL (the single-entry header round-trips). */
  lemma NextFirstRoundTrip(url: string, after: string)
    requires url != [] && '>' !in url
    ensures Search(LinkEntry(url, "next") + after, 0) == Some(url)
  {
    NextEntryMatches([], url, after);
    assert [] + LinkEntry(url, "next") + after == LinkEntry(url, "next") + after;
    PatternGivesMatch(LinkEntry(url, "next") + after, 0, url);
  }

  /** A quoted relation other than `next` differs from `rel="next"` within its own text. */
  lemma QuotedOtherDiffers(relation: string)
    requires '"' !in relation && relation != "next"
    ensures var q := "rel=\"" + relation + "\"";
      exists m :: 0 <= m < |q| && m < |RelNext| && q[m] != RelNext[m]
  {
    var q := "rel=\"" + relation + "\"";
    assert q[5..5 + |relation|] == relation && q[5 + |relation|] == '"';
    if |relation| < 4 {
      assert q[5 + |relation|] != RelNext[5 + |relation|];
    } else if |relation| == 4 {
      var m :| 0 <= m < 4 && relation[m] != "next"[m];
      assert q[5 + m] != RelNext[5 + m];
    } else {
      assert q[9] == relation[4] != RelNext[9];
    }
  }

  /** A quoted relation other than `next`, written at `p`, is not `rel="next"`. */
  lemma RelationNotNext(s: string, p: nat, relation: string)
    requires '"' !in relation && relation != "next"
    requires p + |relation| + 6 <= |s| && s[p..p + |relation| + 6] == "rel=\"" + relation + "\""
    ensures s[p] == 'r'
    ensures !(p + |RelNext| <= |s| && s[p..p + |RelNext|] == RelNext)
  {
    var q := "rel=\"" + relation + "\"";
    assert s[p] == s[p..p + |q|][0] == q[0];
    QuotedOtherDiffers(relation);
    var m :| 0 <= m < |q| && m < |RelNext| && q[m] != RelNext[m];
    assert s[p + m] == q[m] by {
      assert s[p..p + |q|][m] == q[m];
    }
    if p + |RelNext| <= |s| {
      assert s[p..p + |RelNext|][m] != RelNext[m];
    }
  }

  /** Where the parts of an entry start in a header that begins with it. */
  lemma EntryLayout(s: string, other: string, relation: string)
    requires |LinkEntry(other, relation)| <= |s| && s[..|LinkEntry(other, relation)|] == LinkEntry(other, relation)
    ensures var j := 1 + |other|;
      j + 3 + |relation| + 6 <= |s| && s[0] == '<' && s[1..j] == other && s[j] == '>' && s[j + 1] == ';' && s[j + 2] == ' '
      && s[j + 3..j + 3 + |relation| + 6] == "rel=\"" + relation + "\""
  {
    var e := LinkEntry(other, relation);
    var j := 1 + |other|;
    assert e[0] == '<' && e[1..j] == other && e[j] == '>' && e[j + 1] == ';' && e[j + 2] == ' ';
    assert e[j + 3..] == "rel=\"" + relation + "\"";
    assert s[..|e|][0] == s[0] && s[..|e|][j] == s[j];
    assert s[..|e|][j + 1] == s[j + 1] && s[..|e|][j + 2] == s[j + 2];
    assert s[..|e|][1..j] == s[1..j];
    assert s[..|e|][j + 3..] == s[j + 3..|e|];
  }

  /**
   * An entry `<...>; rel="..."` at the start of `s` with a relation other than `next`: the
   * group ends at its `>`, one space follows `;`, and `rel="next"` is not there.
   */
  lemma OtherEntryNoMatchAt(s: string, j: nat, relation: string)
    requires '"' !in relation && relation != "next"
    requires j + 3 + |relation| + 6 <= |s| && s[0] == '<' && s[j] == '>' && s[j + 1] == ';' && s[j + 2] == ' '
    requires forall r :: 1 <= r < j ==> s[r] != '>'
    requires s[j + 3..j + 3 + |relation| + 6] == "rel=\"" + relation + "\""
    ensures MatchAt(s, 0) == None
  {
    assert FindClose(s, 1) == j;
    RelationNotNext(s, j + 3, relation);
    assert SkipSpaces(s, j + 3) == j + 3;
  }

  /** An entry with another relation does not match the pattern. */
  lemma OtherEntryNoMatch(s: string, other: string, relation: string)
    requires '>' !in other && '"' !in relation && relation != "next"
    requires |LinkEntry(other, relation)| <= |s| && s[..|LinkEntry(other, relation)|] == LinkEntry(other, relation)
    ensures MatchAt(s, 0) == None
  {
    var j := 1 + |other|;
    EntryLayout(s, other, relation);
    forall r | 1 <= r < j ensures s[r] != '>' {
      assert s[r] == s[1..j][r - 1];
    }
    OtherEntryNoMatchAt(s, j, relation);
  }

  /** A `next` entry after an entry with another relation: the scan passes over the first. */
  lemma NextAfterOtherEntry(other: string, relation: string, url: string, after: string)
    requires '<' !in other && '>' !in other && '<' !in relation && '"' !in relation && relation != "next"
    requires url != [] && '>' !in url
    ensures Search(LinkEntry(other, relation) + ", " + LinkEntry(url, "next") + after, 0) == Some(url)
  {
    var first := LinkEntry(other, relation) + ", ";
    var s := first + LinkEntry(url, "next") + after;
    assert s == LinkEntry(other, relation) + ", " + LinkEntry(url, "next") + after;
    assert s[..|LinkEntry(other, relation)|] == LinkEntry(other, relation);
    OtherEntryNoMatch(s, other, relation);
    forall i | 1 <= i < |first| ensures s[i] != '<' {
      assert s[i] == first[i];
    }
    SearchSkips(s, 1, |first|);
    NextEntryMatches(first, url, after);
    PatternGivesMatch(s, |first|, url);
  }
}
