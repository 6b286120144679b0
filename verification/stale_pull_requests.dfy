/** One pass of the program: every accepted watch-list entry is looked up,
    its stale pull requests are collected in watch-list order, and the
    notification shows how many there are and links to the first. */
module StalePullRequests {
  import opened Results
  import opened GoStrings
  import opened WatchList
  import opened Staleness
  import opened Concatenation

  /** A failed listing of a repository's open pull requests. */
  datatype FetchError = FetchError(repo: RepoRef, cause: string)

  /** The code host's "list open pull requests" call, as a function of the
      repository asked about. */
  type Fetcher = RepoRef -> Result<seq<PullRequest>, FetchError>

  /** What the notification is built from: the number of stale pull
      requests, their links in report order, and the link the notification
      opens, absent when there is nothing to link to. */
  datatype StaleReport = StaleReport(count: nat, urls: seq<string>, link: Option<string>)

  /** `getOldPullRequestsForRepo`: the links of the stale open pull requests
      of one repository, none when the listing fails. */
  function RepoStaleURLs(fetch: Fetcher, ref: RepoRef, now: int): seq<string> {
    var listed := fetch(ref);
    if listed.Failure? then [] else URLs(SelectStale(listed.value, now, StaleLimit))
  }

  /** What one watch-list entry adds to the report: nothing when it is
      malformed, otherwise its repository's stale links. */
  function EntryStaleURLs(fetch: Fetcher, entry: string, now: int): seq<string> {
    var parsed := ParseEntry(entry);
    if parsed.None? then [] else RepoStaleURLs(fetch, parsed.value, now)
  }

  /** The report's links: each entry's contribution, concatenated in
      watch-list order. */
  function Aggregate(fetch: Fetcher, entries: seq<string>, now: int): seq<string> {
    FlatMap(Contribution(fetch, now), entries)
  }

  /** `EntryStaleURLs` as a function of the entry alone. */
  function Contribution(fetch: Fetcher, now: int): string -> seq<string> {
    entry => EntryStaleURLs(fetch, entry, now)
  }

  /** The number of stale pull requests each entry adds, summed over the
      watch-list. */
  function TotalStale(fetch: Fetcher, entries: seq<string>, now: int): nat
    decreases |entries|
  {
    if |entries| == 0 then 0
    else |EntryStaleURLs(fetch, entries[0], now)| + TotalStale(fetch, entries[1..], now)
  }

  /** The loop of `getOldPullRequestsForRepo`: list the open pull requests
      once, give up on failure, and otherwise keep the link of each one
      created before the cutoff. */
  method OldPullRequestsForRepo(fetch: Fetcher, ref: RepoRef, now: int) returns (urls: seq<string>)
    ensures fetch(ref).Failure? ==> urls == []
    ensures fetch(ref).Success? ==> urls == URLs(SelectStale(fetch(ref).value, now, StaleLimit))
  {
    var listed := fetch(ref);
    if listed.Failure? {
      return [];
    }
    var prs := listed.value;
    urls := [];
    var i := 0;
    while i < |prs|
      invariant 0 <= i <= |prs|
      invariant urls == URLs(SelectStale(prs[..i], now, StaleLimit))
    {
      var cutoff := now - StaleLimit;
      SelectStaleSnoc(prs[..i], prs[i], now, StaleLimit);
      assert prs[..i + 1] == prs[..i] + [prs[i]];
      if prs[i].createdAt < cutoff {
        URLsSnoc(SelectStale(prs[..i], now, StaleLimit), prs[i]);
        urls := urls + [prs[i].url];
      }
      i := i + 1;
    }
    assert prs[..i] == prs;
  }

  /** The loop of `main` with the entry check of `ParseEntry` (number of
      pieces tested first): a malformed entry is skipped and the loop goes
      on; an accepted one has its stale links appended. In the source an
      entry without `/` panics instead (`AggregateAsWritten`). The result is the concatenation of the entries'
      contributions in watch-list order. */
  method CollectOldPullRequests(fetch: Fetcher, entries: seq<string>, now: int) returns (all: seq<string>)
    ensures all == Aggregate(fetch, entries, now)
  {
    all := [];
    var i := 0;
    while i < |entries|
      invariant 0 <= i <= |entries|
      invariant all == Aggregate(fetch, entries[..i], now)
    {
      assert entries[..i + 1][..i] == entries[..i];
      var parsed := ParseEntry(entries[i]);
      if parsed.None? {
        i := i + 1;
        continue;
      }
      var found := OldPullRequestsForRepo(fetch, parsed.value, now);
      all := all + found;
      i := i + 1;
    }
    assert entries[..i] == entries;
  }

  /** The loop of `main` as written, with the entry check that reads the
      second piece before testing the number of pieces: it can only be run on
      a watch-list whose every entry holds a `/`, and there it reports what
      `Aggregate` reports. */
  function AggregateAsWritten(fetch: Fetcher, entries: seq<string>, now: int): (urls: seq<string>)
    requires forall i :: 0 <= i < |entries| ==> OwnerSeparator in entries[i]
    ensures urls == Aggregate(fetch, entries, now)
    decreases |entries|
  {
    if |entries| == 0 then []
    else
      var last := entries[|entries| - 1];
      var parsed := ParseEntryAsWritten(last);
      var found := if parsed.None? then [] else RepoStaleURLs(fetch, parsed.value, now);
      AggregateAsWritten(fetch, entries[..|entries| - 1], now) + found
  }

  /** The notification's content for a list of stale links: the count is
      their number and the link is the first of them, when there is one. */
  function MakeReport(urls: seq<string>): (report: StaleReport)
    ensures report.urls == urls && report.count == |urls|
    ensures report.link.Some? <==> |urls| > 0
    ensures report.link.Some? ==> report.link.value == urls[0]
  {
    StaleReport(|urls|, urls, if |urls| == 0 then None else Some(urls[0]))
  }

  /** The link as `main` computes it: the first stale link, read without
      checking that there is one, so the caller must supply a non-empty list. */
  function FirstURLAsWritten(urls: seq<string>): (link: string)
    requires |urls| > 0
    ensures MakeReport(urls).link == Some(link)
  {
    urls[0]
  }

  /** One whole pass, as corrected: the configured watch-list is rejected
      when empty, and otherwise produces the report of its stale pull
      requests. Entries are checked with `ParseEntry` and the link is
      optional, so the pass never fails on the two unchecked indexings of
      `main` (`ParseEntryAsWritten`, `FirstURLAsWritten`). */
  function Run(fetch: Fetcher, raw: string, now: int): (r: Result<StaleReport, ConfigError>)
    ensures r.Failure? <==> raw == ""
    ensures r.Success? ==> r.value.urls == Aggregate(fetch, Split(raw, EntrySeparator), now)
    ensures r.Success? ==> r.value.count == |r.value.urls|
    ensures r.Success? ==> (r.value.link.Some? <==> r.value.count > 0)
    ensures r.Success? && r.value.link.Some? ==> r.value.link.value == r.value.urls[0]
  {
    match ReposToWatch(raw)
    case Failure(e) => Failure(e)
    case Success(entries) => Success(MakeReport(Aggregate(fetch, entries, now)))
  }

  /** Order stability: the report for a watch-list split in two lists the
      first part's links, in order, before the second part's. */
  lemma AggregateAppend(fetch: Fetcher, a: seq<string>, b: seq<string>, now: int)
    ensures Aggregate(fetch, a + b, now) == Aggregate(fetch, a, now) + Aggregate(fetch, b, now)
  {
    FlatMapAppend(Contribution(fetch, now), a, b);
  }

  /** The report for a one-entry watch-list is that entry's contribution. */
  lemma AggregateSingle(fetch: Fetcher, entry: string, now: int)
    ensures Aggregate(fetch, [entry], now) == EntryStaleURLs(fetch, entry, now)
  {
    FlatMapSingle(Contribution(fetch, now), entry);
  }

  /** An entry that contributes nothing can be dropped from the watch-list
      without changing the report. */
  lemma SilentEntryDroppable(fetch: Fetcher, before: seq<string>, entry: string, after: seq<string>, now: int)
    requires EntryStaleURLs(fetch, entry, now) == []
    ensures Aggregate(fetch, before + [entry] + after, now) == Aggregate(fetch, before + after, now)
  {
    AggregateAppend(fetch, before + [entry], after, now);
    AggregateAppend(fetch, before, [entry], now);
    AggregateAppend(fetch, before, after, now);
    AggregateSingle(fetch, entry, now);
  }

  /** A malformed entry contributes nothing and does not disturb the entries
      around it: removing it leaves the report unchanged. */
  lemma MalformedEntryIsolated(fetch: Fetcher, before: seq<string>, bad: string, after: seq<string>, now: int)
    requires !WellFormedEntry(bad)
    ensures Aggregate(fetch, before + [bad] + after, now) == Aggregate(fetch, before + after, now)
  {
    SilentEntryDroppable(fetch, before, bad, after, now);
  }

  /** A repository whose listing fails contributes nothing, and the pass goes
      on with the repositories after it. */
  lemma FailedFetchIsolated(fetch: Fetcher, before: seq<string>, entry: string, after: seq<string>, now: int)
    requires ParseEntry(entry).Some? && fetch(ParseEntry(entry).value).Failure?
    ensures Aggregate(fetch, before + [entry] + after, now) == Aggregate(fetch, before + after, now)
  {
    SilentEntryDroppable(fetch, before, entry, after, now);
  }

  /** A watch-list with no acceptable entry reports nothing. */
  lemma {:induction false} AllMalformedReportsNothing(fetch: Fetcher, entries: seq<string>, now: int)
    requires forall i :: 0 <= i < |entries| ==> !WellFormedEntry(entries[i])
    ensures Aggregate(fetch, entries, now) == []
    decreases |entries|
  {
    if |entries| > 0 {
      AllMalformedReportsNothing(fetch, entries[..|entries| - 1], now);
    }
  }

  /** The reported count is the sum, over the watch-list, of the number of
      stale pull requests each entry adds. */
  lemma {:induction false} CountIsSumOfRepoCounts(fetch: Fetcher, entries: seq<string>, now: int)
    ensures |Aggregate(fetch, entries, now)| == TotalStale(fetch, entries, now)
    decreases |entries|
  {
    if |entries| > 0 {
      CountIsSumOfRepoCounts(fetch, entries[1..], now);
      AggregateAppend(fetch, [entries[0]], entries[1..], now);
      assert [entries[0]] + entries[1..] == entries;
      AggregateSingle(fetch, entries[0], now);
    }
  }

  /** A link is reported exactly when some accepted entry's repository was
      listed and holds a stale pull request with that link. */
  lemma {:induction false} AggregateMembers(fetch: Fetcher, entries: seq<string>, now: int, url: string)
    ensures url in Aggregate(fetch, entries, now) <==>
      exists i, pr :: 0 <= i < |entries| && ParseEntry(entries[i]).Some?
        && fetch(ParseEntry(entries[i]).value).Success?
        && pr in fetch(ParseEntry(entries[i]).value).value
        && IsStale(pr, now, StaleLimit) && pr.url == url
    decreases |entries|
  {
    if |entries| > 0 {
      var last := |entries| - 1;
      var init := entries[..last];
      AggregateMembers(fetch, init, now, url);
      if url in Aggregate(fetch, entries, now) {
        if url !in Aggregate(fetch, init, now) {
          var ref := ParseEntry(entries[last]).value;
          var prs := fetch(ref).value;
          var stale := SelectStale(prs, now, StaleLimit);
          var k :| 0 <= k < |stale| && stale[k].url == url;
          SelectStaleMembers(prs, now, StaleLimit, stale[k]);
        } else {
          var i, pr :| 0 <= i < |init| && ParseEntry(init[i]).Some?
            && fetch(ParseEntry(init[i]).value).Success?
            && pr in fetch(ParseEntry(init[i]).value).value
            && IsStale(pr, now, StaleLimit) && pr.url == url;
          assert entries[i] == init[i];
        }
      } else {
        forall i, pr | 0 <= i < |entries| && ParseEntry(entries[i]).Some?
            && fetch(ParseEntry(entries[i]).value).Success?
            && pr in fetch(ParseEntry(entries[i]).value).value
            && IsStale(pr, now, StaleLimit)
          ensures pr.url != url
        {
          if i == last {
            var stale := SelectStale(fetch(ParseEntry(entries[i]).value).value, now, StaleLimit);
            SelectStaleMembers(fetch(ParseEntry(entries[i]).value).value, now, StaleLimit, pr);
            var k :| 0 <= k < |stale| && stale[k] == pr;
            assert URLs(stale)[k] == pr.url;
          } else {
            assert entries[i] == init[i];
          }
        }
      }
    }
  }

  /** When no listing succeeds there is nothing stale to link to, so the
      link of `main` cannot be computed: `FirstURLAsWritten` does not apply. */
  lemma AllFetchesFailingLeavesNoLink(raw: string, now: int)
    requires raw != ""
    ensures var fetch: Fetcher := ref => Failure(FetchError(ref, "unreachable"));
      Run(fetch, raw, now).value.urls == [] && Run(fetch, raw, now).value.link == None
  {
    var fetch: Fetcher := ref => Failure(FetchError(ref, "unreachable"));
    var entries := ReposToWatch(raw).value;
    NoSuccessNoLinks(fetch, entries, now);
  }

  /** With every listing failing, no entry contributes. */
  lemma {:induction false} NoSuccessNoLinks(fetch: Fetcher, entries: seq<string>, now: int)
    requires forall ref :: fetch(ref).Failure?
    ensures Aggregate(fetch, entries, now) == []
    decreases |entries|
  {
    if |entries| > 0 {
      NoSuccessNoLinks(fetch, entries[..|entries| - 1], now);
    }
  }

  /** Spelled out for two repositories `A` and `B` where `A` cannot be listed
      and `B` has one stale and one recent pull request: the report holds
      `B`'s stale link alone. */
  lemma FailingAndStaleExample(now: int)
    ensures var fetch: Fetcher := (ref: RepoRef) =>
        if ref.owner == "a" then Failure(FetchError(ref, "denied"))
        else Success([PullRequest(now - 3 * StaleLimit, "b-old"), PullRequest(now, "b-new")]);
      Run(fetch, "a/x;b/y", now) == Success(StaleReport(1, ["b-old"], Some("b-old")))
  {
    var fetch: Fetcher := (ref: RepoRef) =>
        if ref.owner == "a" then Failure(FetchError(ref, "denied"))
        else Success([PullRequest(now - 3 * StaleLimit, "b-old"), PullRequest(now, "b-new")]);
    ReposToWatchOfJoin(["a/x", "b/y"]);
    assert Join(["a/x", "b/y"], EntrySeparator) == "a/x;b/y";
    ParseFormat(RepoRef("a", "x"));
    assert RepoRef("a", "x").Format() == "a/x";
    ParseFormat(RepoRef("b", "y"));
    assert RepoRef("b", "y").Format() == "b/y";
    var prs := [PullRequest(now - 3 * StaleLimit, "b-old"), PullRequest(now, "b-new")];
    assert SelectStale(prs, now, StaleLimit) == [prs[0]] by {
      assert prs[1..][1..] == [];
      assert SelectStale(prs[1..], now, StaleLimit) == [];
    }
    assert URLs([prs[0]]) == ["b-old"];
    assert EntryStaleURLs(fetch, "a/x", now) == [];
    assert EntryStaleURLs(fetch, "b/y", now) == ["b-old"];
    AggregateAppend(fetch, ["a/x"], ["b/y"], now);
    assert ["a/x"] + ["b/y"] == ["a/x", "b/y"];
    AggregateSingle(fetch, "a/x", now);
    AggregateSingle(fetch, "b/y", now);
    assert Aggregate(fetch, ["a/x", "b/y"], now) == ["b-old"];
  }
}
