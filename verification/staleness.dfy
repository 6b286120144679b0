/** The staleness rule: which open pull requests are old enough to report.
    Times are whole nanoseconds, the unit of Go's `time.Duration`. */
module Staleness {

  /** One hour, in nanoseconds. */
  const Hour: int := 3_600_000_000_000

  /** `stalePullRequestTimeLimitDays`, written in the source as
      `time.Hour * 2 * 24`: forty-eight hours, that is two days. */
  const StaleLimit: int := Hour * 2 * 24

  /** The part of an open pull request the program reads: when it was opened
      and the link to its page. */
  datatype PullRequest = PullRequest(createdAt: int, url: string)

  /** A pull request is stale when it was created strictly before the cutoff
      `now - limit` (`CreatedAt.Before(now.Add(-limit))`). */
  predicate IsStale(pr: PullRequest, now: int, limit: int) {
    pr.createdAt < now - limit
  }

  /** `a` is obtained from `b` by deleting elements, the rest kept in order. */
  predicate IsSubsequence<T(==)>(a: seq<T>, b: seq<T>)
    decreases |b|
  {
    if |a| == 0 then true
    else if |b| == 0 then false
    else if a[0] == b[0] then IsSubsequence(a[1..], b[1..])
    else IsSubsequence(a, b[1..])
  }

  /** The stale pull requests among `prs`, in their original order: a
      subsequence of `prs` made of stale elements only
      (`SelectStaleCounts` adds that none is lost). */
  function SelectStale(prs: seq<PullRequest>, now: int, limit: int): (stale: seq<PullRequest>)
    ensures IsSubsequence(stale, prs)
    ensures forall i :: 0 <= i < |stale| ==> IsStale(stale[i], now, limit)
    decreases |prs|
  {
    if |prs| == 0 then []
    else
      var rest := SelectStale(prs[1..], now, limit);
      if IsStale(prs[0], now, limit) then
        assert ([prs[0]] + rest)[1..] == rest;
        [prs[0]] + rest
      else rest
  }

  /** Every stale element of `prs` is selected as many times as it occurs in
      `prs`, and no other element is selected at all. */
  lemma {:induction false} SelectStaleCounts(prs: seq<PullRequest>, now: int, limit: int, pr: PullRequest)
    ensures multiset(SelectStale(prs, now, limit))[pr]
         == if IsStale(pr, now, limit) then multiset(prs)[pr] else 0
    decreases |prs|
  {
    if |prs| > 0 {
      SelectStaleCounts(prs[1..], now, limit, pr);
      assert prs == [prs[0]] + prs[1..];
      assert multiset(prs) == multiset([prs[0]]) + multiset(prs[1..]);
    }
  }

  /** A pull request is selected exactly when it is listed and stale. */
  lemma SelectStaleMembers(prs: seq<PullRequest>, now: int, limit: int, pr: PullRequest)
    ensures pr in SelectStale(prs, now, limit) <==> pr in prs && IsStale(pr, now, limit)
  {
    SelectStaleCounts(prs, now, limit, pr);
  }

  /** The links of `prs`, in order. */
  function URLs(prs: seq<PullRequest>): (urls: seq<string>)
    ensures |urls| == |prs|
    ensures forall i :: 0 <= i < |prs| ==> urls[i] == prs[i].url
  {
    seq(|prs|, i requires 0 <= i < |prs| => prs[i].url)
  }

  /** Selecting is compatible with splitting the input: the stale elements of
      `a + b` are those of `a` followed by those of `b`. */
  lemma {:induction false} SelectStaleAppend(a: seq<PullRequest>, b: seq<PullRequest>, now: int, limit: int)
    ensures SelectStale(a + b, now, limit) == SelectStale(a, now, limit) + SelectStale(b, now, limit)
    decreases |a|
  {
    if |a| == 0 {
      assert a + b == b;
    } else {
      assert (a + b)[0] == a[0];
      assert (a + b)[1..] == a[1..] + b;
      SelectStaleAppend(a[1..], b, now, limit);
    }
  }

  /** Selecting from a list extended by one pull request extends the
      selection by that pull request exactly when it is stale. */
  lemma SelectStaleSnoc(prs: seq<PullRequest>, pr: PullRequest, now: int, limit: int)
    ensures SelectStale(prs + [pr], now, limit)
         == SelectStale(prs, now, limit) + (if IsStale(pr, now, limit) then [pr] else [])
  {
    SelectStaleAppend(prs, [pr], now, limit);
    assert [pr][1..] == [];
  }

  /** The links of a list extended by one pull request. */
  lemma URLsSnoc(prs: seq<PullRequest>, pr: PullRequest)
    ensures URLs(prs + [pr]) == URLs(prs) + [pr.url]
  {
  }

  /** Selecting again from an already selected list changes nothing. */
  lemma {:induction false} SelectStaleIdempotent(prs: seq<PullRequest>, now: int, limit: int)
    ensures SelectStale(SelectStale(prs, now, limit), now, limit) == SelectStale(prs, now, limit)
    decreases |prs|
  {
    if |prs| > 0 {
      SelectStaleIdempotent(prs[1..], now, limit);
      var rest := SelectStale(prs[1..], now, limit);
      if IsStale(prs[0], now, limit) {
        assert ([prs[0]] + rest)[1..] == rest;
      }
    }
  }

  /** With a longer limit, what is selected is what the shorter limit selects,
      filtered once more: every pull request stale under the longer limit is
      stale under the shorter one. */
  lemma {:induction false} SelectStaleNarrows(prs: seq<PullRequest>, now: int, shorter: int, longer: int)
    requires shorter <= longer
    ensures SelectStale(prs, now, longer) == SelectStale(SelectStale(prs, now, shorter), now, longer)
    decreases |prs|
  {
    if |prs| > 0 {
      SelectStaleNarrows(prs[1..], now, shorter, longer);
      var rest := SelectStale(prs[1..], now, shorter);
      if IsStale(prs[0], now, shorter) {
        assert ([prs[0]] + rest)[1..] == rest;
      }
    }
  }

  /** A longer limit never reports more: its selection is a subsequence of
      the shorter limit's, hence no longer. */
  lemma SelectStaleMonotone(prs: seq<PullRequest>, now: int, shorter: int, longer: int)
    requires shorter <= longer
    ensures IsSubsequence(SelectStale(prs, now, longer), SelectStale(prs, now, shorter))
    ensures |SelectStale(prs, now, longer)| <= |SelectStale(prs, now, shorter)|
  {
    SelectStaleNarrows(prs, now, shorter, longer);
    SubsequenceNoLonger(SelectStale(prs, now, longer), SelectStale(prs, now, shorter));
  }

  /** A subsequence is never longer than the sequence it comes from. */
  lemma {:induction false} SubsequenceNoLonger<T>(a: seq<T>, b: seq<T>)
    requires IsSubsequence(a, b)
    ensures |a| <= |b|
    decreases |b|
  {
    if |a| > 0 {
      if a[0] == b[0] {
        SubsequenceNoLonger(a[1..], b[1..]);
      } else {
        SubsequenceNoLonger(a, b[1..]);
      }
    }
  }

  /** With the forty-eight hour limit: a pull request opened forty-nine hours
      ago is stale, one opened forty-seven hours ago is not, and one opened
      exactly forty-eight hours ago is not either. */
  lemma CutoffExamples(now: int)
    ensures SelectStale([PullRequest(now - 49 * Hour, "old"),
                         PullRequest(now - 47 * Hour, "new"),
                         PullRequest(now - 48 * Hour, "edge")], now, StaleLimit)
         == [PullRequest(now - 49 * Hour, "old")]
  {
    var prs := [PullRequest(now - 49 * Hour, "old"),
                PullRequest(now - 47 * Hour, "new"),
                PullRequest(now - 48 * Hour, "edge")];
    assert SelectStale(prs[2..], now, StaleLimit) == [] by {
      assert prs[2..][1..] == [];
    }
    assert prs[1..][1..] == prs[2..];
    assert SelectStale(prs[1..], now, StaleLimit) == [];
  }
}
