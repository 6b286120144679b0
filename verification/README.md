# prmonitor stale pull-request pipeline, in Dafny

This project models `prnotify`, a single-pass program. It reads a `;`-separated
list of `owner/name` repositories and lists each repository's open pull requests.
It keeps those opened more than 48 hours ago. Then it shows one desktop
notification giving their number and linking to the first one.

The model covers the program's three pure parts:

- **Watch-list splitting** (`WatchList.ReposToWatch`). An empty configuration
  is rejected. Any other configuration is cut on `;` with Go's `strings.Split`
  semantics, modelled in `GoStrings.Split`.
- **Entry validation** (`WatchList.ParseEntry`). An entry is accepted exactly
  when it splits on `/` into two non-empty pieces, the owner and the name.
  `ParseEntryAsWritten` is the check as the source orders it.
- **Staleness and aggregation** (`Staleness`, `StalePullRequests`). A pull
  request is stale when `createdAt < now - 48h`. Each repository's stale links
  are kept in listing order. A failed listing contributes nothing. The
  contributions are concatenated in watch-list order. The notification count is
  the length of that list, and its link is the first element.

Modules: `Results` (Option/Result), `GoStrings` (split, join, occurrence count),
`Concatenation` (ordered flat-map), `WatchList`, `Staleness` and
`StalePullRequests`. Times are integers in nanoseconds, the unit of Go's
`time.Duration`. The current time is a parameter, `now`. The code host's
listing call is a parameter, `fetch: RepoRef -> Result<seq<PullRequest>, FetchError>`.

The staleness limit `time.Hour * 2 * 24` at `prnotify.go:19` is 48 hours (two
days). Malformed entries that hold a `/` are logged and skipped; an entry
without one makes l.50 panic (see "## Findings").

`StalePullRequests.Run` is the corrected pass: it checks entries with
`ParseEntry` and makes the link optional. The source itself can also panic at
l.50 and l.70 (see "## Findings"), so "a pass fails only on an empty
configuration" is a property of the model, not of the source.

## Model

| member | source | states |
|---|---|---|
| GoStrings.Split | prnotify.go:114 | `strings.Split` with a one-character separator gives one piece per separator plus one, and no piece contains the separator |
| GoStrings.JoinSplit | prnotify.go:114 | joining the pieces of a split with the same separator gives back the original string |
| GoStrings.SplitJoin | prnotify.go:114 | splitting the join of separator-free pieces gives the same pieces, in order |
| WatchList.ReposToWatch | prnotify.go:108-115 | an empty configuration is rejected and nothing else is; otherwise the entries rejoin with `;` to the configuration, none contains `;`, and there is one more entry than there are `;` |
| WatchList.ReposToWatchOfJoin | prnotify.go:108-115 | every ordered list of `;`-free entries, except the single empty entry, is read back unchanged from its `;`-joined spelling |
| WatchList.ParseEntry | prnotify.go:47-57 | an entry is accepted iff it has exactly one `/` and that `/` is neither first nor last; an accepted entry yields non-empty owner and name without `/` that spell the entry as `owner/name` |
| WatchList.ParseTwoPieces | prnotify.go:51 | for an entry that split into two pieces, it is accepted iff both pieces are non-empty, and then the pair spells the entry |
| WatchList.ParseFormat | prnotify.go:48-51 | every valid owner/name pair, written `owner/name`, is accepted and yields that same pair |
| WatchList.SecondPieceExists | prnotify.go:48-50 | reading the second piece of an entry split on `/` is in range exactly when the entry holds a `/` |
| WatchList.ParseEntryAsWritten | prnotify.go:48-57 | the source's order (read both pieces, then test the count) needs an entry holding `/`, and there it decides as `ParseEntry` does |
| WatchList.TrailingSeparatorBreaksAsWritten | prnotify.go:50 | the configuration `o/r;` is accepted and yields an empty second entry with no `/`, to which the source's entry check cannot be applied |
| WatchList.ExampleWatchList | prnotify.go:47-57 | `a/b;bad;c/d` gives three entries in order: `a/b` and `c/d` are accepted as their pairs, and `bad` is refused |
| Staleness.SelectStale | prnotify.go:97-105 | the selection is a subsequence of the listed pull requests (order kept), and every selected one is strictly older than the cutoff |
| Staleness.SelectStaleCounts | prnotify.go:97-105 | each stale pull request is selected exactly as many times as it is listed; a non-stale one is never selected |
| Staleness.SelectStaleMembers | prnotify.go:99-101 | a pull request is selected iff it is listed and was created strictly before `now - limit` |
| Staleness.SelectStaleAppend | prnotify.go:98-103 | selecting from `a + b` gives the selection from `a` followed by the selection from `b` |
| Staleness.SelectStaleIdempotent | prnotify.go:97-105 | selecting again from a selection changes nothing |
| Staleness.SelectStaleNarrows | prnotify.go:99-100 | with a longer limit, the selection equals the shorter limit's selection filtered again |
| Staleness.SelectStaleMonotone | prnotify.go:99-100 | a longer limit selects a subsequence of what a shorter limit selects, so never more pull requests |
| Staleness.CutoffExamples | prnotify.go:19 | with the 48-hour limit, a pull request opened 49 hours ago is stale, and ones opened 47 hours or exactly 48 hours ago are not |
| StalePullRequests.OldPullRequestsForRepo | prnotify.go:89-106 | the per-repository loop gives no links when the listing fails; otherwise it gives the links of the stale pull requests, in listing order |
| StalePullRequests.CollectOldPullRequests | prnotify.go:46-61 | the loop of `main` with the entry check of `ParseEntry` (count tested first) produces the concatenation, in watch-list order, of each entry's contribution; malformed entries are skipped and the loop goes on |
| StalePullRequests.AggregateAsWritten | prnotify.go:47-61 | the loop with the source's entry check can only run when every entry holds `/`, and there it reports the same list |
| StalePullRequests.MakeReport | prnotify.go:63-70 | the count equals the number of stale links; the link is present iff there is a stale link, and it is then the first one |
| StalePullRequests.FirstURLAsWritten | prnotify.go:70 | the source's link needs a non-empty list, and there it equals the link of `MakeReport` |
| StalePullRequests.Run | prnotify.go:38-70 | the corrected pass fails iff the configuration is empty; otherwise it reports the aggregated stale links of the `;`-separated entries, a count equal to their number, and a link iff the count is positive, which is then the first stale link |
| StalePullRequests.AggregateAppend | prnotify.go:46-61 | the report for a watch-list `a + b` lists all of `a`'s links before `b`'s |
| StalePullRequests.AggregateSingle | prnotify.go:59-60 | the report for a one-entry watch-list is that entry's contribution |
| StalePullRequests.MalformedEntryIsolated | prnotify.go:51-57 | with the corrected entry check, removing a malformed entry from anywhere in the watch-list leaves the report unchanged, so it never causes another entry to be dropped |
| StalePullRequests.FailedFetchIsolated | prnotify.go:91-94 | removing an accepted entry whose listing fails leaves the report unchanged; the repositories after it still report |
| StalePullRequests.AllMalformedReportsNothing | prnotify.go:46-57 | a watch-list with no acceptable entry gives an empty report |
| StalePullRequests.CountIsSumOfRepoCounts | prnotify.go:59-63 | the reported count is the sum, over the entries, of the stale pull requests each one contributes |
| StalePullRequests.AggregateMembers | prnotify.go:46-61 | a link is reported iff some accepted entry's repository was listed and holds a stale pull request with that link |
| StalePullRequests.NoSuccessNoLinks | prnotify.go:91-94 | when every listing fails the report is empty |
| StalePullRequests.AllFetchesFailingLeavesNoLink | prnotify.go:70 | for any non-empty configuration whose listings all fail, the report has no links and no first link, so the source's link cannot be computed |
| StalePullRequests.FailingAndStaleExample | prnotify.go:46-70 | for repositories `a/x` (listing fails) and `b/y` (one stale and one recent pull request) the report is count 1, links `[b-old]`, link `b-old` |
| Concatenation.FlatMapAppend | prnotify.go:60 | appending per-element results in order distributes over the concatenation of the inputs |

## Left out

- Reading the configuration from the environment (`viper`, l.22-25, 109, 118) and the process exit of `log.Fatal`. The model keeps only "an empty watch-list is rejected", as a `Failure` result.
- The API token check and the OAuth2/GitHub client construction (l.80-87, 117-124). These are configuration and network set-up.
- The `PullRequests.List` call (l.90-91). It is the `fetch` parameter. Only its first page of open pull requests is seen, as in the source. `fetch` is a pure function of the repository: a repository listed twice in the watch-list gets the same result both times, while in the source the second call (one per entry, l.91) may fail or return something different.
- All logging and the syslog hook (l.27-34, 42-44, 52-54, 72-77, 93), including the exit with status 1 when the syslog hook cannot be created (l.30-31). Malformed entries that hold a `/` are logged and skipped; an entry without one makes l.50 panic (see "## Findings"). The code does not collect malformed entries into a list, so neither does the model.
- Building and pushing the desktop notification (l.65-75), including its text, sound and push errors. Only the count and the first link are modelled.
- `time.Now()`, which is called again for every pull request (l.99). The model uses one fixed `now`, so a pass that straddles the cutoff may differ by the time the loop takes.
- Go's `time.Time` range, and the 64-bit `Duration` arithmetic in `Add`. Timestamps are unbounded integers; the 48-hour limit is far from any overflow.
- The dereference of `pr.HTMLURL` (l.101), which panics on a missing link. URLs are plain strings.
- The nil `pr.CreatedAt` case: it is a `*time.Time`, and `pr.CreatedAt.Before(...)` (l.100) panics when it is nil. `PullRequest.createdAt` is a plain integer that is always present.
- Running the repository lookups concurrently. The source runs them one after another, and so does the model.

## Findings

| source | as written | input that shows it | evidently intended | confidence | as-written member | corrected member |
|---|---|---|---|---|---|---|
| prnotify.go:49-51 | `repoPieces[1]` is read before `len(repoPieces) != 2` is tested | the configuration `o/r;`: its empty second entry splits into one piece, so the index is out of range and the program panics; so does any entry without `/`, such as `bad` | test the number of pieces first and skip the entry, as the error message and `continue` intend | high, not executed | WatchList.ParseEntryAsWritten (counterexample WatchList.TrailingSeparatorBreaksAsWritten) | WatchList.ParseEntry (acceptance iff exactly one inner `/`, proved; isolation proved in StalePullRequests.MalformedEntryIsolated) |
| prnotify.go:70 | `allOldPullRequestURLs[0]` is read whatever the list's length | any configuration whose repositories have no stale pull request, or whose listings all fail: the list is empty and the program panics | leave the link absent when there is nothing stale | high, not executed | StalePullRequests.FirstURLAsWritten (counterexample StalePullRequests.AllFetchesFailingLeavesNoLink) | StalePullRequests.MakeReport (link present iff the list is non-empty, and then its first element) |
