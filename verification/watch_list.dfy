/** The watch-list: the `;`-separated configuration string naming the
    repositories to inspect (`getReposToWatch`), and the `owner/name` check
    applied to each of its entries in `main`. */
module WatchList {
  import opened Results
  import opened GoStrings

  /** Separates the entries of the configured watch-list. */
  const EntrySeparator: char := ';'

  /** Separates the owner from the repository name inside one entry. */
  const OwnerSeparator: char := '/'

  /** The one configuration error of the watch-list: nothing is configured. */
  datatype ConfigError = NoReposConfigured

  /** A repository on the code host, identified by its owner and its name. */
  datatype RepoRef = RepoRef(owner: string, name: string) {

    /** Both parts present, and neither holds the owner separator. */
    predicate Valid() {
      owner != "" && name != "" && OwnerSeparator !in owner && OwnerSeparator !in name
    }

    /** The `owner/name` spelling of the reference. */
    function Format(): string {
      owner + [OwnerSeparator] + name
    }
  }

  /** `getReposToWatch`: an empty configuration is rejected (the source
      exits the process); otherwise the string is split on `;`, keeping the
      order of the entries. */
  function ReposToWatch(raw: string): (r: Result<seq<string>, ConfigError>)
    ensures r.Failure? <==> raw == ""
    ensures r.Success? ==> |r.value| == Occurrences(raw, EntrySeparator) + 1
    ensures r.Success? ==> forall i :: 0 <= i < |r.value| ==> EntrySeparator !in r.value[i]
    ensures r.Success? ==> Join(r.value, EntrySeparator) == raw
  {
    if raw == "" then Failure(NoReposConfigured)
    else
      JoinSplit(raw, EntrySeparator);
      Success(Split(raw, EntrySeparator))
  }

  /** Every non-empty list of separator-free entries other than the single
      empty entry is read back, in order, from its `;`-joined spelling. */
  lemma ReposToWatchOfJoin(entries: seq<string>)
    requires |entries| >= 1 && entries != [""]
    requires forall i :: 0 <= i < |entries| ==> EntrySeparator !in entries[i]
    ensures ReposToWatch(Join(entries, EntrySeparator)) == Success(entries)
  {
    JoinEmpty(entries, EntrySeparator);
    SplitJoin(entries, EntrySeparator);
  }

  /** What makes an entry acceptable, stated on its characters: exactly one
      owner separator, which is neither the first nor the last character. */
  predicate WellFormedEntry(entry: string) {
    && |entry| > 0
    && Occurrences(entry, OwnerSeparator) == 1
    && entry[0] != OwnerSeparator
    && entry[|entry| - 1] != OwnerSeparator
  }

  /** An entry split into exactly two pieces is the first piece, a separator
      and the second piece. */
  lemma TwoPieces(entry: string)
    requires |Split(entry, OwnerSeparator)| == 2
    ensures var pieces := Split(entry, OwnerSeparator);
      entry == pieces[0] + [OwnerSeparator] + pieces[1]
  {
    var pieces := Split(entry, OwnerSeparator);
    JoinSplit(entry, OwnerSeparator);
    assert pieces[1..] == [pieces[1]];
  }

  /** The entry check of `main`, with the length test done before any piece is
      read: an entry is turned into a repository reference exactly when it
      splits on `/` into two non-empty pieces. */
  function ParseEntry(entry: string): (r: Option<RepoRef>)
    ensures r.Some? <==> WellFormedEntry(entry)
    ensures r.Some? ==> r.value.Valid() && r.value.Format() == entry
  {
    var pieces := Split(entry, OwnerSeparator);
    if |pieces| == 2 then TwoPieces(entry); ParseTwoPieces(entry, pieces)
    else None
  }

  /** The check of `main` once the entry is known to split into two pieces:
      both must be non-empty. */
  function ParseTwoPieces(entry: string, pieces: seq<string>): (r: Option<RepoRef>)
    requires pieces == Split(entry, OwnerSeparator) && |pieces| == 2
    requires entry == pieces[0] + [OwnerSeparator] + pieces[1]
    ensures r.Some? <==> WellFormedEntry(entry)
    ensures r.Some? ==> r.value.Valid() && r.value.Format() == entry
  {
    if pieces[0] == "" || pieces[1] == "" then None
    else
      assert entry[0] == pieces[0][0];
      assert entry[|entry| - 1] == pieces[1][|pieces[1]| - 1];
      Some(RepoRef(pieces[0], pieces[1]))
  }

  /** Round trip: the spelling of a valid reference parses back to it. */
  lemma ParseFormat(ref: RepoRef)
    requires ref.Valid()
    ensures ParseEntry(ref.Format()) == Some(ref)
  {
    var pieces := [ref.owner, ref.name];
    SplitJoin(pieces, OwnerSeparator);
    assert Join(pieces, OwnerSeparator) == ref.Format();
  }

  /** Reading the second piece of a split entry, as `main` does before it
      checks the number of pieces, is safe exactly when the entry holds a `/`. */
  lemma SecondPieceExists(entry: string)
    ensures |Split(entry, OwnerSeparator)| >= 2 <==> OwnerSeparator in entry
  {
  }

  /** The entry check as `main` writes it: the owner and the name are read
      from the first two pieces before the number of pieces is tested, so the
      caller must supply an entry holding a `/`. Where it is defined it agrees
      with `ParseEntry`. */
  function ParseEntryAsWritten(entry: string): (r: Option<RepoRef>)
    requires OwnerSeparator in entry
    ensures r == ParseEntry(entry)
  {
    var pieces := Split(entry, OwnerSeparator);
    var owner := pieces[0];
    var name := pieces[1];
    if |pieces| != 2 || owner == "" || name == "" then None
    else Some(RepoRef(owner, name))
  }

  /** A configuration with a trailing `;` is accepted by `ReposToWatch` and
      yields an empty last entry, which holds no `/`: `ParseEntryAsWritten`
      cannot be applied to it, as indexing the second piece would be out of
      range. */
  lemma TrailingSeparatorBreaksAsWritten()
    ensures ReposToWatch("o/r;") == Success(["o/r", ""])
    ensures OwnerSeparator !in ReposToWatch("o/r;").value[1]
    ensures ParseEntry(ReposToWatch("o/r;").value[1]) == None
  {
    ReposToWatchOfJoin(["o/r", ""]);
    assert Join(["o/r", ""], EntrySeparator) == "o/r;";
  }

  /** The entries of `a/b;bad;c/d`: the first and last are accepted in order,
      the malformed middle one is refused without affecting them. */
  lemma ExampleWatchList()
    ensures ReposToWatch("a/b;bad;c/d") == Success(["a/b", "bad", "c/d"])
    ensures ParseEntry("a/b") == Some(RepoRef("a", "b"))
    ensures ParseEntry("bad") == None
    ensures ParseEntry("c/d") == Some(RepoRef("c", "d"))
  {
    ExampleEntries();
    ExampleAccepted('a', 'b');
    ExampleAccepted('c', 'd');
    ExampleMalformed();
  }

  /** The entries of `a/b;bad;c/d`. */
  lemma ExampleEntries()
    ensures ReposToWatch("a/b;bad;c/d") == Success(["a/b", "bad", "c/d"])
  {
    ReposToWatchOfJoin(["a/b", "bad", "c/d"]);
    assert Join(["a/b", "bad", "c/d"], EntrySeparator) == "a/b;bad;c/d";
  }

  /** A one-letter owner and a one-letter name, joined by `/`, are accepted. */
  lemma ExampleAccepted(owner: char, name: char)
    requires owner != OwnerSeparator && name != OwnerSeparator
    ensures ParseEntry([owner, OwnerSeparator, name]) == Some(RepoRef([owner], [name]))
  {
    ParseFormat(RepoRef([owner], [name]));
    assert RepoRef([owner], [name]).Format() == [owner, OwnerSeparator, name];
  }

  /** An entry without an owner separator is refused. */
  lemma ExampleMalformed()
    ensures ParseEntry("bad") == None
  {
    assert OwnerSeparator !in "bad";
  }
}
