/** The part of Go's `strings` package the program relies on: `strings.Split`
    with a separator of exactly one character, and its inverse, joining. */
module GoStrings {

  /** The number of times `c` occurs in `s`. */
  function Occurrences(s: string, c: char): (n: nat)
    ensures n > 0 <==> c in s
    ensures n <= |s|
  {
    if |s| == 0 then 0
    else
      assert s == [s[0]] + s[1..];
      (if s[0] == c then 1 else 0) + Occurrences(s[1..], c)
  }

  /** Concatenates `pieces`, putting one `sep` between neighbours. */
  function Join(pieces: seq<string>, sep: char): string
    requires |pieces| >= 1
  {
    if |pieces| == 1 then pieces[0]
    else pieces[0] + [sep] + Join(pieces[1..], sep)
  }

  /** `strings.Split(s, sep)`: the slices of `s` between the occurrences of
      `sep`. Go returns one piece per separator plus one, so an empty `s`
      gives a single empty piece, and a leading or trailing separator gives an
      empty first or last piece. */
  function Split(s: string, sep: char): (pieces: seq<string>)
    ensures |pieces| == Occurrences(s, sep) + 1
    ensures forall i :: 0 <= i < |pieces| ==> sep !in pieces[i]
    decreases |s|
  {
    if |s| == 0 then [""]
    else
      var rest := Split(s[1..], sep);
      if s[0] == sep then [""] + rest
      else [[s[0]] + rest[0]] + rest[1..]
  }

  /** Round trip: joining the pieces of a split with the same separator gives
      back the original string. */
  lemma {:induction false} JoinSplit(s: string, sep: char)
    ensures Join(Split(s, sep), sep) == s
    decreases |s|
  {
    if |s| > 0 {
      var rest := Split(s[1..], sep);
      JoinSplit(s[1..], sep);
      var pieces := Split(s, sep);
      if s[0] == sep {
        assert pieces == [""] + rest;
        assert pieces[1..] == rest;
        assert s == [sep] + s[1..];
      } else {
        assert pieces == [[s[0]] + rest[0]] + rest[1..];
        assert pieces[1..] == rest[1..];
        assert Join(pieces, sep) == [s[0]] + Join(rest, sep);
        assert s == [s[0]] + s[1..];
      }
    }
  }

  /** Splitting a string that starts with a separator-free prefix `p` glues
      `p` onto the first piece of the rest. */
  lemma {:induction false} SplitOfPrefix(p: string, t: string, sep: char)
    requires sep !in p
    ensures Split(p + t, sep) == [p + Split(t, sep)[0]] + Split(t, sep)[1..]
    decreases |p|
  {
    if |p| == 0 {
      var s := Split(t, sep);
      assert p + t == t;
      assert p + s[0] == s[0];
      assert s == [s[0]] + s[1..];
    } else {
      var q := p + t;
      var s := Split(t, sep);
      assert q[0] == p[0] && q[1..] == p[1..] + t;
      assert sep !in p[1..] by {
        assert p == [p[0]] + p[1..];
      }
      SplitOfPrefix(p[1..], t, sep);
      var r := Split(q[1..], sep);
      assert r == [p[1..] + s[0]] + s[1..];
      assert Split(q, sep) == [[p[0]] + r[0]] + r[1..];
      assert [p[0]] + r[0] == p + s[0] by {
        assert p == [p[0]] + p[1..];
      }
      assert r[1..] == s[1..];
    }
  }

  /** Round trip: splitting the join of separator-free pieces gives the pieces back. */
  lemma {:induction false} SplitJoin(pieces: seq<string>, sep: char)
    requires |pieces| >= 1
    requires forall i :: 0 <= i < |pieces| ==> sep !in pieces[i]
    ensures Split(Join(pieces, sep), sep) == pieces
    decreases |pieces|
  {
    if |pieces| == 1 {
      SplitOfPrefix(pieces[0], "", sep);
      assert pieces[0] + "" == pieces[0];
    } else {
      var tail := Join(pieces[1..], sep);
      SplitJoin(pieces[1..], sep);
      assert ([sep] + tail)[1..] == tail;
      assert Split([sep] + tail, sep) == [""] + pieces[1..];
      SplitOfPrefix(pieces[0], [sep] + tail, sep);
      assert Join(pieces, sep) == pieces[0] + ([sep] + tail);
      var x := Split([sep] + tail, sep);
      assert x[0] == "" && x[1..] == pieces[1..];
      assert pieces[0] + x[0] == pieces[0];
      assert pieces == [pieces[0]] + pieces[1..];
    }
  }

  /** Only the single empty piece joins to the empty string. */
  lemma JoinEmpty(pieces: seq<string>, sep: char)
    requires |pieces| >= 1
    ensures Join(pieces, sep) == "" <==> pieces == [""]
  {
    if |pieces| > 1 {
      assert |Join(pieces, sep)| >= 1;
    }
  }
}
