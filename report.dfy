/** The tool's result for one log (index.js:58-135): the tally, the fatal
    "No authors found." exit when it is empty, and otherwise the ranked list
    of authors, reversed under `--asc`. */
module Report {
  import opened Wrappers
  import opened Text
  import opened LogFormat
  import opened Aggregation
  import opened TallyProperties
  import opened Ranking
  import opened LogText

  /** The exit with status 1 of index.js:107-110. */
  datatype Error = NoAuthorsFound

  lemma TallyOfWellFormed(chunks: seq<string>, requireEmail: bool)
    ensures WellFormed(TallyOf(chunks, requireEmail)) && Covered(TallyOf(chunks, requireEmail))
    ensures TallyOf(chunks, requireEmail).order == [] <==> Commits(chunks, requireEmail) == []
  {
    TallyKeys(Commits(chunks, requireEmail));
    EmptyTallyIffNoCommits(chunks, requireEmail);
  }

  /** `Object.keys(tally).length < 1` holds exactly when no key was discovered. */
  lemma EmptyEntries(t: Tally)
    requires WellFormed(t)
    ensures |t.entries| < 1 <==> t.order == []
  {
    if t.order != [] {
      assert t.order[0] in t.entries;
    } else {
      assert t.entries.Keys == {};
    }
  }

  /** The tool's result for a tally: the error when the tally is empty, the
      ranked entries otherwise. */
  function ListingOf(t: Tally, asc: bool): (r: Result<seq<AuthorStats>, Error>)
    requires WellFormed(t) && Covered(t)
    ensures r.Failure? <==> t.order == []
    ensures r.Success? ==> if asc then NonDecreasing(r.value) else NonIncreasing(r.value)
  {
    EmptyEntries(t);
    if |t.entries| < 1 then
      Failure(NoAuthorsFound)
    else
      var ranked := Ranked(Values(t));
      RankedSorted(Values(t));
      if asc then ReversedSorted(ranked); Success(Reversed(ranked)) else Success(ranked)
  }

  /** A tally with at least one author lists its ranking, reversed under
      `--asc`. */
  lemma ListingOfNonEmpty(t: Tally, asc: bool)
    requires WellFormed(t) && Covered(t) && t.order != []
    ensures ListingOf(t, asc) == Success(if asc then Reversed(Ranked(Values(t))) else Ranked(Values(t)))
  {
    EmptyEntries(t);
  }

  /** The list the tool goes on to print, or its fatal error. */
  function Listing(log: string, requireEmail: bool, asc: bool): (r: Result<seq<AuthorStats>, Error>)
    ensures r.Failure? <==> Commits(Split(log, CommitSeparator), requireEmail) == []
    ensures r.Success? ==> if asc then NonDecreasing(r.value) else NonIncreasing(r.value)
  {
    var chunks := Split(log, CommitSeparator);
    TallyOfWellFormed(chunks, requireEmail);
    ListingOf(TallyOf(chunks, requireEmail), asc)
  }

  lemma ListingOfTally(log: string, requireEmail: bool, asc: bool, t: Tally)
    requires TallyOf(Split(log, CommitSeparator), requireEmail) == t
    ensures WellFormed(t) && Covered(t) && Listing(log, requireEmail, asc) == ListingOf(t, asc)
  {
    TallyOfWellFormed(Split(log, CommitSeparator), requireEmail);
  }

  /** The statements of index.js:58-135 up to the output. */
  method Run(log: string, requireEmail: bool, asc: bool) returns (r: Result<seq<AuthorStats>, Error>)
    ensures r == Listing(log, requireEmail, asc)
  {
    var tally := Aggregate(log, requireEmail);
    ghost var chunks := Split(log, CommitSeparator);
    TallyOfWellFormed(chunks, requireEmail);
    if |tally.entries| < 1 {
      return Failure(NoAuthorsFound);
    }
    var ordered := Rank(tally);
    if asc {
      ordered := Reversed(ordered);
    }
    return Success(ordered);
  }

  /** The listing holds every entry of the tally once: it is a permutation
      of the entries in discovery order, and its authors of equal total come
      in reverse discovery order (descending) or in discovery order (with
      `--asc`). */
  lemma ListingContents(t: Tally, asc: bool, n: nat)
    requires WellFormed(t) && Covered(t) && ListingOf(t, asc).Success?
    ensures var vs, r := Values(t), ListingOf(t, asc).value;
      multiset(r) == multiset(vs) &&
      WithTotal(r, n) == (if asc then WithTotal(vs, n) else Reversed(WithTotal(vs, n)))
  {
    var vs := Values(t);
    RankedPermutes(vs);
    RankedTies(vs, n);
    if asc {
      ReversedPermutes(Ranked(vs));
      AscendingTies(vs, n);
    }
  }

  /** Every author of the tally appears in the listing, and nothing else. */
  lemma ListingAuthors(t: Tally, asc: bool)
    requires WellFormed(t) && Covered(t) && ListingOf(t, asc).Success?
    ensures var r := ListingOf(t, asc).value;
      forall a :: a in r <==> exists k :: k in t.entries && t.entries[k] == a
  {
    var vs, r := Values(t), ListingOf(t, asc).value;
    ListingContents(t, asc, 0);
    ValuesAuthors(t);
    forall a ensures a in r <==> a in vs {
      assert a in r <==> a in multiset(r);
      assert a in vs <==> a in multiset(vs);
    }
  }

  /** The entries in discovery order are exactly the tally's entries. */
  lemma ValuesAuthors(t: Tally)
    requires WellFormed(t) && Covered(t)
    ensures forall a :: a in Values(t) <==> exists k :: k in t.entries && t.entries[k] == a
  {
    var vs := Values(t);
    forall a ensures a in vs <==> exists k :: k in t.entries && t.entries[k] == a {
      if exists k :: k in t.entries && t.entries[k] == a {
        var k :| k in t.entries && t.entries[k] == a;
        var i :| 0 <= i < |t.order| && t.order[i] == k;
        assert vs[i] == a;
      }
    }
  }

  /** An empty log has no commit, so the tool exits with its error. */
  lemma EmptyLogFails(requireEmail: bool, asc: bool)
    ensures Listing("", requireEmail, asc) == Failure(NoAuthorsFound)
  {
    assert Split("", CommitSeparator) == [""];
    LeadingSegmentEmpty(requireEmail);
  }
}
