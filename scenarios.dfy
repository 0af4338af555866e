/** Worked cases of the whole pipeline: an author with two commits, the
    ranking of three authors two of whom tie, and the order of ties under
    `--asc`. */
module Scenarios {
  import opened Wrappers
  import opened Text
  import opened LogFormat
  import opened Aggregation
  import opened TallyProperties
  import opened Ranking
  import opened LogText
  import opened Report

  /** Two commits by the same author, the later one last in the log. */
  const TwoCommitLog := "@@@COMMIT@@" + "@<Alice> <a@x.com> <100>@\n3\t1\tfile.txt\n" + "@@@COMMIT@@" + "@<Alice> <a@x.com> <200>@\n0\t5\tfile.txt"

  lemma AliceClean()
    ensures NoLineTerminator("Alice") && NoLineTerminator("a@x.com")
    ensures NoLineTerminator("100") && NoLineTerminator("200")
    ensures !Contains("Alice", FieldSeparator) && !Contains("a@x.com", FieldSeparator)
  {
    MissingCharacter("Alice", FieldSeparator, ' ');
    MissingCharacter("a@x.com", FieldSeparator, ' ');
  }

  const FirstCommit := Commit(Header("Alice", "a@x.com", "100"), ["3\t1\tfile.txt", ""])
  const SecondCommit := Commit(Header("Alice", "a@x.com", "200"), ["0\t5\tfile.txt"])

  lemma JoinTwo(a: string, b: string, sep: string)
    ensures Join([a, b], sep) == a + sep + b
  {
    assert [a, b][1..] == [b];
  }

  lemma JoinThree(a: string, b: string, c: string, sep: string)
    ensures Join([a, b, c], sep) == a + sep + (b + sep + c)
  {
    assert [a, b, c][1..] == [b, c];
    JoinTwo(b, c, sep);
  }

  lemma TwoCommitChunks()
    ensures ChunkText(FirstCommit) == "@<Alice> <a@x.com> <100>@" + "\n" + "3\t1\tfile.txt" + "\n"
    ensures ChunkText(SecondCommit) == "@<Alice> <a@x.com> <200>@\n0\t5\tfile.txt"
  {
    FirstChunk();
    SecondChunk();
  }

  lemma FirstChunk()
    ensures ChunkText(FirstCommit) == "@<Alice> <a@x.com> <100>@" + "\n" + "3\t1\tfile.txt" + "\n"
  {
    ChunkOfTwoLines(FirstCommit, "3\t1\tfile.txt", "");
    AliceHeader("100");
    var h := "@<Alice> <a@x.com> <100>@";
    assert "@<Alice> <a@x.com> <" + "100" + ">@" == h;
  }

  lemma SecondChunk()
    ensures ChunkText(SecondCommit) == "@<Alice> <a@x.com> <200>@\n0\t5\tfile.txt"
  {
    ChunkOfOneLine(SecondCommit, "0\t5\tfile.txt");
    AliceHeader("200");
  }

  lemma AliceHeader(date: string)
    ensures HeaderLine("Alice", "a@x.com", date) == "@<Alice> <a@x.com> <" + date + ">@"
  {
  }

  lemma ChunkOfOneLine(c: Commit, a: string)
    requires c.body == [a]
    ensures ChunkText(c) == HeaderLine(c.header.name, c.header.email, c.header.date) + LineSeparator + a
  {
    var h := HeaderLine(c.header.name, c.header.email, c.header.date);
    assert [h] + c.body == [h, a];
    JoinTwo(h, a, LineSeparator);
  }

  lemma ChunkOfTwoLines(c: Commit, a: string, b: string)
    requires c.body == [a, b]
    ensures ChunkText(c) == HeaderLine(c.header.name, c.header.email, c.header.date) + LineSeparator + a + LineSeparator + b
  {
    var h := HeaderLine(c.header.name, c.header.email, c.header.date);
    assert [h] + c.body == [h, a, b];
    JoinThree(h, a, b, LineSeparator);
  }

  lemma TwoCommitLogText()
    ensures GitLog([FirstCommit, SecondCommit]) == TwoCommitLog
  {
    TwoCommitChunks();
    var t1, t2 := ChunkText(FirstCommit), ChunkText(SecondCommit);
    var cs := [FirstCommit, SecondCommit];
    assert cs[..1] == [FirstCommit];
    assert Chunks(cs) == [t1, t2];
    assert [""] + Chunks(cs) == ["", t1, t2];
    JoinThree("", t1, t2, CommitSeparator);
  }

  /** A character absent from a commit's fields, body lines and the header
      line's punctuation is absent from the commit's chunk. */
  lemma ChunkLacks(c: Commit, ch: char)
    requires ch !in c.header.name && ch !in c.header.email && ch !in c.header.date
    requires ch != '@' && ch != '<' && ch != '>' && ch != ' ' && ch != '\n'
    requires forall k :: 0 <= k < |c.body| ==> ch !in c.body[k]
    ensures ch !in ChunkText(c)
  {
    var header := HeaderLine(c.header.name, c.header.email, c.header.date);
    assert ch !in header;
    var lines := [header] + c.body;
    forall k | 0 <= k < |lines| ensures ch !in lines[k] {
      if k > 0 {
        assert lines[k] == c.body[k - 1];
      }
    }
    JoinLacks(lines, LineSeparator, ch);
  }

  lemma TwoCommitsLackSeparator()
    ensures !Contains(ChunkText(FirstCommit), CommitSeparator) && !Contains(ChunkText(SecondCommit), CommitSeparator)
  {
    assert 'C' !in "3\t1\tfile.txt" && 'C' !in "0\t5\tfile.txt" && 'C' !in "";
    assert 'C' !in "Alice" && 'C' !in "a@x.com" && 'C' !in "100" && 'C' !in "200";
    ChunkLacks(FirstCommit, 'C');
    ChunkLacks(SecondCommit, 'C');
    assert CommitSeparator[3] == 'C';
    MissingCharacter(ChunkText(FirstCommit), CommitSeparator, 'C');
    MissingCharacter(ChunkText(SecondCommit), CommitSeparator, 'C');
  }

  /** A numstat line is one line, and its counts are its two digit fields. */
  lemma NumstatLineCounts(f: NumstatFields)
    requires IsDigits(f.added) && IsDigits(f.removed) && NoLineTerminator(f.path)
    ensures Added(NumstatLine(f)) == Decimal(f.added) && Removed(NumstatLine(f)) == Decimal(f.removed)
    ensures '\n' !in NumstatLine(f)
  {
    assert NumstatMatch(NumstatLine(f), f);
    assert '\n' !in f.added && '\n' !in f.removed && '\n' !in f.path by {
      assert !IsDigit('\n') && IsLineTerminator('\n');
    }
  }

  lemma BlankLineCounts()
    ensures Added("") == 0 && Removed("") == 0
  {
    assert MatchNumstat("").None?;
  }

  /** The two commits of an author: the first followed by a blank line. */
  function PairOfCommits(h1: Header, h2: Header, f1: NumstatFields, f2: NumstatFields): seq<Commit> {
    [Commit(h1, [NumstatLine(f1), ""]), Commit(h2, [NumstatLine(f2)])]
  }

  predicate ReadableHeader(h: Header) {
    Readable(Commit(h, []))
  }

  predicate ValidNumstat(f: NumstatFields) {
    IsDigits(f.added) && IsDigits(f.removed) && NoLineTerminator(f.path)
  }

  lemma PairReadable(h1: Header, h2: Header, f1: NumstatFields, f2: NumstatFields)
    requires ReadableHeader(h1) && ReadableHeader(h2) && ValidNumstat(f1) && ValidNumstat(f2)
    ensures var cs := PairOfCommits(h1, h2, f1, f2);
      Readable(cs[0]) && Readable(cs[1]) && EndsClear(ChunkText(cs[0]))
  {
    NumstatLineCounts(f1);
    NumstatLineCounts(f2);
    var line := HeaderLine(h1.name, h1.email, h1.date);
    JoinThree(line, NumstatLine(f1), "", LineSeparator);
    assert [line] + [NumstatLine(f1), ""] == [line, NumstatLine(f1), ""];
  }

  lemma OneLineBody(f: NumstatFields)
    requires ValidNumstat(f)
    ensures AddedIn([NumstatLine(f)]) == Decimal(f.added) && RemovedIn([NumstatLine(f)]) == Decimal(f.removed)
  {
    NumstatLineCounts(f);
    assert [NumstatLine(f)][..0] == [];
  }

  lemma LineAndBlankBody(f: NumstatFields)
    requires ValidNumstat(f)
    ensures AddedIn([NumstatLine(f), ""]) == Decimal(f.added) && RemovedIn([NumstatLine(f), ""]) == Decimal(f.removed)
  {
    OneLineBody(f);
    BlankLineCounts();
    assert [NumstatLine(f), ""][..1] == [NumstatLine(f)];
  }

  /** The first commit creates the entry. */
  lemma FirstRecord(h: Header, f: NumstatFields)
    requires ValidNumstat(f)
    ensures var key := Key(h.name, h.email);
      TallyOfCommits([Commit(h, [NumstatLine(f), ""])]) ==
      Tally(map[key := AuthorStats(h.name, h.email, Decimal(f.added), Decimal(f.removed), h.date)], [key])
  {
    var c := Commit(h, [NumstatLine(f), ""]);
    assert [c][..0] == [];
    assert TallyOfCommits([c]) == Record(EmptyTally, c);
    LineAndBlankBody(f);
    LessIrreflexive(h.date);
  }

  /** The second commit of the same key updates it. */
  lemma SecondRecord(key: string, e: AuthorStats, h: Header, body: seq<string>)
    requires Key(h.name, h.email) == key
    ensures Record(Tally(map[key := e], [key]), Commit(h, body)) ==
            Tally(map[key := e.(added := e.added + AddedIn(body), removed := e.removed + RemovedIn(body),
                                latestCommit := Later(e.latestCommit, h.date))], [key])
  {
    var t := Tally(map[key := e], [key]);
    var e' := e.(added := e.added + AddedIn(body), removed := e.removed + RemovedIn(body),
                 latestCommit := Later(e.latestCommit, h.date));
    assert Record(t, Commit(h, body)) == Tally(t.entries[key := e'], [key]);
    assert t.entries[key := e'] == map[key := e'];
  }

  lemma PairTally(h1: Header, h2: Header, f1: NumstatFields, f2: NumstatFields)
    requires h1.name == h2.name && h1.email == h2.email
    requires ValidNumstat(f1) && ValidNumstat(f2)
    ensures var e := MergedEntry(h1, h2, f1, f2);
      TallyOfCommits(PairOfCommits(h1, h2, f1, f2)) == Tally(map[Key(e.name, e.email) := e], [Key(e.name, e.email)])
  {
    var c1, c2 := Commit(h1, [NumstatLine(f1), ""]), Commit(h2, [NumstatLine(f2)]);
    var e1 := AuthorStats(h1.name, h1.email, Decimal(f1.added), Decimal(f1.removed), h1.date);
    var key := Key(h1.name, h1.email);
    FirstRecord(h1, f1);
    SecondOfTwo(c1, c2);
    assert Key(h2.name, h2.email) == Key(e1.name, e1.email) == key;
    SecondRecordLine(key, e1, h2, f2);
    var e := MergedEntry(h1, h2, f1, f2);
    assert e1.(added := e1.added + Decimal(f2.added), removed := e1.removed + Decimal(f2.removed),
               latestCommit := Later(e1.latestCommit, h2.date)) == e;
    assert Key(e.name, e.email) == key;
  }

  /** The second commit, with one numstat line, adds that line's counts. */
  lemma SecondRecordLine(key: string, e: AuthorStats, h: Header, f: NumstatFields)
    requires ValidNumstat(f) && Key(h.name, h.email) == key
    ensures Record(Tally(map[key := e], [key]), Commit(h, [NumstatLine(f)])) ==
            Tally(map[key := e.(added := e.added + Decimal(f.added), removed := e.removed + Decimal(f.removed),
                                latestCommit := Later(e.latestCommit, h.date))], [key])
  {
    SecondRecord(key, e, h, [NumstatLine(f)]);
    OneLineBody(f);
  }

  lemma SecondOfTwo(c1: Commit, c2: Commit)
    ensures TallyOfCommits([c1, c2]) == Record(TallyOfCommits([c1]), c2)
  {
    assert [c1, c2][..1] == [c1];
  }

  /** The requirements under which two commits of one author are read back
      as written. */
  predicate PairWritable(h1: Header, h2: Header, f1: NumstatFields, f2: NumstatFields, requireEmail: bool) {
    h1.name == h2.name && h1.email == h2.email && (requireEmail ==> h1.email != "") &&
    ReadableHeader(h1) && ReadableHeader(h2) && ValidNumstat(f1) && ValidNumstat(f2) &&
    forall c :: c in PairOfCommits(h1, h2, f1, f2) ==> !Contains(ChunkText(c), CommitSeparator)
  }

  function MergedEntry(h1: Header, h2: Header, f1: NumstatFields, f2: NumstatFields): AuthorStats {
    AuthorStats(h1.name, h1.email, Decimal(f1.added) + Decimal(f2.added),
                Decimal(f1.removed) + Decimal(f2.removed), Later(h1.date, h2.date))
  }

  lemma PairLogTally(h1: Header, h2: Header, f1: NumstatFields, f2: NumstatFields, requireEmail: bool)
    requires PairWritable(h1, h2, f1, f2, requireEmail)
    ensures var e := MergedEntry(h1, h2, f1, f2);
      TallyOf(Split(GitLog(PairOfCommits(h1, h2, f1, f2)), CommitSeparator), requireEmail) ==
      Tally(map[Key(e.name, e.email) := e], [Key(e.name, e.email)])
  {
    var cs := PairOfCommits(h1, h2, f1, f2);
    PairLogFits(h1, h2, f1, f2, requireEmail);
    LogRoundTrip(cs, requireEmail);
    KeptAll(cs, requireEmail);
    PairTally(h1, h2, f1, f2);
  }

  /** The pair meets what the log round trip asks, and the filter keeps both. */
  lemma PairLogFits(h1: Header, h2: Header, f1: NumstatFields, f2: NumstatFields, requireEmail: bool)
    requires PairWritable(h1, h2, f1, f2, requireEmail)
    ensures var cs := PairOfCommits(h1, h2, f1, f2);
      (forall i :: 0 <= i < |cs| ==> Readable(cs[i]) && !Contains(ChunkText(cs[i]), CommitSeparator)) &&
      (forall i :: 0 <= i < |cs| - 1 ==> EndsClear(ChunkText(cs[i]))) &&
      (forall i :: 0 <= i < |cs| ==> !Filtered(cs[i].header, requireEmail))
  {
    var cs := PairOfCommits(h1, h2, f1, f2);
    PairReadable(h1, h2, f1, f2);
    assert cs[0] in cs && cs[1] in cs;
  }

  /** Two commits by one author, with one numstat line each, make a single
      entry: the counts add up and the later date by string order wins. */
  lemma TwoCommitsOneAuthor(h1: Header, h2: Header, f1: NumstatFields, f2: NumstatFields, requireEmail: bool, asc: bool)
    requires PairWritable(h1, h2, f1, f2, requireEmail)
    ensures Listing(GitLog(PairOfCommits(h1, h2, f1, f2)), requireEmail, asc) ==
            Success([MergedEntry(h1, h2, f1, f2)])
  {
    var e := MergedEntry(h1, h2, f1, f2);
    var key := Key(e.name, e.email);
    PairLogTally(h1, h2, f1, f2, requireEmail);
    SingleEntryListing(e, asc);
    ListingOfTally(GitLog(PairOfCommits(h1, h2, f1, f2)), requireEmail, asc, Tally(map[key := e], [key]));
  }

  lemma SingleRanked(e: AuthorStats)
    ensures Ranked([e]) == [e] && Reversed([e]) == [e]
  {
    assert [e][..0] == [];
  }

  lemma SingleEntryListing(e: AuthorStats, asc: bool)
    ensures var key := Key(e.name, e.email);
      var t := Tally(map[key := e], [key]);
      WellFormed(t) && Covered(t) && ListingOf(t, asc) == Success([e])
  {
    var key := Key(e.name, e.email);
    var t := Tally(map[key := e], [key]);
    SingleTally(e);
    SingleRanked(e);
    ListingOfNonEmpty(t, asc);
  }

  lemma SingleTally(e: AuthorStats)
    ensures var key := Key(e.name, e.email);
      var t := Tally(map[key := e], [key]);
      WellFormed(t) && Covered(t) && Values(t) == [e]
  {
  }

  /** The concrete case: Alice's commits of 3 and 1 lines at time 100 and of
      0 and 5 lines at time 200 give one entry of 3 added and 6 removed lines
      whose latest commit is 200. */
  lemma AliceTwice(asc: bool)
    ensures Listing(TwoCommitLog, false, asc) == Success([AuthorStats("Alice", "a@x.com", 3, 6, "200")])
  {
    var h1, h2 := FirstCommit.header, SecondCommit.header;
    var f1, f2 := NumstatFields("3", "1", "file.txt"), NumstatFields("0", "5", "file.txt");
    TwoCommitLogText();
    AlicePair(f1, f2);
    AliceWritable(f1, f2);
    AliceEntry(f1, f2);
    TwoCommitsOneAuthor(h1, h2, f1, f2, false, asc);
  }

  lemma AlicePair(f1: NumstatFields, f2: NumstatFields)
    requires f1 == NumstatFields("3", "1", "file.txt") && f2 == NumstatFields("0", "5", "file.txt")
    ensures PairOfCommits(FirstCommit.header, SecondCommit.header, f1, f2) == [FirstCommit, SecondCommit]
  {
    assert NumstatLine(f1) == "3\t1\tfile.txt" && NumstatLine(f2) == "0\t5\tfile.txt";
  }

  lemma AliceWritable(f1: NumstatFields, f2: NumstatFields)
    requires f1 == NumstatFields("3", "1", "file.txt") && f2 == NumstatFields("0", "5", "file.txt")
    ensures PairWritable(FirstCommit.header, SecondCommit.header, f1, f2, false)
  {
    AliceClean();
    AlicePair(f1, f2);
    TwoCommitsLackSeparator();
    assert ValidNumstat(f1) && ValidNumstat(f2);
  }

  lemma AliceEntry(f1: NumstatFields, f2: NumstatFields)
    requires f1 == NumstatFields("3", "1", "file.txt") && f2 == NumstatFields("0", "5", "file.txt")
    ensures MergedEntry(FirstCommit.header, SecondCommit.header, f1, f2) == AuthorStats("Alice", "a@x.com", 3, 6, "200")
  {
    assert Decimal("3") == 3 && Decimal("1") == 1 && Decimal("0") == 0 && Decimal("5") == 5;
    assert Less("100", "200");
  }

  /** Three authors, the first two tied above the third: the second comes
      first, since it is inserted before the equal first one, and reversing
      puts the third first and the tied pair in discovery order. */
  lemma TieRanking(a: AuthorStats, b: AuthorStats, c: AuthorStats)
    requires Total(a) == Total(b) && Total(c) < Total(a)
    ensures Ranked([a, b, c]) == [b, a, c]
    ensures Reversed(Ranked([a, b, c])) == [c, a, b]
  {
    assert [a, b, c][..2] == [a, b] && [a, b][..1] == [a] && [a][..0] == [];
    assert Ranked([a]) == [a];
    assert InsertionPoint([a], b) == 0;
    assert Ranked([a, b]) == [b, a];
    assert InsertionPoint([b, a], c) == 2;
  }

  /** Totals 10, 10 and 5, discovered in that order, as a whole listing. */
  lemma TiedAuthors(asc: bool)
    ensures var a, b, c := AuthorStats("A", "a", 6, 4, "1"), AuthorStats("B", "b", 10, 0, "2"), AuthorStats("C", "c", 2, 3, "3");
      var t := Tally(map["A a" := a, "B b" := b, "C c" := c], ["A a", "B b", "C c"]);
      WellFormed(t) && Covered(t) && ListingOf(t, asc) == Success(if asc then [c, a, b] else [b, a, c])
  {
    var a, b, c := AuthorStats("A", "a", 6, 4, "1"), AuthorStats("B", "b", 10, 0, "2"), AuthorStats("C", "c", 2, 3, "3");
    var t := Tally(map["A a" := a, "B b" := b, "C c" := c], ["A a", "B b", "C c"]);
    TiedTally(a, b, c);
    TieRanking(a, b, c);
    ListingOfNonEmpty(t, asc);
  }

  lemma TiedTally(a: AuthorStats, b: AuthorStats, c: AuthorStats)
    requires a == AuthorStats("A", "a", 6, 4, "1") && b == AuthorStats("B", "b", 10, 0, "2") && c == AuthorStats("C", "c", 2, 3, "3")
    ensures var t := Tally(map["A a" := a, "B b" := b, "C c" := c], ["A a", "B b", "C c"]);
      WellFormed(t) && Covered(t) && Values(t) == [a, b, c]
  {
    assert Key("A", "a") == "A a" && Key("B", "b") == "B b" && Key("C", "c") == "C c";
    assert "A a" != "B b" && "A a" != "C c" && "B b" != "C c";
  }

  /** Two name and email pairs that join to the same key share one entry,
      which keeps the first commit's name and email. */
  lemma KeyCollision(d1: string, d2: string, b1: seq<string>, b2: seq<string>)
    ensures Key("a b", "c") == Key("a", "b c") == "a b c"
    ensures var t := TallyOfCommits([Commit(Header("a b", "c", d1), b1), Commit(Header("a", "b c", d2), b2)]);
      t.order == ["a b c"] && "a b c" in t.entries && t.entries["a b c"].name == "a b" && t.entries["a b c"].email == "c"
  {
    assert Key("a b", "c") == "a b c" && Key("a", "b c") == "a b c";
    SameKeyShared(Commit(Header("a b", "c", d1), b1), Commit(Header("a", "b c", d2), b2));
  }

  /** Two commits with the same key make one entry, named by the first. */
  lemma SameKeyShared(c1: Commit, c2: Commit)
    requires KeyOf(c1) == KeyOf(c2)
    ensures var t, key := TallyOfCommits([c1, c2]), KeyOf(c1);
      t.order == [key] && key in t.entries &&
      t.entries[key].name == c1.header.name && t.entries[key].email == c1.header.email
  {
    var t1 := Record(EmptyTally, c1);
    RecordEffect(EmptyTally, c1);
    RecordEffect(t1, c2);
    TallyOfCommitsSnoc([], c1);
    TallyOfCommitsSnoc([c1], c2);
    assert [] + [c1] == [c1] && [c1] + [c2] == [c1, c2];
  }

  /** The separator's `@@` both starts and ends it, so occurrences can
      overlap; `split` takes the leftmost, leaving "@COMMIT@@" whole. */
  lemma OverlappingSeparator()
    ensures Split("@@@COMMIT@@@COMMIT@@", CommitSeparator) == ["", "@COMMIT@@"]
  {
    var s, parts := "@@@COMMIT@@@COMMIT@@", ["", "@COMMIT@@"];
    assert Join(parts, CommitSeparator) == s by {
      assert parts[1..] == ["@COMMIT@@"];
    }
    assert CutsLeftmost(s, parts, CommitSeparator) by {
      assert parts[..1] == [""];
    }
    SplitCharacterised(s, CommitSeparator, parts);
  }

  /** A readable commit whose name is the commit separator itself: its
      header line is cut by the split, so the log does not read back. */
  lemma SeparatorInName(email: string, date: string)
    requires NoLineTerminator(email) && NoLineTerminator(date) && !Contains(email, FieldSeparator)
    ensures var c := Commit(Header(CommitSeparator, email, date), []);
      Readable(c) && Split(GitLog([c]), CommitSeparator) != [""] + Chunks([c])
  {
    var c := Commit(Header(CommitSeparator, email, date), []);
    SeparatorNameChunk(c);
    SeparatorInChunkBreaksLog([c], 0, 2, GitLog([c]));
  }

  /** Such a commit is readable, and its chunk holds the separator two
      characters in. */
  lemma SeparatorNameChunk(c: Commit)
    requires c.header.name == CommitSeparator && c.body == []
    requires NoLineTerminator(c.header.email) && NoLineTerminator(c.header.date)
    requires !Contains(c.header.email, FieldSeparator)
    ensures Readable(c) && OccursAt(ChunkText(c), CommitSeparator, 2)
  {
    MissingCharacter(CommitSeparator, FieldSeparator, ' ');
    assert NoLineTerminator(CommitSeparator) by {
      forall i | 0 <= i < |CommitSeparator| ensures !IsLineTerminator(CommitSeparator[i]) {
        assert CommitSeparator[i] in "@COMIT";
      }
    }
    assert OccursAt(c.header.name, CommitSeparator, 0);
    NameInChunk(c, CommitSeparator, 0);
  }
}
