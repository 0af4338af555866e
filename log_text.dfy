/** The text that `git log --numstat --pretty=format:@@@COMMIT@@@<%an> <%ae> <%at>@`
    prints for a sequence of commits, and the statement that the parser of
    index.js:59-105 reads every such commit back: the segment before the
    first separator contributes nothing, and each commit reaches the tally
    once, in log order, unless the email filter drops it. */
module LogText {
  import opened Wrappers
  import opened Text
  import opened LogFormat
  import opened Aggregation

  /** One commit's text after the separator: its header line, then its body
      lines (numstat lines and blank lines), joined by newlines. */
  function ChunkText(c: Commit): string {
    Join([HeaderLine(c.header.name, c.header.email, c.header.date)] + c.body, LineSeparator)
  }

  /** A commit whose text the parser can read back: header fields without
      line terminators, name and email without the field separator, body
      lines without newlines. */
  predicate Readable(c: Commit) {
    NoLineTerminator(c.header.name) && NoLineTerminator(c.header.email) && NoLineTerminator(c.header.date) &&
    !Contains(c.header.name, FieldSeparator) && !Contains(c.header.email, FieldSeparator) &&
    forall k :: 0 <= k < |c.body| ==> '\n' !in c.body[k]
  }

  /** A chunk that no occurrence of the commit separator can straddle into
      the next one: it does not end in one of the separator's characters. */
  predicate EndsClear(s: string) {
    s == [] || s[|s| - 1] !in CommitSeparator
  }

  function Chunks(cs: seq<Commit>): (r: seq<string>)
    ensures |r| == |cs|
    ensures forall i :: 0 <= i < |cs| ==> r[i] == ChunkText(cs[i])
    decreases |cs|
  {
    if cs == [] then [] else Chunks(cs[..|cs| - 1]) + [ChunkText(cs[|cs| - 1])]
  }

  /** The whole log: every commit's text preceded by the separator. */
  function GitLog(cs: seq<Commit>): string {
    Join([""] + Chunks(cs), CommitSeparator)
  }

  /** The commits the email filter lets through, in order. */
  function Kept(cs: seq<Commit>, requireEmail: bool): seq<Commit>
    decreases |cs|
  {
    if cs == [] then []
    else
      var c := cs[|cs| - 1];
      Kept(cs[..|cs| - 1], requireEmail) + (if Filtered(c.header, requireEmail) then [] else [c])
  }

  /** With nothing to filter, every commit is kept. */
  lemma {:induction false} KeptAll(cs: seq<Commit>, requireEmail: bool)
    requires forall i :: 0 <= i < |cs| ==> !Filtered(cs[i].header, requireEmail)
    ensures Kept(cs, requireEmail) == cs
    decreases |cs|
  {
    if cs != [] {
      KeptAll(cs[..|cs| - 1], requireEmail);
    }
  }

  lemma HeaderLineHasNoNewline(name: string, email: string, date: string)
    requires NoLineTerminator(name) && NoLineTerminator(email) && NoLineTerminator(date)
    ensures '\n' !in HeaderLine(name, email, date)
  {
    var line := HeaderLine(name, email, date);
    HeaderMatchShape(line, name, email, date);
    assert forall i :: 0 <= i < |line| ==> line[i] != '\n';
  }

  /** Chunk round trip: the parser reads a readable commit's text back as
      that commit. */
  lemma ChunkRoundTrip(c: Commit)
    requires Readable(c)
    ensures ParseCommit(ChunkText(c)) == Some(c)
  {
    var h := c.header;
    var header := HeaderLine(h.name, h.email, h.date);
    var lines := [header] + c.body;
    HeaderLineHasNoNewline(h.name, h.email, h.date);
    forall k | 0 <= k < |lines| ensures '\n' !in lines[k] {
      if k > 0 {
        assert lines[k] == c.body[k - 1];
      }
    }
    SplitJoinChar(lines, '\n');
    HeaderRoundTrip(h.name, h.email, h.date);
    assert lines[1..] == c.body;
  }

  /** The other direction of the chunk round trip: a chunk the parser
      accepts is the text of the commit it returns, and that commit is
      readable. Its header holds the first line's fields and its body the
      lines after the first. */
  lemma ParseCommitInverse(chunk: string)
    requires ParseCommit(chunk).Some?
    ensures Readable(ParseCommit(chunk).value) && ChunkText(ParseCommit(chunk).value) == chunk
  {
    var lines := Split(chunk, LineSeparator);
    var h := ParseHeader(lines[0]).value;
    var c := Commit(h, lines[1..]);
    assert ParseCommit(chunk).value == c;
    ParsedFieldsLackSeparator(lines[0]);
    forall k | 0 <= k < |c.body| ensures '\n' !in c.body[k] {
      assert c.body[k] == lines[k + 1];
      LacksLineSeparator(lines[k + 1]);
    }
    assert [HeaderLine(h.name, h.email, h.date)] + c.body == lines;
  }

  /** A text without the one-character separator lacks that character. */
  lemma LacksLineSeparator(s: string)
    requires !Contains(s, LineSeparator)
    ensures '\n' !in s
  {
    forall i | 0 <= i < |s| ensures s[i] != '\n' {
      if s[i] == '\n' {
        assert s[i..i + 1] == LineSeparator;
        assert OccursAt(s, LineSeparator, i);
      }
    }
  }

  lemma {:induction false} CommitsOfChunks(cs: seq<Commit>, requireEmail: bool)
    requires forall i :: 0 <= i < |cs| ==> Readable(cs[i])
    ensures Commits([""] + Chunks(cs), requireEmail) == Kept(cs, requireEmail)
    decreases |cs|
  {
    if cs == [] {
      LeadingSegmentEmpty(requireEmail);
    } else {
      var init, c := cs[..|cs| - 1], cs[|cs| - 1];
      assert [""] + Chunks(cs) == ([""] + Chunks(init)) + [ChunkText(c)];
      CommitsSnoc([""] + Chunks(init), ChunkText(c), requireEmail);
      CommitsOfChunks(init, requireEmail);
      AcceptedChunk(c, requireEmail);
    }
  }

  /** The empty segment before the first separator contributes no commit. */
  lemma LeadingSegmentEmpty(requireEmail: bool)
    ensures Commits([""], requireEmail) == []
  {
    assert Split("", LineSeparator)[0] == "";
    assert Commits([""], requireEmail) == Commits([], requireEmail) + Accepted("", requireEmail);
  }

  /** What a readable commit's chunk contributes: the commit, unless the
      email filter drops it. */
  lemma AcceptedChunk(c: Commit, requireEmail: bool)
    requires Readable(c)
    ensures Accepted(ChunkText(c), requireEmail) == if Filtered(c.header, requireEmail) then [] else [c]
  {
    ChunkRoundTrip(c);
  }

  /** Log round trip: splitting the log of readable commits at the commit
      separator and parsing each chunk yields exactly the commits the email
      filter keeps, in log order. */
  lemma LogRoundTrip(cs: seq<Commit>, requireEmail: bool)
    requires forall i :: 0 <= i < |cs| ==> Readable(cs[i]) && !Contains(ChunkText(cs[i]), CommitSeparator)
    requires forall i :: 0 <= i < |cs| - 1 ==> EndsClear(ChunkText(cs[i]))
    ensures Split(GitLog(cs), CommitSeparator) == [""] + Chunks(cs)
    ensures Commits(Split(GitLog(cs), CommitSeparator), requireEmail) == Kept(cs, requireEmail)
    ensures TallyOf(Split(GitLog(cs), CommitSeparator), requireEmail) == TallyOfCommits(Kept(cs, requireEmail))
  {
    var parts := [""] + Chunks(cs);
    assert !Contains("", CommitSeparator);
    forall k | 0 <= k < |parts| ensures !Contains(parts[k], CommitSeparator) {
      if k > 0 {
        assert parts[k] == ChunkText(cs[k - 1]);
      }
    }
    forall k | 0 <= k < |parts| - 1 ensures parts[k] == [] || parts[k][|parts[k]| - 1] !in CommitSeparator {
      if k > 0 {
        assert parts[k] == ChunkText(cs[k - 1]);
      }
    }
    SplitJoin(parts, CommitSeparator);
    CommitsOfChunks(cs, requireEmail);
  }

  /** Text in a commit's name reappears in its chunk, after the `@<`. */
  lemma NameInChunk(c: Commit, pat: string, j: int)
    requires OccursAt(c.header.name, pat, j)
    ensures OccursAt(ChunkText(c), pat, j + 2)
  {
    var h := c.header;
    var line := HeaderLine(h.name, h.email, h.date);
    var text := ChunkText(c);
    assert |line| <= |text| && text[..|line|] == line by {
      if c.body != [] {
        assert ([line] + c.body)[1..] == c.body;
      }
    }
    assert line == "@<" + h.name + (FieldSeparator + h.email + FieldSeparator + h.date + ">@");
    assert line[2 + j..2 + j + |pat|] == h.name[j..j + |pat|];
    assert text[2 + j..2 + j + |pat|] == line[2 + j..2 + j + |pat|];
  }

  /** The other side of the round trip: once some commit's chunk holds the
      commit separator, at `j` (a name, email, date or path containing
      `@@@COMMIT@@`), no text splits into one part per commit; in
      particular `GitLog(cs)` does not. */
  lemma SeparatorInChunkBreaksLog(cs: seq<Commit>, i: nat, j: nat, log: string)
    requires i < |cs| && OccursAt(ChunkText(cs[i]), CommitSeparator, j)
    ensures Split(log, CommitSeparator) != [""] + Chunks(cs)
  {
    OccursInLogPart(cs, i, CommitSeparator, j);
    NotSplitWithSeparator(log, CommitSeparator, [""] + Chunks(cs), i + 1, j);
  }

  /** The log's parts are the empty leading segment, then the chunks. */
  lemma OccursInLogPart(cs: seq<Commit>, i: nat, pat: string, j: nat)
    requires i < |cs| && OccursAt(ChunkText(cs[i]), pat, j)
    ensures OccursAt(([""] + Chunks(cs))[i + 1], pat, j)
  {
    assert Chunks(cs)[i] == ChunkText(cs[i]);
    OccursAfter([""], Chunks(cs), i, pat, j);
  }
}
