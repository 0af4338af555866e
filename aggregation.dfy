/** Building the tally (index.js:59-105): the log is cut into per-commit
    chunks, each chunk's header names the author, and every numstat line
    below it adds to that author's counts. The tally is a map from
    `name + " " + email` to the author's statistics together with the keys
    in the order they were first met (the order a `for ... in` loop visits
    the tally's properties, since no key is an array index). */
module Aggregation {
  import opened Wrappers
  import opened Text
  import opened LogFormat

  datatype AuthorStats = AuthorStats(name: string, email: string, added: nat, removed: nat, latestCommit: string)

  datatype Tally = Tally(entries: map<string, AuthorStats>, order: seq<string>)

  /** A chunk whose header matched: the header and the lines after it. */
  datatype Commit = Commit(header: Header, body: seq<string>)

  const EmptyTally := Tally(map[], [])

  function Key(name: string, email: string): string {
    name + " " + email
  }

  function KeyOf(c: Commit): string {
    Key(c.header.name, c.header.email)
  }

  /** The keys are those of the order, each once, and every entry's name and
      email join to its key. */
  ghost predicate WellFormed(t: Tally) {
    (forall k :: k in t.entries <==> k in t.order) &&
    (forall i, j :: 0 <= i < j < |t.order| ==> t.order[i] != t.order[j]) &&
    (forall k :: k in t.entries ==> Key(t.entries[k].name, t.entries[k].email) == k)
  }

  /** A chunk's lines, when its first line is a header line. */
  function ParseCommit(chunk: string): (r: Option<Commit>)
    ensures r.Some? <==> ParseHeader(Split(chunk, LineSeparator)[0]).Some?
  {
    var lines := Split(chunk, LineSeparator);
    if 1 > |lines| then None
    else
      match ParseHeader(lines[0])
      case None => None
      case Some(h) => Some(Commit(h, lines[1..]))
  }

  /** The require-email filter drops commits whose author has no email. */
  predicate Filtered(h: Header, requireEmail: bool) {
    h.email == "" && requireEmail
  }

  /** What one chunk contributes: its commit, or nothing. */
  function Accepted(chunk: string, requireEmail: bool): (r: seq<Commit>)
    ensures |r| <= 1
  {
    match ParseCommit(chunk)
    case None => []
    case Some(c) => if Filtered(c.header, requireEmail) then [] else [c]
  }

  /** The commits that reach the tally, in log order. */
  function Commits(chunks: seq<string>, requireEmail: bool): seq<Commit>
    decreases |chunks|
  {
    if chunks == [] then []
    else Commits(chunks[..|chunks| - 1], requireEmail) + Accepted(chunks[|chunks| - 1], requireEmail)
  }

  function Added(line: string): nat {
    match ParseNumstat(line)
    case Some((a, _)) => a
    case None => 0
  }

  function Removed(line: string): nat {
    match ParseNumstat(line)
    case Some((_, r)) => r
    case None => 0
  }

  /** Sum of the added counts of the numstat lines among `lines`. */
  function AddedIn(lines: seq<string>): nat
    decreases |lines|
  {
    if lines == [] then 0 else AddedIn(lines[..|lines| - 1]) + Added(lines[|lines| - 1])
  }

  function RemovedIn(lines: seq<string>): nat
    decreases |lines|
  {
    if lines == [] then 0 else RemovedIn(lines[..|lines| - 1]) + Removed(lines[|lines| - 1])
  }

  /** JavaScript's `if (date > latest) latest = date`. */
  function Later(latest: string, date: string): string {
    if Less(latest, date) then date else latest
  }

  /** The entry for the header's key, created with zero counts and this
      commit's date the first time the key is met (index.js:76-86). */
  function Register(t: Tally, h: Header): Tally {
    var key := Key(h.name, h.email);
    if key in t.entries then t
    else Tally(t.entries[key := AuthorStats(h.name, h.email, 0, 0, h.date)], t.order + [key])
  }

  /** The numstat lines' counts added to the entry (index.js:92-104). */
  function Credit(e: AuthorStats, lines: seq<string>): AuthorStats {
    e.(added := e.added + AddedIn(lines), removed := e.removed + RemovedIn(lines))
  }

  /** One commit's effect on the tally (index.js:76-104). */
  function Record(t: Tally, c: Commit): Tally {
    var h := c.header;
    var key := Key(h.name, h.email);
    var r := Register(t, h);
    var e := r.entries[key];
    Tally(r.entries[key := Credit(e.(latestCommit := Later(e.latestCommit, h.date)), c.body)], r.order)
  }

  function TallyOfCommits(cs: seq<Commit>): Tally
    decreases |cs|
  {
    if cs == [] then EmptyTally else Record(TallyOfCommits(cs[..|cs| - 1]), cs[|cs| - 1])
  }

  function TallyOf(chunks: seq<string>, requireEmail: bool): Tally {
    TallyOfCommits(Commits(chunks, requireEmail))
  }

  lemma CommitsSnoc(chunks: seq<string>, chunk: string, requireEmail: bool)
    ensures Commits(chunks + [chunk], requireEmail) == Commits(chunks, requireEmail) + Accepted(chunk, requireEmail)
  {
    assert (chunks + [chunk])[..|chunks|] == chunks;
  }

  lemma TallyOfCommitsSnoc(cs: seq<Commit>, c: Commit)
    ensures TallyOfCommits(cs + [c]) == Record(TallyOfCommits(cs), c)
  {
    assert (cs + [c])[..|cs|] == cs;
  }

  /** At most one more commit: the tally is unchanged or records it. */
  lemma TallyOfCommitsAppend(cs: seq<Commit>, acc: seq<Commit>)
    requires |acc| <= 1
    ensures TallyOfCommits(cs + acc) == if acc == [] then TallyOfCommits(cs) else Record(TallyOfCommits(cs), acc[0])
  {
    if acc == [] {
      assert cs + acc == cs;
    } else {
      assert acc == [acc[0]];
      TallyOfCommitsSnoc(cs, acc[0]);
    }
  }

  /** The tally after one more chunk: unchanged, or one more commit recorded. */
  lemma TallyOfStep(chunks: seq<string>, j: nat, requireEmail: bool)
    requires 0 < j <= |chunks|
    ensures var acc := Accepted(chunks[j - 1], requireEmail);
      if acc == [] then TallyOf(chunks[..j], requireEmail) == TallyOf(chunks[..j - 1], requireEmail)
      else |acc| == 1 && TallyOf(chunks[..j], requireEmail) == Record(TallyOf(chunks[..j - 1], requireEmail), acc[0])
  {
    assert chunks[..j] == chunks[..j - 1] + [chunks[j - 1]];
    CommitsSnoc(chunks[..j - 1], chunks[j - 1], requireEmail);
    TallyOfCommitsAppend(Commits(chunks[..j - 1], requireEmail), Accepted(chunks[j - 1], requireEmail));
  }

  /** One more line's contribution, as the aggregation loop reads it. */
  lemma NumstatStep(lines: seq<string>, j: nat)
    requires j < |lines|
    ensures AddedIn(lines[..j + 1]) == AddedIn(lines[..j]) +
              (match MatchNumstat(lines[j]) case Some(f) => Decimal(f.added) case None => 0)
    ensures RemovedIn(lines[..j + 1]) == RemovedIn(lines[..j]) +
              (match MatchNumstat(lines[j]) case Some(f) => Decimal(f.removed) case None => 0)
  {
    assert lines[..j + 1][..j] == lines[..j];
    var f := MatchNumstat(lines[j]);
    if f.Some? {
      assert NumstatMatch(lines[j], f.value);
    }
  }

  /** One more line credited to the entry. */
  lemma CreditStep(e: AuthorStats, lines: seq<string>, j: nat)
    requires j < |lines|
    ensures MatchNumstat(lines[j]).None? ==> Credit(e, lines[..j + 1]) == Credit(e, lines[..j])
    ensures MatchNumstat(lines[j]).Some? ==>
              var f, d := MatchNumstat(lines[j]).value, Credit(e, lines[..j]);
              Credit(e, lines[..j + 1]) == d.(added := d.added + Decimal(f.added), removed := d.removed + Decimal(f.removed))
  {
    NumstatStep(lines, j);
  }

  lemma MapOverwrite<K, V>(m: map<K, V>, k: K, a: V, b: V)
    ensures m[k := a][k := b] == m[k := b]
  {
  }

  /** The `lines.forEach` callback of index.js:94-104: every numstat line
      adds its two counts to the author's entry. */
  method CreditLines(entries: map<string, AuthorStats>, key: string, lines: seq<string>)
    returns (credited: map<string, AuthorStats>)
    requires key in entries
    ensures credited == entries[key := Credit(entries[key], lines)]
  {
    credited := entries;
    ghost var e := entries[key];
    for j := 0 to |lines|
      invariant credited == entries[key := Credit(e, lines[..j])]
    {
      CreditStep(e, lines, j);
      var fields := MatchNumstat(lines[j]);
      if fields.None? {
        continue;
      }
      var added, removed := Decimal(fields.value.added), Decimal(fields.value.removed);
      var entry := credited[key];
      entry := entry.(added := entry.added + added, removed := entry.removed + removed);
      MapOverwrite(entries, key, Credit(e, lines[..j]), entry);
      credited := credited[key := entry];
    }
    assert lines[..|lines|] == lines;
  }

  /** The `commits.forEach` callback of index.js:61-105: one chunk's effect
      on the tally. */
  method TallyChunk(entries: map<string, AuthorStats>, order: seq<string>, commit: string, requireEmail: bool)
    returns (entries': map<string, AuthorStats>, order': seq<string>)
    ensures Tally(entries', order') ==
              if Accepted(commit, requireEmail) == [] then Tally(entries, order)
              else Record(Tally(entries, order), Accepted(commit, requireEmail)[0])
  {
    entries', order' := entries, order;
    var lines := Split(commit, LineSeparator);
    if 1 > |lines| || ParseHeader(lines[0]).None? {
      assert Accepted(commit, requireEmail) == [];
      return;
    }
    var header := ParseHeader(lines[0]).value;
    var name, email, date := header.name, header.email, header.date;
    ghost var parsed := Commit(header, lines[1..]);
    assert ParseCommit(commit) == Some(parsed);
    if email == "" && requireEmail {
      assert Accepted(commit, requireEmail) == [];
      return;
    }
    assert Accepted(commit, requireEmail) == [parsed];
    var key := Key(name, email);
    if key !in entries' {
      entries' := entries'[key := AuthorStats(name, email, 0, 0, date)];
      order' := order' + [key];
    }
    ghost var registered := Register(Tally(entries, order), header);
    assert Tally(entries', order') == registered;
    if Less(entries'[key].latestCommit, date) {
      entries' := entries'[key := entries'[key].(latestCommit := date)];
    }
    ghost var touched := registered.entries[key].(latestCommit := Later(registered.entries[key].latestCommit, date));
    assert entries' == registered.entries[key := touched];
    lines := lines[1..];
    entries' := CreditLines(entries', key, lines);
    MapOverwrite(registered.entries, key, touched, Credit(touched, lines));
  }

  method Aggregate(log: string, requireEmail: bool) returns (tally: Tally)
    ensures tally == TallyOf(Split(log, CommitSeparator), requireEmail)
  {
    var commits := Split(log, CommitSeparator);
    var entries: map<string, AuthorStats> := map[];
    var order: seq<string> := [];
    for i := 0 to |commits|
      invariant Tally(entries, order) == TallyOf(commits[..i], requireEmail)
    {
      TallyOfStep(commits, i + 1, requireEmail);
      entries, order := TallyChunk(entries, order, commits[i], requireEmail);
    }
    assert commits[..|commits|] == commits;
    tally := Tally(entries, order);
  }
}
