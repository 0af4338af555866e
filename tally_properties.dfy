/** What the tally built by Aggregation holds, stated against reference
    definitions over the commits that reach it: which keys it has and in
    what order they were discovered, that each entry's counts are sums over
    that author's numstat lines, that its latest commit is the string
    maximum of that author's dates, and that its name and email come from
    the author's first commit. Also: what one commit changes, that nothing
    ever shrinks, and what the chunks that never reach the tally do. */
module TallyProperties {
  import opened Wrappers
  import opened Text
  import opened LogFormat
  import opened Aggregation

  // Reference definitions over a sequence of accepted commits

  /** The key of each commit, in log order. */
  function KeysOf(cs: seq<Commit>): (ks: seq<string>)
    ensures |ks| == |cs|
    ensures forall i :: 0 <= i < |cs| ==> ks[i] == KeyOf(cs[i])
    decreases |cs|
  {
    if cs == [] then [] else KeysOf(cs[..|cs| - 1]) + [KeyOf(cs[|cs| - 1])]
  }

  /** The index of the first occurrence of `k`. */
  function FirstIndex(ks: seq<string>, k: string): (r: nat)
    requires k in ks
    ensures r < |ks| && ks[r] == k
    ensures forall j :: 0 <= j < r ==> ks[j] != k
    decreases |ks|
  {
    var init := ks[..|ks| - 1];
    if k in init then FirstIndex(init, k) else |ks| - 1
  }

  /** The distinct keys, each where it first occurs. */
  function Discovered(ks: seq<string>): seq<string>
    decreases |ks|
  {
    if ks == [] then []
    else
      var d := Discovered(ks[..|ks| - 1]);
      if ks[|ks| - 1] in d then d else d + [ks[|ks| - 1]]
  }

  /** The added counts of all numstat lines of the commits with key `key`. */
  function AddedFor(cs: seq<Commit>, key: string): nat
    decreases |cs|
  {
    if cs == [] then 0
    else
      var c := cs[|cs| - 1];
      AddedFor(cs[..|cs| - 1], key) + (if KeyOf(c) == key then AddedIn(c.body) else 0)
  }

  function RemovedFor(cs: seq<Commit>, key: string): nat
    decreases |cs|
  {
    if cs == [] then 0
    else
      var c := cs[|cs| - 1];
      RemovedFor(cs[..|cs| - 1], key) + (if KeyOf(c) == key then RemovedIn(c.body) else 0)
  }

  /** The dates of the commits with key `key`. */
  function DatesFor(cs: seq<Commit>, key: string): seq<string>
    decreases |cs|
  {
    if cs == [] then []
    else
      var c := cs[|cs| - 1];
      DatesFor(cs[..|cs| - 1], key) + (if KeyOf(c) == key then [c.header.date] else [])
  }

  /** `d` is the greatest of `ds` in JavaScript's string order. */
  ghost predicate IsLatest(d: string, ds: seq<string>) {
    d in ds && forall x :: x in ds ==> !Less(d, x)
  }

  /** The tally `u` extends `t`: no key lost, the discovery order only
      extended, names and emails kept, counts never smaller. */
  ghost predicate Grows(t: Tally, u: Tally) {
    t.entries.Keys <= u.entries.Keys && t.order <= u.order &&
    forall k :: k in t.entries ==>
      u.entries[k].name == t.entries[k].name && u.entries[k].email == t.entries[k].email &&
      u.entries[k].added >= t.entries[k].added && u.entries[k].removed >= t.entries[k].removed
  }

  // One commit

  /** Entry creation and update: a commit touches only its own key's entry.
      A new entry takes the commit's name, email and date and its numstat
      counts; an existing one keeps its name and email, gains the counts and
      advances its latest commit by string comparison. */
  lemma RecordEffect(t: Tally, c: Commit)
    ensures var r, key, h := Record(t, c), KeyOf(c), c.header;
      r.entries.Keys == t.entries.Keys + {key} &&
      (forall k :: k in t.entries && k != key ==> r.entries[k] == t.entries[k]) &&
      r.order == (if key in t.entries then t.order else t.order + [key]) &&
      (key !in t.entries ==>
         r.entries[key] == AuthorStats(h.name, h.email, AddedIn(c.body), RemovedIn(c.body), h.date)) &&
      (key in t.entries ==>
         var e := t.entries[key];
         r.entries[key] == AuthorStats(e.name, e.email, e.added + AddedIn(c.body), e.removed + RemovedIn(c.body),
                                       Later(e.latestCommit, h.date)))
  {
    LessIrreflexive(c.header.date);
  }

  lemma RecordGrows(t: Tally, c: Commit)
    ensures Grows(t, Record(t, c))
  {
    RecordEffect(t, c);
  }

  lemma GrowsReflexive(t: Tally)
    ensures Grows(t, t)
  {
  }

  lemma GrowsTransitive(t: Tally, u: Tally, v: Tally)
    requires Grows(t, u) && Grows(u, v)
    ensures Grows(t, v)
  {
  }

  /** Entries are never removed and their counts only grow while the log is
      read: each prefix of the chunks gives a tally that every longer
      prefix extends. */
  lemma TallyGrowsAlongLog(chunks: seq<string>, i: nat, j: nat, requireEmail: bool)
    requires i <= j <= |chunks|
    ensures Grows(TallyOf(chunks[..i], requireEmail), TallyOf(chunks[..j], requireEmail))
  {
    var ts := seq(|chunks| + 1, k requires 0 <= k <= |chunks| => TallyOf(chunks[..k], requireEmail));
    forall k | 0 < k < |ts| ensures Grows(ts[k - 1], ts[k]) {
      ChunkGrows(chunks, k, requireEmail);
    }
    GrowsChain(ts, i, j);
  }

  /** A sequence of tallies each of which extends the one before. */
  lemma {:induction false} GrowsChain(ts: seq<Tally>, i: nat, j: nat)
    requires i <= j < |ts|
    requires forall k :: 0 < k < |ts| ==> Grows(ts[k - 1], ts[k])
    ensures Grows(ts[i], ts[j])
    decreases j - i
  {
    if i < j {
      GrowsChain(ts, i, j - 1);
      GrowsTransitive(ts[i], ts[j - 1], ts[j]);
    } else {
      GrowsReflexive(ts[i]);
    }
  }

  /** One more chunk extends the tally. */
  lemma ChunkGrows(chunks: seq<string>, j: nat, requireEmail: bool)
    requires 0 < j <= |chunks|
    ensures Grows(TallyOf(chunks[..j - 1], requireEmail), TallyOf(chunks[..j], requireEmail))
  {
    var acc := Accepted(chunks[j - 1], requireEmail);
    TallyOfStep(chunks, j, requireEmail);
    if acc != [] {
      RecordGrows(TallyOf(chunks[..j - 1], requireEmail), acc[0]);
    }
  }

  // The whole sequence of commits

  lemma KeysOfSnoc(cs: seq<Commit>, c: Commit)
    ensures KeysOf(cs + [c]) == KeysOf(cs) + [KeyOf(c)]
  {
    assert (cs + [c])[..|cs|] == cs;
  }

  /** A key no commit has contributes nothing to any reference sum. */
  lemma {:induction false} AbsentKey(cs: seq<Commit>, key: string)
    requires key !in KeysOf(cs)
    ensures AddedFor(cs, key) == 0 && RemovedFor(cs, key) == 0 && DatesFor(cs, key) == []
    decreases |cs|
  {
    if cs != [] {
      var init := cs[..|cs| - 1];
      assert cs == init + [cs[|cs| - 1]];
      KeysOfSnoc(init, cs[|cs| - 1]);
      AbsentKey(init, key);
    }
  }

  /** Discovered lists every key once, in the order of first occurrence. */
  lemma {:induction false} DiscoveredOrder(ks: seq<string>)
    ensures forall k :: k in Discovered(ks) <==> k in ks
    ensures forall i, j :: 0 <= i < j < |Discovered(ks)| ==> Discovered(ks)[i] != Discovered(ks)[j]
    ensures forall i, j :: 0 <= i < j < |Discovered(ks)| ==>
              Discovered(ks)[i] in ks && Discovered(ks)[j] in ks &&
              FirstIndex(ks, Discovered(ks)[i]) < FirstIndex(ks, Discovered(ks)[j])
    decreases |ks|
  {
    if ks != [] {
      var init, x := ks[..|ks| - 1], ks[|ks| - 1];
      assert ks == init + [x];
      DiscoveredOrder(init);
      var d := Discovered(init);
      forall k | k in init ensures FirstIndex(ks, k) == FirstIndex(init, k) {
      }
      if x !in d {
        forall i | 0 <= i < |d| ensures FirstIndex(ks, d[i]) < FirstIndex(ks, x) {
          assert FirstIndex(ks, x) == |ks| - 1;
        }
      }
    }
  }

  /** The keys of the tally are the keys of the commits, its order is their
      discovery order, and the tally is well formed. */
  lemma {:induction false} TallyKeys(cs: seq<Commit>)
    ensures var t := TallyOfCommits(cs);
      WellFormed(t) &&
      (forall k :: k in t.entries <==> k in KeysOf(cs)) &&
      t.order == Discovered(KeysOf(cs))
    decreases |cs|
  {
    if cs != [] {
      var init, c := cs[..|cs| - 1], cs[|cs| - 1];
      assert cs == init + [c];
      TallyKeys(init);
      TallyOfCommitsSnoc(init, c);
      KeysOfSnoc(init, c);
      KeysStep(TallyOfCommits(init), c, KeysOf(init));
    }
  }

  lemma KeysStep(t: Tally, c: Commit, ks: seq<string>)
    requires WellFormed(t) && (forall k :: k in t.entries <==> k in ks) && t.order == Discovered(ks)
    ensures var r := Record(t, c);
      WellFormed(r) && (forall k :: k in r.entries <==> k in ks + [KeyOf(c)]) &&
      r.order == Discovered(ks + [KeyOf(c)])
  {
    var key := KeyOf(c);
    RecordShape(t, c);
    RecordWellFormed(t, c);
    DiscoveredSnoc(ks, key);
    assert key in t.entries <==> key in t.order;
    assert forall k :: k in ks + [key] <==> k in ks || k == key;
  }

  /** The keys, order and identities of the tally after one commit. */
  lemma RecordShape(t: Tally, c: Commit)
    ensures var r, key := Record(t, c), KeyOf(c);
      r.entries.Keys == t.entries.Keys + {key} &&
      r.order == (if key in t.entries then t.order else t.order + [key]) &&
      forall k :: k in r.entries ==>
        Key(r.entries[k].name, r.entries[k].email) ==
        if k in t.entries then Key(t.entries[k].name, t.entries[k].email) else key
  {
    RecordEffect(t, c);
  }

  /** Recording a commit keeps the tally well formed. */
  lemma RecordWellFormed(t: Tally, c: Commit)
    requires WellFormed(t)
    ensures WellFormed(Record(t, c))
  {
    RecordShape(t, c);
    var key := KeyOf(c);
    if key !in t.entries {
      assert key !in t.order;
      assert forall i :: 0 <= i < |t.order| ==> t.order[i] in t.entries;
    }
  }

  lemma DiscoveredSnoc(ks: seq<string>, x: string)
    ensures Discovered(ks + [x]) == if x in Discovered(ks) then Discovered(ks) else Discovered(ks) + [x]
  {
    assert (ks + [x])[..|ks|] == ks;
  }

  /** Summed counts: an entry's added and removed are the sums, over the
      commits with its key, of the first and second numstat fields. */
  lemma {:induction false} TallyCounts(cs: seq<Commit>)
    ensures var t := TallyOfCommits(cs);
      forall k :: k in t.entries ==> t.entries[k].added == AddedFor(cs, k) && t.entries[k].removed == RemovedFor(cs, k)
    decreases |cs|
  {
    if cs != [] {
      var init, c := cs[..|cs| - 1], cs[|cs| - 1];
      assert cs == init + [c];
      TallyCounts(init);
      TallyKeys(init);
      TallyOfCommitsSnoc(init, c);
      CountsStep(TallyOfCommits(init), c, init);
    }
  }

  lemma CountsStep(t: Tally, c: Commit, cs: seq<Commit>)
    requires forall k :: k in t.entries <==> k in KeysOf(cs)
    requires forall k :: k in t.entries ==> t.entries[k].added == AddedFor(cs, k) && t.entries[k].removed == RemovedFor(cs, k)
    ensures var r := Record(t, c);
      forall k :: k in r.entries ==> r.entries[k].added == AddedFor(cs + [c], k) && r.entries[k].removed == RemovedFor(cs + [c], k)
  {
    var r := Record(t, c);
    RecordEffect(t, c);
    if KeyOf(c) !in t.entries {
      AbsentKey(cs, KeyOf(c));
    }
    forall k | k in r.entries
      ensures r.entries[k].added == AddedFor(cs + [c], k) && r.entries[k].removed == RemovedFor(cs + [c], k)
    {
      SumsSnoc(cs, c, k);
    }
  }

  lemma SumsSnoc(cs: seq<Commit>, c: Commit, key: string)
    ensures AddedFor(cs + [c], key) == AddedFor(cs, key) + (if KeyOf(c) == key then AddedIn(c.body) else 0)
    ensures RemovedFor(cs + [c], key) == RemovedFor(cs, key) + (if KeyOf(c) == key then RemovedIn(c.body) else 0)
  {
    assert (cs + [c])[..|cs|] == cs;
  }

  lemma LaterIsLatest(latest: string, ds: seq<string>, date: string)
    requires IsLatest(latest, ds)
    ensures IsLatest(Later(latest, date), ds + [date])
  {
    LessIrreflexive(date);
    if Less(latest, date) {
      forall x | x in ds ensures !Less(date, x) {
        if Less(date, x) {
          LessTransitive(latest, date, x);
        }
      }
    }
  }

  /** Latest commit: an entry's latestCommit is the string maximum of the
      dates of the commits with its key. */
  lemma {:induction false} TallyLatest(cs: seq<Commit>)
    ensures var t := TallyOfCommits(cs);
      forall k :: k in t.entries ==> IsLatest(t.entries[k].latestCommit, DatesFor(cs, k))
    decreases |cs|
  {
    if cs != [] {
      var init, c := cs[..|cs| - 1], cs[|cs| - 1];
      assert cs == init + [c];
      TallyLatest(init);
      TallyKeys(init);
      TallyOfCommitsSnoc(init, c);
      LatestStep(TallyOfCommits(init), c, init);
    }
  }

  lemma LatestStep(t: Tally, c: Commit, cs: seq<Commit>)
    requires forall k :: k in t.entries <==> k in KeysOf(cs)
    requires forall k :: k in t.entries ==> IsLatest(t.entries[k].latestCommit, DatesFor(cs, k))
    ensures var r := Record(t, c);
      forall k :: k in r.entries ==> IsLatest(r.entries[k].latestCommit, DatesFor(cs + [c], k))
  {
    var r, key := Record(t, c), KeyOf(c);
    RecordEffect(t, c);
    forall k | k in r.entries ensures IsLatest(r.entries[k].latestCommit, DatesFor(cs + [c], k)) {
      DatesSnoc(cs, c, k);
      if k == key {
        if key in t.entries {
          LaterIsLatest(t.entries[key].latestCommit, DatesFor(cs, key), c.header.date);
        } else {
          AbsentKey(cs, key);
          LessIrreflexive(c.header.date);
          assert [] + [c.header.date] == [c.header.date];
        }
      }
    }
  }

  lemma DatesSnoc(cs: seq<Commit>, c: Commit, key: string)
    ensures DatesFor(cs + [c], key) == DatesFor(cs, key) + (if KeyOf(c) == key then [c.header.date] else [])
  {
    assert (cs + [c])[..|cs|] == cs;
  }

  /** The string maximum is unique, since string order is total. */
  lemma LatestUnique(a: string, b: string, ds: seq<string>)
    requires IsLatest(a, ds) && IsLatest(b, ds)
    ensures a == b
  {
    if a != b {
      LessTotal(a, b);
    }
  }

  // The dates are `%at` timestamps compared as strings

  function Pow10(n: nat): (p: nat)
    ensures p >= 1
  {
    if n == 0 then 1 else 10 * Pow10(n - 1)
  }

  lemma {:induction false} DecimalBound(s: string)
    ensures Decimal(s) < Pow10(|s|)
    decreases |s|
  {
    if s != [] {
      DecimalBound(s[..|s| - 1]);
    }
  }

  /** The leading digit's weight. */
  lemma {:induction false} DecimalCons(c: char, r: string)
    ensures Decimal([c] + r) == DigitValue(c) * Pow10(|r|) + Decimal(r)
    decreases |r|
  {
    if r == [] {
      assert [c] + r == [c];
      assert [c][..0] == [];
    } else {
      var init := r[..|r| - 1];
      assert ([c] + r)[..|r|] == [c] + init;
      DecimalCons(c, init);
      var d, p, x, v := DigitValue(c), Pow10(|init|), Decimal(init), DigitValue(r[|r| - 1]);
      assert Decimal([c] + r) == 10 * (d * p + x) + v;
      assert Decimal(r) == 10 * x + v;
      assert Pow10(|r|) == 10 * p;
      TenTimes(d, p);
    }
  }

  lemma TenTimes(d: nat, p: nat)
    ensures 10 * (d * p) == d * (10 * p)
  {
  }

  lemma LeadingDigitDecides(x: nat, y: nat, p: nat, u: nat, v: nat)
    requires x < y && u < p && v < p
    ensures x * p + u < y * p + v
  {
    var d: nat := y - x - 1;
    assert y * p == (x + 1 + d) * p == x * p + p + d * p;
  }

  /** Between timestamps of the same number of digits, the string order of
      the latest-commit test is the numeric order. */
  lemma {:induction false} SameWidthDates(a: string, b: string)
    requires IsDigits(a) && IsDigits(b) && |a| == |b|
    ensures Less(a, b) <==> Decimal(a) < Decimal(b)
    decreases |a|
  {
    var ra, rb := a[1..], b[1..];
    assert a == [a[0]] + ra && b == [b[0]] + rb;
    DecimalCons(a[0], ra);
    DecimalCons(b[0], rb);
    DecimalBound(ra);
    DecimalBound(rb);
    var p := Pow10(|ra|);
    if a[0] < b[0] {
      LeadingDigitDecides(DigitValue(a[0]), DigitValue(b[0]), p, Decimal(ra), Decimal(rb));
    } else if b[0] < a[0] {
      LeadingDigitDecides(DigitValue(b[0]), DigitValue(a[0]), p, Decimal(rb), Decimal(ra));
    } else if ra != [] {
      SameWidthDates(ra, rb);
    }
  }

  /** Across a change in the number of digits the string order is not the
      numeric one: "10" is below "9", so a commit at time 10 does not replace
      a latest commit at time 9. */
  lemma WidthChangeDates()
    ensures Less("10", "9") && Decimal("10") > Decimal("9")
    ensures Later("9", "10") == "9"
  {
    assert "10"[..1] == "1";
  }

  /** An entry's name and email are those of the first commit with its key,
      even when a later commit's different name and email join to the same
      key. */
  lemma {:induction false} TallyIdentity(cs: seq<Commit>)
    ensures var t := TallyOfCommits(cs);
      forall k :: k in t.entries ==> NamedByFirst(t.entries[k], cs, k)
    decreases |cs|
  {
    if cs != [] {
      var init, c := cs[..|cs| - 1], cs[|cs| - 1];
      assert cs == init + [c];
      TallyIdentity(init);
      TallyKeys(init);
      TallyOfCommitsSnoc(init, c);
      IdentityStep(TallyOfCommits(init), c, init);
    }
  }

  lemma EntryNamedByFirst(cs: seq<Commit>, k: string)
    requires k in TallyOfCommits(cs).entries
    ensures NamedByFirst(TallyOfCommits(cs).entries[k], cs, k)
  {
    TallyIdentity(cs);
  }

  /** An entry named by the first commit with its key. */
  ghost predicate NamedByFirst(e: AuthorStats, cs: seq<Commit>, k: string) {
    k in KeysOf(cs) &&
    e.name == cs[FirstIndex(KeysOf(cs), k)].header.name &&
    e.email == cs[FirstIndex(KeysOf(cs), k)].header.email
  }

  lemma IdentityStep(t: Tally, c: Commit, cs: seq<Commit>)
    requires forall k :: k in t.entries <==> k in KeysOf(cs)
    requires forall k :: k in t.entries ==> NamedByFirst(t.entries[k], cs, k)
    ensures var r := Record(t, c);
      forall k :: k in r.entries ==> NamedByFirst(r.entries[k], cs + [c], k)
  {
    RecordEffect(t, c);
    forall k | k in Record(t, c).entries ensures NamedByFirst(Record(t, c).entries[k], cs + [c], k) {
      IdentityStepAt(t, c, cs, k);
    }
  }

  lemma IdentityStepAt(t: Tally, c: Commit, cs: seq<Commit>, k: string)
    requires forall k :: k in t.entries <==> k in KeysOf(cs)
    requires k in t.entries ==> NamedByFirst(t.entries[k], cs, k)
    requires k in Record(t, c).entries
    ensures NamedByFirst(Record(t, c).entries[k], cs + [c], k)
  {
    RecordEffect(t, c);
    KeysOfSnoc(cs, c);
    var r, cs' := Record(t, c), cs + [c];
    var ks, ks' := KeysOf(cs), KeysOf(cs');
    assert ks'[..|ks'| - 1] == ks;
    if k in t.entries {
      var i := FirstIndex(ks, k);
      assert FirstIndex(ks', k) == i;
      assert cs'[i] == cs[i];
    } else {
      assert FirstIndex(ks', k) == |cs|;
      assert cs'[|cs|] == c;
    }
  }

  /** Lines that count nothing: git's `-\t-\tpath` line for a binary file,
      a blank line and a header line do not match the numstat pattern. */
  lemma UncountedLines(path: string, name: string, email: string, date: string)
    ensures Added("-\t-\t" + path) == 0 && Removed("-\t-\t" + path) == 0
    ensures Added("") == 0 && Removed("") == 0
    ensures Added(HeaderLine(name, email, date)) == 0 && Removed(HeaderLine(name, email, date)) == 0
  {
    assert ("-\t-\t" + path)[0] == '-';
    assert HeaderLine(name, email, date)[0] == '@';
  }

  // Chunks that never reach the tally

  /** Dropped chunks: a chunk whose first line is not a header line leaves
      the tally as it was. */
  lemma DroppedChunk(chunks: seq<string>, chunk: string, requireEmail: bool)
    requires ParseCommit(chunk).None?
    ensures TallyOf(chunks + [chunk], requireEmail) == TallyOf(chunks, requireEmail)
  {
    CommitsSnoc(chunks, chunk, requireEmail);
    assert Commits(chunks, requireEmail) + [] == Commits(chunks, requireEmail);
  }

  /** The segment before the first separator is empty, and an empty chunk
      is not a commit. */
  lemma LeadingSegmentDropped(rest: string)
    ensures Split(CommitSeparator + rest, CommitSeparator)[0] == ""
    ensures ParseCommit("").None?
  {
    assert !Contains("", CommitSeparator);
    SplitAfterFirst("", CommitSeparator, rest);
    assert "" + CommitSeparator + rest == CommitSeparator + rest;
    assert Split("", LineSeparator)[0] == "";
  }

  /** Email filter on: a commit without an email leaves the tally as it was. */
  lemma FilteredCommitIgnored(chunks: seq<string>, chunk: string, c: Commit)
    requires ParseCommit(chunk) == Some(c) && c.header.email == ""
    ensures TallyOf(chunks + [chunk], true) == TallyOf(chunks, true)
  {
    CommitsSnoc(chunks, chunk, true);
    assert Commits(chunks, true) + [] == Commits(chunks, true);
  }

  lemma {:induction false} FilteredCommitsHaveEmail(chunks: seq<string>)
    ensures forall i :: 0 <= i < |Commits(chunks, true)| ==> Commits(chunks, true)[i].header.email != ""
    decreases |chunks|
  {
    if chunks != [] {
      FilteredCommitsHaveEmail(chunks[..|chunks| - 1]);
    }
  }

  /** Email filter on: no entry of the tally has an empty email. */
  lemma FilteredTallyHasEmails(chunks: seq<string>)
    ensures var t := TallyOf(chunks, true);
      forall k :: k in t.entries ==> t.entries[k].email != ""
  {
    var cs := Commits(chunks, true);
    FilteredCommitsHaveEmail(chunks);
    var t := TallyOfCommits(cs);
    forall k | k in t.entries ensures t.entries[k].email != "" {
      EntryNamedByFirst(cs, k);
      assert cs[FirstIndex(KeysOf(cs), k)].header.email != "";
    }
  }

  /** Email filter off (the only setting the declared options allow): a
      commit without an email is tallied like any other. */
  lemma UnfilteredCommitTallied(chunks: seq<string>, chunk: string, c: Commit)
    requires ParseCommit(chunk) == Some(c)
    ensures TallyOf(chunks + [chunk], false) == Record(TallyOf(chunks, false), c)
    ensures KeyOf(c) in TallyOf(chunks + [chunk], false).entries
  {
    CommitsSnoc(chunks, chunk, false);
    TallyOfCommitsSnoc(Commits(chunks, false), c);
    RecordEffect(TallyOf(chunks, false), c);
  }

  /** Empty result: the tally has no author exactly when no commit reached it. */
  lemma EmptyTallyIffNoCommits(chunks: seq<string>, requireEmail: bool)
    ensures TallyOf(chunks, requireEmail).order == [] <==> Commits(chunks, requireEmail) == []
  {
    var cs := Commits(chunks, requireEmail);
    TallyKeys(cs);
    DiscoveredOrder(KeysOf(cs));
    if cs != [] {
      assert KeysOf(cs)[0] in KeysOf(cs);
    }
  }
}
