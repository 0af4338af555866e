/** Ranking the authors (index.js:112-135): the tally's entries, visited in
    discovery order, are inserted one by one before the first author whose
    total of added and removed lines is not above the newcomer's; the
    `--asc` option reverses the result. */
module Ranking {
  import opened Aggregation

  function Total(a: AuthorStats): nat {
    a.added + a.removed
  }

  /** The first position whose author's total is at most `x`'s, or the end. */
  function InsertionPoint(s: seq<AuthorStats>, x: AuthorStats): (i: nat)
    ensures i <= |s|
    ensures forall k :: 0 <= k < i ==> Total(x) < Total(s[k])
    ensures i < |s| ==> Total(s[i]) <= Total(x)
    decreases |s|
  {
    if s == [] then 0
    else if Total(x) >= Total(s[0]) then 0
    else 1 + InsertionPoint(s[1..], x)
  }

  function Insert(s: seq<AuthorStats>, x: AuthorStats): seq<AuthorStats> {
    var i := InsertionPoint(s, x);
    s[..i] + [x] + s[i..]
  }

  /** The result of inserting every author of `xs`, in order. */
  function Ranked(xs: seq<AuthorStats>): seq<AuthorStats>
    decreases |xs|
  {
    if xs == [] then [] else Insert(Ranked(xs[..|xs| - 1]), xs[|xs| - 1])
  }

  function Reversed<T>(s: seq<T>): (r: seq<T>)
    ensures |r| == |s|
    ensures forall i :: 0 <= i < |s| ==> r[i] == s[|s| - 1 - i]
    decreases |s|
  {
    if s == [] then [] else [s[|s| - 1]] + Reversed(s[..|s| - 1])
  }

  /** The authors of `s` whose total is `n`, in the order of `s`. */
  function WithTotal(s: seq<AuthorStats>, n: nat): seq<AuthorStats>
    decreases |s|
  {
    if s == [] then []
    else WithTotal(s[..|s| - 1], n) + (if Total(s[|s| - 1]) == n then [s[|s| - 1]] else [])
  }

  predicate NonIncreasing(s: seq<AuthorStats>) {
    forall i, j :: 0 <= i < j < |s| ==> Total(s[i]) >= Total(s[j])
  }

  predicate NonDecreasing(s: seq<AuthorStats>) {
    forall i, j :: 0 <= i < j < |s| ==> Total(s[i]) <= Total(s[j])
  }

  /** Every key of the order has an entry. */
  predicate Covered(t: Tally) {
    forall i :: 0 <= i < |t.order| ==> t.order[i] in t.entries
  }

  /** The tally's entries in discovery order. */
  function Values(t: Tally): (vs: seq<AuthorStats>)
    requires Covered(t)
    ensures |vs| == |t.order|
    ensures forall i :: 0 <= i < |t.order| ==> vs[i] == t.entries[t.order[i]]
  {
    seq(|t.order|, i requires 0 <= i < |t.order| => t.entries[t.order[i]])
  }

  /** The sort loop of index.js:112-131 over the entries in discovery order. */
  method Rank(t: Tally) returns (ordered: seq<AuthorStats>)
    requires Covered(t)
    ensures ordered == Ranked(Values(t))
  {
    ghost var vs := Values(t);
    ordered := [];
    for n := 0 to |t.order|
      invariant ordered == Ranked(vs[..n])
    {
      ordered := InsertAuthor(ordered, t.entries[t.order[n]]);
      assert vs[..n + 1][..n] == vs[..n];
    }
    assert vs[..|t.order|] == vs;
  }

  /** The inner loop of index.js:118-130: splice the author in before the
      first entry whose total is not above its own, or push it at the end. */
  method InsertAuthor(ordered: seq<AuthorStats>, author: AuthorStats) returns (ordered': seq<AuthorStats>)
    ensures ordered' == Insert(ordered, author)
  {
    ordered' := ordered;
    var inserted := false;
    var i := 0;
    while i < |ordered'|
      invariant 0 <= i <= |ordered'| && ordered' == ordered && !inserted
      invariant forall k :: 0 <= k < i ==> Total(author) < Total(ordered'[k])
    {
      if author.added + author.removed >= ordered'[i].added + ordered'[i].removed {
        ordered' := ordered'[..i] + [author] + ordered'[i..];
        inserted := true;
        break;
      }
      i := i + 1;
    }
    if !inserted {
      ordered' := ordered' + [author];
      assert ordered[..|ordered|] == ordered && ordered[|ordered|..] == [];
    }
    assert i == InsertionPoint(ordered, author);
  }

  // The inserting sort keeps every author

  lemma InsertPermutes(s: seq<AuthorStats>, x: AuthorStats)
    ensures multiset(Insert(s, x)) == multiset(s) + multiset{x}
  {
    var i := InsertionPoint(s, x);
    assert s == s[..i] + s[i..];
  }

  /** Permutation: the ranking holds exactly the authors given, each as
      often as given. */
  lemma {:induction false} RankedPermutes(xs: seq<AuthorStats>)
    ensures multiset(Ranked(xs)) == multiset(xs)
    decreases |xs|
  {
    if xs != [] {
      var init := xs[..|xs| - 1];
      RankedPermutes(init);
      InsertPermutes(Ranked(init), xs[|xs| - 1]);
      assert xs == init + [xs[|xs| - 1]];
    }
  }

  // The inserting sort orders by total, largest first

  lemma InsertSorted(s: seq<AuthorStats>, x: AuthorStats)
    requires NonIncreasing(s)
    ensures NonIncreasing(Insert(s, x))
  {
    var i := InsertionPoint(s, x);
    var r := Insert(s, x);
    assert forall k :: 0 <= k < i ==> r[k] == s[k];
    assert forall k :: i < k < |r| ==> r[k] == s[k - 1];
    forall a, b | 0 <= a < b < |r| ensures Total(r[a]) >= Total(r[b]) {
      if a == i && b > i {
        assert Total(s[b - 1]) <= Total(s[i]);
      }
    }
  }

  /** Non-increasing totals (the default order of index.js:117-131). */
  lemma {:induction false} RankedSorted(xs: seq<AuthorStats>)
    ensures NonIncreasing(Ranked(xs))
    decreases |xs|
  {
    if xs != [] {
      RankedSorted(xs[..|xs| - 1]);
      InsertSorted(Ranked(xs[..|xs| - 1]), xs[|xs| - 1]);
    }
  }

  // Ties: later discovered authors come first

  lemma {:induction false} WithTotalAppend(s: seq<AuthorStats>, u: seq<AuthorStats>, n: nat)
    ensures WithTotal(s + u, n) == WithTotal(s, n) + WithTotal(u, n)
    decreases |u|
  {
    if u == [] {
      assert s + u == s;
    } else {
      var init := u[..|u| - 1];
      assert (s + u)[..|s + u| - 1] == s + init;
      WithTotalAppend(s, init, n);
    }
  }

  lemma {:induction false} WithTotalAbove(s: seq<AuthorStats>, n: nat)
    requires forall k :: 0 <= k < |s| ==> n < Total(s[k])
    ensures WithTotal(s, n) == []
    decreases |s|
  {
    if s != [] {
      WithTotalAbove(s[..|s| - 1], n);
    }
  }

  /** Inserting places the newcomer before every author of equal total. */
  lemma InsertTies(s: seq<AuthorStats>, x: AuthorStats, n: nat)
    ensures WithTotal(Insert(s, x), n) == (if Total(x) == n then [x] else []) + WithTotal(s, n)
  {
    var i := InsertionPoint(s, x);
    var a, b := s[..i], s[i..];
    assert s == a + b;
    assert forall k :: 0 <= k < |a| ==> Total(x) < Total(a[k]);
    SpliceTies(a, x, b, n);
  }

  /** An author placed after authors of larger total only precedes its ties. */
  lemma SpliceTies(a: seq<AuthorStats>, x: AuthorStats, b: seq<AuthorStats>, n: nat)
    requires forall k :: 0 <= k < |a| ==> Total(x) < Total(a[k])
    ensures WithTotal(a + [x] + b, n) == (if Total(x) == n then [x] else []) + WithTotal(a + b, n)
  {
    WithTotalAppend(a + [x], b, n);
    WithTotalAppend(a, [x], n);
    WithTotalAppend(a, b, n);
    WithTotalSingle(x, n);
    if Total(x) == n {
      WithTotalAbove(a, n);
    } else {
      assert WithTotal(a, n) + [] == WithTotal(a, n);
    }
  }

  lemma WithTotalSingle(x: AuthorStats, n: nat)
    ensures WithTotal([x], n) == if Total(x) == n then [x] else []
  {
    assert WithTotal([x], n) == WithTotal([], n) + (if Total(x) == n then [x] else []);
  }

  /** Ties: among authors of equal total the ranking lists the later
      discovered first, which the `>=` of index.js:121 causes. */
  lemma {:induction false} RankedTies(xs: seq<AuthorStats>, n: nat)
    ensures WithTotal(Ranked(xs), n) == Reversed(WithTotal(xs, n))
    decreases |xs|
  {
    if xs != [] {
      var init, x := xs[..|xs| - 1], xs[|xs| - 1];
      RankedTies(init, n);
      InsertTies(Ranked(init), x, n);
      var w := WithTotal(init, n);
      if Total(x) == n {
        assert WithTotal(xs, n) == w + [x];
        ReversedSnoc(w, x);
      } else {
        assert WithTotal(xs, n) == w + [];
        assert w + [] == w;
      }
    }
  }

  lemma ReversedSnoc<T>(s: seq<T>, x: T)
    ensures Reversed(s + [x]) == [x] + Reversed(s)
  {
    assert (s + [x])[..|s|] == s;
  }

  // Reversal for the --asc option

  lemma {:induction false} ReversedPermutes<T>(s: seq<T>)
    ensures multiset(Reversed(s)) == multiset(s)
    decreases |s|
  {
    if s != [] {
      var init := s[..|s| - 1];
      ReversedPermutes(init);
      assert s == init + [s[|s| - 1]];
    }
  }

  lemma ReversedTwice<T>(s: seq<T>)
    ensures Reversed(Reversed(s)) == s
  {
  }

  /** Ascending order: the reversed ranking has non-decreasing totals. */
  lemma ReversedSorted(s: seq<AuthorStats>)
    requires NonIncreasing(s)
    ensures NonDecreasing(Reversed(s))
  {
    var r := Reversed(s);
    forall a, b | 0 <= a < b < |r| ensures Total(r[a]) <= Total(r[b]) {
      assert r[a] == s[|s| - 1 - a] && r[b] == s[|s| - 1 - b];
    }
  }

  lemma {:induction false} WithTotalReversed(s: seq<AuthorStats>, n: nat)
    ensures WithTotal(Reversed(s), n) == Reversed(WithTotal(s, n))
    decreases |s|
  {
    if s != [] {
      var init, x := s[..|s| - 1], s[|s| - 1];
      var w := WithTotal(init, n);
      WithTotalReversed(init, n);
      WithTotalAppend([x], Reversed(init), n);
      WithTotalSingle(x, n);
      if Total(x) == n {
        assert WithTotal(s, n) == w + [x];
        ReversedSnoc(w, x);
      } else {
        assert WithTotal(s, n) == w + [];
        assert w + [] == w;
        assert [] + Reversed(w) == Reversed(w);
      }
    }
  }

  /** Ascending ties: with `--asc`, authors of equal total are listed in
      discovery order. */
  lemma AscendingTies(xs: seq<AuthorStats>, n: nat)
    ensures WithTotal(Reversed(Ranked(xs)), n) == WithTotal(xs, n)
  {
    WithTotalReversed(Ranked(xs), n);
    RankedTies(xs, n);
    ReversedTwice(WithTotal(xs, n));
  }
}
