/** String primitives of JavaScript that the log parser relies on:
    `String.prototype.split` with a non-empty string separator, the
    characters the regular-expression `.` refuses, and the relational
    operators `<` and `>` on strings. */
module Text {
  import opened Wrappers

  /** The characters that `.` in a JavaScript regular expression does not match. */
  predicate IsLineTerminator(c: char) {
    c == '\n' || c == '\r' || c == '\U{2028}' || c == '\U{2029}'
  }

  predicate NoLineTerminator(s: string) {
    forall i :: 0 <= i < |s| ==> !IsLineTerminator(s[i])
  }

  /** `pat` occurs in `s` starting at index `i`. */
  predicate OccursAt(s: string, pat: string, i: int) {
    0 <= i && i + |pat| <= |s| && s[i..i + |pat|] == pat
  }

  predicate Contains(s: string, pat: string) {
    exists i :: 0 <= i <= |s| && OccursAt(s, pat, i)
  }

  /** The leftmost occurrence of `pat` in `s` at or after `from`. */
  function FindFrom(s: string, pat: string, from: nat): (r: Option<nat>)
    ensures r.Some? ==> from <= r.value && OccursAt(s, pat, r.value)
    ensures r.Some? ==> forall j :: from <= j < r.value ==> !OccursAt(s, pat, j)
    ensures r.None? ==> forall j :: from <= j ==> !OccursAt(s, pat, j)
    decreases |s| - from
  {
    if from + |pat| > |s| then None
    else if s[from..from + |pat|] == pat then Some(from)
    else FindFrom(s, pat, from + 1)
  }

  /** A position that is an occurrence with none before it is what FindFrom returns. */
  lemma FindFromIsFirst(s: string, pat: string, from: nat, i: nat)
    requires from <= i && OccursAt(s, pat, i)
    requires forall j :: from <= j < i ==> !OccursAt(s, pat, j)
    ensures FindFrom(s, pat, from) == Some(i)
  {
  }

  lemma OccursInPrefix(s: string, pat: string, n: nat, j: int)
    requires n <= |s| && OccursAt(s[..n], pat, j)
    ensures OccursAt(s, pat, j) && j + |pat| <= n
  {
    assert s[..n][j..j + |pat|] == s[j..j + |pat|];
  }

  lemma OccursInSuffix(s: string, pat: string, n: nat, j: int)
    requires n <= |s|
    ensures OccursAt(s[n..], pat, j) <==> j >= 0 && OccursAt(s, pat, n + j)
  {
    if 0 <= j && j + |pat| <= |s| - n {
      assert s[n..][j..j + |pat|] == s[n + j..n + j + |pat|];
    }
  }

  /** `Array.prototype.join`: the parts with `sep` between neighbours. */
  function Join(parts: seq<string>, sep: string): string
    decreases |parts|
  {
    if parts == [] then ""
    else if |parts| == 1 then parts[0]
    else parts[0] + sep + Join(parts[1..], sep)
  }

  /** Where the `k`-th part begins in the join of `parts`. */
  function PartStart(parts: seq<string>, sep: string, k: nat): nat
    requires k <= |parts|
  {
    if k == 0 then 0 else |Join(parts[..k], sep)| + |sep|
  }

  lemma PartStartCons(head: string, rest: seq<string>, sep: string, k: nat)
    requires 1 <= k <= |rest|
    ensures PartStart([head] + rest, sep, k) == |head| + |sep| + PartStart(rest, sep, k - 1)
  {
    var parts := [head] + rest;
    if k == 1 {
      assert parts[..1] == [head];
    } else {
      assert parts[..k] == [head] + rest[..k - 1];
      assert parts[..k][1..] == rest[..k - 1];
    }
  }

  /** Every cut is at the leftmost occurrence of `sep` from where the part
      begins: no occurrence of `sep` in `s` starts inside a part. */
  predicate CutsLeftmost(s: string, parts: seq<string>, sep: string) {
    forall k, j :: 0 <= k < |parts| && PartStart(parts, sep, k) <= j < PartStart(parts, sep, k) + |parts[k]| ==>
      !OccursAt(s, sep, j)
  }

  /** `s.split(sep)` for a non-empty string separator: cut at every leftmost,
      non-overlapping occurrence of `sep`, scanning from the left. */
  function Split(s: string, sep: string): (parts: seq<string>)
    requires |sep| > 0
    ensures |parts| >= 1
    ensures Join(parts, sep) == s
    ensures forall k :: 0 <= k < |parts| ==> !Contains(parts[k], sep)
    ensures CutsLeftmost(s, parts, sep)
    decreases |s|
  {
    match FindFrom(s, sep, 0)
    case None =>
      assert forall j :: !OccursAt(s, sep, j) by {
        forall j ensures !OccursAt(s, sep, j) {
          if j >= 0 { assert 0 <= j; }
        }
      }
      [s]
    case Some(i) =>
      var head, rest := s[..i], Split(s[i + |sep|..], sep);
      assert !Contains(head, sep) by {
        forall j | OccursAt(head, sep, j) ensures false {
          OccursInPrefix(s, sep, i, j);
        }
      }
      assert s == head + sep + s[i + |sep|..];
      assert ([head] + rest)[1..] == rest;
      assert CutsLeftmost(s, [head] + rest, sep) by {
        CutsLeftmostCons(s, i + |sep|, head, rest, sep);
      }
      [head] + rest
  }

  /** Cuts in the text after the first separator are leftmost in the whole
      text, when no occurrence starts inside the first part. */
  lemma CutsLeftmostCons(s: string, off: nat, head: string, rest: seq<string>, sep: string)
    requires off == |head| + |sep| <= |s|
    requires forall j :: 0 <= j < |head| ==> !OccursAt(s, sep, j)
    requires CutsLeftmost(s[off..], rest, sep)
    ensures CutsLeftmost(s, [head] + rest, sep)
  {
    var parts := [head] + rest;
    forall k, j | 0 <= k < |parts| && PartStart(parts, sep, k) <= j < PartStart(parts, sep, k) + |parts[k]|
      ensures !OccursAt(s, sep, j)
    {
      if k > 0 {
        PartStartCons(head, rest, sep, k);
        assert parts[k] == rest[k - 1];
        OccursInSuffix(s, sep, off, j - off);
      }
    }
  }

  /** The converse of CutsLeftmostCons: the rest of the parts cut the text
      after the first separator at leftmost occurrences. */
  lemma CutsLeftmostTail(s: string, off: nat, head: string, rest: seq<string>, sep: string)
    requires off == |head| + |sep| <= |s|
    requires CutsLeftmost(s, [head] + rest, sep)
    ensures CutsLeftmost(s[off..], rest, sep)
  {
    var parts := [head] + rest;
    forall k, j | 0 <= k < |rest| && PartStart(rest, sep, k) <= j < PartStart(rest, sep, k) + |rest[k]|
      ensures !OccursAt(s[off..], sep, j)
    {
      PartStartCons(head, rest, sep, k + 1);
      assert parts[k + 1] == rest[k];
      OccursInSuffix(s, sep, off, j);
      assert !OccursAt(s, sep, off + j);
    }
  }

  /** `split` is determined by its contract: the only parts that join back
      to `s` and cut it at leftmost occurrences of `sep` are `Split(s, sep)`. */
  lemma {:induction false} SplitCharacterised(s: string, sep: string, parts: seq<string>)
    requires |sep| > 0 && |parts| >= 1
    requires Join(parts, sep) == s && CutsLeftmost(s, parts, sep)
    ensures Split(s, sep) == parts
    decreases |parts|
  {
    assert PartStart(parts, sep, 0) == 0;
    if |parts| == 1 {
      forall j | 0 <= j ensures !OccursAt(s, sep, j) {
        if j < |s| {
          assert PartStart(parts, sep, 0) <= j < PartStart(parts, sep, 0) + |parts[0]|;
        }
      }
    } else {
      var head, rest := parts[0], parts[1..];
      var off := |head| + |sep|;
      assert parts == [head] + rest;
      assert s == head + sep + Join(rest, sep);
      assert s[|head|..off] == sep;
      forall j | 0 <= j < |head| ensures !OccursAt(s, sep, j) {
        assert PartStart(parts, sep, 0) <= j < PartStart(parts, sep, 0) + |parts[0]|;
      }
      FindFromIsFirst(s, sep, 0, |head|);
      assert s[..|head|] == head;
      assert s[off..] == Join(rest, sep);
      CutsLeftmostTail(s, off, head, rest, sep);
      SplitCharacterised(s[off..], sep, rest);
    }
  }

  /** Cutting at the first occurrence: when `p` holds no `sep` and its last
      character cannot start a straddling occurrence, `p` is the first part. */
  lemma SplitAfterFirst(p: string, sep: string, rest: string)
    requires |sep| > 0 && !Contains(p, sep)
    requires p == [] || p[|p| - 1] !in sep
    ensures Split(p + sep + rest, sep) == [p] + Split(rest, sep)
  {
    var s := p + sep + rest;
    assert s[|p|..|p| + |sep|] == sep;
    forall j | 0 <= j < |p| ensures !OccursAt(s, sep, j) {
      if j + |sep| <= |p| {
        assert p[j..j + |sep|] == s[j..j + |sep|];
        assert !OccursAt(p, sep, j);
      } else {
        assert s[j..j + |sep|][|p| - 1 - j] == s[|p| - 1] == p[|p| - 1];
      }
    }
    FindFromIsFirst(s, sep, 0, |p|);
    assert s[..|p|] == p;
    assert s[|p| + |sep|..] == rest;
  }

  /** A list with a part that holds the separator (at `j` of part `k`) is
      not what splitting any text returns. */
  lemma NotSplitWithSeparator(s: string, sep: string, parts: seq<string>, k: nat, j: nat)
    requires |sep| > 0 && k < |parts| && OccursAt(parts[k], sep, j)
    ensures Split(s, sep) != parts
  {
  }

  /** Appending behind `head` moves the `k`-th element to position `|head| + k`. */
  lemma OccursAfter(head: seq<string>, tail: seq<string>, k: nat, pat: string, j: nat)
    requires k < |tail| && OccursAt(tail[k], pat, j)
    ensures OccursAt((head + tail)[|head| + k], pat, j)
  {
    assert (head + tail)[|head| + k] == tail[k];
  }

  /** Splitting undoes a join when no part holds the separator and no part
      but the last ends in one of the separator's characters (so that no
      occurrence straddles a joint). */
  lemma {:induction false} SplitJoin(parts: seq<string>, sep: string)
    requires |parts| >= 1 && |sep| > 0
    requires forall k :: 0 <= k < |parts| ==> !Contains(parts[k], sep)
    requires forall k :: 0 <= k < |parts| - 1 ==> parts[k] == [] || parts[k][|parts[k]| - 1] !in sep
    ensures Split(Join(parts, sep), sep) == parts
    decreases |parts|
  {
    if |parts| > 1 {
      SplitAfterFirst(parts[0], sep, Join(parts[1..], sep));
      SplitJoin(parts[1..], sep);
    } else {
      assert forall j :: 0 <= j <= |parts[0]| ==> !OccursAt(parts[0], sep, j);
    }
  }

  /** A text that lacks one of the pattern's characters does not contain it. */
  lemma MissingCharacter(s: string, pat: string, c: char)
    requires c in pat && c !in s
    ensures !Contains(s, pat)
  {
    forall j | 0 <= j <= |s| && j + |pat| <= |s| ensures !OccursAt(s, pat, j) {
      var k :| 0 <= k < |pat| && pat[k] == c;
      assert s[j..j + |pat|][k] == s[j + k];
    }
  }

  /** A character that neither the parts nor the separator hold is not in
      their join. */
  lemma {:induction false} JoinLacks(parts: seq<string>, sep: string, c: char)
    requires c !in sep && forall k :: 0 <= k < |parts| ==> c !in parts[k]
    ensures c !in Join(parts, sep)
    decreases |parts|
  {
    if |parts| > 1 {
      JoinLacks(parts[1..], sep, c);
    }
  }

  /** With a one-character separator, the parts only need to lack it. */
  lemma SplitJoinChar(parts: seq<string>, c: char)
    requires |parts| >= 1
    requires forall k :: 0 <= k < |parts| ==> c !in parts[k]
    ensures Split(Join(parts, [c]), [c]) == parts
  {
    forall k | 0 <= k < |parts| ensures !Contains(parts[k], [c]) {
      MissingCharacter(parts[k], [c], c);
    }
    SplitJoin(parts, [c]);
  }

  /** JavaScript's `a < b` on strings: lexicographic, a proper prefix first. */
  predicate Less(a: string, b: string)
    decreases |a|
  {
    if a == [] then b != []
    else if b == [] then false
    else if a[0] != b[0] then a[0] < b[0]
    else Less(a[1..], b[1..])
  }

  lemma {:induction false} LessIrreflexive(a: string)
    ensures !Less(a, a)
    decreases |a|
  {
    if a != [] {
      LessIrreflexive(a[1..]);
    }
  }

  lemma {:induction false} LessTransitive(a: string, b: string, c: string)
    requires Less(a, b) && Less(b, c)
    ensures Less(a, c)
    decreases |a|
  {
    if a != [] && b != [] && c != [] && a[0] == b[0] && b[0] == c[0] {
      LessTransitive(a[1..], b[1..], c[1..]);
    }
  }

  lemma {:induction false} LessTotal(a: string, b: string)
    requires a != b
    ensures Less(a, b) || Less(b, a)
    decreases |a|
  {
    if a != [] && b != [] && a[0] == b[0] {
      assert a == [a[0]] + a[1..] && b == [b[0]] + b[1..];
      LessTotal(a[1..], b[1..]);
    }
  }
}
