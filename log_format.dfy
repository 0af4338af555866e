/** The two line formats of `git log --numstat
    --pretty=format:@@@COMMIT@@@<%an> <%ae> <%at>@` that the tool recognises:
    the commit header line and the numstat line. Each regular expression of
    the source is stated here as a predicate over strings, and the function
    that extracts the fields is proved to return what the regular
    expression's capture groups hold. */
module LogFormat {
  import opened Wrappers
  import opened Text

  /** `split` on this token leaves the third `@` of the format's prefix at
      the start of each commit's chunk. */
  const CommitSeparator := "@@@COMMIT@@"
  const LineSeparator := "\n"
  /** What stands between two fields of a header line. */
  const FieldSeparator := "> <"

  datatype Header = Header(name: string, email: string, date: string)

  function HeaderLine(name: string, email: string, date: string): string {
    "@<" + name + FieldSeparator + email + FieldSeparator + date + ">@"
  }

  /** `line` matches `^@<(.*?)> <(.*?)> <(.*?)>@$` with the three groups
      holding `name`, `email` and `date` (`.` matches no line terminator). */
  predicate HeaderMatch(line: string, name: string, email: string, date: string) {
    NoLineTerminator(name) && NoLineTerminator(email) && NoLineTerminator(date) &&
    line == HeaderLine(name, email, date)
  }

  /** The lazy quantifiers prefer a shorter name, then a shorter email. */
  predicate NoLongerThan(h: Header, name: string, email: string) {
    |h.name| < |name| || (|h.name| == |name| && |h.email| <= |email|)
  }

  /** The header line's fields: cut the text between `@<` and `>@` at the
      first two occurrences of `> <`. */
  function ParseHeader(line: string): (r: Option<Header>)
    ensures r.Some? ==> HeaderMatch(line, r.value.name, r.value.email, r.value.date)
  {
    if |line| < 4 || line[..2] != "@<" || line[|line| - 2..] != ">@" || !NoLineTerminator(line) then None
    else
      var m := line[2..|line| - 2];
      match FindFrom(m, FieldSeparator, 0)
      case None => None
      case Some(p) =>
        match FindFrom(m, FieldSeparator, p + 3)
        case None => None
        case Some(q) =>
          HeaderFromSeparators(line, p, q);
          Some(Header(m[..p], m[p + 3..q], m[q + 3..]))
  }

  /** The name and the email the parse returns hold no `> <`: the cuts are
      at the first two occurrences of the separator. */
  lemma ParsedFieldsLackSeparator(line: string)
    requires ParseHeader(line).Some?
    ensures !Contains(ParseHeader(line).value.name, FieldSeparator)
    ensures !Contains(ParseHeader(line).value.email, FieldSeparator)
  {
    var m := line[2..|line| - 2];
    var p := FindFrom(m, FieldSeparator, 0).value;
    var q := FindFrom(m, FieldSeparator, p + 3).value;
    assert ParseHeader(line).value == Header(m[..p], m[p + 3..q], m[q + 3..]);
    FirstCutsLackSeparator(m, p, q);
  }

  /** Text cut at the first occurrence of `> <`, and again at the next one,
      holds no `> <` in its first two pieces. */
  lemma FirstCutsLackSeparator(m: string, p: nat, q: nat)
    requires p + 3 <= q <= |m|
    requires forall j :: 0 <= j < p ==> !OccursAt(m, FieldSeparator, j)
    requires forall j :: p + 3 <= j < q ==> !OccursAt(m, FieldSeparator, j)
    ensures !Contains(m[..p], FieldSeparator) && !Contains(m[p + 3..q], FieldSeparator)
  {
    forall j | OccursAt(m[..p], FieldSeparator, j) ensures false {
      OccursInPrefix(m, FieldSeparator, p, j);
    }
    var tail, middle := m[p + 3..], m[p + 3..q];
    assert middle == tail[..q - p - 3];
    forall j | OccursAt(middle, FieldSeparator, j) ensures false {
      OccursInPrefix(tail, FieldSeparator, q - p - 3, j);
      OccursInSuffix(m, FieldSeparator, p + 3, j);
    }
  }

  /** Cutting the framed text at two separators gives a header match. */
  lemma HeaderFromSeparators(line: string, p: nat, q: nat)
    requires |line| >= 4 && line[..2] == "@<" && line[|line| - 2..] == ">@" && NoLineTerminator(line)
    requires OccursAt(line[2..|line| - 2], FieldSeparator, p)
    requires OccursAt(line[2..|line| - 2], FieldSeparator, q) && p + 3 <= q
    ensures var m := line[2..|line| - 2]; HeaderMatch(line, m[..p], m[p + 3..q], m[q + 3..])
  {
    var m := line[2..|line| - 2];
    var name, email, date := m[..p], m[p + 3..q], m[q + 3..];
    CutAtSeparators(m, p, q);
    Reframe(line, name, email, date);
    NoLineTerminatorParts(line, name, email, date);
  }

  /** Text with the separator at `p` and at `q` is its three pieces joined by it. */
  lemma CutAtSeparators(m: string, p: nat, q: nat)
    requires OccursAt(m, FieldSeparator, p) && OccursAt(m, FieldSeparator, q) && p + 3 <= q
    ensures m == m[..p] + FieldSeparator + m[p + 3..q] + FieldSeparator + m[q + 3..]
  {
    assert m == m[..p] + m[p..p + 3] + m[p + 3..q] + m[q..q + 3] + m[q + 3..];
  }

  /** A line framed by `@<` and `>@` whose inside is three fields joined by
      `> <` is the header line of those fields. */
  lemma Reframe(line: string, name: string, email: string, date: string)
    requires |line| >= 4 && line[..2] == "@<" && line[|line| - 2..] == ">@"
    requires line[2..|line| - 2] == name + FieldSeparator + email + FieldSeparator + date
    ensures line == HeaderLine(name, email, date)
  {
    assert line == line[..2] + line[2..|line| - 2] + line[|line| - 2..];
  }

  lemma NoLineTerminatorParts(line: string, name: string, email: string, date: string)
    requires NoLineTerminator(line)
    requires line == HeaderLine(name, email, date)
    ensures NoLineTerminator(name) && NoLineTerminator(email) && NoLineTerminator(date)
  {
    forall i | 0 <= i < |name| ensures !IsLineTerminator(name[i]) {
      assert name[i] == line[2 + i];
    }
    forall i | 0 <= i < |email| ensures !IsLineTerminator(email[i]) {
      assert email[i] == line[2 + |name| + 3 + i];
    }
    forall i | 0 <= i < |date| ensures !IsLineTerminator(date[i]) {
      assert date[i] == line[2 + |name| + 3 + |email| + 3 + i];
    }
  }

  /** `> <` cannot overlap itself, so two occurrences are at least three apart. */
  lemma SeparatorsApart(m: string, a: int, b: int)
    requires OccursAt(m, FieldSeparator, a) && OccursAt(m, FieldSeparator, b) && a < b
    ensures a + 3 <= b
  {
    assert m[a..a + 3][1] == m[a + 1] && m[a..a + 3][2] == m[a + 2];
    assert m[b..b + 3][0] == m[b];
  }

  /** What a header match says about the line: its frame, and where in the
      text between the frame the two separators stand. */
  lemma HeaderMatchShape(line: string, name: string, email: string, date: string)
    requires HeaderMatch(line, name, email, date)
    ensures |line| >= 4 && line[..2] == "@<" && line[|line| - 2..] == ">@" && NoLineTerminator(line)
    ensures line[2..|line| - 2] == name + FieldSeparator + email + FieldSeparator + date
    ensures OccursAt(line[2..|line| - 2], FieldSeparator, |name|)
    ensures OccursAt(line[2..|line| - 2], FieldSeparator, |name| + 3 + |email|)
  {
    var m := name + FieldSeparator + email + FieldSeparator + date;
    assert line == "@<" + m + ">@";
    assert line[2..|line| - 2] == m;
    assert m[|name|..|name| + 3] == FieldSeparator;
    assert m[|name| + 3 + |email|..|name| + 3 + |email| + 3] == FieldSeparator;
    forall i | 0 <= i < |line| ensures !IsLineTerminator(line[i]) {
      if i < 2 {
      } else if i < 2 + |name| {
        assert line[i] == name[i - 2];
      } else if i < 2 + |name| + 3 {
      } else if i < 2 + |name| + 3 + |email| {
        assert line[i] == email[i - 5 - |name|];
      } else if i < 2 + |name| + 3 + |email| + 3 {
      } else if i < |line| - 2 {
        assert line[i] == date[i - 8 - |name| - |email|];
      }
    }
  }

  /** The header line is accepted exactly when the regular expression
      matches, and the fields returned are the lazy match: no match has a
      shorter name, nor the same name and a shorter email. */
  lemma ParseHeaderIsLazyMatch(line: string, name: string, email: string, date: string)
    requires HeaderMatch(line, name, email, date)
    ensures ParseHeader(line).Some?
    ensures NoLongerThan(ParseHeader(line).value, name, email)
  {
    HeaderMatchShape(line, name, email, date);
    var m := line[2..|line| - 2];
    var a, b := |name|, |name| + 3 + |email|;
    var p := FindFrom(m, FieldSeparator, 0).value;
    assert p <= a;
    if p < a {
      SeparatorsApart(m, p, a);
      assert FindFrom(m, FieldSeparator, p + 3).Some?;
    } else {
      var q := FindFrom(m, FieldSeparator, p + 3).value;
      assert q <= b;
    }
  }

  /** No match exists when the header parse fails. */
  lemma ParseHeaderComplete(line: string)
    requires ParseHeader(line).None?
    ensures forall name, email, date :: !HeaderMatch(line, name, email, date)
  {
    forall name, email, date | HeaderMatch(line, name, email, date) ensures false {
      ParseHeaderIsLazyMatch(line, name, email, date);
    }
  }

  /** Header round-trip: fields free of line terminators and (for name and
      email) of `> <` are read back exactly from the line the log format
      writes for them. */
  lemma HeaderRoundTrip(name: string, email: string, date: string)
    requires NoLineTerminator(name) && NoLineTerminator(email) && NoLineTerminator(date)
    requires !Contains(name, FieldSeparator) && !Contains(email, FieldSeparator)
    ensures ParseHeader(HeaderLine(name, email, date)) == Some(Header(name, email, date))
  {
    UniqueMatch(HeaderLine(name, email, date), name, email, date);
  }

  /** A match whose name and email hold no `> <` is the only one, so it is
      the one the parse returns. */
  lemma UniqueMatch(line: string, name: string, email: string, date: string)
    requires HeaderMatch(line, name, email, date)
    requires !Contains(name, FieldSeparator) && !Contains(email, FieldSeparator)
    ensures ParseHeader(line) == Some(Header(name, email, date))
  {
    ParseHeaderIsLazyMatch(line, name, email, date);
    var h := ParseHeader(line).value;
    MatchesAgree(line, name, email, date, h);
  }

  lemma MatchesAgree(line: string, name: string, email: string, date: string, h: Header)
    requires HeaderMatch(line, name, email, date) && HeaderMatch(line, h.name, h.email, h.date)
    requires !Contains(name, FieldSeparator) && !Contains(email, FieldSeparator)
    requires NoLongerThan(h, name, email)
    ensures h == Header(name, email, date)
  {
    FramedText(line, name, email, date);
    FramedText(line, h.name, h.email, h.date);
    SameFirstField(name, email + FieldSeparator + date, h.name, h.email + FieldSeparator + h.date);
    SameFirstField(email, date, h.email, h.date);
  }

  /** The text between `@<` and `>@` of a header line. */
  lemma FramedText(line: string, name: string, email: string, date: string)
    requires line == HeaderLine(name, email, date)
    ensures |line| >= 4 && line[2..|line| - 2] == name + FieldSeparator + (email + FieldSeparator + date)
  {
    var m := name + FieldSeparator + (email + FieldSeparator + date);
    assert line == "@<" + m + ">@";
  }

  /** Two ways of writing one text as `field + "> <" + tail`, the first with a
      separator-free field no shorter than the second's, are the same. */
  lemma SameFirstField(a: string, ta: string, b: string, tb: string)
    requires a + FieldSeparator + ta == b + FieldSeparator + tb
    requires !Contains(a, FieldSeparator) && |b| <= |a|
    ensures a == b && ta == tb
  {
    var m := a + FieldSeparator + ta;
    assert m[..|a|] == a;
    assert OccursAt(m, FieldSeparator, |a|) by {
      assert m[|a|..|a| + 3] == FieldSeparator;
    }
    assert OccursAt(m, FieldSeparator, |b|) by {
      assert m == b + FieldSeparator + tb;
      assert m[|b|..|b| + 3] == FieldSeparator;
    }
    FirstSeparatorAfter(m, a);
    assert |a| == |b|;
    assert a == m[..|a|] == b;
    assert ta == m[|a| + 3..] == tb;
  }

  /** When the text starts with a separator-free `n` followed by a separator,
      no separator starts inside `n`: the first one is the one after `n`. */
  lemma FirstSeparatorAfter(m: string, n: string)
    requires |n| <= |m| && m[..|n|] == n && !Contains(n, FieldSeparator)
    requires OccursAt(m, FieldSeparator, |n|)
    ensures forall k :: 0 <= k < |n| ==> !OccursAt(m, FieldSeparator, k)
  {
    forall k | 0 <= k < |n| ensures !OccursAt(m, FieldSeparator, k) {
      if k + 3 <= |n| {
        assert m[..|n|][k..k + 3] == m[k..k + 3];
        assert !OccursAt(n, FieldSeparator, k);
      } else {
        assert m[|n|..|n| + 3][0] == m[|n|];
        assert m[k..k + 3][|n| - k] == m[|n|];
      }
    }
  }

  // Numstat lines

  predicate IsDigit(c: char) {
    '0' <= c <= '9'
  }

  /** `[0-9]+` */
  predicate IsDigits(s: string) {
    |s| > 0 && forall i :: 0 <= i < |s| ==> IsDigit(s[i])
  }

  /** The three fields of a line `added\tremoved\tpath`, as text. */
  datatype NumstatFields = NumstatFields(added: string, removed: string, path: string)

  function NumstatLine(f: NumstatFields): string {
    f.added + "\t" + f.removed + "\t" + f.path
  }

  /** `line` matches `^([0-9]+)\t([0-9]+)\t(.*)$` with the groups holding `f`. */
  predicate NumstatMatch(line: string, f: NumstatFields) {
    IsDigits(f.added) && IsDigits(f.removed) && NoLineTerminator(f.path) &&
    line == NumstatLine(f)
  }

  /** The end of the run of digits that starts at `from`. */
  function DigitRun(s: string, from: nat): (r: nat)
    requires from <= |s|
    ensures from <= r <= |s|
    ensures forall k :: from <= k < r ==> IsDigit(s[k])
    ensures r < |s| ==> !IsDigit(s[r])
    decreases |s| - from
  {
    if from < |s| && IsDigit(s[from]) then DigitRun(s, from + 1) else from
  }

  /** The numstat fields, when the line is a numstat line for a text file
      (git writes `-` for the counts of a binary file, which do not match). */
  function MatchNumstat(line: string): (r: Option<NumstatFields>)
    ensures r.Some? ==> NumstatMatch(line, r.value)
  {
    var p := DigitRun(line, 0);
    if p == 0 || p == |line| || line[p] != '\t' then None
    else
      var q := DigitRun(line, p + 1);
      if q == p + 1 || q == |line| || line[q] != '\t' then None
      else
        var f := NumstatFields(line[..p], line[p + 1..q], line[q + 1..]);
        if !NoLineTerminator(f.path) then None
        else
          assert line == line[..p] + [line[p]] + line[p + 1..q] + [line[q]] + line[q + 1..];
          Some(f)
  }

  /** A numstat match can be read only one way, and MatchNumstat finds it:
      the digit runs cannot absorb a tab. */
  lemma MatchNumstatComplete(line: string, f: NumstatFields)
    requires NumstatMatch(line, f)
    ensures MatchNumstat(line) == Some(f)
  {
    var a, b := |f.added|, |f.added| + 1 + |f.removed|;
    assert line[a] == '\t' && line[b] == '\t';
    forall k | 0 <= k < a ensures IsDigit(line[k]) {
      assert line[k] == f.added[k];
    }
    forall k | a + 1 <= k < b ensures IsDigit(line[k]) {
      assert line[k] == f.removed[k - a - 1];
    }
    var p := DigitRun(line, 0);
    assert p == a;
    var q := DigitRun(line, p + 1);
    assert q == b;
    assert line[..a] == f.added;
    assert line[a + 1..b] == f.removed;
    assert line[b + 1..] == f.path;
  }

  /** Numstat round-trip: a line written from digit fields and a path reads
      back as those fields. */
  lemma NumstatRoundTrip(f: NumstatFields)
    requires IsDigits(f.added) && IsDigits(f.removed) && NoLineTerminator(f.path)
    ensures MatchNumstat(NumstatLine(f)) == Some(f)
  {
    MatchNumstatComplete(NumstatLine(f), f);
  }

  /** `parseInt` of a run of decimal digits. */
  function Decimal(s: string): nat
    decreases |s|
  {
    if s == [] then 0
    else 10 * Decimal(s[..|s| - 1]) + DigitValue(s[|s| - 1])
  }

  function DigitValue(c: char): nat {
    if IsDigit(c) then (c as int - '0' as int) else 0
  }

  /** The line's two counts, or nothing when the line is not a numstat line. */
  function ParseNumstat(line: string): (r: Option<(nat, nat)>)
    ensures r.Some? <==> exists f :: NumstatMatch(line, f)
    ensures forall f :: NumstatMatch(line, f) ==> r == Some((Decimal(f.added), Decimal(f.removed)))
  {
    match MatchNumstat(line)
    case None =>
      assert forall f :: !NumstatMatch(line, f) by {
        forall f | NumstatMatch(line, f) ensures false {
          MatchNumstatComplete(line, f);
        }
      }
      None
    case Some(f) =>
      assert forall g :: NumstatMatch(line, g) ==> g == f by {
        forall g | NumstatMatch(line, g) ensures g == f {
          MatchNumstatComplete(line, g);
        }
      }
      Some((Decimal(f.added), Decimal(f.removed)))
  }
}
