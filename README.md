# git-tally: commit-log parser, aggregator and ranking

git-tally reports, for each author of a git repository, the lines they added
and removed and the date of their latest commit. It runs
`git log --numstat --pretty=format:@@@COMMIT@@@<%an> <%ae> <%at>@ --no-merges`.
Then it does four things with the text:

1. It cuts the text at `@@@COMMIT@@`. That token has one `@` fewer than the
   format prints, so each commit's chunk still starts with
   `@<name> <email> <date>@`.
2. It reads each chunk's first line as a header. A chunk whose first line is
   not a header is dropped. This includes the empty segment before the first
   separator.
3. It tallies per key `name + " " + email`:
   - the author's name and email come from the first commit with that key;
   - the counts are summed over every numstat line `added\tremoved\tpath`;
   - the latest commit is the greatest date under string comparison.
4. It fails with "No authors found." when the tally is empty. Otherwise it
   ranks the entries with an insertion sort on `added + removed`. With
   `--asc` it reverses that ranking.

The Dafny modules follow that pipeline:

- `Text`: JavaScript's `split`, the characters the regular-expression `.`
  refuses, and string `<`.
- `LogFormat`: the header and numstat line patterns, written as predicates,
  and the functions that extract their fields.
- `Aggregation`: the tally as a map plus its keys in discovery order, a
  reference fold over the commits, and the `forEach` loops as methods proved
  equal to that fold.
- `TallyProperties`: what the fold holds, stated against independent
  definitions over the accepted commits.
- `LogText`: the log git writes for a sequence of commits, and the proof
  that the parser reads it back.
- `Ranking`: the insertion sort (`splice`/`push`) and the reversal.
- `Report`: the end-to-end result, or the fatal error.
- `Scenarios`: worked cases.

Four behaviours of the code deserve a note:

- **Tie order.** At index.js:121 the test is `>=`, so a newcomer goes in
  before an entry with an equal total. A stable sort would keep ties in
  discovery order; this `>=` reverses them. Among equal totals, the
  later-discovered author comes first in descending order and last in
  ascending order. For totals 10, 10 and 5 discovered as A, B, C, the
  descending order is B, A, C and the ascending order is C, A, B. This is
  `Ranking.RankedTies` and `Scenarios.TiedAuthors`.
- **The email filter.** It reads `program.requireEmail` (index.js:72). No
  option sets it: the options are declared at index.js:12-16. So in the
  shipped program the flag is always off. The model takes it as a boolean
  parameter and proves both settings.
- **String dates.** `latestCommit` is the string maximum, not the numeric
  one. `TallyProperties.SameWidthDates` proves the two agree when the
  timestamps have the same number of digits.
  `TallyProperties.WidthChangeDates` shows they disagree across a change of
  width: "10" is not later than "9".
- **The commit separator in the data.** index.js:59 splits the whole log
  at `@@@COMMIT@@`, and nothing escapes it. A name, email, date or path
  that contains it is cut there, so that commit is lost or misread. A cut
  header line no longer parses as its header. A cut numstat line leaves
  the commit with fewer lines.
  `LogText.LogRoundTrip` requires chunks free of the separator.
  `LogText.SeparatorInChunkBreaksLog` and `Scenarios.SeparatorInName` show
  that the round trip fails without this.

## Model

| member | source | states |
|---|---|---|
| Text.Split | index.js:59 | the parts, joined with the separator, give back the text; no part contains the separator; and no occurrence of the separator starts inside a part, so each cut is at the leftmost occurrence, as JavaScript cuts |
| Text.SplitCharacterised | index.js:59 | any parts that join back to the text and cut it at leftmost occurrences are exactly the result of `split`, so the contract determines the result |
| Text.SplitJoin | index.js:59 | splitting a join gives back the parts when no part contains the separator and no part but the last ends in one of the separator's characters, so that no occurrence can straddle a joint |
| Text.LessTotal | index.js:88 | string `<`, defined as `Text.Less`, is total on distinct strings |
| Text.LessTransitive | index.js:88 | `Text.Less` is transitive |
| Text.LessIrreflexive | index.js:88 | under `Text.Less`, no string is below itself |
| LogFormat.ParseHeader | index.js:64-70 | a returned (name, email, date) is a match of `^@<(.*?)> <(.*?)> <(.*?)>@$`: the line is rebuilt from the three fields, and no field holds a line terminator |
| LogFormat.ParseHeaderIsLazyMatch | index.js:64-70 | whenever the pattern matches, the parse succeeds, and its name is the shortest possible (then its email the shortest), as the lazy quantifiers pick |
| LogFormat.ParseHeaderComplete | index.js:64-66 | when the parse fails, no decomposition of the line matches the header pattern |
| LogFormat.HeaderRoundTrip | index.js:64-70 | the header line written for name, email and date parses back to exactly those fields, when they hold no line terminator and name and email hold no `> <` |
| LogFormat.UniqueMatch | index.js:68-70 | a match whose name and email hold no `> <` is the one the parse returns |
| LogFormat.MatchNumstat | index.js:95-100 | returned fields match `^([0-9]+)\t([0-9]+)\t(.*)$` and rebuild the line |
| LogFormat.MatchNumstatComplete | index.js:95-100 | every match of the numstat pattern is the one MatchNumstat finds |
| LogFormat.NumstatRoundTrip | index.js:95-100 | a line written from two digit fields and a path with no line terminator reads back as those fields |
| LogFormat.ParseNumstat | index.js:95-103 | the line yields counts exactly when it matches the numstat pattern, and the counts are the decimal values of its two digit fields, read by `LogFormat.Decimal` in place of `parseInt` |
| Aggregation.ParseCommit | index.js:62-70 | a chunk is a commit exactly when its first line parses as a header; the commit returned is pinned down by `LogText.ParseCommitInverse` |
| Aggregation.CreditLines | index.js:94-104 | the entry for the key gains the summed counts of the numstat lines, and no other entry changes |
| Aggregation.CreditStep | index.js:95-103 | one more line adds its two decimal counts to the entry when it matches the numstat pattern, and leaves the entry unchanged otherwise |
| Aggregation.TallyChunk | index.js:61-105 | one chunk leaves the tally unchanged when it is dropped or filtered, and otherwise applies that commit's record step |
| Aggregation.Aggregate | index.js:59-105 | the tally built by the loop equals the fold over the accepted commits of the split log |
| TallyProperties.RecordEffect | index.js:76-104 | `Aggregation.Record`, one commit's step, changes only its own key: a new entry starts from the commit's name, email, date and counts and is appended to the discovery order; an existing entry keeps name and email, gains the counts and advances its latest commit by string order through `Aggregation.Later` |
| TallyProperties.RecordWellFormed | index.js:76-86 | recording a commit keeps every key in the order exactly once, with an entry whose name and email join to that key |
| TallyProperties.TallyGrowsAlongLog | index.js:78-103 | entries are never removed, the discovery order is only extended, names and emails are kept, and counts never decrease, from any prefix of the log to any longer one |
| TallyProperties.TallyKeys | index.js:76-86 | the tally's keys are exactly the keys of the accepted commits, in order of first occurrence, each once |
| TallyProperties.DiscoveredOrder | index.js:117 | discovery order lists every key once, ordered by first occurrence |
| TallyProperties.TallyCounts | index.js:92-104 | each entry's added and removed counts are the sums of the first and second numstat fields over that key's commits |
| TallyProperties.TallyLatest | index.js:79-90 | each entry's latest commit is one of its commits' dates, and no date of that key is above it in string order |
| TallyProperties.LatestUnique | index.js:88-90 | the string maximum is unique |
| TallyProperties.SameWidthDates | index.js:88 | between digit strings of equal length, string order is numeric order |
| TallyProperties.WidthChangeDates | index.js:88 | across lengths, the orders differ: "10" is below "9" in string order, so a later commit at time 10 does not replace 9 |
| TallyProperties.TallyIdentity | index.js:76-86 | each entry's name and email are those of the first commit with its key |
| TallyProperties.UncountedLines | index.js:95-97 | binary `-\t-\tpath` lines, blank lines and header lines add nothing |
| TallyProperties.DroppedChunk | index.js:64-66 | a chunk whose first line is not a header leaves the tally unchanged |
| TallyProperties.LeadingSegmentDropped | index.js:59-66 | the segment before the first separator is empty and is not a commit |
| TallyProperties.FilteredCommitIgnored | index.js:72-74 | with the email filter on, a commit with an empty email leaves the tally unchanged |
| TallyProperties.FilteredTallyHasEmails | index.js:72-86 | with the email filter on, no entry has an empty email |
| TallyProperties.UnfilteredCommitTallied | index.js:72-86 | with the email filter off, a commit with an empty email is recorded like any other and its key is in the tally |
| TallyProperties.EmptyTallyIffNoCommits | index.js:107 | the tally is empty exactly when no commit survives the header check and the filter |
| LogText.ChunkRoundTrip | index.js:62-70 | a readable commit's chunk text, header line plus body lines joined by newlines, parses back as that commit; readable means no header field holds a line terminator, name and email hold no `> <`, and no body line holds a newline |
| LogText.ParseCommitInverse | index.js:62-70 | a chunk the parser accepts is exactly the text of the commit it returns: that commit's header holds the fields of the first line, and its body is the lines after the first |
| LogFormat.ParsedFieldsLackSeparator | index.js:68-69 | the name and email the lazy groups capture hold no `> <` |
| LogText.AcceptedChunk | index.js:62-74 | a readable commit's chunk reaches the tally as that commit, unless the email filter drops it |
| LogText.LogRoundTrip | index.js:59-105 | for readable commits whose chunks hold no `@@@COMMIT@@` and, except the last, do not end in one of its characters (a chunk ending in a newline meets this), the log splits into the empty leading segment plus one chunk per commit, and the tally is the fold over the commits the email filter keeps |
| LogText.SeparatorInChunkBreaksLog | index.js:59 | once some commit's chunk holds `@@@COMMIT@@` (in a name, email, date or path), no text splits into one part per commit, the log included |
| Scenarios.SeparatorInName | index.js:59 | a readable commit named `@@@COMMIT@@` is cut by the split, so its log does not split back into its chunk |
| Ranking.InsertionPoint | index.js:120-126 | the insertion point lies before the first entry whose total is at most the newcomer's; every entry before it has a larger total |
| Ranking.InsertAuthor | index.js:118-130 | the splice-or-push loop inserts the author at the insertion point |
| Ranking.Rank | index.js:112-131 | the outer loop produces the ranking of the entries in discovery order |
| Ranking.Values | index.js:117 | the entries are listed in discovery order, one per key |
| Ranking.RankedPermutes | index.js:117-131 | `Ranking.Ranked`, which applies `Ranking.Insert` to each entry in turn, is a permutation of the entries |
| Ranking.RankedSorted | index.js:117-131 | the totals of `Ranking.Ranked` never increase |
| Ranking.InsertTies | index.js:121 | `Ranking.Insert` puts the inserted author before every author with an equal total |
| Ranking.RankedTies | index.js:117-131 | among equal totals, `Ranking.Ranked` lists authors in reverse discovery order |
| Ranking.Reversed | index.js:134 | the reversal has the same length and holds element `i` at position `n - 1 - i` |
| Ranking.ReversedPermutes | index.js:134 | the reversal is a permutation |
| Ranking.ReversedSorted | index.js:133-135 | reversing a non-increasing ranking gives non-decreasing totals |
| Ranking.AscendingTies | index.js:133-135 | with `--asc`, authors of equal total come in discovery order |
| Report.EmptyEntries | index.js:107 | `Object.keys(tally).length < 1` holds exactly when no key was discovered |
| Report.ListingOf | index.js:107-135 | the result is the error exactly when the tally is empty; otherwise it is sorted non-increasing, or non-decreasing with `--asc` |
| Report.ListingOfNonEmpty | index.js:107-135 | a tally with at least one author lists its ranking, reversed under `--asc` |
| Report.Listing | index.js:59-135 | for a whole log, the result is the error exactly when no commit is accepted; otherwise it is sorted in the requested direction |
| Report.Run | index.js:58-135 | the statements from split to reversal compute the listing of the log |
| Report.ListingContents | index.js:112-135 | the listing is a permutation of the entries; its ties are in reverse discovery order, or in discovery order with `--asc` |
| Report.ListingAuthors | index.js:112-135 | an author appears in the listing exactly when it is a tally entry |
| Report.EmptyLogFails | index.js:107-110 | an empty log gives the "No authors found." error |
| Scenarios.TwoCommitsOneAuthor | index.js:59-104 | two commits by one author with one numstat line each give one entry: summed counts, later date by string order, first commit's name and email |
| Scenarios.AliceTwice | index.js:59-104 | Alice at 100 (3 added, 1 removed) and at 200 (0 added, 5 removed) gives one entry: 3 added, 6 removed, latest "200" |
| Scenarios.TieRanking | index.js:117-135 | totals 10, 10, 5 discovered as A, B, C rank as B, A, C and, reversed, as C, A, B |
| Scenarios.TiedAuthors | index.js:107-135 | the same three authors as a tally give that listing in either direction |
| Scenarios.KeyCollision | index.js:76-86 | "a b"/"c" and "a"/"b c" share the key "a b c"; the entry keeps the first commit's name and email |
| Scenarios.SameKeyShared | index.js:76-86 | any two commits with equal keys share one entry, named after the first commit |
| Scenarios.OverlappingSeparator | index.js:59 | the commit separator overlaps itself, and "@@@COMMIT@@@COMMIT@@" splits into "" and "@COMMIT@@", cut at the leftmost occurrence |

## Left out

- Running `git status` and `git log`, collecting stdout and forwarding stderr (index.js:20-56): process I/O. The log text is a parameter of `Report.Run`. Turning stdout bytes into a string is not modelled.
- `process.exit` and console messages: I/O. The exit at index.js:107-110 is the `NoAuthorsFound` error value.
- Option parsing with `commander` (index.js:12-18): a library not modelled here. `--asc` and the require-email flag are parameters.
- Table rendering with `cli-table`, `--email-only` printing, and the conversion of `latestCommit` to a local date string after sorting (index.js:137-153): floating-point time, locale and timezone, and a foreign library.
- CSV output with `json2csv`, the `output.csv` default, `fs.writeFile`, and the unused `fields` variable (index.js:155-177): a foreign library and file I/O.
- LogFormat.ParseNumstat: `parseInt` yields a double, so counts above 2^53 lose precision. The model reads digit strings as unbounded naturals, and sums never round.
- Text.Less: JavaScript compares strings by UTF-16 code units. Dafny compares characters by code point, so the orders can differ for characters above U+FFFF. Git's `%at` dates are ASCII digits, where the two agree.
- Regular expressions in general: only the two fixed patterns of index.js:64-70 and index.js:95-100 are modelled, as predicates over strings.
- The implicit global `lines` at index.js:62: the loop runs synchronously, so the leak does not change behaviour.
