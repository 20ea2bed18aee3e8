/** A run's findings written as a report, and the same run with that report as its baseline. */
module Baselines {
  import opened Findings
  import opened Ordering
  import opened Pairing
  import opened Suppressions
  import K = KnownIssues
  import W = Wrapping

  // ----- a report of a run

  /** The word a finding's severity is written as. */
  function SeverityWord(severity: string): string
  {
    if Lower(severity) in ["error", "fatal", "critical"] then "error" else "warning"
  }

  function AtLeastOne(n: int): int
  {
    if n < 1 then 1 else n
  }

  /** The row for one place of a finding; rel is a file's path as the report has it. */
  function RowAt(rel: string -> string, issue: Issue, loc: Location): K.Row
  {
    K.Row(rel(loc.file), AtLeastOne(loc.line), AtLeastOne(loc.column), SeverityWord(issue.severity), issue.id, loc.message)
  }

  function RowsOf(rel: string -> string, issue: Issue): seq<K.Row>
  {
    seq(|issue.locations|, i requires 0 <= i < |issue.locations| => RowAt(rel, issue, issue.locations[i]))
  }

  function ReportRows(rel: string -> string, issues: seq<Issue>): seq<K.Row>
  {
    if issues == [] then [] else RowsOf(rel, issues[0]) + ReportRows(rel, issues[1..])
  }

  /** The report's text, rows sorted. */
  function Report(header: seq<string>, rows: seq<K.Row>): string
  {
    K.Text(K.HeaderLines(header) + K.RowLines(Sort(K.RowBefore, rows)))
  }

  /** A finding with one location, a rule id, and a path that the report can hold and that
      means the same file when read back. */
  ghost predicate Reportable(rel: string -> string, norm: string -> string, clean: string -> string, issue: Issue)
  {
    && |issue.locations| == 1
    && issue.id != "" && K.All(K.IsTagChar, issue.id)
    && FirstLocation(issue).line <= K.MAX_INT && FirstLocation(issue).column <= K.MAX_INT
    && HoldablePath(rel(FirstLocation(issue).file))
    && clean(norm(rel(FirstLocation(issue).file))) == clean(FirstLocation(issue).file)
  }

  predicate HoldablePath(p: string)
  {
    && p != "" && K.All(K.NotColon, p) && '\n' !in p && !W.IsSpace(p[0])
    && p[0] != '#' && p[0] != '/' && p[0] != '\\'
    && !(|p| == 1 && K.IsLetter(p[0]))
  }

  function FindingRow(rel: string -> string, issue: Issue): K.Row
  {
    RowAt(rel, issue, FirstLocation(issue))
  }

  function FindingRows(rel: string -> string, issues: seq<Issue>): seq<K.Row>
  {
    seq(|issues|, i requires 0 <= i < |issues| => FindingRow(rel, issues[i]))
  }

  lemma {:induction false} OneRowEach(rel: string -> string, issues: seq<Issue>)
    requires forall i | i in issues :: |i.locations| == 1
    ensures ReportRows(rel, issues) == FindingRows(rel, issues)
  {
    if issues != [] {
      assert issues[0] in issues;
      assert RowsOf(rel, issues[0]) == [FindingRow(rel, issues[0])];
      OneRowEach(rel, issues[1..]);
    }
  }

  lemma RowIsPlain(rel: string -> string, norm: string -> string, clean: string -> string, issue: Issue)
    requires Reportable(rel, norm, clean, issue)
    ensures var row := FindingRow(rel, issue);
            K.Plain(row) && '\n' !in row.path && K.Readable(row) && row.code == issue.id
  {
    var word := SeverityWord(issue.severity);
    SeverityKnown(issue.severity);
  }

  /** A finding is written as an error when the linter calls it an error, fatal or critical, in any
      case, and as a warning otherwise. */
  lemma SeverityMeans(severity: string)
    ensures Lower(severity) == "error" || Lower(severity) == "fatal" || Lower(severity) == "critical" ==> SeverityWord(severity) == "error"
    ensures SeverityWord(severity) != "error" ==> SeverityWord(severity) == "warning"
    ensures SeverityWord(severity) == "error" ==> Lower(severity) == "error" || Lower(severity) == "fatal" || Lower(severity) == "critical"
  {
    var words := ["error", "fatal", "critical"];
    assert Lower(severity) == words[0] || Lower(severity) == words[1] || Lower(severity) == words[2] ==> Lower(severity) in words;
  }

  lemma SeverityKnown(severity: string)
    ensures Lower(SeverityWord(severity)) in K.SEVERITIES
  {
    assert K.SEVERITIES[0] == "error" && K.SEVERITIES[1] == "warning";
    assert Lower("error") == "error" && Lower("warning") == "warning";
  }

  // ----- the report read back

  function RowKey(norm: string -> string, clean: string -> string, row: K.Row): Key
  {
    Key(clean(norm(row.path)), row.code, K.Normal(row.message))
  }

  function RowKeying(norm: string -> string, clean: string -> string): K.Row -> Key
  {
    row => RowKey(norm, clean, row)
  }

  /** A row's key and the line it is reported on. */
  function RowMarking(norm: string -> string, clean: string -> string): K.Row -> (Key, int)
  {
    row => (RowKey(norm, clean, row), row.line)
  }

  function EntryMarks(clean: string -> string, baseline: seq<Entry>): seq<(Key, int)>
  {
    seq(|baseline|, e requires 0 <= e < |baseline| => (EntryKey(clean, baseline[e]), baseline[e].line + 1))
  }

  function IssueMarks(clean: string -> string, issues: seq<Issue>): seq<(Key, int)>
  {
    seq(|issues|, i requires 0 <= i < |issues| => (IssueKey(clean, issues[i]), ReportedLine(issues[i])))
  }

  lemma ExpectedKeys(norm: string -> string, clean: string -> string, rows: seq<K.Row>)
    ensures EntryKeys(clean, K.ExpectedAll(norm, rows)) == Map(RowKeying(norm, clean), rows)
    ensures EntryMarks(clean, K.ExpectedAll(norm, rows)) == Map(RowMarking(norm, clean), rows)
  {
    hide K.Normal, Lower;
  }

  /** A finding's key with its message as the report has it. */
  function WrittenKey(clean: string -> string, issue: Issue): Key
  {
    IssueKey(clean, issue).(message := K.Normal(FirstLocation(issue).message))
  }

  function WrittenMarks(clean: string -> string, issues: seq<Issue>): seq<(Key, int)>
  {
    seq(|issues|, i requires 0 <= i < |issues| => (WrittenKey(clean, issues[i]), ReportedLine(issues[i])))
  }

  function WrittenKeys(clean: string -> string, issues: seq<Issue>): seq<Key>
  {
    seq(|issues|, i requires 0 <= i < |issues| => WrittenKey(clean, issues[i]))
  }

  ghost predicate AllReportable(rel: string -> string, norm: string -> string, clean: string -> string, issues: seq<Issue>)
  {
    forall i | i in issues :: Reportable(rel, norm, clean, i)
  }

  lemma FindingRowsPlain(rel: string -> string, norm: string -> string, clean: string -> string, issues: seq<Issue>)
    requires AllReportable(rel, norm, clean, issues)
    ensures ReportRows(rel, issues) == FindingRows(rel, issues)
    ensures forall r | r in FindingRows(rel, issues) :: K.Plain(r) && '\n' !in r.path && K.Readable(r)
    ensures Map(RowKeying(norm, clean), FindingRows(rel, issues)) == WrittenKeys(clean, issues)
    ensures Map(RowMarking(norm, clean), FindingRows(rel, issues)) == WrittenMarks(clean, issues)
  {
    hide K.Plain, K.Readable, FindingRow, Reportable, RowKey, WrittenKey;
    forall i | i in issues ensures |i.locations| == 1 {
      ReportableOne(rel, norm, clean, i);
    }
    OneRowEach(rel, issues);
    var rows := FindingRows(rel, issues);
    forall r | r in rows ensures K.Plain(r) && '\n' !in r.path && K.Readable(r) {
      var i :| 0 <= i < |issues| && r == FindingRow(rel, issues[i]);
      assert issues[i] in issues;
      RowIsPlain(rel, norm, clean, issues[i]);
    }
    forall i | 0 <= i < |issues|
      ensures RowKey(norm, clean, rows[i]) == WrittenKey(clean, issues[i]) && rows[i].line == ReportedLine(issues[i])
    {
      assert issues[i] in issues;
      RowKeyWritten(rel, norm, clean, issues[i]);
    }
  }

  /** The entries read back from a report of plain, readable rows. */
  lemma ReadBack(header: seq<string>, norm: string -> string, rows: seq<K.Row>)
    requires forall h | h in header :: '\n' !in h
    requires forall r | r in rows :: K.Plain(r) && '\n' !in r.path && K.Readable(r)
    ensures K.Entries(norm, K.Split(Report(header, rows))) == K.ExpectedAll(norm, Sort(K.RowBefore, rows))
  {
    hide K.Entries, K.Split, K.Text, K.Plain, K.Readable, K.RowBefore, K.Expected;
    K.FileReadsBack(norm, header, rows);
  }

  /** The baseline read from a run's own report has the run's keys, messages normalised. */
  lemma BaselineKeys(header: seq<string>, rel: string -> string, norm: string -> string, clean: string -> string,
                     issues: seq<Issue>, baseline: seq<Entry>)
    requires (forall h | h in header :: '\n' !in h) && AllReportable(rel, norm, clean, issues)
    requires baseline == K.Entries(norm, K.Split(Report(header, ReportRows(rel, issues))))
    ensures |baseline| == |issues|
    ensures multiset(EntryKeys(clean, baseline)) == multiset(WrittenKeys(clean, issues))
    ensures multiset(EntryMarks(clean, baseline)) == multiset(WrittenMarks(clean, issues))
  {
    hide K.Entries, K.Split, Report, AllReportable, K.Plain, K.Readable, K.RowBefore, EntryKeys, WrittenKeys, EntryMarks, WrittenMarks, Sort, Map;
    FindingRowsPlain(rel, norm, clean, issues);
    var rows := FindingRows(rel, issues);
    ReadBack(header, norm, rows);
    SortElements(K.RowBefore, rows);
    ExpectedKeys(norm, clean, Sort(K.RowBefore, rows));
    SortMap(K.RowBefore, RowKeying(norm, clean), rows);
    SortMap(K.RowBefore, RowMarking(norm, clean), rows);
  }

  lemma ReportableOne(rel: string -> string, norm: string -> string, clean: string -> string, issue: Issue)
    requires Reportable(rel, norm, clean, issue)
    ensures |issue.locations| == 1
  {
  }

  lemma RowKeyWritten(rel: string -> string, norm: string -> string, clean: string -> string, issue: Issue)
    requires Reportable(rel, norm, clean, issue)
    ensures RowKey(norm, clean, FindingRow(rel, issue)) == WrittenKey(clean, issue)
    ensures FindingRow(rel, issue).line == ReportedLine(issue)
  {
    hide K.Normal;
  }

  // ----- when nothing is left over

  lemma {:induction false} HavingCount<T>(keys: seq<T>, k: T)
    ensures |Having(keys, k)| == multiset(keys)[k]
  {
    if keys != [] {
      var n := |keys| - 1;
      HavingCount(keys[..n], k);
      assert keys == keys[..n] + [keys[n]];
      assert Having(keys, k) == Having(keys[..n], k) + if keys[n] == k then {n} else {};
    } else {
      assert Having(keys, k) == {};
    }
  }

  lemma {:induction false} DropsAll<T>(xs: seq<T>, flags: seq<bool>)
    requires |xs| == |flags|
    ensures Drop(xs, flags) == [] <==> forall i | 0 <= i < |flags| :: flags[i]
  {
    if xs != [] {
      DropsAll(xs[..|xs| - 1], flags[..|xs| - 1]);
    }
  }

  /** With as many entries as findings, a key has both sides paired off. */
  lemma PairedOff(clean: string -> string, issues: seq<Issue>, baseline: seq<Entry>, pairing: map<Key, seq<Pair>>, k: Key)
    requires Settled(clean, issues, baseline, pairing) && k in pairing
    requires |Having(IssueKeys(clean, issues), k)| == |Having(EntryKeys(clean, baseline), k)|
    ensures Firsts(pairing[k]) == Having(IssueKeys(clean, issues), k) && Seconds(pairing[k]) == Having(EntryKeys(clean, baseline), k)
  {
    hide Greedy, Firsts, Seconds;
    assert SettledAt(clean, issues, baseline, k, pairing[k]);
    var I, E := Having(IssueKeys(clean, issues), k), Having(EntryKeys(clean, baseline), k);
    PairsTaken(issues, baseline, I, E, pairing[k]);
    PairCount(issues, baseline, I, E, pairing[k]);
    SameSize(Firsts(pairing[k]), I);
    SameSize(Seconds(pairing[k]), E);
  }

  lemma SameSize(a: set<nat>, b: set<nat>)
    requires a <= b && |a| == |b|
    ensures a == b
  {
    assert |b - a| == 0;
  }

  /** A finding that is taken out has an entry of its key. */
  lemma TakenHasEntry(clean: string -> string, issues: seq<Issue>, baseline: seq<Entry>, pairing: map<Key, seq<Pair>>, i: nat)
    requires Settled(clean, issues, baseline, pairing) && i < |issues| && KnownFlags(IssueKeys(clean, issues), pairing)[i]
    ensures IssueKey(clean, issues[i]) in EntryKeys(clean, baseline)
  {
    hide Greedy, EntryKey;
    var k := IssueKey(clean, issues[i]);
    assert SettledAt(clean, issues, baseline, k, pairing[k]);
    var I, E := Having(IssueKeys(clean, issues), k), Having(EntryKeys(clean, baseline), k);
    PairsTaken(issues, baseline, I, E, pairing[k]);
    var p :| p in pairing[k] && p.0 == i;
    assert p.1 in Seconds(pairing[k]);
    assert EntryKeys(clean, baseline)[p.1] == k;
  }

  /** Subtracting a run's own report from the run leaves nothing exactly when every message has
      single spaces between its words; then nothing in the report is stale either. */
  lemma OwnBaseline(header: seq<string>, rel: string -> string, norm: string -> string, clean: string -> string,
                    issues: seq<Issue>, baseline: seq<Entry>, pairing: map<Key, seq<Pair>>)
    requires (forall h | h in header :: '\n' !in h) && AllReportable(rel, norm, clean, issues)
    requires baseline == K.Entries(norm, K.Split(Report(header, ReportRows(rel, issues))))
    requires Settled(clean, issues, baseline, pairing) && forall k :: k in pairing <==> k in IssueKeys(clean, issues)
    ensures var spaced := forall i | i in issues :: K.OneSpaced(FirstLocation(i).message);
            && (Drop(issues, KnownFlags(IssueKeys(clean, issues), pairing)) == [] <==> spaced)
            && (spaced ==> Drop(baseline, UsedFlags(EntryKeys(clean, baseline), pairing)) == [])
  {
    hide K.Entries, K.Split, Report, AllReportable, Settled, K.OneSpaced, IssueKeys, EntryKeys, KnownFlags, UsedFlags, Drop;
    BaselineKeys(header, rel, norm, clean, issues, baseline);
    FlagLengths(clean, issues, baseline, pairing);
    DropsAll(issues, KnownFlags(IssueKeys(clean, issues), pairing));
    DropsAll(baseline, UsedFlags(EntryKeys(clean, baseline), pairing));
    if forall i | i in issues :: K.OneSpaced(FirstLocation(i).message) {
      WrittenAsIs(clean, issues);
      AllPairedOff(clean, issues, baseline, pairing);
    }
    if forall i | 0 <= i < |issues| :: KnownFlags(IssueKeys(clean, issues), pairing)[i] {
      forall i | i in issues ensures K.OneSpaced(FirstLocation(i).message) {
        var n :| 0 <= n < |issues| && issues[n] == i;
        TakenHasEntry(clean, issues, baseline, pairing, n);
        WrittenSpaced(clean, issues, baseline, i);
      }
    }
  }

  /** A finding whose message has two spaces together, which the report can hold but whose own
      baseline does not take out. */
  lemma DoubledSpace() returns (issue: Issue)
    ensures var same := (p: string) => p; Reportable(same, same, same, issue)
    ensures !K.OneSpaced(FirstLocation(issue).message)
  {
    issue := Issue("ERROR", "RULE", [Location("a.cfm", 1, 1, "two  spaces")], "");
    assert W.IsSpace("two  spaces"[3]) && W.IsSpace("two  spaces"[4]);
  }

  lemma FlagLengths(clean: string -> string, issues: seq<Issue>, baseline: seq<Entry>, pairing: map<Key, seq<Pair>>)
    ensures |KnownFlags(IssueKeys(clean, issues), pairing)| == |issues|
    ensures |UsedFlags(EntryKeys(clean, baseline), pairing)| == |baseline|
  {
  }

  lemma WrittenAsIs(clean: string -> string, issues: seq<Issue>)
    requires forall i | i in issues :: K.OneSpaced(FirstLocation(i).message)
    ensures WrittenKeys(clean, issues) == IssueKeys(clean, issues)
  {
    hide K.Normal, K.OneSpaced;
    forall i | 0 <= i < |issues| ensures WrittenKey(clean, issues[i]) == IssueKey(clean, issues[i]) {
      assert issues[i] in issues;
      K.NormalIff(FirstLocation(issues[i]).message);
    }
  }

  lemma WrittenSpaced(clean: string -> string, issues: seq<Issue>, baseline: seq<Entry>, issue: Issue)
    requires multiset(EntryKeys(clean, baseline)) == multiset(WrittenKeys(clean, issues))
    requires IssueKey(clean, issue) in EntryKeys(clean, baseline)
    ensures K.OneSpaced(FirstLocation(issue).message)
  {
    hide K.Normal, K.OneSpaced, EntryKeys;
    assert IssueKey(clean, issue) in multiset(EntryKeys(clean, baseline));
    assert IssueKey(clean, issue) in WrittenKeys(clean, issues);
    var m :| 0 <= m < |issues| && WrittenKey(clean, issues[m]) == IssueKey(clean, issue);
    K.NormalIff(FirstLocation(issues[m]).message);
  }

  lemma AllPairedOff(clean: string -> string, issues: seq<Issue>, baseline: seq<Entry>, pairing: map<Key, seq<Pair>>)
    requires Settled(clean, issues, baseline, pairing) && forall k :: k in pairing <==> k in IssueKeys(clean, issues)
    requires multiset(EntryKeys(clean, baseline)) == multiset(IssueKeys(clean, issues))
    ensures forall i | 0 <= i < |issues| :: KnownFlags(IssueKeys(clean, issues), pairing)[i]
    ensures forall e | 0 <= e < |baseline| :: UsedFlags(EntryKeys(clean, baseline), pairing)[e]
  {
    hide Settled, Firsts, Seconds, IssueKey, EntryKey;
    var ik, ek := IssueKeys(clean, issues), EntryKeys(clean, baseline);
    forall i | 0 <= i < |issues| ensures KnownFlags(ik, pairing)[i] {
      assert ik[i] in ik;
      HavingCount(ik, ik[i]);
      HavingCount(ek, ik[i]);
      PairedOff(clean, issues, baseline, pairing, ik[i]);
      assert i in Having(ik, ik[i]);
    }
    forall e | 0 <= e < |baseline| ensures UsedFlags(ek, pairing)[e] {
      assert ek[e] in multiset(ek);
      assert ek[e] in ik;
      HavingCount(ik, ek[e]);
      HavingCount(ek, ek[e]);
      PairedOff(clean, issues, baseline, pairing, ek[e]);
      assert e in Having(ek, ek[e]);
    }
  }

  // ----- lines

  /** Against an entry read back from a run's report, a finding's distance is the difference of the
      two findings' lines as the linter numbers them. */
  lemma ReportedDistance(rel: string -> string, norm: string -> string, issues: seq<Issue>, baseline: seq<Entry>, i: nat, e: nat, j: nat)
    requires i < |issues| && j < |issues| && e < |baseline| && baseline[e] == K.Expected(norm, FindingRow(rel, issues[j]))
    requires FirstLocation(issues[i]).line >= 1 && FirstLocation(issues[j]).line >= 1
    ensures var a, b := FirstLocation(issues[i]).line, FirstLocation(issues[j]).line;
            Distance(issues, baseline, i, e) == if a < b then b - a else a - b
  {
    hide K.Normal, Lower;
  }

  /** Against its own report, each finding of a run is paired with an entry of its own line. */
  lemma OwnLines(header: seq<string>, rel: string -> string, norm: string -> string, clean: string -> string,
                 issues: seq<Issue>, baseline: seq<Entry>, pairing: map<Key, seq<Pair>>, k: Key)
    requires (forall h | h in header :: '\n' !in h) && AllReportable(rel, norm, clean, issues)
    requires baseline == K.Entries(norm, K.Split(Report(header, ReportRows(rel, issues))))
    requires Settled(clean, issues, baseline, pairing) && k in pairing
    requires forall i | i in issues :: K.OneSpaced(FirstLocation(i).message)
    ensures forall p | p in pairing[k] ::
              p.0 < |issues| && p.1 < |baseline| && baseline[p.1].line + 1 == ReportedLine(issues[p.0])
  {
    hide K.Entries, K.Split, Report, AllReportable, K.OneSpaced, IssueKeys, EntryKeys, EntryMarks, IssueMarks, WrittenMarks, ReportedLine, Greedy;
    BaselineKeys(header, rel, norm, clean, issues, baseline);
    MarkedAsIs(clean, issues);
    assert SettledAt(clean, issues, baseline, k, pairing[k]);
    KeyBalanced(clean, issues, baseline, k);
    var I, E := Having(IssueKeys(clean, issues), k), Having(EntryKeys(clean, baseline), k);
    PairsSameLine(issues, baseline, I, E, pairing[k]);
    KeyInRange(clean, issues, baseline, k);
  }

  lemma MarkedAsIs(clean: string -> string, issues: seq<Issue>)
    requires forall i | i in issues :: K.OneSpaced(FirstLocation(i).message)
    ensures WrittenMarks(clean, issues) == IssueMarks(clean, issues)
  {
    hide K.Normal, K.OneSpaced, ReportedLine;
    forall i | 0 <= i < |issues| ensures WrittenKey(clean, issues[i]) == IssueKey(clean, issues[i]) {
      assert issues[i] in issues;
      K.NormalIff(FirstLocation(issues[i]).message);
    }
  }

  lemma KeyInRange(clean: string -> string, issues: seq<Issue>, baseline: seq<Entry>, k: Key)
    ensures InRange(issues, baseline, Having(IssueKeys(clean, issues), k), Having(EntryKeys(clean, baseline), k))
  {
  }

  lemma KeyBalanced(clean: string -> string, issues: seq<Issue>, baseline: seq<Entry>, k: Key)
    requires multiset(EntryMarks(clean, baseline)) == multiset(IssueMarks(clean, issues))
    ensures InRange(issues, baseline, Having(IssueKeys(clean, issues), k), Having(EntryKeys(clean, baseline), k))
    ensures Balanced(issues, baseline, Having(IssueKeys(clean, issues), k), Having(EntryKeys(clean, baseline), k))
  {
    hide ReportedLine, IssueKey, EntryKey;
    var I, E := Having(IssueKeys(clean, issues), k), Having(EntryKeys(clean, baseline), k);
    forall v ensures |OnLine(issues, I, v)| == |AtLine(baseline, E, v)| {
      HavingCount(EntryMarks(clean, baseline), (k, v));
      HavingCount(IssueMarks(clean, issues), (k, v));
      assert OnLine(issues, I, v) == Having(IssueMarks(clean, issues), (k, v));
      assert AtLine(baseline, E, v) == Having(EntryMarks(clean, baseline), (k, v));
    }
  }
}
