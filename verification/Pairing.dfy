/** Pairing lint findings with baseline entries by nearest line, and what the pairing amounts to. */
module Pairing {
  import opened Findings

  datatype Location = Location(file: string, line: int, column: int, message: string)

  datatype Issue = Issue(severity: string, id: string, locations: seq<Location>, raw: string)

  function FirstLocation(issue: Issue): Location
  {
    if issue.locations == [] then Location("", 0, 0, "") else issue.locations[0]
  }

  function Abs(n: int): nat
  {
    if n < 0 then -n else n
  }

  /** How far entry e is from finding i: findings count lines from 1, entries from 0. */
  function Distance(issues: seq<Issue>, baseline: seq<Entry>, i: nat, e: nat): nat
    requires i < |issues| && e < |baseline|
  {
    Abs(baseline[e].line - (FirstLocation(issues[i]).line - 1))
  }

  type Pair = (nat, nat)

  ghost predicate InRange(issues: seq<Issue>, baseline: seq<Entry>, I: set<nat>, E: set<nat>)
  {
    (forall i | i in I :: i < |issues|) && (forall e | e in E :: e < |baseline|)
  }

  /** p is the nearer pair; on a tie, the one with the earlier finding, then the earlier entry. */
  predicate Prefer(issues: seq<Issue>, baseline: seq<Entry>, p: Pair, q: Pair)
    requires p.0 < |issues| && q.0 < |issues| && p.1 < |baseline| && q.1 < |baseline|
  {
    var dp, dq := Distance(issues, baseline, p.0, p.1), Distance(issues, baseline, q.0, q.1);
    dp < dq || (dp == dq && (p.0 < q.0 || (p.0 == q.0 && p.1 <= q.1)))
  }

  function Firsts(pairs: seq<Pair>): set<nat>
  {
    set p | p in pairs :: p.0
  }

  function Seconds(pairs: seq<Pair>): set<nat>
  {
    set p | p in pairs :: p.1
  }

  /** p pairs a finding and an entry both still free after pairs, and nothing free is preferable. */
  ghost predicate Nearest(issues: seq<Issue>, baseline: seq<Entry>, I: set<nat>, E: set<nat>, pairs: seq<Pair>, p: Pair)
    requires InRange(issues, baseline, I, E)
  {
    && p.0 in I - Firsts(pairs) && p.1 in E - Seconds(pairs)
    && forall i, e | i in I - Firsts(pairs) && e in E - Seconds(pairs) :: Prefer(issues, baseline, p, (i, e))
  }

  /** Each pair is the nearest when it is made. */
  ghost predicate Greedy(issues: seq<Issue>, baseline: seq<Entry>, I: set<nat>, E: set<nat>, pairs: seq<Pair>)
    requires InRange(issues, baseline, I, E)
  {
    forall k | 0 <= k < |pairs| :: Nearest(issues, baseline, I, E, pairs[..k], pairs[k])
  }

  /** One side has run out. */
  ghost predicate Exhausted(I: set<nat>, E: set<nat>, pairs: seq<Pair>)
  {
    I <= Firsts(pairs) || E <= Seconds(pairs)
  }

  // ----- what a greedy pairing guarantees

  /** The first moment one of i and e is taken, they were both free. */
  lemma {:induction false} FirstTaken(pairs: seq<Pair>, i: nat, e: nat) returns (k: nat)
    requires i in Firsts(pairs) || e in Seconds(pairs)
    ensures k < |pairs| && (pairs[k].0 == i || pairs[k].1 == e)
    ensures i !in Firsts(pairs[..k]) && e !in Seconds(pairs[..k])
  {
    var n := |pairs| - 1;
    var front := pairs[..n];
    assert pairs == front + [pairs[n]];
    if i in Firsts(front) || e in Seconds(front) {
      k := FirstTaken(front, i, e);
      assert front[..k] == pairs[..k];
    } else {
      k := n;
    }
  }

  /** No finding and entry are left, or paired off, further away than they are from each other:
      one of them is in a pair at most as far apart. The pairing is stable. */
  lemma Stable(issues: seq<Issue>, baseline: seq<Entry>, I: set<nat>, E: set<nat>, pairs: seq<Pair>, i: nat, e: nat)
    requires InRange(issues, baseline, I, E) && Greedy(issues, baseline, I, E, pairs) && Exhausted(I, E, pairs)
    requires i in I && e in E
    ensures exists k :: 0 <= k < |pairs| && (pairs[k].0 == i || pairs[k].1 == e)
                        && pairs[k].0 in I && pairs[k].1 in E
                        && Distance(issues, baseline, pairs[k].0, pairs[k].1) <= Distance(issues, baseline, i, e)
  {
    hide Distance;
    var k := FirstTaken(pairs, i, e);
    assert Nearest(issues, baseline, I, E, pairs[..k], pairs[k]);
    assert Prefer(issues, baseline, pairs[k], (i, e));
  }

  /** Successive pairs are never closer than the ones before. */
  lemma DistancesGrow(issues: seq<Issue>, baseline: seq<Entry>, I: set<nat>, E: set<nat>, pairs: seq<Pair>, j: nat, k: nat)
    requires InRange(issues, baseline, I, E) && Greedy(issues, baseline, I, E, pairs) && j < k < |pairs|
    ensures pairs[j].0 in I && pairs[j].1 in E && pairs[k].0 in I && pairs[k].1 in E
    ensures Distance(issues, baseline, pairs[j].0, pairs[j].1) <= Distance(issues, baseline, pairs[k].0, pairs[k].1)
  {
    hide Distance;
    assert Nearest(issues, baseline, I, E, pairs[..j], pairs[j]);
    assert Nearest(issues, baseline, I, E, pairs[..k], pairs[k]);
    PrefixTaken(pairs, j, k);
    assert Prefer(issues, baseline, pairs[j], (pairs[k].0, pairs[k].1));
  }

  lemma PrefixTaken(pairs: seq<Pair>, j: nat, k: nat)
    requires j <= k <= |pairs|
    ensures Firsts(pairs[..j]) <= Firsts(pairs[..k]) && Seconds(pairs[..j]) <= Seconds(pairs[..k])
  {
    assert forall p | p in pairs[..j] :: p in pairs[..k];
  }

  lemma GreedyFront(issues: seq<Issue>, baseline: seq<Entry>, I: set<nat>, E: set<nat>, pairs: seq<Pair>)
    requires InRange(issues, baseline, I, E) && Greedy(issues, baseline, I, E, pairs) && pairs != []
    ensures Greedy(issues, baseline, I, E, pairs[..|pairs| - 1])
    ensures var front, p := pairs[..|pairs| - 1], pairs[|pairs| - 1];
            p.0 in I - Firsts(front) && p.1 in E - Seconds(front)
  {
    hide Prefer, Distance;
    var n := |pairs| - 1;
    var front := pairs[..n];
    assert Nearest(issues, baseline, I, E, pairs[..n], pairs[n]);
    hide Nearest;
    forall k | 0 <= k < n ensures Nearest(issues, baseline, I, E, front[..k], front[k]) {
      assert front[..k] == pairs[..k];
    }
  }

  lemma {:induction false} PairsTaken(issues: seq<Issue>, baseline: seq<Entry>, I: set<nat>, E: set<nat>, pairs: seq<Pair>)
    requires InRange(issues, baseline, I, E) && Greedy(issues, baseline, I, E, pairs)
    ensures Firsts(pairs) <= I && Seconds(pairs) <= E
    ensures |Firsts(pairs)| == |pairs| && |Seconds(pairs)| == |pairs|
  {
    hide Greedy;
    if pairs != [] {
      var front, p := pairs[..|pairs| - 1], pairs[|pairs| - 1];
      GreedyFront(issues, baseline, I, E, pairs);
      PairsTaken(issues, baseline, I, E, front);
      TakenOneMore(front, p);
      assert pairs == front + [p];
    }
  }

  lemma TakenOneMore(pairs: seq<Pair>, p: Pair)
    ensures Firsts(pairs + [p]) == Firsts(pairs) + {p.0}
    ensures Seconds(pairs + [p]) == Seconds(pairs) + {p.1}
  {
    assert forall q :: q in pairs + [p] <==> q in pairs || q == p;
  }

  /** As many pairs as the smaller side has members. */
  lemma PairCount(issues: seq<Issue>, baseline: seq<Entry>, I: set<nat>, E: set<nat>, pairs: seq<Pair>)
    requires InRange(issues, baseline, I, E) && Greedy(issues, baseline, I, E, pairs) && Exhausted(I, E, pairs)
    ensures |pairs| == if |I| <= |E| then |I| else |E|
  {
    hide Greedy;
    PairsTaken(issues, baseline, I, E, pairs);
    SubsetSize(Firsts(pairs), I);
    SubsetSize(Seconds(pairs), E);
    if I <= Firsts(pairs) {
      assert I == Firsts(pairs);
    } else {
      assert E == Seconds(pairs);
    }
  }

  lemma {:induction false} SubsetSize<T>(a: set<T>, b: set<T>)
    requires a <= b
    ensures |a| <= |b|
  {
    assert b == a + (b - a);
  }

  /** Findings and entries determine the pairing. */
  lemma {:induction false} PairingUnique(issues: seq<Issue>, baseline: seq<Entry>, I: set<nat>, E: set<nat>, a: seq<Pair>, b: seq<Pair>)
    requires InRange(issues, baseline, I, E) && Greedy(issues, baseline, I, E, a) && Greedy(issues, baseline, I, E, b)
    requires Exhausted(I, E, a) && Exhausted(I, E, b)
    ensures a == b
  {
    hide Distance;
    PairCount(issues, baseline, I, E, a);
    PairCount(issues, baseline, I, E, b);
    SamePrefix(issues, baseline, I, E, a, b, |a|);
    assert a[..|a|] == a && b[..|b|] == b;
  }

  lemma {:induction false} SamePrefix(issues: seq<Issue>, baseline: seq<Entry>, I: set<nat>, E: set<nat>, a: seq<Pair>, b: seq<Pair>, k: nat)
    requires InRange(issues, baseline, I, E) && Greedy(issues, baseline, I, E, a) && Greedy(issues, baseline, I, E, b)
    requires k <= |a| && k <= |b|
    ensures a[..k] == b[..k]
  {
    hide Distance;
    if k > 0 {
      SamePrefix(issues, baseline, I, E, a, b, k - 1);
      assert Nearest(issues, baseline, I, E, a[..k - 1], a[k - 1]);
      assert Nearest(issues, baseline, I, E, b[..k - 1], b[k - 1]);
      assert Prefer(issues, baseline, a[k - 1], (b[k - 1].0, b[k - 1].1));
      assert Prefer(issues, baseline, b[k - 1], (a[k - 1].0, a[k - 1].1));
      assert a[..k] == a[..k - 1] + [a[k - 1]] && b[..k] == b[..k - 1] + [b[k - 1]];
    }
  }

  // ----- what distances measure

  /** How far an entry's line, counted from 0, is from a finding's, counted from 1. */
  lemma DistanceIs(issues: seq<Issue>, baseline: seq<Entry>, i: nat, e: nat)
    requires i < |issues| && e < |baseline|
    ensures var at := if |issues[i].locations| == 0 then -1 else issues[i].locations[0].line - 1;
            Distance(issues, baseline, i, e) == if baseline[e].line >= at then baseline[e].line - at else at - baseline[e].line
  {
  }

  /** Each pair is as close as any still to be made, and of several as close it has the earliest
      finding, and for that the earliest entry. */
  lemma TiesGoFirst(issues: seq<Issue>, baseline: seq<Entry>, I: set<nat>, E: set<nat>, pairs: seq<Pair>, k: nat, i: nat, e: nat)
    requires InRange(issues, baseline, I, E) && Greedy(issues, baseline, I, E, pairs) && k < |pairs|
    requires i in I && e in E && (forall j | 0 <= j < k :: pairs[j].0 != i && pairs[j].1 != e)
    ensures pairs[k].0 in I && pairs[k].1 in E
    ensures Distance(issues, baseline, pairs[k].0, pairs[k].1) <= Distance(issues, baseline, i, e)
    ensures Distance(issues, baseline, pairs[k].0, pairs[k].1) == Distance(issues, baseline, i, e) ==>
              pairs[k].0 < i || (pairs[k].0 == i && pairs[k].1 <= e)
  {
    hide Distance;
    assert Nearest(issues, baseline, I, E, pairs[..k], pairs[k]);
    assert i !in Firsts(pairs[..k]) && e !in Seconds(pairs[..k]);
    assert Prefer(issues, baseline, pairs[k], (i, e));
  }

  /** The line a finding is reported on: a line below 1 counts as the first. */
  function ReportedLine(issue: Issue): int
  {
    if FirstLocation(issue).line < 1 then 1 else FirstLocation(issue).line
  }

  ghost function OnLine(issues: seq<Issue>, I: set<nat>, v: int): set<nat>
    requires forall i | i in I :: i < |issues|
  {
    set i | i in I && ReportedLine(issues[i]) == v
  }

  ghost function AtLine(baseline: seq<Entry>, E: set<nat>, v: int): set<nat>
    requires forall e | e in E :: e < |baseline|
  {
    set e | e in E && baseline[e].line + 1 == v
  }

  /** As many findings as entries on every line. */
  ghost predicate Balanced(issues: seq<Issue>, baseline: seq<Entry>, I: set<nat>, E: set<nat>)
    requires InRange(issues, baseline, I, E)
  {
    forall v :: |OnLine(issues, I, v)| == |AtLine(baseline, E, v)|
  }

  lemma CounterpartEntry(issues: seq<Issue>, baseline: seq<Entry>, I: set<nat>, E: set<nat>, i: nat) returns (e: nat)
    requires InRange(issues, baseline, I, E) && Balanced(issues, baseline, I, E) && i in I
    ensures e in E && baseline[e].line + 1 == ReportedLine(issues[i])
  {
    var v := ReportedLine(issues[i]);
    assert i in OnLine(issues, I, v);
    assert |AtLine(baseline, E, v)| > 0;
    e :| e in AtLine(baseline, E, v);
  }

  lemma CounterpartFinding(issues: seq<Issue>, baseline: seq<Entry>, I: set<nat>, E: set<nat>, e: nat) returns (i: nat)
    requires InRange(issues, baseline, I, E) && Balanced(issues, baseline, I, E) && e in E
    ensures i in I && baseline[e].line + 1 == ReportedLine(issues[i])
  {
    var v := baseline[e].line + 1;
    assert e in AtLine(baseline, E, v);
    assert |OnLine(issues, I, v)| > 0;
    i :| i in OnLine(issues, I, v);
  }

  /** With as many findings as entries on every line, the nearest pair is on one line. */
  lemma NearestSameLine(issues: seq<Issue>, baseline: seq<Entry>, I: set<nat>, E: set<nat>, i: nat, e: nat)
    requires InRange(issues, baseline, I, E) && Balanced(issues, baseline, I, E) && i in I && e in E
    requires forall j, f | j in I && f in E :: Distance(issues, baseline, i, e) <= Distance(issues, baseline, j, f)
    ensures baseline[e].line + 1 == ReportedLine(issues[i])
  {
    hide Balanced;
    var j := CounterpartFinding(issues, baseline, I, E, e);
    if FirstLocation(issues[i]).line >= 1 {
      var f := CounterpartEntry(issues, baseline, I, E, i);
      assert Distance(issues, baseline, i, f) == 0;
    } else if FirstLocation(issues[j]).line >= 1 {
      assert Distance(issues, baseline, j, e) == 0;
    }
  }

  lemma BalancedWithout(issues: seq<Issue>, baseline: seq<Entry>, I: set<nat>, E: set<nat>, i: nat, e: nat)
    requires InRange(issues, baseline, I, E) && Balanced(issues, baseline, I, E) && i in I && e in E
    requires baseline[e].line + 1 == ReportedLine(issues[i])
    ensures Balanced(issues, baseline, I - {i}, E - {e})
  {
    forall v ensures |OnLine(issues, I - {i}, v)| == |AtLine(baseline, E - {e}, v)| {
      assert OnLine(issues, I - {i}, v) == OnLine(issues, I, v) - {i};
      assert AtLine(baseline, E - {e}, v) == AtLine(baseline, E, v) - {e};
    }
  }

  /** So a greedy pairing of them keeps to one line throughout. */
  lemma {:induction false} PairsSameLine(issues: seq<Issue>, baseline: seq<Entry>, I: set<nat>, E: set<nat>, pairs: seq<Pair>)
    requires InRange(issues, baseline, I, E) && Greedy(issues, baseline, I, E, pairs) && Balanced(issues, baseline, I, E)
    ensures Balanced(issues, baseline, I - Firsts(pairs), E - Seconds(pairs))
    ensures forall p | p in pairs :: p.0 in I && p.1 in E && baseline[p.1].line + 1 == ReportedLine(issues[p.0])
  {
    hide Distance, Balanced, ReportedLine, Greedy;
    if pairs == [] {
      assert I - Firsts(pairs) == I && E - Seconds(pairs) == E;
    } else {
      var n := |pairs| - 1;
      var front, p := pairs[..n], pairs[n];
      GreedyFront(issues, baseline, I, E, pairs);
      PairsSameLine(issues, baseline, I, E, front);
      LastIsNearest(issues, baseline, I, E, pairs);
      NearestSameLine(issues, baseline, I - Firsts(front), E - Seconds(front), p.0, p.1);
      BalancedWithout(issues, baseline, I - Firsts(front), E - Seconds(front), p.0, p.1);
      assert pairs == front + [p];
      TakenOneMore(front, p);
      assert I - Firsts(pairs) == I - Firsts(front) - {p.0} && E - Seconds(pairs) == E - Seconds(front) - {p.1};
    }
  }

  lemma LastIsNearest(issues: seq<Issue>, baseline: seq<Entry>, I: set<nat>, E: set<nat>, pairs: seq<Pair>)
    requires InRange(issues, baseline, I, E) && Greedy(issues, baseline, I, E, pairs) && pairs != []
    ensures var front, p := pairs[..|pairs| - 1], pairs[|pairs| - 1];
            && p.0 in I - Firsts(front) && p.1 in E - Seconds(front)
            && forall j, f | j in I - Firsts(front) && f in E - Seconds(front) ::
                 Distance(issues, baseline, p.0, p.1) <= Distance(issues, baseline, j, f)
  {
    hide Distance;
    assert Nearest(issues, baseline, I, E, pairs[..|pairs| - 1], pairs[|pairs| - 1]);
  }
}
