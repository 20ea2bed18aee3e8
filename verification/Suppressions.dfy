/** Taking a baseline's findings out of a lint run. */
module Suppressions {
  import opened Ordering
  import opened Findings
  import opened Pairing

  // ----- flags

  function Marked(flags: seq<bool>, s: set<nat>): seq<bool>
  {
    seq(|flags|, i requires 0 <= i < |flags| => flags[i] || i in s)
  }

  function CountTrue(flags: seq<bool>): nat
  {
    if flags == [] then 0 else CountTrue(flags[..|flags| - 1]) + if flags[|flags| - 1] then 1 else 0
  }

  lemma {:induction false} CountOneMore(flags: seq<bool>, i: nat)
    requires i < |flags| && !flags[i]
    ensures CountTrue(flags[i := true]) == CountTrue(flags) + 1
  {
    var n := |flags| - 1;
    if i < n {
      CountOneMore(flags[..n], i);
      assert flags[i := true][..n] == flags[..n][i := true];
    } else {
      assert flags[i := true][..n] == flags[..n];
    }
  }

  /** The elements whose flag is not set, in order. */
  function Drop<T>(xs: seq<T>, flags: seq<bool>): seq<T>
    requires |xs| == |flags|
  {
    if xs == [] then []
    else
      var n := |xs| - 1;
      Drop(xs[..n], flags[..n]) + if flags[n] then [] else [xs[n]]
  }

  lemma {:induction false} DropCounts<T>(xs: seq<T>, flags: seq<bool>)
    requires |xs| == |flags|
    ensures CountTrue(flags) + |Drop(xs, flags)| == |xs|
  {
    if xs != [] {
      DropCounts(xs[..|xs| - 1], flags[..|xs| - 1]);
    }
  }

  // ----- one key

  /** What is left after dropping: the places whose flag is not set, ascending, and the elements there. */
  ghost predicate LeftAt<T>(xs: seq<T>, flags: seq<bool>, places: seq<nat>, out: seq<T>)
    requires |xs| == |flags|
  {
    && Ascending(places) && |places| == |out|
    && (forall i: nat :: i in places <==> i < |flags| && !flags[i])
    && forall k | 0 <= k < |places| :: places[k] < |xs| && out[k] == xs[places[k]]
  }

  lemma OneMoreLeft<T>(xs: seq<T>, flags: seq<bool>, places: seq<nat>, out: seq<T>, x: T, flag: bool)
    requires |xs| == |flags| && LeftAt(xs, flags, places, out)
    ensures flag ==> LeftAt(xs + [x], flags + [flag], places, out)
    ensures !flag ==> LeftAt(xs + [x], flags + [flag], places + [|xs|], out + [x])
  {
    AscendingMore(places, |xs|);
    assert forall k | 0 <= k < |places| :: places[k] in places;
  }

  lemma NothingLeft<T>(xs: seq<T>, flags: seq<bool>)
    requires |xs| == |flags| == 0
    ensures LeftAt(xs, flags, [], Drop(xs, flags))
  {
  }

  lemma DropLast<T>(xs: seq<T>, flags: seq<bool>)
    requires |xs| == |flags| > 0
    ensures var n := |xs| - 1; Drop(xs, flags) == if flags[n] then Drop(xs[..n], flags[..n]) else Drop(xs[..n], flags[..n]) + [xs[n]]
  {
  }

  /** What is dropped is exactly what is flagged; the rest stays, each once, in order. */
  lemma LeftMeans<T>(xs: seq<T>, flags: seq<bool>) returns (places: seq<nat>)
    requires |xs| == |flags|
    ensures |places| == |Drop(xs, flags)| && forall j, k | 0 <= j < k < |places| :: places[j] < places[k]
    ensures forall i: nat :: i in places <==> i < |flags| && !flags[i]
    ensures forall k | 0 <= k < |places| :: places[k] < |xs| && Drop(xs, flags)[k] == xs[places[k]]
  {
    hide Drop;
    places := DropPlaces(xs, flags);
  }

  lemma {:induction false} DropPlaces<T>(xs: seq<T>, flags: seq<bool>) returns (places: seq<nat>)
    requires |xs| == |flags|
    ensures LeftAt(xs, flags, places, Drop(xs, flags))
  {
    hide LeftAt, Drop;
    if |xs| == 0 {
      places := [];
      NothingLeft(xs, flags);
    } else {
      var n := |xs| - 1;
      var front, before := xs[..n], flags[..n];
      var rest := DropPlaces(front, before);
      OneMoreLeft(front, before, rest, Drop(front, before), xs[n], flags[n]);
      DropLast(xs, flags);
      assert xs == front + [xs[n]] && flags == before + [flags[n]];
      places := if flags[n] then rest else rest + [n];
    }
  }

  ghost function FreeIn(s: seq<nat>, flags: seq<bool>): set<nat>
  {
    set i | i in s && i < |flags| && !flags[i]
  }

  /** Findings and entries of one key, by position in the run and the baseline. */
  ghost predicate Listed(issues: seq<Issue>, baseline: seq<Entry>, idx: seq<nat>, ents: seq<nat>)
  {
    && Ascending(idx) && Ascending(ents)
    && (forall x | 0 <= x < |idx| :: idx[x] < |issues|)
    && (forall y | 0 <= y < |ents| :: ents[y] < |baseline|)
  }

  /** Where the best pair so far sits in the two lists, if there is one. */
  datatype Best = NoPair | At(x: nat, y: nat)

  /** b is free, was scanned, and is preferable to every free pair scanned: those of the
      first a findings, and of finding a with the first c entries. */
  ghost predicate BestSoFar(issues: seq<Issue>, baseline: seq<Entry>, idx: seq<nat>, ents: seq<nat>,
                            known: seq<bool>, used: seq<bool>, a: nat, c: nat, b: Best)
    requires Listed(issues, baseline, idx, ents) && |known| == |issues| && |used| == |baseline|
  {
    && (b.At? ==> b.x < |idx| && b.y < |ents| && (b.x < a || (b.x == a && b.y < c)) && !known[idx[b.x]] && !used[ents[b.y]])
    && (forall x, y | 0 <= x < |idx| && 0 <= y < |ents| && (x < a || (x == a && y < c)) && !known[idx[x]] && !used[ents[y]] ::
          b.At? && Prefer(issues, baseline, (idx[b.x], ents[b.y]), (idx[x], ents[y])))
  }

  lemma Consider(issues: seq<Issue>, baseline: seq<Entry>, idx: seq<nat>, ents: seq<nat>,
                 known: seq<bool>, used: seq<bool>, a: nat, c: nat, b: Best)
    requires Listed(issues, baseline, idx, ents) && |known| == |issues| && |used| == |baseline|
    requires a < |idx| && c < |ents| && BestSoFar(issues, baseline, idx, ents, known, used, a, c, b)
    ensures BestSoFar(issues, baseline, idx, ents, known, used, a, c + 1,
                      if known[idx[a]] || used[ents[c]] then b
                      else if b.NoPair? || Distance(issues, baseline, idx[a], ents[c]) < Distance(issues, baseline, idx[b.x], ents[b.y])
                      then At(a, c) else b)
  {
    hide Distance;
  }

  lemma NextFinding(issues: seq<Issue>, baseline: seq<Entry>, idx: seq<nat>, ents: seq<nat>,
                    known: seq<bool>, used: seq<bool>, a: nat, c: nat, b: Best)
    requires Listed(issues, baseline, idx, ents) && |known| == |issues| && |used| == |baseline|
    requires a < |idx| && BestSoFar(issues, baseline, idx, ents, known, used, a, c, b) && (c == |ents| || known[idx[a]])
    ensures BestSoFar(issues, baseline, idx, ents, known, used, a + 1, 0, b)
  {
    hide Distance, Prefer;
  }

  lemma ScanDone(issues: seq<Issue>, baseline: seq<Entry>, idx: seq<nat>, ents: seq<nat>,
                 known: seq<bool>, used: seq<bool>, I: set<nat>, E: set<nat>, pairs: seq<Pair>, b: Best)
    requires Listed(issues, baseline, idx, ents) && |known| == |issues| && |used| == |baseline| && InRange(issues, baseline, I, E)
    requires BestSoFar(issues, baseline, idx, ents, known, used, |idx|, 0, b)
    requires FreeIn(idx, known) == I - Firsts(pairs) && FreeIn(ents, used) == E - Seconds(pairs)
    ensures b.NoPair? ==> Exhausted(I, E, pairs)
    ensures b.At? ==> Nearest(issues, baseline, I, E, pairs, (idx[b.x], ents[b.y]))
  {
    hide Distance, Prefer;
    if b.At? {
      assert idx[b.x] in FreeIn(idx, known) && ents[b.y] in FreeIn(ents, used);
    }
    forall i, e | i in I - Firsts(pairs) && e in E - Seconds(pairs)
      ensures b.At? && Prefer(issues, baseline, (idx[b.x], ents[b.y]), (i, e))
    {
      Scanned(issues, baseline, idx, ents, known, used, b, i, e);
    }
    EmptyRest(I, Firsts(pairs));
    EmptyRest(E, Seconds(pairs));
  }

  lemma Scanned(issues: seq<Issue>, baseline: seq<Entry>, idx: seq<nat>, ents: seq<nat>,
                known: seq<bool>, used: seq<bool>, b: Best, i: nat, e: nat)
    requires Listed(issues, baseline, idx, ents) && |known| == |issues| && |used| == |baseline|
    requires BestSoFar(issues, baseline, idx, ents, known, used, |idx|, 0, b)
    requires i in FreeIn(idx, known) && e in FreeIn(ents, used)
    ensures b.At? && Prefer(issues, baseline, (idx[b.x], ents[b.y]), (i, e))
  {
    hide Distance, Prefer;
    var x :| 0 <= x < |idx| && idx[x] == i;
    var y :| 0 <= y < |ents| && ents[y] == e;
  }

  lemma EmptyRest(a: set<nat>, b: set<nat>)
    ensures a - b == {} ==> a <= b
  {
    forall x | x in a ensures x in a - b || x in b {
    }
  }

  /** The free pair with the closest lines, first in list order on a tie. */
  method FindNearest(issues: seq<Issue>, idx: seq<nat>, baseline: seq<Entry>, ents: seq<nat>,
                     known: array<bool>, used: array<bool>)
    returns (bestIssue: int, bestEntry: int, ghost b: Best)
    requires Listed(issues, baseline, idx, ents) && known.Length == |issues| && used.Length == |baseline|
    ensures BestSoFar(issues, baseline, idx, ents, known[..], used[..], |idx|, 0, b)
    ensures b.NoPair? <==> bestIssue < 0
    ensures b.At? ==> b.x < |idx| && b.y < |ents| && bestIssue == idx[b.x] && bestEntry == ents[b.y]
    ensures bestIssue >= 0 ==> bestIssue in idx && bestEntry in ents && !known[bestIssue] && !used[bestEntry]
    ensures forall i, e | i in idx && e in ents && !known[i] && !used[e] ::
              bestIssue >= 0 && Distance(issues, baseline, bestIssue, bestEntry) <= Distance(issues, baseline, i, e)
  {
    hide BestSoFar, Distance;
    var bestDist := 0;
    bestIssue, bestEntry, b := -1, -1, NoPair;
    assert BestSoFar(issues, baseline, idx, ents, known[..], used[..], 0, 0, b) by {
      NothingScanned(issues, baseline, idx, ents, known[..], used[..]);
    }
    for a := 0 to |idx|
      invariant BestSoFar(issues, baseline, idx, ents, known[..], used[..], a, 0, b)
      invariant Holding(issues, baseline, idx, ents, bestIssue, bestEntry, bestDist, b)
    {
      var i := idx[a];
      if known[i] {
        NextFinding(issues, baseline, idx, ents, known[..], used[..], a, 0, b);
        continue;
      }
      for c := 0 to |ents|
        invariant BestSoFar(issues, baseline, idx, ents, known[..], used[..], a, c, b)
        invariant Holding(issues, baseline, idx, ents, bestIssue, bestEntry, bestDist, b)
      {
        Consider(issues, baseline, idx, ents, known[..], used[..], a, c, b);
        var e := ents[c];
        if used[e] {
          continue;
        }
        var d := Distance(issues, baseline, i, e);
        if bestIssue < 0 || d < bestDist {
          bestIssue, bestEntry, bestDist, b := i, e, d, At(a, c);
        }
      }
      NextFinding(issues, baseline, idx, ents, known[..], used[..], a, |ents|, b);
    }
    NearestOfAll(issues, baseline, idx, ents, known[..], used[..], bestIssue, bestEntry, b);
  }

  /** A complete scan has found a free pair if there is one, and none is closer. */
  lemma NearestOfAll(issues: seq<Issue>, baseline: seq<Entry>, idx: seq<nat>, ents: seq<nat>,
                     known: seq<bool>, used: seq<bool>, bestIssue: int, bestEntry: int, b: Best)
    requires Listed(issues, baseline, idx, ents) && |known| == |issues| && |used| == |baseline|
    requires BestSoFar(issues, baseline, idx, ents, known, used, |idx|, 0, b) && (b.NoPair? <==> bestIssue < 0)
    requires b.At? ==> b.x < |idx| && b.y < |ents| && bestIssue == idx[b.x] && bestEntry == ents[b.y]
    ensures bestIssue >= 0 ==> bestIssue in idx && bestEntry in ents && !known[bestIssue] && !used[bestEntry]
    ensures forall i, e | i in idx && e in ents && !known[i] && !used[e] ::
              bestIssue >= 0 && Distance(issues, baseline, bestIssue, bestEntry) <= Distance(issues, baseline, i, e)
  {
    hide Distance, BestSoFar;
    BestIsFreeHere(issues, baseline, idx, ents, known, used, b);
    forall i, e | i in idx && e in ents && !known[i] && !used[e]
      ensures bestIssue >= 0 && Distance(issues, baseline, bestIssue, bestEntry) <= Distance(issues, baseline, i, e)
    {
      Scanned(issues, baseline, idx, ents, known, used, b, i, e);
    }
  }

  lemma BestIsFreeHere(issues: seq<Issue>, baseline: seq<Entry>, idx: seq<nat>, ents: seq<nat>,
                       known: seq<bool>, used: seq<bool>, b: Best)
    requires Listed(issues, baseline, idx, ents) && |known| == |issues| && |used| == |baseline|
    requires BestSoFar(issues, baseline, idx, ents, known, used, |idx|, 0, b)
    ensures b.At? ==> b.x < |idx| && b.y < |ents| && !known[idx[b.x]] && !used[ents[b.y]]
  {
    hide Distance, Prefer;
  }

  ghost predicate Holding(issues: seq<Issue>, baseline: seq<Entry>, idx: seq<nat>, ents: seq<nat>,
                          bestIssue: int, bestEntry: int, bestDist: int, b: Best)
    requires Listed(issues, baseline, idx, ents)
  {
    && (b.NoPair? <==> bestIssue < 0)
    && (b.At? ==> b.x < |idx| && b.y < |ents| && bestIssue == idx[b.x] && bestEntry == ents[b.y]
                  && bestDist == Distance(issues, baseline, idx[b.x], ents[b.y]))
  }

  lemma NothingScanned(issues: seq<Issue>, baseline: seq<Entry>, idx: seq<nat>, ents: seq<nat>, known: seq<bool>, used: seq<bool>)
    requires Listed(issues, baseline, idx, ents) && |known| == |issues| && |used| == |baseline|
    ensures BestSoFar(issues, baseline, idx, ents, known, used, 0, 0, NoPair)
  {
  }

  // ----- all pairs of one key

  /** The flags, and the count, after pairs have been made. */
  ghost predicate PairedUp(issues: seq<Issue>, baseline: seq<Entry>, I: set<nat>, E: set<nat>, pairs: seq<Pair>,
                           known0: seq<bool>, used0: seq<bool>, known: seq<bool>, used: seq<bool>, n: nat)
    requires InRange(issues, baseline, I, E)
  {
    && Greedy(issues, baseline, I, E, pairs) && n == |pairs|
    && known == Marked(known0, Firsts(pairs)) && used == Marked(used0, Seconds(pairs))
    && CountTrue(known) == CountTrue(known0) + n && CountTrue(used) == CountTrue(used0) + n
  }

  lemma PairMade(issues: seq<Issue>, baseline: seq<Entry>, I: set<nat>, E: set<nat>, pairs: seq<Pair>,
                 known0: seq<bool>, used0: seq<bool>, known: seq<bool>, used: seq<bool>, n: nat, p: Pair)
    requires InRange(issues, baseline, I, E) && PairedUp(issues, baseline, I, E, pairs, known0, used0, known, used, n)
    requires |known0| == |issues| && |used0| == |baseline| && Nearest(issues, baseline, I, E, pairs, p)
    requires p.0 < |known| && p.1 < |used| && !known[p.0] && !used[p.1]
    ensures PairedUp(issues, baseline, I, E, pairs + [p], known0, used0, known[p.0 := true], used[p.1 := true], n + 1)
  {
    hide Nearest, CountTrue;
    var more := pairs + [p];
    TakenOneMore(pairs, p);
    CountOneMore(known, p.0);
    CountOneMore(used, p.1);
    forall k | 0 <= k < |more| ensures Nearest(issues, baseline, I, E, more[..k], more[k]) {
      if k < |pairs| {
        assert more[..k] == pairs[..k];
      } else {
        assert more[..k] == pairs;
      }
    }
  }

  lemma StillFree(idx: seq<nat>, flags0: seq<bool>, I: set<nat>, taken: set<nat>)
    requires I == FreeIn(idx, flags0)
    ensures FreeIn(idx, Marked(flags0, taken)) == I - taken
  {
  }

  /** Pair the findings idx with the entries ents, all of one key, closest lines first. */
  method PairNearest(issues: seq<Issue>, idx: seq<nat>, baseline: seq<Entry>, ents: seq<nat>,
                     known: array<bool>, used: array<bool>)
    returns (n: nat, ghost pairs: seq<Pair>)
    requires Listed(issues, baseline, idx, ents) && known.Length == |issues| && used.Length == |baseline| && known != used
    modifies known, used
    ensures InRange(issues, baseline, FreeIn(idx, old(known[..])), FreeIn(ents, old(used[..])))
    ensures PairedUp(issues, baseline, FreeIn(idx, old(known[..])), FreeIn(ents, old(used[..])), pairs,
                     old(known[..]), old(used[..]), known[..], used[..], n)
    ensures Exhausted(FreeIn(idx, old(known[..])), FreeIn(ents, old(used[..])), pairs)
  {
    hide BestSoFar, PairedUp, Nearest, Exhausted, Greedy, CountTrue, Firsts, Seconds;
    ghost var known0, used0 := known[..], used[..];
    ghost var I, E := FreeIn(idx, known0), FreeIn(ents, used0);
    n, pairs := 0, [];
    NoPairs(issues, baseline, I, E, known0, used0);
    while true
      invariant PairedUp(issues, baseline, I, E, pairs, known0, used0, known[..], used[..], n)
      decreases I - Firsts(pairs)
    {
      ghost var b;
      var bestIssue, bestEntry;
      bestIssue, bestEntry, b := FindNearest(issues, idx, baseline, ents, known, used);
      FlagsNow(issues, baseline, I, E, pairs, known0, used0, known[..], used[..], n, idx, ents);
      ScanDone(issues, baseline, idx, ents, known[..], used[..], I, E, pairs, b);
      if bestIssue < 0 {
        return;
      }
      ghost var p: Pair := (idx[b.x], ents[b.y]);
      BestIsFree(issues, baseline, I, E, pairs, p, idx, ents, known[..], used[..]);
      PairMade(issues, baseline, I, E, pairs, known0, used0, known[..], used[..], n, p);
      ghost var known1, used1 := known[..], used[..];
      known[bestIssue], used[bestEntry] := true, true;
      assert known[..] == known1[p.0 := true] && used[..] == used1[p.1 := true];
      TakenOneMore(pairs, p);
      pairs, n := pairs + [p], n + 1;
    }
  }

  lemma NoPairs(issues: seq<Issue>, baseline: seq<Entry>, I: set<nat>, E: set<nat>, known: seq<bool>, used: seq<bool>)
    requires InRange(issues, baseline, I, E)
    ensures PairedUp(issues, baseline, I, E, [], known, used, known, used, 0)
  {
    assert Marked(known, Firsts([])) == known && Marked(used, Seconds([])) == used;
  }

  lemma FlagsNow(issues: seq<Issue>, baseline: seq<Entry>, I: set<nat>, E: set<nat>, pairs: seq<Pair>,
                 known0: seq<bool>, used0: seq<bool>, known: seq<bool>, used: seq<bool>, n: nat, idx: seq<nat>, ents: seq<nat>)
    requires InRange(issues, baseline, I, E) && PairedUp(issues, baseline, I, E, pairs, known0, used0, known, used, n)
    requires I == FreeIn(idx, known0) && E == FreeIn(ents, used0)
    ensures FreeIn(idx, known) == I - Firsts(pairs) && FreeIn(ents, used) == E - Seconds(pairs)
  {
    StillFree(idx, known0, I, Firsts(pairs));
    StillFree(ents, used0, E, Seconds(pairs));
  }

  lemma BestIsFree(issues: seq<Issue>, baseline: seq<Entry>, I: set<nat>, E: set<nat>, pairs: seq<Pair>, p: Pair,
                   idx: seq<nat>, ents: seq<nat>, known: seq<bool>, used: seq<bool>)
    requires InRange(issues, baseline, I, E) && Nearest(issues, baseline, I, E, pairs, p)
    requires FreeIn(idx, known) == I - Firsts(pairs) && FreeIn(ents, used) == E - Seconds(pairs)
    ensures p.0 < |known| && p.1 < |used| && !known[p.0] && !used[p.1] && p.0 in I - Firsts(pairs)
  {
    assert p.0 in FreeIn(idx, known) && p.1 in FreeIn(ents, used);
  }

  // ----- the whole run

  datatype Key = Key(file: string, code: string, message: string)

  function IssueKey(clean: string -> string, issue: Issue): Key
  {
    Key(clean(FirstLocation(issue).file), issue.id, FirstLocation(issue).message)
  }

  function EntryKey(clean: string -> string, e: Entry): Key
  {
    Key(clean(e.path), e.code, e.message)
  }

  function IssueKeys(clean: string -> string, issues: seq<Issue>): seq<Key>
  {
    seq(|issues|, i requires 0 <= i < |issues| => IssueKey(clean, issues[i]))
  }

  function EntryKeys(clean: string -> string, baseline: seq<Entry>): seq<Key>
  {
    seq(|baseline|, i requires 0 <= i < |baseline| => EntryKey(clean, baseline[i]))
  }

  /** The positions of k, ascending. */
  function Positions(keys: seq<Key>, k: Key): seq<nat>
  {
    if keys == [] then []
    else
      var n := |keys| - 1;
      Positions(keys[..n], k) + if keys[n] == k then [n] else []
  }

  function Look(m: map<Key, seq<nat>>, k: Key): seq<nat>
  {
    if k in m then m[k] else []
  }

  ghost function Having<T>(keys: seq<T>, k: T): set<nat>
  {
    set i | 0 <= i < |keys| && keys[i] == k
  }

  lemma {:induction false} PositionsAre(keys: seq<Key>, k: Key)
    ensures Ascending(Positions(keys, k))
    ensures forall i: nat :: i in Positions(keys, k) <==> i < |keys| && keys[i] == k
  {
    if keys != [] {
      var n := |keys| - 1;
      var rest := Positions(keys[..n], k);
      PositionsAre(keys[..n], k);
      assert forall x | 0 <= x < |rest| :: rest[x] in rest;
      assert Positions(keys, k) == if keys[n] == k then rest + [n] else rest;
      forall i: nat ensures i in Positions(keys, k) <==> i < |keys| && keys[i] == k {
        assert i < n ==> keys[..n][i] == keys[i];
        assert keys[n] == k ==> (i in rest + [n] <==> i in rest || i == n);
      }
    }
  }

  ghost predicate GroupedAt(keys: seq<Key>, m: map<Key, seq<nat>>, k: Key)
  {
    Look(m, k) == Positions(keys, k) && (k in m <==> k in keys)
  }

  /** m lists each key's positions. */
  ghost predicate Grouped(keys: seq<Key>, m: map<Key, seq<nat>>)
  {
    forall k :: GroupedAt(keys, m, k)
  }

  lemma GroupStep(keys: seq<Key>, i: nat, m: map<Key, seq<nat>>)
    requires i < |keys| && Grouped(keys[..i], m)
    ensures Grouped(keys[..i + 1], m[keys[i] := Look(m, keys[i]) + [i]])
  {
    hide GroupedAt;
    var more, n := keys[..i + 1], m[keys[i] := Look(m, keys[i]) + [i]];
    forall k ensures GroupedAt(more, n, k) {
      GroupStepAt(keys, i, m, k);
    }
  }

  lemma GroupStepAt(keys: seq<Key>, i: nat, m: map<Key, seq<nat>>, k: Key)
    requires i < |keys| && GroupedAt(keys[..i], m, k)
    ensures GroupedAt(keys[..i + 1], m[keys[i] := Look(m, keys[i]) + [i]], k)
  {
    hide Positions;
    OneMorePosition(keys, i, k);
    assert keys[..i + 1] == keys[..i] + [keys[i]];
  }

  lemma GroupedIs(keys: seq<Key>, m: map<Key, seq<nat>>)
    requires Grouped(keys, m)
    ensures forall k :: Look(m, k) == Positions(keys, k)
    ensures forall k :: k in m <==> k in keys
  {
    hide Positions;
    forall k ensures Look(m, k) == Positions(keys, k) && (k in m <==> k in keys) {
      assert GroupedAt(keys, m, k);
    }
  }

  lemma OneMorePosition(keys: seq<Key>, i: nat, k: Key)
    requires i < |keys|
    ensures Positions(keys[..i + 1], k) == Positions(keys[..i], k) + if keys[i] == k then [i] else []
  {
    assert keys[..i + 1][..i] == keys[..i];
  }

  method Group(keys: seq<Key>) returns (m: map<Key, seq<nat>>)
    ensures forall k :: Look(m, k) == Positions(keys, k)
    ensures forall k :: k in m <==> k in keys
  {
    m := map[];
    assert Grouped(keys[..0], m);
    hide Positions;
    for i := 0 to |keys|
      invariant Grouped(keys[..i], m)
    {
      hide Grouped;
      GroupStep(keys, i, m);
      m := m[keys[i] := Look(m, keys[i]) + [i]];
    }
    assert Grouped(keys, m) by {
      assert keys[..|keys|] == keys;
    }
    GroupedIs(keys, m);
  }

  /** Each key in pairing has its findings and entries paired greedily until one side runs out. */
  ghost predicate Settled(clean: string -> string, issues: seq<Issue>, baseline: seq<Entry>, pairing: map<Key, seq<Pair>>)
  {
    forall k | k in pairing :: SettledAt(clean, issues, baseline, k, pairing[k])
  }

  ghost predicate SettledAt(clean: string -> string, issues: seq<Issue>, baseline: seq<Entry>, k: Key, pairs: seq<Pair>)
  {
    var I, E := Having(IssueKeys(clean, issues), k), Having(EntryKeys(clean, baseline), k);
    Greedy(issues, baseline, I, E, pairs) && Exhausted(I, E, pairs)
  }

  function KnownFlags(keys: seq<Key>, pairing: map<Key, seq<Pair>>): seq<bool>
  {
    seq(|keys|, i requires 0 <= i < |keys| => keys[i] in pairing && i in Firsts(pairing[keys[i]]))
  }

  function UsedFlags(keys: seq<Key>, pairing: map<Key, seq<Pair>>): seq<bool>
  {
    seq(|keys|, i requires 0 <= i < |keys| => keys[i] in pairing && i in Seconds(pairing[keys[i]]))
  }

  predicate EntryBefore(a: Entry, b: Entry)
  {
    if a.path != b.path then Before(a.path, b.path) else a.line < b.line
  }

  /** The entries whose flag is not set, in order of path and line. */
  method SortedUnused(baseline: seq<Entry>, used: array<bool>) returns (stale: seq<Entry>)
    requires used.Length == |baseline|
    ensures Sorted(EntryBefore, stale) && multiset(stale) == multiset(Drop(baseline, used[..]))
  {
    stale := [];
    for i := 0 to |baseline|
      invariant stale == Drop(baseline[..i], used[..i])
    {
      assert baseline[..i + 1][..i] == baseline[..i] && used[..i + 1][..i] == used[..i];
      if !used[i] {
        stale := stale + [baseline[i]];
      }
    }
    assert baseline[..|baseline|] == baseline && used[..used.Length] == used[..];
    StaleSorted(stale);
    stale := Sort(EntryBefore, stale);
  }

  /** Pair the findings and entries of each key, in whatever order the keys come. */
  method PairAll(issues: seq<Issue>, baseline: seq<Entry>, clean: string -> string, known: array<bool>, used: array<bool>)
    returns (matched: nat, ghost pairing: map<Key, seq<Pair>>)
    requires known.Length == |issues| && used.Length == |baseline| && known != used
    requires (forall i | 0 <= i < |issues| :: !known[i]) && forall e | 0 <= e < |baseline| :: !used[e]
    modifies known, used
    ensures SettledSoFar(clean, issues, baseline, pairing, known[..], used[..], matched)
    ensures forall k :: k in pairing <==> k in IssueKeys(clean, issues)
  {
    hide Settled, KnownFlags, UsedFlags, CountTrue, Positions, SettledSoFar;
    var entries := Group(EntryKeys(clean, baseline));
    var groups := Group(IssueKeys(clean, issues));
    matched, pairing := 0, map[];
    NothingSettled(clean, issues, baseline, known[..], used[..]);
    var todo := groups.Keys;
    while todo != {}
      invariant pairing.Keys == groups.Keys - todo && todo <= groups.Keys
      invariant SettledSoFar(clean, issues, baseline, pairing, known[..], used[..], matched)
      decreases todo
    {
      var k :| k in todo;
      ReadyToPair(clean, issues, baseline, pairing, known[..], used[..], matched, k);
      ghost var known0, used0 := known[..], used[..];
      var n;
      ghost var pairs;
      n, pairs := PairNearest(issues, groups[k], baseline, Look(entries, k), known, used);
      KeySettled(clean, issues, baseline, pairing, known0, used0, known[..], used[..], matched, k, pairs, n);
      matched, todo, pairing := matched + n, todo - {k}, pairing[k := pairs];
    }
  }

  lemma DropNext(xs: seq<Issue>, flags: seq<bool>, i: nat)
    requires |xs| == |flags| && i < |xs|
    ensures Drop(xs[..i + 1], flags[..i + 1]) == Drop(xs[..i], flags[..i]) + if flags[i] then [] else [xs[i]]
  {
    assert xs[..i + 1][..i] == xs[..i] && flags[..i + 1][..i] == flags[..i];
  }

  lemma DropNone(xs: seq<Issue>, flags: seq<bool>)
    requires |xs| == |flags|
    ensures Drop(xs[..0], flags[..0]) == []
  {
  }

  /** A run's issues: the first count slots of an array that Subtract compacts in place. */
  class Run {
    var slots: array<Issue>
    var count: nat

    ghost predicate Valid()
      reads this
    {
      count <= slots.Length
    }

    ghost function Issues(): seq<Issue>
      reads this, slots
      requires Valid()
    {
      slots[..count]
    }

    /** Move the issues not flagged to the front, in order, and forget the rest. */
    method Compact(known: array<bool>)
      requires Valid() && known.Length == count
      modifies this`count, slots
      ensures Valid() && known[..] == old(known[..]) && Issues() == Drop(old(Issues()), old(known[..]))
    {
      hide Drop;
      ghost var issues := slots[..count];
      var kept := 0;
      DropNone(issues, known[..]);
      for i := 0 to count
        invariant kept <= i && count == old(count) && slots == old(slots)
        invariant slots[..kept] == Drop(issues[..i], known[..i])
        invariant forall j | i <= j < count :: slots[j] == issues[j]
      {
        DropNext(issues, known[..], i);
        assert known[..][..i] == known[..i] && known[..][..i + 1] == known[..i + 1];
        ghost var front := slots[..kept];
        if !known[i] {
          slots[kept] := slots[i];
          kept := kept + 1;
          assert slots[..kept] == front + [issues[i]];
        }
      }
      assert issues[..|issues|] == issues && known[..known.Length] == known[..];
      count := kept;
    }

    /** Remove what the baseline lists; return how many, and the entries nothing was found for. */
    method Subtract(baseline: seq<Entry>, clean: string -> string)
      returns (matched: nat, stale: seq<Entry>, ghost pairing: map<Key, seq<Pair>>)
      requires Valid()
      modifies this`count, slots
      ensures Valid()
      ensures Settled(clean, old(Issues()), baseline, pairing)
      ensures forall k :: k in pairing <==> k in IssueKeys(clean, old(Issues()))
      ensures Issues() == Drop(old(Issues()), KnownFlags(IssueKeys(clean, old(Issues())), pairing))
      ensures Sorted(EntryBefore, stale)
      ensures multiset(stale) == multiset(Drop(baseline, UsedFlags(EntryKeys(clean, baseline), pairing)))
      ensures matched + |Issues()| == |old(Issues())|
      ensures matched + |stale| == |baseline|
    {
      hide Settled, KnownFlags, UsedFlags, CountTrue, Sorted, SettledSoFar, IssueKeys, EntryKeys, Drop;
      ghost var issues := slots[..count];
      var known := new bool[count](i => false);
      var used := new bool[|baseline|](i => false);
      matched, pairing := PairAll(slots[..count], baseline, clean, known, used);
      AllSettled(clean, issues, baseline, pairing, known[..], used[..], matched);
      Compact(known);
      stale := SortedUnused(baseline, used);
      DropCounts(issues, known[..]);
      DropCounts(baseline, used[..]);
      assert |multiset(stale)| == |multiset(Drop(baseline, used[..]))|;
    }
  }

  // ----- the invariant over keys

  ghost predicate SettledSoFar(clean: string -> string, issues: seq<Issue>, baseline: seq<Entry>, pairing: map<Key, seq<Pair>>,
                               known: seq<bool>, used: seq<bool>, matched: nat)
  {
    && Settled(clean, issues, baseline, pairing)
    && known == KnownFlags(IssueKeys(clean, issues), pairing)
    && used == UsedFlags(EntryKeys(clean, baseline), pairing)
    && CountTrue(known) == CountTrue(used) == matched
  }

  lemma {:induction false} CountNone(flags: seq<bool>)
    requires forall i | 0 <= i < |flags| :: !flags[i]
    ensures CountTrue(flags) == 0
  {
    if flags != [] {
      CountNone(flags[..|flags| - 1]);
    }
  }

  lemma NothingSettled(clean: string -> string, issues: seq<Issue>, baseline: seq<Entry>, known: seq<bool>, used: seq<bool>)
    requires |known| == |issues| && |used| == |baseline|
    requires (forall i | 0 <= i < |known| :: !known[i]) && (forall e | 0 <= e < |used| :: !used[e])
    ensures SettledSoFar(clean, issues, baseline, map[], known, used, 0)
  {
    CountNone(known);
    CountNone(used);
    assert known == KnownFlags(IssueKeys(clean, issues), map[]);
    assert used == UsedFlags(EntryKeys(clean, baseline), map[]);
  }

  lemma ReadyToPair(clean: string -> string, issues: seq<Issue>, baseline: seq<Entry>, pairing: map<Key, seq<Pair>>,
                    known: seq<bool>, used: seq<bool>, matched: nat, k: Key)
    requires SettledSoFar(clean, issues, baseline, pairing, known, used, matched) && k !in pairing
    ensures Listed(issues, baseline, Positions(IssueKeys(clean, issues), k), Positions(EntryKeys(clean, baseline), k))
    ensures FreeIn(Positions(IssueKeys(clean, issues), k), known) == Having(IssueKeys(clean, issues), k)
    ensures FreeIn(Positions(EntryKeys(clean, baseline), k), used) == Having(EntryKeys(clean, baseline), k)
  {
    hide Positions, Settled, CountTrue;
    PositionsAre(IssueKeys(clean, issues), k);
    PositionsAre(EntryKeys(clean, baseline), k);
    InList(Positions(IssueKeys(clean, issues), k), |issues|);
    InList(Positions(EntryKeys(clean, baseline), k), |baseline|);
  }

  lemma InList(s: seq<nat>, n: nat)
    requires forall i | i in s :: i < n
    ensures forall x | 0 <= x < |s| :: s[x] < n
  {
    assert forall x | 0 <= x < |s| :: s[x] in s;
  }

  lemma FlagsStep(keys: seq<Key>, pairing: map<Key, seq<Pair>>, k: Key, pairs: seq<Pair>)
    requires k !in pairing
    ensures Firsts(pairs) <= Having(keys, k) ==>
              Marked(KnownFlags(keys, pairing), Firsts(pairs)) == KnownFlags(keys, pairing[k := pairs])
    ensures Seconds(pairs) <= Having(keys, k) ==>
              Marked(UsedFlags(keys, pairing), Seconds(pairs)) == UsedFlags(keys, pairing[k := pairs])
  {
    hide Firsts, Seconds;
  }

  lemma KeySettled(clean: string -> string, issues: seq<Issue>, baseline: seq<Entry>, pairing: map<Key, seq<Pair>>,
                   known0: seq<bool>, used0: seq<bool>, known: seq<bool>, used: seq<bool>, matched: nat,
                   k: Key, pairs: seq<Pair>, n: nat)
    requires SettledSoFar(clean, issues, baseline, pairing, known0, used0, matched) && k !in pairing
    requires PairedUp(issues, baseline, Having(IssueKeys(clean, issues), k), Having(EntryKeys(clean, baseline), k), pairs,
                      known0, used0, known, used, n)
    requires Exhausted(Having(IssueKeys(clean, issues), k), Having(EntryKeys(clean, baseline), k), pairs)
    ensures SettledSoFar(clean, issues, baseline, pairing[k := pairs], known, used, matched + n)
  {
    hide CountTrue, KnownFlags, UsedFlags, Marked, Greedy, Exhausted;
    PairsTaken(issues, baseline, Having(IssueKeys(clean, issues), k), Having(EntryKeys(clean, baseline), k), pairs);
    FlagsStep(IssueKeys(clean, issues), pairing, k, pairs);
    FlagsStep(EntryKeys(clean, baseline), pairing, k, pairs);
  }

  lemma AllSettled(clean: string -> string, issues: seq<Issue>, baseline: seq<Entry>, pairing: map<Key, seq<Pair>>,
                   known: seq<bool>, used: seq<bool>, matched: nat)
    requires SettledSoFar(clean, issues, baseline, pairing, known, used, matched)
    ensures Settled(clean, issues, baseline, pairing)
    ensures known == KnownFlags(IssueKeys(clean, issues), pairing) && used == UsedFlags(EntryKeys(clean, baseline), pairing)
    ensures CountTrue(known) == CountTrue(used) == matched
  {
    hide Settled;
  }

  // ----- what a settled run guarantees

  /** However the keys were visited, the pairing is the same, so what is kept and what is stale is too. */
  lemma SubtractDetermined(clean: string -> string, issues: seq<Issue>, baseline: seq<Entry>, a: map<Key, seq<Pair>>, b: map<Key, seq<Pair>>)
    requires Settled(clean, issues, baseline, a) && Settled(clean, issues, baseline, b) && a.Keys == b.Keys
    ensures a == b
  {
    hide Greedy, Exhausted;
    forall k | k in a ensures a[k] == b[k] {
      assert SettledAt(clean, issues, baseline, k, a[k]) && SettledAt(clean, issues, baseline, k, b[k]);
      PairingUnique(issues, baseline, Having(IssueKeys(clean, issues), k), Having(EntryKeys(clean, baseline), k), a[k], b[k]);
    }
  }

  /** Each key matches as many findings as the fewer of its findings and its entries, and never
      passes over a finding and an entry nearer to each other than to what they were paired with. */
  lemma KeyMatches(clean: string -> string, issues: seq<Issue>, baseline: seq<Entry>, pairing: map<Key, seq<Pair>>, k: Key, i: nat, e: nat)
    requires Settled(clean, issues, baseline, pairing) && k in pairing
    ensures var f, l := |Having(IssueKeys(clean, issues), k)|, |Having(EntryKeys(clean, baseline), k)|;
            |pairing[k]| == if f <= l then f else l
    ensures i < |issues| && e < |baseline| && IssueKey(clean, issues[i]) == k == EntryKey(clean, baseline[e]) ==>
              exists p :: p in pairing[k] && p.0 < |issues| && p.1 < |baseline| && (p.0 == i || p.1 == e)
                          && Distance(issues, baseline, p.0, p.1) <= Distance(issues, baseline, i, e)
  {
    hide Greedy, Exhausted, Distance;
    assert SettledAt(clean, issues, baseline, k, pairing[k]);
    var I, E := Having(IssueKeys(clean, issues), k), Having(EntryKeys(clean, baseline), k);
    PairCount(issues, baseline, I, E, pairing[k]);
    if i < |issues| && e < |baseline| && IssueKey(clean, issues[i]) == k == EntryKey(clean, baseline[e]) {
      Stable(issues, baseline, I, E, pairing[k], i, e);
      var j :| 0 <= j < |pairing[k]| && (pairing[k][j].0 == i || pairing[k][j].1 == e)
               && pairing[k][j].0 in I && pairing[k][j].1 in E
               && Distance(issues, baseline, pairing[k][j].0, pairing[k][j].1) <= Distance(issues, baseline, i, e);
      assert pairing[k][j] in pairing[k];
    }
  }

  /** A pair is a finding and an entry of one file, rule and message. */
  lemma PairsMatch(clean: string -> string, issues: seq<Issue>, baseline: seq<Entry>, pairing: map<Key, seq<Pair>>, k: Key, p: Pair)
    requires Settled(clean, issues, baseline, pairing) && k in pairing && p in pairing[k]
    ensures p.0 < |issues| && p.1 < |baseline|
    ensures |issues[p.0].locations| > 0 ==>
              var loc := issues[p.0].locations[0];
              clean(loc.file) == clean(baseline[p.1].path) && loc.message == baseline[p.1].message
    ensures issues[p.0].id == baseline[p.1].code
    ensures KnownFlags(IssueKeys(clean, issues), pairing)[p.0] && UsedFlags(EntryKeys(clean, baseline), pairing)[p.1]
  {
    hide Greedy, Exhausted;
    assert SettledAt(clean, issues, baseline, k, pairing[k]);
    var I, E := Having(IssueKeys(clean, issues), k), Having(EntryKeys(clean, baseline), k);
    PairsTaken(issues, baseline, I, E, pairing[k]);
    assert p.0 in Firsts(pairing[k]) && p.1 in Seconds(pairing[k]);
    assert IssueKeys(clean, issues)[p.0] == k && EntryKeys(clean, baseline)[p.1] == k;
  }

  /** A finding and an entry that are both left over differ in file, rule or message. */
  lemma LeftoversDiffer(clean: string -> string, issues: seq<Issue>, baseline: seq<Entry>, pairing: map<Key, seq<Pair>>, i: nat, e: nat)
    requires Settled(clean, issues, baseline, pairing) && forall k :: k in pairing <==> k in IssueKeys(clean, issues)
    requires i < |issues| && e < |baseline| && |issues[i].locations| > 0
    requires !KnownFlags(IssueKeys(clean, issues), pairing)[i] && !UsedFlags(EntryKeys(clean, baseline), pairing)[e]
    ensures var loc := issues[i].locations[0];
            clean(loc.file) != clean(baseline[e].path) || issues[i].id != baseline[e].code || loc.message != baseline[e].message
  {
    hide Greedy;
    var k := IssueKey(clean, issues[i]);
    assert IssueKeys(clean, issues)[i] == k;
    assert SettledAt(clean, issues, baseline, k, pairing[k]);
    assert i in Having(IssueKeys(clean, issues), k);
  }

  /** The stale entries come sorted by path and line, and are those no finding was paired with. */
  lemma StaleSorted(entries: seq<Entry>)
    ensures Sorted(EntryBefore, Sort(EntryBefore, entries)) && multiset(Sort(EntryBefore, entries)) == multiset(entries)
    ensures var s := Sort(EntryBefore, entries);
            forall i, j | 0 <= i < j < |s| :: !Before(s[j].path, s[i].path) && (s[i].path == s[j].path ==> s[i].line <= s[j].line)
  {
    BeforeIsStrict();
    assert Weak(EntryBefore) by {
      forall x, y | EntryBefore(x, y) ensures !EntryBefore(y, x) { BeforeTotal(x.path, y.path); }
      forall x, y, z | !EntryBefore(y, x) && !EntryBefore(z, y) ensures !EntryBefore(z, x) {
        BeforeTotal(x.path, y.path);
        BeforeTotal(y.path, z.path);
        if x.path != y.path && y.path != z.path {
          BeforeTrans(x.path, y.path, z.path);
          BeforeTotal(x.path, z.path);
        }
      }
    }
    SortSorts(EntryBefore, entries);
    SortElements(EntryBefore, entries);
    var s := Sort(EntryBefore, entries);
    forall i, j | 0 <= i < j < |s| ensures !Before(s[j].path, s[i].path) && (s[i].path == s[j].path ==> s[i].line <= s[j].line) {
      assert !EntryBefore(s[j], s[i]);
      BeforeTotal(s[i].path, s[j].path);
    }
  }
}
