/** Byte-wise string order, and sorting as the program uses it: the result is a
    sorted rearrangement, and a strict order leaves only one. */
module Ordering {

  function LowerChar(c: char): char
  {
    if 'A' <= c <= 'Z' then (c as int + 32) as char else c
  }

  function Lower(s: string): string
  {
    seq(|s|, i requires 0 <= i < |s| => LowerChar(s[i]))
  }

  /** Strings compare byte by byte; a proper prefix comes first. */
  predicate Before(a: string, b: string)
  {
    if b == "" then false
    else if a == "" then true
    else if a[0] != b[0] then a[0] < b[0]
    else Before(a[1..], b[1..])
  }

  lemma {:induction false} BeforeTotal(a: string, b: string)
    ensures Before(a, b) || a == b || Before(b, a)
    ensures !(Before(a, b) && Before(b, a)) && !Before(a, a)
  {
    if a != "" && b != "" {
      BeforeTotal(a[1..], b[1..]);
      BeforeTotal(a[1..], a[1..]);
      assert a == [a[0]] + a[1..] && b == [b[0]] + b[1..];
    } else if a != "" {
      BeforeTotal(a[1..], a[1..]);
    }
  }

  lemma {:induction false} BeforeTrans(a: string, b: string, c: string)
    requires Before(a, b) && Before(b, c)
    ensures Before(a, c)
  {
    if a != "" && a[0] == b[0] && b[0] == c[0] {
      BeforeTrans(a[1..], b[1..], c[1..]);
    }
  }

  /** Lower-casing moves each of A to Z to its place in a to z and leaves the rest. */
  lemma LowerMeans(s: string, i: nat)
    requires i < |s|
    ensures |Lower(s)| == |s|
    ensures 'A' <= s[i] <= 'Z' ==> 'a' <= Lower(s)[i] <= 'z' && Lower(s)[i] as int - 'a' as int == s[i] as int - 'A' as int
    ensures !('A' <= s[i] <= 'Z') ==> Lower(s)[i] == s[i]
  {
  }

  /** a comes before b exactly when they agree up to some place where a ends and b goes on, or
      where a has the smaller character. */
  lemma {:induction false} BeforeAt(a: string, b: string)
    ensures Before(a, b) <==> exists i :: 0 <= i <= |a| && i < |b| && a[..i] == b[..i] && (i == |a| || a[i] < b[i])
  {
    if Before(a, b) {
      var i := Differ(a, b);
    }
    forall i | 0 <= i <= |a| && i < |b| && a[..i] == b[..i] && (i == |a| || a[i] < b[i]) ensures Before(a, b) {
      DiffersAt(a, b, i);
    }
  }

  lemma {:induction false} Differ(a: string, b: string) returns (i: nat)
    requires Before(a, b)
    ensures i <= |a| && i < |b| && a[..i] == b[..i] && (i == |a| || a[i] < b[i])
  {
    if a == "" || a[0] != b[0] {
      i := 0;
    } else {
      var j := Differ(a[1..], b[1..]);
      i := j + 1;
      assert a[..i] == [a[0]] + a[1..][..j] && b[..i] == [b[0]] + b[1..][..j];
    }
  }

  lemma {:induction false} DiffersAt(a: string, b: string, i: nat)
    requires i <= |a| && i < |b| && a[..i] == b[..i] && (i == |a| || a[i] < b[i])
    ensures Before(a, b)
  {
    if i > 0 {
      assert a[..i][0] == b[..i][0];
      assert a[1..][..i - 1] == a[..i][1..] && b[1..][..i - 1] == b[..i][1..];
      DiffersAt(a[1..], b[1..], i - 1);
    }
  }

  // ----- sorting

  ghost predicate Strict<T(!new)>(lt: (T, T) -> bool)
  {
    && (forall x :: !lt(x, x))
    && (forall x, y, z :: lt(x, y) && lt(y, z) ==> lt(x, z))
  }

  /** lt never orders two values both ways, and "not after" carries over. */
  ghost predicate Weak<T(!new)>(lt: (T, T) -> bool)
  {
    && (forall x, y :: lt(x, y) ==> !lt(y, x))
    && (forall x, y, z :: !lt(y, x) && !lt(z, y) ==> !lt(z, x))
  }

  ghost predicate Sorted<T>(lt: (T, T) -> bool, s: seq<T>)
  {
    forall i, j | 0 <= i < j < |s| :: !lt(s[j], s[i])
  }

  ghost predicate Increasing<T>(lt: (T, T) -> bool, s: seq<T>)
  {
    forall i, j | 0 <= i < j < |s| :: lt(s[i], s[j])
  }

  predicate Ascending(s: seq<nat>)
  {
    forall i, j | 0 <= i < j < |s| :: s[i] < s[j]
  }

  lemma AscendingMore(idx: seq<nat>, n: nat)
    requires Ascending(idx) && forall i | i in idx :: i < n
    ensures Ascending(idx + [n]) && forall i :: i in idx + [n] <==> i in idx || i == n
  {
    forall i, j | 0 <= i < j < |idx + [n]| ensures (idx + [n])[i] < (idx + [n])[j] {
      assert idx[i] in idx;
    }
  }

  function Insert<T>(lt: (T, T) -> bool, x: T, s: seq<T>): seq<T>
  {
    if s == [] then [x]
    else if lt(s[0], x) then [s[0]] + Insert(lt, x, s[1..])
    else [x] + s
  }

  /** A stable sort: an element goes before the later ones it ties with. */
  function Sort<T>(lt: (T, T) -> bool, s: seq<T>): seq<T>
  {
    if s == [] then [] else Insert(lt, s[0], Sort(lt, s[1..]))
  }

  lemma {:induction false} InsertElements<T>(lt: (T, T) -> bool, x: T, s: seq<T>)
    ensures multiset(Insert(lt, x, s)) == multiset{x} + multiset(s)
  {
    if s != [] {
      assert s == [s[0]] + s[1..];
      if lt(s[0], x) {
        InsertElements(lt, x, s[1..]);
      }
    }
  }

  lemma {:induction false} SortElements<T>(lt: (T, T) -> bool, s: seq<T>)
    ensures multiset(Sort(lt, s)) == multiset(s)
    ensures |Sort(lt, s)| == |s|
    ensures forall x :: x in Sort(lt, s) <==> x in s
  {
    if s != [] {
      assert s == [s[0]] + s[1..];
      SortElements(lt, s[1..]);
      InsertElements(lt, s[0], Sort(lt, s[1..]));
    }
    assert |multiset(Sort(lt, s))| == |multiset(s)|;
    forall x ensures x in Sort(lt, s) <==> x in s {
      assert x in Sort(lt, s) <==> x in multiset(Sort(lt, s));
    }
  }

  lemma {:induction false} InsertSorted<T(!new)>(lt: (T, T) -> bool, x: T, s: seq<T>)
    requires Weak(lt) && Sorted(lt, s)
    ensures Sorted(lt, Insert(lt, x, s))
  {
    if s != [] && lt(s[0], x) {
      var t := Insert(lt, x, s[1..]);
      InsertSorted(lt, x, s[1..]);
      InsertElements(lt, x, s[1..]);
      forall j | 0 <= j < |t| ensures !lt(t[j], s[0]) {
        assert t[j] in multiset(t);
        if t[j] != x {
          var k :| 0 <= k < |s[1..]| && s[1..][k] == t[j];
          assert s[k + 1] == t[j];
        }
      }
    } else if s != [] {
      forall j | 0 <= j < |s| ensures !lt(s[j], x) {
        assert j > 0 ==> !lt(s[j], s[0]);
      }
    }
  }

  lemma {:induction false} SortSorts<T(!new)>(lt: (T, T) -> bool, s: seq<T>)
    requires Weak(lt)
    ensures Sorted(lt, Sort(lt, s))
  {
    if s != [] {
      SortSorts(lt, s[1..]);
      InsertSorted(lt, s[0], Sort(lt, s[1..]));
    }
  }

  lemma FirstIsLeast<T>(lt: (T, T) -> bool, s: seq<T>, x: T)
    requires Increasing(lt, s) && x in s
    ensures x == s[0] || lt(s[0], x)
  {
    var i :| 0 <= i < |s| && s[i] == x;
  }

  lemma TailWithin<T(!new)>(lt: (T, T) -> bool, a: seq<T>, b: seq<T>, x: T)
    requires Strict(lt) && Increasing(lt, a) && a != [] && b != [] && a[0] == b[0]
    requires (forall y | y in a :: y in b) && x in a[1..]
    ensures x in b[1..]
  {
    var k :| 0 <= k < |a[1..]| && a[1..][k] == x;
    assert lt(a[0], a[k + 1]);
    assert a[k + 1] in a;
    var m :| 0 <= m < |b| && b[m] == a[k + 1];
    assert b[1..][m - 1] == x;
  }

  /** Only one strictly increasing sequence lists a given set. */
  lemma {:induction false} IncreasingUnique<T(!new)>(lt: (T, T) -> bool, a: seq<T>, b: seq<T>)
    requires Strict(lt) && Increasing(lt, a) && Increasing(lt, b)
    requires forall x :: x in a <==> x in b
    ensures a == b
  {
    assert |a| > 0 ==> a[0] in a;
    assert |b| > 0 ==> b[0] in b;
    if a != [] {
      FirstIsLeast(lt, a, b[0]);
      FirstIsLeast(lt, b, a[0]);
      forall x ensures x in a[1..] <==> x in b[1..] {
        if x in a[1..] { TailWithin(lt, a, b, x); }
        if x in b[1..] { TailWithin(lt, b, a, x); }
      }
      IncreasingUnique(lt, a[1..], b[1..]);
      assert a == [a[0]] + a[1..] && b == [b[0]] + b[1..];
    }
  }

  lemma {:induction false} OnceOnly<T>(s: seq<T>, x: T)
    requires forall i, j | 0 <= i < j < |s| :: s[i] != s[j]
    ensures multiset(s)[x] <= 1
  {
    if s != [] {
      var n := |s| - 1;
      assert s == s[..n] + [s[n]];
      OnceOnly(s[..n], x);
      if s[n] == x {
        assert x !in s[..n];
        assert x !in multiset(s[..n]);
      }
    }
  }

  lemma TwiceCounts<T>(s: seq<T>, i: nat, j: nat)
    requires i < j < |s| && s[i] == s[j]
    ensures multiset(s)[s[i]] >= 2
  {
    assert s == s[..j] + ([s[j]] + s[j + 1..]);
    assert multiset(s) == multiset(s[..j]) + (multiset{s[j]} + multiset(s[j + 1..]));
    assert s[..j][i] == s[i];
    assert s[i] in multiset(s[..j]);
  }

  /** Sorting values that the order tells apart leaves them strictly increasing. */
  lemma SortDistinct<T(!new)>(lt: (T, T) -> bool, s: seq<T>)
    requires Weak(lt)
    requires forall i, j | 0 <= i < |s| && 0 <= j < |s| && i != j :: lt(s[i], s[j]) || lt(s[j], s[i])
    ensures Increasing(lt, Sort(lt, s))
  {
    var t := Sort(lt, s);
    SortSorts(lt, s);
    SortElements(lt, s);
    forall i, j | 0 <= i < j < |t| ensures lt(t[i], t[j]) {
      assert t[i] in s && t[j] in s;
      var a :| 0 <= a < |s| && s[a] == t[i];
      var b :| 0 <= b < |s| && s[b] == t[j];
      if t[i] == t[j] {
        OnceOnly(s, t[i]);
        TwiceCounts(t, i, j);
        assert false;
      }
    }
  }

  /** The elements of s that lt does not tell apart from t. */
  function Ties<T>(lt: (T, T) -> bool, t: T, s: seq<T>): seq<T>
  {
    if s == [] then []
    else (if !lt(s[0], t) && !lt(t, s[0]) then [s[0]] else []) + Ties(lt, t, s[1..])
  }

  lemma {:induction false} InsertFirst<T(!new)>(lt: (T, T) -> bool, x: T, s: seq<T>, t: T)
    requires Weak(lt)
    ensures Ties(lt, t, Insert(lt, x, s)) == Ties(lt, t, [x] + s)
  {
    assert ([x] + s)[1..] == s;
    if s != [] && lt(s[0], x) {
      InsertFirst(lt, x, s[1..], t);
      assert ([x] + s[1..])[1..] == s[1..];
      assert Insert(lt, x, s)[1..] == Insert(lt, x, s[1..]);
    }
  }

  /** Elements that tie keep their order. */
  lemma {:induction false} SortStable<T(!new)>(lt: (T, T) -> bool, s: seq<T>, t: T)
    requires Weak(lt)
    ensures Ties(lt, t, Sort(lt, s)) == Ties(lt, t, s)
  {
    if s != [] {
      SortStable(lt, s[1..], t);
      InsertFirst(lt, s[0], Sort(lt, s[1..]), t);
      assert ([s[0]] + Sort(lt, s[1..]))[1..] == Sort(lt, s[1..]);
    }
  }

  function Map<T, U>(f: T -> U, s: seq<T>): (r: seq<U>)
    ensures |r| == |s|
  {
    seq(|s|, i requires 0 <= i < |s| => f(s[i]))
  }

  lemma MapFirst<T, U>(f: T -> U, x: T, s: seq<T>)
    ensures Map(f, [x] + s) == [f(x)] + Map(f, s)
  {
  }

  lemma {:induction false} InsertMap<T, U>(lt: (T, T) -> bool, f: T -> U, x: T, s: seq<T>)
    ensures multiset(Map(f, Insert(lt, x, s))) == multiset{f(x)} + multiset(Map(f, s))
  {
    hide Map;
    MapFirst(f, x, s);
    if s == [] {
      assert [x] == [x] + s;
    } else if lt(s[0], x) {
      InsertMap(lt, f, x, s[1..]);
      MapFirst(f, s[0], s[1..]);
      MapFirst(f, s[0], Insert(lt, x, s[1..]));
      assert s == [s[0]] + s[1..];
    }
  }

  /** Sorting rearranges whatever is computed from the elements. */
  lemma {:induction false} SortMap<T, U>(lt: (T, T) -> bool, f: T -> U, s: seq<T>)
    ensures multiset(Map(f, Sort(lt, s))) == multiset(Map(f, s))
  {
    hide Map;
    if |s| > 0 {
      SortMap(lt, f, s[1..]);
      InsertMap(lt, f, s[0], Sort(lt, s[1..]));
      MapFirst(f, s[0], s[1..]);
      assert s == [s[0]] + s[1..];
    }
  }

  lemma BeforeIsStrict()
    ensures Strict(Before) && Weak(Before)
  {
    forall x: string ensures !Before(x, x) { BeforeTotal(x, x); }
    forall x, y, z | Before(x, y) && Before(y, z) ensures Before(x, z) { BeforeTrans(x, y, z); }
    forall x, y | Before(x, y) ensures !Before(y, x) { BeforeTotal(x, y); }
    forall x, y, z | !Before(y, x) && !Before(z, y) ensures !Before(z, x) {
      BeforeTotal(x, y);
      BeforeTotal(y, z);
      if Before(z, x) && x != y && y != z {
        BeforeTrans(x, y, z);
        BeforeTotal(x, z);
      }
    }
  }
}
