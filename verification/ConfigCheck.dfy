/** Checking every per-folder configuration a set of files is linted under. */
module ConfigCheck {

  /** A directory is the path of names from the root; the root is its own parent. */
  type Dir = seq<string>

  function Parent(d: Dir): Dir
  {
    if d == [] then [] else d[..|d| - 1]
  }

  /** What a directory holds: no configuration, one that lets the search go on upwards, one
      that ends it, or one that cannot be read or parsed. */
  datatype Config = Absent | Inherits | Stops | Broken(error: string)

  /** A file's directory, or why its absolute path cannot be had. */
  datatype Place = In(dir: Dir) | Nowhere(error: string)

  datatype Outcome = Fine | BadConfig(dir: Dir, error: string) | BadPath(error: string)

  /** One file on its own: from its directory upwards, up to a configuration that ends the search. */
  function Walk(at: Dir -> Config, d: Dir): Outcome
  {
    match at(d)
    case Broken(error) => BadConfig(d, error)
    case Stops => Fine
    case _ => if Parent(d) == d then Fine else Walk(at, Parent(d))
  }

  function WalkFrom(at: Dir -> Config, p: Place): Outcome
  {
    match p
    case Nowhere(error) => BadPath(error)
    case In(dir) => Walk(at, dir)
  }

  /** The first file's failure, each file walked independently. */
  function FirstFailure(at: Dir -> Config, files: seq<Place>): Outcome
  {
    if files == [] then Fine
    else if WalkFrom(at, files[0]) != Fine then WalkFrom(at, files[0])
    else FirstFailure(at, files[1..])
  }

  /** Every directory of d from length n up lets the search go on. */
  ghost predicate OpenDownTo(at: Dir -> Config, d: Dir, n: nat)
  {
    forall k | n <= k <= |d| :: at(d[..k]) == Absent || at(d[..k]) == Inherits
  }

  /** A walk fails at a directory exactly when that is a broken ancestor with nothing broken
      or stopping below it. */
  lemma {:induction false} WalkFailsAt(at: Dir -> Config, d: Dir, n: nat)
    requires n <= |d|
    ensures (exists e :: Walk(at, d) == BadConfig(d[..n], e)) <==> at(d[..n]).Broken? && OpenDownTo(at, d, n + 1)
    ensures at(d[..n]).Broken? && OpenDownTo(at, d, n + 1) ==> Walk(at, d) == BadConfig(d[..n], at(d[..n]).error)
  {
    assert d[..|d|] == d;
    if |d| == n {
      if !at(d).Broken? && d != [] {
        WalkShorter(at, Parent(d));
      }
    } else if at(d) == Absent || at(d) == Inherits {
      WalkFailsAt(at, Parent(d), n);
      assert Parent(d)[..n] == d[..n];
      forall k | 0 <= k <= |Parent(d)| ensures Parent(d)[..k] == d[..k] {
      }
    } else {
      assert at(d[..|d|]) == at(d);
    }
  }

  /** A walk only fails at an ancestor. */
  lemma {:induction false} WalkShorter(at: Dir -> Config, d: Dir)
    ensures Walk(at, d) == Fine || (Walk(at, d).BadConfig? && |Walk(at, d).dir| <= |d| && Walk(at, d).dir == d[..|Walk(at, d).dir|])
  {
    assert d[..|d|] == d;
    if Parent(d) != d {
      WalkShorter(at, Parent(d));
    }
  }

  /** Between files: every directory read so far has a clean walk. */
  ghost predicate Clean(at: Dir -> Config, checked: set<Dir>)
  {
    forall d | d in checked :: Walk(at, d) == Fine
  }

  /** Within a walk: what it has read itself lies below dir and stands or falls with dir. */
  ghost predicate Climbing(at: Dir -> Config, base: set<Dir>, checked: set<Dir>, dir: Dir)
  {
    && base <= checked && Clean(at, base)
    && forall d | d in checked && d !in base :: |d| > |dir| && Walk(at, d) == Walk(at, dir)
  }

  ghost predicate ReadOnce(visited: seq<Dir>, checked: set<Dir>)
  {
    && (forall d :: d in visited <==> d in checked)
    && forall i, j | 0 <= i < j < |visited| :: visited[i] != visited[j]
  }

  /** All files, sharing what has been checked: the same outcome as walking each on its own,
      reading no directory twice. */
  method CheckConfigs(at: Dir -> Config, files: seq<Place>) returns (r: Outcome, ghost visited: seq<Dir>)
    ensures r == FirstFailure(at, files)
    ensures r == Fine <==> forall i | 0 <= i < |files| :: WalkFrom(at, files[i]) == Fine
    ensures r != Fine ==> exists i :: 0 <= i < |files| && WalkFrom(at, files[i]) == r
                                      && forall j | 0 <= j < i :: WalkFrom(at, files[j]) == Fine
    ensures forall i, j | 0 <= i < j < |visited| :: visited[i] != visited[j]
  {
    hide Walk, Clean, WalkFrom;
    FirstFailureIs(at, files);
    hide FirstFailure;
    var checked: set<Dir> := {};
    visited := [];
    assert Clean(at, {}) by { NothingChecked(at); }
    for i := 0 to |files|
      invariant Clean(at, checked) && ReadOnce(visited, checked)
      invariant FirstFailure(at, files) == FirstFailure(at, files[i..])
    {
      NextFile(at, files, i);
      if files[i].Nowhere? {
        return BadPath(files[i].error), visited;
      }
      var dir := files[i].dir;
      ghost var base := checked;
      while dir !in checked
        invariant Climbing(at, base, checked, dir) && ReadOnce(visited, checked)
        invariant Walk(at, files[i].dir) == Walk(at, dir)
        invariant dir in checked ==> dir in base
        decreases |dir|, dir !in checked
      {
        checked := checked + {dir};
        visited := visited + [dir];
        WalkStep(at, dir);
        match at(dir)
        case Broken(error) =>
          return BadConfig(dir, error), visited;
        case Stops =>
          break;
        case _ =>
          if Parent(dir) == dir {
            break;
          }
          dir := Parent(dir);
      }
      ClimbEnds(at, base, checked, dir);
    }
    NoFiles(at, files[|files|..]);
    r := Fine;
  }

  lemma NoFiles(at: Dir -> Config, files: seq<Place>)
    requires |files| == 0
    ensures FirstFailure(at, files) == Fine
  {
  }

  lemma NextFile(at: Dir -> Config, files: seq<Place>, i: nat)
    requires i < |files|
    ensures files[i].Nowhere? ==> FirstFailure(at, files[i..]) == BadPath(files[i].error)
    ensures files[i].In? && Walk(at, files[i].dir) != Fine ==> FirstFailure(at, files[i..]) == Walk(at, files[i].dir)
    ensures files[i].In? && Walk(at, files[i].dir) == Fine ==> FirstFailure(at, files[i..]) == FirstFailure(at, files[i + 1..])
  {
    assert files[i..][1..] == files[i + 1..];
  }

  /** The first failure is that of a file all before which have clean walks. */
  lemma {:induction false} FirstFailureIs(at: Dir -> Config, files: seq<Place>)
    ensures FirstFailure(at, files) == Fine <==> forall i | 0 <= i < |files| :: WalkFrom(at, files[i]) == Fine
    ensures FirstFailure(at, files) != Fine ==>
              exists i :: 0 <= i < |files| && WalkFrom(at, files[i]) == FirstFailure(at, files)
                          && forall j | 0 <= j < i :: WalkFrom(at, files[j]) == Fine
  {
    hide WalkFrom;
    if files != [] && WalkFrom(at, files[0]) == Fine {
      FirstFailureIs(at, files[1..]);
      assert forall i | 0 <= i < |files[1..]| :: files[1..][i] == files[i + 1];
      if FirstFailure(at, files) != Fine {
        var i :| 0 <= i < |files[1..]| && WalkFrom(at, files[1..][i]) == FirstFailure(at, files)
                 && forall j | 0 <= j < i :: WalkFrom(at, files[1..][j]) == Fine;
        assert WalkFrom(at, files[i + 1]) == FirstFailure(at, files);
        forall j | 0 <= j < i + 1 ensures WalkFrom(at, files[j]) == Fine {
          assert j > 0 ==> files[j] == files[1..][j - 1];
        }
      }
    }
  }

  /** A file fails exactly when its path cannot be had, or some directory at or above it is broken
      and every one below that, down to the file's, has no configuration or one that inherits. */
  lemma FileFails(at: Dir -> Config, p: Place)
    ensures p.Nowhere? ==> WalkFrom(at, p) == BadPath(p.error)
    ensures p.In? ==> (WalkFrom(at, p) != Fine <==>
              exists n :: 0 <= n <= |p.dir| && at(p.dir[..n]).Broken?
                          && forall k | n < k <= |p.dir| :: at(p.dir[..k]) == Absent || at(p.dir[..k]) == Inherits)
  {
    if p.In? {
      var d := p.dir;
      if WalkFrom(at, p) != Fine {
        WalkShorter(at, d);
        var n := |Walk(at, d).dir|;
        WalkFailsAt(at, d, n);
      }
      if exists n :: 0 <= n <= |d| && at(d[..n]).Broken? && forall k | n < k <= |d| :: at(d[..k]) == Absent || at(d[..k]) == Inherits {
        var n :| 0 <= n <= |d| && at(d[..n]).Broken? && forall k | n < k <= |d| :: at(d[..k]) == Absent || at(d[..k]) == Inherits;
        WalkFailsAt(at, d, n);
      }
    }
  }

  lemma NothingChecked(at: Dir -> Config)
    ensures Clean(at, {})
  {
  }

  lemma WalkStep(at: Dir -> Config, dir: Dir)
    ensures at(dir).Broken? ==> Walk(at, dir) == BadConfig(dir, at(dir).error)
    ensures at(dir).Stops? || (!at(dir).Broken? && Parent(dir) == dir) ==> Walk(at, dir) == Fine
    ensures (at(dir).Absent? || at(dir).Inherits?) && Parent(dir) != dir ==> Walk(at, dir) == Walk(at, Parent(dir))
  {
  }

  lemma ClimbEnds(at: Dir -> Config, base: set<Dir>, checked: set<Dir>, dir: Dir)
    requires Clean(at, base) && base <= checked && dir in checked
    requires dir in base || Walk(at, dir) == Fine
    requires forall d | d in checked && d !in base :: Walk(at, d) == Walk(at, dir)
    ensures Clean(at, checked) && Walk(at, dir) == Fine
  {
    hide Walk;
  }
}
