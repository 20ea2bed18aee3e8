/** Whitespace collapsing, break finding and line wrapping of template text. A text
    is the sequence of its bytes. */
module Wrapping {
  import opened Ordering

  // ----- whitespace

  predicate IsWs(c: char)
  {
    c == ' ' || c == '\t' || c == '\n' || c == '\r'
  }

  /** What trimming strips from the ends: also vertical tab and form feed. */
  predicate IsSpace(c: char)
  {
    IsWs(c) || c == 11 as char || c == 12 as char
  }

  predicate EndsBlank(s: string)
  {
    s != "" && IsWs(s[|s| - 1])
  }

  /** Each run of whitespace becomes one space. */
  function Squeeze(s: string): string
  {
    if s == "" then ""
    else
      var front, c := s[..|s| - 1], s[|s| - 1];
      if !IsWs(c) then Squeeze(front) + [c]
      else if EndsBlank(front) then Squeeze(front)
      else Squeeze(front) + " "
  }

  method CollapseWhitespace(s: string) returns (b: string)
    ensures b == Squeeze(s)
  {
    b := "";
    var inWS := false;
    for i := 0 to |s|
      invariant b == Squeeze(s[..i]) && inWS == EndsBlank(s[..i])
    {
      assert s[..i + 1][..i] == s[..i];
      if IsWs(s[i]) {
        if !inWS {
          b := b + " ";
          inWS := true;
        }
      } else {
        b := b + [s[i]];
        inWS := false;
      }
    }
    assert s[..|s|] == s;
  }

  lemma {:induction false} SqueezeEnds(s: string)
    ensures Squeeze(s) == "" <==> s == ""
    ensures s != "" ==> (if IsWs(s[|s| - 1]) then Squeeze(s)[|Squeeze(s)| - 1] == ' ' else Squeeze(s)[|Squeeze(s)| - 1] == s[|s| - 1])
    ensures s != "" ==> (if IsWs(s[0]) then Squeeze(s)[0] == ' ' else Squeeze(s)[0] == s[0])
  {
    if s != "" {
      SqueezeEnds(s[..|s| - 1]);
    }
  }

  /** Collapsing again changes nothing. */
  lemma {:induction false} SqueezeTwice(s: string)
    ensures Squeeze(Squeeze(s)) == Squeeze(s)
  {
    if s != "" {
      var front, c := s[..|s| - 1], s[|s| - 1];
      var f := Squeeze(front);
      SqueezeTwice(front);
      SqueezeEnds(front);
      if !IsWs(c) {
        assert (f + [c])[..|f|] == f;
      } else if !EndsBlank(front) {
        assert (f + " ")[..|f|] == f;
      }
    }
  }

  /** Collapsing goes piece by piece where no whitespace run is cut. */
  lemma {:induction false} SqueezeConcat(a: string, b: string)
    requires !EndsBlank(a) || b == "" || !IsWs(b[0])
    ensures Squeeze(a + b) == Squeeze(a) + Squeeze(b)
  {
    if b == "" {
      assert a + b == a && Squeeze(a) + "" == Squeeze(a);
    } else {
      var n := |b| - 1;
      SqueezeConcat(a, b[..n]);
      assert (a + b)[..|a + b| - 1] == a + b[..n];
      if n == 0 {
        assert b[..0] == "" && a + "" == a;
      }
      assert EndsBlank(a + b[..n]) == if n == 0 then EndsBlank(a) else EndsBlank(b[..n]);
    }
  }

  predicate Blank(s: string)
  {
    forall i | 0 <= i < |s| :: IsWs(s[i])
  }

  lemma {:induction false} SqueezeBlank(s: string)
    requires Blank(s) && s != ""
    ensures Squeeze(s) == " "
  {
    if |s| > 1 {
      SqueezeBlank(s[..|s| - 1]);
    } else {
      assert s[..0] == "";
    }
  }

  // ----- trimming

  function TrimLeft(s: string): string
  {
    if s != "" && IsSpace(s[0]) then TrimLeft(s[1..]) else s
  }

  function TrimRight(s: string): string
  {
    if s != "" && IsSpace(s[|s| - 1]) then TrimRight(s[..|s| - 1]) else s
  }

  function Trim(s: string): string
  {
    TrimRight(TrimLeft(s))
  }

  /** Nothing to trim at either end. */
  predicate Trimmed(s: string)
  {
    s != "" ==> !IsSpace(s[0]) && !IsSpace(s[|s| - 1])
  }

  lemma {:induction false} TrimRightKeepsFront(s: string)
    ensures TrimRight(s) != "" ==> TrimRight(s)[0] == s[0]
    ensures TrimRight(s) != "" ==> !IsSpace(TrimRight(s)[|TrimRight(s)| - 1])
  {
    if s != "" && IsSpace(s[|s| - 1]) {
      TrimRightKeepsFront(s[..|s| - 1]);
    }
  }

  lemma {:induction false} TrimLeftFront(s: string)
    ensures TrimLeft(s) != "" ==> !IsSpace(TrimLeft(s)[0])
  {
    if s != "" && IsSpace(s[0]) {
      TrimLeftFront(s[1..]);
    }
  }

  lemma TrimTrims(s: string)
    ensures Trimmed(Trim(s))
  {
    TrimLeftFront(s);
    TrimRightKeepsFront(TrimLeft(s));
  }

  lemma {:induction false} TrimLeftOf(pre: string, core: string)
    requires Blank(pre) && Trimmed(core) && core != ""
    ensures forall post :: TrimLeft(pre + (core + post)) == core + post
  {
    forall post ensures TrimLeft(pre + (core + post)) == core + post {
      if pre == "" {
        assert pre + (core + post) == core + post;
      } else {
        TrimLeftOf(pre[1..], core);
        assert (pre + (core + post))[1..] == pre[1..] + (core + post);
        assert TrimLeft(pre[1..] + (core + post)) == core + post;
      }
    }
  }

  lemma {:induction false} TrimRightOf(core: string, post: string)
    requires Blank(post) && Trimmed(core)
    ensures TrimRight(core + post) == core
  {
    if post == "" {
      assert core + post == core;
    } else {
      var front := post[..|post| - 1];
      assert Blank(front);
      TrimRightOf(core, front);
      hide Blank, Trimmed;
      var s := core + post;
      assert s[..|s| - 1] == core + front && IsSpace(s[|s| - 1]);
    }
  }

  lemma {:induction false} TrimLeftBlank(s: string)
    requires Blank(s)
    ensures TrimLeft(s) == ""
  {
    if s != "" { TrimLeftBlank(s[1..]); }
  }

  /** Trimming takes spaces, tabs, line feeds, vertical tabs, form feeds and carriage returns off both
      ends, and stops at the first character that is none of them. */
  lemma {:induction false} TrimMeans(s: string) returns (i: nat, j: nat)
    ensures i <= j <= |s| && Trim(s) == s[i..j]
    ensures forall k | 0 <= k < i || j <= k < |s| :: s[k] == ' ' || 9 <= s[k] as int <= 13
    ensures i < j ==> s[i] != ' ' && !(9 <= s[i] as int <= 13) && s[j - 1] != ' ' && !(9 <= s[j - 1] as int <= 13)
  {
    i := TrimLeftMeans(s);
    j := TrimRightMeans(s[i..]);
    j := i + j;
  }

  lemma {:induction false} TrimLeftMeans(s: string) returns (i: nat)
    ensures i <= |s| && TrimLeft(s) == s[i..]
    ensures forall k | 0 <= k < i :: s[k] == ' ' || 9 <= s[k] as int <= 13
    ensures i < |s| ==> s[i] != ' ' && !(9 <= s[i] as int <= 13)
  {
    if s != "" && IsSpace(s[0]) {
      i := TrimLeftMeans(s[1..]);
      i := i + 1;
      assert forall k | 0 < k < i :: s[k] == s[1..][k - 1];
    } else {
      i := 0;
    }
  }

  lemma {:induction false} TrimRightMeans(s: string) returns (j: nat)
    ensures j <= |s| && TrimRight(s) == s[..j]
    ensures forall k | j <= k < |s| :: s[k] == ' ' || 9 <= s[k] as int <= 13
    ensures j > 0 ==> s[j - 1] != ' ' && !(9 <= s[j - 1] as int <= 13) && (s[0] == s[..j][0])
  {
    if s != "" && IsSpace(s[|s| - 1]) {
      j := TrimRightMeans(s[..|s| - 1]);
    } else {
      j := |s|;
    }
  }

  /** Trimming takes off exactly the blanks put around a trimmed text. */
  lemma TrimAround(pre: string, core: string, post: string)
    requires Blank(pre) && Blank(post) && Trimmed(core)
    ensures Trim(pre + (core + post)) == core
  {
    if core == "" {
      assert pre + (core + post) == pre + post;
      TrimLeftBlank(pre + post);
    } else {
      TrimLeftOf(pre, core);
      TrimRightOf(core, post);
    }
  }

  // ----- which spaces a line may break at

  /** Where a character stands: in prose, in a tag, in a quoted value, or just after a
      quote that closes the value unless the next character doubles it. */
  datatype Place = Prose | Tag | Quoted(q: char) | Closing(q: char)

  predicate IsQuote(c: char)
  {
    c == '\"' || c == '\''
  }

  function Outside(inTag: bool, c: char): Place
  {
    if c == '<' then Tag
    else if c == '>' then Prose
    else if inTag && IsQuote(c) then Quoted(c)
    else if inTag then Tag
    else Prose
  }

  function Step(p: Place, c: char): Place
  {
    match p
    case Prose => Outside(false, c)
    case Tag => Outside(true, c)
    case Quoted(q) => if c == q then Closing(q) else p
    case Closing(q) => if c == q then Quoted(q) else Outside(true, c)
  }

  function Run(p: Place, s: string): Place
  {
    if s == "" then p else Step(Run(p, s[..|s| - 1]), s[|s| - 1])
  }

  lemma {:induction false} RunConcat(p: Place, a: string, b: string)
    ensures Run(p, a + b) == Run(Run(p, a), b)
  {
    if b == "" {
      assert a + b == a;
    } else {
      RunConcat(p, a, b[..|b| - 1]);
      assert (a + b)[..|a + b| - 1] == a + b[..|b| - 1];
    }
  }

  /** A space outside every quoted value. */
  predicate Safe(text: string, i: nat)
  {
    i < |text| && text[i] == ' ' && !Run(Prose, text[..i]).Quoted?
  }

  function Breaks(text: string): seq<nat>
  {
    if text == "" then []
    else
      var n := |text| - 1;
      Breaks(text[..n]) + if text[n] == ' ' && !Run(Prose, text[..n]).Quoted? then [n] else []
  }

  lemma {:induction false} BreaksAre(text: string)
    ensures forall i: nat :: i in Breaks(text) <==> Safe(text, i)
    ensures forall a, b | 0 <= a < b < |Breaks(text)| :: Breaks(text)[a] < Breaks(text)[b]
  {
    if text != "" {
      var n := |text| - 1;
      var rest := Breaks(text[..n]);
      BreaksAre(text[..n]);
      forall i: nat | i < n ensures Safe(text[..n], i) <==> Safe(text, i) {
        assert text[..n][..i] == text[..i];
      }
      assert forall x | 0 <= x < |rest| :: rest[x] in rest;
      assert Breaks(text) == rest || Breaks(text) == rest + [n];
      forall i: nat ensures i in Breaks(text) <==> Safe(text, i) {
        assert i in rest + [n] <==> i in rest || i == n;
      }
    }
  }

  /** The scanner's two variables, against the place: a closing quote is only left behind
      once the next character is known not to double it. */
  ghost predicate Scanning(text: string, i: nat, inTag: bool, quote: char)
  {
    && i <= |text|
    && match Run(Prose, text[..i])
       case Prose => !inTag && quote == '\0'
       case Tag => inTag && quote == '\0'
       case Quoted(q) => inTag && quote == q && IsQuote(q)
       case Closing(q) => inTag && quote == '\0' && IsQuote(q) && (i < |text| ==> text[i] != q)
  }

  /** The offsets of the spaces a line may break at, found with one character of lookahead. */
  method SafeBreaks(text: string) returns (out: seq<nat>)
    ensures out == Breaks(text)
  {
    hide Run;
    out := [];
    var inTag, quote := false, '\0';
    var i := 0;
    assert text[..0] == "" && Run(Prose, "") == Prose by { RunNothing(Prose); }
    while i < |text|
      invariant Scanning(text, i, inTag, quote)
      invariant out == Breaks(text[..i])
    {
      var c := text[i];
      OneMore(text, i);
      if quote != '\0' {
        if c == quote {
          if i + 1 < |text| && text[i + 1] == quote {
            OneMore(text, i + 1);
            i := i + 1;
          } else {
            quote := '\0';
          }
        }
      } else if c == '<' {
        inTag := true;
      } else if c == '>' {
        inTag := false;
      } else if inTag && IsQuote(c) {
        quote := c;
      } else if c == ' ' {
        out := out + [i];
      }
      i := i + 1;
    }
    assert text[..|text|] == text;
  }

  lemma RunNothing(p: Place)
    ensures Run(p, "") == p
  {
  }

  lemma OneMore(text: string, i: nat)
    requires i < |text|
    ensures Run(Prose, text[..i + 1]) == Step(Run(Prose, text[..i]), text[i])
    ensures Breaks(text[..i + 1]) == Breaks(text[..i]) + if text[i] == ' ' && !Run(Prose, text[..i]).Quoted? then [i] else []
  {
    assert text[..i + 1][..i] == text[..i];
  }

  // ----- choosing where lines end

  datatype Cut = NoCut | CutAt(pos: nat)

  /** The last break strictly between lo and hi. */
  function LastBetween(breaks: seq<nat>, lo: nat, hi: nat): Cut
  {
    if breaks == [] then NoCut
    else
      var b := breaks[|breaks| - 1];
      if lo < b < hi then CutAt(b) else LastBetween(breaks[..|breaks| - 1], lo, hi)
  }

  /** The first break past lo. */
  function FirstAfter(breaks: seq<nat>, lo: nat): Cut
  {
    if breaks == [] then NoCut
    else if breaks[0] > lo then CutAt(breaks[0])
    else FirstAfter(breaks[1..], lo)
  }

  /** Where the line from start ends: at the last break that leaves it under the width,
      else at the first break there is. */
  function NextCut(breaks: seq<nat>, start: nat, width: nat): Cut
  {
    var c := LastBetween(breaks, start, start + width);
    if c == NoCut then FirstAfter(breaks, start) else c
  }

  lemma {:induction false} LastBetweenIs(breaks: seq<nat>, lo: nat, hi: nat)
    requires Ascending(breaks)
    ensures LastBetween(breaks, lo, hi) == NoCut ==> forall b | b in breaks :: !(lo < b < hi)
    ensures LastBetween(breaks, lo, hi).CutAt? ==>
              var c := LastBetween(breaks, lo, hi).pos;
              c in breaks && lo < c < hi && forall b | b in breaks && b < hi :: b <= c
  {
    if breaks != [] {
      var n := |breaks| - 1;
      var front := breaks[..n];
      LastBetweenIs(front, lo, hi);
      assert forall b :: b in breaks <==> b in front || b == breaks[n] by { assert breaks == front + [breaks[n]]; }
      forall b | b in front ensures b < breaks[n] {
        var i :| 0 <= i < |front| && front[i] == b;
      }
    }
  }

  lemma {:induction false} FirstAfterIs(breaks: seq<nat>, lo: nat)
    requires Ascending(breaks)
    ensures FirstAfter(breaks, lo) == NoCut ==> forall b | b in breaks :: b <= lo
    ensures FirstAfter(breaks, lo).CutAt? ==>
              var c := FirstAfter(breaks, lo).pos;
              c in breaks && c > lo && forall b | b in breaks && b > lo :: c <= b
  {
    if breaks != [] {
      var rest := breaks[1..];
      FirstAfterIs(rest, lo);
      assert forall b :: b in breaks <==> b in rest || b == breaks[0] by { assert breaks == [breaks[0]] + rest; }
      forall b | b in rest ensures b > breaks[0] {
        var i :| 0 <= i < |rest| && rest[i] == b;
      }
    }
  }

  lemma CutIsBreak(breaks: seq<nat>, start: nat, width: nat)
    requires Ascending(breaks)
    ensures NextCut(breaks, start, width).CutAt? ==> NextCut(breaks, start, width).pos in breaks && NextCut(breaks, start, width).pos > start
  {
    LastBetweenIs(breaks, start, start + width);
    FirstAfterIs(breaks, start);
  }

  /** The lines of text from start on. */
  function LinesFrom(text: string, breaks: seq<nat>, width: nat, start: nat): (lines: seq<string>)
    requires start <= |text| && Ascending(breaks) && forall b | b in breaks :: b < |text|
    ensures lines != []
    decreases |text| - start
  {
    if |text| - start <= width then [text[start..]]
    else
      CutIsBreak(breaks, start, width);
      match NextCut(breaks, start, width)
      case NoCut => [text[start..]]
      case CutAt(c) => [text[start..c]] + LinesFrom(text, breaks, width, c + 1)
  }

  function Lines(text: string, width: int): (lines: seq<string>)
    ensures lines != []
  {
    BreaksAre(text);
    if width <= 0 || |text| <= width then [text] else LinesFrom(text, Breaks(text), width, 0)
  }

  /** Lines as written: indented where a line begins, each ended. */
  function Emit(bol: bool, indent: string, lines: seq<string>): string
    decreases lines
  {
    if lines == [] then ""
    else (if bol then indent else "") + lines[0] + "\n" + Emit(true, indent, lines[1..])
  }

  function Join(lines: seq<string>): string
  {
    if lines == [] then ""
    else if |lines| == 1 then lines[0]
    else lines[0] + " " + Join(lines[1..])
  }

  // ----- nothing is lost

  lemma {:induction false} LinesFromJoin(text: string, breaks: seq<nat>, width: nat, start: nat)
    requires start <= |text| && Ascending(breaks) && forall b | b in breaks :: b < |text| && text[b] == ' '
    ensures Join(LinesFrom(text, breaks, width, start)) == text[start..]
    decreases |text| - start
  {
    CutIsBreak(breaks, start, width);
    if |text| - start > width && NextCut(breaks, start, width).CutAt? {
      var c := NextCut(breaks, start, width).pos;
      LinesFromJoin(text, breaks, width, c + 1);
      var rest := LinesFrom(text, breaks, width, c + 1);
      assert ([text[start..c]] + rest)[1..] == rest;
      assert text[start..] == text[start..c] + " " + text[c + 1..];
    }
  }

  /** The lines, joined by single spaces, are the text. */
  lemma WrapLosesNothing(text: string, width: int)
    ensures Join(Lines(text, width)) == text
  {
    BreaksAre(text);
    if width > 0 && |text| > width {
      LinesFromJoin(text, Breaks(text), width, 0);
      assert text[0..] == text;
    }
  }

  // ----- how long a line may be

  /** A line wider than the width had nowhere to break within it, and every line but the last
      ends at a break with no later one under the width. */
  lemma {:induction false} LinesAreGreedy(text: string, breaks: seq<nat>, width: nat, start: nat, k: nat, at: nat)
    requires start <= |text| && Ascending(breaks) && (forall b | b in breaks :: b < |text|) && width > 0
    requires k < |LinesFrom(text, breaks, width, start)| && at == start + Offset(LinesFrom(text, breaks, width, start), k)
    ensures at + |LinesFrom(text, breaks, width, start)[k]| <= |text|
    ensures |LinesFrom(text, breaks, width, start)[k]| > width ==> forall b | b in breaks :: !(at < b <= at + width)
    ensures k + 1 < |LinesFrom(text, breaks, width, start)| ==>
              var end := at + |LinesFrom(text, breaks, width, start)[k]|;
              && end in breaks && at < end && (forall b | b in breaks :: !(end < b < at + width))
              && (end >= at + width ==> forall b | b in breaks :: !(at < b < end))
    decreases |text| - start
  {
    hide LinesFrom, NextCut;
    LinesCases(text, breaks, width, start);
    if |text| - start > width && NextCut(breaks, start, width).CutAt? {
      var c := NextCut(breaks, start, width).pos;
      LinesCut(text, breaks, width, start, c);
      CutIsGreedy(breaks, start, width, c);
      var rest := LinesFrom(text, breaks, width, c + 1);
      if k > 0 {
        OffsetNext(text[start..c], rest, k);
        LinesAreGreedy(text, breaks, width, c + 1, k - 1, at);
      }
    }
  }

  lemma LinesCases(text: string, breaks: seq<nat>, width: nat, start: nat)
    requires start <= |text| && Ascending(breaks) && forall b | b in breaks :: b < |text|
    ensures |text| - start <= width || NextCut(breaks, start, width) == NoCut ==> LinesFrom(text, breaks, width, start) == [text[start..]]
    ensures NextCut(breaks, start, width) == NoCut ==> forall b | b in breaks :: b <= start
  {
    LastBetweenIs(breaks, start, start + width);
    FirstAfterIs(breaks, start);
  }

  lemma LinesCut(text: string, breaks: seq<nat>, width: nat, start: nat, c: nat)
    requires start <= |text| && Ascending(breaks) && forall b | b in breaks :: b < |text|
    requires |text| - start > width && NextCut(breaks, start, width) == CutAt(c)
    ensures start < c < |text| && c in breaks
    ensures LinesFrom(text, breaks, width, start) == [text[start..c]] + LinesFrom(text, breaks, width, c + 1)
  {
    hide NextCut;
    CutIsBreak(breaks, start, width);
  }

  lemma CutIsGreedy(breaks: seq<nat>, start: nat, width: nat, c: nat)
    requires Ascending(breaks) && NextCut(breaks, start, width) == CutAt(c)
    ensures forall b | b in breaks :: !(c < b < start + width)
    ensures c >= start + width ==> forall b | b in breaks :: !(start < b < c)
  {
    LastBetweenIs(breaks, start, start + width);
    FirstAfterIs(breaks, start);
  }

  lemma OffsetNext(line: string, rest: seq<string>, k: nat)
    requires 0 < k <= |rest| + 1
    ensures Offset([line] + rest, k) == |line| + 1 + Offset(rest, k - 1)
    ensures k <= |rest| ==> ([line] + rest)[k] == rest[k - 1]
  {
    assert ([line] + rest)[1..] == rest;
  }

  /** Where line k starts, counting one separator after each line. */
  function Offset(lines: seq<string>, k: nat): nat
    requires k <= |lines|
  {
    if k == 0 then 0 else |lines[0]| + 1 + Offset(lines[1..], k - 1)
  }

  lemma {:induction false} LinesAreSlices(text: string, breaks: seq<nat>, width: nat, start: nat, k: nat, at: nat)
    requires start <= |text| && Ascending(breaks) && (forall b | b in breaks :: b < |text|) && width > 0
    requires k < |LinesFrom(text, breaks, width, start)| && at == start + Offset(LinesFrom(text, breaks, width, start), k)
    ensures at + |LinesFrom(text, breaks, width, start)[k]| <= |text|
    ensures LinesFrom(text, breaks, width, start)[k] == text[at..at + |LinesFrom(text, breaks, width, start)[k]|]
    ensures k + 1 == |LinesFrom(text, breaks, width, start)| ==> at + |LinesFrom(text, breaks, width, start)[k]| == |text|
    decreases |text| - start
  {
    hide LinesFrom, NextCut;
    LinesCases(text, breaks, width, start);
    if |text| - start > width && NextCut(breaks, start, width).CutAt? {
      var c := NextCut(breaks, start, width).pos;
      LinesCut(text, breaks, width, start, c);
      if k > 0 {
        OffsetNext(text[start..c], LinesFrom(text, breaks, width, c + 1), k);
        LinesAreSlices(text, breaks, width, c + 1, k - 1, at);
      }
    }
  }

  /** Line k as it is written, which starts at at and ends at end. It is wider than the width only
      if it had nowhere safe to break within it. Unless it is the last, it ends at the last safe
      break strictly under the width, or else at the first safe break there is. So a later safe
      break that would still fit is passed over exactly when that break is right at the width and
      there was an earlier one. */
  lemma LinesFit(text: string, width: int, k: nat, at: nat, end: nat)
    requires width > 0 && k < |Lines(text, width)| && at == Offset(Lines(text, width), k) && end == at + |Lines(text, width)[k]|
    ensures end <= |text| && Lines(text, width)[k] == text[at..end]
    ensures end - at > width ==> forall b: nat | Safe(text, b) :: !(at < b <= at + width)
    ensures k + 1 < |Lines(text, width)| ==>
              && Safe(text, end) && at < end && (forall b: nat | Safe(text, b) :: !(end < b < at + width))
              && (end >= at + width ==> forall b: nat | Safe(text, b) :: !(at < b < end))
    ensures k + 1 < |Lines(text, width)| ==>
              ((exists b: nat :: Safe(text, b) && end < b <= at + width) <==> end < at + width && Safe(text, at + width))
  {
    hide LinesFrom, NextCut, Breaks, Run;
    BreaksAre(text);
    if |text| > width {
      LinesAreGreedy(text, Breaks(text), width, 0, k, at);
      LinesAreSlices(text, Breaks(text), width, 0, k, at);
      assert forall b: nat | Safe(text, b) :: b in Breaks(text);
    }
  }

  lemma {:induction false} ProseStays(s: string)
    requires '<' !in s
    ensures Run(Prose, s) == Prose
  {
    if s != "" {
      ProseStays(s[..|s| - 1]);
    }
  }

  /** At width 4 the first line of "a bb cc" is "a", though "a bb" would fit. */
  lemma FitNotTaken()
    ensures Lines("a bb cc", 4)[0] == "a" && Safe("a bb cc", 4)
  {
    hide Lines, Run;
    var text := "a bb cc";
    ProseStays(text[..1]);
    ProseStays(text[..4]);
    assert Safe(text, 1) && Safe(text, 4);
    var lines := Lines(text, 4);
    OneLineWhole(text, 4);
    LinesFit(text, 4, 0, 0, |lines[0]|);
    assert text[0..1] == "a";
  }

  lemma OneLineWhole(text: string, width: int)
    ensures |Lines(text, width)| == 1 ==> Lines(text, width)[0] == text
  {
    WrapLosesNothing(text, width);
  }

  // ----- collapsing what was written

  predicate Tidy(text: string)
  {
    Squeeze(text) == text && Trimmed(text)
  }

  lemma {:induction false} TidyNoDouble(text: string, i: nat)
    requires Squeeze(text) == text && i < |text|
    ensures IsWs(text[i]) ==> text[i] == ' ' && (i + 1 < |text| ==> !IsWs(text[i + 1]))
  {
    SqueezeSpaces(text, i);
  }

  /** In collapsed text whitespace is single spaces. */
  lemma {:induction false} SqueezeSpaces(s: string, i: nat)
    requires i < |Squeeze(s)|
    ensures IsWs(Squeeze(s)[i]) ==> Squeeze(s)[i] == ' ' && (i + 1 < |Squeeze(s)| ==> !IsWs(Squeeze(s)[i + 1]))
  {
    if s != "" {
      var front := s[..|s| - 1];
      SqueezeEnds(front);
      if i < |Squeeze(front)| {
        SqueezeSpaces(front, i);
      }
    }
  }

  /** A piece of collapsed text is collapsed. */
  lemma {:induction false} PieceSqueezed(s: string)
    requires forall i | 0 <= i < |s| && IsWs(s[i]) :: s[i] == ' ' && (i + 1 < |s| ==> !IsWs(s[i + 1]))
    ensures Squeeze(s) == s
  {
    if s != "" {
      var front := s[..|s| - 1];
      PieceSqueezed(front);
      assert s == front + [s[|s| - 1]];
      if IsWs(s[|s| - 1]) && front != "" {
        assert !IsWs(s[|s| - 2]);
      }
    }
  }

  /** The written lines without the first indent and the last line end. */
  function Body(indent: string, lines: seq<string>): string
  {
    if lines == [] then ""
    else if |lines| == 1 then lines[0]
    else lines[0] + (("\n" + indent) + Body(indent, lines[1..]))
  }

  /** Collapsed, with something other than whitespace at both ends. */
  predicate Solid(l: string)
  {
    l != "" && !IsWs(l[0]) && !IsWs(l[|l| - 1]) && Squeeze(l) == l
  }

  lemma EmitMore(indent: string, lines: seq<string>)
    requires lines != []
    ensures Emit(true, indent, lines) == indent + lines[0] + "\n" + Emit(true, indent, lines[1..])
    ensures Body(indent, lines) == if |lines| == 1 then lines[0] else lines[0] + (("\n" + indent) + Body(indent, lines[1..]))
    ensures |lines| == 1 ==> Emit(true, indent, lines[1..]) == ""
  {
  }

  /** What is written for lines is what is written for each: an indent, unless it is the first and
      does not begin a line, the line, and a line end. */
  lemma {:induction false} EmitEach(bol: bool, indent: string, a: seq<string>, line: string, b: seq<string>)
    ensures Emit(bol, indent, []) == ""
    ensures Emit(bol, indent, a + [line] + b) ==
            Emit(bol, indent, a) + (if bol || a != [] then indent else "") + line + "\n" + Emit(true, indent, b)
    decreases a
  {
    var all := a + [line] + b;
    if a == [] {
      assert all[0] == line && all[1..] == b;
    } else {
      EmitEach(true, indent, a[1..], line, b);
      assert all[0] == a[0] && all[1..] == a[1..] + [line] + b;
    }
  }

  lemma {:induction false} EmitIsBody(indent: string, lines: seq<string>)
    requires lines != []
    ensures Emit(true, indent, lines) == indent + (Body(indent, lines) + "\n")
  {
    hide Emit, Body;
    EmitMore(indent, lines);
    if |lines| > 1 {
      EmitIsBody(indent, lines[1..]);
      var line, gap, tail := lines[0], "\n" + indent, Body(indent, lines[1..]);
      assert "\n" + (indent + (tail + "\n")) == (gap + tail) + "\n";
      assert indent + line + "\n" + (indent + (tail + "\n")) == indent + ((line + (gap + tail)) + "\n");
    }
  }

  lemma {:induction false} BodyEnds(indent: string, lines: seq<string>)
    requires lines != [] && lines[0] != "" && lines[|lines| - 1] != ""
    ensures Body(indent, lines) != "" && Body(indent, lines)[0] == lines[0][0]
    ensures Body(indent, lines)[|Body(indent, lines)| - 1] == lines[|lines| - 1][|lines[|lines| - 1]| - 1]
  {
    if |lines| > 1 {
      var rest := lines[1..];
      if rest[0] != "" {
        BodyEnds(indent, rest);
      } else {
        BodyEndsLast(indent, rest);
      }
    }
  }

  lemma {:induction false} BodyEndsLast(indent: string, lines: seq<string>)
    requires lines != [] && lines[|lines| - 1] != ""
    ensures Body(indent, lines) != ""
    ensures Body(indent, lines)[|Body(indent, lines)| - 1] == lines[|lines| - 1][|lines[|lines| - 1]| - 1]
  {
    if |lines| > 1 {
      BodyEndsLast(indent, lines[1..]);
    }
  }

  /** Collapsing solid lines as written joins them by single spaces. */
  lemma {:induction false} SqueezeBody(indent: string, lines: seq<string>)
    requires Blank(indent) && lines != [] && forall l | l in lines :: Solid(l)
    ensures Squeeze(Body(indent, lines)) == Join(lines)
  {
    hide Squeeze;
    assert lines[0] in lines;
    if |lines| > 1 {
      var gap, tail := "\n" + indent, lines[1..];
      var rest := Body(indent, tail);
      forall l | l in tail ensures Solid(l) {
        assert l in lines;
      }
      assert tail[0] in tail && tail[|tail| - 1] in tail;
      SqueezeBody(indent, tail);
      BodyEnds(indent, tail);
      SqueezeBlank(gap);
      SqueezeConcat(gap, rest);
      SqueezeConcat(lines[0], gap + rest);
      assert lines[0] + " " + Join(tail) == lines[0] + (" " + Join(tail));
    }
  }

  /** A cut of tidy text away from its spaces is solid. */
  lemma PieceSolid(text: string, a: nat, b: nat)
    requires Tidy(text) && a < b <= |text|
    requires a > 0 ==> text[a - 1] == ' '
    requires b < |text| ==> text[b] == ' '
    ensures Solid(text[a..b])
  {
    var l := text[a..b];
    forall i | 0 <= i < |l| && IsWs(l[i]) ensures l[i] == ' ' && (i + 1 < |l| ==> !IsWs(l[i + 1])) {
      TidyNoDouble(text, a + i);
    }
    PieceSqueezed(l);
    if a > 0 {
      TidyNoDouble(text, a - 1);
    }
    if b < |text| {
      TidyNoDouble(text, b - 1);
    }
  }

  lemma {:induction false} LinesFromSolid(text: string, breaks: seq<nat>, width: nat, start: nat)
    requires Tidy(text) && start < |text| && Ascending(breaks) && forall b | b in breaks :: b < |text| && text[b] == ' '
    requires start > 0 ==> text[start - 1] == ' '
    ensures forall l | l in LinesFrom(text, breaks, width, start) :: Solid(l)
    ensures var lines := LinesFrom(text, breaks, width, start);
            && lines[0] != "" && lines[|lines| - 1] != ""
            && lines[0][0] == text[start] && lines[|lines| - 1][|lines[|lines| - 1]| - 1] == text[|text| - 1]
    decreases |text| - start
  {
    hide Squeeze, NextCut, Solid;
    CutIsBreak(breaks, start, width);
    if |text| - start > width && NextCut(breaks, start, width).CutAt? {
      var c := NextCut(breaks, start, width).pos;
      assert c + 1 < |text|;
      PieceSolid(text, start, c);
      LinesFromSolid(text, breaks, width, c + 1);
      var rest := LinesFrom(text, breaks, width, c + 1);
      assert LinesFrom(text, breaks, width, start) == [text[start..c]] + rest;
    } else {
      PieceSolid(text, start, |text|);
      assert text[start..] == text[start..|text|];
    }
  }

  lemma LinesSolid(text: string, width: int)
    requires Tidy(text) && text != ""
    ensures var lines := Lines(text, width);
            && (forall l | l in lines :: Solid(l))
            && lines[0] != "" && lines[|lines| - 1] != "" && lines[0][0] == text[0] && lines[|lines| - 1][|lines[|lines| - 1]| - 1] == text[|text| - 1]
  {
    BreaksAre(text);
    if width > 0 && |text| > width {
      LinesFromSolid(text, Breaks(text), width, 0);
    }
  }

  /** Trimming and collapsing what was written for tidy text gives the text back. */
  lemma WrapUndone(text: string, indent: string, width: int)
    requires Tidy(text) && Blank(indent)
    ensures Trim(Emit(true, indent, Lines(text, width))) == Body(indent, Lines(text, width))
    ensures Squeeze(Body(indent, Lines(text, width))) == text
  {
    hide Squeeze, Trim;
    var lines := Lines(text, width);
    EmitIsBody(indent, lines);
    if text == "" {
      EmptyLines(width);
      TrimAround(indent, "", "\n");
      SqueezeNothing();
    } else {
      LinesSolid(text, width);
      SqueezeBody(indent, lines);
      BodyEnds(indent, lines);
      WrapLosesNothing(text, width);
      TrimAround(indent, Body(indent, lines), "\n");
    }
  }

  lemma EmptyLines(width: int)
    ensures Lines("", width) == [""]
  {
  }

  lemma SqueezeNothing()
    ensures Squeeze("") == ""
  {
  }

  lemma SqueezedIsTidy(s: string)
    requires Trimmed(s)
    ensures Tidy(Squeeze(s))
  {
    SqueezeTwice(s);
    SqueezeEnds(s);
  }

  // ----- line comments

  /** How far the text is into a `//` that no colon precedes. */
  datatype Slashes = Found | Slash | Colon | ColonSlash | Other

  function Slashed(p: Slashes, c: char): Slashes
  {
    if p == Found then Found
    else if c == '/' then
      match p
      case Slash => Found
      case Colon => ColonSlash
      case _ => Slash
    else if c == ':' then Colon
    else Other
  }

  function Comment(s: string): Slashes
  {
    if s == "" then Other else Slashed(Comment(s[..|s| - 1]), s[|s| - 1])
  }

  /** A `//` opens a comment at pos unless a scheme's colon comes right before it. */
  predicate IsLineCommentStart(s: string, pos: nat)
  {
    pos + 1 < |s| && s[pos] == '/' && s[pos + 1] == '/' && (pos == 0 || s[pos - 1] != ':')
  }

  method HoldsLineComment(s: string) returns (b: bool)
    ensures b <==> Comment(s) == Found
  {
    CommentFound(s);
    for i := 0 to |s|
      invariant forall j | 0 <= j < i :: !IsLineCommentStart(s, j)
    {
      if IsLineCommentStart(s, i) {
        return true;
      }
    }
    return false;
  }

  ghost predicate StartsComment(s: string)
  {
    exists i: nat :: IsLineCommentStart(s, i)
  }

  lemma {:induction false} CommentFound(s: string)
    ensures Comment(s) == Found <==> StartsComment(s)
    ensures Comment(s) == Slash ==> s != "" && s[|s| - 1] == '/' && (|s| == 1 || s[|s| - 2] != ':')
    ensures Comment(s) == ColonSlash ==> |s| > 1 && s[|s| - 1] == '/' && s[|s| - 2] == ':'
    ensures Comment(s) == Colon ==> s != "" && s[|s| - 1] == ':'
    ensures Comment(s) == Other && s != "" ==> s[|s| - 1] != '/' && s[|s| - 1] != ':'
  {
    if s != "" {
      var n := |s| - 1;
      var front := s[..n];
      CommentFound(front);
      forall i: nat ensures IsLineCommentStart(s, i) <==> IsLineCommentStart(front, i) || (i + 1 == n && IsLineCommentStart(s, n - 1)) {
      }
      if StartsComment(front) {
        var i: nat :| IsLineCommentStart(front, i);
        assert IsLineCommentStart(s, i);
      }
      if n > 0 && IsLineCommentStart(s, n - 1) {
        assert StartsComment(s);
      }
    }
  }

  /** Collapsing whitespace neither makes nor unmakes a line comment. */
  lemma {:induction false} SqueezeKeepsComments(s: string)
    ensures Comment(Squeeze(s)) == Comment(s)
  {
    if s != "" {
      var front, c := s[..|s| - 1], s[|s| - 1];
      var f := Squeeze(front);
      SqueezeKeepsComments(front);
      if !IsWs(c) {
        assert (f + [c])[..|f|] == f;
      } else if !EndsBlank(front) {
        assert (f + " ")[..|f|] == f;
      }
    }
  }

  // ----- the whole step, twice

  /** What writing a trimmed text at the beginning of a line puts out. */
  function Written(text: string, indent: string, width: int): string
  {
    if Comment(text) == Found then indent + (text + "\n") else Emit(true, indent, Lines(Squeeze(text), width))
  }

  /** Formatting what formatting put out changes nothing, for every text. */
  lemma WritingTwice(s: string, indent: string, width: int)
    requires Blank(indent)
    ensures Written(Trim(Written(Trim(s), indent, width)), indent, width) == Written(Trim(s), indent, width)
  {
    hide Squeeze, Trim, Comment, Emit, Lines, Body;
    var t := Trim(s);
    TrimTrims(s);
    if Comment(t) == Found {
      TrimAround(indent, t, "\n");
    } else {
      SqueezedIsTidy(t);
      WrapUndone(Squeeze(t), indent, width);
      SqueezeKeepsComments(t);
      SqueezeKeepsComments(Body(indent, Lines(Squeeze(t), width)));
    }
  }

  // ----- quoted values stay on one line

  predicate IsIndent(s: string)
  {
    forall i | 0 <= i < |s| :: s[i] == ' ' || s[i] == '\t'
  }

  /** No line end in s falls inside a quoted value, reading on from place p. */
  ghost predicate Intact(p: Place, s: string)
  {
    forall i | 0 <= i < |s| && s[i] == '\n' :: !Run(p, s[..i]).Quoted?
  }

  lemma IntactConcat(p: Place, a: string, b: string)
    requires Intact(p, a) && Intact(Run(p, a), b)
    ensures Intact(p, a + b)
  {
    hide Run;
    var s := a + b;
    forall i | 0 <= i < |s| && s[i] == '\n' ensures !Run(p, s[..i]).Quoted? {
      if i < |a| {
        assert s[..i] == a[..i];
      } else {
        assert s[..i] == a + b[..i - |a|];
        RunConcat(p, a, b[..i - |a|]);
      }
    }
  }

  lemma {:induction false} IndentStays(p: Place, indent: string)
    requires IsIndent(indent) && (p == Prose || p == Tag)
    ensures Run(p, indent) == p
  {
    if indent != "" {
      IndentStays(p, indent[..|indent| - 1]);
    }
  }

  /** A line end and an indent leave the same place as the space they stand for. */
  lemma GapLikeSpace(p: Place, indent: string)
    requires IsIndent(indent) && !p.Quoted? && (p.Closing? ==> IsQuote(p.q))
    ensures Run(p, "\n" + indent) == Run(p, " ") && (Run(p, " ") == Prose || Run(p, " ") == Tag)
    ensures Intact(p, "\n" + indent)
  {
    assert "\n"[..0] == "" && " "[..0] == "";
    RunConcat(p, "\n", indent);
    IndentStays(Run(p, "\n"), indent);
    forall i | 0 <= i < |"\n" + indent| && ("\n" + indent)[i] == '\n' ensures !Run(p, ("\n" + indent)[..i]).Quoted? {
      assert i == 0;
      assert ("\n" + indent)[..0] == "";
    }
  }

  lemma {:induction false} RunQuotes(p: Place, s: string)
    requires (p.Closing? || p.Quoted?) ==> IsQuote(p.q)
    ensures (Run(p, s).Closing? || Run(p, s).Quoted?) ==> IsQuote(Run(p, s).q)
  {
    if s != "" {
      RunQuotes(p, s[..|s| - 1]);
    }
  }

  lemma {:induction false} LinesFromIntact(text: string, width: nat, start: nat, indent: string)
    requires start <= |text| && '\n' !in text && IsIndent(indent) && Ascending(Breaks(text))
    requires forall b | b in Breaks(text) :: b < |text|
    ensures var body := Body(indent, LinesFrom(text, Breaks(text), width, start));
            Intact(Run(Prose, text[..start]), body) && Run(Run(Prose, text[..start]), body) == Run(Prose, text)
    decreases |text| - start
  {
    hide Run, Intact, NextCut, Breaks;
    var breaks := Breaks(text);
    CutIsBreak(breaks, start, width);
    BreaksAre(text);
    if |text| - start > width && NextCut(breaks, start, width).CutAt? {
      var c := NextCut(breaks, start, width).pos;
      var line, rest := text[start..c], LinesFrom(text, breaks, width, c + 1);
      LinesFromIntact(text, width, c + 1, indent);
      assert ([line] + rest)[1..] == rest;
      assert Body(indent, [line] + rest) == line + (("\n" + indent) + Body(indent, rest));
      GapIntact(text, start, c, indent, Body(indent, rest));
    } else {
      assert text == text[..start] + text[start..];
      RunConcat(Prose, text[..start], text[start..]);
      NoLineEnd(Run(Prose, text[..start]), text[start..]);
    }
  }

  /** Breaking a text at a safe space leaves its quoted values whole if the rest does. */
  lemma GapIntact(text: string, start: nat, c: nat, indent: string, tail: string)
    requires start <= c < |text| && '\n' !in text && IsIndent(indent) && Safe(text, c)
    requires Intact(Run(Prose, text[..c + 1]), tail) && Run(Run(Prose, text[..c + 1]), tail) == Run(Prose, text)
    ensures var p, body := Run(Prose, text[..start]), text[start..c] + (("\n" + indent) + tail);
            Intact(p, body) && Run(p, body) == Run(Prose, text)
  {
    hide Run, Intact;
    var p, line, gap, q := Run(Prose, text[..start]), text[start..c], "\n" + indent, Run(Prose, text[..c]);
    assert text[..c] == text[..start] + line;
    RunConcat(Prose, text[..start], line);
    RunQuotes(Prose, text[..c]);
    GapLikeSpace(q, indent);
    assert text[..c + 1] == text[..c] + " ";
    RunConcat(Prose, text[..c], " ");
    NoLineEnd(p, line);
    IntactConcat(q, gap, tail);
    RunConcat(q, gap, tail);
    IntactConcat(p, line, gap + tail);
    RunConcat(p, line, gap + tail);
  }

  lemma NoLineEnd(p: Place, s: string)
    requires '\n' !in s
    ensures Intact(p, s)
  {
  }

  /** Reading what was written, no line end but the last is inside a quoted value, and the
      last one is exactly when the text itself ends inside one. */
  lemma QuotesStayWhole(text: string, width: int, indent: string)
    requires '\n' !in text && IsIndent(indent)
    ensures var out := Emit(true, indent, Lines(text, width));
            && out != "" && Intact(Prose, out[..|out| - 1])
            && (Intact(Prose, out) <==> !Run(Prose, text).Quoted?)
  {
    hide Run, Emit, Body;
    var lines := Lines(text, width);
    var body := Body(indent, lines);
    EmitIsBody(indent, lines);
    var out := Emit(true, indent, lines);
    BreaksAre(text);
    RunNothing(Prose);
    if width <= 0 || |text| <= width {
      BodyOfOne(indent, text);
      NoLineEnd(Prose, text);
    } else {
      LinesFromIntact(text, width, 0, indent);
      assert text[..0] == "";
    }
    IndentStays(Prose, indent);
    NoLineEnd(Prose, indent);
    IntactConcat(Prose, indent, body);
    RunConcat(Prose, indent, body);
    assert out == (indent + body) + "\n" && out[..|out| - 1] == indent + body;
    forall i | 0 <= i < |out| && out[i] == '\n' ensures i == |out| - 1 || !Run(Prose, out[..i]).Quoted? {
      if i < |out| - 1 {
        assert out[..i] == (indent + body)[..i];
      }
    }
  }

  lemma BodyOfOne(indent: string, text: string)
    ensures Body(indent, [text]) == text
  {
  }

  // ----- quoted values, in their own terms

  ghost predicate IsMark(q: char)
  {
    q == '"' || q == '\''
  }

  /** The inside of a value between two q: no q but in pairs. */
  predicate Doubled(v: string, q: char)
  {
    v == "" || (v[0] != q && Doubled(v[1..], q)) || (|v| > 1 && v[0] == q && v[1] == q && Doubled(v[2..], q))
  }

  /** The inside of a tag outside its values. */
  predicate Bare(t: string)
  {
    '"' !in t && '\'' !in t && '>' !in t
  }

  lemma RunNext(p: Place, c: char, s: string)
    ensures Run(p, [c] + s) == Run(Step(p, c), s)
  {
    RunConcat(p, [c], s);
    assert [c][..0] == "";
  }

  lemma {:induction false} ProseRuns(a: string)
    requires '<' !in a
    ensures Run(Prose, a) == Prose
  {
    if a != "" {
      ProseRuns(a[1..]);
      assert a == [a[0]] + a[1..];
      RunNext(Prose, a[0], a[1..]);
    }
  }

  lemma {:induction false} BareRuns(t: string)
    requires Bare(t)
    ensures Run(Tag, t) == Tag
  {
    if t != "" {
      BareRuns(t[1..]);
      assert t == [t[0]] + t[1..];
      RunNext(Tag, t[0], t[1..]);
    }
  }

  lemma {:induction false} ValueRuns(v: string, q: char, i: nat)
    requires Doubled(v, q) && i <= |v|
    ensures Run(Quoted(q), v) == Quoted(q)
    ensures i < |v| && v[i] != q ==> Run(Quoted(q), v[..i]) == Quoted(q)
    decreases |v|
  {
    if v != "" && v[0] != q {
      var rest := v[1..];
      assert v == [v[0]] + rest;
      ValueRuns(rest, q, if i > 0 then i - 1 else 0);
      RunNext(Quoted(q), v[0], rest);
      if i > 0 {
        assert v[..i] == [v[0]] + rest[..i - 1];
        RunNext(Quoted(q), v[0], rest[..i - 1]);
      }
    } else if v != "" {
      var rest := v[2..];
      assert v == [q] + ([q] + rest);
      ValueRuns(rest, q, if i > 1 then i - 2 else 0);
      RunNext(Quoted(q), q, [q] + rest);
      RunNext(Closing(q), q, rest);
      if i > 1 {
        assert v[..i] == [q] + ([q] + rest[..i - 2]);
        RunNext(Quoted(q), q, [q] + rest[..i - 2]);
        RunNext(Closing(q), q, rest[..i - 2]);
      }
    }
  }

  /** Prose, a tag up to a value, the value with its quotes, and the rest. */
  function Framed(a: string, t: string, q: char, v: string, rest: string): string
  {
    a + "<" + t + [q] + v + [q] + rest
  }

  lemma RunToValue(a: string, t: string, q: char, s: string)
    requires '<' !in a && Bare(t) && IsMark(q)
    ensures Run(Prose, a + "<" + t) == Tag && Run(Prose, a + "<" + t + [q] + s) == Run(Quoted(q), s)
  {
    ProseRuns(a);
    RunConcat(Prose, a, "<");
    RunConcat(Prose, a + "<", t);
    RunConcat(Prose, a, "<" + t);
    BareRuns(t);
    RunNext(Prose, '<', "");
    assert "<" + "" == "<";
    assert Run(Prose, a + "<") == Tag;
    RunConcat(Prose, a + "<" + t, [q] + s);
    assert a + "<" + t + [q] + s == a + "<" + t + ([q] + s);
    RunNext(Tag, q, s);
  }

  /** No break lies within a quoted value, whichever quote it has and with doubled ones in it. */
  lemma NoBreakInValue(a: string, t: string, q: char, v: string, rest: string, i: nat)
    requires '<' !in a && Bare(t) && (q == '"' || q == '\'') && Doubled(v, q)
    requires |a| + |t| + 2 <= i < |a| + |t| + 2 + |v|
    ensures !Safe(Framed(a, t, q, v, rest), i) && i !in Breaks(Framed(a, t, q, v, rest))
  {
    hide Run;
    var text := Framed(a, t, q, v, rest);
    var j := i - |a| - |t| - 2;
    BreaksAre(text);
    assert text[i] == v[j];
    if v[j] == ' ' {
      assert text[..i] == a + "<" + t + [q] + v[..j];
      RunToValue(a, t, q, v[..j]);
      ValueRuns(v, q, j);
    }
  }

  lemma {:induction false} PlainIsDoubled(v: string, q: char)
    requires q !in v
    ensures Doubled(v, q)
  {
    if v != "" {
      PlainIsDoubled(v[1..], q);
    }
  }

  /** A space in prose is a break, and so is one in a tag before its value, between the value and
      the tag's end, and in the prose after. */
  lemma BreakOutsideValue(a: string, t: string, q: char, v: string, u: string, w: string, i: nat)
    requires '<' !in a && Bare(t) && (q == '"' || q == '\'') && Doubled(v, q) && Bare(u) && '<' !in w
    requires var text := Framed(a, t, q, v, u + ">" + w);
             i < |text| && text[i] == ' ' && (i < |a| + |t| + 2 || i > |a| + |t| + 2 + |v|)
    ensures i in Breaks(Framed(a, t, q, v, u + ">" + w))
  {
    hide Run;
    var text := Framed(a, t, q, v, u + ">" + w);
    BreaksAre(text);
    if i < |a| {
      assert text[..i] == a[..i];
      ProseRuns(a[..i]);
    } else if i < |a| + |t| + 2 {
      var j := i - |a| - 1;
      assert i != |a| && i != |a| + 1 + |t|;
      assert text[..i] == a + "<" + t[..j];
      RunToValue(a, t[..j], q, "");
    } else {
      AfterValue(a, t, q, v, u, w, i);
    }
  }

  lemma AfterValue(a: string, t: string, q: char, v: string, u: string, w: string, i: nat)
    requires '<' !in a && Bare(t) && IsMark(q) && Doubled(v, q) && Bare(u) && '<' !in w
    requires var text := Framed(a, t, q, v, u + ">" + w);
             |a| + |t| + 2 + |v| < i < |text| && text[i] == ' '
    ensures !Run(Prose, Framed(a, t, q, v, u + ">" + w)[..i]).Quoted?
  {
    hide Run;
    var rest := u + ">" + w;
    var text := Framed(a, t, q, v, rest);
    var j := i - |a| - |t| - 3 - |v|;
    assert text[..i] == a + "<" + t + [q] + (v + ([q] + rest[..j]));
    RunToValue(a, t, q, v + ([q] + rest[..j]));
    RunConcat(Quoted(q), v, [q] + rest[..j]);
    ValueRuns(v, q, 0);
    RunNext(Quoted(q), q, rest[..j]);
    if j <= |u| {
      assert rest[..j] == u[..j];
      ClosingBare(q, u[..j]);
    } else {
      assert rest[..j] == u + (">" + w[..j - |u| - 1]);
      RunConcat(Closing(q), u, ">" + w[..j - |u| - 1]);
      ClosingBare(q, u);
      RunNext(Run(Closing(q), u), '>', w[..j - |u| - 1]);
      ProseRuns(w[..j - |u| - 1]);
    }
  }

  /** After a closing quote the scan is in the tag, or has just left the value. */
  lemma {:induction false} ClosingBare(q: char, u: string)
    requires Bare(u) && IsMark(q)
    ensures Run(Closing(q), u) == if u == "" then Closing(q) else Tag
  {
    if u == "" {
      RunNothing(Closing(q));
    } else {
      assert u == [u[0]] + u[1..];
      RunNext(Closing(q), u[0], u[1..]);
      BareRuns(u[1..]);
    }
  }

  /** A quoted value is written on one line, quotes and all. */
  lemma ValueOnOneLine(a: string, t: string, q: char, v: string, rest: string, width: int) returns (k: nat, i: nat)
    requires '<' !in a && Bare(t) && (q == '"' || q == '\'') && Doubled(v, q)
    ensures var lines := Lines(Framed(a, t, q, v, rest), width);
            k < |lines| && i + |v| + 2 <= |lines[k]| && lines[k][i..i + |v| + 2] == [q] + v + [q]
  {
    hide Run, Lines, Breaks;
    var text := Framed(a, t, q, v, rest);
    var open := |a| + |t| + 1;
    var close := open + |v| + 1;
    assert text[open..close + 1] == [q] + v + [q];
    var lines := Lines(text, width);
    if width <= 0 {
      NotWrapped(text, width);
      k, i := 0, open;
    } else {
      k := LineHolding(text, width, open);
      var at := Offset(lines, k);
      var end := at + |lines[k]|;
      LinesFit(text, width, k, at, end);
      LineReachesClose(a, t, q, v, rest, width, k);
      i := open - at;
      SliceOfSlice(text, at, end, open, close + 1);
    }
  }

  lemma SliceOfSlice(text: string, at: nat, end: nat, from: nat, to: nat)
    requires at <= from <= to <= end <= |text|
    ensures text[at..end][from - at..to - at] == text[from..to]
  {
    var s := text[at..end];
    forall k | 0 <= k < to - from ensures s[from - at..to - at][k] == text[from..to][k] {
      assert s[from - at + k] == text[from + k];
    }
  }

  /** The line that holds the opening quote does not end before the closing one. */
  lemma LineReachesClose(a: string, t: string, q: char, v: string, rest: string, width: int, k: nat)
    requires '<' !in a && Bare(t) && (q == '"' || q == '\'') && Doubled(v, q) && width > 0
    requires var lines := Lines(Framed(a, t, q, v, rest), width);
             k < |lines| && Offset(lines, k) <= |a| + |t| + 1 < Offset(lines, k) + |lines[k]|
    ensures var lines := Lines(Framed(a, t, q, v, rest), width);
            Offset(lines, k) + |lines[k]| > |a| + |t| + |v| + 2
  {
    hide Run, Lines, Breaks;
    var text := Framed(a, t, q, v, rest);
    var close := |a| + |t| + |v| + 2;
    var lines := Lines(text, width);
    var end := Offset(lines, k) + |lines[k]|;
    assert text[close] == q;
    LinesFit(text, width, k, Offset(lines, k), end);
    LastLineEnds(text, width, k);
    assert end <= close ==> k + 1 < |lines|;
    assert end <= close ==> Safe(text, end) && text[end] == ' ';
    if end < close {
      NoBreakInValue(a, t, q, v, rest, end);
    }
  }

  lemma NotWrapped(text: string, width: int)
    requires width <= 0
    ensures Lines(text, width) == [text]
  {
  }

  lemma LastLineEnds(text: string, width: int, k: nat)
    requires width > 0 && k < |Lines(text, width)|
    ensures k + 1 == |Lines(text, width)| ==> Offset(Lines(text, width), k) + |Lines(text, width)[k]| == |text|
  {
    hide LinesFrom, Breaks;
    BreaksAre(text);
    if |text| > width {
      LinesAreSlices(text, Breaks(text), width, 0, k, Offset(Lines(text, width), k));
    }
  }

  /** The line a character other than a space is written on. */
  lemma LineHolding(text: string, width: int, i: nat) returns (k: nat)
    requires width > 0 && i < |text| && text[i] != ' '
    ensures k < |Lines(text, width)| && Offset(Lines(text, width), k) <= i < Offset(Lines(text, width), k) + |Lines(text, width)[k]|
  {
    hide LinesFrom, Breaks;
    BreaksAre(text);
    if |text| > width {
      k := LineFromHolding(text, Breaks(text), width, 0, i);
    } else {
      k := 0;
    }
  }

  lemma {:induction false} LineFromHolding(text: string, breaks: seq<nat>, width: nat, start: nat, i: nat) returns (k: nat)
    requires start <= i < |text| && text[i] != ' ' && Ascending(breaks) && forall b | b in breaks :: b < |text| && text[b] == ' '
    ensures var lines := LinesFrom(text, breaks, width, start);
            k < |lines| && start + Offset(lines, k) <= i < start + Offset(lines, k) + |lines[k]|
    decreases |text| - start
  {
    hide LinesFrom, NextCut;
    LinesCases(text, breaks, width, start);
    k := 0;
    if |text| - start > width && NextCut(breaks, start, width).CutAt? {
      var c := NextCut(breaks, start, width).pos;
      LinesCut(text, breaks, width, start, c);
      if i > c {
        var j := LineFromHolding(text, breaks, width, c + 1, i);
        OffsetNext(text[start..c], LinesFrom(text, breaks, width, c + 1), j + 1);
        k := j + 1;
      }
    }
  }

  // ----- whitespace and comments, in their own terms

  /** Collapsing, character by character: one that is not a space, tab, line feed or carriage return
      stays; of a run of those four the first gives a space and the others nothing. */
  lemma SqueezeGrows(s: string, c: char)
    ensures Squeeze("") == ""
    ensures c != ' ' && c != '\t' && c != '\n' && c != '\r' ==> Squeeze(s + [c]) == Squeeze(s) + [c]
    ensures c == ' ' || c == '\t' || c == '\n' || c == '\r' ==>
              Squeeze(s + [c]) ==
              if s != "" && (s[|s| - 1] == ' ' || s[|s| - 1] == '\t' || s[|s| - 1] == '\n' || s[|s| - 1] == '\r') then Squeeze(s)
              else Squeeze(s) + " "
  {
    assert (s + [c])[..|s + [c]| - 1] == s;
  }

  /** So no tab, line feed or carriage return is left, and no two spaces together. */
  lemma SqueezedIsPlain(s: string, i: nat)
    requires i < |Squeeze(s)|
    ensures Squeeze(s)[i] != '\t' && Squeeze(s)[i] != '\n' && Squeeze(s)[i] != '\r'
    ensures i + 1 < |Squeeze(s)| ==> !(Squeeze(s)[i] == ' ' && Squeeze(s)[i + 1] == ' ')
  {
    SqueezeSpaces(s, i);
  }

  /** Where two slashes stand together that no colon precedes. */
  predicate SlashesAt(text: string, i: int)
  {
    0 <= i && i + 1 < |text| && text[i] == '/' && text[i + 1] == '/' && (i > 0 ==> text[i - 1] != ':')
  }

  lemma SlashesAre(text: string, i: int)
    ensures SlashesAt(text, i) <==> 0 <= i <= |text| - 2 && text[i..i + 2] == "//" && (i == 0 || text[i - 1] != ':')
  {
    assert 0 <= i <= |text| - 2 ==> text[i..i + 2] == [text[i], text[i + 1]];
  }

  lemma CommentMeans(text: string)
    ensures Comment(text) == Found <==> exists i :: SlashesAt(text, i)
  {
    hide Comment;
    CommentFound(text);
    if i :| SlashesAt(text, i) {
      assert IsLineCommentStart(text, i);
    }
    if StartsComment(text) {
      var i: nat :| IsLineCommentStart(text, i);
      assert SlashesAt(text, i);
    }
  }

  /** A text with two slashes together that no colon precedes is written, at the beginning of a
      line, as it stands; any other is collapsed and wrapped. */
  lemma WrittenMeans(text: string, indent: string, width: int)
    ensures (exists i :: SlashesAt(text, i)) ==> Written(text, indent, width) == indent + text + "\n"
    ensures !(exists i :: SlashesAt(text, i)) ==> Written(text, indent, width) == Emit(true, indent, Lines(Squeeze(text), width))
  {
    hide Comment, Emit, Lines, Squeeze;
    CommentMeans(text);
    assert indent + (text + "\n") == indent + text + "\n";
  }
}
