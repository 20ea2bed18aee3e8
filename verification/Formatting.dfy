/** The output side of the formatter: an output buffer, and text written to it wrapped. */
module Formatting {
  import opened Ordering
  import opened Wrapping

  class Formatter {
    var out: string
    var atBOL: bool
    const lineWidth: int
    const indent: string

    constructor (lineWidth: int, indent: string)
      ensures out == "" && atBOL && this.lineWidth == lineWidth && this.indent == indent
    {
      out, atBOL := "", true;
      this.lineWidth, this.indent := lineWidth, indent;
    }

    method Write(s: string)
      modifies this
      ensures out == old(out) + s
      ensures atBOL == if s == "" then old(atBOL) else s[|s| - 1] == '\n'
    {
      if s == "" {
        return;
      }
      out := out + s;
      atBOL := s[|s| - 1] == '\n';
    }

    method WriteIndent()
      modifies this
      ensures out == old(out) + if old(atBOL) then indent else ""
    {
      if atBOL {
        Write(indent);
      }
    }

    method WriteLine(s: string)
      modifies this
      ensures out == old(out) + ((if old(atBOL) then indent else "") + s + "\n") && atBOL
    {
      WriteIndent();
      Write(s);
      Write("\n");
    }

    /** Write text as lines of at most the width where it can be broken. */
    method WriteWrapped(text: string)
      modifies this
      ensures out == old(out) + Emit(old(atBOL), indent, Lines(text, lineWidth - |indent|)) && atBOL
    {
      hide Breaks, NextCut, LinesFrom;
      var maxContent := lineWidth - |indent|;
      if maxContent <= 0 || |text| <= maxContent {
        WriteLine(text);
        return;
      }
      var breaks := SafeBreaks(text);
      BreaksAre(text);
      var bi, start := 0, 0;
      ghost var begun, before := atBOL, out;
      while true
        invariant start <= |text| && 0 <= bi <= |breaks|
        invariant forall x | 0 <= x < bi :: breaks[x] <= start
        invariant out + Emit(atBOL, indent, LinesFrom(text, breaks, maxContent, start))
               == before + Emit(begun, indent, LinesFrom(text, breaks, maxContent, 0))
        decreases |text| - start
      {
        var rest := text[start..];
        if |rest| <= maxContent {
          LastLine(text, breaks, maxContent, start, atBOL, indent);
          WriteLine(rest);
          return;
        }
        var cut, j := FindCut(breaks, bi, start, maxContent);
        if cut < 0 {
          LastLine(text, breaks, maxContent, start, atBOL, indent);
          WriteLine(rest);
          return;
        }
        OneLine(text, breaks, maxContent, start, cut, atBOL, indent);
        WriteLine(text[start..cut]);
        start, bi := cut + 1, j;
      }
    }

    /** Write text: as it stands when it holds a line comment, else collapsed and wrapped. */
    method WriteText(text: string)
      modifies this
      ensures old(atBOL) ==> out == old(out) + Written(text, indent, lineWidth - |indent|)
      ensures !old(atBOL) ==> out == old(out) + if Comment(text) == Found then text + "\n"
                                                else Emit(false, indent, Lines(Squeeze(text), lineWidth - |indent|))
    {
      hide Comment, Emit, Lines, Squeeze;
      var comment := HoldsLineComment(text);
      if comment {
        WriteLine(text);
        return;
      }
      var collapsed := CollapseWhitespace(text);
      WriteWrapped(collapsed);
    }
  }

  /** The last break that keeps the line from start under the width, else the first past it;
      -1 when there is none. next is the break to look at after it. */
  method FindCut(breaks: seq<nat>, bi0: nat, start: nat, width: nat) returns (cut: int, next: nat)
    requires Ascending(breaks) && bi0 <= |breaks| && forall x | 0 <= x < bi0 :: breaks[x] <= start
    ensures NextCut(breaks, start, width) == if cut < 0 then NoCut else CutAt(cut)
    ensures next <= |breaks| && (cut >= 0 ==> forall x | 0 <= x < next :: breaks[x] <= cut)
  {
    hide NextCut;
    var bi := bi0;
    while bi < |breaks| && breaks[bi] <= start
      invariant bi <= |breaks| && forall x | 0 <= x < bi :: breaks[x] <= start
    {
      bi := bi + 1;
    }
    var limit := start + width;
    cut, next := -1, bi;
    while next < |breaks| && breaks[next] < limit
      invariant bi <= next <= |breaks| && forall x | bi <= x < next :: start < breaks[x] < limit
      invariant cut == if next == bi then -1 else breaks[next - 1]
    {
      cut := breaks[next];
      next := next + 1;
    }
    CutFound(breaks, start, width, bi, next);
    if cut < 0 && next < |breaks| {
      cut := breaks[next];
      next := next + 1;
    }
  }

  /** What scanning the breaks from bi to j has found is the next cut. */
  lemma CutFound(breaks: seq<nat>, start: nat, width: nat, bi: nat, j: nat)
    requires Ascending(breaks) && bi <= j <= |breaks|
    requires forall x | 0 <= x < bi :: breaks[x] <= start
    requires bi < |breaks| ==> breaks[bi] > start
    requires forall x | bi <= x < j :: start < breaks[x] < start + width
    requires j < |breaks| ==> breaks[j] >= start + width
    ensures NextCut(breaks, start, width) ==
            if j > bi then CutAt(breaks[j - 1]) else if j < |breaks| then CutAt(breaks[j]) else NoCut
  {
    hide LastBetween, FirstAfter;
    LastBetweenIs(breaks, start, start + width);
    FirstAfterIs(breaks, start);
    if j > bi {
      assert breaks[j - 1] in breaks;
      var c := LastBetween(breaks, start, start + width).pos;
      var x :| 0 <= x < |breaks| && breaks[x] == c;
    } else {
      NoneBetween(breaks, start, width, j);
      if j < |breaks| {
        assert breaks[j] in breaks;
        var c := FirstAfter(breaks, start).pos;
        var x :| 0 <= x < |breaks| && breaks[x] == c;
      } else {
        NoneAfter(breaks, start);
      }
    }
  }

  lemma NoneBetween(breaks: seq<nat>, start: nat, width: nat, j: nat)
    requires Ascending(breaks) && j <= |breaks| && forall x | 0 <= x < j :: breaks[x] <= start
    requires j < |breaks| ==> breaks[j] >= start + width
    ensures LastBetween(breaks, start, start + width) == NoCut
  {
    hide LastBetween;
    LastBetweenIs(breaks, start, start + width);
    forall b | b in breaks ensures !(start < b < start + width) {
      var x :| 0 <= x < |breaks| && breaks[x] == b;
    }
  }

  lemma NoneAfter(breaks: seq<nat>, start: nat)
    requires Ascending(breaks) && forall x | 0 <= x < |breaks| :: breaks[x] <= start
    ensures FirstAfter(breaks, start) == NoCut
  {
    hide FirstAfter;
    FirstAfterIs(breaks, start);
    forall b | b in breaks ensures b <= start {
      var x :| 0 <= x < |breaks| && breaks[x] == b;
    }
  }

  lemma LastLine(text: string, breaks: seq<nat>, width: nat, start: nat, bol: bool, indent: string)
    requires start <= |text| && Ascending(breaks) && forall b | b in breaks :: b < |text|
    requires |text| - start <= width || NextCut(breaks, start, width) == NoCut
    ensures Emit(bol, indent, LinesFrom(text, breaks, width, start)) == (if bol then indent else "") + text[start..] + "\n"
  {
    hide NextCut;
    assert [text[start..]][1..] == [];
  }

  lemma OneLine(text: string, breaks: seq<nat>, width: nat, start: nat, cut: nat, bol: bool, indent: string)
    requires start <= |text| && Ascending(breaks) && forall b | b in breaks :: b < |text|
    requires |text| - start > width && NextCut(breaks, start, width) == CutAt(cut)
    ensures start < cut < |text|
    ensures Emit(bol, indent, LinesFrom(text, breaks, width, start))
         == (if bol then indent else "") + text[start..cut] + "\n" + Emit(true, indent, LinesFrom(text, breaks, width, cut + 1))
  {
    hide NextCut;
    CutIsBreak(breaks, start, width);
    var rest := LinesFrom(text, breaks, width, cut + 1);
    assert ([text[start..cut]] + rest)[1..] == rest;
  }
}
