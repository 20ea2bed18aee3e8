/** The known-issues file: one finding per line, printed and read back. */
module KnownIssues {
  import opened Wrappers
  import opened Findings
  import opened Ordering
  import opened Wrapping

  datatype Row = Row(path: string, line: int, col: int, severity: string, code: string, message: string)

  const MAX_INT := 0x7FFF_FFFF_FFFF_FFFF

  // ----- characters and runs

  predicate IsDigit(c: char) { '0' <= c <= '9' }

  predicate IsLetter(c: char) { 'a' <= c <= 'z' || 'A' <= c <= 'Z' }

  predicate NotColon(c: char) { c != ':' }

  predicate NotSpace(c: char) { !IsSpace(c) }

  predicate IsTagChar(c: char) { IsLetter(c) || IsDigit(c) || c == '_' || c == '.' || c == ':' || c == '-' }

  /** Whitespace as the patterns have it: without vertical tab. */
  predicate IsBlankChar(c: char) { IsWs(c) || c == 12 as char }

  predicate All(p: char -> bool, s: string)
  {
    forall i | 0 <= i < |s| :: p(s[i])
  }

  /** The length of the longest prefix of characters with p. */
  function Span(p: char -> bool, s: string): (n: nat)
    ensures n <= |s|
  {
    if s != "" && p(s[0]) then 1 + Span(p, s[1..]) else 0
  }

  lemma {:induction false} SpanOf(p: char -> bool, a: string, b: string)
    requires All(p, a) && (b == "" || !p(b[0]))
    ensures Span(p, a + b) == |a| && (a + b)[..|a|] == a && (a + b)[|a|..] == b
  {
    if a == "" {
      assert a + b == b;
    } else {
      SpanOf(p, a[1..], b);
      assert (a + b)[1..] == a[1..] + b;
    }
  }

  lemma {:induction false} SpanEndsBy(p: char -> bool, s: string, k: nat)
    requires k < |s| && !p(s[k])
    ensures Span(p, s) <= k
  {
    if k > 0 {
      SpanEndsBy(p, s[1..], k - 1);
    }
  }

  // ----- numbers

  function Digit(n: nat): char
    requires n < 10
  {
    ['0', '1', '2', '3', '4', '5', '6', '7', '8', '9'][n]
  }

  function Itoa(n: nat): string
  {
    if n < 10 then [Digit(n)] else Itoa(n / 10) + [Digit(n % 10)]
  }

  function Value(s: string): nat
    requires All(IsDigit, s)
  {
    if s == "" then 0 else 10 * Value(s[..|s| - 1]) + (s[|s| - 1] as int - '0' as int)
  }

  /** A number that does not fit a 64-bit integer is an error. */
  function Atoi(s: string): Option<nat>
    requires All(IsDigit, s)
  {
    if Value(s) > MAX_INT then None else Some(Value(s))
  }

  lemma OneMoreDigit(s: string, d: nat)
    requires All(IsDigit, s) && d < 10
    ensures All(IsDigit, s + [Digit(d)]) && Value(s + [Digit(d)]) == 10 * Value(s) + d
  {
    assert (s + [Digit(d)])[..|s|] == s;
  }

  lemma ItoaSplit(n: nat)
    requires n >= 10
    ensures Itoa(n) == Itoa(n / 10) + [Digit(n % 10)]
  {
  }

  lemma {:induction false} ItoaValue(n: nat)
    ensures All(IsDigit, Itoa(n)) && Itoa(n) != "" && Value(Itoa(n)) == n
  {
    if n < 10 {
      assert [Digit(n)][..0] == "";
    } else {
      ItoaValue(n / 10);
      hide Itoa;
      OneMoreDigit(Itoa(n / 10), n % 10);
      assert Itoa(n) == Itoa(n / 10) + [Digit(n % 10)] by { ItoaSplit(n); }
    }
  }

  // ----- path:line[:col]: message

  datatype Matched = Matched(path: string, line: string, col: Option<string>, message: string)

  /** Leading blanks belong to the separator, but a message of nothing else keeps its last one. */
  function Message(s: string): string
    requires s != ""
  {
    var n := Span(IsBlankChar, s);
    if n < |s| then s[n..] else s[|s| - 1..]
  }

  /** What follows the line number: a column if there is one with a message after it. */
  function Tail(path: string, line: string, after: string): Option<Matched>
  {
    var c := Span(IsDigit, after);
    if c > 0 && c + 1 < |after| && after[c] == ':' then Some(Matched(path, line, Some(after[..c]), Message(after[c + 1..])))
    else if after != "" then Some(Matched(path, line, None, Message(after)))
    else None
  }

  /** Reads a path of from characters and then some without colons, its line, and the rest. */
  function MatchFrom(line: string, from: nat): Option<Matched>
    requires from <= |line|
  {
    var body := line[from..];
    var p := Span(NotColon, body);
    if p == 0 || p == |body| then None
    else
      var rest := body[p + 1..];
      var d := Span(IsDigit, rest);
      if d == 0 || d == |rest| || rest[d] != ':' then None
      else Tail(line[..from + p], rest[..d], rest[d + 1..])
  }

  predicate HasDrive(s: string)
  {
    |s| >= 2 && IsLetter(s[0]) && s[1] == ':'
  }

  /** A drive letter is taken as part of the path if the rest can be read that way. */
  function MatchEntry(line: string): Option<Matched>
  {
    var drive := if HasDrive(line) then MatchFrom(line, 2) else None;
    if drive != None then drive else MatchFrom(line, 0)
  }

  predicate IsAbsoluteAnywhere(p: string)
  {
    p != "" && (p[0] == '/' || p[0] == '\\' || HasDrive(p))
  }

  // ----- [severity CODE] message

  const SEVERITIES: seq<string> := ["error", "warning", "warn", "information", "info", "hint"]

  /** s starts with the word, in any case, and a blank. */
  predicate StartsWithWord(s: string, word: string)
  {
    |s| > |word| && Lower(s[..|word|]) == word && IsBlankChar(s[|word|])
  }

  function WordLength(s: string, words: seq<string>): Option<nat>
  {
    if words == [] then None
    else if StartsWithWord(s, words[0]) then Some(|words[0]|)
    else WordLength(s, words[1..])
  }

  datatype TagRead = TagRead(severity: string, code: string, rest: string)

  function Unblank(s: string): string
  {
    s[Span(IsBlankChar, s)..]
  }

  function MatchCode(severity: string, s: string): Option<TagRead>
  {
    var c := Span(IsTagChar, s);
    if c == 0 || c == |s| || s[c] != ']' then None else Some(TagRead(severity, s[..c], Unblank(s[c + 1..])))
  }

  function MatchTag(s: string): Option<TagRead>
  {
    if s == "" || s[0] != '[' then None
    else
      var b := s[1..];
      var n := WordLength(b, SEVERITIES);
      if n == None || n.value > |b| then MatchCode("", b)
      else
        var t := MatchCode(b[..n.value], Unblank(b[n.value..]));
        if t != None then t else MatchCode("", b)
  }

  // ----- reading

  /** One line: nothing for blanks, comments, and what is not an entry. norm is what the
      path means relative to the file's directory. */
  function ParseLine(norm: string -> string, raw: string): Option<Entry>
  {
    var line := Trim(raw);
    if line == "" || line[0] == '#' then None
    else
      var m := MatchEntry(line);
      if m == None then None
      else
        FoundDigits(line);
        var n := Atoi(m.value.line);
        if n == None || n.value < 1 || IsAbsoluteAnywhere(m.value.path) then None
        else Some(MakeEntry(norm, m.value, n.value))
  }

  function Column(m: Matched): int
    requires m.col.Some? ==> All(IsDigit, m.col.value)
  {
    if m.col == None then -1
    else
      var c := Atoi(m.col.value);
      if c != None && c.value >= 1 then c.value - 1 else -1
  }

  function MakeEntry(norm: string -> string, m: Matched, n: nat): Entry
    requires n >= 1 && (m.col.Some? ==> All(IsDigit, m.col.value))
  {
    var message := Trim(m.message);
    var t := MatchTag(message);
    if t == None then Entry(norm(m.path), n - 1, Column(m), message, "", "")
    else Entry(norm(m.path), n - 1, Column(m), t.value.rest, t.value.code, Lower(t.value.severity))
  }

  lemma {:induction false} SpanHolds(p: char -> bool, s: string)
    ensures All(p, s[..Span(p, s)])
  {
    if s != "" && p(s[0]) {
      SpanHolds(p, s[1..]);
      forall i | 0 <= i < Span(p, s) ensures p(s[i]) {
        assert i > 0 ==> s[i] == s[1..][..Span(p, s[1..])][i - 1];
      }
    }
  }

  lemma MatchFromDigits(line: string, from: nat)
    requires from <= |line|
    ensures MatchFrom(line, from) != None ==>
              All(IsDigit, MatchFrom(line, from).value.line)
              && (MatchFrom(line, from).value.col.Some? ==> All(IsDigit, MatchFrom(line, from).value.col.value))
  {
    var body := line[from..];
    var p := Span(NotColon, body);
    if p != 0 && p != |body| {
      var rest := body[p + 1..];
      SpanHolds(IsDigit, rest);
      var d := Span(IsDigit, rest);
      if d != |rest| {
        SpanHolds(IsDigit, rest[d + 1..]);
      }
    }
  }

  lemma FoundDigits(line: string)
    ensures MatchEntry(line) != None ==>
              All(IsDigit, MatchEntry(line).value.line)
              && (MatchEntry(line).value.col.Some? ==> All(IsDigit, MatchEntry(line).value.col.value))
  {
    MatchFromDigits(line, 0);
    if HasDrive(line) {
      MatchFromDigits(line, 2);
    }
  }

  // ----- printing

  /** The words of s: runs of characters that are not space. */
  function Fields(s: string): seq<string>
    decreases |s|
  {
    var t := s[Span(IsSpace, s)..];
    if t == "" then []
    else
      var n := Span(NotSpace, t);
      SpanStops(IsSpace, s);
      [t[..n]] + Fields(t[n..])
  }

  lemma {:induction false} SpanStops(p: char -> bool, s: string)
    ensures Span(p, s) < |s| ==> !p(s[Span(p, s)])
  {
    if s != "" && p(s[0]) {
      SpanStops(p, s[1..]);
    }
  }

  /** A message on one line: its words, separated by single spaces. */
  function Normal(message: string): string
  {
    Join(Fields(message))
  }

  function PrintInt(n: int): string
  {
    if n < 0 then "-" + Itoa(-n) else Itoa(n)
  }

  function TagText(row: Row): string
  {
    var tag := if row.code == "" then "" else Trim(row.severity + " " + row.code);
    if tag == "" then "" else "[" + tag + "] "
  }

  function PrintLine(row: Row): string
  {
    row.path + ":" + PrintInt(row.line) + (if row.col > 0 then ":" + PrintInt(row.col) else "")
    + ": " + TagText(row) + Normal(row.message)
  }

  lemma {:induction false} FieldsAre(s: string)
    ensures forall f | f in Fields(s) :: f != "" && All(NotSpace, f)
    decreases |s|
  {
    var t := s[Span(IsSpace, s)..];
    if t != "" {
      SpanStops(IsSpace, s);
      SpanHolds(NotSpace, t);
      FieldsAre(t[Span(NotSpace, t)..]);
    }
  }

  lemma {:induction false} JoinWords(fs: seq<string>)
    requires forall f | f in fs :: f != "" && All(NotSpace, f)
    ensures Trimmed(Join(fs)) && '\n' !in Join(fs) && (Join(fs) == "" <==> fs == [])
  {
    if fs != [] {
      assert fs[0] in fs;
      assert '\n' !in fs[0];
      if |fs| > 1 {
        forall f | f in fs[1..] ensures f in fs {
        }
        JoinWords(fs[1..]);
      }
    }
  }

  lemma NormalIs(message: string)
    ensures Trimmed(Normal(message)) && '\n' !in Normal(message)
  {
    FieldsAre(message);
    JoinWords(Fields(message));
  }

  /** Words with single spaces between them. */
  predicate OneSpaced(s: string)
  {
    Trimmed(s) && forall i | 0 <= i < |s| && IsSpace(s[i]) :: s[i] == ' ' && (i + 1 < |s| ==> !IsSpace(s[i + 1]))
  }

  lemma {:induction false} JoinOneSpaced(fs: seq<string>)
    requires forall f | f in fs :: f != "" && All(NotSpace, f)
    ensures OneSpaced(Join(fs))
  {
    JoinWords(fs);
    if fs != [] {
      assert fs[0] in fs;
      if |fs| > 1 {
        forall f | f in fs[1..] ensures f in fs {
        }
        JoinOneSpaced(fs[1..]);
        JoinWords(fs[1..]);
        OneMoreWord(fs[0], Join(fs[1..]));
      }
    }
  }

  lemma OneMoreWord(word: string, rest: string)
    requires word != "" && All(NotSpace, word) && OneSpaced(rest) && rest != ""
    ensures OneSpaced(word + " " + rest)
  {
    var s := word + " " + rest;
    forall i | 0 <= i < |s| && IsSpace(s[i]) ensures s[i] == ' ' && (i + 1 < |s| ==> !IsSpace(s[i + 1])) {
      if i > |word| {
        assert s[i] == rest[i - |word| - 1];
        assert i + 1 < |s| ==> s[i + 1] == rest[i - |word|];
      } else {
        assert i < |word| ==> NotSpace(word[i]);
      }
    }
  }

  /** Normalising leaves a message alone exactly when its words have single spaces between them. */
  lemma NormalIff(message: string)
    ensures OneSpaced(Normal(message))
    ensures Normal(message) == message <==> OneSpaced(message)
  {
    FieldsAre(message);
    JoinOneSpaced(Fields(message));
    if OneSpaced(message) {
      FieldsJoin(message);
    }
  }

  lemma {:induction false} FieldsJoin(s: string)
    requires OneSpaced(s)
    ensures Join(Fields(s)) == s && (s != "" ==> Fields(s) != [])
    decreases |s|
  {
    hide Fields, Join;
    if |s| == 0 {
      NoFields(s);
    } else {
      var n := Span(NotSpace, s);
      SpanStops(NotSpace, s);
      FirstField(s);
      if n < |s| {
        var u := s[n + 1..];
        RestOneSpaced(s, n);
        FieldsJoin(u);
        FieldsSkip(u);
        assert s[n..] == " " + u;
        JoinFirst(s[..n], Fields(u));
        assert s == s[..n] + " " + u;
      } else {
        NoFields(s[n..]);
        JoinOnly(s[..n]);
        assert s[..n] == s && [s] + [] == [s];
      }
    }
  }

  lemma NoFields(s: string)
    requires |s| == 0
    ensures Fields(s) == [] && Join(Fields(s)) == ""
  {
  }

  lemma FirstField(s: string)
    requires OneSpaced(s) && s != ""
    ensures Fields(s) == [s[..Span(NotSpace, s)]] + Fields(s[Span(NotSpace, s)..])
  {
    assert s[0..] == s;
  }

  lemma JoinFirst(word: string, fs: seq<string>)
    requires fs != []
    ensures Join([word] + fs) == word + " " + Join(fs)
  {
    assert ([word] + fs)[1..] == fs;
  }

  lemma JoinOnly(word: string)
    ensures Join([word]) == word
  {
  }

  lemma RestOneSpaced(s: string, n: nat)
    requires OneSpaced(s) && n < |s| && IsSpace(s[n])
    ensures n + 1 < |s| && s[n] == ' ' && OneSpaced(s[n + 1..]) && !IsSpace(s[n + 1])
  {
    var u := s[n + 1..];
    assert forall i | 0 <= i < |u| :: u[i] == s[n + 1 + i];
  }

  lemma FieldsSkip(u: string)
    requires u != "" && !IsSpace(u[0])
    ensures Fields(" " + u) == Fields(u)
  {
    SpanOf(IsSpace, " ", u);
    assert u[0..] == u;
  }

  // ----- what can be printed and read back

  /** A relative path without colons, positions that fit, a code of tag characters and a known severity. */
  predicate Plain(row: Row)
  {
    && row.path != "" && All(NotColon, row.path) && !IsSpace(row.path[0])
    && row.path[0] != '#' && row.path[0] != '/' && row.path[0] != '\\'
    && 1 <= row.line <= MAX_INT && row.col <= MAX_INT
    && All(IsTagChar, row.code)
    && (row.code != "" ==> row.severity == "" || Lower(row.severity) in SEVERITIES)
  }

  /** The text after the tag brackets, with one space before it. */
  function Spaced(s: string): string
  {
    if s == "" then "" else " " + s
  }

  /** Tag and message as they stand in the file, trimmed. */
  function BodyText(row: Row): string
  {
    if row.code == "" then Normal(row.message)
    else "[" + (if row.severity == "" then row.code else row.severity + (" " + row.code)) + ("]" + Spaced(Normal(row.message)))
  }

  function AfterLine(row: Row): string
  {
    (if row.col > 0 then Itoa(row.col) + ":" else "") + Spaced(BodyText(row))
  }

  function Core(row: Row): string
    requires row.line >= 0
  {
    row.path + (":" + (Itoa(row.line) + (":" + AfterLine(row))))
  }

  lemma TrimTag(row: Row)
    requires Plain(row) && row.code != ""
    ensures Trim(row.severity + " " + row.code) == if row.severity == "" then row.code else row.severity + (" " + row.code)
  {
    hide Trim, Lower;
    assert row.severity == "" || Lower(row.severity) in SEVERITIES;
    var core := if row.severity == "" then row.code else row.severity + (" " + row.code);
    if row.severity == "" {
      TrimAround(" ", core, "");
      assert row.severity + " " + row.code == " " + (core + "");
    } else {
      SeverityLetters(row.severity);
      TrimAround("", core, "");
      assert row.severity + " " + row.code == "" + (core + "");
    }
  }

  lemma SeverityLetters(severity: string)
    requires Lower(severity) in SEVERITIES
    ensures severity != "" && All(IsLetter, severity)
  {
    var k :| 0 <= k < |SEVERITIES| && SEVERITIES[k] == Lower(severity);
    assert All(IsLetter, Lower(severity)) && Lower(severity) != "";
    forall i | 0 <= i < |severity| ensures IsLetter(severity[i]) {
      assert IsLetter(Lower(severity)[i]);
    }
  }

  /** What printing leaves after the body: a space when the message has no words. */
  function After(row: Row): string
  {
    if Normal(row.message) == "" then " " else ""
  }

  lemma PrintedBody(row: Row)
    requires Plain(row)
    ensures " " + (TagText(row) + Normal(row.message)) == Spaced(BodyText(row)) + After(row)
  {
    hide Trim, Lower, Normal, Plain;
    var msg := Normal(row.message);
    if row.code == "" {
      assert TagText(row) == "" && "" + msg == msg;
    } else {
      hide TagText, BodyText, Spaced;
      var tag := if row.severity == "" then row.code else row.severity + (" " + row.code);
      TagTextIs(row, tag);
      BracketThenMessage(tag, msg);
      assert Spaced(BodyText(row)) == " " + BodyText(row) by { SpacedBody(row); }
    }
  }

  lemma TagTextIs(row: Row, tag: string)
    requires Plain(row) && row.code != "" && tag == if row.severity == "" then row.code else row.severity + (" " + row.code)
    ensures TagText(row) == "[" + tag + "] " && BodyText(row) == "[" + tag + ("]" + Spaced(Normal(row.message)))
  {
    hide Trim, Lower, Normal, Plain, Spaced;
    TrimTag(row);
  }

  lemma SpacedBody(row: Row)
    requires row.code != ""
    ensures Spaced(BodyText(row)) == " " + BodyText(row)
  {
    hide Normal;
  }

  lemma BracketThenMessage(tag: string, msg: string)
    ensures " " + ("[" + tag + "] " + msg) == " " + ("[" + tag + ("]" + Spaced(msg))) + if msg == "" then " " else ""
  {
    assert "[" + tag + "] " + msg == "[" + tag + ("] " + msg);
    assert "] " + msg == ("]" + Spaced(msg)) + if msg == "" then " " else "";
  }

  lemma Assemble(path: string, l: string, col: string, spaced: string, post: string, text: string)
    requires " " + text == spaced + post
    ensures path + ":" + l + "" + ": " + text == path + (":" + (l + (":" + ("" + spaced)))) + post
    ensures path + ":" + l + (":" + col) + ": " + text == path + (":" + (l + (":" + ((col + ":") + spaced)))) + post
  {
    assert ": " + text == ":" + (" " + text);
    assert ":" + (spaced + post) == (":" + spaced) + post;
    assert path + ":" + l + "" + ": " + text == path + ":" + l + (": " + text);
    assert path + (":" + (l + (":" + ("" + spaced)))) + post == path + ":" + l + ((":" + spaced) + post);
    assert path + ":" + l + (":" + col) + ": " + text == path + ":" + l + (":" + col) + (": " + text);
    assert path + (":" + (l + (":" + ((col + ":") + spaced)))) + post == path + ":" + l + (":" + col) + ((":" + spaced) + post);
  }

  /** Trimmed, a printed row is its core: path, position, body. */
  lemma PrintedCore(row: Row)
    requires Plain(row)
    ensures Trim(PrintLine(row)) == Core(row)
  {
    hide Trim, Normal, Core, PrintLine, Trimmed, Lower;
    PrintedCoreAndAfter(row);
    CoreEnds(row);
    TrimAround("", Core(row), After(row));
    assert PrintLine(row) == "" + (Core(row) + After(row));
  }

  lemma PrintedCoreAndAfter(row: Row)
    requires Plain(row)
    ensures PrintLine(row) == Core(row) + After(row)
  {
    hide Normal, Itoa, BodyText, TagText, Spaced, After, Lower;
    PrintedBody(row);
    var text := TagText(row) + Normal(row.message);
    var col := Itoa(if row.col > 0 then row.col else 0);
    Assemble(row.path, Itoa(row.line), col, Spaced(BodyText(row)), After(row), text);
    var head := row.path + ":" + Itoa(row.line) + (if row.col > 0 then ":" + col else "") + ": ";
    assert head + TagText(row) + Normal(row.message) == head + text;
  }

  lemma CoreEnds(row: Row)
    requires Plain(row)
    ensures Trimmed(Core(row)) && Core(row)[0] == row.path[0]
  {
    hide Lower, Fields, Itoa;
    NormalIs(row.message);
    var body := BodyText(row);
    if body == "" {
      assert Core(row)[|Core(row)| - 1] == ':';
    } else {
      assert Core(row)[|Core(row)| - 1] == body[|body| - 1];
    }
  }

  // ----- reading a core back

  lemma MatchAt(path: string, l: string, after: string, line: string, from: nat)
    requires from < |path| && All(NotColon, path[from..]) && All(IsDigit, l) && l != ""
    requires line == path + (":" + (l + (":" + after)))
    ensures MatchFrom(line, from) == Tail(path, l, after)
  {
    hide Tail;
    var rest := l + (":" + after);
    assert line[from..] == path[from..] + (":" + rest);
    SpanOf(NotColon, path[from..], ":" + rest);
    assert (":" + rest)[1..] == rest;
    assert line[from..][|path| - from + 1..] == rest;
    SpanOf(IsDigit, l, ":" + after);
    assert rest[|l| + 1..] == after;
    assert line[..|path|] == path;
  }

  lemma MessageOf(body: string)
    requires body != "" && !IsSpace(body[0])
    ensures Message(" " + body) == body
  {
    SpanOf(IsBlankChar, " ", body);
  }

  lemma WholeMessage(s: string)
    requires s != "" && !IsBlankChar(s[0])
    ensures Message(s) == s
  {
    assert s[0..] == s;
  }

  lemma TailWithColumn(path: string, l: string, c: string, body: string)
    requires c != "" && All(IsDigit, c) && Trimmed(body)
    ensures Tail(path, l, c + ":" + Spaced(body)) ==
            if body == "" then Some(Matched(path, l, None, c + ":")) else Some(Matched(path, l, Some(c), body))
  {
    hide Message, Span, Trimmed;
    var after := c + ":" + Spaced(body);
    assert after == c + (":" + Spaced(body));
    ColumnThenColon(c, Spaced(body));
    if body == "" {
      assert after == c + ":";
      WholeMessage(after);
    } else {
      FirstSolid(body);
      MessageOf(body);
    }
  }

  lemma FirstSolid(s: string)
    requires s != "" && Trimmed(s)
    ensures !IsSpace(s[0])
  {
  }

  lemma ColumnThenColon(c: string, rest: string)
    requires c != "" && All(IsDigit, c)
    ensures var after := c + (":" + rest);
            && Span(IsDigit, after) == |c| && after[|c|] == ':' && after[..|c|] == c && after[|c| + 1..] == rest
            && !IsBlankChar(after[0])
  {
    SpanOf(IsDigit, c, ":" + rest);
  }

  lemma TailWithoutColumn(path: string, l: string, body: string)
    requires Trimmed(body)
    ensures Tail(path, l, Spaced(body)) == if body == "" then None else Some(Matched(path, l, None, body))
  {
    if body != "" {
      MessageOf(body);
    }
  }

  /** After the line number, a printed row gives its column and body; with no body, a column is
      all there is left to be the message. */
  lemma TailPrinted(row: Row, path: string, l: string)
    requires Plain(row)
    ensures var body := BodyText(row);
            Tail(path, l, AfterLine(row)) ==
            if body == "" then (if row.col > 0 then Some(Matched(path, l, None, Itoa(row.col) + ":")) else None)
            else Some(Matched(path, l, if row.col > 0 then Some(Itoa(row.col)) else None, body))
  {
    hide Itoa, BodyText, Tail, Spaced, Trimmed;
    BodyTrimmed(row);
    if row.col > 0 {
      ItoaValue(row.col);
      TailWithColumn(path, l, Itoa(row.col), BodyText(row));
    } else {
      TailWithoutColumn(path, l, BodyText(row));
      assert AfterLine(row) == Spaced(BodyText(row));
    }
  }

  lemma BodyTrimmed(row: Row)
    requires Plain(row)
    ensures Trimmed(BodyText(row))
  {
    NormalIs(row.message);
  }

  /** A one-letter path with a column reads as a drive, and its line as the path's second part. */
  predicate DriveLike(row: Row)
  {
    |row.path| == 1 && IsLetter(row.path[0]) && row.col > 0
  }

  lemma NoDrive(row: Row)
    requires Plain(row) && !(|row.path| == 1 && IsLetter(row.path[0]))
    ensures !HasDrive(Core(row))
  {
    hide Itoa, AfterLine;
    assert Core(row)[0] == row.path[0];
    if |row.path| >= 2 {
      assert Core(row)[1] == row.path[1];
    }
  }

  lemma DriveWithoutColumn(row: Row)
    requires Plain(row) && |row.path| == 1 && row.col <= 0
    ensures HasDrive(Core(row)) ==> MatchFrom(Core(row), 2) == None
  {
    hide Itoa, BodyText;
    var l, after := Itoa(row.line), AfterLine(row);
    ItoaValue(row.line);
    assert after == Spaced(BodyText(row));
    var body := Core(row)[2..];
    assert body == l + (":" + after);
    assert All(NotColon, l);
    SpanOf(NotColon, l, ":" + after);
    assert body[|l| + 1..] == after;
  }

  /** A row that is not drive-like is matched as printed. */
  lemma EntryPrinted(row: Row)
    requires Plain(row) && !DriveLike(row)
    ensures MatchEntry(Core(row)) == Tail(row.path, Itoa(row.line), AfterLine(row))
  {
    hide Itoa, AfterLine, Tail;
    ItoaValue(row.line);
    assert row.path[0..] == row.path;
    MatchAt(row.path, Itoa(row.line), AfterLine(row), Core(row), 0);
    if |row.path| == 1 && IsLetter(row.path[0]) {
      DriveWithoutColumn(row);
    } else {
      NoDrive(row);
    }
  }

  /** A drive-like row is not matched with its own path. */
  lemma DriveLost(row: Row)
    requires Plain(row) && DriveLike(row)
    ensures var m := MatchEntry(Core(row));
            m == None || IsAbsoluteAnywhere(m.value.path) || m.value.col == None
  {
    hide Itoa;
    var l, c, spaced := Itoa(row.line), Itoa(row.col), Spaced(BodyText(row));
    ItoaValue(row.line);
    ItoaValue(row.col);
    var path := row.path + (":" + l);
    assert Core(row) == path + (":" + (c + (":" + spaced))) by {
      assert AfterLine(row) == c + (":" + spaced);
    }
    assert path[2..] == l;
    assert All(NotColon, l);
    MatchAt(path, c, spaced, Core(row), 2);
    assert HasDrive(path) && HasDrive(Core(row));
    assert row.path[0..] == row.path;
    MatchAt(row.path, l, AfterLine(row), Core(row), 0);
    if spaced == "" {
      TailPrinted(row, row.path, l);
    }
  }

  // ----- reading a tag back

  lemma {:induction false} WordFound(s: string, words: seq<string>, n: nat)
    requires n <= |s| && All(IsLetter, s[..n]) && (n == |s| || !IsLetter(s[n]))
    requires forall w | w in words :: All(IsLetter, w)
    ensures (n < |s| && IsBlankChar(s[n]) && Lower(s[..n]) in words) ==> WordLength(s, words) == Some(n)
    ensures !(n < |s| && IsBlankChar(s[n]) && Lower(s[..n]) in words) ==> WordLength(s, words) == None
  {
    if words != [] {
      assert words[0] in words;
      WordFound(s, words[1..], n);
      assert words == [words[0]] + words[1..];
      WordEnds(s, words[0], n);
    }
  }

  /** A word can only match the whole run of letters. */
  lemma WordEnds(s: string, word: string, n: nat)
    requires n <= |s| && All(IsLetter, s[..n]) && (n == |s| || !IsLetter(s[n])) && All(IsLetter, word)
    ensures StartsWithWord(s, word) ==> |word| == n
  {
    assert |word| < n ==> s[..n][|word|] == s[|word|];
    assert n < |word| ==> IsLetter(word[n]);
    assert n < |word| < |s| ==> Lower(s[..|word|])[n] == LowerChar(s[n]);
  }

  lemma CodePrinted(severity: string, code: string, msg: string)
    requires All(IsTagChar, code) && code != "" && (msg == "" || !IsSpace(msg[0]))
    ensures MatchCode(severity, code + ("]" + Spaced(msg))) == Some(TagRead(severity, code, msg))
  {
    SpanOf(IsTagChar, code, "]" + Spaced(msg));
    var s := code + ("]" + Spaced(msg));
    assert s[|code| + 1..] == Spaced(msg);
    if msg != "" {
      SpanOf(IsBlankChar, " ", msg);
    }
  }

  /** A code on its own is never taken for a severity. */
  lemma NoWord(code: string, tail: string)
    requires All(IsTagChar, code)
    ensures WordLength(code + ("]" + tail), SEVERITIES) == None
  {
    var s := code + ("]" + tail);
    var n := Span(IsLetter, s);
    SpanHolds(IsLetter, s);
    SpanStops(IsLetter, s);
    SpanEndsBy(IsLetter, s, |code|);
    assert s[n] == ']' || IsTagChar(s[n]);
    SeverityWords();
    WordFound(s, SEVERITIES, n);
  }

  lemma SeverityWords()
    ensures forall w | w in SEVERITIES :: All(IsLetter, w)
  {
  }

  lemma BareTagReads(code: string, msg: string)
    requires All(IsTagChar, code) && code != "" && (msg == "" || !IsSpace(msg[0]))
    ensures MatchTag("[" + code + ("]" + Spaced(msg))) == Some(TagRead("", code, msg))
  {
    hide WordLength, MatchCode, Spaced;
    var s := "[" + code + ("]" + Spaced(msg));
    assert s[1..] == code + ("]" + Spaced(msg));
    NoWord(code, Spaced(msg));
    CodePrinted("", code, msg);
  }

  lemma FullTagReads(sev: string, code: string, msg: string)
    requires Lower(sev) in SEVERITIES && All(IsTagChar, code) && code != "" && (msg == "" || !IsSpace(msg[0]))
    ensures MatchTag("[" + (sev + (" " + code)) + ("]" + Spaced(msg))) == Some(TagRead(sev, code, msg))
  {
    hide WordLength, MatchCode, Spaced, Lower;
    var tail := code + ("]" + Spaced(msg));
    var s, b := "[" + (sev + (" " + code)) + ("]" + Spaced(msg)), sev + (" " + tail);
    assert s == "[" + b && s[1..] == b;
    SeverityLetters(sev);
    assert b[..|sev|] == sev && b[|sev|] == ' ' && b[|sev|..] == " " + tail;
    SeverityWords();
    WordFound(b, SEVERITIES, |sev|);
    SpanOf(IsBlankChar, " ", tail);
    CodePrinted(sev, code, msg);
  }

  lemma TagPrinted(row: Row)
    requires Plain(row) && row.code != ""
    ensures MatchTag(BodyText(row)) == Some(TagRead(row.severity, row.code, Normal(row.message)))
  {
    hide Lower, Normal, MatchTag, Spaced;
    NormalIs(row.message);
    if row.severity == "" {
      BareTagReads(row.code, Normal(row.message));
    } else {
      FullTagReads(row.severity, row.code, Normal(row.message));
    }
  }

  // ----- round trips

  /** What reading a printed row should give. */
  function Expected(norm: string -> string, row: Row): Entry
  {
    Entry(norm(row.path), row.line - 1, if row.col > 0 then row.col - 1 else -1, Normal(row.message),
          row.code, if row.code == "" then "" else Lower(row.severity))
  }

  /** The message cannot be taken for nothing or for a tag. */
  predicate Untagged(message: string)
  {
    Normal(message) != "" && MatchTag(Normal(message)) == None
  }

  /** A row that is not drive-like is read as what follows its path and line says. */
  lemma LineReads(norm: string -> string, row: Row) returns (m: Option<Matched>)
    requires Plain(row) && !DriveLike(row)
    ensures m == Tail(row.path, Itoa(row.line), AfterLine(row))
    ensures m == None ==> ParseLine(norm, PrintLine(row)) == None
    ensures m.Some? ==> m.value.path == row.path && (m.value.col.Some? ==> All(IsDigit, m.value.col.value))
                        && ParseLine(norm, PrintLine(row)) == Some(MakeEntry(norm, m.value, row.line))
  {
    hide Trim, Itoa, AfterLine, MatchEntry, MakeEntry, PrintLine;
    PrintedCore(row);
    CoreEnds(row);
    FoundDigits(Core(row));
    EntryPrinted(row);
    ItoaValue(row.line);
    m := Tail(row.path, Itoa(row.line), AfterLine(row));
    assert !IsAbsoluteAnywhere(row.path);
  }

  lemma DriveReads(norm: string -> string, row: Row)
    requires Plain(row) && DriveLike(row)
    ensures ParseLine(norm, PrintLine(row)) != Some(Expected(norm, row))
  {
    hide Trim, Itoa, Normal, MatchTag, Lower, AfterLine, BodyText, MatchEntry, PrintLine, Core;
    PrintedCore(row);
    FoundDigits(Core(row));
    DriveLost(row);
  }

  /** A printed row reads back as itself exactly when its path does not look like a drive and,
      with no code, its message has words and does not start with a tag. */
  lemma RowReadsBack(norm: string -> string, row: Row)
    requires Plain(row)
    ensures ParseLine(norm, PrintLine(row)) == Some(Expected(norm, row))
        <==> !DriveLike(row) && (row.code == "" ==> Untagged(row.message))
  {
    hide Trim, Itoa, Normal, MatchTag, Lower, AfterLine, BodyText, Tail, ParseLine, PrintLine;
    if DriveLike(row) {
      DriveReads(norm, row);
    } else {
      var m := LineReads(norm, row);
      TailPrinted(row, row.path, Itoa(row.line));
      BodyReads(row);
      if row.col > 0 {
        ItoaValue(row.col);
      }
    }
  }

  /** One that does not: the path a with a column reads as drive a:, path a:1, line 1. */
  lemma OneLetterPathLost(norm: string -> string)
    ensures var row := Row("a", 1, 1, "", "X", "m");
            Plain(row) && ParseLine(norm, PrintLine(row)) != Some(Expected(norm, row))
  {
    hide ParseLine, PrintLine, Expected;
    RowReadsBack(norm, Row("a", 1, 1, "", "X", "m"));
  }

  /** Another: a message in brackets becomes a code. */
  lemma TaggedMessageLost(norm: string -> string)
    ensures var row := Row("a.cfm", 1, 0, "", "", "[X]");
            Plain(row) && ParseLine(norm, PrintLine(row)) != Some(Expected(norm, row))
  {
    hide ParseLine, PrintLine, Expected, Normal, MatchTag;
    RowReadsBack(norm, Row("a.cfm", 1, 0, "", "", "[X]"));
    OneWord("[X]");
    BareTagReads("X", "");
    assert "[" + "X" + ("]" + Spaced("")) == "[X]";
  }

  lemma OneWord(s: string)
    requires s != "" && All(NotSpace, s)
    ensures Normal(s) == s
  {
    SpanOf(NotSpace, s, "");
    assert s + "" == s && s[|s|..] == "" && s[..|s|] == s && s[0..] == s;
    assert Fields(s) == [s];
  }

  /** The body as the entry's tag and message. */
  lemma BodyReads(row: Row)
    requires Plain(row)
    ensures Trim(BodyText(row)) == BodyText(row)
    ensures row.code == "" ==> BodyText(row) == Normal(row.message)
    ensures row.code != "" ==> BodyText(row) != "" && MatchTag(BodyText(row)) == Some(TagRead(row.severity, row.code, Normal(row.message)))
    ensures MatchTag(BodyText(row)) != None ==> MatchTag(BodyText(row)).value.code != ""
  {
    hide Normal, MatchTag, Lower;
    BodyTrimmed(row);
    TrimAround("", BodyText(row), "");
    assert "" + (BodyText(row) + "") == BodyText(row);
    if row.code != "" {
      TagPrinted(row);
    }
    TagHasCode(BodyText(row));
  }

  lemma TagHasCode(s: string)
    ensures MatchTag(s) != None ==> MatchTag(s).value.code != ""
  {
  }

  // ----- the format, line by line

  lemma DigitIs(n: nat)
    requires n < 10
    ensures Digit(n) as int == '0' as int + n
  {
  }

  /** A number is read in decimal. */
  lemma ValueMeans(s: string, d: char)
    requires All(IsDigit, s) && '0' <= d <= '9'
    ensures Value("") == 0 && All(IsDigit, s + [d]) && Value(s + [d]) == 10 * Value(s) + (d as int - '0' as int)
  {
    assert (s + [d])[..|s|] == s;
  }

  /** Leading whitespace does not change what is normalised. */
  lemma NormalSkips(b: string, s: string)
    requires forall i | 0 <= i < |b| :: b[i] == ' ' || 9 <= b[i] as int <= 13
    ensures Normal(b + s) == Normal(s)
  {
    SpanPast(b, s);
    assert (b + s)[|b| + Span(IsSpace, s)..] == s[Span(IsSpace, s)..];
  }

  lemma {:induction false} SpanPast(b: string, s: string)
    requires forall i | 0 <= i < |b| :: IsSpace(b[i])
    ensures Span(IsSpace, b + s) == |b| + Span(IsSpace, s)
  {
    if b == "" {
      assert b + s == s;
    } else {
      SpanPast(b[1..], s);
      assert (b + s)[1..] == b[1..] + s;
    }
  }

  /** A word before whitespace, or at the end, is kept, with one space before the next. */
  lemma NormalKeeps(word: string, s: string)
    requires word != "" && forall i | 0 <= i < |word| :: word[i] != ' ' && !(9 <= word[i] as int <= 13)
    requires s == "" || s[0] == ' ' || 9 <= s[0] as int <= 13
    ensures Normal(word + s) == word + if Normal(s) == "" then "" else " " + Normal(s)
  {
    var t := word + s;
    assert Span(IsSpace, t) == 0 && t[0..] == t;
    SpanOf(NotSpace, word, s);
    assert Fields(t) == [word] + Fields(s);
    FieldsAre(s);
    JoinWords(Fields(s));
    if Fields(s) != [] {
      JoinFirst(word, Fields(s));
    } else {
      assert [word] + Fields(s) == [word];
      JoinOnly(word);
    }
  }

  /** How a row is printed. */
  lemma PrintedMeans(row: Row)
    requires Plain(row)
    ensures var pos := row.path + ":" + Itoa(row.line) + (if row.col > 0 then ":" + Itoa(row.col) else "") + ": ";
            && (row.code == "" ==> PrintLine(row) == pos + Normal(row.message))
            && (row.code != "" && row.severity == "" ==> PrintLine(row) == pos + ("[" + row.code + "] ") + Normal(row.message))
            && (row.code != "" && row.severity != "" ==>
                  PrintLine(row) == pos + ("[" + (row.severity + (" " + row.code)) + "] ") + Normal(row.message))
  {
    hide Normal, Itoa, Trim, Lower, BodyText;
    if row.code != "" {
      TagTextIs(row, if row.severity == "" then row.code else row.severity + (" " + row.code));
    } else {
      var pos := row.path + ":" + Itoa(row.line) + (if row.col > 0 then ":" + Itoa(row.col) else "") + ": ";
      assert TagText(row) == "" && pos + "" == pos;
    }
  }

  /** A relative path that a line can begin with. */
  predicate LeadingPath(path: string)
  {
    && path != "" && ':' !in path && !IsSpace(path[0])
    && path[0] != '#' && path[0] != '/' && path[0] != '\\' && !(|path| == 1 && IsLetter(path[0]))
  }

  /** A line of path, line number and message, and one with a column, are read as such. */
  lemma LineMeans(norm: string -> string, path: string, l: string, c: string, msg: string)
    requires LeadingPath(path) && l != "" && All(IsDigit, l) && c != "" && All(IsDigit, c) && msg != "" && Trimmed(msg)
    ensures var n := Value(l);
            && (n < 1 || n > 0x7FFF_FFFF_FFFF_FFFF ==>
                  && ParseLine(norm, path + ":" + l + ": " + msg) == None
                  && ParseLine(norm, path + ":" + l + ":" + c + ": " + msg) == None)
            && (1 <= n <= 0x7FFF_FFFF_FFFF_FFFF ==>
                  && ParseLine(norm, path + ":" + l + ": " + msg) == Some(TaggedEntry(norm(path), n - 1, -1, msg))
                  && ParseLine(norm, path + ":" + l + ":" + c + ": " + msg) ==
                       Some(TaggedEntry(norm(path), n - 1, if 1 <= Value(c) <= 0x7FFF_FFFF_FFFF_FFFF then Value(c) - 1 else -1, msg)))
  {
    hide Tail, Value, Spaced, ParseLine, TaggedEntry;
    PlainLine(norm, path, l, msg);
    ColumnLine(norm, path, l, c, msg);
  }

  lemma PlainLine(norm: string -> string, path: string, l: string, msg: string)
    requires LeadingPath(path) && l != "" && All(IsDigit, l) && msg != "" && Trimmed(msg)
    ensures var line := path + ":" + l + ": " + msg;
            && (Value(l) < 1 || Value(l) > MAX_INT ==> ParseLine(norm, line) == None)
            && (1 <= Value(l) <= MAX_INT ==> ParseLine(norm, line) == Some(TaggedEntry(norm(path), Value(l) - 1, -1, msg)))
  {
    hide Tail, Value, Spaced, ParseLine, TaggedEntry;
    var line := path + ":" + l + ": " + msg;
    SpacedIs(msg);
    assert line == path + (":" + (l + (":" + Spaced(msg))));
    TailWithoutColumn(path, l, msg);
    LineGives(norm, path, l, Spaced(msg), line, Matched(path, l, None, msg));
  }

  lemma ColumnLine(norm: string -> string, path: string, l: string, c: string, msg: string)
    requires LeadingPath(path) && l != "" && All(IsDigit, l) && c != "" && All(IsDigit, c) && msg != "" && Trimmed(msg)
    ensures var line := path + ":" + l + ":" + c + ": " + msg;
            && (Value(l) < 1 || Value(l) > MAX_INT ==> ParseLine(norm, line) == None)
            && (1 <= Value(l) <= MAX_INT ==>
                  ParseLine(norm, line) == Some(TaggedEntry(norm(path), Value(l) - 1, if 1 <= Value(c) <= MAX_INT then Value(c) - 1 else -1, msg)))
  {
    hide Tail, Value, Spaced, ParseLine, TaggedEntry;
    var line := path + ":" + l + ":" + c + ": " + msg;
    SpacedIs(msg);
    assert line == path + (":" + (l + (":" + (c + ":" + Spaced(msg)))));
    TailWithColumn(path, l, c, msg);
    LineGives(norm, path, l, c + ":" + Spaced(msg), line, Matched(path, l, Some(c), msg));
  }

  lemma SpacedIs(s: string)
    requires s != ""
    ensures Spaced(s) == " " + s
  {
  }

  lemma LineGives(norm: string -> string, path: string, l: string, after: string, line: string, m: Matched)
    requires LeadingPath(path) && l != "" && All(IsDigit, l) && line == path + (":" + (l + (":" + after)))
    requires Tail(path, l, after) == Some(m) && m.path == path && m.line == l && (m.col.Some? ==> All(IsDigit, m.col.value))
    requires m.message != "" && Trimmed(m.message) && |m.message| <= |line| && line[|line| - |m.message|..] == m.message
    ensures Value(l) < 1 || Value(l) > MAX_INT ==> ParseLine(norm, line) == None
    ensures 1 <= Value(l) <= MAX_INT ==> ParseLine(norm, line) == Some(TaggedEntry(norm(path), Value(l) - 1, Column(m), m.message))
  {
    hide Trim, MatchTag, Tail, Value, MatchEntry, IsAbsoluteAnywhere, Trimmed, LeadingPath, Column, All;
    LineMatches(path, l, after);
    LineTrimmed(path, line, m.message);
    FoundDigits(line);
    TrimAround("", m.message, "");
    assert "" + (m.message + "") == m.message;
  }

  lemma LineTrimmed(path: string, line: string, msg: string)
    requires LeadingPath(path) && msg != "" && Trimmed(msg) && path <= line && |msg| <= |line| && line[|line| - |msg|..] == msg
    ensures Trim(line) == line && line != "" && line[0] != '#' && !IsAbsoluteAnywhere(path)
  {
    hide Trim;
    assert line[|line| - 1] == msg[|msg| - 1];
    assert line[0] == path[0];
    assert |path| > 1 ==> path[1] in path;
    TrimAround("", line, "");
    assert "" + (line + "") == line;
  }

  /** The text of a line after its position, as an entry: its tag, if it starts with one, and the rest. */
  function TaggedEntry(path: string, line: int, col: int, message: string): Entry
  {
    var t := MatchTag(message);
    if t == None then Entry(path, line, col, message, "", "")
    else Entry(path, line, col, t.value.rest, t.value.code, Lower(t.value.severity))
  }

  lemma LineMatches(path: string, l: string, after: string)
    requires LeadingPath(path) && l != "" && All(IsDigit, l)
    ensures MatchEntry(path + (":" + (l + (":" + after)))) == Tail(path, l, after)
  {
    hide Tail;
    var line := path + (":" + (l + (":" + after)));
    assert path[0..] == path;
    MatchAt(path, l, after, line, 0);
    assert line[0] == path[0];
    if |path| > 1 {
      assert line[1] == path[1] && path[1] in path;
    }
  }

  /** A message that does not open a bracket has no tag; a code alone, or a severity word and a code,
      in brackets is one. */
  lemma TagMeans(path: string, line: int, col: int, sev: string, code: string, msg: string)
    requires code != "" && (forall i | 0 <= i < |code| :: var c := code[i];
               'a' <= c <= 'z' || 'A' <= c <= 'Z' || '0' <= c <= '9' || c == '_' || c == '.' || c == ':' || c == '-')
    requires msg != "" && !IsSpace(msg[0])
    ensures msg[0] != '[' ==> TaggedEntry(path, line, col, msg) == Entry(path, line, col, msg, "", "")
    ensures TaggedEntry(path, line, col, "[" + code + ("]" + (" " + msg))) == Entry(path, line, col, msg, code, "")
    ensures Lower(sev) in ["error", "warning", "warn", "information", "info", "hint"] ==>
              TaggedEntry(path, line, col, "[" + (sev + (" " + code)) + ("]" + (" " + msg))) == Entry(path, line, col, msg, code, Lower(sev))
  {
    hide MatchTag;
    assert Lower("") == "";
    if msg[0] != '[' {
      NoBracketNoTag(msg);
    }
    BareTagReads(code, msg);
    if Lower(sev) in ["error", "warning", "warn", "information", "info", "hint"] {
      FullTagReads(sev, code, msg);
    }
  }

  lemma NoBracketNoTag(s: string)
    requires s != "" && s[0] != '['
    ensures MatchTag(s) == None
  {
  }

  /** A line that begins with a slash or a backslash gives no entry, nor does one whose path has a drive. */
  lemma AbsoluteRefused(norm: string -> string, raw: string)
    requires Trim(raw) != "" && (Trim(raw)[0] == '/' || Trim(raw)[0] == '\\')
    ensures ParseLine(norm, raw) == None
  {
    hide Trim, Tail;
    var line := Trim(raw);
    MatchedPath(line, 0);
  }

  lemma DriveRefused(norm: string -> string, drive: char, path: string, l: string, msg: string)
    requires ('a' <= drive <= 'z' || 'A' <= drive <= 'Z') && path != "" && ':' !in path && l != "" && All(IsDigit, l) && msg != "" && Trimmed(msg)
    ensures ParseLine(norm, [drive] + ":" + path + ":" + l + ": " + msg) == None
  {
    hide Trim, Tail, MatchFrom, Spaced;
    var p := [drive] + ":" + path;
    var line := p + ":" + l + ": " + msg;
    SpacedIs(msg);
    assert line == p + (":" + (l + (":" + Spaced(msg))));
    assert p[2..] == path && HasDrive(p);
    MatchAt(p, l, Spaced(msg), line, 2);
    TailWithoutColumn(p, l, msg);
    assert line[0] == drive && line[1] == ':';
    assert line[|line| - 1] == msg[|msg| - 1];
    TrimAround("", line, "");
    assert "" + (line + "") == line;
    assert [drive] + ":" + path + ":" + l + ": " + msg == line;
  }

  /** A matched path is the beginning of its line. */
  lemma MatchedPath(line: string, from: nat)
    requires from <= |line|
    ensures MatchFrom(line, from) != None ==>
              MatchFrom(line, from).value.path != "" && MatchFrom(line, from).value.path <= line
  {
  }

  // ----- whole files

  predicate NotNewline(c: char) { c != '\n' }

  /** The lines of a text, split at line feeds; what follows the last one counts as a line. */
  function Split(s: string): (lines: seq<string>)
    ensures |lines| > 0
    decreases |s|
  {
    var n := Span(NotNewline, s);
    if n == |s| then [s] else [s[..n]] + Split(s[n + 1..])
  }

  /** The lines, each ended by a line feed. */
  function Text(lines: seq<string>): string
  {
    if lines == [] then "" else lines[0] + ("\n" + Text(lines[1..]))
  }

  lemma SplitNone(s: string)
    requires '\n' !in s
    ensures Split(s) == [s]
  {
    SpanOf(NotNewline, s, "");
    assert s + "" == s;
  }

  lemma SplitFirst(line: string, rest: string)
    requires '\n' !in line
    ensures Split(line + ("\n" + rest)) == [line] + Split(rest)
  {
    var s := line + ("\n" + rest);
    SpanOf(NotNewline, line, "\n" + rest);
    assert s[|line| + 1..] == rest;
    assert s[..|line|] == line;
  }

  lemma {:induction false} SplitText(lines: seq<string>, last: string)
    requires '\n' !in last && forall l | l in lines :: '\n' !in l
    ensures Split(Text(lines) + last) == lines + [last]
  {
    hide Split;
    if |lines| == 0 {
      assert Text(lines) + last == last;
      SplitNone(last);
    } else {
      assert lines[0] in lines;
      forall l | l in lines[1..] ensures '\n' !in l {
        assert l in lines;
      }
      SplitText(lines[1..], last);
      TextFirst(lines, last);
      SplitFirst(lines[0], Text(lines[1..]) + last);
      assert lines + [last] == [lines[0]] + (lines[1..] + [last]);
    }
  }

  lemma TextFirst(lines: seq<string>, last: string)
    requires |lines| > 0
    ensures Text(lines) + last == lines[0] + ("\n" + (Text(lines[1..]) + last))
  {
  }

  /** Splitting only takes the line feeds out, and every one of them. */
  lemma {:induction false} SplitUndone(s: string)
    ensures var ls := Split(s); Text(ls[..|ls| - 1]) + ls[|ls| - 1] == s
    ensures forall l | l in Split(s) :: '\n' !in l
    decreases |s|
  {
    hide Text, Split;
    SpanHolds(NotNewline, s);
    SpanStops(NotNewline, s);
    var n := Span(NotNewline, s);
    if n == |s| {
      assert s[..n] == s;
      SplitNone(s);
      OnlyLine(s);
    } else {
      assert s == s[..n] + ("\n" + s[n + 1..]);
      SplitFirst(s[..n], s[n + 1..]);
      SplitUndone(s[n + 1..]);
      FirstLine(s[..n], Split(s[n + 1..]));
    }
  }

  lemma OnlyLine(s: string)
    ensures Text([s][..|[s]| - 1]) + [s][|[s]| - 1] == s
  {
    assert [s][..0] == [];
  }

  lemma FirstLine(line: string, t: seq<string>)
    requires t != []
    ensures var ls := [line] + t;
            Text(ls[..|ls| - 1]) + ls[|ls| - 1] == line + ("\n" + (Text(t[..|t| - 1]) + t[|t| - 1]))
  {
    var ls := [line] + t;
    assert ls[..|ls| - 1] == [line] + t[..|t| - 1];
    assert ([line] + t[..|t| - 1])[1..] == t[..|t| - 1];
  }

  function Found(e: Option<Entry>): seq<Entry>
  {
    if e == None then [] else [e.value]
  }

  /** The entries of some lines, in order. */
  function Entries(norm: string -> string, lines: seq<string>): seq<Entry>
  {
    if lines == [] then [] else Found(ParseLine(norm, lines[0])) + Entries(norm, lines[1..])
  }

  lemma NoEntries(norm: string -> string, lines: seq<string>)
    requires |lines| == 0
    ensures |Entries(norm, lines)| == 0
  {
  }

  lemma FirstEntries(norm: string -> string, line: string, rest: seq<string>)
    ensures Entries(norm, [line] + rest) == Found(ParseLine(norm, line)) + Entries(norm, rest)
  {
    hide ParseLine;
    assert ([line] + rest)[1..] == rest;
  }

  lemma {:induction false} EntriesJoin(norm: string -> string, a: seq<string>, b: seq<string>)
    ensures Entries(norm, a + b) == Entries(norm, a) + Entries(norm, b)
  {
    hide ParseLine, Entries;
    if |a| == 0 {
      assert a + b == b;
      NoEntries(norm, a);
    } else {
      EntriesJoin(norm, a[1..], b);
      assert a + b == [a[0]] + (a[1..] + b) && a == [a[0]] + a[1..];
      FirstEntries(norm, a[0], a[1..] + b);
      FirstEntries(norm, a[0], a[1..]);
    }
  }

  method Parse(norm: string -> string, content: string) returns (out: seq<Entry>)
    ensures out == Entries(norm, Split(content))
  {
    hide ParseLine;
    out := [];
    var lines := Split(content);
    for i := 0 to |lines|
      invariant out == Entries(norm, lines[..i])
    {
      EntriesJoin(norm, lines[..i], [lines[i]]);
      assert lines[..i + 1] == lines[..i] + [lines[i]];
      assert [lines[i]][1..] == [];
      var e := ParseLine(norm, lines[i]);
      if e != None {
        out := out + [e.value];
      }
    }
    assert lines[..|lines|] == lines;
  }

  /** The order rows are written in: path, line, column, code, message. */
  predicate RowBefore(a: Row, b: Row)
  {
    if a.path != b.path then Before(a.path, b.path)
    else if a.line != b.line then a.line < b.line
    else if a.col != b.col then a.col < b.col
    else if a.code != b.code then Before(a.code, b.code)
    else Before(a.message, b.message)
  }

  lemma RowsOrdered()
    ensures Weak(RowBefore)
  {
    hide Before;
    BeforeIsStrict();
    forall x, y | RowBefore(x, y) ensures !RowBefore(y, x) {
    }
    forall x, y, z | !RowBefore(y, x) && !RowBefore(z, y) ensures !RowBefore(z, x) {
      BeforeTotal(x.path, y.path);
      BeforeTotal(y.path, z.path);
      BeforeTotal(x.code, y.code);
      BeforeTotal(y.code, z.code);
    }
  }

  /** The order of written rows: path, then line, column, code and message. */
  lemma WrittenOrder(rows: seq<Row>, i: nat, j: nat)
    requires i < j < |Sort(RowBefore, rows)|
    ensures var a, b := Sort(RowBefore, rows)[i], Sort(RowBefore, rows)[j];
            && !Before(b.path, a.path)
            && (a.path == b.path ==> a.line <= b.line)
            && (a.path == b.path && a.line == b.line ==> a.col <= b.col)
            && (a.path == b.path && a.line == b.line && a.col == b.col ==> !Before(b.code, a.code))
            && (a.path == b.path && a.line == b.line && a.col == b.col && a.code == b.code ==> !Before(b.message, a.message))
  {
    hide Before;
    RowsOrdered();
    SortSorts(RowBefore, rows);
    var a, b := Sort(RowBefore, rows)[i], Sort(RowBefore, rows)[j];
    assert !RowBefore(b, a);
    BeforeTotal(a.path, b.path);
    BeforeTotal(a.code, b.code);
  }

  function HeaderLines(header: seq<string>): seq<string>
  {
    seq(|header|, i requires 0 <= i < |header| => "# " + header[i])
  }

  function RowLines(rows: seq<Row>): seq<string>
  {
    seq(|rows|, i requires 0 <= i < |rows| => PrintLine(rows[i]))
  }

  lemma {:induction false} TextMore(lines: seq<string>, line: string)
    ensures Text(lines + [line]) == Text(lines) + line + "\n"
  {
    if lines == [] {
      assert lines + [line] == [line];
      assert [line][1..] == [];
      assert line + ("\n" + "") == "" + line + "\n";
    } else {
      TextMore(lines[1..], line);
      assert (lines + [line])[1..] == lines[1..] + [line];
      assert lines[0] + ("\n" + (Text(lines[1..]) + line + "\n")) == lines[0] + ("\n" + Text(lines[1..])) + line + "\n";
    }
  }

  lemma OneMoreLine(before: seq<string>, lines: seq<string>, i: nat)
    requires i < |lines|
    ensures Text(before + lines[..i + 1]) == Text(before + lines[..i]) + lines[i] + "\n"
  {
    assert before + lines[..i + 1] == (before + lines[..i]) + [lines[i]];
    TextMore(before + lines[..i], lines[i]);
  }

  /** Sorts the rows where they are, then prints the header as comments and the rows. */
  method Write(header: seq<string>, rows: array<Row>) returns (w: string)
    modifies rows
    ensures rows[..] == Sort(RowBefore, old(rows[..]))
    ensures w == Text(HeaderLines(header) + RowLines(rows[..]))
  {
    hide RowBefore, PrintLine, Text;
    var sorted := Sort(RowBefore, rows[..]);
    SortElements(RowBefore, rows[..]);
    forall i | 0 <= i < rows.Length {
      rows[i] := sorted[i];
    }
    assert rows[..] == sorted;
    ghost var hs, rs := HeaderLines(header), RowLines(sorted);
    w := "";
    NoLines(hs);
    for i := 0 to |header|
      invariant rows[..] == sorted
      invariant w == Text([] + hs[..i])
    {
      OneMoreLine([], hs, i);
      w := w + ("# " + header[i]) + "\n";
    }
    assert [] + hs[..|header|] == hs + rs[..0];
    for i := 0 to rows.Length
      invariant rows[..] == sorted
      invariant w == Text(hs + rs[..i])
    {
      OneMoreLine(hs, rs, i);
      assert rows[i] == sorted[i];
      w := w + PrintLine(rows[i]) + "\n";
    }
    assert rs[..rows.Length] == rs;
  }

  lemma NoLines(lines: seq<string>)
    ensures Text([] + lines[..0]) == ""
  {
  }

  // ----- a written file, read back

  lemma {:induction false} TrimRightStarts(s: string)
    requires s != "" && !IsSpace(s[0])
    ensures TrimRight(s) != ""
  {
    if IsSpace(s[|s| - 1]) {
      TrimRightStarts(s[..|s| - 1]);
    }
  }

  lemma CommentSkipped(norm: string -> string, h: string)
    ensures ParseLine(norm, "# " + h) == None
  {
    hide MatchEntry;
    var s := "# " + h;
    assert TrimLeft(s) == s;
    TrimRightStarts(s);
    TrimRightKeepsFront(s);
  }

  /** Each line gives at most one entry, so the entries are the expected ones exactly when
      each line gives its own. */
  lemma {:induction false} EachLineItsOwn(norm: string -> string, lines: seq<string>, want: seq<Entry>)
    requires |lines| == |want|
    ensures |Entries(norm, lines)| <= |lines|
    ensures Entries(norm, lines) == want <==> forall i | 0 <= i < |lines| :: ParseLine(norm, lines[i]) == Some(want[i])
  {
    hide ParseLine;
    if |lines| > 0 {
      EachLineItsOwn(norm, lines[1..], want[1..]);
      var first, rest := Found(ParseLine(norm, lines[0])), Entries(norm, lines[1..]);
      assert first + rest == want <==> first == [want[0]] && rest == want[1..] by {
        assert want == [want[0]] + want[1..];
        if first + rest == want {
          assert |first| == 1;
          assert (first + rest)[0] == first[0] && (first + rest)[1..] == rest;
        }
      }
      assert forall i | 0 < i < |lines| :: lines[i] == lines[1..][i - 1] && want[i] == want[1..][i - 1];
      assert forall i | 0 <= i < |lines[1..]| :: lines[i + 1] == lines[1..][i] && want[i + 1] == want[1..][i];
    }
  }

  lemma {:induction false} CommentsSkipped(norm: string -> string, header: seq<string>)
    ensures Entries(norm, HeaderLines(header)) == []
  {
    hide ParseLine;
    if |header| > 0 {
      CommentSkipped(norm, header[0]);
      CommentsSkipped(norm, header[1..]);
      assert HeaderLines(header)[1..] == HeaderLines(header[1..]);
    }
  }

  lemma OneLine(row: Row)
    requires Plain(row) && '\n' !in row.path
    ensures '\n' !in PrintLine(row)
  {
    hide Trim, Lower, Normal, Itoa, Fields, TagText;
    NormalIs(row.message);
    ItoaValue(row.line);
    ItoaValue(if row.col > 0 then row.col else 0);
    TagOneLine(row);
  }

  lemma TagOneLine(row: Row)
    requires Plain(row)
    ensures '\n' !in TagText(row)
  {
    hide Trim, Lower;
    if row.code != "" {
      TrimTag(row);
      assert row.severity != "" ==> Lower(row.severity) in SEVERITIES;
      if row.severity != "" {
        SeverityLetters(row.severity);
      }
    }
  }

  /** The row prints as a line that can be read back. */
  predicate Readable(row: Row)
  {
    !DriveLike(row) && (row.code == "" ==> Untagged(row.message))
  }

  function ExpectedAll(norm: string -> string, rows: seq<Row>): seq<Entry>
  {
    seq(|rows|, i requires 0 <= i < |rows| => Expected(norm, rows[i]))
  }

  /** Reading a written file gives the rows back, sorted, exactly when every row can be read back. */
  lemma FileReadsBack(norm: string -> string, header: seq<string>, rows: seq<Row>)
    requires forall h | h in header :: '\n' !in h
    requires forall r | r in rows :: Plain(r) && '\n' !in r.path
    ensures var sorted := Sort(RowBefore, rows);
            Entries(norm, Split(Text(HeaderLines(header) + RowLines(sorted)))) == ExpectedAll(norm, sorted)
            <==> forall r | r in rows :: Readable(r)
  {
    hide ParseLine, Plain, PrintLine, Readable, Expected, RowBefore;
    var sorted := Sort(RowBefore, rows);
    SortElements(RowBefore, rows);
    var hs, rs := HeaderLines(header), RowLines(sorted);
    forall l | l in hs + rs ensures '\n' !in l {
      LineOfFile(header, rows, sorted, l);
    }
    SplitText(hs + rs, "");
    assert Text(hs + rs) + "" == Text(hs + rs);
    assert Entries(norm, Split(Text(hs + rs))) == Entries(norm, rs) by {
      EntriesJoin(norm, hs + rs, [""]);
      EntriesJoin(norm, hs, rs);
      CommentsSkipped(norm, header);
      EmptySkipped(norm);
      assert [] + Entries(norm, rs) + [] == Entries(norm, rs);
    }
    EachLineItsOwn(norm, rs, ExpectedAll(norm, sorted));
    forall i | 0 <= i < |sorted| ensures ParseLine(norm, rs[i]) == Some(ExpectedAll(norm, sorted)[i]) <==> Readable(sorted[i]) {
      assert sorted[i] in rows;
      RowReadsBack(norm, sorted[i]);
      ReadableIs(sorted[i]);
    }
    EveryOne(sorted, rows);
  }

  lemma ReadableIs(row: Row)
    ensures Readable(row) <==> (!DriveLike(row) && (row.code == "" ==> Untagged(row.message)))
  {
  }

  lemma EveryOne(a: seq<Row>, b: seq<Row>)
    requires forall r :: r in a <==> r in b
    ensures (forall i | 0 <= i < |a| :: Readable(a[i])) <==> (forall r | r in b :: Readable(r))
  {
    hide Readable;
    forall i | 0 <= i < |a| ensures a[i] in b {
      assert a[i] in a;
    }
  }

  lemma EmptySkipped(norm: string -> string)
    ensures Entries(norm, [""]) == []
  {
    assert ParseLine(norm, "") == None;
    assert [""][1..] == [];
  }

  lemma LineOfFile(header: seq<string>, rows: seq<Row>, sorted: seq<Row>, l: string)
    requires forall h | h in header :: '\n' !in h
    requires forall r | r in rows :: Plain(r) && '\n' !in r.path
    requires forall r :: r in sorted <==> r in rows
    requires l in HeaderLines(header) + RowLines(sorted)
    ensures '\n' !in l
  {
    hide Plain, PrintLine;
    if l in HeaderLines(header) {
      var i :| 0 <= i < |header| && l == "# " + header[i];
      assert header[i] in header;
    } else {
      var i :| 0 <= i < |sorted| && l == PrintLine(sorted[i]);
      assert sorted[i] in rows;
      OneLine(sorted[i]);
    }
  }
}
