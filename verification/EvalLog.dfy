/** The append-only evaluation log: complete lines, their parse, and how an incremental reader splits it. */
module EvalLog {
  import opened CampaignTypes
  import opened Sequences

  type Result = EvaluationResult

  /**
   * The log is a sequence of bytes. In UTF-8 the newline is one byte that is part of no other character,
   * so the lines of the text are the stretches between those bytes.
   */
  type Byte = b: int | 0 <= b < 256
  type Bytes = seq<Byte>

  const NEWLINE: Byte := 10

  /** Decoding, trimming and JSON.parse of one line: None for a blank or malformed line. */
  type Parser = Bytes -> Option<Result>

  function FirstNewline(s: Bytes): (i: nat)
    ensures i <= |s| && (i < |s| ==> s[i] == NEWLINE)
    ensures forall k :: 0 <= k < i ==> s[k] != NEWLINE
  {
    if s == [] || s[0] == NEWLINE then 0 else 1 + FirstNewline(s[1..])
  }

  lemma {:induction false} FirstNewlineIs(s: Bytes, i: nat)
    requires i <= |s| && (i < |s| ==> s[i] == NEWLINE)
    requires forall k :: 0 <= k < i ==> s[k] != NEWLINE
    ensures FirstNewline(s) == i
  {
    if i > 0 { FirstNewlineIs(s[1..], i - 1); }
  }

  function ParsedLine(parse: Parser, line: Bytes): seq<Result> {
    match parse(line)
    case Some(r) => [r]
    case None => []
  }

  /** The results on the complete lines of a text: a last line without its newline is not there yet. */
  ghost function ParseText(parse: Parser, text: Bytes): seq<Result>
    decreases |text|
  {
    var i := FirstNewline(text);
    if i == |text| then [] else ParsedLine(parse, text[..i]) + ParseText(parse, text[i + 1..])
  }

  ghost predicate EndsLine(text: Bytes) {
    text == [] || text[|text| - 1] == NEWLINE
  }

  lemma FirstLine(parse: Parser, line: Bytes, rest: Bytes)
    requires forall k :: 0 <= k < |line| ==> line[k] != NEWLINE
    ensures ParseText(parse, line + [NEWLINE] + rest) == ParsedLine(parse, line) + ParseText(parse, rest)
  {
    var text := line + [NEWLINE] + rest;
    FirstNewlineIs(text, |line|);
    assert text[..|line|] == line && text[|line| + 1..] == rest;
  }

  lemma CutFirstLine(a: Bytes) returns (line: Bytes, rest: Bytes)
    requires a != [] && EndsLine(a)
    ensures a == line + [NEWLINE] + rest && EndsLine(rest) && forall k :: 0 <= k < |line| ==> line[k] != NEWLINE
  {
    assert a[|a| - 1] in a;
    var i := FirstNewline(a);
    line, rest := a[..i], a[i + 1..];
  }

  /** Parsing up to a line end and parsing the rest adds up to parsing the whole. */
  lemma {:induction false} ParseSplits(parse: Parser, a: Bytes, b: Bytes)
    requires EndsLine(a)
    ensures ParseText(parse, a + b) == ParseText(parse, a) + ParseText(parse, b)
    decreases |a|
  {
    hide *;
    if a == [] {
      assert a + b == b;
      UnfinishedLine(parse, a);
    } else {
      var line, rest := CutFirstLine(a);
      FirstLine(parse, line, rest);
      FirstLine(parse, line, rest + b);
      ParseSplits(parse, rest, b);
      Regroup(line + [NEWLINE], rest, b);
      Regroup(ParsedLine(parse, line), ParseText(parse, rest), ParseText(parse, b));
    }
  }

  /** An unfinished last line contributes nothing. */
  lemma UnfinishedLine(parse: Parser, text: Bytes)
    requires forall k :: 0 <= k < |text| ==> text[k] != NEWLINE
    ensures ParseText(parse, text) == []
  {
    FirstNewlineIs(text, |text|);
  }

  function LastNewline(s: Bytes): (i: int)
    ensures -1 <= i < |s|
    ensures i >= 0 ==> s[i] == NEWLINE
    ensures forall k :: i < k < |s| ==> s[k] != NEWLINE
  {
    if s == [] then -1
    else if s[|s| - 1] == NEWLINE then |s| - 1
    else LastNewline(s[..|s| - 1])
  }

  lemma ParseUpTo(parse: Parser, a: Bytes, b: Bytes)
    requires EndsLine(a) && forall k :: 0 <= k < |b| ==> b[k] != NEWLINE
    ensures ParseText(parse, a + b) == ParseText(parse, a)
  {
    hide ParseText;
    ParseSplits(parse, a, b);
    UnfinishedLine(parse, b);
  }

  /** Only what lies before the last newline is parsed. */
  lemma ParseUpToLastNewline(parse: Parser, text: Bytes)
    ensures EndsLine(text[..LastNewline(text) + 1])
    ensures ParseText(parse, text) == ParseText(parse, text[..LastNewline(text) + 1])
  {
    hide ParseText;
    var k := LastNewline(text) + 1;
    ParseUpTo(parse, text[..k], text[k..]);
    assert text == text[..k] + text[k..];
  }

  /** `s.split('\n')` */
  function Split(s: Bytes): (parts: seq<Bytes>)
    ensures parts != []
    decreases |s|
  {
    var i := FirstNewline(s);
    if i == |s| then [s] else [s[..i]] + Split(s[i + 1..])
  }

  ghost function ParseParts(parse: Parser, parts: seq<Bytes>): seq<Result> {
    if parts == [] then [] else ParseParts(parse, parts[..|parts| - 1]) + ParsedLine(parse, parts[|parts| - 1])
  }

  lemma {:induction false} ParsePartsFront(parse: Parser, first: Bytes, rest: seq<Bytes>)
    ensures ParseParts(parse, [first] + rest) == ParsedLine(parse, first) + ParseParts(parse, rest)
    decreases |rest|
  {
    var parts := [first] + rest;
    if rest == [] {
      assert parts[..0] == [];
    } else {
      var n := |rest| - 1;
      assert parts[..n + 1] == [first] + rest[..n];
      ParsePartsFront(parse, first, rest[..n]);
    }
  }

  lemma SplitFirst(s: Bytes, line: Bytes, rest: Bytes)
    requires s == line + [NEWLINE] + rest && forall k :: 0 <= k < |line| ==> line[k] != NEWLINE
    ensures Split(s) == [line] + Split(rest)
  {
    FirstNewlineIs(s, |line|);
    assert s[..|line|] == line && s[|line| + 1..] == rest;
  }

  lemma SplitNone(parse: Parser, s: Bytes)
    requires forall k :: 0 <= k < |s| ==> s[k] != NEWLINE
    ensures ParseParts(parse, Split(s)) == ParsedLine(parse, s)
  {
    FirstNewlineIs(s, |s|);
    assert [s] == [s] + [];
    ParsePartsFront(parse, s, []);
    assert ParseParts(parse, []) == [];
  }

  /** Splitting at the newlines and parsing the pieces is parsing the text with its closing newline. */
  lemma {:induction false} SplitParses(parse: Parser, s: Bytes)
    ensures ParseParts(parse, Split(s)) == ParseText(parse, s + [NEWLINE])
    decreases |s|
  {
    var i := FirstNewline(s);
    hide *;
    if i == |s| {
      SplitNone(parse, s);
      FirstLine(parse, s, []);
      UnfinishedLine(parse, []);
      assert s + [NEWLINE] + [] == s + [NEWLINE];
      assert ParsedLine(parse, s) + [] == ParsedLine(parse, s);
    } else {
      var line, rest := s[..i], s[i + 1..];
      assert s == line + [NEWLINE] + rest;
      FirstLine(parse, line, rest + [NEWLINE]);
      Regroup(line + [NEWLINE], rest, [NEWLINE]);
      SplitFirst(s, line, rest);
      SplitParses(parse, rest);
      ParsePartsFront(parse, line, Split(rest));
    }
  }

  /** The parsing loop of getEvaluations: malformed and blank lines are skipped. */
  method ParseLines(parse: Parser, complete: Bytes) returns (results: seq<Result>)
    ensures results == ParseText(parse, complete + [NEWLINE])
  {
    var lines := Split(complete);
    results := [];
    for i := 0 to |lines|
      invariant results == ParseParts(parse, lines[..i])
    {
      assert lines[..i + 1][..i] == lines[..i];
      var r := parse(lines[i]);
      if r.Some? { results := results + [r.value]; }
    }
    assert lines[..|lines|] == lines;
    SplitParses(parse, complete);
  }
}
