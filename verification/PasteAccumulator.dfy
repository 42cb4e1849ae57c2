/**
 * Collecting a multi-line paste into one message (src/cli/pasteAccumulator.ts): the raw input
 * chunks say which of the lines that follow were pasted, and a bare Enter submits what is buffered.
 */
module PasteAccumulator {
  import opened PasteMarkers

  predicate IsNewline(c: char) { c == '\n' || c == '\r' }

  predicate HasNewline(s: string) {
    exists i :: 0 <= i < |s| && IsNewline(s[i])
  }

  predicate HasText(s: string) {
    exists i :: 0 <= i < |s| && !IsNewline(s[i])
  }

  /** A chunk of newline characters only: the user pressed Enter. */
  predicate IsBareEnter(s: string) {
    s != "" && forall i :: 0 <= i < |s| ==> s[i] == '\n' || s[i] == '\r'
  }

  lemma EnterIsNewlines(s: string)
    ensures IsBareEnter(s) <==> HasNewline(s) && !HasText(s)
  {
    if s != "" { assert IsNewline(s[0]) || HasText(s); }
  }

  /** The lines of a message joined by line feeds. */
  function Join(lines: seq<string>): string {
    if lines == [] then ""
    else if |lines| == 1 then lines[0]
    else lines[0] + "\n" + Join(lines[1..])
  }

  /** `text.split('\n')` */
  function LinesIn(text: string): (lines: seq<string>)
    decreases |text|
  {
    var i := IndexOf(text, "\n", 0);
    if i < 0 then [text] else [text[..i]] + LinesIn(text[i + 1..])
  }

  predicate OneLine(line: string) {
    forall i :: 0 <= i < |line| ==> line[i] != '\n'
  }

  lemma LineFeedAt(s: string, i: nat)
    ensures At(s, "\n", i) <==> i < |s| && s[i] == '\n'
  {
    if i < |s| { assert s[i..i + 1] == [s[i]]; }
  }

  lemma FirstLineIn(line: string, rest: string)
    requires OneLine(line)
    ensures LinesIn(line) == [line]
    ensures LinesIn(line + "\n" + rest) == [line] + LinesIn(rest)
  {
    var s := line + "\n" + rest;
    forall j: nat ensures At(s, "\n", j) <==> j < |s| && s[j] == '\n' { LineFeedAt(s, j); }
    forall j: nat ensures At(line, "\n", j) <==> j < |line| && line[j] == '\n' { LineFeedAt(line, j); }
    hide IndexOf, At;
    assert s[|line|] == '\n';
    assert forall j :: 0 <= j < |line| ==> s[j] == line[j];
    assert IndexOf(s, "\n", 0) == |line|;
    assert s[..|line|] == line && s[|line| + 1..] == rest;
  }

  /** A message says what lines it was made of: splitting it at its line feeds gives them back. */
  lemma {:induction false} JoinSplits(lines: seq<string>)
    requires lines != [] && forall i :: 0 <= i < |lines| ==> OneLine(lines[i])
    ensures LinesIn(Join(lines)) == lines
  {
    hide LinesIn;
    if |lines| == 1 {
      FirstLineIn(lines[0], "");
    } else {
      JoinSplits(lines[1..]);
      FirstLineIn(lines[0], Join(lines[1..]));
    }
  }

  datatype Source = NotPasted | Bracketed | MarkerlessMultiline | MarkerlessBareNewline

  datatype DataInfo = DataInfo(isPaste: bool, text: string, source: Source)

  datatype Message = NoMessage | Message(text: string)

  // ---------------------------------------------------------------------------------------------
  // The accumulator as a value
  // ---------------------------------------------------------------------------------------------

  /** The fields of an accumulator. */
  datatype Memory = Memory(flow: Flow, lines: seq<string>, lastChunk: string, chunkIsPaste: bool, timerArmed: bool)

  const NEW_MEMORY := Memory(NEW_FLOW, [], "", false, false)

  /** Some beginning of the text leaves a paste open. */
  ghost predicate OpenSomewhere(open: bool, s: string) {
    exists k: nat :: k <= |s| && OpenAfter(open, s[..k])
  }

  ghost function AfterData(m: Memory, chunk: string): Memory {
    Memory(Feed(m.flow, chunk), m.lines, Emitted(m.flow, chunk),
           OpenSomewhere(m.flow.pasteOpen, Decided(m.flow.carry + chunk)), false)
  }

  lemma AfterDataInParts(m: Memory, chunk: string)
    ensures var buf := m.flow.carry + chunk;
            var cut := |buf| - LongestPartial(buf, 5);
            AfterData(m, chunk) ==
              Memory(Flow(buf[cut..], OpenAfter(m.flow.pasteOpen, buf[..cut]), m.flow.markerSeen || HasMarker(buf)),
                     m.lines, Strip(buf[..cut]), OpenSomewhere(m.flow.pasteOpen, buf[..cut]), false)
  {
    hide LongestPartial, OpenAfter, HasMarker, Strip, OpenSomewhere;
  }

  /** The lines one submission consists of, if there was one. */
  datatype Submission = Nothing | Submitted(lines: seq<string>)

  datatype Outcome = Outcome(memory: Memory, submission: Submission)

  /** Whether an ambiguous Enter is held back for the coalescing window. */
  predicate Defers(m: Memory, window: bool) {
    window && !m.flow.markerSeen
  }

  function AfterLine(m: Memory, window: bool, rawLine: string): Outcome {
    var line := Strip(rawLine);
    var grown := m.lines + [line];
    if m.chunkIsPaste || !IsBareEnter(m.lastChunk) then Outcome(m.(lines := grown), Nothing) else
    var content := if line == "" && m.lines != [] then m.lines else grown;
    if m.lines != [] && Defers(m, window) then Outcome(m.(lines := content, timerArmed := true), Nothing)
    else Outcome(m.(lines := []), Submitted(content))
  }

  function AfterTimer(m: Memory): Outcome {
    if m.timerArmed then Outcome(m.(lines := [], timerArmed := false), Submitted(m.lines))
    else Outcome(m, Nothing)
  }

  function AfterDrain(m: Memory): Outcome {
    if m.lines == [] then Outcome(m.(timerArmed := false), Nothing)
    else Outcome(m.(lines := [], timerArmed := false), Submitted(m.lines))
  }

  function AfterReset(m: Memory): Memory {
    m.(lastChunk := "", chunkIsPaste := false, flow := m.flow.(carry := ""), timerArmed := false)
  }

  function AfterClear(m: Memory): Memory {
    m.(lines := [], flow := Flow("", false, m.flow.markerSeen), chunkIsPaste := false, timerArmed := false)
  }

  function TextOf(s: Submission): Message {
    match s
    case Nothing => NoMessage
    case Submitted(lines) => Message(Join(lines))
  }

  // ---------------------------------------------------------------------------------------------
  // Library searches
  // ---------------------------------------------------------------------------------------------

  /** The first index of m in s from the given position on, or -1. */
  function IndexOf(s: string, m: string, from: nat): (r: int)
    requires m != ""
    ensures r == -1 || (from <= r && At(s, m, r))
    ensures forall j: nat :: from <= j && (r == -1 || j < r) ==> !At(s, m, j)
    decreases |s| - from
  {
    if from + |m| > |s| then -1
    else if At(s, m, from) then from
    else IndexOf(s, m, from + 1)
  }

  lemma IncludesMarker(s: string)
    ensures HasMarker(s) <==> IndexOf(s, PASTE_START, 0) >= 0 || IndexOf(s, PASTE_END, 0) >= 0
  {
    hide IndexOf;
    var start, end := IndexOf(s, PASTE_START, 0), IndexOf(s, PASTE_END, 0);
    if start >= 0 {
      assert MarkerAt(s, start);
    }
    if end >= 0 {
      assert MarkerAt(s, end);
    }
  }

  /** The last index of m in s below the given bound, or -1. */
  function LastIndexOf(s: string, m: string, below: nat): (r: int)
    ensures r == -1 || (0 <= r < below && At(s, m, r))
    ensures forall j: nat :: r < j < below ==> !At(s, m, j)
  {
    if below == 0 then -1
    else if At(s, m, below - 1) then below - 1
    else LastIndexOf(s, m, below - 1)
  }

  /** A search only for the part after the last complete marker finds the same partial marker. */
  lemma PartialsAreAfterMarkers(buf: string, after: nat, k: nat)
    requires after == 0 || (6 <= after <= |buf| && MarkerAt(buf, after - 6))
    requires PartialEnd(buf, k)
    ensures after + k <= |buf|
  {
    hide MarkerAt, IsPartial;
    var start := |buf| - k;
    PartialShape(buf[start..]);
    assert buf[start] == ESC && k < 6;
    if after != 0 {
      MarkerShape(buf, after - 6);
    }
  }

  /** The length of the partial marker at the end of the buffer, as the source searches for it. */
  method TrailingPartialMarkerLen(buf: string) returns (len: nat)
    ensures len == LongestPartial(buf, 5)
  {
    hide IsPartial;
    var start := LastIndexOf(buf, PASTE_START, |buf|);
    var end := LastIndexOf(buf, PASTE_END, |buf|);
    var afterLastComplete := 0;
    if start >= 0 { afterLastComplete := start + 6; }
    if end >= 0 && end + 6 > afterLastComplete { afterLastComplete := end + 6; }
    var residual := buf[afterLastComplete..];
    len := if |residual| < 5 then |residual| else 5;
    forall k: nat | len < k <= 5 ensures !PartialEnd(buf, k) {
      if PartialEnd(buf, k) {
        PartialsAreAfterMarkers(buf, afterLastComplete, k);
        assert false;
      }
    }
    while len > 0
      invariant len <= |residual| && len <= 5
      invariant forall k: nat :: len < k <= 5 ==> !PartialEnd(buf, k)
    {
      var suffix := residual[|residual| - len..];
      assert suffix == buf[|buf| - len..];
      if IsPartial(suffix) {
        assert PartialEnd(buf, len);
        return;
      }
      len := len - 1;
    }
  }

  // ---------------------------------------------------------------------------------------------
  // The accumulator
  // ---------------------------------------------------------------------------------------------

  class PasteAccumulator {
    var lines: seq<string>
    var lastChunk: string
    var pasteOpen: bool
    var chunkIsPaste: bool
    var markerSeen: bool
    var carry: string
    var pendingTimer: bool
    const coalesceMs: int
    const hasDeferredSubmit: bool

    ghost function Snapshot(): Memory
      reads this
    {
      Memory(Flow(carry, pasteOpen, markerSeen), lines, lastChunk, chunkIsPaste, pendingTimer)
    }

    /** The coalescing window is configured. */
    predicate Window() {
      coalesceMs > 0 && hasDeferredSubmit
    }

    constructor (coalesceMs: int, hasDeferredSubmit: bool)
      ensures Snapshot() == NEW_MEMORY
      ensures Window() <==> coalesceMs > 0 && hasDeferredSubmit
    {
      this.coalesceMs := coalesceMs;
      this.hasDeferredSubmit := hasDeferredSubmit;
      lines, lastChunk, carry := [], "", "";
      pasteOpen, chunkIsPaste, markerSeen, pendingTimer := false, false, false, false;
    }

    /** Records a raw chunk, and classifies it for display. */
    method OnData(chunk: string) returns (info: DataInfo)
      modifies this
      ensures Snapshot() == AfterData(old(Snapshot()), chunk)
      ensures info.text == lastChunk && (info.isPaste <==> info.source != NotPasted)
      ensures info.source == Bracketed <==> chunkIsPaste
      ensures info.source == MarkerlessMultiline <==>
                !chunkIsPaste && !markerSeen && HasText(lastChunk) && HasNewline(lastChunk)
      ensures info.source == MarkerlessBareNewline <==>
                !chunkIsPaste && !markerSeen && lines != [] && IsBareEnter(lastChunk)
    {
      hide LongestPartial, OpenAfter, Strip, IsPartial, HasMarker, HasText, HasNewline, IsBareEnter;
      hide OpenSomewhere, At, AfterData, IndexOf;
      CancelPendingTimer();
      var buf := carry + chunk;
      var carryLen := TrailingPartialMarkerLen(buf);
      AfterDataInParts(old(Snapshot()), chunk);
      var scan := buf[..|buf| - carryLen];
      carry := buf[|buf| - carryLen..];
      var markerInBuf := IndexOf(buf, PASTE_START, 0) >= 0 || IndexOf(buf, PASTE_END, 0) >= 0;
      IncludesMarker(buf);
      if markerInBuf { markerSeen := true; }
      var wasPasteOpen := pasteOpen;
      chunkIsPaste := wasPasteOpen || IndexOf(scan, PASTE_START, 0) >= 0;
      OpensWhere(wasPasteOpen, scan);
      pasteOpen := WalkMarkers(wasPasteOpen, scan);
      lastChunk := Strip(scan);
      var source := Classify();
      info := DataInfo(source != NotPasted, lastChunk, source);
    }

    /** What the chunk just recorded looks like, for display only. */
    method Classify() returns (source: Source)
      ensures source == Bracketed <==> chunkIsPaste
      ensures source == MarkerlessMultiline <==>
                !chunkIsPaste && !markerSeen && HasText(lastChunk) && HasNewline(lastChunk)
      ensures source == MarkerlessBareNewline <==>
                !chunkIsPaste && !markerSeen && lines != [] && IsBareEnter(lastChunk)
    {
      var multiline := !markerSeen && HasText(lastChunk) && HasNewline(lastChunk);
      var bareNewline := !markerSeen && |lines| > 0 && IsBareEnter(lastChunk);
      source :=
        if chunkIsPaste then Bracketed
        else if multiline then MarkerlessMultiline
        else if bareNewline then MarkerlessBareNewline
        else NotPasted;
    }

    method ResetChunk()
      modifies this
      ensures Snapshot() == AfterReset(old(Snapshot()))
    {
      lastChunk := "";
      chunkIsPaste := false;
      carry := "";
      CancelPendingTimer();
    }

    /** Feeds a line; the result is the message to submit, if this line completes one. */
    method OnLine(rawLine: string) returns (message: Message)
      modifies this
      ensures var after := AfterLine(old(Snapshot()), Window(), rawLine);
              Snapshot() == after.memory && message == TextOf(after.submission)
    {
      hide Strip, Join, IsBareEnter;
      var line := Strip(rawLine);
      if chunkIsPaste {
        lines := lines + [line];
        return NoMessage;
      }
      var isBareEnter := IsBareEnter(lastChunk);
      var priorLines := |lines|;
      if isBareEnter && line == "" && priorLines > 0 {
        message := MaybeDeferFlush();
        return;
      }
      lines := lines + [line];
      if !isBareEnter { return NoMessage; }
      if priorLines > 0 {
        message := MaybeDeferFlush();
        return;
      }
      var text := Flush();
      message := Message(text);
    }

    method MaybeDeferFlush() returns (message: Message)
      modifies this
      ensures var m := old(Snapshot());
              if Defers(m, Window()) then Snapshot() == m.(timerArmed := true) && message == NoMessage
              else Snapshot() == m.(lines := []) && message == Message(Join(m.lines))
    {
      if coalesceMs > 0 && !markerSeen && hasDeferredSubmit {
        CancelPendingTimer();
        pendingTimer := true;
        return NoMessage;
      }
      var text := Flush();
      message := Message(text);
    }

    /** The deferred flush comes due: the message goes to the submit callback. */
    method TimerFires() returns (message: Message)
      modifies this
      ensures var after := AfterTimer(old(Snapshot()));
              Snapshot() == after.memory && message == TextOf(after.submission)
    {
      if !pendingTimer { return NoMessage; }
      pendingTimer := false;
      var text := Flush();
      message := Message(text);
    }

    method CancelPendingTimer()
      modifies this
      ensures Snapshot() == old(Snapshot()).(timerArmed := false)
    {
      if pendingTimer { pendingTimer := false; }
    }

    method Clear()
      modifies this
      ensures Snapshot() == AfterClear(old(Snapshot()))
    {
      lines := [];
      pasteOpen := false;
      chunkIsPaste := false;
      carry := "";
      CancelPendingTimer();
    }

    method Drain() returns (message: Message)
      modifies this
      ensures var after := AfterDrain(old(Snapshot()));
              Snapshot() == after.memory && message == TextOf(after.submission)
    {
      CancelPendingTimer();
      if |lines| == 0 { return NoMessage; }
      var text := Flush();
      message := Message(text);
    }

    method Flush() returns (text: string)
      modifies this
      ensures Snapshot() == old(Snapshot()).(lines := [])
      ensures text == Join(old(lines))
    {
      text := Join(lines);
      lines := [];
    }
  }

  /** Walks the markers in order to find the open state after the text. */
  method WalkMarkers(wasOpen: bool, scan: string) returns (open: bool)
    ensures open == OpenAfter(wasOpen, scan)
  {
    hide OpenAfter;
    open := wasOpen;
    var i := 0;
    assert scan[0..] == scan;
    while i < |scan|
      invariant i <= |scan|
      invariant OpenAfter(wasOpen, scan) == OpenAfter(open, scan[i..])
    {
      var start := IndexOf(scan, PASTE_START, i);
      var end := IndexOf(scan, PASTE_END, i);
      if start == -1 && end == -1 {
        SkipTo(open, scan, i, |scan|);
        i := |scan|;
        break;
      }
      if end == -1 || (start != -1 && start < end) {
        SkipTo(open, scan, i, start);
        PassMarker(open, scan, start);
        open := true;
        i := start + 6;
      } else {
        SkipTo(open, scan, i, end);
        PassMarker(open, scan, end);
        open := false;
        i := end + 6;
      }
    }
    assert scan[i..] == "";
    OpenAfterNothing(open);
  }

  lemma SkipTo(open: bool, s: string, i: nat, j: nat)
    requires i <= j <= |s|
    requires forall k: nat :: i <= k < j ==> !At(s, PASTE_START, k) && !At(s, PASTE_END, k)
    ensures OpenAfter(open, s[i..]) == OpenAfter(open, s[j..])
  {
    hide OpenAfter;
    forall k: nat | k < j - i ensures !MarkerAt(s[i..], k) {
      AtShifts(s, PASTE_START, i, k);
      AtShifts(s, PASTE_END, i, k);
    }
    OpenUnchanged(open, s[i..], j - i);
    assert s[i..][j - i..] == s[j..];
  }

  lemma PassMarker(open: bool, s: string, i: nat)
    requires MarkerAt(s, i)
    ensures OpenAfter(open, s[i..]) == OpenAfter(At(s, PASTE_START, i), s[i + 6..])
  {
    AtShifts(s, PASTE_START, i, 0);
    AtShifts(s, PASTE_END, i, 0);
    assert s[i..][6..] == s[i + 6..];
  }

  /** A paste is open somewhere in a text exactly when it was open before or the text opens one. */
  lemma OpensWhere(open: bool, s: string)
    ensures OpenSomewhere(open, s) <==> open || IndexOf(s, PASTE_START, 0) >= 0
  {
    hide OpenAfter, IndexOf;
    if open {
      OpenAfterNothing(open);
      assert OpenAfter(open, s[..0]);
    } else {
      var start := IndexOf(s, PASTE_START, 0);
      if start >= 0 {
        OpenedByStart(open, s, start);
      }
      forall k: nat | k <= |s| && OpenAfter(open, s[..k]) ensures start >= 0 {
        var at := OpenNeedsStart(s[..k]);
        assert s[..k] + s[k..] == s;
        AtInPrefix(s[..k], s[k..], PASTE_START, at);
      }
    }
  }

  /** A marker cuts a text cleanly before it. */
  lemma CutBeforeMarker(s: string, i: nat)
    requires MarkerAt(s, i)
    ensures s == s[..i] + s[i..] && NoStraddle(s[..i], s[i..])
  {
    hide MarkerAt;
    MarkerShape(s, i);
    assert s[..i] + s[i..] == s;
    forall j: nat | j < i < j + 6 ensures !MarkerAt(s, j) {
      if MarkerAt(s, j) {
        MarkerShape(s, j);
        assert false;
      }
    }
  }

  /** Whatever comes before a marker, the paste is open after it as the marker says. */
  lemma OpenFromMarker(open: bool, s: string, i: nat)
    requires MarkerAt(s, i)
    ensures OpenAfter(open, s) == OpenAfter(At(s, PASTE_START, i), s[i + 6..])
  {
    hide OpenAfter, NoStraddle;
    CutBeforeMarker(s, i);
    CleanCut(open, s[..i], s[i..]);
    PassMarker(OpenAfter(open, s[..i]), s, i);
  }

  /** The last marker of a text decides whether a paste is open after it; without any nothing changes. */
  lemma LastMarkerDecides(open: bool, s: string)
    ensures !HasMarker(s) ==> OpenAfter(open, s) == open
    ensures forall i: nat :: MarkerAt(s, i) && (forall j: nat :: j > i ==> !MarkerAt(s, j)) ==>
              OpenAfter(open, s) == At(s, PASTE_START, i)
  {
    hide OpenAfter, At;
    if !HasMarker(s) {
      forall k: nat | k < |s| ensures !MarkerAt(s, k) {}
      OpenUnchanged(open, s, |s|);
      assert s[|s|..] == "";
      OpenAfterNothing(open);
    }
    forall i: nat | MarkerAt(s, i) && forall j: nat :: j > i ==> !MarkerAt(s, j)
      ensures OpenAfter(open, s) == At(s, PASTE_START, i)
    {
      OpenFromMarker(open, s, i);
      MarkerShape(s, i);
      NothingAfter(At(s, PASTE_START, i), s, i + 6);
    }
  }

  lemma NothingAfter(open: bool, s: string, i: nat)
    requires i <= |s| && forall j: nat :: j >= i ==> !MarkerAt(s, j)
    ensures OpenAfter(open, s[i..]) == open
  {
    hide OpenAfter;
    forall j: nat | i <= j < |s| ensures !At(s, PASTE_START, j) && !At(s, PASTE_END, j) {
      assert !MarkerAt(s, j);
    }
    SkipTo(open, s, i, |s|);
    assert s[|s|..] == "";
    OpenAfterNothing(open);
  }

  /** Stripping takes a marker out of a text and leaves what is before and after it. */
  lemma StripFromMarker(s: string, i: nat)
    requires MarkerAt(s, i)
    ensures Strip(s) == Strip(s[..i]) + Strip(s[i + 6..])
  {
    CutBeforeMarker(s, i);
    AtShifts(s, PASTE_START, i, 0);
    AtShifts(s, PASTE_END, i, 0);
    assert s[i..][6..] == s[i + 6..];
    assert Strip(s[i..]) == Strip(s[i + 6..]);
    hide Strip, OpenAfter, NoStraddle, MarkerAt;
    CleanCut(false, s[..i], s[i..]);
  }

  /** A text without markers it leaves alone. */
  lemma {:induction false} StripNothing(s: string)
    requires !HasMarker(s)
    ensures Strip(s) == s
  {
    hide MarkerAt;
    if s != "" {
      assert !MarkerAt(s, 0);
      NoMarkerInRest(s);
      StripNothing(s[1..]);
    }
  }

  lemma NoMarkerInRest(s: string)
    requires s != "" && !HasMarker(s)
    ensures !HasMarker(s[1..])
  {
    forall i: nat | i < |s[1..]| ensures !MarkerAt(s[1..], i) {
      AtShifts(s, PASTE_START, 1, i);
      AtShifts(s, PASTE_END, 1, i);
      assert !MarkerAt(s, 1 + i);
    }
  }

  lemma OpenedByStart(open: bool, s: string, start: nat)
    requires At(s, PASTE_START, start)
    ensures OpenAfter(open, s[..start + 6])
  {
    hide OpenAfter;
    var t := s[..start + 6];
    assert t[start..start + 6] == s[start..start + 6] && t[start + 6..] == "";
    OpenFromMarker(open, t, start);
    OpenAfterNothing(true);
  }

  /** A paste that was closed is open later only if a start marker came in between. */
  lemma {:induction false} OpenNeedsStart(s: string) returns (at: nat)
    requires OpenAfter(false, s)
    ensures At(s, PASTE_START, at)
    decreases |s|
  {
    if At(s, PASTE_START, 0) {
      at := 0;
    } else {
      var k := if At(s, PASTE_END, 0) then 6 else 1;
      at := OpenNeedsStart(s[k..]);
      AtShifts(s, PASTE_START, k, at);
      at := at + k;
    }
  }
}
