/** Whole input sessions over the paste accumulator: chunks, lines, timers and drains in any order. */
module PasteSession {
  import opened PasteMarkers
  import opened PasteAccumulator
  import opened Sequences

  datatype Event = Data(chunk: string) | Line(rawLine: string) | Timer | Drain | Reset | Clear

  ghost function Next(m: Memory, window: bool, e: Event): Outcome {
    match e
    case Data(chunk) => Outcome(AfterData(m, chunk), Nothing)
    case Line(rawLine) => AfterLine(m, window, rawLine)
    case Timer => AfterTimer(m)
    case Drain => AfterDrain(m)
    case Reset => Outcome(AfterReset(m), Nothing)
    case Clear => Outcome(AfterClear(m), Nothing)
  }

  datatype Session = Session(memory: Memory, messages: seq<seq<string>>)

  function Sent(s: Submission): seq<seq<string>> {
    match s
    case Nothing => []
    case Submitted(lines) => [lines]
  }

  /** The memory after the events, and the messages submitted on the way, each as its lines. */
  ghost function Run(m: Memory, window: bool, events: seq<Event>): Session
    decreases |events|
  {
    if events == [] then Session(m, []) else
    var first := Next(m, window, events[0]);
    var rest := Run(first.memory, window, events[1..]);
    Session(rest.memory, Sent(first.submission) + rest.messages)
  }

  /** The lines fed by the events, without markers. */
  function LinesOf(events: seq<Event>): seq<string> {
    if events == [] then []
    else (if events[0].Line? then [Strip(events[0].rawLine)] else []) + LinesOf(events[1..])
  }

  function NonEmptyLines(lines: seq<string>): seq<string> {
    if lines == [] then []
    else (if lines[0] != "" then [lines[0]] else []) + NonEmptyLines(lines[1..])
  }

  lemma {:induction false} NonEmptyAppend(a: seq<string>, b: seq<string>)
    ensures NonEmptyLines(a + b) == NonEmptyLines(a) + NonEmptyLines(b)
  {
    if a == [] {
      assert a + b == b;
    } else {
      assert (a + b)[1..] == a[1..] + b;
      NonEmptyAppend(a[1..], b);
    }
  }

  // ---------------------------------------------------------------------------------------------
  // Conservation and the timer
  // ---------------------------------------------------------------------------------------------

  /** One event neither loses, repeats nor reorders content. */
  lemma StepConserves(m: Memory, window: bool, e: Event)
    requires e != Clear
    ensures var after := Next(m, window, e);
            NonEmptyLines(Flatten(Sent(after.submission)) + after.memory.lines) ==
            NonEmptyLines(m.lines + LinesOf([e]))
  {
    hide Strip, Feed, Emitted, OpenSomewhere;
    var after := Next(m, window, e);
    assert LinesOf([e]) == (if e.Line? then [Strip(e.rawLine)] else []) + LinesOf([]);
    FlatSent(after.submission);
    assert forall lines: seq<string> :: [] + lines == lines == lines + [];
    if e.Line? {
      NonEmptyAppend(m.lines, [Strip(e.rawLine)]);
    }
  }

  lemma FlatSent(s: Submission)
    ensures Flatten(Sent(s)) == if s.Submitted? then s.lines else []
  {
    if s.Submitted? {
      assert Flatten([s.lines]) == s.lines + Flatten([]);
    }
  }

  lemma FlatAppend(first: seq<seq<string>>, rest: seq<seq<string>>)
    requires |first| <= 1
    ensures Flatten(first + rest) == Flatten(first) + Flatten(rest)
  {
    if first == [] {
      assert first + rest == rest;
    } else {
      assert (first + rest)[1..] == rest && first[1..] == [];
      FlattenFront(first + rest);
      FlattenFront(first);
    }
  }

  lemma LinesOfFront(events: seq<Event>)
    requires events != []
    ensures LinesOf(events) == LinesOf([events[0]]) + LinesOf(events[1..])
  {
    hide Strip;
    assert [events[0]][1..] == [];
  }

  /** The content submitted, then the content still buffered, is the content fed, in order. */
  lemma {:induction false} LinesAreConserved(m: Memory, window: bool, events: seq<Event>)
    requires Clear !in events
    ensures var end := Run(m, window, events);
            NonEmptyLines(Flatten(end.messages) + end.memory.lines) == NonEmptyLines(m.lines + LinesOf(events))
    decreases |events|
  {
    hide Next, Strip, NonEmptyLines;
    if events == [] {
      assert m.lines + [] == m.lines == [] + m.lines;
    } else {
      var first := Next(m, window, events[0]);
      var sent, rest := Flatten(Sent(first.submission)), Run(first.memory, window, events[1..]);
      StepConserves(m, window, events[0]);
      LinesAreConserved(first.memory, window, events[1..]);
      FlatAppend(Sent(first.submission), rest.messages);
      LinesOfFront(events);
      Reassemble(sent, Flatten(rest.messages), rest.memory.lines, first.memory.lines,
                 m.lines, LinesOf([events[0]]), LinesOf(events[1..]));
    }
  }

  /** The bookkeeping of the conservation proof. */
  lemma Reassemble(sent: seq<string>, later: seq<string>, end: seq<string>, middle: seq<string>,
                   start: seq<string>, fed: seq<string>, fedLater: seq<string>)
    requires NonEmptyLines(sent + middle) == NonEmptyLines(start + fed)
    requires NonEmptyLines(later + end) == NonEmptyLines(middle + fedLater)
    ensures NonEmptyLines((sent + later) + end) == NonEmptyLines(start + (fed + fedLater))
  {
    hide NonEmptyLines;
    NonEmptyAppend(sent, middle);
    NonEmptyAppend(middle, fedLater);
    NonEmptyAppend(sent, later + end);
    NonEmptyAppend(start + fed, fedLater);
    Regroup(NonEmptyLines(sent), NonEmptyLines(middle), NonEmptyLines(fedLater));
    Regroup(sent, later, end);
    Regroup(start, fed, fedLater);
  }

  /** A timer is armed only over buffered lines, without markers, and with the window configured. */
  predicate TimerSound(m: Memory, window: bool) {
    m.timerArmed ==> m.lines != [] && Defers(m, window)
  }

  /** In every session the timer stays sound, so no submission, deferred or not, is without lines. */
  lemma {:induction false} SubmissionsHaveLines(m: Memory, window: bool, events: seq<Event>)
    requires TimerSound(m, window)
    ensures TimerSound(Run(m, window, events).memory, window)
    ensures forall i :: 0 <= i < |Run(m, window, events).messages| ==> Run(m, window, events).messages[i] != []
    decreases |events|
  {
    hide Strip, Feed, Emitted, OpenSomewhere;
    if events != [] {
      SubmissionsHaveLines(Next(m, window, events[0]).memory, window, events[1..]);
    }
  }

  // ---------------------------------------------------------------------------------------------
  // A bracketed paste is one message
  // ---------------------------------------------------------------------------------------------

  /** The raw stream the chunks spell out. */
  function StreamOf(events: seq<Event>): string {
    if events == [] then ""
    else (if events[0].Data? then events[0].chunk else "") + StreamOf(events[1..])
  }

  /** Only chunks and lines, and lines only after a chunk that held a newline. */
  predicate LinesFollowNewlines(events: seq<Event>, ready: bool)
    decreases |events|
  {
    events == [] ||
    match events[0]
    case Data(chunk) => LinesFollowNewlines(events[1..], HasNewline(chunk))
    case Line(_) => ready && LinesFollowNewlines(events[1..], ready)
    case _ => false
  }

  function Pasted(body: string): string {
    PASTE_START + body + PASTE_END
  }

  lemma PastedAt(body: string, q: nat)
    requires q < |Pasted(body)|
    ensures q < 6 ==> Pasted(body)[q] == PASTE_START[q]
    ensures 6 + |body| <= q ==> Pasted(body)[q] == PASTE_END[q - 6 - |body|]
  {
  }

  lemma NewlinesAreInBody(body: string, q: nat)
    requires q < |Pasted(body)| && IsNewline(Pasted(body)[q])
    ensures 6 <= q < 6 + |body|
  {
    assert forall j :: 0 <= j < 6 ==> !IsNewline(PASTE_START[j]) && !IsNewline(PASTE_END[j]);
    PastedAt(body, q);
  }

  /** Inside the pasted text the paste is open. */
  lemma OpenInsideBody(body: string, q: nat)
    requires !HasMarker(body)
    requires q < |Pasted(body)| && IsNewline(Pasted(body)[q])
    ensures OpenAfter(false, Pasted(body)[..q])
  {
    hide OpenAfter;
    NewlinesAreInBody(body, q);
    var x, y := body[..q - 6], body[q - 6..];
    assert Pasted(body)[..q] == PASTE_START + x;
    StartOpens(x);
    assert x + y == body;
    forall i: nat | i < |x| ensures !MarkerAt(x, i) {
      if i + 6 <= |x| {
        AtInPrefix(x, y, PASTE_START, i);
        AtInPrefix(x, y, PASTE_END, i);
        assert MarkerAt(x, i) == MarkerAt(body, i);
      }
    }
    OpenUnchanged(true, x, |x|);
    assert x[|x|..] == "";
    OpenAfterNothing(true);
  }

  lemma StartOpens(x: string)
    ensures OpenAfter(false, PASTE_START + x) == OpenAfter(true, x)
  {
    assert At(PASTE_START + x, PASTE_START, 0);
    assert (PASTE_START + x)[6..] == x;
  }

  /** A chunk of the paste that holds a newline is flagged as pasted, however the stream was cut before it. */
  lemma NewlineChunkIsPasted(f: Flow, before: string, chunk: string, rest: string, body: string)
    requires f.carry == "" && !f.pasteOpen && !HasMarker(body)
    requires before + chunk + rest == Pasted(body)
    requires HasNewline(chunk)
    ensures OpenSomewhere(Feed(f, before).pasteOpen, Decided(Feed(f, before).carry + chunk))
  {
    hide OpenAfter, Pasted, Tail, Decided, HasMarker, OpenSomewhere;
    assert "" + before == before;
    var i: nat :| i < |chunk| && IsNewline(chunk[i]);
    OpenAtNewline(before, chunk, rest, body, i);
  }

  lemma OpenAtNewline(before: string, chunk: string, rest: string, body: string, i: nat)
    requires !HasMarker(body) && before + chunk + rest == Pasted(body)
    requires i < |chunk| && IsNewline(chunk[i])
    ensures OpenSomewhere(OpenAfter(false, Decided(before)), Decided(Tail(before) + chunk))
  {
    hide *;
    var d, t := Decided(before), Tail(before);
    var buf, k := t + chunk, |t| + i;
    Halves(before);
    Pieces(d, t, chunk, rest, i);
    NewlineIsDecided(buf, k);
    OpenInsideBody(body, |before| + i);
    TailCutsCleanly(before, chunk);
    Halves(buf);
    assert Decided(buf)[..k] == buf[..k];
    OpenAtPrefix(d, Decided(buf), Tail(buf), k);
  }

  /** Whether the paste is open at a place in a text does not depend on a clean cut before it. */
  lemma OpenAtPrefix(d: string, scan: string, tail: string, k: nat)
    requires k <= |scan| && NoStraddle(d, scan + tail)
    requires OpenAfter(false, d + scan[..k])
    ensures OpenSomewhere(OpenAfter(false, d), scan)
  {
    hide OpenAfter, NoStraddle;
    var x, rest := scan[..k], scan[k..] + tail;
    assert x + rest == scan + tail;
    EarlierEnd(d, x, rest);
    CleanCut(false, d, x);
    assert OpenAfter(OpenAfter(false, d), scan[..k]);
  }

  /** Where the i-th character of a chunk stands in the buffer and in the stream. */
  lemma Pieces(d: string, t: string, chunk: string, rest: string, i: nat)
    requires i < |chunk|
    ensures (t + chunk)[|t| + i] == chunk[i]
    ensures (d + t + chunk + rest)[|d + t| + i] == chunk[i]
    ensures (d + t + chunk + rest)[..|d + t| + i] == d + (t + chunk)[..|t| + i]
  {
  }

  lemma NewlineIsDecided(buf: string, k: nat)
    requires k < |buf| && IsNewline(buf[k])
    ensures k < |Decided(buf)|
  {
    hide LongestPartial, IsPartial;
    Halves(buf);
    if Tail(buf) != "" {
      PartialShape(Tail(buf));
      assert forall j :: 0 <= j < |Tail(buf)| ==> buf[|Decided(buf)| + j] == Tail(buf)[j];
    }
  }

  /** While the paste comes in, every line is buffered and nothing is submitted. */
  lemma {:induction false} PasteAccumulates(f: Flow, before: string, m: Memory, window: bool,
                                            events: seq<Event>, ready: bool, body: string)
    requires f.carry == "" && !f.pasteOpen && !HasMarker(body)
    requires m.flow == Feed(f, before) && (ready ==> m.chunkIsPaste)
    requires LinesFollowNewlines(events, ready)
    requires before + StreamOf(events) == Pasted(body)
    ensures Run(m, window, events).messages == []
    ensures Run(m, window, events).memory.lines == m.lines + LinesOf(events)
    ensures Run(m, window, events).memory.flow == Feed(f, Pasted(body))
    decreases |events|
  {
    hide Feed, OpenSomewhere, Pasted, HasNewline, Strip, Emitted, HasMarker, Decided;
    if events == [] {
      assert before + "" == before;
      assert m.lines + [] == m.lines;
    } else {
      var after, rest := Next(m, window, events[0]).memory, events[1..];
      match events[0] {
        case Data(chunk) =>
          var later := StreamOf(rest);
          Regroup(before, chunk, later);
          FeedSplits(f, before, chunk);
          if HasNewline(chunk) {
            NewlineChunkIsPasted(f, before, chunk, later, body);
          }
          PasteAccumulates(f, before + chunk, after, window, rest, HasNewline(chunk), body);
          assert [] + LinesOf(rest) == LinesOf(rest);
        case Line(rawLine) =>
          assert "" + StreamOf(rest) == StreamOf(rest);
          PasteAccumulates(f, before, after, window, rest, ready, body);
          Regroup(m.lines, [Strip(rawLine)], LinesOf(rest));
      }
    }
  }

  lemma PasteIsDecided(body: string)
    ensures Tail(Pasted(body)) == "" && Decided(Pasted(body)) == Pasted(body)
    ensures HasMarker(Pasted(body))
  {
    hide LongestPartial, IsPartial;
    var s := Pasted(body);
    assert At(s, PASTE_END, |s| - 6) && MarkerAt(s, |s| - 6);
    if LongestPartial(s, 5) > 0 {
      PartialsAreAfterMarkers(s, |s|, LongestPartial(s, 5));
      assert false;
    }
  }

  /** A text that ends with an end marker leaves the paste closed. */
  lemma EndCloses(open: bool, s: string)
    ensures OpenAfter(open, s + PASTE_END) == false
  {
    hide OpenAfter, MarkerAt;
    assert MarkerAt(PASTE_END, 0) && !At(PASTE_END, PASTE_START, 0) by { EndIsMarker(); }
    MarkerShape(PASTE_END, 0);
    assert (s + PASTE_END)[|s|] == ESC;
    forall i: nat | i < |s| < i + 6 ensures !MarkerAt(s + PASTE_END, i) {
      if MarkerAt(s + PASTE_END, i) {
        MarkerShape(s + PASTE_END, i);
        assert false;
      }
    }
    CleanCut(open, s, PASTE_END);
    PassMarker(OpenAfter(open, s), PASTE_END, 0);
    assert PASTE_END[0..] == PASTE_END && PASTE_END[6..] == "";
    OpenAfterNothing(false);
  }

  lemma EndIsMarker()
    ensures MarkerAt(PASTE_END, 0) && !At(PASTE_END, PASTE_START, 0)
  {
    assert PASTE_END[0..6] == PASTE_END && PASTE_END[4] != PASTE_START[4];
  }

  /** A complete paste leaves nothing held back, the paste closed and the marker flag set. */
  lemma PasteCompletes(f: Flow, body: string)
    requires f.carry == "" && !f.pasteOpen
    ensures Feed(f, Pasted(body)) == Flow("", false, true)
  {
    hide OpenAfter, HasMarker, Tail, Decided;
    assert "" + Pasted(body) == Pasted(body);
    PasteIsDecided(body);
    EndCloses(false, PASTE_START + body);
  }

  predicate Plain(s: string) {
    forall i :: 0 <= i < |s| ==> s[i] != ESC
  }

  lemma PlainHasNoMarker(s: string)
    requires Plain(s)
    ensures !HasMarker(s) && forall i: nat :: !MarkerAt(s, i)
  {
    hide MarkerAt;
    forall i: nat ensures !MarkerAt(s, i) {
      if MarkerAt(s, i) {
        MarkerShape(s, i);
        assert false;
      }
    }
  }

  lemma PlainIsDecided(s: string)
    requires Plain(s)
    ensures Decided(s) == s && Tail(s) == ""
  {
    hide IsPartial;
    if LongestPartial(s, 5) > 0 {
      PartialShape(s[|s| - LongestPartial(s, 5)..]);
      assert false;
    }
  }

  lemma {:induction false} NothingToStrip(s: string)
    requires Plain(s)
    ensures Strip(s) == s
  {
    hide MarkerAt;
    if s != "" {
      PlainHasNoMarker(s);
      NothingToStrip(s[1..]);
    }
  }

  lemma PlainKeepsOpen(open: bool, s: string)
    requires Plain(s)
    ensures OpenAfter(open, s) == open
  {
    hide OpenAfter, MarkerAt;
    PlainHasNoMarker(s);
    OpenUnchanged(open, s, |s|);
    assert s[|s|..] == "";
    OpenAfterNothing(open);
  }

  /** Text without an escape character passes the recogniser as it is. */
  lemma PlainChunk(f: Flow, chunk: string)
    requires f.carry == "" && Plain(chunk)
    ensures Feed(f, chunk) == f && Emitted(f, chunk) == chunk
    ensures OpenSomewhere(f.pasteOpen, Decided(f.carry + chunk)) == f.pasteOpen
  {
    hide OpenAfter, Strip, Decided, Tail, HasMarker;
    assert "" + chunk == chunk;
    PlainIsDecided(chunk);
    PlainHasNoMarker(chunk);
    NothingToStrip(chunk);
    forall k: nat | k <= |chunk| ensures OpenAfter(f.pasteOpen, chunk[..k]) == f.pasteOpen {
      PlainKeepsOpen(f.pasteOpen, chunk[..k]);
    }
    assert chunk[..|chunk|] == chunk;
  }

  lemma RunSplits(m: Memory, window: bool, a: seq<Event>, b: seq<Event>)
    ensures var first := Run(m, window, a);
            var second := Run(first.memory, window, b);
            Run(m, window, a + b) == Session(second.memory, first.messages + second.messages)
    decreases |a|
  {
    hide Next;
    if a == [] {
      assert a + b == b;
    } else {
      assert (a + b)[1..] == a[1..] + b;
      RunSplits(Next(m, window, a[0]).memory, window, a[1..], b);
    }
  }

  /** An Enter that is not held back submits the buffered lines, with the rest of the typed line if there is one. */
  lemma EnterSubmits(m: Memory, window: bool, enter: string, last: string)
    requires m.flow.carry == "" && !m.flow.pasteOpen && IsBareEnter(enter)
    requires m.lines == [] || !window || m.flow.markerSeen
    ensures var line := Strip(last);
            var end := Run(m, window, [Data(enter), Line(last)]);
            && end.messages == [if line == "" && m.lines != [] then m.lines else m.lines + [line]]
            && end.memory.lines == []
  {
    hide Feed, Emitted, Strip, OpenSomewhere, Decided;
    PlainChunk(m.flow, enter);
    var ready := Next(m, window, Data(enter)).memory;
    var done := Next(ready, window, Line(last));
    assert [Data(enter), Line(last)][1..] == [Line(last)];
    assert Run(done.memory, window, [Line(last)][1..]) == Session(done.memory, []);
    assert Run(ready, window, [Line(last)]).messages == Sent(done.submission) + [];
  }

  /** However a bracketed paste is cut into chunks, it is submitted as one message, and only on Enter. */
  lemma BracketedPasteIsOneMessage(m: Memory, window: bool, events: seq<Event>, body: string,
                                   enter: string, last: string)
    requires m.lines == [] && m.flow.carry == "" && !m.flow.pasteOpen
    requires LinesFollowNewlines(events, false)
    requires StreamOf(events) == Pasted(body) && !HasMarker(body)
    requires IsBareEnter(enter)
    ensures Run(m, window, events).messages == []
    ensures var lines, line := LinesOf(events), Strip(last);
            Run(m, window, events + [Data(enter), Line(last)]).messages ==
            [if line == "" && lines != [] then lines else lines + [line]]
  {
    hide Run, Feed, Strip, Pasted, HasMarker, LinesOf, StreamOf, LinesFollowNewlines, IsBareEnter;
    FeedNothing(m.flow);
    assert "" + StreamOf(events) == StreamOf(events);
    PasteAccumulates(m.flow, "", m, window, events, false, body);
    PasteCompletes(m.flow, body);
    var pasted := Run(m, window, events).memory;
    assert pasted.lines == LinesOf(events) by { assert [] + LinesOf(events) == LinesOf(events); }
    EnterSubmits(pasted, window, enter, last);
    RunSplits(m, window, events, [Data(enter), Line(last)]);
  }

  /** The text submitted after a bracketed paste splits into exactly the lines fed. */
  lemma BracketedPasteText(m: Memory, window: bool, events: seq<Event>, body: string, enter: string, last: string)
    requires m.lines == [] && m.flow.carry == "" && !m.flow.pasteOpen
    requires LinesFollowNewlines(events, false)
    requires StreamOf(events) == Pasted(body) && !HasMarker(body)
    requires IsBareEnter(enter) && OneLine(Strip(last))
    requires forall i :: 0 <= i < |LinesOf(events)| ==> OneLine(LinesOf(events)[i])
    ensures var lines, line := LinesOf(events), Strip(last);
            var messages := Run(m, window, events + [Data(enter), Line(last)]).messages;
            && |messages| == 1 && TextOf(Submitted(messages[0])).Message?
            && LinesIn(TextOf(Submitted(messages[0])).text) ==
               if line == "" && lines != [] then lines else lines + [line]
  {
    hide *;
    BracketedPasteIsOneMessage(m, window, events, body, enter, last);
    var lines, line := LinesOf(events), Strip(last);
    MessageSplits(if line == "" && lines != [] then lines else lines + [line]);
  }

  lemma MessageSplits(lines: seq<string>)
    requires lines != [] && forall i :: 0 <= i < |lines| ==> OneLine(lines[i])
    ensures TextOf(Submitted(lines)).Message? && LinesIn(TextOf(Submitted(lines)).text) == lines
  {
    JoinSplits(lines);
  }

  // ---------------------------------------------------------------------------------------------
  // Without markers: the coalescing window
  // ---------------------------------------------------------------------------------------------

  /** Only chunks without an escape character, and lines. */
  predicate Typed(events: seq<Event>) {
    forall i :: 0 <= i < |events| ==> (events[i].Data? && Plain(events[i].chunk)) || events[i].Line?
  }

  /** A session that has lines buffered and has seen no marker. */
  predicate Collecting(m: Memory) {
    m.lines != [] && m.flow == Flow("", false, false) && !m.chunkIsPaste
  }

  lemma StaysCollecting(m: Memory, window: bool, e: Event)
    requires window && Collecting(m) && Typed([e])
    ensures Collecting(Next(m, window, e).memory) && Next(m, window, e).submission == Nothing
  {
    hide Strip, Feed, Emitted, OpenSomewhere, Plain;
    assert [e][0] == e;
    if e.Data? { PlainChunk(m.flow, e.chunk); }
  }

  /**
   * A terminal without paste markers: once lines are buffered, no Enter submits them while the window has not
   * passed, so a paste whose newlines arrive in chunks of their own stays together...
   */
  lemma {:induction false} WindowHoldsBack(m: Memory, window: bool, events: seq<Event>)
    requires window && Collecting(m) && Typed(events)
    ensures Run(m, window, events).messages == [] && Collecting(Run(m, window, events).memory)
    decreases |events|
  {
    hide Next, Collecting;
    if events != [] {
      assert Typed([events[0]]) && Typed(events[1..]);
      StaysCollecting(m, window, events[0]);
      WindowHoldsBack(Next(m, window, events[0]).memory, window, events[1..]);
    }
  }

  /** ...and an Enter after which the window passes submits all of it as one message. */
  lemma WindowSubmitsOnce(m: Memory, window: bool, events: seq<Event>, enter: string, last: string)
    requires window && Collecting(m) && Typed(events) && IsBareEnter(enter)
    ensures var buffered, line := Run(m, window, events).memory.lines, Strip(last);
            Run(m, window, events + [Data(enter), Line(last), Timer]).messages ==
            [if line == "" then buffered else buffered + [line]]
  {
    hide Strip, Run, Typed, Feed, Emitted, OpenSomewhere, Decided;
    WindowHoldsBack(m, window, events);
    var before := Run(m, window, events).memory;
    PlainChunk(before.flow, enter);
    var ready := Next(before, window, Data(enter)).memory;
    var held := Next(ready, window, Line(last)).memory;
    var done := Next(held, window, Timer);
    RunSplits(m, window, events, [Data(enter), Line(last), Timer]);
    RunThree(before, window, Data(enter), Line(last), Timer);
    assert Sent(done.submission) == [held.lines];
  }

  lemma RunThree(m: Memory, window: bool, a: Event, b: Event, c: Event)
    ensures var first := Next(m, window, a);
            var second := Next(first.memory, window, b);
            var third := Next(second.memory, window, c);
            Run(m, window, [a, b, c]) ==
            Session(third.memory, Sent(first.submission) + Sent(second.submission) + Sent(third.submission))
  {
    hide Next, Sent;
    var first := Next(m, window, a);
    var second := Next(first.memory, window, b);
    var third := Next(second.memory, window, c);
    assert [a, b, c][1..] == [b, c] && [b, c][1..] == [c] && [c][1..] == [];
    assert Run(third.memory, window, []) == Session(third.memory, []);
    assert Run(second.memory, window, [c]).messages == Sent(third.submission) + [];
    Regroup(Sent(first.submission), Sent(second.submission), Sent(third.submission));
  }

  /** After a clear, whatever was there before, an Enter submits the line typed and nothing else. */
  lemma ClearStartsAfresh(m: Memory, window: bool, enter: string, last: string)
    requires IsBareEnter(enter)
    ensures Run(m, window, [Clear, Data(enter), Line(last)]).messages == [[Strip(last)]]
  {
    hide Strip, Feed, Emitted, OpenSomewhere, Decided;
    EnterSubmits(AfterClear(m), window, enter, last);
    assert [Clear, Data(enter), Line(last)][1..] == [Data(enter), Line(last)];
    assert [] + [Strip(last)] == [Strip(last)];
  }

  /** A reset outside a paste keeps the buffered lines for the next Enter, and a line without one is no Enter. */
  lemma ResetKeepsLines(m: Memory, window: bool, line: string)
    ensures var end := Run(m, window, [Reset, Line(line)]);
            && end.messages == [] && end.memory.lines == m.lines + [Strip(line)]
            && !end.memory.timerArmed && !end.memory.chunkIsPaste && end.memory.flow == m.flow.(carry := "")
  {
    hide Strip;
    var after := Next(AfterReset(m), window, Line(line));
    assert [Reset, Line(line)][1..] == [Line(line)] && [Line(line)][1..] == [];
    assert Run(after.memory, window, []) == Session(after.memory, []);
    assert Run(AfterReset(m), window, [Line(line)]) == Session(after.memory, [] + []);
  }

  /** At the end of input what is buffered is submitted at once, and nothing is left to come due. */
  lemma DrainSubmitsRest(m: Memory, window: bool)
    ensures var end := Run(m, window, [Drain, Timer, Drain]);
            end.messages == (if m.lines == [] then [] else [m.lines]) && end.memory.lines == []
  {
    RunThree(m, window, Drain, Timer, Drain);
  }

  /** A reset between the two halves of an end marker loses it: the paste stays open, where it would have closed. */
  lemma ResetDropsHalfMarker(m: Memory, k: nat)
    requires 0 < k < 6 && m.flow.carry == PASTE_END[..k] && m.flow.pasteOpen
    ensures !Feed(m.flow, PASTE_END[k..]).pasteOpen
    ensures Feed(AfterReset(m).flow, PASTE_END[k..]).pasteOpen
  {
    EndIsMarker();
    MarkerCompletes(m, PASTE_END, k);
  }

  /** The second half of a marker decides the open state, or leaves it if the first half was dropped. */
  lemma MarkerCompletes(m: Memory, marker: string, k: nat)
    requires marker == PASTE_START || marker == PASTE_END
    requires 0 < k < 6 && m.flow.carry == marker[..k]
    ensures Feed(m.flow, marker[k..]).pasteOpen == (marker == PASTE_START)
    ensures Feed(AfterReset(m).flow, marker[k..]).pasteOpen == m.flow.pasteOpen
  {
    hide OpenAfter, Decided, Tail, HasMarker, MarkerAt;
    assert marker[..k] + marker[k..] == marker;
    OpenInDecided(m.flow.pasteOpen, marker);
    MarkerDecides(m.flow.pasteOpen, marker);
    HalfIsPlain(marker, k);
    PlainChunk(AfterReset(m).flow, marker[k..]);
  }

  lemma MarkerDecides(open: bool, marker: string)
    requires marker == PASTE_START || marker == PASTE_END
    ensures OpenAfter(open, marker) == (marker == PASTE_START)
  {
    hide OpenAfter;
    EndIsMarker();
    assert marker[0..6] == marker && At(marker, marker, 0);
    PassMarker(open, marker, 0);
    assert marker[0..] == marker && marker[6..] == "";
    OpenAfterNothing(marker == PASTE_START);
  }

  lemma HalfIsPlain(marker: string, k: nat)
    requires marker == PASTE_START || marker == PASTE_END
    requires 0 < k < 6
    ensures Plain(marker[k..])
  {
    assert forall j :: 0 < j < 6 ==> marker[j] != ESC;
  }

  /** The held-back tail is of no consequence: empty, or all but the end of the marker that changes nothing. */
  predicate Dispensable(f: Flow) {
    || f.carry == ""
    || (f.carry == PASTE_START[..5] && f.pasteOpen)
    || (f.carry == PASTE_END[..5] && !f.pasteOpen)
  }

  /** Dropping the tail never shows in the open state, whatever follows, exactly when it is of no consequence. */
  lemma ResetIsHarmlessExactly(m: Memory)
    requires Waiting(m.flow)
    ensures (forall x: string :: Feed(AfterReset(m).flow, x).pasteOpen == Feed(m.flow, x).pasteOpen) <==>
              Dispensable(m.flow)
  {
    hide Feed;
    if Dispensable(m.flow) {
      forall x: string ensures Feed(AfterReset(m).flow, x).pasteOpen == Feed(m.flow, x).pasteOpen {
        DispensableTail(m, x);
      }
    } else {
      var telling := if m.flow.pasteOpen then PASTE_END else PASTE_START;
      var k := |m.flow.carry|;
      OtherMarkerFits(m.flow, telling);
      MarkerCompletes(m, telling, k);
      assert Feed(AfterReset(m).flow, telling[k..]).pasteOpen != Feed(m.flow, telling[k..]).pasteOpen;
    }
  }

  /** A tail that matters could still become the marker that changes the open state. */
  lemma OtherMarkerFits(f: Flow, telling: string)
    requires Waiting(f) && !Dispensable(f)
    requires telling == if f.pasteOpen then PASTE_END else PASTE_START
    ensures 0 < |f.carry| < 6 && f.carry == telling[..|f.carry|]
  {
    var k := |f.carry|;
    assert PASTE_START[..k] == f.carry || PASTE_END[..k] == f.carry;
    assert k < 5 ==> PASTE_START[..k] == PASTE_END[..k];
  }

  /** All but the last character of the one marker, in front of text that may or may not complete it. */
  lemma DispensableTail(m: Memory, x: string)
    requires Dispensable(m.flow)
    ensures Feed(AfterReset(m).flow, x).pasteOpen == Feed(m.flow, x).pasteOpen
  {
    hide OpenAfter, Decided, MarkerAt;
    var c, open := m.flow.carry, m.flow.pasteOpen;
    assert "" + x == x;
    OpenInDecided(open, c + x);
    OpenInDecided(open, x);
    if c != "" {
      var marker := if open then PASTE_START else PASTE_END;
      EndIsMarker();
      assert c == marker[..5] && marker[5] == '~';
      if x != "" && x[0] == '~' {
        CompletedTail(open, marker, x);
      } else {
        BrokenTail(open, marker, x);
      }
    }
  }

  lemma CompletedTail(open: bool, marker: string, x: string)
    requires marker == if open then PASTE_START else PASTE_END
    requires x != "" && x[0] == '~'
    ensures OpenAfter(open, marker[..5] + x) == OpenAfter(open, x)
  {
    hide OpenAfter;
    var s := marker[..5] + x;
    EndIsMarker();
    assert s[0..6] == marker && At(s, marker, 0);
    assert s[4] == marker[4] && PASTE_START[4] != PASTE_END[4];
    PassMarker(open, s, 0);
    assert s[0..] == s && s[6..] == x[1..];
    assert !MarkerAt(x, 0) by {
      if MarkerAt(x, 0) { MarkerShape(x, 0); }
    }
    OpenUnchanged(open, x, 1);
  }

  lemma BrokenTail(open: bool, marker: string, x: string)
    requires marker == PASTE_START || marker == PASTE_END
    requires x == "" || x[0] != '~'
    ensures OpenAfter(open, marker[..5] + x) == OpenAfter(open, x)
  {
    hide OpenAfter, MarkerAt;
    var a := marker[..5];
    var s := a + x;
    forall i: nat | i < 5 ensures !MarkerAt(s, i) {
      if MarkerAt(s, i) {
        MarkerShape(s, i);
        EndsWithTilde(s, i);
        assert false;
      }
    }
    OpenUnchanged(open, s, 5);
    assert s[5..] == x;
  }

  lemma EndsWithTilde(s: string, i: nat)
    requires MarkerAt(s, i)
    ensures i + 6 <= |s| && s[i + 5] == '~'
  {
    assert s[i..i + 6][5] == s[i + 5];
  }
}
