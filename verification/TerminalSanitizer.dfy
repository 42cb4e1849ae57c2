/**
 * The sanitizer that strips terminal control sequences from untrusted text, one UTF-16 code unit
 * at a time (src/cli/terminalSanitizer.ts). The forms it recognises are those of ECMA-48:
 * control sequences (section 5.4) and control strings (section 5.6).
 */
module TerminalSanitizer {
  import opened Sequences

  type CodeUnit = c: int | 0 <= c <= 0xFFFF

  const MAX_SEQUENCE_CHARS: nat := 4096

  const BEL: CodeUnit := 0x07
  const TAB: CodeUnit := 0x09
  const LF: CodeUnit := 0x0a
  const CR: CodeUnit := 0x0d
  const ESC: CodeUnit := 0x1b
  const BACKSLASH: CodeUnit := 0x5c
  const ST: CodeUnit := 0x9c

  predicate IsTextDirectionOrInvisible(c: CodeUnit) {
    0x200b <= c <= 0x200f || 0x202a <= c <= 0x202e || 0x2066 <= c <= 0x2069 || c == 0xfeff
  }

  predicate IsCsiFinal(c: CodeUnit) { 0x40 <= c <= 0x7e }

  predicate IsC0Control(c: CodeUnit) { c <= 0x1f }

  predicate IsC1Control(c: CodeUnit) { 0x80 <= c <= 0x9f }

  /** The characters the sanitizer lets through. */
  predicate IsClean(c: CodeUnit) {
    || c == 0x0a
    || c == 0x09
    || 0x20 <= c <= 0x7e
    || (0xa0 <= c && !(0x200b <= c <= 0x200f || 0x202a <= c <= 0x202e || 0x2066 <= c <= 0x2069 || c == 0xfeff))
  }

  predicate Clean(text: seq<CodeUnit>) {
    forall i :: 0 <= i < |text| ==> IsClean(text[i])
  }

  // 8-bit introducers: CSI, OSC, and DCS, SOS, PM, APC.
  predicate IsStringIntroducer(c: CodeUnit) { c in {0x90, 0x98, 0x9e, 0x9f} }

  predicate IsIntroducer(c: CodeUnit) {
    c in {0x1b, 0x9b, 0x9d, 0x90, 0x98, 0x9e, 0x9f}
  }

  // The 7-bit forms of the last group: ESC followed by P, X, ^ or _.
  predicate IsStringLetter(c: CodeUnit) { c in {0x50, 0x58, 0x5e, 0x5f} }

  datatype State = Normal | Esc | Csi | Osc | OscEsc | StString | StEsc

  /** The fields of the sanitizer, as a value. */
  datatype Machine = Machine(state: State, sequenceChars: nat, pendingCr: bool) {
    function Enter(next: State): Machine {
      Machine(next,
              if next == Normal then 0 else sequenceChars,
              next == Normal && pendingCr)
    }
  }

  const START := Machine(Normal, 0, false)

  /** What every reachable machine satisfies. */
  predicate Consistent(m: Machine) {
    && (m.state == Normal ==> m.sequenceChars == 0)
    && m.sequenceChars <= MAX_SEQUENCE_CHARS
    && (m.pendingCr ==> m.state == Normal)
  }

  datatype Result = Result(machine: Machine, out: seq<CodeUnit>)

  /** A character seen outside any control sequence. */
  function NormalStep(m: Machine, c: CodeUnit): Result {
    if c == ESC then Result(m.Enter(Esc), [])
    else if c == 0x9b then Result(m.Enter(Csi), [])
    else if c == 0x9d then Result(m.Enter(Osc), [])
    else if IsStringIntroducer(c) then Result(m.Enter(StString), [])
    else if IsC1Control(c) then Result(m, [])
    else if c == LF then Result(m.(pendingCr := false), if m.pendingCr then [] else [LF])
    else if c == CR then Result(m.(pendingCr := true), [LF])
    else Result(m.(pendingCr := false), if IsClean(c) then [c] else [])
  }

  /** The state after a character inside a control sequence, which is never output. */
  function NextState(s: State, c: CodeUnit): State {
    match s
    case Normal => Normal
    case Esc =>
      if c == 0x5b then Csi
      else if c == 0x5d then Osc
      else if IsStringLetter(c) then StString
      else if c == ESC then Esc
      else Normal
    case Csi => if c == ESC then Esc else if IsCsiFinal(c) then Normal else Csi
    case Osc => if c == BEL || c == ST then Normal else if c == ESC then OscEsc else Osc
    case OscEsc => if c == BACKSLASH then Normal else if c == ESC then OscEsc else Osc
    case StString => if c == ST then Normal else if c == ESC then StEsc else StString
    case StEsc => if c == BACKSLASH then Normal else if c == ESC then StEsc else StString
  }

  function Step(m: Machine, c: CodeUnit): Result {
    if m.state == Normal then NormalStep(m, c)
    else if m.sequenceChars >= MAX_SEQUENCE_CHARS then NormalStep(m.Enter(Normal), c)
    else
      var counted := m.(sequenceChars := m.sequenceChars + 1);
      var next := NextState(m.state, c);
      Result(if next == m.state == Csi || next == m.state == Osc || next == m.state == StString
             then counted else counted.Enter(next), [])
  }

  function Run(m: Machine, input: seq<CodeUnit>): Result {
    if input == [] then Result(m, []) else
    var before := Run(m, input[..|input| - 1]);
    var last := Step(before.machine, input[|input| - 1]);
    Result(last.machine, before.out + last.out)
  }

  // ---------------------------------------------------------------------------------------------
  // The imperative sanitizer
  // ---------------------------------------------------------------------------------------------

  class TerminalSanitizer {
    var state: State
    var sequenceChars: nat
    var pendingCr: bool

    ghost function Snapshot(): Machine
      reads this
    {
      Machine(state, sequenceChars, pendingCr)
    }

    constructor ()
      ensures Snapshot() == START
    {
      state := Normal;
      sequenceChars := 0;
      pendingCr := false;
    }

    method Enter(next: State)
      modifies this
      ensures Snapshot() == old(Snapshot()).Enter(next)
    {
      state := next;
      if next == Normal { sequenceChars := 0; }
      if next != Normal { pendingCr := false; }
    }

    /** Cleans one chunk; the state carries a sequence that is cut by the end of the chunk into the next. */
    method Sanitize(input: seq<CodeUnit>) returns (out: seq<CodeUnit>)
      requires Consistent(Snapshot())
      modifies this
      ensures Consistent(Snapshot()) && Clean(out)
      ensures Result(Snapshot(), out) == Run(old(Snapshot()), input)
    {
      out := [];
      for i := 0 to |input|
        invariant Result(Snapshot(), out) == Run(old(Snapshot()), input[..i])
      {
        var emitted := Consume(input[i]);
        out := out + emitted;
        assert input[..i + 1][..i] == input[..i];
      }
      assert input[..|input|] == input;
      RunConsistent(old(Snapshot()), input);
      OutputIsClean(old(Snapshot()), input);
    }

    /** One turn of the loop: bail out of a runaway sequence, then switch on the state. */
    method Consume(c: CodeUnit) returns (out: seq<CodeUnit>)
      modifies this
      ensures Result(Snapshot(), out) == Step(old(Snapshot()), c)
    {
      out := [];
      if state != Normal {
        if sequenceChars >= MAX_SEQUENCE_CHARS { Enter(Normal); } else { sequenceChars := sequenceChars + 1; }
      }
      match state {
        case Normal =>
          if c == ESC { Enter(Esc); return; }
          if c == 0x9b { Enter(Csi); return; }
          if c == 0x9d { Enter(Osc); return; }
          if IsStringIntroducer(c) { Enter(StString); return; }
          if IsC1Control(c) { return; }
          if IsC0Control(c) {
            if c == LF {
              if pendingCr { pendingCr := false; } else { out := [c]; }
            } else if c == CR {
              out := [LF];
              pendingCr := true;
            } else {
              pendingCr := false;
              if c == TAB { out := [c]; }
            }
            return;
          }
          pendingCr := false;
          if c == 0x7f { return; }
          if IsTextDirectionOrInvisible(c) { return; }
          out := [c];
        case Esc =>
          if c == 0x5b { Enter(Csi); }
          else if c == 0x5d { Enter(Osc); }
          else if IsStringLetter(c) { Enter(StString); }
          else if c == ESC { Enter(Esc); }
          else { Enter(Normal); }
        case Csi =>
          if c == ESC { Enter(Esc); }
          else if IsCsiFinal(c) { Enter(Normal); }
        case Osc =>
          if c == BEL || c == ST { Enter(Normal); }
          else if c == ESC { Enter(OscEsc); }
        case OscEsc =>
          if c == BACKSLASH { Enter(Normal); }
          else if c == ESC { Enter(OscEsc); }
          else { Enter(Osc); }
        case StString =>
          if c == ST { Enter(Normal); }
          else if c == ESC { Enter(StEsc); }
        case StEsc =>
          if c == BACKSLASH { Enter(Normal); }
          else if c == ESC { Enter(StEsc); }
          else { Enter(StString); }
      }
    }

    method Reset()
      requires Consistent(Snapshot())
      modifies this
      ensures Snapshot() == START
    {
      Enter(Normal);
      pendingCr := false;
    }
  }

  // ---------------------------------------------------------------------------------------------
  // Chunking and cleanness
  // ---------------------------------------------------------------------------------------------

  /** Feeding two chunks one after the other is feeding them joined. */
  lemma {:induction false} RunSplits(m: Machine, a: seq<CodeUnit>, b: seq<CodeUnit>)
    ensures Run(m, a + b).machine == Run(Run(m, a).machine, b).machine
    ensures Run(m, a + b).out == Run(m, a).out + Run(Run(m, a).machine, b).out
    decreases |b|
  {
    hide Step;
    if b == [] {
      assert a + b == a;
    } else {
      assert (a + b)[..|a + b| - 1] == a + b[..|b| - 1];
      RunSplits(m, a, b[..|b| - 1]);
    }
  }

  lemma NothingRun(m: Machine)
    ensures Run(m, []) == Result(m, [])
  {
  }

  /** Feeding the chunks one by one to the same sanitizer. */
  function RunChunks(m: Machine, chunks: seq<seq<CodeUnit>>): Result
    decreases |chunks|
  {
    if chunks == [] then Result(m, []) else
    var first := Run(m, chunks[0]);
    var rest := RunChunks(first.machine, chunks[1..]);
    Result(rest.machine, first.out + rest.out)
  }

  /** However the text is cut into chunks, the output and the final state are those of the uncut text. */
  lemma {:induction false} ChunkingIsInvisible(m: Machine, chunks: seq<seq<CodeUnit>>)
    ensures RunChunks(m, chunks) == Run(m, Flatten(chunks))
    decreases |chunks|
  {
    hide Run;
    if chunks == [] {
      NothingRun(m);
    } else {
      ChunkingIsInvisible(Run(m, chunks[0]).machine, chunks[1..]);
      FlattenFront(chunks);
      RunSplits(m, chunks[0], Flatten(chunks[1..]));
    }
  }

  lemma {:induction false} RunConsistent(m: Machine, input: seq<CodeUnit>)
    requires Consistent(m)
    ensures Consistent(Run(m, input).machine)
  {
    if input != [] {
      RunConsistent(m, input[..|input| - 1]);
    }
  }

  lemma {:induction false} OutputIsClean(m: Machine, input: seq<CodeUnit>)
    ensures Clean(Run(m, input).out)
  {
    if input != [] {
      OutputIsClean(m, input[..|input| - 1]);
    }
  }

  lemma CleanStep(m: Machine, c: CodeUnit)
    requires m.state == Normal && IsClean(c)
    ensures Step(m, c) == Result(m.(pendingCr := false), if m.pendingCr && c == LF then [] else [c])
  {
  }

  /** Where clean text starts to pass: after a line feed that completes a pending carriage return. */
  function FirstPassing(m: Machine, text: seq<CodeUnit>): (k: nat)
    ensures k <= |text|
  {
    if m.pendingCr && text != [] && text[0] == LF then 1 else 0
  }

  /** Clean text passes unchanged, except that a line feed right after a carriage return is dropped. */
  lemma {:induction false} CleanTextPasses(m: Machine, text: seq<CodeUnit>)
    requires m.state == Normal && Clean(text)
    ensures Run(m, text).machine == m.(pendingCr := m.pendingCr && text == [])
    ensures Run(m, text).out == text[FirstPassing(m, text)..]
  {
    hide Step, IsClean;
    if text != [] {
      var n := |text| - 1;
      CleanTextPasses(m, text[..n]);
      CleanStep(Run(m, text[..n]).machine, text[n]);
      SplitLast(text, FirstPassing(m, text));
    }
  }

  /** Cutting a prefix and cutting the last element do not interfere. */
  lemma SplitLast(text: seq<CodeUnit>, k: nat)
    requires 0 < |text| && k <= |text|
    ensures k < |text| ==> text[k..] == text[..|text| - 1][k..] + [text[|text| - 1]]
  {
  }

  /** The texts a new sanitizer leaves alone are exactly the clean ones, so cleaning twice is cleaning once. */
  lemma FixedPointsAreClean(text: seq<CodeUnit>)
    ensures Run(START, text).out == text <==> Clean(text)
    ensures Run(START, Run(START, text).out).out == Run(START, text).out
  {
    hide Run, Clean;
    OutputIsClean(START, text);
    if Clean(text) {
      CleanTextPasses(START, text);
    }
    CleanTextPasses(START, Run(START, text).out);
  }

  // ---------------------------------------------------------------------------------------------
  // Bounded loss
  // ---------------------------------------------------------------------------------------------

  lemma RunOne(m: Machine, a: CodeUnit)
    ensures Run(m, [a]) == Step(m, a)
  {
    hide Step;
    assert [a][..0] == [];
  }

  lemma RunTwo(m: Machine, a: CodeUnit, b: CodeUnit)
    ensures Run(m, [a, b]).machine == Step(Step(m, a).machine, b).machine
    ensures Run(m, [a, b]).out == Step(m, a).out + Step(Step(m, a).machine, b).out
  {
    hide Step;
    RunOne(m, a);
    assert [a, b][..1] == [a];
  }

  /** Feeding the first character and then the others. */
  lemma RunFromFront(m: Machine, text: seq<CodeUnit>)
    requires text != []
    ensures Run(m, text).machine == Run(Step(m, text[0]).machine, text[1..]).machine
    ensures Run(m, text).out == Step(m, text[0]).out + Run(Step(m, text[0]).machine, text[1..]).out
  {
    hide Step;
    assert text == [text[0]] + text[1..];
    RunSplits(m, [text[0]], text[1..]);
    RunOne(m, text[0]);
  }

  /** The most characters of a clean text the machine can still swallow. */
  function Appetite(m: Machine, text: seq<CodeUnit>): nat
    requires Consistent(m)
  {
    if m.state == Normal then FirstPassing(m, text) else MAX_SEQUENCE_CHARS - m.sequenceChars
  }

  /** How many characters of the text are swallowed before the machine is back to normal. */
  function Lost(m: Machine, text: seq<CodeUnit>): (lost: nat)
    requires Consistent(m)
    ensures lost <= |text|
    decreases |text|
  {
    if m.state == Normal then FirstPassing(m, text)
    else if text == [] || m.sequenceChars == MAX_SEQUENCE_CHARS then 0
    else 1 + Lost(Step(m, text[0]).machine, text[1..])
  }

  /** From any reachable machine, clean text loses a bounded prefix and nothing else. */
  lemma {:induction false} LossIsBounded(m: Machine, text: seq<CodeUnit>)
    requires Consistent(m) && Clean(text)
    ensures Lost(m, text) <= Appetite(m, text)
    ensures Run(m, text).out == text[Lost(m, text)..]
    ensures m.state == Osc || m.state == StString ==> Lost(m, text) == Least(|text|, Appetite(m, text))
    decreases |text|
  {
    hide Run;
    if m.state == Normal {
      CleanTextPasses(m, text);
    } else if text == [] {
      assert Run(m, []).out == [] by { NothingRun(m); }
    } else if m.sequenceChars == MAX_SEQUENCE_CHARS {
      RunFromFront(m, text);
      RunFromFront(m.Enter(Normal), text);
      CleanTextPasses(m.Enter(Normal), text);
    } else {
      RunFromFront(m, text);
      LossIsBounded(Step(m, text[0]).machine, text[1..]);
    }
  }

  function Least(a: nat, b: nat): nat { if a <= b then a else b }

  /** Whatever came before, at most MAX_SEQUENCE_CHARS characters of the clean text after it are lost. */
  lemma OutputResumes(input: seq<CodeUnit>, text: seq<CodeUnit>)
    requires Clean(text)
    ensures exists lost: nat :: lost <= Least(|text|, MAX_SEQUENCE_CHARS) &&
                                Run(START, input + text).out == Run(START, input).out + text[lost..]
  {
    hide Run, Step, Clean, Lost;
    var m := Run(START, input).machine;
    RunConsistent(START, input);
    RunSplits(START, input, text);
    LossIsBounded(m, text);
    var lost := Lost(m, text);
    assert lost <= MAX_SEQUENCE_CHARS;
    assert Run(START, input + text).out == Run(START, input).out + text[lost..];
  }

  /** The bound is reached: after an unterminated 8-bit OSC introducer it is exactly what is lost. */
  lemma BoundIsReached(text: seq<CodeUnit>)
    requires Clean(text)
    ensures Run(START, [0x9d] + text).out == text[Least(|text|, MAX_SEQUENCE_CHARS)..]
  {
    hide Run;
    RunSplits(START, [0x9d], text);
    RunOne(START, 0x9d);
    LossIsBounded(Machine(Osc, 0, false), text);
  }

  // ---------------------------------------------------------------------------------------------
  // Round trip over ECMA-48 sequences
  // ---------------------------------------------------------------------------------------------

  /** A complete control sequence, control string or two-character escape sequence. */
  datatype Control =
    | EscapeSequence(final: CodeUnit)
    | ControlSequence(eightBit: bool, parameters: seq<CodeUnit>, final: CodeUnit)
    | OscString(eightBit: bool, body: seq<CodeUnit>, terminator: Terminator)
    | ControlString(introducer: StringIntroducer, body: seq<CodeUnit>, terminator: Terminator)

  datatype Terminator = Bell | Terminator7 | Terminator8

  // A control string opened by an 8-bit character, or by ESC and a letter.
  datatype StringIntroducer = Single(c: CodeUnit) | Letter(c: CodeUnit)

  function TerminatorChars(t: Terminator): seq<CodeUnit> {
    match t
    case Bell => [BEL]
    case Terminator7 => [ESC, BACKSLASH]
    case Terminator8 => [ST]
  }

  function Opening(c: Control): (chars: seq<CodeUnit>)
    ensures 1 <= |chars| <= 2
  {
    match c
    case EscapeSequence(_) => [ESC]
    case ControlSequence(eightBit, _, _) => if eightBit then [0x9b] else [ESC, 0x5b]
    case OscString(eightBit, _, _) => if eightBit then [0x9d] else [ESC, 0x5d]
    case ControlString(Single(b), _, _) => [b]
    case ControlString(Letter(b), _, _) => [ESC, b]
  }

  function Middle(c: Control): seq<CodeUnit> {
    match c
    case EscapeSequence(_) => []
    case ControlSequence(_, parameters, _) => parameters
    case OscString(_, body, _) => body
    case ControlString(_, body, _) => body
  }

  function Closing(c: Control): (chars: seq<CodeUnit>)
    ensures 1 <= |chars| <= 2
  {
    match c
    case EscapeSequence(final) => [final]
    case ControlSequence(_, _, final) => [final]
    case OscString(_, _, t) => TerminatorChars(t)
    case ControlString(_, _, t) => TerminatorChars(t)
  }

  /** The state a control's opening leads to, in which its middle is read. */
  function InnerState(c: Control): State {
    match c
    case EscapeSequence(_) => Esc
    case ControlSequence(_, _, _) => Csi
    case OscString(_, _, _) => Osc
    case ControlString(_, _, _) => StString
  }

  /** The text ends with an escape character. */
  predicate EndsInEsc(text: seq<CodeUnit>) {
    text != [] && text[|text| - 1] == ESC
  }

  /** What a control may hold between its opening and its closing: in a string ESC too, unless \ follows it. */
  predicate IsMiddle(c: Control, text: seq<CodeUnit>, i: nat)
    requires i < |text|
  {
    match c
    case EscapeSequence(_) => false
    case ControlSequence(_, _, _) => text[i] != ESC && !(0x40 <= text[i] <= 0x7e)
    case OscString(_, _, _) =>
      if EndsInEsc(text[..i]) then text[i] != BACKSLASH else text[i] != ST && text[i] != BEL
    case ControlString(_, _, _) =>
      if EndsInEsc(text[..i]) then text[i] != BACKSLASH else text[i] != ST
  }

  /** The state after part of the middle. */
  function StateIn(c: Control, text: seq<CodeUnit>): State {
    if !EndsInEsc(text) then InnerState(c) else if InnerState(c) == Osc then OscEsc else StEsc
  }

  /** Well formed, and short enough that the overflow counter does not cut it. */
  predicate WellFormed(c: Control) {
    && (forall i :: 0 <= i < |Middle(c)| ==> IsMiddle(c, Middle(c), i))
    && (EndsInEsc(Middle(c)) ==> Closing(c) == [ESC, BACKSLASH])
    && |Opening(c)| + |Middle(c)| + |Closing(c)| <= MAX_SEQUENCE_CHARS + 1
    && match c
       case EscapeSequence(final) => final !in {0x1b, 0x5b, 0x5d, 0x50, 0x58, 0x5e, 0x5f}
       case ControlSequence(_, _, final) => 0x40 <= final <= 0x7e
       case OscString(_, _, _) => true
       case ControlString(Single(b), _, t) => b in {0x90, 0x98, 0x9e, 0x9f} && t != Bell
       case ControlString(Letter(b), _, t) => b in {0x50, 0x58, 0x5e, 0x5f} && t != Bell
  }

  /** The middle of a control only moves the counter. */
  lemma {:induction false} MiddleIsSwallowed(c: Control, n: nat, text: seq<CodeUnit>)
    requires forall i :: 0 <= i < |text| ==> IsMiddle(c, text, i)
    requires n + |text| <= MAX_SEQUENCE_CHARS
    ensures Run(Machine(InnerState(c), n, false), text) == Result(Machine(StateIn(c, text), n + |text|, false), [])
  {
    if text != [] {
      var k := |text| - 1;
      forall i | 0 <= i < k ensures IsMiddle(c, text[..k], i) {
        assert text[..k][..i] == text[..i] && IsMiddle(c, text, i);
      }
      MiddleIsSwallowed(c, n, text[..k]);
      MiddleStep(c, text, n + k);
      hide Step, StateIn, IsMiddle;
    }
  }

  lemma MiddleStep(c: Control, text: seq<CodeUnit>, n: nat)
    requires text != [] && IsMiddle(c, text, |text| - 1) && n < MAX_SEQUENCE_CHARS
    requires forall i :: 0 <= i < |text| ==> IsMiddle(c, text, i)
    ensures var k := |text| - 1;
            Step(Machine(StateIn(c, text[..k]), n, false), text[k]) ==
              Result(Machine(StateIn(c, text), n + 1, false), [])
  {
    if |text| > 1 { assert IsMiddle(c, text, |text| - 2); }
  }

  /** Three pieces swallowed one after the other. */
  lemma SwallowThree(m: Machine, a: seq<CodeUnit>, b: seq<CodeUnit>, c: seq<CodeUnit>, m1: Machine, m2: Machine,
                     m3: Machine)
    requires Run(m, a) == Result(m1, []) && Run(m1, b) == Result(m2, []) && Run(m2, c) == Result(m3, [])
    ensures Run(m, a + b + c) == Result(m3, [])
  {
    hide Run;
    RunSplits(m, a + b, c);
    RunSplits(m, a, b);
  }

  lemma OpeningEnters(m: Machine, c: Control)
    requires m.state == Normal && m.sequenceChars == 0 && WellFormed(c)
    ensures Run(m, Opening(c)) == Result(Machine(InnerState(c), |Opening(c)| - 1, false), [])
  {
    hide Run;
    var chars := Opening(c);
    if |chars| == 1 { RunOne(m, chars[0]); } else { RunTwo(m, chars[0], chars[1]); }
  }

  lemma ClosingLeaves(c: Control, n: nat)
    requires WellFormed(c) && n + |Closing(c)| <= MAX_SEQUENCE_CHARS
    ensures Run(Machine(StateIn(c, Middle(c)), n, false), Closing(c)) == Result(START, [])
  {
    hide Run, IsMiddle;
    var m, chars := Machine(StateIn(c, Middle(c)), n, false), Closing(c);
    if |chars| == 1 { RunOne(m, chars[0]); } else { RunTwo(m, chars[0], chars[1]); }
  }

  function ControlChars(c: Control): seq<CodeUnit> {
    Opening(c) + Middle(c) + Closing(c)
  }

  /** A whole well-formed control leaves no trace, and separates a carriage return from a line feed. */
  lemma ControlIsSwallowed(m: Machine, c: Control)
    requires m.state == Normal && m.sequenceChars == 0 && WellFormed(c)
    ensures Run(m, ControlChars(c)) == Result(START, [])
  {
    hide Run, Step, Opening, Closing, Middle, IsMiddle, StateIn;
    var n := |Opening(c)| - 1;
    OpeningEnters(m, c);
    MiddleIsSwallowed(c, n, Middle(c));
    ClosingLeaves(c, n + |Middle(c)|);
    SwallowThree(m, Opening(c), Middle(c), Closing(c), Machine(InnerState(c), n, false),
                 Machine(StateIn(c, Middle(c)), n + |Middle(c)|, false), START);
  }

  /** The start of a control sequence, or of any escape sequence, that another escape character cuts off. */
  predicate IsAbandoned(begun: seq<CodeUnit>, parameters: seq<CodeUnit>) {
    || (begun == [ESC] && parameters == [])
    || ((begun == [ESC, 0x5b] || begun == [0x9b]) &&
        forall i :: 0 <= i < |parameters| ==> parameters[i] != ESC && !(0x40 <= parameters[i] <= 0x7e))
  }

  lemma AbandonedEnters(m: Machine, begun: seq<CodeUnit>, parameters: seq<CodeUnit>)
    requires m.state == Normal && m.sequenceChars == 0 && IsAbandoned(begun, parameters)
    requires |begun| + |parameters| <= MAX_SEQUENCE_CHARS
    ensures Run(m, begun + parameters + [ESC]) == Result(Machine(Esc, |begun + parameters|, false), [])
  {
    hide Run;
    var n := |begun| - 1;
    if begun == [ESC] {
      RunOne(m, ESC);
      assert begun + parameters == [ESC];
      RunSplits(m, [ESC], [ESC]);
      RunOne(Machine(Esc, 0, false), ESC);
    } else {
      if n == 0 { RunOne(m, 0x9b); } else { RunTwo(m, ESC, 0x5b); }
      var c := ControlSequence(n == 0, parameters, 0x40);
      MiddleIsSwallowed(c, n, parameters);
      assert !EndsInEsc(parameters);
      RunSplits(m, begun, parameters);
      RunSplits(m, begun + parameters, [ESC]);
      RunOne(Machine(Csi, n + |parameters|, false), ESC);
    }
  }

  /** A control that starts with ESC leaves no trace of itself nor of an unfinished sequence before it. */
  lemma AbandonedIsSwallowed(m: Machine, begun: seq<CodeUnit>, parameters: seq<CodeUnit>, c: Control)
    requires m.state == Normal && m.sequenceChars == 0 && IsAbandoned(begun, parameters)
    requires WellFormed(c) && Opening(c)[0] == ESC
    requires |begun| + |parameters| + |ControlChars(c)| <= MAX_SEQUENCE_CHARS + 1
    ensures Run(m, begun + parameters + ControlChars(c)) == Result(START, [])
  {
    hide Run, Step, WellFormed, IsAbandoned, Opening, Middle, Closing;
    var n := |begun + parameters|;
    var rest := Opening(c)[1..] + Middle(c) + Closing(c);
    Reopened(begun + parameters, Opening(c), Middle(c), Closing(c));
    AbandonedEnters(m, begun, parameters);
    RunSplits(m, begun + parameters + [ESC], rest);
    RestIsSwallowed(c, n);
  }

  lemma Reopened(before: seq<CodeUnit>, opening: seq<CodeUnit>, middle: seq<CodeUnit>, closing: seq<CodeUnit>)
    requires opening != []
    ensures before + (opening + middle + closing) == before + [opening[0]] + (opening[1..] + middle + closing)
  {}

  lemma RestIsSwallowed(c: Control, n: nat)
    requires WellFormed(c) && Opening(c)[0] == ESC && n + |ControlChars(c)| <= MAX_SEQUENCE_CHARS + 1
    ensures Run(Machine(Esc, n, false), Opening(c)[1..] + Middle(c) + Closing(c)) == Result(START, [])
  {
    hide Run, Step, Opening, Closing, Middle, IsMiddle, StateIn;
    var k := n + |Opening(c)| - 1;
    OpeningFromEsc(c, n);
    MiddleIsSwallowed(c, k, Middle(c));
    ClosingLeaves(c, k + |Middle(c)|);
    SwallowThree(Machine(Esc, n, false), Opening(c)[1..], Middle(c), Closing(c), Machine(InnerState(c), k, false),
                 Machine(StateIn(c, Middle(c)), k + |Middle(c)|, false), START);
  }

  lemma OpeningFromEsc(c: Control, n: nat)
    requires WellFormed(c) && Opening(c)[0] == ESC && n + |Opening(c)| <= MAX_SEQUENCE_CHARS
    ensures Run(Machine(Esc, n, false), Opening(c)[1..]) ==
              Result(Machine(InnerState(c), n + |Opening(c)| - 1, false), [])
  {
    hide Run, IsMiddle;
    var chars := Opening(c);
    if |chars| == 1 {
      assert chars[1..] == [];
      NothingRun(Machine(Esc, n, false));
    } else {
      assert chars[1..] == [chars[1]];
      RunOne(Machine(Esc, n, false), chars[1]);
    }
  }

  predicate NoIntroducer(text: seq<CodeUnit>) {
    forall i :: 0 <= i < |text| ==> !IsIntroducer(text[i])
  }

  /** The text without its C1 controls. */
  function WithoutC1(text: seq<CodeUnit>): seq<CodeUnit> {
    if text == [] then []
    else WithoutC1(text[..|text| - 1]) + if IsC1Control(text[|text| - 1]) then [] else [text[|text| - 1]]
  }

  /** Every CRLF and every lone CR becomes one LF. */
  function NormalisedBreaks(text: seq<CodeUnit>): seq<CodeUnit> {
    if text == [] then [] else
    var n := |text| - 1;
    var before := NormalisedBreaks(text[..n]);
    if text[n] == CR then before + [LF]
    else if text[n] == LF && n > 0 && text[n - 1] == CR then before
    else before + [text[n]]
  }

  /** The clean characters of a text, in order. */
  function CleanPart(text: seq<CodeUnit>): seq<CodeUnit> {
    if text == [] then []
    else CleanPart(text[..|text| - 1]) + if IsClean(text[|text| - 1]) then [text[|text| - 1]] else []
  }

  predicate EndsInCr(text: seq<CodeUnit>) {
    text != [] && text[|text| - 1] == CR
  }

  /** What is left of a text outside control sequences: line breaks normalised, other controls dropped. */
  function Tidy(text: seq<CodeUnit>): seq<CodeUnit> {
    CleanPart(NormalisedBreaks(WithoutC1(text)))
  }

  lemma CleanPartAppend(text: seq<CodeUnit>, c: CodeUnit)
    ensures CleanPart(text + [c]) == CleanPart(text) + if IsClean(c) then [c] else []
  {
    assert (text + [c])[..|text|] == text;
  }

  lemma NormalisedAppend(text: seq<CodeUnit>, c: CodeUnit)
    ensures NormalisedBreaks(text + [c]) ==
              if c == CR then NormalisedBreaks(text) + [LF]
              else if c == LF && EndsInCr(text) then NormalisedBreaks(text)
              else NormalisedBreaks(text) + [c]
  {
    assert (text + [c])[..|text|] == text;
  }

  /** One character outside control sequences, after text that without its C1 controls is w. */
  lemma TidyStep(w: seq<CodeUnit>, c: CodeUnit)
    requires !IsIntroducer(c)
    ensures var step := Step(Machine(Normal, 0, EndsInCr(w)), c);
            var grown := if IsC1Control(c) then w else w + [c];
            && step.machine == Machine(Normal, 0, EndsInCr(grown))
            && CleanPart(NormalisedBreaks(grown)) == CleanPart(NormalisedBreaks(w)) + step.out
  {
    hide CleanPart, NormalisedBreaks;
    if !IsC1Control(c) {
      NormalisedAppend(w, c);
      CleanPartAppend(NormalisedBreaks(w), if c == CR then LF else c);
    }
  }

  /** Text outside control sequences comes out tidied. */
  lemma {:induction false} TextIsTidied(text: seq<CodeUnit>)
    requires NoIntroducer(text)
    ensures Run(START, text) == Result(Machine(Normal, 0, EndsInCr(WithoutC1(text))), Tidy(text))
  {
    if text == [] {
      NothingTidied();
    } else {
      var before, c := text[..|text| - 1], text[|text| - 1];
      TextIsTidied(before);
      TidyStep(WithoutC1(before), c);
      assert WithoutC1(text) == if IsC1Control(c) then WithoutC1(before) else WithoutC1(before) + [c];
      hide Step, CleanPart, NormalisedBreaks, EndsInCr, IsIntroducer, IsC1Control;
    }
  }

  lemma NothingTidied()
    ensures Tidy([]) == []
  {
  }

  /** A stretch of text that follows a control. */
  datatype Segment = Segment(control: Control, text: seq<CodeUnit>)

  predicate ValidSegment(s: Segment) {
    WellFormed(s.control) && NoIntroducer(s.text)
  }

  function Render(segments: seq<Segment>): seq<CodeUnit> {
    if segments == [] then []
    else ControlChars(segments[0].control) + segments[0].text + Render(segments[1..])
  }

  function TidiedTexts(segments: seq<Segment>): seq<CodeUnit> {
    if segments == [] then [] else Tidy(segments[0].text) + TidiedTexts(segments[1..])
  }

  lemma {:induction false} SegmentsAreTidied(m: Machine, segments: seq<Segment>)
    requires m.state == Normal && m.sequenceChars == 0
    requires forall i :: 0 <= i < |segments| ==> ValidSegment(segments[i])
    ensures Run(m, Render(segments)).out == TidiedTexts(segments)
    ensures Run(m, Render(segments)).machine.state == Normal
    decreases |segments|
  {
    hide Run, Tidy, ControlChars, WellFormed, NoIntroducer, Step, WithoutC1, EndsInCr;
    if segments == [] {
      NothingRun(m);
    } else {
      var control, text, rest := ControlChars(segments[0].control), segments[0].text, Render(segments[1..]);
      ControlIsSwallowed(m, segments[0].control);
      RunSplits(m, control + text, rest);
      RunSplits(m, control, text);
      TextIsTidied(text);
      SegmentsAreTidied(Run(START, text).machine, segments[1..]);
    }
  }

  /** Text interleaved with complete ECMA-48 controls comes out as the text alone, tidied piece by piece. */
  lemma ControlsVanish(text: seq<CodeUnit>, segments: seq<Segment>)
    requires NoIntroducer(text) && forall i :: 0 <= i < |segments| ==> ValidSegment(segments[i])
    ensures Run(START, text + Render(segments)).out == Tidy(text) + TidiedTexts(segments)
    ensures Run(START, text + Render(segments)).machine.state == Normal
  {
    hide Run, Tidy, NoIntroducer, ValidSegment;
    RunSplits(START, text, Render(segments));
    TextIsTidied(text);
    SegmentsAreTidied(Run(START, text).machine, segments);
  }

  /** Clean text is tidy already. */
  lemma CleanIsTidy(text: seq<CodeUnit>)
    requires Clean(text)
    ensures NoIntroducer(text) && Tidy(text) == text
  {
    hide Run, Tidy;
    CleanTextPasses(START, text);
    TextIsTidied(text);
  }

  predicate Intermediates(mid: seq<CodeUnit>) {
    forall i :: 0 <= i < |mid| ==> 0x20 <= mid[i] <= 0x2f
  }

  /**
   * An escape sequence with any number of intermediate characters, such as ESC ( B: the sanitizer ends it
   * after its second character, so it vanishes exactly when it has no intermediate character.
   */
  lemma EscapeVanishesExactly(m: Machine, mid: seq<CodeUnit>, final: CodeUnit)
    requires m.state == Normal && m.sequenceChars == 0
    requires Intermediates(mid) && 0x30 <= final <= 0x7e
    ensures Run(m, [ESC] + mid + [final]).out == if mid == [] then [] else mid[1..] + [final]
    ensures Run(m, [ESC] + mid + [final]).out == [] <==> mid == []
  {
    hide Run;
    if mid == [] {
      RunTwo(m, ESC, final);
      assert [ESC] + mid + [final] == [ESC, final];
    } else {
      var rest := mid[1..] + [final];
      assert [ESC] + mid + [final] == [ESC, mid[0]] + rest;
      RunTwo(m, ESC, mid[0]);
      RunSplits(m, [ESC, mid[0]], rest);
      CleanTextPasses(START, rest);
    }
  }
}
