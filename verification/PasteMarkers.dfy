/**
 * Recognising the two bracketed-paste markers in a character stream that arrives in arbitrary
 * pieces (src/cli/pasteAccumulator.ts). A marker has its escape character in front and nowhere
 * else, so markers never overlap and a piece of one can only be the end of what was read so far.
 */
module PasteMarkers {
  import opened Sequences

  const ESC: char := '\U{1B}'
  const PASTE_START: string := "\U{1B}[200~"
  const PASTE_END: string := "\U{1B}[201~"

  /** The string m occurs in s at index i. */
  predicate At(s: string, m: string, i: nat) {
    i + |m| <= |s| && s[i..i + |m|] == m
  }

  predicate MarkerAt(s: string, i: nat) {
    At(s, PASTE_START, i) || At(s, PASTE_END, i)
  }

  predicate HasMarker(s: string) {
    exists i: nat :: i < |s| && MarkerAt(s, i)
  }

  /** A non-empty proper prefix of a marker. */
  predicate IsPartial(t: string) {
    0 < |t| < 6 && (t <= PASTE_START || t <= PASTE_END)
  }

  /** The last k characters of s are a partial marker. */
  predicate PartialEnd(s: string, k: nat) {
    k <= |s| && IsPartial(s[|s| - k..])
  }

  /** The length of the longest suffix of s, of at most k characters, that is a partial marker. */
  function LongestPartial(s: string, k: nat): (n: nat)
    ensures n <= k && n <= |s|
    ensures n > 0 ==> PartialEnd(s, n)
    ensures forall j: nat :: n < j <= k ==> !PartialEnd(s, j)
  {
    if k == 0 then 0
    else if PartialEnd(s, k) then k
    else LongestPartial(s, k - 1)
  }

  /** The part of s that has to wait for more input, and the part before it. */
  function Tail(s: string): string { s[|s| - LongestPartial(s, 5)..] }

  function Decided(s: string): string { s[..|s| - LongestPartial(s, 5)] }

  /** s without its markers, scanning from the left. */
  function Strip(s: string): string {
    if s == "" then ""
    else if MarkerAt(s, 0) then Strip(s[6..])
    else [s[0]] + Strip(s[1..])
  }

  /** Whether a paste is open after s, given whether one was open before. */
  function OpenAfter(open: bool, s: string): bool
    decreases |s|
  {
    if s == "" then open
    else if At(s, PASTE_START, 0) then OpenAfter(true, s[6..])
    else if At(s, PASTE_END, 0) then OpenAfter(false, s[6..])
    else OpenAfter(open, s[1..])
  }

  /** What the recogniser remembers between two chunks. */
  datatype Flow = Flow(carry: string, pasteOpen: bool, markerSeen: bool)

  const NEW_FLOW := Flow("", false, false)

  function Feed(f: Flow, chunk: string): Flow {
    var buf := f.carry + chunk;
    Flow(Tail(buf), OpenAfter(f.pasteOpen, Decided(buf)), f.markerSeen || HasMarker(buf))
  }

  /** The marker-free text a chunk gives out. */
  function Emitted(f: Flow, chunk: string): string {
    Strip(Decided(f.carry + chunk))
  }

  /** The held-back text is a partial marker or nothing. */
  predicate Waiting(f: Flow) {
    f.carry == "" || IsPartial(f.carry)
  }

  // ---------------------------------------------------------------------------------------------
  // Cutting a stream
  // ---------------------------------------------------------------------------------------------

  lemma MarkerShape(s: string, i: nat)
    requires MarkerAt(s, i)
    ensures i + 6 <= |s| && s[i] == ESC
    ensures forall j :: i < j < i + 6 ==> s[j] != ESC
  {
    var m := s[i..i + 6];
    assert forall j :: i <= j < i + 6 ==> s[j] == m[j - i];
  }

  lemma PartialShape(t: string)
    requires IsPartial(t)
    ensures 0 < |t| < 6 && t[0] == ESC
    ensures forall j :: 0 < j < |t| ==> t[j] != ESC && t[j] != '\n' && t[j] != '\r'
  {
    assert forall j :: 0 <= j < |t| ==> t[j] == PASTE_START[j] || t[j] == PASTE_END[j];
  }

  lemma Halves(s: string)
    ensures Decided(s) + Tail(s) == s
    ensures |Tail(s)| == LongestPartial(s, 5) && (Tail(s) == "" || IsPartial(Tail(s)))
  {
    hide IsPartial;
    var n := LongestPartial(s, 5);
    assert s[..|s| - n] + s[|s| - n..] == s;
  }

  /** No marker of a + b has its beginning in a and its end in b. */
  ghost predicate NoStraddle(a: string, b: string) {
    forall i: nat :: i < |a| < i + 6 ==> !MarkerAt(a + b, i)
  }

  lemma AtShifts(s: string, m: string, k: nat, i: nat)
    requires k <= |s| && m != ""
    ensures At(s[k..], m, i) <==> At(s, m, k + i)
  {
    if k + i + |m| <= |s| {
      assert s[k..][i..i + |m|] == s[k + i..k + i + |m|];
    }
  }

  lemma AtInPrefix(a: string, b: string, m: string, i: nat)
    requires i + |m| <= |a|
    ensures At(a + b, m, i) <==> At(a, m, i)
  {
    assert (a + b)[i..i + |m|] == a[i..i + |m|];
  }

  /** A marker that starts in a and ends in f leaves a partial marker at the end of a. */
  lemma StraddleLeavesPartial(a: string, f: string, i: nat)
    requires i < |a| < i + 6 && MarkerAt(a + f, i)
    ensures PartialEnd(a, |a| - i)
  {
    var k := |a| - i;
    var m := (a + f)[i..i + 6];
    assert a[|a| - k..] == m[..k];
    assert m[..k] <= m;
  }

  /** Whatever follows, no marker straddles the cut in front of the held-back tail. */
  lemma TailCutsCleanly(buf: string, future: string)
    ensures NoStraddle(Decided(buf), Tail(buf) + future)
  {
    hide LongestPartial, IsPartial, MarkerAt, PartialEnd;
    Halves(buf);
    var a, b := Decided(buf), Tail(buf) + future;
    if Tail(buf) != "" {
      PartialShape(Tail(buf));
      assert (a + b)[|a|] == ESC;
    } else {
      assert a == buf;
    }
    forall i: nat | i < |a| < i + 6 ensures !MarkerAt(a + b, i) {
      if MarkerAt(a + b, i) {
        MarkerShape(a + b, i);
        if Tail(buf) == "" {
          StraddleLeavesPartial(a, b, i);
        }
        assert false;
      }
    }
  }

  /** One step of the left-to-right scan. */
  lemma ScanStep(open: bool, s: string)
    requires s != ""
    ensures var k := if MarkerAt(s, 0) then 6 else 1;
            && k <= |s|
            && Strip(s) == (if MarkerAt(s, 0) then "" else [s[0]]) + Strip(s[k..])
            && OpenAfter(open, s) == OpenAfter(
                 if At(s, PASTE_START, 0) then true else if At(s, PASTE_END, 0) then false else open, s[k..])
  {
    assert MarkerAt(s, 0) ==> 6 <= |s|;
    assert PASTE_START != PASTE_END;
  }

  /** A clean cut does not change what is stripped or whether a paste is open. */
  lemma {:induction false} CleanCut(open: bool, a: string, b: string)
    requires NoStraddle(a, b)
    ensures Strip(a + b) == Strip(a) + Strip(b)
    ensures OpenAfter(open, a + b) == OpenAfter(OpenAfter(open, a), b)
    decreases |a|
  {
    if a == "" {
      assert a + b == b;
    } else {
      hide Strip, OpenAfter, At, NoStraddle;
      SameHead(a, b);
      ScanStep(open, a);
      ScanStep(open, a + b);
      var k := if MarkerAt(a, 0) then 6 else 1;
      var next := if At(a, PASTE_START, 0) then true else if At(a, PASTE_END, 0) then false else open;
      assert (a + b)[k..] == a[k..] + b && (a + b)[0] == a[0];
      ShorterCut(a, b, k);
      CleanCut(next, a[k..], b);
      Regroup(if MarkerAt(a, 0) then "" else [a[0]], Strip(a[k..]), Strip(b));
    }
  }

  lemma SameHead(a: string, b: string)
    requires a != "" && NoStraddle(a, b)
    ensures At(a + b, PASTE_START, 0) <==> At(a, PASTE_START, 0)
    ensures At(a + b, PASTE_END, 0) <==> At(a, PASTE_END, 0)
  {
    if |a| < 6 {
      assert !MarkerAt(a + b, 0);
    } else {
      AtInPrefix(a, b, PASTE_START, 0);
      AtInPrefix(a, b, PASTE_END, 0);
    }
  }

  lemma ShorterCut(a: string, b: string, k: nat)
    requires k <= |a| && NoStraddle(a, b)
    ensures NoStraddle(a[k..], b)
  {
    forall i: nat | i < |a[k..]| < i + 6 ensures !MarkerAt(a[k..] + b, i) {
      assert (a + b)[k..] == a[k..] + b;
      AtShifts(a + b, PASTE_START, k, i);
      AtShifts(a + b, PASTE_END, k, i);
      assert !MarkerAt(a + b, k + i);
    }
  }

  /** A clean cut stays clean when the right side ends earlier. */
  lemma EarlierEnd(a: string, b: string, rest: string)
    requires NoStraddle(a, b + rest)
    ensures NoStraddle(a, b)
  {
    forall i: nat | i < |a| < i + 6 ensures !MarkerAt(a + b, i) {
      assert a + (b + rest) == (a + b) + rest;
      if i + 6 <= |a + b| {
        AtInPrefix(a + b, rest, PASTE_START, i);
        AtInPrefix(a + b, rest, PASTE_END, i);
      }
      assert !MarkerAt(a + (b + rest), i);
    }
  }

  lemma MarkerOnEitherSide(a: string, b: string)
    requires NoStraddle(a, b)
    ensures HasMarker(a + b) <==> HasMarker(a) || HasMarker(b)
  {
    var s := a + b;
    forall i: nat | i < |s| ensures MarkerAt(s, i) <==>
        (i < |a| && MarkerAt(a, i)) || (|a| <= i && MarkerAt(b, i - |a|)) {
      if i + 6 <= |a| {
        AtInPrefix(a, b, PASTE_START, i);
        AtInPrefix(a, b, PASTE_END, i);
      } else if |a| <= i {
        assert s[|a|..] == b;
        AtShifts(s, PASTE_START, |a|, i - |a|);
        AtShifts(s, PASTE_END, |a|, i - |a|);
      }
    }
    if HasMarker(a) {
      var i: nat :| i < |a| && MarkerAt(a, i);
      assert MarkerAt(s, i);
    }
    if HasMarker(b) {
      var i: nat :| i < |b| && MarkerAt(b, i);
      assert MarkerAt(s, |a| + i);
    }
  }

  lemma ShortHasNoMarker(s: string)
    requires |s| < 6
    ensures !HasMarker(s)
  {
  }

  // ---------------------------------------------------------------------------------------------
  // Chunk independence
  // ---------------------------------------------------------------------------------------------

  /** What a longer buffer holds back depends only on what the shorter one held back. */
  lemma TailOfTail(buf: string, chunk: string)
    ensures Tail(buf + chunk) == Tail(Tail(buf) + chunk)
    ensures Decided(buf + chunk) == Decided(buf) + Decided(Tail(buf) + chunk)
  {
    hide IsPartial, LongestPartial;
    var whole, short := buf + chunk, Tail(buf) + chunk;
    Halves(buf);
    assert whole == Decided(buf) + short;
    forall k: nat | 0 < k <= 5 ensures PartialEnd(whole, k) <==> PartialEnd(short, k) {
      if k <= |short| {
        assert whole[|whole| - k..] == short[|short| - k..];
      } else if PartialEnd(whole, k) {
        PartialBefore(buf, chunk, k);
        assert false;
      }
    }
    SameLongest(whole, short, 5);
  }

  /** A partial marker that starts in buf and ends with the chunk already showed at the end of buf. */
  lemma PartialBefore(buf: string, chunk: string, k: nat)
    requires PartialEnd(buf + chunk, k) && |chunk| < k
    ensures PartialEnd(buf, k - |chunk|)
  {
    var n, part := k - |chunk|, (buf + chunk)[|buf + chunk| - k..];
    assert buf[|buf| - n..] == part[..n];
    assert part[..n] <= part;
  }

  lemma {:induction false} SameLongest(s: string, t: string, k: nat)
    requires forall j: nat :: 0 < j <= k ==> (PartialEnd(s, j) <==> PartialEnd(t, j))
    ensures LongestPartial(s, k) == LongestPartial(t, k)
  {
    if k > 0 {
      SameLongest(s, t, k - 1);
    }
  }

  /** Feeding two chunks is feeding them joined. */
  lemma FeedSplits(f: Flow, a: string, b: string)
    ensures Feed(Feed(f, a), b) == Feed(f, a + b)
    ensures Emitted(f, a) + Emitted(Feed(f, a), b) == Emitted(f, a + b)
  {
    hide Strip, OpenAfter, HasMarker, NoStraddle, Tail, Decided;
    var buf := f.carry + a;
    var first, second := Decided(buf), Tail(buf) + b;
    Regroup(f.carry, a, b);
    TailOfTail(buf, b);
    TailCutsCleanly(buf, b);
    EarlierEndOfDecided(first, second);
    CleanCut(f.pasteOpen, first, Decided(second));
    Halves(buf);
    Regroup(first, Tail(buf), b);
    MarkerOnEitherSide(first, second);
    BufferMarkers(buf);
  }

  lemma EarlierEndOfDecided(a: string, b: string)
    requires NoStraddle(a, b)
    ensures NoStraddle(a, Decided(b))
  {
    hide NoStraddle, LongestPartial;
    Halves(b);
    EarlierEnd(a, Decided(b), Tail(b));
  }

  /** Every marker of a buffer lies in its decided part. */
  lemma BufferMarkers(buf: string)
    ensures HasMarker(buf) <==> HasMarker(Decided(buf))
  {
    hide HasMarker, NoStraddle, LongestPartial;
    Halves(buf);
    TailCutsCleanly(buf, "");
    assert Tail(buf) + "" == Tail(buf);
    MarkerOnEitherSide(Decided(buf), Tail(buf));
    ShortHasNoMarker(Tail(buf));
  }

  function FeedAll(f: Flow, chunks: seq<string>): Flow
    decreases |chunks|
  {
    if chunks == [] then f else FeedAll(Feed(f, chunks[0]), chunks[1..])
  }

  function EmittedAll(f: Flow, chunks: seq<string>): string
    decreases |chunks|
  {
    if chunks == [] then "" else Emitted(f, chunks[0]) + EmittedAll(Feed(f, chunks[0]), chunks[1..])
  }

  lemma FeedKeepsWaiting(f: Flow, chunk: string)
    ensures Waiting(Feed(f, chunk))
  {
    Halves(f.carry + chunk);
  }

  lemma FeedNothing(f: Flow)
    requires Waiting(f)
    ensures Feed(f, "") == f && Emitted(f, "") == ""
  {
    assert f.carry + "" == f.carry;
    if f.carry != "" {
      assert PartialEnd(f.carry, |f.carry|);
      ShortHasNoMarker(f.carry);
    }
  }

  /**
   * However a stream is cut into chunks, the flags, the held-back tail and the emitted text are those
   * of the uncut stream.
   */
  lemma {:induction false} ChunkingIsInvisible(f: Flow, chunks: seq<string>)
    requires Waiting(f)
    ensures FeedAll(f, chunks) == Feed(f, Flatten(chunks))
    ensures EmittedAll(f, chunks) == Emitted(f, Flatten(chunks))
    decreases |chunks|
  {
    hide Feed, Emitted;
    if chunks == [] {
      FeedNothing(f);
    } else {
      FeedKeepsWaiting(f, chunks[0]);
      ChunkingIsInvisible(Feed(f, chunks[0]), chunks[1..]);
      FlattenFront(chunks);
      FeedSplits(f, chunks[0], Flatten(chunks[1..]));
    }
  }

  /** From the start of a session: what is known of the whole stream. */
  lemma WholeStream(chunks: seq<string>)
    ensures var s := Flatten(chunks);
            && EmittedAll(NEW_FLOW, chunks) == Strip(Decided(s))
            && FeedAll(NEW_FLOW, chunks) == Flow(Tail(s), OpenAfter(false, s), HasMarker(s))
  {
    var s := Flatten(chunks);
    hide Strip, OpenAfter, HasMarker, LongestPartial, FeedAll, EmittedAll, NoStraddle;
    ChunkingIsInvisible(NEW_FLOW, chunks);
    assert "" + s == s;
    OpenInDecided(false, s);
  }

  /** The held-back tail decides nothing. */
  lemma OpenInDecided(open: bool, s: string)
    ensures OpenAfter(open, s) == OpenAfter(open, Decided(s))
  {
    hide OpenAfter, LongestPartial, NoStraddle;
    Halves(s);
    TailCutsCleanly(s, "");
    assert Tail(s) + "" == Tail(s);
    CleanCut(open, Decided(s), Tail(s));
    ShortHasNoMarker(Tail(s));
    OpenUnchanged(OpenAfter(open, Decided(s)), Tail(s), |Tail(s)|);
    assert Tail(s)[|Tail(s)|..] == "";
    OpenAfterNothing(OpenAfter(open, Decided(s)));
  }

  lemma OpenAfterNothing(open: bool)
    ensures OpenAfter(open, "") == open
  {
  }

  /** Text without a marker at its first k positions can be skipped. */
  lemma {:induction false} OpenUnchanged(open: bool, s: string, k: nat)
    requires k <= |s| && forall i: nat :: i < k ==> !MarkerAt(s, i)
    ensures OpenAfter(open, s) == OpenAfter(open, s[k..])
    decreases k
  {
    if k == 0 {
      assert s[0..] == s;
    } else {
      assert !MarkerAt(s, 0);
      forall i: nat | i < k - 1 ensures !MarkerAt(s[1..], i) {
        AtShifts(s, PASTE_START, 1, i);
        AtShifts(s, PASTE_END, 1, i);
        assert !MarkerAt(s, 1 + i);
      }
      OpenUnchanged(open, s[1..], k - 1);
      assert s[1..][k - 1..] == s[k..];
    }
  }
}
