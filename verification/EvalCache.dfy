/** The incremental, LRU-bounded reader of evaluations.jsonl. */
module EvalCache {
  import opened CampaignTypes
  import opened EvalLog
  import opened Sequences

  datatype Entry = Entry(offset: nat, results: seq<Result>)

  /** A JavaScript Map in insertion order: the least recently touched campaign comes first. */
  type Cache = seq<(string, Entry)>

  const NOTHING: Entry := Entry(0, [])

  ghost predicate DistinctKeys(cache: Cache) {
    forall i, j :: 0 <= i < j < |cache| ==> cache[i].0 != cache[j].0
  }

  function Find(cache: Cache, c: string): (e: Option<Entry>)
    ensures e.Some? ==> (c, e.value) in cache
    ensures e.None? ==> forall i :: 0 <= i < |cache| ==> cache[i].0 != c
  {
    if cache == [] then None
    else if cache[0].0 == c then Some(cache[0].1)
    else Find(cache[1..], c)
  }

  function Remove(cache: Cache, c: string): (r: Cache)
    ensures |r| <= |cache|
    ensures forall p :: p in r <==> p in cache && p.0 != c
  {
    if cache == [] then []
    else
      var n := |cache| - 1;
      assert cache == cache[..n] + [cache[n]];
      if cache[n].0 == c then Remove(cache[..n], c) else Remove(cache[..n], c) + [cache[n]]
  }

  /** Removing a campaign leaves the others as they are, in their order. */
  lemma RemoveKeepsOrder(before: Cache, e: Entry, after: Cache, c: string)
    requires forall p :: p in before + after ==> p.0 != c
    ensures Remove(before + after, c) == before + after && Remove(before + [(c, e)] + after, c) == before + after
  {
    RemoveOthers(before, after, c);
    RemoveOthers(before + [(c, e)], after, c);
    RemoveOthers([], before, c);
    RemoveOne(before, (c, e), c);
    assert [] + before == before;
  }

  lemma {:induction false} RemoveOthers(cache: Cache, others: Cache, c: string)
    requires forall p :: p in others ==> p.0 != c
    ensures Remove(cache + others, c) == Remove(cache, c) + others
    decreases |others|
  {
    hide Remove;
    if others == [] {
      assert cache + others == cache;
    } else {
      var n := |others| - 1;
      RemoveOthers(cache, others[..n], c);
      RemoveOne(cache + others[..n], others[n], c);
      assert others == others[..n] + [others[n]];
      Regroup(cache, others[..n], [others[n]]);
      Regroup(Remove(cache, c), others[..n], [others[n]]);
    }
  }

  lemma RemoveOne(cache: Cache, p: (string, Entry), c: string)
    ensures Remove(cache + [p], c) == if p.0 == c then Remove(cache, c) else Remove(cache, c) + [p]
  {
    assert (cache + [p])[..|cache|] == cache;
  }

  lemma AppendKeepsDistinct(cache: Cache, p: (string, Entry))
    requires DistinctKeys(cache) && forall q :: q in cache ==> q.0 != p.0
    ensures DistinctKeys(cache + [p])
  {
    assert forall i :: 0 <= i < |cache| ==> cache[i] in cache;
  }

  lemma {:induction false} RemoveKeepsDistinct(cache: Cache, c: string)
    requires DistinctKeys(cache)
    ensures DistinctKeys(Remove(cache, c))
  {
    if cache != [] {
      var n := |cache| - 1;
      RemoveKeepsDistinct(cache[..n], c);
      forall q | q in Remove(cache[..n], c) ensures q.0 != cache[n].0 {
        assert q in cache[..n];
      }
      AppendKeepsDistinct(Remove(cache[..n], c), cache[n]);
    }
  }

  /** Delete, re-insert at the back, then drop from the front down to the cap. */
  function Touched(cache: Cache, c: string, e: Entry, cap: nat): (r: Cache)
    ensures |r| <= cap
  {
    var t := Remove(cache, c) + [(c, e)];
    if |t| > cap then t[|t| - cap..] else t
  }

  lemma DropFrontKeepsDistinct(cache: Cache)
    requires DistinctKeys(cache) && cache != []
    ensures DistinctKeys(cache[1..])
  {}

  /** The cap is kept, the touched entry is the last to go, and only the longest-untouched entries go. */
  lemma TouchedIsLru(cache: Cache, c: string, e: Entry, cap: nat)
    requires DistinctKeys(cache) && cap > 0 && |cache| <= cap
    ensures var r := Touched(cache, c, e, cap);
            && DistinctKeys(r) && r != [] && r[|r| - 1] == (c, e)
            && (|Remove(cache, c)| < cap ==> r == Remove(cache, c) + [(c, e)])
            && (|Remove(cache, c)| == cap ==> r == Remove(cache, c)[1..] + [(c, e)])
            && forall p :: p in r ==> p == (c, e) || p in cache
  {
    RemoveKeepsDistinct(cache, c);
    AppendKeepsDistinct(Remove(cache, c), (c, e));
    DropFrontKeepsDistinct(Remove(cache, c) + [(c, e)]);
    hide Remove, DistinctKeys;
    assert |Remove(cache, c)| == cap ==>
        (Remove(cache, c) + [(c, e)])[1..] == Remove(cache, c)[1..] + [(c, e)];
  }

  // ---------- Agreement with a full re-read ----------

  /** An entry is the parse of the complete lines up to its offset. */
  ghost predicate Agrees(parse: Parser, e: Entry, text: Bytes) {
    e.offset <= |text| && EndsLine(text[..e.offset]) && e.results == ParseText(parse, text[..e.offset])
  }

  lemma AgreesAfterAppend(parse: Parser, e: Entry, text: Bytes, more: Bytes)
    requires Agrees(parse, e, text)
    ensures Agrees(parse, e, text + more)
  {
    assert (text + more)[..e.offset] == text[..e.offset];
  }

  /** Reading on from an entry: the offset past the last newline of the chunk, and all results so far. */
  ghost function Advanced(parse: Parser, e: Entry, chunk: Bytes): Entry {
    Entry(e.offset + (LastNewline(chunk) + 1), e.results + ParseText(parse, chunk))
  }

  lemma Pieces(text: Bytes, o: nat, k: nat)
    requires o + k <= |text|
    ensures text == text[..o] + text[o..] && text[..o + k] == text[..o] + text[o..][..k]
  {}

  lemma EndsLineAppend(a: Bytes, b: Bytes)
    requires EndsLine(a) && EndsLine(b)
    ensures EndsLine(a + b)
  {}

  lemma AdvanceAgrees(parse: Parser, e: Entry, text: Bytes)
    requires Agrees(parse, e, text)
    ensures var a := Advanced(parse, e, text[e.offset..]);
            Agrees(parse, a, text) && a.results == ParseText(parse, text)
  {
    hide ParseText, LastNewline, EndsLine;
    var head, chunk := text[..e.offset], text[e.offset..];
    var k := LastNewline(chunk) + 1;
    ParseUpToLastNewline(parse, chunk);
    ParseSplits(parse, head, chunk);
    Pieces(text, e.offset, k);
    LineByLine(parse, head, chunk[..k], e.results);
    assert Advanced(parse, e, chunk) == Entry(e.offset + k, e.results + ParseText(parse, chunk[..k]));
  }

  /** Text up to a line end and further lines are text up to a line end, and their results add up. */
  lemma LineByLine(parse: Parser, head: Bytes, lines: Bytes, results: seq<Result>)
    requires EndsLine(head) && EndsLine(lines) && results == ParseText(parse, head)
    ensures EndsLine(head + lines) && results + ParseText(parse, lines) == ParseText(parse, head + lines)
  {
    hide ParseText;
    EndsLineAppend(head, lines);
    ParseSplits(parse, head, lines);
  }

  // ---------- The reader ----------

  datatype Filter = Filter(feasibleOnly: bool, fidelity: Option<nat>)

  predicate Passes(f: Filter, r: Result) {
    (f.feasibleOnly ==> r.feasible) && (f.fidelity.Some? ==> r.fidelity == f.fidelity.value)
  }

  function Filtered(f: Filter, rs: seq<Result>): (out: seq<Result>)
    ensures forall r :: r in out <==> r in rs && Passes(f, r)
  {
    if rs == [] then []
    else
      var n := |rs| - 1;
      assert rs == rs[..n] + [rs[n]];
      if Passes(f, rs[n]) then Filtered(f, rs[..n]) + [rs[n]] else Filtered(f, rs[..n])
  }

  /** The query's answer: the results that are feasible, if so asked, and of the fidelity asked for, in order. */
  ghost predicate Answers(f: Filter, rs: seq<Result>, results: seq<Result>) {
    exists at :: AnswersAt(f, rs, results, at)
  }

  ghost predicate AnswersAt(f: Filter, rs: seq<Result>, results: seq<Result>, at: seq<nat>) {
    && Positions(at, |rs|) && |results| == |at| && (forall k :: 0 <= k < |at| ==> results[k] == rs[at[k]])
    && forall i :: 0 <= i < |rs| ==> (i in at <==> Wanted(f, rs[i]))
  }

  ghost predicate Wanted(f: Filter, r: Result) {
    (f.feasibleOnly ==> r.feasible) && (f.fidelity.Some? ==> r.fidelity == f.fidelity.value)
  }

  lemma AnswersOneMore(f: Filter, rs: seq<Result>, results: seq<Result>, at: seq<nat>, r: Result)
    requires AnswersAt(f, rs, results, at)
    ensures Wanted(f, r) ==> AnswersAt(f, rs + [r], results + [r], at + [|rs|])
    ensures !Wanted(f, r) ==> AnswersAt(f, rs + [r], results, at)
  {
    hide Wanted;
    var all := rs + [r];
    forall i | 0 <= i < |rs| ensures all[i] == rs[i] && (i in at <==> i in at + [|rs|]) {}
    assert all[|rs|] == r && |rs| !in at;
  }

  lemma {:induction false} FilteredAnswers(f: Filter, rs: seq<Result>) returns (at: seq<nat>)
    ensures AnswersAt(f, rs, Filtered(f, rs), at)
  {
    if rs == [] {
      at := [];
    } else {
      var n := |rs| - 1;
      at := FilteredAnswers(f, rs[..n]);
      hide AnswersAt;
      AnswersOneMore(f, rs[..n], Filtered(f, rs[..n]), at, rs[n]);
      assert rs == rs[..n] + [rs[n]];
      if Passes(f, rs[n]) { at := at + [n]; }
    }
  }

  /** What an entry is worth against a file: nothing once the file is shorter than its offset. */
  ghost function Usable(e: Entry, file: Option<Bytes>): Entry {
    if file.Some? && |file.value| < e.offset then NOTHING else e
  }

  /** The entry read on to the end of the file, if there is one. */
  ghost function ReadOn(parse: Parser, e: Entry, file: Option<Bytes>): Entry
    requires Usable(e, file) == e
  {
    if file.None? then e else Advanced(parse, e, file.value[e.offset..])
  }

  ghost function Cached(cache: Cache, c: string): Entry { Find(cache, c).GetOr(NOTHING) }

  /** The cache after a call: a file too short resets the entry; any results move it to the back. */
  ghost function CacheAfter(parse: Parser, cache: Cache, cap: nat, c: string, file: Option<Bytes>): Cache {
    var e := Usable(Cached(cache, c), file);
    var base := if e == Cached(cache, c) then cache else ResetInPlace(cache, c);
    var read := ReadOn(parse, e, file);
    StoredBack(base, cap, c, e, read)
  }

  ghost function StoredBack(cache: Cache, cap: nat, c: string, e: Entry, read: Entry): Cache {
    if read.results != e.results then Touched(cache, c, read, cap)
    else if e.results != [] then Touched(cache, c, e, cap)
    else cache
  }

  /** One step of the loop that skips malformed lines, for a chunk: its offset gain and its results. */
  method ParseChunk(parse: Parser, chunk: Bytes) returns (consumed: nat, results: seq<Result>)
    ensures consumed == LastNewline(chunk) + 1 && results == ParseText(parse, chunk)
  {
    ParseUpToLastNewline(parse, chunk);
    var lastNL := LastNewline(chunk);
    hide ParseText, LastNewline;
    if lastNL < 0 {
      UnfinishedLine(parse, chunk);
      return 0, [];
    }
    consumed := lastNL + 1;
    assert chunk[..lastNL] + [NEWLINE] == chunk[..lastNL + 1];
    results := ParseLines(parse, chunk[..lastNL]);
  }

  class EvalStore {
    const cap: nat
    const parse: Parser
    var cache: Cache

    constructor (cap: nat, parse: Parser)
      ensures this.cap == cap && this.parse == parse && cache == []
    {
      this.cap, this.parse, cache := cap, parse, [];
    }

    /** CampaignStateStore._touchEvalCache */
    method Touch(c: string, e: Entry)
      modifies this
      ensures cache == Touched(old(cache), c, e, cap)
    {
      cache := Remove(cache, c) + [(c, e)];
      ghost var full := cache;
      ghost var dropped := 0;
      while |cache| > cap
        invariant 0 <= dropped <= |full| && cache == full[dropped..]
        invariant dropped > 0 ==> |cache| >= cap
      {
        cache := cache[1..];
        dropped := dropped + 1;
      }
    }

    /**
     * getEvaluations: reads on from the cached entry. A missing file yields the cached results; a file
     * shorter than the cached offset is read from the start.
     */
    method GetEvaluations(c: string, file: Option<Bytes>, filter: Filter) returns (results: seq<Result>)
      modifies this
      ensures cache == CacheAfter(parse, old(cache), cap, c, file)
      ensures results == Filtered(filter, ReadOn(parse, Usable(Cached(old(cache), c), file), file).results)
      ensures Answers(filter, ReadOn(parse, Usable(Cached(old(cache), c), file), file).results, results)
    {
      hide Filtered, ParseText, Touched, ResetInPlace, LastNewline;
      var cached := Find(cache, c).GetOr(NOTHING);
      var newResults: seq<Result> := [];
      var newOffset := cached.offset;
      if file.Some? {
        var text := file.value;
        if |text| < cached.offset {
          cached := NOTHING;
          cache := ResetInPlace(cache, c);
          newOffset := 0;
        }
        if |text| > cached.offset {
          var consumed, parsed := ParseChunk(parse, text[cached.offset..]);
          newOffset, newResults := cached.offset + consumed, parsed;
        } else {
          UnfinishedLine(parse, text[cached.offset..]);
          assert text[cached.offset..] == [];
        }
      }
      var all := cached.results + newResults;
      assert |newResults| > 0 <==> all != cached.results;
      assert |newResults| == 0 ==> all == cached.results;
      if |newResults| > 0 {
        Touch(c, Entry(newOffset, all));
      } else if |cached.results| > 0 {
        Touch(c, cached);
      }
      results := Filtered(filter, all);
      ghost var at := FilteredAnswers(filter, all);
    }

    /** CampaignStateStore.cleanup */
    method CleanUp(c: string)
      modifies this
      ensures cache == Remove(old(cache), c)
    {
      cache := Remove(cache, c);
    }
  }

  /** `cached.offset = 0; cached.results = []` on the object held by the Map. */
  function ResetInPlace(cache: Cache, c: string): (r: Cache)
    ensures |r| == |cache| && forall i :: 0 <= i < |r| ==> r[i] == if cache[i].0 == c then (c, NOTHING) else cache[i]
  {
    seq(|cache|, i requires 0 <= i < |cache| => if cache[i].0 == c then (c, NOTHING) else cache[i])
  }

  // ---------- What the reader guarantees ----------

  /** A campaign's log; nothing as long as its file has not been created. */
  ghost function Content(files: map<string, Bytes>, c: string): Bytes {
    if c in files then files[c] else []
  }

  /** Every cached campaign's entry is the parse of a prefix of its log. */
  ghost predicate CacheAgrees(parse: Parser, cache: Cache, files: map<string, Bytes>) {
    forall p :: p in cache ==> Agrees(parse, p.1, Content(files, p.0))
  }

  ghost function FileOf(files: map<string, Bytes>, c: string): Option<Bytes> {
    if c in files then Some(files[c]) else None
  }

  lemma NothingAgrees(parse: Parser, text: Bytes)
    ensures Agrees(parse, NOTHING, text)
  {
    UnfinishedLine(parse, text[..0]);
  }

  /**
   * While files only grow, a call returns the parse of all complete lines, and the cache stays in
   * agreement and in bounds.
   */
  lemma ReaderIsExact(parse: Parser, cache: Cache, cap: nat, files: map<string, Bytes>, c: string)
    requires CacheAgrees(parse, cache, files) && DistinctKeys(cache) && |cache| <= cap && cap > 0
    ensures var file, cached := FileOf(files, c), Cached(cache, c);
            && Usable(cached, file) == cached
            && ReadOn(parse, cached, file).results == ParseText(parse, Content(files, c))
    ensures var after := CacheAfter(parse, cache, cap, c, FileOf(files, c));
            CacheAgrees(parse, after, files) && DistinctKeys(after) && |after| <= cap
  {
    hide ParseText, LastNewline, EndsLine, DistinctKeys, Touched;
    var e := Cached(cache, c);
    NothingAgrees(parse, Content(files, c));
    TouchedIsLru(cache, c, e, cap);
    if c in files {
      AdvanceAgrees(parse, e, files[c]);
      TouchedIsLru(cache, c, ReadOn(parse, e, Some(files[c])), cap);
    } else {
      assert Content(files, c)[..e.offset] == Content(files, c);
    }
  }

  /**
   * A call that has any results leaves its campaign's entry as the most recent; it reaches further only if
   * there were new results.
   */
  lemma CallMakesRecent(parse: Parser, cache: Cache, cap: nat, c: string, file: Option<Bytes>)
    requires DistinctKeys(cache) && cap > 0
    ensures var e := Usable(Cached(cache, c), file);
            var read := ReadOn(parse, e, file);
            var after := CacheAfter(parse, cache, cap, c, file);
            read.results != [] ==>
              after != [] && after[|after| - 1] == (c, if read.results == e.results then e else read)
  {
    hide ParseText, LastNewline, ResetInPlace;
  }

  /** A file recreated shorter than the cached offset is noticed: the call returns the parse of the new file alone. */
  lemma TruncationIsNoticed(parse: Parser, cache: Cache, c: string, text: Bytes)
    requires |text| < Cached(cache, c).offset
    ensures ReadOn(parse, Usable(Cached(cache, c), Some(text)), Some(text)).results == ParseText(parse, text)
  {
    assert text[0..] == text;
  }

  /** The end of the line a position is in: the position itself if it is a line's start. */
  ghost function LineEnd(text: Bytes, o: nat): (q: nat)
    requires o <= |text|
    ensures o <= q <= |text|
  {
    if EndsLine(text[..o]) then o
    else
      var i := FirstNewline(text[o..]);
      if o + i == |text| then |text| else o + i + 1
  }

  lemma LineEndsThere(text: Bytes, o: nat)
    requires o <= |text|
    ensures var q := LineEnd(text, o);
            q == |text| || (EndsLine(text[..q]) && EndsLine(text[o..q]))
  {
    var q := LineEnd(text, o);
    if o < q < |text| {
      assert text[q - 1] == text[o..][q - 1 - o];
    }
  }

  /** Cutting a text in two at a line end, or at its own end, cuts its parse. */
  lemma ParseCut(parse: Parser, text: Bytes, a: Bytes, b: Bytes)
    requires text == a + b && (b == [] || EndsLine(a))
    ensures ParseText(parse, text) == ParseText(parse, a) + ParseText(parse, b)
  {
    hide ParseText, EndsLine;
    if b == [] {
      UnfinishedLine(parse, b);
      assert text == a;
    } else {
      ParseSplits(parse, a, b);
    }
  }

  lemma Window<T>(s: seq<T>, o: nat, q: nat)
    requires o <= q <= |s|
    ensures s == s[..q] + s[q..] && s[o..] == s[o..q] + s[q..]
    ensures q == |s| ==> s[q..] == []
  {}

  lemma ParseAround(parse: Parser, text: Bytes, o: nat)
    requires o <= |text|
    ensures var q := LineEnd(text, o);
            && ParseText(parse, text) == ParseText(parse, text[..q]) + ParseText(parse, text[q..])
            && ParseText(parse, text[o..]) == ParseText(parse, text[o..q]) + ParseText(parse, text[q..])
  {
    hide *;
    var q := LineEnd(text, o);
    LineEndsThere(text, o);
    Window(text, o, q);
    ParseCut(parse, text, text[..q], text[q..]);
    ParseCut(parse, text[o..], text[o..q], text[q..]);
  }

  /**
   * A file replaced by one that is not shorter goes unnoticed. The call still returns the parse of the new
   * file exactly when what was cached, and the rest of the line at the cached offset, are the results of
   * the new file's lines up to there.
   */
  lemma ReplacementIsReadExactly(parse: Parser, e: Entry, text: Bytes)
    requires e.offset <= |text|
    ensures var q := LineEnd(text, e.offset);
            ReadOn(parse, Usable(e, Some(text)), Some(text)).results == ParseText(parse, text) <==>
              e.results + ParseText(parse, text[e.offset..q]) == ParseText(parse, text[..q])
  {
    hide ParseText, LineEnd, LastNewline;
    ParseAround(parse, text, e.offset);
    var q := LineEnd(text, e.offset);
    Regroup(e.results, ParseText(parse, text[e.offset..q]), ParseText(parse, text[q..]));
    SameTail(e.results + ParseText(parse, text[e.offset..q]), ParseText(parse, text[..q]),
             ParseText(parse, text[q..]));
  }

  /**
   * Such a file misread: its one line, of the same length as the line cached, has another result, and the
   * call returns the old one.
   */
  lemma ReplacedLogIsMisread(parse: Parser, a: Bytes, b: Bytes, r1: Result, r2: Result)
    requires |a| == |b| && NEWLINE !in a && NEWLINE !in b
    requires parse(a) == Some(r1) && parse(b) == Some(r2) && r1 != r2
    ensures var e, text := Entry(|a| + 1, [r1]), b + [NEWLINE];
            && Agrees(parse, e, a + [NEWLINE])
            && ReadOn(parse, Usable(e, Some(text)), Some(text)).results == [r1]
            && ParseText(parse, text) == [r2]
  {
    OneLine(parse, a, r1);
    OneLine(parse, b, r2);
    assert (a + [NEWLINE])[..|a| + 1] == a + [NEWLINE];
    assert (b + [NEWLINE])[|a| + 1..] == [];
    UnfinishedLine(parse, []);
  }

  lemma OneLine(parse: Parser, line: Bytes, r: Result)
    requires NEWLINE !in line && parse(line) == Some(r)
    ensures ParseText(parse, line + [NEWLINE]) == [r]
  {
    FirstLine(parse, line, []);
    UnfinishedLine(parse, []);
    assert line + [NEWLINE] + [] == line + [NEWLINE];
  }

  lemma SameTail(a: seq<Result>, b: seq<Result>, tail: seq<Result>)
    ensures a + tail == b + tail <==> a == b
  {
    if a + tail == b + tail {
      assert |a| == |b|;
      assert a == (a + tail)[..|a|] && b == (b + tail)[..|b|];
    }
  }

  /** Appending to any log keeps the cache in agreement. */
  lemma AppendKeepsAgreement(parse: Parser, cache: Cache, files: map<string, Bytes>, c: string, more: Bytes)
    requires CacheAgrees(parse, cache, files)
    ensures CacheAgrees(parse, cache, files[c := Content(files, c) + more])
  {
    forall p | p in cache && p.0 == c ensures Agrees(parse, p.1, Content(files, c) + more) {
      AgreesAfterAppend(parse, p.1, Content(files, c), more);
    }
  }

  // ---------- Overlapping calls ----------

  /**
   * A call in flight: the entry it found and, as ghost history, its campaign's log when it began; then also
   * the text its read reached.
   */
  datatype Flight =
    | Began(campaign: string, entry: Entry, log: Bytes)
    | HasRead(campaign: string, entry: Entry, log: Bytes, text: Bytes, ok: bool)

  /** The log when a call began, the text its read reached, whether it got through, and its results before filtering. */
  datatype Returned = Returned(campaign: string, log: Bytes, text: Bytes, ok: bool, results: seq<Result>)

  datatype State = State(
    files: map<string, Bytes>, cache: Cache, flights: map<nat, Flight>,
    returned: seq<Returned>)   // ghost history: the calls that ended

  datatype Step =
    | Append(campaign: string, more: Bytes)
    | Begin(call: nat, campaign: string)
    | Read(call: nat, ok: bool)   // to the end of the file, or an error: then what is cached is all there is
    | Finish(call: nat)
    | Forget(campaign: string)

  ghost predicate Enabled(s: State, step: Step) {
    match step
    case Append(_, _) => true
    case Begin(i, c) => i !in s.flights
    case Read(i, _) =>
      i in s.flights && s.flights[i].Began? && s.flights[i].entry.offset <= |Content(s.files, s.flights[i].campaign)|
    case Finish(i) => i in s.flights && s.flights[i].HasRead? && s.flights[i].entry.offset <= |s.flights[i].text|
    case Forget(_) => true
  }

  ghost function Next(parse: Parser, cap: nat, s: State, step: Step): State
    requires Enabled(s, step)
  {
    match step
    case Append(c, more) => s.(files := s.files[c := Content(s.files, c) + more])
    case Begin(i, c) => s.(flights := s.flights[i := Began(c, Cached(s.cache, c), Content(s.files, c))])
    case Read(i, ok) =>
      var f := s.flights[i];
      var file := Content(s.files, f.campaign);
      var text := if ok then file else file[..f.entry.offset];
      s.(flights := s.flights[i := HasRead(f.campaign, f.entry, f.log, text, ok)])
    case Finish(i) =>
      var f := s.flights[i];
      var read := Advanced(parse, f.entry, f.text[f.entry.offset..]);
      s.(flights := s.flights - {i},
         returned := s.returned + [Returned(f.campaign, f.log, f.text, f.ok, read.results)],
         cache := StoredBack(s.cache, cap, f.campaign, f.entry, read))
    case Forget(c) => s.(cache := Remove(s.cache, c))
  }

  ghost predicate FlightAgrees(parse: Parser, f: Flight, files: map<string, Bytes>) {
    && Agrees(parse, f.entry, Content(files, f.campaign)) && f.log <= Content(files, f.campaign)
    && (f.HasRead? ==>
          f.text <= Content(files, f.campaign) && Agrees(parse, f.entry, f.text) && (f.ok ==> f.log <= f.text))
  }

  /**
   * A call returned the parse of a prefix of its campaign's log, and unless its read failed, of one that
   * has all the log held when the call began.
   */
  ghost predicate Exact(parse: Parser, r: Returned, files: map<string, Bytes>) {
    r.text <= Content(files, r.campaign) && r.results == ParseText(parse, r.text) && (r.ok ==> r.log <= r.text)
  }

  ghost predicate Sound(parse: Parser, cap: nat, s: State) {
    && CacheAgrees(parse, s.cache, s.files) && DistinctKeys(s.cache) && |s.cache| <= cap
    && (forall i :: i in s.flights ==> FlightAgrees(parse, s.flights[i], s.files))
    && (forall k :: 0 <= k < |s.returned| ==> Exact(parse, s.returned[k], s.files))
  }

  lemma AgreesWithPrefix(parse: Parser, e: Entry, text: Bytes, upto: nat)
    requires Agrees(parse, e, text) && e.offset <= upto <= |text|
    ensures Agrees(parse, e, text[..upto])
  {
    assert text[..upto][..e.offset] == text[..e.offset];
  }

  lemma AgreesWithLonger(parse: Parser, e: Entry, text: Bytes, longer: Bytes)
    requires Agrees(parse, e, text) && text <= longer
    ensures Agrees(parse, e, longer)
  {
    assert longer[..e.offset] == text[..e.offset];
  }

  lemma AppendKeepsSound(parse: Parser, cap: nat, s: State, c: string, more: Bytes)
    requires Sound(parse, cap, s)
    ensures Sound(parse, cap, Next(parse, cap, s, Append(c, more)))
  {
    hide Agrees, DistinctKeys, ParseText;
    var t := Next(parse, cap, s, Append(c, more));
    assert forall d: string :: Content(s.files, d) <= Content(t.files, d);
    hide Content;
    AppendKeepsAgreement(parse, s.cache, s.files, c, more);
    forall i | i in s.flights ensures FlightAgrees(parse, s.flights[i], t.files) {
      var f := s.flights[i];
      AgreesWithLonger(parse, f.entry, Content(s.files, f.campaign), Content(t.files, f.campaign));
    }
  }

  lemma BeginKeepsSound(parse: Parser, cap: nat, s: State, i: nat, c: string)
    requires Sound(parse, cap, s) && Enabled(s, Begin(i, c))
    ensures Sound(parse, cap, Next(parse, cap, s, Begin(i, c)))
  {
    hide Agrees, DistinctKeys, ParseText, Content, Exact;
    NothingAgrees(parse, Content(s.files, c));
  }

  lemma ReadKeepsSound(parse: Parser, cap: nat, s: State, i: nat, ok: bool)
    requires Sound(parse, cap, s) && Enabled(s, Read(i, ok))
    ensures Sound(parse, cap, Next(parse, cap, s, Read(i, ok)))
  {
    hide Agrees, DistinctKeys, ParseText, Content, Exact, CacheAgrees;
    var f := s.flights[i];
    AgreesWithPrefix(parse, f.entry, Content(s.files, f.campaign), f.entry.offset);
  }

  lemma FinishKeepsSound(parse: Parser, cap: nat, s: State, i: nat)
    requires cap > 0 && Sound(parse, cap, s) && Enabled(s, Finish(i))
    ensures Sound(parse, cap, Next(parse, cap, s, Finish(i)))
  {
    hide Agrees, DistinctKeys, ParseText, Touched, Advanced, Content;
    var f := s.flights[i];
    var read := Advanced(parse, f.entry, f.text[f.entry.offset..]);
    AdvanceAgrees(parse, f.entry, f.text);
    AgreesWithLonger(parse, read, f.text, Content(s.files, f.campaign));
    TouchedIsLru(s.cache, f.campaign, f.entry, cap);
    TouchedIsLru(s.cache, f.campaign, read, cap);
  }

  lemma ForgetKeepsSound(parse: Parser, cap: nat, s: State, c: string)
    requires Sound(parse, cap, s)
    ensures Sound(parse, cap, Next(parse, cap, s, Forget(c)))
  {
    RemoveKeepsDistinct(s.cache, c);
    hide Agrees, DistinctKeys, ParseText, Content, Exact, FlightAgrees;
  }

  lemma StepKeepsSound(parse: Parser, cap: nat, s: State, step: Step)
    requires cap > 0 && Sound(parse, cap, s) && Enabled(s, step)
    ensures Sound(parse, cap, Next(parse, cap, s, step))
  {
    hide Sound, Next, Enabled;
    match step {
      case Append(c, more) => AppendKeepsSound(parse, cap, s, c, more);
      case Begin(i, c) => BeginKeepsSound(parse, cap, s, i, c);
      case Read(i, ok) => ReadKeepsSound(parse, cap, s, i, ok);
      case Finish(i) => FinishKeepsSound(parse, cap, s, i);
      case Forget(c) => ForgetKeepsSound(parse, cap, s, c);
    }
  }

  ghost predicate Run(parse: Parser, cap: nat, steps: seq<Step>, s: State) {
    if steps == [] then s.cache == [] && s.flights == map[] && s.returned == []
    else
      var k := |steps| - 1;
      exists r :: Run(parse, cap, steps[..k], r) && Enabled(r, steps[k]) && s == Next(parse, cap, r, steps[k])
  }

  /**
   * Whatever appends, reads, evictions and clean-ups overlap, every call returns the parse of all complete
   * lines of a part of its campaign's log, of at least what was there when it began unless its read failed;
   * and every cached entry stays the parse of a prefix of its log.
   */
  lemma {:induction false} EveryCallIsExact(parse: Parser, cap: nat, steps: seq<Step>, s: State)
    requires cap > 0 && Run(parse, cap, steps, s)
    ensures Sound(parse, cap, s)
  {
    if steps != [] {
      var k := |steps| - 1;
      var r :| Run(parse, cap, steps[..k], r) && Enabled(r, steps[k]) && s == Next(parse, cap, r, steps[k]);
      EveryCallIsExact(parse, cap, steps[..k], r);
      StepKeepsSound(parse, cap, r, steps[k]);
    }
  }

  /** In particular no result on a complete line is missed that was in the log when the call began. */
  lemma NothingIsMissed(parse: Parser, cap: nat, steps: seq<Step>, s: State, k: nat)
    requires cap > 0 && Run(parse, cap, steps, s) && k < |s.returned| && s.returned[k].ok
    ensures ParseText(parse, s.returned[k].log) <= s.returned[k].results
  {
    EveryCallIsExact(parse, cap, steps, s);
    hide ParseText, Content;
    assert Exact(parse, s.returned[k], s.files);
    ParseGrows(parse, s.returned[k].log, s.returned[k].text);
  }

  /** A longer text has all results of a shorter one, first. */
  lemma ParseGrows(parse: Parser, text: Bytes, longer: Bytes)
    requires text <= longer
    ensures ParseText(parse, text) <= ParseText(parse, longer)
  {
    hide ParseText, LastNewline, EndsLine;
    var k := LastNewline(text) + 1;
    ParseUpToLastNewline(parse, text);
    assert longer == text[..k] + longer[k..];
    ParseSplits(parse, text[..k], longer[k..]);
  }

  /** The offsets never stand in the way: in every run a call in flight can take its next step. */
  lemma CallsCanMove(parse: Parser, cap: nat, steps: seq<Step>, s: State, i: nat, ok: bool)
    requires cap > 0 && Run(parse, cap, steps, s) && i in s.flights
    ensures Enabled(s, Read(i, ok)) || Enabled(s, Finish(i))
  {
    EveryCallIsExact(parse, cap, steps, s);
    hide ParseText, EndsLine;
    assert FlightAgrees(parse, s.flights[i], s.files);
  }
}
