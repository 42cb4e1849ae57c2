/** The persisted campaign state, what each mutation does to it, and one store instance over a disk. */
module CampaignState {
  import opened CampaignTypes
  import opened Sequences

  type TaskId = string

  /** state.json, without its timestamps and constant metadata. */
  datatype Persisted = Persisted(
    phase: CampaignPhase, sampledPoints: seq<DesignPoint>,
    pending: seq<TaskId>, completed: seq<TaskId>, failed: seq<TaskId>, failureReason: Option<string>)

  datatype Mutation =
    | SetSampledPoints(points: seq<DesignPoint>)
    | RegisterPending(ids: seq<TaskId>)
    | CompleteTask(id: TaskId)
    | FailTask(id: TaskId, reason: string)
    | MarkFailed(reason: string)
    | TransitionPhase(to: CampaignPhase)

  predicate Terminal(phase: CampaignPhase) { phase == Done || phase == Failed }

  /** `[...new Set(s)]`: first occurrences, in order. */
  function Dedup(s: seq<TaskId>): (r: seq<TaskId>)
    ensures forall x :: x in r <==> x in s
  {
    if s == [] then []
    else
      var n := |s| - 1;
      assert s == s[..n] + [s[n]];
      if s[n] in s[..n] then Dedup(s[..n]) else Dedup(s[..n]) + [s[n]]
  }

  function Without(s: seq<TaskId>, id: TaskId): (r: seq<TaskId>)
    ensures forall x :: x in r <==> x in s && x != id
  {
    if s == [] then []
    else
      var n := |s| - 1;
      assert s == s[..n] + [s[n]];
      if s[n] == id then Without(s[..n], id) else Without(s[..n], id) + [s[n]]
  }

  function Including(s: seq<TaskId>, id: TaskId): (r: seq<TaskId>)
    ensures forall x :: x in r <==> x in s || x == id
  {
    if id in s then s else s + [id]
  }

  /** What a mutation makes of the state it starts from. */
  function Apply(m: Mutation, d: Persisted): Persisted {
    match m
    case SetSampledPoints(points) => d.(sampledPoints := points)
    case RegisterPending(ids) => d.(pending := Dedup(d.pending + ids))
    case CompleteTask(id) => d.(pending := Without(d.pending, id), completed := Including(d.completed, id))
    case FailTask(id, reason) =>
      var d' := d.(pending := Without(d.pending, id), failed := Including(d.failed, id));
      if reason != "" && (d.failureReason.None? || d.failureReason.value == "")
      then d'.(failureReason := Some(reason)) else d'
    case MarkFailed(reason) =>
      if Terminal(d.phase) then d else d.(phase := Failed, failureReason := Some(reason))
    case TransitionPhase(to) =>
      if to in ValidTransitions(d.phase) then d.(phase := to) else d
  }

  ghost function ApplyAll(ms: seq<Mutation>, d: Persisted): Persisted {
    if ms == [] then d else Apply(ms[|ms| - 1], ApplyAll(ms[..|ms| - 1], d))
  }

  // ---------- Working from the state in memory ----------

  /** What the disk holds after the operation for m has worked from `mine`; a refused or void one writes nothing. */
  ghost function Written(m: Mutation, mine: Persisted, disk: Persisted): Persisted {
    match m
    case TransitionPhase(to) => if to in ValidTransitions(mine.phase) then Leave(m, mine) else disk
    case MarkFailed(_) => if Terminal(mine.phase) then disk else Leave(m, mine)
    case _ => Apply(m, mine)
  }

  /** The assignments of the two phase changes after their check: unconditional, whatever the state is by then. */
  function Leave(m: Mutation, d: Persisted): Persisted {
    match m
    case TransitionPhase(to) => d.(phase := to)
    case MarkFailed(reason) => d.(phase := Failed, failureReason := Some(reason))
    case _ => d
  }

  predicate ChangesPhase(m: Mutation) { m.TransitionPhase? || m.MarkFailed? }

  /** The states agree in every field the phase change m does not overwrite. */
  ghost predicate AgreeElsewhere(m: Mutation, a: Persisted, b: Persisted)
    requires ChangesPhase(m)
  {
    if m.MarkFailed? then a.(phase := b.phase, failureReason := b.failureReason) == b else a.(phase := b.phase) == b
  }

  /** The disk would accept the phase change m, or shows its outcome already. */
  ghost predicate Suits(m: Mutation, disk: Persisted)
    requires ChangesPhase(m)
  {
    if m.MarkFailed? then
      !Terminal(disk.phase) || (disk.phase == Failed && disk.failureReason == Some(m.reason))
    else
      m.to in ValidTransitions(disk.phase) || disk.phase == m.to
  }

  /** Once past its check, a phase change writes what the disk calls for exactly when both conditions hold. */
  lemma LeaveEffect(m: Mutation, mine: Persisted, disk: Persisted)
    requires ChangesPhase(m)
    ensures Leave(m, mine) == Apply(m, disk) <==> AgreeElsewhere(m, mine, disk) && Suits(m, disk)
  {}

  ghost predicate SameReason(a: Option<string>, b: Option<string>, reason: string) {
    a == b || (reason != "" && Unset(a, reason) && Unset(b, reason))
  }

  /** Setting the reason if none is set makes it this one. */
  ghost predicate Unset(a: Option<string>, reason: string) {
    a.None? || a.value == "" || a.value == reason
  }

  /** The ids that registering appends to a list that knows some of them already. */
  function Lacking(ids: seq<TaskId>, known: seq<TaskId>): (r: seq<TaskId>)
    ensures forall x :: x in r <==> x in ids && x !in known
  {
    if ids == [] then []
    else
      var n := |ids| - 1;
      assert ids == ids[..n] + [ids[n]];
      if ids[n] in ids[..n] || ids[n] in known then Lacking(ids[..n], known) else Lacking(ids[..n], known) + [ids[n]]
  }

  /** List a is list b with the first n of the ids it lacks registered already. */
  ghost predicate Ahead(a: seq<TaskId>, b: seq<TaskId>, ids: seq<TaskId>, n: nat) {
    n <= |Lacking(ids, b)| && Dedup(a) == Dedup(b) + Lacking(ids, b)[..n]
  }

  /** One list is the other with some of the ids registered already. */
  ghost predicate DifferByRegistering(a: seq<TaskId>, b: seq<TaskId>, ids: seq<TaskId>) {
    exists n :: Ahead(a, b, ids, n) || Ahead(b, a, ids, n)
  }

  /** One list is the other with id appended, or they are the same. */
  ghost predicate DifferByAppending(a: seq<TaskId>, b: seq<TaskId>, id: TaskId) {
    a == b || (id !in b && a == b + [id]) || (id !in a && b == a + [id])
  }

  /** Both lists hold the same other tasks in the same order. */
  ghost predicate SameOthers(a: seq<TaskId>, b: seq<TaskId>, id: TaskId) {
    Without(a, id) == Without(b, id)
  }

  /** How far `mine` may lag behind the disk, field by field, for the mutation to lose nothing. */
  ghost predicate Harmless(m: Mutation, mine: Persisted, disk: Persisted) {
    match m
    case SetSampledPoints(_) => mine.(sampledPoints := disk.sampledPoints) == disk
    case RegisterPending(ids) =>
      && mine.(pending := disk.pending) == disk
      && DifferByRegistering(mine.pending, disk.pending, ids)
    case CompleteTask(id) =>
      && mine.(pending := disk.pending, completed := disk.completed) == disk
      && SameOthers(mine.pending, disk.pending, id)
      && DifferByAppending(mine.completed, disk.completed, id)
    case FailTask(id, reason) =>
      && mine.(pending := disk.pending, failed := disk.failed, failureReason := disk.failureReason) == disk
      && SameOthers(mine.pending, disk.pending, id)
      && DifferByAppending(mine.failed, disk.failed, id)
      && SameReason(mine.failureReason, disk.failureReason, reason)
    case MarkFailed(_) =>
      if Terminal(mine.phase) then Terminal(disk.phase) else AgreeElsewhere(m, mine, disk) && Suits(m, disk)
    case TransitionPhase(to) =>
      if to in ValidTransitions(mine.phase) then AgreeElsewhere(m, mine, disk) && Suits(m, disk)
      else to !in ValidTransitions(disk.phase) || disk.phase == to
  }

  /** An operation that works from `mine` does to the disk what it should exactly when the lag is harmless. */
  lemma StaleEffect(m: Mutation, mine: Persisted, disk: Persisted)
    ensures Written(m, mine, disk) == Apply(m, disk) <==> Harmless(m, mine, disk)
  {
    hide Dedup, Without, Including, DifferByRegistering, DifferByAppending, SameReason;
    match m {
      case RegisterPending(ids) => RegisteringSame(mine.pending, disk.pending, ids);
      case CompleteTask(id) =>
        AppendingSame(mine.completed, disk.completed, id);
      case FailTask(id, reason) =>
        AppendingSame(mine.failed, disk.failed, id);
        ReasonSame(mine.failureReason, disk.failureReason, reason);
      case SetSampledPoints(_) =>
      case _ => LeaveEffect(m, mine, disk);
    }
  }

  lemma ReasonSame(a: Option<string>, b: Option<string>, reason: string)
    ensures SameReason(a, b, reason) <==>
              (if reason != "" && (a.None? || a.value == "") then Some(reason) else a)
              == (if reason != "" && (b.None? || b.value == "") then Some(reason) else b)
  {}

  lemma AppendingSame(a: seq<TaskId>, b: seq<TaskId>, id: TaskId)
    ensures Including(a, id) == Including(b, id) <==> DifferByAppending(a, b, id)
  {}

  /** Registering appends what is lacking, in order and once. */
  lemma {:induction false} DedupAppends(s: seq<TaskId>, ids: seq<TaskId>)
    ensures Dedup(s + ids) == Dedup(s) + Lacking(ids, s)
  {
    hide *;
    if ids == [] {
      NothingLacking(ids, s);
      assert s + ids == s;
    } else {
      var n := |ids| - 1;
      DedupAppends(s, ids[..n]);
      AppendsOneMore(s, ids[..n], ids[n]);
      assert ids == ids[..n] + [ids[n]];
    }
  }

  lemma AppendsOneMore(s: seq<TaskId>, ids: seq<TaskId>, x: TaskId)
    requires Dedup(s + ids) == Dedup(s) + Lacking(ids, s)
    ensures Dedup(s + (ids + [x])) == Dedup(s) + Lacking(ids + [x], s)
  {
    DedupOne(s + ids, x);
    LackingOne(ids, x, s);
    hide *;
    Regroup(s, ids, [x]);
    Regroup(Dedup(s), Lacking(ids, s), [x]);
  }

  lemma DedupOne(s: seq<TaskId>, x: TaskId)
    ensures Dedup(s + [x]) == if x in s then Dedup(s) else Dedup(s) + [x]
  {
    assert (s + [x])[..|s|] == s;
  }

  lemma LackingOne(ids: seq<TaskId>, x: TaskId, known: seq<TaskId>)
    ensures Lacking(ids + [x], known) ==
            if x in ids || x in known then Lacking(ids, known) else Lacking(ids, known) + [x]
  {
    assert (ids + [x])[..|ids|] == ids;
  }

  lemma {:induction false} NothingLacking(ids: seq<TaskId>, known: seq<TaskId>)
    requires forall x :: x in ids ==> x in known
    ensures Lacking(ids, known) == []
  {
    if ids != [] {
      assert ids == ids[..|ids| - 1] + [ids[|ids| - 1]];
      NothingLacking(ids[..|ids| - 1], known);
    }
  }

  /** A list that knows the first n of the ids b lacks, and else what b knows, lacks the others. */
  lemma {:induction false} LackingRest(ids: seq<TaskId>, a: seq<TaskId>, b: seq<TaskId>, n: nat)
    requires n <= |Lacking(ids, b)|
    requires forall x :: x in a <==> x in b || x in Lacking(ids, b)[..n]
    ensures Lacking(ids, a) == Lacking(ids, b)[n..]
  {
    var all := Lacking(ids, b);
    if n == |all| {
      assert all[..n] == all;
      NothingLacking(ids, a);
    } else {
      var k := |ids| - 1;
      var front := Lacking(ids[..k], b);
      assert ids == ids[..k] + [ids[k]];
      assert all[..n] == front[..n];
      LackingRest(ids[..k], a, b, n);
      if ids[k] !in ids[..k] {
        assert forall x :: x in front[..n] ==> x in front;
        assert ids[k] in a <==> ids[k] in b;
      }
    }
  }

  lemma KnowsMore(a: seq<TaskId>, b: seq<TaskId>, more: seq<TaskId>)
    requires Dedup(a) == Dedup(b) + more
    ensures forall x :: x in a <==> x in b || x in more
  {
    hide Dedup;
    forall x ensures x in a <==> x in b || x in more {
      assert x in a <==> x in Dedup(a);
      assert x in b <==> x in Dedup(b);
    }
  }

  lemma AheadIsSame(a: seq<TaskId>, b: seq<TaskId>, ids: seq<TaskId>, n: nat)
    requires Ahead(a, b, ids, n)
    ensures Dedup(a + ids) == Dedup(b + ids)
  {
    hide Dedup, Lacking;
    DedupAppends(a, ids);
    DedupAppends(b, ids);
    var lacking := Lacking(ids, b);
    KnowsMore(a, b, lacking[..n]);
    LackingRest(ids, a, b, n);
    assert lacking == lacking[..n] + lacking[n..];
    Regroup(Dedup(b), lacking[..n], lacking[n..]);
  }

  lemma SameIsAhead(a: seq<TaskId>, b: seq<TaskId>, ids: seq<TaskId>)
    requires Dedup(a + ids) == Dedup(b + ids) && |Dedup(a)| >= |Dedup(b)|
    ensures Ahead(a, b, ids, |Dedup(a)| - |Dedup(b)|)
  {
    DedupAppends(a, ids);
    DedupAppends(b, ids);
    hide Dedup, Lacking;
    LongerFront(Dedup(a), Lacking(ids, a), Dedup(b), Lacking(ids, b));
  }

  lemma RegisteringSame(a: seq<TaskId>, b: seq<TaskId>, ids: seq<TaskId>)
    ensures Dedup(a + ids) == Dedup(b + ids) <==> DifferByRegistering(a, b, ids)
  {
    hide Ahead;
    if Dedup(a + ids) == Dedup(b + ids) {
      if |Dedup(a)| >= |Dedup(b)| { SameIsAhead(a, b, ids); } else { SameIsAhead(b, a, ids); }
    }
    if DifferByRegistering(a, b, ids) {
      var n :| Ahead(a, b, ids, n) || Ahead(b, a, ids, n);
      if Ahead(a, b, ids, n) { AheadIsSame(a, b, ids, n); } else { AheadIsSame(b, a, ids, n); }
    }
  }

  // ---------- The lag in lists without repeats ----------

  lemma {:induction false} DedupOfProper(s: seq<TaskId>)
    requires NoRepeats(s)
    ensures Dedup(s) == s
  {
    if s != [] {
      DedupOfProper(s[..|s| - 1]);
      assert s == s[..|s| - 1] + [s[|s| - 1]];
    }
  }

  /** Of lists without repeats one is the other followed by the first few ids it lacks, whatever these are. */
  lemma RegisteringLag(a: seq<TaskId>, b: seq<TaskId>, ids: seq<TaskId>)
    requires NoRepeats(a) && NoRepeats(b)
    ensures DifferByRegistering(a, b, ids) <==>
              exists n: nat ::
                || (n <= |Lacking(ids, b)| && a == b + Lacking(ids, b)[..n])
                || (n <= |Lacking(ids, a)| && b == a + Lacking(ids, a)[..n])
  {
    DedupOfProper(a);
    DedupOfProper(b);
    hide Dedup, Lacking;
    forall n: nat
      ensures Ahead(a, b, ids, n) <==> n <= |Lacking(ids, b)| && a == b + Lacking(ids, b)[..n]
      ensures Ahead(b, a, ids, n) <==> n <= |Lacking(ids, a)| && b == a + Lacking(ids, a)[..n]
    {}
    hide Ahead;
  }

  /** s is the list `others`, with id put in somewhere or not at all. */
  ghost predicate PerhapsWith(s: seq<TaskId>, others: seq<TaskId>, id: TaskId) {
    s == others || exists k: nat :: InsertedAt(s, others, id, k)
  }

  ghost predicate InsertedAt(s: seq<TaskId>, others: seq<TaskId>, id: TaskId, k: nat) {
    k <= |others| && s == others[..k] + [id] + others[k..]
  }

  /** Of lists without repeats, both are one list without the task, with the task put in somewhere or not at all. */
  lemma SettlingLag(a: seq<TaskId>, b: seq<TaskId>, id: TaskId)
    requires NoRepeats(a) && NoRepeats(b)
    ensures SameOthers(a, b, id) <==>
              exists others :: id !in others && PerhapsWith(a, others, id) && PerhapsWith(b, others, id)
  {
    hide Without, PerhapsWith, NoRepeats;
    if SameOthers(a, b, id) {
      OthersAre(a, id);
      OthersAre(b, id);
      assert id !in Without(a, id) && PerhapsWith(a, Without(a, id), id) && PerhapsWith(b, Without(a, id), id);
    }
    if others :| id !in others && PerhapsWith(a, others, id) && PerhapsWith(b, others, id) {
      OthersOnly(a, others, id);
      OthersOnly(b, others, id);
    }
  }

  lemma {:induction false} WithoutAbsent(s: seq<TaskId>, id: TaskId)
    requires id !in s
    ensures Without(s, id) == s
  {
    if s != [] {
      WithoutAbsent(s[..|s| - 1], id);
      assert s == s[..|s| - 1] + [s[|s| - 1]];
    }
  }

  lemma {:induction false} WithoutAppend(s: seq<TaskId>, t: seq<TaskId>, id: TaskId)
    ensures Without(s + t, id) == Without(s, id) + Without(t, id)
  {
    if t == [] {
      assert s + t == s;
    } else {
      var n := |t| - 1;
      WithoutAppend(s, t[..n], id);
      assert (s + t)[..|s| + n] == s + t[..n] && (s + t)[|s| + n] == t[n];
    }
  }

  lemma WithoutInserted(s: seq<TaskId>, others: seq<TaskId>, id: TaskId, k: nat)
    requires id !in others && InsertedAt(s, others, id, k)
    ensures Without(s, id) == others
  {
    WithoutAppend(others[..k] + [id], others[k..], id);
    WithoutAppend(others[..k], [id], id);
    WithoutAbsent(others[..k], id);
    WithoutAbsent(others[k..], id);
    assert Without([id], id) == [] by { assert [id][..0] == []; }
    assert others[..k] + others[k..] == others;
  }

  lemma OthersOnly(s: seq<TaskId>, others: seq<TaskId>, id: TaskId)
    requires id !in others && PerhapsWith(s, others, id)
    ensures Without(s, id) == others
  {
    hide Without;
    if s == others {
      WithoutAbsent(s, id);
    } else {
      var k :| InsertedAt(s, others, id, k);
      WithoutInserted(s, others, id, k);
    }
  }

  lemma OthersAre(s: seq<TaskId>, id: TaskId)
    requires NoRepeats(s)
    ensures PerhapsWith(s, Without(s, id), id)
  {
    hide Without;
    if id !in s {
      WithoutAbsent(s, id);
    } else {
      var k :| 0 <= k < |s| && s[k] == id;
      var others := TakenOut(s, id, k);
      WithoutInserted(s, others, id, k);
    }
  }

  lemma TakenOut(s: seq<TaskId>, id: TaskId, k: nat) returns (others: seq<TaskId>)
    requires NoRepeats(s) && k < |s| && s[k] == id
    ensures id !in others && InsertedAt(s, others, id, k)
  {
    others := s[..k] + s[k + 1..];
    assert others[..k] == s[..k] && others[k..] == s[k + 1..];
  }

  /** A state just read from the disk does not lag. */
  lemma FreshIsHarmless(m: Mutation, disk: Persisted)
    ensures Harmless(m, disk, disk)
  {
    StaleEffect(m, disk, disk);
    hide Dedup, Without, Including, Harmless;
  }

  // ---------- What survives ----------

  /** Task ids stay pairwise different in each list. */
  ghost predicate Proper(d: Persisted) {
    NoRepeats(d.pending) && NoRepeats(d.completed) && NoRepeats(d.failed)
  }

  lemma {:induction false} DedupProper(s: seq<TaskId>)
    ensures NoRepeats(Dedup(s))
  {
    if s != [] {
      var r := Dedup(s[..|s| - 1]);
      DedupProper(s[..|s| - 1]);
      assert forall p :: 0 <= p < |r| ==> r[p] in r;
    }
  }

  lemma {:induction false} WithoutProper(s: seq<TaskId>, id: TaskId)
    requires NoRepeats(s)
    ensures NoRepeats(Without(s, id))
  {
    if s != [] {
      var n := |s| - 1;
      var r := Without(s[..n], id);
      WithoutProper(s[..n], id);
      assert forall p :: 0 <= p < |r| ==> r[p] in r;
    }
  }

  lemma ApplyProper(m: Mutation, d: Persisted)
    requires Proper(d)
    ensures Proper(Apply(m, d))
  {
    match m {
      case RegisterPending(ids) => DedupProper(d.pending + ids);
      case CompleteTask(id) => WithoutProper(d.pending, id);
      case FailTask(id, _) => WithoutProper(d.pending, id);
      case _ =>
    }
  }

  /** The mutation that decides whether a task is pending: the last one that names it. */
  ghost predicate Registers(m: Mutation, id: TaskId) { m.RegisterPending? && id in m.ids }
  ghost predicate Settles(m: Mutation, id: TaskId) { (m.CompleteTask? || m.FailTask?) && m.id == id }

  /**
   * After any series of mutations a task is completed exactly when it was at the start or some
   * CompleteTask named it.
   */
  lemma {:induction false} CompletedExactly(ms: seq<Mutation>, d: Persisted, id: TaskId)
    ensures id in ApplyAll(ms, d).completed <==> id in d.completed || CompleteTask(id) in ms
  {
    if ms != [] {
      var n := |ms| - 1;
      CompletedExactly(ms[..n], d, id);
      assert ms == ms[..n] + [ms[n]];
    }
  }

  /** And failed exactly when it was at the start or some FailTask named it. */
  lemma {:induction false} FailedExactly(ms: seq<Mutation>, d: Persisted, id: TaskId)
    ensures id in ApplyAll(ms, d).failed <==> id in d.failed || exists m :: m in ms && m.FailTask? && m.id == id
  {
    if ms != [] {
      var n := |ms| - 1;
      FailedExactly(ms[..n], d, id);
      assert ms == ms[..n] + [ms[n]];
    }
  }

  /** ms[k] is the last mutation that sets the sampled points. */
  ghost predicate LastSampling(ms: seq<Mutation>, k: nat) {
    k < |ms| && ms[k].SetSampledPoints? && forall l :: k < l < |ms| ==> !ms[l].SetSampledPoints?
  }

  /** The sampled points are those set last, or those of the first state if none were set. */
  lemma {:induction false} SampledPointsAreLast(ms: seq<Mutation>, d: Persisted, k: nat)
    ensures LastSampling(ms, k) ==> ApplyAll(ms, d).sampledPoints == ms[k].points
    ensures (forall l :: 0 <= l < |ms| ==> !ms[l].SetSampledPoints?) ==>
              ApplyAll(ms, d).sampledPoints == d.sampledPoints
  {
    if ms != [] {
      var n := |ms| - 1;
      SampledPointsAreLast(ms[..n], d, k);
      if LastSampling(ms, k) && k < n { assert LastSampling(ms[..n], k); }
    }
  }

  /** ms[k] is the first failed task of the series that gives a reason. */
  ghost predicate FirstReason(ms: seq<Mutation>, k: nat) {
    && k < |ms| && ms[k].FailTask? && ms[k].reason != ""
    && forall l :: 0 <= l < k ==> !(ms[l].FailTask? && ms[l].reason != "")
  }

  /** Unless the campaign is marked failed, its failure reason is the first one a failed task gave. */
  lemma {:induction false} FirstReasonStays(ms: seq<Mutation>, d: Persisted, k: nat)
    requires forall m :: m in ms ==> !m.MarkFailed?
    ensures d.failureReason.Some? && d.failureReason.value != "" ==> ApplyAll(ms, d).failureReason == d.failureReason
    ensures !(d.failureReason.Some? && d.failureReason.value != "") && FirstReason(ms, k) ==>
              ApplyAll(ms, d).failureReason == Some(ms[k].reason)
    ensures (forall l :: 0 <= l < |ms| ==> !(ms[l].FailTask? && ms[l].reason != "")) ==>
              ApplyAll(ms, d).failureReason == d.failureReason
  {
    if ms != [] {
      var n := |ms| - 1;
      assert forall m :: m in ms[..n] ==> m in ms;
      assert ms[n] in ms;
      FirstReasonStays(ms[..n], d, k);
      if FirstReason(ms, k) && k < n { assert FirstReason(ms[..n], k); }
      ReasonAfter(ms[n], ApplyAll(ms[..n], d));
      hide Apply;
    }
  }

  lemma ReasonAfter(m: Mutation, d: Persisted)
    requires !m.MarkFailed?
    ensures Apply(m, d).failureReason ==
              if m.FailTask? && m.reason != "" && (d.failureReason.None? || d.failureReason.value == "")
              then Some(m.reason) else d.failureReason
  {
    hide Dedup, Without, Including;
  }

  ghost predicate NoneSettles(ms: seq<Mutation>, from: nat, id: TaskId) {
    forall l :: from <= l < |ms| ==> !Settles(ms[l], id)
  }

  /** ms[k] registers id and nothing after it settles id. */
  ghost predicate RegisteredLast(ms: seq<Mutation>, k: nat, id: TaskId) {
    k < |ms| && Registers(ms[k], id) && NoneSettles(ms, k + 1, id)
  }

  lemma RegisteredLastExtends(ms: seq<Mutation>, k: nat, id: TaskId)
    requires ms != [] && k < |ms| - 1
    ensures RegisteredLast(ms, k, id) <==> RegisteredLast(ms[..|ms| - 1], k, id) && !Settles(ms[|ms| - 1], id)
  {
    var prev := ms[..|ms| - 1];
    assert prev[k] == ms[k];
    if RegisteredLast(prev, k, id) && !Settles(ms[|ms| - 1], id) {
      forall l | k + 1 <= l < |ms| ensures !Settles(ms[l], id) {
        assert l < |prev| ==> prev[l] == ms[l];
      }
    }
  }

  /** It is pending exactly when, of the mutations naming it, the last one registered it. */
  lemma {:induction false} PendingExactly(ms: seq<Mutation>, d: Persisted, id: TaskId)
    ensures id in ApplyAll(ms, d).pending <==>
            (exists k :: RegisteredLast(ms, k, id)) || (id in d.pending && NoneSettles(ms, 0, id))
  {
    if ms != [] {
      var n := |ms| - 1;
      var prev := ms[..n];
      PendingExactly(prev, d, id);
      forall k: nat | k < n
        ensures RegisteredLast(ms, k, id) <==> RegisteredLast(prev, k, id) && !Settles(ms[n], id)
      {
        RegisteredLastExtends(ms, k, id);
      }
      assert Registers(ms[n], id) <==> RegisteredLast(ms, n, id);
      assert NoneSettles(ms, 0, id) <==> NoneSettles(prev, 0, id) && !Settles(ms[n], id) by {
        if NoneSettles(prev, 0, id) && !Settles(ms[n], id) {
          forall l | 0 <= l < |ms| ensures !Settles(ms[l], id) { assert l < n ==> prev[l] == ms[l]; }
        }
      }
      hide RegisteredLast, NoneSettles;
      LastDecides(ms[n], ApplyAll(prev, d), id);
    }
  }

  lemma LastDecides(m: Mutation, d: Persisted, id: TaskId)
    ensures id in Apply(m, d).pending <==> Registers(m, id) || (id in d.pending && !Settles(m, id))
  {}

  // ---------- One store instance over a disk ----------

  class Disk {
    var state: Persisted

    constructor (initial: Persisted)
      ensures state == initial
    {
      state := initial;
    }
  }

  /** How readFile ends: read, a transient EBUSY or EMFILE, or any other error. */
  datatype Read = Readable | Busy | Broken

  class CampaignStateStore {
    const disk: Disk
    var state: Persisted

    /** CampaignStateStore.load */
    constructor (disk: Disk)
      ensures this.disk == disk && state == disk.state
    {
      this.disk := disk;
      this.state := disk.state;
    }

    /** A busy file silently keeps the state in memory. */
    method Reload(read: Read) returns (ok: bool)
      modifies this
      ensures ok <==> read != Broken
      ensures state == if read == Readable then disk.state else old(state)
    {
      if read == Readable { state := disk.state; }
      ok := read != Broken;
    }

    method WriteState()
      modifies disk
      ensures disk.state == state
    {
      disk.state := state;
    }

    /**
     * The reload-first mutations, run under the lock: what reaches the disk is the mutation of what
     * was on it, however stale this instance was, unless the file was busy.
     */
    method Mutate(m: Mutation, read: Read) returns (ok: bool)
      requires !m.TransitionPhase?
      modifies this, disk
      ensures ok <==> read != Broken
      ensures read == Broken ==> disk.state == old(disk.state) && state == old(state)
      ensures read == Readable ==> disk.state == state == Apply(m, old(disk.state))
      ensures read == Readable && m.MarkFailed? ==>
                disk.state == if old(disk.state).phase in {Done, Failed} then old(disk.state)
                              else old(disk.state).(phase := Failed, failureReason := Some(m.reason))
      ensures read == Busy && !(m.MarkFailed? && Terminal(old(state).phase)) ==>
                disk.state == state == Apply(m, old(state))
      ensures read == Busy && m.MarkFailed? && Terminal(old(state).phase) ==>
                disk.state == old(disk.state) && state == old(state)
    {
      ok := Reload(read);
      if !ok { return; }
      match m {
        case SetSampledPoints(points) =>
          state := state.(sampledPoints := points);
        case RegisterPending(ids) =>
          state := state.(pending := Dedup(state.pending + ids));
        case CompleteTask(id) =>
          state := state.(pending := Without(state.pending, id));
          if id !in state.completed { state := state.(completed := state.completed + [id]); }
        case FailTask(id, reason) =>
          state := state.(pending := Without(state.pending, id));
          if id !in state.failed { state := state.(failed := state.failed + [id]); }
          if reason != "" && (state.failureReason.None? || state.failureReason.value == "") {
            state := state.(failureReason := Some(reason));
          }
        case MarkFailed(reason) =>
          if Terminal(state.phase) { return; }
          state := state.(phase := Failed, failureReason := Some(reason));
      }
      WriteState();
    }

    /** No reload: checked against, and written from, the state in memory. */
    method Transition(to: CampaignPhase) returns (ok: bool)
      modifies this, disk
      ensures ok <==> to in ValidTransitions(old(state).phase)
      ensures ok ==> disk.state == state == Apply(TransitionPhase(to), old(state))
      ensures !ok ==> disk.state == old(disk.state) && state == old(state)
    {
      if to !in ValidTransitions(state.phase) { return false; }
      state := state.(phase := to);
      WriteState();
      ok := true;
    }
  }
}
