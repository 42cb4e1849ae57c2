/** ContextPager: a budgeted cache of prompt pages with priority tiers, LRU eviction, sticky pages and ageing. */
module ContextPager {
  import opened Sequences
  import opened Sorting

  datatype Priority = Sticky | High | Medium | Low

  datatype Slot = Slot(
    id: string, content: string, tokenEst: nat, priority: Priority,
    ttlTurns: int, remainingTurns: int, checkedOutAt: int)

  datatype DropReason = Oversized | EvictedForRoom
  datatype Drop = Drop(slotId: string, reason: DropReason)

  const MAX_UNDRAINED_DROPS := 64

  // ---------- Slots as a sequence in insertion order ----------

  ghost predicate DistinctIds(slots: seq<Slot>) {
    forall i, j :: 0 <= i < j < |slots| ==> slots[i].id != slots[j].id
  }

  function Total(slots: seq<Slot>): nat {
    if slots == [] then 0 else Total(slots[..|slots| - 1]) + slots[|slots| - 1].tokenEst
  }

  lemma {:induction false} SelectDistinct(slots: seq<Slot>, keep: Slot -> bool)
    requires DistinctIds(slots)
    ensures DistinctIds(Select(slots, keep))
  {
    if slots != [] {
      var n := |slots| - 1;
      SelectDistinct(slots[..n], keep);
      var r := Select(slots[..n], keep);
      forall i | 0 <= i < |r| ensures r[i].id != slots[n].id {
        assert r[i] in r;
      }
    }
  }

  /** Selecting and leaving out split the tokens. */
  lemma {:induction false} SelectSplitsTotal(slots: seq<Slot>, keep: Slot -> bool, drop: Slot -> bool)
    requires forall s :: s in slots ==> keep(s) != drop(s)
    ensures Total(Select(slots, keep)) + Total(Select(slots, drop)) == Total(slots)
  {
    if slots != [] {
      var n := |slots| - 1;
      assert slots == slots[..n] + [slots[n]];
      SelectSplitsTotal(slots[..n], keep, drop);
      AppendTotal(Select(slots[..n], keep), slots[n]);
      AppendTotal(Select(slots[..n], drop), slots[n]);
      assert keep(slots[n]) != drop(slots[n]);
    }
  }

  lemma AppendTotal(slots: seq<Slot>, s: Slot)
    ensures Total(slots + [s]) == Total(slots) + s.tokenEst
  {
    assert (slots + [s])[..|slots|] == slots;
  }

  lemma SplitAt<T>(b: seq<T>, p: nat)
    requires p < |b|
    ensures b == b[..p] + [b[p]] + b[p + 1..]
  {}

  lemma AppendEnd<T>(a: seq<T>, b: seq<T>, x: T)
    ensures a + (b + [x]) == (a + b) + [x]
  {}

  lemma {:induction false} ConcatTotal(a: seq<Slot>, b: seq<Slot>)
    ensures Total(a + b) == Total(a) + Total(b)
  {
    if b == [] {
      assert a + b == a;
    } else {
      var n := |b| - 1;
      var last := b[n];
      ConcatTotal(a, b[..n]);
      assert b == b[..n] + [last];
      hide Total;
      AppendEnd(a, b[..n], last);
      AppendTotal(b[..n], last);
      AppendTotal(a + b[..n], last);
    }
  }

  lemma TotalAround(x: seq<Slot>, s: Slot, y: seq<Slot>)
    ensures Total(x + [s] + y) == Total(x + y) + s.tokenEst
  {
    hide Total;
    ConcatTotal(x, y);
    AppendTotal(x, s);
    ConcatTotal(x + [s], y);
  }

  lemma TotalWithout(b: seq<Slot>, p: nat)
    requires p < |b|
    ensures Total(b) == Total(b[..p] + b[p + 1..]) + b[p].tokenEst
  {
    hide Total;
    SplitAt(b, p);
    TotalAround(b[..p], b[p], b[p + 1..]);
  }

  lemma {:induction false} TotalOfPermutation(a: seq<Slot>, b: seq<Slot>)
    requires multiset(a) == multiset(b)
    ensures Total(a) == Total(b)
  {
    if a == [] {
      PermutationOfNone(b);
    } else {
      var p := TakeOne(a, b);
      TotalOfPermutation(a[..|a| - 1], b[..p] + b[p + 1..]);
      TotalWithout(b, p);
    }
  }

  function NotId(id: string): Slot -> bool { (s: Slot) => s.id != id }
  function IsPriority(p: Priority): Slot -> bool { (s: Slot) => s.priority == p }

  function Without(slots: seq<Slot>, id: string): seq<Slot> { Select(slots, NotId(id)) }

  /** _stickyTokens */
  function StickyTotal(slots: seq<Slot>, excludeId: string): nat {
    Total(Select(slots, (s: Slot) => s.id != excludeId && s.priority == Sticky))
  }

  // ---------- Eviction order ----------

  function ByAge(): (Slot, Slot) -> bool { (a: Slot, b: Slot) => a.checkedOutAt <= b.checkedOutAt }

  function Candidates(slots: seq<Slot>, p: Priority): seq<Slot> {
    StableSort(Select(slots, IsPriority(p)), ByAge())
  }

  /** Everything evictable: low before medium before high, oldest first within a tier. */
  function EvictionOrder(slots: seq<Slot>): seq<Slot> {
    Candidates(slots, Low) + Candidates(slots, Medium) + Candidates(slots, High)
  }

  function Rank(p: Priority): nat {
    match p
    case Sticky => 0
    case High => 1
    case Medium => 2
    case Low => 3
  }

  /** Tier p is below tier q. */
  ghost predicate Below(p: Priority, q: Priority) {
    match q
    case Low => false
    case Medium => p == Low
    case High => p == Low || p == Medium
    case Sticky => p != Sticky
  }

  /** a may go no later than b: it is of a lower tier, or of the same tier and not younger. */
  ghost predicate GoesFirst(a: Slot, b: Slot) {
    Below(a.priority, b.priority) || (a.priority == b.priority && a.checkedOutAt <= b.checkedOutAt)
  }

  /** The pages of one tier checked out at one time. */
  ghost function CheckedOut(p: Priority, at: int): Slot -> bool {
    (s: Slot) => s.priority == p && s.checkedOutAt == at
  }

  lemma SelectNone(slots: seq<Slot>, f: Slot -> bool)
    requires forall s :: s in slots ==> !f(s)
    ensures Select(slots, f) == []
    decreases |slots|
  {
    assert Select(slots, f) != [] ==> Select(slots, f)[0] in Select(slots, f);
  }

  lemma CandidatesStable(slots: seq<Slot>, p: Priority, q: Priority, at: int)
    ensures Select(Candidates(slots, q), CheckedOut(p, at)) == if p == q then Select(slots, CheckedOut(p, at)) else []
  {
    CandidatesMembers(slots, q);
    if p == q {
      SortIsStable(Select(slots, IsPriority(p)), ByAge(), CheckedOut(p, at));
      SelectTwice(slots, IsPriority(p), CheckedOut(p, at), CheckedOut(p, at));
    } else {
      SelectNone(Candidates(slots, q), CheckedOut(p, at));
    }
  }

  /** Pages of one tier and age are evicted in the order they were put in. */
  lemma EvictionOrderIsStable(slots: seq<Slot>, p: Priority, at: int)
    requires p != Sticky
    ensures Select(EvictionOrder(slots), CheckedOut(p, at)) == Select(slots, CheckedOut(p, at))
  {
    CandidatesStable(slots, p, Low, at);
    CandidatesStable(slots, p, Medium, at);
    CandidatesStable(slots, p, High, at);
    var low, medium, high := Candidates(slots, Low), Candidates(slots, Medium), Candidates(slots, High);
    hide Candidates, Select;
    SelectAppend(low + medium, high, CheckedOut(p, at));
    SelectAppend(low, medium, CheckedOut(p, at));
  }

  lemma CandidatesMembers(slots: seq<Slot>, p: Priority)
    ensures multiset(Candidates(slots, p)) == multiset(Select(slots, IsPriority(p)))
    ensures forall s :: s in Candidates(slots, p) <==> s in slots && s.priority == p
    ensures forall i, j :: 0 <= i < j < |Candidates(slots, p)| ==>
              Candidates(slots, p)[i].checkedOutAt <= Candidates(slots, p)[j].checkedOutAt
  {
    var tier, c := Select(slots, IsPriority(p)), Candidates(slots, p);
    SortMultiset(tier, ByAge());
    SortSorted(tier, ByAge());
    SortMembers(tier, ByAge());
    hide StableSort, Select;
    forall i, j | 0 <= i < j < |c| ensures c[i].checkedOutAt <= c[j].checkedOutAt {
      assert ByAge()(c[i], c[j]);
    }
  }

  lemma ConcatOrdered(a: seq<Slot>, b: seq<Slot>)
    requires forall i, j :: 0 <= i < j < |a| ==> GoesFirst(a[i], a[j])
    requires forall i, j :: 0 <= i < j < |b| ==> GoesFirst(b[i], b[j])
    requires forall s, t :: s in a && t in b ==> GoesFirst(s, t)
    ensures forall i, j :: 0 <= i < j < |a + b| ==> GoesFirst((a + b)[i], (a + b)[j])
    ensures forall s :: s in a + b <==> s in a || s in b
  {
    hide GoesFirst;
    assert forall i :: 0 <= i < |a| ==> a[i] in a;
    assert forall i :: 0 <= i < |b| ==> b[i] in b;
  }

  lemma CandidatesOrdered(slots: seq<Slot>, p: Priority)
    ensures forall s :: s in Candidates(slots, p) <==> s in slots && s.priority == p
    ensures forall i, j :: 0 <= i < j < |Candidates(slots, p)| ==>
              GoesFirst(Candidates(slots, p)[i], Candidates(slots, p)[j])
  {
    CandidatesMembers(slots, p);
    hide Candidates;
    var c := Candidates(slots, p);
    assert forall i :: 0 <= i < |c| ==> c[i] in c;
  }

  /**
   * The eviction order holds exactly the non-sticky slots, and nobody goes before a lower-tier or
   * older same-tier slot.
   */
  lemma EvictionOrderIsTierThenAge(slots: seq<Slot>)
    ensures forall s :: s in EvictionOrder(slots) <==> s in slots && s.priority != Sticky
    ensures forall i, j :: 0 <= i < j < |EvictionOrder(slots)| ==>
              GoesFirst(EvictionOrder(slots)[i], EvictionOrder(slots)[j])
  {
    CandidatesOrdered(slots, Low);
    CandidatesOrdered(slots, Medium);
    CandidatesOrdered(slots, High);
    hide Candidates;
    var a, b, c := Candidates(slots, Low), Candidates(slots, Medium), Candidates(slots, High);
    ConcatOrdered(a, b);
    ConcatOrdered(a + b, c);
  }

  // ---------- Drops ----------

  /** _recordDrop: the oldest undrained record makes way at the cap. */
  function Recorded(drops: seq<Drop>, d: Drop): seq<Drop> {
    (if |drops| >= MAX_UNDRAINED_DROPS then drops[1..] else drops) + [d]
  }

  ghost function RecordedAll(drops: seq<Drop>, victims: seq<Slot>): seq<Drop> {
    if victims == [] then drops
    else Recorded(RecordedAll(drops, victims[..|victims| - 1]), Drop(victims[|victims| - 1].id, EvictedForRoom))
  }

  lemma RecordedOneMore(drops: seq<Drop>, victims: seq<Slot>, k: nat)
    requires k < |victims|
    ensures RecordedAll(drops, victims[..k + 1]) ==
              Recorded(RecordedAll(drops, victims[..k]), Drop(victims[k].id, EvictedForRoom))
  {
    assert victims[..k + 1][..k] == victims[..k];
  }

  ghost function Evictions(victims: seq<Slot>): (ds: seq<Drop>)
    ensures |ds| == |victims| && forall i :: 0 <= i < |ds| ==> ds[i] == Drop(victims[i].id, EvictedForRoom)
  {
    seq(|victims|, i requires 0 <= i < |victims| => Drop(victims[i].id, EvictedForRoom))
  }

  ghost function LastOnes(drops: seq<Drop>): seq<Drop> {
    if |drops| > 64 then drops[|drops| - 64..] else drops
  }

  lemma RecordOne(all: seq<Drop>, d: Drop)
    ensures Recorded(LastOnes(all), d) == LastOnes(all + [d])
  {}

  /** Every eviction is recorded, in order; only the 64 newest records are kept. */
  lemma {:induction false} EvictionsAreRecorded(drops: seq<Drop>, victims: seq<Slot>)
    requires |drops| <= MAX_UNDRAINED_DROPS
    ensures RecordedAll(drops, victims) == LastOnes(drops + Evictions(victims))
  {
    if victims == [] {
      assert drops + Evictions(victims) == drops;
    } else {
      var n := |victims| - 1;
      EvictionsAreRecorded(drops, victims[..n]);
      var d := Drop(victims[n].id, EvictedForRoom);
      RecordOne(drops + Evictions(victims[..n]), d);
      assert drops + Evictions(victims) == drops + Evictions(victims[..n]) + [d];
    }
  }

  // ---------- What one eviction removes ----------

  ghost function NotAmong(victims: seq<Slot>): Slot -> bool { (s: Slot) => s !in victims }

  /** Slots left after the first k of the eviction order have gone. */
  ghost function After(slots: seq<Slot>, k: nat): seq<Slot>
    requires k <= |EvictionOrder(slots)|
  {
    Select(slots, NotAmong(EvictionOrder(slots)[..k]))
  }

  ghost predicate Fits(slots: seq<Slot>, needed: nat, maxBudget: int) { Total(slots) + needed <= maxBudget }

  /** The shortest prefix of the eviction order that makes room; all of it if none does. */
  ghost predicate Evicts(slots: seq<Slot>, needed: nat, maxBudget: int, k: nat) {
    && k <= |EvictionOrder(slots)|
    && (forall j :: 0 <= j < k ==> !Fits(After(slots, j), needed, maxBudget))
    && (k < |EvictionOrder(slots)| ==> Fits(After(slots, k), needed, maxBudget))
  }

  // ---------- Composing selections ----------

  lemma {:induction false} SelectTwice(slots: seq<Slot>, f: Slot -> bool, g: Slot -> bool, h: Slot -> bool)
    requires forall s :: s in slots ==> h(s) == (f(s) && g(s))
    ensures Select(Select(slots, f), g) == Select(slots, h)
  {
    if slots != [] {
      var n := |slots| - 1;
      assert slots == slots[..n] + [slots[n]];
      SelectTwice(slots[..n], f, g, h);
      if f(slots[n]) {
        var r := Select(slots[..n], f) + [slots[n]];
        assert r[..|r| - 1] == Select(slots[..n], f);
      }
    }
  }

  lemma SelectAll(slots: seq<Slot>, f: Slot -> bool)
    requires forall s :: s in slots ==> f(s)
    ensures Select(slots, f) == slots
    decreases |slots|
  {
    if slots != [] {
      var n := |slots| - 1;
      assert slots == slots[..n] + [slots[n]];
      SelectAll(slots[..n], f);
    }
  }

  lemma AfterNone(slots: seq<Slot>)
    ensures After(slots, 0) == slots
  {
    SelectAll(slots, NotAmong([]));
    assert EvictionOrder(slots)[..0] == [];
  }

  ghost predicate SameIdSameSlot(slots: seq<Slot>) {
    forall s, t :: s in slots && t in slots && s.id == t.id ==> s == t
  }

  lemma DistinctMeansSame(slots: seq<Slot>)
    requires DistinctIds(slots)
    ensures SameIdSameSlot(slots)
  {}

  /** Deleting the next one in eviction order. */
  lemma AfterOneMore(slots: seq<Slot>, k: nat)
    requires DistinctIds(slots) && k < |EvictionOrder(slots)|
    ensures Without(After(slots, k), EvictionOrder(slots)[k].id) == After(slots, k + 1)
  {
    var order := EvictionOrder(slots);
    var victim := order[k];
    assert order[..k + 1] == order[..k] + [victim];
    DistinctMeansSame(slots);
    EvictionOrderIsTierThenAge(slots);
    assert victim in order;
    hide Select, EvictionOrder;
    SelectTwice(slots, NotAmong(order[..k]), NotId(victim.id), NotAmong(order[..k + 1]));
  }

  ghost function TierStart(slots: seq<Slot>, p: Priority): nat {
    match p
    case Medium => |Candidates(slots, Low)|
    case High => |Candidates(slots, Low)| + |Candidates(slots, Medium)|
    case _ => 0
  }

  /** Where the middle one of three joined sequences stands. */
  lemma MiddleSlice<T>(a: seq<T>, b: seq<T>, c: seq<T>)
    ensures |a| + |b| <= |a + b + c| && (a + b + c)[..|a|] == a
    ensures forall i :: 0 <= i < |b| ==> (a + b + c)[|a| + i] == b[i]
  {}

  lemma TierPrefixOf(slots: seq<Slot>, p: Priority, before: seq<Slot>, after: seq<Slot>)
    requires EvictionOrder(slots) == before + Candidates(slots, p) + after && TierStart(slots, p) == |before|
    requires forall s :: s in before ==> s.priority != p
    ensures TierStart(slots, p) + |Candidates(slots, p)| <= |EvictionOrder(slots)|
    ensures forall i :: 0 <= i < |Candidates(slots, p)| ==>
              EvictionOrder(slots)[TierStart(slots, p) + i] == Candidates(slots, p)[i]
    ensures forall s :: s in EvictionOrder(slots)[..TierStart(slots, p)] ==> s.priority != p
  {
    hide *;
    MiddleSlice(before, Candidates(slots, p), after);
  }

  lemma LowerTiers(slots: seq<Slot>)
    ensures forall s :: s in Candidates(slots, Low) + Candidates(slots, Medium) ==> s.priority != High
  {
    CandidatesMembers(slots, Low);
    CandidatesMembers(slots, Medium);
    hide Candidates;
  }

  lemma LowestFirst<T>(a: seq<T>, b: seq<T>, c: seq<T>)
    ensures a + b + c == [] + a + (b + c)
  {}

  lemma HighestLast<T>(x: seq<T>)
    ensures x == x + []
  {}

  /** What goes before a tier, and that it is of other tiers. */
  lemma BeforeTier(slots: seq<Slot>, p: Priority) returns (before: seq<Slot>, after: seq<Slot>)
    requires p != Sticky
    ensures EvictionOrder(slots) == before + Candidates(slots, p) + after && TierStart(slots, p) == |before|
    ensures forall s :: s in before ==> s.priority != p
  {
    var low, medium, high := Candidates(slots, Low), Candidates(slots, Medium), Candidates(slots, High);
    hide Candidates;
    match p {
      case Low =>
        before, after := [], medium + high;
        LowestFirst(low, medium, high);
      case Medium =>
        before, after := low, high;
        CandidatesMembers(slots, Low);
      case High =>
        before, after := low + medium, [];
        HighestLast(low + medium + high);
        LowerTiers(slots);
    }
  }

  lemma TierPrefix(slots: seq<Slot>, p: Priority)
    requires p != Sticky
    ensures TierStart(slots, p) + |Candidates(slots, p)| <= |EvictionOrder(slots)|
    ensures forall i :: 0 <= i < |Candidates(slots, p)| ==>
              EvictionOrder(slots)[TierStart(slots, p) + i] == Candidates(slots, p)[i]
    ensures forall s :: s in EvictionOrder(slots)[..TierStart(slots, p)] ==> s.priority != p
  {
    hide *;
    var before, after := BeforeTier(slots, p);
    TierPrefixOf(slots, p, before, after);
  }

  /** While earlier tiers are being evicted a tier's own candidates stay what they were. */
  lemma TierUntouched(slots: seq<Slot>, p: Priority)
    requires p != Sticky
    ensures TierStart(slots, p) + |Candidates(slots, p)| <= |EvictionOrder(slots)|
    ensures Candidates(After(slots, TierStart(slots, p)), p) == Candidates(slots, p)
    ensures forall i :: 0 <= i < |Candidates(slots, p)| ==>
              EvictionOrder(slots)[TierStart(slots, p) + i] == Candidates(slots, p)[i]
  {
    TierPrefix(slots, p);
    hide Select, Candidates, EvictionOrder, TierStart;
    TierSelection(slots, EvictionOrder(slots)[..TierStart(slots, p)], p);
  }

  lemma TierSelection(slots: seq<Slot>, before: seq<Slot>, p: Priority)
    requires forall s :: s in before ==> s.priority != p
    ensures Candidates(Select(slots, NotAmong(before)), p) == Candidates(slots, p)
  {
    SelectTwice(slots, NotAmong(before), IsPriority(p), IsPriority(p));
  }

  // ---------- Budget ----------

  /** Within budget, or nothing but sticky pages. */
  ghost predicate Budgeted(slots: seq<Slot>, maxBudget: int) {
    Total(slots) <= maxBudget || forall s :: s in slots ==> s.priority == Sticky
  }

  lemma SelectTotal(slots: seq<Slot>, keep: Slot -> bool)
    ensures Total(Select(slots, keep)) <= Total(slots)
  {
    SelectSplitsTotal(slots, keep, (s: Slot) => !keep(s));
  }

  lemma SelectKeepsBudgeted(slots: seq<Slot>, keep: Slot -> bool, maxBudget: int)
    requires Budgeted(slots, maxBudget)
    ensures Budgeted(Select(slots, keep), maxBudget)
  {
    SelectTotal(slots, keep);
  }

  /** After an eviction the new page fits, or only sticky pages are left. */
  lemma EvictionMakesRoom(slots: seq<Slot>, needed: nat, maxBudget: int, k: nat)
    requires Evicts(slots, needed, maxBudget, k)
    ensures Fits(After(slots, k), needed, maxBudget) || forall s :: s in After(slots, k) ==> s.priority == Sticky
  {
    EvictionOrderIsTierThenAge(slots);
    hide EvictionOrder;
    if k == |EvictionOrder(slots)| {
      assert EvictionOrder(slots)[..k] == EvictionOrder(slots);
    }
  }

  /** Sticky pages are never evicted. */
  lemma StickySurvive(slots: seq<Slot>, k: nat, s: Slot)
    requires k <= |EvictionOrder(slots)| && s in slots && s.priority == Sticky
    ensures s in After(slots, k)
  {
    EvictionOrderIsTierThenAge(slots);
    hide EvictionOrder;
  }

  /** Putting the last victim back would overflow: nothing is evicted needlessly. */
  lemma LastVictimWouldOverflow(slots: seq<Slot>, needed: nat, maxBudget: int, k: nat)
    requires DistinctIds(slots) && Evicts(slots, needed, maxBudget, k) && k > 0
    ensures Total(After(slots, k)) + EvictionOrder(slots)[k - 1].tokenEst + needed > maxBudget
  {
    hide After, EvictionOrder, DistinctIds, Without;
    AfterOneMore(slots, k - 1);
    VictimInOrder(slots, k - 1);
    assert !Fits(After(slots, k - 1), needed, maxBudget);
  }

  lemma VictimInOrder(slots: seq<Slot>, k: nat)
    requires DistinctIds(slots) && k < |EvictionOrder(slots)|
    ensures Total(After(slots, k)) <=
              Total(Without(After(slots, k), EvictionOrder(slots)[k].id)) + EvictionOrder(slots)[k].tokenEst
  {
    var order := EvictionOrder(slots);
    EvictionOrderIsTierThenAge(slots);
    assert order[k] in order;
    hide EvictionOrder, Select, Without;
    VictimOfSelection(slots, NotAmong(order[..k]), order[k]);
  }

  lemma VictimOfSelection(slots: seq<Slot>, keep: Slot -> bool, victim: Slot)
    requires DistinctIds(slots) && victim in slots
    ensures Total(Select(slots, keep)) <= Total(Without(Select(slots, keep), victim.id)) + victim.tokenEst
  {
    SelectDistinct(slots, keep);
    DistinctMeansSame(slots);
    hide DistinctIds, Select;
    VictimTotal(Select(slots, keep), victim);
  }

  lemma {:induction false} VictimTotal(slots: seq<Slot>, victim: Slot)
    requires DistinctIds(slots) && forall s :: s in slots && s.id == victim.id ==> s == victim
    ensures Total(slots) <= Total(Without(slots, victim.id)) + victim.tokenEst
  {
    if slots != [] {
      var n := |slots| - 1;
      assert slots == slots[..n] + [slots[n]];
      if slots[n].id == victim.id {
        SelectAll(slots[..n], NotId(victim.id));
      } else {
        VictimTotal(slots[..n], victim);
        AppendTotal(Without(slots[..n], victim.id), slots[n]);
      }
    }
  }

  lemma {:induction false} SelectMonotone(slots: seq<Slot>, f: Slot -> bool, g: Slot -> bool)
    requires forall s :: s in slots && f(s) ==> g(s)
    ensures Total(Select(slots, f)) <= Total(Select(slots, g))
  {
    if slots != [] {
      var n := |slots| - 1;
      assert slots == slots[..n] + [slots[n]];
      SelectMonotone(slots[..n], f, g);
      AppendTotal(Select(slots[..n], f), slots[n]);
      AppendTotal(Select(slots[..n], g), slots[n]);
    }
  }

  /**
   * When an eviction leaves sticky pages only, they are the sticky pages a checkout makes its capacity
   * check against.
   */
  lemma OnlyStickyLeft(slots: seq<Slot>, id: string, k: nat)
    requires k <= |EvictionOrder(Without(slots, id))|
    requires forall s :: s in After(Without(slots, id), k) ==> s.priority == Sticky
    ensures Total(After(Without(slots, id), k)) <= StickyTotal(slots, id)
  {
    var gone := EvictionOrder(Without(slots, id))[..k];
    var f := (s: Slot) => s.id != id && s !in gone;
    hide EvictionOrder;
    SelectTwice(slots, NotId(id), NotAmong(gone), f);
    SelectMonotone(slots, f, (s: Slot) => s.id != id && s.priority == Sticky);
  }

  /** The room a checkout counts on is what is left beside all that can be evicted. */
  lemma StickyIsWhatStays(slots: seq<Slot>, id: string)
    ensures var others := Without(slots, id);
            Total(After(others, |EvictionOrder(others)|)) == StickyTotal(slots, id)
  {
    var others := Without(slots, id);
    var order := EvictionOrder(others);
    EvictionOrderIsTierThenAge(others);
    hide EvictionOrder;
    assert order[..|order|] == order;
    SelectTwice(slots, NotId(id), NotAmong(order), (s: Slot) => s.id != id && s.priority == Sticky);
  }

  lemma CheckoutKeepsBudget(slots: seq<Slot>, added: Slot, maxBudget: int, k: nat)
    requires Evicts(Without(slots, added.id), added.tokenEst, maxBudget, k)
    requires added.priority == Sticky || added.tokenEst <= maxBudget - StickyTotal(slots, added.id)
    ensures Budgeted(After(Without(slots, added.id), k) + [added], maxBudget)
  {
    var left := After(Without(slots, added.id), k);
    EvictionMakesRoom(Without(slots, added.id), added.tokenEst, maxBudget, k);
    AppendTotal(left, added);
    hide After, EvictionOrder, StickyTotal, Select;
    if !Fits(left, added.tokenEst, maxBudget) {
      OnlyStickyLeft(slots, added.id, k);
    }
  }

  lemma CheckoutKeepsDistinct(slots: seq<Slot>, added: Slot, k: nat)
    requires DistinctIds(slots) && k <= |EvictionOrder(Without(slots, added.id))|
    ensures DistinctIds(After(Without(slots, added.id), k) + [added])
  {
    var others := Without(slots, added.id);
    var gone := EvictionOrder(others)[..k];
    hide EvictionOrder;
    SelectDistinct(slots, NotId(added.id));
    SelectDistinct(others, NotAmong(gone));
    var left := Select(others, NotAmong(gone));
    forall i | 0 <= i < |left| ensures left[i].id != added.id {
      assert left[i] in left && left[i] in others;
    }
  }

  // ---------- Rendering ----------

  function ByRank(): (Slot, Slot) -> bool { (a: Slot, b: Slot) => Rank(a.priority) <= Rank(b.priority) }

  /** Sticky first, then high, medium, low; insertion order within a tier. */
  function RenderOrder(slots: seq<Slot>): seq<Slot> { StableSort(slots, ByRank()) }

  function Contents(slots: seq<Slot>): (texts: seq<string>)
    ensures |texts| == |slots| && forall i :: 0 <= i < |slots| ==> texts[i] == slots[i].content
  {
    if slots == [] then [] else Contents(slots[..|slots| - 1]) + [slots[|slots| - 1].content]
  }

  lemma RenderOrderMembers(slots: seq<Slot>)
    ensures multiset(RenderOrder(slots)) == multiset(slots) && Total(RenderOrder(slots)) == Total(slots)
    ensures forall i, j :: 0 <= i < j < |RenderOrder(slots)| ==>
              !Below(RenderOrder(slots)[i].priority, RenderOrder(slots)[j].priority)
    ensures forall p :: Select(RenderOrder(slots), IsPriority(p)) == Select(slots, IsPriority(p))
    ensures forall s :: s in RenderOrder(slots) <==> s in slots
  {
    var r := RenderOrder(slots);
    forall p ensures Select(r, IsPriority(p)) == Select(slots, IsPriority(p)) {
      SortIsStable(slots, ByRank(), IsPriority(p));
    }
    SortMultiset(slots, ByRank());
    SortSorted(slots, ByRank());
    SortMembers(slots, ByRank());
    TotalOfPermutation(r, slots);
    hide StableSort, Total;
    forall i, j | 0 <= i < j < |r| ensures !Below(r[i].priority, r[j].priority) {
      assert ByRank()(r[i], r[j]);
    }
  }

  lemma {:induction false} PrefixTotal(slots: seq<Slot>, k: nat)
    requires k <= |slots|
    ensures Total(slots[..k]) <= Total(slots)
    decreases |slots|
  {
    if k == |slots| {
      assert slots[..k] == slots;
    } else {
      PrefixTotal(slots[..|slots| - 1], k);
      assert slots[..|slots| - 1][..k] == slots[..k];
    }
  }

  lemma NothingRendered()
    ensures Contents([]) == [] && Total([]) == 0
  {}

  /** The next page in rendering order, in a pager within budget or all sticky: it is never over the budget. */
  lemma RenderOneMore(slots: seq<Slot>, maxBudget: int, i: nat)
    requires i < |RenderOrder(slots)| && Budgeted(slots, maxBudget)
    ensures var ordered := RenderOrder(slots);
            && Total(ordered[..i + 1]) == Total(ordered[..i]) + ordered[i].tokenEst
            && Contents(ordered[..i + 1]) == Contents(ordered[..i]) + [ordered[i].content]
            && (Total(ordered[..i]) + ordered[i].tokenEst <= maxBudget || ordered[i].priority == Sticky)
  {
    var ordered := RenderOrder(slots);
    RenderOrderMembers(slots);
    hide RenderOrder, Total;
    assert ordered[..i + 1] == ordered[..i] + [ordered[i]] && ordered[i] in ordered;
    AppendTotal(ordered[..i], ordered[i]);
    PrefixTotal(ordered, i + 1);
  }

  // ---------- Ageing ----------

  /** One tick for one slot: None when it expires. */
  function Aged(s: Slot, referenced: set<string>): Slot {
    if s.priority == Sticky then s
    else if s.id in referenced then s.(remainingTurns := s.ttlTurns)
    else s.(remainingTurns := s.remainingTurns - 1)
  }

  function Expires(s: Slot, referenced: set<string>): bool {
    s.priority != Sticky && s.id !in referenced && s.remainingTurns - 1 <= 0
  }

  function Ticked(slots: seq<Slot>, referenced: set<string>): (r: seq<Slot>)
    ensures |r| <= |slots|
  {
    if slots == [] then []
    else
      var n := |slots| - 1;
      if Expires(slots[n], referenced) then Ticked(slots[..n], referenced)
      else Ticked(slots[..n], referenced) + [Aged(slots[n], referenced)]
  }

  lemma {:induction false} TickedMembers(slots: seq<Slot>, referenced: set<string>, t: Slot)
    ensures t in Ticked(slots, referenced) <==>
              exists s :: s in slots && !Expires(s, referenced) && t == Aged(s, referenced)
  {
    if slots != [] {
      var n := |slots| - 1;
      assert slots == slots[..n] + [slots[n]];
      TickedMembers(slots[..n], referenced, t);
    }
  }

  lemma {:induction false} TickedDistinct(slots: seq<Slot>, referenced: set<string>)
    requires DistinctIds(slots)
    ensures DistinctIds(Ticked(slots, referenced))
  {
    if slots != [] {
      var n := |slots| - 1;
      TickedDistinct(slots[..n], referenced);
      var r := Ticked(slots[..n], referenced);
      forall i | 0 <= i < |r| ensures r[i].id != slots[n].id {
        TickedMembers(slots[..n], referenced, r[i]);
      }
    }
  }

  lemma {:induction false} TickedTotal(slots: seq<Slot>, referenced: set<string>)
    ensures Total(Ticked(slots, referenced)) <= Total(slots)
  {
    if slots != [] {
      var n := |slots| - 1;
      TickedTotal(slots[..n], referenced);
      AppendTotal(Ticked(slots[..n], referenced), Aged(slots[n], referenced));
    }
  }

  lemma TickedKeepsBudgeted(slots: seq<Slot>, referenced: set<string>, maxBudget: int)
    requires Budgeted(slots, maxBudget)
    ensures Budgeted(Ticked(slots, referenced), maxBudget)
  {
    TickedTotal(slots, referenced);
    forall t | t in Ticked(slots, referenced) ensures exists s :: s in slots && t == Aged(s, referenced) {
      TickedMembers(slots, referenced, t);
    }
  }

  /** Turns ended one after another, each with the pages it referenced. */
  ghost function TickedThrough(slots: seq<Slot>, turns: seq<set<string>>): seq<Slot> {
    if turns == [] then slots else Ticked(TickedThrough(slots, turns[..|turns| - 1]), turns[|turns| - 1])
  }

  /** The page was not referenced in any of the n turns from the given one on. */
  ghost predicate Unreferenced(turns: seq<set<string>>, id: string, from: nat, n: nat)
    requires from + n <= |turns|
  {
    forall k :: from <= k < from + n ==> id !in turns[k]
  }

  /** Turns since the page was last referenced, or since the first. */
  ghost function Idle(turns: seq<set<string>>, id: string): (n: nat)
    ensures n <= |turns|
  {
    if turns == [] || id in turns[|turns| - 1] then 0 else Idle(turns[..|turns| - 1], id) + 1
  }

  lemma {:induction false} IdleIsUnreferenced(turns: seq<set<string>>, id: string)
    ensures Unreferenced(turns, id, |turns| - Idle(turns, id), Idle(turns, id))
    ensures Idle(turns, id) < |turns| ==> id in turns[|turns| - Idle(turns, id) - 1]
  {
    if turns != [] && id !in turns[|turns| - 1] {
      IdleIsUnreferenced(turns[..|turns| - 1], id);
    }
  }

  /** At some moment the page had gone `life` turns in a row without a reference. */
  ghost predicate Neglected(turns: seq<set<string>>, id: string, life: nat) {
    exists from: nat :: from + life <= |turns| && Unreferenced(turns, id, from, life)
  }

  /** The last turn decides. */
  lemma NeglectedNow(turns: seq<set<string>>, id: string, life: nat)
    requires turns != [] && life > 0
    ensures var n := |turns| - 1;
            Neglected(turns, id, life) <==> Neglected(turns[..n], id, life) || Idle(turns, id) >= life
  {
    var n := |turns| - 1;
    IdleIsUnreferenced(turns, id);
    if from: nat :| from + life <= |turns| && Unreferenced(turns, id, from, life) {
      if from + life <= n { assert Unreferenced(turns[..n], id, from, life); }
    }
    if from: nat :| from + life <= n && Unreferenced(turns[..n], id, from, life) {
      assert Unreferenced(turns, id, from, life);
    }
    if Idle(turns, id) >= life {
      assert Unreferenced(turns, id, |turns| - life, life);
    }
  }

  /** What one turn makes of a page that has been idle for some turns. */
  lemma TurnOfPage(before: seq<Slot>, referenced: set<string>, s: Slot, idle: nat, alive: bool)
    requires DistinctIds(before) && s.priority != Sticky && (alive ==> idle == 0 || idle < s.ttlTurns)
    requires (exists t :: t in before && t.id == s.id) <==> alive
    requires forall t :: t in before && t.id == s.id ==> t == s.(remainingTurns := s.ttlTurns - idle)
    ensures DistinctIds(Ticked(before, referenced))
    ensures var idle' := if s.id in referenced then 0 else idle + 1;
            && ((exists t :: t in Ticked(before, referenced) && t.id == s.id) <==>
                alive && (idle' == 0 || idle' < s.ttlTurns))
            && forall t :: t in Ticked(before, referenced) && t.id == s.id ==>
                             t == s.(remainingTurns := s.ttlTurns - idle')
  {
    TickedDistinct(before, referenced);
    forall t
      ensures t in Ticked(before, referenced) <==>
                exists b :: b in before && !Expires(b, referenced) && t == Aged(b, referenced)
    {
      TickedMembers(before, referenced, t);
    }
    hide Ticked, DistinctIds;
    var last := s.(remainingTurns := s.ttlTurns - idle);
    if alive {
      assert last in before;
      if !Expires(last, referenced) { assert Aged(last, referenced) in Ticked(before, referenced); }
    }
  }

  /**
   * Through any turns a page lives its time to live from its last reference: it is gone exactly if it went that
   * many turns in a row, and at least one, without a reference, and else has left what of it has not passed.
   */
  lemma {:induction false} LifetimeIsTtl(slots: seq<Slot>, s: Slot, turns: seq<set<string>>)
    requires DistinctIds(slots) && s in slots && s.priority != Sticky && s.remainingTurns == s.ttlTurns
    ensures DistinctIds(TickedThrough(slots, turns))
    ensures (exists t :: t in TickedThrough(slots, turns) && t.id == s.id) <==>
            !Neglected(turns, s.id, if s.ttlTurns > 1 then s.ttlTurns else 1)
    ensures forall t :: t in TickedThrough(slots, turns) && t.id == s.id ==>
                          t == s.(remainingTurns := s.ttlTurns - Idle(turns, s.id))
  {
    hide DistinctIds, Neglected, Ticked;
    var life := if s.ttlTurns > 1 then s.ttlTurns else 1;
    if turns == [] {
      NeverNeglected(s.id, life);
      DistinctMeansSame(slots);
    } else {
      var n := |turns| - 1;
      LifetimeIsTtl(slots, s, turns[..n]);
      IdleWhileAlive(turns[..n], s.id, life);
      NeglectedNow(turns, s.id, life);
      TurnOfPage(TickedThrough(slots, turns[..n]), turns[n], s, Idle(turns[..n], s.id),
                 !Neglected(turns[..n], s.id, life));
    }
  }

  lemma NeverNeglected(id: string, life: nat)
    requires life > 0
    ensures !Neglected([], id, life)
  {}

  lemma IdleWhileAlive(turns: seq<set<string>>, id: string, life: nat)
    requires life > 0
    ensures !Neglected(turns, id, life) ==> Idle(turns, id) < life
  {
    IdleIsUnreferenced(turns, id);
    if Idle(turns, id) >= life {
      assert Unreferenced(turns, id, |turns| - life, life);
    }
  }

  // ---------- The pager ----------

  class ContextPager {
    const maxBudget: int
    var slots: seq<Slot>
    var drops: seq<Drop>

    ghost predicate Valid()
      reads this
    {
      DistinctIds(slots) && Budgeted(slots, maxBudget) && |drops| <= MAX_UNDRAINED_DROPS
    }

    constructor (maxBudget: int)
      ensures Valid() && this.maxBudget == maxBudget && slots == [] && drops == []
    {
      this.maxBudget, slots, drops := maxBudget, [], [];
    }

    method DrainDrops() returns (drained: seq<Drop>)
      requires Valid()
      modifies this
      ensures Valid() && drained == old(drops) && drops == [] && slots == old(slots)
    {
      drained := drops;
      drops := [];
    }

    method RecordDrop(d: Drop)
      modifies this
      ensures drops == Recorded(old(drops), d) && slots == old(slots)
    {
      if |drops| >= MAX_UNDRAINED_DROPS { drops := drops[1..]; }
      drops := drops + [d];
    }

    /** The first k of the eviction order of `was` have gone and been recorded, each because there was no room. */
    ghost predicate Evicted(was: seq<Slot>, log: seq<Drop>, needed: nat, k: nat)
      reads this
    {
      && k <= |EvictionOrder(was)|
      && slots == After(was, k) && drops == RecordedAll(log, EvictionOrder(was)[..k])
      && forall j :: 0 <= j < k ==> !Fits(After(was, j), needed, maxBudget)
    }

    method EvictOne(slot: Slot, needed: nat, ghost was: seq<Slot>, ghost log: seq<Drop>, ghost k: nat)
      requires DistinctIds(was) && Evicted(was, log, needed, k)
      requires k < |EvictionOrder(was)| && slot == EvictionOrder(was)[k] && !Fits(slots, needed, maxBudget)
      modifies this
      ensures Evicted(was, log, needed, k + 1)
    {
      AfterOneMore(was, k);
      RecordedOneMore(log, EvictionOrder(was), k);
      hide EvictionOrder, After, RecordedAll, Without, Fits, DistinctIds;
      slots := Without(slots, slot.id);
      RecordDrop(Drop(slot.id, EvictedForRoom));
    }

    /** One tier of _evictToFit. `was` is the pager before the eviction and k how many have gone. */
    method EvictTier(p: Priority, needed: nat, ghost was: seq<Slot>, ghost log: seq<Drop>, ghost k: nat)
      returns (ghost k': nat)
      requires p != Sticky && DistinctIds(was) && Evicted(was, log, needed, k)
      requires k == TierStart(was, p) || Fits(slots, needed, maxBudget)
      modifies this
      ensures Evicted(was, log, needed, k')
      ensures k' == TierStart(was, p) + |Candidates(was, p)| || Fits(slots, needed, maxBudget)
    {
      hide EvictionOrder, Candidates, Total, DistinctIds, TierStart, After, RecordedAll;
      k' := k;
      if Total(slots) + needed <= maxBudget { return; }
      var candidates := Candidates(slots, p);
      TierUntouched(was, p);
      assert candidates == Candidates(was, p) && k == TierStart(was, p);
      hide Evicted;
      for i := 0 to |candidates|
        invariant k' == k + i && Evicted(was, log, needed, k')
      {
        if Total(slots) + needed <= maxBudget { return; }
        EvictOne(candidates[i], needed, was, log, k');
        k' := k' + 1;
      }
    }

    /** _evictToFit: low, then medium, then high, oldest first, stopping as soon as there is room. */
    method EvictToFit(needed: nat) returns (ghost k: nat)
      requires DistinctIds(slots)
      modifies this
      ensures Evicts(old(slots), needed, maxBudget, k)
      ensures slots == After(old(slots), k)
      ensures drops == RecordedAll(old(drops), EvictionOrder(old(slots))[..k])
    {
      ghost var was, log := slots, drops;
      AfterNone(was);
      assert EvictionOrder(was)[..0] == [];
      hide Candidates, Select, Total, DistinctIds, RecordedAll;
      k := 0;
      if Total(slots) + needed <= maxBudget { return; }
      k := EvictTier(Low, needed, was, log, k);
      k := EvictTier(Medium, needed, was, log, k);
      k := EvictTier(High, needed, was, log, k);
    }

    /** False exactly when a non-sticky page does not fit beside the others even after evicting all it may. */
    method Checkout(slot: Slot, now: int) returns (ok: bool, ghost k: nat)
      requires Valid()
      modifies this
      ensures Valid()
      ensures var others := Without(old(slots), slot.id);
              ok <==> slot.priority == Sticky ||
                      Fits(After(others, |EvictionOrder(others)|), slot.tokenEst, maxBudget)
      ensures !ok ==> slots == old(slots) && drops == Recorded(old(drops), Drop(slot.id, Oversized))
      ensures ok ==>
                var others := Without(old(slots), slot.id);
                && Evicts(others, slot.tokenEst, maxBudget, k)
                && slots == After(others, k) + [slot.(remainingTurns := slot.ttlTurns, checkedOutAt := now)]
                && drops == RecordedAll(old(drops), EvictionOrder(others)[..k])
    {
      k := 0;
      StickyIsWhatStays(slots, slot.id);
      hide EvictionOrder, After, StickyTotal;
      if slot.priority != Sticky {
        var capacity := maxBudget - StickyTotal(slots, slot.id);
        if slot.tokenEst > capacity {
          RecordDrop(Drop(slot.id, Oversized));
          return false, 0;
        }
      }
      ghost var log := drops;
      slots := Without(slots, slot.id);
      ghost var others := slots;
      SelectDistinct(old(slots), NotId(slot.id));
      k := EvictToFit(slot.tokenEst);
      var added := slot.(remainingTurns := slot.ttlTurns, checkedOutAt := now);
      CheckoutKeepsBudget(old(slots), added, maxBudget, k);
      CheckoutKeepsDistinct(old(slots), added, k);
      EvictionsAreRecorded(log, EvictionOrder(others)[..k]);
      slots := slots + [added];
      ok := true;
    }

    method Checkin(id: string)
      requires Valid()
      modifies this
      ensures Valid() && slots == Without(old(slots), id) && drops == old(drops)
    {
      SelectDistinct(slots, NotId(id));
      SelectKeepsBudgeted(slots, NotId(id), maxBudget);
      slots := Without(slots, id);
    }

    /** Every page is rendered, sticky first and insertion order within a tier; the budget check never skips one. */
    method RenderForTurn() returns (parts: seq<string>, skipped: seq<Slot>, tokens: nat)
      requires Valid()
      ensures skipped == [] && tokens == Total(slots)
      ensures var ordered := RenderOrder(slots);
              && |parts| == |ordered| && (forall i :: 0 <= i < |parts| ==> parts[i] == ordered[i].content)
              && (forall i, j :: 0 <= i < j < |ordered| ==> !Below(ordered[i].priority, ordered[j].priority))
              && (forall p :: Select(ordered, IsPriority(p)) == Select(slots, IsPriority(p)))
    {
      RenderOrderMembers(slots);
      hide RenderOrder, Total, Contents, Budgeted, DistinctIds;
      var ordered := RenderOrder(slots);
      parts, skipped, tokens := [], [], 0;
      NothingRendered();
      for i := 0 to |ordered|
        invariant skipped == [] && parts == Contents(ordered[..i]) && tokens == Total(ordered[..i])
      {
        var slot := ordered[i];
        RenderOneMore(slots, maxBudget, i);
        if tokens + slot.tokenEst > maxBudget && slot.priority != Sticky {
          skipped := skipped + [slot];
        } else {
          parts := parts + [slot.content];
          tokens := tokens + slot.tokenEst;
        }
      }
      assert ordered[..|ordered|] == ordered;
    }

    /** Ages every non-sticky page; a referenced one starts its time to live again. */
    method Tick(referenced: set<string>)
      requires Valid()
      modifies this
      ensures Valid() && slots == Ticked(old(slots), referenced) && drops == old(drops)
    {
      TickedDistinct(slots, referenced);
      TickedKeepsBudgeted(slots, referenced, maxBudget);
      var kept: seq<Slot> := [];
      for i := 0 to |slots|
        invariant slots == old(slots) && drops == old(drops) && kept == Ticked(slots[..i], referenced)
      {
        var slot := slots[i];
        assert slots[..i + 1][..i] == slots[..i];
        if slot.priority == Sticky {
          kept := kept + [slot];
        } else if slot.id in referenced {
          kept := kept + [slot.(remainingTurns := slot.ttlTurns)];
        } else {
          slot := slot.(remainingTurns := slot.remainingTurns - 1);
          if slot.remainingTurns > 0 { kept := kept + [slot]; }
        }
      }
      assert slots[..|slots|] == slots;
      slots := kept;
    }

    method Flush()
      requires Valid()
      modifies this
      ensures Valid() && slots == Select(old(slots), IsPriority(Sticky)) && drops == old(drops)
    {
      SelectDistinct(slots, IsPriority(Sticky));
      SelectKeepsBudgeted(slots, IsPriority(Sticky), maxBudget);
      slots := Select(slots, IsPriority(Sticky));
    }

    method FlushAll()
      requires Valid()
      modifies this
      ensures Valid() && slots == [] && drops == old(drops)
    {
      slots := [];
    }
  }
}
