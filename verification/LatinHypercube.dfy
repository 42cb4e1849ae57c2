/** DOESampler.lhs: stratified samples and the in-place Fisher-Yates shuffle. */
module LatinHypercube {
  import opened Arithmetic
  import opened CampaignTypes
  import opened DesignSpace
  import opened FactorialGrid
  import opened Lcg
  import opened Sequences

  // ---------- Fisher-Yates as a function of its draws ----------

  function Swap<T>(s: seq<T>, i: nat, j: nat): (r: seq<T>)
    requires i < |s| && j < |s|
    ensures |r| == |s|
  {
    s[i := s[j]][j := s[i]]
  }

  /** Swap positions i, i - 1, ..., 1 with the drawn ones; draws[k] is the partner of position k + 1. */
  ghost function Shuffled<T>(s: seq<T>, i: nat, draws: seq<nat>): (r: seq<T>)
    requires i < |s| || (i == 0 && s == [])
    requires ValidDraws(draws, i)
    ensures |r| == |s|
    decreases i
  {
    if i == 0 then s else Shuffled(Swap(s, i, draws[i - 1]), i - 1, draws[..i - 1])
  }

  /** The partner of position k + 1 is drawn from 0..k + 1. */
  ghost predicate ValidDraws(draws: seq<nat>, i: nat) {
    |draws| == i && forall k :: 0 <= k < i ==> draws[k] <= k + 1
  }

  lemma {:induction false} ShuffledKeepsRest<T>(s: seq<T>, i: nat, draws: seq<nat>)
    requires i < |s| && ValidDraws(draws, i)
    ensures Shuffled(s, i, draws)[i + 1..] == s[i + 1..]
    ensures multiset(Shuffled(s, i, draws)) == multiset(s)
    ensures i > 0 ==> Shuffled(s, i, draws)[i] == s[draws[i - 1]]
    decreases i
  {
    if i > 0 {
      var t := Swap(s, i, draws[i - 1]);
      ShuffledKeepsRest(t, i - 1, draws[..i - 1]);
      SwapMultiset(s, i, draws[i - 1]);
      var r := Shuffled(s, i, draws);
      assert r[i..] == t[i..];
      assert r[i] == r[i..][0] && t[i] == t[i..][0];
      assert r[i + 1..] == r[i..][1..] && t[i + 1..] == t[i..][1..];
      assert t[i + 1..] == s[i + 1..];
    }
  }

  lemma SwapMultiset<T>(s: seq<T>, i: nat, j: nat)
    requires i < |s| && j < |s|
    ensures multiset(Swap(s, i, j)) == multiset(s)
  {}

  /** The element the arrangement wants at position i is still among the first i + 1. */
  lemma WantedIsAvailable<T>(s: seq<T>, t: seq<T>, i: nat) returns (j: nat)
    requires i < |s| == |t| && s[i + 1..] == t[i + 1..] && multiset(s) == multiset(t)
    ensures j <= i && s[j] == t[i]
  {
    CancelTail(s, t, i + 1);
    assert t[..i + 1][i] == t[i];
    assert t[i] in multiset(t[..i + 1]);
    assert t[i] in multiset(s[..i + 1]);
    j :| 0 <= j < i + 1 && s[..i + 1][j] == t[i];
  }

  lemma SwapTail<T>(s: seq<T>, i: nat, j: nat)
    requires j <= i < |s|
    ensures Swap(s, i, j)[i..] == [s[j]] + s[i + 1..]
  {}

  /** Every arrangement of s is the outcome of some admissible draws... */
  lemma {:induction false} EveryArrangementHasDraws<T>(s: seq<T>, t: seq<T>, i: nat) returns (draws: seq<nat>)
    requires i < |s| == |t| && s[i + 1..] == t[i + 1..] && multiset(s) == multiset(t)
    ensures ValidDraws(draws, i) && Shuffled(s, i, draws) == t
    decreases i
  {
    var j := WantedIsAvailable(s, t, i);
    if i == 0 {
      draws := [];
      assert s == [s[0]] + s[1..] && t == [t[0]] + t[1..];
    } else {
      hide Swap, Shuffled, ValidDraws;
      SwapMultiset(s, i, j);
      SwapTail(s, i, j);
      assert t[i..] == [t[i]] + t[i + 1..];
      var rest := EveryArrangementHasDraws(Swap(s, i, j), t, i - 1);
      draws := rest + [j];
      LastDrawFirst(s, i, j, rest);
    }
  }

  lemma LastDrawFirst<T>(s: seq<T>, i: nat, j: nat, rest: seq<nat>)
    requires j <= i < |s| && i > 0 && ValidDraws(rest, i - 1)
    ensures ValidDraws(rest + [j], i)
    ensures Shuffled(s, i, rest + [j]) == Shuffled(Swap(s, i, j), i - 1, rest)
  {
    assert (rest + [j])[..i - 1] == rest;
  }

  lemma CancelTail<T>(s: seq<T>, t: seq<T>, k: nat)
    requires k <= |s| == |t| && s[k..] == t[k..] && multiset(s) == multiset(t)
    ensures multiset(s[..k]) == multiset(t[..k])
  {
    assert s == s[..k] + s[k..] && t == t[..k] + t[k..];
    assert multiset(s[..k]) == multiset(s) - multiset(s[k..]);
    assert multiset(t[..k]) == multiset(t) - multiset(t[k..]);
  }

  /** ... and, when the elements differ, of only one: draws made freely would favour no arrangement. */
  lemma {:induction false} DrawsAreDetermined<T(!new)>(s: seq<T>, i: nat, d: seq<nat>, e: seq<nat>)
    requires i < |s| && ValidDraws(d, i) && ValidDraws(e, i)
    requires forall p, q :: 0 <= p < q < |s| ==> s[p] != s[q]
    requires Shuffled(s, i, d) == Shuffled(s, i, e)
    ensures d == e
    decreases i
  {
    if i > 0 {
      ShuffledKeepsRest(s, i, d);
      ShuffledKeepsRest(s, i, e);
      assert d[i - 1] == e[i - 1];
      DrawsAreDetermined(Swap(s, i, d[i - 1]), i - 1, d[..i - 1], e[..i - 1]);
      assert d == d[..i - 1] + [d[i - 1]] && e == e[..i - 1] + [e[i - 1]];
    }
  }

  /** The partner drawn for position i in a given generator state. */
  function Draw(state: nat, i: nat): int { (Uniform(state) * (i + 1) as real).Floor }

  lemma DrawInRange(state: nat, i: nat)
    requires state < MODULUS
    ensures 0 <= Draw(state, i) <= i
  {
    var u, m := Uniform(state), (i + 1) as real;
    assert 0.0 <= u < 1.0;
    assert 0.0 <= u * m < m;
  }

  /** Partner j is drawn exactly from the states in the j-th of i + 1 equal shares of all. */
  lemma DrawnExactly(state: nat, i: nat, j: int)
    requires state < MODULUS
    ensures Draw(state, i) == j <==>
            j as real / (i + 1) as real <= state as real / 4294967296.0 < (j + 1) as real / (i + 1) as real
  {
    var u, m := state as real / 4294967296.0, (i + 1) as real;
    Scaled(j as real, u, m);
    Scaled((j + 1) as real, u, m);
    assert Draw(state, i) == (u * m).Floor;
  }

  /** No partner is left out, as long as there are no more than there are states. */
  lemma EveryPartnerIsDrawn(i: nat, j: nat) returns (state: nat)
    requires j <= i < 4294967296
    ensures state < MODULUS && Draw(state, i) == j
  {
    var r := i + 1;
    state := (j * MODULUS + i) / r;
    FirstOfShare(j, r, MODULUS);
    DrawnExactly(state, i, j);
    Fraction(j, r, state, MODULUS);
    Fraction(j + 1, r, state, MODULUS);
  }

  /** The first multiple of r at or after j * n comes before (j + 1) * n. */
  lemma FirstOfShare(j: nat, r: nat, n: nat)
    requires j < r <= n
    ensures var s := (j * n + r - 1) / r; j * n <= s * r < (j + 1) * n && s < n
  {
    var a := j * n;
    var s := (a + r - 1) / r;
    Ceiling(a, r);
    assert (j + 1) * n == a + n;
    assert (j + 1) * n <= n * r by { NotBelow(j + 1, r, n); }
    NotBelow(n, s, r);
  }

  lemma Ceiling(a: nat, r: nat)
    requires r > 0
    ensures a <= (a + r - 1) / r * r < a + r
  {
    var x := a + r - 1;
    assert x == r * (x / r) + x % r;
  }

  lemma NotBelow(n: nat, s: nat, r: nat)
    ensures s >= n ==> s * r >= n * r
  {
    if s >= n { assert (s - n) * r >= 0; }
  }

  lemma Fraction(j: nat, r: nat, s: nat, n: nat)
    requires r > 0 && n > 0
    ensures j as real / r as real <= s as real / n as real <==> j * n <= s * r
  {
    var a, b := j as real / r as real, s as real / n as real;
    var x, y := r as real, n as real;
    assert a * x == j as real && b * y == s as real;
    assert (a * x) * y == (j * n) as real && (b * y) * x == (s * r) as real;
    assert (b - a) * (x * y) == (b * y) * x - (a * x) * y;
    assert x * y > 0.0;
  }

  /** The draws the generator makes for positions i, i - 1, ..., 1, the last one first. */
  ghost function DrawsFrom(state: nat, i: nat): (draws: seq<nat>)
    requires state < MODULUS
    ensures ValidDraws(draws, i)
    decreases i
  {
    if i == 0 then []
    else
      DrawInRange(Step(state), i);
      DrawsFrom(Step(state), i - 1) + [Draw(Step(state), i)]
  }

  // ---------- What the generator cannot draw ----------

  /** The partner of position k + 1 is one of k + 2. */
  ghost function Partners(i: nat): (totals: seq<nat>) { seq(i, k => k + 2) }

  /** Admissible draws are the in-bounds tuples of a mixed-radix counter. */
  lemma DrawsAreTuples(draws: seq<nat>, i: nat)
    ensures ValidDraws(draws, i) <==> InBounds(draws, Partners(i))
  {
    assert forall k :: 0 <= k < i ==> Radix(Partners(i)[k]) == k + 2;
  }

  /** The draws the generator makes from the states below m. */
  ghost function DrawsBelow(m: nat, i: nat): (all: set<seq<nat>>)
    requires m <= MODULUS
  {
    if m == 0 then {} else DrawsBelow(m - 1, i) + {DrawsFrom(m - 1, i)}
  }

  lemma {:induction false} DrawsBelowAre(m: nat, i: nat)
    requires m <= MODULUS
    ensures |DrawsBelow(m, i)| <= m
    ensures forall state: nat :: state < m ==> DrawsFrom(state, i) in DrawsBelow(m, i)
  {
    if m > 0 {
      var before, last := DrawsBelow(m - 1, i), DrawsFrom(m - 1, i);
      assert DrawsBelow(m, i) == before + {last};
      hide DrawsFrom, DrawsBelow;
      DrawsBelowAre(m - 1, i);
      AtMostOneMore(before, last);
      forall state: nat | state < m ensures DrawsFrom(state, i) in DrawsBelow(m, i) {
        if state == m - 1 { assert DrawsFrom(state, i) == last; }
      }
    }
  }

  lemma AtMostOneMore<T>(a: set<T>, x: T)
    ensures |a + {x}| == if x in a then |a| else |a| + 1
  {
    if x in a { assert a + {x} == a; }
  }

  /** The first n admissible draws, in the counter's order. */
  ghost function NumberedDraws(n: nat, i: nat): (all: set<seq<nat>>) {
    if n == 0 then {} else NumberedDraws(n - 1, i) + {Digits(n - 1, Partners(i))}
  }

  lemma {:induction false} NumberedDrawsAre(n: nat, i: nat)
    requires n <= Combinations(Partners(i))
    ensures |NumberedDraws(n, i)| == n
    ensures forall d :: d in NumberedDraws(n, i) ==> InBounds(d, Partners(i)) && Numeral(d, Partners(i)) < n
  {
    hide Digits, Combinations, InBounds, Numeral, Partners;
    if n > 0 {
      NumberedDrawsAre(n - 1, i);
      NumeralOfDigits(n - 1, Partners(i));
    }
  }

  lemma MoreEachTime(i: nat)
    requires i > 0
    ensures Combinations(Partners(i)) == Times(Combinations(Partners(i - 1)), i + 1)
  {
    assert Partners(i)[..i - 1] == Partners(i - 1);
  }

  /** There are more draws for 13 or more elements than the generator has states. */
  lemma {:induction false} ManyDraws(i: nat)
    requires i >= 12
    ensures Combinations(Partners(i)) > MODULUS
    decreases i
  {
    if i == 12 {
      FactorialOf13();
    } else {
      ManyDraws(i - 1);
      MoreEachTime(i);
      hide Combinations;
      TimesAtLeast(Combinations(Partners(i - 1)), i + 1);
    }
  }

  lemma TimesAtLeast(x: nat, r: nat)
    requires r > 0
    ensures Times(x, r) >= x
  {
    assert x * (r - 1) >= 0;
  }

  lemma FactorialOf13()
    ensures Combinations(Partners(12)) == 6227020800
  {
    FactorialOf7();
    for i := 7 to 13
      invariant Combinations(Partners(i - 1)) == [5040, 40320, 362880, 3628800, 39916800, 479001600, 6227020800][i - 7]
    {
      MoreEachTime(i);
    }
  }

  lemma FactorialOf7()
    ensures Combinations(Partners(6)) == 5040
  {
    assert Combinations(Partners(0)) == 1;
    for i := 1 to 7
      invariant Combinations(Partners(i - 1)) == [1, 2, 6, 24, 120, 720, 5040][i - 1]
    {
      MoreEachTime(i);
    }
  }

  /** The arrangement the shuffle makes of s from a state of the generator. */
  ghost function Arranged<T>(s: seq<T>, state: nat): seq<T>
    requires s != [] && state < MODULUS
  {
    Shuffled(s, |s| - 1, DrawsFrom(state, |s| - 1))
  }

  /**
   * The draws of the generator are not free: of 13 or more different elements some arrangement comes from
   * no state, so no seed ever produces it.
   */
  lemma SomeArrangementIsNeverDrawn<T(!new)>(s: seq<T>) returns (t: seq<T>)
    requires |s| >= 13 && forall p, q :: 0 <= p < q < |s| ==> s[p] != s[q]
    ensures multiset(t) == multiset(s)
    ensures forall state: nat :: state < MODULUS ==> Arranged(s, state) != t
  {
    var i := |s| - 1;
    var draws := DrawsNeverMade(i);
    hide DrawsFrom, ValidDraws;
    ShuffledKeepsRest(s, i, draws);
    t := Shuffled(s, i, draws);
    hide Shuffled;
    forall state: nat | state < MODULUS ensures Arranged(s, state) != t {
      if Arranged(s, state) == t { DrawsAreDetermined(s, i, DrawsFrom(state, i), draws); }
    }
  }

  lemma DrawsNeverMade(i: nat) returns (draws: seq<nat>)
    requires i >= 12
    ensures ValidDraws(draws, i) && forall state: nat :: state < MODULUS ==> DrawsFrom(state, i) != draws
  {
    hide *;
    ManyDraws(i);
    var n := Combinations(Partners(i));
    var made, all := DrawsBelow(MODULUS, i), NumberedDraws(n, i);
    DrawsBelowAre(MODULUS, i);
    NumberedDrawsAre(n, i);
    if all <= made { SubsetSize(all, made); }
    draws :| draws in all && draws !in made;
    DrawsAreTuples(draws, i);
  }

  lemma {:induction false} SubsetSize<T>(a: set<T>, b: set<T>)
    requires a <= b
    ensures |a| <= |b|
  {
    assert b == a + (b - a);
  }

  method DrawPartner(rng: SeededRandom, i: nat) returns (j: nat)
    requires rng.Valid()
    modifies rng
    ensures rng.Valid() && rng.state == Step(old(rng.state))
    ensures j == Draw(rng.state, i) && j <= i
    ensures j as real / (i + 1) as real <= rng.state as real / 4294967296.0 < (j + 1) as real / (i + 1) as real
  {
    var u := rng.Next();
    DrawInRange(rng.state, i);
    j := (u * (i + 1) as real).Floor;
    assert j == Draw(rng.state, i);
    hide Draw, Uniform, Step;
    DrawnExactly(rng.state, i, j);
  }

  method Shuffle(s: array<real>, rng: SeededRandom)
    requires rng.Valid() && s.Length > 0
    modifies s, rng
    ensures rng.Valid() && rng.state == Iterate(old(rng.state), s.Length - 1)
    ensures s[..] == Shuffled(old(s[..]), s.Length - 1, DrawsFrom(old(rng.state), s.Length - 1))
  {
    hide Draw, Step;
    var i := s.Length - 1;
    while i > 0
      invariant rng.Valid() && 0 <= i < s.Length && rng.state == Iterate(old(rng.state), s.Length - 1 - i)
      invariant Shuffled(s[..], i, DrawsFrom(rng.state, i))
                == Shuffled(old(s[..]), s.Length - 1, DrawsFrom(old(rng.state), s.Length - 1))
    {
      ghost var was, state := s[..], rng.state;
      var j := DrawPartner(rng, i);
      s[i], s[j] := s[j], s[i];
      assert s[..] == Swap(was, i, j);
      assert DrawsFrom(state, i) == DrawsFrom(rng.state, i - 1) + [j];
      assert DrawsFrom(state, i)[..i - 1] == DrawsFrom(rng.state, i - 1);
      i := i - 1;
    }
  }

  // ---------- Strata ----------

  /** x lies in [k/n, (k+1)/n). */
  ghost predicate InStratum(x: real, n: nat, k: nat)
    requires n > 0
  {
    k as real / n as real <= x < (k + 1) as real / n as real
  }

  /** Every stratum holds exactly one member of s. */
  ghost predicate OnePerStratum(s: seq<real>, n: nat)
    requires n > 0
  {
    |s| == n && forall k :: 0 <= k < n ==> ExactlyOneIn(s, n, k)
  }

  ghost predicate ExactlyOneIn(s: seq<real>, n: nat, k: nat)
    requires n > 0
  {
    && (exists i :: 0 <= i < |s| && InStratum(s[i], n, k))
    && (forall i, j :: 0 <= i < j < |s| ==> !(InStratum(s[i], n, k) && InStratum(s[j], n, k)))
  }

  function SampleAt(state: nat, n: nat, i: nat): real
    requires n > 0
  {
    (i as real + Uniform(state)) / n as real
  }

  /** One sample per stratum, drawn in order from the given generator state. */
  ghost function Samples(state: nat, n: nat): (s: seq<real>)
    requires n > 0
    ensures |s| == n && forall i :: 0 <= i < n ==> s[i] == SampleAt(Iterate(state, i + 1), n, i)
  {
    seq(n, i requires 0 <= i < n => SampleAt(Iterate(state, i + 1), n, i))
  }

  lemma SampleInStratum(state: nat, n: nat, i: nat)
    requires n > 0 && state < MODULUS && i < n
    ensures InStratum(SampleAt(state, n, i), n, i)
    ensures SampleAt(state, n, i) * n as real - i as real == state as real / 4294967296.0
  {
    DivideOrder(i as real, i as real + Uniform(state), n as real);
    DivideOrder(i as real + Uniform(state), (i + 1) as real, n as real);
  }

  lemma DivideOrder(a: real, b: real, d: real)
    requires d > 0.0
    ensures a <= b ==> a / d <= b / d
    ensures a < b ==> a / d < b / d
  {}

  lemma StrataDisjoint(x: real, n: nat, k: nat, l: nat)
    requires n > 0 && InStratum(x, n, k) && InStratum(x, n, l)
    ensures k == l
  {
    if k < l { DivideOrder((k + 1) as real, l as real, n as real); }
    if l < k { DivideOrder((l + 1) as real, k as real, n as real); }
  }

  ghost predicate Stratified(s: seq<real>, n: nat)
    requires n > 0
  {
    |s| == n && forall k :: 0 <= k < n ==> InStratum(s[k], n, k)
  }

  lemma StratifiedDistinct(s: seq<real>, n: nat)
    requires n > 0 && Stratified(s, n)
    ensures forall p, q :: 0 <= p < q < |s| ==> s[p] != s[q]
  {
    forall p, q | 0 <= p < q < |s| ensures s[p] != s[q] {
      if s[p] == s[q] { StrataDisjoint(s[p], n, p, q); }
    }
  }

  lemma StratumValue(s: seq<real>, t: seq<real>, n: nat, k: nat, i: nat)
    requires n > 0 && Stratified(s, n) && multiset(s) == multiset(t) && k < n && i < |t|
    requires InStratum(t[i], n, k)
    ensures t[i] == s[k]
  {
    assert t[i] in multiset(s);
    var l :| 0 <= l < n && s[l] == t[i];
    StrataDisjoint(t[i], n, k, l);
  }

  lemma StratumNotShared(s: seq<real>, t: seq<real>, n: nat, k: nat, i: nat, j: nat)
    requires n > 0 && Stratified(s, n) && multiset(s) == multiset(t) && k < n && i < j < |t|
    requires InStratum(t[i], n, k)
    ensures !InStratum(t[j], n, k)
  {
    if InStratum(t[j], n, k) {
      StratumValue(s, t, n, k, i);
      StratumValue(s, t, n, k, j);
      StratifiedDistinct(s, n);
      CountDistinct(s, s[k]);
      CountTwice(t, i, j);
    }
  }

  /** A rearrangement of one-sample-per-stratum still has one sample per stratum. */
  lemma RearrangedStrata(s: seq<real>, t: seq<real>, n: nat)
    requires n > 0 && Stratified(s, n) && multiset(s) == multiset(t)
    ensures OnePerStratum(t, n)
  {
    hide InStratum;
    assert |s| == |multiset(s)| == |multiset(t)| == |t|;
    forall k | 0 <= k < n ensures ExactlyOneIn(t, n, k) {
      assert s[k] in multiset(t);
      var i :| 0 <= i < |t| && t[i] == s[k];
      forall i, j | 0 <= i < j < |t| && InStratum(t[i], n, k) ensures !InStratum(t[j], n, k) {
        StratumNotShared(s, t, n, k, i, j);
      }
    }
  }

  method SampleStrata(rng: SeededRandom, n: nat) returns (s: array<real>)
    requires rng.Valid() && n > 0
    modifies rng
    ensures rng.Valid() && rng.state == Iterate(old(rng.state), n)
    ensures fresh(s) && s[..] == Samples(old(rng.state), n)
  {
    hide Step, Uniform;
    s := new real[n];
    for i := 0 to n
      invariant rng.Valid() && rng.state == Iterate(old(rng.state), i)
      invariant forall k :: 0 <= k < i ==> s[k] == SampleAt(Iterate(old(rng.state), k + 1), n, k)
    {
      var u := rng.Next();
      s[i] := (i as real + u) / n as real;
    }
  }

  // ---------- The sampler ----------

  /** The generator state before the samples (or shuffles) of variable vi, each taking `draws` draws. */
  ghost function StateBefore(state: nat, draws: nat, vi: nat): (s: nat)
    requires state < MODULUS
    ensures s < MODULUS
  {
    if vi == 0 then state
    else
      IterateInRange(StateBefore(state, draws, vi - 1), draws);
      Iterate(StateBefore(state, draws, vi - 1), draws)
  }

  /** The shuffled strata of variable vi out of m. */
  ghost function Column(state: nat, m: nat, n: nat, vi: nat): (s: seq<real>)
    requires state < MODULUS && n > 0
    ensures |s| == n
  {
    var shuffling := StateBefore(StateBefore(state, n, m), n - 1, vi);
    Shuffled(Samples(StateBefore(state, n, vi), n), n - 1, DrawsFrom(shuffling, n - 1))
  }

  /** Each variable has exactly one sample in each stratum [k/n, (k+1)/n), whatever the seed. */
  lemma ColumnIsStratified(state: nat, m: nat, n: nat, vi: nat)
    requires state < MODULUS && n > 0
    ensures OnePerStratum(Column(state, m, n, vi), n)
  {
    var before := StateBefore(state, n, vi);
    var s := Samples(before, n);
    var shuffling := StateBefore(StateBefore(state, n, m), n - 1, vi);
    ShuffledKeepsRest(s, n - 1, DrawsFrom(shuffling, n - 1));
    forall k | 0 <= k < n ensures InStratum(s[k], n, k) {
      IterateInRange(before, k + 1);
      SampleInStratum(Iterate(before, k + 1), n, k);
    }
    RearrangedStrata(s, Column(state, m, n, vi), n);
  }

  // ---------- Which sample a point gets ----------

  lemma {:induction false} StateBeforeIs(state: nat, draws: nat, vi: nat)
    requires state < MODULUS
    ensures StateBefore(state, draws, vi) == Iterate(state, Times(vi, draws))
  {
    if vi > 0 {
      StateBeforeIs(state, draws, vi - 1);
      IterateSplits(state, Times(vi - 1, draws), draws);
      assert Times(vi, draws) == Times(vi - 1, draws) + draws;
    }
  }

  /** The places 0, 1, ..., n - 1. */
  ghost function Places(n: nat): (s: seq<nat>) { seq(n, k => k) }

  lemma SwapKeepsMembers<T>(s: seq<T>, i: nat, j: nat)
    requires i < |s| && j < |s|
    ensures forall x :: x in Swap(s, i, j) ==> x in s
  {}

  /** Shuffling moves elements by their places only. */
  lemma {:induction false} ShuffledMoves<T>(s: seq<T>, at: seq<nat>, i: nat, draws: seq<nat>)
    requires InRange(|s|, at) && i < |at| && ValidDraws(draws, i)
    ensures InRange(|s|, Shuffled(at, i, draws))
    ensures Shuffled(Pick(s, at), i, draws) == Pick(s, Shuffled(at, i, draws))
    decreases i
  {
    if i > 0 {
      var j := draws[i - 1];
      SwapKeepsMembers(at, i, j);
      ShuffledMoves(s, Swap(at, i, j), i - 1, draws[..i - 1]);
      assert Swap(Pick(s, at), i, j) == Pick(s, Swap(at, i, j));
    }
  }

  /** The stratum that point i gets of variable vi: its place among the strata shuffled with that variable's draws. */
  ghost function StratumOf(state: nat, m: nat, n: nat, vi: nat, i: nat): nat
    requires state < MODULUS && i < n
  {
    IterateInRange(state, Times(m, n) + Times(vi, n - 1));
    Shuffled(Places(n), n - 1, DrawsFrom(Iterate(state, Times(m, n) + Times(vi, n - 1)), n - 1))[i]
  }

  lemma ColumnIsMoved(state: nat, m: nat, n: nat, vi: nat, i: nat)
    requires state < MODULUS && i < n
    ensures var k := StratumOf(state, m, n, vi, i);
            k < n && Column(state, m, n, vi)[i] == Samples(StateBefore(state, n, vi), n)[k]
  {
    var s := Samples(StateBefore(state, n, vi), n);
    var shuffling := StateBefore(StateBefore(state, n, m), n - 1, vi);
    var draws := DrawsFrom(shuffling, n - 1);
    ShuffleStart(state, m, n, vi);
    assert Column(state, m, n, vi) == Shuffled(s, n - 1, draws);
    assert StratumOf(state, m, n, vi, i) == Shuffled(Places(n), n - 1, draws)[i];
    assert Pick(s, Places(n)) == s;
    hide *;
    ShuffledMoves(s, Places(n), n - 1, draws);
  }

  lemma ShuffleStart(state: nat, m: nat, n: nat, vi: nat)
    requires state < MODULUS && n > 0
    ensures StateBefore(StateBefore(state, n, m), n - 1, vi) == Iterate(state, Times(m, n) + Times(vi, n - 1))
  {
    hide StateBefore, Iterate, Times;
    StateBeforeIs(state, n, m);
    StateBeforeIs(StateBefore(state, n, m), n - 1, vi);
    IterateSplits(state, Times(m, n), Times(vi, n - 1));
  }

  /**
   * What a point is made of: for variable vi of m, point i gets the stratum the shuffle put in its place, and in it
   * the offset of that stratum's own draw.
   */
  lemma SampleOfPoint(state: nat, m: nat, n: nat, vi: nat, i: nat)
    requires state < MODULUS && i < n
    ensures var k := StratumOf(state, m, n, vi, i);
            && k < n
            && Column(state, m, n, vi)[i] * n as real - k as real
               == Iterate(state, Times(vi, n) + k + 1) as real / 4294967296.0
  {
    hide Shuffled, DrawsFrom, StateBefore, Iterate, Times, StratumOf, Column, SampleAt;
    var k := StratumOf(state, m, n, vi, i);
    ColumnIsMoved(state, m, n, vi, i);
    StateBeforeIs(state, n, vi);
    IterateSplits(state, Times(vi, n), k + 1);
    IterateInRange(state, Times(vi, n) + k + 1);
    SampleInStratum(Iterate(state, Times(vi, n) + k + 1), n, k);
  }

  /** The record of point i: a later variable of the same name overwrites an earlier one. */
  function RecordOf(vars: seq<Variable>, ts: seq<real>): map<string, Value>
    requires |ts| == |vars|
  {
    if vars == [] then map[]
    else
      var k := |vars| - 1;
      RecordOf(vars[..k], ts[..k])[vars[k].name := SampleVar(vars[k], ts[k])]
  }

  ghost function Row(state: nat, m: nat, n: nat, i: nat): (ts: seq<real>)
    requires state < MODULUS && i < n
    ensures |ts| == m && forall vi :: 0 <= vi < m ==> ts[vi] == Column(state, m, n, vi)[i]
  {
    seq(m, vi requires 0 <= vi < m => Column(state, m, n, vi)[i])
  }

  /** Each array holds its variable's samples, unshuffled. */
  ghost predicate Filled(strata: seq<array<real>>, state: nat, n: nat)
    requires state < MODULUS && n > 0
    reads strata
  {
    forall a :: 0 <= a < |strata| ==> strata[a][..] == Samples(StateBefore(state, n, a), n)
  }

  lemma FilledOneMore(strata: seq<array<real>>, s: array<real>, state: nat, n: nat)
    requires state < MODULUS && n > 0 && Filled(strata, state, n)
    requires s[..] == Samples(StateBefore(state, n, |strata|), n)
    ensures Filled(strata + [s], state, n)
    ensures StateBefore(state, n, |strata| + 1) == Iterate(StateBefore(state, n, |strata|), n)
  {
    hide Samples, Iterate;
  }

  method FillStrata(rng: SeededRandom, m: nat, n: nat) returns (strata: seq<array<real>>)
    requires rng.Valid() && n > 0
    modifies rng
    ensures rng.Valid() && rng.state == StateBefore(old(rng.state), n, m)
    ensures |strata| == m && forall a :: 0 <= a < m ==> fresh(strata[a])
    ensures forall a, b :: 0 <= a < b < m ==> strata[a] != strata[b]
    ensures Filled(strata, old(rng.state), n)
  {
    strata := [];
    assert Filled(strata, rng.state, n) && StateBefore(rng.state, n, 0) == rng.state;
    hide Samples, Iterate, StateBefore, Filled;
    for vi := 0 to m
      invariant rng.Valid() && rng.state == StateBefore(old(rng.state), n, vi)
      invariant |strata| == vi && forall a :: 0 <= a < vi ==> fresh(strata[a])
      invariant forall a, b :: 0 <= a < b < vi ==> strata[a] != strata[b]
      invariant Filled(strata, old(rng.state), n)
    {
      var s := SampleStrata(rng, n);
      FilledOneMore(strata, s, old(rng.state), n);
      strata := strata + [s];
    }
  }

  method ShuffleAll(rng: SeededRandom, strata: seq<array<real>>, n: nat)
    requires rng.Valid() && n > 0 && forall a :: 0 <= a < |strata| ==> strata[a].Length == n
    requires forall a, b :: 0 <= a < b < |strata| ==> strata[a] != strata[b]
    modifies rng, strata
    ensures forall a :: 0 <= a < |strata| ==>
              strata[a][..] ==
              Shuffled(old(strata[a][..]), n - 1, DrawsFrom(StateBefore(old(rng.state), n - 1, a), n - 1))
  {
    hide Shuffled, DrawsFrom, Iterate;
    for vi := 0 to |strata|
      invariant rng.Valid() && rng.state == StateBefore(old(rng.state), n - 1, vi)
      invariant forall a :: 0 <= a < vi ==>
        strata[a][..] == Shuffled(old(strata[a][..]), n - 1, DrawsFrom(StateBefore(old(rng.state), n - 1, a), n - 1))
      invariant forall a :: vi <= a < |strata| ==> strata[a][..] == old(strata[a][..])
    {
      Shuffle(strata[vi], rng);
    }
  }

  ghost predicate HoldColumns(strata: seq<array<real>>, state: nat, n: nat)
    requires state < MODULUS && n > 0
    reads strata
  {
    forall a :: 0 <= a < |strata| ==> strata[a].Length == n && strata[a][..] == Column(state, |strata|, n, a)
  }

  method ReadPoints(vars: seq<Variable>, strata: seq<array<real>>, ghost state: nat, n: nat)
    returns (points: seq<map<string, Value>>)
    requires state < MODULUS && n > 0 && |vars| == |strata| && HoldColumns(strata, state, n)
    ensures |points| == n
    ensures forall i :: 0 <= i < n ==> points[i] == RecordOf(vars, Row(state, |vars|, n, i))
  {
    hide Column, SampleVar;
    points := [];
    for i := 0 to n
      invariant |points| == i
      invariant forall k :: 0 <= k < i ==> points[k] == RecordOf(vars, Row(state, |vars|, n, k))
    {
      var ts := seq(|vars|, vi requires 0 <= vi < |vars| && i < strata[vi].Length reads strata => strata[vi][i]);
      assert ts == Row(state, |vars|, n, i);
      points := points + [RecordOf(vars, ts)];
    }
  }

  /** DOESampler.lhs; points are given by their variables. */
  method Lhs(vars: seq<Variable>, n: int, seed: int) returns (points: seq<map<string, Value>>)
    ensures n <= 0 ==> points == []
    ensures n > 0 ==> |points| == n
    ensures n > 0 ==> forall i :: 0 <= i < n ==> points[i] == RecordOf(vars, Row(ToUint32(seed), |vars|, n, i))
  {
    if n <= 0 { return []; }
    hide Shuffled, Samples, StateBefore, DrawsFrom, ToUint32, RecordOf, Row;
    var rng := new SeededRandom(seed);
    ghost var state := rng.state;
    var strata := FillStrata(rng, |vars|, n);
    ShuffleAll(rng, strata, n);
    assert HoldColumns(strata, state, n);
    points := ReadPoints(vars, strata, state, n);
  }

  /** v lies in the k-th n-th of the bounds. */
  ghost predicate InBand(v: real, lo: real, hi: real, n: nat, k: nat)
    requires n > 0
  {
    lo + k as real / n as real * (hi - lo) <= v < lo + (k + 1) as real / n as real * (hi - lo)
  }

  lemma ScaleOrder(a: real, b: real, w: real)
    requires w > 0.0
    ensures a <= b <==> a * w <= b * w
    ensures a < b <==> a * w < b * w
  {
    assert (b - a) * w == b * w - a * w;
  }

  /** Along a continuous variable the strata are the n-ths of its bounds. */
  lemma ContinuousValueInStratum(name: string, lo: real, hi: real, t: real, n: nat, k: nat)
    requires n > 0 && lo < hi
    ensures InStratum(t, n, k) <==> InBand(SampleVar(Continuous(name, lo, hi), t).n, lo, hi, n, k)
  {
    var a, b, w := k as real / n as real, (k + 1) as real / n as real, hi - lo;
    ScaleOrder(a, t, w);
    ScaleOrder(t, b, w);
  }

  lemma {:induction false} RecordHolds(vars: seq<Variable>, ts: seq<real>, vi: nat)
    requires |ts| == |vars| && vi < |vars| && OwnName(vars, vi)
    ensures RecordOf(vars, ts).Keys == Names(vars)
    ensures RecordOf(vars, ts)[vars[vi].name] == SampleVar(vars[vi], ts[vi])
  {
    hide SampleVar;
    var k := |vars| - 1;
    RecordNames(vars, ts);
    if vi < k {
      RecordHolds(vars[..k], ts[..k], vi);
      assert vars[k].name != vars[vi].name;
    }
  }

  lemma {:induction false} RecordNames(vars: seq<Variable>, ts: seq<real>)
    requires |ts| == |vars|
    ensures RecordOf(vars, ts).Keys == Names(vars)
  {
    hide SampleVar;
    if vars != [] {
      var k := |vars| - 1;
      RecordNames(vars[..k], ts[..k]);
      assert vars == vars[..k] + [vars[k]];
    }
  }

  /** The point's value of a continuous variable lies in the k-th n-th of the bounds. */
  ghost predicate InBandAt(point: map<string, Value>, v: Variable, n: nat, k: nat)
    requires n > 0 && v.Continuous?
  {
    v.name in point && point[v.name].Number? && InBand(point[v.name].n, v.lo, v.hi, n, k)
  }

  ghost predicate ExactlyOnePointIn(points: seq<map<string, Value>>, v: Variable, n: nat, k: nat)
    requires n > 0 && v.Continuous?
  {
    && (exists i :: 0 <= i < |points| && InBandAt(points[i], v, n, k))
    && (forall i, j :: 0 <= i < j < |points| ==> !(InBandAt(points[i], v, n, k) && InBandAt(points[j], v, n, k)))
  }

  lemma OneForOne(points: seq<map<string, Value>>, column: seq<real>, v: Variable, n: nat, k: nat)
    requires n > 0 && v.Continuous? && |points| == |column| && ExactlyOneIn(column, n, k)
    requires forall i :: 0 <= i < |points| ==> (InBandAt(points[i], v, n, k) <==> InStratum(column[i], n, k))
    ensures ExactlyOnePointIn(points, v, n, k)
  {
    hide InBandAt, InStratum;
  }

  lemma PointInBand(vars: seq<Variable>, ts: seq<real>, vi: nat, n: nat, k: nat)
    requires n > 0 && |ts| == |vars| && vi < |vars| && OwnName(vars, vi)
    requires vars[vi].Continuous? && vars[vi].lo < vars[vi].hi
    ensures InBandAt(RecordOf(vars, ts), vars[vi], n, k) <==> InStratum(ts[vi], n, k)
  {
    RecordHolds(vars, ts, vi);
    hide RecordOf, OwnName, InStratum, InBand;
    ContinuousValueInStratum(vars[vi].name, vars[vi].lo, vars[vi].hi, ts[vi], n, k);
  }

  /**
   * The points sampled: for every continuous variable of its own name, each n-th of its bounds holds the
   * value of exactly one point.
   */
  lemma EachBandHasOnePoint(vars: seq<Variable>, n: nat, seed: int, points: seq<map<string, Value>>, vi: nat, k: nat)
    requires n > 0 && |points| == n
    requires forall i :: 0 <= i < n ==> points[i] == RecordOf(vars, Row(ToUint32(seed), |vars|, n, i))
    requires vi < |vars| && vars[vi].Continuous? && vars[vi].lo < vars[vi].hi && OwnName(vars, vi) && k < n
    ensures ExactlyOnePointIn(points, vars[vi], n, k)
  {
    var state, m := ToUint32(seed), |vars|;
    assert state < MODULUS;
    hide Column, InBandAt, InStratum, RecordOf, OwnName, ToUint32, ExactlyOneIn, ExactlyOnePointIn;
    ColumnIsStratified(state, m, n, vi);
    var column := Column(state, m, n, vi);
    forall i | 0 <= i < n ensures InBandAt(points[i], vars[vi], n, k) <==> InStratum(column[i], n, k) {
      PointInBand(vars, Row(state, m, n, i), vi, n, k);
    }
    OneForOne(points, column, vars[vi], n, k);
  }
}
