/** DOESampler's SeededRandom: a 32-bit linear congruential generator and its period. */
module Lcg {
  import opened Arithmetic

  const MODULUS: nat := 0x1_0000_0000
  const MULTIPLIER: nat := 1664525
  const INCREMENT: nat := 1013904223

  /** `x >>> 0` */
  function ToUint32(x: int): nat { x % MODULUS }

  /** `Math.imul`: the low 32 bits of the product, read as a signed integer. */
  function Imul(a: int, b: int): int {
    var low := ToUint32(a * b);
    if low >= 0x8000_0000 then low - MODULUS else low
  }

  function Step(s: nat): (t: nat)
    ensures t < MODULUS
  {
    ToUint32(Imul(MULTIPLIER, s) + INCREMENT)
  }

  /** The state after n draws. */
  function Iterate(s: nat, n: nat): nat {
    if n == 0 then s else Step(Iterate(s, n - 1))
  }

  /** The number a state stands for, in [0, 1). */
  function Uniform(state: nat): real { state as real / MODULUS as real }

  class SeededRandom {
    var state: nat

    ghost predicate Valid() reads this { state < MODULUS }

    constructor (seed: int)
      ensures Valid() && state == ToUint32(seed)
    {
      state := ToUint32(seed);
    }

    /** A number in [0, 1). */
    method Next() returns (u: real)
      requires Valid()
      modifies this
      ensures Valid() && state == Step(old(state))
      ensures u == Uniform(state) && 0.0 <= u < 1.0 && u * 4294967296.0 == state as real
    {
      state := ToUint32(Imul(MULTIPLIER, state) + INCREMENT);
      u := state as real / MODULUS as real;
    }
  }

  // ---------- Without wrap-around ----------

  /** The same recurrence over the unbounded integers, for any multiplier and increment. */
  ghost function Affine(a: int, c: int, s: int, n: nat): int {
    if n == 0 then s else a * Affine(a, c, s, n - 1) + c
  }

  lemma ModAffine(a: int, c: int, x: int, m: int)
    requires m > 0
    ensures (a * (x % m) + c) % m == (a * x + c) % m
  {
    var q := x / m;
    assert x == q * m + x % m;
    assert a * x + c == (a * (x % m) + c) + (a * q) * m by {
      assert a * x == a * (q * m) + a * (x % m);
      assert a * (q * m) == (a * q) * m;
    }
    ModPlusMultiple(a * (x % m) + c, a * q, m);
  }

  lemma {:induction false} ModPlusMultiple(x: int, k: int, m: int)
    requires m > 0
    ensures (x + k * m) % m == x % m
  {
    var q, r := x / m, x % m;
    assert x + k * m == (q + k) * m + r by {
      assert (q + k) * m == q * m + k * m;
    }
    ModUnique(x + k * m, q + k, r, m);
  }

  lemma ModUnique(x: int, q: int, r: int, m: int)
    requires m > 0 && 0 <= r < m && x == q * m + r
    ensures x % m == r
  {
    var d := x / m - q;
    assert d * m == r - x % m by {
      assert d * m == (x / m) * m - q * m;
    }
    assert d >= 1 ==> d * m >= m;
    assert d <= -1 ==> d * m <= -m;
  }

  /** The signed intermediate of Math.imul does not matter once the sum is reduced. */
  lemma StepIsAffine(s: nat)
    ensures Step(s) == (1664525 * s + 1013904223) % 4294967296
  {
    var p := MULTIPLIER * s;
    ModAffine(1, INCREMENT, p, MODULUS);
    ModPlusMultiple(p % MODULUS + INCREMENT, -1, MODULUS);
  }

  lemma {:induction false} IterateIsAffine(s: nat, n: nat)
    requires s < MODULUS
    ensures Iterate(s, n) == Affine(MULTIPLIER, INCREMENT, s, n) % MODULUS
  {
    if n > 0 {
      IterateIsAffine(s, n - 1);
      StepIsAffine(Iterate(s, n - 1));
      ModAffine(MULTIPLIER, INCREMENT, Affine(MULTIPLIER, INCREMENT, s, n - 1), MODULUS);
    }
  }

  // ---------- Geometric sums ----------

  ghost function Pow(a: int, n: nat): int {
    if n == 0 then 1 else a * Pow(a, n - 1)
  }

  /** 1 + a + ... + a^(n-1) */
  ghost function Geometric(a: int, n: nat): int {
    if n == 0 then 0 else a * Geometric(a, n - 1) + 1
  }

  /** What one step adds to s. */
  ghost function Weight(a: int, c: int, s: int): int { (a - 1) * s + c }

  lemma TimesZero(w: int)
    ensures Times(w, 0) == 0
  {}

  /** From s + w g the recurrence goes to s + w (a g + 1). */
  lemma DisplacementStep(a: int, c: int, s: int, g: int)
    ensures var w := Weight(a, c, s);
            a * (s + Times(w, g)) + c == s + Times(w, a * g + 1)
  {
    var w := Weight(a, c, s);
    assert w * (a * g + 1) == a * (w * g) + w;
    assert a * (s + w * g) == a * s + a * (w * g);
  }

  lemma UnfoldAffine(a: int, c: int, s: int, n: nat)
    ensures Affine(a, c, s, 0) == s && Affine(a, c, s, n + 1) == a * Affine(a, c, s, n) + c
  {}

  lemma {:induction false} AffineDisplacement(a: int, c: int, s: int, n: nat)
    ensures Affine(a, c, s, n) == s + Times(Weight(a, c, s), Geometric(a, n))
  {
    hide Times, Weight, Geometric, Affine;
    if n == 0 {
      TimesZero(Weight(a, c, s));
      Unfold(a, 0);
      UnfoldAffine(a, c, s, 0);
    } else {
      AffineDisplacement(a, c, s, n - 1);
      Unfold(a, n - 1);
      UnfoldAffine(a, c, s, n - 1);
      DisplacementStep(a, c, s, Geometric(a, n - 1));
    }
  }

  lemma Unfold(a: int, n: nat)
    ensures Geometric(a, 0) == 0 && Pow(a, 0) == 1
    ensures Geometric(a, n + 1) == a * Geometric(a, n) + 1 && Pow(a, n + 1) == a * Pow(a, n)
  {}

  lemma DoublingStep(a: int, g: int, p: int, h: int)
    ensures a * (g * p + h) + 1 == g * (a * p) + (a * h + 1)
  {
    assert a * (g * p) == g * (a * p);
    assert a * (g * p + h) == a * (g * p) + a * h;
  }

  lemma {:induction false} GeometricDoubles(a: int, m: nat, n: nat)
    ensures Geometric(a, m + n) == Geometric(a, m) * Pow(a, n) + Geometric(a, n)
  {
    hide Geometric, Pow;
    if n == 0 {
      Unfold(a, 0);
    } else {
      GeometricDoubles(a, m, n - 1);
      Unfold(a, n - 1);
      Unfold(a, m + n - 1);
      DoublingStep(a, Geometric(a, m), Pow(a, n - 1), Geometric(a, n - 1));
    }
  }

  lemma SplitFactor(a: int, d: int, i: int, r: int, m: int)
    requires a == d * i + r
    ensures a * m == d * (i * m) + r * m
  {}

  lemma AddFours(x: int, m: int)
    ensures (4 * x + m) % 4 == m % 4
  {}

  lemma TimesOneModFour(a: int, m: int)
    requires a % 4 == 1 && m % 4 == 1
    ensures (a * m) % 4 == 1
  {
    SplitFactor(a, 4, a / 4, 1, m);
    AddFours(a / 4 * m, m);
  }

  lemma {:induction false} PowOneModFour(a: int, n: nat)
    requires a % 4 == 1
    ensures Pow(a, n) % 4 == 1
  {
    hide Pow, Geometric;
    if n == 0 {
      Unfold(a, 0);
    } else {
      PowOneModFour(a, n - 1);
      Unfold(a, n - 1);
      TimesOneModFour(a, Pow(a, n - 1));
    }
  }

  lemma OddTimesParity(w: int, x: int)
    requires w % 2 == 1
    ensures (w * x) % 2 == x % 2
  {
    SplitFactor(w, 2, w / 2, 1, x);
    AddTwos(w / 2 * x, x);
  }

  lemma AddTwos(x: int, m: int)
    ensures (2 * x + m) % 2 == m % 2
  {}

  lemma {:induction false} GeometricParity(a: int, n: nat)
    requires a % 2 == 1
    ensures Geometric(a, n) % 2 == n % 2
  {
    hide Geometric, Pow;
    if n == 0 {
      Unfold(a, 0);
    } else {
      GeometricParity(a, n - 1);
      Unfold(a, n - 1);
      OneMoreParity(a, Geometric(a, n - 1), n - 1);
    }
  }

  lemma OneMoreParity(a: int, g: int, n: int)
    requires a % 2 == 1 && g % 2 == n % 2
    ensures (a * g + 1) % 2 == (n + 1) % 2
  {
    OddTimesParity(a, g);
    var x := a * g;
    assert x % 2 == n % 2;
  }

  // ---------- Divisibility by powers of two ----------

  /** 2^k divides x. */
  ghost predicate TwoPowDivides(k: nat, x: int) {
    k == 0 || (x % 2 == 0 && TwoPowDivides(k - 1, x / 2))
  }

  lemma {:induction false} OddFactorIrrelevant(k: nat, w: int, x: int)
    requires w % 2 == 1
    ensures TwoPowDivides(k, Times(w, x)) <==> TwoPowDivides(k, x)
  {
    if k > 0 {
      OddTimesParity(w, x);
      if x % 2 == 0 {
        HalfOfTimes(w, x);
        OddFactorIrrelevant(k - 1, w, x / 2);
      }
    }
  }

  lemma HalfOfTimes(w: int, x: int)
    requires x % 2 == 0
    ensures Times(w, x) / 2 == Times(w, x / 2)
  {
    var y := x / 2;
    assert w * x == 2 * (w * y);
  }

  lemma TwiceOdd(g: int, p: int) returns (odd: int)
    requires p % 4 == 1
    ensures odd % 2 == 1 && g * p + g == 2 * Times(odd, g)
  {
    odd := (p + 1) / 2;
    assert p + 1 == 2 * odd;
    assert g * p + g == g * (p + 1) == g * (2 * odd) == 2 * (odd * g);
  }

  lemma GeometricOfEven(a: int, m: nat) returns (odd: int)
    requires a % 4 == 1
    ensures odd % 2 == 1 && Geometric(a, 2 * m) == 2 * Times(odd, Geometric(a, m))
  {
    hide Geometric, Pow, Times;
    GeometricDoubles(a, m, m);
    PowOneModFour(a, m);
    odd := TwiceOdd(Geometric(a, m), Pow(a, m));
  }

  lemma DoubleDivides(k: nat, x: int)
    requires k > 0
    ensures TwoPowDivides(k, 2 * x) <==> TwoPowDivides(k - 1, x)
  {
    assert 2 * x / 2 == x;
  }

  lemma OddDoesNot(k: nat, x: int)
    requires k > 0 && x % 2 == 1
    ensures !TwoPowDivides(k, x)
  {
  }

  /** The 2-adic valuation of 1 + a + ... + a^(n-1) is that of n when a is 1 modulo 4. */
  lemma {:induction false} GeometricValuation(k: nat, a: int, n: nat)
    requires a % 4 == 1
    ensures TwoPowDivides(k, Geometric(a, n)) <==> TwoPowDivides(k, n)
  {
    hide Geometric, Times;
    if k > 0 {
      hide TwoPowDivides;
      GeometricParity(a, n);
      if n % 2 == 0 {
        var m := n / 2;
        var odd := GeometricOfEven(a, m);
        DoubleDivides(k, Times(odd, Geometric(a, m)));
        OddFactorIrrelevant(k - 1, odd, Geometric(a, m));
        GeometricValuation(k - 1, a, m);
        DoubleDivides(k, m);
      } else {
        OddDoesNot(k, Geometric(a, n));
        OddDoesNot(k, n);
      }
    }
  }

  ghost function Pow2(k: nat): nat {
    if k == 0 then 1 else 2 * Pow2(k - 1)
  }

  lemma {:induction false} TwoPowDividesIsMod(k: nat, x: int)
    ensures Pow2(k) > 0
    ensures TwoPowDivides(k, x) <==> x % Pow2(k) == 0
  {
    if k == 0 {
      assert x % 1 == 0;
    } else {
      var p := Pow2(k - 1);
      TwoPowDividesIsMod(k - 1, x / 2);
      HalveMod(x, p);
    }
  }

  lemma EvenTimes(h: int, s: int)
    ensures (2 * h) * s == 2 * (h * s)
  {}

  lemma HalveMod(x: int, p: int)
    requires p > 0
    ensures x % (2 * p) == 0 <==> x % 2 == 0 && (x / 2) % p == 0
  {
    if x % (2 * p) == 0 {
      var q := x / (2 * p);
      EvenTimes(p, q);
      assert p * q == q * p;
      ModUnique(x / 2, q, 0, p);
    } else if x % 2 == 0 && (x / 2) % p == 0 {
      var q := (x / 2) / p;
      EvenTimes(p, q);
      assert q * (2 * p) == (2 * p) * q && p * q == q * p;
      ModUnique(x, q, 0, 2 * p);
    }
  }

  // ---------- The period ----------

  lemma OddWeight(a: int, c: int, s: int)
    requires a % 2 == 1 && c % 2 == 1
    ensures Weight(a, c, s) % 2 == 1
  {
    EvenTimes((a - 1) / 2, s);
  }

  /** Modulo 2^k, with multiplier 1 mod 4 and odd increment, the orbit closes exactly at the multiples of 2^k. */
  lemma OrbitCloses(k: nat, a: int, c: int, s: int, n: nat)
    requires a % 4 == 1 && c % 2 == 1
    ensures TwoPowDivides(k, Affine(a, c, s, n) - s) <==> TwoPowDivides(k, n)
  {
    hide TwoPowDivides, Affine, Geometric, Times, Weight;
    AffineDisplacement(a, c, s, n);
    OddWeight(a, c, s) by { OddFromFour(a); }
    OddFactorIrrelevant(k, Weight(a, c, s), Geometric(a, n));
    GeometricValuation(k, a, n);
  }

  lemma OddFromFour(a: int)
    requires a % 4 == 1
    ensures a % 2 == 1
  {
    ModUnique(a, 2 * (a / 4), 1, 2);
  }

  /** From any seed the generator is back at its starting state after exactly the multiples of 2^32 draws. */
  lemma FullPeriod(seed: nat, n: nat)
    requires seed < MODULUS
    ensures Iterate(seed, n) == seed <==> n % MODULUS == 0
  {
    hide TwoPowDivides, Affine, Iterate, Pow2;
    var x := Affine(MULTIPLIER, INCREMENT, seed, n);
    IterateIsAffine(seed, n);
    SameResidue(x, seed);
    Pow2Of32();
    TwoPowDividesIsMod(32, x - seed);
    OrbitCloses(32, MULTIPLIER, INCREMENT, seed, n);
    TwoPowDividesIsMod(32, n);
  }

  lemma SameResidue(x: int, s: nat)
    requires s < MODULUS
    ensures x % MODULUS == s <==> (x - s) % MODULUS == 0
  {}

  lemma Pow2Of32()
    ensures Pow2(32) == MODULUS
  {
    assert Pow2(8) == 0x100;
    assert Pow2(16) == 0x1_0000;
    assert Pow2(24) == 0x100_0000;
  }

  lemma {:induction false} IterateSplits(s: nat, m: nat, n: nat)
    ensures Iterate(s, m + n) == Iterate(Iterate(s, m), n)
  {
    if n > 0 { IterateSplits(s, m, n - 1); }
  }

  lemma IterateInRange(s: nat, n: nat)
    requires s < MODULUS
    ensures Iterate(s, n) < MODULUS
  {}

  /** Two draws meet again only a whole number of periods apart. */
  lemma StatesRepeatWithPeriod(seed: nat, i: nat, j: nat)
    requires seed < MODULUS && i <= j
    ensures Iterate(seed, i) == Iterate(seed, j) <==> (j - i) % MODULUS == 0
  {
    IterateSplits(seed, i, j - i);
    IterateInRange(seed, i);
    FullPeriod(Iterate(seed, i), j - i);
  }

  /** The step is a bijection on 32-bit states: no two states share a successor... */
  lemma StepInjective(s: nat, t: nat)
    requires s < MODULUS && t < MODULUS && Step(s) == Step(t)
    ensures s == t
  {
    FullPeriod(s, MODULUS);
    FullPeriod(t, MODULUS);
    IterateSplits(s, 1, MODULUS - 1);
    IterateSplits(t, 1, MODULUS - 1);
    assert Iterate(s, 1) == Step(Iterate(s, 0)) && Iterate(t, 1) == Step(Iterate(t, 0));
  }

  /** ... and every state is drawn, whatever the seed. */
  lemma EveryStateIsDrawn(seed: nat, target: nat) returns (n: nat)
    requires seed < MODULUS && target < MODULUS
    ensures n < MODULUS && Iterate(seed, n) == target
  {
    var seen := Drawn(seed, MODULUS);
    DrawnSize(seed, MODULUS);
    DrawnInRange(seed, MODULUS);
    assert target !in seen ==> |seen + {target}| == |seen| + 1;
    BoundedSetSize(seen + {target}, MODULUS);
    n := DrawnAt(seed, MODULUS, target);
  }

  ghost function Drawn(seed: nat, n: nat): set<nat> {
    if n == 0 then {} else Drawn(seed, n - 1) + {Iterate(seed, n - 1)}
  }

  lemma {:induction false} DrawnAt(seed: nat, n: nat, t: nat) returns (i: nat)
    requires t in Drawn(seed, n)
    ensures i < n && Iterate(seed, i) == t
  {
    if t == Iterate(seed, n - 1) { i := n - 1; } else { i := DrawnAt(seed, n - 1, t); }
  }

  lemma {:induction false} DrawnInRange(seed: nat, n: nat)
    requires seed < MODULUS
    ensures forall t :: t in Drawn(seed, n) ==> t < MODULUS
  {
    if n > 0 {
      DrawnInRange(seed, n - 1);
      IterateInRange(seed, n - 1);
    }
  }

  lemma {:induction false} DrawnSize(seed: nat, n: nat)
    requires seed < MODULUS && n <= MODULUS
    ensures |Drawn(seed, n)| == n
  {
    hide Iterate;
    if n > 0 {
      DrawnSize(seed, n - 1);
      if Iterate(seed, n - 1) in Drawn(seed, n - 1) {
        var i := DrawnAt(seed, n - 1, Iterate(seed, n - 1));
        StatesRepeatWithPeriod(seed, i, n - 1);
      }
    }
  }

  lemma {:induction false} BoundedSetSize(s: set<nat>, m: nat)
    requires forall t :: t in s ==> t < m
    ensures |s| <= m
  {
    if m > 0 {
      var rest := s - {m - 1};
      BoundedSetSize(rest, m - 1);
      assert s <= rest + {m - 1};
      if m - 1 in s { assert s == rest + {m - 1}; } else { assert s == rest; }
    } else {
      assert forall t :: t !in s;
    }
  }
}
