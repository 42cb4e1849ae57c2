/** Design variables and the values a normalised sample stands for. */
module DesignSpace {
  import opened CampaignTypes

  datatype Variable =
    | Continuous(name: string, lo: real, hi: real)
    | Integer(name: string, lo: real, hi: real)
    | Listed(name: string, values: seq<Value>)  // discrete or categorical

  /** `Math.round` */
  function Round(x: real): int { (x + 0.5).Floor }

  /** The point that divides the way from lo to hi as t does [0, 1]. */
  function Between(lo: real, hi: real, t: real): real { lo + t * (hi - lo) }

  /** The position of t in a list whose elements share [0, 1) equally. */
  function Position(len: nat, t: real): int { (t * len as real).Floor }

  /** sampleVar: the value of t in [0, 1) along a variable; an empty value list yields 0. */
  function SampleVar(v: Variable, t: real): Value {
    match v
    case Continuous(_, lo, hi) => Number(Between(lo, hi, t))
    case Integer(_, lo, hi) => Number(Round(Between(lo, hi, t)) as real)
    case Listed(_, values) =>
      var i := Position(|values|, t);
      var k := if i < |values| - 1 then i else |values| - 1;
      if 0 <= k < |values| then values[k] else Number(0.0)
  }

  /** An integer variable takes the whole number nearest to the point between its bounds, halves upwards. */
  lemma IntegerIsNearest(name: string, lo: real, hi: real, t: real, k: int)
    ensures SampleVar(Integer(name, lo, hi), t) == Number(k as real) <==>
            k as real - 0.5 <= lo + t * (hi - lo) < k as real + 0.5
  {
    var x := Between(lo, hi, t);
    FloorIs(x + 0.5, k);
    assert k as real - 0.5 <= x < k as real + 0.5 <==> k as real <= x + 0.5 < k as real + 1.0;
    hide Between;
    assert SampleVar(Integer(name, lo, hi), t) == Number(Round(x) as real);
  }

  lemma FloorIs(x: real, k: int)
    ensures x.Floor == k <==> k as real <= x < k as real + 1.0
  {}

  /** A listed variable takes its k-th value on the k-th of equal shares of [0, 1). */
  lemma ListedInEqualShares(name: string, values: seq<Value>, t: real, k: nat)
    requires k < |values|
    requires k as real / |values| as real <= t < (k + 1) as real / |values| as real
    ensures SampleVar(Listed(name, values), t) == values[k]
  {
    var m := |values| as real;
    Scaled(k as real, t, m);
    Scaled((k + 1) as real, t, m);
    FloorIs(t * m, k);
    hide Position;
    assert Position(|values|, t) == k;
  }

  lemma Scaled(x: real, t: real, m: real)
    requires m > 0.0
    ensures x / m <= t <==> x <= t * m
  {
    var d := x / m;
    assert d * m == x;
    assert (t - d) * m == t * m - x;
  }

  /** No other variable has the name of variable vi. */
  ghost predicate OwnName(vars: seq<Variable>, vi: nat)
    requires vi < |vars|
  {
    forall j :: 0 <= j < |vars| && j != vi ==> vars[j].name != vars[vi].name
  }

  ghost function Names(vars: seq<Variable>): set<string> {
    set v | v in vars :: v.name
  }
}
