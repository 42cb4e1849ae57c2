/** Facts about sequences that several modules need. */
module Sequences {

  function Flatten<T>(ss: seq<seq<T>>): seq<T> {
    if ss == [] then [] else Flatten(ss[..|ss| - 1]) + ss[|ss| - 1]
  }

  lemma {:induction false} FlattenMember<T>(ss: seq<seq<T>>, x: T)
    ensures x in Flatten(ss) <==> exists k :: 0 <= k < |ss| && x in ss[k]
  {
    if ss != [] {
      var n := |ss| - 1;
      FlattenMember(ss[..n], x);
      if x in Flatten(ss) && x !in ss[n] {
        var k :| 0 <= k < n && x in ss[..n][k];
        assert x in ss[k];
      }
      if k :| 0 <= k < |ss| && x in ss[k] {
        assert k < n ==> x in ss[..n][k];
      }
    }
  }

  lemma FlattenAppend<T>(ss: seq<seq<T>>, s: seq<T>)
    ensures Flatten(ss + [s]) == Flatten(ss) + s
  {
    assert (ss + [s])[..|ss|] == ss;
  }

  lemma {:induction false} FlattenFront<T>(ss: seq<seq<T>>)
    requires ss != []
    ensures Flatten(ss) == ss[0] + Flatten(ss[1..])
  {
    var n := |ss| - 1;
    if n == 0 {
      FlattenAppend([], ss[0]);
      assert ss == [] + [ss[0]];
      assert ss[1..] == [];
    } else {
      FlattenFront(ss[..n]);
      assert ss[..n][1..] == ss[1..][..n - 1];
      Regroup(ss[0], Flatten(ss[1..][..n - 1]), ss[n]);
    }
  }

  ghost predicate NoRepeats<T(!new)>(s: seq<T>) {
    forall p, q :: 0 <= p < q < |s| ==> s[p] != s[q]
  }

  lemma Regroup<T>(a: seq<T>, b: seq<T>, c: seq<T>)
    ensures (a + b) + c == a + (b + c)
  {}

  lemma LongerFront<T>(a: seq<T>, x: seq<T>, b: seq<T>, y: seq<T>)
    requires a + x == b + y && |a| >= |b|
    ensures |a| - |b| <= |y| && a == b + y[..|a| - |b|]
  {
    assert |a + x| == |b + y|;
    assert a == (a + x)[..|a|];
    assert (b + y)[..|a|] == b + y[..|a| - |b|];
  }

  // ---------- The elements with a property, in order ----------

  function Select<T(!new)>(s: seq<T>, keep: T -> bool): (r: seq<T>)
    ensures forall x :: x in r <==> x in s && keep(x)
  {
    if s == [] then []
    else
      var n := |s| - 1;
      assert s == s[..n] + [s[n]];
      if keep(s[n]) then Select(s[..n], keep) + [s[n]] else Select(s[..n], keep)
  }

  lemma {:induction false} SelectAppend<T(!new)>(a: seq<T>, b: seq<T>, keep: T -> bool)
    ensures Select(a + b, keep) == Select(a, keep) + Select(b, keep)
  {
    if b == [] {
      assert a + b == a;
    } else {
      var n := |b| - 1;
      SelectAppend(a, b[..n], keep);
      assert (a + b)[..|a| + n] == a + b[..n] && (a + b)[|a| + n] == b[n];
    }
  }

  lemma SelectOne<T(!new)>(x: T, keep: T -> bool)
    ensures Select([x], keep) == if keep(x) then [x] else []
  {
    assert [x][..0] == [];
  }

  lemma {:induction false} SelectSame<T(!new)>(s: seq<T>, f: T -> bool, g: T -> bool)
    requires forall x :: x in s ==> f(x) == g(x)
    ensures Select(s, f) == Select(s, g)
  {
    if s != [] {
      var n := |s| - 1;
      assert s == s[..n] + [s[n]];
      SelectSame(s[..n], f, g);
    }
  }

  /** Positions, and the elements there. */
  ghost predicate InRange(n: nat, at: seq<nat>) {
    forall i :: i in at ==> i < n
  }

  function Pick<T>(s: seq<T>, at: seq<nat>): (picked: seq<T>)
    requires InRange(|s|, at)
    ensures |picked| == |at| && forall p :: 0 <= p < |at| ==> at[p] < |s| && picked[p] == s[at[p]]
  {
    assert forall p :: 0 <= p < |at| ==> at[p] in at;
    seq(|at|, p requires 0 <= p < |at| => s[at[p]])
  }

  /** Positions in ascending order, all below n. */
  ghost predicate Positions(at: seq<nat>, n: nat) {
    (forall k :: 0 <= k < |at| ==> at[k] < n) && forall k, l :: 0 <= k < l < |at| ==> at[k] < at[l]
  }

  // ---------- Taking one element out ----------

  lemma RemoveAt<T>(s: seq<T>, p: nat)
    requires p < |s|
    ensures multiset(s) == multiset(s[..p] + s[p + 1..]) + multiset{s[p]}
  {
    assert s == s[..p] + [s[p]] + s[p + 1..];
  }

  lemma CancelOne<T>(a: multiset<T>, b: multiset<T>, x: T)
    requires a + multiset{x} == b + multiset{x}
    ensures a == b
  {
    assert a == (a + multiset{x}) - multiset{x};
    assert b == (b + multiset{x}) - multiset{x};
  }

  /** Where a permutation holds the last element of a sequence, and that the others are a permutation too. */
  lemma TakeOne<T>(rs: seq<T>, ss: seq<T>) returns (p: nat)
    requires multiset(rs) == multiset(ss) && rs != []
    ensures p < |ss| && ss[p] == rs[|rs| - 1]
    ensures multiset(rs[..|rs| - 1]) == multiset(ss[..p] + ss[p + 1..])
  {
    var n := |rs| - 1;
    assert rs[n] in multiset(ss);
    p :| 0 <= p < |ss| && ss[p] == rs[n];
    RemoveAt(ss, p);
    RemoveAt(rs, n);
    assert rs[..n] + rs[n + 1..] == rs[..n];
    CancelOne(multiset(rs[..n]), multiset(ss[..p] + ss[p + 1..]), rs[n]);
  }

  lemma PermutationOfNone<T>(s: seq<T>)
    requires multiset(s) == multiset{}
    ensures s == []
  {
    assert |s| == |multiset(s)|;
  }

  // ---------- Counting occurrences ----------

  lemma {:induction false} CountDistinct<T(!new)>(s: seq<T>, x: T)
    requires NoRepeats(s)
    ensures multiset(s)[x] <= 1
  {
    if s != [] {
      CountDistinct(s[1..], x);
      assert s == [s[0]] + s[1..];
      if s[0] == x { assert x !in s[1..]; }
    }
  }

  lemma CountTwice<T>(s: seq<T>, i: nat, j: nat)
    requires i < j < |s| && s[i] == s[j]
    ensures multiset(s)[s[i]] >= 2
  {
    assert s == s[..i] + [s[i]] + s[i + 1..j] + [s[j]] + s[j + 1..];
  }
}
