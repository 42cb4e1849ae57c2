/** The stable sort that `Array.prototype.sort` promises, as a function on values. */
module Sorting {
  import opened Sequences

  /** The comparator orders any two elements, and the order is transitive. */
  ghost predicate TotalPreorder<T(!new)>(le: (T, T) -> bool) {
    && (forall x, y :: le(x, y) || le(y, x))
    && (forall x, y, z :: le(x, y) && le(y, z) ==> le(x, z))
  }

  ghost predicate Sorted<T>(s: seq<T>, le: (T, T) -> bool) {
    forall i, j :: 0 <= i < j < |s| ==> le(s[i], s[j])
  }

  /** Places x before the first element it may precede, so equal elements keep their order. */
  function Insert<T>(x: T, s: seq<T>, le: (T, T) -> bool): (r: seq<T>)
    ensures |r| == |s| + 1
  {
    if s == [] then [x]
    else if le(x, s[0]) then [x] + s
    else [s[0]] + Insert(x, s[1..], le)
  }

  function StableSort<T>(s: seq<T>, le: (T, T) -> bool): (r: seq<T>)
    ensures |r| == |s|
  {
    if s == [] then [] else Insert(s[0], StableSort(s[1..], le), le)
  }

  lemma FrontMultiset<T>(x: T, s: seq<T>)
    ensures multiset([x] + s) == multiset(s) + multiset{x}
  {}

  lemma {:induction false} InsertMultiset<T>(x: T, s: seq<T>, le: (T, T) -> bool)
    ensures multiset(Insert(x, s, le)) == multiset(s) + multiset{x}
  {
    if s == [] {
    } else if le(x, s[0]) {
      FrontMultiset(x, s);
    } else {
      var rest := Insert(x, s[1..], le);
      InsertMultiset(x, s[1..], le);
      hide Insert;
      FrontMultiset(s[0], rest);
      FrontMultiset(s[0], s[1..]);
      assert s == [s[0]] + s[1..];
    }
  }

  lemma {:induction false} InsertSorted<T(!new)>(x: T, s: seq<T>, le: (T, T) -> bool)
    requires TotalPreorder(le) && Sorted(s, le)
    ensures Sorted(Insert(x, s, le), le)
  {
    if s != [] && !le(x, s[0]) {
      InsertSorted(x, s[1..], le);
      InsertMultiset(x, s[1..], le);
      var r := Insert(x, s[1..], le);
      forall k | 0 <= k < |r| ensures le(s[0], r[k]) {
        assert r[k] in multiset(r);
        if r[k] != x { assert r[k] in multiset(s[1..]); }
      }
    }
  }

  lemma {:induction false} SortMultiset<T>(s: seq<T>, le: (T, T) -> bool)
    ensures multiset(StableSort(s, le)) == multiset(s)
  {
    if s != [] {
      SortMultiset(s[1..], le);
      InsertMultiset(s[0], StableSort(s[1..], le), le);
      assert s == [s[0]] + s[1..];
    }
  }

  lemma {:induction false} SortSorted<T(!new)>(s: seq<T>, le: (T, T) -> bool)
    requires TotalPreorder(le)
    ensures Sorted(StableSort(s, le), le)
  {
    if s != [] {
      SortSorted(s[1..], le);
      InsertSorted(s[0], StableSort(s[1..], le), le);
    }
  }

  /** Elements that order the same, such as those of class c, keep their order. */
  lemma {:induction false} SortIsStable<T(!new)>(s: seq<T>, le: (T, T) -> bool, c: T -> bool)
    requires forall x, y :: c(x) && c(y) ==> le(x, y)
    ensures Select(StableSort(s, le), c) == Select(s, c)
  {
    if s != [] {
      SortIsStable(s[1..], le, c);
      InsertIsStable(s[0], StableSort(s[1..], le), le, c);
      SelectAppend([s[0]], s[1..], c);
      assert s == [s[0]] + s[1..];
    }
  }

  lemma {:induction false} InsertIsStable<T(!new)>(x: T, s: seq<T>, le: (T, T) -> bool, c: T -> bool)
    requires forall y, z :: c(y) && c(z) ==> le(y, z)
    ensures Select(Insert(x, s, le), c) == Select([x], c) + Select(s, c)
  {
    hide Select;
    SelectOne(x, c);
    if s == [] {
      SelectAppend([x], [], c);
      assert [x] + [] == [x];
    } else if le(x, s[0]) {
      SelectAppend([x], s, c);
    } else {
      InsertIsStable(x, s[1..], le, c);
      SelectAppend([s[0]], Insert(x, s[1..], le), c);
      SelectAppend([s[0]], s[1..], c);
      SelectOne(s[0], c);
      assert s == [s[0]] + s[1..];
      hide Insert, Select;
      OneIsEmpty(Select([x], c), Select([s[0]], c), Select(s[1..], c));
    }
  }

  lemma OneIsEmpty<T>(a: seq<T>, b: seq<T>, rest: seq<T>)
    ensures a == [] || b == [] ==> b + (a + rest) == a + (b + rest)
  {
    if a == [] { assert a + rest == rest && a + (b + rest) == b + rest; }
    if b == [] { assert b + rest == rest && b + (a + rest) == a + rest; }
  }

  lemma SortMembers<T>(s: seq<T>, le: (T, T) -> bool)
    ensures forall x :: x in StableSort(s, le) <==> x in s
  {
    SortMultiset(s, le);
    hide StableSort;
    assert forall x :: x in s <==> x in multiset(s);
    assert forall x :: x in StableSort(s, le) <==> x in multiset(StableSort(s, le));
  }
}
