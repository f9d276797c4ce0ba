/** Sorting, as the source gets it from its library: any permutation that the order accepts. */
module Sorting {

  function LeNat(): (nat, nat) -> bool { (x, y) => x <= y }

  ghost predicate TotalPreorder<T(!new)>(le: (T, T) -> bool) {
    (forall x, y :: le(x, y) || le(y, x)) &&
    (forall x, y, z :: le(x, y) && le(y, z) ==> le(x, z))
  }

  ghost predicate SortedBy<T>(s: seq<T>, le: (T, T) -> bool) {
    forall i, j :: 0 <= i < j < |s| ==> le(s[i], s[j])
  }

  function Insert<T>(x: T, s: seq<T>, le: (T, T) -> bool): (r: seq<T>)
    ensures multiset(r) == multiset([x]) + multiset(s)
  {
    if s == [] then [x]
    else if le(x, s[0]) then [x] + s
    else
      assert s == [s[0]] + s[1..];
      [s[0]] + Insert(x, s[1..], le)
  }

  function Sorted<T>(s: seq<T>, le: (T, T) -> bool): (r: seq<T>)
    ensures multiset(r) == multiset(s) && |r| == |s|
  {
    if s == [] then []
    else
      assert s == [s[0]] + s[1..];
      var r := Insert(s[0], Sorted(s[1..], le), le);
      assert |multiset(r)| == |r| && |multiset(s)| == |s|;
      r
  }

  lemma {:induction false} InsertSorted<T(!new)>(x: T, s: seq<T>, le: (T, T) -> bool)
    requires TotalPreorder(le) && SortedBy(s, le)
    ensures SortedBy(Insert(x, s, le), le)
  {
    if s != [] && !le(x, s[0]) {
      InsertSorted(x, s[1..], le);
      var tail := Insert(x, s[1..], le);
      forall k | 0 <= k < |tail|
        ensures le(s[0], tail[k])
      {
        assert tail[k] in multiset(tail);
        assert tail[k] == x || tail[k] in s[1..];
      }
    } else if s != [] {
      assert forall k :: 0 <= k < |s| ==> le(x, s[k]);
    }
  }

  /** Insertion stops before the first element that may follow the new one. */
  lemma {:induction false} InsertPlace<T>(x: T, s: seq<T>, le: (T, T) -> bool) returns (before: seq<T>, after: seq<T>)
    ensures s == before + after && Insert(x, s, le) == before + ([x] + after)
    ensures forall i :: 0 <= i < |before| ==> !le(x, before[i])
  {
    before, after := [], s;
    if s != [] && !le(x, s[0]) {
      var b, a := InsertPlace(x, s[1..], le);
      before, after := [s[0]] + b, a;
      Cons(s[0], b, a);
      Cons(s[0], b, [x] + a);
      assert s == [s[0]] + s[1..];
    }
  }

  lemma Cons<T>(x: T, b: seq<T>, a: seq<T>)
    ensures [x] + b + a == [x] + (b + a)
  {
  }

  lemma {:induction false} SortedIsSorted<T(!new)>(s: seq<T>, le: (T, T) -> bool)
    requires TotalPreorder(le)
    ensures SortedBy(Sorted(s, le), le)
  {
    if s != [] {
      SortedIsSorted(s[1..], le);
      InsertSorted(s[0], Sorted(s[1..], le), le);
    }
  }

  /** The library call. Callers know only that the result is a sorted permutation. */
  method Sort<T(!new)>(s: seq<T>, le: (T, T) -> bool) returns (r: seq<T>)
    requires TotalPreorder(le)
    ensures SortedBy(r, le) && multiset(r) == multiset(s) && |r| == |s|
  {
    SortedIsSorted(s, le);
    r := Sorted(s, le);
  }

  lemma HeadBelow<T(!new)>(a: seq<T>, x: T, le: (T, T) -> bool)
    requires SortedBy(a, le) && x in a && le(x, x)
    ensures le(a[0], x)
  {
    var i :| 0 <= i < |a| && a[i] == x;
  }

  lemma SameTail<T>(a: seq<T>, b: seq<T>)
    requires a != [] && b != [] && a[0] == b[0] && multiset(a) == multiset(b)
    ensures multiset(a[1..]) == multiset(b[1..])
  {
    assert a == [a[0]] + a[1..] && b == [b[0]] + b[1..];
    assert multiset(a[1..]) == multiset(a) - multiset{a[0]} == multiset(b[1..]);
  }

  lemma SameHead<T(!new)>(a: seq<T>, b: seq<T>, le: (T, T) -> bool)
    requires a != [] && b != [] && SortedBy(a, le) && SortedBy(b, le) && multiset(a) == multiset(b)
    requires forall x :: le(x, x)
    ensures le(a[0], b[0]) && le(b[0], a[0])
  {
    assert a[0] in multiset(b) && b[0] in multiset(a);
    HeadBelow(a, b[0], le);
    HeadBelow(b, a[0], le);
  }

  /** When no two different elements are equivalent, there is only one sorted permutation. */
  lemma {:induction false} SortedUnique<T(!new)>(a: seq<T>, b: seq<T>, le: (T, T) -> bool)
    requires SortedBy(a, le) && SortedBy(b, le) && multiset(a) == multiset(b)
    requires forall x, y :: le(x, y) && le(y, x) ==> x == y
    requires forall x :: le(x, x)
    ensures a == b
  {
    assert |a| == |multiset(a)| == |multiset(b)| == |b|;
    if a != [] {
      SameHead(a, b, le);
      SameTail(a, b);
      SortedUnique(a[1..], b[1..], le);
    }
  }

  /** A list with the multiplicities of a set has no duplicates. */
  lemma NoDuplicates<T>(out: seq<T>, s: set<T>, i: nat, j: nat)
    requires multiset(out) == multiset(s) && i < j < |out|
    ensures out[i] != out[j]
  {
    assert out == out[..j] + out[j..];
    assert out[i] in out[..j] && multiset(out)[out[i]] <= 1;
    assert out[j] in multiset(out[j..]);
  }
}
