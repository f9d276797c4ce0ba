/** Lists obtained from others by leaving out elements. */
module Subsequences {

  /** `a` can be obtained from `b` by leaving out elements. */
  ghost predicate IsSubsequence<T>(a: seq<T>, b: seq<T>)
    decreases |b|
  {
    a == [] ||
    (b != [] &&
     if a[|a| - 1] == b[|b| - 1] then IsSubsequence(a[..|a| - 1], b[..|b| - 1])
     else IsSubsequence(a, b[..|b| - 1]))
  }

  lemma {:induction false} SubsequenceInit<T>(a: seq<T>, b: seq<T>)
    requires a != [] && IsSubsequence(a, b)
    ensures IsSubsequence(a[..|a| - 1], b)
    decreases |b|
  {
    var a', b' := a[..|a| - 1], b[..|b| - 1];
    if a[|a| - 1] != b[|b| - 1] {
      SubsequenceInit(a, b');
    }
    if a' != [] {
      SubsequenceInit(a', b');
    }
  }

  lemma SubsequenceMore<T>(a: seq<T>, b: seq<T>, m: T)
    requires IsSubsequence(a, b)
    ensures IsSubsequence(a, b + [m])
    ensures IsSubsequence(a + [m], b + [m])
  {
    assert (b + [m])[..|b|] == b && (a + [m])[..|a|] == a;
    if a != [] {
      SubsequenceInit(a, b);
    }
  }

  /** `kept` is what is left of `all` when each of the stretches has been cut out in turn. */
  ghost predicate Cuts<T(!new)>(all: seq<T>, kept: seq<T>, cuts: seq<seq<T>>)
    decreases |cuts|
  {
    if cuts == [] then kept == all
    else
      var n := |cuts| - 1;
      exists a, b :: kept == a + b && Cuts(all, a + cuts[n] + b, cuts[..n])
  }

  lemma CutsOnce<T(!new)>(all: seq<T>, a: seq<T>, cut: seq<T>, b: seq<T>, cuts: seq<seq<T>>)
    requires Cuts(all, a + cut + b, cuts)
    ensures Cuts(all, a + b, cuts + [cut])
  {
    var more := cuts + [cut];
    assert more[..|cuts|] == cuts && more[|cuts|] == cut;
    assert a + b == a + b && Cuts(all, a + more[|more| - 1] + b, more[..|more| - 1]);
  }

  lemma {:induction false} CutsAppend<T(!new)>(all: seq<T>, kept: seq<T>, cuts: seq<seq<T>>, more: seq<T>)
    requires Cuts(all, kept, cuts)
    ensures Cuts(all + more, kept + more, cuts)
    decreases |cuts|
  {
    if cuts != [] {
      var n := |cuts| - 1;
      var a, b :| kept == a + b && Cuts(all, a + cuts[n] + b, cuts[..n]);
      CutsAppend(all, a + cuts[n] + b, cuts[..n], more);
      Assoc4(a, cuts[n], b, more);
      assert kept + more == a + (b + more);
    }
  }

  lemma Assoc4<T>(a: seq<T>, b: seq<T>, c: seq<T>, d: seq<T>)
    ensures a + b + c + d == a + b + (c + d)
  {
  }
}
