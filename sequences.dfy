/** Order-preserving filtering of sequences, as `Array.prototype.filter` does it. */
module Sequences {

  /** The elements of `s` that satisfy `keep`, in their original order. */
  function Filter<T>(keep: T -> bool, s: seq<T>): (r: seq<T>)
    ensures |r| <= |s|
    ensures forall x :: x in r ==> x in s && keep(x)
  {
    if s == [] then []
    else if keep(s[0]) then [s[0]] + Filter(keep, s[1..])
    else Filter(keep, s[1..])
  }

  /** Filtering distributes over concatenation: a pass over `a + b` is a pass over `a` then over `b`. */
  lemma {:induction false} FilterAppend<T>(keep: T -> bool, a: seq<T>, b: seq<T>)
    ensures Filter(keep, a + b) == Filter(keep, a) + Filter(keep, b)
  {
    if a == [] {
      assert a + b == b;
    } else {
      assert (a + b)[1..] == a[1..] + b;
      FilterAppend(keep, a[1..], b);
    }
  }

  /** An element is kept exactly when it occurs in the input and satisfies the predicate. */
  lemma {:induction false} FilterMembership<T>(keep: T -> bool, s: seq<T>, x: T)
    ensures x in Filter(keep, s) <==> x in s && keep(x)
  {
    if s != [] {
      FilterMembership(keep, s[1..], x);
      assert s == [s[0]] + s[1..];
    }
  }

  /** Nothing is dropped when every element satisfies the predicate. */
  lemma {:induction false} FilterKeepsAll<T>(keep: T -> bool, s: seq<T>)
    requires forall i :: 0 <= i < |s| ==> keep(s[i])
    ensures Filter(keep, s) == s
  {
    if s != [] {
      FilterKeepsAll(keep, s[1..]);
    }
  }

  /** The result is empty exactly when no element satisfies the predicate. */
  lemma {:induction false} FilterEmpty<T>(keep: T -> bool, s: seq<T>)
    ensures Filter(keep, s) == [] <==> forall i :: 0 <= i < |s| ==> !keep(s[i])
  {
    if s != [] {
      FilterEmpty(keep, s[1..]);
      if !keep(s[0]) {
        forall i | 0 <= i < |s| && i != 0 ensures keep(s[i]) == keep(s[1..][i - 1]) {}
      }
    }
  }

  /** Every position in `xs` moved one place to the right. */
  function Shift(xs: seq<nat>): seq<nat>
  {
    seq(|xs|, j requires 0 <= j < |xs| => xs[j] + 1)
  }

  /** The positions in `s` of the elements `Filter` keeps, in increasing order. */
  function KeptIndices<T>(keep: T -> bool, s: seq<T>): (idx: seq<nat>)
    ensures |idx| == |Filter(keep, s)|
    ensures forall j :: 0 <= j < |idx| ==> idx[j] < |s|
  {
    if s == [] then []
    else if keep(s[0]) then [0] + Shift(KeptIndices(keep, s[1..]))
    else Shift(KeptIndices(keep, s[1..]))
  }

  /** `sub` is `s` restricted to the positions in `idx`, which ascend strictly. */
  ghost predicate IsRestriction<T>(sub: seq<T>, s: seq<T>, idx: seq<nat>)
  {
    && |idx| == |sub|
    && (forall j :: 0 <= j < |idx| ==> idx[j] < |s| && sub[j] == s[idx[j]])
    && (forall j, k :: 0 <= j < k < |idx| ==> idx[j] < idx[k])
  }

  /** A restriction of `tail` stays one of `[x] + tail` once its positions are shifted, with or without `x` in front. */
  lemma {:induction false} RestrictionShift<T>(x: T, sub: seq<T>, tail: seq<T>, idx: seq<nat>)
    requires IsRestriction(sub, tail, idx)
    ensures IsRestriction(sub, [x] + tail, Shift(idx))
    ensures IsRestriction([x] + sub, [x] + tail, [0] + Shift(idx))
  {
    var s, sh := [x] + tail, Shift(idx);
    forall j | 0 <= j < |sh| ensures sh[j] < |s| && sub[j] == s[sh[j]] {
      assert sub[j] == tail[idx[j]];
    }
    var r, ix := [x] + sub, [0] + sh;
    forall j | 0 <= j < |ix| ensures ix[j] < |s| && r[j] == s[ix[j]] {
      if j > 0 { assert r[j] == sub[j - 1] && ix[j] == sh[j - 1]; }
    }
    forall j, k | 0 <= j < k < |ix| ensures ix[j] < ix[k] {
      assert ix[k] == sh[k - 1];
      if j > 0 { assert ix[j] == sh[j - 1] && idx[j - 1] < idx[k - 1]; }
    }
  }

  lemma {:induction false} KeptIndicesRestrict<T>(keep: T -> bool, s: seq<T>)
    ensures IsRestriction(Filter(keep, s), s, KeptIndices(keep, s))
  {
    if s != [] {
      KeptIndicesRestrict(keep, s[1..]);
      assert s == [s[0]] + s[1..];
      RestrictionShift(s[0], Filter(keep, s[1..]), s[1..], KeptIndices(keep, s[1..]));
    }
  }

  lemma {:induction false} KeptIndicesExact<T>(keep: T -> bool, s: seq<T>, i: nat)
    requires i < |s|
    ensures i in KeptIndices(keep, s) <==> keep(s[i])
  {
    var rest := KeptIndices(keep, s[1..]);
    if i == 0 {
      assert 0 !in Shift(rest);
    } else {
      KeptIndicesExact(keep, s[1..], i - 1);
      if i - 1 in rest {
        var j :| 0 <= j < |rest| && rest[j] == i - 1;
        assert Shift(rest)[j] == i;
      }
    }
  }

  /**
   * The result of `Filter` is the subsequence of `s` at exactly the positions whose
   * element satisfies `keep`, in the order those positions occur in `s`.
   */
  lemma {:induction false} FilterIsOrderedRestriction<T>(keep: T -> bool, s: seq<T>)
    ensures IsRestriction(Filter(keep, s), s, KeptIndices(keep, s))
    ensures forall i :: 0 <= i < |s| ==> (i in KeptIndices(keep, s) <==> keep(s[i]))
  {
    KeptIndicesRestrict(keep, s);
    forall i | 0 <= i < |s| ensures i in KeptIndices(keep, s) <==> keep(s[i]) {
      KeptIndicesExact(keep, s, i);
    }
  }
}
