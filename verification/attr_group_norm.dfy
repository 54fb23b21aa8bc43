/**
 * Per-group normalisation of an attribute score vector.
 *
 * `_attr_group_norm(pred, s, t)` walks the indices of one attribute group
 * from left to right and overwrites each score with 1 when it equals the
 * maximum of the group's slice and with 0 otherwise. The maximum is taken
 * afresh at every step, over a slice that the earlier steps have already
 * rewritten, so the outcome depends on the order of the walk and on the
 * range of the scores.
 *
 * Scores are modelled as `real`: the routine only compares them and stores
 * the constants 0 and 1, so no rounding is involved.
 */
module GroupNorm {

  /** The smaller of two bounds: the end of a numpy slice clamped to the array. */
  function Min(a: int, b: int): (r: int)
    ensures r <= a && r <= b && (r == a || r == b)
  {
    if a < b then a else b
  }

  /** Python's `max` over a non-empty sequence: no element exceeds it. */
  function Max(xs: seq<real>): (m: real)
    requires |xs| > 0
    ensures forall i :: 0 <= i < |xs| ==> xs[i] <= m
  {
    if |xs| == 1 then xs[0]
    else
      var m := Max(xs[..|xs| - 1]);
      assert forall i :: 0 <= i < |xs| - 1 ==> xs[i] == xs[..|xs| - 1][i];
      if xs[|xs| - 1] > m then xs[|xs| - 1] else m
  }

  /** The maximum is one of the elements. */
  lemma {:induction false} MaxIn(xs: seq<real>)
    requires |xs| > 0
    ensures Max(xs) in xs
  {
    if |xs| > 1 {
      MaxIn(xs[..|xs| - 1]);
    }
  }

  /** Every score of the group `[s, hi)` is at most the maximum of its slice. */
  lemma SliceMaxBounds(q: seq<real>, s: nat, hi: nat, i: nat)
    requires s <= i < hi <= |q|
    ensures q[i] <= Max(q[s..hi])
  {
    assert q[s..hi][i - s] == q[i];
  }

  /** A score of the group that bounds every score of the group is the maximum. */
  lemma SliceMaxIs(q: seq<real>, s: nat, hi: nat, j: nat)
    requires s <= j < hi <= |q|
    requires forall i :: s <= i < hi ==> q[i] <= q[j]
    ensures Max(q[s..hi]) == q[j]
  {
    var xs := q[s..hi];
    var m := Max(xs);
    MaxIn(xs);
    var k :| 0 <= k < |xs| && xs[k] == m;
    assert xs[k] == q[s + k];
    SliceMaxBounds(q, s, hi, j);
  }

  /** The lowest index in `[lo, hi)` holding `x`. */
  function IndexOf(p: seq<real>, x: real, lo: nat, hi: nat): (j: nat)
    requires lo <= hi <= |p|
    requires x in p[lo..hi]
    ensures lo <= j < hi && p[j] == x
    ensures forall i :: lo <= i < j ==> p[i] != x
    decreases hi - lo
  {
    assert p[lo..hi] == [p[lo]] + p[lo + 1..hi];
    if p[lo] == x then lo else IndexOf(p, x, lo + 1, hi)
  }

  /**
   * `j` is the first index of the group `[s, hi)` holding the group's
   * maximum: no score of the group exceeds `p[j]`, and every score before
   * it is strictly smaller.
   */
  predicate IsFirstArgMax(p: seq<real>, s: nat, hi: nat, j: nat)
    requires hi <= |p|
  {
    && s <= j < hi
    && (forall i :: s <= i < hi ==> p[i] <= p[j])
    && (forall i :: s <= i < j ==> p[i] < p[j])
  }

  /** The first index of a non-empty group that holds the group's maximum. */
  function FirstArgMax(p: seq<real>, s: nat, hi: nat): (j: nat)
    requires s < hi <= |p|
    ensures IsFirstArgMax(p, s, hi, j)
  {
    var m := Max(p[s..hi]);
    MaxIn(p[s..hi]);
    assert forall i :: s <= i < hi ==> p[i] == p[s..hi][i - s];
    IndexOf(p, m, s, hi)
  }

  /** A group has only one first arg-max. */
  lemma FirstArgMaxUnique(p: seq<real>, s: nat, hi: nat, j: nat, k: nat)
    requires hi <= |p|
    requires IsFirstArgMax(p, s, hi, j) && IsFirstArgMax(p, s, hi, k)
    ensures j == k
  {
    assert p[j] == p[k];
  }

  /**
   * One step of the loop: index `i` is compared with the maximum of the
   * current slice and becomes 1 or 0; the length is kept.
   * `RewrittenMeaning` states when it becomes 1 and that nothing else changes.
   */
  function Rewritten(q: seq<real>, s: nat, hi: nat, i: nat): (r: seq<real>)
    requires s <= i < hi <= |q|
    ensures |r| == |q|
    ensures r[i] == 0.0 || r[i] == 1.0
  {
    q[i := if q[i] == Max(q[s..hi]) then 1.0 else 0.0]
  }

  /** Index `i` becomes 1 exactly when no score of the current slice exceeds it; no other index changes. */
  lemma RewrittenMeaning(q: seq<real>, s: nat, hi: nat, i: nat)
    requires s <= i < hi <= |q|
    ensures forall k :: 0 <= k < |q| && k != i ==> Rewritten(q, s, hi, i)[k] == q[k]
    ensures Rewritten(q, s, hi, i)[i] == 1.0 <==> forall k :: s <= k < hi ==> q[k] <= q[i]
  {
    SliceMaxBounds(q, s, hi, i);
    if forall k :: s <= k < hi ==> q[k] <= q[i] {
      SliceMaxIs(q, s, hi, i);
    }
  }

  /**
   * The state after the loop has rewritten the indices `s .. k-1` of the
   * group `[s, hi)`, one at a time, each against the maximum of the
   * current slice `q[s..hi]`.
   */
  function NormPrefix(p: seq<real>, s: nat, hi: nat, k: nat): (r: seq<real>)
    requires s <= k <= hi <= |p|
    ensures |r| == |p|
    ensures forall i :: 0 <= i < |p| && (i < s || k <= i) ==> r[i] == p[i]
    ensures forall i :: s <= i < k ==> r[i] == 0.0 || r[i] == 1.0
    decreases k - s
  {
    if k == s then p else Rewritten(NormPrefix(p, s, hi, k - 1), s, hi, k - 1)
  }


  /**
   * What `_attr_group_norm(pred, s, t)` leaves in `pred`. numpy clamps the
   * slice `pred[s:t]` to the array, so the loop works against the group
   * `[s, Min(t, |p|))`; an index past the end raises before it is written.
   */
  function Normalized(p: seq<real>, s: nat, t: int): (r: seq<real>)
    ensures |r| == |p|
    ensures forall i :: 0 <= i < |p| && (i < s || t <= i) ==> r[i] == p[i]
    ensures forall i :: s <= i < t && i < |p| ==> r[i] == 0.0 || r[i] == 1.0
  {
    var hi := Min(t, |p|);
    if s < hi then NormPrefix(p, s, hi, hi) else p
  }

  /** Index `i` is one that `range(s, t)` visits. */
  predicate Visits(s: int, t: int, i: int)
  {
    s <= i < t
  }

  /**
   * Whether `_attr_group_norm(pred, s, t)` returns without an IndexError on
   * an array of length `n`: every index the loop visits is inside the array.
   */
  predicate Completes(n: nat, s: nat, t: int)
    ensures Completes(n, s, t) <==> forall i :: Visits(s, t, i) ==> i < n
  {
    assert s < t ==> Visits(s, t, t - 1);
    t <= s || t <= n
  }

  /** Python's `max(pred[lo:hi])`: a left-to-right scan keeping the best so far. */
  method SliceMax(a: array<real>, lo: nat, hi: nat) returns (m: real)
    requires lo < hi <= a.Length
    ensures m == Max(a[lo..hi])
  {
    m := a[lo];
    var k := lo + 1;
    assert a[lo..k] == [a[lo]];
    while k < hi
      invariant lo < k <= hi
      invariant m == Max(a[lo..k])
    {
      assert a[lo..k + 1][..k - lo] == a[lo..k];
      if a[k] > m {
        m := a[k];
      }
      k := k + 1;
    }
  }

  /**
   * The loop body: `pred[i]` becomes 1 when it equals the maximum of the
   * group's current slice `pred[s..end)`, and 0 otherwise.
   */
  method RewriteAt(pred: array<real>, s: nat, end: nat, i: nat)
    requires s <= i < end <= pred.Length
    modifies pred
    ensures pred[..] == Rewritten(old(pred[..]), s, end, i)
  {
    var m := SliceMax(pred, s, end);
    pred[i] := if pred[i] == m then 1.0 else 0.0;
  }

  /**
   * `_attr_group_norm(pred, s, t)`: rewrites `pred[s..t)` in place. Returns
   * false where the source raises an IndexError (the range runs past the
   * end of the array); the indices before the failing one are rewritten by
   * then.
   */
  method AttrGroupNorm(pred: array<real>, s: nat, t: int) returns (ok: bool)
    modifies pred
    ensures ok == Completes(pred.Length, s, t)
    ensures pred[..] == Normalized(old(pred[..]), s, t)
  {
    ghost var p := pred[..];
    var end := Min(t, pred.Length);
    var i := s;
    while i < t
      invariant s <= i
      invariant s < end ==> i <= end && pred[..] == NormPrefix(p, s, end, i)
      invariant end <= s ==> i == s && pred[..] == p
    {
      if i >= pred.Length {
        return false;
      }
      RewriteAt(pred, s, end, i);
      i := i + 1;
    }
    return true;
  }

  // ---------------------------------------------------------------------
  // What the rewrite does to a group, depending on the range of its scores
  // ---------------------------------------------------------------------

  /**
   * Before the first arg-max is reached the current slice still holds the
   * maximum, so every earlier index (whose score is smaller) becomes 0.
   */
  lemma {:induction false} BeforeArgMax(p: seq<real>, s: nat, hi: nat, j: nat, k: nat)
    requires hi <= |p| && IsFirstArgMax(p, s, hi, j)
    requires s <= k <= j
    ensures forall i :: s <= i < k ==> NormPrefix(p, s, hi, k)[i] == 0.0
    decreases k
  {
    if k > s {
      BeforeArgMax(p, s, hi, j, k - 1);
      var q := NormPrefix(p, s, hi, k - 1);
      SliceMaxBounds(q, s, hi, j);
      assert q[k - 1] == p[k - 1] < p[j] == q[j];
    }
  }

  /**
   * When the walk reaches the first arg-max `j`, it turns into 1 exactly
   * when it is the first index of the group or its score is not negative:
   * otherwise the zeros already written outrank it.
   */
  lemma AtArgMax(p: seq<real>, s: nat, hi: nat, j: nat)
    requires hi <= |p| && IsFirstArgMax(p, s, hi, j)
    ensures NormPrefix(p, s, hi, j + 1)[j] == 1.0 <==> (j == s || 0.0 <= p[j])
  {
    BeforeArgMax(p, s, hi, j, j);
    var q := NormPrefix(p, s, hi, j);
    assert q[j] == p[j];
    if j == s || 0.0 <= p[j] {
      assert forall i :: s <= i < hi ==> q[i] <= q[j] by {
        forall i | s <= i < hi ensures q[i] <= q[j] {
          if i >= j { assert q[i] == p[i]; }
        }
      }
      SliceMaxIs(q, s, hi, j);
    } else {
      SliceMaxBounds(q, s, hi, s);
    }
  }

  /**
   * With every score of the group in [0, 1), once the first arg-max holds 1
   * it outranks everything still to come, which all become 0.
   */
  lemma {:induction false} AfterArgMax(p: seq<real>, s: nat, hi: nat, j: nat, k: nat)
    requires hi <= |p| && IsFirstArgMax(p, s, hi, j)
    requires forall i :: s <= i < hi ==> 0.0 <= p[i] < 1.0
    requires j < k <= hi
    ensures forall i :: s <= i < k ==> NormPrefix(p, s, hi, k)[i] == if i == j then 1.0 else 0.0
    decreases k
  {
    if k == j + 1 {
      BeforeArgMax(p, s, hi, j, j);
      AtArgMax(p, s, hi, j);
    } else {
      AfterArgMax(p, s, hi, j, k - 1);
      var q := NormPrefix(p, s, hi, k - 1);
      SliceMaxBounds(q, s, hi, j);
      assert q[k - 1] == p[k - 1] < 1.0 == q[j];
    }
  }

  /**
   * Scores in [0, 1) make the rewrite a one-hot encoding of the group: the
   * first index holding the maximum becomes 1 (ties go to the lowest index)
   * and every other index becomes 0.
   */
  lemma OneHot(p: seq<real>, s: nat, t: int, j: nat)
    requires s < t && s < |p|
    requires IsFirstArgMax(p, s, Min(t, |p|), j)
    requires forall i :: s <= i < t && i < |p| ==> 0.0 <= p[i] < 1.0
    ensures forall i :: s <= i < t && i < |p| ==> Normalized(p, s, t)[i] == if i == j then 1.0 else 0.0
  {
    AfterArgMax(p, s, Min(t, |p|), j, Min(t, |p|));
  }

  /**
   * For any scores, every index before the first arg-max becomes 0, and the
   * first arg-max itself becomes 1 exactly when it opens the group or its
   * score is not negative.
   */
  lemma FirstArgMaxWins(p: seq<real>, s: nat, t: int, j: nat)
    requires s < t && s < |p|
    requires IsFirstArgMax(p, s, Min(t, |p|), j)
    ensures forall i :: s <= i < j ==> Normalized(p, s, t)[i] == 0.0
    ensures Normalized(p, s, t)[j] == 1.0 <==> (j == s || 0.0 <= p[j])
  {
    var hi := Min(t, |p|);
    BeforeArgMax(p, s, hi, j, j);
    NormPrefixStable(p, s, hi, j, hi);
    AtArgMax(p, s, hi, j);
    NormPrefixStable(p, s, hi, j + 1, hi);
  }

  /** Indices already rewritten are not touched again by later steps. */
  lemma {:induction false} NormPrefixStable(p: seq<real>, s: nat, hi: nat, k: nat, l: nat)
    requires s <= k <= l <= hi <= |p|
    ensures forall i :: s <= i < k ==> NormPrefix(p, s, hi, l)[i] == NormPrefix(p, s, hi, k)[i]
    decreases l - k
  {
    if l > k {
      NormPrefixStable(p, s, hi, k, l - 1);
    }
  }

  /** Non-negative scores leave at least one 1 in a non-empty group. */
  lemma NonNegativeKeepsOne(p: seq<real>, s: nat, t: int)
    requires s < t && s < |p|
    requires forall i :: s <= i < t && i < |p| ==> 0.0 <= p[i]
    ensures exists i :: s <= i < t && i < |p| && Normalized(p, s, t)[i] == 1.0
  {
    var j := FirstArgMax(p, s, Min(t, |p|));
    FirstArgMaxWins(p, s, t, j);
  }

  /** A group of one index always becomes 1, whatever its score. */
  lemma SingletonBecomesOne(p: seq<real>, s: nat)
    requires s < |p|
    ensures Normalized(p, s, s + 1)[s] == 1.0
  {
    FirstArgMaxWins(p, s, s + 1, s);
  }

  /**
   * The rewrite of a group depends only on the scores inside the group
   * (the slice is clamped, so only indices below |p| matter).
   */
  lemma {:induction false} NormPrefixLocal(p: seq<real>, q: seq<real>, s: nat, hi: nat, k: nat)
    requires s <= k <= hi <= |p| == |q|
    requires forall i :: s <= i < hi ==> p[i] == q[i]
    ensures forall i :: s <= i < hi ==> NormPrefix(p, s, hi, k)[i] == NormPrefix(q, s, hi, k)[i]
    decreases k - s
  {
    if k > s {
      NormPrefixLocal(p, q, s, hi, k - 1);
      var p' := NormPrefix(p, s, hi, k - 1);
      var q' := NormPrefix(q, s, hi, k - 1);
      assert p'[s..hi] == q'[s..hi];
    }
  }

  /** `Normalized` reads nothing outside its group. */
  lemma NormalizedLocal(p: seq<real>, q: seq<real>, s: nat, t: int)
    requires |p| == |q|
    requires forall i :: s <= i < t && i < |p| ==> p[i] == q[i]
    ensures forall i :: s <= i < t && i < |p| ==> Normalized(p, s, t)[i] == Normalized(q, s, t)[i]
  {
    var hi := Min(t, |p|);
    if s < hi {
      NormPrefixLocal(p, q, s, hi, hi);
    }
  }

  /** Scores of 1 or more can leave several ones: [3, 2] becomes [1, 1]. */
  lemma LargeScoresLeaveSeveralOnes()
    ensures Normalized([3.0, 2.0], 0, 2) == [1.0, 1.0]
  {
    var p := [3.0, 2.0];
    SliceMaxIs(p, 0, 2, 0);
    var q := NormPrefix(p, 0, 2, 1);
    assert q == [1.0, 2.0];
    SliceMaxIs(q, 0, 2, 1);
  }

  /** Negative scores can leave no one at all: [-2, -1] becomes [0, 0]. */
  lemma NegativeScoresLeaveNone()
    ensures Normalized([-2.0, -1.0], 0, 2) == [0.0, 0.0]
  {
    var p := [-2.0, -1.0];
    SliceMaxIs(p, 0, 2, 1);
    var q := NormPrefix(p, 0, 2, 1);
    assert q == [0.0, -1.0];
    SliceMaxIs(q, 0, 2, 0);
  }
}
