/**
 * The post-processing tail of `recognize_attr`: starting from the averaged
 * score vector, normalise thirteen fixed attribute groups one after the
 * other, then threshold every entry at 0.5.
 */
module Recognition {
  import opened GroupNorm

  /** An attribute group: the half-open index range `[lo, hi)`. */
  datatype Group = Group(lo: nat, hi: nat)

  /** The groups `recognize_attr` normalises, in the order of its calls. */
  const Groups: seq<Group> := [
    Group(0, 1), Group(1, 4), Group(4, 7), Group(7, 9), Group(9, 11),
    Group(11, 15), Group(15, 24), Group(24, 30), Group(30, 36),
    Group(51, 55), Group(63, 75), Group(75, 83), Group(84, 92)
  ]

  /** The end of the last group: the shortest vector all calls accept. */
  const AttrCount: nat := 92

  /** The decision threshold of the final loop. */
  const Cut: real := 0.5

  predicate InGroup(g: Group, i: int)
  {
    g.lo <= i < g.hi
  }

  /** Index `i` lies in one of the groups `gs`. */
  predicate Covered(gs: seq<Group>, i: int)
  {
    exists a :: 0 <= a < |gs| && InGroup(gs[a], i)
  }

  /** Every group is non-empty and lies wholly before the groups after it. */
  predicate Ordered(gs: seq<Group>)
  {
    && (forall a :: 0 <= a < |gs| ==> gs[a].lo < gs[a].hi)
    && (forall a, b :: 0 <= a < b < |gs| ==> gs[a].hi <= gs[b].lo)
  }

  /** Every group of `gs` fits a vector of length `n`. */
  predicate AllComplete(n: nat, gs: seq<Group>)
  {
    forall a :: 0 <= a < |gs| ==> Completes(n, gs[a].lo, gs[a].hi)
  }

  /**
   * The groups normalised one after the other; the first group that runs
   * past the end raises, so nothing after it happens.
   */
  function ApplyGroups(p: seq<real>, gs: seq<Group>): (r: seq<real>)
    ensures |r| == |p|
    ensures forall i :: 0 <= i < |p| && !Covered(gs, i) ==> r[i] == p[i]
    decreases |gs|
  {
    if gs == [] then p
    else
      var q := Normalized(p, gs[0].lo, gs[0].hi);
      assert forall i :: Covered(gs[1..], i) ==> Covered(gs, i) by {
        forall i | Covered(gs[1..], i) ensures Covered(gs, i) {
          var a :| 0 <= a < |gs[1..]| && InGroup(gs[1..][a], i);
          assert InGroup(gs[a + 1], i);
        }
      }
      assert forall i :: !Covered(gs, i) ==> !InGroup(gs[0], i);
      if Completes(|p|, gs[0].lo, gs[0].hi) then ApplyGroups(q, gs[1..]) else q
  }

  /** The final loop: each entry becomes 1 when it reaches the threshold, else 0. */
  function Thresholded(p: seq<real>): (r: seq<real>)
    ensures |r| == |p|
    ensures forall i :: 0 <= i < |p| ==> r[i] == 0.0 || r[i] == 1.0
    ensures forall i :: 0 <= i < |p| ==> (r[i] == 1.0 <==> Cut <= p[i])
  {
    seq(|p|, i requires 0 <= i < |p| => if p[i] < Cut then 0.0 else 1.0)
  }

  /**
   * What `recognize_attr` leaves in `pred`: the normalised groups, then the
   * threshold if no group raised.
   */
  function Recognized(p: seq<real>): (r: seq<real>)
    ensures |r| == |p|
    ensures AttrCount <= |p| ==> forall i :: 0 <= i < |p| ==> r[i] == 0.0 || r[i] == 1.0
  {
    var q := ApplyGroups(p, Groups);
    if AttrCount <= |p| then Thresholded(q) else q
  }

  /** The `xrange` loop over the whole vector, rewriting each entry in place. */
  method Threshold(pred: array<real>)
    modifies pred
    ensures pred[..] == Thresholded(old(pred[..]))
  {
    ghost var p := pred[..];
    for i := 0 to pred.Length
      invariant forall k :: 0 <= k < i ==> pred[k] == Thresholded(p)[k]
      invariant forall k :: i <= k < pred.Length ==> pred[k] == p[k]
    {
      pred[i] := if pred[i] < Cut then 0.0 else 1.0;
    }
  }

  /**
   * The calls to `_attr_group_norm` for the groups `gs`, in order. Returns
   * false where a call raises an IndexError; the calls after it do not
   * happen.
   */
  method NormalizeGroups(pred: array<real>, gs: seq<Group>) returns (ok: bool)
    modifies pred
    ensures ok == AllComplete(pred.Length, gs)
    ensures pred[..] == ApplyGroups(old(pred[..]), gs)
  {
    ghost var p := pred[..];
    ok := true;
    var k := 0;
    while k < |gs|
      invariant 0 <= k <= |gs|
      invariant AllComplete(pred.Length, gs[..k])
      invariant ApplyGroups(pred[..], gs[k..]) == ApplyGroups(p, gs)
    {
      ghost var cur := pred[..];
      var g := gs[k];
      assert gs[k..][0] == g && gs[k..][1..] == gs[k + 1..];
      ok := AttrGroupNorm(pred, g.lo, g.hi);
      if !ok {
        assert ApplyGroups(cur, gs[k..]) == pred[..];
        return;
      }
      assert ApplyGroups(cur, gs[k..]) == ApplyGroups(pred[..], gs[k + 1..]);
      assert gs[..k + 1] == gs[..k] + [g];
      k := k + 1;
    }
    assert gs[..k] == gs;
  }

  /**
   * The tail of `recognize_attr` from the averaged vector on. Returns false
   * where the source raises an IndexError: some group runs past the end of
   * a vector shorter than `AttrCount`.
   */
  method RecognizeAttr(pred: array<real>) returns (ok: bool)
    modifies pred
    ensures ok == (AttrCount <= pred.Length)
    ensures pred[..] == Recognized(old(pred[..]))
  {
    GroupsFit(pred.Length);
    ok := NormalizeGroups(pred, Groups);
    if ok {
      Threshold(pred);
    }
  }

  // ---------------------------------------------------------------------
  // The group table
  // ---------------------------------------------------------------------

  /** The groups are non-empty, pairwise disjoint and in increasing order. */
  lemma GroupsOrdered()
    ensures Ordered(Groups)
  {
  }

  /** All groups fit exactly the vectors of at least `AttrCount` entries. */
  lemma GroupsFit(n: nat)
    ensures AllComplete(n, Groups) <==> AttrCount <= n
    ensures forall a :: 0 <= a < |Groups| ==> Groups[a].hi <= AttrCount
  {
    assert Groups[12].hi == AttrCount;
  }

  /** The indices outside every group: 36-50, 55-62, 83 and 92 onwards. */
  lemma Ungrouped(i: nat)
    ensures !Covered(Groups, i) <==> (36 <= i < 51 || 55 <= i < 63 || i == 83 || AttrCount <= i)
  {
    if 36 <= i < 51 || 55 <= i < 63 || i == 83 || AttrCount <= i {
      forall a | 0 <= a < |Groups| ensures !InGroup(Groups[a], i) {
        assert a in {0, 1, 2, 3, 4, 5, 6, 7, 8, 9, 10, 11, 12};
      }
    } else if i < 36 {
      var a := if i < 1 then 0 else if i < 4 then 1 else if i < 7 then 2 else if i < 9 then 3
        else if i < 11 then 4 else if i < 15 then 5 else if i < 24 then 6 else if i < 30 then 7 else 8;
      assert InGroup(Groups[a], i);
    } else {
      var a := if i < 55 then 9 else if i < 75 then 10 else if i < 83 then 11 else 12;
      assert InGroup(Groups[a], i);
    }
  }

  // ---------------------------------------------------------------------
  // Normalising the groups in sequence
  // ---------------------------------------------------------------------

  /**
   * Ordered groups that all fit do not interfere: each group ends as if it
   * alone had been normalised on the original vector, and indices outside
   * every group keep their value.
   */
  lemma {:induction false} ApplyGroupsLocal(p: seq<real>, gs: seq<Group>)
    requires Ordered(gs) && AllComplete(|p|, gs)
    ensures forall a, i :: 0 <= a < |gs| && InGroup(gs[a], i) && i < |p| ==>
      ApplyGroups(p, gs)[i] == Normalized(p, gs[a].lo, gs[a].hi)[i]
    ensures forall i :: 0 <= i < |p| && !Covered(gs, i) ==> ApplyGroups(p, gs)[i] == p[i]
    decreases |gs|
  {
    if gs != [] {
      var g := gs[0];
      var q := Normalized(p, g.lo, g.hi);
      var rest := gs[1..];
      assert Ordered(rest) && AllComplete(|q|, rest) by {
        forall a | 0 <= a < |rest| ensures rest[a] == gs[a + 1] { }
      }
      ApplyGroupsLocal(q, rest);
      var r := ApplyGroups(p, gs);
      assert r == ApplyGroups(q, rest);
      forall a, i | 0 <= a < |gs| && InGroup(gs[a], i) && i < |p|
        ensures r[i] == Normalized(p, gs[a].lo, gs[a].hi)[i]
      {
        if a == 0 {
          assert !Covered(rest, i) by {
            forall b | 0 <= b < |rest| ensures !InGroup(rest[b], i) {
              assert rest[b] == gs[b + 1];
            }
          }
        } else {
          assert rest[a - 1] == gs[a];
          NormalizedLocal(q, p, gs[a].lo, gs[a].hi);
        }
      }
      forall i | 0 <= i < |p| && !Covered(gs, i) ensures r[i] == p[i] {
        assert !InGroup(gs[0], i);
        assert !Covered(rest, i) by {
          forall b | 0 <= b < |rest| ensures !InGroup(rest[b], i) {
            assert rest[b] == gs[b + 1];
          }
        }
      }
    }
  }

  // ---------------------------------------------------------------------
  // Thresholding
  // ---------------------------------------------------------------------

  /** Entries that are already 0 or 1 pass the threshold unchanged. */
  lemma ThresholdKeepsBinary(p: seq<real>, i: nat)
    requires i < |p| && (p[i] == 0.0 || p[i] == 1.0)
    ensures Thresholded(p)[i] == p[i]
  {
  }

  /** Thresholding twice is thresholding once. */
  lemma ThresholdIdempotent(p: seq<real>)
    ensures Thresholded(Thresholded(p)) == Thresholded(p)
  {
  }

  // ---------------------------------------------------------------------
  // The whole post-processing
  // ---------------------------------------------------------------------

  /**
   * After ordered groups that all fit are normalised and the vector is
   * thresholded, each grouped entry is the normalisation of its own group
   * alone (the threshold keeps its 0 or 1), and each ungrouped entry is the
   * threshold of its original score.
   */
  lemma ThresholdedGroups(p: seq<real>, gs: seq<Group>)
    requires Ordered(gs) && AllComplete(|p|, gs)
    ensures forall a, i :: 0 <= a < |gs| && InGroup(gs[a], i) && i < |p| ==>
      Thresholded(ApplyGroups(p, gs))[i] == Normalized(p, gs[a].lo, gs[a].hi)[i]
    ensures forall i :: 0 <= i < |p| && !Covered(gs, i) ==>
      Thresholded(ApplyGroups(p, gs))[i] == if p[i] < Cut then 0.0 else 1.0
  {
    ApplyGroupsLocal(p, gs);
    var q := ApplyGroups(p, gs);
    forall a, i | 0 <= a < |gs| && InGroup(gs[a], i) && i < |p|
      ensures Thresholded(q)[i] == Normalized(p, gs[a].lo, gs[a].hi)[i]
    {
      ThresholdKeepsBinary(q, i);
    }
  }

  /**
   * On a vector long enough for every group, each entry of a group ends as
   * the normalisation of that group alone.
   */
  lemma RecognizedGroup(p: seq<real>, a: nat)
    requires AttrCount <= |p| && a < |Groups|
    ensures |Recognized(p)| == |p|
    ensures forall i :: InGroup(Groups[a], i) && i < |p| ==>
      Recognized(p)[i] == Normalized(p, Groups[a].lo, Groups[a].hi)[i]
  {
    GroupsOrdered();
    GroupsFit(|p|);
    ThresholdedGroups(p, Groups);
  }

  /**
   * On a vector long enough for every group, an entry outside every group
   * is only thresholded.
   */
  lemma RecognizedUngrouped(p: seq<real>, i: nat)
    requires AttrCount <= |p| && i < |p| && !Covered(Groups, i)
    ensures |Recognized(p)| == |p|
    ensures Recognized(p)[i] == if p[i] < Cut then 0.0 else 1.0
  {
    GroupsOrdered();
    GroupsFit(|p|);
    ThresholdedGroups(p, Groups);
  }

  /**
   * A group whose scores all lie in [0, 1) ends one-hot: its first index
   * holding the group's maximum is 1 and every other index is 0.
   */
  lemma RecognizedOneHot(p: seq<real>, a: nat, j: nat)
    requires AttrCount <= |p| && a < |Groups|
    requires IsFirstArgMax(p, Groups[a].lo, Groups[a].hi, j)
    requires forall i :: InGroup(Groups[a], i) && i < |p| ==> 0.0 <= p[i] < 1.0
    ensures forall i :: InGroup(Groups[a], i) && i < |p| ==> Recognized(p)[i] == if i == j then 1.0 else 0.0
  {
    GroupsFit(|p|);
    RecognizedGroup(p, a);
    GroupOneHot(p, Groups[a], j);
  }

  /** A group that fits and whose scores all lie in [0, 1) is normalised one-hot. */
  lemma GroupOneHot(p: seq<real>, g: Group, j: nat)
    requires g.hi <= |p|
    requires IsFirstArgMax(p, g.lo, g.hi, j)
    requires forall i :: InGroup(g, i) && i < |p| ==> 0.0 <= p[i] < 1.0
    ensures forall i :: InGroup(g, i) ==> Normalized(p, g.lo, g.hi)[i] == if i == j then 1.0 else 0.0
  {
    assert Min(g.hi, |p|) == g.hi;
    OneHot(p, g.lo, g.hi, j);
  }

  /**
   * The first attribute forms a group of its own, so it always ends as 1,
   * whatever the network scored.
   */
  lemma RecognizedFirstIsOne(p: seq<real>)
    requires AttrCount <= |p|
    ensures Recognized(p)[0] == 1.0
  {
    RecognizedGroup(p, 0);
    assert InGroup(Groups[0], 0);
    SingletonBecomesOne(p, 0);
  }
}
