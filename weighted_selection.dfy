/**
 * Weighted prize selection: the draw `Math.random() * totalWeight` walked
 * down the segment list, subtracting each weight until the remainder drops
 * to zero or below, with the first segment as fallback.
 */
module WeightedSelection {
  import opened SpinTypes

  /** Sum of the weights, folded left to right as the `reduce` does. */
  function TotalWeight(segs: seq<Segment>): int
  {
    if segs == [] then 0 else TotalWeight(segs[..|segs| - 1]) + segs[|segs| - 1].weight
  }

  /** With no negative weight the total is non-negative and no single weight exceeds it. */
  lemma {:induction false} TotalWeightBounds(segs: seq<Segment>)
    requires forall i :: 0 <= i < |segs| ==> 0 <= segs[i].weight
    ensures 0 <= TotalWeight(segs)
    ensures forall i :: 0 <= i < |segs| ==> segs[i].weight <= TotalWeight(segs)
  {
    if segs != [] {
      var init := segs[..|segs| - 1];
      TotalWeightBounds(init);
      forall i | 0 <= i < |init| ensures segs[i].weight <= TotalWeight(segs) {
        assert segs[i] == init[i];
      }
    }
  }

  /**
   * The draw `Math.random() * totalWeight`, for the random value `u`; with
   * `u` in `[0, 1)` and a positive total it lies in `[0, total)`.
   */
  function Draw(segs: seq<Segment>, u: real): (r: real)
    ensures 0.0 <= u < 1.0 && 0 < TotalWeight(segs) ==> 0.0 <= r < TotalWeight(segs) as real
  {
    Scaled(u, TotalWeight(segs) as real)
  }

  /** `u * t`: a fraction `u` in `[0, 1)` of a positive `t` lies in `[0, t)`. */
  function Scaled(u: real, t: real): (p: real)
    ensures 0.0 <= u < 1.0 && 0.0 < t ==> 0.0 <= p < t
  {
    ScaleBelow(u, t);
    u * t
  }

  /** Sum of the weights of the first `k` segments. */
  function Prefix(segs: seq<Segment>, k: nat): int
    requires k <= |segs|
  {
    TotalWeight(segs[..k])
  }

  /** Segment `i` absorbs draw `r`: the remainder after subtracting its weight is <= 0. */
  predicate Covers(segs: seq<Segment>, r: real, i: nat)
    requires i < |segs|
  {
    r <= Prefix(segs, i + 1) as real
  }

  predicate AllPositive(segs: seq<Segment>) {
    forall i :: 0 <= i < |segs| ==> segs[i].weight > 0
  }

  /** Index of the segment chosen for draw `r`, scanning from position `k`. */
  function FirstCoverFrom(segs: seq<Segment>, r: real, k: nat): (i: nat)
    requires 0 < |segs| && k <= |segs|
    ensures i < |segs|
    decreases |segs| - k
  {
    if k == |segs| then 0
    else if Covers(segs, r, k) then k
    else FirstCoverFrom(segs, r, k + 1)
  }

  /** Index of the segment chosen for draw `r`. */
  function SelectedIndex(segs: seq<Segment>, r: real): nat
    requires 0 < |segs|
  {
    FirstCoverFrom(segs, r, 0)
  }

  lemma PrefixStep(segs: seq<Segment>, k: nat)
    requires k < |segs|
    ensures Prefix(segs, k + 1) == Prefix(segs, k) + segs[k].weight
  {
    assert segs[..k + 1][..k] == segs[..k];
  }

  lemma {:induction false} FirstCoverFromSpec(segs: seq<Segment>, r: real, k: nat)
    requires 0 < |segs| && k <= |segs|
    requires forall j :: 0 <= j < k ==> !Covers(segs, r, j)
    ensures var i := FirstCoverFrom(segs, r, k);
      && (forall j :: 0 <= j < i ==> !Covers(segs, r, j))
      && (Covers(segs, r, i) || (i == 0 && forall j :: 0 <= j < |segs| ==> !Covers(segs, r, j)))
    decreases |segs| - k
  {
    if k < |segs| && !Covers(segs, r, k) {
      FirstCoverFromSpec(segs, r, k + 1);
    }
  }

  /**
   * The chosen index is the smallest one whose prefix sum reaches the draw;
   * when no prefix sum does, it is the fallback 0.
   */
  lemma SelectedIndexIsFirstCover(segs: seq<Segment>, r: real)
    requires 0 < |segs|
    ensures var i := SelectedIndex(segs, r);
      && i < |segs|
      && (forall j :: 0 <= j < i ==> !Covers(segs, r, j))
      && (Covers(segs, r, i) || (i == 0 && forall j :: 0 <= j < |segs| ==> !Covers(segs, r, j)))
  {
    FirstCoverFromSpec(segs, r, 0);
  }

  lemma {:induction false} PrefixIncreasing(segs: seq<Segment>, j: nat, k: nat)
    requires AllPositive(segs)
    requires j < k <= |segs|
    ensures Prefix(segs, j) < Prefix(segs, k)
    decreases k - j
  {
    PrefixStep(segs, k - 1);
    if j < k - 1 {
      PrefixIncreasing(segs, j, k - 1);
    }
  }

  lemma FullPrefix(segs: seq<Segment>)
    ensures Prefix(segs, |segs|) == TotalWeight(segs)
  {
    assert segs[..|segs|] == segs;
  }

  lemma ScaleBelow(u: real, t: real)
    ensures 0.0 <= u < 1.0 && 0.0 < t ==> 0.0 <= u * t < t
  {
    if 0.0 <= u < 1.0 && 0.0 < t {
      assert t - u * t == (1.0 - u) * t;
    }
  }

  lemma PositiveTotal(segs: seq<Segment>)
    requires 0 < |segs| && AllPositive(segs)
    ensures 0 < TotalWeight(segs)
  {
    FullPrefix(segs);
    PrefixIncreasing(segs, 0, |segs|);
    assert segs[..0] == [];
  }

  /**
   * With positive weights and `0 <= u < 1`, the draw `u * total` is always
   * absorbed by some segment: the walk never reaches the fallback.
   */
  lemma NoFallback(segs: seq<Segment>, u: real)
    requires 0 < |segs| && AllPositive(segs)
    requires 0.0 <= u < 1.0
    ensures var r := Draw(segs, u);
      0.0 <= r < TotalWeight(segs) as real && Covers(segs, r, SelectedIndex(segs, r))
  {
    PositiveTotal(segs);
    SelectedCovers(segs, Draw(segs, u));
  }

  /** A draw no larger than the total is covered by the segment the walk stops at. */
  lemma SelectedCovers(segs: seq<Segment>, r: real)
    requires 0 < |segs| && r <= TotalWeight(segs) as real
    ensures SelectedIndex(segs, r) < |segs| && Covers(segs, r, SelectedIndex(segs, r))
    ensures forall j :: 0 <= j < SelectedIndex(segs, r) ==> !Covers(segs, r, j)
  {
    FullPrefix(segs);
    assert Covers(segs, r, |segs| - 1);
    SelectedIndexIsFirstCover(segs, r);
  }

  /**
   * With positive weights and a draw in `[0, total)`, segment `i` is chosen
   * exactly when the draw lies in its interval: `[0, w0]` for the first
   * segment and `(w0+..+w(i-1), w0+..+wi]` for the others. Each interval has
   * the length of the segment's weight, so a uniform draw picks segment `i`
   * with probability `wi / total`.
   */
  lemma SelectionInterval(segs: seq<Segment>, r: real, i: nat)
    requires AllPositive(segs) && i < |segs|
    requires 0.0 <= r < TotalWeight(segs) as real
    ensures SelectedIndex(segs, r) == i <==>
      (i == 0 || Prefix(segs, i) as real < r) && r <= Prefix(segs, i + 1) as real
  {
    SelectedCovers(segs, r);
    var k := SelectedIndex(segs, r);
    assert Covers(segs, r, k);
    if k < i {
      // the chosen segment ends at or before segment i begins
      if k + 1 < i {
        PrefixIncreasing(segs, k + 1, i);
      }
      assert !(Prefix(segs, i) as real < r);
    } else if i < k {
      assert !Covers(segs, r, i);
    } else if 0 < i {
      assert !Covers(segs, r, i - 1);
    }
  }

  /**
   * The selection loop. `u` is the `Math.random()` value. Returns the segment
   * at `SelectedIndex` of the draw `u * total`; it is always a member of the
   * input.
   */
  method SelectWeightedSegment(segments: seq<Segment>, u: real) returns (selected: Segment)
    requires 0 < |segments|
    ensures selected == segments[SelectedIndex(segments, Draw(segments, u))]
    ensures selected in segments
  {
    var totalWeight := TotalWeight(segments);
    var random := u * totalWeight as real;
    assert random == Draw(segments, u);
    ghost var r := random;
    var k := 0;
    while k < |segments|
      invariant 0 <= k <= |segments|
      invariant random == r - Prefix(segments, k) as real
      invariant forall j :: 0 <= j < k ==> !Covers(segments, r, j)
      invariant FirstCoverFrom(segments, r, k) == SelectedIndex(segments, r)
    {
      PrefixStep(segments, k);
      random := random - segments[k].weight as real;
      if random <= 0.0 {
        assert Covers(segments, r, k);
        return segments[k];
      }
      k := k + 1;
    }
    selected := segments[0];
  }
}
