/** Ordering keys for drag-and-drop (`calculateNewPosition`). A column is the
    list of its cards' positions, sorted ascending; a card dropped at index
    `i` gets a key between its new neighbours, so that no other card has to be
    renumbered. Positions are exact reals here. */
module PositionAllocator {

  /** The key of a card dropped into an empty column, and the step added
      after the last card. */
  const Base: real := 1000.0

  /** A column's positions strictly increase. */
  ghost predicate StrictlyIncreasing(s: seq<real>)
  {
    forall j, k :: 0 <= j < k < |s| ==> s[j] < s[k]
  }

  /** A column whose keys increase and are all positive: the shape the
      allocator keeps. */
  ghost predicate WellOrdered(s: seq<real>)
  {
    StrictlyIncreasing(s) && (|s| > 0 ==> 0.0 < s[0])
  }

  /** `s` with `x` inserted so that it lands at index `i`. */
  function InsertAt(s: seq<real>, i: nat, x: real): (r: seq<real>)
    requires i <= |s|
    ensures |r| == |s| + 1 && r[i] == x
    ensures forall j :: 0 <= j < i ==> r[j] == s[j]
    ensures forall j :: i < j < |r| ==> r[j] == s[j - 1]
  {
    s[..i] + [x] + s[i..]
  }

  /** `calculateNewPosition(targetList, targetIndex)` on the positions of
      the target column: `Base` for an empty column, half the first key at
      the head, the last key plus `Base` at the tail, the midpoint of the two
      neighbours elsewhere. */
  function CalculateNewPosition(positions: seq<real>, targetIndex: nat): (r: real)
    requires targetIndex <= |positions|
    ensures |positions| == 0 ==> r == Base
    // at the head, the new key halves the gap between zero and the first key
    ensures 0 == targetIndex < |positions| ==> r - 0.0 == positions[0] - r
    // at the tail, the new key is one step after the last
    ensures 0 < targetIndex == |positions| ==> r - positions[targetIndex - 1] == Base
    // in between, the new key is as far from each neighbour
    ensures 0 < targetIndex < |positions| ==> r - positions[targetIndex - 1] == positions[targetIndex] - r
    // ordering against the neighbours
    ensures 0 < targetIndex < |positions| && positions[targetIndex - 1] < positions[targetIndex] ==>
              positions[targetIndex - 1] < r < positions[targetIndex]
    ensures 0 == targetIndex < |positions| && 0.0 < positions[0] ==> 0.0 < r < positions[0]
    ensures 0 < targetIndex == |positions| ==> positions[targetIndex - 1] < r
  {
    var n := |positions|;
    if n == 0 then Base
    else if targetIndex == 0 then positions[0] / 2.0
    else if targetIndex == n then positions[n - 1] + Base
    else (positions[targetIndex - 1] + positions[targetIndex]) / 2.0
  }

  /** The new key is strictly between its neighbours, whichever exist, in a
      well-ordered column; an empty column gets a positive key. */
  lemma BetweenNeighbours(positions: seq<real>, i: nat)
    requires i <= |positions| && WellOrdered(positions)
    ensures var r := CalculateNewPosition(positions, i);
      && 0.0 < r
      && (0 < i ==> positions[i - 1] < r)
      && (i < |positions| ==> r < positions[i])
  {
    var r := CalculateNewPosition(positions, i);
    if 0 < i < |positions| {
      assert positions[i - 1] < positions[i];
      assert 0.0 < positions[0] <= positions[i - 1] by {
        if 0 < i - 1 { assert positions[0] < positions[i - 1]; }
      }
    } else if 0 < i {
      assert 0.0 < positions[0] <= positions[i - 1] by {
        if 0 < i - 1 { assert positions[0] < positions[i - 1]; }
      }
    }
  }

  /** Dropping a card at the computed key keeps the column well ordered, so
      the scheme never needs to renumber the other cards. */
  lemma InsertKeepsOrder(positions: seq<real>, i: nat)
    requires i <= |positions| && WellOrdered(positions)
    ensures WellOrdered(InsertAt(positions, i, CalculateNewPosition(positions, i)))
  {
    var x := CalculateNewPosition(positions, i);
    var t := InsertAt(positions, i, x);
    BetweenNeighbours(positions, i);
    forall j, k | 0 <= j < k < |t| ensures t[j] < t[k] {
      if k < i {
        assert t[j] == positions[j] && t[k] == positions[k];
      } else if k == i {
        assert t[j] == positions[j];
        if j < i - 1 { assert positions[j] < positions[i - 1]; }
      } else if j == i {
        assert t[k] == positions[k - 1];
        if i < k - 1 { assert positions[i] < positions[k - 1]; }
      } else if j < i {
        assert t[j] == positions[j] && t[k] == positions[k - 1];
      } else {
        assert t[j] == positions[j - 1] && t[k] == positions[k - 1];
      }
    }
  }

  /** The key depends only on the neighbours at `i - 1` and `i`: the rest of
      the column can be anything. */
  lemma OnlyNeighboursMatter(positions: seq<real>, i: nat)
    requires 0 < |positions| && i <= |positions|
    ensures 0 < i < |positions| ==>
      CalculateNewPosition(positions, i) == CalculateNewPosition(positions[i - 1..i + 1], 1)
    ensures i == 0 ==> CalculateNewPosition(positions, i) == CalculateNewPosition(positions[..1], 0)
    ensures i == |positions| ==> CalculateNewPosition(positions, i) == CalculateNewPosition(positions[i - 1..], 1)
  {
  }

  /** The expected values from the allocator's tests. */
  lemma TestVectors()
    ensures CalculateNewPosition([], 0) == 1000.0
    ensures CalculateNewPosition([1000.0], 0) == 500.0
    ensures CalculateNewPosition([100.0], 0) == 50.0
    ensures CalculateNewPosition([1000.0], 1) == 2000.0
    ensures CalculateNewPosition([1000.0, 2000.0, 3000.0], 3) == 4000.0
    ensures CalculateNewPosition([1000.0, 2000.0], 1) == 1500.0
    ensures CalculateNewPosition([1000.0, 2000.0, 3000.0], 1) == 1500.0
    ensures CalculateNewPosition([1000.0, 2000.0, 3000.0], 2) == 2500.0
    ensures CalculateNewPosition([1000.0, 1001.0], 1) == 1000.5
  {
  }
}
