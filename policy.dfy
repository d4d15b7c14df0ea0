/** The robber's choice of destination, over the selectable flags and the
    distance tables the controller computes. */
module Policy {
  import Grid

  /** A tile the robber may move to: selectable, and not the tile it stands on. */
  predicate IsCandidate(sel: seq<bool>, robberTile: int, i: int)
  {
    0 <= i < |sel| && sel[i] && i != robberTile
  }

  predicate NoCandidate(sel: seq<bool>, robberTile: int)
  {
    forall i :: 0 <= i < |sel| ==> !IsCandidate(sel, robberTile, i)
  }

  /** Tile `i` scores strictly higher than tile `j`: farther from the nearest cop,
      or as far from it and farther from the robber. */
  predicate Outranks(minD: seq<int>, dR: seq<int>, i: int, j: int)
    requires 0 <= i < |minD| && 0 <= j < |minD| && |dR| == |minD|
  {
    minD[i] > minD[j] || (minD[i] == minD[j] && dR[i] > dR[j])
  }

  /** `best` is the smart robber's pick: with no candidate, the robber's own tile;
      otherwise a candidate that no candidate outranks, and that outranks every
      candidate with a lower index (the first of the best ones). */
  predicate IsMaximin(sel: seq<bool>, robberTile: int, minD: seq<int>, dR: seq<int>, best: int)
    requires |minD| == |sel| && |dR| == |sel|
  {
    if NoCandidate(sel, robberTile) then
      best == robberTile
    else
      IsCandidate(sel, robberTile, best) &&
      (forall j :: 0 <= j < |sel| && IsCandidate(sel, robberTile, j) ==> !Outranks(minD, dR, j, best)) &&
      (forall j :: 0 <= j < best && IsCandidate(sel, robberTile, j) ==> Outranks(minD, dR, best, j))
  }

  /** The selection scan of the smart robber: keep the best candidate seen so far,
      starting from scores of -1 below every real distance. */
  method FarthestCandidate(sel: seq<bool>, robberTile: int, minD: seq<int>, dR: seq<int>) returns (best: int)
    requires |minD| == |sel| && |dR| == |sel|
    requires forall i :: 0 <= i < |sel| ==> minD[i] >= 0 && dR[i] >= 0
    ensures IsMaximin(sel, robberTile, minD, dR, best)
  {
    var bestTile := -1;
    var maxDistance := -1;
    var maxRobberDistance := -1;
    for i := 0 to |sel|
      invariant bestTile == -1 ==>
        maxDistance == -1 && maxRobberDistance == -1 &&
        forall j :: 0 <= j < i ==> !IsCandidate(sel, robberTile, j)
      invariant bestTile != -1 ==>
        0 <= bestTile < i && IsCandidate(sel, robberTile, bestTile) &&
        maxDistance == minD[bestTile] && maxRobberDistance == dR[bestTile] &&
        (forall j :: 0 <= j < i && IsCandidate(sel, robberTile, j) ==> !Outranks(minD, dR, j, bestTile)) &&
        (forall j :: 0 <= j < bestTile && IsCandidate(sel, robberTile, j) ==> Outranks(minD, dR, bestTile, j))
    {
      if sel[i] && i != robberTile {
        if minD[i] > maxDistance || (minD[i] == maxDistance && dR[i] > maxRobberDistance) {
          maxDistance := minD[i];
          maxRobberDistance := dR[i];
          bestTile := i;
        }
      }
    }
    best := if bestTile == -1 then robberTile else bestTile;
  }

  /** The random robber's list of candidates, in tile order. */
  method SelectableTiles(sel: seq<bool>, robberTile: int) returns (list: seq<int>)
    ensures forall x :: x in list <==> IsCandidate(sel, robberTile, x)
    ensures Grid.StrictlyIncreasing(list)
  {
    list := [];
    for i := 0 to |sel|
      invariant forall x :: x in list <==> 0 <= x < i && IsCandidate(sel, robberTile, x)
      invariant Grid.StrictlyIncreasing(list)
      invariant forall a :: 0 <= a < |list| ==> list[a] < i
    {
      if sel[i] && i != robberTile {
        list := list + [i];
      }
    }
  }

  /** The random robber's pick: any candidate, or its own tile when there is none. */
  predicate RandomChoice(sel: seq<bool>, robberTile: int, target: int)
  {
    if NoCandidate(sel, robberTile) then target == robberTile else IsCandidate(sel, robberTile, target)
  }

  /** The random robber: list the candidates in tile order, then take any one of them;
      with an empty list it stays where it is. */
  method RandomTarget(sel: seq<bool>, robberTile: int) returns (target: int)
    ensures RandomChoice(sel, robberTile, target)
  {
    var selectableTiles := SelectableTiles(sel, robberTile);
    if |selectableTiles| > 0 {
      var pick :| 0 <= pick < |selectableTiles|;
      target := selectableTiles[pick];
      assert target in selectableTiles;
    } else {
      target := robberTile;
      forall i | 0 <= i < |sel|
        ensures !IsCandidate(sel, robberTile, i)
      {
        assert i !in selectableTiles;
      }
    }
  }

  /** Either robber stays put only when no tile is a candidate. */
  lemma StaysOnlyWhenStuck(sel: seq<bool>, robberTile: int, minD: seq<int>, dR: seq<int>, target: int)
    requires |minD| == |sel| && |dR| == |sel|
    requires RandomChoice(sel, robberTile, target) || IsMaximin(sel, robberTile, minD, dR, target)
    ensures target == robberTile <==> NoCandidate(sel, robberTile)
  {
  }

  /** The smart pick is determined by the flags and the two distance tables. */
  lemma MaximinUnique(sel: seq<bool>, robberTile: int, minD: seq<int>, dR: seq<int>, b1: int, b2: int)
    requires |minD| == |sel| && |dR| == |sel|
    requires IsMaximin(sel, robberTile, minD, dR, b1) && IsMaximin(sel, robberTile, minD, dR, b2)
    ensures b1 == b2
  {
  }

  /** The smart pick scores at least as high as every candidate, so it never lands
      on a tile whose cop distance some candidate strictly beats. */
  lemma MaximinBeatsWorse(sel: seq<bool>, robberTile: int, minD: seq<int>, dR: seq<int>, best: int, j: int, t: int)
    requires |minD| == |sel| && |dR| == |sel|
    requires IsMaximin(sel, robberTile, minD, dR, best)
    requires IsCandidate(sel, robberTile, j) && 0 <= t < |sel| && minD[j] > minD[t]
    ensures best != t
  {
    assert !NoCandidate(sel, robberTile);
  }
}
