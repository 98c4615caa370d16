/**
 The two generators' constructors: seed the map, run the smoothing passes,
 and (flood-fill variant only) cull small wall regions and then small floor
 regions. `true` is a wall and `false` a floor.
 */
module Caves {
  import opened Grid
  import opened Seeding
  import opened Smoothing
  import opened Regions
  import opened Culling
  import Neighbours

  /**
   The number of passes the constructor loop `for (k = 0; k <= iterations; k++)`
   runs: one more than `smoothingIterations`, and none when it is negative.
   */
  function Passes(smoothingIterations: int): nat
  {
    if smoothingIterations >= 0 then smoothingIterations + 1 else 0
  }

  /** The smoothing loop shared by both constructors. */
  method SmoothingLoop(g: seq<bool>, width: int, smoothingIterations: int) returns (cave: seq<bool>)
    requires width > 0
    ensures cave == SmoothTimes(g, width, Passes(smoothingIterations))
  {
    cave := g;
    var k := 0;
    while k <= smoothingIterations
      invariant 0 <= k <= Passes(smoothingIterations)
      invariant cave == SmoothTimes(g, width, k)
    {
      cave := Smooth(cave, width);
      k := k + 1;
    }
  }

  /**
   The flood-fill generator: seed from `rand()` draws, smooth
   `smoothingIterations + 1` times, cull walls below `wallThreshold`, then
   floors below `roomThreshold`, in that order. In the finished map every
   floor cell lies in a floor region of at least `roomThreshold` cells.
   */
  method FloodFillCave(width: int, height: int, chanceToStartAlive: int, smoothingIterations: int,
                       draws: seq<nat>, wallThreshold: int, roomThreshold: int)
    returns (cave: seq<bool>)
    requires ValidDims(width, height) && |draws| == width * height
    requires wallThreshold >= 0 && roomThreshold >= 0
    ensures |cave| == width * height
    ensures cave == CullSpec(
      CullSpec(SmoothTimes(SeedFromRand(draws, chanceToStartAlive), width, Passes(smoothingIterations)),
               width, true, wallThreshold),
      width, false, roomThreshold)
    ensures forall c :: 0 <= c < |cave| && !cave[c] ==> |Region(cave, width, c)| >= roomThreshold
  {
    cave := SeedFromRand(draws, chanceToStartAlive);
    cave := SmoothingLoop(cave, width, smoothingIterations);
    ghost var smoothed := cave;
    cave := CullFragments(cave, width, true, wallThreshold);
    CulledIsSpec(smoothed, width, true, wallThreshold, cave);
    ghost var walled := cave;
    cave := CullFragments(cave, width, false, roomThreshold);
    CulledIsSpec(walled, width, false, roomThreshold, cave);
    CullLeavesLargeRegions(walled, width, false, roomThreshold);
  }

  /**
   The cellular generator: seed from uniform draws in `[0, 100]` and smooth
   `smoothingIterations + 1` times, with no culling. A chance of at most 0
   gives an all-floor map, since smoothing never gives birth on an empty map.
   */
  method CellularCave(width: int, height: int, chanceToStartAlive: int, smoothingIterations: int,
                      draws: seq<int>)
    returns (cave: seq<bool>)
    requires ValidDims(width, height) && |draws| == width * height
    requires forall k :: 0 <= k < |draws| ==> 0 <= draws[k] <= 100
    ensures |cave| == width * height
    ensures cave == SmoothTimes(SeedFromUniform(draws, chanceToStartAlive), width, Passes(smoothingIterations))
    ensures chanceToStartAlive <= 0 ==> forall c :: 0 <= c < |cave| ==> !cave[c]
  {
    cave := SeedFromUniform(draws, chanceToStartAlive);
    if chanceToStartAlive <= 0 {
      SmoothTimesKeepsEmpty(cave, width, Passes(smoothingIterations));
    }
    cave := SmoothingLoop(cave, width, smoothingIterations);
  }

  /**
   The two culling passes do not commute, so their order is part of the
   constructor's behaviour. On the one-column map `[floor, wall]` with both
   thresholds 2, culling walls first removes the lone wall and leaves two
   floors; culling floors first removes the lone floor and leaves two walls.
   */
  lemma CullOrderMatters()
    ensures var g := [false, true];
      CullSpec(CullSpec(g, 1, true, 2), 1, false, 2) == [false, false] &&
      CullSpec(CullSpec(g, 1, false, 2), 1, true, 2) == [true, true]
  {
    var g := [false, true];
    LoneCellCulled(g, 1, 2, 1);
    assert CullSpec(g, 1, true, 2) == [false, false];
    PairKept([false, false]);
    LoneCellCulled(g, 1, 2, 0);
    assert CullSpec(g, 1, false, 2) == [true, true];
    PairKept([true, true]);
  }

  /** Two equal cells in one column form a region of two, which a threshold of 2 keeps. */
  lemma PairKept(h: seq<bool>)
    requires |h| == 2 && h[0] == h[1]
    ensures CullSpec(h, 1, h[0], 2) == h
  {
    assert Neighbour(1, 0, 0, 1) == 1 && Neighbour(1, 1, 0, -1) == 0;
    assert IsPath(h, 1, [0, 1], 0, 1);
    assert IsPath(h, 1, [1, 0], 1, 0);
    RegionNonEmpty(h, 1, 0);
    RegionNonEmpty(h, 1, 1);
    Neighbours.SubsetCardinality({0, 1}, Region(h, 1, 0));
    Neighbours.SubsetCardinality({0, 1}, Region(h, 1, 1));
  }
}
