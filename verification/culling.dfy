/**
 Culling: every region of a chosen state (walls or floors) that is smaller
 than a threshold is flipped to the other state. The sweep walks the map in
 index order, flood-fills each not yet flagged cell of the chosen state on
 the map as it currently stands, flags the region, and flips it if it is
 too small. The contract judges every cell against the regions of the map
 the sweep STARTED from.
 */
module Culling {
  import opened Grid
  import opened Regions

  /**
   The state of cell `c` after culling regions of state `regionType`: a cell
   of that state whose region in `g` has fewer than `regionThreshold` cells
   is flipped; every other cell keeps its state.
   */
  ghost function CulledCell(g: seq<bool>, width: int, regionType: bool, regionThreshold: int, c: int): bool
    requires width > 0 && InBounds(|g|, c)
  {
    if g[c] == regionType && |Region(g, width, c)| < regionThreshold then !regionType else g[c]
  }

  /** The whole map after culling, cell by cell. */
  ghost function CullSpec(g: seq<bool>, width: int, regionType: bool, regionThreshold: int): seq<bool>
    requires width > 0
  {
    seq(|g|, c requires 0 <= c < |g| => CulledCell(g, width, regionType, regionThreshold, c))
  }

  /**
   What the sweep knows part-way through: flags mark only cells of the
   chosen state and whole regions of `g`, flagged cells already hold their
   culled state, and unflagged cells still hold their state in `g`.
   */
  ghost predicate Swept(g: seq<bool>, width: int, regionType: bool, regionThreshold: int, m: seq<bool>, flags: seq<bool>)
    requires width > 0
  {
    && |m| == |g| && |flags| == |g|
    && (forall c :: InBounds(|g|, c) && flags[c] ==> g[c] == regionType)
    && (forall c, d :: InBounds(|g|, c) && flags[c] && Connected(g, width, c, d) ==> InBounds(|g|, d) && flags[d])
    && (forall c :: InBounds(|g|, c) ==>
          m[c] == (if flags[c] then CulledCell(g, width, regionType, regionThreshold, c) else g[c]))
  }

  /**
   The flood fill on the partly culled map finds the same region as on the
   starting map: the culled cells are whole regions of the chosen state that
   became the other state, so they neither join nor split unflagged regions.
   */
  lemma RegionUnaffected(g: seq<bool>, width: int, regionType: bool, regionThreshold: int,
                         m: seq<bool>, flags: seq<bool>, index: int)
    requires width > 0 && Swept(g, width, regionType, regionThreshold, m, flags)
    requires InBounds(|g|, index) && !flags[index] && m[index] == regionType
    ensures g[index] == regionType
    ensures Region(m, width, index) == Region(g, width, index)
  {
    forall d | InBounds(|g|, d) && Connected(g, width, index, d)
      ensures m[d] == g[d]
    {
      ConnectedSameState(g, width, index, d);
      if flags[d] {
        ConnectedSymmetric(g, width, index, d);
        assert false;
      }
    }
    RegionPreserved(g, m, width, index);
  }

  lemma {:induction false} DistinctCardinality(s: seq<int>)
    requires Distinct(s)
    ensures |set u | u in s| == |s|
  {
    if |s| > 0 {
      var s' := s[1..];
      assert Distinct(s');
      DistinctCardinality(s');
      assert (set u | u in s) == (set u | u in s') + {s[0]};
      assert s[0] !in s';
    }
  }

  /**
   The inner loop over one region's tiles: flag each tile, and flip it when
   the region has fewer than `regionThreshold` tiles.
   */
  method MarkRegion(m: seq<bool>, flags: seq<bool>, region: seq<int>, regionType: bool, regionThreshold: int)
    returns (m': seq<bool>, flags': seq<bool>)
    requires |flags| == |m| && forall t :: t in region ==> InBounds(|m|, t)
    ensures |m'| == |m| && |flags'| == |m|
    ensures forall c :: InBounds(|m|, c) ==> (flags'[c] <==> flags[c] || c in region)
    ensures forall c :: InBounds(|m|, c) ==>
      m'[c] == (if c in region && |region| < regionThreshold then !regionType else m[c])
  {
    m', flags' := m, flags;
    var k := 0;
    while k < |region|
      invariant 0 <= k <= |region|
      invariant |m'| == |m| && |flags'| == |m|
      invariant forall c :: InBounds(|m|, c) ==> (flags'[c] <==> flags[c] || c in region[..k])
      invariant forall c :: InBounds(|m|, c) ==>
        m'[c] == (if c in region[..k] && |region| < regionThreshold then !regionType else m[c])
    {
      var tile := region[k];
      assert tile in region;
      assert region[..k + 1] == region[..k] + [tile];
      flags' := flags'[tile := true];
      if |region| < regionThreshold {
        m' := m'[tile := !regionType];
      }
      k := k + 1;
    }
    assert region[..|region|] == region;
  }

  /** Processing one newly found region keeps the sweep's invariant. */
  lemma SweptAfterRegion(g: seq<bool>, width: int, regionType: bool, regionThreshold: int,
                         m: seq<bool>, flags: seq<bool>, index: int, region: seq<int>,
                         m': seq<bool>, flags': seq<bool>)
    requires width > 0 && Swept(g, width, regionType, regionThreshold, m, flags)
    requires InBounds(|g|, index) && !flags[index] && m[index] == regionType
    requires Distinct(region) && forall t :: t in region <==> t in Region(m, width, index)
    requires |m'| == |g| && |flags'| == |g|
    requires forall c :: InBounds(|g|, c) ==> (flags'[c] <==> flags[c] || c in region)
    requires forall c :: InBounds(|g|, c) ==>
      m'[c] == (if c in region && |region| < regionThreshold then !regionType else m[c])
    ensures Swept(g, width, regionType, regionThreshold, m', flags')
    ensures flags'[index]
  {
    RegionUnaffected(g, width, regionType, regionThreshold, m, flags, index);
    var r := Region(g, width, index);
    assert (set u | u in region) == r;
    DistinctCardinality(region);
    RegionNonEmpty(g, width, index);
    forall c | c in region
      ensures g[c] == regionType && !flags[c] && Region(g, width, c) == r
    {
      assert Connected(g, width, index, c);
      ConnectedSameState(g, width, index, c);
      SameRegion(g, width, index, c);
      if flags[c] {
        ConnectedSymmetric(g, width, index, c);
        assert false;
      }
    }
    forall c, d | InBounds(|g|, c) && flags'[c] && Connected(g, width, c, d)
      ensures InBounds(|g|, d) && flags'[d]
    {
      ConnectedSameState(g, width, c, d);
      if c in region {
        ConnectedTransitive(g, width, index, c, d);
        assert d in r;
      }
    }
  }

  /**
   The culling sweep. Every cell not of `regionType` keeps its state; a cell
   of `regionType` is flipped exactly when its region in the input map has
   fewer than `regionThreshold` cells. Regions are judged on the input map
   even though the sweep floods the partly culled one.
   */
  method CullFragments(g: seq<bool>, width: int, regionType: bool, regionThreshold: int) returns (m: seq<bool>)
    requires width > 0 && regionThreshold >= 0
    ensures |m| == |g|
    ensures forall c :: 0 <= c < |g| ==> m[c] == CulledCell(g, width, regionType, regionThreshold, c)
  {
    m := g;
    var mapFlags := seq(|g|, _ => false);
    var index := 0;
    while index < |g|
      invariant 0 <= index <= |g|
      invariant Swept(g, width, regionType, regionThreshold, m, mapFlags)
      invariant forall c :: 0 <= c < index && g[c] == regionType ==> mapFlags[c]
    {
      if !mapFlags[index] && m[index] == regionType {
        var newRegion := GetRegionTiles(m, width, index);
        var m', flags' := MarkRegion(m, mapFlags, newRegion, regionType, regionThreshold);
        SweptAfterRegion(g, width, regionType, regionThreshold, m, mapFlags, index, newRegion, m', flags');
        m, mapFlags := m', flags';
      }
      index := index + 1;
    }
  }

  /** The sweep's result is the map `CullSpec` describes. */
  lemma CulledIsSpec(g: seq<bool>, width: int, regionType: bool, regionThreshold: int, m: seq<bool>)
    requires width > 0 && |m| == |g|
    requires forall c :: 0 <= c < |g| ==> m[c] == CulledCell(g, width, regionType, regionThreshold, c)
    ensures m == CullSpec(g, width, regionType, regionThreshold)
  {
  }

  /** A threshold of at most one culls nothing: every region has at least one cell. */
  lemma CullNoThreshold(g: seq<bool>, width: int, regionType: bool, regionThreshold: int)
    requires width > 0 && regionThreshold <= 1
    ensures CullSpec(g, width, regionType, regionThreshold) == g
  {
    forall c | 0 <= c < |g|
      ensures CulledCell(g, width, regionType, regionThreshold, c) == g[c]
    {
      RegionNonEmpty(g, width, c);
    }
  }

  /**
   After culling, every cell of the culled state lies in a region of that
   state with at least `regionThreshold` cells: the surviving regions are
   exactly the large regions of the input, unchanged.
   */
  lemma CullLeavesLargeRegions(g: seq<bool>, width: int, regionType: bool, regionThreshold: int)
    requires width > 0
    ensures var r := CullSpec(g, width, regionType, regionThreshold);
      forall c :: 0 <= c < |r| && r[c] == regionType ==> |Region(r, width, c)| >= regionThreshold
  {
    var r := CullSpec(g, width, regionType, regionThreshold);
    forall c | 0 <= c < |r| && r[c] == regionType
      ensures |Region(r, width, c)| >= regionThreshold
    {
      assert g[c] == regionType && |Region(g, width, c)| >= regionThreshold;
      forall d | InBounds(|g|, d) && Connected(g, width, c, d)
        ensures r[d] == g[d]
      {
        ConnectedSameState(g, width, c, d);
        SameRegion(g, width, c, d);
      }
      RegionPreserved(g, r, width, c);
    }
  }

  /** A lone wall (or floor) cell is culled by any threshold above one. */
  lemma LoneCellCulled(g: seq<bool>, width: int, regionThreshold: int, a: int)
    requires width > 0 && InBounds(|g|, a) && regionThreshold >= 2
    requires forall c :: InBounds(|g|, c) && c != a ==> g[c] != g[a]
    ensures CullSpec(g, width, g[a], regionThreshold) == g[a := !g[a]]
  {
    LoneCellRegion(g, width, a);
  }
}
