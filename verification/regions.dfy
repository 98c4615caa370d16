/**
 Regions: maximal groups of same-state cells linked through the flat 3x3
 neighbourhood (with the same row-wrap as the neighbour count). A region is
 described declaratively by paths, and discovered by a breadth-first flood
 fill that uses a fresh visited-flag buffer on every call.
 */
module Regions {
  import opened Grid

  /** `b` is one of the nine flat cells of the 3x3 block around `a`. */
  ghost predicate Adjacent(width: int, a: int, b: int)
    requires width > 0
  {
    exists i, j :: -1 <= i <= 1 && -1 <= j <= 1 && b == Neighbour(width, a, i, j)
  }

  /** One step of a flood fill: two adjacent in-range cells of the same state. */
  ghost predicate Link(g: seq<bool>, width: int, a: int, b: int)
    requires width > 0
  {
    InBounds(|g|, a) && InBounds(|g|, b) && g[a] == g[b] && Adjacent(width, a, b)
  }

  /** A non-empty walk from `a` to `b` made of links. */
  ghost predicate IsPath(g: seq<bool>, width: int, p: seq<int>, a: int, b: int)
    requires width > 0
  {
    && |p| > 0 && p[0] == a && p[|p| - 1] == b && InBounds(|g|, a)
    && forall k :: 0 <= k < |p| - 1 ==> Link(g, width, p[k], p[k + 1])
  }

  ghost predicate Connected(g: seq<bool>, width: int, a: int, b: int)
    requires width > 0
  {
    exists p :: IsPath(g, width, p, a, b)
  }

  /** The region of cell `a`: every cell connected to it. */
  ghost function Region(g: seq<bool>, width: int, a: int): set<int>
    requires width > 0
  {
    set b | 0 <= b < |g| && Connected(g, width, a, b)
  }

  /** No element occurs twice. */
  predicate Distinct(s: seq<int>)
  {
    forall a, b :: 0 <= a < b < |s| ==> s[a] != s[b]
  }

  /** The number of set flags. */
  function CountTrue(v: seq<bool>): (c: nat)
    ensures c <= |v|
  {
    if |v| == 0 then 0 else (if v[0] then 1 else 0) + CountTrue(v[1..])
  }

  // ---------------------------------------------------------------------
  // Facts about links, paths and regions
  // ---------------------------------------------------------------------

  lemma AdjacentSymmetric(width: int, a: int, b: int)
    requires width > 0 && Adjacent(width, a, b)
    ensures Adjacent(width, b, a)
  {
    var i, j :| -1 <= i <= 1 && -1 <= j <= 1 && b == Neighbour(width, a, i, j);
    assert a == Neighbour(width, b, -i, -j);
  }

  lemma ConnectedSelf(g: seq<bool>, width: int, a: int)
    requires width > 0 && InBounds(|g|, a)
    ensures Connected(g, width, a, a)
  {
    assert IsPath(g, width, [a], a, a);
  }

  lemma ConnectedExtend(g: seq<bool>, width: int, p: seq<int>, a: int, b: int, c: int)
    requires width > 0 && IsPath(g, width, p, a, b) && Link(g, width, b, c)
    ensures IsPath(g, width, p + [c], a, c)
  {
    var q := p + [c];
    forall k | 0 <= k < |q| - 1
      ensures Link(g, width, q[k], q[k + 1])
    {
      if k < |p| - 1 {
        assert q[k] == p[k] && q[k + 1] == p[k + 1];
      }
    }
  }

  lemma {:induction false} PathEnds(g: seq<bool>, width: int, p: seq<int>, a: int, b: int)
    requires width > 0 && IsPath(g, width, p, a, b)
    ensures InBounds(|g|, b) && g[b] == g[a]
    decreases |p|
  {
    if |p| > 1 {
      var p' := p[..|p| - 1];
      assert IsPath(g, width, p', a, p'[|p'| - 1]) by {
        forall k | 0 <= k < |p'| - 1
          ensures Link(g, width, p'[k], p'[k + 1])
        {
          assert p'[k] == p[k] && p'[k + 1] == p[k + 1];
        }
      }
      PathEnds(g, width, p', a, p'[|p'| - 1]);
      assert Link(g, width, p[|p| - 2], p[|p| - 1]);
    }
  }

  /** Every prefix of a path is a path to the cell where it stops. */
  lemma PathPrefix(g: seq<bool>, width: int, p: seq<int>, a: int, b: int, k: int)
    requires width > 0 && IsPath(g, width, p, a, b) && 0 <= k < |p|
    ensures IsPath(g, width, p[..k + 1], a, p[k])
  {
    var p' := p[..k + 1];
    forall n | 0 <= n < |p'| - 1
      ensures Link(g, width, p'[n], p'[n + 1])
    {
      assert p'[n] == p[n] && p'[n + 1] == p[n + 1];
    }
  }

  /** Every cell on a path is in range and has the state of its first cell. */
  lemma PathStates(g: seq<bool>, width: int, p: seq<int>, a: int, b: int)
    requires width > 0 && IsPath(g, width, p, a, b)
    ensures forall k :: 0 <= k < |p| ==> InBounds(|g|, p[k]) && g[p[k]] == g[a]
  {
    forall k | 0 <= k < |p|
      ensures InBounds(|g|, p[k]) && g[p[k]] == g[a]
    {
      PathPrefix(g, width, p, a, b, k);
      PathEnds(g, width, p[..k + 1], a, p[k]);
    }
  }

  /** A path stays a path on another map that agrees with the first on the path's cells. */
  lemma PathTransfer(g: seq<bool>, h: seq<bool>, width: int, p: seq<int>, a: int, b: int)
    requires width > 0 && |h| == |g| && IsPath(g, width, p, a, b)
    requires forall k :: 0 <= k < |p| ==> InBounds(|g|, p[k]) && h[p[k]] == g[p[k]]
    ensures IsPath(h, width, p, a, b)
  {
    forall k | 0 <= k < |p| - 1
      ensures Link(h, width, p[k], p[k + 1])
    {
      assert Link(g, width, p[k], p[k + 1]);
    }
  }

  /** Connected cells are in range and share the state. */
  lemma ConnectedSameState(g: seq<bool>, width: int, a: int, b: int)
    requires width > 0 && Connected(g, width, a, b)
    ensures InBounds(|g|, a) && InBounds(|g|, b) && g[a] == g[b]
  {
    var p :| IsPath(g, width, p, a, b);
    PathEnds(g, width, p, a, b);
  }

  lemma ConnectedTransitive(g: seq<bool>, width: int, a: int, b: int, c: int)
    requires width > 0 && Connected(g, width, a, b) && Connected(g, width, b, c)
    ensures Connected(g, width, a, c)
  {
    var p :| IsPath(g, width, p, a, b);
    var q :| IsPath(g, width, q, b, c);
    var r := p + q[1..];
    forall k | 0 <= k < |r| - 1
      ensures Link(g, width, r[k], r[k + 1])
    {
      if k < |p| - 1 {
        assert r[k] == p[k] && r[k + 1] == p[k + 1];
      } else {
        var k' := k - (|p| - 1);
        assert r[k] == q[k'] && r[k + 1] == q[k' + 1];
      }
    }
    assert IsPath(g, width, r, a, c);
  }

  lemma {:induction false} PathReversed(g: seq<bool>, width: int, p: seq<int>, a: int, b: int)
    requires width > 0 && IsPath(g, width, p, a, b)
    ensures Connected(g, width, b, a)
    decreases |p|
  {
    if |p| == 1 {
      ConnectedSelf(g, width, a);
    } else {
      var p' := p[..|p| - 1];
      var m := p'[|p'| - 1];
      assert IsPath(g, width, p', a, m) by {
        forall k | 0 <= k < |p'| - 1
          ensures Link(g, width, p'[k], p'[k + 1])
        {
          assert p'[k] == p[k] && p'[k + 1] == p[k + 1];
        }
      }
      PathReversed(g, width, p', a, m);
      assert Link(g, width, m, b);
      AdjacentSymmetric(width, m, b);
      assert IsPath(g, width, [b, m], b, m);
      ConnectedTransitive(g, width, b, m, a);
    }
  }

  lemma ConnectedSymmetric(g: seq<bool>, width: int, a: int, b: int)
    requires width > 0 && Connected(g, width, a, b)
    ensures Connected(g, width, b, a)
  {
    var p :| IsPath(g, width, p, a, b);
    PathReversed(g, width, p, a, b);
  }

  /**
   A region carries over to a second map of the same size when the second
   map agrees with the first on the region, and every cell holding the
   region's state in the second map held it in the first.
   */
  lemma RegionPreserved(g: seq<bool>, h: seq<bool>, width: int, a: int)
    requires width > 0 && |h| == |g| && InBounds(|g|, a) && h[a] == g[a]
    requires forall c :: InBounds(|g|, c) && h[c] == h[a] ==> g[c] == g[a]
    requires forall d :: InBounds(|g|, d) && Connected(g, width, a, d) ==> h[d] == g[d]
    ensures Region(h, width, a) == Region(g, width, a)
  {
    forall d | Connected(h, width, a, d)
      ensures Connected(g, width, a, d)
    {
      var p :| IsPath(h, width, p, a, d);
      PathStates(h, width, p, a, d);
      PathTransfer(h, g, width, p, a, d);
    }
    forall d | Connected(g, width, a, d)
      ensures Connected(h, width, a, d)
    {
      var p :| IsPath(g, width, p, a, d);
      PathStates(g, width, p, a, d);
      forall k | 0 <= k < |p|
        ensures h[p[k]] == g[p[k]]
      {
        PathPrefix(g, width, p, a, d, k);
      }
      PathTransfer(g, h, width, p, a, d);
    }
  }

  /** A cell that is the only one of its state forms a region by itself. */
  lemma LoneCellRegion(g: seq<bool>, width: int, a: int)
    requires width > 0 && InBounds(|g|, a)
    requires forall c :: InBounds(|g|, c) && c != a ==> g[c] != g[a]
    ensures Region(g, width, a) == {a}
  {
    RegionNonEmpty(g, width, a);
    forall d | d in Region(g, width, a)
      ensures d == a
    {
      ConnectedSameState(g, width, a, d);
    }
  }

  /** Two connected cells have the same region. */
  lemma SameRegion(g: seq<bool>, width: int, a: int, b: int)
    requires width > 0 && Connected(g, width, a, b)
    ensures Region(g, width, a) == Region(g, width, b)
  {
    ConnectedSymmetric(g, width, a, b);
    forall c | Connected(g, width, b, c)
      ensures Connected(g, width, a, c)
    {
      ConnectedTransitive(g, width, a, b, c);
    }
    forall c | Connected(g, width, a, c)
      ensures Connected(g, width, b, c)
    {
      ConnectedTransitive(g, width, b, a, c);
    }
  }

  /** A cell belongs to its own region, so every region has at least one cell. */
  lemma RegionNonEmpty(g: seq<bool>, width: int, a: int)
    requires width > 0 && InBounds(|g|, a)
    ensures a in Region(g, width, a)
    ensures |Region(g, width, a)| >= 1
  {
    ConnectedSelf(g, width, a);
  }

  /** A set that holds `a` and every same-state neighbour of its members holds `a`'s region. */
  lemma {:induction false} ClosedHoldsPath(g: seq<bool>, width: int, s: set<int>, p: seq<int>, a: int, b: int)
    requires width > 0 && a in s && IsPath(g, width, p, a, b)
    requires forall t, i, j ::
      (t in s && -1 <= i <= 1 && -1 <= j <= 1 &&
       InBounds(|g|, Neighbour(width, t, i, j)) && g[Neighbour(width, t, i, j)] == g[a]) ==>
      Neighbour(width, t, i, j) in s
    ensures b in s
    decreases |p|
  {
    if |p| > 1 {
      var p' := p[..|p| - 1];
      var m := p'[|p'| - 1];
      assert IsPath(g, width, p', a, m) by {
        forall k | 0 <= k < |p'| - 1
          ensures Link(g, width, p'[k], p'[k + 1])
        {
          assert p'[k] == p[k] && p'[k + 1] == p[k + 1];
        }
      }
      ClosedHoldsPath(g, width, s, p', a, m);
      PathEnds(g, width, p', a, m);
      assert Link(g, width, m, b);
      var i, j :| -1 <= i <= 1 && -1 <= j <= 1 && b == Neighbour(width, m, i, j);
    }
  }

  // ---------------------------------------------------------------------
  // Flag counting
  // ---------------------------------------------------------------------

  lemma {:induction false} CountTrueNone(v: seq<bool>)
    requires forall d :: 0 <= d < |v| ==> !v[d]
    ensures CountTrue(v) == 0
  {
    if |v| > 0 {
      CountTrueNone(v[1..]);
    }
  }

  lemma {:induction false} CountTrueRaise(v: seq<bool>, d: int)
    requires 0 <= d < |v| && !v[d]
    ensures CountTrue(v[d := true]) == CountTrue(v) + 1
  {
    if d == 0 {
      assert v[d := true][1..] == v[1..];
    } else {
      assert v[d := true][1..] == v[1..][d - 1 := true];
      CountTrueRaise(v[1..], d - 1);
    }
  }

  // ---------------------------------------------------------------------
  // The flood fill
  // ---------------------------------------------------------------------

  /**
   The inner loops of the flood fill for one dequeued tile: every in-range,
   not yet flagged neighbour of the tile's state is flagged and reported in
   loop order, exactly once.
   */
  method ScanNeighbours(g: seq<bool>, width: int, tile: int, tileType: bool, flags: seq<bool>)
    returns (flags': seq<bool>, found: seq<int>)
    requires width > 0 && |flags| == |g|
    ensures |flags'| == |g|
    ensures forall t :: InBounds(|g|, t) ==> (flags'[t] <==> flags[t] || t in found)
    ensures Distinct(found)
    ensures forall t :: t in found ==> InBounds(|g|, t) && !flags[t] && g[t] == tileType && Adjacent(width, tile, t)
    ensures CountTrue(flags') == CountTrue(flags) + |found|
    ensures forall i, j ::
      (-1 <= i <= 1 && -1 <= j <= 1 &&
       InBounds(|g|, Neighbour(width, tile, i, j)) && g[Neighbour(width, tile, i, j)] == tileType) ==>
      flags'[Neighbour(width, tile, i, j)]
  {
    flags', found := flags, [];
    var i := -1;
    while i < 2
      invariant -1 <= i <= 2
      invariant |flags'| == |g|
      invariant forall t :: InBounds(|g|, t) ==> (flags'[t] <==> flags[t] || t in found)
      invariant Distinct(found)
      invariant forall t :: t in found ==> InBounds(|g|, t) && !flags[t] && g[t] == tileType && Adjacent(width, tile, t)
      invariant CountTrue(flags') == CountTrue(flags) + |found|
      invariant forall i', j' ::
        (-1 <= i' <= 1 && -1 <= j' <= 1 && Before(i', j', i, -1) &&
         InBounds(|g|, Neighbour(width, tile, i', j')) && g[Neighbour(width, tile, i', j')] == tileType) ==>
        flags'[Neighbour(width, tile, i', j')]
    {
      var j := -1;
      while j < 2
        invariant -1 <= j <= 2
        invariant |flags'| == |g|
        invariant forall t :: InBounds(|g|, t) ==> (flags'[t] <==> flags[t] || t in found)
        invariant Distinct(found)
        invariant forall t :: t in found ==> InBounds(|g|, t) && !flags[t] && g[t] == tileType && Adjacent(width, tile, t)
        invariant CountTrue(flags') == CountTrue(flags) + |found|
        invariant forall i', j' ::
          (-1 <= i' <= 1 && -1 <= j' <= 1 && Before(i', j', i, j) &&
           InBounds(|g|, Neighbour(width, tile, i', j')) && g[Neighbour(width, tile, i', j')] == tileType) ==>
          flags'[Neighbour(width, tile, i', j')]
      {
        var neighbour := Neighbour(width, tile, i, j);
        if InBounds(|g|, neighbour) && !flags'[neighbour] && g[neighbour] == tileType {
          CountTrueRaise(flags', neighbour);
          flags' := flags'[neighbour := true];
          found := found + [neighbour];
        }
        j := j + 1;
      }
      i := i + 1;
    }
  }

  lemma DistinctAppend(a: seq<int>, b: seq<int>)
    requires Distinct(a) && Distinct(b)
    requires forall t :: t in b ==> t !in a
    ensures Distinct(a + b)
  {
    var c := a + b;
    forall x, y | 0 <= x < y < |c|
      ensures c[x] != c[y]
    {
      if y >= |a| && x < |a| {
        assert c[y] in b;
      }
    }
  }

  /** Every cell of `s` is in range, of state `tileType`, and has a recorded path from `index`. */
  ghost predicate Reached(g: seq<bool>, width: int, index: int, tileType: bool, paths: map<int, seq<int>>, s: seq<int>)
    requires width > 0
  {
    forall t :: t in s ==>
      InBounds(|g|, t) && g[t] == tileType && t in paths && IsPath(g, width, paths[t], index, t)
  }

  /** Cells found around a reached tile are reached through the tile's path. */
  lemma ReachedExtend(g: seq<bool>, width: int, index: int, tileType: bool, paths: map<int, seq<int>>,
                      s: seq<int>, tile: int, found: seq<int>)
    returns (paths': map<int, seq<int>>)
    requires width > 0 && Reached(g, width, index, tileType, paths, s) && tile in s
    requires forall t :: t in found ==> InBounds(|g|, t) && g[t] == tileType && Adjacent(width, tile, t)
    ensures Reached(g, width, index, tileType, paths', s + found)
  {
    var tilePath := paths[tile];
    forall t | t in found
      ensures IsPath(g, width, tilePath + [t], index, t)
    {
      ConnectedExtend(g, width, tilePath, index, tile, t);
    }
    paths' := map t | t in paths.Keys + (set u | u in found) :: if t in found then tilePath + [t] else paths[t];
  }

  /**
   The breadth-first flood fill from `index`. It returns the region of
   `index`, each cell once, starting with `index` itself, and the result is
   closed: every in-range flat neighbour of a returned tile that has the
   start cell's state is returned as well.
   */
  method GetRegionTiles(g: seq<bool>, width: int, index: int) returns (tiles: seq<int>)
    requires width > 0 && InBounds(|g|, index)
    ensures |tiles| > 0 && tiles[0] == index
    ensures Distinct(tiles)
    ensures forall t :: t in tiles ==> InBounds(|g|, t) && g[t] == g[index]
    ensures forall t, i, j ::
      (t in tiles && -1 <= i <= 1 && -1 <= j <= 1 &&
       InBounds(|g|, Neighbour(width, t, i, j)) && g[Neighbour(width, t, i, j)] == g[index]) ==>
      Neighbour(width, t, i, j) in tiles
    ensures forall t :: t in tiles <==> t in Region(g, width, index)
  {
    var tileType := g[index];
    var mapFlags := seq(|g|, _ => false);
    CountTrueNone(mapFlags);
    CountTrueRaise(mapFlags, index);
    var queue := [index];
    mapFlags := mapFlags[index := true];
    tiles := [];
    ghost var paths: map<int, seq<int>> := map[index := [index]];
    assert IsPath(g, width, [index], index, index);
    while |queue| > 0
      invariant |mapFlags| == |g|
      invariant forall t :: InBounds(|g|, t) ==> (mapFlags[t] <==> t in tiles || t in queue)
      invariant Distinct(tiles + queue)
      invariant Reached(g, width, index, tileType, paths, tiles + queue)
      invariant |tiles| > 0 ==> tiles[0] == index
      invariant |tiles| == 0 ==> queue == [index]
      invariant forall t, i, j ::
        (t in tiles && -1 <= i <= 1 && -1 <= j <= 1 &&
         InBounds(|g|, Neighbour(width, t, i, j)) && g[Neighbour(width, t, i, j)] == tileType) ==>
        mapFlags[Neighbour(width, t, i, j)]
      invariant |tiles| + |queue| == CountTrue(mapFlags)
      decreases |g| - |tiles|
    {
      var tile := queue[0];
      assert tiles + queue == (tiles + [tile]) + queue[1..];
      queue := queue[1..];
      tiles := tiles + [tile];
      var found;
      ghost var oldFlags := mapFlags;
      mapFlags, found := ScanNeighbours(g, width, tile, tileType, mapFlags);
      forall t | t in found
        ensures t !in tiles + queue
      {
        assert !oldFlags[t];
      }
      DistinctAppend(tiles + queue, found);
      paths := ReachedExtend(g, width, index, tileType, paths, tiles + queue, tile, found);
      assert tiles + (queue + found) == (tiles + queue) + found;
      queue := queue + found;
    }
    assert tiles + queue == tiles;
    forall t | t in tiles
      ensures t in Region(g, width, index)
    {
      assert IsPath(g, width, paths[t], index, t);
    }
    forall t | t in Region(g, width, index)
      ensures t in tiles
    {
      var p :| IsPath(g, width, p, index, t);
      ClosedHoldsPath(g, width, (set u | u in tiles), p, index, t);
    }
  }
}
