/**
 Counting the alive cells around a cell. The count ranges over the eight
 offsets `(i, j)` of the 3x3 block other than `(0, 0)`; an offset counts when
 its flat neighbour index is inside the map and alive. It is a count of
 OFFSETS, not of distinct cells: on a grid one or two cells wide several
 offsets reach the same cell (or the cell itself), and each of them counts.
 */
module Neighbours {
  import opened Grid

  /** Offset `(i, j)` adds one to the count of `index`. */
  predicate Counted(g: seq<bool>, width: int, index: int, i: int, j: int)
    requires width > 0
  {
    var n := Neighbour(width, index, i, j);
    (InBounds(|g|, n) && g[n]) && !(i == 0 && j == 0)
  }

  /** The offsets of the 3x3 block that count for `index`. */
  function CountedOffsets(g: seq<bool>, width: int, index: int): set<(int, int)>
    requires width > 0
  {
    set i, j | -1 <= i <= 1 && -1 <= j <= 1 && Counted(g, width, index, i, j) :: (i, j)
  }

  /** The eight offsets around a cell. */
  function Ring(): set<(int, int)>
  {
    {(-1, -1), (-1, 0), (-1, 1), (0, -1), (0, 1), (1, -1), (1, 0), (1, 1)}
  }

  /** The number of alive neighbours the smoothing rule looks at. */
  function AliveNeighbours(g: seq<bool>, width: int, index: int): (c: nat)
    requires width > 0
    ensures c <= 8
  {
    NeighbourCountBound(g, width, index);
    |CountedOffsets(g, width, index)|
  }

  lemma SubsetCardinality<T>(a: set<T>, b: set<T>)
    requires a <= b
    ensures |a| <= |b|
  {
    if a != {} {
      var x :| x in a;
      SubsetCardinality(a - {x}, b - {x});
    }
  }

  /** The counted offsets are among the eight around the cell, so at most 8 count. */
  lemma NeighbourCountBound(g: seq<bool>, width: int, index: int)
    requires width > 0
    ensures CountedOffsets(g, width, index) <= Ring()
    ensures |CountedOffsets(g, width, index)| <= 8
  {
    var ring := Ring();
    assert |ring| == 8;
    SubsetCardinality(CountedOffsets(g, width, index), ring);
  }

  /**
   On a grid one cell wide the offsets `(-1, 1)` and `(1, -1)` both land on
   the cell itself, so an alive cell counts itself twice.
   */
  lemma NarrowGridCountsSelf(g: seq<bool>, index: int)
    requires 0 <= index < |g| && g[index]
    ensures (-1, 1) in CountedOffsets(g, 1, index)
    ensures (1, -1) in CountedOffsets(g, 1, index)
  {
    assert Counted(g, 1, index, -1, 1);
    assert Counted(g, 1, index, 1, -1);
  }

  /** The counted offsets the nested loops have visited before reaching `(i, j)`. */
  function CountedBefore(g: seq<bool>, width: int, index: int, i: int, j: int): set<(int, int)>
    requires width > 0
  {
    set i', j' | -1 <= i' <= 1 && -1 <= j' <= 1 && Before(i', j', i, j) && Counted(g, width, index, i', j') :: (i', j')
  }

  lemma CountedBeforeStep(g: seq<bool>, width: int, index: int, i: int, j: int)
    requires width > 0 && -1 <= i <= 1 && -1 <= j <= 1
    ensures Counted(g, width, index, i, j) ==>
      CountedBefore(g, width, index, i, j + 1) == CountedBefore(g, width, index, i, j) + {(i, j)}
    ensures !Counted(g, width, index, i, j) ==>
      CountedBefore(g, width, index, i, j + 1) == CountedBefore(g, width, index, i, j)
    ensures |CountedBefore(g, width, index, i, j + 1)| ==
      |CountedBefore(g, width, index, i, j)| + (if Counted(g, width, index, i, j) then 1 else 0)
  {
    var before := CountedBefore(g, width, index, i, j);
    assert (i, j) !in before;
    if Counted(g, width, index, i, j) {
      assert CountedBefore(g, width, index, i, j + 1) == before + {(i, j)};
    } else {
      assert CountedBefore(g, width, index, i, j + 1) == before;
    }
  }

  lemma CountedBeforeEnds(g: seq<bool>, width: int, index: int)
    requires width > 0
    ensures CountedBefore(g, width, index, -1, -1) == {}
    ensures CountedBefore(g, width, index, 2, -1) == CountedOffsets(g, width, index)
  {
  }

  lemma CountedBeforeRow(g: seq<bool>, width: int, index: int, i: int)
    requires width > 0
    ensures CountedBefore(g, width, index, i, 2) == CountedBefore(g, width, index, i + 1, -1)
  {
  }

  /**
   The nested loops of the source: for each offset row `i` and column `j`,
   count the offset when its flat neighbour is in bounds, alive, and not the
   cell itself. The result is exactly the number of counted offsets.
   */
  method CountAliveNeighbours(g: seq<bool>, width: int, index: int) returns (count: int)
    requires width > 0
    ensures count == |CountedOffsets(g, width, index)|
    ensures 0 <= count <= 8
  {
    count := 0;
    CountedBeforeEnds(g, width, index);
    var i := -1;
    while i < 2
      invariant -1 <= i <= 2
      invariant count == |CountedBefore(g, width, index, i, -1)|
    {
      var j := -1;
      while j < 2
        invariant -1 <= j <= 2
        invariant count == |CountedBefore(g, width, index, i, j)|
      {
        var neighbour := Neighbour(width, index, i, j);
        CountedBeforeStep(g, width, index, i, j);
        if (InBounds(|g|, neighbour) && g[neighbour]) && !(i == 0 && j == 0) {
          count := count + 1;
        }
        j := j + 1;
      }
      CountedBeforeRow(g, width, index, i);
      i := i + 1;
    }
    NeighbourCountBound(g, width, index);
  }
}
