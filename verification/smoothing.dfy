/**
 One smoothing pass of the cellular automaton. The pass walks the map in
 ascending index order and overwrites each cell as soon as its new value is
 known, so the decision at index `k` already sees the new values of the
 cells before `k`. It is modelled as a left-to-right fold of single-cell
 updates, and the lemmas below characterise the fold cell by cell.
 */
module Smoothing {
  import opened Grid
  import opened Neighbours

  /**
   The birth/death rule: an alive cell survives with at least 3 alive
   neighbours, a dead cell is born with more than 4. In count bands: below 3
   the cell is dead, above 4 it is alive, and at 3 or 4 it keeps its state.
   */
  function Rule(alive: bool, count: int): (next: bool)
    ensures count < 3 ==> !next
    ensures count > 4 ==> next
    ensures 3 <= count <= 4 ==> next == alive
  {
    if alive then !(count < 3) else count > 4
  }

  /** Overwrite cell `k` with the rule applied to the map as it stands. */
  function UpdateCell(g: seq<bool>, width: int, k: int): seq<bool>
    requires width > 0 && 0 <= k < |g|
  {
    g[k := Rule(g[k], AliveNeighbours(g, width, k))]
  }

  /** The map once the pass has updated cells `0 .. k-1`; cells from `k` on are untouched. */
  function SmoothPrefix(g: seq<bool>, width: int, k: nat): (r: seq<bool>)
    requires width > 0 && k <= |g|
    ensures |r| == |g|
    ensures forall m :: k <= m < |g| ==> r[m] == g[m]
    decreases k
  {
    if k == 0 then g else UpdateCell(SmoothPrefix(g, width, k - 1), width, k - 1)
  }

  /** One whole in-place smoothing pass. */
  function Smooth(g: seq<bool>, width: int): (r: seq<bool>)
    requires width > 0
    ensures |r| == |g|
  {
    SmoothPrefix(g, width, |g|)
  }

  /** `n` smoothing passes, one after the other. */
  function SmoothTimes(g: seq<bool>, width: int, n: nat): (r: seq<bool>)
    requires width > 0
    ensures |r| == |g|
  {
    if n == 0 then g else Smooth(SmoothTimes(g, width, n - 1), width)
  }

  /** Once cell `m` is written, later steps of the pass leave it alone. */
  lemma {:induction false} PrefixStable(g: seq<bool>, width: int, k: nat, k': nat, m: int)
    requires width > 0 && k <= k' <= |g| && 0 <= m < k
    ensures SmoothPrefix(g, width, k')[m] == SmoothPrefix(g, width, k)[m]
    decreases k'
  {
    if k' > k {
      PrefixStable(g, width, k, k' - 1, m);
    }
  }

  /** Half-way through the pass the map is the final prefix followed by the original suffix. */
  lemma PrefixIsSplice(g: seq<bool>, width: int, k: nat)
    requires width > 0 && k <= |g|
    ensures SmoothPrefix(g, width, k) == Smooth(g, width)[..k] + g[k..]
  {
    var s := Smooth(g, width)[..k] + g[k..];
    forall m | 0 <= m < |g|
      ensures SmoothPrefix(g, width, k)[m] == s[m]
    {
      if m < k {
        PrefixStable(g, width, k, |g|, m);
      }
    }
  }

  /**
   The in-place law: the new value of cell `k` is the rule applied to the
   original state of `k` and to the neighbour count taken on the map whose
   cells before `k` already hold their new values and whose cells from `k`
   on still hold their old ones.
   */
  lemma SmoothInPlace(g: seq<bool>, width: int)
    requires width > 0
    ensures |Smooth(g, width)| == |g|
    ensures forall k :: 0 <= k < |g| ==>
      Smooth(g, width)[k] == Rule(g[k], AliveNeighbours(Smooth(g, width)[..k] + g[k..], width, k))
  {
    forall k | 0 <= k < |g|
      ensures Smooth(g, width)[k] == Rule(g[k], AliveNeighbours(Smooth(g, width)[..k] + g[k..], width, k))
    {
      PrefixStable(g, width, k + 1, |g|, k);
      PrefixIsSplice(g, width, k);
    }
  }

  /**
   The in-place law determines the pass: any map of the same length whose
   every cell obeys it is the result of `Smooth`.
   */
  lemma SmoothInPlaceUnique(g: seq<bool>, width: int, r: seq<bool>)
    requires width > 0 && |r| == |g|
    requires forall k :: 0 <= k < |g| ==>
      r[k] == Rule(g[k], AliveNeighbours(r[..k] + g[k..], width, k))
    ensures r == Smooth(g, width)
  {
    SpliceIsPrefix(g, width, r, |g|);
    assert r[..|g|] + g[|g|..] == r;
  }

  lemma {:induction false} SpliceIsPrefix(g: seq<bool>, width: int, r: seq<bool>, k: nat)
    requires width > 0 && |r| == |g| && k <= |g|
    requires forall k :: 0 <= k < |g| ==>
      r[k] == Rule(g[k], AliveNeighbours(r[..k] + g[k..], width, k))
    ensures SmoothPrefix(g, width, k) == r[..k] + g[k..]
    decreases k
  {
    if k > 0 {
      SpliceIsPrefix(g, width, r, k - 1);
      var before := r[..k - 1] + g[k - 1..];
      assert SmoothPrefix(g, width, k) == before[k - 1 := r[k - 1]];
      assert before[k - 1 := r[k - 1]] == r[..k] + g[k..];
    }
  }

  /** An all-dead map has no alive neighbours anywhere, so no cell is born: it is a fixed point. */
  lemma SmoothKeepsEmpty(g: seq<bool>, width: int)
    requires width > 0 && forall k :: 0 <= k < |g| ==> !g[k]
    ensures Smooth(g, width) == g
  {
    forall k | 0 <= k < |g|
      ensures g[k] == Rule(g[k], AliveNeighbours(g[..k] + g[k..], width, k))
    {
      assert g[..k] + g[k..] == g;
      assert CountedOffsets(g, width, k) == {};
    }
    SmoothInPlaceUnique(g, width, g);
  }

  lemma {:induction false} SmoothTimesKeepsEmpty(g: seq<bool>, width: int, n: nat)
    requires width > 0 && forall k :: 0 <= k < |g| ==> !g[k]
    ensures SmoothTimes(g, width, n) == g
  {
    if n > 0 {
      SmoothTimesKeepsEmpty(g, width, n - 1);
      SmoothKeepsEmpty(g, width);
    }
  }

  /**
   The in-place pass is not a pass-atomic (double-buffered) step. On the
   2x2 map `[wall, floor, wall, wall]`, cell 0 has 2 alive neighbours and
   dies first; cell 1 then sees 3 alive neighbours and stays a floor,
   although on the map the pass started from it has 5 and would be born.
   */
  lemma InPlaceDiffersFromBuffered()
    ensures var g := [true, false, true, true];
      AliveNeighbours(g, 2, 1) == 5 && Rule(g[1], AliveNeighbours(g, 2, 1)) &&
      !Smooth(g, 2)[1]
  {
    var g := [true, false, true, true];
    var h := [false, false, true, true];
    CountCorner(g);
    CountSecond(h);
    CountSecond(g);
    SmoothInPlace(g, 2);
    assert !Smooth(g, 2)[0];
    assert Smooth(g, 2)[..1] + g[1..] == h;
  }

  /** On a 2x2 map, cell 0 counts cells 1 (twice), 2 and 3. */
  lemma CountCorner(g: seq<bool>)
    requires |g| == 4
    ensures AliveNeighbours(g, 2, 0) == 2 * (if g[1] then 1 else 0) + (if g[2] then 1 else 0) + (if g[3] then 1 else 0)
  {
    var want := (if g[1] then {(0, 1), (1, -1)} else {}) + (if g[2] then {(1, 0)} else {}) + (if g[3] then {(1, 1)} else {});
    forall i, j | -1 <= i <= 1 && -1 <= j <= 1
      ensures Counted(g, 2, 0, i, j) <==> (i, j) in want
    {
      assert Neighbour(2, 0, i, j) == 2 * i + j;
    }
    assert CountedOffsets(g, 2, 0) == want;
  }

  /** On a 2x2 map, cell 1 counts cells 0 (twice), 2 (twice) and 3. */
  lemma CountSecond(g: seq<bool>)
    requires |g| == 4
    ensures AliveNeighbours(g, 2, 1) == 2 * (if g[0] then 1 else 0) + 2 * (if g[2] then 1 else 0) + (if g[3] then 1 else 0)
  {
    var a: set<(int, int)> := if g[0] then {(-1, 1), (0, -1)} else {};
    var b: set<(int, int)> := if g[2] then {(0, 1), (1, -1)} else {};
    var c: set<(int, int)> := if g[3] then {(1, 0)} else {};
    SecondOffsets(g, a, b, c);
    assert a * b == {} && (a + b) * c == {};
    assert |a + b| == |a| + |b|;
    assert |a + b + c| == |a + b| + |c|;
  }

  lemma SecondOffsets(g: seq<bool>, a: set<(int, int)>, b: set<(int, int)>, c: set<(int, int)>)
    requires |g| == 4
    requires a == if g[0] then {(-1, 1), (0, -1)} else {}
    requires b == if g[2] then {(0, 1), (1, -1)} else {}
    requires c == if g[3] then {(1, 0)} else {}
    ensures CountedOffsets(g, 2, 1) == a + b + c
  {
    forall p | p in CountedOffsets(g, 2, 1)
      ensures p in a + b + c
    {
      var i, j := p.0, p.1;
      assert Counted(g, 2, 1, i, j);
      assert Neighbour(2, 1, i, j) == 1 + 2 * i + j;
    }
    forall p | p in a + b + c
      ensures p in CountedOffsets(g, 2, 1)
    {
      var i, j := p.0, p.1;
      assert Neighbour(2, 1, i, j) == 1 + 2 * i + j;
      assert Counted(g, 2, 1, i, j);
    }
  }
}
