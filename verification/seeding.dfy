/**
 Noise seeding. Each cell is decided by one random draw compared against the
 alive chance (a percentage). The random source is outside the model: the
 draws are an input, one per cell in index order. The two generators differ
 only in the draw and the comparison.
 */
module Seeding {

  /** flood-fill.h's comparison: `draw % 100 + 1 < chance`, on the residue `v`. */
  predicate RandAlive(v: int, chance: int)
  {
    v + 1 < chance
  }

  /** celullar.h's comparison: `draw < chance`. */
  predicate UniformAlive(v: int, chance: int)
  {
    v < chance
  }

  /**
   flood-fill.h: each draw is a value of the C library's `rand()`, so it is
   non-negative; the cell is alive when `draw % 100 + 1 < chance`. A chance
   of at most 1 gives an empty map and a chance above 100 a full one.
   */
  function SeedFromRand(draws: seq<nat>, chance: int): (g: seq<bool>)
    ensures |g| == |draws|
    ensures forall k :: 0 <= k < |g| ==> (g[k] <==> draws[k] % 100 in AliveResidues(chance))
    ensures chance <= 1 ==> forall k :: 0 <= k < |g| ==> !g[k]
    ensures chance > 100 ==> forall k :: 0 <= k < |g| ==> g[k]
  {
    seq(|draws|, k requires 0 <= k < |draws| => RandAlive(draws[k] % 100, chance))
  }

  /** The residues `draw % 100` that make a cell alive. */
  function AliveResidues(chance: int): set<int>
  {
    set v | 0 <= v < 100 && RandAlive(v, chance)
  }

  /**
   celullar.h: each draw comes from a uniform distribution over `[0, 100]`
   (both ends included) and the cell is alive when `draw < chance`. A chance
   of at most 0 gives an empty map and a chance above 100 a full one.
   */
  function SeedFromUniform(draws: seq<int>, chance: int): (g: seq<bool>)
    requires forall k :: 0 <= k < |draws| ==> 0 <= draws[k] <= 100
    ensures |g| == |draws|
    ensures forall k :: 0 <= k < |g| ==> (g[k] <==> draws[k] in AliveDraws(chance))
    ensures chance <= 0 ==> forall k :: 0 <= k < |g| ==> !g[k]
    ensures chance > 100 ==> forall k :: 0 <= k < |g| ==> g[k]
  {
    seq(|draws|, k requires 0 <= k < |draws| => UniformAlive(draws[k], chance))
  }

  /** The draws in `[0, 100]` that make a cell alive. */
  function AliveDraws(chance: int): set<int>
  {
    set v | 0 <= v <= 100 && UniformAlive(v, chance)
  }

  function Clamp(x: int, lo: int, hi: int): int
  {
    if x < lo then lo else if x > hi then hi else x
  }

  /**
   The alive odds of flood-fill.h: of the 100 residues, `chance - 1` (clamped
   to `[0, 100]`) make a cell alive, so a uniform residue is alive with
   probability `(chance - 1) / 100`, one point below the nominal percentage.
   */
  lemma {:induction false} RandOdds(chance: int)
    ensures |AliveResidues(chance)| == Clamp(chance - 1, 0, 100)
    decreases if chance < 0 then 0 else chance
  {
    if chance <= 1 {
      assert AliveResidues(chance) == {};
    } else if chance > 101 {
      RandOdds(101);
      assert AliveResidues(chance) == AliveResidues(101);
    } else {
      RandOdds(chance - 1);
      assert AliveResidues(chance) == AliveResidues(chance - 1) + {chance - 2};
    }
  }

  /**
   The alive odds of celullar.h: of the 101 possible draws, `chance` (clamped
   to `[0, 101]`) make a cell alive, so a cell is alive with probability
   `chance / 101`.
   */
  lemma {:induction false} UniformOdds(chance: int)
    ensures |AliveDraws(chance)| == Clamp(chance, 0, 101)
    decreases if chance < 0 then 0 else chance
  {
    if chance <= 0 {
      assert AliveDraws(chance) == {};
    } else if chance > 101 {
      UniformOdds(101);
      assert AliveDraws(chance) == AliveDraws(101);
    } else {
      UniformOdds(chance - 1);
      assert AliveDraws(chance) == AliveDraws(chance - 1) + {chance - 1};
    }
  }
}
