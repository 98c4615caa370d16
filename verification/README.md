# Cellular-automaton cave generator — Dafny model

This project models the map-generation core of a small C++ cave generator.
The map is a flat buffer of `width * height` booleans, `true` for a wall
("alive") and `false` for a floor ("dead"). Cell `(x, y)` is stored at
`x * width + y`. The generator runs three stages:

1. **Noise seeding.** One random draw per cell, compared against the alive
   chance.
2. **Smoothing.** `smoothingIterations + 1` passes of a birth/death rule over
   the 3x3 neighbour count.
3. **Culling** (flood-fill variant only). A breadth-first flood fill finds
   each region of same-state cells. In the intended wall pass, wall regions
   smaller than the wall threshold are flipped to floor (the code as written
   departs from this for large wall regions; see "Left out"). Then floor
   regions smaller than the room threshold are flipped to wall.

Two headers implement this. `flood-fill.h` seeds with `rand()` and culls.
`celullar.h` seeds from a uniform draw in `[0, 100]` and does not cull. Its
smoothing and neighbour-count code (celullar.h:44-82) is the same code as
flood-fill.h:50-88, apart from redundant `inline` keywords, so one model
covers both.

Modules (one file each):

- `Grid` (grid.dfy): the flat index arithmetic and bounds check.
- `Neighbours` (neighbours.dfy): the alive-neighbour count.
- `Smoothing` (smoothing.dfy): the in-place pass as a left-to-right fold of single-cell updates.
- `Seeding` (seeding.dfy): both seeding laws.
- `Regions` (regions.dfy): connectivity by paths, and the flood fill as a worklist method.
- `Culling` (culling.dfy): the culling sweep and a per-cell description of its result.
- `Caves` (caves.dfy): both constructors.

Behaviour of the code that the model keeps on purpose:

- **Row wrap.** The neighbour index `(x+i)*width + (y+j)` equals
  `index + i*width + j`. It is checked only against `[0, size)`, so a step
  off the left or right edge of a row lands on the adjacent row. This
  applies to both the neighbour count and the flood fill.
- **Offsets, not cells.** The count ranges over the eight offsets. On a grid
  one or two cells wide, several offsets reach the same cell. With width 1
  an alive cell even counts itself, twice.
- **In-place smoothing.** The pass overwrites cells in ascending index
  order. The decision at index `k` therefore sees the new values of the
  cells before `k`. A pass-atomic (double-buffered) update would give
  different results; `Smoothing.InPlaceDiffersFromBuffered` shows a map
  where the two differ.
- **Regions are judged on the input map.** The culling sweep flood-fills
  the map as it is being culled. `Culling.RegionUnaffected` proves that this
  finds the same region as on the map the sweep started from. So the result
  is stated per cell against the input map.
- **Seeding odds.** `flood-fill.h` makes a cell alive when
  `rand() % 100 + 1 < chance`. Over the 100 residues that is `chance - 1`
  alive outcomes, one point below the nominal percentage. `celullar.h` draws
  from the 101 values `[0, 100]` and makes a cell alive when `draw < chance`.

## Model

| member | source | states |
|---|---|---|
| `Grid.Neighbour` | flood-fill.h:65-70 | The re-flattened neighbour `(index/width + i)*width + (index%width + j)` is exactly `index + i*width + j`. No column information survives. |
| `Grid.RowWrap` | flood-fill.h:84-88 | Since only the flat range is checked, the offset `(0, 1)` from the last column is the first cell of the next row. The offset `(0, -1)` from the first column is the last cell of the previous row. |
| `Neighbours.CountAliveNeighbours` | flood-fill.h:62-83 | The nested offset loops count exactly the offsets `(i, j) != (0, 0)` whose flat neighbour is in `[0, size)` and alive. The count is between 0 and 8. |
| `Neighbours.NeighbourCountBound` | celullar.h:56-82 | The counted offsets are among the eight around the cell and never include `(0, 0)`, so the count is at most 8. |
| `Neighbours.NarrowGridCountsSelf` | flood-fill.h:66-78 | On a grid one cell wide, the offsets `(-1, 1)` and `(1, -1)` both reach the cell itself, so an alive cell counts itself. |
| `Smoothing.Rule` | flood-fill.h:54-58 | An alive cell survives iff its count is at least 3. A dead cell is born iff its count exceeds 4. In bands: below 3 dead, above 4 alive, at 3 or 4 unchanged. |
| `Smoothing.SmoothInPlace` | flood-fill.h:50-60 | The pass keeps the map's length. The new value of cell `k` is the rule applied to its old value and to the count taken on the map with new values before `k` and old values from `k` on. |
| `Smoothing.SmoothInPlaceUnique` | celullar.h:44-54 | Conversely, any map of the same length that obeys this in-place law at every cell is the result of the pass. |
| `Smoothing.InPlaceDiffersFromBuffered` | flood-fill.h:52-59 | The pass is not pass-atomic. On the 2x2 map `[wall, floor, wall, wall]`, cell 1 has 5 alive neighbours on the starting map, which would give birth. The pass writes cell 0 first (it dies), so cell 1 sees only 3 and stays a floor. |
| `Smoothing.SmoothKeepsEmpty` | flood-fill.h:55-58 | On an all-floor map no cell has an alive neighbour, so nothing is born. The pass leaves the map unchanged. |
| `Seeding.SeedFromRand` | flood-fill.h:46-47 | One cell per draw. Cell `k` is alive iff `draws[k] % 100` is an alive residue. A chance of at most 1 gives an all-floor map, and a chance above 100 gives an all-wall map. |
| `Seeding.RandOdds` | flood-fill.h:47 | Exactly `chance - 1` of the 100 residues, clamped to `[0, 100]`, make a cell alive. |
| `Seeding.SeedFromUniform` | celullar.h:40-41 | One cell per draw in `[0, 100]`. Cell `k` is alive iff `draws[k] < chance`. A chance of at most 0 gives an all-floor map, and a chance above 100 gives an all-wall map. |
| `Seeding.UniformOdds` | celullar.h:27 | Exactly `chance` of the 101 draws in `[0, 100]`, clamped to `[0, 101]`, make a cell alive. |
| `Regions.ScanNeighbours` | flood-fill.h:131-150 | Each in-range, unflagged neighbour of the tile's state is flagged and queued exactly once. Afterwards every such neighbour is flagged. The number of set flags grows by the number of cells queued. |
| `Regions.GetRegionTiles` | flood-fill.h:114-156 | The flood fill returns a duplicate-free list of in-range tiles. It starts with the start cell, and every tile has the start cell's state. It is closed under same-state flat neighbours. As a set it is exactly the start cell's region: every cell joined to it by a path of same-state neighbours. |
| `Culling.RegionUnaffected` | flood-fill.h:97-99 | Partway through the sweep, the flood fill from an unflagged cell of the culled state finds the same region on the partly culled map as on the input map. |
| `Culling.MarkRegion` | flood-fill.h:101-109 | Every tile of the region gets flagged. The tiles are flipped iff the region has fewer cells than the threshold. No other cell changes. |
| `Culling.CullFragments` | flood-fill.h:89-112 | The sweep keeps the map's length. A cell of the other state is unchanged. A cell of the culled state flips iff its region in the input map has fewer than `regionThreshold` cells. |
| `Culling.CullNoThreshold` | flood-fill.h:105-106 | With a threshold of at most 1, culling changes nothing. |
| `Culling.CullLeavesLargeRegions` | flood-fill.h:89-90 | After culling, every cell of the culled state lies in a region of that state with at least `regionThreshold` cells. |
| `Culling.LoneCellCulled` | flood-fill.h:105-106 | A single cell whose state no other cell shares is flipped by any threshold of 2 or more, and nothing else changes. |
| `Caves.SmoothingLoop` | celullar.h:32-33 | The constructor loop `k <= smoothingIterations` runs exactly `smoothingIterations + 1` passes, and none when the count is negative. |
| `Caves.FloodFillCave` | flood-fill.h:31-35 | The constructor seeds, smooths the stated number of times, culls walls, then culls floors, in that order. Every floor cell of the result lies in a floor region of at least `roomThreshold` cells. |
| `Caves.CullOrderMatters` | flood-fill.h:34-35 | The two culling passes do not commute. On the one-column map `[floor, wall]` with both thresholds 2, walls-then-floors gives two floors and floors-then-walls gives two walls. |
| `Caves.CellularCave` | celullar.h:28-34 | The constructor seeds from uniform draws and smooths the stated number of times, with no culling. A chance of at most 0 gives an all-floor map. |

## Left out

- The demo driver (celullar.cpp): timing with `clock()`, ASCII output and `cin.get()`. It is I/O around the generator.
- Random number generation (`srand`/`rand`, `std::default_random_engine`, `uniform_int_distribution`). These are library generators, so the draws are an input sequence, one per cell in index order.
- `Culling.CullFragments`, `Culling.MarkRegion`, `Caves.FloodFillCave`: these model the intended wall pass, not the code as written for large wall regions. In flood-fill.h:101-108, when `regionType` is wall and the region has at least `regionThreshold` cells (threshold at least 1), the first tile (`newRegion[0]`, the region's lowest index) executes `newRegions.push_back(std::move(newRegion))`. A moved-from vector is left in a valid but unspecified state, in practice empty, so every later tile reads `newRegion.size()` as 0 and takes the flip branch. The program as written would therefore shrink every large wall region to its single lowest-index cell. The model takes each region's size once and lets it decide all of its tiles, which is what the comment at flood-fill.h:89 describes. The floor pass is unaffected, because it never reaches the `push_back`. The `newRegions` list itself is never read and is not modelled.
- Negative thresholds. The code compares an unsigned `size()` with a signed `int`, so a negative threshold would become a huge unsigned value. `CullFragments` and `FloodFillCave` require thresholds of at least 0.
- Machine integers. `height * width` overflow and the `int8_t` count are not modelled, since the count never exceeds 8. Integers are unbounded, and `width > 0`, `height > 0` are preconditions.
- The constructors' default arguments (flood-fill.h:17-21, celullar.h:16-20): `chanceToStartAlive = 44`, `smoothingIterations = 4`, a seed of `time(nullptr)` or `default_seed`, and both thresholds `= 50`. `Caves.FloodFillCave` takes every argument explicitly. `Caves.CellularCave` leaves out `wallThreshold` and `roomthreshold`, which celullar.h's constructor accepts and never reads. In both, the draw sequence replaces the seed.
- Allocation details: `unique_ptr`, `reserve` and `shrink_to_fit`.
- The assignment `tile = neighbour` inside the flood fill's inner loop. It has no effect because the tile's row and column are computed before the loop.
