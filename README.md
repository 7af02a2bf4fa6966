# Walker simulator core in Dafny

A model of the discrete core of a shop-floor walker simulator. A floor plan is rasterised
into an occupancy grid (the maze); for each pair of points of interest the blueprint plans a
route and turns it into a sniffing map; walkers then move over the grid by biased random
steps, each step choosing among the best-valued cells around them.

Modules, one per part of the program:

- `Base` (`base.dfy`): cells, grids as `seq<seq<real>>`, a snapshot of a numpy-like
  `array2<real>`, the grid maximum, Python's `int()` truncation and `str()` of integers and
  cells.
- `ShopObjects` (`shop_objects.dfy`): the `Wall` and `AttractionPoint` classes. A wall starts
  as a rectangle, and the SVG `matrix(a,b,c,d,e,f)` transform (section 7.4 of SVG 1.1) and
  `scale(sx,sy)` transform move its corners. Its outline is rebuilt after each change.
- `Selection` (`selection.dfy`): `probDistr`, the ranking of the 3x3 neighbourhood (numpy
  `argsort` reversed), the cut at the first negative value, the choice of a direction, the
  move and the arrival test.
- `Walker` (`walker.dfy`): the package walker as a class. Its step loop is also given as a
  value (`WalkFrom`) with the meaning of its result proved both ways.
- `Blueprint` (`blueprint.dfy`): the `Blueprint` and `Path` classes. The maze is an
  `array2<real>` that `defineMaze` marks and `findBestPath` normalises in place; the
  pre-gradient map paints the route over the scaled maze; paths are stored in a map keyed by
  id.
- `Pipeline` (`pipeline.dfy`): the notebook's all-pairs loop that computes a path for every
  pair of points of interest, and the older walker defined in the notebook. That walker reads
  the sniffing map with Python's negative-index wrap-around and appends to one pathway list
  shared by every walker.

Randomness is an input. One tick of a step loop is `Tick(linger, draw)`:

- `linger` is `random.random()`.
- `draw` is a `StepDraw(n, order, pick)`:
  - `n` is the count drawn by `np.random.choice` with weights `probDistr(8, predictability)`.
  - `order` is a permutation of the nine neighbourhood indices; it fixes how `argsort` breaks
    ties, and every descending ordering arises from some permutation.
  - `pick` stands for `random.randint(0, k - 1)`, read as `pick % k`.

The route planner (`astar`), the gaussian filter and shapely's point-in-polygon test are
function parameters (`Planner`, `Smoother`, `Within`).

The arrival test is the integer disc `dx*dx + dy*dy < 25`. Shapely's `buffer(5.0)` is a
polygon inscribed in the radius-5 circle whose inradius is above 4.99, so on integer cells it
contains exactly the points strictly inside the circle.

## Model

| member | source | states |
|---|---|---|
| Base.GridMaxIsMax | blueprint/Blueprint.py:160 | `maze.max()` bounds every entry and is itself an entry |
| Base.MaxIsUnique | blueprint/Blueprint.py:160 | an entry that bounds every entry is the maximum |
| Base.RowMax | blueprint/Blueprint.py:160 | numpy `max()` of a non-empty row, by recursion; Base.RowMaxIsMax states what it computes |
| Base.RowMaxIsMax | blueprint/Blueprint.py:160 | the row maximum bounds every entry of the row and is one of them |
| Base.GridMax | blueprint/Blueprint.py:160 | numpy `max()` of a 2-D array, row maxima combined; Base.GridMaxIsMax and Base.MaxIsUnique state what it computes |
| Base.Snapshot | blueprint/Blueprint.py:160 | the grid read off a numpy array: same dimensions, same entries |
| Base.Trunc | blueprint/Blueprint.py:61-62 | `int()` of a real: the integer at most one below a non-negative value, at most one above a negative value (truncation toward zero) |
| Base.TruncIsFloorUnlessNegativeFraction | blueprint/Blueprint.py:61-62 | `int()` agrees with floor exactly when the value is non-negative or integral |
| Base.NatToString | blueprint/Blueprint.py:143 | `str()` of a natural number is a non-empty digit string without a leading zero |
| Base.ParseNatToString | blueprint/Blueprint.py:143 | reading the digits of `str(n)` back gives n |
| Base.IntToString | blueprint/Blueprint.py:143 | `str()` of an integer is non-empty and starts with `-` exactly when the integer is negative; what follows the sign (or the whole text) is digits that read back as the magnitude |
| Base.CellToString | blueprint/Blueprint.py:143 | `str()` of a cell tuple, `(x, y)`; Blueprint.CellToStringInjective states that different cells print differently |
| ShopObjects.RectangleIsParallelogram | blueprint/ShopObjects.py:6-9 | the four initial corners form a parallelogram with width and height as its sides |
| ShopObjects.Rectangle | blueprint/ShopObjects.py:6-9 | the four corners of a new wall from x, y, width, height; ShopObjects.RectangleIsParallelogram states their shape |
| ShopObjects.Outline | blueprint/ShopObjects.py:21-26 | the polygon's vertex list: top-left, top-right, bottom-right, bottom-left |
| ShopObjects.Affine | blueprint/ShopObjects.py:49-74 | one point under `matrix(a,b,c,d,e,f)`; ShopObjects.AffineDifference and ShopObjects.IdentityTransforms state its properties |
| ShopObjects.Scale | blueprint/ShopObjects.py:34-40 | one point under `scale(sx, sy)`; ShopObjects.ScalePreservesParallelogram and ShopObjects.IdentityTransforms state its properties |
| ShopObjects.WallCorners | blueprint/ShopObjects.py:4-16 | the corners the constructor ends with: rectangle, then the matrix if given, then the scale if given; ShopObjects.WallCornersAreParallelogram states their shape |
| ShopObjects.AffineDifference | blueprint/ShopObjects.py:57-74 | the matrix maps the difference of two corners linearly: the translation e, f cancels |
| ShopObjects.AffinePreservesParallelogram | blueprint/ShopObjects.py:44-76 | the matrix transform keeps the corners a parallelogram |
| ShopObjects.ScalePreservesParallelogram | blueprint/ShopObjects.py:31-42 | the scale transform keeps the corners a parallelogram |
| ShopObjects.WallCornersAreParallelogram | blueprint/ShopObjects.py:4-16 | every wall the constructor builds, with or without transforms, is a parallelogram |
| ShopObjects.IdentityTransforms | blueprint/ShopObjects.py:31-76 | `matrix(1,0,0,1,0,0)` and `scale(1,1)` leave the corners unchanged |
| ShopObjects.ScaleAfterMatrixIsMatrix | blueprint/ShopObjects.py:12-16 | matrix then scale, the constructor's order, equals one matrix whose rows are scaled by sx and sy |
| ShopObjects.Wall.constructor | blueprint/ShopObjects.py:4-16 | id `no_id`; corners are the rectangle, then the matrix if given, then the scale if given; the outline matches; a parallelogram |
| ShopObjects.Wall.InitPolygonObject | blueprint/ShopObjects.py:21-26 | the outline becomes TL, TR, BR, BL of the current corners |
| ShopObjects.Wall.SetID | blueprint/ShopObjects.py:28-29 | only the id changes, to the given one |
| ShopObjects.Wall.ScaleTransform | blueprint/ShopObjects.py:31-42 | fails (IndexError) exactly when the list has fewer than two entries, changing nothing; otherwise every corner is scaled, the outline is rebuilt and the parallelogram kept |
| ShopObjects.Wall.MatrixTransform | blueprint/ShopObjects.py:44-76 | fails exactly when the list has fewer than six entries, changing nothing; otherwise every corner maps to (a x + c y + e, b x + d y + f), the outline is rebuilt and the parallelogram kept |
| ShopObjects.AttractionPoint.constructor | blueprint/ShopObjects.py:80-86 | stores cx, cy, r (default 0), id `no_id` and the centre point |
| ShopObjects.AttractionPoint.SetID | blueprint/ShopObjects.py:91-92 | only the id changes |
| Selection.RawWeights | blueprint/Walker.py:7-12 | n raw weights, each clamped at 0, the first always 10 |
| Selection.RawTotalAtLeastTen | blueprint/Walker.py:13 | the normaliser `sum(arr)` is at least 10, so the division is defined |
| Selection.ProbDistr | blueprint/Walker.py:6-13 | n probabilities, none negative |
| Selection.ProbDistrSumsToOne | blueprint/Walker.py:13 | the probabilities sum to 1 |
| Selection.ProbDistrNonIncreasing | mapSVG_pipeline.py:176-183 | the notebook copy, identical to the package one: probabilities never grow with position for a non-negative predictability |
| Selection.RawWeightNonIncreasing | blueprint/Walker.py:9-11 | a raw weight never grows with x |
| Selection.ProbDistrUniformAtZero | blueprint/Walker.py:6-13 | predictability 0 gives 1/n everywhere |
| Selection.SteepDistributionPicksOne | blueprint/Walker.py:9-13 | once (2.5 p)^3 reaches 10, n = 1 has probability 1 and every other count 0 |
| Selection.FullPredictabilityIsSteep | blueprint/Walker.py:9 | predictability 1 is that steep |
| Selection.GentleDistributionAllowsEveryCount | mapSVG_pipeline.py:223 | when 7 (2.5 p)^3 < 10 (p below about 0.4505) every count 1..8 has positive probability |
| Selection.UsedPredictabilitiesAllowEveryCount | blueprint/Walker.py:59 | for the predictabilities the walkers use, 0.05 and 0.1 in their draws and the notebook's 0.45, every count 1..8 has positive probability |
| Selection.RankIsDescending | blueprint/Walker.py:60 | the ranking lists indices by non-increasing value |
| Selection.RankIsPermutation | blueprint/Walker.py:60 | the ranking is a permutation of the tie order |
| Selection.RankKeepsDescendingOrder | blueprint/Walker.py:60 | a tie order that is already descending is returned unchanged, so every descending ordering arises |
| Selection.Rank | blueprint/Walker.py:60 | the ranking has one entry per index of the tie order, each an index of the neighbourhood; Selection.RankIsDescending and Selection.RankIsPermutation state its order |
| Selection.RankListsEveryIndex | blueprint/Walker.py:60 | all nine neighbourhood indices appear in the ranking |
| Selection.FirstNegative | blueprint/Walker.py:62-69 | the cut point: every entry before it is non-negative, the entry at it (if any) is negative |
| Selection.FirstNegativeIsUnique | blueprint/Walker.py:62-69 | any index with those two properties is the cut point |
| Selection.Pool | blueprint/Walker.py:62-71 | the candidates: the top n of the ranking cut at the first negative value; Selection.PoolIsNonNegativePrefix states what they are |
| Selection.CutAtNegative | blueprint/Walker.py:62-69 | the loop with `break` returns the cut point |
| Selection.PoolIsNonNegativePrefix | blueprint/Walker.py:71 | the candidates are a prefix of the top n, at most n of them, all non-negative |
| Selection.ChooseNoneIffAllNegative | blueprint/Walker.py:71-72 | the pool is empty (randint raises) exactly when all nine entries are negative |
| Selection.ChoosePicksFromPool | blueprint/Walker.py:71-74 | the chosen direction is candidate `pick % len(pool)` as (k / 3, k % 3), with a non-negative value |
| Selection.ChooseIsAmongBest | blueprint/Walker.py:60-74 | the chosen direction lies in the 3x3 block, is never the centre while the centre is negative, has a non-negative value, and fewer than n cells are strictly better |
| Selection.BetterThanRankedAt | blueprint/Walker.py:60 | at most p cells are strictly better than the one ranked p-th |
| Selection.RankHeadIsUniqueBest | blueprint/Walker.py:60 | a strictly best cell is ranked first |
| Selection.ChooseUniqueBest | blueprint/Walker.py:59-74 | with n = 1 a strictly best non-negative cell is chosen whatever the ties and the pick |
| Selection.Choose | blueprint/Walker.py:71-74 | candidate `pick % len(pool)` as (k / 3, k % 3), None when the pool is empty; Selection.ChoosePicksFromPool, Selection.ChooseIsAmongBest and Selection.ChooseNoneIffAllNegative state what it picks |
| Selection.Move | blueprint/Walker.py:76-78 | the walker stays put exactly for direction (1, 1), the default of `updatePosition` |
| Selection.MoveReachesNeighbours | blueprint/Walker.py:76-78 | direction (1, 1) stays put; every other direction of the block moves to one of the eight neighbours |
| Selection.Arrived | blueprint/Walker.py:88-89 | within the radius-5 buffer of the target, as the integer disc dx*dx + dy*dy < 25; Selection.ArrivedIsInsideDisc states its extent |
| Selection.ArrivedIsInsideDisc | blueprint/Walker.py:88-89 | the target counts as arrived; an arrived cell is at most 4 away along each axis; a cell at distance exactly 5 is not arrived |
| Walker.FillNeighbourhood | blueprint/Walker.py:44-56 | the 3x3 array: -1 at the centre and where a map index is negative, -10 past the end of the map, the map value otherwise |
| Walker.Entry | blueprint/Walker.py:44-56 | one entry of the 3x3 array; Walker.EntryIsNeighbourValue states which neighbour value it is |
| Walker.Neighbours | blueprint/Walker.py:44-60 | the nine entries, flattened row-major |
| Walker.Neighbourhood | blueprint/Walker.py:44-60 | the array flattened row-major, as `a.flatten()` |
| Walker.EntryIsNeighbourValue | blueprint/Walker.py:50-56 | a non-negative entry is the value of the in-map neighbour its direction leads to, and every in-map neighbour is read this way |
| Walker.StepStaysOnMap | blueprint/Walker.py:44-78 | a step lands on one of the eight neighbours, inside the sniffing map, on a non-negative value |
| Walker.StuckWhenNeighboursNegative | blueprint/Walker.py:62-72 | with every in-map neighbour negative no step is possible |
| Walker.NotStuckWhenNeighbourNonNegative | blueprint/Walker.py:62-72 | with some in-map neighbour non-negative a step is possible |
| Walker.StepStuckIff | blueprint/Walker.py:44-74 | stuck exactly when no in-map neighbour is non-negative |
| Walker.Step | blueprint/Walker.py:100-101 | one step: the choice from the neighbourhood, then the move; Walker.StepStaysOnMap and Walker.StepStuckIff state where it lands and when it is stuck |
| Walker.StepOnAt | blueprint/Walker.py:100-101 | the step function of a tick is the choice and move its draws give |
| Walker.WalkFrom | blueprint/Walker.py:84-102 | the loop's run from pos: at least one and at most budget + 2 positions, the first being pos |
| Walker.WalkFromIsApproach | blueprint/Walker.py:84-102 | the run is a walk (each position not stopping, each move the one its tick gives) ending as its outcome says: arrived and allowed to stop, counter past maxSteps, or stuck |
| Walker.ApproachIsWalkFrom | blueprint/Walker.py:84-102 | conversely, any such walk is the loop's run: the draws determine the run |
| Walker.WalkStaysOnMap | blueprint/Walker.py:84-102 | every position of a walk after the first is an in-map neighbour of the one before, on a non-negative value |
| Walker.Walker.constructor | blueprint/Walker.py:16-30 | id, start, position, end `paths[-1].location`, empty pathway, currentI 1, predictability 0.05, maxSteps 10000 |
| Walker.Walker.UpdatePosition | blueprint/Walker.py:76-79 | the position moves by the direction and exactly that position is appended to pathway |
| Walker.Walker.GetRandomDirection | blueprint/Walker.py:39-74 | the direction is the choice from the neighbourhood with the draws given, None where randint raises |
| Walker.Walker.FollowSniffingPath | blueprint/Walker.py:84-102 | at most maxSteps + 1 steps; pathway grows by exactly the positions stepped to; they form a walk that ends as the outcome says |
| Walker.Walker.VisitTarget | blueprint/Walker.py:33-37 | one round: the position is appended again, the target becomes current, its approach is a walk with last-target flag `currentI >= len(paths)`, and currentI grows unless stuck |
| Walker.Walker.StartWalking | blueprint/Walker.py:32-37 | targets are visited in order; each approach is a walk ending as its outcome says; only the last can be stuck, and stopping early means it was; each approach starts where the previous one ended; pathway grows by the approaches in order; currentI counts the finished ones; the walker ends on the last target it visited (or the one it had, when there was none) and where the last approach ended |
| Blueprint.CellCountCovers | blueprint/Blueprint.py:36-37 | `floor(length / c)` whole cells fit in the length and one more would not |
| Blueprint.CellCount | blueprint/Blueprint.py:36-37 | `math.floor(length / c)`; Blueprint.CellCountCovers states what it counts |
| Blueprint.CellOf | blueprint/Blueprint.py:61-62 | a point's cell, `int()` of x / c and of (y + yTranslation) / c; Blueprint.CellOfContains and Blueprint.CellOfTruncatesTowardZero state what it gives |
| Blueprint.Probe | blueprint/Blueprint.py:44-46 | the point `defineMaze` tests for cell (i, j); Blueprint.ProbeIsCellCentre and Blueprint.ProbeMapsBackToCell state where it lies |
| Blueprint.CellOfContains | blueprint/Blueprint.py:61-62 | for non-negative coordinates the cell of a point contains the point (x untranslated, y shifted by yTranslation) |
| Blueprint.CellOfTruncatesTowardZero | blueprint/Blueprint.py:61-62 | x = -5 with cell size 20 maps to cell 0, where floor would give -1 |
| Blueprint.ProbeIsCellCentre | blueprint/Blueprint.py:44-46 | the probe of cell (i, j), translated back, is its centre |
| Blueprint.ProbeMapsBackToCell | blueprint/Blueprint.py:44-46 | the cell of a probe is its own cell along y, and along x when xTranslation is 0 |
| Blueprint.ProbeMapsBackShiftedByTranslation | blueprint/Blueprint.py:46 | with cell size 20 and xTranslation 20 the probe of cell (1, 0) maps back to cell (0, 0): x is translated one way only |
| Blueprint.MarkWalls | blueprint/Blueprint.py:41-51 | the maze keeps its shape |
| Blueprint.MarkWallsOnZeros | blueprint/Blueprint.py:41-51 | on an all-zero maze a cell becomes 1 exactly when some wall contains its probe, and stays 0 otherwise |
| Blueprint.MarkWallsIdempotent | blueprint/Blueprint.py:41-51 | marking the walls twice is marking them once |
| Blueprint.Normalized | blueprint/Blueprint.py:160 | `maze / maze.max()` keeps the shape |
| Blueprint.NormalizedHitsOne | blueprint/Blueprint.py:160 | the cell holding the maximum holds 1 afterwards |
| Blueprint.NormalizedAtMostOne | blueprint/Blueprint.py:160 | with a positive maximum every entry is at most 1 afterwards |
| Blueprint.NormalizedMax | blueprint/Blueprint.py:160 | the normalised maze can be normalised again, and its maximum is 1 when the maximum was positive |
| Blueprint.NormalizedIdempotent | blueprint/Blueprint.py:160 | normalising twice is normalising once |
| Blueprint.NormalizeInPlace | blueprint/Blueprint.py:160 | the in-place division leaves the normalised maze in the array |
| Blueprint.GradPathIncreasing | blueprint/Blueprint.py:148-149 | `x*x` grows along the route |
| Blueprint.GradPathF | blueprint/Blueprint.py:148-149 | `x*x`; Blueprint.GradPathIncreasing states that it grows along the route |
| Blueprint.LastIndexOf | blueprint/Blueprint.py:169-170 | the last visit of a cell before n, or none |
| Blueprint.Paint | blueprint/Blueprint.py:169-170 | painting keeps the shape |
| Blueprint.PaintAt | blueprint/Blueprint.py:169-170 | a painted cell holds `i*i` for the last route index i at it; the others keep their value |
| Blueprint.PaintRoute | blueprint/Blueprint.py:169-170 | the loop over the route leaves the painted grid in the array |
| Blueprint.Scaled | blueprint/Blueprint.py:165-168 | scaling keeps the shape |
| Blueprint.PreGradient | blueprint/Blueprint.py:164-172 | the pre-gradient map has the maze's shape |
| Blueprint.PreGradientAt | blueprint/Blueprint.py:164-172 | off the route a cell holds the maze value (divided by the maximum when normalising) times -100; on it, `i*i` for the last visit i |
| Blueprint.PreGradientRouteOnTop | blueprint/Blueprint.py:164-172 | on a non-negative maze every route cell is at least every cell off the route |
| Blueprint.RenormalizingIsHarmless | blueprint/Blueprint.py:68-69 | building the sniffing map with normalisation on an already normalised maze gives the same map as without |
| Blueprint.SigmaMonotone | blueprint/Blueprint.py:151-153 | sigma `0.035 n - 0.1` never shrinks as n grows |
| Blueprint.SigmaPositiveIff | blueprint/Blueprint.py:151-153 | sigma is positive exactly from n = 3 on |
| Blueprint.Sigma | blueprint/Blueprint.py:151-153 | `0.035 n - 0.1` for one axis; Blueprint.SigmaMonotone and Blueprint.SigmaPositiveIff state its behaviour |
| Blueprint.ParseIntToString | blueprint/Blueprint.py:143 | `str()` of an integer parses back to it |
| Blueprint.IntToStringInjective | blueprint/Blueprint.py:143 | different integers print differently |
| Blueprint.CellToStringInjective | blueprint/Blueprint.py:143 | different cells print differently |
| Blueprint.DefaultIdInjective | blueprint/Blueprint.py:140-143 | different (start, end) pairs get different default ids |
| Blueprint.DefaultId | blueprint/Blueprint.py:143 | the default id starts with `p-` |
| Blueprint.PathId | blueprint/Blueprint.py:140-143 | a path id is never empty: an empty or absent id falls back to the default |
| Blueprint.Path.constructor | blueprint/Blueprint.py:136-143 | start, end, no route yet, and the id: the given one unless empty or absent, else `p-(x, y)-(x, y)` |
| Blueprint.Path.CalcSigma | blueprint/Blueprint.py:151-153 | both sigmas are `0.035 n - 0.1` of their axis count |
| Blueprint.Path.GetPreGradientMap | blueprint/Blueprint.py:164-172 | a fresh array holding the pre-gradient map; the maze is left alone |
| Blueprint.Path.CreateSniffingMap | blueprint/Blueprint.py:174-177 | the sniffing map is the smoothed pre-gradient map with the path's sigmas |
| Blueprint.Path.FindBestPath | blueprint/Blueprint.py:158-162 | the caller's maze is normalised in place, the route is planned on the normalised maze, the sniffing map built without normalising again |
| Blueprint.Blueprint.constructor | blueprint/Blueprint.py:18-24 | corners stored, width `x2 - x1`, height `y2 - y1`, cell size 15, no maze, no paths |
| Blueprint.Blueprint.SetTranslation | blueprint/Blueprint.py:26-28 | the translation is set |
| Blueprint.Blueprint.InitMaze | blueprint/Blueprint.py:35-39 | a fresh all-zero maze of `floor(width/c)` by `floor(height/c)` |
| Blueprint.Blueprint.SetCellDimension | blueprint/Blueprint.py:30-33 | the cell size changes; with initMaze the maze is rebuilt for it, otherwise the maze is untouched |
| Blueprint.Blueprint.DefineMaze | blueprint/Blueprint.py:41-51 | the maze becomes the marked maze: 1 where some wall contains the cell's probe, unchanged elsewhere |
| Blueprint.Blueprint.GetAstar | blueprint/Blueprint.py:53-58 | the planner's route between the cells of the two points |
| Blueprint.Blueprint.CalcPath | blueprint/Blueprint.py:60-71 | the path's cells, id and sigmas; the maze normalised in place; the route and sniffing map; the path stored under its id, overwriting only that entry |
| Pipeline.PairId | mapSVG_pipeline.py:157 | the id `idStart + "-" + idEnd`, one character longer than the two keys together |
| Pipeline.RowIds | mapSVG_pipeline.py:155-158 | the ids the inner loop issues for key i, in order; Pipeline.RowIdsLength, Pipeline.RowIdsSound and Pipeline.RowIdsComplete state which |
| Pipeline.PairIds | mapSVG_pipeline.py:154-158 | the ids of the first i rounds, in order; Pipeline.PairIdsLength, Pipeline.PairIdsSound and Pipeline.PairIdsComplete state which |
| Pipeline.RowPairs | mapSVG_pipeline.py:155-158 | the pairs of keys of round i, one per id the round issues |
| Pipeline.AllPairs | mapSVG_pipeline.py:154-158 | the pairs of keys of the first i rounds, one per id issued |
| Pipeline.RowIndex | mapSVG_pipeline.py:155-158 | the pair of key i and a later key b has a position in the round where its id and its pair of keys stand |
| Pipeline.PairIndex | mapSVG_pipeline.py:154-158 | every pair of a key and a later key has a position in the loop's order where its id and its pair of keys stand |
| Pipeline.RowIdsLength | mapSVG_pipeline.py:155-158 | the row of key i issues one call for each later key |
| Pipeline.PairIdsLength | mapSVG_pipeline.py:154-158 | after the first i rows, i (2n - i - 1) / 2 calls |
| Pipeline.PairCount | mapSVG_pipeline.py:154-158 | the whole loop issues n (n - 1) / 2 calls |
| Pipeline.RowIdsSound | mapSVG_pipeline.py:155-158 | every id of row i pairs key i with a later key |
| Pipeline.RowIdsComplete | mapSVG_pipeline.py:155-158 | every later key is paired with key i in its row |
| Pipeline.PairIdsSound | mapSVG_pipeline.py:154-158 | every id issued pairs an earlier key with a later one |
| Pipeline.PairIdsComplete | mapSVG_pipeline.py:154-158 | every pair of an earlier and a later key is issued |
| Pipeline.CalcPairPath | mapSVG_pipeline.py:156-158 | one call stores a path under `idStart-idEnd` between the two points' cells, leaving the other ids alone |
| Pipeline.CalcPathsFrom | mapSVG_pipeline.py:155-158 | the inner loop stores the row's ids in order and touches no other id; under each id not issued again later in the row it leaves the path from the cell of key i's point to the cell of the later key's point |
| Pipeline.AllPairPaths | mapSVG_pipeline.py:154-158 | the nested loop stores exactly the ids of all key pairs i < j, in key order, and touches no other id; under each id it leaves the path of the last pair that issued it, from the cell of the first key's point to the cell of the second's |
| Pipeline.WrittenThen | mapSVG_pipeline.py:158 | a later `calcPath` under the same id replaces the earlier path; paths under other ids stay as they were written |
| Pipeline.PairPathStored | mapSVG_pipeline.py:154-158 | after the loop, a pair whose id no other pair shares finds under that id the path from the cell of its first point to the cell of its second |
| Pipeline.PyIndex | mapSVG_pipeline.py:218-220 | Python list indexing: k, or k + len for -len <= k < 0; IndexError otherwise |
| Pipeline.LegacyFillNeighbourhood | mapSVG_pipeline.py:210-220 | the 3x3 array: -1 at the centre, -10 where indexing raises, else the value Python indexing reads, wrapping negative indices |
| Pipeline.LegacyEntry | mapSVG_pipeline.py:210-220 | one entry of the notebook's 3x3 array; Pipeline.LegacyEntryAgreesWithoutWrap states how it relates to the package's |
| Pipeline.LegacyNeighbourhood | mapSVG_pipeline.py:210-224 | the array flattened row-major |
| Pipeline.LegacyEntryAgreesWithoutWrap | mapSVG_pipeline.py:216-220 | away from negative indices the notebook's entries are the package's |
| Pipeline.LegacyStepOnAt | mapSVG_pipeline.py:252-253 | the step function of a tick is the choice and move its draws give on the wrapped neighbourhood |
| Pipeline.LegacyStep | mapSVG_pipeline.py:252-253 | one step of the notebook walker: the choice from the wrapped neighbourhood, then the move; Pipeline.LegacyStepLeavesMap shows it can leave the map |
| Pipeline.LegacyStepLeavesMap | mapSVG_pipeline.py:216-218 | a concrete map and position where the notebook's walker steps off the map |
| Pipeline.PackageStepStaysOnSameMap | blueprint/Walker.py:52-53 | on the same map the package walker stays on it |
| Pipeline.PathwayLog.constructor | mapSVG_pipeline.py:187 | the shared pathway starts empty |
| Pipeline.LegacyWalker.constructor | mapSVG_pipeline.py:185-196 | id, paths, the shared log, no current path, predictability 0.45, maxSteps 10000 |
| Pipeline.LegacyWalker.UpdatePosition | mapSVG_pipeline.py:240-243 | the position moves by the direction and is appended to the shared pathway |
| Pipeline.LegacyWalker.GetRandomDirection | mapSVG_pipeline.py:205-238 | the choice from the wrapped neighbourhood with the draws given, None where randint raises |
| Pipeline.LegacyWalker.FollowSniffingPath | mapSVG_pipeline.py:245-254 | at most maxSteps + 1 steps, stopping at the first arrival (no lingering); the positions appended form a walk ending as the outcome says |
| Pipeline.LegacyWalker.WalkPath | mapSVG_pipeline.py:199-203 | one round: the walk starts on the path's start, which is appended first; the path becomes current and the walker ends on the walk's last position |
| Pipeline.LegacyWalker.StartWalking | mapSVG_pipeline.py:198-203 | paths are walked in order, each from its own start; only the last can be stuck, and stopping early means it was; the shared pathway grows by the walks in order; the walker ends on the last path walked (or the one it had, when there was none) and on the last walk's last position, which the notebook prints |

## Left out

- The route planner `astar` is not part of this model. It is a parameter, assumed to return
  only cells of the maze it is given (`StaysInMaze`). The case where it finds no route and
  returns None is not modelled.
- `scipy.ndimage.gaussian_filter` is a parameter (`Smoother`). Shapely's `Polygon` and
  `Point.within` are a containment parameter (`Within`); the polygon is its vertex list.
- Floating point is modelled as `real`. IEEE rounding is not modelled, and neither are the inf
  and NaN numpy gives when the maze maximum is 0. `CanNormalize` requires a non-zero maximum.
- Probabilities are not stated. The draws are inputs, and `ValidDraw` says only that the drawn
  n has positive weight.
- `random.randint(0, -1)` raising ValueError is the `Stuck` outcome, and the walk stops
  there, as the exception would end `startWalking`.
- SVG reading, plotting and `print` diagnostics are I/O and are not modelled.
- `Path.setPathGradFunction` is not modelled: `gradPathF` is fixed to `x*x`.
- Class attributes are fields set by each constructor. The exceptions are the notebook
  walker's `pathway`, modelled as one shared `PathwayLog`, and `Blueprint.paths`, which is
  per instance here although the class shares one dict.
- Default arguments keep Python's defaults (`toNormalize=True`, `initMaze=True`, `id=None`,
  `direction=(1, 1)`); the parameters standing for A* and the Gaussian filter come before them,
  so every defaulted parameter stays last, as in Python.
- The `path` argument of both `getRandomDirection`s: only the default, the current path, is
  modelled.
- `getAstar` and `calcPath` map x to a cell without the translation while `defineMaze`
  subtracts it. The model follows the code (`ProbeMapsBackShiftedByTranslation`).
- Point-to-cell mapping uses `int()`, truncating toward zero, as the code does; it is not
  floor.
- Path ids: a point of interest whose id contains `-` can make two pairs share an id; `AllPairPaths` states the ids issued, so such a collision shows as a repeated
  id, and under a shared id the last pair's path is the one kept (`Written`);
  `PairPathStored` speaks only of pairs whose id no other pair shares.
- ShopObjects.Wall.constructor: requires six matrix entries and two scale entries when given,
  where the Python code raises IndexError.
- Python's exceptions on misuse are preconditions: `InitMaze` and `SetCellDimension` require a
  non-zero cell size and non-negative cell counts (`CanInitMaze`), where Python raises
  ZeroDivisionError or numpy ValueError; `DefineMaze`, `GetAstar` and `CalcPath` require the
  translation and the maze to be set, where Python raises AttributeError.
- The distance-field flood fill is not part of this model.

## Findings

| source | as written | input that shows it | evidently intended | confidence | as-written member | corrected member |
|---|---|---|---|---|---|---|
| mapSVG_pipeline.py:216-218 | the notebook walker indexes the sniffing map with `toMapX`, `toMapY` even when they are negative, so Python wraps them to the far edge and the walker can step off the map | 3x3 map, zero except 9.0 at [2][2], walker at (0, 0), drawn n = 1: entry (2, 0) reads m[-1][-1] = 9.0 and the walker moves to (-1, -1) | skip negative indices, as blueprint/Walker.py:52-53 does, so every step stays on the map | not executed | Pipeline.LegacyStepLeavesMap | Walker.StepStaysOnMap |
