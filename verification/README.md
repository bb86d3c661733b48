# Sliding-arrow puzzle engine, modelled in Dafny

This project models the grid engine of the "three-game" sliding-arrow puzzle.
Each arrow is a two-cell piece anchored at its top-left cell. A vertical arrow
(up or down) covers the anchor and the cell below it. A horizontal arrow (left
or right) covers the anchor and the cell to its right. An arrow slides in its
direction until it leaves the board. The modelled parts, one Dafny module each:

- `Geometry`: the footprint, one-step movement, bounds, the grid/pixel
  conversions, the pixel-overlap scan and the placement test
  (`src/lib/utils/arrow.ts`).
- `GridManager`: the integer occupancy grid. 0 is an empty cell, any other
  value is an arrow id, and reads off the board give -1
  (`src/lib/managers/GridManager.ts`).
- `Validation`, `PairScan` and `CycleSearch`: the deadlock analyser of
  `src/lib/utils/validation.ts`. It runs five checks in a fixed order:
  horizontal and vertical adjacent face-offs, horizontal and vertical
  long-distance face-offs found by intersecting movement paths, and a
  depth-first cycle search in the "directly blocked by" graph.
- `DeadlockChecker` and `Elements`: the standalone pairwise rule of
  `src/utils/DeadlockChecker.ts` over the element records of
  `src/types/index.ts`.
- `LegacyGenerator`: the rule-based generator of `src/utils/LevelGenerator.ts`.
  It has a boolean occupancy grid, a placement loop and a single
  deadlock-repair pass.
- `ArrowService`: the random layout generator with its bounded retry loops
  (`src/lib/services/ArrowService.ts`).
- `GridService`: rebuilding the grid from pixel positions and the collision
  test (`src/lib/services/GridService.ts`).
- `Levels` and `LevelGenerator`: the level-file records
  (`src/lib/types/level.ts`) and the batch generator
  (`src/lib/generators/LevelGenerator.ts`).
- `StaticLevelService`: the level-file validators, the cache and its queries
  (`src/lib/services/StaticLevelService.ts`).
- `GameSlice` and `LevelSlice`: the two Redux slices as pure state-to-state
  functions (`src/lib/store/gameSlice.ts`, `src/lib/store/levelSlice.ts`).
- `Common`: an optional type, JavaScript's `Math.floor(a / d)` and
  `Math.round(a / d)` on integers, order-preserving filtering, decimal
  printing and random streams.

`Math.random()` is a stream of reals in [0, 1), read at a cursor, so every
generator is a function of its stream. Properties are stated over all
streams. Timestamps are opaque strings. Mutable classes are immutable values,
and each mutator returns the new value.

Some source quirks are modelled as written and exhibited by lemmas:

- `ArrowService` passes `gridGap` where the conversion expects the scale, so
  the validator reads cells of side `gridSize * gridGap` (see
  `ArrowService.GapPassedAsScale`).
- `DeadlockChecker` never checks that a pair actually faces each other (see
  `DeadlockChecker.NoFacingCheck`).
- `resolveDeadlocks` frees an arrow's cells even when it finds no new spot
  for it (see `LegacyGenerator.ClearedCellsStayFree`).
- `findCyclicArrows` does not unwind its recursion stack after a hit, and it
  can record `path[-1]`; that read appears as `CycleSearch.Undefined`.

## Model

| member | source | states |
|---|---|---|
| Common.FloorDiv | src/lib/utils/validation.ts:57-58 | `Math.floor(a / d)` on integers is the floor of the exact quotient for either sign of the divisor |
| Common.RoundDiv | src/lib/utils/arrow.ts:68-69 | `Math.round(a / d)` is the nearest integer to the exact quotient, halves rounded up |
| Common.FloorDivUnique | src/lib/utils/validation.ts:57-58 | the floor quotient is the only integer whose multiple lies within one divisor below the dividend |
| Common.RoundDivExact | src/lib/utils/arrow.ts:59-85 | rounding an exact multiple of the divisor gives the multiplier back |
| Common.Filter | src/lib/store/gameSlice.ts:157-159 | `filter` keeps exactly the elements satisfying the predicate, and no more of them than there were |
| Common.Count | src/lib/services/StaticLevelService.ts:146-163 | the `.filter(p).length` idiom is the length of the filtered list |
| Common.CountConcat | src/lib/services/StaticLevelService.ts:146-163 | counting distributes over concatenation |
| Common.CountPermutation | src/lib/services/StaticLevelService.ts:84-96 | a count does not depend on the order of the elements (sorting keeps every count) |
| Common.FillGrid | src/lib/store/levelSlice.ts:32-34 | the `Array(rows).fill(null).map(() => Array(cols).fill(v))` idiom is a rows x cols table of `v`, and it throws RangeError exactly when rows is negative, or rows is positive and cols negative |
| Common.RandomBelow | src/lib/services/ArrowService.ts:150-158 | `Math.floor(Math.random() * k)` is an index below k for positive k, and lies in [k, 0] otherwise |
| Common.ScaledFloor | src/lib/services/ArrowService.ts:150-158 | the floor of u * k for u in [0, 1) lies in [0, k) for positive k and in [k, 0] otherwise |
| Common.NatToString | src/lib/generators/LevelGenerator.ts:162-163 | the decimal rendering of a number is a non-empty digit string whose last digit is the number mod 10 |
| Common.NatToStringInjective | src/lib/generators/LevelGenerator.ts:162-163 | different numbers print differently |
| Common.LeadingDigit | src/lib/generators/LevelGenerator.ts:162-163 | a positive number prints without a leading zero |
| Geometry.FootprintShape | src/lib/utils/arrow.ts:5-27 | the footprint is two distinct cells, the anchor first; vertical arrows add the cell below, horizontal ones the cell to the right |
| Geometry.NextPositionIsUnitStep | src/lib/utils/arrow.ts:30-46 | one step moves exactly one cell along the arrow's own axis in the sense its direction names, and stepping the opposite way undoes it |
| Geometry.AdvanceOffset | src/lib/utils/arrow.ts:30-46 | k steps move exactly k cells along the arrow's axis |
| Geometry.PixelToGrid | src/lib/utils/arrow.ts:59-71 | the cell returned is the one whose pixel origin is nearest, halves rounded up, in both coordinates |
| Geometry.PixelRoundTrip | src/lib/utils/arrow.ts:59-85 | converting a cell to pixels and back gives the same cell for any non-zero pitch |
| Geometry.AdjustToValidGridPosition | src/lib/utils/arrow.ts:161-184 | the snapped position is the pixel origin of a cell and, for a positive pitch, lies within half a pitch of the input on each axis (halves moving up), so it is the nearest cell origin |
| Geometry.AdjustIdempotent | src/lib/utils/arrow.ts:161-184 | snapping twice is snapping once, and a cell origin is left where it is |
| Geometry.ScanOverlaps | src/lib/utils/arrow.ts:135-155 | the row-major scan keeps exactly the overlapped cells from its starting position to the end of the board |
| Geometry.OccupiedCellsByPixel | src/lib/utils/arrow.ts:105-158 | a cell is reported exactly when it lies on the board and the arrow's pixel rectangle meets its interior |
| Geometry.MulThresholds | src/lib/utils/arrow.ts:138-149 | the overlap comparisons against one and two pixel pitches amount to k >= 1 and k >= 2 |
| Geometry.OverlapAtCellOrigin | src/lib/utils/arrow.ts:105-158 | with a positive cell size and a non-negative gap, an arrow drawn at a cell's origin overlaps exactly its two footprint cells |
| Geometry.OccupiedCellsOfPlacedArrow | src/lib/utils/arrow.ts:105-158 | at a cell's origin the pixel scan reports exactly the on-board part of the footprint |
| Geometry.DirectionDraw | src/lib/utils/arrow.ts:88-91 | each direction is drawn for one quarter of the unit interval, in declaration order |
| Geometry.CanPlaceArrow | src/lib/utils/arrow.ts:187-204 | placement is allowed exactly when both footprint cells are on the board and the emptiness test accepts both |
| Geometry.AllPlaceable | src/lib/utils/arrow.ts:197-203 | the cell loop accepts exactly when every cell is on the board and free |
| GridManager.NewGrid | src/lib/managers/GridManager.ts:9-18 | the constructor throws RangeError exactly when rows is negative, or rows is positive and cols negative; otherwise every on-board cell reads 0 and is empty, and every other position reads -1 and is not empty |
| GridManager.EmptyIffZero | src/lib/managers/GridManager.ts:26-39 | a cell is empty exactly when it reads 0; off the board it is never empty and reads -1 |
| GridManager.SetPosition | src/lib/managers/GridManager.ts:42-46 | only the named cell changes, and only when it is on the board |
| GridManager.ClearPosition | src/lib/managers/GridManager.ts:49-51 | only the named cell is set to 0, and only when it is on the board |
| GridManager.ArePositionsAccessible | src/lib/managers/GridManager.ts:54-59 | accessible exactly when every position reads 0 or the arrow's own id |
| GridManager.ArePositionsEmpty | src/lib/managers/GridManager.ts:62-64 | empty exactly when every position is on the board and reads 0 |
| GridManager.EmptyIsAccessible | src/lib/managers/GridManager.ts:54-64 | empty positions are accessible to any arrow; accessible positions are on the board unless the id is -1 |
| GridManager.OccupyPositions | src/lib/managers/GridManager.ts:67-69 | every on-board listed cell reads the id afterwards and every other cell keeps its value |
| GridManager.ClearPositions | src/lib/managers/GridManager.ts:72-74 | every on-board listed cell reads 0 afterwards and every other cell keeps its value |
| GridManager.ClearArrowPositions | src/lib/managers/GridManager.ts:77-85 | the sweep empties exactly the cells holding the id and leaves every other cell unchanged |
| GridManager.Reset | src/lib/managers/GridManager.ts:88-90 | the grid keeps its size, every cell on it reads 0 and every cell off it reads -1 |
| PairScan.PairsFrom | src/lib/utils/validation.ts:153-186 | from a given position the nested scan yields exactly the later index pairs the rule accepts, in scan order |
| PairScan.Pairs | src/utils/DeadlockChecker.ts:63-78 | the nested loops yield exactly the pairs i < j the rule accepts, in lexicographic order |
| PairScan.FirstPair | src/lib/utils/validation.ts:153-186 | an early-returning scan stops at the first accepted pair in scan order, or finds none exactly when no pair is accepted |
| PairScan.FirstPairOfFilter | src/lib/utils/validation.ts:156-176 | for a symmetric irreflexive rule on kept arrows, scanning the filtered list finds a pair exactly when two arrows of the whole list satisfy the rule |
| CycleSearch.IndexOf | src/lib/utils/validation.ts:491 | `indexOf` gives the first position of the node, or -1 exactly when it is absent |
| CycleSearch.AddAll | src/lib/utils/validation.ts:492-495 | adding to an insertion-ordered set keeps the old entries in front and adds every new one and nothing else |
| CycleSearch.Dfs | src/lib/utils/validation.ts:488-516 | a visit only grows the visited set within the graph's nodes and only appends to the reported list, and a hit leaves that list non-empty |
| CycleSearch.Explore | src/lib/utils/validation.ts:507-512 | the successor loop only grows the visited set and the reported list, and a hit leaves that list non-empty |
| CycleSearch.Roots | src/lib/utils/validation.ts:518-522 | the root loop only grows the visited set and the reported list |
| CycleSearch.WalkStaysFinished | src/lib/utils/validation.ts:488-516 | a walk from a fully explored node stays among fully explored nodes |
| CycleSearch.NotOnCycleWhenSuccessorsFinished | src/lib/utils/validation.ts:507-515 | a node left after all its successors were explored without a hit lies on no cycle |
| CycleSearch.StackHitIsCycle | src/lib/utils/validation.ts:489-497 | meeting a node that is on the recursion stack closes a directed cycle |
| CycleSearch.DfsClean | src/lib/utils/validation.ts:488-516 | a hit of the visit means the graph has a cycle; otherwise the node is explored and the stack is as before |
| CycleSearch.ExploreClean | src/lib/utils/validation.ts:507-512 | a hit in the successor loop means a cycle; otherwise every successor is explored |
| CycleSearch.RootsClean | src/lib/utils/validation.ts:518-522 | a non-empty report after the root loop means a cycle; otherwise every remaining root is explored |
| CycleSearch.FindCyclicArrowsSpec | src/lib/utils/validation.ts:483-525 | the reported list is non-empty exactly when the graph has a directed cycle |
| CycleSearch.NoEdgesNoCycle | src/lib/utils/validation.ts:483-525 | a graph without edges has no cycle |
| Validation.ToConfig | src/lib/utils/validation.ts:47-62 | each arrow keeps its id and direction and is placed in the unit square containing its pixel, rounding down |
| Validation.ConvertArrowDataToConfig | src/lib/utils/validation.ts:47-62 | every arrow keeps id and direction and lands in the square of side gridSize * scale that contains its pixel offset |
| Validation.ConvertInsideCell | src/lib/utils/validation.ts:47-62 | any pixel inside a cell's square converts back to that cell |
| Validation.FrontIsLeadingCell | src/lib/utils/validation.ts:376-391 | the front is one of the arrow's own cells and the next cell ahead is not |
| Validation.PathFromSpec | src/lib/utils/validation.ts:347-371 | the movement path is the maximal run of consecutive on-board cells not taken by other arrows; the cell after it is off the board or taken |
| Validation.PathsIntersect | src/lib/utils/validation.ts:432-441 | two paths intersect exactly when they share a cell |
| Validation.DetectFirstPair | src/lib/utils/validation.ts:153-186 | the shared detector shape fires exactly when two arrows satisfy the rule, and reports the ids of the first such pair in scan order |
| Validation.FacingSymmetric | src/lib/utils/validation.ts:168-173 | facing in a row or a column is symmetric and never relates an arrow to itself |
| Validation.DetectHorizontalAdjacent | src/lib/utils/validation.ts:153-186 | fires exactly when a right arrow and a left arrow in one row stand two columns apart with the right one first, reporting that pair |
| Validation.DetectVerticalAdjacent | src/lib/utils/validation.ts:191-224 | fires exactly when a down arrow and an up arrow in one column stand two rows apart with the down one first, reporting that pair |
| Validation.DetectHorizontalLong | src/lib/utils/validation.ts:231-274 | fires exactly when two facing horizontal arrows in one row have intersecting movement paths |
| Validation.DetectVerticalLong | src/lib/utils/validation.ts:279-322 | fires exactly when two facing vertical arrows in one column have intersecting movement paths |
| Validation.Blockers | src/lib/utils/validation.ts:457-472 | the successor list holds exactly the ids of other arrows covering the cell just ahead of the arrow |
| Validation.LastIndex | src/lib/utils/validation.ts:448-478 | the index of the last arrow carrying an id, the one whose entry survives in the map |
| Validation.BuildStep | src/lib/utils/validation.ts:453-475 | one iteration sets the arrow's entry and adds its id to the key order only when it is new |
| Validation.BuildPrefix | src/lib/utils/validation.ts:448-478 | the graph built from the first n arrows has their ids as keys in first-appearance order |
| Validation.BuildGraph | src/lib/utils/validation.ts:448-478 | the keys are exactly the arrows' ids, in first-appearance order |
| Validation.BlockGraphEdges | src/lib/utils/validation.ts:448-478 | with distinct ids, an edge u to v exists exactly when arrow v covers the cell just ahead of a different arrow u |
| Validation.DetectTightCyclic | src/lib/utils/validation.ts:327-340 | fires exactly when the blocking graph has a directed cycle, and then reports a non-empty list |
| Validation.GetDetailedDeadlockInfo | src/lib/utils/validation.ts:87-146 | the kind reported is the first pattern present in the fixed order; no pattern gives no deadlock and an empty list |
| Validation.ValidateArrowLayout | src/lib/utils/validation.ts:30-36 | a layout is accepted exactly when none of the five patterns occurs |
| Validation.AtMostOneArrowIsValid | src/lib/utils/validation.ts:30-36 | a board with zero or one arrow is always accepted |
| Validation.LongDistanceExample | src/lib/utils/validation.ts:231-274 | a right arrow and a left arrow three columns apart in one row are reported as a long-distance deadlock |
| Validation.BlockedGivesEdge | src/lib/utils/validation.ts:457-472 | an arrow directly blocked by a different arrow gives the edge between their ids |
| Validation.BlockingRingIsCycle | src/lib/utils/validation.ts:327-340 | arrows each blocked by the next, the last by the first, form a cycle of the blocking graph |
| Validation.PinwheelNoPairPattern | src/lib/utils/validation.ts:153-322 | the four-arrow pinwheel has no adjacent or long-distance pair |
| Validation.PinwheelCycle | src/lib/utils/validation.ts:448-478 | the pinwheel's blocking graph has a cycle |
| Validation.PinwheelExample | src/lib/utils/validation.ts:87-146 | the pinwheel is reported as a tight cyclic deadlock |
| DeadlockChecker.IsDeadlockSymmetric | src/utils/DeadlockChecker.ts:19-58 | the test is symmetric, never relates an element to itself, and never flags two arrows of one direction |
| DeadlockChecker.NoFacingCheck | src/utils/DeadlockChecker.ts:44-58 | an up arrow above a down arrow in one column, pointing apart, is still flagged |
| DeadlockChecker.WouldCauseDeadlock | src/utils/DeadlockChecker.ts:7-14 | true exactly when some placed element deadlocks with the new one |
| DeadlockChecker.FindDeadlocks | src/utils/DeadlockChecker.ts:63-78 | reports exactly the element pairs (i < j) that deadlock |
| DeadlockChecker.HasDeadlocks | src/utils/DeadlockChecker.ts:83-85 | true exactly when some pair i < j deadlocks |
| DeadlockChecker.WouldCauseIffNewDeadlock | src/utils/DeadlockChecker.ts:7-14 | appending an element creates a deadlock exactly when the list had one or the element would cause one |
| LegacyGenerator.NewGenerator | src/utils/LevelGenerator.ts:34-40 | the constructor throws RangeError exactly when rows is negative, or rows is positive and cols negative; otherwise the board is rows x cols and every cell on it is free |
| LegacyGenerator.ResetGrid | src/utils/LevelGenerator.ts:71-76 | every cell becomes free and the size is kept |
| LegacyGenerator.DimensionsMatchFootprint | src/utils/LevelGenerator.ts:118-129 | an element with its direction's width and height covers exactly the footprint of an arrow at its position |
| LegacyGenerator.SetRect | src/utils/LevelGenerator.ts:181-190 | exactly the element's on-board cells are written and every other cell is kept |
| LegacyGenerator.MarkOccupied | src/utils/LevelGenerator.ts:181-190 | exactly the element's cells become occupied and every other cell is kept |
| LegacyGenerator.ClearOccupied | src/utils/LevelGenerator.ts:287-296 | exactly the element's cells become free and every other cell is kept |
| LegacyGenerator.ClearUndoesMark | src/utils/LevelGenerator.ts:181-190 | clearing an element just marked over free cells gives the grid back |
| LegacyGenerator.GetRandomPosition | src/utils/LevelGenerator.ts:134-139 | the drawn position keeps the rectangle inside the board whenever it fits the board |
| LegacyGenerator.ArrowCandidate | src/utils/LevelGenerator.ts:80-105 | each candidate is an arrow with the given id and its direction's dimensions |
| LegacyGenerator.GenerateArrow | src/utils/LevelGenerator.ts:80-105 | the result is the first of at most 100 candidates at a valid position, every earlier one failed, and three draws are used per try |
| LegacyGenerator.FirstArrowFits | src/utils/LevelGenerator.ts:80-105 | on an empty board of at least 2 x 2 cells the first candidate is taken |
| LegacyGenerator.FindSafePosition | src/utils/LevelGenerator.ts:301-317 | the spot returned is the first of at most 50 at which the element fits, every earlier one failed, and two draws are used per try |
| LegacyGenerator.LegacyCoversChecker | src/utils/LevelGenerator.ts:234-282 | every pair the standalone checker flags is flagged here; the extra pairs are vertical arrows at most two columns apart |
| LegacyGenerator.DetectDeadlocks | src/utils/LevelGenerator.ts:217-229 | reports exactly the deadlocked index pairs i < j, in scan order |
| LegacyGenerator.ArrowIdInjective | src/utils/LevelGenerator.ts:50 | different arrow numbers give different ids |
| LegacyGenerator.PlaceKeepsConsistent | src/utils/LevelGenerator.ts:49-55 | adding an arrow at a valid position keeps the arrows disjoint, inside the board, equal to the occupied cells and distinctly numbered |
| LegacyGenerator.PlaceArrows | src/utils/LevelGenerator.ts:45-55 | after the placement loop there are at most arrowCount arrows, on the board, pairwise disjoint, with distinct ids, and they occupy exactly the marked cells |
| LegacyGenerator.MoveOne | src/utils/LevelGenerator.ts:204-210 | one repair either moves the picked arrow to a spot valid once its cells are cleared, or leaves it in place with its cells cleared |
| LegacyGenerator.ClearKeepsResolvable | src/utils/LevelGenerator.ts:204-210 | clearing an arrow's cells keeps every arrow on the board and every occupied cell covered |
| LegacyGenerator.MoveKeepsResolvable | src/utils/LevelGenerator.ts:204-210 | moving an arrow to a spot free after clearing keeps every arrow on the board and every occupied cell covered |
| LegacyGenerator.MoveKeepsSound | src/utils/LevelGenerator.ts:204-210 | a move keeps every occupied cell covered by some arrow |
| LegacyGenerator.ResolvePairs | src/utils/LevelGenerator.ts:195-212 | the repair loop keeps the arrows and their ids, keeps them on the board and keeps every occupied cell covered |
| LegacyGenerator.ResolveDeadlocks | src/utils/LevelGenerator.ts:195-212 | the repair pass only moves arrows, keeps them on the board and keeps every occupied cell covered |
| LegacyGenerator.NoDeadlocksNoMoves | src/utils/LevelGenerator.ts:195-212 | without deadlocked pairs the pass changes nothing and draws no number |
| LegacyGenerator.Generate | src/utils/LevelGenerator.ts:45-66 | the level has the given id and the generator's size, at most arrowCount arrows with distinct ids and their direction's dimensions, all inside the board |
| LegacyGenerator.RepeatedSpotFails | src/utils/LevelGenerator.ts:301-317 | a stream stuck on one unusable spot makes the search give up |
| LegacyGenerator.LoneStuckPair | src/utils/LevelGenerator.ts:204-210 | for a single pair whose picked arrow finds no spot, every arrow stays in place and the picked arrow's cells end up free |
| LegacyGenerator.ClearedCellsStayFree | src/utils/LevelGenerator.ts:204-210 | on a concrete 1 x 4 board the arrow that finds no spot stays where it was over a cell marked free |
| ArrowService.GenerateRandomPosition | src/lib/services/ArrowService.ts:150-158 | the drawn anchor keeps both footprint cells on the board whenever the arrow fits |
| ArrowService.PlaceArrow | src/lib/services/ArrowService.ts:107-145 | at most 100 candidates are tried; success takes the first placeable one and writes its id over its footprint, failure leaves the grid unchanged |
| ArrowService.PlaceArrowWrites | src/lib/services/ArrowService.ts:107-145 | a placed arrow's cells were on the board and empty before, now hold its id, and its pixel is its anchor's origin |
| ArrowService.ShowsDisjoint | src/lib/services/ArrowService.ts:82-102 | the footprints of different placed arrows share no cell |
| ArrowService.PlaceExtends | src/lib/services/ArrowService.ts:91-99 | placing the next id keeps ids 1..n in order and disjoint footprints matching the grid |
| ArrowService.PlaceAll | src/lib/services/ArrowService.ts:91-99 | the arrow loop either places every arrow with ids in order and disjoint footprints, or fails with an empty list |
| ArrowService.AttemptArrowPlacement | src/lib/services/ArrowService.ts:82-102 | success gives exactly arrowCount arrows with ids 1..arrowCount and disjoint on-board footprints; failure gives an empty list |
| ArrowService.ShowsLayout | src/lib/services/ArrowService.ts:82-102 | a successful attempt's arrows alone form a layout, read off their pixels |
| ArrowService.LayoutLoop | src/lib/services/ArrowService.ts:45-76 | the loop uses between 1 and 50 attempts; success means the validator accepted exactly arrowCount arrows, failure means no arrows |
| ArrowService.GenerateArrows | src/lib/services/ArrowService.ts:43-77 | 1 to 50 attempts; success means the validator accepts the layout of arrowCount disjoint arrows, failure means an empty list |
| ArrowService.GapPassedAsScale | src/lib/services/ArrowService.ts:54-60 | an arrow placed on row 1 of the medium board is validated as standing on row 0 |
| GridService.Paint | src/lib/services/GridService.ts:39-57 | painting from the k-th arrow on leaves every board cell holding the id of the last arrow covering it, or 0 |
| GridService.UpdateGridFromArrows | src/lib/services/GridService.ts:32-60 | after the rebuild each board cell holds the id of the last arrow in list order covering it, or 0 when none does |
| GridService.OwnerIsACoveringArrow | src/lib/services/GridService.ts:32-60 | an uncovered cell reads 0; a covered cell reads the id of the last arrow covering it |
| GridService.FindById | src/lib/services/GridService.ts:72 | `find` gives the first arrow with the id, or nothing exactly when no arrow has it |
| GridService.AnyForeign | src/lib/services/GridService.ts:94-103 | the scan is true exactly when some on-board cell holds neither 0 nor the arrow's own id |
| GridService.ScanFindsForeign | src/lib/services/GridService.ts:77-103 | scanning the overlapped cells finds a foreign cell exactly when the rectangle overlaps one |
| GridService.CheckArrowCollision | src/lib/services/GridService.ts:65-104 | false for an unknown id; otherwise true exactly when the rectangle, at the given pixel or else the stored one, overlaps a cell holding another id |
| GridService.CreateEmptyGrid | src/lib/services/GridService.ts:109-111 | a rows x cols grid of zeros, or RangeError exactly when rows is negative, or rows is positive and cols negative |
| Levels.ParseDifficulty | src/lib/types/level.ts:26 | a string is a difficulty exactly when it is one of the four keys, and it reads back as that key |
| Levels.ParseDifficultyName | src/lib/types/level.ts:26 | every difficulty key reads back as its difficulty |
| Levels.DistributionOf | src/lib/generators/LevelGenerator.ts:208-213 | the four per-difficulty counts add up to the number of levels |
| Levels.DistributionCounts | src/lib/generators/LevelGenerator.ts:208-213 | the four difficulty filters partition the list |
| LevelGenerator.DifficultyConfig | src/lib/generators/LevelGenerator.ts:33-70 | a known key gets its table row and any other key the medium row; every board is square with side 4, 6, 8 or 10 |
| LevelGenerator.DifficultyBoards | src/lib/generators/LevelGenerator.ts:33-70 | easy, medium, hard and expert boards have sides 4, 6, 8 and 10 |
| LevelGenerator.ArrowCount | src/lib/generators/LevelGenerator.ts:75-87 | the arrow count is never below two, and is the floor of 15% of the cells scaled by the difficulty's multiplier |
| LevelGenerator.DifficultyArrowCounts | src/lib/generators/LevelGenerator.ts:75-87 | the four table boards get 2, 3, 9 and 18 arrows |
| LevelGenerator.ConvertToLevelArrowData | src/lib/generators/LevelGenerator.ts:92-110 | length, ids and directions are kept and each arrow is stored at the cell nearest its pixel |
| LevelGenerator.ConvertInvertsGridToPixel | src/lib/generators/LevelGenerator.ts:92-110 | an arrow at a cell's pixel origin converts back to that cell |
| LevelGenerator.Request | src/lib/generators/LevelGenerator.ts:120-126 | the controller is asked for the difficulty's board with a positive pitch |
| LevelGenerator.GenerateLevel | src/lib/generators/LevelGenerator.ts:115-148 | null exactly when the controller fails; otherwise the difficulty's board, marked valid, with the controller's attempt count and a legal layout |
| LevelGenerator.LayoutIsWellPlaced | src/lib/generators/LevelGenerator.ts:128-141 | a layout the service accepts, converted back to cells, is a legal board |
| LevelGenerator.PadStart3 | src/lib/generators/LevelGenerator.ts:162 | `padStart(3, '0')` puts zeros in front up to length three |
| LevelGenerator.UnpadZeros | src/lib/generators/LevelGenerator.ts:162 | padding a string without a leading zero can be undone |
| LevelGenerator.LevelIdInjective | src/lib/generators/LevelGenerator.ts:162 | different positions in a batch get different level ids |
| LevelGenerator.Retry | src/lib/generators/LevelGenerator.ts:161-171 | the retry loop makes at most maxRetries calls, stops at the first success and fails only when every call it made failed |
| LevelGenerator.LevelCalls | src/lib/generators/LevelGenerator.ts:161-166 | every successful call for index i yields a level of the batch's difficulty with index i's id and name |
| LevelGenerator.GenerateFrom | src/lib/generators/LevelGenerator.ts:157-179 | the loop yields at most one level per index, each well formed and numbered in range with distinct ids, within maxRetries calls per index |
| LevelGenerator.RetryYieldsBatchLevel | src/lib/generators/LevelGenerator.ts:161-171 | the level the retries settle on carries its index's id and name |
| LevelGenerator.TimesIsProduct | src/lib/generators/LevelGenerator.ts:153-182 | the call budget of a batch is levelCount times maxRetries |
| LevelGenerator.BatchHeadDistinct | src/lib/generators/LevelGenerator.ts:157-179 | the level of index i differs in id from every later level |
| LevelGenerator.GenerateLevels | src/lib/generators/LevelGenerator.ts:153-182 | at most levelCount levels with distinct ids, each of the requested difficulty and a legal board, using at most maxRetries calls per level |
| LevelGenerator.PackBatch | src/lib/generators/LevelGenerator.ts:196-205 | a difficulty's batch has at most its requested count of levels, all of that difficulty |
| LevelGenerator.GenerateLevelPack | src/lib/generators/LevelGenerator.ts:187-227 | totalLevels is the number of levels and the sum of the distribution, each count is within the request, and easier levels come first |
| LevelGenerator.SingleBatch | src/lib/generators/LevelGenerator.ts:196-205 | a batch of one difficulty is ordered and of that rank |
| LevelGenerator.JoinBatches | src/lib/generators/LevelGenerator.ts:196-205 | appending a batch of higher ranks keeps the order |
| StaticLevelService.LookupLast | src/lib/services/StaticLevelService.ts:175-251 | a property read is missing exactly when no field has the key, and otherwise gives the last field with it |
| StaticLevelService.LookupDistinct | src/lib/services/StaticLevelService.ts:175-251 | with distinct keys every field is read back |
| StaticLevelService.ParseDirection | src/lib/services/StaticLevelService.ts:233 | a direction key is accepted exactly when it is one of the four names, and reads back as that name |
| StaticLevelService.DecodeArrow | src/lib/services/StaticLevelService.ts:226-251 | an arrow is decoded exactly when validateArrow accepts it |
| StaticLevelService.DecodeConfig | src/lib/services/StaticLevelService.ts:209-221 | a configuration is decoded exactly when validateConfig accepts it |
| StaticLevelService.ArrowRoundTrip | src/lib/services/StaticLevelService.ts:226-251 | a written arrow passes validateArrow and is read back unchanged |
| StaticLevelService.ConfigRoundTrip | src/lib/services/StaticLevelService.ts:209-221 | a written configuration passes validateConfig and is read back unchanged |
| StaticLevelService.LevelJsonValid | src/lib/services/StaticLevelService.ts:190-204 | every written level passes validateLevel |
| StaticLevelService.PackJsonValid | src/lib/services/StaticLevelService.ts:175-185 | every written pack passes validateLevelPack |
| StaticLevelService.PackShapeOnly | src/lib/services/StaticLevelService.ts:175-185 | a pack with a string id and name and no levels passes; a non-object never passes any validator |
| StaticLevelService.SetLevel | src/lib/services/StaticLevelService.ts:41-43 | `Map.set` leaves one entry per id and keeps exactly the entries with other ids; in insertion order, an existing id's entry is replaced in place and a new id's entry comes last |
| StaticLevelService.SetPack | src/lib/services/StaticLevelService.ts:40 | the pack map keeps exactly the entries with other ids; in insertion order, an existing id's pack is replaced in place and a new id's pack comes last |
| StaticLevelService.SetLevels | src/lib/services/StaticLevelService.ts:41-43 | ids stay unique, untouched entries stay, and nothing comes from elsewhere |
| StaticLevelService.CachePack | src/lib/services/StaticLevelService.ts:40-43 | the cache holds the pack, keeps unique ids, and every cached level was stored before or comes from the pack |
| StaticLevelService.CachedLevelsFound | src/lib/services/StaticLevelService.ts:41-43 | after caching every level of the pack is found by its id as the pack's last level with that id |
| StaticLevelService.LaterSetsKeep | src/lib/services/StaticLevelService.ts:41-43 | setting other ids keeps an entry |
| StaticLevelService.GetLevelIn | src/lib/services/StaticLevelService.ts:77-79 | the lookup finds a stored level with the id, or null exactly when none is stored |
| StaticLevelService.GetLevel | src/lib/services/StaticLevelService.ts:77-79 | getLevel gives a stored level with the id, or null exactly when there is none |
| StaticLevelService.GetLevelPack | src/lib/services/StaticLevelService.ts:110-112 | getLevelPack gives a stored pack with the id, or null exactly when there is none |
| StaticLevelService.Insert | src/lib/services/StaticLevelService.ts:85-95 | insertion adds exactly one element |
| StaticLevelService.InsertSorted | src/lib/services/StaticLevelService.ts:85-95 | inserting into a sorted list keeps it sorted |
| StaticLevelService.SortBy | src/lib/services/StaticLevelService.ts:85-95 | sorting gives a permutation of the input ordered by the comparator |
| StaticLevelService.SortSortedIdentity | src/lib/services/StaticLevelService.ts:85-95 | sorting a sorted list leaves it unchanged |
| StaticLevelService.LevelOrderIsPreorder | src/lib/services/StaticLevelService.ts:85-94 | the difficulty-then-name comparator is a total preorder when name collation is |
| StaticLevelService.NameOrderIsPreorder | src/lib/services/StaticLevelService.ts:103-104 | the name comparator is a total preorder when name collation is |
| StaticLevelService.LevelOrderLe | src/lib/services/StaticLevelService.ts:84-96 | the comparator puts a first exactly when a's difficulty is easier, or the difficulties agree and the names are in collation order |
| StaticLevelService.GetAllLevels | src/lib/services/StaticLevelService.ts:84-96 | every stored level exactly once, easier difficulties first, names in collation order within a difficulty |
| StaticLevelService.GetLevelsByDifficulty | src/lib/services/StaticLevelService.ts:101-105 | exactly the stored levels of that difficulty, each as often as stored, names in collation order |
| StaticLevelService.GetAllLevelPacks | src/lib/services/StaticLevelService.ts:117-119 | the cached packs, once each, in the Map's insertion order |
| StaticLevelService.PacksInCacheOrder | src/lib/services/StaticLevelService.ts:40 | caching a pack whose id is already cached replaces it at its position in the pack list; caching a new id appends it |
| StaticLevelService.GetStatistics | src/lib/services/StaticLevelService.ts:146-163 | the four counts sum to the number of stored levels, and each is the length of that difficulty's query |
| StaticLevelService.CountMatchesQuery | src/lib/services/StaticLevelService.ts:146-163 | counting a difficulty in the sorted list gives the length of that difficulty's query |
| StaticLevelService.ConvertLevelArrowsToRuntime | src/lib/services/StaticLevelService.ts:124-141 | length, ids and directions are kept, nothing is moving, and each arrow stands at its cell's pixel origin |
| StaticLevelService.RuntimeRoundTrip | src/lib/services/StaticLevelService.ts:124-141 | converting a level to runtime arrows and back with the generator's conversion gives the stored arrows |
| GameSlice.Merge | src/lib/store/gameSlice.ts:147 | the spread keeps each field unless the patch sets it |
| GameSlice.FindIndex | src/lib/store/gameSlice.ts:145 | `findIndex` gives the first arrow with the id, or -1 exactly when none has it |
| GameSlice.UpdateArrows | src/lib/store/gameSlice.ts:143-149 | only the first arrow with the id is patched, the length is kept, and an unknown id changes nothing |
| GameSlice.RemoveArrows | src/lib/store/gameSlice.ts:157-159 | exactly the arrows with another id remain, one fewer per arrow with the id |
| GameSlice.RemoveIdempotent | src/lib/store/gameSlice.ts:157-159 | removing twice is removing once |
| GameSlice.RemoveConcat | src/lib/store/gameSlice.ts:157-159 | removal distributes over concatenation, so the survivors keep their order |
| GameSlice.AddThenRemove | src/lib/store/gameSlice.ts:152-159 | removing an arrow's id undoes adding it |
| GameSlice.Reduce | src/lib/store/gameSlice.ts:136-240 | pending sets loading and clears the error; fulfilled clears both and writes its payload; rejected stores its message; each reducer changes only its own fields |
| GameSlice.LoadLevelsBody | src/lib/store/gameSlice.ts:32-51 | a failed load rejects with the prefixed message; otherwise every stored level is returned once, sorted by difficulty and then name as getAllLevels orders them, with the stored packs |
| GameSlice.LoadLevelBody | src/lib/store/gameSlice.ts:54-79 | rejects exactly when no stored level has the id; otherwise that level with its arrows converted to pixels |
| GameSlice.LoadFirstAvailableLevelBody | src/lib/store/gameSlice.ts:82-109 | rejects exactly when no level is available; otherwise the first available level |
| GameSlice.RunThunk | src/lib/store/gameSlice.ts:32-131 | every thunk fulfils with the payload shape its fulfilled case reads |
| GameSlice.DispatchSettles | src/lib/store/gameSlice.ts:173-240 | after pending and an outcome nothing is loading, and the error is set exactly when the thunk was rejected |
| GameSlice.FirstLevelDispatch | src/lib/store/gameSlice.ts:82-109 | loading the first available level makes it current; with no levels the level stays and the error is recorded |
| LevelSlice.InitializeGrid | src/lib/store/levelSlice.ts:32-34 | a rows x cols grid of zeros, or the RangeError of a negative length |
| LevelSlice.Overlay | src/lib/store/levelSlice.ts:42 | each field takes the payload's value when given and keeps its own otherwise |
| LevelSlice.OverlayLaws | src/lib/store/levelSlice.ts:42 | overlaying twice is overlaying once and the empty payload changes nothing |
| LevelSlice.UpdateConfig | src/lib/store/levelSlice.ts:41-45 | the payload overlays the configuration and the grid becomes zeros of the new size, or the reducer throws |
| LevelSlice.UpdateGridData | src/lib/store/levelSlice.ts:48-50 | the grid is replaced and the configuration kept |
| LevelSlice.ResetGrid | src/lib/store/levelSlice.ts:53-55 | zeros at the current size with the configuration kept, or the reducer throws |
| LevelSlice.ResetAgreesWithUpdate | src/lib/store/levelSlice.ts:41-55 | resetting after any grid write equals an empty configuration update, and resetting twice is resetting once |

## Left out

- Fetching level files, `FileReader`, downloads and console logging are I/O.
  The cache step after a successful load is modelled (`CachePack`). The
  fetch, `reload` and `loadDefaultLevels` are not.
- `loadLevelPack` and `loadDefaultLevels` catch and swallow their own
  errors. The `Failed` load of `GameSlice.LoadLevelsBody` therefore stands
  only for an error thrown outside them.
- The singletons (`getInstance`) are left out. So is `ArrowController`: it
  passes requests straight to `ArrowService`, and its catch path is not
  modelled.
- React components, hooks, DOM and animation code are user-interface glue.
- `Math.random()` is a stream of reals in [0, 1). `Date` is an opaque
  creation-time string.
- JavaScript numbers are integers here: pixels, ids and grid values. Fractional
  pixel positions during animation are not modelled.
- Dividing by zero is excluded, because it yields Infinity or NaN. The affected
  members require `gridSize * scale != 0` or a non-zero pitch.
- LevelGenerator.ArrowCount: `0.15` and the multipliers are exact reals, so
  floating-point rounding of the product is not modelled.
- LevelGenerator.DifficultyConfig: a key such as `"toString"` would read an
  inherited property of the table object. Every unknown key is taken to give
  the medium row.
- LevelGenerator.GenerateLevelPack: the batches are taken in the order easy,
  medium, hard, expert, which is the insertion order that `Object.entries`
  gives for the counts object.
- StaticLevelService.SortBy: states a sorted permutation, not the stability of
  `Array.prototype.sort`.
- `localeCompare` is an abstract comparator, required to be a total preorder.
- JSON values are parsed trees with integer numbers. Text parsing and
  non-integer numbers are not modelled.
- GameSlice.LoadLevelBody: the thunk passes `gridSize` and `gridGap` to
  `convertLevelArrowsToRuntime`, which takes only the level, so they are
  ignored.
- GameSlice.Merge: a patch field set explicitly to `undefined` would overwrite
  the field; a patch is modelled as fields that are either set or absent.
- LevelSlice.InitializeGrid: the RangeError of an array length above 2^32 - 1
  is not modelled; only negative lengths throw. The same holds for
  `Common.FillGrid`, `GridManager.NewGrid`, `LegacyGenerator.NewGenerator` and
  `GridService.CreateEmptyGrid`.
- NewGrid: a grid of zero rows and a negative column count is represented
  with zero columns. The class reads the column count only in bounds tests,
  which all fail without rows, so every query answers the same. The
  constructor's default size of 6 x 6 is not a separate member; it is
  `NewGrid(6, 6)`.
- NewGenerator: a generator of zero rows and a negative column count is
  represented with zero columns. No cell is on its board either way, but
  `generate` would report the negative column count, which this
  representation does not keep.
- ArrowService.GenerateArrows: the configuration's `rows` and `cols` are
  natural numbers. A negative size makes `new GridManager` throw RangeError
  before any attempt; `GridManager.NewGrid` models that error, and
  `GenerateArrows` starts from its successful case.
- LegacyGenerator.Generate: `rows` and `cols` are natural numbers. For a
  negative size the constructor's RangeError is `LegacyGenerator.NewGenerator`
  returning None. The default `arrowCount = 3` of `generate` and the
  `createLevelGenerator` and `generateLevel` helpers with their 10 x 10
  defaults are not separate members; they are `Generate` with those
  arguments.
- Validation.ConvertArrowDataToConfig: the defaults `offsetX = 0`,
  `offsetY = 0` and `scale = 1` are not separate members; both callers in
  `ArrowService` pass all five arguments.
- CycleSearch.FindCyclicArrowsSpec: states only that the report is non-empty
  exactly when a cycle exists. Because the stack is not unwound, the exact ids
  may include extra or undefined entries.
- DeadlockChecker.FindDeadlocks: states which pairs are reported, not their
  order. `PairScan.Pairs`, which it maps over, states the scan order.
- ArrowService.GenerateArrows: a random stream whose draws never give a
  placeable candidate is allowed, so no success is promised.
