/** The random layout generator of src/lib/services/ArrowService.ts.

    One layout attempt empties a GridManager grid and places arrows 1, 2,
    ... one at a time; each arrow gets up to 100 random (direction, anchor)
    candidates, and the first one whose footprint is on the board and empty
    is written into the grid. A complete layout is then converted to cells
    with convertArrowDataToConfig and accepted when validateArrowLayout
    finds no deadlock; up to 50 layouts are tried.

    The conversion is called with `gridGap` where the cell pitch belongs, so
    the validator divides pixel offsets by gridSize * gridGap and may look
    at other cells than the ones the arrows were placed on.

    `Math.random()` is a stream `rand` read at a cursor; the service's
    singleton is dropped and the grid manager is an immutable value. */
module ArrowService {
  import opened Common
  import opened Geometry
  import opened GridManager
  import opened Validation

  /** ArrowGenerationConfig */
  datatype GenerationConfig = GenerationConfig(rows: nat, cols: nat, gridGap: int, gridSize: int,
                                               arrowCount: int, offsetX: int, offsetY: int)
  {
    function Frame(): PixelFrame
    {
      PixelFrame(gridSize, offsetX, offsetY, gridGap)
    }

    /** The divisor the conversion uses is not zero. */
    predicate Convertible()
    {
      gridSize * gridGap != 0
    }
  }

  /** ArrowGenerationResult */
  datatype GenerationResult = GenerationResult(arrows: seq<ArrowData>, gridData: seq<seq<int>>,
                                               success: bool, attempts: nat)

  /** generateRandomPosition: the anchor row is drawn below rows - 1 for a
      vertical arrow and below rows otherwise; the column below cols - 1
      for a horizontal arrow and below cols otherwise. */
  function GenerateRandomPosition(cfg: GenerationConfig, d: Direction, ur: real, uc: real): (c: Cell)
    requires 0.0 <= ur < 1.0 && 0.0 <= uc < 1.0
    ensures var maxRow := cfg.rows - (if IsVertical(d) then 1 else 0);
            var maxCol := cfg.cols - (if IsVertical(d) then 0 else 1);
            maxRow >= 1 && maxCol >= 1 ==>
              InBounds(c, cfg.rows, cfg.cols) && InBounds(SecondCell(c, d), cfg.rows, cfg.cols)
  {
    var maxRow := cfg.rows - (if d == Up || d == Down then 1 else 0);
    var maxCol := cfg.cols - (if d == Left || d == Right then 1 else 0);
    Cell(RandomBelow(ur, maxRow), RandomBelow(uc, maxCol))
  }

  /** The (direction, anchor) candidate drawn by one iteration of
      placeArrow: direction, then row, then column. */
  function Candidate(cfg: GenerationConfig, ud: real, ur: real, uc: real): (Direction, Cell)
    requires 0.0 <= ud < 1.0 && 0.0 <= ur < 1.0 && 0.0 <= uc < 1.0
  {
    var d := RandomDirection(ud);
    (d, GenerateRandomPosition(cfg, d, ur, uc))
  }

  /** The service draws random numbers only in placeArrow, three per
      iteration, so the stream is a sequence of candidates: the i-th uses
      draws 3i, 3i + 1 and 3i + 2. */
  type Candidates = nat -> (Direction, Cell)

  function CandidatesOf(cfg: GenerationConfig, rand: Random): Candidates
    requires IsRandom(rand)
  {
    (i: nat) => Candidate(cfg, rand(3 * i), rand(3 * i + 1), rand(3 * i + 2))
  }

  /** A grid managed for this configuration. */
  predicate Fits(cfg: GenerationConfig, grid: Grid)
  {
    grid.Valid() && grid.rows == cfg.rows && grid.cols == cfg.cols
  }

  /** The canPlaceArrow test of placeArrow, with the grid manager's isEmpty
      as the emptiness test. */
  predicate Placeable(cfg: GenerationConfig, grid: Grid, cand: (Direction, Cell))
    requires Fits(cfg, grid)
  {
    CanPlaceArrow(cand.1, cand.0, EmptyTest(grid), cfg.rows, cfg.cols)
  }

  /** The grid manager's isEmpty as a callback. */
  function EmptyTest(grid: Grid): (int, int) -> bool
    requires grid.Valid()
  {
    (r, c) => IsEmpty(grid, r, c)
  }

  /** A placed arrow together with the anchor cell it was placed on. */
  datatype Placement = Placement(anchor: Cell, arrow: ArrowData)
  {
    function Cover(): seq<Cell>
    {
      Footprint(anchor, arrow.direction)
    }
  }

  /** The runtime arrow placeArrow builds for an anchor. */
  function ArrowAt(id: int, anchor: Cell, d: Direction, f: PixelFrame): ArrowData
  {
    ArrowData(id, d, GridToPixel(anchor, f), false)
  }

  const MaxPlaceAttempts: nat := 100

  /** The `n` candidates from index `from` on all fail. */
  predicate PlaceAttemptsFail(cfg: GenerationConfig, grid: Grid, cands: Candidates, from: nat, n: nat)
    requires Fits(cfg, grid)
    decreases n
  {
    n == 0 || (!Placeable(cfg, grid, cands(from)) && PlaceAttemptsFail(cfg, grid, cands, from + 1, n - 1))
  }

  /** What placeArrow records for a placeable candidate. */
  function PlacementOf(cfg: GenerationConfig, id: int, cand: (Direction, Cell)): Placement
  {
    Placement(cand.1, ArrowAt(id, cand.1, cand.0, cfg.Frame()))
  }

  /** placeArrow succeeded on the candidate just before the cursor `r.2`
      it returns: the candidates from `cursor` up to that one failed, that
      one is placeable, its placement is recorded, and its footprint now
      holds `id`. */
  ghost predicate PlacedAt(cfg: GenerationConfig, grid: Grid, id: int, cands: Candidates, cursor: nat,
                           r: (Option<Placement>, Grid, nat))
    requires Fits(cfg, grid)
  {
    && r.0.Some?
    && cursor < r.2
    && PlaceAttemptsFail(cfg, grid, cands, cursor, r.2 - 1 - cursor)
    && Placeable(cfg, grid, cands(r.2 - 1))
    && r.0.value == PlacementOf(cfg, id, cands(r.2 - 1))
    && r.1 == OccupyPositions(grid, r.0.value.Cover(), id)
  }

  /** placeArrow from attempt number `attempt`, reading candidates from
      index `cursor`: the first placeable candidate is written into the
      grid under `id`; after 100 failures the grid is returned unchanged. */
  function PlaceArrow(cfg: GenerationConfig, grid: Grid, id: int, cands: Candidates, cursor: nat, attempt: nat)
    : (r: (Option<Placement>, Grid, nat))
    requires Fits(cfg, grid) && attempt <= MaxPlaceAttempts
    ensures r.0.None? ==>
      && r.1 == grid && r.2 == cursor + (MaxPlaceAttempts - attempt)
      && PlaceAttemptsFail(cfg, grid, cands, cursor, MaxPlaceAttempts - attempt)
    ensures r.0.Some? ==> r.2 <= cursor + (MaxPlaceAttempts - attempt) && PlacedAt(cfg, grid, id, cands, cursor, r)
    decreases MaxPlaceAttempts - attempt
  {
    if attempt == MaxPlaceAttempts then (None, grid, cursor)
    else if Placeable(cfg, grid, cands(cursor)) then
      var p := PlacementOf(cfg, id, cands(cursor));
      var r := (Some(p), OccupyPositions(grid, p.Cover(), id), cursor + 1);
      assert PlaceAttemptsFail(cfg, grid, cands, cursor, 0);
      r
    else
      var r := PlaceArrow(cfg, grid, id, cands, cursor + 1, attempt + 1);
      if r.0.Some? then
        PlacedAfterFailure(cfg, grid, id, cands, cursor, r);
        r
      else
        r
  }

  /** A failed candidate at `cursor` followed by a success from `cursor + 1`
      is a success from `cursor`. */
  lemma PlacedAfterFailure(cfg: GenerationConfig, grid: Grid, id: int, cands: Candidates, cursor: nat,
                           r: (Option<Placement>, Grid, nat))
    requires Fits(cfg, grid) && !Placeable(cfg, grid, cands(cursor))
    requires PlacedAt(cfg, grid, id, cands, cursor + 1, r)
    ensures PlacedAt(cfg, grid, id, cands, cursor, r)
  {
    assert r.2 - 1 - cursor == (r.2 - 1 - (cursor + 1)) + 1;
  }

  /** A successful placeArrow: the footprint was on the board and empty,
      now holds the arrow's id, and the arrow sits at its anchor's pixel. */
  lemma PlaceArrowWrites(cfg: GenerationConfig, grid: Grid, id: int, cands: Candidates, cursor: nat, attempt: nat)
    requires Fits(cfg, grid) && attempt <= MaxPlaceAttempts
    ensures var r := PlaceArrow(cfg, grid, id, cands, cursor, attempt);
            r.0.Some? ==>
              && r.0.value.arrow == ArrowAt(id, r.0.value.anchor, r.0.value.arrow.direction, cfg.Frame())
              && (forall rr, cc {:trigger InCoverAt(r.0.value, rr, cc)} :: InCoverAt(r.0.value, rr, cc) ==>
                    OnGrid(cfg, rr, cc) && GetValue(grid, rr, cc) == 0)
              && Fits(cfg, r.1)
              && forall rr, cc {:trigger GetValue(r.1, rr, cc)} :: GetValue(r.1, rr, cc) ==
                   if InCoverAt(r.0.value, rr, cc) && OnGrid(cfg, rr, cc) then id else GetValue(grid, rr, cc)
  {
    var r := PlaceArrow(cfg, grid, id, cands, cursor, attempt);
    if r.0.Some? {
      var p := r.0.value;
      assert p.Cover() == [p.anchor, SecondCell(p.anchor, p.arrow.direction)];
    }
  }

  /** The attempt's invariant: placement k carries id k + 1 and sits at its
      anchor's pixel, its footprint is on the board and reads k + 1, and
      every non-zero cell on the board belongs to the placement its value
      names. */
  ghost predicate Shows(cfg: GenerationConfig, grid: Grid, placed: seq<Placement>)
  {
    && Fits(cfg, grid)
    && (forall k :: 0 <= k < |placed| ==>
          placed[k].arrow == ArrowAt(k + 1, placed[k].anchor, placed[k].arrow.direction, cfg.Frame()))
    && (forall k, r, c {:trigger InCoverAt(placed[k], r, c)} :: 0 <= k < |placed| && InCoverAt(placed[k], r, c) ==>
          OnGrid(cfg, r, c) && GetValue(grid, r, c) == k + 1)
    && (forall r, c :: OnGrid(cfg, r, c) && GetValue(grid, r, c) != 0 ==>
          1 <= GetValue(grid, r, c) <= |placed| && InCoverAt(placed[GetValue(grid, r, c) - 1], r, c))
  }

  /** Cell (r, c) is one of the two cells of the placement's footprint. */
  predicate InCoverAt(p: Placement, r: int, c: int)
  {
    Cell(r, c) in p.Cover()
  }

  /** Cell (r, c) is on the configured board. */
  predicate OnGrid(cfg: GenerationConfig, r: int, c: int)
  {
    InBounds(Cell(r, c), cfg.rows, cfg.cols)
  }

  /** Footprints of different placements never share a cell. */
  lemma ShowsDisjoint(cfg: GenerationConfig, grid: Grid, placed: seq<Placement>)
    requires Shows(cfg, grid, placed)
    ensures forall k1, k2, c :: 0 <= k1 < |placed| && 0 <= k2 < |placed| && k1 != k2 && c in placed[k1].Cover() ==>
      c !in placed[k2].Cover()
  {
    forall k1, k2, c | 0 <= k1 < |placed| && 0 <= k2 < |placed| && k1 != k2 && c in placed[k1].Cover()
      ensures c !in placed[k2].Cover()
    {
      assert InCoverAt(placed[k1], c.row, c.col);
      if c in placed[k2].Cover() {
        assert InCoverAt(placed[k2], c.row, c.col);
      }
    }
  }

  /** Writing the next id over an empty on-board footprint extends the
      invariant. */
  lemma ExtendShows(cfg: GenerationConfig, grid: Grid, placed: seq<Placement>, p: Placement, h: Grid)
    requires Shows(cfg, grid, placed) && Fits(cfg, h)
    requires p.arrow == ArrowAt(|placed| + 1, p.anchor, p.arrow.direction, cfg.Frame())
    requires forall rr, cc {:trigger InCoverAt(p, rr, cc)} :: InCoverAt(p, rr, cc) ==> OnGrid(cfg, rr, cc) && GetValue(grid, rr, cc) == 0
    requires forall rr, cc {:trigger GetValue(h, rr, cc)} :: GetValue(h, rr, cc) ==
              if InCoverAt(p, rr, cc) && OnGrid(cfg, rr, cc) then |placed| + 1 else GetValue(grid, rr, cc)
    ensures Shows(cfg, h, placed + [p])
  {
    var n := |placed|;
    var placed' := placed + [p];
    forall k, r, c {:trigger InCoverAt(placed'[k], r, c)} | 0 <= k < |placed'| && InCoverAt(placed'[k], r, c)
      ensures OnGrid(cfg, r, c) && GetValue(h, r, c) == k + 1
    {
      if k < n {
        assert placed'[k] == placed[k];
        assert !InCoverAt(p, r, c);
      } else {
        assert placed'[k] == p;
      }
    }
    forall r, c | OnGrid(cfg, r, c) && GetValue(h, r, c) != 0
      ensures 1 <= GetValue(h, r, c) <= |placed'| && InCoverAt(placed'[GetValue(h, r, c) - 1], r, c)
    {
      if !InCoverAt(p, r, c) {
        assert placed'[GetValue(grid, r, c) - 1] == placed[GetValue(grid, r, c) - 1];
      } else {
        assert placed'[n] == p;
      }
    }
  }

  /** A successful placeArrow under the next id extends the invariant. */
  lemma PlaceExtends(cfg: GenerationConfig, grid: Grid, placed: seq<Placement>, cands: Candidates, cursor: nat)
    requires Shows(cfg, grid, placed)
    ensures var r := PlaceArrow(cfg, grid, |placed| + 1, cands, cursor, 0);
            r.0.Some? ==> Shows(cfg, r.1, placed + [r.0.value])
  {
    var r := PlaceArrow(cfg, grid, |placed| + 1, cands, cursor, 0);
    PlaceArrowWrites(cfg, grid, |placed| + 1, cands, cursor, 0);
    if r.0.Some? {
      ExtendShows(cfg, grid, placed, r.0.value, r.1);
    }
  }

  /** The arrow loop of attemptArrowPlacement, from arrow |placed| + 1 on:
      stops with an empty list and failure at the first arrow that cannot be
      placed. */
  function PlaceAll(cfg: GenerationConfig, grid: Grid, placed: seq<Placement>, cands: Candidates, cursor: nat)
    : (r: (seq<Placement>, bool, Grid, nat))
    requires Shows(cfg, grid, placed)
    ensures Fits(cfg, r.2) && cursor <= r.3
    ensures r.1 ==> Shows(cfg, r.2, r.0) && |r.0| == Max(cfg.arrowCount, |placed|) && r.0[..|placed|] == placed
    ensures !r.1 ==> r.0 == []
    decreases cfg.arrowCount - |placed|
  {
    if |placed| >= cfg.arrowCount then (placed, true, grid, cursor)
    else
      var step := PlaceArrow(cfg, grid, |placed| + 1, cands, cursor, 0);
      if step.0.None? then ([], false, step.1, step.2)
      else
        PlaceExtends(cfg, grid, placed, cands, cursor);
        var r := PlaceAll(cfg, step.1, placed + [step.0.value], cands, step.2);
        if r.1 then
          PrefixOfExtension(placed, step.0.value, r.0);
          r
        else
          r
  }

  /** attemptArrowPlacement: empties the grid, then places arrows
      1..arrowCount. */
  function AttemptArrowPlacement(cfg: GenerationConfig, grid: Grid, cands: Candidates, cursor: nat)
    : (r: (seq<Placement>, bool, Grid, nat))
    requires Fits(cfg, grid)
    ensures Fits(cfg, r.2) && cursor <= r.3
    ensures r.1 ==> Shows(cfg, r.2, r.0) && |r.0| == Max(cfg.arrowCount, 0)
    ensures !r.1 ==> r.0 == []
  {
    var empty := Reset(grid);
    assert Shows(cfg, empty, []);
    PlaceAll(cfg, empty, [], cands, cursor)
  }

  function Arrows(placed: seq<Placement>): (arrows: seq<ArrowData>)
    ensures |arrows| == |placed| && forall k :: 0 <= k < |placed| ==> arrows[k] == placed[k].arrow
  {
    seq(|placed|, k requires 0 <= k < |placed| => placed[k].arrow)
  }

  /** validateLayout */
  function ValidateLayout(arrows: seq<ArrowData>, cfg: GenerationConfig): bool
    requires cfg.Convertible()
  {
    ValidateArrowLayout(ConvertArrowDataToConfig(arrows, cfg.gridSize, cfg.offsetX, cfg.offsetY, cfg.gridGap),
                        cfg.rows, cfg.cols)
  }

  /** The cell an arrow's pixel position rounds to. */
  function AnchorOf(a: ArrowData, f: PixelFrame): Cell
    requires f.Pitch() != 0
  {
    PixelToGrid(a.pixel, f)
  }

  /** A layout read off the arrows alone: ids 1..n in order, none moving,
      each at the pixel of a cell whose footprint is on the board, and no
      two footprints sharing a cell. */
  ghost predicate IsLayout(cfg: GenerationConfig, arrows: seq<ArrowData>)
    requires cfg.Frame().Pitch() != 0
  {
    var f := cfg.Frame();
    && (forall k :: 0 <= k < |arrows| ==>
          && arrows[k].id == k + 1 && !arrows[k].isMoving
          && arrows[k].pixel == GridToPixel(AnchorOf(arrows[k], f), f)
          && InBounds(AnchorOf(arrows[k], f), cfg.rows, cfg.cols)
          && InBounds(SecondCell(AnchorOf(arrows[k], f), arrows[k].direction), cfg.rows, cfg.cols))
    && (forall k1, k2, c ::
          (0 <= k1 < |arrows| && 0 <= k2 < |arrows| && k1 != k2
           && c in Footprint(AnchorOf(arrows[k1], f), arrows[k1].direction)) ==>
          c !in Footprint(AnchorOf(arrows[k2], f), arrows[k2].direction))
  }

  lemma ShowsLayout(cfg: GenerationConfig, grid: Grid, placed: seq<Placement>)
    requires Shows(cfg, grid, placed)
    ensures cfg.Frame().Pitch() != 0 ==> IsLayout(cfg, Arrows(placed))
  {
    if cfg.Frame().Pitch() != 0 {
      ShowsLayoutPitched(cfg, grid, placed);
    }
  }

  lemma ShowsLayoutPitched(cfg: GenerationConfig, grid: Grid, placed: seq<Placement>)
    requires Shows(cfg, grid, placed) && cfg.Frame().Pitch() != 0
    ensures IsLayout(cfg, Arrows(placed))
  {
    var f := cfg.Frame();
    var arrows := Arrows(placed);
    forall k | 0 <= k < |placed| ensures AnchorOf(arrows[k], f) == placed[k].anchor {
      PixelRoundTrip(placed[k].anchor, f);
    }
    forall k | 0 <= k < |placed|
      ensures InBounds(placed[k].anchor, cfg.rows, cfg.cols)
      ensures InBounds(SecondCell(placed[k].anchor, placed[k].arrow.direction), cfg.rows, cfg.cols)
    {
      var a := placed[k].anchor;
      var b := SecondCell(a, placed[k].arrow.direction);
      assert placed[k].Cover() == [a, b];
      assert InCoverAt(placed[k], a.row, a.col) && InCoverAt(placed[k], b.row, b.col);
    }
    ShowsDisjoint(cfg, grid, placed);
    forall k1, k2, c | 0 <= k1 < |arrows| && 0 <= k2 < |arrows| && k1 != k2
        && c in Footprint(AnchorOf(arrows[k1], f), arrows[k1].direction)
      ensures c !in Footprint(AnchorOf(arrows[k2], f), arrows[k2].direction)
    {
      assert c in placed[k1].Cover();
      assert Footprint(AnchorOf(arrows[k2], f), arrows[k2].direction) == placed[k2].Cover();
    }
  }

  const MaxLayoutAttempts: nat := 50

  /** The layout loop of generateArrows from attempt number `attempt`: the
      first complete layout the validator accepts is returned; after 50
      rejected or incomplete layouts the result is a failure with no
      arrows. The grid is the one left by the last attempt. */
  function LayoutLoop(cfg: GenerationConfig, grid: Grid, cands: Candidates, cursor: nat, attempt: nat)
    : (r: GenerationResult)
    requires Fits(cfg, grid) && cfg.Convertible() && attempt <= MaxLayoutAttempts
    ensures attempt <= r.attempts <= MaxLayoutAttempts && (attempt < MaxLayoutAttempts ==> attempt < r.attempts)
    ensures !r.success ==> r.arrows == [] && r.attempts == MaxLayoutAttempts
    ensures r.success ==> ValidateLayout(r.arrows, cfg) && |r.arrows| == Max(cfg.arrowCount, 0)
    ensures r.success && cfg.Frame().Pitch() != 0 ==> IsLayout(cfg, r.arrows)
    ensures |r.gridData| == cfg.rows && forall i :: 0 <= i < cfg.rows ==> |r.gridData[i]| == cfg.cols
    decreases MaxLayoutAttempts - attempt
  {
    if attempt == MaxLayoutAttempts then GenerationResult([], grid.cells, false, attempt)
    else
      var a := AttemptArrowPlacement(cfg, grid, cands, cursor);
      if a.1 && ValidateLayout(Arrows(a.0), cfg) then
        ShowsLayout(cfg, a.2, a.0);
        GenerationResult(Arrows(a.0), a.2.cells, true, attempt + 1)
      else
        LayoutLoop(cfg, a.2, cands, a.3, attempt + 1)
  }

  /** generateArrows on a fresh grid manager of the configured size. */
  function GenerateArrows(cfg: GenerationConfig, rand: Random): (r: GenerationResult)
    requires IsRandom(rand) && cfg.Convertible()
    ensures 1 <= r.attempts <= MaxLayoutAttempts
    ensures !r.success ==> r.arrows == []
    ensures r.success ==> ValidateLayout(r.arrows, cfg) && |r.arrows| == Max(cfg.arrowCount, 0)
    ensures r.success && cfg.Frame().Pitch() != 0 ==> IsLayout(cfg, r.arrows)
  {
    LayoutLoop(cfg, NewGrid(cfg.rows, cfg.cols).value, CandidatesOf(cfg, rand), 0, 0)
  }

  /** The medium board of the level generator: 60-pixel cells, gap 2,
      offset 20. */
  const Medium: GenerationConfig := GenerationConfig(6, 6, 2, 60, 3, 20, 20)

  /** Because gridGap is passed as the scale, an arrow placed on row 1 of
      the medium board is validated as standing on row 0: its pixel offset
      62 is divided by 60 * 2 instead of by the pitch 62. */
  lemma GapPassedAsScale(a: ArrowData)
    requires a == ArrowAt(1, Cell(1, 0), Up, Medium.Frame())
    ensures Medium.Convertible()
    ensures ConvertArrowDataToConfig([a], Medium.gridSize, Medium.offsetX, Medium.offsetY, Medium.gridGap)[0].position
            == Cell(0, 0)
    ensures PixelToGrid(a.pixel, Medium.Frame()) == Cell(1, 0)
  {
    var conf := ConvertArrowDataToConfig([a], 60, 20, 20, 2);
    assert a.pixel == Pixel(20, 82);
    FloorDivUnique(62, 120, 0);
    FloorDivUnique(0, 120, 0);
    PixelRoundTrip(Cell(1, 0), Medium.Frame());
  }
}
