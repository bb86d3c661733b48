/** The editor-side level store of src/lib/store/levelSlice.ts: a board
    configuration and the grid data sized by it. */
module LevelSlice {
  import opened Common

  /** The slice's own LevelConfig, which also carries the arrow count. */
  datatype SliceConfig = SliceConfig(rows: int, cols: int, gridGap: int, gridSize: int,
                                     arrowCount: int, offsetX: int, offsetY: int)

  datatype LevelState = LevelState(config: SliceConfig, gridData: seq<seq<int>>)

  const InitialState: LevelState := LevelState(SliceConfig(6, 6, 2, 60, 3, 20, 20), [])

  /** `Partial<LevelConfig>`: the fields the payload sets. */
  datatype ConfigPatch = ConfigPatch(rows: Option<int>, cols: Option<int>, gridGap: Option<int>,
                                     gridSize: Option<int>, arrowCount: Option<int>,
                                     offsetX: Option<int>, offsetY: Option<int>)

  /** `Array(rows).fill(null).map(() => Array(cols).fill(0))`: rows x cols
      zeros, or None for the RangeError a negative length throws (a negative
      `cols` throws only when there is a row to build). */
  function InitializeGrid(rows: int, cols: int): (g: Option<seq<seq<int>>>)
    ensures g.None? <==> rows < 0 || (rows > 0 && cols < 0)
    ensures g.Some? ==> |g.value| == rows
    ensures g.Some? ==> forall r :: 0 <= r < rows ==> |g.value[r]| == cols && forall c :: 0 <= c < cols ==> g.value[r][c] == 0
  {
    FillGrid(rows, cols, 0)
  }

  /** A rows x cols grid of zeros. */
  predicate IsZeroGrid(g: seq<seq<int>>, rows: int, cols: int)
  {
    |g| == rows && forall r :: 0 <= r < |g| ==> |g[r]| == cols && forall c :: 0 <= c < |g[r]| ==> g[r][c] == 0
  }

  /** `{ ...config, ...patch }` */
  function Overlay(config: SliceConfig, patch: ConfigPatch): (r: SliceConfig)
    ensures patch.rows.Some? ==> r.rows == patch.rows.value
    ensures patch.rows.None? ==> r.rows == config.rows
    ensures patch.cols.Some? ==> r.cols == patch.cols.value
    ensures patch.cols.None? ==> r.cols == config.cols
    ensures patch.gridGap.Some? ==> r.gridGap == patch.gridGap.value
    ensures patch.gridGap.None? ==> r.gridGap == config.gridGap
    ensures patch.gridSize.Some? ==> r.gridSize == patch.gridSize.value
    ensures patch.gridSize.None? ==> r.gridSize == config.gridSize
    ensures patch.arrowCount.Some? ==> r.arrowCount == patch.arrowCount.value
    ensures patch.arrowCount.None? ==> r.arrowCount == config.arrowCount
    ensures patch.offsetX.Some? ==> r.offsetX == patch.offsetX.value
    ensures patch.offsetX.None? ==> r.offsetX == config.offsetX
    ensures patch.offsetY.Some? ==> r.offsetY == patch.offsetY.value
    ensures patch.offsetY.None? ==> r.offsetY == config.offsetY
  {
    SliceConfig(OrElse(patch.rows, config.rows), OrElse(patch.cols, config.cols),
                OrElse(patch.gridGap, config.gridGap), OrElse(patch.gridSize, config.gridSize),
                OrElse(patch.arrowCount, config.arrowCount), OrElse(patch.offsetX, config.offsetX),
                OrElse(patch.offsetY, config.offsetY))
  }

  /** The patch that sets nothing. */
  const EmptyPatch: ConfigPatch := ConfigPatch(None, None, None, None, None, None, None)

  /** Overlaying is idempotent, and the empty patch changes nothing. */
  lemma OverlayLaws(config: SliceConfig, patch: ConfigPatch)
    ensures Overlay(Overlay(config, patch), patch) == Overlay(config, patch)
    ensures Overlay(config, EmptyPatch) == config
  {
  }

  /** A size the grid can be built at. */
  predicate BuildableSize(rows: int, cols: int)
  {
    rows >= 0 && (rows == 0 || cols >= 0)
  }

  /** updateConfig: the payload overlays the configuration and the grid is
      rebuilt as zeros at the new size; when that size throws, the reducer
      throws and the state stays as it was (None). */
  function UpdateConfig(s: LevelState, patch: ConfigPatch): (r: Option<LevelState>)
    ensures r.Some? <==> BuildableSize(Overlay(s.config, patch).rows, Overlay(s.config, patch).cols)
    ensures r.Some? ==> r.value.config == Overlay(s.config, patch)
    ensures r.Some? ==> IsZeroGrid(r.value.gridData, r.value.config.rows, r.value.config.cols)
  {
    var config := Overlay(s.config, patch);
    match InitializeGrid(config.rows, config.cols)
    case None => None
    case Some(g) => Some(LevelState(config, g))
  }

  /** updateGridData: the grid is replaced and the configuration kept. */
  function UpdateGridData(s: LevelState, grid: seq<seq<int>>): (r: LevelState)
    ensures r.config == s.config && r.gridData == grid
  {
    s.(gridData := grid)
  }

  /** resetGrid: zeros at the current size, configuration kept; None when
      the size throws. */
  function ResetGrid(s: LevelState): (r: Option<LevelState>)
    ensures r.Some? <==> BuildableSize(s.config.rows, s.config.cols)
    ensures r.Some? ==> r.value.config == s.config
    ensures r.Some? ==> IsZeroGrid(r.value.gridData, s.config.rows, s.config.cols)
  {
    match InitializeGrid(s.config.rows, s.config.cols)
    case None => None
    case Some(g) => Some(s.(gridData := g))
  }

  /** Whatever grid was written, resetting gives the state an empty update
      of the configuration gives, and resetting twice is resetting once. */
  lemma ResetAgreesWithUpdate(s: LevelState, grid: seq<seq<int>>)
    ensures ResetGrid(UpdateGridData(s, grid)) == UpdateConfig(s, EmptyPatch)
    ensures ResetGrid(s).Some? ==> ResetGrid(ResetGrid(s).value) == ResetGrid(s)
  {
  }
}
