/** Grid bookkeeping of src/lib/services/GridService.ts: rebuilding the
    occupancy grid from the arrows' pixel rectangles, and the collision test
    used while an arrow slides. Pixel positions are integers. */
module GridService {
  import opened Common
  import opened Geometry
  import opened GridManager

  /** GridConfig */
  datatype GridConfig = GridConfig(rows: int, cols: int, gridSize: int, gridGap: int, offsetX: int, offsetY: int)
  {
    function Frame(): PixelFrame
    {
      PixelFrame(gridSize, offsetX, offsetY, gridGap)
    }
  }

  /** The board cells an arrow standing at pixel `p` overlaps. */
  function CellsAt(a: ArrowData, p: Pixel, cfg: GridConfig): seq<Cell>
  {
    OccupiedCellsByPixel(p.x, p.y, a.direction, cfg.Frame(), cfg.rows, cfg.cols)
  }

  /** The arrow's rectangle at its stored pixel overlaps board cell `c`. */
  predicate CoversCell(a: ArrowData, cfg: GridConfig, c: Cell)
  {
    InBounds(c, cfg.rows, cfg.cols) && OverlapsCell(a.pixel.x, a.pixel.y, a.direction, cfg.Frame(), c)
  }

  /** Reference reading of the rebuilt grid: the id of the last arrow in
      list order whose rectangle covers `c`, or 0 when none does. */
  function Owner(arrows: seq<ArrowData>, cfg: GridConfig, c: Cell): int
  {
    if |arrows| == 0 then 0
    else if CoversCell(arrows[|arrows| - 1], cfg, c) then arrows[|arrows| - 1].id
    else Owner(arrows[..|arrows| - 1], cfg, c)
  }

  /** The forEach of updateGridFromArrows from the k-th arrow on. */
  function Paint(g: Grid, arrows: seq<ArrowData>, cfg: GridConfig, k: nat): (h: Grid)
    requires g.Valid() && k <= |arrows|
    requires forall r, c :: GetValue(g, r, c) ==
              if InBounds(Cell(r, c), g.rows, g.cols) then Owner(arrows[..k], cfg, Cell(r, c)) else OutOfBounds
    ensures h.Valid() && h.rows == g.rows && h.cols == g.cols
    ensures forall r, c :: GetValue(h, r, c) ==
             if InBounds(Cell(r, c), g.rows, g.cols) then Owner(arrows, cfg, Cell(r, c)) else OutOfBounds
    decreases |arrows| - k
  {
    if k == |arrows| then
      assert arrows[..k] == arrows;
      g
    else
      var a := arrows[k];
      var cells := CellsAt(a, a.pixel, cfg);
      var g' := if |cells| > 0 then OccupyPositions(g, cells, a.id) else g;
      assert (arrows[..k + 1])[..k] == arrows[..k];
      assert forall r, c :: GetValue(g', r, c) ==
              if InBounds(Cell(r, c), g.rows, g.cols) then Owner(arrows[..k + 1], cfg, Cell(r, c)) else OutOfBounds;
      Paint(g', arrows, cfg, k + 1)
  }

  /** updateGridFromArrows: from an emptied grid, every overlapped cell ends
      up holding the id of the last arrow covering it and every other cell
      of the manager's board holds 0. */
  function UpdateGridFromArrows(arrows: seq<ArrowData>, g: Grid, cfg: GridConfig): (h: Grid)
    ensures h.Valid() && h.rows == g.rows && h.cols == g.cols
    ensures forall r, c :: GetValue(h, r, c) ==
             if InBounds(Cell(r, c), g.rows, g.cols) then Owner(arrows, cfg, Cell(r, c)) else OutOfBounds
  {
    var empty := Reset(g);
    assert arrows[..0] == [];
    Paint(empty, arrows, cfg, 0)
  }

  /** Arrow `k` covers `c` and no later arrow does. */
  predicate LastCover(arrows: seq<ArrowData>, cfg: GridConfig, c: Cell, k: int)
  {
    0 <= k < |arrows| && CoversCell(arrows[k], cfg, c)
    && forall k' :: k < k' < |arrows| ==> !CoversCell(arrows[k'], cfg, c)
  }

  /** A cell no arrow covers reads 0 after the rebuild; a covered cell reads
      the id of one of the arrows covering it. */
  lemma {:induction false} OwnerIsACoveringArrow(arrows: seq<ArrowData>, cfg: GridConfig, c: Cell)
    ensures (forall k :: 0 <= k < |arrows| ==> !CoversCell(arrows[k], cfg, c)) ==> Owner(arrows, cfg, c) == 0
    ensures (exists k :: 0 <= k < |arrows| && CoversCell(arrows[k], cfg, c)) ==>
      exists k :: LastCover(arrows, cfg, c, k) && Owner(arrows, cfg, c) == arrows[k].id
  {
    if |arrows| > 0 {
      var n := |arrows| - 1;
      var init := arrows[..n];
      assert forall k :: 0 <= k < n ==> init[k] == arrows[k];
      if CoversCell(arrows[n], cfg, c) {
        assert Owner(arrows, cfg, c) == arrows[n].id;
        assert LastCover(arrows, cfg, c, n);
      } else {
        assert Owner(arrows, cfg, c) == Owner(init, cfg, c);
        OwnerIsACoveringArrow(init, cfg, c);
        if exists k :: 0 <= k < |arrows| && CoversCell(arrows[k], cfg, c) {
          var k :| 0 <= k < |arrows| && CoversCell(arrows[k], cfg, c);
          assert CoversCell(init[k], cfg, c);
          var j :| LastCover(init, cfg, c, j) && Owner(init, cfg, c) == init[j].id;
          assert LastCover(arrows, cfg, c, j);
        }
      }
    }
  }

  /** `arrows.find(a => a.id === id)` */
  function FindById(arrows: seq<ArrowData>, id: int): (r: Option<ArrowData>)
    ensures r.None? <==> forall k :: 0 <= k < |arrows| ==> arrows[k].id != id
    ensures r.Some? ==> exists k :: 0 <= k < |arrows| && arrows[k] == r.value && r.value.id == id
                          && forall k' :: 0 <= k' < k ==> arrows[k'].id != id
  {
    if |arrows| == 0 then None
    else if arrows[0].id == id then
      assert arrows[0] == arrows[0];
      Some(arrows[0])
    else
      var r := FindById(arrows[1..], id);
      if r.Some? then
        var k :| 0 <= k < |arrows[1..]| && arrows[1..][k] == r.value && r.value.id == id
                 && forall k' :: 0 <= k' < k ==> arrows[1..][k'].id != id;
        assert arrows[k + 1] == r.value;
        assert forall k' :: 0 <= k' < k + 1 ==> arrows[k'].id != id by {
          forall k' | 0 <= k' < k + 1 ensures arrows[k'].id != id {
            if k' > 0 {
              assert arrows[k'] == arrows[1..][k' - 1];
            }
          }
        }
        r
      else
        assert forall k :: 1 <= k < |arrows| ==> arrows[k] == arrows[1..][k - 1];
        r
  }

  /** Some cell of `cells` on the board holds an id other than 0 and `own`. */
  function AnyForeign(cells: seq<Cell>, g: Grid, cfg: GridConfig, own: int): (hit: bool)
    requires g.Valid()
    ensures hit <==> exists i :: 0 <= i < |cells| && InBounds(cells[i], cfg.rows, cfg.cols)
                       && GetValue(g, cells[i].row, cells[i].col) != 0
                       && GetValue(g, cells[i].row, cells[i].col) != own
  {
    if |cells| == 0 then false
    else
      var v := GetValue(g, cells[0].row, cells[0].col);
      if InBounds(cells[0], cfg.rows, cfg.cols) && v != 0 && v != own then true
      else
        var rest := AnyForeign(cells[1..], g, cfg, own);
        assert forall i :: 1 <= i < |cells| ==> cells[i] == cells[1..][i - 1];
        rest
  }

  /** A board cell holding neither 0 nor the arrow's own id. */
  predicate Foreign(g: Grid, cfg: GridConfig, own: int, c: Cell)
    requires g.Valid()
  {
    InBounds(c, cfg.rows, cfg.cols) && GetValue(g, c.row, c.col) != 0 && GetValue(g, c.row, c.col) != own
  }

  /** The rectangle of arrow `a` standing at pixel `p` overlaps a foreign cell. */
  ghost predicate CollidesAt(a: ArrowData, p: Pixel, g: Grid, cfg: GridConfig)
    requires g.Valid()
  {
    exists c :: OverlapsCell(p.x, p.y, a.direction, cfg.Frame(), c) && Foreign(g, cfg, a.id, c)
  }

  /** The scan over the overlapped cells finds a foreign cell exactly when
      one of the cells the rectangle at `p` overlaps is foreign. */
  lemma ScanFindsForeign(a: ArrowData, p: Pixel, g: Grid, cfg: GridConfig)
    requires g.Valid()
    ensures AnyForeign(CellsAt(a, p, cfg), g, cfg, a.id) <==> CollidesAt(a, p, g, cfg)
  {
    var cells := CellsAt(a, p, cfg);
    if AnyForeign(cells, g, cfg, a.id) {
      var i :| 0 <= i < |cells| && InBounds(cells[i], cfg.rows, cfg.cols)
               && GetValue(g, cells[i].row, cells[i].col) != 0
               && GetValue(g, cells[i].row, cells[i].col) != a.id;
      assert cells[i] in cells;
      assert Foreign(g, cfg, a.id, cells[i]);
    }
    if exists c :: OverlapsCell(p.x, p.y, a.direction, cfg.Frame(), c) && Foreign(g, cfg, a.id, c) {
      var c :| OverlapsCell(p.x, p.y, a.direction, cfg.Frame(), c) && Foreign(g, cfg, a.id, c);
      assert c in cells;
      var i :| 0 <= i < |cells| && cells[i] == c;
    }
  }

  /** checkArrowCollision: false for an unknown id; otherwise the arrow is
      placed at `current` when given and at its stored pixel otherwise, and
      the answer is whether any board cell it overlaps holds another id. */
  function CheckArrowCollision(arrowId: int, arrows: seq<ArrowData>, g: Grid, cfg: GridConfig, current: Option<Pixel>)
    : (hit: bool)
    requires g.Valid()
    ensures (forall k :: 0 <= k < |arrows| ==> arrows[k].id != arrowId) ==> !hit
    ensures FindById(arrows, arrowId).Some? ==>
      var a := FindById(arrows, arrowId).value;
      var p := if current.Some? then current.value else a.pixel;
      (hit <==> CollidesAt(a, p, g, cfg))
  {
    var found := FindById(arrows, arrowId);
    if found.None? then false
    else
      var a := found.value;
      var p := if current.Some? then current.value else a.pixel;
      ScanFindsForeign(a, p, g, cfg);
      AnyForeign(CellsAt(a, p, cfg), g, cfg, a.id)
  }

  /** createEmptyGrid: a rows x cols grid of zeros, or None for the
      RangeError a negative size throws. */
  function CreateEmptyGrid(rows: int, cols: int): (g: Option<seq<seq<int>>>)
    ensures g.None? <==> rows < 0 || (rows > 0 && cols < 0)
    ensures g.Some? ==> |g.value| == rows
    ensures g.Some? ==> forall r :: 0 <= r < rows ==> |g.value[r]| == cols && forall c :: 0 <= c < cols ==> g.value[r][c] == 0
  {
    FillGrid(rows, cols, 0)
  }
}
