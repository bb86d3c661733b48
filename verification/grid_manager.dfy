/** The occupancy grid of src/lib/managers/GridManager.ts: a rows x cols
    table of integers where 0 is an empty cell and any other value is the id
    of the arrow standing there. Queries outside the board answer "not
    empty" and the value -1; writes outside the board are ignored.

    The class's mutable `grid` field is modelled as an immutable value; each
    mutator returns the updated grid. */
module GridManager {
  import opened Common
  import opened Geometry

  datatype Grid = Grid(rows: nat, cols: nat, cells: seq<seq<int>>)
  {
    predicate Valid()
    {
      |cells| == rows && forall r :: 0 <= r < rows ==> |cells[r]| == cols
    }
  }

  /** The value stored out of bounds is reported as this sentinel. */
  const OutOfBounds: int := -1

  /** `new GridManager(rows, cols)` and `createEmptyGrid`: an all-empty
      grid, or None for the RangeError the constructor throws on a negative
      size. The constructor's defaults of 6 x 6 are `NewGrid(6, 6)`.

      The class reads its column count only in bounds tests, and with no
      rows every bounds test fails, so a grid of zero rows and a negative
      column count answers every query as the 0 x 0 grid does; it is
      represented by that grid. */
  function NewGrid(rows: int, cols: int): (g: Option<Grid>)
    ensures g.None? <==> rows < 0 || (rows > 0 && cols < 0)
    ensures g.Some? ==> g.value.Valid() && g.value.rows == rows && g.value.cols == Max(cols, 0)
    ensures g.Some? ==> forall r, c :: GetValue(g.value, r, c) == if InBounds(Cell(r, c), rows, cols) then 0 else OutOfBounds
    ensures g.Some? ==> forall r, c :: IsEmpty(g.value, r, c) <==> InBounds(Cell(r, c), rows, cols)
  {
    if rows < 0 || (rows > 0 && cols < 0) then None
    else Some(Grid(rows, Max(cols, 0), FillGrid(rows, Max(cols, 0), 0).value))
  }

  /** getValue */
  function GetValue(g: Grid, row: int, col: int): int
    requires g.Valid()
  {
    if row < 0 || row >= g.rows || col < 0 || col >= g.cols then OutOfBounds
    else g.cells[row][col]
  }

  /** isEmpty */
  function IsEmpty(g: Grid, row: int, col: int): bool
    requires g.Valid()
  {
    if row < 0 || row >= g.rows || col < 0 || col >= g.cols then false
    else g.cells[row][col] == 0
  }

  /** A cell is empty exactly when its value reads 0: the out-of-bounds
      sentinel -1 is never mistaken for an empty cell. */
  lemma EmptyIffZero(g: Grid, row: int, col: int)
    requires g.Valid()
    ensures IsEmpty(g, row, col) <==> GetValue(g, row, col) == 0
    ensures !InBounds(Cell(row, col), g.rows, g.cols) ==>
      !IsEmpty(g, row, col) && GetValue(g, row, col) == -1
  {
  }

  /** setPosition: writes in bounds, ignores the write otherwise. */
  function SetPosition(g: Grid, row: int, col: int, value: int): (h: Grid)
    requires g.Valid()
    ensures h.Valid() && h.rows == g.rows && h.cols == g.cols
    ensures forall r, c :: GetValue(h, r, c) ==
             if r == row && c == col && InBounds(Cell(r, c), g.rows, g.cols) then value else GetValue(g, r, c)
  {
    if 0 <= row < g.rows && 0 <= col < g.cols then
      g.(cells := g.cells[row := g.cells[row][col := value]])
    else g
  }

  /** clearPosition */
  function ClearPosition(g: Grid, row: int, col: int): (h: Grid)
    requires g.Valid()
    ensures h.Valid() && h.rows == g.rows && h.cols == g.cols
    ensures forall r, c :: GetValue(h, r, c) ==
             if r == row && c == col && InBounds(Cell(r, c), g.rows, g.cols) then 0 else GetValue(g, r, c)
  {
    SetPosition(g, row, col, 0)
  }

  /** arePositionsAccessible: every position is empty or already holds
      `arrowId`. */
  function ArePositionsAccessible(g: Grid, ps: seq<Cell>, arrowId: int): (ok: bool)
    requires g.Valid()
    ensures ok <==> forall i :: 0 <= i < |ps| ==>
      GetValue(g, ps[i].row, ps[i].col) == 0 || GetValue(g, ps[i].row, ps[i].col) == arrowId
  {
    if |ps| == 0 then true
    else
      var v := GetValue(g, ps[0].row, ps[0].col);
      (v == 0 || v == arrowId) && ArePositionsAccessible(g, ps[1..], arrowId)
  }

  /** arePositionsEmpty */
  function ArePositionsEmpty(g: Grid, ps: seq<Cell>): (ok: bool)
    requires g.Valid()
    ensures ok <==> forall i :: 0 <= i < |ps| ==>
      InBounds(ps[i], g.rows, g.cols) && GetValue(g, ps[i].row, ps[i].col) == 0
  {
    if |ps| == 0 then true
    else IsEmpty(g, ps[0].row, ps[0].col) && ArePositionsEmpty(g, ps[1..])
  }

  /** Empty positions are accessible to any arrow; accessible positions are
      on the board unless the arrow id coincides with the sentinel -1. */
  lemma {:induction false} EmptyIsAccessible(g: Grid, ps: seq<Cell>, arrowId: int)
    requires g.Valid()
    ensures ArePositionsEmpty(g, ps) ==> ArePositionsAccessible(g, ps, arrowId)
    ensures arrowId != OutOfBounds && ArePositionsAccessible(g, ps, arrowId) ==>
      forall i :: 0 <= i < |ps| ==> InBounds(ps[i], g.rows, g.cols)
  {
  }

  /** occupyPositions: writes `arrowId` on every in-bounds position of `ps`
      (in order); every other cell keeps its value. */
  function OccupyPositions(g: Grid, ps: seq<Cell>, arrowId: int): (h: Grid)
    requires g.Valid()
    ensures h.Valid() && h.rows == g.rows && h.cols == g.cols
    ensures forall r, c :: GetValue(h, r, c) ==
             if Cell(r, c) in ps && InBounds(Cell(r, c), g.rows, g.cols) then arrowId else GetValue(g, r, c)
    decreases |ps|
  {
    if |ps| == 0 then g
    else OccupyPositions(SetPosition(g, ps[0].row, ps[0].col, arrowId), ps[1..], arrowId)
  }

  /** clearPositions */
  function ClearPositions(g: Grid, ps: seq<Cell>): (h: Grid)
    requires g.Valid()
    ensures h.Valid() && h.rows == g.rows && h.cols == g.cols
    ensures forall r, c :: GetValue(h, r, c) ==
             if Cell(r, c) in ps && InBounds(Cell(r, c), g.rows, g.cols) then 0 else GetValue(g, r, c)
  {
    OccupyPositions(g, ps, 0)
  }

  /** clearArrowPositions: a row-major sweep that empties every cell holding
      `arrowId`. */
  method ClearArrowPositions(g: Grid, arrowId: int) returns (h: Grid)
    requires g.Valid()
    ensures h.Valid() && h.rows == g.rows && h.cols == g.cols
    ensures forall r, c :: GetValue(h, r, c) ==
             if InBounds(Cell(r, c), g.rows, g.cols) && GetValue(g, r, c) == arrowId then 0 else GetValue(g, r, c)
  {
    var cells := g.cells;
    var row := 0;
    while row < g.rows
      invariant 0 <= row <= g.rows
      invariant |cells| == g.rows
      invariant forall r :: 0 <= r < g.rows ==> |cells[r]| == g.cols
      invariant forall r, c :: 0 <= r < row && 0 <= c < g.cols ==>
        cells[r][c] == if g.cells[r][c] == arrowId then 0 else g.cells[r][c]
      invariant forall r, c :: row <= r < g.rows && 0 <= c < g.cols ==> cells[r][c] == g.cells[r][c]
    {
      var col := 0;
      while col < g.cols
        invariant 0 <= col <= g.cols
        invariant |cells| == g.rows
        invariant forall r :: 0 <= r < g.rows ==> |cells[r]| == g.cols
        invariant forall r, c :: 0 <= r < row && 0 <= c < g.cols ==>
          cells[r][c] == if g.cells[r][c] == arrowId then 0 else g.cells[r][c]
        invariant forall c :: 0 <= c < col ==>
          cells[row][c] == if g.cells[row][c] == arrowId then 0 else g.cells[row][c]
        invariant forall c :: col <= c < g.cols ==> cells[row][c] == g.cells[row][c]
        invariant forall r, c :: row < r < g.rows && 0 <= c < g.cols ==> cells[r][c] == g.cells[r][c]
      {
        if cells[row][col] == arrowId {
          cells := cells[row := cells[row][col := 0]];
        }
        col := col + 1;
      }
      row := row + 1;
    }
    h := g.(cells := cells);
  }

  /** reset: a fresh all-zero grid of the same dimensions. */
  function Reset(g: Grid): (h: Grid)
    ensures h.Valid() && h.rows == g.rows && h.cols == g.cols
    ensures forall r, c :: GetValue(h, r, c) == if InBounds(Cell(r, c), g.rows, g.cols) then 0 else OutOfBounds
  {
    NewGrid(g.rows, g.cols).value
  }
}
