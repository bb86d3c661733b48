/** Footprint geometry of a sliding arrow (src/lib/utils/arrow.ts together
    with the shapes of src/lib/types/game.ts).

    An arrow is a two-cell piece anchored at its top-left cell: a vertical
    arrow (up/down) covers the anchor and the cell below it, a horizontal
    arrow (left/right) covers the anchor and the cell to its right. Pixel
    positions are integers; a pixel frame is the cell size, the board offset
    and the gap between cells. */
module Geometry {
  import opened Common

  datatype Direction = Up | Down | Left | Right

  datatype Cell = Cell(row: int, col: int)

  datatype Pixel = Pixel(x: int, y: int)

  /** A runtime arrow: its id, slide direction, top-left pixel and whether
      it is currently animating. */
  datatype ArrowData = ArrowData(id: int, direction: Direction, pixel: Pixel, isMoving: bool)

  /** Cell size, board offset and inter-cell gap used by the pixel
      conversions (`gridSize`, `offsetX`, `offsetY`, `gap`). */
  datatype PixelFrame = PixelFrame(gridSize: int, offsetX: int, offsetY: int, gap: int)
  {
    /** Distance in pixels between the origins of two neighbouring cells. */
    function Pitch(): int { gridSize + gap }
  }

  predicate IsVertical(d: Direction)
  {
    d == Up || d == Down
  }

  function Opposite(d: Direction): Direction
  {
    match d
    case Up => Down
    case Down => Up
    case Left => Right
    case Right => Left
  }

  /** The cell an arrow covers besides its anchor. */
  function SecondCell(anchor: Cell, d: Direction): Cell
  {
    if IsVertical(d) then Cell(anchor.row + 1, anchor.col) else Cell(anchor.row, anchor.col + 1)
  }

  /** getArrowOccupiedPositions: the anchor, then the second cell. */
  function Footprint(anchor: Cell, d: Direction): seq<Cell>
  {
    [anchor, SecondCell(anchor, d)]
  }

  predicate Covers(anchor: Cell, d: Direction, c: Cell)
  {
    c == anchor || c == SecondCell(anchor, d)
  }

  /** The footprint is a 2x1 (horizontal) or 1x2 (vertical) domino whose
      first cell is its top-left corner. */
  lemma FootprintShape(anchor: Cell, d: Direction)
    ensures |Footprint(anchor, d)| == 2
    ensures Footprint(anchor, d)[0] == anchor
    ensures Footprint(anchor, d)[0] != Footprint(anchor, d)[1]
    ensures forall c :: c in Footprint(anchor, d) <==> Covers(anchor, d, c)
    ensures forall c :: c in Footprint(anchor, d) <==>
      if IsVertical(d) then c.col == anchor.col && anchor.row <= c.row <= anchor.row + 1
      else c.row == anchor.row && anchor.col <= c.col <= anchor.col + 1
  {
  }

  /** getNextPosition: one cell in the arrow's direction. */
  function NextPosition(c: Cell, d: Direction): Cell
  {
    match d
    case Up => Cell(c.row - 1, c.col)
    case Down => Cell(c.row + 1, c.col)
    case Left => Cell(c.row, c.col - 1)
    case Right => Cell(c.row, c.col + 1)
  }

  /** `k` successive steps in direction `d`. */
  function Advance(c: Cell, d: Direction, k: nat): (r: Cell)
  {
    if k == 0 then c else NextPosition(Advance(c, d, k - 1), d)
  }

  /** One step moves exactly one cell along the arrow's own axis, in the
      sense its direction names; stepping back undoes it. */
  lemma NextPositionIsUnitStep(c: Cell, d: Direction)
    ensures var n := NextPosition(c, d);
      if IsVertical(d) then n.col == c.col && (n.row - c.row == if d == Down then 1 else -1)
      else n.row == c.row && (n.col - c.col == if d == Right then 1 else -1)
    ensures NextPosition(NextPosition(c, d), Opposite(d)) == c
  {
  }

  /** After `k` steps the arrow has moved exactly `k` cells along its axis. */
  lemma {:induction false} AdvanceOffset(c: Cell, d: Direction, k: nat)
    ensures Advance(c, d, k) == match d
      case Up => Cell(c.row - k, c.col)
      case Down => Cell(c.row + k, c.col)
      case Left => Cell(c.row, c.col - k)
      case Right => Cell(c.row, c.col + k)
  {
    if k > 0 {
      AdvanceOffset(c, d, k - 1);
    }
  }

  /** isPositionInBounds */
  predicate InBounds(c: Cell, rows: int, cols: int)
  {
    0 <= c.row < rows && 0 <= c.col < cols
  }

  /** gridToPixel: top-left pixel of a cell. */
  function GridToPixel(c: Cell, f: PixelFrame): Pixel
  {
    Pixel(c.col * f.Pitch() + f.offsetX, c.row * f.Pitch() + f.offsetY)
  }

  /** pixelToGrid: the nearest cell origin, halves rounded up. */
  function PixelToGrid(p: Pixel, f: PixelFrame): (c: Cell)
    requires f.Pitch() != 0
    ensures f.Pitch() > 0 ==>
      2 * c.row * f.Pitch() - f.Pitch() <= 2 * (p.y - f.offsetY) < 2 * c.row * f.Pitch() + f.Pitch()
    ensures f.Pitch() > 0 ==>
      2 * c.col * f.Pitch() - f.Pitch() <= 2 * (p.x - f.offsetX) < 2 * c.col * f.Pitch() + f.Pitch()
  {
    Cell(RoundDiv(p.y - f.offsetY, f.Pitch()), RoundDiv(p.x - f.offsetX, f.Pitch()))
  }

  /** Converting a cell to pixels and back yields the same cell. */
  lemma PixelRoundTrip(c: Cell, f: PixelFrame)
    requires f.Pitch() != 0
    ensures PixelToGrid(GridToPixel(c, f), f) == c
  {
    var p := GridToPixel(c, f);
    assert p.y - f.offsetY == c.row * f.Pitch();
    assert p.x - f.offsetX == c.col * f.Pitch();
    RoundDivExact(c.row, f.Pitch());
    RoundDivExact(c.col, f.Pitch());
  }

  /** adjustToValidGridPosition: snaps a pixel position to the nearest cell
      origin. The direction argument of the source does not influence the
      result. For a positive pitch the snapped point lies within half a
      pitch of the input on each axis (halves moving up), so no other cell
      origin is nearer. */
  function AdjustToValidGridPosition(p: Pixel, d: Direction, f: PixelFrame): (q: Pixel)
    requires f.Pitch() != 0
    ensures q == GridToPixel(PixelToGrid(q, f), f)
    ensures f.Pitch() > 0 ==>
      -f.Pitch() <= 2 * (p.x - q.x) < f.Pitch() && -f.Pitch() <= 2 * (p.y - q.y) < f.Pitch()
  {
    var q := GridToPixel(PixelToGrid(p, f), f);
    PixelRoundTrip(PixelToGrid(p, f), f);
    q
  }

  /** Snapping is idempotent and fixes every cell origin. */
  lemma AdjustIdempotent(p: Pixel, d: Direction, f: PixelFrame, c: Cell)
    requires f.Pitch() != 0
    ensures AdjustToValidGridPosition(AdjustToValidGridPosition(p, d, f), d, f)
         == AdjustToValidGridPosition(p, d, f)
    ensures AdjustToValidGridPosition(GridToPixel(c, f), d, f) == GridToPixel(c, f)
  {
    PixelRoundTrip(c, f);
  }

  /** The pixel rectangle of an arrow whose top-left corner is (px, py)
      intersects the interior of cell `c` (touching edges do not count). */
  predicate OverlapsCell(px: int, py: int, d: Direction, f: PixelFrame, c: Cell)
  {
    var width := if IsVertical(d) then f.gridSize else f.gridSize * 2 + f.gap;
    var height := if IsVertical(d) then f.gridSize * 2 + f.gap else f.gridSize;
    var cellLeft := c.col * f.Pitch() + f.offsetX;
    var cellTop := c.row * f.Pitch() + f.offsetY;
    !(px + width <= cellLeft || px >= cellLeft + f.gridSize
      || py + height <= cellTop || py >= cellTop + f.gridSize)
  }

  /** Row-major scan of rows [row, maxRows) starting at column `col` of
      the first one, keeping the overlapped cells. */
  function ScanOverlaps(px: int, py: int, d: Direction, f: PixelFrame,
                        maxRows: int, maxCols: int, row: int, col: int): (cells: seq<Cell>)
    requires 0 <= row && 0 <= col
    ensures forall c :: c in cells <==>
      (row < c.row < maxRows && 0 <= c.col < maxCols && OverlapsCell(px, py, d, f, c))
      || (c.row == row < maxRows && col <= c.col < maxCols && OverlapsCell(px, py, d, f, c))
    decreases maxRows - row, maxCols - col
  {
    if row >= maxRows then []
    else if col >= maxCols then ScanOverlaps(px, py, d, f, maxRows, maxCols, row + 1, 0)
    else
      var here := Cell(row, col);
      (if OverlapsCell(px, py, d, f, here) then [here] else [])
        + ScanOverlaps(px, py, d, f, maxRows, maxCols, row, col + 1)
  }

  /** getArrowOccupiedCellsByPixel: every board cell of the `maxRows` x
      `maxCols` board whose interior the arrow's pixel rectangle meets. */
  function OccupiedCellsByPixel(px: int, py: int, d: Direction, f: PixelFrame,
                                maxRows: int, maxCols: int): (cells: seq<Cell>)
    ensures forall c :: c in cells <==> InBounds(c, maxRows, maxCols) && OverlapsCell(px, py, d, f, c)
  {
    ScanOverlaps(px, py, d, f, maxRows, maxCols, 0, 0)
  }

  lemma MulSign(k: int, u: int)
    requires u > 0
    ensures k >= 1 ==> k * u >= u
    ensures k >= 2 ==> k * u >= 2 * u
    ensures k <= 0 ==> k * u <= 0
    ensures k <= 1 ==> k * u <= u
  {
    if k >= 1 { MulStrictMono(0, k, u); assert (k - 1) * u >= 0 by { if k > 1 { MulStrictMono(0, k - 1, u); } } }
    if k >= 2 { assert (k - 2) * u >= 0 by { if k > 2 { MulStrictMono(0, k - 2, u); } } }
    if k <= 0 { assert (-k) * u >= 0 by { if k < 0 { MulStrictMono(0, -k, u); } } }
    if k <= 1 { assert (1 - k) * u >= 0 by { if k < 1 { MulStrictMono(0, 1 - k, u); } } }
  }

  /** For 0 < t <= u: k*u reaches t exactly when k >= 1, and reaches u + t
      exactly when k >= 2. */
  lemma MulThresholds(k: int, u: int, t: int)
    requires 0 < t <= u
    ensures k * u >= t <==> k >= 1
    ensures k * u >= u + t <==> k >= 2
  {
    MulSign(k, u);
  }

  /** With a positive cell size and a non-negative gap, an arrow drawn at the
      pixel origin of cell `a` overlaps exactly the two cells of its
      footprint. */
  lemma OverlapAtCellOrigin(a: Cell, d: Direction, f: PixelFrame, c: Cell)
    requires f.gridSize > 0 && f.gap >= 0
    ensures OverlapsCell(GridToPixel(a, f).x, GridToPixel(a, f).y, d, f, c) <==> c in Footprint(a, d)
  {
    var u := f.Pitch();
    var s := f.gridSize;
    var dc := c.col - a.col;
    var dr := c.row - a.row;
    OriginDifference(c.col, a.col, u, f.offsetX);
    OriginDifference(c.row, a.row, u, f.offsetY);
    OffsetOverlap(dc, dr, u, s, IsVertical(d));
    FootprintShape(a, d);
  }

  /** The pixel distance between two cell origins is the cell distance
      times the pitch, in both directions. */
  lemma OriginDifference(x: int, y: int, u: int, o: int)
    ensures (x * u + o) - (y * u + o) == (x - y) * u
    ensures (y * u + o) - (x * u + o) == (-(x - y)) * u
  {
  }

  /** An arrow rectangle offset by (dc, dr) pitches from a cell, with cell
      size `s` and pitch `u`, overlaps it exactly at the footprint offsets. */
  lemma OffsetOverlap(dc: int, dr: int, u: int, s: int, vertical: bool)
    requires 0 < s <= u
    ensures vertical ==>
      (!(dc * u >= s || (-dc) * u >= s || dr * u >= u + s || (-dr) * u >= s) <==> dc == 0 && 0 <= dr <= 1)
    ensures !vertical ==>
      (!(dc * u >= u + s || (-dc) * u >= s || dr * u >= s || (-dr) * u >= s) <==> dr == 0 && 0 <= dc <= 1)
  {
    MulThresholds(dc, u, s);
    MulThresholds(-dc, u, s);
    MulThresholds(dr, u, s);
    MulThresholds(-dr, u, s);
  }

  /** Placed at the origin of cell `a`, the pixel scan reports exactly the
      in-bounds cells of the arrow's footprint. */
  lemma OccupiedCellsOfPlacedArrow(a: Cell, d: Direction, f: PixelFrame, maxRows: int, maxCols: int)
    requires f.gridSize > 0 && f.gap >= 0
    ensures var p := GridToPixel(a, f);
      forall c :: c in OccupiedCellsByPixel(p.x, p.y, d, f, maxRows, maxCols)
        <==> c in Footprint(a, d) && InBounds(c, maxRows, maxCols)
  {
    forall c {
      OverlapAtCellOrigin(a, d, f, c);
    }
  }

  /** The four directions in declaration order, as both
      `getRandomDirection` and `Object.values(ArrowDirection)` list them. */
  const AllDirections: seq<Direction> := [Up, Down, Left, Right]

  /** getRandomDirection: the direction at index floor(u * 4). */
  function RandomDirection(u: real): Direction
    requires 0.0 <= u < 1.0
  {
    AllDirections[RandomBelow(u, 4)]
  }

  /** Each direction is drawn for a quarter of the unit interval, in
      declaration order. */
  lemma DirectionDraw(u: real, i: nat)
    requires i < 4 && (i as real) / 4.0 <= u < ((i + 1) as real) / 4.0
    ensures RandomDirection(u) == AllDirections[i]
  {
    var p := u * (4 as real);
    assert (i as real) <= p < (i + 1) as real;
    FloorWithin(p, i, i + 1);
  }

  /** canPlaceArrow: both footprint cells lie on the board and the caller's
      emptiness test accepts them (checked in footprint order). */
  function CanPlaceArrow(anchor: Cell, d: Direction, isFree: (int, int) -> bool, rows: int, cols: int): (ok: bool)
    ensures ok <==> InBounds(anchor, rows, cols) && isFree(anchor.row, anchor.col)
                    && InBounds(SecondCell(anchor, d), rows, cols)
                    && isFree(SecondCell(anchor, d).row, SecondCell(anchor, d).col)
  {
    var cells := Footprint(anchor, d);
    assert cells[0] == anchor && cells[1] == SecondCell(anchor, d);
    AllPlaceable(cells, isFree, rows, cols)
  }

  function AllPlaceable(cells: seq<Cell>, isFree: (int, int) -> bool, rows: int, cols: int): (ok: bool)
    ensures ok <==> forall i :: 0 <= i < |cells| ==>
      InBounds(cells[i], rows, cols) && isFree(cells[i].row, cells[i].col)
  {
    if |cells| == 0 then true
    else if !InBounds(cells[0], rows, cols) || !isFree(cells[0].row, cells[0].col) then false
    else AllPlaceable(cells[1..], isFree, rows, cols)
  }
}
