/** The deadlock analyser of src/lib/utils/validation.ts.

    Arrows are given in grid terms (`ArrowConfig`). Five detectors run in a
    fixed order and the first that fires names the deadlock:
    1. two horizontal arrows in one row, two columns apart, facing each other;
    2. the same for vertical arrows in one column;
    3. two horizontal arrows in one row facing each other whose free
       movement paths share a cell;
    4. the same for vertical arrows in one column;
    5. a directed cycle in the graph "arrow a is directly blocked by arrow b"
       (the cell just beyond a's leading cell belongs to b). */
module Validation {
  import opened Common
  import opened Geometry
  import opened PairScan
  import opened CycleSearch

  datatype ArrowConfig = ArrowConfig(id: int, position: Cell, direction: Direction)

  datatype DeadlockKind =
    | HorizontalAdjacent
    | VerticalAdjacent
    | HorizontalLongDistance
    | VerticalLongDistance
    | TightCyclic
    | NoDeadlock

  /** What a single detector reports. */
  datatype Detection = Detection(hasDeadlock: bool, involved: seq<Ref>)

  /** The analyser's verdict; the human-readable description is a fixed
      text per kind and is not modelled. */
  datatype DeadlockInfo = DeadlockInfo(hasDeadlock: bool, kind: DeadlockKind, involved: seq<Ref>)

  // ---------------------------------------------------------------------
  // Pixel to grid conversion

  /** The cell of one arrow: the `unit`-sized square (relative to the offset)
      containing its pixel, rounding down. */
  function ToConfig(a: ArrowData, unit: int, offsetX: int, offsetY: int): (c: ArrowConfig)
    requires unit != 0
    ensures c.id == a.id && c.direction == a.direction
    ensures unit > 0 ==>
      && c.position.row * unit <= a.pixel.y - offsetY < c.position.row * unit + unit
      && c.position.col * unit <= a.pixel.x - offsetX < c.position.col * unit + unit
  {
    ArrowConfig(a.id, Cell(FloorDiv(a.pixel.y - offsetY, unit), FloorDiv(a.pixel.x - offsetX, unit)), a.direction)
  }

  /** convertArrowDataToConfig: every arrow is placed in the square of side
      `gridSize * scale` containing its pixel. */
  function ConvertArrowDataToConfig(data: seq<ArrowData>, gridSize: int, offsetX: int, offsetY: int, scale: int)
    : (r: seq<ArrowConfig>)
    requires gridSize * scale != 0
    ensures |r| == |data|
    ensures forall i :: 0 <= i < |r| ==> r[i].id == data[i].id && r[i].direction == data[i].direction
    ensures forall i :: 0 <= i < |r| && gridSize * scale > 0 ==>
      && r[i].position.row * (gridSize * scale) <= data[i].pixel.y - offsetY
      && data[i].pixel.y - offsetY < r[i].position.row * (gridSize * scale) + gridSize * scale
      && r[i].position.col * (gridSize * scale) <= data[i].pixel.x - offsetX
      && data[i].pixel.x - offsetX < r[i].position.col * (gridSize * scale) + gridSize * scale
  {
    seq(|data|, i requires 0 <= i < |data| => ToConfig(data[i], gridSize * scale, offsetX, offsetY))
  }

  /** A pixel anywhere inside a cell's square converts back to that cell. */
  lemma ConvertInsideCell(a: ArrowData, cell: Cell, unit: int, offsetX: int, offsetY: int)
    requires unit > 0
    requires cell.col * unit <= a.pixel.x - offsetX < cell.col * unit + unit
    requires cell.row * unit <= a.pixel.y - offsetY < cell.row * unit + unit
    ensures ToConfig(a, unit, offsetX, offsetY).position == cell
  {
    FloorDivUnique(a.pixel.y - offsetY, unit, cell.row);
    FloorDivUnique(a.pixel.x - offsetX, unit, cell.col);
  }

  // ---------------------------------------------------------------------
  // Movement paths

  /** getArrowFrontPosition: the footprint cell furthest along the arrow's
      direction of travel. */
  function Front(a: ArrowConfig): Cell
  {
    match a.direction
    case Down => Cell(a.position.row + 1, a.position.col)
    case Right => Cell(a.position.row, a.position.col + 1)
    case _ => a.position
  }

  /** The front is one of the arrow's own cells and the next cell in its
      direction is not. */
  lemma FrontIsLeadingCell(a: ArrowConfig)
    ensures Front(a) in Footprint(a.position, a.direction)
    ensures NextPosition(Front(a), a.direction) !in Footprint(a.position, a.direction)
  {
  }

  /** isPositionOccupiedByOtherArrows */
  predicate OccupiedByOthers(c: Cell, excludeId: int, all: seq<ArrowConfig>)
  {
    exists i :: 0 <= i < |all| && all[i].id != excludeId && c in Footprint(all[i].position, all[i].direction)
  }

  /** Cells left to the board's edge from `c` in direction `d`. */
  function StepsToEdge(c: Cell, d: Direction, rows: int, cols: int): int
  {
    match d
    case Up => c.row + 1
    case Down => rows - c.row
    case Left => c.col + 1
    case Right => cols - c.col
  }

  lemma AdvanceShift(c: Cell, d: Direction, k: nat)
    ensures Advance(NextPosition(c, d), d, k) == Advance(c, d, k + 1)
  {
    AdvanceOffset(NextPosition(c, d), d, k);
    AdvanceOffset(c, d, k + 1);
  }

  /** The loop of getArrowMovementPath from cell `c`: the cells the arrow
      would sweep before leaving the board or meeting another arrow. */
  function PathFrom(a: ArrowConfig, all: seq<ArrowConfig>, rows: int, cols: int, c: Cell): (r: seq<Cell>)
    decreases StepsToEdge(c, a.direction, rows, cols)
  {
    if !InBounds(c, rows, cols) || OccupiedByOthers(c, a.id, all) then []
    else
      [c] + PathFrom(a, all, rows, cols, NextPosition(c, a.direction))
  }

  /** The path is the maximal run of free in-board cells from `c`: its k-th
      cell is k steps from `c`, every cell is on the board and free of other
      arrows, and the cell after the last one is off the board or taken. */
  lemma {:induction false} PathFromSpec(a: ArrowConfig, all: seq<ArrowConfig>, rows: int, cols: int, c: Cell)
    ensures var r := PathFrom(a, all, rows, cols, c);
      forall k :: 0 <= k < |r| ==>
        && r[k] == Advance(c, a.direction, k)
        && InBounds(r[k], rows, cols)
        && !OccupiedByOthers(r[k], a.id, all)
    ensures var stop := Advance(c, a.direction, |PathFrom(a, all, rows, cols, c)|);
      !InBounds(stop, rows, cols) || OccupiedByOthers(stop, a.id, all)
    decreases StepsToEdge(c, a.direction, rows, cols)
  {
    var r := PathFrom(a, all, rows, cols, c);
    if InBounds(c, rows, cols) && !OccupiedByOthers(c, a.id, all) {
      var n := NextPosition(c, a.direction);
      var rest := PathFrom(a, all, rows, cols, n);
      PathFromSpec(a, all, rows, cols, n);
      assert r == [c] + rest;
      forall k | 0 <= k < |r|
        ensures r[k] == Advance(c, a.direction, k)
        ensures InBounds(r[k], rows, cols) && !OccupiedByOthers(r[k], a.id, all)
      {
        if k > 0 {
          assert r[k] == rest[k - 1];
          AdvanceShift(c, a.direction, k - 1);
        }
      }
      AdvanceShift(c, a.direction, |rest|);
    }
  }

  /** getArrowMovementPath */
  function MovementPath(a: ArrowConfig, all: seq<ArrowConfig>, rows: int, cols: int): seq<Cell>
  {
    PathFrom(a, all, rows, cols, Front(a))
  }

  /** pathsIntersect */
  function PathsIntersect(p1: seq<Cell>, p2: seq<Cell>): (r: bool)
    ensures r <==> exists c :: c in p1 && c in p2
  {
    if |p1| == 0 then false
    else
      assert forall c :: c in p1 <==> c == p1[0] || c in p1[1..];
      p1[0] in p2 || PathsIntersect(p1[1..], p2)
  }

  // ---------------------------------------------------------------------
  // The four pair rules

  predicate IsHorizontalArrow(a: ArrowConfig)
  {
    a.direction == Left || a.direction == Right
  }

  predicate IsVerticalArrow(a: ArrowConfig)
  {
    a.direction == Up || a.direction == Down
  }

  /** Two horizontal arrows pointing at each other (in either order). */
  predicate FacingInRow(a1: ArrowConfig, a2: ArrowConfig)
  {
    || (a1.direction == Right && a2.direction == Left && a1.position.col < a2.position.col)
    || (a1.direction == Left && a2.direction == Right && a1.position.col > a2.position.col)
  }

  /** Two vertical arrows pointing at each other (in either order). */
  predicate FacingInColumn(a1: ArrowConfig, a2: ArrowConfig)
  {
    || (a1.direction == Down && a2.direction == Up && a1.position.row < a2.position.row)
    || (a1.direction == Up && a2.direction == Down && a1.position.row > a2.position.row)
  }

  function Abs(x: int): int { if x < 0 then -x else x }

  predicate AdjacentInRow(a1: ArrowConfig, a2: ArrowConfig)
  {
    a1.position.row == a2.position.row && Abs(a1.position.col - a2.position.col) == 2 && FacingInRow(a1, a2)
  }

  predicate AdjacentInColumn(a1: ArrowConfig, a2: ArrowConfig)
  {
    a1.position.col == a2.position.col && Abs(a1.position.row - a2.position.row) == 2 && FacingInColumn(a1, a2)
  }

  predicate LongInRow(all: seq<ArrowConfig>, rows: int, cols: int, a1: ArrowConfig, a2: ArrowConfig)
  {
    && a1.position.row == a2.position.row
    && FacingInRow(a1, a2)
    && PathsIntersect(MovementPath(a1, all, rows, cols), MovementPath(a2, all, rows, cols))
  }

  predicate LongInColumn(all: seq<ArrowConfig>, rows: int, cols: int, a1: ArrowConfig, a2: ArrowConfig)
  {
    && a1.position.col == a2.position.col
    && FacingInColumn(a1, a2)
    && PathsIntersect(MovementPath(a1, all, rows, cols), MovementPath(a2, all, rows, cols))
  }

  /** The shared shape of the four pair detectors: filter the arrows by axis,
      scan the unordered pairs in order and report the first pair the rule
      accepts. For the rules used here, which are symmetric and never relate
      an arrow to itself, this fires exactly when two arrows of the whole
      list satisfy the rule. */
  function DetectFirstPair(arrows: seq<ArrowConfig>, keep: ArrowConfig -> bool,
                           rule: (ArrowConfig, ArrowConfig) -> bool): (r: Detection)
    requires SymmetricWithin(keep, rule)
    ensures r.hasDeadlock <==> exists a, b :: a in arrows && b in arrows && rule(a, b)
    ensures r.hasDeadlock ==> exists i, j :: 0 <= i < j < |Filter(arrows, keep)|
                               && rule(Filter(arrows, keep)[i], Filter(arrows, keep)[j])
                               && r.involved == [Id(Filter(arrows, keep)[i].id), Id(Filter(arrows, keep)[j].id)]
                               && forall i', j' :: 0 <= i' < j' < |Filter(arrows, keep)| && Before((i', j'), (i, j)) ==>
                               !rule(Filter(arrows, keep)[i'], Filter(arrows, keep)[j'])
    ensures r.hasDeadlock ==> exists a, b :: a in arrows && b in arrows && rule(a, b)
                               && r.involved == [Id(a.id), Id(b.id)]
    ensures !r.hasDeadlock ==> r.involved == []
  {
    var kept := Filter(arrows, keep);
    FirstPairOfFilter(arrows, keep, rule);
    match FirstPair(kept, rule)
    case None => Detection(false, [])
    case Some(p) =>
      assert kept[p.0] in kept && kept[p.1] in kept;
      Detection(true, [Id(kept[p.0].id), Id(kept[p.1].id)])
  }

  /** Both adjacency rules are symmetric, irreflexive and hold only between
      arrows of their axis. */
  lemma AdjacentRulesSymmetric()
    ensures SymmetricWithin(IsHorizontalArrow, AdjacentInRow)
    ensures SymmetricWithin(IsVerticalArrow, AdjacentInColumn)
  {
  }

  lemma FacingSymmetric(a: ArrowConfig, b: ArrowConfig)
    ensures FacingInRow(a, b) <==> FacingInRow(b, a)
    ensures FacingInColumn(a, b) <==> FacingInColumn(b, a)
    ensures !FacingInRow(a, a) && !FacingInColumn(a, a)
  {
  }

  // The four pair patterns over a whole layout.

  ghost predicate HasAdjacentInRow(arrows: seq<ArrowConfig>)
  {
    exists a, b :: a in arrows && b in arrows && AdjacentInRow(a, b)
  }

  ghost predicate HasAdjacentInColumn(arrows: seq<ArrowConfig>)
  {
    exists a, b :: a in arrows && b in arrows && AdjacentInColumn(a, b)
  }

  ghost predicate HasLongInRow(arrows: seq<ArrowConfig>, rows: int, cols: int)
  {
    exists a, b :: a in arrows && b in arrows && LongInRow(arrows, rows, cols, a, b)
  }

  ghost predicate HasLongInColumn(arrows: seq<ArrowConfig>, rows: int, cols: int)
  {
    exists a, b :: a in arrows && b in arrows && LongInColumn(arrows, rows, cols, a, b)
  }

  /** detectHorizontalAdjacentDeadlock */
  function DetectHorizontalAdjacent(arrows: seq<ArrowConfig>): (r: Detection)
    ensures r.hasDeadlock <==> HasAdjacentInRow(arrows)
    ensures !r.hasDeadlock ==> r.involved == []
    ensures r.hasDeadlock ==> exists a, b :: a in arrows && b in arrows && AdjacentInRow(a, b)
                               && r.involved == [Id(a.id), Id(b.id)]
  {
    AdjacentRulesSymmetric();
    DetectFirstPair(arrows, IsHorizontalArrow, AdjacentInRow)
  }

  /** detectVerticalAdjacentDeadlock */
  function DetectVerticalAdjacent(arrows: seq<ArrowConfig>): (r: Detection)
    ensures r.hasDeadlock <==> HasAdjacentInColumn(arrows)
    ensures !r.hasDeadlock ==> r.involved == []
    ensures r.hasDeadlock ==> exists a, b :: a in arrows && b in arrows && AdjacentInColumn(a, b)
                               && r.involved == [Id(a.id), Id(b.id)]
  {
    AdjacentRulesSymmetric();
    DetectFirstPair(arrows, IsVerticalArrow, AdjacentInColumn)
  }

  /** detectLongDistanceHorizontalDeadlock */
  function DetectHorizontalLong(arrows: seq<ArrowConfig>, rows: int, cols: int): (r: Detection)
    ensures r.hasDeadlock <==> HasLongInRow(arrows, rows, cols)
    ensures !r.hasDeadlock ==> r.involved == []
    ensures r.hasDeadlock ==> exists a, b :: a in arrows && b in arrows && LongInRow(arrows, rows, cols, a, b)
                               && r.involved == [Id(a.id), Id(b.id)]
  {
    DetectFirstPair(arrows, IsHorizontalArrow, (a1, a2) => LongInRow(arrows, rows, cols, a1, a2))
  }

  /** detectLongDistanceVerticalDeadlock */
  function DetectVerticalLong(arrows: seq<ArrowConfig>, rows: int, cols: int): (r: Detection)
    ensures r.hasDeadlock <==> HasLongInColumn(arrows, rows, cols)
    ensures !r.hasDeadlock ==> r.involved == []
    ensures r.hasDeadlock ==> exists a, b :: a in arrows && b in arrows && LongInColumn(arrows, rows, cols, a, b)
                               && r.involved == [Id(a.id), Id(b.id)]
  {
    DetectFirstPair(arrows, IsVerticalArrow, (a1, a2) => LongInColumn(arrows, rows, cols, a1, a2))
  }

  // ---------------------------------------------------------------------
  // The blocking graph

  /** The cell directly ahead of the arrow's front. */
  function Beyond(a: ArrowConfig): Cell
  {
    NextPosition(Front(a), a.direction)
  }

  /** The ids of the arrows (other than `a`'s id) covering the cell just
      ahead of `a`, in list order. */
  function Blockers(a: ArrowConfig, others: seq<ArrowConfig>): (r: seq<int>)
    ensures |r| <= |others|
    ensures forall x :: x in r <==> exists b :: b in others && b.id == x && x != a.id
                                               && Beyond(a) in Footprint(b.position, b.direction)
  {
    if |others| == 0 then []
    else
      var b := others[0];
      var rest := Blockers(a, others[1..]);
      assert forall x :: x in others <==> x == b || x in others[1..];
      if b.id != a.id && Beyond(a) in Footprint(b.position, b.direction) then [b.id] + rest else rest
  }

  /** Index of the last of the first `n` arrows carrying `id`, or -1. */
  function LastIndex(all: seq<ArrowConfig>, n: nat, id: int): (i: int)
    requires n <= |all|
    ensures -1 <= i < n
    ensures i >= 0 ==> all[i].id == id && forall j :: i < j < n ==> all[j].id != id
    ensures i == -1 ==> forall j :: 0 <= j < n ==> all[j].id != id
  {
    if n == 0 then -1
    else if all[n - 1].id == id then n - 1
    else LastIndex(all, n - 1, id)
  }

  /** Every id of the first `n` arrows is a key, in order of first
      appearance, and each key's successor list is the blocker list of the
      last arrow carrying that id. */
  ghost predicate BuiltFrom(all: seq<ArrowConfig>, n: nat, g: Graph, keys: seq<int>)
    requires n <= |all|
  {
    && (forall id :: id in g <==> LastIndex(all, n, id) >= 0)
    && (forall id :: id in keys <==> id in g)
    && (forall p, q :: 0 <= p < q < |keys| ==> keys[p] != keys[q])
    && (forall id :: id in g ==> g[id] == Blockers(all[LastIndex(all, n, id)], all))
  }

  /** One forEach step: arrow `n - 1` sets its id's entry, and a new id is
      appended to the key order. */
  function AddArrow(all: seq<ArrowConfig>, n: nat, prev: (Graph, seq<int>)): (Graph, seq<int>)
    requires 0 < n <= |all|
  {
    var a := all[n - 1];
    (prev.0[a.id := Blockers(a, all)], if a.id in prev.0 then prev.1 else prev.1 + [a.id])
  }

  lemma BuildStep(all: seq<ArrowConfig>, n: nat, prev: (Graph, seq<int>))
    requires 0 < n <= |all| && BuiltFrom(all, n - 1, prev.0, prev.1)
    ensures BuiltFrom(all, n, AddArrow(all, n, prev).0, AddArrow(all, n, prev).1)
  {
    assert forall id :: id != all[n - 1].id ==> LastIndex(all, n, id) == LastIndex(all, n - 1, id);
  }

  /** buildAdjacentBlockGraph over the first `n` arrows: a map from arrow id
      to blocker ids together with its key order. A later arrow with an id
      already present overwrites the entry but keeps the key's place. */
  function BuildPrefix(all: seq<ArrowConfig>, n: nat): (r: (Graph, seq<int>))
    requires n <= |all|
    ensures BuiltFrom(all, n, r.0, r.1)
  {
    if n == 0 then (map[], [])
    else
      var prev := BuildPrefix(all, n - 1);
      BuildStep(all, n, prev);
      AddArrow(all, n, prev)
  }

  /** buildAdjacentBlockGraph: the key order is the order in which ids first
      appear; keys are exactly the ids of the arrows. */
  function BuildGraph(arrows: seq<ArrowConfig>): (r: (Graph, seq<int>))
    ensures BuiltFrom(arrows, |arrows|, r.0, r.1)
    ensures forall id :: id in r.1 <==> id in r.0
    ensures forall a :: a in arrows ==> a.id in r.0
  {
    var r := BuildPrefix(arrows, |arrows|);
    assert forall a :: a in arrows ==> a.id in r.0 by {
      forall a | a in arrows ensures a.id in r.0 {
        var i :| 0 <= i < |arrows| && arrows[i] == a;
      }
    }
    r
  }

  /** The blocking graph itself. */
  function BlockGraph(arrows: seq<ArrowConfig>): Graph
  {
    BuildGraph(arrows).0
  }

  predicate DistinctIds(arrows: seq<ArrowConfig>)
  {
    forall i, j :: 0 <= i < j < |arrows| ==> arrows[i].id != arrows[j].id
  }

  /** With distinct ids, the graph has an edge u -> v exactly when arrow v
      covers the cell just ahead of a different arrow u. */
  lemma BlockGraphEdges(arrows: seq<ArrowConfig>, u: int, v: int)
    requires DistinctIds(arrows)
    ensures Edge(BlockGraph(arrows), u, v) <==>
      exists a, b :: a in arrows && b in arrows && a.id == u && b.id == v && u != v
                     && Beyond(a) in Footprint(b.position, b.direction)
  {
    var g := BlockGraph(arrows);
    if Edge(g, u, v) {
      EdgeHasBlocker(arrows, g, u, v);
    }
    if exists a, b :: a in arrows && b in arrows && a.id == u && b.id == v && u != v
                      && Beyond(a) in Footprint(b.position, b.direction) {
      var a, b :| a in arrows && b in arrows && a.id == u && b.id == v && u != v
                  && Beyond(a) in Footprint(b.position, b.direction);
      BlockerGivesEdge(arrows, g, a, b);
    }
  }

  /** An edge of a graph built from `arrows` names an arrow and one of its
      blockers. */
  lemma EdgeHasBlocker(arrows: seq<ArrowConfig>, g: Graph, u: int, v: int)
    requires BuiltFrom(arrows, |arrows|, g, BuildGraph(arrows).1)
    requires Edge(g, u, v)
    ensures exists a, b :: a in arrows && b in arrows && a.id == u && b.id == v && u != v
                           && Beyond(a) in Footprint(b.position, b.direction)
  {
    var i := LastIndex(arrows, |arrows|, u);
    assert arrows[i] in arrows && v in Blockers(arrows[i], arrows);
  }

  /** With distinct ids, every blocker of an arrow is an edge of the graph
      built from `arrows`. */
  lemma BlockerGivesEdge(arrows: seq<ArrowConfig>, g: Graph, a: ArrowConfig, b: ArrowConfig)
    requires DistinctIds(arrows) && BuiltFrom(arrows, |arrows|, g, BuildGraph(arrows).1)
    requires a in arrows && b in arrows && a.id != b.id && Beyond(a) in Footprint(b.position, b.direction)
    ensures Edge(g, a.id, b.id)
  {
    var k :| 0 <= k < |arrows| && arrows[k] == a;
    assert LastIndex(arrows, |arrows|, a.id) == k;
    assert b.id in Blockers(a, arrows);
  }

  /** detectTightCyclicDeadlock */
  function DetectTightCyclic(arrows: seq<ArrowConfig>): (r: Detection)
    ensures r.hasDeadlock <==> HasCycle(BlockGraph(arrows))
    ensures r.hasDeadlock <==> |r.involved| > 0
  {
    var built := BuildGraph(arrows);
    var cyclic := FindCyclicArrows(built.0, built.1);
    FindCyclicArrowsSpec(built.0, built.1);
    Detection(|cyclic| > 0, cyclic)
  }

  // ---------------------------------------------------------------------
  // The analyser

  /** getDetailedDeadlockInfo: the detectors in priority order; the kind
      reported is the first pattern present. */
  function GetDetailedDeadlockInfo(arrows: seq<ArrowConfig>, rows: int, cols: int): (r: DeadlockInfo)
    ensures r.kind == HorizontalAdjacent <==> HasAdjacentInRow(arrows)
    ensures r.kind == VerticalAdjacent <==> !HasAdjacentInRow(arrows) && HasAdjacentInColumn(arrows)
    ensures r.kind == HorizontalLongDistance <==>
      !HasAdjacentInRow(arrows) && !HasAdjacentInColumn(arrows) && HasLongInRow(arrows, rows, cols)
    ensures r.kind == VerticalLongDistance <==>
      && !HasAdjacentInRow(arrows) && !HasAdjacentInColumn(arrows) && !HasLongInRow(arrows, rows, cols)
      && HasLongInColumn(arrows, rows, cols)
    ensures r.kind == TightCyclic <==>
      && !HasAdjacentInRow(arrows) && !HasAdjacentInColumn(arrows)
      && !HasLongInRow(arrows, rows, cols) && !HasLongInColumn(arrows, rows, cols)
      && HasCycle(BlockGraph(arrows))
    ensures r.hasDeadlock <==> r.kind != NoDeadlock
    ensures r.kind == NoDeadlock <==> r.involved == []
  {
    var h := DetectHorizontalAdjacent(arrows);
    if h.hasDeadlock then DeadlockInfo(true, HorizontalAdjacent, h.involved)
    else
      var v := DetectVerticalAdjacent(arrows);
      if v.hasDeadlock then DeadlockInfo(true, VerticalAdjacent, v.involved)
      else
        var hl := DetectHorizontalLong(arrows, rows, cols);
        if hl.hasDeadlock then DeadlockInfo(true, HorizontalLongDistance, hl.involved)
        else
          var vl := DetectVerticalLong(arrows, rows, cols);
          if vl.hasDeadlock then DeadlockInfo(true, VerticalLongDistance, vl.involved)
          else
            var t := DetectTightCyclic(arrows);
            if t.hasDeadlock then DeadlockInfo(true, TightCyclic, t.involved)
            else DeadlockInfo(false, NoDeadlock, [])
  }

  /** detectDeadlock */
  function DetectDeadlock(arrows: seq<ArrowConfig>, rows: int, cols: int): bool
  {
    GetDetailedDeadlockInfo(arrows, rows, cols).hasDeadlock
  }

  /** validateArrowLayout: the layout is accepted exactly when none of the
      five deadlock patterns occurs. */
  function ValidateArrowLayout(arrows: seq<ArrowConfig>, rows: int, cols: int): (ok: bool)
    ensures ok <==>
      && !HasAdjacentInRow(arrows) && !HasAdjacentInColumn(arrows)
      && !HasLongInRow(arrows, rows, cols) && !HasLongInColumn(arrows, rows, cols)
      && !HasCycle(BlockGraph(arrows))
  {
    !DetectDeadlock(arrows, rows, cols)
  }

  /** A board with at most one arrow is always accepted. */
  lemma AtMostOneArrowIsValid(arrows: seq<ArrowConfig>, rows: int, cols: int)
    requires |arrows| <= 1
    ensures ValidateArrowLayout(arrows, rows, cols)
  {
    forall a, b | a in arrows && b in arrows
      ensures !AdjacentInRow(a, b) && !AdjacentInColumn(a, b)
      ensures !LongInRow(arrows, rows, cols, a, b) && !LongInColumn(arrows, rows, cols, a, b)
    {
      assert a == b;
    }
    var g := BlockGraph(arrows);
    forall id, v | id in g ensures v !in g[id] {
      var i := LastIndex(arrows, |arrows|, id);
      assert arrows == [arrows[i]];
    }
    NoEdgesNoCycle(g);
  }

  // ---------------------------------------------------------------------
  // Worked examples

  /** Two arrows in row 2 of a 6x6 board, a right-pointing one at column 0
      and a left-pointing one at column 3: they are three columns apart, so
      not adjacent, but their free paths meet in column 2. */
  function LongPair(): seq<ArrowConfig>
  {
    [ArrowConfig(1, Cell(2, 0), Right), ArrowConfig(2, Cell(2, 3), Left)]
  }

  /** The analyser reports the pair as a horizontal long-distance deadlock. */
  lemma LongDistanceExample()
    ensures GetDetailedDeadlockInfo(LongPair(), 6, 6) == DeadlockInfo(true, HorizontalLongDistance, [Id(1), Id(2)])
  {
    LongPairNotAdjacent();
    LongPairDetected();
  }

  lemma LongPairNotAdjacent()
    ensures !HasAdjacentInRow(LongPair()) && !HasAdjacentInColumn(LongPair())
  {
    var arrows := LongPair();
    forall x, y | x in arrows && y in arrows ensures !AdjacentInRow(x, y) && !AdjacentInColumn(x, y) {}
  }

  /** The horizontal long-distance detector reports the pair in list order. */
  lemma LongPairDetected()
    ensures DetectHorizontalLong(LongPair(), 6, 6) == Detection(true, [Id(1), Id(2)])
  {
    var arrows := LongPair();
    LongPairInRow();
    LongPairAllHorizontal();
    assert arrows[0] in arrows && arrows[1] in arrows;
    var r := DetectHorizontalLong(arrows, 6, 6);
    assert r.hasDeadlock;
  }

  /** The two arrows of the pair are long-distance deadlocked in row 2. */
  lemma LongPairInRow()
    ensures LongInRow(LongPair(), 6, 6, LongPair()[0], LongPair()[1])
  {
    LongPairPathOfFirst();
    LongPairPathOfSecond();
  }

  /** Both arrows of the pair are horizontal. */
  lemma LongPairAllHorizontal()
    ensures Filter(LongPair(), IsHorizontalArrow) == LongPair()
  {
    var arrows := LongPair();
    assert Filter(arrows[1..], IsHorizontalArrow) == [arrows[1]];
  }

  /** The right-pointing arrow sweeps columns 1 and 2, then meets the other. */
  lemma LongPairPathOfFirst()
    ensures MovementPath(LongPair()[0], LongPair(), 6, 6) == [Cell(2, 1), Cell(2, 2)]
  {
    var arrows := LongPair();
    var a := arrows[0];
    assert OccupiedByOthers(Cell(2, 3), 1, arrows) by {
      assert arrows[1].id != 1 && Cell(2, 3) in Footprint(arrows[1].position, arrows[1].direction);
    }
    assert !OccupiedByOthers(Cell(2, 1), 1, arrows);
    assert !OccupiedByOthers(Cell(2, 2), 1, arrows);
    assert PathFrom(a, arrows, 6, 6, Cell(2, 3)) == [];
    assert PathFrom(a, arrows, 6, 6, Cell(2, 2)) == [Cell(2, 2)];
  }

  /** The left-pointing arrow sweeps its own second cell and column 2, then
      meets the other. */
  lemma LongPairPathOfSecond()
    ensures MovementPath(LongPair()[1], LongPair(), 6, 6) == [Cell(2, 3), Cell(2, 2)]
  {
    var arrows := LongPair();
    var b := arrows[1];
    assert OccupiedByOthers(Cell(2, 1), 2, arrows) by {
      assert arrows[0].id != 2 && Cell(2, 1) in Footprint(arrows[0].position, arrows[0].direction);
    }
    assert !OccupiedByOthers(Cell(2, 3), 2, arrows);
    assert !OccupiedByOthers(Cell(2, 2), 2, arrows);
    assert PathFrom(b, arrows, 6, 6, Cell(2, 1)) == [];
    assert PathFrom(b, arrows, 6, 6, Cell(2, 2)) == [Cell(2, 2)];
  }

  /** Four arrows chasing each other round a 3x3 board, each directly
      blocked by the next. */
  function Pinwheel(): seq<ArrowConfig>
  {
    [ArrowConfig(1, Cell(0, 0), Right), ArrowConfig(2, Cell(0, 2), Down),
     ArrowConfig(3, Cell(2, 1), Left), ArrowConfig(4, Cell(1, 0), Up)]
  }

  lemma PinwheelHasNoFacingPair(x: ArrowConfig, y: ArrowConfig)
    requires x in Pinwheel() && y in Pinwheel()
    ensures !FacingInRow(x, y) || x.position.row != y.position.row
    ensures !FacingInColumn(x, y) || x.position.col != y.position.col
  {
  }

  lemma PinwheelNoPairPattern()
    ensures !HasAdjacentInRow(Pinwheel()) && !HasAdjacentInColumn(Pinwheel())
    ensures !HasLongInRow(Pinwheel(), 3, 3) && !HasLongInColumn(Pinwheel(), 3, 3)
  {
    var arrows := Pinwheel();
    forall x, y | x in arrows && y in arrows
      ensures !AdjacentInRow(x, y) && !AdjacentInColumn(x, y)
      ensures !LongInRow(arrows, 3, 3, x, y) && !LongInColumn(arrows, 3, 3, x, y)
    {
      PinwheelHasNoFacingPair(x, y);
    }
  }

  /** Arrow `a` directly blocked by a differently-numbered arrow `b` of the
      layout gives the edge a.id -> b.id. */
  lemma BlockedGivesEdge(arrows: seq<ArrowConfig>, i: nat, j: nat)
    requires DistinctIds(arrows) && i < |arrows| && j < |arrows| && i != j
    requires Beyond(arrows[i]) in Footprint(arrows[j].position, arrows[j].direction)
    ensures Edge(BlockGraph(arrows), arrows[i].id, arrows[j].id)
  {
    var a, b := arrows[i], arrows[j];
    assert a in arrows && b in arrows;
    assert a.id != b.id by {
      if i < j { assert arrows[i].id != arrows[j].id; } else { assert arrows[j].id != arrows[i].id; }
    }
    BlockGraphEdges(arrows, a.id, b.id);
  }

  /** Arrows each directly blocked by the next, the last by the first, form
      a cycle of the blocking graph. */
  lemma {:induction false} BlockingRingIsCycle(arrows: seq<ArrowConfig>)
    requires |arrows| >= 2 && DistinctIds(arrows)
    requires forall i :: 0 <= i < |arrows| - 1 ==>
      Beyond(arrows[i]) in Footprint(arrows[i + 1].position, arrows[i + 1].direction)
    requires Beyond(arrows[|arrows| - 1]) in Footprint(arrows[0].position, arrows[0].direction)
    ensures HasCycle(BlockGraph(arrows))
  {
    var n := |arrows|;
    var g := BlockGraph(arrows);
    var w := Ids(arrows) + [arrows[0].id];
    assert |w| == n + 1 && w[0] == w[n];
    forall k | 0 <= k < n ensures Edge(g, w[k], w[k + 1]) {
      assert w[k] == arrows[k].id;
      if k < n - 1 {
        assert w[k + 1] == arrows[k + 1].id;
        BlockedGivesEdge(arrows, k, k + 1);
      } else {
        assert w[k + 1] == arrows[0].id;
        BlockedGivesEdge(arrows, k, 0);
      }
    }
    assert IsWalk(g, w);
  }

  function Ids(arrows: seq<ArrowConfig>): (r: seq<int>)
    ensures |r| == |arrows| && forall i :: 0 <= i < |r| ==> r[i] == arrows[i].id
  {
    seq(|arrows|, i requires 0 <= i < |arrows| => arrows[i].id)
  }

  /** The blocking graph of the pinwheel is the cycle 1 -> 2 -> 3 -> 4 -> 1. */
  lemma PinwheelCycle()
    ensures HasCycle(BlockGraph(Pinwheel()))
  {
    var arrows := Pinwheel();
    assert DistinctIds(arrows);
    assert forall i :: 0 <= i < 3 ==>
      Beyond(arrows[i]) in Footprint(arrows[i + 1].position, arrows[i + 1].direction);
    assert Beyond(arrows[3]) in Footprint(arrows[0].position, arrows[0].direction);
    BlockingRingIsCycle(arrows);
  }

  /** No pair pattern applies to the pinwheel, so it is reported as a tight
      cyclic deadlock. */
  lemma PinwheelExample()
    ensures GetDetailedDeadlockInfo(Pinwheel(), 3, 3).kind == TightCyclic
  {
    PinwheelNoPairPattern();
    PinwheelCycle();
  }
}
