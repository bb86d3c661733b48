/** The rule-based level generator of src/utils/LevelGenerator.ts.

    The generator keeps a rows x cols boolean occupancy grid. It places up
    to `arrowCount` arrows one after another, each at the first of up to 100
    random candidates that lies on the board and over free cells, then
    looks for deadlocked pairs once and, for each pair, clears one of the
    two arrows and tries up to 50 random spots for it.

    `Math.random()` is modelled as a stream `rand` of numbers in [0, 1) and
    a cursor counting the calls made so far, so every operation is a
    function of the stream. The generator object is an immutable value. */
module LegacyGenerator {
  import opened Common
  import opened Geometry
  import opened PairScan
  import opened Elements
  import DeadlockChecker

  type BoolGrid = seq<seq<bool>>

  datatype Generator = Generator(rows: nat, cols: nat, occupied: BoolGrid)
  {
    predicate Valid()
    {
      |occupied| == rows && forall r :: 0 <= r < rows ==> |occupied[r]| == cols
    }

    predicate OnBoard(r: int, c: int)
    {
      0 <= r < rows && 0 <= c < cols
    }
  }

  /** The constructor: every cell free, or None for the RangeError that
      `Array(rows)` throws on a negative size (a negative column count
      throws only when there is a row to build). With no rows no cell is on
      the board whatever the column count, so a negative column count on
      zero rows is represented by zero columns. */
  function NewGenerator(rows: int, cols: int): (g: Option<Generator>)
    ensures g.None? <==> rows < 0 || (rows > 0 && cols < 0)
    ensures g.Some? ==> g.value.Valid() && g.value.rows == rows && g.value.cols == Max(cols, 0)
    ensures g.Some? ==> forall r, c :: g.value.OnBoard(r, c) <==> 0 <= r < rows && 0 <= c < cols
    ensures g.Some? ==> forall r, c :: g.value.OnBoard(r, c) ==> !g.value.occupied[r][c]
  {
    if rows < 0 || (rows > 0 && cols < 0) then None
    else Some(Generator(rows, Max(cols, 0), FillGrid(rows, Max(cols, 0), false).value))
  }

  /** resetGrid: every cell free again, the size kept. */
  function ResetGrid(g: Generator): (h: Generator)
    ensures h.Valid() && h.rows == g.rows && h.cols == g.cols
    ensures forall r, c :: h.OnBoard(r, c) ==> !h.occupied[r][c]
  {
    NewGenerator(g.rows, g.cols).value
  }

  /** getArrowDimensions: (width, height). */
  function Dimensions(d: Direction): (int, int)
  {
    match d
    case Left => (2, 1)
    case Right => (2, 1)
    case Up => (1, 2)
    case Down => (1, 2)
  }

  /** An element with its direction's dimensions covers exactly the
      footprint of an arrow anchored at its (row, column). */
  lemma DimensionsMatchFootprint(e: Element)
    requires (e.width, e.height) == Dimensions(e.direction)
    ensures forall r, c :: InRect(e, r, c) <==> Cell(r, c) in Footprint(Cell(e.y, e.x), e.direction)
  {
  }

  /** isWithinBoundary */
  predicate IsWithinBoundary(g: Generator, x: int, y: int, width: int, height: int)
  {
    x >= 0 && y >= 0 && x + width <= g.cols && y + height <= g.rows
  }

  /** isValidPosition: on the board and over free cells only. */
  predicate IsValidPosition(g: Generator, e: Element)
    requires g.Valid()
  {
    && IsWithinBoundary(g, e.x, e.y, e.width, e.height)
    && forall r, c :: e.y <= r < e.y + e.height && e.x <= c < e.x + e.width ==> !g.occupied[r][c]
  }

  /** The shared loop of markOccupied and clearOccupied: writes `v` on the
      element's cells that lie on the board. */
  function SetRect(g: Generator, e: Element, v: bool): (h: Generator)
    requires g.Valid()
    ensures h.Valid() && h.rows == g.rows && h.cols == g.cols
    ensures forall r, c :: g.OnBoard(r, c) ==>
      h.occupied[r][c] == if InRect(e, r, c) then v else g.occupied[r][c]
  {
    Generator(g.rows, g.cols,
      seq(g.rows, r requires 0 <= r < g.rows =>
        seq(g.cols, c requires 0 <= c < g.cols =>
          if InRect(e, r, c) then v else g.occupied[r][c])))
  }

  /** markOccupied */
  function MarkOccupied(g: Generator, e: Element): (h: Generator)
    requires g.Valid()
    ensures h.Valid() && h.rows == g.rows && h.cols == g.cols
    ensures forall r, c :: g.OnBoard(r, c) ==>
      h.occupied[r][c] == (InRect(e, r, c) || g.occupied[r][c])
  {
    SetRect(g, e, true)
  }

  /** clearOccupied */
  function ClearOccupied(g: Generator, e: Element): (h: Generator)
    requires g.Valid()
    ensures h.Valid() && h.rows == g.rows && h.cols == g.cols
    ensures forall r, c :: g.OnBoard(r, c) ==>
      h.occupied[r][c] == (!InRect(e, r, c) && g.occupied[r][c])
  {
    SetRect(g, e, false)
  }

  /** Clearing an element just marked over free cells gives the grid back. */
  lemma ClearUndoesMark(g: Generator, e: Element)
    requires g.Valid() && IsValidPosition(g, e)
    ensures ClearOccupied(MarkOccupied(g, e), e) == g
  {
    var h := ClearOccupied(MarkOccupied(g, e), e);
    assert forall r :: 0 <= r < g.rows ==> h.occupied[r] == g.occupied[r];
  }

  /** getRandomPosition: a column and a row drawn so that a `width` x
      `height` rectangle fits, when the board is large enough. */
  function GetRandomPosition(g: Generator, ux: real, uy: real, width: int, height: int): (p: (int, int))
    requires 0.0 <= ux < 1.0 && 0.0 <= uy < 1.0
    ensures width <= g.cols && height <= g.rows ==> IsWithinBoundary(g, p.0, p.1, width, height)
  {
    (RandomBelow(ux, g.cols - width + 1), RandomBelow(uy, g.rows - height + 1))
  }

  /** The arrow tried by generateArrow with the three draws starting at
      `cursor`: direction, then column, then row. */
  function ArrowCandidate(g: Generator, id: string, rand: Random, cursor: nat): (e: Element)
    requires IsRandom(rand)
    ensures e.id == id && e.kind == "arrow" && (e.width, e.height) == Dimensions(e.direction)
  {
    var d := RandomDirection(rand(cursor));
    var (w, h) := Dimensions(d);
    var p := GetRandomPosition(g, rand(cursor + 1), rand(cursor + 2), w, h);
    Element(id, "arrow", d, w, h, p.0, p.1)
  }

  const MaxArrowAttempts: nat := 100

  /** The `n` candidates drawn from `from` on (three draws each) all fail. */
  predicate ArrowAttemptsFail(g: Generator, id: string, rand: Random, from: nat, n: nat)
    requires g.Valid() && IsRandom(rand)
    decreases n
  {
    n == 0 || (!IsValidPosition(g, ArrowCandidate(g, id, rand, from)) && ArrowAttemptsFail(g, id, rand, from + 3, n - 1))
  }

  /** The arrow search succeeded at its `j`-th try: the `j` candidates
      before failed, the candidate drawn at `cursor + 3 * j` fits, and the
      cursor stands after it. */
  ghost predicate ArrowFoundAt(g: Generator, id: string, rand: Random, cursor: nat, j: nat, r: (Option<Element>, nat))
    requires g.Valid() && IsRandom(rand)
  {
    && r.0.Some?
    && r.1 == cursor + 3 * j + 3
    && ArrowAttemptsFail(g, id, rand, cursor, j)
    && r.0.value == ArrowCandidate(g, id, rand, cursor + 3 * j)
    && IsValidPosition(g, r.0.value)
  }

  /** An arrow found after a failed first candidate was found one try
      later. */
  lemma ArrowFoundLater(g: Generator, id: string, rand: Random, cursor: nat, j: nat, r: (Option<Element>, nat))
    requires g.Valid() && IsRandom(rand)
    requires !IsValidPosition(g, ArrowCandidate(g, id, rand, cursor))
    requires ArrowFoundAt(g, id, rand, cursor + 3, j, r)
    ensures ArrowFoundAt(g, id, rand, cursor, j + 1, r)
  {
    assert cursor + 3 + 3 * j == cursor + 3 * (j + 1);
  }

  /** generateArrow from attempt number `attempt`: returns the first valid
      candidate, or nothing after 100 failures, and the advanced cursor. */
  function GenerateArrow(g: Generator, id: string, rand: Random, cursor: nat, attempt: nat)
    : (r: (Option<Element>, nat))
    requires g.Valid() && IsRandom(rand) && attempt <= MaxArrowAttempts
    ensures r.0.Some? ==> IsValidPosition(g, r.0.value)
    ensures r.0.Some? ==> exists j :: 0 <= j < MaxArrowAttempts - attempt && ArrowFoundAt(g, id, rand, cursor, j, r)
    ensures r.0.None? ==>
      && r.1 == cursor + 3 * (MaxArrowAttempts - attempt)
      && ArrowAttemptsFail(g, id, rand, cursor, MaxArrowAttempts - attempt)
    decreases MaxArrowAttempts - attempt
  {
    if attempt == MaxArrowAttempts then (None, cursor)
    else
      var e := ArrowCandidate(g, id, rand, cursor);
      if IsValidPosition(g, e) then
        assert ArrowFoundAt(g, id, rand, cursor, 0, (Some(e), cursor + 3));
        (Some(e), cursor + 3)
      else
        var r := GenerateArrow(g, id, rand, cursor + 3, attempt + 1);
        assert r.0.Some? ==> exists j :: 0 <= j < MaxArrowAttempts - attempt && ArrowFoundAt(g, id, rand, cursor, j, r) by {
          if r.0.Some? {
            var j :| 0 <= j < MaxArrowAttempts - (attempt + 1) && ArrowFoundAt(g, id, rand, cursor + 3, j, r);
            ArrowFoundLater(g, id, rand, cursor, j, r);
          }
        }
        r
  }

  /** On an empty board of at least 2 x 2 cells the first candidate always
      fits. */
  lemma FirstArrowFits(g: Generator, id: string, rand: Random, cursor: nat)
    requires g.Valid() && IsRandom(rand) && g.rows >= 2 && g.cols >= 2
    requires forall r, c :: g.OnBoard(r, c) ==> !g.occupied[r][c]
    ensures GenerateArrow(g, id, rand, cursor, 0) == (Some(ArrowCandidate(g, id, rand, cursor)), cursor + 3)
  {
    var e := ArrowCandidate(g, id, rand, cursor);
    assert IsWithinBoundary(g, e.x, e.y, e.width, e.height);
    assert IsValidPosition(g, e);
  }

  const MaxSafeAttempts: nat := 50

  /** The spot tried by findSafePosition with the two draws at `cursor`. */
  function SpotCandidate(g: Generator, e: Element, rand: Random, cursor: nat): (int, int)
    requires IsRandom(rand)
  {
    GetRandomPosition(g, rand(cursor), rand(cursor + 1), e.width, e.height)
  }

  function MoveTo(e: Element, p: (int, int)): Element
  {
    e.(x := p.0, y := p.1)
  }

  /** The `n` spots drawn from `from` on (two draws each) all fail. */
  predicate SpotAttemptsFail(g: Generator, e: Element, rand: Random, from: nat, n: nat)
    requires g.Valid() && IsRandom(rand)
    decreases n
  {
    n == 0 || (!IsValidPosition(g, MoveTo(e, SpotCandidate(g, e, rand, from))) && SpotAttemptsFail(g, e, rand, from + 2, n - 1))
  }

  /** The spot search succeeded at its `j`-th draw: the `j` spots before
      failed, the spot drawn at `cursor + 2 * j` fits, and the cursor
      stands after it. */
  ghost predicate FoundAt(g: Generator, e: Element, rand: Random, cursor: nat, j: nat, r: (Option<(int, int)>, nat))
    requires g.Valid() && IsRandom(rand)
  {
    && r.0.Some?
    && r.1 == cursor + 2 * j + 2
    && SpotAttemptsFail(g, e, rand, cursor, j)
    && r.0.value == SpotCandidate(g, e, rand, cursor + 2 * j)
    && IsValidPosition(g, MoveTo(e, r.0.value))
  }

  /** A spot found after a failed first draw was found one draw later. */
  lemma FoundLater(g: Generator, e: Element, rand: Random, cursor: nat, j: nat, r: (Option<(int, int)>, nat))
    requires g.Valid() && IsRandom(rand)
    requires !IsValidPosition(g, MoveTo(e, SpotCandidate(g, e, rand, cursor)))
    requires FoundAt(g, e, rand, cursor + 2, j, r)
    ensures FoundAt(g, e, rand, cursor, j + 1, r)
  {
    assert cursor + 2 + 2 * j == cursor + 2 * (j + 1);
  }

  /** findSafePosition from attempt number `attempt`: the first spot where
      the element fits, or nothing after 50 failures, and the advanced
      cursor. */
  function FindSafePosition(g: Generator, e: Element, rand: Random, cursor: nat, attempt: nat)
    : (r: (Option<(int, int)>, nat))
    requires g.Valid() && IsRandom(rand) && attempt <= MaxSafeAttempts
    ensures r.0.Some? ==> IsValidPosition(g, MoveTo(e, r.0.value))
    ensures r.0.Some? ==> exists j :: 0 <= j < MaxSafeAttempts - attempt && FoundAt(g, e, rand, cursor, j, r)
    ensures r.0.None? ==>
      && r.1 == cursor + 2 * (MaxSafeAttempts - attempt)
      && SpotAttemptsFail(g, e, rand, cursor, MaxSafeAttempts - attempt)
    decreases MaxSafeAttempts - attempt
  {
    if attempt == MaxSafeAttempts then (None, cursor)
    else
      var p := SpotCandidate(g, e, rand, cursor);
      if IsValidPosition(g, MoveTo(e, p)) then
        assert FoundAt(g, e, rand, cursor, 0, (Some(p), cursor + 2));
        (Some(p), cursor + 2)
      else
        var r := FindSafePosition(g, e, rand, cursor + 2, attempt + 1);
        assert r.0.Some? ==> exists j :: 0 <= j < MaxSafeAttempts - attempt && FoundAt(g, e, rand, cursor, j, r) by {
          if r.0.Some? {
            var j :| 0 <= j < MaxSafeAttempts - (attempt + 1) && FoundAt(g, e, rand, cursor + 2, j, r);
            FoundLater(g, e, rand, cursor, j, r);
          }
        }
        r
  }

  /** areArrowsAligned of the generator: two vertical arrows count as
      aligned when their columns differ by at most 2, two horizontal ones
      when they share a row; a vertical and a horizontal arrow never do. */
  predicate LegacyAligned(a1: Element, a2: Element)
  {
    if IsVertical(a1.direction) && IsVertical(a2.direction) then Abs(a1.x - a2.x) <= 2
    else if !IsVertical(a1.direction) && !IsVertical(a2.direction) then a1.y == a2.y
    else false
  }

  function Abs(v: int): nat
  {
    if v < 0 then -v else v
  }

  /** isDeadlock of the generator: opposite directions and aligned. */
  predicate LegacyIsDeadlock(a1: Element, a2: Element)
  {
    DeadlockChecker.IsOpposing(a1, a2) && LegacyAligned(a1, a2)
  }

  /** The generator's test is looser than the standalone checker's: every
      pair the checker flags is flagged here, and two vertical arrows up to
      two columns apart are flagged here but not there. */
  lemma LegacyCoversChecker(a1: Element, a2: Element)
    ensures DeadlockChecker.IsDeadlock(a1, a2) ==> LegacyIsDeadlock(a1, a2)
    ensures LegacyIsDeadlock(a1, a2) && !DeadlockChecker.IsDeadlock(a1, a2) ==>
      IsVertical(a1.direction) && 0 < Abs(a1.x - a2.x) <= 2
  {
  }

  /** detectDeadlocks: the index pairs (i, j), i < j, of deadlocked
      elements, in scan order. */
  function DetectDeadlocks(es: seq<Element>): (r: seq<(nat, nat)>)
    ensures forall p :: p in r <==> p.0 < p.1 < |es| && LegacyIsDeadlock(es[p.0], es[p.1])
    ensures forall k1, k2 :: 0 <= k1 < k2 < |r| ==> Before(r[k1], r[k2])
  {
    Pairs(es, LegacyIsDeadlock)
  }

  /** Every element lies inside the board. */
  predicate InsideBoard(g: Generator, es: seq<Element>)
  {
    forall k :: 0 <= k < |es| ==> IsWithinBoundary(g, es[k].x, es[k].y, es[k].width, es[k].height)
  }

  /** No two elements share a cell. */
  ghost predicate Disjoint(es: seq<Element>)
  {
    forall p, q, r, c :: 0 <= p < q < |es| && InRect(es[p], r, c) ==> !InRect(es[q], r, c)
  }

  /** Every occupied cell is covered by some element. */
  ghost predicate Sound(g: Generator, es: seq<Element>)
    requires g.Valid()
  {
    forall r, c :: g.OnBoard(r, c) && g.occupied[r][c] ==> exists k :: 0 <= k < |es| && InRect(es[k], r, c)
  }

  /** The occupancy grid is exactly the union of the elements' cells. */
  ghost predicate Tracks(g: Generator, es: seq<Element>)
    requires g.Valid()
  {
    && Sound(g, es)
    && forall k, r, c :: 0 <= k < |es| && g.OnBoard(r, c) && InRect(es[k], r, c) ==> g.occupied[r][c]
  }

  /** Every element is an arrow with its direction's dimensions. */
  predicate AllArrows(es: seq<Element>)
  {
    forall k :: 0 <= k < |es| ==> es[k].kind == "arrow" && (es[k].width, es[k].height) == Dimensions(es[k].direction)
  }

  predicate DistinctIds(es: seq<Element>)
  {
    forall p, q :: 0 <= p < q < |es| ==> es[p].id != es[q].id
  }

  /** The id given to the i-th arrow: `arrow-${i}`. */
  function ArrowId(i: nat): string
  {
    "arrow-" + NatToString(i)
  }

  lemma ArrowIdInjective(a: nat, b: nat)
    requires ArrowId(a) == ArrowId(b)
    ensures a == b
  {
    assert ArrowId(a)[6..] == NatToString(a);
    assert ArrowId(b)[6..] == NatToString(b);
    NatToStringInjective(a, b);
  }

  /** The ids of the first n arrows. */
  ghost function IdsBelow(n: nat): set<string>
  {
    set m | 1 <= m <= n :: ArrowId(m)
  }

  /** Every id is `arrow-m` for some m in 1..n. */
  ghost predicate IdsUpTo(es: seq<Element>, n: nat)
  {
    forall k :: 0 <= k < |es| ==> es[k].id in IdsBelow(n)
  }

  /** The placement invariant: arrows inside the board, pairwise disjoint,
      exactly the occupied cells, with distinct numbered ids. */
  ghost predicate Consistent(g: Generator, es: seq<Element>, n: nat)
  {
    && g.Valid() && InsideBoard(g, es) && Disjoint(es) && Tracks(g, es)
    && AllArrows(es) && DistinctIds(es) && IdsUpTo(es, n)
  }

  /** Adding an arrow at a valid position with the next id keeps the
      placement invariant. */
  lemma PlaceKeepsConsistent(g: Generator, es: seq<Element>, n: nat, e: Element)
    requires Consistent(g, es, n) && IsValidPosition(g, e)
    requires e.id == ArrowId(n + 1) && e.kind == "arrow" && (e.width, e.height) == Dimensions(e.direction)
    ensures Consistent(MarkOccupied(g, e), es + [e], n + 1)
  {
    PlaceKeepsDisjoint(g, es, e);
    PlaceKeepsSound(g, es, e);
    PlaceKeepsIds(es, n, e);
  }

  lemma PlaceKeepsDisjoint(g: Generator, es: seq<Element>, e: Element)
    requires g.Valid() && InsideBoard(g, es) && Disjoint(es) && Tracks(g, es) && IsValidPosition(g, e)
    ensures Disjoint(es + [e])
  {
    var es' := es + [e];
    forall p, q, r, c | 0 <= p < q < |es'| && InRect(es'[p], r, c)
      ensures !InRect(es'[q], r, c)
    {
      if q == |es| {
        assert g.OnBoard(r, c);
        assert g.occupied[r][c];
      }
    }
  }

  lemma PlaceKeepsSound(g: Generator, es: seq<Element>, e: Element)
    requires g.Valid() && Sound(g, es)
    ensures Sound(MarkOccupied(g, e), es + [e])
  {
    var h := MarkOccupied(g, e);
    var es' := es + [e];
    forall r, c | h.OnBoard(r, c) && h.occupied[r][c]
      ensures exists k :: 0 <= k < |es'| && InRect(es'[k], r, c)
    {
      if InRect(e, r, c) {
        assert InRect(es'[|es|], r, c);
      } else {
        var k :| 0 <= k < |es| && InRect(es[k], r, c);
        assert InRect(es'[k], r, c);
      }
    }
  }

  lemma PlaceKeepsIds(es: seq<Element>, n: nat, e: Element)
    requires DistinctIds(es) && IdsUpTo(es, n) && e.id == ArrowId(n + 1)
    ensures DistinctIds(es + [e]) && IdsUpTo(es + [e], n + 1)
  {
    assert ArrowId(n + 1) !in IdsBelow(n) by {
      forall m | 1 <= m <= n ensures ArrowId(m) != ArrowId(n + 1) {
        if ArrowId(m) == ArrowId(n + 1) {
          ArrowIdInjective(m, n + 1);
        }
      }
    }
    assert IdsBelow(n) <= IdsBelow(n + 1);
    assert ArrowId(n + 1) in IdsBelow(n + 1);
  }

  /** The invariant's id bound only loosens as the arrow number grows. */
  lemma ConsistentUpTo(g: Generator, es: seq<Element>, n: nat, n': nat)
    requires Consistent(g, es, n) && n <= n'
    ensures Consistent(g, es, n')
  {
    assert IdsBelow(n) <= IdsBelow(n');
  }

  /** The placement loop of generate, from arrow number i + 1 on: each
      arrow that generateArrow produces is recorded and marked. */
  function PlaceArrows(g: Generator, es: seq<Element>, rand: Random, cursor: nat, i: nat, count: int)
    : (r: (Generator, seq<Element>, nat))
    requires IsRandom(rand) && Consistent(g, es, i)
    ensures r.0.rows == g.rows && r.0.cols == g.cols
    ensures Consistent(r.0, r.1, Max(i, count))
    ensures |es| <= |r.1| <= |es| + Max(count - i, 0) && r.1[..|es|] == es
    decreases count - i
  {
    if i >= count then (g, es, cursor)
    else
      var attempt := GenerateArrow(g, ArrowId(i + 1), rand, cursor, 0);
      if attempt.0.Some? then
        var e := attempt.0.value;
        PlaceKeepsConsistent(g, es, i, e);
        var r := PlaceArrows(MarkOccupied(g, e), es + [e], rand, attempt.1, i + 1, count);
        PrefixOfExtension(es, e, r.1);
        r
      else
        ConsistentUpTo(g, es, i, i + 1);
        PlaceArrows(g, es, rand, attempt.1, i + 1, count)
  }

  /** Only the positions of the elements may differ between `es` and
      `es'`. */
  predicate SameArrows(es: seq<Element>, es': seq<Element>)
  {
    |es'| == |es| && forall k :: 0 <= k < |es| ==> es'[k] == MoveTo(es[k], (es'[k].x, es'[k].y))
  }

  /** What resolving one pair keeps: the arrows and their ids stay, every
      arrow stays on the board, and every occupied cell stays covered. */
  ghost predicate Resolvable(g: Generator, es: seq<Element>)
  {
    g.Valid() && InsideBoard(g, es) && Sound(g, es)
  }

  /** One iteration of the forEach: move `es[pick]` or, when no safe spot
      turns up, leave it where it was with its cells cleared. */
  function MoveOne(g: Generator, es: seq<Element>, pick: nat, rand: Random, cursor: nat)
    : (r: (Generator, seq<Element>, nat))
    requires IsRandom(rand) && Resolvable(g, es) && pick < |es|
    ensures r.0.rows == g.rows && r.0.cols == g.cols
    ensures Resolvable(r.0, r.1) && SameArrows(es, r.1)
    ensures r.1 == es[pick := r.1[pick]]
    ensures || (IsValidPosition(ClearOccupied(g, es[pick]), r.1[pick])
                && r.0 == MarkOccupied(ClearOccupied(g, es[pick]), r.1[pick]))
            || (r.1 == es && r.0 == ClearOccupied(g, es[pick]))
  {
    var e := es[pick];
    var cleared := ClearOccupied(g, e);
    var found := FindSafePosition(cleared, e, rand, cursor, 0);
    if found.0.Some? then
      var moved := MoveTo(e, found.0.value);
      MovedPick(g, es, pick, moved);
      (MarkOccupied(cleared, moved), es[pick := moved], found.1)
    else
      StayingPick(g, es, pick);
      (cleared, es, found.1)
  }

  /** The staying branch of MoveOne keeps what resolving promises. */
  lemma StayingPick(g: Generator, es: seq<Element>, pick: nat)
    requires Resolvable(g, es) && pick < |es|
    ensures Resolvable(ClearOccupied(g, es[pick]), es)
    ensures SameArrows(es, es) && es == es[pick := es[pick]]
  {
    ClearKeepsResolvable(g, es, es[pick]);
  }

  /** The moving branch of MoveOne keeps what resolving promises. */
  lemma MovedPick(g: Generator, es: seq<Element>, pick: nat, moved: Element)
    requires Resolvable(g, es) && pick < |es|
    requires IsValidPosition(ClearOccupied(g, es[pick]), moved)
    requires moved == MoveTo(es[pick], (moved.x, moved.y))
    ensures var es' := es[pick := moved];
            && Resolvable(MarkOccupied(ClearOccupied(g, es[pick]), moved), es')
            && SameArrows(es, es') && es' == es[pick := es'[pick]]
  {
    MoveKeepsResolvable(g, es, pick, moved);
  }

  /** Clearing an element's cells keeps the arrows on the board and every
      remaining occupied cell covered. */
  lemma ClearKeepsResolvable(g: Generator, es: seq<Element>, e: Element)
    requires Resolvable(g, es)
    ensures Resolvable(ClearOccupied(g, e), es)
  {
  }

  /** Moving `es[pick]` to a spot that is free once its old cells are
      cleared keeps the arrows on the board and every occupied cell
      covered. */
  lemma MoveKeepsResolvable(g: Generator, es: seq<Element>, pick: nat, moved: Element)
    requires Resolvable(g, es) && pick < |es|
    requires IsValidPosition(ClearOccupied(g, es[pick]), moved)
    ensures Resolvable(MarkOccupied(ClearOccupied(g, es[pick]), moved), es[pick := moved])
  {
    MoveKeepsSound(g, es, pick, moved);
  }

  /** Clearing `es[pick]` and marking it at a new place keeps every
      occupied cell covered. */
  lemma MoveKeepsSound(g: Generator, es: seq<Element>, pick: nat, moved: Element)
    requires g.Valid() && Sound(g, es) && pick < |es|
    ensures Sound(MarkOccupied(ClearOccupied(g, es[pick]), moved), es[pick := moved])
  {
    var cleared := ClearOccupied(g, es[pick]);
    var h := MarkOccupied(cleared, moved);
    var es' := es[pick := moved];
    forall r, c | h.OnBoard(r, c) && h.occupied[r][c]
      ensures exists k :: 0 <= k < |es'| && InRect(es'[k], r, c)
    {
      if InRect(moved, r, c) {
        assert InRect(es'[pick], r, c);
      } else {
        assert g.occupied[r][c] && !InRect(es[pick], r, c);
        var k :| 0 <= k < |es| && InRect(es[k], r, c);
        assert InRect(es'[k], r, c);
      }
    }
  }

  /** The forEach over the detected pairs, from the k-th on: a coin draw
      picks the first element of the pair when it falls below 0.5, the
      second otherwise. The pairs were detected on the positions before any
      move; each move sees the current positions. */
  function ResolvePairs(g: Generator, es: seq<Element>, pairs: seq<(nat, nat)>, k: nat, rand: Random, cursor: nat)
    : (r: (Generator, seq<Element>, nat))
    requires IsRandom(rand) && Resolvable(g, es) && k <= |pairs|
    requires forall p :: p in pairs ==> p.0 < |es| && p.1 < |es|
    ensures r.0.rows == g.rows && r.0.cols == g.cols
    ensures Resolvable(r.0, r.1) && SameArrows(es, r.1)
    decreases |pairs| - k
  {
    if k == |pairs| then (g, es, cursor)
    else
      var (i, j) := pairs[k];
      assert pairs[k] in pairs;
      var pick := if rand(cursor) < 0.5 then i else j;
      var step := MoveOne(g, es, pick, rand, cursor + 1);
      var r := ResolvePairs(step.0, step.1, pairs, k + 1, rand, step.2);
      assert SameArrows(es, r.1) by {
        forall t | 0 <= t < |es| ensures r.1[t] == MoveTo(es[t], (r.1[t].x, r.1[t].y)) {
          assert step.1[t] == MoveTo(es[t], (step.1[t].x, step.1[t].y));
        }
      }
      r
  }

  /** resolveDeadlocks */
  function ResolveDeadlocks(g: Generator, es: seq<Element>, rand: Random, cursor: nat): (r: (Generator, seq<Element>, nat))
    requires IsRandom(rand) && Resolvable(g, es)
    ensures r.0.rows == g.rows && r.0.cols == g.cols
    ensures Resolvable(r.0, r.1) && SameArrows(es, r.1)
  {
    ResolvePairs(g, es, DetectDeadlocks(es), 0, rand, cursor)
  }

  /** Without deadlocked pairs nothing moves and no number is drawn. */
  lemma NoDeadlocksNoMoves(g: Generator, es: seq<Element>, rand: Random, cursor: nat)
    requires IsRandom(rand) && Resolvable(g, es)
    requires forall i, j :: 0 <= i < j < |es| ==> !LegacyIsDeadlock(es[i], es[j])
    ensures ResolveDeadlocks(g, es, rand, cursor) == (g, es, cursor)
  {
    assert FirstPair(es, LegacyIsDeadlock).None?;
  }

  /** generate(levelId, arrowCount) on a generator of the given size. */
  function Generate(rows: nat, cols: nat, levelId: int, arrowCount: int, rand: Random): (level: Layout)
    requires IsRandom(rand)
    ensures level.id == levelId && level.rows == rows && level.cols == cols
    ensures |level.elements| <= Max(arrowCount, 0)
    ensures AllArrows(level.elements) && DistinctIds(level.elements)
    ensures forall k :: 0 <= k < |level.elements| ==>
      && 0 <= level.elements[k].x && level.elements[k].x + level.elements[k].width <= cols
      && 0 <= level.elements[k].y && level.elements[k].y + level.elements[k].height <= rows
  {
    var g0 := NewGenerator(rows, cols).value;
    FreshConsistent(g0);
    var placed := PlaceArrows(g0, [], rand, 0, 0, arrowCount);
    ConsistentResolvable(placed.0, placed.1, Max(0, arrowCount));
    var resolved := ResolveDeadlocks(placed.0, placed.1, rand, placed.2);
    MovedArrowsKeepShape(placed.1, resolved.0, resolved.1);
    Layout(levelId, rows, cols, resolved.1)
  }

  /** An empty board with no arrows satisfies the placement invariant. */
  lemma FreshConsistent(g: Generator)
    requires g.Valid() && forall r, c :: g.OnBoard(r, c) ==> !g.occupied[r][c]
    ensures Consistent(g, [], 0)
  {
  }

  /** The placement invariant is stronger than what resolving keeps. */
  lemma ConsistentResolvable(g: Generator, es: seq<Element>, n: nat)
    requires Consistent(g, es, n)
    ensures Resolvable(g, es) && AllArrows(es) && DistinctIds(es)
  {
  }

  /** Moving arrows keeps them arrows with distinct ids, and resolving
      keeps them on the board. */
  lemma MovedArrowsKeepShape(es: seq<Element>, g: Generator, es': seq<Element>)
    requires AllArrows(es) && DistinctIds(es) && SameArrows(es, es') && Resolvable(g, es')
    ensures AllArrows(es') && DistinctIds(es')
    ensures forall k :: 0 <= k < |es'| ==>
      && 0 <= es'[k].x && es'[k].x + es'[k].width <= g.cols
      && 0 <= es'[k].y && es'[k].y + es'[k].height <= g.rows
  {
    assert forall k :: 0 <= k < |es| ==> es'[k] == MoveTo(es[k], (es'[k].x, es'[k].y));
  }

  /** A stream stuck on one value draws the same spot every time; when that
      spot does not fit, findSafePosition gives up. */
  lemma {:induction false} RepeatedSpotFails(g: Generator, e: Element, rand: Random, cursor: nat, attempt: nat, u: real)
    requires g.Valid() && IsRandom(rand) && attempt <= MaxSafeAttempts && 0.0 <= u < 1.0
    requires forall i :: cursor <= i ==> rand(i) == u
    requires !IsValidPosition(g, MoveTo(e, GetRandomPosition(g, u, u, e.width, e.height)))
    ensures FindSafePosition(g, e, rand, cursor, attempt).0.None?
    decreases MaxSafeAttempts - attempt
  {
    if attempt < MaxSafeAttempts {
      assert SpotCandidate(g, e, rand, cursor) == GetRandomPosition(g, u, u, e.width, e.height);
      RepeatedSpotFails(g, e, rand, cursor + 2, attempt + 1, u);
    }
  }

  /** Resolving a single deadlocked pair whose picked arrow finds no spot
      leaves every arrow in place and the picked arrow's cells free. */
  lemma LoneStuckPair(g: Generator, es: seq<Element>, rand: Random, cursor: nat, i: nat, j: nat)
    requires IsRandom(rand) && Resolvable(g, es) && i < |es| && j < |es|
    requires DetectDeadlocks(es) == [(i, j)] && rand(cursor) < 0.5
    requires FindSafePosition(ClearOccupied(g, es[i]), es[i], rand, cursor + 1, 0).0.None?
    ensures ResolveDeadlocks(g, es, rand, cursor).0 == ClearOccupied(g, es[i])
    ensures ResolveDeadlocks(g, es, rand, cursor).1 == es
    ensures forall r, c :: g.OnBoard(r, c) && InRect(es[i], r, c) ==> !ResolveDeadlocks(g, es, rand, cursor).0.occupied[r][c]
  {
    var step := MoveOne(g, es, i, rand, cursor + 1);
    assert step.0 == ClearOccupied(g, es[i]) && step.1 == es;
    assert ResolvePairs(step.0, step.1, [(i, j)], 1, rand, step.2).1 == es;
  }

  const StuckRight: Element := Element("arrow-1", "arrow", Right, 2, 1, 0, 0)
  const StuckLeft: Element := Element("arrow-2", "arrow", Left, 2, 1, 2, 0)
  const StuckBoard: Generator := Generator(1, 4, [[true, true, true, true]])

  /** The stream that picks the first arrow of a pair and then always draws
      0.5. */
  function StuckStream(): (rand: Random)
    ensures IsRandom(rand)
  {
    i => if i == 0 then 0.0 else 0.5
  }

  lemma StuckPairIsDetected(es: seq<Element>)
    requires es == [StuckRight, StuckLeft]
    ensures DetectDeadlocks(es) == [(0, 1)]
  {
    assert LegacyIsDeadlock(StuckRight, StuckLeft);
    assert PairsFrom(es, LegacyIsDeadlock, 1, 2) == PairsFrom(es, LegacyIsDeadlock, 2, 3) == [];
    assert PairsFrom(es, LegacyIsDeadlock, 0, 2) == [];
  }

  lemma StuckBoardResolvable(g: Generator, es: seq<Element>)
    requires g == StuckBoard && es == [StuckRight, StuckLeft]
    ensures Resolvable(g, es)
  {
    forall r, c | g.OnBoard(r, c) && g.occupied[r][c]
      ensures exists k :: 0 <= k < |es| && InRect(es[k], r, c)
    {
      if c < 2 {
        assert InRect(es[0], r, c);
      } else {
        assert InRect(es[1], r, c);
      }
    }
  }

  /** With column 2 taken, the two-wide spot drawn from 0.5 on a 1 x 4
      board, column 1, does not fit. */
  lemma HalfDrawBlocked(h: Generator, e: Element)
    requires h.Valid() && h.rows == 1 && h.cols == 4 && h.occupied[0][2]
    requires e.width == 2 && e.height == 1
    ensures !IsValidPosition(h, MoveTo(e, GetRandomPosition(h, 0.5, 0.5, e.width, e.height)))
  {
    FloorWithin(0.5 * (3 as real), 1, 2);
    FloorWithin(0.5 * (1 as real), 0, 1);
    assert GetRandomPosition(h, 0.5, 0.5, 2, 1) == (1, 0);
    assert InRect(MoveTo(e, (1, 0)), 0, 2);
  }

  lemma StuckRightFindsNoSpot(g: Generator, e: Element, rand: Random, cursor: nat)
    requires g == StuckBoard && e == StuckRight && rand == StuckStream() && cursor >= 1
    ensures FindSafePosition(ClearOccupied(g, e), e, rand, cursor, 0).0.None?
  {
    var cleared := ClearOccupied(g, e);
    assert g.OnBoard(0, 2) && !InRect(e, 0, 2);
    HalfDrawBlocked(cleared, e);
    assert forall i :: cursor <= i ==> rand(i) == 0.5;
    RepeatedSpotFails(cleared, e, rand, cursor, 0, 0.5);
  }

  /** When no safe spot is found, the arrow picked to move stays where it
      was but its cells are left marked free: on a 1 x 4 board holding a
      right arrow at column 0 and a left arrow at column 2, a stream that
      first picks the right arrow and then always draws 0.5 leaves the right
      arrow in place over a free cell. */
  lemma ClearedCellsStayFree(g: Generator, es: seq<Element>, rand: Random)
    requires g == StuckBoard && es == [StuckRight, StuckLeft] && rand == StuckStream()
    ensures IsRandom(rand) && Resolvable(g, es)
    ensures ResolveDeadlocks(g, es, rand, 0).1 == es
    ensures g.OnBoard(0, 0) && InRect(es[0], 0, 0)
    ensures forall r, c :: g.OnBoard(r, c) && InRect(es[0], r, c) ==> !ResolveDeadlocks(g, es, rand, 0).0.occupied[r][c]
  {
    StuckBoardResolvable(g, es);
    StuckPairIsDetected(es);
    var cursor: nat := 0;
    StuckRightFindsNoSpot(g, es[0], rand, cursor + 1);
    LoneStuckPair(g, es, rand, cursor, 0, 1);
  }
}
