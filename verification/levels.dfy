/** The level-file data of src/lib/types/level.ts, shared by the batch
    generator, the static level service and the game store. */
module Levels {
  import opened Common
  import opened Geometry

  datatype Difficulty = Easy | Medium | Hard | Expert

  /** The difficulty's key as it appears in level files. */
  function DifficultyName(d: Difficulty): string
  {
    match d
    case Easy => "easy"
    case Medium => "medium"
    case Hard => "hard"
    case Expert => "expert"
  }

  /** Reads a difficulty key; any other string is not a difficulty. */
  function ParseDifficulty(s: string): (r: Option<Difficulty>)
    ensures r.Some? <==> exists d :: DifficultyName(d) == s
    ensures r.Some? ==> DifficultyName(r.value) == s
  {
    if s == "easy" then assert DifficultyName(Easy) == s; Some(Easy)
    else if s == "medium" then assert DifficultyName(Medium) == s; Some(Medium)
    else if s == "hard" then assert DifficultyName(Hard) == s; Some(Hard)
    else if s == "expert" then assert DifficultyName(Expert) == s; Some(Expert)
    else None
  }

  /** Difficulty keys are read back as the difficulty they name. */
  lemma ParseDifficultyName(d: Difficulty)
    ensures ParseDifficulty(DifficultyName(d)) == Some(d)
  {
  }

  /** LevelArrowData: an arrow stored by its anchor cell. */
  datatype LevelArrow = LevelArrow(id: int, direction: Direction, position: Cell)

  /** LevelConfig */
  datatype LevelConfig = LevelConfig(rows: int, cols: int, gridGap: int, gridSize: int, offsetX: int, offsetY: int)
  {
    function Frame(): PixelFrame
    {
      PixelFrame(gridSize, offsetX, offsetY, gridGap)
    }
  }

  /** The metadata record; the creation time is an opaque string. The
      optional estimatedSolveTime and tags are never written by the core. */
  datatype LevelMetadata = LevelMetadata(createdAt: string, generationAttempts: int, isValid: bool)

  /** LevelData */
  datatype LevelData = LevelData(id: string, name: string, difficulty: Difficulty, config: LevelConfig,
                                 arrows: seq<LevelArrow>, metadata: LevelMetadata)

  /** The per-difficulty level counts of a pack or of the statistics. */
  datatype Distribution = Distribution(easy: nat, medium: nat, hard: nat, expert: nat)
  {
    function Total(): nat
    {
      easy + medium + hard + expert
    }

    /** The count of one difficulty. */
    function Of(d: Difficulty): nat
    {
      match d
      case Easy => easy
      case Medium => medium
      case Hard => hard
      case Expert => expert
    }
  }

  /** LevelPack, its metadata flattened into the record. */
  datatype LevelPack = LevelPack(id: string, name: string, description: string, version: string,
                                 levels: seq<LevelData>, createdAt: string, totalLevels: int,
                                 distribution: Distribution)

  function HasDifficulty(d: Difficulty): LevelData -> bool
  {
    (l: LevelData) => l.difficulty == d
  }

  /** `levels.filter(l => l.difficulty === d).length` for each difficulty. */
  function DistributionOf(levels: seq<LevelData>): (dist: Distribution)
    ensures dist.Total() == |levels|
  {
    DistributionCounts(levels);
    Distribution(Count(levels, HasDifficulty(Easy)), Count(levels, HasDifficulty(Medium)),
                 Count(levels, HasDifficulty(Hard)), Count(levels, HasDifficulty(Expert)))
  }

  /** Every level has exactly one of the four difficulties, so the four
      filters partition the list. */
  lemma {:induction false} DistributionCounts(levels: seq<LevelData>)
    ensures Count(levels, HasDifficulty(Easy)) + Count(levels, HasDifficulty(Medium))
            + Count(levels, HasDifficulty(Hard)) + Count(levels, HasDifficulty(Expert)) == |levels|
  {
    if |levels| > 0 {
      DistributionCounts(levels[1..]);
      CountCons(levels, HasDifficulty(Easy));
      CountCons(levels, HasDifficulty(Medium));
      CountCons(levels, HasDifficulty(Hard));
      CountCons(levels, HasDifficulty(Expert));
    }
  }

  /** A legal board: ids 1..n in order, every footprint on the board and
      no two footprints sharing a cell. */
  ghost predicate WellPlaced(level: LevelData)
  {
    var arrows := level.arrows;
    && (forall k :: 0 <= k < |arrows| ==>
          && arrows[k].id == k + 1
          && InBounds(arrows[k].position, level.config.rows, level.config.cols)
          && InBounds(SecondCell(arrows[k].position, arrows[k].direction), level.config.rows, level.config.cols))
    && (forall k1, k2, c ::
          (0 <= k1 < |arrows| && 0 <= k2 < |arrows| && k1 != k2
           && c in Footprint(arrows[k1].position, arrows[k1].direction)) ==>
          c !in Footprint(arrows[k2].position, arrows[k2].direction))
  }
}
