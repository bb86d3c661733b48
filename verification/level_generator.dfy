/** The batch level generator of src/lib/generators/LevelGenerator.ts:
    the difficulty table, the arrow-count rule, the pixel-to-cell
    back-conversion and the assembly of levels, batches and packs.

    The arrow controller it calls is a pass-through to the random layout
    generator of ArrowService, so generateArrows is called directly. Every
    call draws from its own random stream: `rands(t)` is the stream of the
    t-th call, and batch functions thread the call counter `t`. Creation
    times are an opaque input. */
module LevelGenerator {
  import opened Common
  import opened Geometry
  import opened Levels
  import ArrowService

  /** The four difficulty rows of getDifficultyConfig. */
  function TableConfig(d: Difficulty): LevelConfig
  {
    match d
    case Easy => LevelConfig(4, 4, 3, 80, 20, 20)
    case Medium => LevelConfig(6, 6, 2, 60, 20, 20)
    case Hard => LevelConfig(8, 8, 2, 50, 25, 25)
    case Expert => LevelConfig(10, 10, 1, 40, 30, 30)
  }

  /** getDifficultyConfig: the table row of a known key, the medium row for
      any other key. */
  function DifficultyConfig(key: string): (config: LevelConfig)
    ensures ParseDifficulty(key).Some? ==> config == TableConfig(ParseDifficulty(key).value)
    ensures ParseDifficulty(key).None? ==> config == TableConfig(Medium)
    ensures config.rows == config.cols && config.rows in {4, 6, 8, 10}
    ensures config.rows >= 1 && config.gridSize >= 1 && config.gridGap >= 1
  {
    match ParseDifficulty(key)
    case Some(d) => TableConfig(d)
    case None => TableConfig(Medium)
  }

  /** The board side grows with the difficulty: 4, 6, 8 and 10 cells. */
  lemma DifficultyBoards()
    ensures DifficultyConfig("easy").rows == 4 && DifficultyConfig("medium").rows == 6
    ensures DifficultyConfig("hard").rows == 8 && DifficultyConfig("expert").rows == 10
  {
    ParseDifficultyName(Easy);
    ParseDifficultyName(Medium);
    ParseDifficultyName(Hard);
    ParseDifficultyName(Expert);
  }

  /** The multiplier of getArrowCount; 0.75 for an unknown key. */
  function Multiplier(key: string): real
  {
    match ParseDifficulty(key)
    case Some(Easy) => 0.5
    case Some(Hard) => 1.0
    case Some(Expert) => 1.25
    case _ => 0.75
  }

  /** getArrowCount: 15% of the cells, scaled by the difficulty's
      multiplier, and never fewer than two arrows. */
  function ArrowCount(key: string, rows: int, cols: int): (n: int)
    ensures n >= 2
    ensures n == Max(2, ((((rows * cols) as real * 0.15).Floor as real) * Multiplier(key)).Floor)
  {
    var baseCount := ((rows * cols) as real * 0.15).Floor;
    Max(2, (baseCount as real * Multiplier(key)).Floor)
  }

  /** The arrow counts of the four difficulties: 2, 3, 9 and 18. */
  lemma DifficultyArrowCounts()
    ensures ArrowCount("easy", 4, 4) == 2 && ArrowCount("medium", 6, 6) == 3
    ensures ArrowCount("hard", 8, 8) == 9 && ArrowCount("expert", 10, 10) == 18
  {
    ParseDifficultyName(Easy);
    ParseDifficultyName(Medium);
    ParseDifficultyName(Hard);
    ParseDifficultyName(Expert);
  }

  /** convertToLevelArrowData: each arrow keeps its id and direction and is
      stored at the cell nearest to its pixel position. */
  function ConvertToLevelArrowData(arrows: seq<ArrowData>, config: LevelConfig): (r: seq<LevelArrow>)
    requires config.Frame().Pitch() != 0
    ensures |r| == |arrows|
    ensures forall k :: 0 <= k < |arrows| ==> r[k].id == arrows[k].id && r[k].direction == arrows[k].direction
    ensures forall k :: 0 <= k < |arrows| && config.Frame().Pitch() > 0 ==>
      var u := config.Frame().Pitch();
      && 2 * r[k].position.row * u - u <= 2 * (arrows[k].pixel.y - config.offsetY) < 2 * r[k].position.row * u + u
      && 2 * r[k].position.col * u - u <= 2 * (arrows[k].pixel.x - config.offsetX) < 2 * r[k].position.col * u + u
  {
    seq(|arrows|, k requires 0 <= k < |arrows| =>
      LevelArrow(arrows[k].id, arrows[k].direction, PixelToGrid(arrows[k].pixel, config.Frame())))
  }

  /** An arrow standing exactly on a cell's pixel origin converts back to
      that cell. */
  lemma ConvertInvertsGridToPixel(arrows: seq<ArrowData>, cells: seq<Cell>, config: LevelConfig)
    requires config.Frame().Pitch() != 0 && |cells| == |arrows|
    requires forall k :: 0 <= k < |arrows| ==> arrows[k].pixel == GridToPixel(cells[k], config.Frame())
    ensures forall k :: 0 <= k < |arrows| ==> ConvertToLevelArrowData(arrows, config)[k].position == cells[k]
  {
    forall k | 0 <= k < |arrows|
      ensures ConvertToLevelArrowData(arrows, config)[k].position == cells[k]
    {
      PixelRoundTrip(cells[k], config.Frame());
    }
  }

  /** The controller configuration of one level of difficulty `d`. */
  function Request(d: Difficulty): (cfg: ArrowService.GenerationConfig)
    ensures cfg.Convertible() && cfg.Frame().Pitch() > 0
    ensures cfg.Frame() == DifficultyConfig(DifficultyName(d)).Frame()
  {
    var key := DifficultyName(d);
    var config := DifficultyConfig(key);
    ArrowService.GenerationConfig(config.rows, config.cols, config.gridGap, config.gridSize,
                                  ArrowCount(key, config.rows, config.cols), config.offsetX, config.offsetY)
  }

  /** The name a level gets: the given one unless it is missing or empty. */
  function LevelName(levelId: string, d: Difficulty, name: Option<string>): string
  {
    if name.Some? && name.value != "" then name.value else DifficultyName(d) + "_level_" + levelId
  }

  /** generateLevel: null when the controller reports failure; otherwise a
      level of the requested difficulty on its table board, marked valid,
      recording the controller's attempt count, whose arrows form a legal
      board. */
  function GenerateLevel(levelId: string, d: Difficulty, name: Option<string>, rand: Random, createdAt: string)
    : (r: Option<LevelData>)
    requires IsRandom(rand)
    ensures r.None? <==> !ArrowService.GenerateArrows(Request(d), rand).success
    ensures r.Some? ==>
      && r.value.id == levelId && r.value.name == LevelName(levelId, d, name) && r.value.difficulty == d
      && r.value.config == DifficultyConfig(DifficultyName(d))
      && r.value.metadata.isValid && r.value.metadata.createdAt == createdAt
      && r.value.metadata.generationAttempts == ArrowService.GenerateArrows(Request(d), rand).attempts
      && 1 <= r.value.metadata.generationAttempts <= ArrowService.MaxLayoutAttempts
      && |r.value.arrows| == Request(d).arrowCount
      && WellPlaced(r.value)
  {
    var config := DifficultyConfig(DifficultyName(d));
    var result := ArrowService.GenerateArrows(Request(d), rand);
    if !result.success then None
    else
      var level := LevelData(levelId, LevelName(levelId, d, name), d, config,
                             ConvertToLevelArrowData(result.arrows, config),
                             LevelMetadata(createdAt, result.attempts, true));
      LayoutIsWellPlaced(Request(d), result.arrows, level);
      Some(level)
  }

  /** A layout the service accepts, converted back to cells, is a legal
      board: the conversion recovers the cells the arrows were placed on. */
  lemma LayoutIsWellPlaced(cfg: ArrowService.GenerationConfig, arrows: seq<ArrowData>, level: LevelData)
    requires cfg.Frame().Pitch() != 0 && ArrowService.IsLayout(cfg, arrows)
    requires level.config.Frame() == cfg.Frame()
    requires level.config.rows == cfg.rows && level.config.cols == cfg.cols
    requires level.arrows == ConvertToLevelArrowData(arrows, level.config)
    ensures WellPlaced(level)
  {
    var f := cfg.Frame();
    assert forall k :: 0 <= k < |arrows| ==> level.arrows[k].position == ArrowService.AnchorOf(arrows[k], f);
  }

  /** A stream of random streams, one per generateLevel call. */
  type Streams = nat -> Random

  ghost predicate AllRandom(rands: Streams)
  {
    forall t :: IsRandom(rands(t))
  }

  /** n zero digits. */
  function Zeros(n: nat): string
  {
    seq(n, _ => '0')
  }

  /** `String(i).padStart(3, '0')`: zeros in front up to length three. */
  function PadStart3(s: string): (p: string)
    ensures p == Zeros(Max(3 - |s|, 0)) + s
    decreases 3 - |s|
  {
    if |s| >= 3 then
      assert Zeros(0) + s == s;
      s
    else
      assert Zeros(Max(3 - |s|, 0)) + s == Zeros(Max(3 - |"0" + s|, 0)) + ("0" + s);
      PadStart3("0" + s)
  }

  /** Drops the leading zeros of a digit string. */
  function Unpad(p: string): string
  {
    if |p| > 0 && p[0] == '0' then Unpad(p[1..]) else p
  }

  /** Padding a string without a leading zero can be undone. */
  lemma {:induction false} UnpadZeros(n: nat, s: string)
    requires |s| > 0 && s[0] != '0'
    ensures Unpad(Zeros(n) + s) == s
  {
    if n > 0 {
      assert (Zeros(n) + s)[1..] == Zeros(n - 1) + s;
      UnpadZeros(n - 1, s);
    } else {
      assert Zeros(n) + s == s;
    }
  }

  /** The id of the i-th level of a batch, e.g. "easy_007". */
  function LevelId(d: Difficulty, i: nat): string
  {
    DifficultyName(d) + "_" + PadStart3(NatToString(i))
  }

  /** Different positions in a batch get different level ids. */
  lemma {:induction false} LevelIdInjective(d: Difficulty, i: nat, j: nat)
    requires i >= 1 && j >= 1 && LevelId(d, i) == LevelId(d, j)
    ensures i == j
  {
    var pre := DifficultyName(d) + "_";
    var si, sj := NatToString(i), NatToString(j);
    assert PadStart3(si) == LevelId(d, i)[|pre|..] == LevelId(d, j)[|pre|..] == PadStart3(sj);
    LeadingDigit(i);
    LeadingDigit(j);
    UnpadZeros(Max(3 - |si|, 0), si);
    UnpadZeros(Max(3 - |sj|, 0), sj);
    NatToStringInjective(i, j);
  }

  /** The level name generateLevels asks for: `${namePrefix} ${i}`. */
  function BatchName(prefix: string, i: nat): string
  {
    prefix + " " + NatToString(i)
  }

  /** The result of call `t` for the i-th level of a batch. */
  function BatchCall(d: Difficulty, prefix: string, i: nat, rands: Streams, t: nat, createdAt: string): Option<LevelData>
    requires AllRandom(rands)
  {
    GenerateLevel(LevelId(d, i), d, Some(BatchName(prefix, i)), rands(t), createdAt)
  }

  /** The outcomes of successive generateLevel calls, by call number. */
  type Outcomes = nat -> Option<LevelData>

  /** The calls made for the i-th level of a batch. */
  function BatchCalls(d: Difficulty, prefix: string, i: nat, rands: Streams, createdAt: string): (calls: Outcomes)
    requires AllRandom(rands)
    ensures forall u :: calls(u) == BatchCall(d, prefix, i, rands, u, createdAt)
  {
    (u: nat) => BatchCall(d, prefix, i, rands, u, createdAt)
  }

  /** The retry loop of generateLevels (`while (!level && retries <
      maxRetries)`): calls t, t+1, ... until one succeeds or maxRetries
      calls have been made; it fails only when every call it made failed. */
  function Retry(calls: Outcomes, maxRetries: int, t: nat, retries: nat): (r: (Option<LevelData>, nat))
    ensures t <= r.1 <= t + Max(maxRetries - retries, 0)
    ensures forall u :: t <= u < r.1 - 1 ==> calls(u).None?
    ensures r.0.Some? ==> t < r.1 && r.0 == calls(r.1 - 1)
    ensures r.0.None? ==> r.1 == t + Max(maxRetries - retries, 0) && forall u :: t <= u < r.1 ==> calls(u).None?
    decreases Max(maxRetries - retries, 0)
  {
    if retries < maxRetries then
      if calls(t).Some? then (calls(t), t + 1)
      else Retry(calls, maxRetries, t + 1, retries + 1)
    else (None, t)
  }

  /** What every level of a batch of difficulty `d` satisfies. */
  ghost predicate BatchLevel(level: LevelData, d: Difficulty)
  {
    && level.difficulty == d && level.config == DifficultyConfig(DifficultyName(d))
    && level.metadata.isValid && WellPlaced(level)
  }

  /** The level carries the id and name of some index in lo..hi. */
  ghost predicate NumberedIn(level: LevelData, d: Difficulty, prefix: string, lo: int, hi: int)
  {
    exists j: nat :: lo <= j <= hi && level.id == LevelId(d, j) && level.name == BatchName(prefix, j)
  }

  /** The outcomes of the calls for every index of a batch. */
  type BatchOutcomes = nat -> Outcomes

  /** A call for index i that succeeds yields a batch level numbered i. */
  ghost predicate SoundOutcome(o: Option<LevelData>, d: Difficulty, prefix: string, i: nat)
  {
    o.Some? ==> BatchLevel(o.value, d) && o.value.id == LevelId(d, i) && o.value.name == BatchName(prefix, i)
  }

  /** Every successful call for index i yields a batch level numbered i. */
  ghost predicate SoundCalls(calls: BatchOutcomes, d: Difficulty, prefix: string)
  {
    forall i, u :: SoundOutcome(calls(i)(u), d, prefix, i)
  }

  /** generateLevel called with the batch's id and name for index i. */
  lemma BatchCallSound(d: Difficulty, prefix: string, i: nat, rands: Streams, u: nat, createdAt: string)
    requires AllRandom(rands)
    ensures SoundOutcome(BatchCall(d, prefix, i, rands, u, createdAt), d, prefix, i)
  {
    var name := BatchName(prefix, i);
    assert LevelName(LevelId(d, i), d, Some(name)) == name by {
      assert |name| > |prefix|;
    }
    GeneratedIsBatchLevel(LevelId(d, i), d, Some(name), rands(u), createdAt);
  }

  /** A level generateLevel returns is a batch level of its difficulty with
      the requested id and name. */
  lemma GeneratedIsBatchLevel(levelId: string, d: Difficulty, name: Option<string>, rand: Random, createdAt: string)
    requires IsRandom(rand)
    ensures var r := GenerateLevel(levelId, d, name, rand, createdAt);
      r.Some? ==> BatchLevel(r.value, d) && r.value.id == levelId && r.value.name == LevelName(levelId, d, name)
  {
  }

  /** The calls of generateLevels: generateLevel with the batch's id and
      name for the index, on the call's own random stream. */
  function LevelCalls(d: Difficulty, prefix: string, rands: Streams, createdAt: string): (calls: BatchOutcomes)
    requires AllRandom(rands)
    ensures forall i, u :: calls(i)(u) == BatchCall(d, prefix, i, rands, u, createdAt)
    ensures SoundCalls(calls, d, prefix)
  {
    var calls := (i: nat) => BatchCalls(d, prefix, i, rands, createdAt);
    assert SoundCalls(calls, d, prefix) by {
      forall i, u ensures SoundOutcome(calls(i)(u), d, prefix, i) {
        BatchCallSound(d, prefix, i, rands, u, createdAt);
      }
    }
    calls
  }

  /** The for-loop of generateLevels from index i to levelCount: each index
      contributes its level when one of its attempts succeeds and nothing
      otherwise. */
  function GenerateFrom(calls: BatchOutcomes, d: Difficulty, prefix: string, i: nat, levelCount: int,
                        maxRetries: int, t: nat): (r: (seq<LevelData>, nat))
    requires SoundCalls(calls, d, prefix) && i >= 1
    ensures |r.0| <= Max(levelCount - i + 1, 0)
    ensures t <= r.1 <= t + Times(levelCount - i + 1, Max(maxRetries, 0))
    ensures forall k :: 0 <= k < |r.0| ==> BatchLevel(r.0[k], d) && NumberedIn(r.0[k], d, prefix, i, levelCount)
    ensures forall k1, k2 :: 0 <= k1 < k2 < |r.0| ==> r.0[k1].id != r.0[k2].id
    decreases Max(levelCount - i + 1, 0)
  {
    if i > levelCount then ([], t)
    else
      var one := Retry(calls(i), maxRetries, t, 0);
      RetryYieldsBatchLevel(calls, d, prefix, i, maxRetries, t);
      var rest := GenerateFrom(calls, d, prefix, i + 1, levelCount, maxRetries, one.1);
      assert Times(levelCount - i + 1, Max(maxRetries, 0)) == Max(maxRetries, 0) + Times(levelCount - i, Max(maxRetries, 0));
      NumberedLater(rest.0, d, prefix, i, levelCount);
      if one.0.Some? then
        assert NumberedIn(one.0.value, d, prefix, i, levelCount);
        PrependNumbered(one.0.value, rest.0, d, prefix, i, levelCount);
        BatchHeadDistinct(d, prefix, i, one.0.value, rest.0, levelCount);
        PrependDistinct(one.0.value, rest.0);
        ([one.0.value] + rest.0, rest.1)
      else rest
  }

  /** Putting a numbered batch level in front of numbered batch levels
      keeps every level a numbered batch level. */
  lemma PrependNumbered(level: LevelData, rest: seq<LevelData>, d: Difficulty, prefix: string, lo: int, hi: int)
    requires BatchLevel(level, d) && NumberedIn(level, d, prefix, lo, hi)
    requires forall k :: 0 <= k < |rest| ==> BatchLevel(rest[k], d) && NumberedIn(rest[k], d, prefix, lo, hi)
    ensures forall k :: 0 <= k < |[level] + rest| ==>
      BatchLevel(([level] + rest)[k], d) && NumberedIn(([level] + rest)[k], d, prefix, lo, hi)
  {
    var r := [level] + rest;
    forall k | 0 <= k < |r| ensures BatchLevel(r[k], d) && NumberedIn(r[k], d, prefix, lo, hi) {
      if k > 0 {
        assert r[k] == rest[k - 1];
      }
    }
  }

  /** A level whose id no later level carries, in front of levels with
      distinct ids, keeps the ids distinct. */
  lemma PrependDistinct(level: LevelData, rest: seq<LevelData>)
    requires forall k :: 0 <= k < |rest| ==> rest[k].id != level.id
    requires forall k1, k2 :: 0 <= k1 < k2 < |rest| ==> rest[k1].id != rest[k2].id
    ensures forall k1, k2 :: 0 <= k1 < k2 < |[level] + rest| ==> ([level] + rest)[k1].id != ([level] + rest)[k2].id
  {
    var r := [level] + rest;
    forall k1, k2 | 0 <= k1 < k2 < |r| ensures r[k1].id != r[k2].id {
      assert r[k2] == rest[k2 - 1];
      if k1 > 0 {
        assert r[k1] == rest[k1 - 1];
      }
    }
  }

  /** The level the retry loop settles on for index i is a batch level
      numbered i. */
  lemma RetryYieldsBatchLevel(calls: BatchOutcomes, d: Difficulty, prefix: string, i: nat, maxRetries: int, t: nat)
    requires SoundCalls(calls, d, prefix)
    ensures SoundOutcome(Retry(calls(i), maxRetries, t, 0).0, d, prefix, i)
  {
    var one := Retry(calls(i), maxRetries, t, 0);
    if one.0.Some? {
      var u := one.1 - 1;
      assert one.0 == calls(i)(u);
    }
  }

  /** Levels numbered from i+1 on are numbered from i on. */
  lemma NumberedLater(levels: seq<LevelData>, d: Difficulty, prefix: string, i: nat, hi: int)
    requires forall k :: 0 <= k < |levels| ==> NumberedIn(levels[k], d, prefix, i + 1, hi)
    ensures forall k :: 0 <= k < |levels| ==> NumberedIn(levels[k], d, prefix, i, hi)
  {
    forall k | 0 <= k < |levels| ensures NumberedIn(levels[k], d, prefix, i, hi) {
      var j: nat :| i + 1 <= j <= hi && levels[k].id == LevelId(d, j) && levels[k].name == BatchName(prefix, j);
    }
  }

  /** n batches of m calls, written as a sum. */
  function Times(n: int, m: nat): nat
    decreases Max(n, 0)
  {
    if n <= 0 then 0 else m + Times(n - 1, m)
  }

  /** The sum is the product max(n, 0) * m. */
  lemma {:induction false} TimesIsProduct(n: int, m: nat)
    ensures Times(n, m) == Max(n, 0) * m
    decreases Max(n, 0)
  {
    if n > 0 {
      TimesIsProduct(n - 1, m);
      assert Max(n, 0) * m == (Max(n - 1, 0) + 1) * m == Max(n - 1, 0) * m + m;
    }
  }

  /** The level of index i differs in id from every later level. */
  lemma BatchHeadDistinct(d: Difficulty, prefix: string, i: nat, level: LevelData, rest: seq<LevelData>,
                          levelCount: int)
    requires i >= 1 && level.id == LevelId(d, i)
    requires forall k :: 0 <= k < |rest| ==> NumberedIn(rest[k], d, prefix, i + 1, levelCount)
    ensures forall k :: 0 <= k < |rest| ==> rest[k].id != level.id
  {
    forall k | 0 <= k < |rest| ensures rest[k].id != level.id {
      var j: nat :| i + 1 <= j <= levelCount && rest[k].id == LevelId(d, j) && rest[k].name == BatchName(prefix, j);
      if rest[k].id == level.id {
        LevelIdInjective(d, i, j);
      }
    }
  }

  /** GenerationOptions */
  datatype GenerationOptions = GenerationOptions(levelCount: int, difficulty: Difficulty,
                                                 namePrefix: Option<string>, maxRetries: Option<int>)

  /** generateLevels: at most levelCount levels with distinct ids, each of
      the requested difficulty and a legal board, using at most maxRetries
      calls per level (defaults: prefix "Level", three retries). */
  function GenerateLevels(options: GenerationOptions, rands: Streams, t: nat, createdAt: string)
    : (r: (seq<LevelData>, nat))
    requires AllRandom(rands)
    ensures |r.0| <= Max(options.levelCount, 0)
    ensures t <= r.1 <= t + Times(options.levelCount, Max(OrElse(options.maxRetries, 3), 0))
    ensures forall k :: 0 <= k < |r.0| ==> BatchLevel(r.0[k], options.difficulty)
    ensures forall k1, k2 :: 0 <= k1 < k2 < |r.0| ==> r.0[k1].id != r.0[k2].id
  {
    var prefix := OrElse(options.namePrefix, "Level");
    var maxRetries := OrElse(options.maxRetries, 3);
    GenerateFrom(LevelCalls(options.difficulty, prefix, rands, createdAt), options.difficulty, prefix, 1,
                 options.levelCount, maxRetries, t)
  }

  /** The name prefix of a pack's batch: the key with a capital letter. */
  function CapitalizedName(d: Difficulty): string
  {
    match d
    case Easy => "Easy"
    case Medium => "Medium"
    case Hard => "Hard"
    case Expert => "Expert"
  }

  /** The requested number of levels per difficulty. */
  datatype LevelCounts = LevelCounts(easy: int, medium: int, hard: int, expert: int)

  /** One difficulty's batch of a pack: nothing when its count is not
      positive. */
  function PackBatch(d: Difficulty, count: int, rands: Streams, t: nat, createdAt: string)
    : (r: (seq<LevelData>, nat))
    requires AllRandom(rands)
    ensures |r.0| <= Max(count, 0) && t <= r.1
    ensures forall k :: 0 <= k < |r.0| ==> BatchLevel(r.0[k], d)
  {
    if count > 0 then GenerateLevels(GenerationOptions(count, d, Some(CapitalizedName(d)), None), rands, t, createdAt)
    else ([], t)
  }

  /** generateLevelPack: the batches in the order easy, medium, hard,
      expert; the total is the number of levels and the distribution counts
      each difficulty's levels, so it never exceeds the request and sums to
      the total. */
  function GenerateLevelPack(packId: string, packName: string, description: string, counts: LevelCounts,
                             rands: Streams, createdAt: string): (pack: LevelPack)
    requires AllRandom(rands)
    ensures pack.id == packId && pack.name == packName && pack.description == description
    ensures pack.version == "1.0.0" && pack.createdAt == createdAt
    ensures pack.totalLevels == |pack.levels| == pack.distribution.Total()
    ensures pack.distribution.easy <= Max(counts.easy, 0) && pack.distribution.medium <= Max(counts.medium, 0)
    ensures pack.distribution.hard <= Max(counts.hard, 0) && pack.distribution.expert <= Max(counts.expert, 0)
    ensures GoodLevels(pack.levels) && RankOrdered(pack.levels)
  {
    var e := PackBatch(Easy, counts.easy, rands, 0, createdAt);
    var m := PackBatch(Medium, counts.medium, rands, e.1, createdAt);
    var h := PackBatch(Hard, counts.hard, rands, m.1, createdAt);
    var x := PackBatch(Expert, counts.expert, rands, h.1, createdAt);
    var all := e.0 + m.0 + h.0 + x.0;
    BatchCounts(e.0, m.0, h.0, x.0);
    PackOrder(e.0, m.0, h.0, x.0);
    LevelPack(packId, packName, description, "1.0.0", all, createdAt, |all|, DistributionOf(all))
  }

  /** easy < medium < hard < expert */
  function DifficultyRank(d: Difficulty): nat
  {
    match d
    case Easy => 0
    case Medium => 1
    case Hard => 2
    case Expert => 3
  }

  /** Every level is a legal board marked valid. */
  ghost predicate GoodLevels(levels: seq<LevelData>)
  {
    forall k :: 0 <= k < |levels| ==> WellPlaced(levels[k]) && levels[k].metadata.isValid
  }

  /** Easier levels come first. */
  predicate RankOrdered(levels: seq<LevelData>)
  {
    forall k1, k2 :: 0 <= k1 < k2 < |levels| ==>
      DifficultyRank(levels[k1].difficulty) <= DifficultyRank(levels[k2].difficulty)
  }

  predicate RanksWithin(levels: seq<LevelData>, lo: nat, hi: nat)
  {
    forall k :: 0 <= k < |levels| ==> lo <= DifficultyRank(levels[k].difficulty) <= hi
  }

  /** A batch of one difficulty is good, ordered, and of that rank. */
  lemma SingleBatch(levels: seq<LevelData>, d: Difficulty)
    requires forall k :: 0 <= k < |levels| ==> BatchLevel(levels[k], d)
    ensures GoodLevels(levels) && RankOrdered(levels)
    ensures RanksWithin(levels, DifficultyRank(d), DifficultyRank(d))
  {
  }

  /** Appending a batch of higher ranks keeps the order. */
  lemma JoinBatches(a: seq<LevelData>, b: seq<LevelData>, lo: nat, mid: nat, hi: nat)
    requires GoodLevels(a) && GoodLevels(b) && RankOrdered(a) && RankOrdered(b)
    requires lo <= mid <= hi && RanksWithin(a, lo, mid) && RanksWithin(b, mid, hi)
    ensures GoodLevels(a + b) && RankOrdered(a + b) && RanksWithin(a + b, lo, hi)
  {
    assert forall k :: |a| <= k < |a + b| ==> (a + b)[k] == b[k - |a|];
  }

  /** The concatenated batches of a pack are good and ordered by rank. */
  lemma PackOrder(e: seq<LevelData>, m: seq<LevelData>, h: seq<LevelData>, x: seq<LevelData>)
    requires forall k :: 0 <= k < |e| ==> BatchLevel(e[k], Easy)
    requires forall k :: 0 <= k < |m| ==> BatchLevel(m[k], Medium)
    requires forall k :: 0 <= k < |h| ==> BatchLevel(h[k], Hard)
    requires forall k :: 0 <= k < |x| ==> BatchLevel(x[k], Expert)
    ensures GoodLevels(e + m + h + x) && RankOrdered(e + m + h + x)
  {
    SingleBatch(e, Easy);
    SingleBatch(m, Medium);
    SingleBatch(h, Hard);
    SingleBatch(x, Expert);
    JoinBatches(e, m, 0, 1, 1);
    JoinBatches(e + m, h, 0, 2, 2);
    JoinBatches(e + m + h, x, 0, 3, 3);
  }

  /** Counting a batch of one difficulty finds all of it for that difficulty
      and nothing for the others. */
  lemma {:induction false} CountBatch(levels: seq<LevelData>, d: Difficulty, d': Difficulty)
    requires forall k :: 0 <= k < |levels| ==> levels[k].difficulty == d
    ensures Count(levels, HasDifficulty(d')) == if d == d' then |levels| else 0
  {
    if |levels| > 0 {
      CountBatch(levels[1..], d, d');
      CountCons(levels, HasDifficulty(d'));
    }
  }

  /** The count of one difficulty over the four batches is the size of its
      own batch. */
  lemma BatchCountOf(e: seq<LevelData>, m: seq<LevelData>, h: seq<LevelData>, x: seq<LevelData>, d': Difficulty)
    requires forall k :: 0 <= k < |e| ==> e[k].difficulty == Easy
    requires forall k :: 0 <= k < |m| ==> m[k].difficulty == Medium
    requires forall k :: 0 <= k < |h| ==> h[k].difficulty == Hard
    requires forall k :: 0 <= k < |x| ==> x[k].difficulty == Expert
    ensures Count(e + m + h + x, HasDifficulty(d')) ==
      (if d' == Easy then |e| else 0) + (if d' == Medium then |m| else 0)
      + (if d' == Hard then |h| else 0) + (if d' == Expert then |x| else 0)
  {
    CountConcat(e + m + h, x, HasDifficulty(d'));
    CountConcat(e + m, h, HasDifficulty(d'));
    CountConcat(e, m, HasDifficulty(d'));
    CountBatch(e, Easy, d');
    CountBatch(m, Medium, d');
    CountBatch(h, Hard, d');
    CountBatch(x, Expert, d');
  }

  /** The pack's distribution counts the four batches separately. */
  lemma BatchCounts(e: seq<LevelData>, m: seq<LevelData>, h: seq<LevelData>, x: seq<LevelData>)
    requires forall k :: 0 <= k < |e| ==> e[k].difficulty == Easy
    requires forall k :: 0 <= k < |m| ==> m[k].difficulty == Medium
    requires forall k :: 0 <= k < |h| ==> h[k].difficulty == Hard
    requires forall k :: 0 <= k < |x| ==> x[k].difficulty == Expert
    ensures DistributionOf(e + m + h + x) == Distribution(|e|, |m|, |h|, |x|)
  {
    BatchCountOf(e, m, h, x, Easy);
    BatchCountOf(e, m, h, x, Medium);
    BatchCountOf(e, m, h, x, Hard);
    BatchCountOf(e, m, h, x, Expert);
  }
}
