/** The game store of src/lib/store/gameSlice.ts: the synchronous reducers
    over the runtime arrow list, the pending/fulfilled/rejected transitions
    of the four loading thunks, and the thunk bodies as functions from the
    level store to an outcome. Redux's immer drafts become pure functions
    from state to state. */
module GameSlice {
  import opened Common
  import opened Geometry
  import opened Levels
  import opened StaticLevelService

  /** GameState */
  datatype GameState = GameState(availableLevels: seq<LevelData>, currentLevel: Option<LevelData>,
                                 currentArrows: seq<ArrowData>, isLoading: bool,
                                 loadingError: Option<string>, levelPacks: seq<LevelPack>)

  const InitialState: GameState := GameState([], None, [], false, None, [])

  /** `Partial<ArrowData>`: the fields a patch sets. */
  datatype ArrowPatch = ArrowPatch(id: Option<int>, direction: Option<Direction>,
                                   pixel: Option<Pixel>, isMoving: Option<bool>)

  /** `{ ...a, ...patch }` */
  function Merge(a: ArrowData, patch: ArrowPatch): (b: ArrowData)
    ensures b.id == OrElse(patch.id, a.id)
    ensures b.direction == OrElse(patch.direction, a.direction)
    ensures b.pixel == OrElse(patch.pixel, a.pixel)
    ensures b.isMoving == OrElse(patch.isMoving, a.isMoving)
  {
    ArrowData(OrElse(patch.id, a.id), OrElse(patch.direction, a.direction),
              OrElse(patch.pixel, a.pixel), OrElse(patch.isMoving, a.isMoving))
  }

  /** `findIndex(a => a.id === id)`, with -1 as None. */
  function FindIndex(arrows: seq<ArrowData>, id: int): (r: Option<nat>)
    ensures r.None? <==> forall k :: 0 <= k < |arrows| ==> arrows[k].id != id
    ensures r.Some? ==> r.value < |arrows| && arrows[r.value].id == id
                        && forall k :: 0 <= k < r.value ==> arrows[k].id != id
  {
    if |arrows| == 0 then None
    else if arrows[0].id == id then Some(0)
    else
      var r := FindIndex(arrows[1..], id);
      assert forall k :: 1 <= k < |arrows| ==> arrows[k] == arrows[1..][k - 1];
      if r.Some? then Some(r.value + 1) else None
  }

  /** updateArrow on the list: the first arrow with that id gets the patch,
      every other arrow is kept as it was; an unknown id changes nothing. */
  function UpdateArrows(arrows: seq<ArrowData>, id: int, patch: ArrowPatch): (r: seq<ArrowData>)
    ensures |r| == |arrows|
    ensures (forall k :: 0 <= k < |arrows| ==> arrows[k].id != id) ==> r == arrows
    ensures forall k :: 0 <= k < |arrows| ==>
      r[k] == if arrows[k].id == id && (forall j :: 0 <= j < k ==> arrows[j].id != id)
              then Merge(arrows[k], patch) else arrows[k]
  {
    match FindIndex(arrows, id)
    case None => arrows
    case Some(i) => arrows[i := Merge(arrows[i], patch)]
  }

  /** removeArrow on the list: exactly the arrows with another id remain,
      and they keep their order. */
  function RemoveArrows(arrows: seq<ArrowData>, id: int): (r: seq<ArrowData>)
    ensures forall a :: a in r <==> a in arrows && a.id != id
    ensures |r| + Count(arrows, (a: ArrowData) => a.id == id) == |arrows|
  {
    if |arrows| == 0 then []
    else if arrows[0].id == id then RemoveArrows(arrows[1..], id)
    else [arrows[0]] + RemoveArrows(arrows[1..], id)
  }

  /** Removing twice is removing once. */
  lemma {:induction false} RemoveIdempotent(arrows: seq<ArrowData>, id: int)
    ensures RemoveArrows(RemoveArrows(arrows, id), id) == RemoveArrows(arrows, id)
  {
    if |arrows| > 0 {
      RemoveIdempotent(arrows[1..], id);
      if arrows[0].id != id {
        var rest := RemoveArrows(arrows[1..], id);
        assert ([arrows[0]] + rest)[1..] == rest;
      }
    }
  }

  /** Removal distributes over concatenation. */
  lemma {:induction false} RemoveConcat(a: seq<ArrowData>, b: seq<ArrowData>, id: int)
    ensures RemoveArrows(a + b, id) == RemoveArrows(a, id) + RemoveArrows(b, id)
  {
    if |a| == 0 {
      assert a + b == b;
    } else {
      assert (a + b)[1..] == a[1..] + b;
      RemoveConcat(a[1..], b, id);
    }
  }

  /** Removing an arrow's id undoes adding it. */
  lemma AddThenRemove(arrows: seq<ArrowData>, a: ArrowData)
    ensures RemoveArrows(arrows + [a], a.id) == RemoveArrows(arrows, a.id)
  {
    RemoveConcat(arrows, [a], a.id);
    assert RemoveArrows([a], a.id) == [];
  }

  /** The `payload` of a fulfilled thunk: the loaders return the store's
      levels and packs, the level loaders a level with its runtime arrows. */
  datatype Payload = LevelsLoaded(levels: seq<LevelData>, levelPacks: seq<LevelPack>)
                   | LevelLoaded(level: LevelData, arrows: seq<ArrowData>)

  /** The outcome of a thunk body: `return { ... }` or `rejectWithValue(msg)`. */
  datatype Outcome = Fulfilled(payload: Payload) | Rejected(message: string)

  datatype Thunk = LoadDefaultLevels | LoadLevel | LoadFirstAvailableLevel | ReloadLevels

  /** The thunks that fulfil with a level and its arrows; the others fulfil
      with the level lists. */
  predicate LoadsOneLevel(t: Thunk)
  {
    t == LoadLevel || t == LoadFirstAvailableLevel
  }

  datatype Action =
    | SetCurrentArrows(arrows: seq<ArrowData>)
    | UpdateArrow(id: int, patch: ArrowPatch)
    | AddArrow(arrow: ArrowData)
    | RemoveArrow(removeId: int)
    | ClearLoadingError
    | ResetGameState
    | Pending(thunk: Thunk)
    | Settled(settled: Thunk, outcome: Outcome)

  /** The slice reducer. A fulfilled action of a thunk whose payload has the
      other shape (which the thunks never produce) is taken as the
      corresponding field writes anyway. */
  function Reduce(s: GameState, action: Action): (r: GameState)
    ensures action.Pending? ==>
      r.isLoading && r.loadingError.None? && r.(isLoading := s.isLoading, loadingError := s.loadingError) == s
    ensures action.Settled? && action.outcome.Rejected? ==>
      !r.isLoading && r.loadingError == Some(action.outcome.message)
      && r.(isLoading := s.isLoading, loadingError := s.loadingError) == s
    ensures action.Settled? && action.outcome.Fulfilled? ==> !r.isLoading && r.loadingError.None?
    ensures action.Settled? && action.outcome.Fulfilled? && action.outcome.payload.LevelLoaded? ==>
      r.currentLevel == Some(action.outcome.payload.level) && r.currentArrows == action.outcome.payload.arrows
      && r.availableLevels == s.availableLevels && r.levelPacks == s.levelPacks
    ensures action.Settled? && action.outcome.Fulfilled? && action.outcome.payload.LevelsLoaded? ==>
      r.availableLevels == action.outcome.payload.levels && r.levelPacks == action.outcome.payload.levelPacks
      && r.currentLevel == s.currentLevel && r.currentArrows == s.currentArrows
    ensures action.ResetGameState? ==>
      r.currentLevel.None? && r.currentArrows == [] && r.loadingError.None?
      && r.availableLevels == s.availableLevels && r.levelPacks == s.levelPacks && r.isLoading == s.isLoading
    ensures action.ClearLoadingError? ==> r == s.(loadingError := None)
    ensures action.AddArrow? ==> r == s.(currentArrows := s.currentArrows + [action.arrow])
    ensures action.SetCurrentArrows? ==> r == s.(currentArrows := action.arrows)
    ensures action.UpdateArrow? ==> r.(currentArrows := s.currentArrows) == s
    ensures action.RemoveArrow? ==> r.(currentArrows := s.currentArrows) == s
  {
    match action
    case SetCurrentArrows(arrows) => s.(currentArrows := arrows)
    case UpdateArrow(id, patch) => s.(currentArrows := UpdateArrows(s.currentArrows, id, patch))
    case AddArrow(a) => s.(currentArrows := s.currentArrows + [a])
    case RemoveArrow(id) => s.(currentArrows := RemoveArrows(s.currentArrows, id))
    case ClearLoadingError => s.(loadingError := None)
    case ResetGameState => s.(currentLevel := None, currentArrows := [], loadingError := None)
    case Pending(_) => s.(isLoading := true, loadingError := None)
    case Settled(_, Rejected(message)) => s.(isLoading := false, loadingError := Some(message))
    case Settled(_, Fulfilled(LevelsLoaded(levels, packs))) =>
      s.(isLoading := false, availableLevels := levels, levelPacks := packs, loadingError := None)
    case Settled(_, Fulfilled(LevelLoaded(level, arrows))) =>
      s.(isLoading := false, currentLevel := Some(level), currentArrows := arrows, loadingError := None)
  }

  /** Whether loading the level file succeeded, and the message of the
      error it threw otherwise. */
  datatype Load = Loaded(store: Store) | Failed(message: string)

  /** loadDefaultLevels and reloadLevels: the store's levels sorted by
      difficulty and then name, and its packs, or the error message behind
      the thunk's prefix. The order decides which level
      loadFirstAvailableLevel picks. */
  function LoadLevelsBody(load: Load, cmp: (string, string) -> int, prefix: string): (o: Outcome)
    requires TotalPreorder(cmp)
    ensures load.Failed? <==> o.Rejected?
    ensures load.Failed? ==> o.message == prefix + load.message
    ensures load.Loaded? ==>
              && o.payload.LevelsLoaded?
              && multiset(o.payload.levels) == multiset(load.store.levels)
              && o.payload.levelPacks == load.store.packs
    ensures load.Loaded? ==>
              forall i, j :: 0 <= i < j < |o.payload.levels| ==>
                DifficultyOrder(o.payload.levels[i].difficulty) < DifficultyOrder(o.payload.levels[j].difficulty)
                || (o.payload.levels[i].difficulty == o.payload.levels[j].difficulty
                    && cmp(o.payload.levels[i].name, o.payload.levels[j].name) <= 0)
    ensures load.Loaded? ==> o.payload.levels == GetAllLevels(load.store, cmp)
  {
    match load
    case Failed(message) => Rejected(prefix + message)
    case Loaded(store) => Fulfilled(LevelsLoaded(GetAllLevels(store, cmp), GetAllLevelPacks(store)))
  }

  const LoadDefaultPrefix: string := "关卡系统加载失败: "
  const ReloadPrefix: string := "关卡重新加载失败: "

  /** loadLevel: rejected exactly when the store has no level with that id;
      otherwise the level with its arrows converted to pixels. */
  function LoadLevelBody(store: Store, levelId: string): (o: Outcome)
    ensures o.Rejected? <==> forall k :: 0 <= k < |store.levels| ==> store.levels[k].id != levelId
    ensures o.Rejected? ==> o.message == "关卡不存在: " + levelId
    ensures o.Fulfilled? ==>
              && o.payload.LevelLoaded? && o.payload.level in store.levels
              && o.payload.level.id == levelId
              && o.payload.arrows == ConvertLevelArrowsToRuntime(o.payload.level)
  {
    match GetLevel(store, levelId)
    case None => Rejected("关卡不存在: " + levelId)
    case Some(level) => Fulfilled(LevelLoaded(level, ConvertLevelArrowsToRuntime(level)))
  }

  /** loadFirstAvailableLevel: rejected exactly when no level is available;
      otherwise the first available level. */
  function LoadFirstAvailableLevelBody(s: GameState): (o: Outcome)
    ensures o.Rejected? <==> s.availableLevels == []
    ensures o.Rejected? ==> o.message == "没有可用的关卡"
    ensures o.Fulfilled? ==> o.payload == LevelLoaded(s.availableLevels[0], ConvertLevelArrowsToRuntime(s.availableLevels[0]))
  {
    if |s.availableLevels| == 0 then Rejected("没有可用的关卡")
    else
      var first := s.availableLevels[0];
      Fulfilled(LevelLoaded(first, ConvertLevelArrowsToRuntime(first)))
  }

  /** Every thunk fulfils with the payload shape its fulfilled case reads.
      `store` is the service's cache when the thunk runs and `load` the
      result of the file load the two loaders await. */
  function RunThunk(t: Thunk, s: GameState, store: Store, load: Load, levelId: string,
                    cmp: (string, string) -> int): (o: Outcome)
    requires TotalPreorder(cmp)
    ensures o.Fulfilled? ==> (o.payload.LevelLoaded? <==> LoadsOneLevel(t))
  {
    match t
    case LoadDefaultLevels => LoadLevelsBody(load, cmp, LoadDefaultPrefix)
    case ReloadLevels => LoadLevelsBody(load, cmp, ReloadPrefix)
    case LoadLevel => LoadLevelBody(store, levelId)
    case LoadFirstAvailableLevel => LoadFirstAvailableLevelBody(s)
  }

  /** A dispatched thunk: pending, then its outcome. Afterwards nothing is
      loading, and the error is set exactly when the thunk was rejected. */
  lemma DispatchSettles(t: Thunk, s: GameState, o: Outcome)
    ensures var r := Reduce(Reduce(s, Pending(t)), Settled(t, o));
            !r.isLoading && (r.loadingError.Some? <==> o.Rejected?)
  {
  }

  /** Loading the first available level sets it as the current level, and a
      state with no levels keeps its level and arrows and records the error. */
  lemma FirstLevelDispatch(s: GameState)
    ensures var r := Reduce(Reduce(s, Pending(LoadFirstAvailableLevel)),
                           Settled(LoadFirstAvailableLevel, LoadFirstAvailableLevelBody(s)));
            && (s.availableLevels != [] ==> r.currentLevel == Some(s.availableLevels[0]))
            && (s.availableLevels == [] ==>
                  r.currentLevel == s.currentLevel && r.currentArrows == s.currentArrows
                  && r.loadingError == Some("没有可用的关卡"))
  {
  }
}
