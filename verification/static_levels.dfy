/** The read-only level store of src/lib/services/StaticLevelService.ts:
    the shape validators run on a parsed level-pack file, the cache the
    validated pack is written into, and the queries over that cache.

    Parsed JSON is the `Json` datatype (numbers are integers). The cache's
    two `Map`s are sequences in insertion order with unique keys, which is
    the order `Map.prototype.values()` yields. `localeCompare` is an
    abstract comparator `cmp` that is a total preorder. Fetching the file
    and the singleton are not part of this model. */
module StaticLevelService {
  import opened Common
  import opened Geometry
  import opened Levels
  import LevelGenerator

  // ---------------------------------------------------------------------
  // Parsed JSON and the validators

  datatype Json = JNull | JBool(b: bool) | JNum(n: int) | JStr(s: string)
                | JArr(items: seq<Json>) | JObj(fields: seq<(string, Json)>)

  /** JavaScript truthiness of a parsed value. */
  predicate Truthy(v: Json)
  {
    match v
    case JNull => false
    case JBool(b) => b
    case JNum(n) => n != 0
    case JStr(s) => s != ""
    case _ => true
  }

  /** `!v || typeof v !== 'object'` fails: arrays and objects, not null. */
  predicate IsObject(v: Json)
  {
    v.JArr? || v.JObj?
  }

  /** Property read `v[key]`: the last field of that name (JSON.parse keeps
      the last duplicate); arrays and primitives have none of the keys read
      here. */
  function Get(v: Json, key: string): Option<Json>
  {
    if v.JObj? then Lookup(v.fields, key) else None
  }

  /** The value of the last field named `key`. */
  function Lookup(fields: seq<(string, Json)>, key: string): Option<Json>
  {
    if |fields| == 0 then None
    else if fields[|fields| - 1].0 == key then Some(fields[|fields| - 1].1)
    else Lookup(fields[..|fields| - 1], key)
  }

  /** A missing key reads as undefined; otherwise the read finds the value
      of the last field with that key. */
  lemma {:induction false} LookupLast(fields: seq<(string, Json)>, key: string)
    ensures Lookup(fields, key).None? <==> forall i :: 0 <= i < |fields| ==> fields[i].0 != key
    ensures Lookup(fields, key).Some? ==>
      exists i :: 0 <= i < |fields| && fields[i] == (key, Lookup(fields, key).value)
                  && forall j :: i < j < |fields| ==> fields[j].0 != key
  {
    if |fields| > 0 {
      var n := |fields| - 1;
      var init := fields[..n];
      LookupLast(init, key);
      assert forall i :: 0 <= i < n ==> init[i] == fields[i];
      if fields[n].0 == key {
        assert fields[n] == (key, Lookup(fields, key).value);
      }
    }
  }

  /** No two fields share a key. */
  predicate DistinctKeys(fields: seq<(string, Json)>)
  {
    forall i, j :: 0 <= i < j < |fields| ==> fields[i].0 != fields[j].0
  }

  /** With distinct keys, every field is read back. */
  lemma {:induction false} LookupDistinct(fields: seq<(string, Json)>, i: nat)
    requires DistinctKeys(fields) && i < |fields|
    ensures Lookup(fields, fields[i].0) == Some(fields[i].1)
  {
    var n := |fields| - 1;
    if i < n {
      assert fields[..n][i] == fields[i];
      LookupDistinct(fields[..n], i);
    }
  }

  predicate IsNumber(v: Option<Json>)
  {
    v.Some? && v.value.JNum?
  }

  predicate IsString(v: Option<Json>)
  {
    v.Some? && v.value.JStr?
  }

  /** `v !== null && typeof v === 'object'` on a property that may be
      missing. */
  predicate IsObjectField(v: Option<Json>)
  {
    v.Some? && IsObject(v.value)
  }

  /** `Array.isArray(v)` */
  predicate IsArray(v: Option<Json>)
  {
    v.Some? && v.value.JArr?
  }

  /** validateGridPosition */
  predicate ValidateGridPosition(v: Json)
  {
    Truthy(v) && IsObject(v) && IsNumber(Get(v, "row")) && IsNumber(Get(v, "col"))
  }

  /** The direction's key as it appears in level files. */
  function DirectionName(d: Direction): string
  {
    match d
    case Up => "up"
    case Down => "down"
    case Left => "left"
    case Right => "right"
  }

  /** Reads a direction key. */
  function ParseDirection(s: string): (r: Option<Direction>)
    ensures r.Some? <==> s in ["up", "down", "left", "right"]
    ensures r.Some? ==> DirectionName(r.value) == s
  {
    if s == "up" then Some(Up)
    else if s == "down" then Some(Down)
    else if s == "left" then Some(Left)
    else if s == "right" then Some(Right)
    else None
  }

  /** validateArrow */
  predicate ValidateArrow(v: Json)
  {
    && Truthy(v) && IsObject(v)
    && IsNumber(Get(v, "id"))
    && IsString(Get(v, "direction")) && Get(v, "direction").value.s in ["up", "down", "left", "right"]
    && IsObjectField(Get(v, "gridPosition")) && ValidateGridPosition(Get(v, "gridPosition").value)
  }

  /** validateConfig */
  predicate ValidateConfig(v: Json)
  {
    && Truthy(v) && IsObject(v)
    && IsNumber(Get(v, "rows")) && IsNumber(Get(v, "cols"))
    && IsNumber(Get(v, "gridGap")) && IsNumber(Get(v, "gridSize"))
    && IsNumber(Get(v, "offsetX")) && IsNumber(Get(v, "offsetY"))
  }

  /** validateLevel */
  predicate ValidateLevel(v: Json)
  {
    && Truthy(v) && IsObject(v)
    && IsString(Get(v, "id")) && IsString(Get(v, "name"))
    && IsString(Get(v, "difficulty")) && Get(v, "difficulty").value.s in ["easy", "medium", "hard", "expert"]
    && IsObjectField(Get(v, "config")) && ValidateConfig(Get(v, "config").value)
    && IsArray(Get(v, "arrows"))
    && forall k :: 0 <= k < |Get(v, "arrows").value.items| ==> ValidateArrow(Get(v, "arrows").value.items[k])
  }

  /** validateLevelPack */
  predicate ValidateLevelPack(v: Json)
  {
    && Truthy(v) && IsObject(v)
    && IsString(Get(v, "id")) && IsString(Get(v, "name"))
    && IsArray(Get(v, "levels"))
    && forall k :: 0 <= k < |Get(v, "levels").value.items| ==> ValidateLevel(Get(v, "levels").value.items[k])
  }

  // ---------------------------------------------------------------------
  // Reading validated values, and writing level data as JSON

  /** The arrow an accepted value describes. */
  function DecodeArrow(v: Json): (r: Option<LevelArrow>)
    ensures r.Some? <==> ValidateArrow(v)
  {
    if !ValidateArrow(v) then None
    else
      var gp := Get(v, "gridPosition").value;
      Some(LevelArrow(Get(v, "id").value.n, ParseDirection(Get(v, "direction").value.s).value,
                      Cell(Get(gp, "row").value.n, Get(gp, "col").value.n)))
  }

  /** The configuration an accepted value describes. */
  function DecodeConfig(v: Json): (r: Option<LevelConfig>)
    ensures r.Some? <==> ValidateConfig(v)
  {
    if !ValidateConfig(v) then None
    else
      Some(LevelConfig(Get(v, "rows").value.n, Get(v, "cols").value.n, Get(v, "gridGap").value.n,
                       Get(v, "gridSize").value.n, Get(v, "offsetX").value.n, Get(v, "offsetY").value.n))
  }

  function CellJson(c: Cell): Json
  {
    JObj([("row", JNum(c.row)), ("col", JNum(c.col))])
  }

  /** A level arrow as it is written to a level file. */
  function ArrowJson(a: LevelArrow): Json
  {
    JObj([("id", JNum(a.id)), ("direction", JStr(DirectionName(a.direction))), ("gridPosition", CellJson(a.position))])
  }

  function ConfigJson(c: LevelConfig): Json
  {
    JObj([("rows", JNum(c.rows)), ("cols", JNum(c.cols)), ("gridGap", JNum(c.gridGap)),
          ("gridSize", JNum(c.gridSize)), ("offsetX", JNum(c.offsetX)), ("offsetY", JNum(c.offsetY))])
  }

  function MetadataJson(m: LevelMetadata): Json
  {
    JObj([("createdAt", JStr(m.createdAt)), ("generationAttempts", JNum(m.generationAttempts)),
          ("isValid", JBool(m.isValid))])
  }

  function LevelJson(l: LevelData): Json
  {
    JObj([("id", JStr(l.id)), ("name", JStr(l.name)), ("difficulty", JStr(DifficultyName(l.difficulty))),
          ("config", ConfigJson(l.config)), ("arrows", JArr(ArrowsJson(l.arrows))),
          ("metadata", MetadataJson(l.metadata))])
  }

  function ArrowsJson(arrows: seq<LevelArrow>): (vs: seq<Json>)
    ensures |vs| == |arrows| && forall k :: 0 <= k < |arrows| ==> vs[k] == ArrowJson(arrows[k])
  {
    seq(|arrows|, k requires 0 <= k < |arrows| => ArrowJson(arrows[k]))
  }

  function LevelsJson(levels: seq<LevelData>): (vs: seq<Json>)
    ensures |vs| == |levels| && forall k :: 0 <= k < |levels| ==> vs[k] == LevelJson(levels[k])
  {
    seq(|levels|, k requires 0 <= k < |levels| => LevelJson(levels[k]))
  }

  function DistributionJson(d: Distribution): Json
  {
    JObj([("easy", JNum(d.easy)), ("medium", JNum(d.medium)), ("hard", JNum(d.hard)), ("expert", JNum(d.expert))])
  }

  /** A level pack as it is written to a level file. */
  function PackJson(p: LevelPack): Json
  {
    JObj([("id", JStr(p.id)), ("name", JStr(p.name)), ("description", JStr(p.description)),
          ("version", JStr(p.version)), ("levels", JArr(LevelsJson(p.levels))),
          ("metadata", JObj([("createdAt", JStr(p.createdAt)), ("totalLevels", JNum(p.totalLevels)),
                             ("difficultyDistribution", DistributionJson(p.distribution))]))])
  }

  /** Written arrows are accepted and read back unchanged. */
  lemma ArrowRoundTrip(a: LevelArrow)
    ensures ValidateArrow(ArrowJson(a))
    ensures DecodeArrow(ArrowJson(a)) == Some(a)
  {
    var fs := ArrowJson(a).fields;
    assert DistinctKeys(fs);
    LookupDistinct(fs, 0);
    LookupDistinct(fs, 1);
    LookupDistinct(fs, 2);
    var cs := CellJson(a.position).fields;
    assert DistinctKeys(cs);
    LookupDistinct(cs, 0);
    LookupDistinct(cs, 1);
    assert ParseDirection(DirectionName(a.direction)) == Some(a.direction) by {
      match a.direction
      case Up =>
      case Down =>
      case Left =>
      case Right =>
    }
  }

  /** Written configurations are accepted and read back unchanged. */
  lemma ConfigRoundTrip(c: LevelConfig)
    ensures ValidateConfig(ConfigJson(c))
    ensures DecodeConfig(ConfigJson(c)) == Some(c)
  {
    var fs := ConfigJson(c).fields;
    assert DistinctKeys(fs);
    LookupDistinct(fs, 0);
    LookupDistinct(fs, 1);
    LookupDistinct(fs, 2);
    LookupDistinct(fs, 3);
    LookupDistinct(fs, 4);
    LookupDistinct(fs, 5);
  }

  /** Every written level passes validateLevel. */
  lemma LevelJsonValid(l: LevelData)
    ensures ValidateLevel(LevelJson(l))
  {
    var fs := LevelJson(l).fields;
    assert DistinctKeys(fs);
    LookupDistinct(fs, 0);
    LookupDistinct(fs, 1);
    LookupDistinct(fs, 2);
    LookupDistinct(fs, 3);
    LookupDistinct(fs, 4);
    assert DifficultyName(l.difficulty) in ["easy", "medium", "hard", "expert"];
    ConfigRoundTrip(l.config);
    forall k | 0 <= k < |l.arrows| ensures ValidateArrow(ArrowsJson(l.arrows)[k]) {
      ArrowRoundTrip(l.arrows[k]);
    }
  }

  /** Every written pack passes validateLevelPack, whatever its levels. */
  lemma PackJsonValid(p: LevelPack)
    ensures ValidateLevelPack(PackJson(p))
  {
    var fs := PackJson(p).fields;
    assert DistinctKeys(fs);
    LookupDistinct(fs, 0);
    LookupDistinct(fs, 1);
    LookupDistinct(fs, 4);
    forall k | 0 <= k < |p.levels| ensures ValidateLevel(LevelsJson(p.levels)[k]) {
      LevelJsonValid(p.levels[k]);
    }
  }

  /** A pack with no levels passes as long as it has a string id and name;
      a value that is not an object never passes. */
  lemma PackShapeOnly(id: string, name: string, v: Json)
    ensures ValidateLevelPack(JObj([("id", JStr(id)), ("name", JStr(name)), ("levels", JArr([]))]))
    ensures !IsObject(v) ==> !ValidateLevelPack(v) && !ValidateLevel(v) && !ValidateArrow(v) && !ValidateConfig(v)
  {
    var fs := [("id", JStr(id)), ("name", JStr(name)), ("levels", JArr([]))];
    assert DistinctKeys(fs);
    LookupDistinct(fs, 0);
    LookupDistinct(fs, 1);
    LookupDistinct(fs, 2);
  }

  // ---------------------------------------------------------------------
  // The cache

  /** Keys are unique, as in a Map. */
  predicate UniqueIds(levels: seq<LevelData>)
  {
    forall i, j :: 0 <= i < j < |levels| ==> levels[i].id != levels[j].id
  }

  predicate UniquePackIds(packs: seq<LevelPack>)
  {
    forall i, j :: 0 <= i < j < |packs| ==> packs[i].id != packs[j].id
  }

  /** The two maps: level packs and levels, each by id in insertion order. */
  datatype Store = Store(packs: seq<LevelPack>, levels: seq<LevelData>)
  {
    predicate Valid()
    {
      UniqueIds(levels) && UniquePackIds(packs)
    }
  }

  /** Position of the level with that id, or -1. */
  function LevelIndex(levels: seq<LevelData>, id: string): (i: int)
    ensures -1 <= i < |levels|
    ensures i >= 0 ==> levels[i].id == id
    ensures i == -1 <==> forall k :: 0 <= k < |levels| ==> levels[k].id != id
  {
    if |levels| == 0 then -1
    else if levels[|levels| - 1].id == id then |levels| - 1
    else LevelIndex(levels[..|levels| - 1], id)
  }

  /** Position of the pack with that id, or -1. */
  function PackIndex(packs: seq<LevelPack>, id: string): (i: int)
    ensures -1 <= i < |packs|
    ensures i >= 0 ==> packs[i].id == id
    ensures i == -1 <==> forall k :: 0 <= k < |packs| ==> packs[k].id != id
  {
    if |packs| == 0 then -1
    else if packs[|packs| - 1].id == id then |packs| - 1
    else PackIndex(packs[..|packs| - 1], id)
  }

  /** `levels.set(l.id, l)`: replaces the entry with that id in place, or
      appends a new one. */
  function SetLevel(levels: seq<LevelData>, l: LevelData): (r: seq<LevelData>)
    requires UniqueIds(levels)
    ensures UniqueIds(r)
    ensures l in r
    ensures forall x :: x in r && x.id != l.id <==> x in levels && x.id != l.id
    ensures forall k :: 0 <= k < |r| && r[k].id == l.id ==> r[k] == l
    ensures |levels| <= |r| <= |levels| + 1
    ensures forall k :: 0 <= k < |levels| ==> r[k] == if levels[k].id == l.id then l else levels[k]
    ensures |r| == |levels| + 1 <==> forall k :: 0 <= k < |levels| ==> levels[k].id != l.id
    ensures |r| == |levels| + 1 ==> r[|levels|] == l
  {
    var i := LevelIndex(levels, l.id);
    if i < 0 then
      assert forall x :: x in levels + [l] <==> x in levels || x == l;
      levels + [l]
    else
      var r := levels[i := l];
      assert r[i] == l;
      assert forall x :: x in r && x.id != l.id ==> x in levels by {
        forall x | x in r && x.id != l.id ensures x in levels {
          var k :| 0 <= k < |r| && r[k] == x;
        }
      }
      assert forall x :: x in levels && x.id != l.id ==> x in r by {
        forall x | x in levels && x.id != l.id ensures x in r {
          var k :| 0 <= k < |levels| && levels[k] == x;
          assert r[k] == x;
        }
      }
      r
  }

  /** `levelPacks.set(p.id, p)`: replaces the pack with that id in place,
      or appends a new one. */
  function SetPack(packs: seq<LevelPack>, p: LevelPack): (r: seq<LevelPack>)
    requires UniquePackIds(packs)
    ensures UniquePackIds(r)
    ensures p in r
    ensures forall x :: x in r && x.id != p.id <==> x in packs && x.id != p.id
    ensures |packs| <= |r| <= |packs| + 1
    ensures forall k :: 0 <= k < |packs| ==> r[k] == if packs[k].id == p.id then p else packs[k]
    ensures |r| == |packs| + 1 <==> forall k :: 0 <= k < |packs| ==> packs[k].id != p.id
    ensures |r| == |packs| + 1 ==> r[|packs|] == p
  {
    var i := PackIndex(packs, p.id);
    if i < 0 then
      assert forall x :: x in packs + [p] <==> x in packs || x == p;
      packs + [p]
    else
      var r := packs[i := p];
      assert r[i] == p;
      assert forall x :: x in r && x.id != p.id ==> x in packs by {
        forall x | x in r && x.id != p.id ensures x in packs {
          var k :| 0 <= k < |r| && r[k] == x;
        }
      }
      assert forall x :: x in packs && x.id != p.id ==> x in r by {
        forall x | x in packs && x.id != p.id ensures x in r {
          var k :| 0 <= k < |packs| && packs[k] == x;
          assert r[k] == x;
        }
      }
      r
  }

  /** `levelPack.levels.forEach(level => this.levels.set(level.id, level))` */
  function SetLevels(levels: seq<LevelData>, added: seq<LevelData>): (r: seq<LevelData>)
    requires UniqueIds(levels)
    ensures UniqueIds(r)
    ensures forall x :: x in levels && (forall k :: 0 <= k < |added| ==> added[k].id != x.id) ==> x in r
    ensures forall x :: x in r ==> x in levels || x in added
    decreases |added|
  {
    if |added| == 0 then levels
    else SetLevels(SetLevel(levels, added[0]), added[1..])
  }

  /** The caching step of loadLevelPack once the pack has been validated. */
  function CachePack(store: Store, pack: LevelPack): (r: Store)
    requires store.Valid()
    ensures r.Valid()
    ensures pack in r.packs
    ensures forall x :: x in r.levels ==> x in store.levels || x in pack.levels
  {
    Store(SetPack(store.packs, pack), SetLevels(store.levels, pack.levels))
  }

  /** Caching a pack keeps the order of the pack list: a pack whose id is
      already cached replaces it in place, and a new one comes last. */
  lemma PacksInCacheOrder(store: Store, pack: LevelPack)
    requires store.Valid()
    ensures var r := GetAllLevelPacks(CachePack(store, pack));
            && (forall k :: 0 <= k < |store.packs| && store.packs[k].id == pack.id ==>
                  r == store.packs[..k] + [pack] + store.packs[k + 1..])
            && ((forall k :: 0 <= k < |store.packs| ==> store.packs[k].id != pack.id) ==>
                  r == store.packs + [pack])
  {
    var packs := store.packs;
    var r := SetPack(packs, pack);
    assert GetAllLevelPacks(CachePack(store, pack)) == r;
    forall k | 0 <= k < |packs| && packs[k].id == pack.id
      ensures r == packs[..k] + [pack] + packs[k + 1..]
    {
      PackReplacedInPlace(packs, pack, r, k);
    }
    PackAppended(packs, pack);
  }

  lemma PackAppended(packs: seq<LevelPack>, pack: LevelPack)
    requires UniquePackIds(packs)
    ensures (forall k :: 0 <= k < |packs| ==> packs[k].id != pack.id) ==> SetPack(packs, pack) == packs + [pack]
  {
    var r := SetPack(packs, pack);
    if forall k :: 0 <= k < |packs| ==> packs[k].id != pack.id {
      assert |r| == |packs| + 1;
      assert r[..|packs|] == packs;
      assert r == r[..|packs|] + [r[|packs|]];
    }
  }

  lemma PackReplacedInPlace(packs: seq<LevelPack>, pack: LevelPack, r: seq<LevelPack>, k: nat)
    requires UniquePackIds(packs) && r == SetPack(packs, pack)
    requires k < |packs| && packs[k].id == pack.id
    ensures r == packs[..k] + [pack] + packs[k + 1..]
  {
    var t := packs[..k] + [pack] + packs[k + 1..];
    assert |r| == |packs| == |t|;
    forall i | 0 <= i < |r| ensures r[i] == t[i] {
      if i < k {
        assert t[i] == packs[i];
      } else if i > k {
        assert t[i] == packs[i];
      }
    }
  }

  /** After caching, every level of the pack can be looked up by its id,
      and the entry found is the pack's last level with that id. */
  lemma {:induction false} CachedLevelsFound(levels: seq<LevelData>, added: seq<LevelData>, k: nat)
    requires UniqueIds(levels) && k < |added|
    requires forall k' :: k < k' < |added| ==> added[k'].id != added[k].id
    ensures GetLevelIn(SetLevels(levels, added), added[k].id) == Some(added[k])
    decreases |added|
  {
    if k == 0 {
      LaterSetsKeep(SetLevel(levels, added[0]), added[1..], added[0]);
    } else {
      assert forall k' :: k - 1 < k' < |added[1..]| ==> added[1..][k'].id != added[1..][k - 1].id;
      CachedLevelsFound(SetLevel(levels, added[0]), added[1..], k - 1);
    }
  }

  /** Setting other ids keeps an entry. */
  lemma {:induction false} LaterSetsKeep(levels: seq<LevelData>, added: seq<LevelData>, l: LevelData)
    requires UniqueIds(levels) && l in levels
    requires forall k :: 0 <= k < |added| ==> added[k].id != l.id
    ensures GetLevelIn(SetLevels(levels, added), l.id) == Some(l)
    decreases |added|
  {
    if |added| == 0 {
      var i :| 0 <= i < |levels| && levels[i] == l;
      UniqueFind(levels, i);
    } else {
      var next := SetLevel(levels, added[0]);
      assert l in next;
      LaterSetsKeep(next, added[1..], l);
    }
  }

  /** In a list with unique ids, the lookup finds the entry at its index. */
  lemma UniqueFind(levels: seq<LevelData>, i: nat)
    requires UniqueIds(levels) && i < |levels|
    ensures GetLevelIn(levels, levels[i].id) == Some(levels[i])
  {
  }

  // ---------------------------------------------------------------------
  // Queries

  /** `this.levels.get(id) || null` on a list of entries. */
  function GetLevelIn(levels: seq<LevelData>, id: string): (r: Option<LevelData>)
    ensures r.None? <==> forall k :: 0 <= k < |levels| ==> levels[k].id != id
    ensures r.Some? ==> r.value in levels && r.value.id == id
    ensures r.Some? && UniqueIds(levels) ==> forall x :: x in levels && x.id == id ==> x == r.value
  {
    if |levels| == 0 then None
    else if levels[0].id == id then Some(levels[0])
    else
      var r := GetLevelIn(levels[1..], id);
      assert forall k :: 1 <= k < |levels| ==> levels[k] == levels[1..][k - 1];
      r
  }

  /** getLevel */
  function GetLevel(store: Store, id: string): (r: Option<LevelData>)
    ensures r.None? <==> forall k :: 0 <= k < |store.levels| ==> store.levels[k].id != id
    ensures r.Some? ==> r.value in store.levels && r.value.id == id
  {
    GetLevelIn(store.levels, id)
  }

  /** getLevelPack */
  function GetLevelPack(store: Store, id: string): (r: Option<LevelPack>)
    ensures r.None? <==> forall k :: 0 <= k < |store.packs| ==> store.packs[k].id != id
    ensures r.Some? ==> r.value in store.packs && r.value.id == id
  {
    FindPack(store.packs, id)
  }

  function FindPack(packs: seq<LevelPack>, id: string): (r: Option<LevelPack>)
    ensures r.None? <==> forall k :: 0 <= k < |packs| ==> packs[k].id != id
    ensures r.Some? ==> r.value in packs && r.value.id == id
  {
    if |packs| == 0 then None
    else if packs[0].id == id then Some(packs[0])
    else
      var r := FindPack(packs[1..], id);
      assert forall k :: 1 <= k < |packs| ==> packs[k] == packs[1..][k - 1];
      r
  }

  /** A comparator whose "not after" relation `cmp(a, b) <= 0` is total and
      transitive, as a locale collation is. */
  ghost predicate TotalPreorder<T(!new)>(cmp: (T, T) -> int)
  {
    && (forall a, b :: cmp(a, b) <= 0 || cmp(b, a) <= 0)
    && (forall a, b, c :: cmp(a, b) <= 0 && cmp(b, c) <= 0 ==> cmp(a, c) <= 0)
  }

  predicate SortedBy<T>(s: seq<T>, cmp: (T, T) -> int)
  {
    forall i, j :: 0 <= i < j < |s| ==> cmp(s[i], s[j]) <= 0
  }

  /** Inserts x in front of the first element it is not after. */
  function Insert<T>(x: T, s: seq<T>, cmp: (T, T) -> int): (r: seq<T>)
    ensures multiset(r) == multiset(s) + multiset{x}
    ensures |r| == |s| + 1
  {
    if |s| == 0 then [x]
    else if cmp(x, s[0]) <= 0 then [x] + s
    else
      assert s == [s[0]] + s[1..];
      [s[0]] + Insert(x, s[1..], cmp)
  }

  lemma {:induction false} InsertSorted<T(!new)>(x: T, s: seq<T>, cmp: (T, T) -> int)
    requires TotalPreorder(cmp) && SortedBy(s, cmp)
    ensures SortedBy(Insert(x, s, cmp), cmp)
  {
    if |s| > 0 && cmp(x, s[0]) > 0 {
      InsertSorted(x, s[1..], cmp);
      var r := Insert(x, s, cmp);
      var tail := Insert(x, s[1..], cmp);
      assert cmp(s[0], x) <= 0;
      forall j | 0 <= j < |tail| ensures cmp(s[0], tail[j]) <= 0 {
        assert tail[j] in multiset(tail);
        assert tail[j] == x || tail[j] in multiset(s[1..]);
        if tail[j] != x {
          var j' :| 0 <= j' < |s[1..]| && s[1..][j'] == tail[j];
          assert s[j' + 1] == tail[j];
        }
      }
    }
  }

  /** The stable sort of `Array.prototype.sort` with comparator `cmp`,
      written as an insertion sort. */
  function SortBy<T(!new)>(s: seq<T>, cmp: (T, T) -> int): (r: seq<T>)
    requires TotalPreorder(cmp)
    ensures multiset(r) == multiset(s) && |r| == |s|
    ensures SortedBy(r, cmp)
  {
    if |s| == 0 then []
    else
      var rest := SortBy(s[1..], cmp);
      InsertStep(s, rest, cmp);
      Insert(s[0], rest, cmp)
  }

  /** Inserting the head into the sorted tail sorts the whole list. */
  lemma InsertStep<T(!new)>(s: seq<T>, rest: seq<T>, cmp: (T, T) -> int)
    requires TotalPreorder(cmp) && |s| > 0
    requires multiset(rest) == multiset(s[1..]) && SortedBy(rest, cmp)
    ensures multiset(Insert(s[0], rest, cmp)) == multiset(s) && |Insert(s[0], rest, cmp)| == |s|
    ensures SortedBy(Insert(s[0], rest, cmp), cmp)
  {
    InsertSorted(s[0], rest, cmp);
    assert s == [s[0]] + s[1..];
    assert multiset(s) == multiset(s[1..]) + multiset{s[0]};
    assert |rest| == |multiset(rest)| == |s| - 1;
  }

  /** Sorting a sorted list leaves it unchanged. */
  lemma {:induction false} SortSortedIdentity<T(!new)>(s: seq<T>, cmp: (T, T) -> int)
    requires TotalPreorder(cmp) && SortedBy(s, cmp)
    ensures SortBy(s, cmp) == s
  {
    if |s| > 0 {
      SortedTail(s, cmp);
      SortSortedIdentity(s[1..], cmp);
      assert s == [s[0]] + s[1..];
    }
  }

  lemma SortedTail<T>(s: seq<T>, cmp: (T, T) -> int)
    requires |s| > 0 && SortedBy(s, cmp)
    ensures SortedBy(s[1..], cmp)
  {
    forall i, j | 0 <= i < j < |s| - 1 ensures cmp(s[1..][i], s[1..][j]) <= 0 {
      assert s[1..][i] == s[i + 1] && s[1..][j] == s[j + 1];
    }
  }

  /** easy < medium < hard < expert */
  function DifficultyOrder(d: Difficulty): int
  {
    match d
    case Easy => 0
    case Medium => 1
    case Hard => 2
    case Expert => 3
  }

  /** getAllLevels' comparator: difficulty first, then name. */
  function LevelOrder(cmp: (string, string) -> int): (LevelData, LevelData) -> int
  {
    (a: LevelData, b: LevelData) =>
      if DifficultyOrder(a.difficulty) != DifficultyOrder(b.difficulty)
      then DifficultyOrder(a.difficulty) - DifficultyOrder(b.difficulty)
      else cmp(a.name, b.name)
  }

  /** The comparator accepts a pair exactly when the first level's
      difficulty is easier, or the difficulties agree and the names are in
      collation order. */
  lemma LevelOrderLe(cmp: (string, string) -> int, a: LevelData, b: LevelData)
    ensures LevelOrder(cmp)(a, b) <= 0 <==>
      DifficultyOrder(a.difficulty) < DifficultyOrder(b.difficulty)
      || (a.difficulty == b.difficulty && cmp(a.name, b.name) <= 0)
  {
  }

  /** getLevelsByDifficulty's comparator: by name. */
  function NameOrder(cmp: (string, string) -> int): (LevelData, LevelData) -> int
  {
    (a: LevelData, b: LevelData) => cmp(a.name, b.name)
  }

  lemma LevelOrderIsPreorder(cmp: (string, string) -> int)
    requires TotalPreorder(cmp)
    ensures TotalPreorder(LevelOrder(cmp))
  {
    var o := LevelOrder(cmp);
    forall a, b ensures o(a, b) <= 0 || o(b, a) <= 0 {
      assert cmp(a.name, b.name) <= 0 || cmp(b.name, a.name) <= 0;
    }
    forall a, b, c | o(a, b) <= 0 && o(b, c) <= 0 ensures o(a, c) <= 0 {
      if DifficultyOrder(a.difficulty) == DifficultyOrder(b.difficulty) == DifficultyOrder(c.difficulty) {
        assert cmp(a.name, b.name) <= 0 && cmp(b.name, c.name) <= 0;
      }
    }
  }

  lemma NameOrderIsPreorder(cmp: (string, string) -> int)
    requires TotalPreorder(cmp)
    ensures TotalPreorder(NameOrder(cmp))
  {
    var n := NameOrder(cmp);
    forall a, b ensures n(a, b) <= 0 || n(b, a) <= 0 {
      assert cmp(a.name, b.name) <= 0 || cmp(b.name, a.name) <= 0;
    }
    forall a, b, c | n(a, b) <= 0 && n(b, c) <= 0 ensures n(a, c) <= 0 {
      assert cmp(a.name, b.name) <= 0 && cmp(b.name, c.name) <= 0;
    }
  }

  /** Sorted by the name comparator means the names are in collation order. */
  lemma NameSorted(r: seq<LevelData>, cmp: (string, string) -> int)
    requires SortedBy(r, NameOrder(cmp))
    ensures forall i, j :: 0 <= i < j < |r| ==> cmp(r[i].name, r[j].name) <= 0
  {
    forall i, j | 0 <= i < j < |r| ensures cmp(r[i].name, r[j].name) <= 0 {
      assert NameOrder(cmp)(r[i], r[j]) <= 0;
    }
  }

  /** getAllLevels: every stored level exactly once, easier difficulties
      first and names in collation order within a difficulty. */
  function GetAllLevels(store: Store, cmp: (string, string) -> int): (r: seq<LevelData>)
    requires TotalPreorder(cmp)
    ensures multiset(r) == multiset(store.levels)
    ensures forall i, j :: 0 <= i < j < |r| ==>
      DifficultyOrder(r[i].difficulty) < DifficultyOrder(r[j].difficulty)
      || (r[i].difficulty == r[j].difficulty && cmp(r[i].name, r[j].name) <= 0)
  {
    LevelOrderIsPreorder(cmp);
    var r := SortBy(store.levels, LevelOrder(cmp));
    forall i, j | 0 <= i < j < |r|
      ensures DifficultyOrder(r[i].difficulty) < DifficultyOrder(r[j].difficulty)
              || (r[i].difficulty == r[j].difficulty && cmp(r[i].name, r[j].name) <= 0)
    {
      assert LevelOrder(cmp)(r[i], r[j]) <= 0;
      LevelOrderLe(cmp, r[i], r[j]);
    }
    r
  }

  /** getLevelsByDifficulty: exactly the stored levels of that difficulty,
      in collation order of their names. */
  function GetLevelsByDifficulty(store: Store, d: Difficulty, cmp: (string, string) -> int): (r: seq<LevelData>)
    requires TotalPreorder(cmp)
    ensures multiset(r) == multiset(Filter(store.levels, HasDifficulty(d)))
    ensures forall x :: x in r <==> x in store.levels && x.difficulty == d
    ensures forall i, j :: 0 <= i < j < |r| ==> cmp(r[i].name, r[j].name) <= 0
  {
    NameOrderIsPreorder(cmp);
    var f := Filter(store.levels, HasDifficulty(d));
    var r := SortBy(f, NameOrder(cmp));
    SameElements(r, f);
    NameSorted(r, cmp);
    r
  }

  /** Lists with the same multiset have the same members. */
  lemma SameElements<T>(a: seq<T>, b: seq<T>)
    requires multiset(a) == multiset(b)
    ensures forall x :: x in a <==> x in b
  {
    forall x ensures x in a <==> x in b {
      assert x in a <==> x in multiset(a);
      assert x in b <==> x in multiset(b);
    }
  }

  /** getAllLevelPacks: `Array.from(levelPacks.values())`, the cached packs
      once each in the order their ids were first set (`SetPack` keeps a
      replaced pack in its place and appends a new one). */
  function GetAllLevelPacks(store: Store): (r: seq<LevelPack>)
    ensures forall p :: p in r <==> p in store.packs
    ensures r == store.packs
  {
    store.packs
  }

  /** getStatistics */
  datatype Statistics = Statistics(totalLevels: nat, totalPacks: nat, distribution: Distribution)

  /** getStatistics: the four difficulty counts add up to the number of
      stored levels, and each is the length of the list the by-difficulty
      query returns. */
  function GetStatistics(store: Store, cmp: (string, string) -> int): (st: Statistics)
    requires TotalPreorder(cmp)
    ensures st.totalLevels == |store.levels| == st.distribution.Total()
    ensures st.totalPacks == |store.packs|
    ensures forall d :: st.distribution.Of(d) == |GetLevelsByDifficulty(store, d, cmp)|
  {
    var levels := GetAllLevels(store, cmp);
    assert |levels| == |multiset(levels)| == |multiset(store.levels)| == |store.levels|;
    forall d ensures DistributionOf(levels).Of(d) == |GetLevelsByDifficulty(store, d, cmp)| {
      CountMatchesQuery(store, d, cmp);
    }
    Statistics(|levels|, |store.packs|, DistributionOf(levels))
  }

  /** Counting a difficulty in the sorted list gives the length of that
      difficulty's query. */
  lemma CountMatchesQuery(store: Store, d: Difficulty, cmp: (string, string) -> int)
    requires TotalPreorder(cmp)
    ensures Count(GetAllLevels(store, cmp), HasDifficulty(d)) == |GetLevelsByDifficulty(store, d, cmp)|
  {
    var q := GetLevelsByDifficulty(store, d, cmp);
    CountPermutation(GetAllLevels(store, cmp), store.levels, HasDifficulty(d));
    assert |q| == |multiset(q)| == |multiset(Filter(store.levels, HasDifficulty(d)))|;
  }

  /** convertLevelArrowsToRuntime: ids and directions kept, not moving, at
      the pixel origin of the stored cell. */
  function ConvertLevelArrowsToRuntime(level: LevelData): (r: seq<ArrowData>)
    ensures |r| == |level.arrows|
    ensures forall k :: 0 <= k < |r| ==>
      && r[k].id == level.arrows[k].id && r[k].direction == level.arrows[k].direction && !r[k].isMoving
      && r[k].pixel == GridToPixel(level.arrows[k].position, level.config.Frame())
  {
    seq(|level.arrows|, k requires 0 <= k < |level.arrows| =>
      ArrowData(level.arrows[k].id, level.arrows[k].direction,
                GridToPixel(level.arrows[k].position, level.config.Frame()), false))
  }

  /** Loading a stored level and converting it back with the generator's
      conversion gives the stored arrows again. */
  lemma RuntimeRoundTrip(level: LevelData)
    requires level.config.Frame().Pitch() != 0
    ensures LevelGenerator.ConvertToLevelArrowData(ConvertLevelArrowsToRuntime(level), level.config) == level.arrows
  {
    var runtime := ConvertLevelArrowsToRuntime(level);
    LevelGenerator.ConvertInvertsGridToPixel(runtime, seq(|level.arrows|, k requires 0 <= k < |level.arrows| =>
                                                                  level.arrows[k].position), level.config);
  }
}
