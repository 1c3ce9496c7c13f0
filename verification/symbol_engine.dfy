/** The engine of src/engine/engine.js: entity types registered under their
    map symbol, one global slot list of entities, and collision queries that
    filter that list by a list of types. */
module SymbolEngine {
  import opened Optional
  import opened Slots
  import opened Bodies
  import opened Geometry
  import Motion
  import AsciiMap

  /** A type's key: the map symbol it was registered under. */
  type Symbol = string

  /** An update function. It is user code, so the model only records which
      one a type has. */
  type Callback = nat

  /** The collision test's tolerance in this variant. */
  const Eps: real := 0.000001

  datatype EntityType = EntityType(update: Option<Callback>, defaultState: Defaults)

  /** An entity record; `index` is its slot in the global list and also
      stands for its object identity. */
  datatype Entity = Entity(body: Body, entityType: Symbol, index: nat, isInitialized: bool, extra: Fields)

  datatype World = World(types: map<Symbol, EntityType>, entities: seq<Slot<Entity>>)

  /** Every live entity records its own slot and has a registered type. */
  predicate Valid(w: World) {
    forall i :: 0 <= i < |w.entities| && w.entities[i].Live? ==>
      w.entities[i].item.index == i && w.entities[i].item.entityType in w.types
  }

  /** `e` is the entity stored in the slot it records. */
  predicate Stored(w: World, e: Entity) {
    e.index < |w.entities| && w.entities[e.index] == Live(e)
  }

  /** `addEntityType`: registers (or re-registers) `symbol` and returns it. */
  function AddEntityType(w: World, symbol: Symbol, update: Option<Callback>, defaultState: Defaults): (r: (World, Symbol))
    ensures r.1 == symbol
    ensures r.0.types.Keys == w.types.Keys + {symbol}
    ensures r.0.types[symbol] == EntityType(update, defaultState)
    ensures forall s :: s in w.types && s != symbol ==> r.0.types[s] == w.types[s]
    ensures r.0.entities == w.entities
    ensures Valid(w) ==> Valid(r.0)
  {
    (w.(types := w.types[symbol := EntityType(update, defaultState)]), symbol)
  }

  /** Registering a symbol again replaces the earlier registration outright. */
  lemma LastRegistrationWins(w: World, symbol: Symbol, u1: Option<Callback>, d1: Defaults, u2: Option<Callback>, d2: Defaults)
    ensures AddEntityType(AddEntityType(w, symbol, u1, d1).0, symbol, u2, d2) == AddEntityType(w, symbol, u2, d2)
  {
    var t := EntityType(u2, d2);
    assert w.types[symbol := EntityType(u1, d1)][symbol := t] == w.types[symbol := t];
  }

  /** A fresh record of type `entityType`: zero core fields with the type's
      default state merged in. */
  function NewEntity(t: EntityType, entityType: Symbol, index: nat): Entity {
    Entity(InitialBody(t.defaultState), entityType, index, false, t.defaultState.extra)
  }

  /** `addEntity`: stores a fresh record in a free slot and writes that slot
      back onto it. */
  ghost function AddEntity(w: World, entityType: Symbol): (r: (World, Entity))
    requires entityType in w.types
    ensures r.1 == NewEntity(w.types[entityType], entityType, r.1.index)
    ensures FreeSlot(w.entities, r.1.index)
    ensures Stored(r.0, r.1)
    ensures r.0.entities == Place(w.entities, r.1.index, r.1)
    ensures r.0.types == w.types
    ensures |w.entities| <= |r.0.entities|
    ensures forall j :: 0 <= j < |w.entities| && j != r.1.index ==> r.0.entities[j] == w.entities[j]
    ensures Valid(w) ==> Valid(r.0)
  {
    var i := Alloc(w.entities);
    var e := NewEntity(w.types[entityType], entityType, i);
    (w.(entities := Place(w.entities, i, e)), e)
  }

  /** `removeEntity`: tombstones the entity's slot and nothing else. */
  function RemoveEntity(w: World, e: Entity): (r: World)
    requires e.index < |w.entities|
    ensures |r.entities| == |w.entities|
    ensures r.entities[e.index] == Removed
    ensures forall j :: 0 <= j < |w.entities| && j != e.index ==> r.entities[j] == w.entities[j]
    ensures r.types == w.types
    ensures Valid(w) ==> Valid(r)
  {
    w.(entities := Remove(w.entities, e.index))
  }

  /** Adding an entity and removing it again leaves the same live slots. */
  lemma AddThenRemoveRestoresLiveSlots(w: World, entityType: Symbol)
    requires entityType in w.types
    ensures LiveIndices(RemoveEntity(AddEntity(w, entityType).0, AddEntity(w, entityType).1).entities) == LiveIndices(w.entities)
  {
  }

  /** Writes a changed entity back into its slot (the source mutates the
      stored object in place). */
  function Store(w: World, e: Entity): (r: World)
    requires e.index < |w.entities|
    ensures Stored(r, e)
    ensures r.entities == Write(w.entities, e.index, e)
    ensures |r.entities| == |w.entities|
    ensures forall j :: 0 <= j < |w.entities| && j != e.index ==> r.entities[j] == w.entities[j]
    ensures r.types == w.types
    ensures Valid(w) && e.entityType in w.types ==> Valid(r)
  {
    w.(entities := Write(w.entities, e.index, e))
  }

  // ---------------------------------------------------------------- collision

  /** `other` is a hit for `entity` probing at offset `(offX, offY)`: another
      object, of one of `otherTypes`, whose box the shifted box overlaps. */
  predicate Collides(entity: Entity, otherTypes: seq<Symbol>, offX: real, offY: real, other: Entity) {
    && other.index != entity.index
    && other.entityType in otherTypes
    && Overlaps(BoxAt(entity.body, offX, offY), Box(other.body), Eps)
  }

  /** `checkCollision`: the first hit in slot order, or `None`. */
  function CheckCollision(w: World, entity: Entity, otherTypes: seq<Symbol>, offX: real, offY: real): (r: Option<Entity>)
    ensures r.Some? ==> Collides(entity, otherTypes, offX, offY, r.value)
    ensures r.Some? ==> exists j :: 0 <= j < |w.entities| && w.entities[j] == Live(r.value) &&
                          forall k :: 0 <= k < j && w.entities[k].Live? ==>
                                        !Collides(entity, otherTypes, offX, offY, w.entities[k].item)
    ensures r.None? <==>
      forall j :: 0 <= j < |w.entities| && w.entities[j].Live? ==> !Collides(entity, otherTypes, offX, offY, w.entities[j].item)
  {
    match FirstWhere(w.entities, o => Collides(entity, otherTypes, offX, offY, o))
    case None => None
    case Some(j) => Some(w.entities[j].item)
  }

  /** In a valid world a hit is a live entity, stored at the slot it records. */
  lemma HitIsStored(w: World, entity: Entity, otherTypes: seq<Symbol>, offX: real, offY: real)
    requires Valid(w)
    ensures var r := CheckCollision(w, entity, otherTypes, offX, offY);
      r.Some? ==> Stored(w, r.value) && r.value.entityType in w.types
  {
  }

  // ------------------------------------------------------------------- motion

  datatype MoveResult = MoveResult(entity: Entity, horizWall: Option<Entity>, vertWall: Option<Entity>)

  function WallBody(wall: Option<Entity>): Option<Body> {
    match wall
    case None => None
    case Some(o) => Some(o.body)
  }

  /** `moveAndCheckForObstacles`: the horizontal probe at `(speedX*dt, 0)`,
      the vertical probe at the horizontally resolved position, whose x offset
      is 0 after a horizontal hit, then the resolved move. Only the body of
      the entity changes. */
  function MoveAndCheckForObstacles(w: World, entity: Entity, otherTypes: seq<Symbol>, dt: real): (r: MoveResult)
    ensures r.horizWall == CheckCollision(w, entity, otherTypes, Motion.Travel(entity.body.speedX, dt), 0.0)
    ensures r.horizWall.None? ==>
              r.vertWall == CheckCollision(w, entity, otherTypes, Motion.Travel(entity.body.speedX, dt), Motion.Travel(entity.body.speedY, dt))
    ensures r.horizWall.Some? ==>
              r.vertWall == CheckCollision(w, entity.(body := Motion.AfterHorizontal(entity.body, WallBody(r.horizWall))),
                                           otherTypes, 0.0, Motion.Travel(entity.body.speedY, dt))
    ensures Motion.Resolved(entity.body, WallBody(r.horizWall), WallBody(r.vertWall), dt, r.entity.body)
    ensures r.entity == entity.(body := r.entity.body)
  {
    var h := CheckCollision(w, entity, otherTypes, Motion.Travel(entity.body.speedX, dt), 0.0);
    var b1 := Motion.AfterHorizontal(entity.body, WallBody(h));
    var v := CheckCollision(w, entity.(body := b1), otherTypes, Motion.Travel(b1.speedX, dt), Motion.Travel(b1.speedY, dt));
    assert h.Some? ==> Motion.Travel(b1.speedX, dt) == 0.0;
    var b2 := Motion.AfterVertical(b1, WallBody(v));
    assert Motion.Advance(b2, dt) == Motion.Resolve(entity.body, WallBody(h), WallBody(v), dt);
    MoveResult(entity.(body := Motion.Advance(b2, dt)), h, v)
  }

  /** Moving a stored entity changes its own slot only, and keeps the world valid. */
  function MoveEntity(w: World, entity: Entity, otherTypes: seq<Symbol>, dt: real): (r: (World, MoveResult))
    requires Stored(w, entity)
    ensures r.1 == MoveAndCheckForObstacles(w, entity, otherTypes, dt)
    ensures Stored(r.0, r.1.entity)
    ensures |r.0.entities| == |w.entities|
    ensures forall j :: 0 <= j < |w.entities| && j != entity.index ==> r.0.entities[j] == w.entities[j]
    ensures r.0.types == w.types
    ensures Valid(w) ==> Valid(r.0)
  {
    var m := MoveAndCheckForObstacles(w, entity, otherTypes, dt);
    (Store(w, m.entity), m)
  }

  // ------------------------------------------------------------ game loop

  /** The slots the game loop calls an update function for, in the order it
      calls them: the live ones whose type has an update function. */
  function UpdateOrder(w: World): (r: seq<nat>)
    requires Valid(w)
    ensures forall k, m :: 0 <= k < m < |r| ==> r[k] < r[m]
    ensures forall i :: i in r <==>
      0 <= i < |w.entities| && w.entities[i].Live? && w.types[w.entities[i].item.entityType].update.Some?
  {
    IndicesFrom(w.entities, (e: Entity) => e.entityType in w.types && w.types[e.entityType].update.Some?, 0)
  }

  // -------------------------------------------------------------------- map

  /** The entity spawned for map cell `c`: a fresh record of the cell's type
      moved to the cell's position. */
  function SpawnedEntity(w: World, tileSize: real, c: AsciiMap.Cell, index: nat): Entity
    requires c.symbol in w.types
  {
    var e := NewEntity(w.types[c.symbol], c.symbol, index);
    e.(body := e.body.(x := c.col as real * tileSize, y := c.row as real * tileSize))
  }

  /** `e` is the entity spawned for `c`, stored in `w'` in a slot that held no
      live entity in `w`. */
  ghost predicate Placed(w: World, w': World, tileSize: real, c: AsciiMap.Cell, e: Entity) {
    && c.symbol in w.types
    && e == SpawnedEntity(w, tileSize, c, e.index)
    && Stored(w', e)
    && NotLive(w.entities, e.index)
  }

  /** The slots the entities of `spawned` record. */
  function SpawnedIndices(spawned: seq<Entity>): set<nat> {
    set k | 0 <= k < |spawned| :: spawned[k].index
  }

  /** One entity of `spawned` per cell of `cells`, in order, each placed
      in `w'` in a slot free in `w`. */
  ghost predicate AllPlaced(w: World, w': World, tileSize: real, cells: seq<AsciiMap.Cell>, spawned: seq<Entity>) {
    && |spawned| == |cells|
    && (forall k :: 0 <= k < |spawned| ==> Placed(w, w', tileSize, cells[k], spawned[k]))
  }

  /** No two entities of `spawned` share a slot. */
  predicate OwnSlots(spawned: seq<Entity>) {
    forall k, m :: 0 <= k < m < |spawned| ==> spawned[k].index != spawned[m].index
  }

  /** Going from `w` to `w'` spawned one entity per cell of `cells`, in
      order, each in its own slot, disturbed no live entity, and made no
      other slot live. */
  ghost predicate Populates(w: World, w': World, tileSize: real, cells: seq<AsciiMap.Cell>, spawned: seq<Entity>) {
    && w'.types == w.types
    && KeepsLive(w.entities, w'.entities)
    && AllPlaced(w, w', tileSize, cells, spawned)
    && OwnSlots(spawned)
    && LiveIndices(w'.entities) == LiveIndices(w.entities) + SpawnedIndices(spawned)
  }

  lemma SpawnedIndicesAppend(s1: seq<Entity>, s2: seq<Entity>)
    ensures SpawnedIndices(s1 + s2) == SpawnedIndices(s1) + SpawnedIndices(s2)
  {
    var ss := s1 + s2;
    forall i | i in SpawnedIndices(ss)
      ensures i in SpawnedIndices(s1) + SpawnedIndices(s2)
    {
      var k :| 0 <= k < |ss| && ss[k].index == i;
      if k < |s1| {
        assert s1[k] == ss[k];
      } else {
        assert s2[k - |s1|] == ss[k];
      }
    }
    forall i | i in SpawnedIndices(s1) + SpawnedIndices(s2)
      ensures i in SpawnedIndices(ss)
    {
      if i in SpawnedIndices(s1) {
        var k :| 0 <= k < |s1| && s1[k].index == i;
        assert ss[k] == s1[k];
      } else {
        var k :| 0 <= k < |s2| && s2[k].index == i;
        assert ss[|s1| + k] == s2[k];
      }
    }
  }

  lemma SpawnedIndicesOne(e: Entity)
    ensures SpawnedIndices([e]) == {e.index}
  {
    assert [e][0] == e;
  }

  /** Entities in slots of their own record as many slots as there are entities. */
  lemma {:induction false} SpawnedIndicesCount(s: seq<Entity>)
    requires forall k, m :: 0 <= k < m < |s| ==> s[k].index != s[m].index
    ensures |SpawnedIndices(s)| == |s|
  {
    if s != [] {
      var n := |s| - 1;
      SpawnedIndicesCount(s[..n]);
      SpawnedIndicesAppend(s[..n], [s[n]]);
      assert s == s[..n] + [s[n]];
      assert SpawnedIndices([s[n]]) == {s[n].index};
      assert s[n].index !in SpawnedIndices(s[..n]);
    }
  }

  lemma AllPlacedChain(w0: World, w1: World, w2: World, tileSize: real,
                        c1: seq<AsciiMap.Cell>, s1: seq<Entity>, c2: seq<AsciiMap.Cell>, s2: seq<Entity>)
    requires w1.types == w0.types && w2.types == w1.types
    requires KeepsLive(w0.entities, w1.entities) && KeepsLive(w1.entities, w2.entities)
    requires AllPlaced(w0, w1, tileSize, c1, s1) && AllPlaced(w1, w2, tileSize, c2, s2)
    ensures AllPlaced(w0, w2, tileSize, c1 + c2, s1 + s2)
  {
    var cs, ss := c1 + c2, s1 + s2;
    forall k | 0 <= k < |ss|
      ensures Placed(w0, w2, tileSize, cs[k], ss[k])
    {
      if k < |s1| {
        assert cs[k] == c1[k] && ss[k] == s1[k];
        assert Placed(w0, w1, tileSize, c1[k], s1[k]);
      } else {
        var m := k - |s1|;
        assert cs[k] == c2[m] && ss[k] == s2[m];
        assert Placed(w1, w2, tileSize, c2[m], s2[m]);
      }
    }
  }

  lemma OwnSlotsChain(w0: World, w1: World, w2: World, tileSize: real,
                      c1: seq<AsciiMap.Cell>, s1: seq<Entity>, c2: seq<AsciiMap.Cell>, s2: seq<Entity>)
    requires OwnSlots(s1) && OwnSlots(s2)
    requires AllPlaced(w0, w1, tileSize, c1, s1) && AllPlaced(w1, w2, tileSize, c2, s2)
    ensures OwnSlots(s1 + s2)
  {
    var ss := s1 + s2;
    forall k, m | 0 <= k < m < |ss|
      ensures ss[k].index != ss[m].index
    {
      if m < |s1| {
        assert ss[k] == s1[k] && ss[m] == s1[m];
      } else if k >= |s1| {
        assert ss[k] == s2[k - |s1|] && ss[m] == s2[m - |s1|];
      } else {
        assert ss[k] == s1[k] && ss[m] == s2[m - |s1|];
        assert Placed(w0, w1, tileSize, c1[k], s1[k]);
        assert Placed(w1, w2, tileSize, c2[m - |s1|], s2[m - |s1|]);
      }
    }
  }

  lemma PopulatesChain(w0: World, w1: World, w2: World, tileSize: real,
                       c1: seq<AsciiMap.Cell>, s1: seq<Entity>, c2: seq<AsciiMap.Cell>, s2: seq<Entity>)
    requires Populates(w0, w1, tileSize, c1, s1)
    requires Populates(w1, w2, tileSize, c2, s2)
    ensures Populates(w0, w2, tileSize, c1 + c2, s1 + s2)
  {
    SpawnedIndicesAppend(s1, s2);
    AllPlacedChain(w0, w1, w2, tileSize, c1, s1, c2, s2);
    OwnSlotsChain(w0, w1, w2, tileSize, c1, s1, c2, s2);
  }

  /** One map cell: `addEntity` followed by placing the entity on the grid. */
  ghost function Spawn(w: World, c: AsciiMap.Cell, tileSize: real): (r: (World, Entity))
    requires c.symbol in w.types
    ensures Populates(w, r.0, tileSize, [c], [r.1])
    ensures Valid(w) ==> Valid(r.0)
  {
    var (w1, e) := AddEntity(w, c.symbol);
    var e' := SpawnedEntity(w, tileSize, c, e.index);
    var w2 := Store(w1, e');
    assert FreeSlot(w.entities, e.index);
    assert Placed(w, w2, tileSize, c, e');
    PlaceAddsOneLiveIndex(w.entities, e.index, e);
    WriteKeepsLiveIndices(w1.entities, e.index, e');
    SpawnedIndicesOne(e');
    (w2, e')
  }

  /** The inner loop of `createMap`: row `y` from column `x` on. */
  ghost function MapRow(w: World, row: string, y: nat, tileSize: real, x: nat): (r: (World, seq<Entity>))
    ensures Populates(w, r.0, tileSize, AsciiMap.RowCells(row, y, w.types.Keys, x), r.1)
    ensures Valid(w) ==> Valid(r.0)
    decreases |row| - x
  {
    if x >= |row| then (w, [])
    else if [row[x]] in w.types then
      var c := AsciiMap.Cell([row[x]], x, y);
      var (w1, e) := Spawn(w, c, tileSize);
      var (w2, es) := MapRow(w1, row, y, tileSize, x + 1);
      PopulatesChain(w, w1, w2, tileSize, [c], [e], AsciiMap.RowCells(row, y, w.types.Keys, x + 1), es);
      (w2, [e] + es)
    else
      MapRow(w, row, y, tileSize, x + 1)
  }

  /** The outer loop of `createMap`: rows from `y` on. */
  ghost function MapRows(w: World, rows: seq<string>, tileSize: real, y: nat): (r: (World, seq<Entity>))
    ensures Populates(w, r.0, tileSize, AsciiMap.RowsCells(rows, w.types.Keys, y), r.1)
    ensures Valid(w) ==> Valid(r.0)
    decreases |rows| - y
  {
    if y >= |rows| then (w, [])
    else
      var (w1, es1) := MapRow(w, rows[y], y, tileSize, 0);
      var (w2, es2) := MapRows(w1, rows, tileSize, y + 1);
      PopulatesChain(w, w1, w2, tileSize, AsciiMap.RowCells(rows[y], y, w.types.Keys, 0), es1,
                     AsciiMap.RowsCells(rows, w.types.Keys, y + 1), es2);
      (w2, es1 + es2)
  }

  /** `createMap`: one entity per map character that is a registered symbol
      (see `AsciiMap.MapCellsExact`), at column times `tileSize`, row times
      `tileSize`, in row-major order; every other character is skipped and no
      live entity is disturbed. The entities are also returned here so that
      the contract can name them. */
  ghost function CreateMap(w: World, rows: seq<string>, tileSize: real): (r: (World, seq<Entity>))
    ensures Populates(w, r.0, tileSize, AsciiMap.MapCells(rows, w.types.Keys), r.1)
    ensures Valid(w) ==> Valid(r.0)
  {
    MapRows(w, rows, tileSize, 0)
  }

  /** A population step makes exactly one more slot live per spawned
      entity. */
  lemma PopulatesAddsOnePerEntity(w: World, w': World, tileSize: real, cells: seq<AsciiMap.Cell>, spawned: seq<Entity>)
    requires Populates(w, w', tileSize, cells, spawned)
    ensures |LiveIndices(w'.entities)| == |LiveIndices(w.entities)| + |spawned|
  {
    SpawnedIndicesCount(spawned);
    forall i | i in SpawnedIndices(spawned)
      ensures i !in LiveIndices(w.entities)
    {
      var k :| 0 <= k < |spawned| && spawned[k].index == i;
      assert Placed(w, w', tileSize, cells[k], spawned[k]);
    }
  }

  /** `createMap` makes exactly one more slot live per registered map
      character. */
  lemma CreateMapAddsOnePerCell(w: World, rows: seq<string>, tileSize: real)
    ensures |LiveIndices(CreateMap(w, rows, tileSize).0.entities)| ==
            |LiveIndices(w.entities)| + |AsciiMap.MapCells(rows, w.types.Keys)|
  {
    var (w', spawned) := CreateMap(w, rows, tileSize);
    PopulatesAddsOnePerEntity(w, w', tileSize, AsciiMap.MapCells(rows, w.types.Keys), spawned);
  }

  /** The hollow box of ten walls, built in an empty world where `#` is the
      only registered symbol, yields exactly ten live entities. */
  lemma HollowBoxSpawnsTenEntities(t: EntityType, tileSize: real)
    ensures |LiveIndices(CreateMap(World(map["#" := t], []), ["####", "#  #", "####"], tileSize).0.entities)| == 10
  {
    var w := World(map["#" := t], []);
    assert w.types.Keys == {"#"};
    AsciiMap.HollowBoxHasTenWalls();
    assert LiveIndices(w.entities) == {};
    CreateMapAddsOnePerCell(w, ["####", "#  #", "####"], tileSize);
  }
}
