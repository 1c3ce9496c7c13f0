/** The engine of src/engine.js: entity types are numbered in registration
    order, map symbols point at type numbers, and besides the global slot
    list every type keeps a collision list of its own entities. A live
    entity therefore has two back-indices, `index` into the global list and
    `collisionIndex` into its type's collision list. */
module TypedEngine {
  import opened Optional
  import opened Slots
  import opened Bodies
  import opened Geometry
  import Motion
  import AsciiMap

  /** A type's number: its position in the list of registered types. */
  type TypeId = nat

  /** An update function. It is user code, so the model only records which
      one a type has. */
  type Callback = nat

  /** The collision test's tolerance in this variant. */
  const Eps: real := 0.0001

  /** An entity record; `index` also stands for its object identity. */
  datatype Entity = Entity(body: Body, entityType: TypeId, index: nat, collisionIndex: nat, extra: Fields)

  datatype EntityType = EntityType(update: Option<Callback>, collisionList: seq<Slot<Entity>>, defaultState: Defaults)

  datatype World = World(types: seq<EntityType>, symbols: map<string, TypeId>, entities: seq<Slot<Entity>>)

  // ------------------------------------------------------------ invariant

  /** `e` is stored in the global list at the index it records. */
  predicate InGlobal(w: World, e: Entity) {
    e.index < |w.entities| && w.entities[e.index] == Live(e)
  }

  /** `e` is stored in its type's collision list at the index it records. */
  predicate InCollision(w: World, e: Entity) {
    && e.entityType < |w.types|
    && e.collisionIndex < |w.types[e.entityType].collisionList|
    && w.types[e.entityType].collisionList[e.collisionIndex] == Live(e)
  }

  /** Both back-indices of `e` point at `e`. */
  predicate Stored(w: World, e: Entity) {
    InGlobal(w, e) && InCollision(w, e)
  }

  predicate SymbolsResolve(w: World) {
    forall s :: s in w.symbols ==> w.symbols[s] < |w.types|
  }

  /** Every live entity of the global list records its slot there and is
      also in its type's collision list. */
  predicate EntitiesIndexed(w: World) {
    forall i :: 0 <= i < |w.entities| && w.entities[i].Live? ==>
      w.entities[i].item.index == i && InCollision(w, w.entities[i].item)
  }

  /** Every live entity of a collision list is of that list's type, records
      its slot there and is also in the global list. */
  predicate CollisionsIndexed(w: World) {
    forall t, j :: 0 <= t < |w.types| && 0 <= j < |w.types[t].collisionList| && w.types[t].collisionList[j].Live? ==>
      var e := w.types[t].collisionList[j].item;
      e.entityType == t && e.collisionIndex == j && InGlobal(w, e)
  }

  predicate Valid(w: World) {
    SymbolsResolve(w) && EntitiesIndexed(w) && CollisionsIndexed(w)
  }

  /** Replaces the collision list of type `t`. */
  function WithCollisionList(w: World, t: TypeId, l: seq<Slot<Entity>>): (r: World)
    requires t < |w.types|
    ensures |r.types| == |w.types|
    ensures r.types[t] == w.types[t].(collisionList := l)
    ensures forall u :: 0 <= u < |w.types| && u != t ==> r.types[u] == w.types[u]
    ensures r.symbols == w.symbols && r.entities == w.entities
  {
    w.(types := w.types[t := w.types[t].(collisionList := l)])
  }

  // ------------------------------------------------------------ registry

  /** `addEntityType`: appends a type with an empty collision list, points
      `symbol` at it and returns its number, the previous number of types. */
  function AddEntityType(w: World, symbol: string, update: Option<Callback>, defaultState: Defaults): (r: (World, TypeId))
    ensures r.1 == |w.types|
    ensures r.0.types == w.types + [EntityType(update, [], defaultState)]
    ensures r.0.symbols.Keys == w.symbols.Keys + {symbol}
    ensures r.0.symbols[symbol] == r.1
    ensures forall s :: s in w.symbols && s != symbol ==> r.0.symbols[s] == w.symbols[s]
    ensures r.0.entities == w.entities
  {
    var t := |w.types|;
    (World(w.types + [EntityType(update, [], defaultState)], w.symbols[symbol := t], w.entities), t)
  }

  /** Registering a type keeps the world valid: the new type has no entities
      and every old collision list is where it was. */
  lemma AddEntityTypePreservesValid(w: World, symbol: string, update: Option<Callback>, defaultState: Defaults)
    requires Valid(w)
    ensures Valid(AddEntityType(w, symbol, update, defaultState).0)
  {
  }

  /** Registering a symbol a second time re-points it at the newer type; the
      older type stays in the list under its number. */
  lemma DuplicateSymbolRepointed(w: World, symbol: string, u1: Option<Callback>, d1: Defaults, u2: Option<Callback>, d2: Defaults)
    ensures var (w1, t1) := AddEntityType(w, symbol, u1, d1);
      var (w2, t2) := AddEntityType(w1, symbol, u2, d2);
      && t2 == t1 + 1
      && w2.symbols[symbol] == t2
      && w2.symbols.Keys == w1.symbols.Keys
      && w2.types[t1] == EntityType(u1, [], d1)
  {
  }

  // ------------------------------------------------------------ entity store

  /** A fresh record of type `t` with the given back-indices: zero core
      fields with the type's default state merged in. */
  function NewEntity(d: Defaults, t: TypeId, index: nat, collisionIndex: nat): Entity {
    Entity(InitialBody(d), t, index, collisionIndex, d.extra)
  }

  /** `addEntity`: stores a fresh record in a free slot of the global list
      and in a free slot of its type's collision list, and records both
      slots on it. */
  ghost function AddEntity(w: World, t: TypeId): (r: (World, Entity))
    requires t < |w.types|
    ensures r.1 == NewEntity(w.types[t].defaultState, t, r.1.index, r.1.collisionIndex)
    ensures FreeSlot(w.entities, r.1.index)
    ensures FreeSlot(w.types[t].collisionList, r.1.collisionIndex)
    ensures Stored(r.0, r.1)
    ensures r.0.entities == Place(w.entities, r.1.index, r.1)
    ensures r.0 == WithCollisionList(w, t, Place(w.types[t].collisionList, r.1.collisionIndex, r.1)).(entities := r.0.entities)
  {
    var i := Alloc(w.entities);
    var j := Alloc(w.types[t].collisionList);
    var e := NewEntity(w.types[t].defaultState, t, i, j);
    var w1 := WithCollisionList(w, t, Place(w.types[t].collisionList, j, e));
    (w1.(entities := Place(w.entities, i, e)), e)
  }

  /** `addEntity` keeps both back-indices of every live entity pointing at it. */
  lemma {:induction false} AddEntityPreservesValid(w: World, t: TypeId)
    requires Valid(w) && t < |w.types|
    ensures Valid(AddEntity(w, t).0)
  {
    var (w', e) := AddEntity(w, t);
    var cl := w.types[t].collisionList;
    forall i | 0 <= i < |w'.entities| && w'.entities[i].Live?
      ensures w'.entities[i].item.index == i && InCollision(w', w'.entities[i].item)
    {
      if i != e.index {
        var x := w.entities[i].item;
        assert w'.entities[i] == w.entities[i];
        assert InCollision(w, x);
        if x.entityType == t {
          assert x.collisionIndex != e.collisionIndex;
        }
      }
    }
    forall u, j | 0 <= u < |w'.types| && 0 <= j < |w'.types[u].collisionList| && w'.types[u].collisionList[j].Live?
      ensures var x := w'.types[u].collisionList[j].item;
        x.entityType == u && x.collisionIndex == j && InGlobal(w', x)
    {
      if u != t || j != e.collisionIndex {
        assert w'.types[u].collisionList[j] == w.types[u].collisionList[j];
        var x := w.types[u].collisionList[j].item;
        assert InGlobal(w, x);
        assert x.index != e.index;
      }
    }
  }

  /** `destroyEntity`: tombstones the entity's slot in the global list and
      its slot in its type's collision list, and nothing else. */
  function DestroyEntity(w: World, e: Entity): (r: World)
    requires e.index < |w.entities|
    requires e.entityType < |w.types| && e.collisionIndex < |w.types[e.entityType].collisionList|
    ensures |r.entities| == |w.entities| && r.entities[e.index] == Removed
    ensures forall j :: 0 <= j < |w.entities| && j != e.index ==> r.entities[j] == w.entities[j]
    ensures |r.types| == |w.types|
    ensures r.types[e.entityType].collisionList == Remove(w.types[e.entityType].collisionList, e.collisionIndex)
    ensures r.types[e.entityType].update == w.types[e.entityType].update
    ensures r.types[e.entityType].defaultState == w.types[e.entityType].defaultState
    ensures forall u :: 0 <= u < |w.types| && u != e.entityType ==> r.types[u] == w.types[u]
    ensures r.symbols == w.symbols
  {
    var w1 := w.(entities := Remove(w.entities, e.index));
    WithCollisionList(w1, e.entityType, Remove(w.types[e.entityType].collisionList, e.collisionIndex))
  }

  /** Destroying a stored entity keeps both back-indices of every other live
      entity pointing at it. */
  lemma {:induction false} DestroyEntityPreservesValid(w: World, e: Entity)
    requires Valid(w) && InGlobal(w, e)
    ensures InCollision(w, e)
    ensures Valid(DestroyEntity(w, e))
  {
  }

  /** Adding an entity and destroying it again leaves the same live slots in
      the global list and in the type's collision list. */
  lemma AddThenDestroyRestoresLiveSlots(w: World, t: TypeId)
    requires t < |w.types|
    ensures var (w1, e) := AddEntity(w, t);
      var w2 := DestroyEntity(w1, e);
      && LiveIndices(w2.entities) == LiveIndices(w.entities)
      && LiveIndices(w2.types[t].collisionList) == LiveIndices(w.types[t].collisionList)
  {
  }

  /** Writes a changed entity back into both of its slots (the source
      mutates the one object both lists hold). */
  function Store(w: World, e: Entity): (r: World)
    requires e.index < |w.entities|
    requires e.entityType < |w.types| && e.collisionIndex < |w.types[e.entityType].collisionList|
    ensures Stored(r, e)
    ensures r.entities == Write(w.entities, e.index, e)
    ensures r.types[e.entityType].collisionList == Write(w.types[e.entityType].collisionList, e.collisionIndex, e)
    ensures |r.entities| == |w.entities|
    ensures forall j :: 0 <= j < |w.entities| && j != e.index ==> r.entities[j] == w.entities[j]
    ensures |r.types| == |w.types|
    ensures r.types[e.entityType] == w.types[e.entityType].(collisionList := r.types[e.entityType].collisionList)
    ensures |r.types[e.entityType].collisionList| == |w.types[e.entityType].collisionList|
    ensures forall j :: 0 <= j < |w.types[e.entityType].collisionList| && j != e.collisionIndex ==>
      r.types[e.entityType].collisionList[j] == w.types[e.entityType].collisionList[j]
    ensures forall u :: 0 <= u < |w.types| && u != e.entityType ==> r.types[u] == w.types[u]
    ensures r.symbols == w.symbols
  {
    var w1 := w.(entities := Write(w.entities, e.index, e));
    WithCollisionList(w1, e.entityType, Write(w.types[e.entityType].collisionList, e.collisionIndex, e))
  }

  /** `a` and `b` are the same entity in the same two slots. */
  predicate SameSlots(a: Entity, b: Entity) {
    a.index == b.index && a.entityType == b.entityType && a.collisionIndex == b.collisionIndex
  }

  /** Writing back a changed copy of a stored entity keeps the world valid. */
  lemma {:induction false} StorePreservesValid(w: World, before: Entity, e: Entity)
    requires Valid(w) && InGlobal(w, before) && SameSlots(before, e)
    ensures InCollision(w, before)
    ensures Valid(Store(w, e))
  {
  }

  // ---------------------------------------------------------------- collision

  /** `other` is a hit for `entity` probing at offset `(offX, offY)`: another
      object whose box the shifted box overlaps. No type test: the list
      scanned already holds one type only. */
  predicate Collides(entity: Entity, offX: real, offY: real, other: Entity) {
    other.index != entity.index && Overlaps(BoxAt(entity.body, offX, offY), Box(other.body), Eps)
  }

  /** `checkCollision`: the first hit, in slot order, in the collision list
      of `otherType`, or `None`. */
  function CheckCollision(w: World, entity: Entity, otherType: TypeId, offX: real, offY: real): (r: Option<Entity>)
    requires otherType < |w.types|
    ensures r.Some? ==> Collides(entity, offX, offY, r.value)
    ensures r.Some? ==> exists j :: 0 <= j < |w.types[otherType].collisionList| &&
                          w.types[otherType].collisionList[j] == Live(r.value) &&
                          forall k :: 0 <= k < j && w.types[otherType].collisionList[k].Live? ==>
                                        !Collides(entity, offX, offY, w.types[otherType].collisionList[k].item)
    ensures r.None? <==>
      forall j :: 0 <= j < |w.types[otherType].collisionList| && w.types[otherType].collisionList[j].Live? ==>
        !Collides(entity, offX, offY, w.types[otherType].collisionList[j].item)
  {
    var l := w.types[otherType].collisionList;
    match FirstWhere(l, o => Collides(entity, offX, offY, o))
    case None => None
    case Some(j) => Some(l[j].item)
  }

  /** The query reads the collision list of `otherType` and nothing else. */
  lemma ReadsOnlyItsCollisionList(w: World, w': World, entity: Entity, otherType: TypeId, offX: real, offY: real)
    requires otherType < |w.types| && otherType < |w'.types|
    requires w'.types[otherType].collisionList == w.types[otherType].collisionList
    ensures CheckCollision(w', entity, otherType, offX, offY) == CheckCollision(w, entity, otherType, offX, offY)
  {
  }

  /** In a valid world a hit is a live entity of `otherType`, stored in both
      of its slots, and never the querying entity. */
  lemma HitIsStoredOfType(w: World, entity: Entity, otherType: TypeId, offX: real, offY: real)
    requires Valid(w) && otherType < |w.types|
    ensures var r := CheckCollision(w, entity, otherType, offX, offY);
      r.Some? ==> Stored(w, r.value) && r.value.entityType == otherType && r.value.index != entity.index
  {
  }

  // ------------------------------------------------------------------- motion

  datatype MoveResult = MoveResult(entity: Entity, horizWall: Option<Entity>, vertWall: Option<Entity>)

  function WallBody(wall: Option<Entity>): Option<Body> {
    match wall
    case None => None
    case Some(o) => Some(o.body)
  }

  /** `moveAndCheckForObstacles`: the horizontal probe at `(speedX*dt, 0)`,
      the vertical probe at the horizontally resolved position with the
      `speedX` left after that phase (so an x offset of 0 after a horizontal
      hit), then the resolved move. Only the body of the entity changes. */
  function MoveAndCheckForObstacles(w: World, entity: Entity, obstacleType: TypeId, dt: real): (r: MoveResult)
    requires obstacleType < |w.types|
    ensures r.horizWall == CheckCollision(w, entity, obstacleType, Motion.Travel(entity.body.speedX, dt), 0.0)
    ensures r.horizWall.None? ==>
              r.vertWall == CheckCollision(w, entity, obstacleType, Motion.Travel(entity.body.speedX, dt), Motion.Travel(entity.body.speedY, dt))
    ensures r.horizWall.Some? ==>
              r.vertWall == CheckCollision(w, entity.(body := Motion.AfterHorizontal(entity.body, WallBody(r.horizWall))),
                                           obstacleType, 0.0, Motion.Travel(entity.body.speedY, dt))
    ensures Motion.Resolved(entity.body, WallBody(r.horizWall), WallBody(r.vertWall), dt, r.entity.body)
    ensures r.entity == entity.(body := r.entity.body)
  {
    var h := CheckCollision(w, entity, obstacleType, Motion.Travel(entity.body.speedX, dt), 0.0);
    var b1 := Motion.AfterHorizontal(entity.body, WallBody(h));
    var v := CheckCollision(w, entity.(body := b1), obstacleType, Motion.Travel(b1.speedX, dt), Motion.Travel(b1.speedY, dt));
    assert h.Some? ==> Motion.Travel(b1.speedX, dt) == 0.0;
    var b2 := Motion.AfterVertical(b1, WallBody(v));
    assert Motion.Advance(b2, dt) == Motion.Resolve(entity.body, WallBody(h), WallBody(v), dt);
    MoveResult(entity.(body := Motion.Advance(b2, dt)), h, v)
  }

  /** Moving a stored entity rewrites its own two slots only, and keeps the
      world valid. */
  function MoveEntity(w: World, entity: Entity, obstacleType: TypeId, dt: real): (r: (World, MoveResult))
    requires Stored(w, entity) && obstacleType < |w.types|
    ensures r.1 == MoveAndCheckForObstacles(w, entity, obstacleType, dt)
    ensures Stored(r.0, r.1.entity)
    ensures |r.0.entities| == |w.entities|
    ensures forall j :: 0 <= j < |w.entities| && j != entity.index ==> r.0.entities[j] == w.entities[j]
    ensures |r.0.types| == |w.types|
    ensures r.0.types[entity.entityType] ==
            w.types[entity.entityType].(collisionList := r.0.types[entity.entityType].collisionList)
    ensures |r.0.types[entity.entityType].collisionList| == |w.types[entity.entityType].collisionList|
    ensures forall j :: 0 <= j < |w.types[entity.entityType].collisionList| && j != entity.collisionIndex ==>
      r.0.types[entity.entityType].collisionList[j] == w.types[entity.entityType].collisionList[j]
    ensures forall u :: 0 <= u < |w.types| && u != entity.entityType ==> r.0.types[u] == w.types[u]
    ensures r.0.symbols == w.symbols
    ensures Valid(w) ==> Valid(r.0)
  {
    var m := MoveAndCheckForObstacles(w, entity, obstacleType, dt);
    assert SameSlots(entity, m.entity);
    StorePreservesValidIfValid(w, entity, m.entity);
    (Store(w, m.entity), m)
  }

  lemma StorePreservesValidIfValid(w: World, before: Entity, e: Entity)
    requires InGlobal(w, before) && SameSlots(before, e)
    requires e.entityType < |w.types| && e.collisionIndex < |w.types[e.entityType].collisionList|
    ensures Valid(w) ==> Valid(Store(w, e))
  {
    if Valid(w) {
      StorePreservesValid(w, before, e);
    }
  }

  // ------------------------------------------------------------ game loop

  /** The slots of the global list the game loop calls an update function
      for, in the order it calls them: the live ones whose type has one. */
  function UpdateOrder(w: World): (r: seq<nat>)
    requires Valid(w)
    ensures forall k, m :: 0 <= k < m < |r| ==> r[k] < r[m]
    ensures forall i :: i in r <==>
      0 <= i < |w.entities| && w.entities[i].Live? && w.types[w.entities[i].item.entityType].update.Some?
  {
    assert forall i :: 0 <= i < |w.entities| && w.entities[i].Live? ==> InCollision(w, w.entities[i].item);
    IndicesFrom(w.entities, (e: Entity) => e.entityType < |w.types| && w.types[e.entityType].update.Some?, 0)
  }

  // -------------------------------------------------------------------- map

  /** The entity spawned for map cell `c`: a fresh record of type `t`, with
      the given back-indices, moved to the cell's position. */
  function SpawnedEntity(d: Defaults, t: TypeId, tileSize: real, c: AsciiMap.Cell, index: nat, collisionIndex: nat): Entity {
    var e := NewEntity(d, t, index, collisionIndex);
    e.(body := e.body.(x := c.col as real * tileSize, y := c.row as real * tileSize))
  }

  /** From `w` to `w'` the symbols and the types' own data are the same, and
      no live slot of the global list or of any collision list changed. */
  predicate Grows(w: World, w': World) {
    && w'.symbols == w.symbols
    && |w'.types| == |w.types|
    && (forall t :: 0 <= t < |w.types| ==>
          && w'.types[t].update == w.types[t].update
          && w'.types[t].defaultState == w.types[t].defaultState
          && KeepsLive(w.types[t].collisionList, w'.types[t].collisionList))
    && KeepsLive(w.entities, w'.entities)
  }

  /** `e` is the entity spawned for `c`, stored in `w'` in two slots that
      held no live entity in `w`. */
  ghost predicate Placed(w: World, w': World, tileSize: real, c: AsciiMap.Cell, e: Entity) {
    && c.symbol in w.symbols
    && e.entityType == w.symbols[c.symbol]
    && e.entityType < |w.types|
    && e == SpawnedEntity(w.types[e.entityType].defaultState, e.entityType, tileSize, c, e.index, e.collisionIndex)
    && Stored(w', e)
    && NotLive(w.entities, e.index)
    && NotLive(w.types[e.entityType].collisionList, e.collisionIndex)
  }

  /** One entity of `spawned` per cell of `cells`, in order, each placed
      in `w'` in slots free in `w`. */
  ghost predicate AllPlaced(w: World, w': World, tileSize: real, cells: seq<AsciiMap.Cell>, spawned: seq<Entity>) {
    && |spawned| == |cells|
    && (forall k :: 0 <= k < |spawned| ==> Placed(w, w', tileSize, cells[k], spawned[k]))
  }

  /** No two entities of `spawned` share a global slot or a collision slot. */
  predicate OwnSlots(spawned: seq<Entity>) {
    && (forall k, m :: 0 <= k < m < |spawned| ==> spawned[k].index != spawned[m].index)
    && (forall k, m :: 0 <= k < m < |spawned| && spawned[k].entityType == spawned[m].entityType ==>
          spawned[k].collisionIndex != spawned[m].collisionIndex)
  }

  /** The slots live in `w'` are those live in `w` plus the slots of
      `spawned`, in the global list and in every collision list. */
  predicate LiveGrowth(w: World, w': World, spawned: seq<Entity>)
    requires |w'.types| == |w.types|
  {
    && LiveIndices(w'.entities) == LiveIndices(w.entities) + SpawnedIndices(spawned)
    && (forall t :: 0 <= t < |w.types| ==>
          LiveIndices(w'.types[t].collisionList) == LiveIndices(w.types[t].collisionList) + SpawnedSlots(spawned, t))
  }

  /** Going from `w` to `w'` spawned one entity per cell of `cells`, in
      order, each in slots of its own, disturbed no live entity, and made no
      other slot live. */
  ghost predicate Populates(w: World, w': World, tileSize: real, cells: seq<AsciiMap.Cell>, spawned: seq<Entity>) {
    && Grows(w, w')
    && AllPlaced(w, w', tileSize, cells, spawned)
    && OwnSlots(spawned)
    && LiveGrowth(w, w', spawned)
  }

  /** The global slots the entities of `spawned` record. */
  function SpawnedIndices(spawned: seq<Entity>): set<nat> {
    set k | 0 <= k < |spawned| :: spawned[k].index
  }

  /** The collision slots the entities of `spawned` of type `t` record. */
  function SpawnedSlots(spawned: seq<Entity>, t: TypeId): set<nat> {
    set k | 0 <= k < |spawned| && spawned[k].entityType == t :: spawned[k].collisionIndex
  }

  lemma SpawnedAppend(s1: seq<Entity>, s2: seq<Entity>)
    ensures SpawnedIndices(s1 + s2) == SpawnedIndices(s1) + SpawnedIndices(s2)
    ensures forall t :: SpawnedSlots(s1 + s2, t) == SpawnedSlots(s1, t) + SpawnedSlots(s2, t)
  {
    var ss := s1 + s2;
    forall i | i in SpawnedIndices(ss)
      ensures i in SpawnedIndices(s1) + SpawnedIndices(s2)
    {
      var k :| 0 <= k < |ss| && ss[k].index == i;
      if k < |s1| {
        assert s1[k] == ss[k];
      } else {
        assert s2[k - |s1|] == ss[k];
      }
    }
    forall i | i in SpawnedIndices(s1) + SpawnedIndices(s2)
      ensures i in SpawnedIndices(ss)
    {
      if i in SpawnedIndices(s1) {
        var k :| 0 <= k < |s1| && s1[k].index == i;
        assert ss[k] == s1[k];
      } else {
        var k :| 0 <= k < |s2| && s2[k].index == i;
        assert ss[|s1| + k] == s2[k];
      }
    }
    forall t: TypeId
      ensures SpawnedSlots(ss, t) == SpawnedSlots(s1, t) + SpawnedSlots(s2, t)
    {
      forall i | i in SpawnedSlots(ss, t)
        ensures i in SpawnedSlots(s1, t) + SpawnedSlots(s2, t)
      {
        var k :| 0 <= k < |ss| && ss[k].entityType == t && ss[k].collisionIndex == i;
        if k < |s1| {
          assert s1[k] == ss[k];
        } else {
          assert s2[k - |s1|] == ss[k];
        }
      }
      forall i | i in SpawnedSlots(s1, t) + SpawnedSlots(s2, t)
        ensures i in SpawnedSlots(ss, t)
      {
        if i in SpawnedSlots(s1, t) {
          var k :| 0 <= k < |s1| && s1[k].entityType == t && s1[k].collisionIndex == i;
          assert ss[k] == s1[k];
        } else {
          var k :| 0 <= k < |s2| && s2[k].entityType == t && s2[k].collisionIndex == i;
          assert ss[|s1| + k] == s2[k];
        }
      }
    }
  }

  lemma SpawnedOne(e: Entity)
    ensures SpawnedIndices([e]) == {e.index}
    ensures SpawnedSlots([e], e.entityType) == {e.collisionIndex}
    ensures forall t :: t != e.entityType ==> SpawnedSlots([e], t) == {}
  {
    assert [e][0] == e;
  }

  /** Entities in global slots of their own record as many slots as there
      are entities. */
  lemma {:induction false} SpawnedIndicesCount(s: seq<Entity>)
    requires forall k, m :: 0 <= k < m < |s| ==> s[k].index != s[m].index
    ensures |SpawnedIndices(s)| == |s|
  {
    if s != [] {
      var n := |s| - 1;
      SpawnedIndicesCount(s[..n]);
      SpawnedAppend(s[..n], [s[n]]);
      assert s == s[..n] + [s[n]];
      SpawnedOne(s[n]);
      assert s[n].index !in SpawnedIndices(s[..n]);
    }
  }

  /** Entities all of type `t`, in collision slots of their own, record as
      many collision slots of `t` as there are entities. */
  lemma {:induction false} SpawnedSlotsCount(s: seq<Entity>, t: TypeId)
    requires forall k :: 0 <= k < |s| ==> s[k].entityType == t
    requires forall k, m :: 0 <= k < m < |s| ==> s[k].collisionIndex != s[m].collisionIndex
    ensures |SpawnedSlots(s, t)| == |s|
  {
    if s != [] {
      var n := |s| - 1;
      SpawnedSlotsCount(s[..n], t);
      SpawnedAppend(s[..n], [s[n]]);
      assert s == s[..n] + [s[n]];
      SpawnedOne(s[n]);
      assert s[n].collisionIndex !in SpawnedSlots(s[..n], t);
    }
  }

  lemma GrowsTransitive(w0: World, w1: World, w2: World)
    requires Grows(w0, w1) && Grows(w1, w2)
    ensures Grows(w0, w2)
  {
  }

  /** A placement survives any later step that keeps live slots. */
  lemma PlacedPersists(w0: World, w1: World, w2: World, tileSize: real, c: AsciiMap.Cell, e: Entity)
    requires Placed(w0, w1, tileSize, c, e) && Grows(w1, w2)
    ensures Placed(w0, w2, tileSize, c, e)
  {
  }

  /** A placement relative to a later world also holds relative to an
      earlier one, when the step between them kept live slots. */
  lemma PlacedFromEarlier(w0: World, w1: World, w2: World, tileSize: real, c: AsciiMap.Cell, e: Entity)
    requires Grows(w0, w1) && Placed(w1, w2, tileSize, c, e)
    ensures Placed(w0, w2, tileSize, c, e)
  {
  }

  /** An entity placed in slots that were free in `w1` is not one stored in `w1`. */
  lemma PlacedIsNew(w1: World, w2: World, tileSize: real, c: AsciiMap.Cell, e: Entity, earlier: Entity)
    requires Placed(w1, w2, tileSize, c, e) && Stored(w1, earlier)
    ensures earlier.index != e.index
    ensures earlier.entityType == e.entityType ==> earlier.collisionIndex != e.collisionIndex
  {
  }

  lemma AllPlacedChain(w0: World, w1: World, w2: World, tileSize: real,
                        c1: seq<AsciiMap.Cell>, s1: seq<Entity>, c2: seq<AsciiMap.Cell>, s2: seq<Entity>)
    requires Grows(w0, w1) && Grows(w1, w2)
    requires AllPlaced(w0, w1, tileSize, c1, s1) && AllPlaced(w1, w2, tileSize, c2, s2)
    ensures AllPlaced(w0, w2, tileSize, c1 + c2, s1 + s2)
  {
    var cs, ss := c1 + c2, s1 + s2;
    forall k | 0 <= k < |ss|
      ensures Placed(w0, w2, tileSize, cs[k], ss[k])
    {
      if k < |s1| {
        assert cs[k] == c1[k] && ss[k] == s1[k];
        PlacedPersists(w0, w1, w2, tileSize, c1[k], s1[k]);
      } else {
        var m := k - |s1|;
        assert cs[k] == c2[m] && ss[k] == s2[m];
        PlacedFromEarlier(w0, w1, w2, tileSize, c2[m], s2[m]);
      }
    }
  }

  lemma OwnSlotsChain(w0: World, w1: World, w2: World, tileSize: real,
                      c1: seq<AsciiMap.Cell>, s1: seq<Entity>, c2: seq<AsciiMap.Cell>, s2: seq<Entity>)
    requires OwnSlots(s1) && OwnSlots(s2)
    requires AllPlaced(w0, w1, tileSize, c1, s1) && AllPlaced(w1, w2, tileSize, c2, s2)
    ensures OwnSlots(s1 + s2)
  {
    var ss := s1 + s2;
    forall k, m | 0 <= k < m < |ss|
      ensures ss[k].index != ss[m].index
      ensures ss[k].entityType == ss[m].entityType ==> ss[k].collisionIndex != ss[m].collisionIndex
    {
      if m < |s1| {
        assert ss[k] == s1[k] && ss[m] == s1[m];
      } else if k >= |s1| {
        assert ss[k] == s2[k - |s1|] && ss[m] == s2[m - |s1|];
      } else {
        assert ss[k] == s1[k] && ss[m] == s2[m - |s1|];
        assert Placed(w0, w1, tileSize, c1[k], s1[k]);
        PlacedIsNew(w1, w2, tileSize, c2[m - |s1|], s2[m - |s1|], s1[k]);
      }
    }
  }

  lemma LiveGrowthChain(w0: World, w1: World, w2: World, s1: seq<Entity>, s2: seq<Entity>)
    requires |w1.types| == |w0.types| && |w2.types| == |w1.types|
    requires LiveGrowth(w0, w1, s1) && LiveGrowth(w1, w2, s2)
    ensures LiveGrowth(w0, w2, s1 + s2)
  {
    SpawnedAppend(s1, s2);
  }

  lemma {:induction false} PopulatesChain(w0: World, w1: World, w2: World, tileSize: real,
                                          c1: seq<AsciiMap.Cell>, s1: seq<Entity>, c2: seq<AsciiMap.Cell>, s2: seq<Entity>)
    requires Populates(w0, w1, tileSize, c1, s1)
    requires Populates(w1, w2, tileSize, c2, s2)
    ensures Populates(w0, w2, tileSize, c1 + c2, s1 + s2)
  {
    GrowsTransitive(w0, w1, w2);
    AllPlacedChain(w0, w1, w2, tileSize, c1, s1, c2, s2);
    OwnSlotsChain(w0, w1, w2, tileSize, c1, s1, c2, s2);
    LiveGrowthChain(w0, w1, w2, s1, s2);
  }

  /** One map cell: `addEntity` of the type the cell's symbol points at,
      followed by placing the entity on the grid. */
  ghost function Spawn(w: World, c: AsciiMap.Cell, tileSize: real): (r: (World, Entity))
    requires SymbolsResolve(w) && c.symbol in w.symbols
    ensures Populates(w, r.0, tileSize, [c], [r.1])
    ensures Valid(w) ==> Valid(r.0)
  {
    var t := w.symbols[c.symbol];
    var (w1, e) := AddEntity(w, t);
    var e' := SpawnedEntity(w.types[t].defaultState, t, tileSize, c, e.index, e.collisionIndex);
    var w2 := Store(w1, e');
    SpawnKeepsValid(w, t, e');
    assert FreeSlot(w.entities, e.index);
    assert FreeSlot(w.types[t].collisionList, e.collisionIndex);
    assert Placed(w, w2, tileSize, c, e');
    PlaceAddsOneLiveIndex(w.entities, e.index, e);
    PlaceAddsOneLiveIndex(w.types[t].collisionList, e.collisionIndex, e);
    WriteKeepsLiveIndices(w1.entities, e.index, e');
    WriteKeepsLiveIndices(w1.types[t].collisionList, e.collisionIndex, e');
    SpawnedOne(e');
    (w2, e')
  }

  lemma SpawnKeepsValid(w: World, t: TypeId, e': Entity)
    requires t < |w.types|
    requires SameSlots(AddEntity(w, t).1, e')
    ensures Valid(w) ==> Valid(Store(AddEntity(w, t).0, e'))
  {
    if Valid(w) {
      var (w1, e) := AddEntity(w, t);
      AddEntityPreservesValid(w, t);
      StorePreservesValid(w1, e, e');
    }
  }

  /** The inner loop of `createMap`: row `y` from column `x` on. */
  ghost function MapRow(w: World, row: string, y: nat, tileSize: real, x: nat): (r: (World, seq<Entity>))
    requires SymbolsResolve(w)
    ensures Populates(w, r.0, tileSize, AsciiMap.RowCells(row, y, w.symbols.Keys, x), r.1)
    ensures Valid(w) ==> Valid(r.0)
    decreases |row| - x
  {
    if x >= |row| then (w, [])
    else if [row[x]] in w.symbols then
      var c := AsciiMap.Cell([row[x]], x, y);
      var (w1, e) := Spawn(w, c, tileSize);
      var (w2, es) := MapRow(w1, row, y, tileSize, x + 1);
      PopulatesChain(w, w1, w2, tileSize, [c], [e], AsciiMap.RowCells(row, y, w.symbols.Keys, x + 1), es);
      (w2, [e] + es)
    else
      MapRow(w, row, y, tileSize, x + 1)
  }

  /** The outer loop of `createMap`: rows from `y` on. */
  ghost function MapRows(w: World, rows: seq<string>, tileSize: real, y: nat): (r: (World, seq<Entity>))
    requires SymbolsResolve(w)
    ensures Populates(w, r.0, tileSize, AsciiMap.RowsCells(rows, w.symbols.Keys, y), r.1)
    ensures Valid(w) ==> Valid(r.0)
    decreases |rows| - y
  {
    if y >= |rows| then (w, [])
    else
      var (w1, es1) := MapRow(w, rows[y], y, tileSize, 0);
      var (w2, es2) := MapRows(w1, rows, tileSize, y + 1);
      PopulatesChain(w, w1, w2, tileSize, AsciiMap.RowCells(rows[y], y, w.symbols.Keys, 0), es1,
                     AsciiMap.RowsCells(rows, w.symbols.Keys, y + 1), es2);
      (w2, es1 + es2)
  }

  /** `createMap`: one entity per map character that is a registered symbol
      (see `AsciiMap.MapCellsExact`), of the type the symbol points at, at
      column times `tileSize`, row times `tileSize`, in row-major order;
      every other character is skipped and no live entity is disturbed. The
      entities are also returned here so that the contract can name them. */
  ghost function CreateMap(w: World, rows: seq<string>, tileSize: real): (r: (World, seq<Entity>))
    requires SymbolsResolve(w)
    ensures Populates(w, r.0, tileSize, AsciiMap.MapCells(rows, w.symbols.Keys), r.1)
    ensures Valid(w) ==> Valid(r.0)
  {
    MapRows(w, rows, tileSize, 0)
  }

  /** A population step makes exactly one more slot of the global list
      live per spawned entity. */
  lemma PopulatesAddsOnePerEntity(w: World, w': World, tileSize: real, cells: seq<AsciiMap.Cell>, spawned: seq<Entity>)
    requires Populates(w, w', tileSize, cells, spawned)
    ensures |LiveIndices(w'.entities)| == |LiveIndices(w.entities)| + |spawned|
  {
    SpawnedIndicesCount(spawned);
    forall i | i in SpawnedIndices(spawned)
      ensures i !in LiveIndices(w.entities)
    {
      var k :| 0 <= k < |spawned| && spawned[k].index == i;
      assert Placed(w, w', tileSize, cells[k], spawned[k]);
    }
  }

  /** A population step whose cells all name type `t` makes exactly one more
      slot of `t`'s collision list live per spawned entity. */
  lemma PopulatesFillsOneCollisionList(w: World, w': World, tileSize: real, cells: seq<AsciiMap.Cell>,
                                       spawned: seq<Entity>, t: TypeId)
    requires Populates(w, w', tileSize, cells, spawned) && t < |w.types|
    requires forall k :: 0 <= k < |cells| ==> cells[k].symbol in w.symbols && w.symbols[cells[k].symbol] == t
    ensures |LiveIndices(w'.types[t].collisionList)| == |LiveIndices(w.types[t].collisionList)| + |spawned|
  {
    forall k | 0 <= k < |spawned|
      ensures spawned[k].entityType == t
    {
      assert Placed(w, w', tileSize, cells[k], spawned[k]);
    }
    SpawnedSlotsCount(spawned, t);
    forall i | i in SpawnedSlots(spawned, t)
      ensures i !in LiveIndices(w.types[t].collisionList)
    {
      var k :| 0 <= k < |spawned| && spawned[k].entityType == t && spawned[k].collisionIndex == i;
      assert Placed(w, w', tileSize, cells[k], spawned[k]);
    }
  }

  /** `createMap` makes exactly one more slot of the global list live per
      registered map character. */
  lemma CreateMapAddsOnePerCell(w: World, rows: seq<string>, tileSize: real)
    requires SymbolsResolve(w)
    ensures |LiveIndices(CreateMap(w, rows, tileSize).0.entities)| ==
            |LiveIndices(w.entities)| + |AsciiMap.MapCells(rows, w.symbols.Keys)|
  {
    var (w', spawned) := CreateMap(w, rows, tileSize);
    PopulatesAddsOnePerEntity(w, w', tileSize, AsciiMap.MapCells(rows, w.symbols.Keys), spawned);
  }

  /** When every symbol points at type `t`, `createMap` makes exactly one
      more slot of `t`'s collision list live per registered map character. */
  lemma CreateMapFillsOneCollisionList(w: World, rows: seq<string>, tileSize: real, t: TypeId)
    requires SymbolsResolve(w) && t < |w.types|
    requires forall s :: s in w.symbols ==> w.symbols[s] == t
    ensures |LiveIndices(CreateMap(w, rows, tileSize).0.types[t].collisionList)| ==
            |LiveIndices(w.types[t].collisionList)| + |AsciiMap.MapCells(rows, w.symbols.Keys)|
  {
    var (w', spawned) := CreateMap(w, rows, tileSize);
    var cells := AsciiMap.MapCells(rows, w.symbols.Keys);
    PopulatesFillsOneCollisionList(w, w', tileSize, cells, spawned, t);
  }

  /** The hollow box of ten walls, built in an empty world whose only type
      is `#`, yields exactly ten live entities, all in that type's
      collision list. */
  lemma HollowBoxSpawnsTenEntities(t: EntityType, tileSize: real)
    requires t.collisionList == []
    ensures var w' := CreateMap(World([t], map["#" := 0], []), ["####", "#  #", "####"], tileSize).0;
      && |LiveIndices(w'.entities)| == 10
      && |LiveIndices(w'.types[0].collisionList)| == 10
  {
    var w := World([t], map["#" := 0], []);
    assert w.symbols.Keys == {"#"};
    forall s | s in w.symbols ensures w.symbols[s] == 0 {
      assert s == "#";
    }
    EmptyWorldFilledByMap(w, ["####", "#  #", "####"], tileSize, 0);
    AsciiMap.HollowBoxHasTenWalls();
  }

  /** A map built in a world with no live entity and an empty collision list
      for the one type every symbol names has exactly one live entity per
      registered map character, all in that type's collision list. */
  lemma EmptyWorldFilledByMap(w: World, rows: seq<string>, tileSize: real, t: TypeId)
    requires SymbolsResolve(w) && t < |w.types|
    requires forall s :: s in w.symbols ==> w.symbols[s] == t
    requires w.entities == [] && w.types[t].collisionList == []
    ensures var n := |AsciiMap.MapCells(rows, w.symbols.Keys)|;
      && |LiveIndices(CreateMap(w, rows, tileSize).0.entities)| == n
      && |LiveIndices(CreateMap(w, rows, tileSize).0.types[t].collisionList)| == n
  {
    assert LiveIndices(w.entities) == {};
    assert LiveIndices(w.types[t].collisionList) == {};
    CreateMapAddsOnePerCell(w, rows, tileSize);
    CreateMapFillsOneCollisionList(w, rows, tileSize, t);
  }
}
