/** Scenes (`Scene`) and the global state they share (`World`): the entity
    ID pool, the component store and the registry of every scene. */
module Scenes {
  import opened Base
  import opened EntityManager
  import opened ComponentManager
  import opened Entities
  import opened Systems
  import opened SceneLoop

  /** The program's global state: the two manager singletons that every
      entity uses, and `Scene.scenes`, to which every scene adds itself. */
  class World {
    const pool: EntityPool
    const store: ComponentStore
    var scenes: seq<Scene>

    ghost predicate Valid()
      reads this, pool, store, scenes
    {
      && pool.Valid() && store.Valid() && NoDups(scenes)
      && AllNoDups(Lists())
    }

    /** Every scene's entity list, in registry order. */
    ghost function Lists(): (r: seq<seq<Entity>>)
      reads this, scenes
      ensures |r| == |scenes| && forall j :: 0 <= j < |scenes| ==> r[j] == scenes[j].entities
    {
      seq(|scenes|, j requires 0 <= j < |scenes| reads this, scenes => scenes[j].entities)
    }

    /** The module-level `_entityManager` and `_componentManager`, and the
        empty class-level list `Scene.scenes`. */
    constructor ()
      ensures Valid() && fresh(pool) && fresh(store) && fresh(store.table)
      ensures pool.ids == InitialPool() && store.State() == InitialStore() && scenes == []
    {
      pool := new EntityPool();
      store := new ComponentStore();
      scenes := [];
    }

    /** `for scene in Scene.scenes: scene.entities.remove(e)`: the first
        scene without `e` raises ValueError (false), after the scenes before
        it have lost `e`. */
    method RemoveEverywhere(e: Entity) returns (ok: bool)
      requires Valid()
      modifies (set s | s in scenes)`entities
      ensures Valid()
      ensures (ok, Lists()) == RemoveFromScenes(old(Lists()), e, 0)
    {
      ghost var lists := Lists();
      ghost var target := RemoveFromScenes(lists, e, 0);
      var k := 0;
      while k < |scenes|
        invariant 0 <= k <= |scenes| && Valid() && lists == Lists()
        invariant RemoveFromScenes(lists, e, k) == target
      {
        if e !in scenes[k].entities {
          ok := false;
          return;
        }
        ghost var rest := RemoveFirst(scenes[k].entities, e);
        RemoveAt(k, scenes[k], e);
        RemoveFromScenesStep(lists, e, k, rest);
        lists := lists[k := rest];
        k := k + 1;
      }
      ok := true;
    }

    /** `scenes[k].entities.remove(e)` for an `e` that is there. */
    method RemoveAt(k: nat, sc: Scene, e: Entity)
      requires Valid() && k < |scenes| && scenes[k] == sc && e in sc.entities
      modifies sc`entities
      ensures Valid()
      ensures Lists() == old(Lists())[k := RemoveFirst(old(Lists())[k], e)]
    {
      ghost var before := Lists();
      var rest := RemoveFirst(scenes[k].entities, e);
      RemoveFirstShrinks(before[k], e);
      RemoveFirstIsWithout(before[k], e);
      WithoutNoDups(before[k], {e});
      ReplaceList(before, k, rest);
      scenes[k].entities := rest;
      forall j | 0 <= j < |scenes| ensures Lists()[j] == before[k := rest][j] {
        assert j != k ==> scenes[j] != scenes[k];
      }
      assert Lists() == before[k := rest];
    }
  }

  /** The inner loop of `update` and `draw`: `entity.getComponent(t)` is
      not None for any required type `t`, stopping at the first missing one. */
  method HasAllRequired(store: ComponentStore, req: seq<TypeTag>, e: Entity) returns (r: bool)
    requires store.Valid()
    ensures r == HasAll(store.State(), req, e.id)
  {
    r := true;
    var k := 0;
    while k < |req|
      invariant 0 <= k <= |req| && r
      invariant forall j :: 0 <= j < k ==> GetComponentForEntity(store.State(), e.id, req[j]).Some?
    {
      if e.GetComponent(store, req[k]) == None {
        r := false;
        break;
      }
      k := k + 1;
    }
  }

  class Scene {
    var entities: seq<Entity>
    var systems: seq<System>

    ghost predicate Valid()
      reads this
    {
      UniqueKinds(systems)
    }

    /** What `update` and `draw` read of the systems, in order. */
    ghost function Views(): seq<SysView>
      reads this, systems
    {
      seq(|systems|, k requires 0 <= k < |systems| reads this, systems =>
        SysView(systems[k], systems[k].required, systems[k].drawAfterEntities))
    }

    ghost function Active(): set<Entity>
      reads this, entities
    {
      set x | x in entities && x.active
    }

    ghost function Marked(): set<Entity>
      reads this, entities
    {
      set x | x in entities && x.markedForDeletion
    }

    /** The `active` and `markedForDeletion` flags of the scene's entities
        are those that `active` and `marked` describe. */
    ghost predicate FlagsAre(active: set<Entity>, marked: set<Entity>)
      reads this, entities
    {
      forall x :: x in entities ==> (x.active <==> x in active) && (x.markedForDeletion <==> x in marked)
    }

    /** `__init__`: the scene adds itself to `Scene.scenes` and starts with
        no entity and no system. */
    constructor (w: World)
      requires w.Valid()
      modifies w`scenes
      ensures w.Valid() && w.scenes == old(w.scenes) + [this]
      ensures Valid() && entities == [] && systems == []
    {
      entities := [];
      systems := [];
      new;
      w.scenes := w.scenes + [this];
      assert w.Lists() == old(w.Lists()) + [[]];
    }

    /** `addEntity`: appends an entity that is not yet in the scene and
        then runs `onEntityAddedToScene`; an entity already there changes
        nothing and fires nothing. */
    method AddEntity(w: World, e: Entity) returns (events: seq<Event>)
      requires w.Valid() && this in w.scenes
      modifies this`entities
      ensures w.Valid()
      ensures entities == AppendAbsent(old(entities), [e])
      ensures e in entities && old(entities) <= entities
      ensures events == if e in old(entities) then [] else [EntityAdded(e)]
    {
      ghost var j := IndexOf(w.scenes, this);
      ghost var before := w.Lists();
      if e !in entities {
        entities := entities + [e];
        events := [EntityAdded(e)];
      } else {
        events := [];
      }
      assert w.Lists() == before[j := entities];
    }

    /** `removeEntity`: removes an entity that is in the scene and then runs
        `onEntityRemovedFromScene`; an absent entity changes nothing. */
    method RemoveEntity(w: World, e: Entity) returns (events: seq<Event>)
      requires w.Valid() && this in w.scenes
      modifies this`entities
      ensures w.Valid()
      ensures entities == RemovePresent(old(entities), [e])
      ensures entities == Without(old(entities), {e})
      ensures events == if e in old(entities) then [EntityRemoved(e)] else []
    {
      ghost var j := IndexOf(w.scenes, this);
      ghost var before := w.Lists();
      assert before[j] == entities;
      if e in entities {
        RemoveFirstShrinks(entities, e);
        RemoveFirstIsWithout(entities, e);
        WithoutNoDups(entities, {e});
        entities := RemoveFirst(entities, e);
        events := [EntityRemoved(e)];
      } else {
        WithoutNothing(entities, {e});
        events := [];
      }
      assert w.Lists() == before[j := entities];
    }

    /** `addSystem`: a system is added only if no system of its class is
        in the scene already, so the first one of a class stays. */
    method AddSystem(s: System)
      requires Valid()
      modifies this`systems
      ensures Valid()
      ensures (exists k :: 0 <= k < |old(systems)| && old(systems)[k].kind == s.kind) ==> systems == old(systems)
      ensures (forall k :: 0 <= k < |old(systems)| ==> old(systems)[k].kind != s.kind) ==> systems == old(systems) + [s]
    {
      var i := 0;
      while i < |systems|
        invariant 0 <= i <= |systems|
        invariant forall k :: 0 <= k < i ==> systems[k].kind != s.kind
      {
        if systems[i].kind == s.kind {
          return;
        }
        i := i + 1;
      }
      systems := systems + [s];
    }

    /** `removeSystem` as written: the test is inverted, so a present
        system stays and an absent one makes `list.remove` raise ValueError. */
    method RemoveSystem(s: System) returns (r: Result<()>)
      ensures r.Err? <==> s !in systems
      ensures r.Err? ==> r.error == ValueError
      ensures RemoveSystemAsWritten(systems, s) == if r.Ok? then Ok(systems) else Err(r.error)
    {
      if s !in systems {
        r := Err(ValueError);
      } else {
        r := Ok(());
      }
    }

    /** The per-entity pass of `update` for one system: `updateEntity` on
        each matching entity, in list order; the hook destroys the entities
        of the scene that `destroys` names. */
    method UpdatePass(w: World, sys: System, destroys: (System, Entity) -> set<Entity>, ghost active: set<Entity>)
      returns (events: seq<Event>)
      requires w.store.Valid()
      requires forall x :: x in entities ==> (x.active <==> x in active)
      modifies (set x | x in entities)`markedForDeletion
      ensures var ms := Matching(w.store.State(), sys.required, active, entities);
        && events == UpdateEvents(sys, ms)
        && forall x :: x in entities ==>
             x.markedForDeletion == (old(x.markedForDeletion) || x in Destroyed(sys, ms, destroys, Elems(entities)))
    {
      ghost var st := w.store.State();
      ElemsSpec(entities);
      events := [];
      var i := 0;
      while i < |entities|
        invariant 0 <= i <= |entities|
        invariant events == UpdateEvents(sys, Matching(st, sys.required, active, entities[..i]))
        invariant forall x :: x in entities ==>
          x.markedForDeletion == (old(x.markedForDeletion)
                                  || x in Destroyed(sys, Matching(st, sys.required, active, entities[..i]), destroys, Elems(entities)))
      {
        var e := entities[i];
        ghost var ms := Matching(st, sys.required, active, entities[..i]);
        MatchingNext(st, sys.required, active, entities, i);
        var m := HasAllRequired(w.store, sys.required, e);
        if m && e.active {
          EventsNext(sys, ms, e);
          DestroyedNext(sys, ms, e, destroys, Elems(entities));
          events := events + [EntityUpdate(sys, e, 1)];
          forall x | x in destroys(sys, e) && x in entities {
            x.markedForDeletion := true;
          }
        } else {
          assert Matching(st, sys.required, active, entities[..i + 1]) == ms;
        }
        i := i + 1;
      }
      assert entities[..i] == entities;
    }

    /** One position of the deletion sweep of `update`: a marked entity
        loses all its components and then leaves every scene. */
    method SweepAt(w: World, ghost me: nat, ghost marked: set<Entity>, i: nat) returns (ok: bool, events: seq<Event>)
      requires w.Valid() && me < |w.scenes| && w.scenes[me] == this && 0 < i <= |entities|
      requires forall x :: x in entities ==> (x.markedForDeletion <==> x in marked)
      modifies w.store.table, (set s | s in w.scenes)`entities
      ensures w.Valid() && w.scenes[me] == this
      ensures ok ==> i - 1 <= |entities| && Within(entities, old(entities))
      ensures SweepResult(ok, w.Lists(), w.store.State(), events)
           == SweepStep(old(w.Lists()), me, marked, old(w.store.State()), i)
    {
      var e := entities[i - 1];
      ghost var lists0 := w.Lists();
      assert lists0[me] == entities && lists0[me][i - 1] == e;
      if e.markedForDeletion {
        var cbs := e.RemoveAllComponents(w.store);
        ok := w.RemoveEverywhere(e);
        events := Callbacks(cbs);
        if ok {
          RemoveFromScenesSpec(lists0, e, 0);
          RemoveFirstShrinks(lists0[me], e);
          assert entities == w.Lists()[me] == RemoveFirst(lists0[me], e);
        }
      } else {
        ok := true;
        events := [];
      }
    }

    /** The deletion sweep of `update`: backwards over the list, each
        marked entity loses all its components and leaves every scene. IDs
        are not returned to the pool. */
    method SweepMarked(w: World, ghost me: nat, ghost marked: set<Entity>) returns (ok: bool, events: seq<Event>)
      requires w.Valid() && me < |w.scenes| && w.scenes[me] == this
      requires forall x :: x in entities ==> (x.markedForDeletion <==> x in marked)
      modifies w.store.table, (set s | s in w.scenes)`entities
      ensures w.Valid() && w.scenes[me] == this
      ensures ok ==> Within(entities, old(entities))
      ensures SweepResult(ok, w.Lists(), w.store.State(), events)
           == Sweep(old(w.Lists()), me, marked, old(w.store.State()), |old(entities)|)
    {
      ghost var lists, st := w.Lists(), w.store.State();
      ghost var total := Sweep(lists, me, marked, st, |entities|);
      ghost var e0 := entities;
      events := [];
      ok := true;
      var i: nat := |entities|;
      assert [] + total.events == total.events;
      while i > 0
        invariant w.Valid() && w.scenes[me] == this && i <= |entities|
        invariant lists == w.Lists() && st == w.store.State()
        invariant Within(entities, e0)
        invariant SweepRest(lists, me, marked, st, i, events) == total
      {
        ghost var before := entities;
        ghost var step := SweepStep(lists, me, marked, st, i);
        var ev;
        ok, ev := SweepAt(w, me, marked, i);
        if !ok {
          SweepStop(lists, me, marked, st, i, events, total, step);
          events := events + ev;
          return;
        }
        ghost var lists0, st0, events0, i0 := lists, st, events, i;
        lists, st := w.Lists(), w.store.State();
        events := events + ev;
        i := i - 1;
        SweepChain(lists0, me, marked, st0, i0, events0, total, lists, st, ev, i, events);
        WithinTrans(entities, before, e0);
      }
      SweepDone(lists, me, marked, st, events, total);
    }

    /** One system of `update`: `update(scene, deltaTime=1)`, the
        per-entity pass, then the sweep. */
    method RunSystem(w: World, ghost me: nat, k: nat, ghost marked: set<Entity>, ghost active: set<Entity>,
                     destroys: (System, Entity) -> set<Entity>)
      returns (ok: bool, events: seq<Event>, ghost marked': set<Entity>)
      requires w.Valid() && me < |w.scenes| && w.scenes[me] == this && k < |systems|
      requires FlagsAre(active, marked)
      modifies w.store.table, (set s | s in w.scenes)`entities, (set x | x in entities)`markedForDeletion
      ensures w.Valid() && w.scenes[me] == this
      ensures ok ==> Within(entities, old(entities))
      ensures ok ==> FlagsAre(active, marked')
      ensures Frame(ok, w.Lists(), w.store.State(), marked', events)
           == SystemStep(SysView(systems[k], systems[k].required, systems[k].drawAfterEntities), me,
                         old(w.Lists()), old(w.store.State()), marked, active, destroys)
    {
      var sys := systems[k];
      assert w.Lists()[me] == entities;
      ghost var ms := Matching(w.store.State(), sys.required, active, entities);
      var ev1 := UpdatePass(w, sys, destroys, active);
      marked' := marked + Destroyed(sys, ms, destroys, Elems(entities));
      assert FlagsAre(active, marked');
      ghost var e1 := entities;
      var ev2;
      ok, ev2 := SweepMarked(w, me, marked');
      if ok {
        forall x | x in entities
          ensures (x.active <==> x in active) && (x.markedForDeletion <==> x in marked')
        {
          assert x in e1;
        }
      }
      events := [SystemUpdate(sys, 1)] + ev1 + ev2;
    }

    /** `update`: each system in turn, the sweep after each one. `deltaTime`
        is ignored: every hook receives 1. A failing removal in a sweep
        raises ValueError (false). */
    method Update(w: World, deltaTime: real, destroys: (System, Entity) -> set<Entity>) returns (ok: bool, events: seq<Event>)
      requires w.Valid() && this in w.scenes
      modifies w.store.table, (set s | s in w.scenes)`entities, (set x | x in entities)`markedForDeletion
      ensures w.Valid()
      ensures var r := UpdateFrom(old(Views()), IndexOf(w.scenes, this), old(w.Lists()), old(w.store.State()),
                                  old(Marked()), old(Active()), destroys);
        && ok == r.ok && w.Lists() == r.lists && w.store.State() == r.st && events == r.events
        && (ok ==> forall x :: x in entities ==> (x.markedForDeletion <==> x in r.marked))
    {
      ghost var me := IndexOf(w.scenes, this);
      ghost var views := Views();
      ghost var active := Active();
      ghost var marked := Marked();
      ghost var lists, st := w.Lists(), w.store.State();
      ghost var total := UpdateFrom(views, me, lists, st, marked, active, destroys);
      ghost var e0 := entities;
      events := [];
      ok := true;
      var k := 0;
      assert views[k..] == views && [] + total.events == total.events;
      while k < |systems|
        invariant 0 <= k <= |systems| && w.Valid() && w.scenes[me] == this && systems == old(systems)
        invariant lists == w.Lists() && st == w.store.State()
        invariant Within(entities, e0)
        invariant FlagsAre(active, marked)
        invariant UpdateRest(views[k..], me, lists, st, marked, active, destroys, events) == total
      {
        ghost var before := entities;
        assert views[k..][0] == views[k] == SysView(systems[k], systems[k].required, systems[k].drawAfterEntities);
        ghost var step := SystemStep(views[k], me, lists, st, marked, active, destroys);
        var ev;
        ghost var marked';
        ok, ev, marked' := RunSystem(w, me, k, marked, active, destroys);
        if !ok {
          UpdateStop(views[k..], me, lists, st, marked, active, destroys, events, total, step);
          events := events + ev;
          return;
        }
        ghost var lists0, st0, marked0, events0, views0 := lists, st, marked, events, views[k..];
        lists, st, marked := w.Lists(), w.store.State(), marked';
        events := events + ev;
        k := k + 1;
        assert views[k..] == views0[1..];
        UpdateChain(views0, me, lists0, st0, marked0, active, destroys, events0, total,
                    lists, st, marked, ev, views[k..], events);
        WithinTrans(entities, before, e0);
      }
      UpdateDone(me, w.Lists(), w.store.State(), marked, active, destroys, events, total);
    }

    /** The draws of one system: `draw` before the per-entity `drawEntity`
        calls if `drawAfterEntities` is false, after them if it is true. */
    method DrawOne(w: World, sys: System, ghost active: set<Entity>) returns (events: seq<Event>)
      requires w.store.Valid()
      requires forall x :: x in entities ==> (x.active <==> x in active)
      ensures events == DrawSystem(SysView(sys, sys.required, sys.drawAfterEntities), w.store.State(), active, entities)
    {
      ghost var st := w.store.State();
      var before := if sys.drawAfterEntities then [] else [SystemDraw(sys)];
      events := before;
      var i := 0;
      while i < |entities|
        invariant 0 <= i <= |entities|
        invariant events == before + DrawEvents(sys, Matching(st, sys.required, active, entities[..i]))
      {
        var e := entities[i];
        ghost var ms := Matching(st, sys.required, active, entities[..i]);
        MatchingNext(st, sys.required, active, entities, i);
        var m := HasAllRequired(w.store, sys.required, e);
        if m && e.active {
          EventsNext(sys, ms, e);
          events := events + [EntityDraw(sys, e)];
        }
        i := i + 1;
      }
      assert entities[..i] == entities;
      if sys.drawAfterEntities {
        events := events + [SystemDraw(sys)];
      }
    }

    /** `draw`: every system in turn; nothing changes. */
    method Draw(w: World) returns (events: seq<Event>)
      requires w.Valid() && this in w.scenes
      ensures events == DrawAll(Views(), w.store.State(), Active(), entities)
    {
      assert w.Lists()[IndexOf(w.scenes, this)] == entities;
      ghost var views := Views();
      ghost var total := DrawAll(views, w.store.State(), Active(), entities);
      events := [];
      var k := 0;
      assert views[k..] == views;
      while k < |systems|
        invariant 0 <= k <= |systems|
        invariant events + DrawAll(views[k..], w.store.State(), Active(), entities) == total
      {
        assert views[k..][0] == views[k] && views[k..][1..] == views[k + 1..];
        var ev := DrawOne(w, systems[k], Active());
        ConcatAssoc(events, ev, DrawAll(views[k + 1..], w.store.State(), Active(), entities));
        events := events + ev;
        k := k + 1;
      }
      assert events + [] == events;
    }
  }
}
