/** The game loop of a scene (`Scene.update` and `Scene.draw`) on values:
    which hooks run, on which entities and in which order, and what the
    deletion sweep does to the scenes' entity lists and to the component
    table. The classes in module Scenes are proved against these functions. */
module SceneLoop {
  import opened Base
  import opened EntityManager
  import opened ComponentManager
  import opened Entities
  import opened Systems

  /** What a scene makes observable, in order: component callbacks, the
      scene's own hooks and the systems' hooks. The hooks of `update` carry
      the `deltaTime` they receive. */
  datatype Event =
    | Callback(cb: CallbackEvent)
    | EntityAdded(entity: Entity)                      // onEntityAddedToScene
    | EntityRemoved(entity: Entity)                    // onEntityRemovedFromScene
    | SystemUpdate(sys: System, dt: int)               // system.update
    | EntityUpdate(sys: System, entity: Entity, dt: int) // system.updateEntity
    | SystemDraw(sys: System)                          // system.draw
    | EntityDraw(sys: System, entity: Entity)          // system.drawEntity

  function Callbacks(cbs: seq<CallbackEvent>): seq<Event> {
    seq(|cbs|, i requires 0 <= i < |cbs| => Callback(cbs[i]))
  }

  /** What a frame reads of a system: the object, its required component
      types and its `drawAfterEntities` flag. */
  datatype SysView = SysView(sys: System, required: seq<TypeTag>, drawAfter: bool)

  predicate AllNoDups(lists: seq<seq<Entity>>) {
    forall j :: 0 <= j < |lists| ==> NoDups(lists[j])
  }

  lemma ReplaceList(lists: seq<seq<Entity>>, k: nat, s: seq<Entity>)
    requires k < |lists| && AllNoDups(lists) && NoDups(s)
    ensures AllNoDups(lists[k := s])
  {
  }

  /** At most one system of each concrete class. */
  predicate UniqueKinds(systems: seq<System>) {
    forall i, j :: 0 <= i < j < |systems| ==> systems[i].kind != systems[j].kind
  }

  /** The inner loop of `update` and `draw`: no required type is missing. */
  predicate HasAll(st: StoreState, req: seq<TypeTag>, id: nat)
    requires WellFormed(st) && id < MaxEntities
  {
    forall k :: 0 <= k < |req| ==> GetComponentForEntity(st, id, req[k]).Some?
  }

  /** The entities of `es` a system processes, in list order: the active
      ones that have every required type. */
  function Matching(st: StoreState, req: seq<TypeTag>, active: set<Entity>, es: seq<Entity>): seq<Entity>
    requires WellFormed(st)
    decreases |es|
  {
    if es == [] then []
    else
      var e := es[|es| - 1];
      Matching(st, req, active, es[..|es| - 1]) + (if e in active && HasAll(st, req, e.id) then [e] else [])
  }

  function UpdateEvents(sys: System, ms: seq<Entity>): seq<Event> {
    seq(|ms|, i requires 0 <= i < |ms| => EntityUpdate(sys, ms[i], 1))
  }

  function DrawEvents(sys: System, ms: seq<Entity>): seq<Event> {
    seq(|ms|, i requires 0 <= i < |ms| => EntityDraw(sys, ms[i]))
  }

  /** The entities of `within` that the per-entity hook destroys while it
      processes the entities `ms`. */
  function Destroyed(sys: System, ms: seq<Entity>, destroys: (System, Entity) -> set<Entity>, within: set<Entity>): (r: set<Entity>)
    ensures r <= within
    decreases |ms|
  {
    if ms == [] then {}
    else Destroyed(sys, ms[..|ms| - 1], destroys, within) + (destroys(sys, ms[|ms| - 1]) * within)
  }

  /** `for scene in Scene.scenes: scene.entities.remove(e)`, from scene `k`
      on. The first scene without `e` raises ValueError (false); the scenes
      before it have already lost `e`. */
  function RemoveFromScenes(lists: seq<seq<Entity>>, e: Entity, k: nat): (r: (bool, seq<seq<Entity>>))
    requires k <= |lists|
    ensures |r.1| == |lists|
    decreases |lists| - k
  {
    if k == |lists| then (true, lists)
    else if e !in lists[k] then (false, lists)
    else
      RemoveFirstShrinks(lists[k], e);
      RemoveFromScenes(lists[k := RemoveFirst(lists[k], e)], e, k + 1)
  }

  /** RemoveFromScenes from scene `k` on succeeds exactly when every scene
      from `k` on holds `e`; it leaves the scenes before `k` alone and, on
      success, removes the first `e` from each of the others. */
  lemma {:induction false} RemoveFromScenesSpec(lists: seq<seq<Entity>>, e: Entity, k: nat)
    requires k <= |lists|
    ensures var r := RemoveFromScenes(lists, e, k);
      && (forall j :: 0 <= j < k ==> r.1[j] == lists[j])
      && (r.0 <==> forall j :: k <= j < |lists| ==> e in lists[j])
      && (r.0 ==> forall j :: k <= j < |lists| ==> r.1[j] == RemoveFirst(lists[j], e))
    decreases |lists| - k
  {
    if k < |lists| && e in lists[k] {
      RemoveFirstShrinks(lists[k], e);
      var lists1 := lists[k := RemoveFirst(lists[k], e)];
      RemoveFromScenesSpec(lists1, e, k + 1);
      assert forall j :: k < j < |lists| ==> lists1[j] == lists[j];
    }
  }

  /** One scene of RemoveFromScenes. */
  lemma RemoveFromScenesStep(lists: seq<seq<Entity>>, e: Entity, k: nat, rest: seq<Entity>)
    requires k < |lists| && e in lists[k]
    requires rest == RemoveFirst(lists[k], e)
    ensures RemoveFromScenes(lists, e, k) == RemoveFromScenes(lists[k := rest], e, k + 1)
  {
  }

  lemma RemoveFirstShrinks(s: seq<Entity>, e: Entity)
    requires e in s
    ensures |RemoveFirst(s, e)| == |s| - 1
    ensures forall x :: x in RemoveFirst(s, e) ==> x in s
  {
    var k := IndexOf(s, e);
    var r := RemoveFirst(s, e);
    forall i | 0 <= i < |r| ensures r[i] in s {
      if i < k { assert r[i] == s[i]; } else { assert r[i] == s[i + 1]; }
    }
  }

  datatype SweepResult = SweepResult(ok: bool, lists: seq<seq<Entity>>, st: StoreState, events: seq<Event>)

  /** Position `i - 1` of the deletion sweep of scene `me`: a marked
      entity loses all its components and is removed from every scene. */
  function SweepStep(lists: seq<seq<Entity>>, me: nat, marked: set<Entity>, st: StoreState, i: nat): (r: SweepResult)
    requires me < |lists| && 0 < i <= |lists[me]| && WellFormed(st)
    ensures |r.lists| == |lists|
    ensures WellFormed(r.st) && r.st.types == st.types
    ensures r.ok ==> i - 1 <= |r.lists[me]|
  {
    var e := lists[me][i - 1];
    if e !in marked then SweepResult(true, lists, st, [])
    else
      RemoveFirstShrinks(lists[me], e);
      RemoveFromScenesSpec(lists, e, 0);
      var removed := RemoveFromScenes(lists, e, 0);
      var cleared := RemoveAll(st, e.id);
      SweepResult(removed.0, removed.1, cleared.0, Callbacks(cleared.1))
  }

  /** The deletion sweep of `update` over positions `i - 1` down to 0 of
      scene `me`'s list. A failing removal ends it. */
  function Sweep(lists: seq<seq<Entity>>, me: nat, marked: set<Entity>, st: StoreState, i: nat): (r: SweepResult)
    requires me < |lists| && i <= |lists[me]| && WellFormed(st)
    ensures |r.lists| == |lists|
    ensures WellFormed(r.st) && r.st.types == st.types
    decreases i
  {
    if i == 0 then SweepResult(true, lists, st, [])
    else
      var s := SweepStep(lists, me, marked, st, i);
      if !s.ok then s
      else
        var r := Sweep(s.lists, me, marked, s.st, i - 1);
        r.(events := s.events + r.events)
  }

  /** The rest of the sweep from position `i`, after the events `done`;
      the loop of the sweep keeps it equal to the whole sweep. */
  function SweepRest(lists: seq<seq<Entity>>, me: nat, marked: set<Entity>, st: StoreState, i: nat,
                     done: seq<Event>): SweepResult
    requires me < |lists| && i <= |lists[me]| && WellFormed(st)
  {
    var r := Sweep(lists, me, marked, st, i);
    r.(events := done + r.events)
  }

  /** A successful position of the sweep keeps SweepRest. */
  lemma SweepChain(lists: seq<seq<Entity>>, me: nat, marked: set<Entity>, st: StoreState, i: nat,
                   done: seq<Event>, total: SweepResult, lists': seq<seq<Entity>>, st': StoreState, ev: seq<Event>,
                   i': nat, done': seq<Event>)
    requires me < |lists| && 0 < i <= |lists[me]| && WellFormed(st)
    requires SweepRest(lists, me, marked, st, i, done) == total
    requires SweepStep(lists, me, marked, st, i) == SweepResult(true, lists', st', ev)
    requires i' == i - 1 && done' == done + ev
    ensures me < |lists'| && i' <= |lists'[me]| && WellFormed(st')
    ensures SweepRest(lists', me, marked, st', i', done') == total
  {
    var r := Sweep(lists', me, marked, st', i');
    assert Sweep(lists, me, marked, st, i) == r.(events := ev + r.events);
    ConcatAssoc(done, ev, r.events);
  }

  /** A failing position ends the sweep. */
  lemma SweepStop(lists: seq<seq<Entity>>, me: nat, marked: set<Entity>, st: StoreState, i: nat,
                  done: seq<Event>, total: SweepResult, step: SweepResult)
    requires me < |lists| && 0 < i <= |lists[me]| && WellFormed(st)
    requires SweepRest(lists, me, marked, st, i, done) == total
    requires step == SweepStep(lists, me, marked, st, i) && !step.ok
    ensures total == step.(events := done + step.events)
  {
  }

  /** The sweep from position 0 does nothing. */
  lemma SweepDone(lists: seq<seq<Entity>>, me: nat, marked: set<Entity>, st: StoreState,
                  done: seq<Event>, total: SweepResult)
    requires me < |lists| && WellFormed(st)
    requires SweepRest(lists, me, marked, st, 0, done) == total
    ensures total == SweepResult(true, lists, st, done)
  {
    assert done + [] == done;
  }

  /** The marked entities among the first `i` of scene `me`'s list. */
  ghost function Doomed(lists: seq<seq<Entity>>, me: nat, marked: set<Entity>, i: nat): set<Entity>
    requires me < |lists| && i <= |lists[me]|
  {
    set x | x in lists[me][..i] && x in marked
  }

  ghost function Ids(d: set<Entity>): set<nat> {
    set x | x in d :: x.id
  }

  datatype Frame = Frame(ok: bool, lists: seq<seq<Entity>>, st: StoreState, marked: set<Entity>, events: seq<Event>)

  /** One system of `update`: its scene-level hook, its per-entity hook on
      the matching entities (which may destroy entities of the scene), then
      the sweep. Every hook receives `deltaTime` 1. */
  function SystemStep(v: SysView, me: nat, lists: seq<seq<Entity>>, st: StoreState,
                      marked: set<Entity>, active: set<Entity>, destroys: (System, Entity) -> set<Entity>): (r: Frame)
    requires me < |lists| && WellFormed(st)
    ensures me < |r.lists| && WellFormed(r.st)
  {
    var es := lists[me];
    var ms := Matching(st, v.required, active, es);
    var marked1 := marked + Destroyed(v.sys, ms, destroys, Elems(es));
    var sw := Sweep(lists, me, marked1, st, |es|);
    Frame(sw.ok, sw.lists, sw.st, marked1, [SystemUpdate(v.sys, 1)] + UpdateEvents(v.sys, ms) + sw.events)
  }

  /** `update` from the systems `views` on; `deltaTime` plays no part. */
  function UpdateFrom(views: seq<SysView>, me: nat, lists: seq<seq<Entity>>, st: StoreState,
                      marked: set<Entity>, active: set<Entity>, destroys: (System, Entity) -> set<Entity>): (r: Frame)
    requires me < |lists| && WellFormed(st)
    decreases |views|
  {
    if views == [] then Frame(true, lists, st, marked, [])
    else
      var s := SystemStep(views[0], me, lists, st, marked, active, destroys);
      if !s.ok then s
      else
        var rest := UpdateFrom(views[1..], me, s.lists, s.st, s.marked, active, destroys);
        rest.(events := s.events + rest.events)
  }

  /** The rest of `update` from the systems `views` on, after the events
      `done`; the loop of `update` keeps it equal to the whole frame. */
  function UpdateRest(views: seq<SysView>, me: nat, lists: seq<seq<Entity>>, st: StoreState,
                      marked: set<Entity>, active: set<Entity>, destroys: (System, Entity) -> set<Entity>,
                      done: seq<Event>): Frame
    requires me < |lists| && WellFormed(st)
  {
    var r := UpdateFrom(views, me, lists, st, marked, active, destroys);
    r.(events := done + r.events)
  }

  /** A successful system keeps UpdateRest. */
  lemma UpdateChain(views: seq<SysView>, me: nat, lists: seq<seq<Entity>>, st: StoreState,
                    marked: set<Entity>, active: set<Entity>, destroys: (System, Entity) -> set<Entity>,
                    done: seq<Event>, total: Frame,
                    lists': seq<seq<Entity>>, st': StoreState, marked': set<Entity>, ev: seq<Event>,
                    views': seq<SysView>, done': seq<Event>)
    requires me < |lists| && WellFormed(st) && views != []
    requires UpdateRest(views, me, lists, st, marked, active, destroys, done) == total
    requires SystemStep(views[0], me, lists, st, marked, active, destroys) == Frame(true, lists', st', marked', ev)
    requires views' == views[1..] && done' == done + ev
    ensures me < |lists'| && WellFormed(st')
    ensures UpdateRest(views', me, lists', st', marked', active, destroys, done') == total
  {
    var r := UpdateFrom(views', me, lists', st', marked', active, destroys);
    assert UpdateFrom(views, me, lists, st, marked, active, destroys) == r.(events := ev + r.events);
    ConcatAssoc(done, ev, r.events);
  }

  /** A failing system ends `update`. */
  lemma UpdateStop(views: seq<SysView>, me: nat, lists: seq<seq<Entity>>, st: StoreState,
                   marked: set<Entity>, active: set<Entity>, destroys: (System, Entity) -> set<Entity>,
                   done: seq<Event>, total: Frame, step: Frame)
    requires me < |lists| && WellFormed(st) && views != []
    requires UpdateRest(views, me, lists, st, marked, active, destroys, done) == total
    requires step == SystemStep(views[0], me, lists, st, marked, active, destroys) && !step.ok
    ensures total == step.(events := done + step.events)
  {
  }

  /** `update` after the last system does nothing. */
  lemma UpdateDone(me: nat, lists: seq<seq<Entity>>, st: StoreState,
                   marked: set<Entity>, active: set<Entity>, destroys: (System, Entity) -> set<Entity>,
                   done: seq<Event>, total: Frame)
    requires me < |lists| && WellFormed(st)
    requires UpdateRest([], me, lists, st, marked, active, destroys, done) == total
    ensures total == Frame(true, lists, st, marked, done)
  {
    assert done + [] == done;
  }

  /** What `draw` does for one system. */
  function DrawSystem(v: SysView, st: StoreState, active: set<Entity>, es: seq<Entity>): seq<Event>
    requires WellFormed(st)
  {
    (if v.drawAfter then [] else [SystemDraw(v.sys)])
    + DrawEvents(v.sys, Matching(st, v.required, active, es))
    + (if v.drawAfter then [SystemDraw(v.sys)] else [])
  }

  /** `draw`: every system in turn. */
  function DrawAll(views: seq<SysView>, st: StoreState, active: set<Entity>, es: seq<Entity>): seq<Event>
    requires WellFormed(st)
    decreases |views|
  {
    if views == [] then []
    else DrawSystem(views[0], st, active, es) + DrawAll(views[1..], st, active, es)
  }

  /** `removeSystem` as written: it calls `remove` only when the system is
      absent, so it raises ValueError exactly then and otherwise changes
      nothing. */
  function RemoveSystemAsWritten(systems: seq<System>, s: System): Result<seq<System>> {
    if s !in systems then Err(ValueError) else Ok(systems)
  }

  /** What `removeSystem` evidently intends: remove the system if present. */
  function RemoveSystemIntended(systems: seq<System>, s: System): seq<System> {
    if s in systems then RemoveFirst(systems, s) else systems
  }

  // ---------------------------------------------------------------------
  // Matching

  /** A system processes exactly the entities that are active and have all
      its required types, in list order: the list without the skipped ones. */
  lemma {:induction false} MatchingSpec(st: StoreState, req: seq<TypeTag>, active: set<Entity>,
                                        es: seq<Entity>, skipped: set<Entity>)
    requires WellFormed(st)
    requires forall i :: 0 <= i < |es| ==> (es[i] in skipped <==> !(es[i] in active && HasAll(st, req, es[i].id)))
    ensures Matching(st, req, active, es) == Without(es, skipped)
    decreases |es|
  {
    if es != [] {
      var n := |es| - 1;
      forall i | 0 <= i < n
        ensures es[..n][i] in skipped <==> !(es[..n][i] in active && HasAll(st, req, es[..n][i].id))
      {
        assert es[..n][i] == es[i];
      }
      MatchingSpec(st, req, active, es[..n], skipped);
      MatchingSpecStep(st, req, active, es, skipped);
    }
  }

  /** The inductive step of MatchingSpec: the last entity is kept exactly
      when it is not skipped. */
  lemma MatchingSpecStep(st: StoreState, req: seq<TypeTag>, active: set<Entity>, es: seq<Entity>, skipped: set<Entity>)
    requires WellFormed(st) && es != []
    requires var e := es[|es| - 1]; e in skipped <==> !(e in active && HasAll(st, req, e.id))
    requires Matching(st, req, active, es[..|es| - 1]) == Without(es[..|es| - 1], skipped)
    ensures Matching(st, req, active, es) == Without(es, skipped)
  {
    var n := |es| - 1;
    var last := if es[n] in active && HasAll(st, req, es[n].id) then [es[n]] else [];
    assert [es[n]][1..] == [];
    assert Without([es[n]], skipped) == last;
    assert es == es[..n] + [es[n]];
    WithoutConcat(es[..n], [es[n]], skipped);
  }

  /** A system without requirements processes every active entity. */
  lemma NoRequirementMatchesActive(st: StoreState, active: set<Entity>, es: seq<Entity>, inactive: set<Entity>)
    requires WellFormed(st)
    requires forall i :: 0 <= i < |es| ==> (es[i] in inactive <==> es[i] !in active)
    ensures Matching(st, [], active, es) == Without(es, inactive)
  {
    MatchingSpec(st, [], active, es, inactive);
  }

  /** An entity is destroyed by a pass exactly when it is in `within` and
      the hook destroys it while processing one of the entities `ms`. */
  lemma {:induction false} DestroyedSpec(sys: System, ms: seq<Entity>, destroys: (System, Entity) -> set<Entity>,
                                         within: set<Entity>, x: Entity)
    ensures x in Destroyed(sys, ms, destroys, within) <==>
            x in within && exists i :: 0 <= i < |ms| && x in destroys(sys, ms[i])
    decreases |ms|
  {
    if ms != [] {
      var n := |ms| - 1;
      DestroyedSpec(sys, ms[..n], destroys, within, x);
      if x in within && x in destroys(sys, ms[n]) {
        assert x in Destroyed(sys, ms, destroys, within);
      }
      if exists i :: 0 <= i < |ms| && x in destroys(sys, ms[i]) {
        var i :| 0 <= i < |ms| && x in destroys(sys, ms[i]);
        if i < n {
          assert ms[..n][i] == ms[i];
        }
      }
      if exists i :: 0 <= i < n && x in destroys(sys, ms[..n][i]) {
        var i :| 0 <= i < n && x in destroys(sys, ms[..n][i]);
        assert ms[..n][i] == ms[i];
      }
    }
  }

  /** How the loops of `update` and `draw` extend the matching entities,
      the hook events and the destroyed entities by one position. */
  lemma MatchingNext(st: StoreState, req: seq<TypeTag>, active: set<Entity>, es: seq<Entity>, i: nat)
    requires WellFormed(st) && i < |es|
    ensures Matching(st, req, active, es[..i + 1])
         == Matching(st, req, active, es[..i]) + (if es[i] in active && HasAll(st, req, es[i].id) then [es[i]] else [])
  {
    assert es[..i + 1][..i] == es[..i];
  }

  lemma EventsNext(sys: System, ms: seq<Entity>, e: Entity)
    ensures UpdateEvents(sys, ms + [e]) == UpdateEvents(sys, ms) + [EntityUpdate(sys, e, 1)]
    ensures DrawEvents(sys, ms + [e]) == DrawEvents(sys, ms) + [EntityDraw(sys, e)]
  {
  }

  lemma DestroyedNext(sys: System, ms: seq<Entity>, e: Entity, destroys: (System, Entity) -> set<Entity>, within: set<Entity>)
    ensures Destroyed(sys, ms + [e], destroys, within) == Destroyed(sys, ms, destroys, within) + (destroys(sys, e) * within)
  {
    assert (ms + [e])[..|ms|] == ms;
  }

  // ---------------------------------------------------------------------
  // The sweep

  /** One deletion of the sweep, when every scene holds the entity: each
      list loses exactly that entity, and scene `me`'s list keeps the
      positions before it. */
  lemma SweepRemoval(lists: seq<seq<Entity>>, me: nat, e: Entity, i: nat)
    requires me < |lists| && 0 < i <= |lists[me]| && lists[me][i - 1] == e
    requires AllNoDups(lists)
    requires RemoveFromScenes(lists, e, 0).0
    ensures var lists1 := RemoveFromScenes(lists, e, 0).1;
      && AllNoDups(lists1)
      && (forall j :: 0 <= j < |lists| ==> lists1[j] == Without(lists[j], {e}))
      && |lists1[me]| == |lists[me]| - 1
      && lists1[me][..i - 1] == lists[me][..i - 1]
      && e !in lists[me][..i - 1]
  {
    var lists1 := RemoveFromScenes(lists, e, 0).1;
    RemoveFromScenesSpec(lists, e, 0);
    RemoveFirstShrinks(lists[me], e);
    forall j | 0 <= j < |lists| ensures lists1[j] == Without(lists[j], {e}) && NoDups(lists1[j]) {
      RemoveFirstIsWithout(lists[j], e);
      WithoutNoDups(lists[j], {e});
    }
    IndexOfUnique(lists[me], i - 1);
  }

  /** Every entity of `d` is in every list. */
  ghost predicate InEvery(d: set<Entity>, lists: seq<seq<Entity>>) {
    forall x, j :: x in d && 0 <= j < |lists| ==> x in lists[j]
  }

  /** `after` is `before` with the entities of `d` taken out of each list,
      the others keeping their order. */
  ghost predicate TakenOut(after: seq<seq<Entity>>, before: seq<seq<Entity>>, d: set<Entity>) {
    |after| == |before| && forall j :: 0 <= j < |before| ==> after[j] == Without(before[j], d)
  }

  /** The sweep over the first `i` positions of scene `me` succeeds exactly
      when every marked entity there is in every scene, and then every
      scene's list loses exactly those entities, the others keeping their
      order. */
  ghost predicate SweepOutcome(lists: seq<seq<Entity>>, me: nat, marked: set<Entity>, st: StoreState, i: nat)
    requires me < |lists| && i <= |lists[me]| && WellFormed(st)
  {
    var r := Sweep(lists, me, marked, st, i);
    var d := Doomed(lists, me, marked, i);
    && (r.ok <==> InEvery(d, lists))
    && (r.ok ==> TakenOut(r.lists, lists, d))
  }

  lemma {:induction false} SweepLists(lists: seq<seq<Entity>>, me: nat, marked: set<Entity>, st: StoreState, i: nat)
    requires me < |lists| && i <= |lists[me]| && AllNoDups(lists) && WellFormed(st)
    ensures SweepOutcome(lists, me, marked, st, i)
    decreases i, 1
  {
    if i == 0 {
      SweepNothing(lists, me, marked, st);
    } else if lists[me][i - 1] !in marked {
      SweepSkip(lists, me, marked, st, i);
    } else if !RemoveFromScenes(lists, lists[me][i - 1], 0).0 {
      SweepFail(lists, me, marked, st, i);
    } else {
      SweepListsRemove(lists, me, marked, st, i);
    }
  }

  /** SweepLists at a marked position whose entity is in every scene. */
  lemma {:induction false} SweepListsRemove(lists: seq<seq<Entity>>, me: nat, marked: set<Entity>, st: StoreState, i: nat)
    requires me < |lists| && 0 < i <= |lists[me]| && AllNoDups(lists) && WellFormed(st)
    requires lists[me][i - 1] in marked && RemoveFromScenes(lists, lists[me][i - 1], 0).0
    ensures SweepOutcome(lists, me, marked, st, i)
    decreases i, 0
  {
    var e := lists[me][i - 1];
    var lists1 := RemoveFromScenes(lists, e, 0).1;
    var st1 := RemoveAll(st, e.id).0;
    DoomedAfterRemoval(lists, me, marked, i);
    SweepLists(lists1, me, marked, st1, i - 1);
    SweepRemove(lists, me, marked, st, i, lists1, st1);
  }

  /** The sweep over no position succeeds and changes nothing. */
  lemma SweepNothing(lists: seq<seq<Entity>>, me: nat, marked: set<Entity>, st: StoreState)
    requires me < |lists| && WellFormed(st)
    ensures SweepOutcome(lists, me, marked, st, 0)
  {
    assert lists[me][..0] == [];
    assert Doomed(lists, me, marked, 0) == {};
    forall j | 0 <= j < |lists| ensures lists[j] == Without(lists[j], {}) {
      WithoutNothing(lists[j], {});
    }
  }

  /** SweepLists at an unmarked position, which changes nothing. */
  lemma {:induction false} SweepSkip(lists: seq<seq<Entity>>, me: nat, marked: set<Entity>, st: StoreState, i: nat)
    requires me < |lists| && 0 < i <= |lists[me]| && AllNoDups(lists) && WellFormed(st)
    requires lists[me][i - 1] !in marked
    ensures SweepOutcome(lists, me, marked, st, i)
    decreases i, 0
  {
    SweepLists(lists, me, marked, st, i - 1);
    DoomedStep(lists, me, marked, i);
    assert Doomed(lists, me, marked, i) == Doomed(lists, me, marked, i - 1);
    var r := Sweep(lists, me, marked, st, i - 1);
    assert SweepStep(lists, me, marked, st, i) == SweepResult(true, lists, st, []);
    assert Sweep(lists, me, marked, st, i) == r.(events := [] + r.events);
  }

  /** A marked entity missing from some scene ends the sweep with failure. */
  lemma SweepFail(lists: seq<seq<Entity>>, me: nat, marked: set<Entity>, st: StoreState, i: nat)
    requires me < |lists| && 0 < i <= |lists[me]| && WellFormed(st)
    requires lists[me][i - 1] in marked && !RemoveFromScenes(lists, lists[me][i - 1], 0).0
    ensures SweepOutcome(lists, me, marked, st, i)
  {
    var e := lists[me][i - 1];
    DoomedStep(lists, me, marked, i);
    RemoveFromScenesSpec(lists, e, 0);
    var j :| 0 <= j < |lists| && e !in lists[j];
    assert e in Doomed(lists, me, marked, i);
  }

  /** The sweep after a removal of a marked entity present in every scene. */
  lemma SweepRemove(lists: seq<seq<Entity>>, me: nat, marked: set<Entity>, st: StoreState, i: nat,
                    lists1: seq<seq<Entity>>, st1: StoreState)
    requires me < |lists| && 0 < i <= |lists[me]| && AllNoDups(lists) && WellFormed(st)
    requires lists[me][i - 1] in marked && RemoveFromScenes(lists, lists[me][i - 1], 0).0
    requires lists1 == RemoveFromScenes(lists, lists[me][i - 1], 0).1
    requires st1 == RemoveAll(st, lists[me][i - 1].id).0
    requires |lists1| == |lists| && i - 1 <= |lists1[me]| && WellFormed(st1)
    requires SweepOutcome(lists1, me, marked, st1, i - 1)
    ensures SweepOutcome(lists, me, marked, st, i)
  {
    SweepRemoveStep(lists, me, marked, st, i, lists1, st1);
    SweepListsStep(lists, lists1, lists[me][i - 1], Doomed(lists1, me, marked, i - 1),
                   Sweep(lists1, me, marked, st1, i - 1).lists);
  }

  /** A marked entity present in every scene leaves every scene; the rest
      of the sweep starts from the lists without it. */
  lemma SweepRemoveStep(lists: seq<seq<Entity>>, me: nat, marked: set<Entity>, st: StoreState, i: nat,
                        lists1: seq<seq<Entity>>, st1: StoreState)
    requires me < |lists| && 0 < i <= |lists[me]| && AllNoDups(lists) && WellFormed(st)
    requires lists[me][i - 1] in marked && RemoveFromScenes(lists, lists[me][i - 1], 0).0
    requires lists1 == RemoveFromScenes(lists, lists[me][i - 1], 0).1
    requires st1 == RemoveAll(st, lists[me][i - 1].id).0
    ensures AllNoDups(lists1) && |lists1| == |lists| && i - 1 <= |lists1[me]| && WellFormed(st1)
    ensures Sweep(lists, me, marked, st, i).ok == Sweep(lists1, me, marked, st1, i - 1).ok
    ensures Sweep(lists, me, marked, st, i).lists == Sweep(lists1, me, marked, st1, i - 1).lists
    ensures Doomed(lists, me, marked, i) == Doomed(lists1, me, marked, i - 1) + {lists[me][i - 1]}
    ensures lists[me][i - 1] !in Doomed(lists1, me, marked, i - 1)
    ensures forall j :: 0 <= j < |lists| ==> lists[me][i - 1] in lists[j]
    ensures forall j :: 0 <= j < |lists| ==> lists1[j] == Without(lists[j], {lists[me][i - 1]})
  {
    var e := lists[me][i - 1];
    DoomedStep(lists, me, marked, i);
    RemoveFromScenesSpec(lists, e, 0);
    SweepRemoval(lists, me, e, i);
    DoomedAfterRemoval(lists, me, marked, i);
    assert SweepStep(lists, me, marked, st, i) == SweepResult(true, lists1, st1, Callbacks(RemoveAll(st, e.id).1));
  }

  /** The inductive step of SweepLists, once `e` has left every list. */
  lemma SweepListsStep(lists: seq<seq<Entity>>, lists1: seq<seq<Entity>>, e: Entity, d': set<Entity>,
                       after: seq<seq<Entity>>)
    requires |lists1| == |lists| && e !in d'
    requires forall j :: 0 <= j < |lists| ==> lists1[j] == Without(lists[j], {e})
    requires forall j :: 0 <= j < |lists| ==> e in lists[j]
    ensures InEvery(d', lists1) <==> InEvery(d' + {e}, lists)
    ensures TakenOut(after, lists1, d') ==> TakenOut(after, lists, d' + {e})
  {
    forall j | 0 <= j < |lists| ensures Without(lists1[j], d') == Without(lists[j], d' + {e}) {
      WithoutTwice(lists[j], {e}, d');
      assert {e} + d' == d' + {e};
    }
    forall x, j | x in d' && 0 <= j < |lists| ensures x in lists1[j] <==> x in lists[j] {
      if x in lists[j] {
        var k :| 0 <= k < |lists[j]| && lists[j][k] == x;
        assert lists[j][k] !in {e};
      }
    }
  }

  /** The marked entities among the first `i` positions are those among
      the first `i - 1`, plus the entity at `i - 1` when it is marked. */
  lemma DoomedStep(lists: seq<seq<Entity>>, me: nat, marked: set<Entity>, i: nat)
    requires me < |lists| && 0 < i <= |lists[me]|
    ensures var e := lists[me][i - 1];
      Doomed(lists, me, marked, i)
        == Doomed(lists, me, marked, i - 1) + (if e in marked then {e} else {})
  {
    assert lists[me][..i] == lists[me][..i - 1] + [lists[me][i - 1]];
  }

  /** Removing the marked entity at `i - 1` from every scene leaves the
      marked entities before it unchanged. */
  lemma DoomedAfterRemoval(lists: seq<seq<Entity>>, me: nat, marked: set<Entity>, i: nat)
    requires me < |lists| && 0 < i <= |lists[me]| && AllNoDups(lists)
    requires RemoveFromScenes(lists, lists[me][i - 1], 0).0
    ensures var lists1 := RemoveFromScenes(lists, lists[me][i - 1], 0).1;
      && AllNoDups(lists1)
      && |lists1[me]| == |lists[me]| - 1
      && Doomed(lists1, me, marked, i - 1) == Doomed(lists, me, marked, i - 1)
  {
    SweepRemoval(lists, me, lists[me][i - 1], i);
  }

  lemma IdsAdd(d: set<Entity>, e: Entity)
    ensures Ids(d + {e}) == Ids(d) + {e.id}
  {
    assert e in d + {e};
  }

  /** A successful sweep empties, for every registered type, the cell of
      each deleted entity's ID and leaves every other cell as it was
      (stated for one cell). */
  lemma {:induction false} SweepCell(lists: seq<seq<Entity>>, me: nat, marked: set<Entity>, st: StoreState, i: nat,
                                     tid: nat, y: nat)
    requires me < |lists| && i <= |lists[me]| && AllNoDups(lists) && WellFormed(st)
    requires tid < MaxComponentTypes && y < MaxEntities
    requires Sweep(lists, me, marked, st, i).ok
    ensures Sweep(lists, me, marked, st, i).st.cells[tid][y]
         == if tid < |st.types| && y in Ids(Doomed(lists, me, marked, i)) then None else st.cells[tid][y]
    decreases i
  {
    if i == 0 {
      assert Ids(Doomed(lists, me, marked, i)) == {};
    } else {
      var e := lists[me][i - 1];
      DoomedStep(lists, me, marked, i);
      if e !in marked {
        SweepCell(lists, me, marked, st, i - 1, tid, y);
      } else {
        var step := SweepStep(lists, me, marked, st, i);
        assert step.ok && step.st == RemoveAll(st, e.id).0;
        DoomedAfterRemoval(lists, me, marked, i);
        SweepCell(step.lists, me, marked, step.st, i - 1, tid, y);
        RemoveAllCells(st, e.id);
        IdsAdd(Doomed(lists, me, marked, i - 1), e);
      }
    }
  }

  /** After a successful sweep of a whole list, no marked entity is left in
      it: an entity destroyed during one system's pass is gone before the
      next system runs. */
  lemma SweepClearsScene(lists: seq<seq<Entity>>, me: nat, marked: set<Entity>, st: StoreState)
    requires me < |lists| && AllNoDups(lists) && WellFormed(st)
    requires Sweep(lists, me, marked, st, |lists[me]|).ok
    ensures forall x :: x in Sweep(lists, me, marked, st, |lists[me]|).lists[me] ==> x !in marked
  {
    SweepLists(lists, me, marked, st, |lists[me]|);
    assert lists[me][..|lists[me]|] == lists[me];
  }

  // ---------------------------------------------------------------------
  // Draw order and removeSystem

  /** A system's scene-level draw runs exactly once: first when
      `drawAfterEntities` is false, last when it is true, around its
      per-entity draws. */
  lemma DrawOrder(v: SysView, st: StoreState, active: set<Entity>, es: seq<Entity>)
    requires WellFormed(st)
    ensures var ev := DrawSystem(v, st, active, es);
      var ms := Matching(st, v.required, active, es);
      var at := if v.drawAfter then |ms| else 0;
      && |ev| == |ms| + 1
      && (forall k :: 0 <= k < |ev| ==> (ev[k].SystemDraw? <==> k == at))
      && ev[at] == SystemDraw(v.sys)
      && ev[..at] + ev[at + 1..] == DrawEvents(v.sys, ms)
  {
    var ev := DrawSystem(v, st, active, es);
    var ms := Matching(st, v.required, active, es);
    var body := DrawEvents(v.sys, ms);
    if v.drawAfter {
      assert ev == body + [SystemDraw(v.sys)];
      assert ev[..|ms|] == body;
    } else {
      assert ev == [SystemDraw(v.sys)] + body;
      assert ev[1..] == body;
    }
  }

  /** The removal as written never removes a present system and raises on
      an absent one. */
  lemma RemoveSystemAsWrittenKeeps(systems: seq<System>, s: System)
    ensures s in systems ==> RemoveSystemAsWritten(systems, s) == Ok(systems)
    ensures s !in systems ==> RemoveSystemAsWritten(systems, s) == Err(ValueError)
  {
  }

  /** Where the two differ: for a system in the list, the removal as
      written keeps it, while the intended removal drops it. */
  lemma RemoveSystemAsWrittenDiffers(systems: seq<System>, s: System)
    requires UniqueKinds(systems) && s in systems
    ensures RemoveSystemAsWritten(systems, s).Ok?
    ensures s in RemoveSystemAsWritten(systems, s).value
    ensures s !in RemoveSystemIntended(systems, s)
    ensures RemoveSystemAsWritten(systems, s) != Ok(RemoveSystemIntended(systems, s))
  {
    RemoveSystemIntendedSpec(systems, s);
  }

  /** The intended removal drops exactly the given system, keeps the others
      in order and keeps at most one system per class. */
  lemma RemoveSystemIntendedSpec(systems: seq<System>, s: System)
    requires UniqueKinds(systems)
    ensures RemoveSystemIntended(systems, s) == Without(systems, {s})
    ensures s !in RemoveSystemIntended(systems, s)
    ensures UniqueKinds(RemoveSystemIntended(systems, s))
  {
    UniqueKindsNoDups(systems);
    if s in systems {
      RemoveFirstIsWithout(systems, s);
      RemoveKeepsUniqueKinds(systems, s);
    } else {
      WithoutNothing(systems, {s});
    }
  }

  lemma UniqueKindsNoDups(systems: seq<System>)
    requires UniqueKinds(systems)
    ensures NoDups(systems)
  {
    forall a, b | 0 <= a < b < |systems| ensures systems[a] != systems[b] {
      assert systems[a].kind != systems[b].kind;
    }
  }

  lemma RemoveKeepsUniqueKinds(systems: seq<System>, s: System)
    requires UniqueKinds(systems) && s in systems
    ensures UniqueKinds(RemoveFirst(systems, s))
  {
    var r := RemoveFirst(systems, s);
    var k := IndexOf(systems, s);
    forall a, b | 0 <= a < b < |r| ensures r[a].kind != r[b].kind {
      var a' := if a < k then a else a + 1;
      var b' := if b < k then b else b + 1;
      assert r[a] == systems[a'] && r[b] == systems[b'];
    }
  }
}
