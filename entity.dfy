/** The entity handle (`Entity`): an ID checked out of the pool, two flags,
    a duplicate-free tag list, and component calls that the store answers
    for this entity's ID. */
module Entities {
  import opened Base
  import opened EntityManager
  import opened ComponentManager

  /** The component types of a list of components, in order. */
  function TypesOf(comps: seq<Option<Component>>): (r: seq<TypeTag>)
    ensures |r| == |comps| && forall i :: 0 <= i < |comps| ==> r[i] == TypeOf(comps[i])
  {
    if comps == [] then [] else [TypeOf(comps[0])] + TypesOf(comps[1..])
  }

  /** Registering every type of `comps` fits in the table's rows. */
  predicate RoomFor(types: seq<TypeTag>, comps: seq<Option<Component>>) {
    |AppendAbsent(types, TypesOf(comps))| <= MaxComponentTypes
  }

  /** `Entity.addComponent`: register the component's type if it is new,
      then store the component. */
  function AddComponentTo(st: StoreState, id: nat, c: Option<Component>): (r: (StoreState, seq<CallbackEvent>))
    requires WellFormed(st) && id < MaxEntities
    requires IsComponentTypeRegistered(st, TypeOf(c)) || |st.types| < MaxComponentTypes
    ensures AddToEntity(Register(st, TypeOf(c)).0, id, c).Ok?
    ensures WellFormed(r.0) && r.0.types == AppendAbsent(st.types, [TypeOf(c)])
    ensures GetComponentForEntity(r.0, id, TypeOf(c)) == c
    ensures r.1 == if c.Some? && c.value.hasOnAdded then [OnAdded(c.value, id)] else []
  {
    assert AppendAbsent(st.types, [TypeOf(c)])
        == if TypeOf(c) in st.types then st.types else st.types + [TypeOf(c)];
    var st1 := Register(st, TypeOf(c)).0;
    AddToEntitySpec(st1, id, c);
    AddToEntity(st1, id, c).value
  }

  /** `Entity.addComponent` leaves every other cell as it was. */
  lemma AddComponentToOthers(st: StoreState, id: nat, c: Option<Component>, u: TypeTag, x: nat)
    requires WellFormed(st) && id < MaxEntities
    requires IsComponentTypeRegistered(st, TypeOf(c)) || |st.types| < MaxComponentTypes
    requires x < MaxEntities && (u != TypeOf(c) || x != id) && IsComponentTypeRegistered(st, u)
    ensures GetComponentForEntity(AddComponentTo(st, id, c).0, x, u) == GetComponentForEntity(st, x, u)
  {
    var st1 := Register(st, TypeOf(c)).0;
    AddToEntitySpec(st1, id, c);
    RegisterKeepsIDs(st, TypeOf(c), u);
  }

  /** The constructor's loop `for c in [component] + list(moreComponents)`. */
  function AddAll(st: StoreState, id: nat, comps: seq<Option<Component>>): (r: (StoreState, seq<CallbackEvent>))
    requires WellFormed(st) && id < MaxEntities && RoomFor(st.types, comps)
    ensures WellFormed(r.0) && r.0.types == AppendAbsent(st.types, TypesOf(comps))
    decreases |comps|
  {
    if comps == [] then (st, [])
    else
      RoomForHead(st.types, comps);
      var (st1, ev1) := AddComponentTo(st, id, comps[0]);
      var (st2, ev2) := AddAll(st1, id, comps[1..]);
      (st2, ev1 + ev2)
  }

  /** Room for a list of components is room for its first one and then
      for the rest. */
  lemma RoomForHead(types: seq<TypeTag>, comps: seq<Option<Component>>)
    requires comps != [] && RoomFor(types, comps)
    ensures TypeOf(comps[0]) in types || |types| < MaxComponentTypes
    ensures RoomFor(AppendAbsent(types, [TypeOf(comps[0])]), comps[1..])
  {
    var t := TypeOf(comps[0]);
    var step := if t in types then types else types + [t];
    assert TypesOf(comps) == [t] + TypesOf(comps[1..]);
    assert AppendAbsent(types, TypesOf(comps)) == AppendAbsent(step, TypesOf(comps[1..]));
    assert AppendAbsent(types, [t]) == step;
    AppendAbsentGrows(step, TypesOf(comps[1..]));
  }

  lemma {:induction false} AppendAbsentGrows<T>(s: seq<T>, xs: seq<T>)
    ensures s <= AppendAbsent(s, xs)
    decreases |xs|
  {
    if xs != [] {
      AppendAbsentGrows(if xs[0] in s then s else s + [xs[0]], xs[1..]);
    }
  }

  /** `Entity.__init__` on the state values: the ID-pool outcome, the pool,
      the store and the callbacks fired. The first `addComponent` of an ID
      outside the table registers the type and then fails on the write. */
  function Construct(ids: seq<nat>, st: StoreState, comps: seq<Option<Component>>): (r: (Result<nat>, seq<nat>, StoreState, seq<CallbackEvent>))
    requires WellFormed(st) && comps != [] && RoomFor(st.types, comps)
  {
    var (id, ids') := Checkout(ids);
    if id.None? then (Err(NoEntityID), ids', st, [])
    else if id.value >= MaxEntities then
      RoomForHead(st.types, comps);
      (Err(IndexError), ids', Register(st, TypeOf(comps[0])).0, [])
    else
      var (st', events) := AddAll(st, id.value, comps);
      (Ok(id.value), ids', st', events)
  }

  /** One iteration of the constructor's loop. */
  lemma AddAllStep(st: StoreState, id: nat, comps: seq<Option<Component>>, i: nat)
    requires WellFormed(st) && id < MaxEntities && i < |comps| && RoomFor(st.types, comps[i..])
    ensures IsComponentTypeRegistered(st, TypeOf(comps[i])) || |st.types| < MaxComponentTypes
    ensures var (st1, ev1) := AddComponentTo(st, id, comps[i]);
      && RoomFor(st1.types, comps[i + 1..])
      && AddAll(st, id, comps[i..]).0 == AddAll(st1, id, comps[i + 1..]).0
      && AddAll(st, id, comps[i..]).1 == ev1 + AddAll(st1, id, comps[i + 1..]).1
  {
    assert comps[i..][0] == comps[i] && comps[i..][1..] == comps[i + 1..];
    RoomForHead(st.types, comps[i..]);
  }

  /** The callbacks fired by adding `comps` in order. */
  function AddedCallbacks(comps: seq<Option<Component>>, id: nat): seq<CallbackEvent> {
    if comps == [] then []
    else (if comps[0].Some? && comps[0].value.hasOnAdded then [OnAdded(comps[0].value, id)] else [])
         + AddedCallbacks(comps[1..], id)
  }

  /** After the constructor's loop every type of `comps` is registered. */
  lemma AddAllRegisters(st: StoreState, id: nat, comps: seq<Option<Component>>)
    requires WellFormed(st) && id < MaxEntities && RoomFor(st.types, comps)
    ensures forall i :: 0 <= i < |comps| ==> IsComponentTypeRegistered(AddAll(st, id, comps).0, TypeOf(comps[i]))
  {
    AppendAbsentSpec(st.types, TypesOf(comps));
    assert forall i :: 0 <= i < |comps| ==> TypesOf(comps)[i] in TypesOf(comps);
  }

  /** The constructor's loop leaves other entities' cells untouched. */
  lemma {:induction false} AddAllOthers(st: StoreState, id: nat, comps: seq<Option<Component>>)
    requires WellFormed(st) && id < MaxEntities && RoomFor(st.types, comps)
    ensures forall u, x :: 0 <= x < MaxEntities && x != id && IsComponentTypeRegistered(st, u) ==>
              GetComponentForEntity(AddAll(st, id, comps).0, x, u) == GetComponentForEntity(st, x, u)
    decreases |comps|
  {
    if comps != [] {
      RoomForHead(st.types, comps);
      var st1 := AddComponentTo(st, id, comps[0]).0;
      AppendAbsentGrows(st.types, [TypeOf(comps[0])]);
      AddAllOthers(st1, id, comps[1..]);
      forall u, x | 0 <= x < MaxEntities && x != id && IsComponentTypeRegistered(st, u)
        ensures GetComponentForEntity(st1, x, u) == GetComponentForEntity(st, x, u)
      {
        AddComponentToOthers(st, id, comps[0], u, x);
      }
    }
  }

  /** `onAddedToEntity` runs once per component that has it, in argument
      order. */
  lemma {:induction false} AddAllEvents(st: StoreState, id: nat, comps: seq<Option<Component>>)
    requires WellFormed(st) && id < MaxEntities && RoomFor(st.types, comps)
    ensures AddAll(st, id, comps).1 == AddedCallbacks(comps, id)
    decreases |comps|
  {
    if comps != [] {
      RoomForHead(st.types, comps);
      var st1 := AddComponentTo(st, id, comps[0]).0;
      AddAllEvents(st1, id, comps[1..]);
    }
  }

  /** After the constructor's loop the entity holds, for each type, the
      last component given of that type. */
  lemma {:induction false} AddAllLastWins(st: StoreState, id: nat, comps: seq<Option<Component>>, i: nat)
    requires WellFormed(st) && id < MaxEntities && RoomFor(st.types, comps)
    requires i < |comps| && forall j :: i < j < |comps| ==> TypeOf(comps[j]) != TypeOf(comps[i])
    ensures GetComponentForEntity(AddAll(st, id, comps).0, id, TypeOf(comps[i])) == comps[i]
    decreases |comps|
  {
    RoomForHead(st.types, comps);
    var st1 := AddComponentTo(st, id, comps[0]).0;
    var rest := comps[1..];
    if i > 0 {
      assert rest[i - 1] == comps[i];
      forall j | i - 1 < j < |rest| ensures TypeOf(rest[j]) != TypeOf(rest[i - 1]) {
        assert rest[j] == comps[j + 1];
      }
      AddAllLastWins(st1, id, rest, i - 1);
    } else {
      forall j | 0 <= j < |rest| ensures TypeOf(rest[j]) != TypeOf(comps[0]) {
        assert rest[j] == comps[j + 1];
      }
      ForeignTypesKept(st1, id, rest, TypeOf(comps[0]));
    }
  }

  /** Adding components of other types does not touch a type's cell. */
  lemma {:induction false} ForeignTypesKept(st: StoreState, id: nat, comps: seq<Option<Component>>, t: TypeTag)
    requires WellFormed(st) && id < MaxEntities && RoomFor(st.types, comps)
    requires IsComponentTypeRegistered(st, t)
    requires forall j :: 0 <= j < |comps| ==> TypeOf(comps[j]) != t
    ensures GetComponentForEntity(AddAll(st, id, comps).0, id, t) == GetComponentForEntity(st, id, t)
    decreases |comps|
  {
    if comps != [] {
      RoomForHead(st.types, comps);
      var st1 := AddComponentTo(st, id, comps[0]).0;
      AppendAbsentGrows(st.types, [TypeOf(comps[0])]);
      assert IsComponentTypeRegistered(st1, t);
      assert forall j :: 0 <= j < |comps| - 1 ==> TypeOf(comps[1..][j]) != t by {
        forall j | 0 <= j < |comps| - 1 ensures TypeOf(comps[1..][j]) != t {
          assert comps[1..][j] == comps[j + 1];
        }
      }
      ForeignTypesKept(st1, id, comps[1..], t);
      AddComponentToOthers(st, id, comps[0], t, id);
      assert AddAll(st, id, comps).0 == AddAll(st1, id, comps[1..]).0;
    }
  }

  /** `Entity.__init__`: raises when the pool is empty, and raises
      IndexError when the smallest free ID lies outside the table; otherwise
      it succeeds with the smallest free ID, that ID leaves the pool, and
      `onAddedToEntity` ran for each given component that has it, in
      argument order. */
  lemma ConstructSpec(ids: seq<nat>, st: StoreState, comps: seq<Option<Component>>)
    requires Ascending(ids) && WellFormed(st) && comps != [] && RoomFor(st.types, comps)
    ensures var (r, ids', st', events) := Construct(ids, st, comps);
      && (r == Err(NoEntityID) <==> ids == [])
      && (ids != [] && ids[0] < MaxEntities ==> r == Ok(ids[0]))
      && (ids != [] && ids[0] >= MaxEntities ==> r == Err(IndexError))
      && (r.Ok? ==> && r.value in ids && (forall x :: x in ids ==> r.value <= x)
                    && (forall x :: x in ids' <==> x in ids && x != r.value)
                    && events == AddedCallbacks(comps, r.value))
  {
    CheckoutSpec(ids);
    var (r, ids', st', events) := Construct(ids, st, comps);
    if r.Ok? {
      AddAllEvents(st, r.value, comps);
    }
  }

  /** `Entity()` with no argument adds the single component `None`: that
      registers `NoneType` as a component type, yet `hasComponent(NoneType)`
      stays false because the cell holds `None`. */
  lemma NoArgumentEntity(ids: seq<nat>, st: StoreState)
    requires WellFormed(st) && RoomFor(st.types, [None])
    ensures var (r, _, st', _) := Construct(ids, st, [None]);
      r.Ok? ==> IsComponentTypeRegistered(st', NoneType) && !HasComponent(st', r.value, NoneType)
  {
    var (r, _, st', _) := Construct(ids, st, [None]);
    if r.Ok? {
      AddAllRegisters(st, r.value, [None]);
      AddAllLastWins(st, r.value, [None], 0);
    }
  }

  class Entity {
    const id: EntityId
    /** Systems only process active entities. */
    var active: bool
    /** Set by `destroy`; the scene's sweep deletes marked entities. */
    var markedForDeletion: bool
    var tags: seq<string>

    ghost predicate Valid()
      reads this
    {
      NoDups(tags)
    }

    /** The fields `__init__` sets once the ID is known. */
    constructor (id: EntityId)
      ensures Valid() && this.id == id
      ensures active && !markedForDeletion && tags == []
    {
      this.id := id;
      active := true;
      markedForDeletion := false;
      tags := [];
    }

    /** `destroy`: marks the entity and changes nothing else. */
    method Destroy()
      modifies this`markedForDeletion
      ensures markedForDeletion
    {
      markedForDeletion := true;
    }

    /** `hasTag`: every given tag is among the entity's tags. */
    function HasTag(tag: string, more: seq<string>): (r: bool)
      reads this
      ensures r <==> forall i :: 0 <= i < |[tag] + more| ==> ([tag] + more)[i] in tags
    {
      ElemsSpec([tag] + more);
      ElemsSpec(tags);
      Elems([tag] + more) <= Elems(tags)
    }

    /** `addTag`: appends, in argument order, each tag not yet present. */
    method AddTag(tag: string, more: seq<string>)
      requires Valid()
      modifies this`tags
      ensures Valid()
      ensures tags == AppendAbsent(old(tags), [tag] + more)
      ensures old(tags) <= tags
      ensures forall t :: t in tags <==> t in old(tags) || t in [tag] + more
    {
      var all := [tag] + more;
      var i := 0;
      assert all[i..] == all;
      while i < |all|
        invariant 0 <= i <= |all| && Valid()
        invariant AppendAbsent(tags, all[i..]) == AppendAbsent(old(tags), all)
      {
        assert all[i..][0] == all[i] && all[i..][1..] == all[i + 1..];
        if HasTag(all[i], []) == false {
          tags := tags + [all[i]];
        }
        i := i + 1;
      }
      assert all[i..] == [];
      AppendAbsentSpec(old(tags), all);
    }

    /** `removeTag`: removes each given tag that is present; the remaining
        tags keep their order. */
    method RemoveTag(tag: string, more: seq<string>)
      requires Valid()
      modifies this`tags
      ensures Valid()
      ensures tags == RemovePresent(old(tags), [tag] + more)
      ensures tags == Without(old(tags), Elems([tag] + more))
    {
      var all := [tag] + more;
      var i := 0;
      assert all[i..] == all;
      while i < |all|
        invariant 0 <= i <= |all| && Valid()
        invariant RemovePresent(tags, all[i..]) == RemovePresent(old(tags), all)
      {
        assert all[i..][0] == all[i] && all[i..][1..] == all[i + 1..];
        if all[i] in tags {
          RemoveFirstIsWithout(tags, all[i]);
          WithoutNoDups(tags, {all[i]});
          tags := RemoveFirst(tags, all[i]);
        }
        i := i + 1;
      }
      assert all[i..] == [];
      RemovePresentSpec(old(tags), all);
    }

    /** `addComponent`: never reaches the unregistered-type exception. */
    method AddComponent(store: ComponentStore, c: Option<Component>) returns (events: seq<CallbackEvent>)
      requires Valid() && store.Valid()
      requires IsComponentTypeRegistered(store.State(), TypeOf(c)) || |store.types| < MaxComponentTypes
      modifies store`types, store.table
      ensures store.Valid()
      ensures (store.State(), events) == AddComponentTo(old(store.State()), id, c)
    {
      assert AppendAbsent(store.types, [TypeOf(c)])
          == if TypeOf(c) in store.types then store.types else store.types + [TypeOf(c)];
      if IsComponentTypeRegistered(store.State(), TypeOf(c)) == false {
        var _ := store.RegisterComponentType(TypeOf(c));
      }
      var r := store.AddComponentToEntity(id, c);
      events := r.value;
    }

    /** One iteration of the loop of `__init__`. */
    method AddNext(store: ComponentStore, comps: seq<Option<Component>>, i: nat) returns (ev: seq<CallbackEvent>)
      requires Valid() && store.Valid() && i < |comps| && RoomFor(store.types, comps[i..])
      modifies store`types, store.table
      ensures store.Valid() && RoomFor(store.types, comps[i + 1..])
      ensures AddAll(store.State(), id, comps[i + 1..]).0 == AddAll(old(store.State()), id, comps[i..]).0
      ensures ev + AddAll(store.State(), id, comps[i + 1..]).1 == AddAll(old(store.State()), id, comps[i..]).1
    {
      AddAllStep(store.State(), id, comps, i);
      ev := AddComponent(store, comps[i]);
    }

    /** The loop of `__init__` that adds each given component in turn. */
    method AddComponents(store: ComponentStore, comps: seq<Option<Component>>) returns (events: seq<CallbackEvent>)
      requires Valid() && store.Valid() && RoomFor(store.types, comps)
      modifies store`types, store.table
      ensures store.Valid()
      ensures (store.State(), events) == AddAll(old(store.State()), id, comps)
    {
      ghost var st := store.State();
      ghost var total := AddAll(st, id, comps);
      events := [];
      var i := 0;
      assert comps[i..] == comps;
      while i < |comps|
        invariant 0 <= i <= |comps| && store.Valid() && st == store.State()
        invariant RoomFor(st.types, comps[i..])
        invariant AddAll(st, id, comps[i..]).0 == total.0
        invariant events + AddAll(st, id, comps[i..]).1 == total.1
      {
        ghost var before := events;
        var ev := AddNext(store, comps, i);
        st := store.State();
        ConcatAssoc(before, ev, AddAll(st, id, comps[i + 1..]).1);
        events := events + ev;
        i := i + 1;
      }
      assert comps[i..] == [];
      assert AddAll(store.State(), id, []) == (store.State(), []);
      assert events + [] == events;
    }

    /** `hasComponent`: the store holds a component of type `t` for this ID. */
    function HasComponent(store: ComponentStore, t: TypeTag): (r: bool)
      reads this, store, store.table
      requires store.Valid()
      ensures r <==> IsComponentTypeRegistered(store.State(), t)
                     && store.table[GetComponentTypeID(store.State(), t).value, id] != None
    {
      ComponentManager.HasComponent(store.State(), id, t)
    }

    /** `getComponent`: None for an unregistered type, otherwise this ID's
        cell of the type's row. */
    function GetComponent(store: ComponentStore, t: TypeTag): (r: Option<Component>)
      reads this, store, store.table
      requires store.Valid()
      ensures !IsComponentTypeRegistered(store.State(), t) ==> r.None?
      ensures IsComponentTypeRegistered(store.State(), t) ==>
                r == store.table[GetComponentTypeID(store.State(), t).value, id]
    {
      GetComponentForEntity(store.State(), id, t)
    }

    /** `resetAllComponents`: the `reset` calls, in type order; no cell changes. */
    method ResetAllComponents(store: ComponentStore) returns (events: seq<CallbackEvent>)
      requires store.Valid()
      ensures events == ResetCallbacks(Present(store.State(), id, store.types), id)
    {
      events := store.ResetAllComponentsForEntity(id);
    }

    /** `removeComponent`: the store's removal for this ID, result discarded. */
    method RemoveComponent(store: ComponentStore, t: TypeTag) returns (events: seq<CallbackEvent>)
      requires store.Valid()
      modifies store.table
      ensures store.Valid()
      ensures store.State() == RemoveFromEntity(old(store.State()), id, t).0
      ensures events == RemoveFromEntity(old(store.State()), id, t).2
    {
      var _, ev := store.RemoveComponentTypeFromEntity(id, t);
      events := ev;
    }

    /** `removeAllComponents`. */
    method RemoveAllComponents(store: ComponentStore) returns (events: seq<CallbackEvent>)
      requires store.Valid()
      modifies store.table
      ensures store.Valid()
      ensures (store.State(), events) == RemoveAll(old(store.State()), id)
    {
      events := store.RemoveAllComponentsForEntity(id);
    }
  }

  /** `Entity(component, *moreComponents)` against the global pool and
      store. On failure no entity exists, but the pool and store keep the
      effects that happened before the exception. */
  method NewEntity(pool: EntityPool, store: ComponentStore, first: Option<Component>, more: seq<Option<Component>>)
    returns (r: Result<Entity>, events: seq<CallbackEvent>)
    requires pool.Valid() && store.Valid() && RoomFor(store.types, [first] + more)
    modifies pool, store`types, store.table
    ensures pool.Valid() && store.Valid()
    ensures var (res, ids', st', ev) := Construct(old(pool.ids), old(store.State()), [first] + more);
      && pool.ids == ids' && store.State() == st' && events == ev
      && (r.Ok? <==> res.Ok?)
      && (r.Err? ==> r.error == res.error)
      && (r.Ok? ==> && fresh(r.value) && r.value.Valid() && r.value.id == res.value
                    && r.value.active && !r.value.markedForDeletion && r.value.tags == [])
  {
    var comps := [first] + more;
    ghost var spec := Construct(pool.ids, store.State(), comps);
    var id := pool.CheckoutID();
    CheckoutSpec(old(pool.ids));
    events := [];
    if id.None? {
      r := Err(NoEntityID);
      return;
    }
    if id.value >= MaxEntities {
      RoomForHead(store.types, comps);
      if IsComponentTypeRegistered(store.State(), TypeOf(first)) == false {
        var _ := store.RegisterComponentType(TypeOf(first));
      }
      r := Err(IndexError);
      return;
    }
    var e := new Entity(id.value);
    events := e.AddComponents(store, comps);
    r := Ok(e);
  }
}
