/** The component-type registry and the dense component table
    (`ComponentManager`). A type's ID is its position in the list of
    registered types; the component of type ID `t` for entity ID `e` sits in
    cell `[t][e]` of a table pre-sized to MaxComponentTypes x MaxEntities. */
module ComponentManager {
  import opened Base
  import opened EntityManager

  /** `_maxComponentTypes`: the number of rows of the table. */
  const MaxComponentTypes: nat := 100

  /** A component callback that the store invokes. The callbacks of the
      `Component` base class do nothing, so the model records only that the
      call happened, with the component and the entity ID it was given. */
  datatype CallbackEvent =
    | OnAdded(c: Component, entityID: nat)
    | OnRemoved(c: Component, entityID: nat)
    | OnReset(c: Component, entityID: nat)

  /** The store's state as a value: the registered types and the table. */
  datatype StoreState = StoreState(types: seq<TypeTag>, cells: seq<seq<Option<Component>>>)

  predicate WellFormed(st: StoreState) {
    && NoDups(st.types)
    && |st.types| <= MaxComponentTypes
    && |st.cells| == MaxComponentTypes
    && forall t :: 0 <= t < |st.cells| ==> |st.cells[t]| == MaxEntities
  }

  /** The state the constructor builds: no type, every cell empty. */
  function InitialStore(): StoreState {
    StoreState([], seq(MaxComponentTypes, _ => seq(MaxEntities, _ => None)))
  }

  /** `isComponentTypeRegistered`. */
  function IsComponentTypeRegistered(st: StoreState, t: TypeTag): (r: bool)
    ensures r <==> exists i :: 0 <= i < |st.types| && st.types[i] == t
  {
    t in st.types
  }

  /** `getComponentTypeID`: None for an unregistered type, otherwise the
      type's position in the registration list. */
  function GetComponentTypeID(st: StoreState, t: TypeTag): (r: Option<nat>)
    ensures r.None? <==> !IsComponentTypeRegistered(st, t)
    ensures r.Some? ==> r.value < |st.types| && st.types[r.value] == t
  {
    if !IsComponentTypeRegistered(st, t) then None
    else Some(IndexOf(st.types, t))
  }

  /** `getComponentForEntity`: None for an unregistered type, otherwise the
      content of cell `[typeID][entityID]`. */
  function GetComponentForEntity(st: StoreState, e: nat, t: TypeTag): (r: Option<Component>)
    requires WellFormed(st) && e < MaxEntities
    ensures !IsComponentTypeRegistered(st, t) ==> r.None?
    ensures IsComponentTypeRegistered(st, t) ==> r == st.cells[GetComponentTypeID(st, t).value][e]
  {
    if t !in st.types then None
    else st.cells[GetComponentTypeID(st, t).value][e]
  }

  /** `hasComponent`: the type is registered and its cell for the entity is
      not empty. */
  function HasComponent(st: StoreState, e: nat, t: TypeTag): (r: bool)
    requires WellFormed(st) && e < MaxEntities
    ensures r <==> GetComponentForEntity(st, e, t).Some?
  {
    IsComponentTypeRegistered(st, t) && st.cells[GetComponentTypeID(st, t).value][e] != None
  }

  /** `registerComponentType`: appends an unseen type and returns the type's
      ID. The table has MaxComponentTypes rows and the source never checks
      that bound, so registering a new type requires a free row. */
  function Register(st: StoreState, t: TypeTag): (r: (StoreState, nat))
    requires WellFormed(st)
    requires IsComponentTypeRegistered(st, t) || |st.types| < MaxComponentTypes
    ensures WellFormed(r.0) && r.0.cells == st.cells && st.types <= r.0.types
    ensures GetComponentTypeID(r.0, t) == Some(r.1)
    ensures IsComponentTypeRegistered(st, t) ==> r.0 == st
    ensures !IsComponentTypeRegistered(st, t) ==> r.1 == |st.types| && |r.0.types| == |st.types| + 1
  {
    if IsComponentTypeRegistered(st, t) then (st, IndexOf(st.types, t))
    else
      var types := st.types + [t];
      assert types[|st.types|] == t;
      (st.(types := types), IndexOf(types, t))
  }

  /** The same state with one cell replaced. */
  function SetCell(st: StoreState, tid: nat, e: nat, v: Option<Component>): (r: StoreState)
    requires WellFormed(st) && tid < MaxComponentTypes && e < MaxEntities
    ensures WellFormed(r) && r.types == st.types
  {
    st.(cells := st.cells[tid := st.cells[tid][e := v]])
  }

  /** `addComponentToEntity`: raises for an unregistered type; otherwise
      overwrites cell `[typeID][entityID]` (with no removal callback for a
      component it replaces) and then calls the new component's
      `onAddedToEntity` if it has one. */
  function AddToEntity(st: StoreState, e: nat, c: Option<Component>): (r: Result<(StoreState, seq<CallbackEvent>)>)
    requires WellFormed(st) && e < MaxEntities
    ensures r.Err? <==> !IsComponentTypeRegistered(st, TypeOf(c))
    ensures r.Err? ==> r.error == TypeNotRegistered
    ensures r.Ok? ==> WellFormed(r.value.0) && r.value.0.types == st.types
  {
    match GetComponentTypeID(st, TypeOf(c))
    case None => Err(TypeNotRegistered)
    case Some(tid) =>
      var events := if c.Some? && c.value.hasOnAdded then [OnAdded(c.value, e)] else [];
      Ok((SetCell(st, tid, e, c), events))
  }

  /** `removeComponentTypeFromEntity`: when a component is present, its
      `onRemovedFromEntity` runs (if it has one), the cell is cleared and the
      old component is returned; otherwise nothing happens and None is
      returned. */
  function RemoveFromEntity(st: StoreState, e: nat, t: TypeTag): (r: (StoreState, Option<Component>, seq<CallbackEvent>))
    requires WellFormed(st) && e < MaxEntities
    ensures WellFormed(r.0) && r.0.types == st.types
    ensures r.1 == GetComponentForEntity(st, e, t)
  {
    var c := GetComponentForEntity(st, e, t);
    if c.None? then (st, None, [])
    else
      var events := if c.value.hasOnRemoved then [OnRemoved(c.value, e)] else [];
      (SetCell(st, GetComponentTypeID(st, t).value, e, None), c, events)
  }

  /** `removeAllComponentsForEntity` over the types `ts`, in order. */
  function RemoveAllFrom(st: StoreState, e: nat, ts: seq<TypeTag>): (r: (StoreState, seq<CallbackEvent>))
    requires WellFormed(st) && e < MaxEntities
    ensures WellFormed(r.0) && r.0.types == st.types
    decreases |ts|
  {
    if ts == [] then (st, [])
    else
      var (st1, _, ev1) := RemoveFromEntity(st, e, ts[0]);
      var (st2, ev2) := RemoveAllFrom(st1, e, ts[1..]);
      (st2, ev1 + ev2)
  }

  /** `removeAllComponentsForEntity`: removes the entity's component of every
      registered type, in registration order. */
  function RemoveAll(st: StoreState, e: nat): (r: (StoreState, seq<CallbackEvent>))
    requires WellFormed(st) && e < MaxEntities
  {
    RemoveAllFrom(st, e, st.types)
  }

  /** The entity's components of the types `ts`, in that order. */
  function Present(st: StoreState, e: nat, ts: seq<TypeTag>): seq<Component>
    requires WellFormed(st) && e < MaxEntities
  {
    if ts == [] then []
    else
      var c := GetComponentForEntity(st, e, ts[0]);
      (if c.Some? then [c.value] else []) + Present(st, e, ts[1..])
  }

  /** The `onRemovedFromEntity` calls for components `cs`. */
  function RemovedCallbacks(cs: seq<Component>, e: nat): seq<CallbackEvent> {
    if cs == [] then []
    else (if cs[0].hasOnRemoved then [OnRemoved(cs[0], e)] else []) + RemovedCallbacks(cs[1..], e)
  }

  /** The `reset` calls for components `cs`. */
  function ResetCallbacks(cs: seq<Component>, e: nat): seq<CallbackEvent> {
    if cs == [] then []
    else (if cs[0].hasReset then [OnReset(cs[0], e)] else []) + ResetCallbacks(cs[1..], e)
  }

  /** Registering a type a second time changes nothing and returns the same ID. */
  lemma RegisterIdempotent(st: StoreState, t: TypeTag)
    requires WellFormed(st)
    requires IsComponentTypeRegistered(st, t) || |st.types| < MaxComponentTypes
    ensures Register(Register(st, t).0, t) == Register(st, t)
  {
  }

  /** Registration only appends: every type registered before keeps its ID. */
  lemma RegisterKeepsIDs(st: StoreState, t: TypeTag, u: TypeTag)
    requires WellFormed(st)
    requires IsComponentTypeRegistered(st, t) || |st.types| < MaxComponentTypes
    requires IsComponentTypeRegistered(st, u)
    ensures GetComponentTypeID(Register(st, t).0, u) == GetComponentTypeID(st, u)
  {
    var st' := Register(st, t).0;
    var i := IndexOf(st.types, u);
    assert st'.types[i] == u;
    IndexOfUnique(st'.types, i);
  }

  /** Adding a component of a registered type writes exactly its cell, and
      the component is then what the store returns for that entity and type. */
  lemma AddToEntitySpec(st: StoreState, e: nat, c: Option<Component>)
    requires WellFormed(st) && e < MaxEntities
    requires IsComponentTypeRegistered(st, TypeOf(c))
    ensures var st' := AddToEntity(st, e, c).value.0;
      && GetComponentForEntity(st', e, TypeOf(c)) == c
      && (HasComponent(st', e, TypeOf(c)) <==> c.Some?)
      && forall tid, x :: 0 <= tid < MaxComponentTypes && 0 <= x < MaxEntities
           && (tid != GetComponentTypeID(st, TypeOf(c)).value || x != e)
           ==> st'.cells[tid][x] == st.cells[tid][x]
  {
  }

  /** After removing a type from an entity, the entity no longer has that
      type, and every other cell, registered or not, is as it was. */
  lemma RemoveFromEntitySpec(st: StoreState, e: nat, t: TypeTag)
    requires WellFormed(st) && e < MaxEntities
    ensures var (st', c, events) := RemoveFromEntity(st, e, t);
      && !HasComponent(st', e, t)
      && (c.None? ==> st' == st && events == [])
      && (c.Some? ==> events == RemovedCallbacks([c.value], e))
      && (forall u, x :: (u != t || x != e) && 0 <= x < MaxEntities ==>
           GetComponentForEntity(st', x, u) == GetComponentForEntity(st, x, u))
      && forall tid, x :: 0 <= tid < MaxComponentTypes && 0 <= x < MaxEntities
           && (!IsComponentTypeRegistered(st, t) || tid != GetComponentTypeID(st, t).value || x != e)
           ==> st'.cells[tid][x] == st.cells[tid][x]
  {
    var (st', c, events) := RemoveFromEntity(st, e, t);
    forall u, x | (u != t || x != e) && 0 <= x < MaxEntities
      ensures GetComponentForEntity(st', x, u) == GetComponentForEntity(st, x, u)
    {
      if IsComponentTypeRegistered(st, u) && c.Some? && u != t {
        assert GetComponentTypeID(st, u) != GetComponentTypeID(st, t);
      }
    }
  }

  lemma {:induction false} RemovedCallbacksConcat(a: seq<Component>, b: seq<Component>, e: nat)
    ensures RemovedCallbacks(a + b, e) == RemovedCallbacks(a, e) + RemovedCallbacks(b, e)
  {
    if a != [] {
      var h := if a[0].hasOnRemoved then [OnRemoved(a[0], e)] else [];
      assert (a + b)[0] == a[0] && (a + b)[1..] == a[1..] + b;
      assert RemovedCallbacks(a + b, e) == h + RemovedCallbacks(a[1..] + b, e);
      RemovedCallbacksConcat(a[1..], b, e);
      ConcatAssoc(h, RemovedCallbacks(a[1..], e), RemovedCallbacks(b, e));
    } else {
      assert a + b == b;
    }
  }

  /** Components of other types are untouched by removing type `t`, so they
      are still present for the rest of the loop. */
  lemma {:induction false} PresentAfterRemove(st: StoreState, e: nat, t: TypeTag, ts: seq<TypeTag>)
    requires WellFormed(st) && e < MaxEntities && t !in ts
    ensures Present(RemoveFromEntity(st, e, t).0, e, ts) == Present(st, e, ts)
  {
    if ts != [] {
      RemoveFromEntitySpec(st, e, t);
      PresentAfterRemove(st, e, t, ts[1..]);
    }
  }

  /** `removeAllComponentsForEntity` calls `onRemovedFromEntity`, in type
      order, on exactly the components the entity had. */
  lemma {:induction false} RemoveAllFromEvents(st: StoreState, e: nat, ts: seq<TypeTag>)
    requires WellFormed(st) && e < MaxEntities && NoDups(ts)
    ensures RemoveAllFrom(st, e, ts).1 == RemovedCallbacks(Present(st, e, ts), e)
    decreases |ts|
  {
    if ts != [] {
      var (st1, c, ev1) := RemoveFromEntity(st, e, ts[0]);
      RemoveFromEntitySpec(st, e, ts[0]);
      NoDupsTail(ts);
      RemoveAllFromEvents(st1, e, ts[1..]);
      PresentAfterRemove(st, e, ts[0], ts[1..]);
      var cs := if c.Some? then [c.value] else [];
      assert Present(st, e, ts) == cs + Present(st, e, ts[1..]);
      RemovedCallbacksConcat(cs, Present(st, e, ts[1..]), e);
    }
  }

  /** After `removeAllComponentsForEntity` over the types `ts` the entity has
      no component of any of them, and no other cell changed. */
  lemma {:induction false} RemoveAllFromCells(st: StoreState, e: nat, ts: seq<TypeTag>)
    requires WellFormed(st) && e < MaxEntities
    ensures var st' := RemoveAllFrom(st, e, ts).0;
      && (forall t :: t in ts ==> !HasComponent(st', e, t))
      && (forall u, x :: 0 <= x < MaxEntities && (u !in ts || x != e) ==>
            GetComponentForEntity(st', x, u) == GetComponentForEntity(st, x, u))
    decreases |ts|
  {
    if ts != [] {
      var st1 := RemoveFromEntity(st, e, ts[0]).0;
      RemoveFromEntitySpec(st, e, ts[0]);
      RemoveAllFromCells(st1, e, ts[1..]);
      assert ts == [ts[0]] + ts[1..];
    }
  }

  /** The cell-level reading of RemoveAllFromCells over all registered types:
      every registered cell of the entity is empty, other cells unchanged. */
  lemma RemoveAllCells(st: StoreState, e: nat)
    requires WellFormed(st) && e < MaxEntities
    ensures var st' := RemoveAll(st, e).0;
      && st'.types == st.types
      && forall tid, x :: 0 <= tid < MaxComponentTypes && 0 <= x < MaxEntities ==>
           st'.cells[tid][x] == if tid < |st.types| && x == e then None else st.cells[tid][x]
  {
    var st' := RemoveAll(st, e).0;
    RemoveAllFromCells(st, e, st.types);
    forall tid, x | 0 <= tid < MaxComponentTypes && 0 <= x < MaxEntities
      ensures st'.cells[tid][x] == if tid < |st.types| && x == e then None else st.cells[tid][x]
    {
      if tid < |st.types| {
        var u := st.types[tid];
        IndexOfUnique(st.types, tid);
        assert GetComponentForEntity(st', x, u) == st'.cells[tid][x];
      } else {
        RowOutsideRegistryFrom(st, e, st.types, x, tid);
      }
    }
  }

  /** The rows beyond the registered types are never written by removal. */
  lemma {:induction false} RowOutsideRegistryFrom(st: StoreState, e: nat, ts: seq<TypeTag>, x: nat, tid: nat)
    requires WellFormed(st) && e < MaxEntities && x < MaxEntities
    requires |st.types| <= tid < MaxComponentTypes
    ensures RemoveAllFrom(st, e, ts).0.cells[tid][x] == st.cells[tid][x]
    decreases |ts|
  {
    if ts != [] {
      var st1 := RemoveFromEntity(st, e, ts[0]).0;
      RowOutsideRegistryFrom(st1, e, ts[1..], x, tid);
    }
  }

  /** The component store. */
  class ComponentStore {
    var types: seq<TypeTag>
    const table: array2<Option<Component>>

    ghost predicate Valid()
      reads this
    {
      && table.Length0 == MaxComponentTypes
      && table.Length1 == MaxEntities
      && NoDups(types)
      && |types| <= MaxComponentTypes
    }

    /** The table as a value. */
    function Cells(): seq<seq<Option<Component>>>
      reads table
    {
      seq(table.Length0, t requires 0 <= t < table.Length0 reads table =>
        seq(table.Length1, e requires 0 <= e < table.Length1 reads table => table[t, e]))
    }

    /** The state as a value. */
    function State(): (st: StoreState)
      reads this, table
      ensures Valid() ==> WellFormed(st)
    {
      StoreState(types, Cells())
    }

    constructor ()
      ensures Valid() && fresh(table)
      ensures State() == InitialStore()
    {
      types := [];
      table := new Option<Component>[MaxComponentTypes, MaxEntities]((t, e) => None);
      new;
      assert State().cells == InitialStore().cells by {
        forall t | 0 <= t < MaxComponentTypes ensures State().cells[t] == InitialStore().cells[t] {
        }
      }
    }

    /** `registerComponentType`. */
    method RegisterComponentType(t: TypeTag) returns (id: nat)
      requires Valid()
      requires IsComponentTypeRegistered(State(), t) || |types| < MaxComponentTypes
      modifies this`types
      ensures Valid()
      ensures (State(), id) == Register(old(State()), t)
    {
      if t !in types {
        types := types + [t];
      }
      id := IndexOf(types, t);
    }

    /** A write of one cell, seen on the state value. */
    method WriteCell(tid: nat, e: nat, v: Option<Component>)
      requires Valid() && tid < MaxComponentTypes && e < MaxEntities
      modifies table
      ensures Valid()
      ensures State() == SetCell(old(State()), tid, e, v)
    {
      ghost var before := State();
      table[tid, e] := v;
      forall i | 0 <= i < MaxComponentTypes
        ensures State().cells[i] == SetCell(before, tid, e, v).cells[i]
      {
      }
    }

    /** `addComponentToEntity`. */
    method AddComponentToEntity(e: nat, c: Option<Component>) returns (r: Result<seq<CallbackEvent>>)
      requires Valid() && e < MaxEntities
      modifies table
      ensures Valid()
      ensures match AddToEntity(old(State()), e, c)
        case Ok((st, events)) => r == Ok(events) && State() == st
        case Err(err) => r == Err(err) && State() == old(State())
    {
      var tid := GetComponentTypeID(State(), TypeOf(c));
      if tid.Some? {
        WriteCell(tid.value, e, c);
        if c.Some? && c.value.hasOnAdded {
          r := Ok([OnAdded(c.value, e)]);
        } else {
          r := Ok([]);
        }
      } else {
        r := Err(TypeNotRegistered);
      }
    }

    /** `removeComponentTypeFromEntity`. */
    method RemoveComponentTypeFromEntity(e: nat, t: TypeTag) returns (removed: Option<Component>, events: seq<CallbackEvent>)
      requires Valid() && e < MaxEntities
      modifies table
      ensures Valid()
      ensures (State(), removed, events) == RemoveFromEntity(old(State()), e, t)
    {
      var tid := GetComponentTypeID(State(), t);
      removed := GetComponentForEntity(State(), e, t);
      events := [];
      if removed.Some? {
        if removed.value.hasOnRemoved {
          events := [OnRemoved(removed.value, e)];
        }
        WriteCell(tid.value, e, None);
      }
    }

    /** `resetAllComponentsForEntity`: calls `reset` on every component the
        entity has that defines it; no cell changes. */
    method ResetAllComponentsForEntity(e: nat) returns (events: seq<CallbackEvent>)
      requires Valid() && e < MaxEntities
      ensures events == ResetCallbacks(Present(State(), e, types), e)
    {
      var st := State();
      var ts := types;
      events := [];
      var i := 0;
      assert ts[i..] == ts;
      while i < |ts|
        invariant 0 <= i <= |ts| && WellFormed(st)
        invariant events + ResetCallbacks(Present(st, e, ts[i..]), e)
               == ResetCallbacks(Present(st, e, ts), e)
      {
        var c := GetComponentForEntity(st, e, ts[i]);
        var fired := if c.Some? && c.value.hasReset then [OnReset(c.value, e)] else [];
        ResetStep(st, e, ts, i);
        ghost var rest := ResetCallbacks(Present(st, e, ts[i + 1..]), e);
        ConcatAssoc(events, fired, rest);
        events := events + fired;
        i := i + 1;
      }
      assert ts[i..] == [];
    }

    /** One iteration of the loop of `removeAllComponentsForEntity`. */
    method RemoveNext(e: nat, i: nat) returns (ev: seq<CallbackEvent>)
      requires Valid() && e < MaxEntities && i < |types|
      modifies table
      ensures Valid()
      ensures RemoveAllFrom(State(), e, types[i + 1..]).0 == RemoveAllFrom(old(State()), e, types[i..]).0
      ensures ev + RemoveAllFrom(State(), e, types[i + 1..]).1 == RemoveAllFrom(old(State()), e, types[i..]).1
    {
      RemoveAllStep(State(), e, types, i);
      var _, removed := RemoveComponentTypeFromEntity(e, types[i]);
      ev := removed;
    }

    /** `removeAllComponentsForEntity`. */
    method RemoveAllComponentsForEntity(e: nat) returns (events: seq<CallbackEvent>)
      requires Valid() && e < MaxEntities
      modifies table
      ensures Valid()
      ensures (State(), events) == RemoveAll(old(State()), e)
    {
      ghost var total := RemoveAll(old(State()), e);
      events := [];
      var i := 0;
      assert types[i..] == types;
      while i < |types|
        invariant Valid() && 0 <= i <= |types| && types == old(types)
        invariant RemoveAllFrom(State(), e, types[i..]).0 == total.0
        invariant events + RemoveAllFrom(State(), e, types[i..]).1 == total.1
      {
        ghost var done := events;
        var ev := RemoveNext(e, i);
        ConcatAssoc(done, ev, RemoveAllFrom(State(), e, types[i + 1..]).1);
        events := events + ev;
        i := i + 1;
      }
      assert types[i..] == [];
      assert RemoveAllFrom(State(), e, []) == (State(), []);
      assert events + [] == events;
    }
  }

  lemma {:induction false} ResetCallbacksConcat(a: seq<Component>, b: seq<Component>, e: nat)
    ensures ResetCallbacks(a + b, e) == ResetCallbacks(a, e) + ResetCallbacks(b, e)
  {
    if a != [] {
      var h := if a[0].hasReset then [OnReset(a[0], e)] else [];
      assert (a + b)[0] == a[0] && (a + b)[1..] == a[1..] + b;
      assert ResetCallbacks(a + b, e) == h + ResetCallbacks(a[1..] + b, e);
      ResetCallbacksConcat(a[1..], b, e);
      ConcatAssoc(h, ResetCallbacks(a[1..], e), ResetCallbacks(b, e));
    } else {
      assert a + b == b;
    }
  }

  /** One iteration of the loop of `ResetAllComponentsForEntity`. */
  lemma ResetStep(st: StoreState, e: nat, ts: seq<TypeTag>, i: nat)
    requires WellFormed(st) && e < MaxEntities && i < |ts|
    ensures var c := GetComponentForEntity(st, e, ts[i]);
      ResetCallbacks(Present(st, e, ts[i..]), e)
      == (if c.Some? && c.value.hasReset then [OnReset(c.value, e)] else [])
         + ResetCallbacks(Present(st, e, ts[i + 1..]), e)
  {
    var c := GetComponentForEntity(st, e, ts[i]);
    assert ts[i..][0] == ts[i] && ts[i..][1..] == ts[i + 1..];
    ResetCallbacksConcat(if c.Some? then [c.value] else [], Present(st, e, ts[i + 1..]), e);
  }

  /** One iteration of the loop of `RemoveAllComponentsForEntity`. */
  lemma RemoveAllStep(st: StoreState, e: nat, ts: seq<TypeTag>, i: nat)
    requires WellFormed(st) && e < MaxEntities && i < |ts|
    ensures var (st1, _, ev) := RemoveFromEntity(st, e, ts[i]);
      && RemoveAllFrom(st, e, ts[i..]).0 == RemoveAllFrom(st1, e, ts[i + 1..]).0
      && RemoveAllFrom(st, e, ts[i..]).1 == ev + RemoveAllFrom(st1, e, ts[i + 1..]).1
  {
    assert ts[i..][0] == ts[i] && ts[i..][1..] == ts[i + 1..];
  }
}
