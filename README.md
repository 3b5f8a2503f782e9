# Simple Python ECS in Dafny

This project models the core of *Simple Python ECS*, a small
entity-component-system library, and proves properties of the model. The
core has five parts:

- **Entity ID pool** (`EntityManager`, module `EntityManager`). It holds a sorted list of free IDs `0 .. 999`. `checkoutID` pops the smallest one, and `checkinID` appends an absent ID and sorts.
- **Component store** (`ComponentManager`, module `ComponentManager`). It holds the list of registered component types, whose positions are their IDs, and a 100 x 1000 table indexed `[typeID][entityID]`. The model keeps the table as a Dafny `array2`. Each mutating operation is proved against a function on the state value `StoreState`.
- **Entity handle** (`Entity`, module `Entities`). It holds an ID, the `active` and `markedForDeletion` flags, and a duplicate-free tag list. Its component calls delegate to the store for the entity's ID.
- **System** (`System`, module `Systems`). It holds the ordered, duplicate-free list of required component types and the `drawAfterEntities` flag.
- **Scene** (`Scene`, modules `SceneLoop` and `Scenes`).
  - State: an entity list, a system list, and the registry of every scene.
  - `SceneLoop` states on values what `update` and `draw` do: which hooks run, on which entities, in which order, and what the deletion sweep does to every scene's list and to the component table.
  - The imperative `Scene` methods in `Scenes` are proved against those functions.

The two process-wide singletons that every entity uses are gathered into one `World` object: the pool, the store and the `Scene.scenes` registry. They are `_entityManager` and `_componentManager` in `src/specs/Globals.py`.

Hooks and callbacks have no bodies in the core, so the model records them as events, in the order they happen. Those hooks are the component callbacks `onAddedToEntity`, `onRemovedFromEntity` and `reset`, the scene's `onEntityAddedToScene` and `onEntityRemovedFromScene`, and the system's `update`, `updateEntity`, `draw` and `drawEntity`.

The effect of a user's per-entity update hook is modelled by a parameter `destroys`. It names the entities that the hook `destroy()`s while it processes an entity.

Behaviour modelled as the code does it:
- The deletion sweep runs after every system, inside the per-system loop of `update`. It does not run once per frame after all systems.
- `update` ignores its `deltaTime` and passes `1` to every hook.
- The sweep never calls `checkinID`, so deleted entities' IDs never return to the pool.
- The sweep removes the entity from every registered scene. The first scene that lacks it raises `ValueError`, modelled as `ok == false`. The scenes before that one have already lost the entity.
- `removeEntity`'s test is correct. `removeSystem`'s test is inverted.
- Tags are an ordered list without duplicates.
- `Entity()` with no argument registers `NoneType`.
- Registering a component type never checks the capacity of 100 types, so a 101st type would index outside the table. The model makes room for the type a precondition.

## Model

| member | source | states |
|---|---|---|
| Base.TypeOf | src/specs/Entity.py:112-113 | `type(c)` is `NoneType` exactly when the component is `None` |
| Base.IndexOf | src/ecs/ComponentManager.py:42 | `list.index` returns a position holding the element with no earlier occurrence |
| Base.RemoveFirst | src/specs/Scene.py:56 | `list.remove(x)` drops the first occurrence of `x` and keeps the rest |
| Base.RemoveFirstIsWithout | src/specs/Scene.py:53-56 | on a duplicate-free list, `remove(x)` drops exactly `x` and keeps the order |
| Base.AppendAbsentSpec | src/specs/Entity.py:65-69 | appending each absent item keeps the list duplicate-free, keeps the old list as a prefix, and adds exactly the given items |
| Base.RemovePresentSpec | src/specs/Entity.py:95-97 | removing each present item leaves exactly the other items, in their order |
| Base.AppendThenRemove | src/specs/System.py:37-53 | adding an absent type and then removing it restores the list |
| EntityManager.Insert | src/specs/EntityManager.py:47-50 | appending an absent ID and sorting keeps the pool ascending and adds exactly that ID |
| EntityManager.CheckinAll | src/specs/EntityManager.py:44-50 | returning a sequence of IDs keeps the pool ascending and adds exactly those IDs |
| EntityManager.InitialPoolSpec | src/specs/EntityManager.py:15-19 | the initial pool is ascending, has 1000 IDs, and holds exactly the IDs below 1000 |
| EntityManager.AscendingUnique | src/specs/EntityManager.py:49-50 | two ascending pools with the same elements are equal, so sorting makes the order of returns irrelevant |
| EntityManager.CheckoutSpec | src/specs/EntityManager.py:28-34 | checkout of a non-empty pool yields its minimum and removes exactly it; an empty pool yields None and is unchanged |
| EntityManager.CheckinSpec | src/specs/EntityManager.py:44-50 | checkin keeps the pool ascending and its elements become the old ones plus the ID |
| EntityManager.CheckinIdempotent | src/specs/EntityManager.py:44 | returning an ID twice is the same as returning it once |
| EntityManager.CheckoutCheckinRoundTrip | src/specs/EntityManager.py:28-50 | checking out an ID and checking it back in restores the pool |
| EntityManager.CheckinOrderIrrelevant | src/specs/EntityManager.py:44-50 | returning the same IDs in two orders gives the same pool |
| EntityManager.NextCheckoutIsSmallestFree | src/specs/EntityManager.py:21-50 | after any returns, the next checkout yields the smallest free ID |
| EntityManager.EntityPool.constructor | src/specs/EntityManager.py:11-19 | the pool starts as `[0, ..., 999]` |
| EntityManager.EntityPool.CheckoutID | src/specs/EntityManager.py:21-34 | the result and the new pool are those of `Checkout`; the pool stays ascending |
| EntityManager.EntityPool.CheckinID | src/specs/EntityManager.py:36-50 | the new pool is that of `Checkin`; the pool stays ascending |
| ComponentManager.IsComponentTypeRegistered | src/ecs/ComponentManager.py:44-52 | a type is registered exactly when some position of the list holds it |
| ComponentManager.GetComponentTypeID | src/ecs/ComponentManager.py:88-102 | None exactly for an unregistered type, otherwise a position holding the type |
| ComponentManager.GetComponentForEntity | src/ecs/ComponentManager.py:68-86 | None for an unregistered type, otherwise cell `[typeID][entityID]` |
| ComponentManager.HasComponent | src/ecs/ComponentManager.py:54-66 | true exactly when the type is registered and the entity's cell is not empty |
| ComponentManager.Register | src/ecs/ComponentManager.py:29-42 | the type's ID is returned; a known type changes nothing; a new one gets ID equal to the old length; cells and earlier types are kept |
| ComponentManager.AddToEntity | src/ecs/ComponentManager.py:104-129 | fails with TypeNotRegistered exactly for an unregistered type; otherwise keeps the types |
| ComponentManager.RemoveFromEntity | src/ecs/ComponentManager.py:131-155 | returns the component the entity had of the type; keeps the types |
| ComponentManager.RemoveAllFrom | src/ecs/ComponentManager.py:174-184 | the loop over the types keeps the store well formed and the types unchanged |
| ComponentManager.RegisterIdempotent | src/ecs/ComponentManager.py:38-42 | registering a type twice is the same as registering it once |
| ComponentManager.RegisterKeepsIDs | src/ecs/ComponentManager.py:29-42 | registration never changes the ID of a type registered before |
| ComponentManager.AddToEntitySpec | src/ecs/ComponentManager.py:114-129 | the added component is what the store returns for the entity and type; every other cell is unchanged |
| ComponentManager.RemoveFromEntitySpec | src/ecs/ComponentManager.py:144-155 | afterwards the entity lacks the type; an absent component changes nothing and fires nothing; otherwise `onRemovedFromEntity` fires; every other cell, of any entity and any row, is unchanged |
| ComponentManager.RemoveAllFromEvents | src/ecs/ComponentManager.py:174-184 | removal fires `onRemovedFromEntity` on exactly the components the entity had, in type order |
| ComponentManager.RemoveAllFromCells | src/ecs/ComponentManager.py:174-184 | afterwards the entity has no component of the types, and every other cell is unchanged |
| ComponentManager.RemoveAllCells | src/ecs/ComponentManager.py:174-184 | every registered cell of the entity is empty; every other cell is unchanged |
| ComponentManager.ComponentStore.constructor | src/ecs/ComponentManager.py:12-27 | no type is registered and every cell is empty |
| ComponentManager.ComponentStore.RegisterComponentType | src/ecs/ComponentManager.py:29-42 | the new state and returned ID are those of `Register` |
| ComponentManager.ComponentStore.AddComponentToEntity | src/ecs/ComponentManager.py:104-129 | the outcome and new table are those of `AddToEntity`; on error nothing changes |
| ComponentManager.ComponentStore.RemoveComponentTypeFromEntity | src/ecs/ComponentManager.py:131-155 | the new table, returned component and callbacks are those of `RemoveFromEntity` |
| ComponentManager.ComponentStore.ResetAllComponentsForEntity | src/ecs/ComponentManager.py:157-172 | `reset` fires on each present component that has it, in type order; no cell changes |
| ComponentManager.ComponentStore.RemoveAllComponentsForEntity | src/ecs/ComponentManager.py:174-184 | the new table and callbacks are those of `RemoveAll` |
| Entities.AddComponentTo | src/specs/Entity.py:103-116 | registers the type if new, never reaches the unregistered-type error, stores the component and fires `onAddedToEntity` if it has one |
| Entities.AddComponentToOthers | src/specs/Entity.py:103-116 | `addComponent` leaves every other registered cell unchanged |
| Entities.AddAll | src/specs/Entity.py:25-26 | the constructor's loop registers exactly the new types, in order |
| Entities.AddAllRegisters | src/specs/Entity.py:25-26 | after the loop every given component's type is registered |
| Entities.AddAllOthers | src/specs/Entity.py:25-26 | the loop leaves other entities' cells unchanged |
| Entities.AddAllEvents | src/specs/Entity.py:25-26 | `onAddedToEntity` fires once per component that has it, in argument order |
| Entities.AddAllLastWins | src/specs/Entity.py:25-26 | for each type, the entity holds the last given component of that type |
| Entities.ConstructSpec | src/specs/Entity.py:15-34 | construction fails with NoEntityID exactly on an empty pool, and with IndexError when the smallest free ID is outside the table; otherwise it succeeds with the pool's minimum, which leaves the pool, and the callbacks fire in order |
| Entities.NoArgumentEntity | src/specs/Entity.py:15-26 | `Entity()` registers `NoneType` yet `hasComponent(NoneType)` is false |
| Entities.NewEntity | src/specs/Entity.py:15-34 | pool, store, callbacks and outcome are those of `Construct`; a new entity is active, unmarked and untagged |
| Entities.Entity.constructor | src/specs/Entity.py:22-34 | the fields are the ID, active, not marked, no tags |
| Entities.Entity.Destroy | src/specs/Entity.py:43-50 | only `markedForDeletion` changes, and it becomes true |
| Entities.Entity.HasTag | src/specs/Entity.py:71-84 | true exactly when every given tag is among the entity's tags |
| Entities.Entity.AddTag | src/specs/Entity.py:56-69 | tags stay duplicate-free; old tags are a prefix; exactly the given tags are added, in argument order |
| Entities.Entity.RemoveTag | src/specs/Entity.py:86-97 | no given tag remains; the other tags keep their order |
| Entities.Entity.AddComponent | src/specs/Entity.py:103-116 | the new store and callbacks are those of `AddComponentTo` |
| Entities.Entity.AddComponents | src/specs/Entity.py:25-26 | the new store and callbacks are those of `AddAll` |
| Entities.Entity.HasComponent | src/specs/Entity.py:118-126 | true exactly when the type is registered and this ID's cell is not empty |
| Entities.Entity.GetComponent | src/specs/Entity.py:128-137 | None for an unregistered type, otherwise this ID's cell |
| Entities.Entity.ResetAllComponents | src/specs/Entity.py:139-146 | the `reset` calls, in type order; nothing changes |
| Entities.Entity.RemoveComponent | src/specs/Entity.py:148-156 | the new table and callbacks are those of `RemoveFromEntity` for this ID |
| Entities.Entity.RemoveAllComponents | src/specs/Entity.py:158-165 | the new table and callbacks are those of `RemoveAll` for this ID |
| Systems.System.constructor | src/specs/System.py:7-21 | draws after entities; the requirements are what the `init()` hook adds to an empty list |
| Systems.System.AddRequiredComponentType | src/specs/System.py:27-39 | requirements stay duplicate-free; old ones are a prefix; exactly the given types are added, in order |
| Systems.System.RemoveRequiredComponentType | src/specs/System.py:41-53 | no given type remains; the others keep their order |
| SceneLoop.MatchingSpec | src/specs/Scene.py:113-124 | a system processes exactly the active entities that have every required type, in list order |
| SceneLoop.NoRequirementMatchesActive | src/specs/Scene.py:113-124 | with no requirement every active entity is processed |
| SceneLoop.Destroyed | src/specs/Scene.py:123-124 | the per-entity hook only destroys entities of the scene |
| SceneLoop.DestroyedSpec | src/specs/Scene.py:113-124 | an entity is destroyed in a pass exactly when the hook destroys it while processing some matching entity |
| SceneLoop.RemoveFromScenes | src/specs/Scene.py:138-139 | the registry keeps its number of scenes |
| SceneLoop.RemoveFromScenesSpec | src/specs/Scene.py:138-139 | removal succeeds exactly when every scene holds the entity; earlier scenes are untouched; on success each scene loses its first occurrence |
| SceneLoop.SweepStep | src/specs/Scene.py:133-139 | one position keeps the number of scenes, the store well formed and the types unchanged; on success at least `i - 1` entities remain in the scene |
| SceneLoop.Sweep | src/specs/Scene.py:132-141 | the sweep keeps the number of scenes, the store well formed and the types unchanged |
| SceneLoop.SweepLists | src/specs/Scene.py:130-141 | the sweep succeeds exactly when every marked entity is in every scene; then every scene's list loses exactly those entities, the others keeping their order |
| SceneLoop.SweepCell | src/specs/Scene.py:132-139 | after a successful sweep every registered cell of a deleted entity is empty and every other cell is unchanged |
| SceneLoop.SweepClearsScene | src/specs/Scene.py:106-141 | after a system's sweep no marked entity is left in the scene, so the next system does not see it |
| SceneLoop.SystemStep | src/specs/Scene.py:106-141 | one system's step keeps the scene and the store well formed |
| SceneLoop.DrawOrder | src/specs/Scene.py:157-178 | a system's `draw` runs once: before its per-entity draws when `drawAfterEntities` is false, after them when true |
| SceneLoop.RemoveSystemAsWrittenKeeps | src/specs/Scene.py:81-90 | as written, a present system stays and an absent one raises ValueError |
| SceneLoop.RemoveSystemAsWrittenDiffers | src/specs/Scene.py:81-90 | for a system in the list, the removal as written keeps it while the intended removal drops it, so the two results differ |
| SceneLoop.RemoveSystemIntendedSpec | src/specs/Scene.py:81-90 | the intended removal drops exactly the system, keeps the order and keeps one system per class |
| Scenes.World.constructor | src/specs/Globals.py:10-11 | the pool is full, the store empty, and no scene exists |
| Scenes.World.RemoveEverywhere | src/specs/Scene.py:138-139 | outcome and lists are those of `RemoveFromScenes` |
| Scenes.HasAllRequired | src/specs/Scene.py:115-120 | the result is whether every required type has a component for the entity |
| Scenes.Scene.constructor | src/specs/Scene.py:15-22 | the scene joins the registry, last, with no entity and no system |
| Scenes.Scene.AddEntity | src/specs/Scene.py:28-43 | an absent entity is appended and `onEntityAddedToScene` fires; a present one changes nothing and fires nothing |
| Scenes.Scene.RemoveEntity | src/specs/Scene.py:45-60 | a present entity is removed and `onEntityRemovedFromScene` fires; an absent one changes nothing; the others keep their order |
| Scenes.Scene.AddSystem | src/specs/Scene.py:66-79 | a system whose class is present changes nothing; otherwise it is appended; at most one system per class |
| Scenes.Scene.RemoveSystem | src/specs/Scene.py:81-90 | raises ValueError exactly when the system is absent; otherwise the list is unchanged |
| Scenes.Scene.UpdatePass | src/specs/Scene.py:111-124 | `updateEntity` events on the matching entities, in order; the entities destroyed become marked, the other flags keep their values |
| Scenes.Scene.SweepAt | src/specs/Scene.py:133-139 | the lists, the store and the callbacks are those of `SweepStep` |
| Scenes.Scene.SweepMarked | src/specs/Scene.py:130-141 | the lists, the store and the callbacks are those of `Sweep` over the whole list |
| Scenes.Scene.RunSystem | src/specs/Scene.py:106-141 | the lists, the store, the outcome and the events are those of `SystemStep`; when no ValueError is raised, the deletion flags are those `SystemStep` gives |
| Scenes.Scene.Update | src/specs/Scene.py:96-141 | the lists, the store, the outcome and the events are those of `UpdateFrom` over the systems in order; when no ValueError is raised, the deletion flags are those `UpdateFrom` gives |
| Scenes.Scene.DrawOne | src/specs/Scene.py:153-178 | the events of one system are those of `DrawSystem` |
| Scenes.Scene.Draw | src/specs/Scene.py:143-178 | the events are those of `DrawAll`; nothing changes |

## Findings

| source | as written | input that shows it | evidently intended | confidence | as-written member | corrected member |
|---|---|---|---|---|---|---|
| src/specs/Scene.py:89-90 | `removeSystem` calls `remove` only when the system is not in the list | a scene whose list holds system `s`, then `removeSystem(s)`: the list still holds `s`; with `s` absent, `remove` raises ValueError | remove `s` when it is present, do nothing otherwise | not executed | SceneLoop.RemoveSystemAsWrittenDiffers | SceneLoop.RemoveSystemIntendedSpec |

## Left out

- The example programs (physics, graphics, the pygame window, event and clock loop, and the transform components) are not part of this model: they are floating point and rendering code.
- `src/specs/Component.py` is not part of this model. Its three callbacks do nothing, so they are recorded as events. A component carries flags that say which of them it defines, in place of the `hasattr` probes.
- The `surface` argument of `draw` and the `deltaTime` of `update` are left out: `surface` is opaque and only passed through, and `deltaTime` is never used.
- The bodies of user hooks are left out. Their calls are recorded as events, and the per-entity update hook's `destroy()` calls are modelled by the `destroys` parameter. A hook can therefore only mark entities of the scene it runs in. It cannot change lists, components or the `active` flag.
- A subclass's `init()` hook is modelled only by the requirement types it adds.
- EntityManager.EntityPool.CheckinID: IDs are naturals. The model leaves out a negative ID, which Python accepts and then uses as a negative list index: for -1 that is column 999, which aliases entity 999's cells.
- Scenes.Scene.Update: after a ValueError from the sweep, the contract does not state the `markedForDeletion` flags. Scenes.Scene.RunSystem has the same gap.
- Entities.NewEntity: registering a new component type requires a free row of the table, because the source does not check the capacity of 100 types and would index outside it. ComponentManager.Register, Entities.AddComponentTo and the store's `RegisterComponentType` carry the same precondition.
- Object identity and `type(x) is type(y)`: component types are tags, a system's class is its `kind` string, and entities are compared as Dafny objects.
- Scenes.Scene.RemoveSystem: there is no method applying the corrected removal to the object, because the source keeps the inverted behaviour. The corrected behaviour is the function `RemoveSystemIntended` with its lemma.
- Scenes.Scene.Update: the sweep's removal from another scene is modelled on lists of entities; the model does not cover a hook changing a list while a loop runs over it.
