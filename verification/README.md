# An ECS storage engine, modelled in Dafny

This project models the core of `ecs-go`, an Entity-Component-System engine
for games. The model covers three pieces and the small example entity:

- **Entities** (`entitas/entity.go`, module `Entities`). An entity is a table
  from component type to component. It also has an array sorted by type,
  which is refreshed only on request, and a registry of listeners per event
  kind: Added, Replaced, WillBeRemoved and Removed.
- **Groups** (`entitas/group.go`, module `Groups`). A group is the set of
  entities that satisfy one matcher. Beside it sits a lazily rebuilt list
  (`cache`) with a `cacheInvalidated` flag.
- **The context, or pool** (`entitas/pool.go`, module `Pools`). It does four
  things:
  - It creates entities and recycles destroyed ones through a FIFO free list.
  - It owns one group per matcher hash.
  - It keeps the fan-out index (`com2groups`) from each component type to the
    groups whose matcher declares that type.
  - Its four handlers route every component event of a live entity to those
    groups.
- **The example entity** (`example/entity.go`, module `Example`). It keeps
  one array that is re-sorted on every insertion and searched by binary
  search.

Module `SortedArrays` holds the sorted insertion and the binary and linear
searches, which both entity kinds use. Module `Base` holds the shared
vocabulary.

Everything is a pure function over immutable values. Each operation returns
the new state, together with the events fired, in order, in place of calling
listeners.

Go entities are pointers. The context's `store` keeps every instance it ever
made, keyed by id, and `live` is the key set of its `entities` map. A handle
(`Own`/`Foreign`) says whether the caller passed the context's own instance,
which is what `HasEntity` and `DestroyEntity` check.

Go map iteration order is arbitrary. Every operation that walks a map takes
that order as an `order` argument, and the properties hold for any
enumeration (`IsEnumeration`).

`Matcher` and `Component` are defined in files that are not part of this
model, so each is a record:
- a matcher is a hash, a sequence of declared types and a pure predicate over
  the set of types an entity holds;
- a component is a type and a payload.

A matcher is *honest* when its verdict depends only on the types it declares.
The context routes events by declared types, so its groups stay in
agreement with their matchers only for honest matchers.

The two central invariants are:
- `Pools.Valid`: ids agree with the store, live entities carry the context's
  handlers, an existing listing lists every live entity once, the free list
  is distinct and disjoint from the live set, every group cache is sound,
  and the fan-out index is sound and complete. The listing clause holds only
  with the corrected append of `entitas/pool.go:40` (see Findings), so the
  `*Valid` lemmas for `CreateEntity` are about the corrected operation.
- `Pools.Consistent`: every group's verdict on every live entity is its
  matcher's verdict (a group holds a live entity exactly when its matcher
  accepts it; ids that are not live are not constrained).

## Model

| member | source | states |
|---|---|---|
| SortedArrays.InsertKeepsOrder | example/entity.go:20-23 | inserting in place keeps an array non-decreasing by type |
| SortedArrays.SortByType | example/entity.go:21-23 | the result is a permutation of the input, non-decreasing by type |
| SortedArrays.InsertOfType | example/entity.go:21-23 | on a sorted array, an inserted element lands after every element of its own type and leaves the order within other types alone |
| SortedArrays.SortByTypeStable | example/entity.go:21-23 | the sort is stable: the elements of each type keep their order, as Go's `sort.Slice` keeps it on up to twelve elements, where it runs an insertion sort that swaps only on strictly less |
| SortedArrays.BinarySearch | entitas/entity.go:218-235 | a hit has the requested type and is in the array; on a sorted array, it misses iff no element has the type |
| SortedArrays.LinearSearch | entitas/entity.go:207-216 | it misses iff no element has the type; otherwise it returns the first element of that type |
| Entities.NewEntity | entitas/entity.go:57-63 | a new entity has the given id, no components, no callbacks and a current (empty) index |
| Entities.AddComponent | entitas/entity.go:65-74 | it fires one Added per inserted component, for a prefix of the arguments, and stops with ErrComponentExists exactly when it does not get through all of them; the table stays well typed |
| Entities.AddComponentKeys | entitas/entity.go:65-74 | the table gains exactly the types it fired Added for; on error, the type it stopped at was already held |
| Entities.AddComponentValues | entitas/entity.go:65-74 | old entries are untouched; each added component is stored under its own type, which was new and is not repeated |
| Entities.AddRemoveRoundTrip | entitas/entity.go:65-129 | after a successful add, removing the added types succeeds and gives back the original entity |
| Entities.RemoveHeld | entitas/entity.go:118-129 | removing distinct held types never errs |
| Entities.ReplaceComponent | entitas/entity.go:95-105 | one event per argument, carrying that component; never errs; the table stays well typed |
| Entities.ReplaceComponentKinds | entitas/entity.go:95-105 | the event is Replaced iff the type was held or came earlier in the argument list, else Added, never both |
| Entities.ReplaceComponentTable | entitas/entity.go:95-105 | the table holds the old types plus the listed ones; each listed type holds the last component of that type; unlisted types keep their old component |
| Entities.WillRemoveComponent | entitas/entity.go:107-116 | the table is unchanged; fires WillBeRemoved with the held component for each type until the first absent one, where it errs with ErrComponentDoesNotExist |
| Entities.RemoveComponent | entitas/entity.go:118-129 | two events per removed type; errs with ErrComponentDoesNotExist iff it stops before the end |
| Entities.RemoveComponentEvents | entitas/entity.go:118-129 | for each removed type: WillBeRemoved then Removed, both with the component held before |
| Entities.RemoveComponentDistinct | entitas/entity.go:118-129 | the removed types are distinct |
| Entities.RemoveComponentTable | entitas/entity.go:118-129 | exactly the removed types leave the table and nothing else changes; on error, the type it stopped at is absent |
| Entities.RemoveAllComponents | entitas/entity.go:131-143 | the table is empty; a WillBeRemoved pass covering each held component once comes before a Removed pass covering the same components |
| Entities.FireEach | entitas/entity.go:134-136 | one pass over the map fires the event once for each held component |
| Entities.LookupAfterRemoveAll | entitas/entity.go:131-143 | the sorted array survives the table's clearing, so a short array still returns every old component |
| Entities.ID | entitas/entity.go:145-147 | the id the entity was made with |
| Entities.IdFixed | entitas/entity.go:65-163 | no component or callback operation changes the id |
| Entities.HasCallbacks | entitas/entity.go:157-159 | true iff some event kind has a listener list |
| Entities.AddCallback | entitas/entity.go:149-155 | appends the listener to its kind's list, creating the list if absent; other kinds are untouched |
| Entities.RemoveAllCallbacks | entitas/entity.go:161-163 | no callbacks remain; nothing else changes |
| Entities.HasComponent | entitas/entity.go:165-172 | true iff every listed type is held (so true for none) |
| Entities.HasAnyComponent | entitas/entity.go:174-181 | true iff some listed type is held (so false for none) |
| Entities.Component | entitas/entity.go:183-189 | errs with ErrComponentDoesNotExist iff the type is absent; otherwise returns a held component of that type |
| Entities.DictGetComponent | entitas/entity.go:199-205 | nil iff the type is absent; otherwise the component `Component` returns |
| Entities.BinarySearchComponent | entitas/entity.go:218-235 | searches the array as it stands; on a current index it agrees with `DictGetComponent` |
| Entities.LinearSearchComponent | entitas/entity.go:207-216 | finds a type iff the array holds it; on a current index it agrees with `DictGetComponent` |
| Entities.GetComponent | entitas/entity.go:191-197 | at 64 or more array elements it agrees with the table; below that it searches the possibly stale array; on a current index it agrees with the table |
| Entities.SortedValues | entitas/entity.go:85-92 | the held components, one per type, strictly ascending by type |
| Entities.RebuildComponentIndex | entitas/entity.go:76-93 | only the array changes, and the index is then current and as long as the table |
| Entities.Components | entitas/entity.go:237-246 | exactly the held components, one per type, ascending by type |
| Entities.ComponentIndices | entitas/entity.go:248-256 | every held type exactly once, as many as the table holds |
| Groups.NewGroup | entitas/group.go:31-39 | no members, a valid empty cache, the given matcher |
| Groups.Matches | entitas/group.go:76-78 | the verdict of the group's matcher on the given types |
| Groups.ContainsEntity | entitas/group.go:80-85 | on a valid, current cache, true iff the cache holds the id |
| Groups.Entities | entitas/group.go:41-53 | the flag is cleared; the result lists every member exactly once; a valid cache is returned as is |
| Groups.FindIndex | entitas/group.go:124-131 | -1 iff absent, else the first index holding the id |
| Groups.RemoveIndexed | entitas/group.go:133-138 | the sequence without position i, order kept, as a multiset one copy of `s[i]` fewer |
| Groups.AddEntity | entitas/group.go:95-103 | a member is left alone with no event; otherwise it is added, appended to a valid cache only, and one EntityAdded fires; the cache stays sound |
| Groups.RemoveEntity | entitas/group.go:105-114 | a non-member is left alone; otherwise it is removed, a valid cache is dropped and flagged, and one EntityRemoved fires; the cache stays sound |
| Groups.HandleEntity | entitas/group.go:55-61 | afterwards the group holds the entity iff its matcher accepts it; no other membership changes; the event is exactly the one the change calls for |
| Groups.UpdateEntity | entitas/group.go:63-68 | nothing changes; EntityRemoved then EntityAdded iff the entity is a member |
| Groups.WillRemoveEntity | entitas/group.go:70-74 | nothing changes; EntityWillBeRemoved iff the entity is a member |
| Pools.NewContext | entitas/pool.go:25-34 | an empty context is valid and consistent, and its next id is the start index |
| Pools.Count | entitas/pool.go:59-61 | zero iff nothing is live, and never more than the stored entities |
| Pools.Route | entitas/pool.go:160-166 | a live entity's event goes to its type's fan-out list; a non-live entity's event, or one for a type outside the fan-out, goes nowhere |
| Pools.RouteReaches | entitas/pool.go:160-166 | on a sound and complete fan-out, a live entity's event for a type reaches exactly the groups declaring that type |
| Pools.HasEntity | entitas/pool.go:63-68 | true iff the handle is the context's own live instance, which is stored under its id |
| Pools.Register | entitas/pool.go:153-156 | the context's handler heads all four listener lists |
| Pools.GetEntity | entitas/pool.go:144-158 | the entity handed out is stored under its id, routed and not live; only its entry, the free list and the next id change |
| Pools.GetEntityPicks | entitas/pool.go:146-152 | it picks the oldest free entity (keeping its table and sorted array), or else a fresh id equal to the next id, above every stored id, and the next id grows by one |
| Pools.GetEntityValid | entitas/pool.go:144-158 | fetching keeps the invariant, and the fetched id leaves the free list |
| Pools.RecycledValid | entitas/pool.go:146-148 | recycling the oldest free entity keeps the invariant |
| Pools.PopValid | entitas/pool.go:148 | dropping the head of the free list keeps the invariant |
| Pools.FreshValid | entitas/pool.go:149-152 | making a fresh entity keeps the invariant |
| Pools.GetEntityConsistent | entitas/pool.go:144-158 | fetching keeps every group agreeing with its matcher on every live entity |
| Pools.HandleEach | entitas/pool.go:116-120 | each listed group holds the entity iff its matcher accepts it; unlisted groups are untouched; only this entity moves |
| Pools.HandleEachAdded | entitas/pool.go:116-120 | an EntityAdded event is fired by exactly the listed groups that accept the entity and did not hold it |
| Pools.HandleEachRemoved | entitas/pool.go:116-120 | an EntityRemoved event is fired by exactly the listed groups that reject the entity and did hold it |
| Pools.UpdateEach | entitas/pool.go:122-126 | only EntityRemoved/EntityAdded events about the entity, from listed groups |
| Pools.UpdateEachNotes | entitas/pool.go:122-126 | the listed groups holding the entity, and no others, fire both EntityRemoved and EntityAdded |
| Pools.LookaheadEach | entitas/pool.go:128-136 | with no group the table is unchanged; otherwise the last listed group's verdict without the type decides whether the component is restored |
| Pools.LookaheadNotes | entitas/pool.go:128-136 | EntityWillBeRemoved comes from exactly the listed groups that hold the entity and reject it without the type |
| Pools.AddEach | entitas/pool.go:116-120 | with the Added handler attached, a non-live entity touches no group; only this entity's memberships move |
| Pools.AddEachAgrees | entitas/pool.go:116-120 | the table, events and error are those of the plain `AddComponent` |
| Pools.RouteKeepsIdConsistent | entitas/pool.go:160-166 | with honest matchers, re-judging the fan-out of the changed type keeps every group's verdict on the entity current |
| Pools.AddEachConsistent | entitas/pool.go:116-120 | adding to a live entity keeps every group's verdict on it current |
| Pools.ReplaceEach | entitas/pool.go:122-126 | with the handlers attached, a held type goes to `UpdateEntity` and a new one to `HandleEntity`; never errs; a non-live entity touches no group |
| Pools.ReplaceEachAgrees | entitas/pool.go:122-126 | the table and events are those of the plain `ReplaceComponent` |
| Pools.ReplaceEachConsistent | entitas/pool.go:122-126 | replacing on a live entity keeps every group's verdict on it current |
| Pools.RemoveOne | entitas/pool.go:128-142 | the lookahead runs, the type is deleted whatever it left, and the fan-out re-judges the entity without the type |
| Pools.RemoveEach | entitas/pool.go:138-142 | with the handlers attached, only this entity's memberships move; a non-live entity touches no group |
| Pools.RemoveEachAgrees | entitas/pool.go:128-142 | the table, events and error are those of the plain `RemoveComponent`: the deletion undoes the lookahead's edits |
| Pools.RemoveEachConsistent | entitas/pool.go:138-142 | removing from a live entity keeps every group's verdict on it current |
| Pools.WillRemoveEach | entitas/pool.go:128-136 | groups are unchanged; the table only loses entries; a non-live entity keeps its table |
| Pools.WillRemoveEachAgrees | entitas/pool.go:160-166 | on a non-live entity, the events and error are those of the plain `WillRemoveComponent` |
| Pools.WithTableValid | entitas/pool.go:116-142 | a well-typed table change plus membership moves keep the invariant |
| Pools.MoveKeepsConsistent | entitas/pool.go:116-142 | a change confined to one entity keeps every group agreeing with its matcher on every live entity if every group judges that entity correctly |
| Pools.AddComponent | entitas/pool.go:116-120 | the entity ends as the plain `AddComponent` leaves it, with its events; only its memberships move; nothing moves if it is not live |
| Pools.AddComponentValid | entitas/pool.go:116-120 | adding through the context keeps the invariant |
| Pools.AddComponentConsistent | entitas/pool.go:116-120 | adding keeps every group agreeing with its matcher on every live entity, given honest matchers |
| Pools.ReplaceComponent | entitas/pool.go:122-126 | the entity ends as the plain `ReplaceComponent` leaves it; only its memberships move |
| Pools.ReplaceComponentValid | entitas/pool.go:122-126 | replacing through the context keeps the invariant |
| Pools.ReplaceComponentConsistent | entitas/pool.go:122-126 | replacing keeps every group agreeing with its matcher on every live entity, given honest matchers |
| Pools.RemoveComponent | entitas/pool.go:138-142 | the entity ends as the plain `RemoveComponent` leaves it, with its events and error; only its memberships move |
| Pools.RemoveComponentValid | entitas/pool.go:138-142 | removing through the context keeps the invariant |
| Pools.RemoveComponentConsistent | entitas/pool.go:138-142 | removing keeps every group agreeing with its matcher on every live entity, given honest matchers |
| Pools.WillRemoveComponent | entitas/pool.go:128-136 | no group changes, but the entity's table may lose entries for good; a non-live entity is untouched, with the plain events |
| Pools.AppendToCache | entitas/pool.go:40 | (corrected) the listing exists afterwards iff it existed before |
| Pools.AppendToCacheLists | entitas/pool.go:40 | extending a listing of the live entities by a new one lists the live entities afterwards |
| Pools.AppendAsWritten | entitas/pool.go:40 | the new entity ends the listing, and a nil listing becomes just that entity |
| Pools.Admit | entitas/pool.go:39-43 | the entity becomes live and listed, and every group judges it by its components; only its memberships move |
| Pools.AdmitValid | entitas/pool.go:39-43 | admitting a routed entity that is neither live nor free keeps the invariant |
| Pools.AdmitConsistent | entitas/pool.go:39-43 | admitting keeps every group agreeing with its matcher on every live entity |
| Pools.CreateEntity | entitas/pool.go:36-45 | the entity was not live before and is live after, and the count rises by one |
| Pools.CreateEntityPicks | entitas/pool.go:36-37 | the entity is the oldest free one, or a fresh id when the free list is empty |
| Pools.CreateEntityKeys | entitas/pool.go:36-45 | the store gains no id but the new entity's |
| Pools.CreateEntityStore | entitas/pool.go:36-45 | no other stored entity changes |
| Pools.CreateEntityEquips | entitas/pool.go:37-38 | the new entity holds what `AddComponent` gave it, and those Added events are the ones fired |
| Pools.CreateEntityCache | entitas/pool.go:40 | (corrected) the listing is extended while it exists, and stays nil otherwise |
| Pools.CreateEntityValid | entitas/pool.go:36-45 | (corrected) creating keeps the invariant, including the listing clause that line 40 as written breaks (`Pools.NilListingLoses`) |
| Pools.CreateEntityGroups | entitas/pool.go:41-43 | only the new entity's memberships move, and every group judges it by its components |
| Pools.CreateEntityConsistent | entitas/pool.go:36-45 | creating keeps every group agreeing with its matcher on every live entity, whatever the matchers |
| Pools.CreateEntityNotes | entitas/pool.go:38-43 | EntityAdded comes from exactly the groups that accept the new entity; the Added events of line 38 reach no group |
| Pools.CreateEntityLists | entitas/pool.go:40 | with the corrected append, the listing stays a listing of the live entities |
| Pools.DestroyEntity | entitas/pool.go:70-83 | only for the context's own live instance: it leaves the live set, the count drops by one, and it loses its components and callbacks but keeps its sorted array; the listing goes nil; it joins the end of the free list; every group judges it with no components |
| Pools.DestroyEntityValid | entitas/pool.go:70-83 | destroying keeps the invariant |
| Pools.DestroyEntityConsistent | entitas/pool.go:70-83 | destroying keeps every group agreeing with its matcher on every live entity |
| Pools.Survivors | entitas/entity.go:132-136 | the WillBeRemoved pass of `RemoveAllComponents` runs over the entity's own table, which the lookahead edits (entitas/pool.go:128-136); the types it leaves are a well-typed part of the table |
| Pools.SurvivorsShape | entitas/pool.go:128-136 | which types survive depends only on the matchers, not on the memberships |
| Pools.SurvivorsAll | entitas/pool.go:128-136 | when every matcher rejects entities lacking a declared type, every held type survives |
| Pools.StripGroups | entitas/entity.go:138-142 | the Removed pass visits only the surviving types, with the entity's table already empty, so exactly the fan-out groups of surviving types judge the entity with no components; the other groups are untouched |
| Pools.StripEach | entitas/pool.go:86-89 | the same groups, matchers and store keys |
| Pools.StripEachStore | entitas/pool.go:86-89 | each listed entity loses its components and callbacks; the others are untouched |
| Pools.StripEachKeeps | entitas/pool.go:86-89 | an entity that is not listed keeps every membership |
| Pools.StripEachMembers | entitas/pool.go:86-89 | a listed entity ends in exactly the fan-out groups of its surviving types that accept no components, plus its other groups as before |
| Pools.DestroyAllEntities | entitas/pool.go:85-92 | nothing is live, the listing is nil, and the free list and next id are unchanged |
| Pools.DestroyAllStore | entitas/pool.go:85-92 | every live entity loses its components and callbacks; the others are untouched |
| Pools.DestroyAllValid | entitas/pool.go:85-92 | destroying all keeps the invariant |
| Pools.DestroyAllMembers | entitas/pool.go:85-92 | each entity that was live is re-judged with no components by exactly the fan-out groups of the types that survived its WillBeRemoved pass; no other membership changes |
| Pools.DestroyAllKeepsUndeclared | entitas/pool.go:85-92 | a group with no declared types keeps all its members, though none is live any more |
| Pools.DestroyAllDropsDeclared | entitas/pool.go:85-92 | with all-of matchers, every entity that was live leaves every group declaring a type it held |
| Pools.DestroyAllExample | entitas/pool.go:85-92 | a context with one live entity holding type 1 and one group, declaring type 1, that accepts only entities without it |
| Pools.DestroyAllExampleValid | entitas/pool.go:85-92 | the example context is valid, consistent and honest |
| Pools.DestroyAllExampleSurvivors | entitas/pool.go:128-136 | the lookahead deletes type 1 for good, so no type survives the WillBeRemoved pass |
| Pools.DestroyAllSkipsAccepting | entitas/pool.go:70-92 | destroying all leaves the example entity out of a group that accepts its now empty table, while `DestroyEntity` adds it |
| Pools.Seed | entitas/pool.go:99-102 | seeding keeps the cache sound and the matcher |
| Pools.SeedMembers | entitas/pool.go:99-102 | seeding admits exactly the listed entities the matcher accepts |
| Pools.Accepted | entitas/pool.go:99-102 | the listed entities the matcher accepts, without repeats |
| Pools.SeedLists | entitas/pool.go:99-102 | a new group's valid cache lists the accepted entities in the live map's iteration order |
| Pools.RegisterDeps | entitas/pool.go:105-107 | afterwards the fan-out has a list for exactly the old types and the declared ones |
| Pools.RegisterDepsLists | entitas/pool.go:105-107 | each type's fan-out gains the group once per occurrence in the declared types, after its old entries |
| Pools.Group | entitas/pool.go:94-110 | a known hash returns the context unchanged; otherwise one group with the given matcher is added under its hash |
| Pools.GroupSeeds | entitas/pool.go:98-103 | a new group holds exactly the live entities its matcher accepts, in a valid cache |
| Pools.GroupRegisters | entitas/pool.go:105-107 | only a new hash extends the fan-out, by one entry per declared occurrence |
| Pools.GroupValid | entitas/pool.go:94-110 | a group lookup keeps the invariant |
| Pools.GroupConsistent | entitas/pool.go:94-110 | a group lookup keeps every group agreeing with its matcher on every live entity |
| Pools.GroupIdempotent | entitas/pool.go:94-97 | asking again with any matcher of the same hash changes nothing |
| Pools.UndeclaredNeverRouted | example/main.go:35-37 | a matcher with no declared types enters no fan-out list, so no event is routed to it |
| Pools.Entities | entitas/pool.go:47-57 | (corrected) an existing listing is returned as is; otherwise a listing of every live entity once is built and kept |
| Pools.EntitiesValid | entitas/pool.go:47-57 | the corrected listing keeps the invariant |
| Pools.FillAsWritten | entitas/pool.go:49-53 | as written, every live entity is stored at index 0 and the other slots stay nil |
| Pools.FillAsWrittenLoses | entitas/pool.go:47-57 | as written, with two or more live entities the rebuilt listing has one non-nil slot and misses the first entity |
| Pools.NilListingLoses | entitas/pool.go:40 | as written, creating after a destroy, with others live, gives a listing of only the new entity |
| Pools.LookaheadExample | entitas/pool.go:128-136 | a context with two live groups declaring type 1 and one live entity holding it |
| Pools.LookaheadExampleValid | entitas/pool.go:128-136 | the example context is valid and consistent |
| Pools.LookaheadExampleHonest | entitas/pool.go:128-136 | both example matchers are honest |
| Pools.LookaheadExampleEmpties | entitas/pool.go:128-136 | the last group in the fan-out accepts the entity without the type, so the type is deleted for good |
| Pools.LookaheadExampleDeletes | entitas/pool.go:128-136 | `WillRemoveComponent` empties the example entity's table and moves no group |
| Pools.WillRemoveLeavesGroupStale | entitas/pool.go:128-136 | announcing a removal on a valid, consistent, honest context can leave a group holding an entity it rejects |
| Pools.UndeclaredExample | example/main.go:35-47 | a context whose only group has the position matcher (hash 123, no declared types) |
| Pools.UndeclaredMatcherGoesStale | example/main.go:35-47 | adding the matched type to a live entity reaches no group, so the position group misses it |
| Example.NewEntity | example/entity.go:13-17 | a new entity has the given id and no components |
| Example.AddComponent | example/entity.go:19-25 | never errs; keeps the id; the array grows by the number added, is a permutation of the old contents plus the arguments (duplicates kept), is non-decreasing by type, and holds the components of each type in arrival order, old ones first |
| Example.AppendSortStable | example/entity.go:20-23 | sorting the appended array keeps, for each type, the old elements before the new ones, each in their own order |
| Example.AddKeepsArrivalOrder | example/entity.go:19-48 | adding a second component of a held type puts it after the first, so the first sits at index 0, which is where the lookup probes first on a two-element array |
| Example.AddComponentTypes | example/entity.go:19-25 | afterwards a type is present iff it was present before or was among the arguments |
| Example.ID | example/entity.go:27-29 | the id the entity was made with |
| Example.GetComponent | example/entity.go:31-48 | a hit has the requested type; on a sorted array, it misses iff the type is absent |
| Example.AddThenGet | example/entity.go:19-48 | after adding, a lookup finds a type iff it was held or added, and returns a component of that type |

## Code and intent

These are places where the code does something other than what its
interface comments (`entitas/pool.go:7`, `entitas/pool.go:12`,
`entitas/group.go:5`) or the evident purpose of the code lead one to expect.
The model follows the code, except at the two places under Findings, where
the rest of the model uses the corrected definition. Where no line is cited,
the expectation is this model's reading of the code's purpose, not something
the repository states.

- **WillBeRemoved lookahead.** The lookahead (`entitas/pool.go:128-136`)
  evidently asks each group whether it would still match without the type,
  and reads as if the table were to be left as it was. The code puts the
  component back only when a group no longer matches, and the last group in
  the fan-out decides. If that group still matches without the type, the
  component stays deleted.
  - `RemoveComponent` deletes the type anyway, so nothing is lost there
    (`Pools.RemoveEachAgrees`).
  - `WillRemoveComponent` called on its own can delete a component for good.
    `Pools.WillRemoveLeavesGroupStale` builds a valid, consistent context with
    honest matchers in which this leaves a group holding an entity it no
    longer accepts.
- **Matchers without declared types.** A group whose matcher declares no types
  (the position matcher of `example/main.go:35-37`) never hears a component
  event, so it goes stale (`Pools.UndeclaredMatcherGoesStale`). That is why
  the `*Consistent` lemmas for component operations assume honest matchers.
- **Recycled entities keep their sorted array.** `GetEntity` hands out a
  recycled entity as if it were new (`entitas/pool.go:144-158`), but nothing
  resets its sorted array:
  - `DestroyEntity` keeps the array, and so do `RemoveAllComponents` and
    `GetEntity` (`Pools.GetEntityPicks`).
  - So `GetComponent` on a recycled entity with a short array can still
    return old components (`Entities.LookupAfterRemoveAll`).
- **`CreateEntity` and the listing.** The listing is to hold every live entity
  (`entitas/pool.go:7`). `CreateEntity` appends to it even when it is nil,
  so `Entities` returns only the entities created since, and misses the
  survivors until the next `DestroyEntity` sets the listing back to nil
  (`entitas/pool.go:75`) and a rebuild follows (see Findings).
- **`DestroyEntity` and groups that accept no components.** A group is to
  hold the entities that satisfy its matcher (`entitas/pool.go:12`), and
  `HandleEntity` adds or removes by the matcher's verdict
  (`entitas/group.go:5`). `DestroyEntity`'s last pass
  (`entitas/pool.go:76-78`) re-judges the destroyed entity with no
  components, so a group whose matcher accepts an empty entity keeps it, or
  gains it, though it is no longer one of the context's entities
  (`Pools.DestroyEntity`, last clause).
- **`DestroyAllEntities`.** It neither frees ids for reuse nor calls
  `HandleEntity` on every group. Only the Removed events reach groups, and
  only for the types that survive the WillBeRemoved pass: that pass runs over
  the entity's own table (`entitas/entity.go:132`), from which the lookahead
  deletes (`entitas/pool.go:130`). A type whose last fan-out group accepts
  the entity without it stays deleted, fires no Removed event, and its
  groups are not re-judged.
  - `Pools.DestroyAllKeepsUndeclared`: a group with no declared types keeps
    members that are no longer live.
  - `Pools.DestroyAllSkipsAccepting`: a group that accepts the emptied entity
    does not gain it, where `DestroyEntity` on the same context adds it.
  - `Pools.DestroyAllDropsDeclared`: with all-of matchers every held type
    survives, and each entity leaves every group declaring a type it held.

## Findings

| source | as written | input that shows it | evidently intended | confidence | as-written member | corrected member |
|---|---|---|---|---|---|---|
| entitas/pool.go:47-57 | the rebuild loop stores each live entity at index `i`, which is never incremented | a nil listing (after any `DestroyEntity`) with two or more live entities: the result holds one entity and nils | advance `i` so every live entity is listed once | not executed | Pools.FillAsWrittenLoses | Pools.Entities |
| entitas/pool.go:40 | `CreateEntity` appends to the listing even when it is nil, making a one-element listing | `DestroyEntity` of one of two live entities, then `CreateEntity`: the listing names only the new entity, so later `Entities` calls miss the survivor | extend the listing only when it exists and leave nil for a rebuild | not executed | Pools.NilListingLoses | Pools.CreateEntityLists |

The rest of the model uses the corrected `Pools.Entities` and
`Pools.AppendToCache`.

## Left out

- User listeners are not invoked. Every operation returns its events in order; a
  listener that re-enters the engine and mutates it is not modelled. The
  entity's `callback` (`entitas/entity.go:262-268`) becomes the event trace.
- Group callbacks (`Groups.AddCallback` in Go, `entitas/group.go:87-93` and
  `116-122`) are not modelled; groups return their events instead.
- Pools.DestroyEntity: the stripping phase is abstracted. The entity's table
  is emptied and then every group judges it with no components. The
  WillBeRemoved/Removed events that `RemoveAllComponents` fires while the
  entity is still live are not returned. The group moves of those events are
  not modelled either: each is `HandleEntity` with no components, which the
  last pass over every group (`entitas/pool.go:76-78`) repeats, so the final
  groups are the same.
- Pools.DestroyAllEntities: no event trace is returned. The WillBeRemoved
  pass visits each held type once, in a given order (`orders`, one
  enumeration of each entity's types). Go's map iteration may also produce,
  or skip, an entry that the lookahead deleted and re-inserted during the
  iteration (`entitas/pool.go:130-132`); that second visit is not modelled.
- Pools.Route: routes on liveness alone. In Go a component event reaches the
  context's handler only through the entity's callback list
  (`entitas/entity.go:262-268`, `entitas/pool.go:153-156`). The model keeps
  that handler at the head of every live entity's lists (`Pools.Valid`). A
  caller that clears or extends a live entity's callbacks through the public
  `RemoveAllCallbacks` or `AddCallback` (`entitas/entity.go:149-163`) is
  outside the model.
- Pools.WillRemoveComponent: it states which events fire only for an entity
  that is not live. For a live one it states that all are WillBeRemoved
  events about the entity, but not which groups fire them.
- Entities.RemoveAllComponents: assumes listeners that do not mutate the
  entity, so both passes walk the same components.
- `RebuildComponentIndex` prints (`fmt.Printf`), and the `String` methods are
  not modelled. Neither is slice capacity (`*4/3`, reslicing): only the
  resulting length and contents are.
- Pools.NewContext: takes a natural start index. Go converts a negative
  `int` start to the unsigned `EntityID`, which is not modelled.
- `Matcher.Equals`, `ComponentsByType` and the real definitions of
  `Component`, `ComponentType`, `Matcher` and `MatcherHash` are not part of
  this model. They are the records described above, and
  `ComponentsByType`'s order is the ascending type order.
- `DestroyEntity`'s panic on a foreign or dead entity is a precondition
  (`HasEntity`), not an error result.
- The demo program in `example/main.go` (systems, timing, random numbers,
  float positions) is not modelled. Only its position matcher is used, as an
  example.
- SortedArrays.SortByType: a stable insertion sort. Go's `sort.Slice`
  (since Go 1.19) runs a stable insertion sort only on arrays of up to
  twelve elements. On longer arrays, and in older Go releases, it may
  reorder components of the same type. There the model's order among them,
  and so which one `Example.GetComponent` returns for a duplicated type, can
  differ from Go's. Both orders are permutations sorted by type.
- Integer widths: ids are unbounded naturals. 64-bit wrap-around of
  `entityMinID` is not modelled.
