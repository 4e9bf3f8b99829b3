/** The entity of `entitas/entity.go`: a table from component type to
    component, a derived array sorted by type that is refreshed only on
    request, and a registry of listeners per event kind. Listeners are not
    run here: every operation returns the events it fires, in order. */
module Entities {
  import opened Base
  import SortedArrays

  datatype EventKind = ComponentAdded | ComponentReplaced | ComponentWillBeRemoved | ComponentRemoved

  /** One firing of an event with the component it carries. */
  datatype ComponentEvent = Fired(kind: EventKind, c: Component)

  /** A registered callback: the context's own router or a user listener. */
  datatype Listener = PoolRouter | UserListener(token: nat)

  datatype Entity = Entity(
    id: EntityID,
    sorted: seq<Component>,
    table: map<ComponentType, Component>,
    callbacks: map<EventKind, seq<Listener>>)

  /** The entity after an operation, the events it fired, and its error. */
  datatype Outcome = Outcome(entity: Entity, events: seq<ComponentEvent>, err: Option<Error>)

  /** Every key holds a component of that type, so there is at most one
      component per type. */
  predicate WellTyped(table: map<ComponentType, Component>)
  {
    forall t :: t in table ==> table[t].ctype == t
  }

  /** The sorted array is current: strictly ascending by type and holding
      exactly the components of the table. */
  predicate IndexCurrent(e: Entity)
  {
    && WellTyped(e.table)
    && AscendingByType(e.sorted)
    && (forall i :: 0 <= i < |e.sorted| ==> e.sorted[i].ctype in e.table && e.table[e.sorted[i].ctype] == e.sorted[i])
    && (forall t :: t in e.table ==> e.table[t] in e.sorted)
  }

  function TypesOf(cs: seq<Component>): set<ComponentType>
  {
    set i | 0 <= i < |cs| :: cs[i].ctype
  }

  /** Some component before position `i` has the type of `cs[i]`. */
  predicate SeenBefore(cs: seq<Component>, i: int)
    requires 0 <= i < |cs|
  {
    exists j :: 0 <= j < i && cs[j].ctype == cs[i].ctype
  }

  /** No component after position `i` has the type of `cs[i]`. */
  predicate LastOfType(cs: seq<Component>, i: int)
    requires 0 <= i < |cs|
  {
    forall j :: i < j < |cs| ==> cs[j].ctype != cs[i].ctype
  }

  function NewEntity(id: EntityID): (e: Entity)
    ensures ID(e) == id && |e.table| == 0 && !HasCallbacks(e) && IndexCurrent(e)
  {
    Entity(id, [], map[], map[])
  }

  /** The id the entity was made with; `IdFixed` shows no operation
      changes it. */
  function ID(e: Entity): (r: EntityID)
    ensures r == e.id
  {
    e.id
  }

  /** No entity operation changes the id. */
  lemma IdFixed(e: Entity, cs: seq<Component>, ts: seq<ComponentType>, ev: EventKind, cb: Listener)
    requires WellTyped(e.table)
    ensures ID(AddComponent(e, cs).entity) == ID(e) && ID(ReplaceComponent(e, cs).entity) == ID(e)
    ensures ID(WillRemoveComponent(e, ts).entity) == ID(e) && ID(RemoveComponent(e, ts).entity) == ID(e)
    ensures ID(AddCallback(e, ev, cb)) == ID(e) && ID(RemoveAllCallbacks(e)) == ID(e)
  {
  }

  /** Inserts each component in turn; stops at the first whose type is
      already held, leaving the earlier insertions in place. Each insertion
      fires one Added event; `AddComponentKeys` and `AddComponentValues`
      state what the table holds. */
  function AddComponent(e: Entity, cs: seq<Component>): (r: Outcome)
    requires WellTyped(e.table)
    ensures WellTyped(r.entity.table)
    ensures r.entity == e.(table := r.entity.table)
    ensures |r.events| <= |cs|
    ensures forall i :: 0 <= i < |r.events| ==> r.events[i] == Fired(ComponentAdded, cs[i])
    ensures r.err.None? <==> |r.events| == |cs|
    ensures r.err.Some? ==> r.err.value == ErrComponentExists
    decreases |cs|
  {
    if cs == [] then Outcome(e, [], None)
    else if cs[0].ctype in e.table then Outcome(e, [], Some(ErrComponentExists))
    else
      var rest := AddComponent(e.(table := e.table[cs[0].ctype := cs[0]]), cs[1..]);
      var r := Outcome(rest.entity, [Fired(ComponentAdded, cs[0])] + rest.events, rest.err);
      assert forall i :: 1 <= i < |r.events| ==> r.events[i] == rest.events[i - 1] && cs[i] == cs[1..][i - 1];
      r
  }

  /** The types `AddComponent` leaves in the table: the old ones and those
      it fired Added for; on error, the component it stopped at has a type
      that is already held. */
  lemma {:induction false} AddComponentKeys(e: Entity, cs: seq<Component>)
    requires WellTyped(e.table)
    ensures var r := AddComponent(e, cs);
      && r.entity.table.Keys == e.table.Keys + TypesOf(cs[..|r.events|])
      && (r.err.Some? ==> cs[|r.events|].ctype in r.entity.table)
    decreases |cs|
  {
    if cs != [] && cs[0].ctype !in e.table {
      var e' := e.(table := e.table[cs[0].ctype := cs[0]]);
      var rest := AddComponent(e', cs[1..]);
      AddComponentKeys(e', cs[1..]);
      var n := |rest.events|;
      TypesOfCons(cs[..n + 1]);
      assert cs[..n + 1][1..] == cs[1..][..n];
      assert rest.err.Some? ==> cs[n + 1] == cs[1..][n];
    }
  }

  /** The values `AddComponent` leaves in the table: old entries untouched,
      and every component it fired Added for stored under its own type,
      which was not held before and is not repeated among them. */
  lemma {:induction false} AddComponentValues(e: Entity, cs: seq<Component>)
    requires WellTyped(e.table)
    ensures var r := AddComponent(e, cs);
      && (forall t :: t in e.table ==> t in r.entity.table && r.entity.table[t] == e.table[t])
      && (forall i :: 0 <= i < |r.events| ==> cs[i].ctype !in e.table && cs[i].ctype in r.entity.table && r.entity.table[cs[i].ctype] == cs[i])
      && (forall i, j :: 0 <= i < j < |r.events| ==> cs[i].ctype != cs[j].ctype)
    decreases |cs|
  {
    if cs != [] && cs[0].ctype !in e.table {
      var e' := e.(table := e.table[cs[0].ctype := cs[0]]);
      var rest := AddComponent(e', cs[1..]);
      AddComponentValues(e', cs[1..]);
      assert forall i :: 1 <= i < |rest.events| + 1 ==> cs[i] == cs[1..][i - 1];
    }
  }

  lemma TypesOfCons(cs: seq<Component>)
    requires |cs| > 0
    ensures TypesOf(cs) == {cs[0].ctype} + TypesOf(cs[1..])
  {
    var tail := cs[1..];
    forall t | t in TypesOf(cs)
      ensures t in {cs[0].ctype} + TypesOf(tail)
    {
      var i :| 0 <= i < |cs| && cs[i].ctype == t;
      if i > 0 { assert tail[i - 1].ctype == t; }
    }
    forall t | t in TypesOf(tail)
      ensures t in TypesOf(cs)
    {
      var i :| 0 <= i < |tail| && tail[i].ctype == t;
      assert cs[i + 1].ctype == t;
    }
  }

  /** Stores each component under its type whatever was there; fires
      Replaced when the type was held at that moment and Added otherwise. */
  function ReplaceComponent(e: Entity, cs: seq<Component>): (r: Outcome)
    requires WellTyped(e.table)
    ensures WellTyped(r.entity.table)
    ensures r.entity == e.(table := r.entity.table)
    ensures r.err.None? && |r.events| == |cs|
    ensures forall i :: 0 <= i < |cs| ==> r.events[i].c == cs[i]
    decreases |cs|
  {
    if cs == [] then Outcome(e, [], None)
    else
      var c := cs[0];
      var kind := if c.ctype in e.table then ComponentReplaced else ComponentAdded;
      var rest := ReplaceComponent(e.(table := e.table[c.ctype := c]), cs[1..]);
      Outcome(rest.entity, [Fired(kind, c)] + rest.events, None)
  }

  /** Which event `ReplaceComponent` fires for each component: Replaced when
      its type was in the table or came earlier in the list, Added otherwise. */
  lemma {:induction false} ReplaceComponentKinds(e: Entity, cs: seq<Component>)
    requires WellTyped(e.table)
    ensures var r := ReplaceComponent(e, cs);
      forall i :: 0 <= i < |cs| ==>
        r.events[i].kind == (if cs[i].ctype in e.table || SeenBefore(cs, i) then ComponentReplaced else ComponentAdded)
    decreases |cs|
  {
    if cs != [] {
      var e' := e.(table := e.table[cs[0].ctype := cs[0]]);
      ReplaceComponentKinds(e', cs[1..]);
      ReplaceShift(e.table, cs);
      var r := ReplaceComponent(e, cs);
      var rest := ReplaceComponent(e', cs[1..]);
      assert forall i :: 1 <= i < |cs| ==> r.events[i] == rest.events[i - 1] && cs[1..][i - 1] == cs[i];
    }
  }

  /** What `ReplaceComponent` leaves in the table: the old types and the
      listed ones; each listed type holds the last component of that type;
      the types not listed keep their old component. */
  lemma {:induction false} ReplaceComponentTable(e: Entity, cs: seq<Component>)
    requires WellTyped(e.table)
    ensures var r := ReplaceComponent(e, cs);
      && r.entity.table.Keys == e.table.Keys + TypesOf(cs)
      && (forall i :: 0 <= i < |cs| && LastOfType(cs, i) ==> r.entity.table[cs[i].ctype] == cs[i])
      && (forall t :: t in e.table && t !in TypesOf(cs) ==> r.entity.table[t] == e.table[t])
    decreases |cs|
  {
    if cs != [] {
      var e' := e.(table := e.table[cs[0].ctype := cs[0]]);
      ReplaceComponentTable(e', cs[1..]);
      ReplaceShift(e.table, cs);
      var r := ReplaceComponent(e, cs);
      var rest := ReplaceComponent(e', cs[1..]);
      assert r.entity == rest.entity;
      forall i | 0 <= i < |cs| && LastOfType(cs, i)
        ensures r.entity.table[cs[i].ctype] == cs[i]
      {
        if i > 0 {
          assert cs[1..][i - 1] == cs[i];
        } else {
          assert cs[0].ctype !in TypesOf(cs[1..]);
        }
      }
    }
  }

  /** The step of `ReplaceComponent` that moves its promises from the tail
      `cs[1..]`, run on the table that already holds `cs[0]`, to all of `cs`. */
  lemma ReplaceShift(table: map<ComponentType, Base.Component>, cs: seq<Base.Component>)
    requires |cs| > 0
    ensures forall i :: 1 <= i < |cs| ==>
              ((cs[i].ctype in table[cs[0].ctype := cs[0]] || SeenBefore(cs[1..], i - 1))
               <==> (cs[i].ctype in table || SeenBefore(cs, i)))
    ensures TypesOf(cs) == {cs[0].ctype} + TypesOf(cs[1..])
    ensures forall i :: 1 <= i < |cs| && LastOfType(cs, i) ==> LastOfType(cs[1..], i - 1)
  {
    var tail := cs[1..];
    forall i | 1 <= i < |cs|
      ensures (cs[i].ctype in table[cs[0].ctype := cs[0]] || SeenBefore(tail, i - 1))
              <==> (cs[i].ctype in table || SeenBefore(cs, i))
    {
      assert tail[i - 1] == cs[i];
      if SeenBefore(tail, i - 1) {
        var j :| 0 <= j < i - 1 && tail[j].ctype == tail[i - 1].ctype;
        assert cs[j + 1].ctype == cs[i].ctype;
      }
      if SeenBefore(cs, i) && cs[i].ctype != cs[0].ctype {
        var j :| 0 <= j < i && cs[j].ctype == cs[i].ctype;
        assert j > 0 && tail[j - 1].ctype == tail[i - 1].ctype;
      }
      if cs[i].ctype == cs[0].ctype {
        assert SeenBefore(cs, i);
      }
    }
    TypesOfCons(cs);
    forall i | 1 <= i < |cs| && LastOfType(cs, i)
      ensures LastOfType(tail, i - 1)
    {
      forall j | i - 1 < j < |tail|
        ensures tail[j].ctype != tail[i - 1].ctype
      {
        assert tail[j] == cs[j + 1];
      }
    }
  }

  /** Fires WillBeRemoved for each requested component without touching the
      table; stops with an error at the first type that is not held. */
  function WillRemoveComponent(e: Entity, ts: seq<ComponentType>): (r: Outcome)
    ensures r.entity == e
    ensures |r.events| <= |ts|
    ensures forall i :: 0 <= i < |r.events| ==> ts[i] in e.table && r.events[i] == Fired(ComponentWillBeRemoved, e.table[ts[i]])
    ensures r.err.None? <==> |r.events| == |ts|
    ensures r.err.Some? ==> r.err.value == ErrComponentDoesNotExist && ts[|r.events|] !in e.table
  {
    if ts == [] then Outcome(e, [], None)
    else if ts[0] !in e.table then Outcome(e, [], Some(ErrComponentDoesNotExist))
    else
      var rest := WillRemoveComponent(e, ts[1..]);
      Outcome(e, [Fired(ComponentWillBeRemoved, e.table[ts[0]])] + rest.events, rest.err)
  }

  /** For each type in turn: fires WillBeRemoved with the held component,
      deletes it, then fires Removed with that same component; stops with an
      error at the first type that is not held (by then). The events are
      stated by `RemoveComponentEvents`, the table by `RemoveComponentTable`. */
  function RemoveComponent(e: Entity, ts: seq<ComponentType>): (r: Outcome)
    requires WellTyped(e.table)
    ensures WellTyped(r.entity.table)
    ensures r.entity == e.(table := r.entity.table)
    ensures |r.events| % 2 == 0 && |r.events| / 2 <= |ts|
    ensures r.err.None? <==> |r.events| / 2 == |ts|
    ensures r.err.Some? ==> r.err.value == ErrComponentDoesNotExist
    decreases |ts|
  {
    if ts == [] then Outcome(e, [], None)
    else if ts[0] !in e.table then Outcome(e, [], Some(ErrComponentDoesNotExist))
    else
      var c := e.table[ts[0]];
      var rest := RemoveComponent(e.(table := e.table - {ts[0]}), ts[1..]);
      Outcome(rest.entity, [Fired(ComponentWillBeRemoved, c), Fired(ComponentRemoved, c)] + rest.events, rest.err)
  }

  /** `RemoveComponent` fires, for each removed type in order, WillBeRemoved
      and then Removed, both carrying the component the table held. */
  lemma {:induction false} RemoveComponentEvents(e: Entity, ts: seq<ComponentType>)
    requires WellTyped(e.table)
    ensures var r := RemoveComponent(e, ts);
      forall i :: 0 <= i < |r.events| / 2 ==>
        && ts[i] in e.table
        && r.events[2 * i] == Fired(ComponentWillBeRemoved, e.table[ts[i]])
        && r.events[2 * i + 1] == Fired(ComponentRemoved, e.table[ts[i]])
    decreases |ts|
  {
    if ts != [] && ts[0] in e.table {
      var e' := e.(table := e.table - {ts[0]});
      var rest := RemoveComponent(e', ts[1..]);
      RemoveComponentEvents(e', ts[1..]);
      var r := RemoveComponent(e, ts);
      assert |r.events| / 2 == |rest.events| / 2 + 1;
      forall i | 1 <= i < |r.events| / 2
        ensures ts[i] in e.table
        ensures r.events[2 * i] == Fired(ComponentWillBeRemoved, e.table[ts[i]])
        ensures r.events[2 * i + 1] == Fired(ComponentRemoved, e.table[ts[i]])
      {
        assert ts[i] == ts[1..][i - 1];
        assert r.events[2 * i] == rest.events[2 * (i - 1)];
        assert r.events[2 * i + 1] == rest.events[2 * (i - 1) + 1];
      }
    }
  }

  /** The types `RemoveComponent` fires for are distinct. */
  lemma {:induction false} RemoveComponentDistinct(e: Entity, ts: seq<ComponentType>)
    requires WellTyped(e.table)
    ensures Distinct(ts[..|RemoveComponent(e, ts).events| / 2])
    decreases |ts|
  {
    if ts != [] && ts[0] in e.table {
      var e' := e.(table := e.table - {ts[0]});
      var rest := RemoveComponent(e', ts[1..]);
      RemoveComponentDistinct(e', ts[1..]);
      RemoveComponentEvents(e', ts[1..]);
      var n := |rest.events| / 2;
      assert forall i :: 0 <= i < n ==> ts[1..][i] in e'.table;
      assert |RemoveComponent(e, ts).events| / 2 == n + 1;
      assert ts[..n + 1] == [ts[0]] + ts[1..][..n];
    }
  }

  /** `RemoveComponent` deletes exactly the types it fired for and touches
      no other type; on error, the type it stopped at is not held. */
  lemma {:induction false} RemoveComponentTable(e: Entity, ts: seq<ComponentType>)
    requires WellTyped(e.table)
    ensures var r := RemoveComponent(e, ts);
      && r.entity.table == e.table - Elements(ts[..|r.events| / 2])
      && (r.err.Some? ==> ts[|r.events| / 2] !in r.entity.table)
    decreases |ts|
  {
    if ts != [] && ts[0] in e.table {
      var e' := e.(table := e.table - {ts[0]});
      var rest := RemoveComponent(e', ts[1..]);
      RemoveComponentTable(e', ts[1..]);
      var n := |rest.events| / 2;
      assert |RemoveComponent(e, ts).events| / 2 == n + 1;
      assert ts[..n + 1] == [ts[0]] + ts[1..][..n];
      assert Elements(ts[..n + 1]) == {ts[0]} + Elements(ts[1..][..n]);
      assert e'.table - Elements(ts[1..][..n]) == e.table - Elements(ts[..n + 1]);
    }
  }

  /** The types of `cs`, in order. */
  function TypeList(cs: seq<Component>): (ts: seq<ComponentType>)
    ensures |ts| == |cs| && forall i :: 0 <= i < |cs| ==> ts[i] == cs[i].ctype
  {
    seq(|cs|, i requires 0 <= i < |cs| => cs[i].ctype)
  }

  /** Removing distinct types that are all held never stops with an error. */
  lemma {:induction false} RemoveHeld(e: Entity, ts: seq<ComponentType>)
    requires WellTyped(e.table) && Distinct(ts)
    requires forall i :: 0 <= i < |ts| ==> ts[i] in e.table
    ensures RemoveComponent(e, ts).err.None?
    decreases |ts|
  {
    if ts != [] {
      var e' := e.(table := e.table - {ts[0]});
      assert forall i :: 0 <= i < |ts| - 1 ==> ts[1..][i] == ts[i + 1] && ts[i + 1] != ts[0];
      RemoveHeld(e', ts[1..]);
    }
  }

  /** Round trip: when `AddComponent` succeeds, removing the types it added
      gives back the entity it started from, without error. */
  lemma AddRemoveRoundTrip(e: Entity, cs: seq<Component>)
    requires WellTyped(e.table) && AddComponent(e, cs).err.None?
    ensures var a := AddComponent(e, cs).entity;
      && RemoveComponent(a, TypeList(cs)).err.None?
      && RemoveComponent(a, TypeList(cs)).entity == e
  {
    var a := AddComponent(e, cs).entity;
    var ts := TypeList(cs);
    AddedTypes(e, cs);
    RemoveHeld(a, ts);
    RemoveComponentTable(a, ts);
    assert ts[..|ts|] == ts;
    WithoutAdded(e.table, a.table, Elements(ts));
  }

  /** What a successful `AddComponent` says about the types of `cs`: they
      are distinct, held afterwards, new, and exactly the added keys. */
  lemma AddedTypes(e: Entity, cs: seq<Component>)
    requires WellTyped(e.table) && AddComponent(e, cs).err.None?
    ensures var a := AddComponent(e, cs).entity; var ts := TypeList(cs);
      && Distinct(ts)
      && (forall i :: 0 <= i < |ts| ==> ts[i] in a.table && ts[i] !in e.table)
      && a.table.Keys == e.table.Keys + Elements(ts)
      && (forall t :: t in e.table ==> a.table[t] == e.table[t])
  {
    var ts := TypeList(cs);
    var r := AddComponent(e, cs);
    AddComponentKeys(e, cs);
    AddComponentValues(e, cs);
    assert |r.events| == |cs| && cs[..|cs|] == cs;
    TypesOfList(cs);
  }

  /** The types of `cs` as a set are the elements of its type list. */
  lemma TypesOfList(cs: seq<Component>)
    ensures TypesOf(cs) == Elements(TypeList(cs))
  {
    var ts := TypeList(cs);
    forall t | t in TypesOf(cs) ensures t in Elements(ts) {
      var i :| 0 <= i < |cs| && cs[i].ctype == t;
      assert ts[i] == t;
    }
  }

  /** Taking the new keys back out of an extended map restores it. */
  lemma WithoutAdded(before: map<ComponentType, Component>, after: map<ComponentType, Component>, added: set<ComponentType>)
    requires after.Keys == before.Keys + added
    requires forall t :: t in added ==> t !in before
    requires forall t :: t in before ==> after[t] == before[t]
    ensures after - added == before
  {
    var m := after - added;
    forall t ensures t in m <==> t in before {
      assert t in m <==> t in after && t !in added;
    }
    assert m.Keys == before.Keys;
    assert forall t :: t in m ==> m[t] == before[t];
  }

  /** Go's `RemoveAllComponents` with listeners that do not mutate the
      entity: a WillBeRemoved pass over every held component in the map's
      iteration order `first`, then the table is cleared, then a Removed pass
      over the same components in the iteration order `second`. */
  method RemoveAllComponents(e: Entity, first: seq<ComponentType>, second: seq<ComponentType>) returns (r: Outcome)
    requires WellTyped(e.table)
    requires IsEnumeration(first, e.table.Keys) && IsEnumeration(second, e.table.Keys)
    ensures r.entity == e.(table := map[]) && r.err.None?
    ensures |r.events| == 2 * |e.table|
    ensures CoversOnce(r.events[..|e.table|], ComponentWillBeRemoved, e.table)
    ensures CoversOnce(r.events[|e.table|..], ComponentRemoved, e.table)
  {
    var willBeRemoved := FireEach(e.table, first, ComponentWillBeRemoved);
    var removed := FireEach(e.table, second, ComponentRemoved);
    r := Outcome(e.(table := map[]), willBeRemoved + removed, None);
    assert r.events[..|e.table|] == willBeRemoved;
    assert r.events[|e.table|..] == removed;
  }

  /** `evs` fires `kind` once for each component of `table` and nothing else. */
  predicate CoversOnce(evs: seq<ComponentEvent>, kind: EventKind, table: map<ComponentType, Component>)
  {
    && |evs| == |table|
    && (forall i :: 0 <= i < |evs| ==> evs[i].kind == kind && evs[i].c.ctype in table && table[evs[i].c.ctype] == evs[i].c)
    && (forall i, j :: 0 <= i < j < |evs| ==> evs[i].c.ctype != evs[j].c.ctype)
    && (forall t :: t in table ==> Fired(kind, table[t]) in evs)
  }

  /** One pass of `for _, c := range components { e.callback(kind, c) }`
      in the iteration order `order`. */
  method FireEach(table: map<ComponentType, Component>, order: seq<ComponentType>, kind: EventKind) returns (evs: seq<ComponentEvent>)
    requires WellTyped(table)
    requires IsEnumeration(order, table.Keys)
    ensures CoversOnce(evs, kind, table)
  {
    EnumerationLength(order, table.Keys);
    assert |table| == |table.Keys|;
    evs := [];
    var i := 0;
    while i < |order|
      invariant 0 <= i <= |order| && |evs| == i
      invariant forall k :: 0 <= k < i ==> order[k] in table && evs[k] == Fired(kind, table[order[k]])
      invariant forall k :: 0 <= k < i ==> evs[k].c.ctype == order[k]
    {
      evs := evs + [Fired(kind, table[order[i]])];
      i := i + 1;
    }
    forall t | t in table
      ensures Fired(kind, table[t]) in evs
    {
      var k :| 0 <= k < |order| && order[k] == t;
      assert evs[k] == Fired(kind, table[t]);
    }
  }

  function AddCallback(e: Entity, ev: EventKind, cb: Listener): (r: Entity)
    ensures r == e.(callbacks := r.callbacks)
    ensures HasCallbacks(r)
    ensures ev in r.callbacks && |r.callbacks[ev]| > 0 && r.callbacks[ev][|r.callbacks[ev]| - 1] == cb
    ensures ev in e.callbacks ==> r.callbacks[ev][..|r.callbacks[ev]| - 1] == e.callbacks[ev]
    ensures ev !in e.callbacks ==> r.callbacks[ev] == [cb]
    ensures forall k :: k != ev ==> (k in r.callbacks <==> k in e.callbacks)
    ensures forall k :: k != ev && k in e.callbacks ==> r.callbacks[k] == e.callbacks[k]
  {
    var cbs := if ev in e.callbacks then e.callbacks[ev] else [];
    e.(callbacks := e.callbacks[ev := cbs + [cb]])
  }

  /** Some event kind has a listener list (possibly empty, as Go's map
      entry may be). */
  function HasCallbacks(e: Entity): (r: bool)
    ensures r <==> exists ev :: ev in e.callbacks
  {
    NonEmptyHasKey(e.callbacks);
    |e.callbacks| > 0
  }

  lemma NonEmptyHasKey(m: map<EventKind, seq<Listener>>)
    ensures |m| > 0 <==> exists k :: k in m
  {
    if |m| > 0 {
      assert |m.Keys| > 0;
      var k :| k in m.Keys;
    }
  }

  function RemoveAllCallbacks(e: Entity): (r: Entity)
    ensures r == e.(callbacks := r.callbacks) && !HasCallbacks(r)
  {
    e.(callbacks := map[])
  }

  /** True iff every listed type is held; true for no types at all. */
  function HasComponent(e: Entity, ts: seq<ComponentType>): (r: bool)
    ensures r <==> forall i :: 0 <= i < |ts| ==> ts[i] in e.table
  {
    if ts == [] then true
    else if ts[0] !in e.table then false
    else
      var rest := HasComponent(e, ts[1..]);
      assert forall i :: 1 <= i < |ts| ==> ts[i] == ts[1..][i - 1];
      rest
  }

  /** True iff some listed type is held; false for no types at all. */
  function HasAnyComponent(e: Entity, ts: seq<ComponentType>): (r: bool)
    ensures r <==> exists i :: 0 <= i < |ts| && ts[i] in e.table
  {
    if ts == [] then false
    else if ts[0] in e.table then true
    else
      var rest := HasAnyComponent(e, ts[1..]);
      assert forall i :: 1 <= i < |ts| ==> ts[i] == ts[1..][i - 1];
      rest
  }

  /** The component held for `t`, or `ErrComponentDoesNotExist`. */
  function Component(e: Entity, t: ComponentType): (r: Result<Base.Component>)
    requires WellTyped(e.table)
    ensures r.Err? <==> !HasComponent(e, [t])
    ensures r.Err? ==> r.error == ErrComponentDoesNotExist
    ensures r.Ok? ==> r.value.ctype == t && r.value in e.table.Values
  {
    if t in e.table then Ok(e.table[t]) else Err(ErrComponentDoesNotExist)
  }

  /** The component held for `t`, or nil. */
  function DictGetComponent(e: Entity, t: ComponentType): (r: Option<Base.Component>)
    requires WellTyped(e.table)
    ensures r.None? <==> !HasComponent(e, [t])
    ensures r.Some? ==> r.value.ctype == t && r.value in e.table.Values
    ensures r.Some? <==> Component(e, t).Ok?
    ensures r.Some? ==> r.value == Component(e, t).value
  {
    if t in e.table then Some(e.table[t]) else None
  }

  /** Binary search of the sorted array as it stands, current or stale. */
  method BinarySearchComponent(e: Entity, t: ComponentType) returns (r: Option<Base.Component>)
    ensures r.Some? ==> r.value in e.sorted && r.value.ctype == t
    ensures NondecreasingByType(e.sorted) ==> (r.Some? <==> exists i :: 0 <= i < |e.sorted| && e.sorted[i].ctype == t)
    ensures IndexCurrent(e) ==> r == DictGetComponent(e, t)
  {
    r := SortedArrays.BinarySearch(e.sorted, t);
    if IndexCurrent(e) {
      if t in e.table {
        assert e.table[t] in e.sorted;
      }
    }
  }

  /** Linear search of the sorted array as it stands, current or stale. */
  method LinearSearchComponent(e: Entity, t: ComponentType) returns (r: Option<Base.Component>)
    ensures r.Some? ==> r.value in e.sorted && r.value.ctype == t
    ensures r.Some? <==> exists i :: 0 <= i < |e.sorted| && e.sorted[i].ctype == t
    ensures IndexCurrent(e) ==> r == DictGetComponent(e, t)
  {
    r := SortedArrays.LinearSearch(e.sorted, t);
    if IndexCurrent(e) {
      if t in e.table {
        assert e.table[t] in e.sorted;
      }
    }
  }

  /** Searches the sorted array when it has fewer than 64 elements (even if
      it is stale or was never built), and the table otherwise. */
  method GetComponent(e: Entity, t: ComponentType) returns (r: Option<Base.Component>)
    requires WellTyped(e.table)
    ensures |e.sorted| >= 64 ==> r == DictGetComponent(e, t)
    ensures |e.sorted| < 64 ==> r.Some? ==> r.value in e.sorted && r.value.ctype == t
    ensures |e.sorted| < 64 && NondecreasingByType(e.sorted) ==>
              (r.Some? <==> exists i :: 0 <= i < |e.sorted| && e.sorted[i].ctype == t)
    ensures IndexCurrent(e) ==> r == DictGetComponent(e, t)
  {
    if |e.sorted| < 64 {
      r := BinarySearchComponent(e, t);
    } else {
      r := DictGetComponent(e, t);
    }
  }

  /** The sorted array is not cleared with the table: after
      `RemoveAllComponents` on an entity whose array was current and short,
      `GetComponent` still returns every component the entity held. */
  method LookupAfterRemoveAll(e: Entity, first: seq<ComponentType>, second: seq<ComponentType>, t: ComponentType)
    returns (emptied: Entity, found: Option<Base.Component>)
    requires IndexCurrent(e) && |e.sorted| < 64 && t in e.table
    requires IsEnumeration(first, e.table.Keys) && IsEnumeration(second, e.table.Keys)
    ensures emptied.table == map[] && emptied.sorted == e.sorted
    ensures found == Some(e.table[t])
  {
    var r := RemoveAllComponents(e, first, second);
    emptied := r.entity;
    assert e.table[t] in e.sorted;
    found := GetComponent(emptied, t);
    assert NondecreasingByType(emptied.sorted);
    var k :| 0 <= k < |e.sorted| && e.sorted[k] == e.table[t];
    assert emptied.sorted[k].ctype == t;
    ghost var i :| 0 <= i < |e.sorted| && e.sorted[i] == found.value;
    assert e.sorted[i].ctype == e.sorted[k].ctype;
  }

  /** `s` is strictly sorted by type and holds exactly the components that
      `table` holds for the types in `seen`. */
  predicate SortedSelection(table: map<ComponentType, Base.Component>, s: seq<Base.Component>, seen: set<ComponentType>)
  {
    && AscendingByType(s)
    && (forall k :: 0 <= k < |s| ==> s[k].ctype in seen && s[k].ctype in table && table[s[k].ctype] == s[k])
    && (forall u :: u in seen ==> u in table && table[u] in s)
  }

  /** One step of `SortedValues`: inserting the component of a type not yet
      seen extends the selection by that type. */
  lemma InsertSelection(table: map<ComponentType, Base.Component>, s: seq<Base.Component>, seen: set<ComponentType>, t: ComponentType)
    requires WellTyped(table) && SortedSelection(table, s, seen)
    requires t in table && t !in seen
    ensures SortedSelection(table, SortedArrays.InsertByType(s, table[t]), seen + {t})
  {
    var s' := SortedArrays.InsertByType(s, table[t]);
    SortedArrays.InsertKeepsStrictOrder(s, table[t]);
    forall k | 0 <= k < |s'|
      ensures s'[k] in s || s'[k] == table[t]
    {
      SortedArrays.InsertElements(s, table[t], k);
    }
    forall u | u in seen + {t}
      ensures table[u] in s'
    {
      assert table[u] in multiset(s');
    }
  }

  /** The held components in strictly ascending type order, one per type:
      the map is walked in the iteration order `order` and each value is
      inserted in place. */
  method SortedValues(table: map<ComponentType, Base.Component>, order: seq<ComponentType>) returns (s: seq<Base.Component>)
    requires WellTyped(table)
    requires IsEnumeration(order, table.Keys)
    ensures |s| == |table|
    ensures AscendingByType(s)
    ensures forall i :: 0 <= i < |s| ==> s[i].ctype in table && table[s[i].ctype] == s[i]
    ensures forall t :: t in table ==> table[t] in s
  {
    EnumerationLength(order, table.Keys);
    assert |table| == |table.Keys|;
    s := [];
    var i := 0;
    ghost var seen: set<ComponentType> := {};
    while i < |order|
      invariant 0 <= i <= |order| && |s| == i
      invariant seen == set j | 0 <= j < i :: order[j]
      invariant SortedSelection(table, s, seen)
    {
      var t := order[i];
      InsertSelection(table, s, seen, t);
      s := SortedArrays.InsertByType(s, table[t]);
      seen := seen + {t};
      i := i + 1;
    }
    assert seen == table.Keys;
  }

  /** Rebuilds the sorted array from the table; nothing else changes. */
  method RebuildComponentIndex(e: Entity, order: seq<ComponentType>) returns (r: Entity)
    requires WellTyped(e.table)
    requires IsEnumeration(order, e.table.Keys)
    ensures r == e.(sorted := r.sorted)
    ensures IndexCurrent(r) && |r.sorted| == |r.table|
  {
    var s := SortedValues(e.table, order);
    r := e.(sorted := s);
  }

  /** A freshly built sequence of the held components in ascending type order. */
  method Components(e: Entity, order: seq<ComponentType>) returns (s: seq<Base.Component>)
    requires WellTyped(e.table)
    requires IsEnumeration(order, e.table.Keys)
    ensures |s| == |e.table| && AscendingByType(s)
    ensures forall i :: 0 <= i < |s| ==> s[i].ctype in e.table && e.table[s[i].ctype] == s[i]
    ensures forall t :: t in e.table ==> e.table[t] in s
  {
    s := SortedValues(e.table, order);
  }

  /** The held types, once each, in the map's iteration order `order`. */
  method ComponentIndices(e: Entity, order: seq<ComponentType>) returns (ts: seq<ComponentType>)
    requires IsEnumeration(order, e.table.Keys)
    ensures IsEnumeration(ts, e.table.Keys) && |ts| == |e.table|
  {
    EnumerationLength(order, e.table.Keys);
    ts := [];
    var i := 0;
    while i < |order|
      invariant 0 <= i <= |order| && ts == order[..i]
    {
      ts := ts + [order[i]];
      i := i + 1;
    }
    assert ts == order;
  }
}
