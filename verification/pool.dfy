/** The context (pool) of `entitas/pool.go`: it creates and recycles
    entities, owns the groups (one per matcher hash) and the fan-out index
    from component type to the groups whose matcher declares that type, and
    routes each component event of a live entity to those groups.

    Go entities are pointers. The model keeps every entity instance this
    context ever created in `store`, keyed by its id (a context never makes
    two instances with one id); `live` is the key set of Go's `entities`
    map. A group is referred to by the hash it is registered under. */
module Pools {
  import opened Base
  import E = Entities
  import G = Groups

  /** An entity reference handed to the context: one of its own instances,
      or any other instance (another context's, or one built directly) that
      happens to carry the id. */
  datatype Handle = Own(id: EntityID) | Foreign(id: EntityID)

  datatype Pool = Pool(
    nextId: nat,                                  // entityMinID
    store: map<EntityID, E.Entity>,               // the instances this context created
    live: set<EntityID>,                          // keys of `entities`
    cache: Option<seq<EntityID>>,                 // the listing `Entities` returns; None is nil
    groups: map<MatcherHash, G.Group>,            // matcher2group
    fanout: map<ComponentType, seq<MatcherHash>>, // com2groups
    unused: seq<EntityID>)                        // free list, oldest first

  /** A group event tagged with the group that fired it. */
  datatype GroupNote = GroupNote(group: MatcherHash, ev: G.GroupEvent)

  /** Groups after a pass over some of them, and the events they fired. */
  datatype Fanned = Fanned(groups: map<MatcherHash, G.Group>, notes: seq<GroupNote>)

  /** The entity's table after the WillBeRemoved lookahead, and the events. */
  datatype Lookahead = Lookahead(table: map<ComponentType, Component>, notes: seq<GroupNote>)

  /** What a component operation does to one entity with the handlers
      attached: its table afterwards, the groups afterwards, the entity
      events, the group events, and the error. */
  datatype Effect = Effect(table: map<ComponentType, Component>, groups: map<MatcherHash, G.Group>,
                           fired: seq<E.ComponentEvent>, notes: seq<GroupNote>, err: Option<Error>)

  /** A component operation on one of the context's entities. */
  datatype Step = Step(pool: Pool, fired: seq<E.ComponentEvent>, notes: seq<GroupNote>, err: Option<Error>)

  datatype Fetched = Fetched(pool: Pool, id: EntityID)

  datatype Created = Created(pool: Pool, id: EntityID, fired: seq<E.ComponentEvent>, notes: seq<GroupNote>)

  datatype Destroyed = Destroyed(pool: Pool, notes: seq<GroupNote>)

  datatype Stripped = Stripped(store: map<EntityID, E.Entity>, groups: map<MatcherHash, G.Group>)

  datatype Lookup = Lookup(pool: Pool, hash: MatcherHash)

  datatype Listing = Listing(pool: Pool, ids: seq<EntityID>)

  // ---------------------------------------------------------------------
  // Invariants

  /** The router is the first listener for `kind`. */
  predicate RouterFirst(e: E.Entity, kind: E.EventKind)
  {
    kind in e.callbacks && |e.callbacks[kind]| > 0 && e.callbacks[kind][0] == E.PoolRouter
  }

  /** The context's handlers are registered for all four events, ahead of
      any user listener. */
  predicate Routed(e: E.Entity)
  {
    && RouterFirst(e, E.ComponentAdded)
    && RouterFirst(e, E.ComponentReplaced)
    && RouterFirst(e, E.ComponentWillBeRemoved)
    && RouterFirst(e, E.ComponentRemoved)
  }

  predicate GroupsValid(groups: map<MatcherHash, G.Group>)
  {
    forall h :: h in groups ==> G.Valid(groups[h]) && groups[h].matcher.hash == h
  }

  /** Every listed hash names a group. */
  predicate AllIn(hs: seq<MatcherHash>, groups: map<MatcherHash, G.Group>)
  {
    forall i :: 0 <= i < |hs| ==> hs[i] in groups
  }

  /** The fan-out list of `t`, empty when `t` has none (a nil slice in Go). */
  function FanoutOf(fanout: map<ComponentType, seq<MatcherHash>>, t: ComponentType): seq<MatcherHash>
  {
    if t in fanout then fanout[t] else []
  }

  /** Each fan-out entry names a group that declares the type. */
  predicate FanoutSound(fanout: map<ComponentType, seq<MatcherHash>>, groups: map<MatcherHash, G.Group>)
  {
    forall t, i :: t in fanout && 0 <= i < |fanout[t]| ==>
      fanout[t][i] in groups && t in groups[fanout[t][i]].matcher.deps
  }

  /** Each group is listed under every type it declares. */
  predicate FanoutComplete(fanout: map<ComponentType, seq<MatcherHash>>, groups: map<MatcherHash, G.Group>)
  {
    forall h, t :: h in groups && t in groups[h].matcher.deps ==> h in FanoutOf(fanout, t)
  }

  /** The same groups under the same matchers; only memberships may differ. */
  ghost predicate SameShape(before: map<MatcherHash, G.Group>, after: map<MatcherHash, G.Group>)
  {
    && after.Keys == before.Keys
    && forall h :: h in before ==> after[h].matcher == before[h].matcher
  }

  /** The same shape, and no entity other than `id` changed membership. */
  ghost predicate OnlyMoved(before: map<MatcherHash, G.Group>, after: map<MatcherHash, G.Group>, id: EntityID)
  {
    && SameShape(before, after)
    && forall h :: h in before ==> after[h].members - {id} == before[h].members - {id}
  }

  /** The context's invariant. */
  ghost predicate Valid(p: Pool)
  {
    && (forall id :: id in p.store ==> p.store[id].id == id && id < p.nextId && E.WellTyped(p.store[id].table))
    && p.live <= p.store.Keys
    && (forall id :: id in p.live ==> Routed(p.store[id]))
    && (p.cache.Some? ==> IsEnumeration(p.cache.value, p.live))
    && Distinct(p.unused)
    && (forall i :: 0 <= i < |p.unused| ==> p.unused[i] in p.store && p.unused[i] !in p.live)
    && (forall i :: 0 <= i < |p.unused| ==> p.store[p.unused[i]].callbacks == map[])
    && GroupsValid(p.groups)
    && FanoutSound(p.fanout, p.groups)
    && FanoutComplete(p.fanout, p.groups)
  }

  /** Every group's membership of entity `id` is its matcher's verdict on
      the types `present`. */
  ghost predicate IdConsistent(groups: map<MatcherHash, G.Group>, id: EntityID, present: set<ComponentType>)
  {
    forall h :: h in groups ==> (id in groups[h].members <==> Matches(groups[h].matcher, present))
  }

  /** Every group's verdict on every live entity is its matcher's verdict:
      a group holds a live entity exactly when its matcher accepts it. Ids
      that are not live are not constrained. */
  ghost predicate Consistent(p: Pool)
  {
    forall id :: id in p.live && id in p.store ==> IdConsistent(p.groups, id, p.store[id].table.Keys)
  }

  ghost predicate HonestGroups(groups: map<MatcherHash, G.Group>)
  {
    forall h :: h in groups ==> Honest(groups[h].matcher)
  }

  /** Every registered matcher depends only on the types it declares. */
  ghost predicate AllHonest(p: Pool)
  {
    HonestGroups(p.groups)
  }

  lemma SameShapeKeeps(fanout: map<ComponentType, seq<MatcherHash>>, before: map<MatcherHash, G.Group>, after: map<MatcherHash, G.Group>)
    requires SameShape(before, after)
    ensures FanoutSound(fanout, before) ==> FanoutSound(fanout, after)
    ensures FanoutComplete(fanout, before) ==> FanoutComplete(fanout, after)
    ensures HonestGroups(before) ==> HonestGroups(after)
  {
    if FanoutSound(fanout, before) {
      forall t, i | t in fanout && 0 <= i < |fanout[t]|
        ensures fanout[t][i] in after && t in after[fanout[t][i]].matcher.deps
      {
        var h := fanout[t][i];
        assert h in before && t in before[h].matcher.deps;
        assert after[h].matcher == before[h].matcher;
      }
    }
  }

  lemma OnlyMovedTrans(a: map<MatcherHash, G.Group>, b: map<MatcherHash, G.Group>, c: map<MatcherHash, G.Group>, id: EntityID)
    requires OnlyMoved(a, b, id) && OnlyMoved(b, c, id)
    ensures OnlyMoved(a, c, id)
  {
  }

  // ---------------------------------------------------------------------
  // Construction and queries

  function Tag(h: MatcherHash, evs: seq<G.GroupEvent>): (r: seq<GroupNote>)
    ensures |r| == |evs| && forall k :: 0 <= k < |r| ==> r[k] == GroupNote(h, evs[k])
    ensures forall n :: n in r <==> n.group == h && n.ev in evs
  {
    seq(|evs|, k requires 0 <= k < |evs| => GroupNote(h, evs[k]))
  }

  function NewContext(startIndex: nat): (p: Pool)
    ensures Valid(p) && Consistent(p)
    ensures Count(p) == 0 && p.nextId == startIndex && p.groups == map[] && p.unused == []
  {
    Pool(startIndex, map[], {}, None, map[], map[], [])
  }

  /** The number of live entities: zero exactly when none is live, and
      never more than the instances the context has made. */
  function Count(p: Pool): (r: nat)
    ensures r == 0 <==> p.live == {}
    ensures p.live <= p.store.Keys ==> r <= |p.store|
  {
    if p.live <= p.store.Keys then
      assert |p.live| <= |p.store.Keys| by { SubsetSize(p.live, p.store.Keys); }
      |p.live|
    else |p.live|
  }

  lemma SubsetSize(a: set<EntityID>, b: set<EntityID>)
    requires a <= b
    ensures |a| <= |b|
  {
    assert b == a + (b - a);
  }

  /** True iff the handle is the very instance registered under its id. */
  function HasEntity(p: Pool, h: Handle): (r: bool)
    requires Valid(p)
    ensures r <==> h.Own? && h.id in p.live
    ensures r ==> h.id in p.store && E.ID(p.store[h.id]) == h.id
  {
    h.Own? && h.id in p.live
  }

  /** Registers the context's four handlers, in Go's order. */
  function Register(e: E.Entity): (r: E.Entity)
    requires e.callbacks == map[]
    ensures Routed(r) && r == e.(callbacks := r.callbacks)
  {
    var e1 := E.AddCallback(e, E.ComponentAdded, E.PoolRouter);
    var e2 := E.AddCallback(e1, E.ComponentReplaced, E.PoolRouter);
    var e3 := E.AddCallback(e2, E.ComponentWillBeRemoved, E.PoolRouter);
    E.AddCallback(e3, E.ComponentRemoved, E.PoolRouter)
  }

  /** Takes the oldest entity off the free list, or makes a fresh one with
      the next id; either way the handlers are registered and the entity is
      not yet live. A recycled entity keeps its table and its sorted array. */
  function GetEntity(p: Pool): (r: Fetched)
    requires Valid(p)
    ensures r.id in r.pool.store && r.id !in r.pool.live && r.pool.store[r.id].id == r.id
    ensures Routed(r.pool.store[r.id])
    ensures r.pool == p.(store := r.pool.store, nextId := r.pool.nextId, unused := r.pool.unused)
    ensures r.pool.store == p.store[r.id := r.pool.store[r.id]]
  {
    if |p.unused| > 0 then
      var id := p.unused[0];
      Fetched(p.(store := p.store[id := Register(p.store[id])], unused := p.unused[1..]), id)
    else
      var id := p.nextId;
      Fetched(p.(store := p.store[id := Register(E.NewEntity(id))], nextId := p.nextId + 1), id)
  }

  /** Which entity `GetEntity` hands out: the oldest free one, with its
      table and sorted array as they were; otherwise a fresh one with the
      next id, which is above every stored id, so fresh ids only grow. */
  lemma GetEntityPicks(p: Pool)
    requires Valid(p)
    ensures var r := GetEntity(p);
      && (|p.unused| > 0 ==> && r.id == p.unused[0] && r.pool.unused == p.unused[1..] && r.pool.nextId == p.nextId
                             && r.pool.store[r.id] == p.store[r.id].(callbacks := r.pool.store[r.id].callbacks))
      && (|p.unused| == 0 ==> && r.id == p.nextId && r.id !in p.store && r.pool.nextId == p.nextId + 1 && r.pool.unused == []
                              && (forall k :: k in p.store ==> k < r.id)
                              && r.pool.store[r.id] == E.NewEntity(r.id).(callbacks := r.pool.store[r.id].callbacks))
  {
    if |p.unused| == 0 {
      assert p.nextId !in p.store;
    }
  }

  lemma GetEntityValid(p: Pool)
    requires Valid(p)
    ensures Valid(GetEntity(p).pool)
    ensures forall i :: 0 <= i < |GetEntity(p).pool.unused| ==> GetEntity(p).pool.unused[i] != GetEntity(p).id
  {
    if |p.unused| > 0 {
      RecycledValid(p);
    } else {
      FreshValid(p);
    }
  }

  lemma RecycledValid(p: Pool)
    requires Valid(p) && |p.unused| > 0
    ensures Valid(GetEntity(p).pool)
    ensures forall i :: 0 <= i < |GetEntity(p).pool.unused| ==> GetEntity(p).pool.unused[i] != GetEntity(p).id
  {
    var id := p.unused[0];
    var q0 := p.(unused := p.unused[1..]);
    PopValid(p);
    var e := Register(p.store[id]);
    assert e.id == id && e.table == p.store[id].table;
    InstallValid(q0, e, p.nextId);
    assert GetEntity(p).pool == q0.(store := q0.store[id := e], nextId := p.nextId);
  }

  /** Taking the first free id off the list keeps the invariant, and that
      id is not left in the rest of the list. */
  lemma PopValid(p: Pool)
    requires Valid(p) && |p.unused| > 0
    ensures Valid(p.(unused := p.unused[1..]))
    ensures forall i :: 0 <= i < |p.unused| - 1 ==> p.unused[1..][i] != p.unused[0]
  {
    var tail := p.unused[1..];
    assert forall i :: 0 <= i < |tail| ==> tail[i] == p.unused[i + 1];
  }

  lemma FreshValid(p: Pool)
    requires Valid(p) && |p.unused| == 0
    ensures Valid(GetEntity(p).pool)
  {
    var id := p.nextId;
    var e := Register(E.NewEntity(id));
    assert e.id == id && e.table == map[];
    NextIdFree(p);
    InstallValid(p, e, p.nextId + 1);
    assert GetEntity(p).pool == p.(store := p.store[id := e], nextId := p.nextId + 1);
  }

  /** The next id is neither stored nor live. */
  lemma NextIdFree(p: Pool)
    requires Valid(p)
    ensures p.nextId !in p.store && p.nextId !in p.live
  {
  }

  /** Storing an entity that is neither live nor free, under its own id and
      below the next id, keeps the invariant. */
  lemma InstallValid(p: Pool, e: E.Entity, nextId: nat)
    requires Valid(p) && e.id !in p.live && e.id < nextId && p.nextId <= nextId && E.WellTyped(e.table)
    requires forall i :: 0 <= i < |p.unused| ==> p.unused[i] != e.id
    ensures Valid(p.(store := p.store[e.id := e], nextId := nextId))
  {
    var q := p.(store := p.store[e.id := e], nextId := nextId);
    assert forall k :: k in q.store ==> q.store[k].id == k && k < q.nextId && E.WellTyped(q.store[k].table);
    assert forall k :: k in q.live ==> k != e.id && Routed(q.store[k]);
  }

  // ---------------------------------------------------------------------
  // Routing: forMatchingGroups and the four handlers

  /** `forMatchingGroups`: the fan-out list of the event's type when the
      entity is live in this context, and no group at all otherwise. */
  function Route(fanout: map<ComponentType, seq<MatcherHash>>, live: bool, t: ComponentType): (r: seq<MatcherHash>)
    ensures |r| > 0 ==> live && t in fanout
    ensures live && t in fanout ==> r == fanout[t]
  {
    if live then FanoutOf(fanout, t) else []
  }

  /** With a sound and complete fan-out index, an event about type `t` of a
      live entity reaches exactly the groups whose matcher declares `t`. */
  lemma RouteReaches(fanout: map<ComponentType, seq<MatcherHash>>, groups: map<MatcherHash, G.Group>, t: ComponentType)
    requires FanoutSound(fanout, groups) && FanoutComplete(fanout, groups)
    ensures forall h :: h in Route(fanout, true, t) <==> h in groups && t in groups[h].matcher.deps
    ensures Route(fanout, false, t) == []
  {
    forall h | h in Route(fanout, true, t)
      ensures h in groups && t in groups[h].matcher.deps
    {
      var i :| 0 <= i < |fanout[t]| && fanout[t][i] == h;
    }
  }

  /** `HandleEntity` on each listed group in turn (a group listed twice is
      handled twice; the second time changes nothing). */
  function HandleEach(groups: map<MatcherHash, G.Group>, hs: seq<MatcherHash>, id: EntityID, present: set<ComponentType>): (r: Fanned)
    requires GroupsValid(groups) && AllIn(hs, groups)
    ensures GroupsValid(r.groups) && OnlyMoved(groups, r.groups, id)
    ensures forall h :: h in groups && h in hs ==> (id in r.groups[h].members <==> Matches(groups[h].matcher, present))
    ensures forall h :: h in groups && h !in hs ==> r.groups[h] == groups[h]
    ensures forall k :: 0 <= k < |r.notes| ==> r.notes[k].ev.id == id && r.notes[k].group in hs
    decreases |hs|
  {
    if hs == [] then Fanned(groups, [])
    else
      var h0 := hs[0];
      assert h0 in groups && G.Valid(groups[h0]);
      var s := G.HandleEntity(groups[h0], id, present);
      var g1 := groups[h0 := s.group];
      assert OnlyMoved(groups, g1, id);
      var rest := HandleEach(g1, hs[1..], id, present);
      OnlyMovedTrans(groups, g1, rest.groups, id);
      assert forall h :: h in hs <==> h == h0 || h in hs[1..];
      Fanned(rest.groups, Tag(h0, s.events) + rest.notes)
  }

  /** The EntityAdded events of a `HandleEach` pass come from exactly the
      listed groups that accept the entity and did not hold it. */
  lemma {:induction false} HandleEachAdded(groups: map<MatcherHash, G.Group>, hs: seq<MatcherHash>, id: EntityID, present: set<ComponentType>)
    requires GroupsValid(groups) && AllIn(hs, groups)
    ensures forall h :: GroupNote(h, G.Notify(G.EntityAdded, id)) in HandleEach(groups, hs, id, present).notes <==>
              h in hs && h in groups && Matches(groups[h].matcher, present) && id !in groups[h].members
    decreases |hs|
  {
    if hs != [] {
      var h0 := hs[0];
      assert h0 in groups && G.Valid(groups[h0]);
      var s := G.HandleEntity(groups[h0], id, present);
      HandleEachAdded(groups[h0 := s.group], hs[1..], id, present);
      assert forall h :: h in hs <==> h == h0 || h in hs[1..];
    }
  }

  /** The EntityRemoved events of a `HandleEach` pass come from exactly the
      listed groups that reject the entity and did hold it. */
  lemma {:induction false} HandleEachRemoved(groups: map<MatcherHash, G.Group>, hs: seq<MatcherHash>, id: EntityID, present: set<ComponentType>)
    requires GroupsValid(groups) && AllIn(hs, groups)
    ensures forall h :: GroupNote(h, G.Notify(G.EntityRemoved, id)) in HandleEach(groups, hs, id, present).notes <==>
              h in hs && h in groups && !Matches(groups[h].matcher, present) && id in groups[h].members
    decreases |hs|
  {
    if hs != [] {
      var h0 := hs[0];
      assert h0 in groups && G.Valid(groups[h0]);
      var s := G.HandleEntity(groups[h0], id, present);
      HandleEachRemoved(groups[h0 := s.group], hs[1..], id, present);
      assert forall h :: h in hs <==> h == h0 || h in hs[1..];
    }
  }

  /** `UpdateEntity` on each listed group: events only. */
  function UpdateEach(groups: map<MatcherHash, G.Group>, hs: seq<MatcherHash>, id: EntityID): (notes: seq<GroupNote>)
    requires AllIn(hs, groups)
    ensures forall k :: 0 <= k < |notes| ==> notes[k].ev.id == id && notes[k].ev.kind != G.EntityWillBeRemoved && notes[k].group in hs
    decreases |hs|
  {
    if hs == [] then []
    else
      assert hs[0] in groups;
      Tag(hs[0], G.UpdateEntity(groups[hs[0]], id).events) + UpdateEach(groups, hs[1..], id)
  }

  /** The group events of an `UpdateEach` pass: every listed group holding
      the entity fires EntityRemoved and EntityAdded, no other group does. */
  lemma {:induction false} UpdateEachNotes(groups: map<MatcherHash, G.Group>, hs: seq<MatcherHash>, id: EntityID)
    requires AllIn(hs, groups)
    ensures forall h :: GroupNote(h, G.Notify(G.EntityRemoved, id)) in UpdateEach(groups, hs, id) <==> h in hs && h in groups && id in groups[h].members
    ensures forall h :: GroupNote(h, G.Notify(G.EntityAdded, id)) in UpdateEach(groups, hs, id) <==> h in hs && h in groups && id in groups[h].members
    decreases |hs|
  {
    if hs != [] {
      assert hs[0] in groups;
      UpdateEachNotes(groups, hs[1..], id);
      assert forall h :: h in hs <==> h == hs[0] || h in hs[1..];
    }
  }

  /** The loop body of `componentWillBeRemovedCallback`, once per listed
      group: delete the type from the table and ask the group; only if it no
      longer matches, put the component back and let the group fire
      EntityWillBeRemoved. Which table remains is decided by the last group. */
  function LookaheadEach(groups: map<MatcherHash, G.Group>, hs: seq<MatcherHash>, id: EntityID,
                         table: map<ComponentType, Component>, c: Component): (r: Lookahead)
    requires AllIn(hs, groups)
    ensures hs == [] ==> r.table == table
    ensures hs != [] ==> r.table == (if Matches(groups[hs[|hs| - 1]].matcher, table.Keys - {c.ctype})
                                     then table - {c.ctype} else (table - {c.ctype})[c.ctype := c])
    ensures forall k :: 0 <= k < |r.notes| ==> r.notes[k].ev == G.Notify(G.EntityWillBeRemoved, id) && r.notes[k].group in hs
    decreases |hs|
  {
    if hs == [] then Lookahead(table, [])
    else
      assert hs[0] in groups;
      var g := groups[hs[0]];
      var deleted := table - {c.ctype};
      assert deleted.Keys == table.Keys - {c.ctype};
      var keep := Matches(g.matcher, deleted.Keys);
      var after := if keep then deleted else deleted[c.ctype := c];
      var evs := if keep then [] else G.WillRemoveEntity(g, id).events;
      assert after - {c.ctype} == deleted;
      var rest := LookaheadEach(groups, hs[1..], id, after, c);
      assert forall h :: h in hs <==> h == hs[0] || h in hs[1..];
      assert hs[1..] != [] ==> hs[1..][|hs[1..]| - 1] == hs[|hs| - 1];
      Lookahead(rest.table, Tag(hs[0], evs) + rest.notes)
  }

  /** The lookahead's group events: EntityWillBeRemoved from exactly the
      listed groups that hold the entity and reject it without the type. */
  lemma {:induction false} LookaheadNotes(groups: map<MatcherHash, G.Group>, hs: seq<MatcherHash>, id: EntityID,
                                          table: map<ComponentType, Component>, c: Component)
    requires AllIn(hs, groups)
    ensures forall h :: GroupNote(h, G.Notify(G.EntityWillBeRemoved, id)) in LookaheadEach(groups, hs, id, table, c).notes <==>
              h in hs && h in groups && id in groups[h].members && !Matches(groups[h].matcher, table.Keys - {c.ctype})
    decreases |hs|
  {
    if hs != [] {
      assert hs[0] in groups;
      var deleted := table - {c.ctype};
      assert deleted.Keys == table.Keys - {c.ctype};
      var keep := Matches(groups[hs[0]].matcher, deleted.Keys);
      var after := if keep then deleted else deleted[c.ctype := c];
      assert after.Keys - {c.ctype} == table.Keys - {c.ctype};
      LookaheadNotes(groups, hs[1..], id, after, c);
      assert forall h :: h in hs <==> h == hs[0] || h in hs[1..];
    }
  }

  // ---------------------------------------------------------------------
  // Component operations on one entity with the handlers attached

  /** `AddComponent` with `componentAddedCallback` attached: each insertion
      is routed (when `live`) to the fan-out of its type. */
  function AddEach(fanout: map<ComponentType, seq<MatcherHash>>, live: bool, id: EntityID,
                   table: map<ComponentType, Component>, groups: map<MatcherHash, G.Group>, cs: seq<Component>): (r: Effect)
    requires E.WellTyped(table) && GroupsValid(groups) && FanoutSound(fanout, groups)
    ensures E.WellTyped(r.table) && GroupsValid(r.groups) && OnlyMoved(groups, r.groups, id)
    ensures !live ==> r.groups == groups && r.notes == []
    decreases |cs|
  {
    if cs == [] then Effect(table, groups, [], [], None)
    else if cs[0].ctype in table then Effect(table, groups, [], [], Some(ErrComponentExists))
    else
      var c := cs[0];
      var t1 := table[c.ctype := c];
      var ha := HandleEach(groups, Route(fanout, live, c.ctype), id, t1.Keys);
      SameShapeKeeps(fanout, groups, ha.groups);
      var rest := AddEach(fanout, live, id, t1, ha.groups, cs[1..]);
      OnlyMovedTrans(groups, ha.groups, rest.groups, id);
      Effect(rest.table, rest.groups, [E.Fired(E.ComponentAdded, c)] + rest.fired, ha.notes + rest.notes, rest.err)
  }

  /** With the handlers attached, the entity still ends as the plain
      `AddComponent` leaves it, with the same events and error. */
  lemma {:induction false} AddEachAgrees(fanout: map<ComponentType, seq<MatcherHash>>, live: bool, groups: map<MatcherHash, G.Group>,
                                         e: E.Entity, cs: seq<Component>)
    requires E.WellTyped(e.table) && GroupsValid(groups) && FanoutSound(fanout, groups)
    ensures AddEach(fanout, live, e.id, e.table, groups, cs).table == E.AddComponent(e, cs).entity.table
    ensures AddEach(fanout, live, e.id, e.table, groups, cs).fired == E.AddComponent(e, cs).events
    ensures AddEach(fanout, live, e.id, e.table, groups, cs).err == E.AddComponent(e, cs).err
    decreases |cs|
  {
    if cs != [] && cs[0].ctype !in e.table {
      var c := cs[0];
      var e1 := e.(table := e.table[c.ctype := c]);
      var ha := HandleEach(groups, Route(fanout, live, c.ctype), e.id, e1.table.Keys);
      SameShapeKeeps(fanout, groups, ha.groups);
      AddEachAgrees(fanout, live, ha.groups, e1, cs[1..]);
    }
  }

  /** An honest matcher's verdict does not depend on an undeclared type. */
  lemma HonestIgnores(m: Matcher, a: set<ComponentType>, b: set<ComponentType>, t: ComponentType)
    requires Honest(m) && t !in m.deps && a - {t} == b - {t}
    ensures Matches(m, a) == Matches(m, b)
  {
    assert Insensitive(m, a, t) && Insensitive(m, b, t);
    assert a + {t} == (a - {t}) + {t};
    assert b + {t} == (b - {t}) + {t};
    assert a == a + {t} || a == a - {t};
    assert b == b + {t} || b == b - {t};
  }

  /** Re-evaluating the fan-out of `t` after `t` was added or removed keeps
      every group's verdict on `id` current, provided each matcher depends
      only on the types it declares: a group outside the fan-out does not
      declare `t`, so its verdict cannot have changed. */
  lemma RouteKeepsIdConsistent(fanout: map<ComponentType, seq<MatcherHash>>, groups: map<MatcherHash, G.Group>, id: EntityID,
                               before: set<ComponentType>, after: set<ComponentType>, t: ComponentType)
    requires GroupsValid(groups) && FanoutSound(fanout, groups) && FanoutComplete(fanout, groups) && HonestGroups(groups)
    requires IdConsistent(groups, id, before) && before - {t} == after - {t}
    ensures IdConsistent(HandleEach(groups, FanoutOf(fanout, t), id, after).groups, id, after)
  {
    var r := HandleEach(groups, FanoutOf(fanout, t), id, after);
    forall h | h in r.groups
      ensures id in r.groups[h].members <==> Matches(r.groups[h].matcher, after)
    {
      if h !in FanoutOf(fanout, t) {
        assert t !in groups[h].matcher.deps;
        HonestIgnores(groups[h].matcher, before, after, t);
      }
    }
  }

  /** Adding components to a live entity keeps every group's verdict on it
      current. */
  lemma {:induction false} AddEachConsistent(fanout: map<ComponentType, seq<MatcherHash>>, id: EntityID,
                                             table: map<ComponentType, Component>, groups: map<MatcherHash, G.Group>, cs: seq<Component>)
    requires E.WellTyped(table) && GroupsValid(groups) && FanoutSound(fanout, groups) && FanoutComplete(fanout, groups)
    requires HonestGroups(groups) && IdConsistent(groups, id, table.Keys)
    ensures IdConsistent(AddEach(fanout, true, id, table, groups, cs).groups, id, AddEach(fanout, true, id, table, groups, cs).table.Keys)
    decreases |cs|
  {
    if cs != [] && cs[0].ctype !in table {
      var c := cs[0];
      var t1 := table[c.ctype := c];
      var ha := HandleEach(groups, FanoutOf(fanout, c.ctype), id, t1.Keys);
      RouteKeepsIdConsistent(fanout, groups, id, table.Keys, t1.Keys, c.ctype);
      SameShapeKeeps(fanout, groups, ha.groups);
      AddEachConsistent(fanout, id, t1, ha.groups, cs[1..]);
    }
  }

  /** `ReplaceComponent` with the handlers attached: an insertion over a
      held type is routed as Replaced (`UpdateEntity`, no membership
      change), otherwise as Added. */
  function ReplaceEach(fanout: map<ComponentType, seq<MatcherHash>>, live: bool, id: EntityID,
                       table: map<ComponentType, Component>, groups: map<MatcherHash, G.Group>, cs: seq<Component>): (r: Effect)
    requires E.WellTyped(table) && GroupsValid(groups) && FanoutSound(fanout, groups)
    ensures E.WellTyped(r.table) && GroupsValid(r.groups) && OnlyMoved(groups, r.groups, id)
    ensures !live ==> r.groups == groups && r.notes == []
    ensures r.err.None?
    decreases |cs|
  {
    if cs == [] then Effect(table, groups, [], [], None)
    else
      var c := cs[0];
      var has := c.ctype in table;
      var t1 := table[c.ctype := c];
      var hs := Route(fanout, live, c.ctype);
      var ha := if has then Fanned(groups, UpdateEach(groups, hs, id)) else HandleEach(groups, hs, id, t1.Keys);
      SameShapeKeeps(fanout, groups, ha.groups);
      var rest := ReplaceEach(fanout, live, id, t1, ha.groups, cs[1..]);
      OnlyMovedTrans(groups, ha.groups, rest.groups, id);
      var kind := if has then E.ComponentReplaced else E.ComponentAdded;
      Effect(rest.table, rest.groups, [E.Fired(kind, c)] + rest.fired, ha.notes + rest.notes, None)
  }

  /** With the handlers attached, the entity ends as the plain
      `ReplaceComponent` leaves it, with the same events. */
  lemma {:induction false} ReplaceEachAgrees(fanout: map<ComponentType, seq<MatcherHash>>, live: bool, groups: map<MatcherHash, G.Group>,
                                             e: E.Entity, cs: seq<Component>)
    requires E.WellTyped(e.table) && GroupsValid(groups) && FanoutSound(fanout, groups)
    ensures ReplaceEach(fanout, live, e.id, e.table, groups, cs).table == E.ReplaceComponent(e, cs).entity.table
    ensures ReplaceEach(fanout, live, e.id, e.table, groups, cs).fired == E.ReplaceComponent(e, cs).events
    decreases |cs|
  {
    if cs != [] {
      var c := cs[0];
      var e1 := e.(table := e.table[c.ctype := c]);
      var hs := Route(fanout, live, c.ctype);
      var ha := if c.ctype in e.table then Fanned(groups, UpdateEach(groups, hs, e.id)) else HandleEach(groups, hs, e.id, e1.table.Keys);
      SameShapeKeeps(fanout, groups, ha.groups);
      ReplaceEachAgrees(fanout, live, ha.groups, e1, cs[1..]);
    }
  }

  /** Replacing components of a live entity keeps every group's verdict on
      it current; a replacement over a held type leaves the types as they
      were, so `UpdateEntity` needs to change nothing. */
  lemma {:induction false} ReplaceEachConsistent(fanout: map<ComponentType, seq<MatcherHash>>, id: EntityID,
                                                 table: map<ComponentType, Component>, groups: map<MatcherHash, G.Group>, cs: seq<Component>)
    requires E.WellTyped(table) && GroupsValid(groups) && FanoutSound(fanout, groups) && FanoutComplete(fanout, groups)
    requires HonestGroups(groups) && IdConsistent(groups, id, table.Keys)
    ensures IdConsistent(ReplaceEach(fanout, true, id, table, groups, cs).groups, id, ReplaceEach(fanout, true, id, table, groups, cs).table.Keys)
    decreases |cs|
  {
    if cs != [] {
      var c := cs[0];
      var t1 := table[c.ctype := c];
      if c.ctype in table {
        assert t1.Keys == table.Keys;
        ReplaceEachConsistent(fanout, id, t1, groups, cs[1..]);
      } else {
        var ha := HandleEach(groups, FanoutOf(fanout, c.ctype), id, t1.Keys);
        RouteKeepsIdConsistent(fanout, groups, id, table.Keys, t1.Keys, c.ctype);
        SameShapeKeeps(fanout, groups, ha.groups);
        ReplaceEachConsistent(fanout, id, t1, ha.groups, cs[1..]);
      }
    }
  }

  /** One type of `RemoveComponent` with the handlers attached: the
      WillBeRemoved lookahead runs, the type is deleted whatever the
      lookahead left, and the Removed event re-evaluates the fan-out. */
  function RemoveOne(fanout: map<ComponentType, seq<MatcherHash>>, live: bool, id: EntityID,
                     table: map<ComponentType, Component>, groups: map<MatcherHash, G.Group>, t: ComponentType): (r: Effect)
    requires E.WellTyped(table) && GroupsValid(groups) && FanoutSound(fanout, groups) && t in table
    ensures r.table == table - {t} && E.WellTyped(r.table)
    ensures r.groups == HandleEach(groups, Route(fanout, live, t), id, (table - {t}).Keys).groups
    ensures GroupsValid(r.groups) && OnlyMoved(groups, r.groups, id)
    ensures r.fired == [E.Fired(E.ComponentWillBeRemoved, table[t]), E.Fired(E.ComponentRemoved, table[t])] && r.err.None?
    ensures !live ==> r.groups == groups && r.notes == []
  {
    var c := table[t];
    var hs := Route(fanout, live, t);
    var la := LookaheadEach(groups, hs, id, table, c);
    var t1 := la.table - {t};
    assert t1 == table - {t};
    var ha := HandleEach(groups, hs, id, t1.Keys);
    Effect(t1, ha.groups, [E.Fired(E.ComponentWillBeRemoved, c), E.Fired(E.ComponentRemoved, c)], la.notes + ha.notes, None)
  }

  /** `RemoveComponent` with the handlers attached, one type after the
      other, stopping at the first type not held. */
  function RemoveEach(fanout: map<ComponentType, seq<MatcherHash>>, live: bool, id: EntityID,
                      table: map<ComponentType, Component>, groups: map<MatcherHash, G.Group>, ts: seq<ComponentType>): (r: Effect)
    requires E.WellTyped(table) && GroupsValid(groups) && FanoutSound(fanout, groups)
    ensures E.WellTyped(r.table) && GroupsValid(r.groups) && OnlyMoved(groups, r.groups, id)
    ensures !live ==> r.groups == groups && r.notes == []
    decreases |ts|
  {
    if ts == [] then Effect(table, groups, [], [], None)
    else if ts[0] !in table then Effect(table, groups, [], [], Some(ErrComponentDoesNotExist))
    else
      var one := RemoveOne(fanout, live, id, table, groups, ts[0]);
      SameShapeKeeps(fanout, groups, one.groups);
      var rest := RemoveEach(fanout, live, id, one.table, one.groups, ts[1..]);
      OnlyMovedTrans(groups, one.groups, rest.groups, id);
      Effect(rest.table, rest.groups, one.fired + rest.fired, one.notes + rest.notes, rest.err)
  }

  /** With the handlers attached, the entity ends as the plain
      `RemoveComponent` leaves it, with the same events and error: the
      lookahead's edits to the table are undone by the deletion. */
  lemma {:induction false} RemoveEachAgrees(fanout: map<ComponentType, seq<MatcherHash>>, live: bool, groups: map<MatcherHash, G.Group>,
                                            e: E.Entity, ts: seq<ComponentType>)
    requires E.WellTyped(e.table) && GroupsValid(groups) && FanoutSound(fanout, groups)
    ensures RemoveEach(fanout, live, e.id, e.table, groups, ts).table == E.RemoveComponent(e, ts).entity.table
    ensures RemoveEach(fanout, live, e.id, e.table, groups, ts).fired == E.RemoveComponent(e, ts).events
    ensures RemoveEach(fanout, live, e.id, e.table, groups, ts).err == E.RemoveComponent(e, ts).err
    decreases |ts|
  {
    if ts != [] && ts[0] in e.table {
      var one := RemoveOne(fanout, live, e.id, e.table, groups, ts[0]);
      SameShapeKeeps(fanout, groups, one.groups);
      RemoveEachAgrees(fanout, live, one.groups, e.(table := one.table), ts[1..]);
    }
  }

  /** Removing components from a live entity keeps every group's verdict on
      it current: whatever the lookahead did, the Removed event re-evaluates
      the fan-out against the table without the type. */
  lemma {:induction false} RemoveEachConsistent(fanout: map<ComponentType, seq<MatcherHash>>, id: EntityID,
                                                table: map<ComponentType, Component>, groups: map<MatcherHash, G.Group>, ts: seq<ComponentType>)
    requires E.WellTyped(table) && GroupsValid(groups) && FanoutSound(fanout, groups) && FanoutComplete(fanout, groups)
    requires HonestGroups(groups) && IdConsistent(groups, id, table.Keys)
    ensures IdConsistent(RemoveEach(fanout, true, id, table, groups, ts).groups, id, RemoveEach(fanout, true, id, table, groups, ts).table.Keys)
    decreases |ts|
  {
    if ts != [] && ts[0] in table {
      var t := ts[0];
      var one := RemoveOne(fanout, true, id, table, groups, t);
      assert one.table.Keys == table.Keys - {t};
      RouteKeepsIdConsistent(fanout, groups, id, table.Keys, one.table.Keys, t);
      SameShapeKeeps(fanout, groups, one.groups);
      RemoveEachConsistent(fanout, id, one.table, one.groups, ts[1..]);
    }
  }

  /** `WillRemoveComponent` with the handlers attached: only the lookahead
      runs, so the last verdict for each type decides whether it survives.
      Groups are never changed. */
  function WillRemoveEach(fanout: map<ComponentType, seq<MatcherHash>>, live: bool, id: EntityID,
                          table: map<ComponentType, Component>, groups: map<MatcherHash, G.Group>, ts: seq<ComponentType>): (r: Effect)
    requires E.WellTyped(table) && FanoutSound(fanout, groups)
    ensures E.WellTyped(r.table) && r.groups == groups
    ensures forall t :: t in r.table ==> t in table && r.table[t] == table[t]
    ensures forall k :: 0 <= k < |r.notes| ==> r.notes[k].ev == G.Notify(G.EntityWillBeRemoved, id)
    ensures !live ==> r.table == table && r.notes == []
    decreases |ts|
  {
    if ts == [] then Effect(table, groups, [], [], None)
    else if ts[0] !in table then Effect(table, groups, [], [], Some(ErrComponentDoesNotExist))
    else
      var c := table[ts[0]];
      var la := LookaheadEach(groups, Route(fanout, live, ts[0]), id, table, c);
      assert (table - {c.ctype})[c.ctype := c] == table;
      var rest := WillRemoveEach(fanout, live, id, la.table, groups, ts[1..]);
      Effect(rest.table, groups, [E.Fired(E.ComponentWillBeRemoved, c)] + rest.fired, la.notes + rest.notes, rest.err)
  }

  /** On an entity that is not live the handlers do nothing, so the plain
      `WillRemoveComponent` is what happens. */
  lemma {:induction false} WillRemoveEachAgrees(fanout: map<ComponentType, seq<MatcherHash>>, groups: map<MatcherHash, G.Group>,
                                                e: E.Entity, ts: seq<ComponentType>)
    requires E.WellTyped(e.table) && FanoutSound(fanout, groups)
    ensures WillRemoveEach(fanout, false, e.id, e.table, groups, ts).fired == E.WillRemoveComponent(e, ts).events
    ensures WillRemoveEach(fanout, false, e.id, e.table, groups, ts).err == E.WillRemoveComponent(e, ts).err
    decreases |ts|
  {
    if ts != [] && ts[0] in e.table {
      WillRemoveEachAgrees(fanout, groups, e, ts[1..]);
    }
  }

  // ---------------------------------------------------------------------
  // Component operations through the context

  /** The context with a new table for entity `id` and new groups. */
  function WithTable(p: Pool, id: EntityID, table: map<ComponentType, Component>, groups: map<MatcherHash, G.Group>): Pool
    requires id in p.store
  {
    p.(store := p.store[id := p.store[id].(table := table)], groups := groups)
  }

  /** Changing one entity's table (keeping it well typed) and re-evaluating
      memberships preserves the invariant. */
  lemma WithTableValid(p: Pool, id: EntityID, table: map<ComponentType, Component>, groups: map<MatcherHash, G.Group>)
    requires Valid(p) && id in p.store
    requires E.WellTyped(table) && GroupsValid(groups) && SameShape(p.groups, groups)
    ensures Valid(WithTable(p, id, table, groups))
  {
    SameShapeKeeps(p.fanout, p.groups, groups);
  }

  /** A change confined to entity `id`'s table, `id`'s liveness and `id`'s
      memberships keeps the context consistent when `id`, if live, is
      judged correctly by every group afterwards. */
  lemma MoveKeepsConsistent(p: Pool, q: Pool, id: EntityID)
    requires Consistent(p) && p.live <= p.store.Keys && q.live - {id} == p.live - {id} && p.store.Keys <= q.store.Keys
    requires forall k :: k in p.store && k != id ==> q.store[k] == p.store[k]
    requires OnlyMoved(p.groups, q.groups, id)
    requires id in q.live && id in q.store ==> IdConsistent(q.groups, id, q.store[id].table.Keys)
    ensures Consistent(q)
  {
    forall k | k in q.live && k in q.store && k != id
      ensures IdConsistent(q.groups, k, q.store[k].table.Keys)
    {
      assert k in q.live - {id};
      assert k in p.live && k in p.store;
      assert k in p.live && IdConsistent(p.groups, k, p.store[k].table.Keys);
      forall h | h in q.groups
        ensures k in q.groups[h].members <==> Matches(q.groups[h].matcher, q.store[k].table.Keys)
      {
        assert k in q.groups[h].members - {id} <==> k in p.groups[h].members - {id};
      }
    }
  }

  /** `AddComponent` on an entity of this context. */
  function AddComponent(p: Pool, id: EntityID, cs: seq<Component>): (r: Step)
    requires Valid(p) && id in p.store
    ensures GroupsValid(r.pool.groups)
    ensures r.pool == p.(store := r.pool.store, groups := r.pool.groups)
    ensures r.pool.store == p.store[id := E.AddComponent(p.store[id], cs).entity]
    ensures r.fired == E.AddComponent(p.store[id], cs).events && r.err == E.AddComponent(p.store[id], cs).err
    ensures OnlyMoved(p.groups, r.pool.groups, id)
    ensures id !in p.live ==> r.pool.groups == p.groups && r.notes == []
  {
    var e := p.store[id];
    var x := AddEach(p.fanout, HasEntity(p, Own(id)), id, e.table, p.groups, cs);
    AddEachAgrees(p.fanout, HasEntity(p, Own(id)), p.groups, e, cs);
    Step(WithTable(p, id, x.table, x.groups), x.fired, x.notes, x.err)
  }

  lemma AddComponentValid(p: Pool, id: EntityID, cs: seq<Component>)
    requires Valid(p) && id in p.store
    ensures Valid(AddComponent(p, id, cs).pool)
  {
    var e := p.store[id];
    AddEachAgrees(p.fanout, HasEntity(p, Own(id)), p.groups, e, cs);
    var r := AddComponent(p, id, cs);
    WithTableValid(p, id, r.pool.store[id].table, r.pool.groups);
  }

  /** Adding components keeps every group agreeing with its matcher on every
      live entity, given honest matchers. */
  lemma AddComponentConsistent(p: Pool, id: EntityID, cs: seq<Component>)
    requires Valid(p) && id in p.store && Consistent(p) && (id in p.live ==> AllHonest(p))
    ensures Consistent(AddComponent(p, id, cs).pool)
  {
    if id in p.live {
      AddEachConsistent(p.fanout, id, p.store[id].table, p.groups, cs);
    }
    MoveKeepsConsistent(p, AddComponent(p, id, cs).pool, id);
  }

  /** `ReplaceComponent` on an entity of this context. */
  function ReplaceComponent(p: Pool, id: EntityID, cs: seq<Component>): (r: Step)
    requires Valid(p) && id in p.store
    ensures GroupsValid(r.pool.groups)
    ensures r.pool == p.(store := r.pool.store, groups := r.pool.groups)
    ensures r.pool.store == p.store[id := E.ReplaceComponent(p.store[id], cs).entity]
    ensures r.fired == E.ReplaceComponent(p.store[id], cs).events && r.err.None?
    ensures OnlyMoved(p.groups, r.pool.groups, id)
    ensures id !in p.live ==> r.pool.groups == p.groups && r.notes == []
  {
    var e := p.store[id];
    var x := ReplaceEach(p.fanout, HasEntity(p, Own(id)), id, e.table, p.groups, cs);
    ReplaceEachAgrees(p.fanout, HasEntity(p, Own(id)), p.groups, e, cs);
    Step(WithTable(p, id, x.table, x.groups), x.fired, x.notes, x.err)
  }

  lemma ReplaceComponentValid(p: Pool, id: EntityID, cs: seq<Component>)
    requires Valid(p) && id in p.store
    ensures Valid(ReplaceComponent(p, id, cs).pool)
  {
    var e := p.store[id];
    ReplaceEachAgrees(p.fanout, HasEntity(p, Own(id)), p.groups, e, cs);
    var r := ReplaceComponent(p, id, cs);
    WithTableValid(p, id, r.pool.store[id].table, r.pool.groups);
  }

  /** Replacing components keeps every group agreeing with its matcher on
      every live entity, given honest matchers. */
  lemma ReplaceComponentConsistent(p: Pool, id: EntityID, cs: seq<Component>)
    requires Valid(p) && id in p.store && Consistent(p) && (id in p.live ==> AllHonest(p))
    ensures Consistent(ReplaceComponent(p, id, cs).pool)
  {
    if id in p.live {
      ReplaceEachConsistent(p.fanout, id, p.store[id].table, p.groups, cs);
    }
    MoveKeepsConsistent(p, ReplaceComponent(p, id, cs).pool, id);
  }

  /** `RemoveComponent` on an entity of this context. */
  function RemoveComponent(p: Pool, id: EntityID, ts: seq<ComponentType>): (r: Step)
    requires Valid(p) && id in p.store
    ensures GroupsValid(r.pool.groups)
    ensures r.pool == p.(store := r.pool.store, groups := r.pool.groups)
    ensures r.pool.store == p.store[id := E.RemoveComponent(p.store[id], ts).entity]
    ensures r.fired == E.RemoveComponent(p.store[id], ts).events && r.err == E.RemoveComponent(p.store[id], ts).err
    ensures OnlyMoved(p.groups, r.pool.groups, id)
    ensures id !in p.live ==> r.pool.groups == p.groups && r.notes == []
  {
    var e := p.store[id];
    var x := RemoveEach(p.fanout, HasEntity(p, Own(id)), id, e.table, p.groups, ts);
    RemoveEachAgrees(p.fanout, HasEntity(p, Own(id)), p.groups, e, ts);
    Step(WithTable(p, id, x.table, x.groups), x.fired, x.notes, x.err)
  }

  lemma RemoveComponentValid(p: Pool, id: EntityID, ts: seq<ComponentType>)
    requires Valid(p) && id in p.store
    ensures Valid(RemoveComponent(p, id, ts).pool)
  {
    var e := p.store[id];
    RemoveEachAgrees(p.fanout, HasEntity(p, Own(id)), p.groups, e, ts);
    var r := RemoveComponent(p, id, ts);
    WithTableValid(p, id, r.pool.store[id].table, r.pool.groups);
  }

  /** Removing components keeps every group agreeing with its matcher on every
      live entity, given honest matchers. */
  lemma RemoveComponentConsistent(p: Pool, id: EntityID, ts: seq<ComponentType>)
    requires Valid(p) && id in p.store && Consistent(p) && (id in p.live ==> AllHonest(p))
    ensures Consistent(RemoveComponent(p, id, ts).pool)
  {
    if id in p.live {
      RemoveEachConsistent(p.fanout, id, p.store[id].table, p.groups, ts);
    }
    MoveKeepsConsistent(p, RemoveComponent(p, id, ts).pool, id);
  }

  /** `WillRemoveComponent` on an entity of this context: no group changes,
      but the lookahead may delete held types for good. */
  function WillRemoveComponent(p: Pool, id: EntityID, ts: seq<ComponentType>): (r: Step)
    requires Valid(p) && id in p.store
    ensures Valid(r.pool)
    ensures r.pool == p.(store := r.pool.store)
    ensures id in r.pool.store && r.pool.store == p.store[id := p.store[id].(table := r.pool.store[id].table)]
    ensures forall t :: t in r.pool.store[id].table ==> t in p.store[id].table && r.pool.store[id].table[t] == p.store[id].table[t]
    ensures forall k :: 0 <= k < |r.notes| ==> r.notes[k].ev == G.Notify(G.EntityWillBeRemoved, id)
    ensures id !in p.live ==> && r.pool == p && r.notes == []
                              && r.fired == E.WillRemoveComponent(p.store[id], ts).events
                              && r.err == E.WillRemoveComponent(p.store[id], ts).err
  {
    var e := p.store[id];
    var x := WillRemoveEach(p.fanout, HasEntity(p, Own(id)), id, e.table, p.groups, ts);
    WillRemoveEachAgrees(p.fanout, p.groups, e, ts);
    WithTableValid(p, id, x.table, p.groups);
    assert id !in p.live ==> WithTable(p, id, x.table, p.groups) == p;
    Step(WithTable(p, id, x.table, p.groups), x.fired, x.notes, x.err)
  }

  // ---------------------------------------------------------------------
  // Entity lifecycle

  /** The listing after a new entity: extended while it exists, left nil
      otherwise. */
  function AppendToCache(cache: Option<seq<EntityID>>, id: EntityID): (r: Option<seq<EntityID>>)
    ensures r.None? <==> cache.None?
  {
    if cache.Some? then Some(cache.value + [id]) else None
  }

  /** Extending a listing of the live entities by a new one lists the live
      entities afterwards. */
  lemma AppendToCacheLists(cache: Option<seq<EntityID>>, live: set<EntityID>, id: EntityID)
    requires cache.Some? ==> IsEnumeration(cache.value, live)
    requires id !in live
    ensures AppendToCache(cache, id).Some? ==> IsEnumeration(AppendToCache(cache, id).value, live + {id})
  {
    if cache.Some? {
      var s := cache.value + [id];
      forall i, j | 0 <= i < j < |s|
        ensures s[i] != s[j]
      {
        if j == |s| - 1 {
          assert s[i] == cache.value[i] && s[i] in live;
        }
      }
    }
  }

  /** The listing after a new entity as line 40 of pool.go writes it: a nil
      listing becomes a list of the new entity alone. */
  function AppendAsWritten(cache: Option<seq<EntityID>>, id: EntityID): (r: Option<seq<EntityID>>)
    ensures r.Some? && |r.value| > 0 && r.value[|r.value| - 1] == id
    ensures cache.None? ==> r.value == [id]
  {
    Some((if cache.Some? then cache.value else []) + [id])
  }

  /** The last step of `CreateEntity`: entity `id`, already holding its
      components, becomes live and listed, and every group judges it. */
  function Admit(q: Pool, id: EntityID, order: seq<MatcherHash>): (r: Destroyed)
    requires GroupsValid(q.groups) && IsEnumeration(order, q.groups.Keys)
    ensures r.pool == q.(live := q.live + {id}, cache := AppendToCache(q.cache, id), groups := r.pool.groups)
    ensures GroupsValid(r.pool.groups) && OnlyMoved(q.groups, r.pool.groups, id)
    ensures id in q.store ==> IdConsistent(r.pool.groups, id, q.store[id].table.Keys)
  {
    var ha := HandleEach(q.groups, order, id, if id in q.store then q.store[id].table.Keys else {});
    Destroyed(q.(live := q.live + {id}, cache := AppendToCache(q.cache, id), groups := ha.groups), ha.notes)
  }

  /** Admitting a routed entity that is neither live nor free keeps the
      invariant, and it moves only that entity's memberships. */
  lemma AdmitValid(q: Pool, id: EntityID, order: seq<MatcherHash>)
    requires Valid(q) && IsEnumeration(order, q.groups.Keys)
    requires id in q.store && id !in q.live && Routed(q.store[id])
    requires forall i :: 0 <= i < |q.unused| ==> q.unused[i] != id
    ensures Valid(Admit(q, id, order).pool)
  {
    var r := Admit(q, id, order).pool;
    AppendToCacheLists(q.cache, q.live, id);
    SameShapeKeeps(q.fanout, q.groups, r.groups);
  }

  /** Admitting an entity every group already judges correctly keeps every
      group agreeing with its matcher on every live entity. */
  lemma AdmitConsistent(q: Pool, id: EntityID, order: seq<MatcherHash>)
    requires GroupsValid(q.groups) && IsEnumeration(order, q.groups.Keys)
    requires Consistent(q) && q.live <= q.store.Keys && id in q.store
    ensures Consistent(Admit(q, id, order).pool)
  {
    MoveKeepsConsistent(q, Admit(q, id, order).pool, id);
  }

  /** Fetching an entity keeps every group agreeing with its matcher on
      every live entity: the fetched one is not live. */
  lemma GetEntityConsistent(p: Pool)
    requires Valid(p) && Consistent(p)
    ensures Consistent(GetEntity(p).pool)
  {
    var f := GetEntity(p);
    assert OnlyMoved(p.groups, f.pool.groups, f.id);
    MoveKeepsConsistent(p, f.pool, f.id);
  }

  /** `CreateEntity`: a recycled or fresh entity gets the components (the
      Added events fire, but the entity is not yet live, so no group hears
      them), becomes live and is listed by the corrected `AppendToCache`,
      and every group judges it once. */
  function CreateEntity(p: Pool, cs: seq<Component>, order: seq<MatcherHash>): (r: Created)
    requires Valid(p) && IsEnumeration(order, p.groups.Keys)
    ensures r.id !in p.live && r.pool.live == p.live + {r.id} && Count(r.pool) == Count(p) + 1
  {
    GetEntityValid(p);
    var f := GetEntity(p);
    var a := AddComponent(f.pool, f.id, cs);
    var d := Admit(a.pool, f.id, order);
    Created(d.pool, f.id, a.fired, a.notes + d.notes)
  }

  /** The entity `CreateEntity` uses: the oldest on the free list, else a
      fresh one with the next id. */
  lemma CreateEntityPicks(p: Pool, cs: seq<Component>, order: seq<MatcherHash>)
    requires Valid(p) && IsEnumeration(order, p.groups.Keys)
    ensures var r := CreateEntity(p, cs, order);
      && (|p.unused| > 0 ==> r.id == p.unused[0] && r.pool.unused == p.unused[1..] && r.pool.nextId == p.nextId)
      && (|p.unused| == 0 ==> r.id == p.nextId && r.id !in p.store && r.pool.nextId == p.nextId + 1 && r.pool.unused == [])
  {
    GetEntityValid(p);
    var f := GetEntity(p);
    var a := AddComponent(f.pool, f.id, cs);
    var d := Admit(a.pool, f.id, order);
    assert CreateEntity(p, cs, order) == Created(d.pool, f.id, a.fired, a.notes + d.notes);
    assert d.pool.unused == f.pool.unused && d.pool.nextId == f.pool.nextId;
  }

  /** The store gains no id but the new entity's. */
  lemma CreateEntityKeys(p: Pool, cs: seq<Component>, order: seq<MatcherHash>)
    requires Valid(p) && IsEnumeration(order, p.groups.Keys)
    ensures forall k :: k in CreateEntity(p, cs, order).pool.store ==> k in p.store || k == CreateEntity(p, cs, order).id
  {
    GetEntityValid(p);
    var f := GetEntity(p);
    var st := AddComponent(f.pool, f.id, cs).pool.store;
    assert CreateEntity(p, cs, order).pool.store == st && CreateEntity(p, cs, order).id == f.id;
  }

  /** No entity in the store changes but the new one. */
  lemma CreateEntityStore(p: Pool, cs: seq<Component>, order: seq<MatcherHash>)
    requires Valid(p) && IsEnumeration(order, p.groups.Keys)
    ensures var r := CreateEntity(p, cs, order);
      forall k :: k in p.store && k != r.id ==> k in r.pool.store && r.pool.store[k] == p.store[k]
  {
    GetEntityValid(p);
    var f := GetEntity(p);
    var st := AddComponent(f.pool, f.id, cs).pool.store;
    assert CreateEntity(p, cs, order).pool.store == st && CreateEntity(p, cs, order).id == f.id;
    UpdateKeeps(p.store, f.pool.store, st, f.id);
  }

  /** Two updates at one key leave every other entry as it was. */
  lemma UpdateKeeps(s0: map<EntityID, E.Entity>, s1: map<EntityID, E.Entity>, s2: map<EntityID, E.Entity>, id: EntityID)
    requires id in s1 && id in s2 && s1 == s0[id := s1[id]] && s2 == s1[id := s2[id]]
    ensures forall k :: k in s0 && k != id ==> k in s2 && s2[k] == s0[k]
  {
  }

  /** The new entity holds what `AddComponent` put in its table, and its
      Added events are the ones fired. */
  lemma CreateEntityEquips(p: Pool, cs: seq<Component>, order: seq<MatcherHash>)
    requires Valid(p) && IsEnumeration(order, p.groups.Keys)
    ensures var r := CreateEntity(p, cs, order);
      && r.pool.store[r.id] == E.AddComponent(GetEntity(p).pool.store[r.id], cs).entity
      && r.fired == E.AddComponent(GetEntity(p).pool.store[r.id], cs).events
  {
    GetEntityValid(p);
    var f := GetEntity(p);
    var a := AddComponent(f.pool, f.id, cs);
    var d := Admit(a.pool, f.id, order);
    assert CreateEntity(p, cs, order) == Created(d.pool, f.id, a.fired, a.notes + d.notes);
    assert d.pool.store == a.pool.store;
  }

  /** The listing is extended while it exists, and stays nil otherwise. */
  lemma CreateEntityCache(p: Pool, cs: seq<Component>, order: seq<MatcherHash>)
    requires Valid(p) && IsEnumeration(order, p.groups.Keys)
    ensures CreateEntity(p, cs, order).pool.cache == AppendToCache(p.cache, CreateEntity(p, cs, order).id)
  {
    GetEntityValid(p);
    var f := GetEntity(p);
    var a := AddComponent(f.pool, f.id, cs);
    var d := Admit(a.pool, f.id, order);
    assert CreateEntity(p, cs, order) == Created(d.pool, f.id, a.fired, a.notes + d.notes);
    assert d.pool.store == a.pool.store && d.pool.cache == AppendToCache(p.cache, f.id);
  }

  /** Creating keeps the invariant; its listing clause relies on the
      corrected append (`NilListingLoses` shows the append as written
      breaking it). */
  lemma CreateEntityValid(p: Pool, cs: seq<Component>, order: seq<MatcherHash>)
    requires Valid(p) && IsEnumeration(order, p.groups.Keys)
    ensures Valid(CreateEntity(p, cs, order).pool)
  {
    GetEntityValid(p);
    var f := GetEntity(p);
    var a := AddComponent(f.pool, f.id, cs);
    AddComponentValid(f.pool, f.id, cs);
    assert a.pool.store[f.id].callbacks == f.pool.store[f.id].callbacks;
    assert a.pool.unused == f.pool.unused && a.pool.groups == p.groups;
    AdmitValid(a.pool, f.id, order);
  }

  /** Only the new entity's memberships change, and every group judges it
      by the components it now holds. */
  lemma CreateEntityGroups(p: Pool, cs: seq<Component>, order: seq<MatcherHash>)
    requires Valid(p) && IsEnumeration(order, p.groups.Keys)
    ensures var r := CreateEntity(p, cs, order);
      && r.id in r.pool.store && OnlyMoved(p.groups, r.pool.groups, r.id)
      && IdConsistent(r.pool.groups, r.id, r.pool.store[r.id].table.Keys)
  {
    GetEntityValid(p);
    var f := GetEntity(p);
    var a := AddComponent(f.pool, f.id, cs);
    assert a.pool.groups == p.groups;
  }

  /** A new entity leaves every group agreeing with its matcher on every live
      entity, whatever the matchers. */
  lemma CreateEntityConsistent(p: Pool, cs: seq<Component>, order: seq<MatcherHash>)
    requires Valid(p) && IsEnumeration(order, p.groups.Keys) && Consistent(p)
    ensures Consistent(CreateEntity(p, cs, order).pool)
  {
    GetEntityValid(p);
    GetEntityConsistent(p);
    var f := GetEntity(p);
    AddComponentValid(f.pool, f.id, cs);
    AddComponentConsistent(f.pool, f.id, cs);
    var a := AddComponent(f.pool, f.id, cs);
    AdmitConsistent(a.pool, f.id, order);
  }

  /** The group events of `CreateEntity`: EntityAdded from exactly the
      groups that accept the new entity. */
  lemma CreateEntityNotes(p: Pool, cs: seq<Component>, order: seq<MatcherHash>)
    requires Valid(p) && IsEnumeration(order, p.groups.Keys)
    ensures var r := CreateEntity(p, cs, order);
      r.id in r.pool.store &&
      forall h :: GroupNote(h, G.Notify(G.EntityAdded, r.id)) in r.notes <==>
        h in p.groups && Matches(p.groups[h].matcher, r.pool.store[r.id].table.Keys) && r.id !in p.groups[h].members
  {
    GetEntityValid(p);
    var f := GetEntity(p);
    var a := AddComponent(f.pool, f.id, cs);
    assert a.pool.groups == p.groups && a.notes == [];
    HandleEachAdded(a.pool.groups, order, f.id, a.pool.store[f.id].table.Keys);
  }

  /** `DestroyEntity`, defined only for the context's own live instance (any
      other handle panics): the entity loses its components and callbacks,
      leaves the live set and the listing, every group judges it with no
      components, and it joins the end of the free list. */
  function DestroyEntity(p: Pool, h: Handle, order: seq<MatcherHash>): (r: Destroyed)
    requires Valid(p) && HasEntity(p, h) && IsEnumeration(order, p.groups.Keys)
    ensures h.id !in r.pool.live && r.pool.live == p.live - {h.id} && Count(r.pool) == Count(p) - 1
    ensures r.pool.store == p.store[h.id := p.store[h.id].(table := map[], callbacks := map[])]
    ensures r.pool.unused == p.unused + [h.id] && r.pool.cache.None?
    ensures r.pool.nextId == p.nextId && r.pool.fanout == p.fanout
    ensures OnlyMoved(p.groups, r.pool.groups, h.id) && IdConsistent(r.pool.groups, h.id, {})
  {
    var e := p.store[h.id];
    var stripped := E.RemoveAllCallbacks(e.(table := map[]));
    var ha := HandleEach(p.groups, order, h.id, {});
    Destroyed(p.(store := p.store[h.id := stripped], live := p.live - {h.id}, cache := None,
                 groups := ha.groups, unused := p.unused + [h.id]), ha.notes)
  }

  lemma DestroyEntityValid(p: Pool, h: Handle, order: seq<MatcherHash>)
    requires Valid(p) && HasEntity(p, h) && IsEnumeration(order, p.groups.Keys)
    ensures Valid(DestroyEntity(p, h, order).pool)
  {
    var r := DestroyEntity(p, h, order);
    SameShapeKeeps(p.fanout, p.groups, r.pool.groups);
    forall i | 0 <= i < |r.pool.unused|
      ensures r.pool.unused[i] in r.pool.store && r.pool.unused[i] !in r.pool.live
      ensures r.pool.store[r.pool.unused[i]].callbacks == map[]
    {
      if i < |p.unused| {
        assert r.pool.unused[i] == p.unused[i];
      }
    }
    assert Distinct(r.pool.unused) by {
      forall i, j | 0 <= i < j < |r.pool.unused|
        ensures r.pool.unused[i] != r.pool.unused[j]
      {
        if j == |p.unused| {
          assert r.pool.unused[i] == p.unused[i] && p.unused[i] !in p.live;
        }
      }
    }
  }

  /** Destroying an entity leaves every group agreeing with its matcher on
      every live entity, whatever the matchers. */
  lemma DestroyEntityConsistent(p: Pool, h: Handle, order: seq<MatcherHash>)
    requires Valid(p) && HasEntity(p, h) && IsEnumeration(order, p.groups.Keys) && Consistent(p)
    ensures Consistent(DestroyEntity(p, h, order).pool)
  {
    MoveKeepsConsistent(p, DestroyEntity(p, h, order).pool, h.id);
  }

  /** Some type in the table has group `h` in its fan-out. */
  predicate Held(fanout: map<ComponentType, seq<MatcherHash>>, h: MatcherHash, table: map<ComponentType, Component>)
  {
    exists t :: t in table && h in FanoutOf(fanout, t)
  }

  /** The WillBeRemoved pass of `RemoveAllComponents` on a live entity: the
      lookahead runs for each held type, in the table's iteration order
      `ts`, on the very map being walked (the loop's `components` is the
      entity's own map), so a type whose last fan-out group accepts the
      entity without it is gone for good. What is left is the map the
      Removed pass then walks. */
  function Survivors(fanout: map<ComponentType, seq<MatcherHash>>, groups: map<MatcherHash, G.Group>, id: EntityID,
                     table: map<ComponentType, Component>, ts: seq<ComponentType>): (r: map<ComponentType, Component>)
    requires E.WellTyped(table) && FanoutSound(fanout, groups)
    ensures E.WellTyped(r) && forall t :: t in r ==> t in table && r[t] == table[t]
  {
    WillRemoveEach(fanout, true, id, table, groups, ts).table
  }

  /** The lookahead's table depends on the matchers of the listed groups
      only, not on their memberships. */
  lemma {:induction false} LookaheadShape(g1: map<MatcherHash, G.Group>, g2: map<MatcherHash, G.Group>, hs: seq<MatcherHash>,
                                          id: EntityID, table: map<ComponentType, Component>, c: Component)
    requires AllIn(hs, g1) && SameShape(g1, g2)
    ensures AllIn(hs, g2) && LookaheadEach(g1, hs, id, table, c).table == LookaheadEach(g2, hs, id, table, c).table
    decreases |hs|
  {
    if hs != [] {
      var deleted := table - {c.ctype};
      var keep := Matches(g1[hs[0]].matcher, deleted.Keys);
      LookaheadShape(g1, g2, hs[1..], id, if keep then deleted else deleted[c.ctype := c], c);
    }
  }

  /** Which types survive the WillBeRemoved pass depends on the matchers,
      not on the memberships. */
  lemma {:induction false} SurvivorsShape(fanout: map<ComponentType, seq<MatcherHash>>, g1: map<MatcherHash, G.Group>,
                                          g2: map<MatcherHash, G.Group>, id: EntityID,
                                          table: map<ComponentType, Component>, ts: seq<ComponentType>)
    requires E.WellTyped(table) && FanoutSound(fanout, g1) && SameShape(g1, g2)
    ensures FanoutSound(fanout, g2) && Survivors(fanout, g1, id, table, ts) == Survivors(fanout, g2, id, table, ts)
    decreases |ts|
  {
    SameShapeKeeps(fanout, g1, g2);
    if ts != [] && ts[0] in table {
      var c := table[ts[0]];
      var hs := Route(fanout, true, ts[0]);
      LookaheadShape(g1, g2, hs, id, table, c);
      var la := LookaheadEach(g1, hs, id, table, c);
      SurvivorsShape(fanout, g1, g2, id, la.table, ts[1..]);
    }
  }

  /** The Removed pass of `RemoveAllComponents` on a live entity: every
      group in the fan-out of a type that survived the WillBeRemoved pass
      judges it with no components (a group in several such fan-outs judges
      it again, to the same verdict); the other groups are not touched. */
  function StripGroups(fanout: map<ComponentType, seq<MatcherHash>>, groups: map<MatcherHash, G.Group>,
                       id: EntityID, survivors: map<ComponentType, Component>): (r: map<MatcherHash, G.Group>)
    requires GroupsValid(groups)
    ensures GroupsValid(r) && OnlyMoved(groups, r, id)
    ensures forall h :: h in groups && Held(fanout, h, survivors) ==> (id in r[h].members <==> Matches(groups[h].matcher, {}))
    ensures forall h :: h in groups && !Held(fanout, h, survivors) ==> r[h] == groups[h]
  {
    map h | h in groups :: if Held(fanout, h, survivors) then G.HandleEntity(groups[h], id, {}).group else groups[h]
  }

  /** Each listed entity is well typed and has a table iteration order. */
  predicate Strippable(store: map<EntityID, E.Entity>, orders: map<EntityID, seq<ComponentType>>, ids: seq<EntityID>)
  {
    forall i :: 0 <= i < |ids| ==> ids[i] in store && ids[i] in orders && E.WellTyped(store[ids[i]].table)
  }

  /** Strips the listed entities one after the other, each while it is
      still live: the WillBeRemoved pass, the Removed pass over what
      survived it, then no components and no callbacks. */
  function StripEach(fanout: map<ComponentType, seq<MatcherHash>>, store: map<EntityID, E.Entity>,
                     groups: map<MatcherHash, G.Group>, orders: map<EntityID, seq<ComponentType>>, ids: seq<EntityID>): (r: Stripped)
    requires GroupsValid(groups) && FanoutSound(fanout, groups) && Strippable(store, orders, ids)
    ensures GroupsValid(r.groups) && SameShape(groups, r.groups) && r.store.Keys == store.Keys
    decreases |ids|
  {
    if ids == [] then Stripped(store, groups)
    else
      var id := ids[0];
      var g1 := StripGroups(fanout, groups, id, Survivors(fanout, groups, id, store[id].table, orders[id]));
      SameShapeKeeps(fanout, groups, g1);
      var s1 := store[id := store[id].(table := map[], callbacks := map[])];
      assert Strippable(s1, orders, ids[1..]) by {
        forall i | 0 <= i < |ids[1..]|
          ensures ids[1..][i] in s1 && E.WellTyped(s1[ids[1..][i]].table)
        {
          assert ids[1..][i] == ids[i + 1];
        }
      }
      StripEach(fanout, s1, g1, orders, ids[1..])
  }

  /** One step of `StripEach`: the first entity is stripped, and the rest
      are stripped from the resulting store and groups. */
  lemma StripStep(fanout: map<ComponentType, seq<MatcherHash>>, store: map<EntityID, E.Entity>,
                  groups: map<MatcherHash, G.Group>, orders: map<EntityID, seq<ComponentType>>, ids: seq<EntityID>)
    requires GroupsValid(groups) && FanoutSound(fanout, groups) && Strippable(store, orders, ids) && |ids| > 0
    ensures var g1 := StripGroups(fanout, groups, ids[0], Survivors(fanout, groups, ids[0], store[ids[0]].table, orders[ids[0]]));
            var s1 := store[ids[0] := store[ids[0]].(table := map[], callbacks := map[])];
            && FanoutSound(fanout, g1) && SameShape(groups, g1) && Strippable(s1, orders, ids[1..])
            && StripEach(fanout, store, groups, orders, ids) == StripEach(fanout, s1, g1, orders, ids[1..])
  {
    var id := ids[0];
    var g1 := StripGroups(fanout, groups, id, Survivors(fanout, groups, id, store[id].table, orders[id]));
    SameShapeKeeps(fanout, groups, g1);
    var s1 := store[id := store[id].(table := map[], callbacks := map[])];
    forall i | 0 <= i < |ids[1..]|
      ensures ids[1..][i] in s1 && ids[1..][i] in orders && E.WellTyped(s1[ids[1..][i]].table)
    {
      assert ids[1..][i] == ids[i + 1];
    }
  }

  /** After the first entity is stripped, every other listed entity still
      has its table and the same types survive its WillBeRemoved pass. */
  lemma StripRest(fanout: map<ComponentType, seq<MatcherHash>>, store: map<EntityID, E.Entity>,
                  groups: map<MatcherHash, G.Group>, g1: map<MatcherHash, G.Group>,
                  orders: map<EntityID, seq<ComponentType>>, ids: seq<EntityID>)
    requires FanoutSound(fanout, groups) && FanoutSound(fanout, g1) && SameShape(groups, g1) && Strippable(store, orders, ids)
    requires Distinct(ids) && |ids| > 0
    ensures forall k :: k in ids[1..] ==>
              && k != ids[0]
              && store[ids[0] := store[ids[0]].(table := map[], callbacks := map[])][k] == store[k]
              && Survivors(fanout, g1, k, store[k].table, orders[k]) == Survivors(fanout, groups, k, store[k].table, orders[k])
  {
    forall k | k in ids[1..]
      ensures k != ids[0] && k in store && k in orders && E.WellTyped(store[k].table)
      ensures Survivors(fanout, g1, k, store[k].table, orders[k]) == Survivors(fanout, groups, k, store[k].table, orders[k])
    {
      var j :| 0 <= j < |ids[1..]| && ids[1..][j] == k;
      assert ids[1..][j] == ids[j + 1];
      SurvivorsShape(fanout, groups, g1, k, store[k].table, orders[k]);
    }
  }

  /** Every listed entity ends with no components and no callbacks; the
      others are untouched. */
  lemma {:induction false} StripEachStore(fanout: map<ComponentType, seq<MatcherHash>>, store: map<EntityID, E.Entity>,
                                          groups: map<MatcherHash, G.Group>, orders: map<EntityID, seq<ComponentType>>, ids: seq<EntityID>)
    requires GroupsValid(groups) && FanoutSound(fanout, groups) && Strippable(store, orders, ids)
    ensures forall k :: k in store ==>
              StripEach(fanout, store, groups, orders, ids).store[k] ==
                (if k in ids then store[k].(table := map[], callbacks := map[]) else store[k])
    decreases |ids|
  {
    if ids != [] {
      var id := ids[0];
      var g1 := StripGroups(fanout, groups, id, Survivors(fanout, groups, id, store[id].table, orders[id]));
      var s1 := store[id := store[id].(table := map[], callbacks := map[])];
      StripStep(fanout, store, groups, orders, ids);
      StripEachStore(fanout, s1, g1, orders, ids[1..]);
      assert forall k :: k in ids <==> k == id || k in ids[1..];
    }
  }

  /** The first listed entity is not among the rest, and the rest keep
      their tables after it is stripped. */
  lemma StripHead(store: map<EntityID, E.Entity>, ids: seq<EntityID>)
    requires Distinct(ids) && |ids| > 0 && ids[0] in store
    ensures ids[0] !in ids[1..]
    ensures forall k :: k in ids <==> k == ids[0] || k in ids[1..]
    ensures Distinct(ids[1..])
  {
    forall j | 0 <= j < |ids[1..]|
      ensures ids[1..][j] != ids[0]
    {
      assert ids[1..][j] == ids[j + 1];
    }
  }

  /** An entity that is not listed keeps every membership. */
  lemma {:induction false} StripEachKeeps(fanout: map<ComponentType, seq<MatcherHash>>, store: map<EntityID, E.Entity>,
                                          groups: map<MatcherHash, G.Group>, orders: map<EntityID, seq<ComponentType>>, ids: seq<EntityID>)
    requires GroupsValid(groups) && FanoutSound(fanout, groups) && Strippable(store, orders, ids)
    ensures forall h, k :: h in groups && k !in ids ==>
              (k in StripEach(fanout, store, groups, orders, ids).groups[h].members <==> k in groups[h].members)
    decreases |ids|
  {
    if ids != [] {
      var id := ids[0];
      var g1 := StripGroups(fanout, groups, id, Survivors(fanout, groups, id, store[id].table, orders[id]));
      var s1 := store[id := store[id].(table := map[], callbacks := map[])];
      StripStep(fanout, store, groups, orders, ids);
      StripEachKeeps(fanout, s1, g1, orders, ids[1..]);
      assert forall k :: k in ids <==> k == id || k in ids[1..];
    }
  }

  /** A listed entity ends in exactly those groups in the fan-out of the
      types that survived its WillBeRemoved pass that accept an entity with
      no components, and otherwise keeps its memberships. */
  lemma {:induction false} StripEachMembers(fanout: map<ComponentType, seq<MatcherHash>>, store: map<EntityID, E.Entity>,
                                            groups: map<MatcherHash, G.Group>, orders: map<EntityID, seq<ComponentType>>, ids: seq<EntityID>)
    requires GroupsValid(groups) && FanoutSound(fanout, groups) && Strippable(store, orders, ids) && Distinct(ids)
    ensures forall h, k :: h in groups && k in ids ==>
              (k in StripEach(fanout, store, groups, orders, ids).groups[h].members <==>
               if Held(fanout, h, Survivors(fanout, groups, k, store[k].table, orders[k]))
               then Matches(groups[h].matcher, {}) else k in groups[h].members)
    decreases |ids|
  {
    if ids != [] {
      var id := ids[0];
      var g1 := StripGroups(fanout, groups, id, Survivors(fanout, groups, id, store[id].table, orders[id]));
      var s1 := store[id := store[id].(table := map[], callbacks := map[])];
      StripStep(fanout, store, groups, orders, ids);
      StripHead(store, ids);
      StripRest(fanout, store, groups, g1, orders, ids);
      StripEachMembers(fanout, s1, g1, orders, ids[1..]);
      StripEachKeeps(fanout, s1, g1, orders, ids[1..]);
    }
  }

  /** `DestroyAllEntities`: every live entity, in the live map's iteration
      order `order`, is stripped while still live, its held types walked in
      the order `orders` gives for its table; then nothing is live and the
      listing is nil. The free list is not extended, so these entities are
      never handed out again. */
  function DestroyAllEntities(p: Pool, order: seq<EntityID>, orders: map<EntityID, seq<ComponentType>>): (r: Pool)
    requires Valid(p) && IsEnumeration(order, p.live)
    requires forall k :: k in p.live ==> k in orders && IsEnumeration(orders[k], p.store[k].table.Keys)
    ensures Count(r) == 0 && r.cache.None?
    ensures r.unused == p.unused && r.nextId == p.nextId && r.fanout == p.fanout
    ensures SameShape(p.groups, r.groups) && r.store.Keys == p.store.Keys
  {
    assert Strippable(p.store, orders, order);
    var s := StripEach(p.fanout, p.store, p.groups, orders, order);
    p.(store := s.store, live := {}, cache := None, groups := s.groups)
  }

  /** Every entity that was live ends with no components and no callbacks;
      the others are untouched. */
  lemma DestroyAllStore(p: Pool, order: seq<EntityID>, orders: map<EntityID, seq<ComponentType>>)
    requires Valid(p) && IsEnumeration(order, p.live)
    requires forall k :: k in p.live ==> k in orders && IsEnumeration(orders[k], p.store[k].table.Keys)
    ensures forall k :: k in p.store ==>
              DestroyAllEntities(p, order, orders).store[k] ==
                (if k in p.live then p.store[k].(table := map[], callbacks := map[]) else p.store[k])
  {
    assert Strippable(p.store, orders, order);
    StripEachStore(p.fanout, p.store, p.groups, orders, order);
  }

  lemma DestroyAllValid(p: Pool, order: seq<EntityID>, orders: map<EntityID, seq<ComponentType>>)
    requires Valid(p) && IsEnumeration(order, p.live)
    requires forall k :: k in p.live ==> k in orders && IsEnumeration(orders[k], p.store[k].table.Keys)
    ensures Valid(DestroyAllEntities(p, order, orders))
  {
    var r := DestroyAllEntities(p, order, orders);
    DestroyAllStore(p, order, orders);
    SameShapeKeeps(p.fanout, p.groups, r.groups);
    assert forall k :: k in r.store ==> r.store[k].id == k && k < r.nextId && E.WellTyped(r.store[k].table);
    assert forall i :: 0 <= i < |r.unused| ==> r.store[r.unused[i]] == p.store[p.unused[i]];
  }

  /** Each entity that was live ends in exactly those groups in the fan-out
      of the types that survived its WillBeRemoved pass that accept an
      entity with no components, and keeps its membership elsewhere; no
      other membership changes. */
  lemma DestroyAllMembers(p: Pool, order: seq<EntityID>, orders: map<EntityID, seq<ComponentType>>)
    requires Valid(p) && IsEnumeration(order, p.live)
    requires forall k :: k in p.live ==> k in orders && IsEnumeration(orders[k], p.store[k].table.Keys)
    ensures forall h, k :: h in p.groups && k !in p.live ==>
              (k in DestroyAllEntities(p, order, orders).groups[h].members <==> k in p.groups[h].members)
    ensures forall h, k :: h in p.groups && k in p.live ==>
              (k in DestroyAllEntities(p, order, orders).groups[h].members <==>
               if Held(p.fanout, h, Survivors(p.fanout, p.groups, k, p.store[k].table, orders[k]))
               then Matches(p.groups[h].matcher, {}) else k in p.groups[h].members)
  {
    assert Strippable(p.store, orders, order);
    StripEachKeeps(p.fanout, p.store, p.groups, orders, order);
    StripEachMembers(p.fanout, p.store, p.groups, orders, order);
    assert forall k :: k in order <==> k in p.live;
  }

  /** A group whose matcher declares no types (the example's position
      matcher) is in no fan-out list, so it keeps every member through
      `DestroyAllEntities`, though none of them is live afterwards. */
  lemma DestroyAllKeepsUndeclared(p: Pool, order: seq<EntityID>, orders: map<EntityID, seq<ComponentType>>, h: MatcherHash)
    requires Valid(p) && IsEnumeration(order, p.live)
    requires forall k :: k in p.live ==> k in orders && IsEnumeration(orders[k], p.store[k].table.Keys)
    requires h in p.groups && p.groups[h].matcher.deps == []
    ensures DestroyAllEntities(p, order, orders).groups[h].members == p.groups[h].members
  {
    DestroyAllMembers(p, order, orders);
    var r := DestroyAllEntities(p, order, orders);
    forall k
      ensures k in r.groups[h].members <==> k in p.groups[h].members
    {
      if k in p.live {
        UndeclaredNotHeld(p.fanout, p.groups, h, Survivors(p.fanout, p.groups, k, p.store[k].table, orders[k]));
      }
    }
    assert forall k :: k in r.groups[h].members <==> k in p.groups[h].members;
  }

  /** A group that declares no types is in no fan-out list. */
  lemma UndeclaredNotHeld(fanout: map<ComponentType, seq<MatcherHash>>, groups: map<MatcherHash, G.Group>,
                          h: MatcherHash, table: map<ComponentType, Component>)
    requires FanoutSound(fanout, groups) && h in groups && groups[h].matcher.deps == []
    ensures !Held(fanout, h, table)
  {
  }

  /** A matcher rejects every entity that lacks one of its declared types
      (an all-of matcher). */
  ghost predicate NeedsDeclared(m: Matcher)
  {
    forall present, t :: t in m.deps && t !in present ==> !Matches(m, present)
  }

  /** When every matcher needs the types it declares, the lookahead always
      puts the component back, so every held type survives the
      WillBeRemoved pass. */
  lemma {:induction false} SurvivorsAll(fanout: map<ComponentType, seq<MatcherHash>>, groups: map<MatcherHash, G.Group>, id: EntityID,
                                        table: map<ComponentType, Component>, ts: seq<ComponentType>)
    requires E.WellTyped(table) && FanoutSound(fanout, groups)
    requires forall h :: h in groups ==> NeedsDeclared(groups[h].matcher)
    ensures Survivors(fanout, groups, id, table, ts) == table
    decreases |ts|
  {
    if ts != [] && ts[0] in table {
      var t := ts[0];
      var c := table[t];
      var hs := Route(fanout, true, t);
      var la := LookaheadEach(groups, hs, id, table, c);
      if hs != [] {
        var last := hs[|hs| - 1];
        assert last in groups && t in groups[last].matcher.deps;
        assert !Matches(groups[last].matcher, table.Keys - {c.ctype});
      }
      assert (table - {c.ctype})[c.ctype := c] == table;
      assert la.table == table;
      SurvivorsAll(fanout, groups, id, table, ts[1..]);
    }
  }

  /** With all-of matchers, destroying all entities drops each of them from
      every group that declares one of the types it held. */
  lemma DestroyAllDropsDeclared(p: Pool, order: seq<EntityID>, orders: map<EntityID, seq<ComponentType>>)
    requires Valid(p) && IsEnumeration(order, p.live)
    requires forall k :: k in p.live ==> k in orders && IsEnumeration(orders[k], p.store[k].table.Keys)
    requires forall h :: h in p.groups ==> NeedsDeclared(p.groups[h].matcher)
    ensures forall h, k :: h in p.groups && k in p.live && Held(p.fanout, h, p.store[k].table) ==>
              k !in DestroyAllEntities(p, order, orders).groups[h].members
  {
    DestroyAllMembers(p, order, orders);
    forall h, k | h in p.groups && k in p.live && Held(p.fanout, h, p.store[k].table)
      ensures k !in DestroyAllEntities(p, order, orders).groups[h].members
    {
      SurvivorsAll(p.fanout, p.groups, k, p.store[k].table, orders[k]);
      RejectsEmpty(p.fanout, p.groups, h, p.store[k].table);
    }
  }

  /** An all-of matcher in the fan-out of a held type rejects an entity
      with no components. */
  lemma RejectsEmpty(fanout: map<ComponentType, seq<MatcherHash>>, groups: map<MatcherHash, G.Group>,
                     h: MatcherHash, table: map<ComponentType, Component>)
    requires FanoutSound(fanout, groups) && h in groups && NeedsDeclared(groups[h].matcher) && Held(fanout, h, table)
    ensures !Matches(groups[h].matcher, {})
  {
    var t :| t in table && h in FanoutOf(fanout, t);
    var i :| 0 <= i < |fanout[t]| && fanout[t][i] == h;
    assert t in groups[h].matcher.deps;
  }

  // ---------------------------------------------------------------------
  // Groups: lookup, seeding and registration

  /** A fresh group after `HandleEntity` for each listed entity in turn. */
  function Seed(g: G.Group, store: map<EntityID, E.Entity>, ids: seq<EntityID>): (r: G.Group)
    requires G.Valid(g) && forall i :: 0 <= i < |ids| ==> ids[i] in store
    ensures G.Valid(r) && r.matcher == g.matcher
    decreases |ids|
  {
    if ids == [] then g
    else Seed(G.HandleEntity(g, ids[0], store[ids[0]].table.Keys).group, store, ids[1..])
  }

  /** Seeding admits exactly the listed entities the matcher accepts and
      leaves every other membership alone. */
  lemma {:induction false} SeedMembers(g: G.Group, store: map<EntityID, E.Entity>, ids: seq<EntityID>)
    requires G.Valid(g) && forall i :: 0 <= i < |ids| ==> ids[i] in store
    ensures forall k :: k in Seed(g, store, ids).members <==>
              if k in ids then Matches(g.matcher, store[k].table.Keys) else k in g.members
    decreases |ids|
  {
    if ids != [] {
      var g1 := G.HandleEntity(g, ids[0], store[ids[0]].table.Keys).group;
      SeedMembers(g1, store, ids[1..]);
      assert forall k :: k in ids <==> k == ids[0] || k in ids[1..];
    }
  }

  /** The listed entities the matcher accepts, in list order. */
  function Accepted(m: Matcher, store: map<EntityID, E.Entity>, ids: seq<EntityID>): (r: seq<EntityID>)
    requires forall i :: 0 <= i < |ids| ==> ids[i] in store
    ensures forall k :: k in r <==> k in ids && Matches(m, store[k].table.Keys)
    ensures Distinct(ids) ==> Distinct(r)
    decreases |ids|
  {
    if ids == [] then []
    else
      var rest := Accepted(m, store, ids[1..]);
      assert forall k :: k in ids <==> k == ids[0] || k in ids[1..];
      assert Distinct(ids) ==> ids[0] !in ids[1..] && Distinct(ids[1..]) by {
        if Distinct(ids) {
          forall j | 0 <= j < |ids[1..]|
            ensures ids[1..][j] != ids[0]
          {
            assert ids[1..][j] == ids[j + 1];
          }
        }
      }
      if Matches(m, store[ids[0]].table.Keys) then [ids[0]] + rest else rest
  }

  /** Seeding a group with a valid cache and none of the listed (distinct)
      entities keeps the cache valid and appends the accepted ones in list
      order: a new group lists its seed entities in the live map's
      iteration order. */
  lemma {:induction false} SeedLists(g: G.Group, store: map<EntityID, E.Entity>, ids: seq<EntityID>)
    requires G.Valid(g) && !g.cacheInvalidated && Distinct(ids)
    requires forall i :: 0 <= i < |ids| ==> ids[i] in store && ids[i] !in g.members
    ensures !Seed(g, store, ids).cacheInvalidated
    ensures Seed(g, store, ids).cache == g.cache + Accepted(g.matcher, store, ids)
    decreases |ids|
  {
    if ids != [] {
      var g1 := G.HandleEntity(g, ids[0], store[ids[0]].table.Keys).group;
      SeedTail(g, g1, store, ids);
      SeedLists(g1, store, ids[1..]);
      assert Seed(g, store, ids) == Seed(g1, store, ids[1..]);
      var rest := Accepted(g.matcher, store, ids[1..]);
      if Matches(g.matcher, store[ids[0]].table.Keys) {
        assert Accepted(g.matcher, store, ids) == [ids[0]] + rest;
        ConcatAssoc(g.cache, [ids[0]], rest);
      } else {
        assert Accepted(g.matcher, store, ids) == rest;
      }
    }
  }

  lemma ConcatAssoc(a: seq<EntityID>, b: seq<EntityID>, c: seq<EntityID>)
    ensures a + b + c == a + (b + c)
  {
  }

  /** One step of `SeedLists`: after handling the first entity the group
      still has a valid cache, extended by that entity iff it is accepted,
      and the rest of the list is distinct and holds no member. */
  lemma SeedTail(g: G.Group, g1: G.Group, store: map<EntityID, E.Entity>, ids: seq<EntityID>)
    requires G.Valid(g) && !g.cacheInvalidated && Distinct(ids) && |ids| > 0
    requires forall i :: 0 <= i < |ids| ==> ids[i] in store && ids[i] !in g.members
    requires g1 == G.HandleEntity(g, ids[0], store[ids[0]].table.Keys).group
    ensures G.Valid(g1) && !g1.cacheInvalidated && g1.matcher == g.matcher && Distinct(ids[1..])
    ensures g1.cache == if Matches(g.matcher, store[ids[0]].table.Keys) then g.cache + [ids[0]] else g.cache
    ensures forall i :: 0 <= i < |ids[1..]| ==> ids[1..][i] in store && ids[1..][i] !in g1.members
  {
    forall i | 0 <= i < |ids[1..]|
      ensures ids[1..][i] in store && ids[1..][i] !in g1.members
    {
      assert ids[1..][i] == ids[i + 1] && ids[i + 1] != ids[0];
    }
    assert Distinct(ids[1..]) by {
      forall i, j | 0 <= i < j < |ids[1..]|
        ensures ids[1..][i] != ids[1..][j]
      {
        assert ids[1..][i] == ids[i + 1] && ids[1..][j] == ids[j + 1];
      }
    }
  }

  /** `n` copies of `h`. */
  function Repeat(h: MatcherHash, n: nat): (r: seq<MatcherHash>)
    ensures |r| == n && forall i :: 0 <= i < n ==> r[i] == h
  {
    seq(n, _ => h)
  }

  /** Appends group `h` to the fan-out list of each listed type, once per
      occurrence (a nil list starts empty). */
  function RegisterDeps(fanout: map<ComponentType, seq<MatcherHash>>, deps: seq<ComponentType>, h: MatcherHash): (r: map<ComponentType, seq<MatcherHash>>)
    ensures forall t :: t in r <==> t in fanout || t in deps
    decreases |deps|
  {
    if deps == [] then fanout
    else
      assert forall t :: t in deps <==> t == deps[0] || t in deps[1..];
      RegisterDeps(fanout[deps[0] := FanoutOf(fanout, deps[0]) + [h]], deps[1..], h)
  }

  /** Each type's fan-out list gains one entry for `h` per occurrence of the
      type in `deps`, after what it held before. */
  lemma {:induction false} RegisterDepsLists(fanout: map<ComponentType, seq<MatcherHash>>, deps: seq<ComponentType>, h: MatcherHash)
    ensures forall t :: FanoutOf(RegisterDeps(fanout, deps, h), t) == FanoutOf(fanout, t) + Repeat(h, multiset(deps)[t])
    decreases |deps|
  {
    if deps != [] {
      var f1 := fanout[deps[0] := FanoutOf(fanout, deps[0]) + [h]];
      RegisterDepsLists(f1, deps[1..], h);
      assert RegisterDeps(fanout, deps, h) == RegisterDeps(f1, deps[1..], h);
      forall t
        ensures FanoutOf(RegisterDeps(fanout, deps, h), t) == FanoutOf(fanout, t) + Repeat(h, multiset(deps)[t])
      {
        CountHead(deps, t);
        RegisterOne(fanout, deps[0], h, t, multiset(deps[1..])[t]);
      }
    }
  }

  /** Occurrences in a non-empty sequence: the head's, plus the tail's. */
  lemma CountHead(deps: seq<ComponentType>, t: ComponentType)
    requires deps != []
    ensures multiset(deps)[t] == (if t == deps[0] then 1 else 0) + multiset(deps[1..])[t]
  {
    assert deps == [deps[0]] + deps[1..];
  }

  /** Appending `h` to type `d`'s list, then `n` more copies, gives each
      type its old list plus one copy per occurrence. */
  lemma RegisterOne(fanout: map<ComponentType, seq<MatcherHash>>, d: ComponentType, h: MatcherHash, t: ComponentType, n: nat)
    ensures FanoutOf(fanout[d := FanoutOf(fanout, d) + [h]], t) + Repeat(h, n)
         == FanoutOf(fanout, t) + Repeat(h, (if t == d then 1 else 0) + n)
  {
    if t == d {
      assert Repeat(h, n + 1) == [h] + Repeat(h, n);
    }
  }

  /** `Group`: the group registered under the matcher's hash if there is
      one (whatever its matcher); otherwise a new group seeded with the
      live entities in the live map's iteration order `order`, registered
      under the hash and appended to the fan-out of each declared type. */
  function Group(p: Pool, m: Matcher, order: seq<EntityID>): (r: Lookup)
    requires Valid(p) && IsEnumeration(order, p.live)
    ensures r.hash == m.hash && r.hash in r.pool.groups
    ensures m.hash in p.groups ==> r.pool == p
    ensures m.hash !in p.groups ==> && r.pool == p.(groups := r.pool.groups, fanout := r.pool.fanout)
                                    && r.pool.groups == p.groups[m.hash := r.pool.groups[m.hash]]
                                    && r.pool.groups[m.hash].matcher == m
  {
    if m.hash in p.groups then Lookup(p, m.hash)
    else
      var g := Seed(G.NewGroup(m), p.store, order);
      Lookup(p.(groups := p.groups[m.hash := g], fanout := RegisterDeps(p.fanout, m.deps, m.hash)), m.hash)
  }

  /** A new group holds exactly the live entities its matcher accepts, and
      its valid cache lists them in the live map's iteration order. */
  lemma GroupSeeds(p: Pool, m: Matcher, order: seq<EntityID>)
    requires Valid(p) && IsEnumeration(order, p.live) && m.hash !in p.groups
    ensures var g := Group(p, m, order).pool.groups[m.hash];
      && (forall k :: k in g.members <==> k in p.live && Matches(m, p.store[k].table.Keys))
      && !g.cacheInvalidated && g.cache == Accepted(m, p.store, order)
  {
    SeedMembers(G.NewGroup(m), p.store, order);
    SeedLists(G.NewGroup(m), p.store, order);
  }

  /** A new group's hash is added to the fan-out of exactly the types its
      matcher declares, once per occurrence; a known hash leaves the
      fan-out alone. */
  lemma GroupRegisters(p: Pool, m: Matcher, order: seq<EntityID>)
    requires Valid(p) && IsEnumeration(order, p.live)
    ensures var r := Group(p, m, order).pool;
      forall t :: FanoutOf(r.fanout, t) ==
                    FanoutOf(p.fanout, t) + (if m.hash in p.groups then [] else Repeat(m.hash, multiset(m.deps)[t]))
  {
    RegisterDepsLists(p.fanout, m.deps, m.hash);
  }

  lemma GroupValid(p: Pool, m: Matcher, order: seq<EntityID>)
    requires Valid(p) && IsEnumeration(order, p.live)
    ensures Valid(Group(p, m, order).pool)
  {
    if m.hash !in p.groups {
      var r := Group(p, m, order).pool;
      RegisterDepsLists(p.fanout, m.deps, m.hash);
      forall t, i | t in r.fanout && 0 <= i < |r.fanout[t]|
        ensures r.fanout[t][i] in r.groups && t in r.groups[r.fanout[t][i]].matcher.deps
      {
        assert r.fanout[t] == FanoutOf(r.fanout, t);
        var old_ := FanoutOf(p.fanout, t);
        if i < |old_| {
          assert r.fanout[t][i] == p.fanout[t][i];
        } else {
          assert r.fanout[t][i] == m.hash;
          assert multiset(m.deps)[t] > 0;
        }
      }
      forall h, t | h in r.groups && t in r.groups[h].matcher.deps
        ensures h in FanoutOf(r.fanout, t)
      {
        if h == m.hash {
          assert multiset(m.deps)[t] > 0;
          assert Repeat(m.hash, multiset(m.deps)[t])[0] == h;
          assert FanoutOf(r.fanout, t)[|FanoutOf(p.fanout, t)|] == h;
        } else {
          assert h in FanoutOf(p.fanout, t);
          var j :| 0 <= j < |FanoutOf(p.fanout, t)| && FanoutOf(p.fanout, t)[j] == h;
          assert FanoutOf(r.fanout, t)[j] == h;
        }
      }
    }
  }

  /** Adding a group keeps every group agreeing with its matcher on every live
      entity. */
  lemma GroupConsistent(p: Pool, m: Matcher, order: seq<EntityID>)
    requires Valid(p) && IsEnumeration(order, p.live) && Consistent(p)
    ensures Consistent(Group(p, m, order).pool)
  {
    if m.hash !in p.groups {
      GroupSeeds(p, m, order);
    }
  }

  /** Asking again with any matcher of the same hash changes nothing. */
  lemma GroupIdempotent(p: Pool, m: Matcher, m': Matcher, order: seq<EntityID>, order': seq<EntityID>)
    requires Valid(p) && IsEnumeration(order, p.live) && IsEnumeration(order', p.live) && m'.hash == m.hash
    ensures Valid(Group(p, m, order).pool) && Group(Group(p, m, order).pool, m', order') == Group(p, m, order)
  {
    GroupValid(p, m, order);
  }

  /** A matcher that declares no types is in no fan-out list, so no
      component event ever reaches its group. */
  lemma UndeclaredNeverRouted(p: Pool, m: Matcher, order: seq<EntityID>)
    requires Valid(p) && IsEnumeration(order, p.live) && m.deps == []
    ensures Group(p, m, order).pool.fanout == p.fanout
    ensures forall t, live :: m.hash !in p.groups ==> m.hash !in Route(Group(p, m, order).pool.fanout, live, t)
  {
  }

  // ---------------------------------------------------------------------
  // The listing

  /** `Entities` as evidently intended: the listing while it exists, else
      one built from the live map in its iteration order `order`, which
      becomes the listing. */
  function Entities(p: Pool, order: seq<EntityID>): (r: Listing)
    requires Valid(p) && IsEnumeration(order, p.live)
    ensures IsEnumeration(r.ids, p.live) && |r.ids| == Count(p)
    ensures r.pool == p.(cache := Some(r.ids))
    ensures p.cache.Some? ==> r.ids == p.cache.value
  {
    var ids := if p.cache.Some? then p.cache.value else order;
    EnumerationLength(ids, p.live);
    Listing(p.(cache := Some(ids)), ids)
  }

  lemma EntitiesValid(p: Pool, order: seq<EntityID>)
    requires Valid(p) && IsEnumeration(order, p.live)
    ensures Valid(Entities(p, order).pool)
  {
  }

  /** The rebuild loop of pool.go's `Entities` as written: a slice of
      `len(entities)` nils in which every live entity is stored at index
      `i`, which stays 0. */
  function FillAsWritten(order: seq<EntityID>): (r: seq<Option<EntityID>>)
    ensures |r| == |order|
    ensures |order| > 0 ==> r[0] == Some(order[|order| - 1])
    ensures forall j :: 1 <= j < |r| ==> r[j] == None
  {
    WriteAtZero(seq(|order|, _ => None), order)
  }

  /** Stores each of `es` in turn at index 0 of `slots`. */
  function WriteAtZero(slots: seq<Option<EntityID>>, es: seq<EntityID>): (r: seq<Option<EntityID>>)
    requires |slots| > 0 || es == []
    ensures |r| == |slots|
    ensures es != [] ==> r[0] == Some(es[|es| - 1])
    ensures es == [] ==> r == slots
    ensures forall j :: 1 <= j < |r| ==> r[j] == slots[j]
    decreases |es|
  {
    if es == [] then slots else WriteAtZero(slots[0 := Some(es[0])], es[1..])
  }

  /** With two or more live entities the rebuilt listing as written misses
      every live entity but the last one visited, the first one included. */
  lemma FillAsWrittenLoses(order: seq<EntityID>)
    requires Distinct(order) && |order| >= 2
    ensures Some(order[0]) !in FillAsWritten(order)
    ensures |set j | 0 <= j < |FillAsWritten(order)| && FillAsWritten(order)[j].Some?| == 1
  {
    var r := FillAsWritten(order);
    assert order[0] != order[|order| - 1];
    assert (set j | 0 <= j < |r| && r[j].Some?) == {0};
  }

  /** The listing after `CreateEntity` as line 40 of pool.go writes it,
      when there is no listing (after a destroy) and something is live:
      it names only the new entity, so it is not a listing of the live
      entities. */
  lemma NilListingLoses(p: Pool, cs: seq<Component>, order: seq<MatcherHash>)
    requires Valid(p) && IsEnumeration(order, p.groups.Keys) && p.cache.None? && |p.live| > 0
    ensures var r := CreateEntity(p, cs, order);
      AppendAsWritten(p.cache, r.id) == Some([r.id]) && !IsEnumeration(AppendAsWritten(p.cache, r.id).value, r.pool.live)
  {
    var r := CreateEntity(p, cs, order);
    SingletonMisses(p.live, r.id);
  }

  /** A one-element list does not list a set with a second element. */
  lemma SingletonMisses(live: set<EntityID>, id: EntityID)
    requires |live| > 0 && id !in live
    ensures !IsEnumeration([id], live + {id})
  {
    var k :| k in live;
    assert k != id && k !in [id];
  }

  /** The corrected listing after `CreateEntity` (extended only while it
      exists) stays a listing of the live entities. */
  lemma CreateEntityLists(p: Pool, cs: seq<Component>, order: seq<MatcherHash>)
    requires Valid(p) && IsEnumeration(order, p.groups.Keys)
    ensures var r := CreateEntity(p, cs, order);
      && r.pool.cache == AppendToCache(p.cache, r.id)
      && (r.pool.cache.Some? ==> IsEnumeration(r.pool.cache.value, r.pool.live))
  {
    CreateEntityValid(p, cs, order);
    CreateEntityCache(p, cs, order);
  }

  // ---------------------------------------------------------------------
  // Where the handlers leave a group out of step

  /** Component type 1 held by entity 0, whose four handlers are the
      context's; groups `HasA` (hash 1, accepts an entity holding type 1)
      and `Always` (hash 2, accepts every entity), both declaring type 1,
      in that fan-out order; both hold entity 0. */
  function LookaheadExample(): (p: Pool)
    ensures p.groups.Keys == {1, 2} && p.live == {0}
  {
    var cbs := map[E.ComponentAdded := [E.PoolRouter], E.ComponentReplaced := [E.PoolRouter],
                   E.ComponentWillBeRemoved := [E.PoolRouter], E.ComponentRemoved := [E.PoolRouter]];
    var hasA := Matcher(1, [1], s => 1 in s);
    var always := Matcher(2, [1], s => true);
    Pool(1, map[0 := E.Entity(0, [], map[1 := Component(1, 0)], cbs)], {0}, Some([0]),
         map[1 := G.Group({0}, [0], false, hasA), 2 := G.Group({0}, [0], false, always)],
         map[1 := [1, 2]], [])
  }

  /** The WillBeRemoved lookahead is decided by the last group in the
      fan-out: announcing the removal of type 1 from the example's entity
      deletes the type for good (the `Always` group still accepts it), yet
      `HasA` keeps the entity, though it now rejects it. The matchers are
      honest, so this is the handler's doing. */
  lemma WillRemoveLeavesGroupStale()
    ensures Valid(LookaheadExample()) && Consistent(LookaheadExample()) && AllHonest(LookaheadExample())
    ensures !Consistent(WillRemoveComponent(LookaheadExample(), 0, [1]).pool)
  {
    LookaheadExampleValid();
    LookaheadExampleHonest();
    LookaheadExampleDeletes();
    var p := LookaheadExample();
    var r := WillRemoveComponent(p, 0, [1]).pool;
    assert 0 in r.live && 0 in r.groups[1].members && !Matches(r.groups[1].matcher, r.store[0].table.Keys);
  }

  lemma LookaheadExampleValid()
    ensures Valid(LookaheadExample()) && Consistent(LookaheadExample())
  {
    var p := LookaheadExample();
    assert Routed(p.store[0]);
  }

  /** In the example, announcing the removal of type 1 empties the table
      and moves no group. */
  lemma LookaheadExampleDeletes()
    ensures Valid(LookaheadExample())
    ensures var r := WillRemoveComponent(LookaheadExample(), 0, [1]).pool;
      0 in r.store && r.store[0].table == map[] && r.groups == LookaheadExample().groups && r.live == {0}
  {
    LookaheadExampleValid();
    LookaheadExampleEmpties();
  }

  /** The lookahead itself: the last group of the fan-out of type 1 accepts
      the table without it, so the component stays deleted. */
  lemma LookaheadExampleEmpties()
    ensures var p := LookaheadExample();
      && FanoutSound(p.fanout, p.groups) && E.WellTyped(p.store[0].table)
      && WillRemoveEach(p.fanout, true, 0, p.store[0].table, p.groups, [1]).table == map[]
  {
    var p := LookaheadExample();
    assert Route(p.fanout, true, 1) == [1, 2];
    var la := LookaheadEach(p.groups, [1, 2], 0, p.store[0].table, Component(1, 0));
    assert la.table == map[];
  }

  /** Both example matchers depend on declared types only. */
  lemma LookaheadExampleHonest()
    ensures AllHonest(LookaheadExample())
  {
    var p := LookaheadExample();
    forall h | h in p.groups
      ensures Honest(p.groups[h].matcher)
    {
      forall present, t | t !in p.groups[h].matcher.deps
        ensures Insensitive(p.groups[h].matcher, present, t)
      {
        assert (1 in present + {t}) == (1 in present - {t});
      }
    }
  }

  /** The example's position group: a matcher (hash 123) that accepts an
      entity holding type 1 but declares no types, and one live entity
      with no components, which the group rightly does not hold. */
  function UndeclaredExample(): (p: Pool)
    ensures p.groups.Keys == {123} && p.live == {0}
  {
    var cbs := map[E.ComponentAdded := [E.PoolRouter], E.ComponentReplaced := [E.PoolRouter],
                   E.ComponentWillBeRemoved := [E.PoolRouter], E.ComponentRemoved := [E.PoolRouter]];
    var pos := Matcher(123, [], s => 1 in s);
    Pool(1, map[0 := E.Entity(0, [], map[], cbs)], {0}, Some([0]),
         map[123 := G.Group({}, [], false, pos)], map[], [])
  }

  /** Adding type 1 to the live entity reaches no group, so the position
      group misses an entity it accepts: the honesty assumption of
      `AddComponentConsistent` cannot be dropped. */
  lemma UndeclaredMatcherGoesStale()
    ensures Valid(UndeclaredExample()) && Consistent(UndeclaredExample())
    ensures !Consistent(AddComponent(UndeclaredExample(), 0, [Component(1, 0)]).pool)
  {
    var p := UndeclaredExample();
    assert Routed(p.store[0]);
    var r := AddComponent(p, 0, [Component(1, 0)]);
    assert r.pool.groups == p.groups;
    assert r.pool.store[0].table == map[1 := Component(1, 0)];
    assert 0 !in r.pool.groups[123].members && Matches(r.pool.groups[123].matcher, {1});
  }

  /** One live entity 0 holding type 1, with the context's handlers, and
      one group (hash 5, declaring type 1) that accepts exactly the
      entities without type 1, so it rightly does not hold entity 0. */
  function DestroyAllExample(): (p: Pool)
    ensures p.groups.Keys == {5} && p.live == {0}
  {
    var cbs := map[E.ComponentAdded := [E.PoolRouter], E.ComponentReplaced := [E.PoolRouter],
                   E.ComponentWillBeRemoved := [E.PoolRouter], E.ComponentRemoved := [E.PoolRouter]];
    var lacksA := Matcher(5, [1], s => 1 !in s);
    Pool(1, map[0 := E.Entity(0, [], map[1 := Component(1, 0)], cbs)], {0}, Some([0]),
         map[5 := G.Group({}, [], false, lacksA)], map[1 := [5]], [])
  }

  lemma DestroyAllExampleValid()
    ensures Valid(DestroyAllExample()) && Consistent(DestroyAllExample()) && AllHonest(DestroyAllExample())
  {
    var p := DestroyAllExample();
    assert Routed(p.store[0]);
    forall present, t | t !in p.groups[5].matcher.deps
      ensures Insensitive(p.groups[5].matcher, present, t)
    {
      assert (1 !in present + {t}) == (1 !in present - {t});
    }
  }

  /** The lookahead on type 1 finds that the group accepts the entity
      without it, so type 1 does not survive the WillBeRemoved pass. */
  lemma DestroyAllExampleSurvivors()
    ensures var p := DestroyAllExample();
      && FanoutSound(p.fanout, p.groups) && E.WellTyped(p.store[0].table)
      && Survivors(p.fanout, p.groups, 0, p.store[0].table, [1]) == map[]
  {
    var p := DestroyAllExample();
    assert Route(p.fanout, true, 1) == [5];
    var la := LookaheadEach(p.groups, [5], 0, p.store[0].table, Component(1, 0));
    assert la.table == map[];
  }

  /** `DestroyAllEntities` does not re-judge every group with no
      components: in a valid, consistent, honest context, the example's
      group accepts the destroyed, empty entity yet does not gain it,
      because type 1 was deleted for good by the lookahead and so fired no
      Removed event. `DestroyEntity` on the same context does add it. */
  lemma DestroyAllSkipsAccepting()
    ensures Valid(DestroyAllExample()) && Consistent(DestroyAllExample()) && AllHonest(DestroyAllExample())
    ensures var r := DestroyAllEntities(DestroyAllExample(), [0], map[0 := [1]]);
      0 in r.store && r.store[0].table == map[] && 0 !in r.groups[5].members && Matches(r.groups[5].matcher, {})
    ensures 0 in DestroyEntity(DestroyAllExample(), Own(0), [5]).pool.groups[5].members
  {
    DestroyAllExampleValid();
    DestroyAllExampleSurvivors();
    var p := DestroyAllExample();
    DestroyAllStore(p, [0], map[0 := [1]]);
    DestroyAllMembers(p, [0], map[0 := [1]]);
    assert !Held(p.fanout, 5, map[]);
  }
}

