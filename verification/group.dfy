/** The group of `entitas/group.go`: the entities of one context that satisfy
    one matcher. Membership is a set of entity ids (the Go map keyed by id);
    beside it sits a list `cache` that is only trusted while
    `cacheInvalidated` is false. Group events are returned, not dispatched. */
module Groups {
  import opened Base

  datatype GroupEventKind = EntityAdded | EntityWillBeRemoved | EntityRemoved

  datatype GroupEvent = Notify(kind: GroupEventKind, id: EntityID)

  datatype Group = Group(members: set<EntityID>, cache: seq<EntityID>, cacheInvalidated: bool, matcher: Matcher)

  /** The group after an operation and the events it fired, in order. */
  datatype GroupStep = GroupStep(group: Group, events: seq<GroupEvent>)

  /** The cache invariant: a valid cache lists every member exactly once and
      nothing else; an invalidated cache is empty (Go sets it to nil). */
  predicate Valid(g: Group)
  {
    && (!g.cacheInvalidated ==> IsEnumeration(g.cache, g.members))
    && (g.cacheInvalidated ==> g.cache == [])
  }

  function NewGroup(m: Matcher): (g: Group)
    ensures Valid(g) && g.members == {} && !g.cacheInvalidated && g.matcher == m
  {
    Group({}, [], false, m)
  }

  /** The members as a list. An invalidated cache is rebuilt from the
      membership map in its iteration order `order`, and the flag cleared. */
  method Entities(g: Group, order: seq<EntityID>) returns (g': Group, r: seq<EntityID>)
    requires Valid(g)
    requires IsEnumeration(order, g.members)
    ensures Valid(g') && !g'.cacheInvalidated
    ensures g'.members == g.members && g'.matcher == g.matcher
    ensures r == g'.cache
    ensures IsEnumeration(r, g.members) && |r| == |g.members|
    ensures !g.cacheInvalidated ==> g' == g
  {
    if g.cacheInvalidated {
      var cache := [];
      var i := 0;
      while i < |order|
        invariant 0 <= i <= |order| && cache == order[..i]
      {
        cache := cache + [order[i]];
        i := i + 1;
      }
      assert cache == order;
      g' := g.(cache := cache, cacheInvalidated := false);
    } else {
      g' := g;
    }
    r := g'.cache;
    EnumerationLength(r, g.members);
  }

  /** The group's verdict is its matcher's verdict on the held types;
      `HandleEntity` makes membership follow it. */
  function Matches(g: Group, present: set<ComponentType>): (r: bool)
    ensures r <==> Base.Matches(g.matcher, present)
  {
    Base.Matches(g.matcher, present)
  }

  /** Membership; while the cache is valid, it agrees with the cache. */
  function ContainsEntity(g: Group, id: EntityID): (r: bool)
    ensures Valid(g) && !g.cacheInvalidated ==> (r <==> id in g.cache)
  {
    id in g.members
  }

  /** The first position holding `x`, or -1. */
  function FindIndex(s: seq<EntityID>, x: EntityID): (r: int)
    ensures -1 <= r < |s|
    ensures r == -1 <==> x !in s
    ensures r >= 0 ==> s[r] == x && forall j :: 0 <= j < r ==> s[j] != x
  {
    if s == [] then -1
    else if s[0] == x then 0
    else
      var k := FindIndex(s[1..], x);
      assert s == [s[0]] + s[1..];
      if k == -1 then -1 else k + 1
  }

  /** `s` without its element at `i`, the others in their order. */
  function RemoveIndexed(s: seq<EntityID>, i: int): (r: seq<EntityID>)
    requires 0 <= i < |s|
    ensures |r| == |s| - 1
    ensures forall j :: 0 <= j < i ==> r[j] == s[j]
    ensures forall j :: i <= j < |r| ==> r[j] == s[j + 1]
    ensures multiset(r) == multiset(s) - multiset{s[i]}
  {
    assert s == s[..i] + [s[i]] + s[i + 1..];
    s[..i] + s[i + 1..]
  }

  /** Adds a non-member, appending it to the cache only while the cache is
      valid, and fires one EntityAdded; a member is left alone. */
  function AddEntity(g: Group, id: EntityID): (r: GroupStep)
    requires Valid(g)
    ensures Valid(r.group)
    ensures r.group.members == g.members + {id} && r.group.matcher == g.matcher
    ensures r.group.cacheInvalidated == g.cacheInvalidated
    ensures id in g.members ==> r.group == g && r.events == []
    ensures id !in g.members ==> r.events == [Notify(EntityAdded, id)]
    ensures id !in g.members && !g.cacheInvalidated ==> r.group.cache == g.cache + [id]
  {
    if id !in g.members then
      var cache := if !g.cacheInvalidated then g.cache + [id] else g.cache;
      GroupStep(g.(members := g.members + {id}, cache := cache), [Notify(EntityAdded, id)])
    else
      GroupStep(g, [])
  }

  /** Removes a member, dropping the whole cache (and marking it invalid) if
      the member was listed in it, and fires one EntityRemoved; a non-member
      is left alone. */
  function RemoveEntity(g: Group, id: EntityID): (r: GroupStep)
    requires Valid(g)
    ensures Valid(r.group)
    ensures r.group.members == g.members - {id} && r.group.matcher == g.matcher
    ensures id !in g.members ==> r.group == g && r.events == []
    ensures id in g.members ==> r.events == [Notify(EntityRemoved, id)]
    ensures id in g.members && !g.cacheInvalidated ==> r.group.cacheInvalidated && r.group.cache == []
    ensures g.cacheInvalidated ==> r.group.cacheInvalidated
  {
    if id in g.members then
      var g' := g.(members := g.members - {id});
      var g'' := if FindIndex(g.cache, id) != -1 then g'.(cache := [], cacheInvalidated := true) else g';
      GroupStep(g'', [Notify(EntityRemoved, id)])
    else
      GroupStep(g, [])
  }

  /** Re-evaluates the matcher on the entity's present types and adds or
      removes it accordingly. */
  function HandleEntity(g: Group, id: EntityID, present: set<ComponentType>): (r: GroupStep)
    requires Valid(g)
    ensures Valid(r.group) && r.group.matcher == g.matcher
    ensures ContainsEntity(r.group, id) == Matches(g, present)
    ensures r.group.members - {id} == g.members - {id}
    ensures r.events == (if Matches(g, present) && id !in g.members then [Notify(EntityAdded, id)]
                         else if !Matches(g, present) && id in g.members then [Notify(EntityRemoved, id)]
                         else [])
    ensures (id in g.members) == Matches(g, present) ==> r.group == g
  {
    if Matches(g, present) then AddEntity(g, id) else RemoveEntity(g, id)
  }

  /** For a member: EntityRemoved immediately followed by EntityAdded, with
      membership and cache untouched; nothing for a non-member. */
  function UpdateEntity(g: Group, id: EntityID): (r: GroupStep)
    ensures r.group == g
    ensures ContainsEntity(g, id) ==> r.events == [Notify(EntityRemoved, id), Notify(EntityAdded, id)]
    ensures !ContainsEntity(g, id) ==> r.events == []
  {
    if id in g.members then GroupStep(g, [Notify(EntityRemoved, id), Notify(EntityAdded, id)]) else GroupStep(g, [])
  }

  /** For a member: EntityWillBeRemoved, with nothing else changed; nothing
      for a non-member. */
  function WillRemoveEntity(g: Group, id: EntityID): (r: GroupStep)
    ensures r.group == g
    ensures ContainsEntity(g, id) ==> r.events == [Notify(EntityWillBeRemoved, id)]
    ensures !ContainsEntity(g, id) ==> r.events == []
  {
    if id in g.members then GroupStep(g, [Notify(EntityWillBeRemoved, id)]) else GroupStep(g, [])
  }
}
