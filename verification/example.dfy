/** The entity of the example program (`example/entity.go`): an id and one
    array of components kept sorted by type. There is no table, no events and
    no duplicate check: adding appends and re-sorts, and lookup is a binary
    search over the array. */
module Example {
  import opened Base
  import SortedArrays

  datatype SortedEntity = SortedEntity(id: int, sorted: seq<Component>)

  /** The outcome of `AddComponent`: the entity and the error it reports. */
  datatype Added = Added(entity: SortedEntity, err: Option<Error>)

  function NewEntity(id: int): (e: SortedEntity)
    ensures ID(e) == id && e.sorted == []
  {
    SortedEntity(id, [])
  }

  /** The id the entity was made with; `AddComponent` keeps it. */
  function ID(e: SortedEntity): (r: int)
    ensures r == e.id
  {
    e.id
  }

  /** Some element of `s` has type `t`. */
  predicate HasType(s: seq<Component>, t: ComponentType)
  {
    exists i :: 0 <= i < |s| && s[i].ctype == t
  }

  /** Appends the components and sorts the whole array by type; never
      fails, and keeps a component even when its type is already present.
      Components of one type stay in arrival order: the old ones first, then
      the added ones in argument order. */
  function AddComponent(e: SortedEntity, cs: seq<Component>): (r: Added)
    ensures r.err.None? && ID(r.entity) == ID(e)
    ensures |r.entity.sorted| == |e.sorted| + |cs|
    ensures multiset(r.entity.sorted) == multiset(e.sorted) + multiset(cs)
    ensures NondecreasingByType(r.entity.sorted)
    ensures forall t :: SortedArrays.OfType(r.entity.sorted, t) == SortedArrays.OfType(e.sorted, t) + SortedArrays.OfType(cs, t)
  {
    AppendSortStable(e.sorted, cs);
    Added(e.(sorted := SortedArrays.SortByType(e.sorted + cs)), None)
  }

  /** Sorting an appended array keeps, for each type, the old elements
      before the new ones, each in their own order. */
  lemma AppendSortStable(held: seq<Component>, cs: seq<Component>)
    ensures forall t :: SortedArrays.OfType(SortedArrays.SortByType(held + cs), t)
                     == SortedArrays.OfType(held, t) + SortedArrays.OfType(cs, t)
  {
    forall t
      ensures SortedArrays.OfType(SortedArrays.SortByType(held + cs), t)
           == SortedArrays.OfType(held, t) + SortedArrays.OfType(cs, t)
    {
      SortedArrays.SortByTypeStable(held + cs, t);
      SortedArrays.OfTypeConcat(held, cs, t);
    }
  }

  /** A second component of a held type goes after the first, so the first
      is at index 0, where the binary search probes first. */
  lemma AddKeepsArrivalOrder()
    ensures AddComponent(SortedEntity(0, [Component(1, 10)]), [Component(1, 20)]).entity.sorted
         == [Component(1, 10), Component(1, 20)]
  {
    var s := [Component(1, 10), Component(1, 20)];
    assert [Component(1, 10)] + [Component(1, 20)] == s;
    assert SortedArrays.SortByType(s[..1]) == [Component(1, 10)];
  }

  /** After adding, a type is present exactly when it was present before or
      is among the added components. */
  lemma AddComponentTypes(e: SortedEntity, cs: seq<Component>, t: ComponentType)
    ensures HasType(AddComponent(e, cs).entity.sorted, t) <==> HasType(e.sorted, t) || HasType(cs, t)
  {
    var s := AddComponent(e, cs).entity.sorted;
    if HasType(s, t) {
      var i :| 0 <= i < |s| && s[i].ctype == t;
      assert s[i] in multiset(s);
      if s[i] in multiset(e.sorted) {
        var j :| 0 <= j < |e.sorted| && e.sorted[j] == s[i];
      } else {
        assert s[i] in multiset(cs);
        var j :| 0 <= j < |cs| && cs[j] == s[i];
      }
    }
    if HasType(e.sorted, t) {
      var j :| 0 <= j < |e.sorted| && e.sorted[j].ctype == t;
      assert e.sorted[j] in multiset(e.sorted);
      assert e.sorted[j] in multiset(s);
      var i :| 0 <= i < |s| && s[i] == e.sorted[j];
    }
    if HasType(cs, t) {
      var j :| 0 <= j < |cs| && cs[j].ctype == t;
      assert cs[j] in multiset(cs);
      assert cs[j] in multiset(s);
      var i :| 0 <= i < |s| && s[i] == cs[j];
    }
  }

  /** Binary search on the sorted array: a hit has the requested type, and
      on an array sorted by type (as `AddComponent` leaves it) a miss means
      the type is absent. */
  method GetComponent(e: SortedEntity, t: ComponentType) returns (r: Option<Component>)
    ensures r.Some? ==> r.value in e.sorted && r.value.ctype == t
    ensures NondecreasingByType(e.sorted) ==> (r.None? <==> !HasType(e.sorted, t))
  {
    r := SortedArrays.BinarySearch(e.sorted, t);
  }

  /** Adding then looking up: a type is found exactly when it was held
      before or was among the added components, whatever order the array
      had before, since adding re-sorts it. */
  method AddThenGet(e: SortedEntity, cs: seq<Component>, t: ComponentType) returns (r: Option<Component>)
    ensures r.Some? <==> HasType(e.sorted, t) || HasType(cs, t)
    ensures r.Some? ==> r.value.ctype == t && (r.value in e.sorted || r.value in cs)
  {
    var a := AddComponent(e, cs);
    AddComponentTypes(e, cs, t);
    r := GetComponent(a.entity, t);
    if r.Some? {
      assert r.value in multiset(a.entity.sorted);
    }
  }
}
