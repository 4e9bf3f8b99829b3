/** Arrays of components ordered by component type: insertion that keeps
    the order, binary search and linear search. Both the engine's entity
    (its `sortedComponents` index) and the sorted-append example entity use
    these; the Go code carries the binary search twice, word for word. */
module SortedArrays {
  import opened Base

  /** Inserts `c` before the first element whose type is greater, so after
      every element of its own type: the step of an insertion sort that
      moves an element left only past strictly greater ones. */
  function InsertByType(s: seq<Component>, c: Component): (r: seq<Component>)
    ensures |r| == |s| + 1
    ensures multiset(r) == multiset(s) + multiset{c}
  {
    if s == [] then [c]
    else if c.ctype < s[0].ctype then [c] + s
    else
      assert s == [s[0]] + s[1..];
      [s[0]] + InsertByType(s[1..], c)
  }

  /** Every element of an insertion is the inserted one or an old one. */
  lemma InsertElements(s: seq<Component>, c: Component, k: int)
    requires 0 <= k < |InsertByType(s, c)|
    ensures InsertByType(s, c)[k] in s || InsertByType(s, c)[k] == c
  {
    var r := InsertByType(s, c);
    assert r[k] in multiset(r);
  }

  /** Insertion keeps an array sorted by type. */
  lemma {:induction false} InsertKeepsOrder(s: seq<Component>, c: Component)
    requires NondecreasingByType(s)
    ensures NondecreasingByType(InsertByType(s, c))
  {
    if s != [] && c.ctype >= s[0].ctype {
      var rest := InsertByType(s[1..], c);
      InsertKeepsOrder(s[1..], c);
      forall k | 0 <= k < |rest|
        ensures s[0].ctype <= rest[k].ctype
      {
        InsertElements(s[1..], c, k);
      }
      assert InsertByType(s, c) == [s[0]] + rest;
    }
  }

  /** Inserting a type that is not present keeps an array strictly sorted. */
  lemma {:induction false} InsertKeepsStrictOrder(s: seq<Component>, c: Component)
    requires AscendingByType(s)
    requires forall i :: 0 <= i < |s| ==> s[i].ctype != c.ctype
    ensures AscendingByType(InsertByType(s, c))
  {
    if s != [] && c.ctype >= s[0].ctype {
      var rest := InsertByType(s[1..], c);
      InsertKeepsStrictOrder(s[1..], c);
      forall k | 0 <= k < |rest|
        ensures s[0].ctype < rest[k].ctype
      {
        InsertElements(s[1..], c, k);
      }
      assert InsertByType(s, c) == [s[0]] + rest;
    }
  }

  /** Sorts by inserting the elements one after the other, first to last:
      a stable insertion sort (`SortByTypeStable`), which is what Go's
      `sort.Slice` runs on arrays of up to twelve elements. */
  function SortByType(s: seq<Component>): (r: seq<Component>)
    ensures |r| == |s|
    ensures multiset(r) == multiset(s)
    ensures NondecreasingByType(r)
  {
    if s == [] then []
    else
      var rest := SortByType(s[..|s| - 1]);
      assert s == s[..|s| - 1] + [s[|s| - 1]];
      InsertKeepsOrder(rest, s[|s| - 1]);
      InsertByType(rest, s[|s| - 1])
  }

  /** The elements of `s` of type `t`, in their order in `s`. */
  function OfType(s: seq<Component>, t: ComponentType): (r: seq<Component>)
    ensures |r| <= |s|
    ensures forall i :: 0 <= i < |r| ==> r[i].ctype == t && r[i] in s
  {
    if s == [] then []
    else (if s[0].ctype == t then [s[0]] else []) + OfType(s[1..], t)
  }

  /** Picking one type distributes over concatenation. */
  lemma {:induction false} OfTypeConcat(a: seq<Component>, b: seq<Component>, t: ComponentType)
    ensures OfType(a + b, t) == OfType(a, t) + OfType(b, t)
  {
    if a == [] {
      assert a + b == b;
    } else {
      var head := if a[0].ctype == t then [a[0]] else [];
      assert (a + b)[0] == a[0] && (a + b)[1..] == a[1..] + b;
      calc {
        OfType(a + b, t);
        head + OfType(a[1..] + b, t);
        { OfTypeConcat(a[1..], b, t); }
        head + (OfType(a[1..], t) + OfType(b, t));
        (head + OfType(a[1..], t)) + OfType(b, t);
        OfType(a, t) + OfType(b, t);
      }
    }
  }

  /** An array with no element of type `t` has none to pick. */
  lemma {:induction false} OfTypeNone(s: seq<Component>, t: ComponentType)
    requires forall i :: 0 <= i < |s| ==> s[i].ctype != t
    ensures OfType(s, t) == []
  {
    if s != [] {
      OfTypeNone(s[1..], t);
    }
  }

  /** On a sorted array, the inserted element comes after every element of
      its type and leaves the other types' order alone. */
  lemma {:induction false} InsertOfType(s: seq<Component>, c: Component, t: ComponentType)
    requires NondecreasingByType(s)
    ensures OfType(InsertByType(s, c), t) == OfType(s, t) + (if c.ctype == t then [c] else [])
    decreases |s|, 1
  {
    var one := if c.ctype == t then [c] else [];
    assert OfType([c], t) == one + OfType([], t);
    if s == [] {
    } else if c.ctype < s[0].ctype {
      if c.ctype == t {
        forall i | 0 <= i < |s| ensures s[i].ctype != t {
          assert i == 0 || s[0].ctype <= s[i].ctype;
        }
        OfTypeNone(s, t);
      }
      OfTypeConcat([c], s, t);
    } else {
      InsertTail(s, c, t);
    }
  }

  /** The case of `InsertOfType` where `c` goes past the head. */
  lemma {:induction false} InsertTail(s: seq<Component>, c: Component, t: ComponentType)
    requires NondecreasingByType(s) && s != [] && c.ctype >= s[0].ctype
    ensures OfType(InsertByType(s, c), t) == OfType(s, t) + (if c.ctype == t then [c] else [])
    decreases |s|, 0
  {
    var head := if s[0].ctype == t then [s[0]] else [];
    var one := if c.ctype == t then [c] else [];
    var rest := InsertByType(s[1..], c);
    assert NondecreasingByType(s[1..]) by {
      forall i, j | 0 <= i < j < |s[1..]| ensures s[1..][i].ctype <= s[1..][j].ctype {
        assert s[1..][i] == s[i + 1] && s[1..][j] == s[j + 1];
      }
    }
    assert OfType([s[0]], t) == head + OfType([], t);
    assert InsertByType(s, c) == [s[0]] + rest;
    assert OfType(s, t) == head + OfType(s[1..], t);
    calc {
      OfType(InsertByType(s, c), t);
      OfType([s[0]] + rest, t);
      { OfTypeConcat([s[0]], rest, t); }
      head + OfType(rest, t);
      { InsertOfType(s[1..], c, t); }
      head + (OfType(s[1..], t) + one);
      (head + OfType(s[1..], t)) + one;
      OfType(s, t) + one;
    }
  }

  /** The sort is stable: the elements of each type keep their order. With
      the result's order by type and its being a permutation, this fixes the
      result completely. */
  lemma {:induction false} SortByTypeStable(s: seq<Component>, t: ComponentType)
    ensures OfType(SortByType(s), t) == OfType(s, t)
    decreases |s|
  {
    if s != [] {
      var init := s[..|s| - 1];
      var last := s[|s| - 1];
      var one := if last.ctype == t then [last] else [];
      assert s == init + [last];
      calc {
        OfType(SortByType(s), t);
        OfType(InsertByType(SortByType(init), last), t);
        { InsertOfType(SortByType(init), last, t); }
        OfType(SortByType(init), t) + one;
        { SortByTypeStable(init, t); }
        OfType(init, t) + one;
        { assert OfType([last], t) == one + OfType([], t); }
        OfType(init, t) + OfType([last], t);
        { OfTypeConcat(init, [last], t); }
        OfType(s, t);
      }
    }
  }

  /** Go's `BinarySearchComponent` (and the example entity's `GetComponent`):
      whatever the array holds, a hit has the requested type; on an array
      sorted by type, a miss means no element has it. */
  method BinarySearch(coms: seq<Component>, target: ComponentType) returns (r: Option<Component>)
    ensures r.Some? ==> r.value in coms && r.value.ctype == target
    ensures NondecreasingByType(coms) ==> (r.None? <==> forall i :: 0 <= i < |coms| ==> coms[i].ctype != target)
  {
    var startIdx := 0;
    var endIdx := |coms| - 1;
    while startIdx <= endIdx
      invariant 0 <= startIdx <= endIdx + 1 <= |coms|
      invariant NondecreasingByType(coms) ==> forall i :: 0 <= i < startIdx ==> coms[i].ctype < target
      invariant NondecreasingByType(coms) ==> forall i :: endIdx < i < |coms| ==> coms[i].ctype > target
      decreases endIdx - startIdx
    {
      var midIdx := (startIdx + endIdx) / 2;
      var v := coms[midIdx].ctype;
      if v < target {
        startIdx := midIdx + 1;
      } else if v > target {
        endIdx := midIdx - 1;
      } else {
        return Some(coms[midIdx]);
      }
    }
    return None;
  }

  /** Go's `LinearSearchComponent`: the first element of the requested type,
      or nothing when none has it; the order of the array does not matter. */
  method LinearSearch(coms: seq<Component>, target: ComponentType) returns (r: Option<Component>)
    ensures r.None? <==> forall i :: 0 <= i < |coms| ==> coms[i].ctype != target
    ensures r.Some? ==> exists k :: 0 <= k < |coms| && coms[k] == r.value && r.value.ctype == target
                                    && forall j :: 0 <= j < k ==> coms[j].ctype != target
  {
    var i := 0;
    while i < |coms|
      invariant 0 <= i <= |coms|
      invariant forall j :: 0 <= j < i ==> coms[j].ctype != target
    {
      if coms[i].ctype == target {
        return Some(coms[i]);
      }
      i := i + 1;
    }
    return None;
  }
}
