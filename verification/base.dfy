/** Vocabulary shared by the whole engine: component types and components,
    entity ids, matchers, errors, and a few predicates over sequences. The
    definitions of `Component`, `ComponentType`, `Matcher` and `MatcherHash`
    live in files that are not part of this model, so they are modelled by
    the contract the engine relies on and nothing more. */
module Base {

  /** A component type is a totally ordered tag. */
  type ComponentType = int

  /** Entity ids are unsigned. */
  type EntityID = nat

  type MatcherHash = int

  /** A component is any value that reports its type; `data` stands for the
      payload that tells two components of one type apart. */
  datatype Component = Component(ctype: ComponentType, data: int)

  /** `nil` or a value. */
  datatype Option<T> = None | Some(value: T)

  /** The two recoverable errors of the entity API. */
  datatype Error = ErrComponentExists | ErrComponentDoesNotExist

  /** A value or an error, as in Go's `(T, error)` pairs. */
  datatype Result<T> = Ok(value: T) | Err(error: Error)

  /** A matcher: its identity hash, the component types it declares as
      dependencies (used only to route events), and a pure predicate over
      the set of component types an entity holds. */
  datatype Matcher = Matcher(hash: MatcherHash, deps: seq<ComponentType>, pred: set<ComponentType> -> bool)

  predicate Matches(m: Matcher, present: set<ComponentType>)
  {
    m.pred(present)
  }

  /** Adding or removing `t` does not change the verdict of `m` on `present`. */
  ghost predicate Insensitive(m: Matcher, present: set<ComponentType>, t: ComponentType)
  {
    m.pred(present + {t}) == m.pred(present - {t})
  }

  /** A matcher is honest when its verdict depends only on the types it
      declares; routing by declared types is only sound for such matchers. */
  ghost predicate Honest(m: Matcher)
  {
    forall present, t {:trigger Insensitive(m, present, t)} :: t !in m.deps ==> Insensitive(m, present, t)
  }

  predicate Distinct<T(==)>(s: seq<T>)
  {
    forall i, j :: 0 <= i < j < |s| ==> s[i] != s[j]
  }

  /** `s` lists every element of `xs` exactly once: one possible iteration
      order of a Go map whose key set is `xs`. */
  predicate IsEnumeration<T(==)>(s: seq<T>, xs: set<T>)
  {
    && Distinct(s)
    && (forall i :: 0 <= i < |s| ==> s[i] in xs)
    && (forall x :: x in xs ==> x in s)
  }

  predicate AscendingByType(s: seq<Component>)
  {
    forall i, j :: 0 <= i < j < |s| ==> s[i].ctype < s[j].ctype
  }

  predicate NondecreasingByType(s: seq<Component>)
  {
    forall i, j :: 0 <= i < j < |s| ==> s[i].ctype <= s[j].ctype
  }

  function Elements<T>(s: seq<T>): set<T>
  {
    set x | x in s
  }

  /** A sequence without repetitions has as many elements as its set. */
  lemma {:induction false} DistinctCardinality<T>(s: seq<T>)
    requires Distinct(s)
    ensures |Elements(s)| == |s|
  {
    if s != [] {
      assert Distinct(s[1..]);
      DistinctCardinality(s[1..]);
      assert Elements(s) == {s[0]} + Elements(s[1..]);
      assert s[0] !in Elements(s[1..]);
    }
  }

  /** Every enumeration of a finite set has the set's size. */
  lemma EnumerationLength<T>(s: seq<T>, xs: set<T>)
    requires IsEnumeration(s, xs)
    ensures |s| == |xs|
  {
    DistinctCardinality(s);
    assert Elements(s) == xs;
  }
}
