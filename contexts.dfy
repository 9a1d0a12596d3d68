/** The values the registry works with: context instances and their exact
    classes, the class hierarchy that `isinstance` consults, the optional
    class filter of the cross-type lookups, and the errors they raise. */
module Contexts {

  /** A subclass of ScopedContext, named by a tag. Every subclass gets its
      own per-class stack storage when it is defined. */
  type ClassTag = nat

  /** A context instance: an opaque identity and its exact (concrete) class. */
  datatype Ctx = Ctx(id: nat, cls: ClassTag)

  datatype Error =
    | NoContextError   // a lookup found no (matching) active context
    | StackUnderflow   // queue.Empty, raised by get(block=False) on an empty LifoQueue

  /** The value of a lookup, or the exception it raises. */
  datatype Result<T> = Success(value: T) | Failure(error: Error)

  /** Whether an operation that returns nothing completed or raised. */
  datatype Outcome = Pass | Fail(error: Error)

  /** The class hierarchy: for each class, every class it inherits from,
      direct and indirect bases alike (the map is taken to be transitively
      closed, as the set of classes in a Python `__mro__` is). A class not in
      the map inherits from no other one. `isinstance` is membership in
      this set, so it is only Python's `isinstance` for a closed map. */
  type Hierarchy = map<ClassTag, set<ClassTag>>

  /** The classes an instance of `c` is an instance of: `c` and its bases. */
  function Ancestors(h: Hierarchy, c: ClassTag): (r: set<ClassTag>)
  {
    {c} + (if c in h then h[c] else {})
  }

  /** `isinstance(x, t)` for a single class `t`. */
  predicate IsInstance(h: Hierarchy, x: Ctx, t: ClassTag)
  {
    t in Ancestors(h, x.cls)
  }

  /** The `class_or_tuple` argument: `None`, or one class or a tuple of classes. */
  datatype Filter = NoFilter | Classes(tags: set<ClassTag>)

  /** Whether `x` is kept by the filter: always without one, otherwise
      `isinstance(x, class_or_tuple)`. */
  predicate Matches(h: Hierarchy, x: Ctx, f: Filter)
  {
    match f
    case NoFilter => true
    case Classes(ts) => Ancestors(h, x.cls) * ts != {}
  }

  /** `isinstance` with a tuple holds when it holds for one of its members. */
  lemma MatchesIsInstanceOfSome(h: Hierarchy, x: Ctx, ts: set<ClassTag>)
    ensures Matches(h, x, Classes(ts)) <==> exists t :: t in ts && IsInstance(h, x, t)
  {
    if Matches(h, x, Classes(ts)) {
      var t :| t in Ancestors(h, x.cls) * ts;
      assert t in ts && IsInstance(h, x, t);
    }
  }

  /** The filter as a predicate on contexts. */
  function Matcher(h: Hierarchy, f: Filter): (r: Ctx -> bool)
  {
    (x: Ctx) => Matches(h, x, f)
  }

  /** The predicate "the exact class is `c`". */
  function ExactClass(c: ClassTag): (r: Ctx -> bool)
  {
    (x: Ctx) => x.cls == c
  }

  /** `c` has no subclass in the hierarchy. */
  ghost predicate IsLeaf(h: Hierarchy, c: ClassTag)
  {
    forall d :: c in Ancestors(h, d) ==> d == c
  }

  /** Filtering by a class that has no subclass keeps exactly its own instances. */
  lemma LeafFilterIsExactClass(h: Hierarchy, c: ClassTag, x: Ctx)
    requires IsLeaf(h, c)
    ensures Matches(h, x, Classes({c})) <==> x.cls == c
  {
    if Matches(h, x, Classes({c})) {
      assert c in Ancestors(h, x.cls);
    }
  }
}
