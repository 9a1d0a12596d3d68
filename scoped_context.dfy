/** The ScopedContext mixin as one thread's registry object: `__enter__` and
    `__exit__` change its stacks in place, the classmethods and the free
    functions read them. */
module ScopedContext {
  import opened Contexts
  import opened Stacks
  import opened RegistryState

  class ContextRegistry {
    /** The per-class stacks, keyed by exact class. */
    var stacks: map<ClassTag, seq<Ctx>>
    /** The cross-type stack shared by all subclasses. */
    var classwide: seq<Ctx>
    /** The program's class hierarchy, which `isinstance` consults. */
    const bases: Hierarchy

    function Snapshot(): (r: State)
      reads this
    {
      State(stacks, classwide)
    }

    ghost predicate Valid()
      reads this
    {
      Synced(Snapshot())
    }

    constructor (bases: Hierarchy)
      ensures this.bases == bases
      ensures Snapshot() == Initial
      ensures Valid()
    {
      this.bases := bases;
      stacks := map[];
      classwide := [];
      InitialSynced();
    }

    /** `cls.context_stack()`: the stack of exact class `c`, current last. */
    function ContextStack(c: ClassTag): (r: seq<Ctx>)
      reads this
      ensures Valid() ==> forall i :: 0 <= i < |r| ==> r[i].cls == c
      ensures Valid() ==> r == Project(classwide, c)
    {
      assert Valid() ==> Project(classwide, c) == StackOf(Snapshot(), c);
      StackOf(Snapshot(), c)
    }

    /** `cls.current()`. */
    function Current(c: ClassTag): (r: Result<Ctx>)
      reads this
      ensures r.Failure? <==> ContextStack(c) == []
      ensures r.Failure? ==> r.error == NoContextError
      ensures r.Success? ==> r.value == Last(ContextStack(c))
      ensures Valid() ==> r == ScanFromTop(classwide, ExactClass(c))
    {
      assert Valid() ==> Top(StackOf(Snapshot(), c)) == ScanFromTop(classwide, ExactClass(c)) by {
        if Valid() {
          SyncedCurrentIsLatestOfClass(Snapshot(), c);
        }
      }
      Top(StackOf(Snapshot(), c))
    }

    /** `cls._classwide_context_stack(class_or_tuple)`. */
    function ClasswideContextStack(f: Filter): (r: seq<Ctx>)
      reads this
      ensures f == NoFilter ==> r == classwide
      ensures forall i :: 0 <= i < |r| ==> Matches(bases, r[i], f)
      ensures forall x :: multiset(r)[x] == if Matches(bases, x, f) then multiset(classwide)[x] else 0
      ensures forall c :: Valid() && IsLeaf(bases, c) && f == Classes({c}) ==> r == ContextStack(c)
    {
      var r := Keep(classwide, Matcher(bases, f));
      assert f == NoFilter ==> r == classwide by {
        KeepAll(classwide, Matcher(bases, f));
      }
      assert forall x :: multiset(r)[x] == if Matches(bases, x, f) then multiset(classwide)[x] else 0 by {
        forall x ensures multiset(r)[x] == if Matches(bases, x, f) then multiset(classwide)[x] else 0 {
          KeepCount(classwide, Matcher(bases, f), x);
        }
      }
      assert forall c :: Valid() && IsLeaf(bases, c) && f == Classes({c}) ==> r == ContextStack(c) by {
        forall c | Valid() && IsLeaf(bases, c) && f == Classes({c}) ensures r == ContextStack(c) {
          forall i | 0 <= i < |classwide|
            ensures Matcher(bases, f)(classwide[i]) == ExactClass(c)(classwide[i])
          {
            LeafFilterIsExactClass(bases, c, classwide[i]);
          }
          KeepCongruent(classwide, Matcher(bases, f), ExactClass(c));
        }
      }
      r
    }

    /** `cls._current_classwide(class_or_tuple)`: the most recent entry of the
        cross-type stack that the filter keeps. */
    function CurrentClasswide(f: Filter): (r: Result<Ctx>)
      reads this
      ensures r == ScanFromTop(classwide, Matcher(bases, f))
      ensures f == NoFilter ==> r == Top(classwide)
    {
      TopOfKeepIsScan(classwide, Matcher(bases, f));
      Top(ClasswideContextStack(f))
    }

    /** `__enter__`: push `x` on its class's stack and on the cross-type stack. */
    method Enter(x: Ctx) returns (r: Ctx)
      modifies this
      ensures r == x
      ensures Snapshot() == EnterStep(old(Snapshot()), x)
      ensures Current(x.cls) == Success(x)
      ensures CurrentClasswide(NoFilter) == Success(x)
      ensures forall c :: c != x.cls ==> ContextStack(c) == old(ContextStack(c))
      ensures old(Valid()) ==> Valid()
    {
      ghost var before := Snapshot();
      stacks := stacks[x.cls := StackOf(Snapshot(), x.cls) + [x]];
      classwide := classwide + [x];
      if Synced(before) {
        EnterPreservesSync(before, x);
      }
      r := x;
    }

    /** `__exit__(exc_type, exc_value, traceback)`: pop the top of the class's
        stack, then of the cross-type stack, whatever the exception arguments. */
    method Exit(x: Ctx, exc: ExceptionInfo) returns (o: Outcome)
      modifies this
      ensures (Snapshot(), o) == ExitStep(old(Snapshot()), x)
      ensures old(Valid()) && old(classwide) != [] && Last(old(classwide)) == x ==>
                o == Pass && Valid() && classwide == DropLast(old(classwide))
    {
      ghost var before := Snapshot();
      var own := StackOf(Snapshot(), x.cls);
      if own == [] {
        return Fail(StackUnderflow);
      }
      stacks := stacks[x.cls := DropLast(own)];
      if classwide == [] {
        return Fail(StackUnderflow);
      }
      classwide := DropLast(classwide);
      o := Pass;
      if Synced(before) && before.classwide != [] && Last(before.classwide) == x {
        ExitPreservesSync(before, x);
      }
    }
  }

  /** The exception information `__exit__` receives; it does not affect the pops. */
  datatype ExceptionInfo = NoException | Raised(name: string)

  /** `get_current_context(class_or_tuple)`: the same lookup as the
      classmethod, reading the cross-type stack directly. */
  function GetCurrentContext(reg: ContextRegistry, f: Filter): (r: Result<Ctx>)
    reads reg
    ensures r == reg.CurrentClasswide(f)
    ensures r == ScanFromTop(reg.classwide, Matcher(reg.bases, f))
  {
    TopOfKeepIsScan(reg.classwide, Matcher(reg.bases, f));
    Top(Keep(reg.classwide, Matcher(reg.bases, f)))
  }

  /** `get_context_stack(class_or_tuple)`: the same as the classmethod. */
  function GetContextStack(reg: ContextRegistry, f: Filter): (r: seq<Ctx>)
    reads reg
    ensures r == reg.ClasswideContextStack(f)
    ensures f == NoFilter ==> r == reg.classwide
  {
    if f == NoFilter then reg.classwide else Keep(reg.classwide, Matcher(reg.bases, f))
  }
}
