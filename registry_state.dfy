/** One thread's registry as a value: a stack per exact class and the one
    cross-type stack, the two steps `__enter__` and `__exit__` take on it,
    and the invariant that keeps the two views synchronised. */
module RegistryState {
  import opened Contexts
  import opened Stacks

  /** `stacks[c]` is the `LifoQueue` of class `c` (created on first use),
      `classwide` the cross-type `LifoQueue`; both oldest entry first. */
  datatype State = State(stacks: map<ClassTag, seq<Ctx>>, classwide: seq<Ctx>)

  /** No stack has been created yet. */
  const Initial := State(map[], [])

  /** The per-class stack of `c`: empty until its storage has been created. */
  function StackOf(s: State, c: ClassTag): (r: seq<Ctx>)
  {
    if c in s.stacks then s.stacks[c] else []
  }

  /** The cross-type stack restricted to contexts whose exact class is `c`. */
  function Project(classwide: seq<Ctx>, c: ClassTag): (r: seq<Ctx>)
  {
    Keep(classwide, ExactClass(c))
  }

  /** The dual-stack invariant: every class's stack is the projection of the
      cross-type stack onto that class. */
  ghost predicate Synced(s: State)
  {
    forall c :: Project(s.classwide, c) == StackOf(s, c)
  }

  /** Two states no lookup can tell apart (a stack created empty and a stack
      never created look the same). */
  ghost predicate Same(s: State, t: State)
  {
    s.classwide == t.classwide && forall c :: StackOf(s, c) == StackOf(t, c)
  }

  /** `__enter__`: put `x` on its own class's stack, then on the cross-type stack. */
  function EnterStep(s: State, x: Ctx): (t: State)
    ensures StackOf(t, x.cls) == StackOf(s, x.cls) + [x]
    ensures t.classwide == s.classwide + [x]
    ensures forall c :: c != x.cls ==> StackOf(t, c) == StackOf(s, c)
  {
    State(s.stacks[x.cls := StackOf(s, x.cls) + [x]], s.classwide + [x])
  }

  /** `__exit__` of a context `x`: get the top of `x`'s class stack, then the
      top of the cross-type stack. Each get raises on an empty stack; a raise
      from the second get leaves the first pop done. The popped entries are
      discarded and are not compared with `x`. */
  function ExitStep(s: State, x: Ctx): (r: (State, Outcome))
    ensures r.1 == Pass <==> StackOf(s, x.cls) != [] && s.classwide != []
    ensures r.1.Fail? ==> r.1.error == StackUnderflow
    ensures StackOf(s, x.cls) == [] ==> r.0 == s
    ensures StackOf(s, x.cls) != [] ==>
              StackOf(r.0, x.cls) == DropLast(StackOf(s, x.cls)) &&
              r.0.classwide == (if s.classwide == [] then [] else DropLast(s.classwide))
    ensures forall c :: c != x.cls ==> StackOf(r.0, c) == StackOf(s, c)
  {
    var own := StackOf(s, x.cls);
    if own == [] then (s, Fail(StackUnderflow))
    else
      var popped := s.(stacks := s.stacks[x.cls := DropLast(own)]);
      if s.classwide == [] then (popped, Fail(StackUnderflow))
      else (popped.(classwide := DropLast(s.classwide)), Pass)
  }

  lemma InitialSynced()
    ensures Synced(Initial)
  {
  }

  /** Entering keeps the two views synchronised. */
  lemma EnterPreservesSync(s: State, x: Ctx)
    requires Synced(s)
    ensures Synced(EnterStep(s, x))
  {
    var t := EnterStep(s, x);
    forall c ensures Project(t.classwide, c) == StackOf(t, c) {
      KeepAppend(s.classwide, [x], ExactClass(c));
      assert Keep([x], ExactClass(c)) == if x.cls == c then [x] else [];
    }
  }

  /** Right after entering `x`, it is the current context of its class and
      the most recent cross-type entry under every filter it matches. */
  lemma EnterMakesCurrent(s: State, x: Ctx, h: Hierarchy, f: Filter)
    ensures Top(StackOf(EnterStep(s, x), x.cls)) == Success(x)
    ensures Top(Keep(EnterStep(s, x).classwide, Matcher(h, f))) ==
              if Matches(h, x, f) then Success(x) else Top(Keep(s.classwide, Matcher(h, f)))
  {
    KeepAppend(s.classwide, [x], Matcher(h, f));
    assert Keep([x], Matcher(h, f)) == if Matches(h, x, f) then [x] else [];
  }

  /** Exiting right after entering restores both stacks and raises nothing. */
  lemma EnterExitRestores(s: State, x: Ctx)
    ensures ExitStep(EnterStep(s, x), x).1 == Pass
    ensures Same(ExitStep(EnterStep(s, x), x).0, s)
  {
    var t := EnterStep(s, x);
    assert DropLast(StackOf(t, x.cls)) == StackOf(s, x.cls);
    assert DropLast(t.classwide) == s.classwide;
  }

  /** In a synchronised state, the top of the cross-type stack is also the top
      of its own class's stack. */
  lemma SyncedTopIsOwnTop(s: State)
    requires Synced(s) && s.classwide != []
    ensures StackOf(s, Last(s.classwide).cls) != []
    ensures Last(StackOf(s, Last(s.classwide).cls)) == Last(s.classwide)
  {
    var c := Last(s.classwide).cls;
    assert Project(s.classwide, c) == StackOf(s, c);
  }

  /** Exiting a context whose class owns the top of the cross-type stack
      succeeds and keeps the two views synchronised. */
  lemma ExitPreservesSync(s: State, x: Ctx)
    requires Synced(s) && s.classwide != [] && Last(s.classwide).cls == x.cls
    ensures ExitStep(s, x).1 == Pass
    ensures ExitStep(s, x).0.classwide == DropLast(s.classwide)
    ensures Synced(ExitStep(s, x).0)
  {
    SyncedTopIsOwnTop(s);
    var t := ExitStep(s, x).0;
    assert s.classwide == DropLast(s.classwide) + [Last(s.classwide)];
    forall c ensures Project(t.classwide, c) == StackOf(t, c) {
      KeepAppend(DropLast(s.classwide), [Last(s.classwide)], ExactClass(c));
      assert Project(s.classwide, c) == StackOf(s, c);
      if c == x.cls {
        assert Project(s.classwide, c) == Project(t.classwide, c) + [Last(s.classwide)];
      } else {
        assert Keep([Last(s.classwide)], ExactClass(c)) == [];
      }
    }
  }

  /** In a synchronised state `__exit__` raises exactly when the class's own
      stack is empty, and then it changes nothing. */
  lemma SyncedExitFailsOnlyWhenEmpty(s: State, x: Ctx)
    requires Synced(s)
    ensures ExitStep(s, x).1.Fail? <==> StackOf(s, x.cls) == []
    ensures ExitStep(s, x).1.Fail? ==> ExitStep(s, x).0 == s
  {
    assert Project(s.classwide, x.cls) == StackOf(s, x.cls);
  }

  /** Exiting a context that does not own the top of the cross-type stack
      still pops both stacks, and leaves them out of step. */
  lemma OutOfOrderExitDesyncs(s: State, x: Ctx)
    requires Synced(s) && s.classwide != [] && Last(s.classwide).cls != x.cls
    requires StackOf(s, x.cls) != []
    ensures ExitStep(s, x).1 == Pass
    ensures !Synced(ExitStep(s, x).0)
  {
    var t := ExitStep(s, x).0;
    assert s.classwide == DropLast(s.classwide) + [Last(s.classwide)];
    KeepAppend(DropLast(s.classwide), [Last(s.classwide)], ExactClass(x.cls));
    assert Keep([Last(s.classwide)], ExactClass(x.cls)) == [];
    assert Project(s.classwide, x.cls) == StackOf(s, x.cls);
    assert |Project(t.classwide, x.cls)| != |StackOf(t, x.cls)|;
  }

  /** `__exit__` depends on the exited context only through its class. */
  lemma ExitIgnoresIdentity(s: State, x: Ctx, y: Ctx)
    requires x.cls == y.cls
    ensures ExitStep(s, x) == ExitStep(s, y)
  {
  }

  /** The per-class current context of a synchronised state is the most
      recent cross-type entry whose exact class is that class. */
  lemma SyncedCurrentIsLatestOfClass(s: State, c: ClassTag)
    requires Synced(s)
    ensures Top(StackOf(s, c)) == ScanFromTop(s.classwide, ExactClass(c))
  {
    assert Project(s.classwide, c) == StackOf(s, c);
    TopOfKeepIsScan(s.classwide, ExactClass(c));
  }

  /** The steps cannot tell `Same` states apart. */
  lemma StepsRespectSame(s: State, t: State, x: Ctx)
    requires Same(s, t)
    ensures Same(EnterStep(s, x), EnterStep(t, x))
    ensures ExitStep(s, x).1 == ExitStep(t, x).1
    ensures Same(ExitStep(s, x).0, ExitStep(t, x).0)
  {
    assert StackOf(s, x.cls) == StackOf(t, x.cls);
  }
}
