/** Sequences of `__enter__`/`__exit__` calls on one thread, the nested
    `with` blocks that produce them, and what every such sequence keeps. */
module Traces {
  import opened Contexts
  import opened Stacks
  import opened RegistryState

  datatype Event = EnterEvent(x: Ctx) | ExitEvent(x: Ctx)

  /** Run the calls in order; the first call that raises ends the run. */
  function Run(s: State, events: seq<Event>): (r: (State, Outcome))
    decreases |events|
  {
    if events == [] then (s, Pass)
    else match events[0]
      case EnterEvent(x) => Run(EnterStep(s, x), events[1..])
      case ExitEvent(x) =>
        var step := ExitStep(s, x);
        if step.1.Fail? then step else Run(step.0, events[1..])
  }

  /** Every exit leaves the context that is on top of the cross-type stack. */
  ghost predicate WellNested(s: State, events: seq<Event>)
    decreases |events|
  {
    events == [] ||
    match events[0]
    case EnterEvent(x) => WellNested(EnterStep(s, x), events[1..])
    case ExitEvent(x) =>
      s.classwide != [] && Last(s.classwide) == x && WellNested(ExitStep(s, x).0, events[1..])
  }

  /** A run of `a` then `b` is the run of `a` continued, unless `a` raised. */
  lemma {:induction false} RunAppend(s: State, a: seq<Event>, b: seq<Event>)
    ensures Run(s, a + b) == if Run(s, a).1.Fail? then Run(s, a) else Run(Run(s, a).0, b)
    decreases |a|
  {
    if a == [] {
      assert a + b == b;
    } else {
      assert (a + b)[0] == a[0] && (a + b)[1..] == a[1..] + b;
      match a[0]
      case EnterEvent(x) => RunAppend(EnterStep(s, x), a[1..], b);
      case ExitEvent(x) => RunAppend(ExitStep(s, x).0, a[1..], b);
    }
  }

  /** Well-nestedness of `a + b` follows from that of `a` and, after a run of
      `a` that raised nothing, that of `b`. */
  lemma {:induction false} WellNestedAppend(s: State, a: seq<Event>, b: seq<Event>)
    requires WellNested(s, a) && Run(s, a).1 == Pass && WellNested(Run(s, a).0, b)
    ensures WellNested(s, a + b)
    decreases |a|
  {
    if a == [] {
      assert a + b == b;
    } else {
      assert (a + b)[0] == a[0] && (a + b)[1..] == a[1..] + b;
      match a[0]
      case EnterEvent(x) => WellNestedAppend(EnterStep(s, x), a[1..], b);
      case ExitEvent(x) => WellNestedAppend(ExitStep(s, x).0, a[1..], b);
    }
  }

  /** A prefix of a well-nested sequence of calls is well-nested. */
  lemma {:induction false} WellNestedPrefix(s: State, events: seq<Event>, k: nat)
    requires WellNested(s, events) && k <= |events|
    ensures WellNested(s, events[..k])
    decreases k
  {
    if k > 0 {
      assert events[..k][0] == events[0] && events[..k][1..] == events[1..][..k - 1];
      match events[0]
      case EnterEvent(x) => WellNestedPrefix(EnterStep(s, x), events[1..], k - 1);
      case ExitEvent(x) => WellNestedPrefix(ExitStep(s, x).0, events[1..], k - 1);
    }
  }

  /** The central invariant: along any well-nested sequence of calls no exit
      raises and projecting the cross-type stack onto a class gives that
      class's stack. */
  lemma {:induction false} WellNestedKeepsSync(s: State, events: seq<Event>)
    requires Synced(s) && WellNested(s, events)
    ensures Run(s, events).1 == Pass
    ensures Synced(Run(s, events).0)
    decreases |events|
  {
    if events != [] {
      match events[0]
      case EnterEvent(x) =>
        EnterPreservesSync(s, x);
        WellNestedKeepsSync(EnterStep(s, x), events[1..]);
      case ExitEvent(x) =>
        ExitPreservesSync(s, x);
        WellNestedKeepsSync(ExitStep(s, x).0, events[1..]);
    }
  }

  /** ... at every point of the sequence, not only at its end. */
  lemma SyncedAtEveryPoint(s: State, events: seq<Event>, k: nat)
    requires Synced(s) && WellNested(s, events) && k <= |events|
    ensures Run(s, events[..k]).1 == Pass
    ensures Synced(Run(s, events[..k]).0)
  {
    WellNestedPrefix(s, events, k);
    WellNestedKeepsSync(s, events[..k]);
  }

  /** A `with x:` block whose body runs further `with` blocks in order. */
  datatype Scope = Scope(ctx: Ctx, body: seq<Scope>)

  /** The calls a sequence of `with` blocks makes: entry, body, exit. */
  function Calls(scopes: seq<Scope>): seq<Event>
    decreases scopes
  {
    if scopes == [] then []
    else [EnterEvent(scopes[0].ctx)] + Calls(scopes[0].body) + [ExitEvent(scopes[0].ctx)]
         + Calls(scopes[1..])
  }

  /** Running `with` blocks to the end raises nothing, is well-nested, and
      leaves both stacks as they were, from any starting state. */
  lemma {:induction false} ScopesRestore(s: State, scopes: seq<Scope>)
    ensures Run(s, Calls(scopes)).1 == Pass
    ensures Same(Run(s, Calls(scopes)).0, s)
    ensures WellNested(s, Calls(scopes))
    decreases scopes
  {
    if scopes != [] {
      var x, body, rest := scopes[0].ctx, scopes[0].body, scopes[1..];
      var inner := [EnterEvent(x)] + Calls(body);
      var block := inner + [ExitEvent(x)];
      assert Calls(scopes) == block + Calls(rest);
      var s1 := EnterStep(s, x);
      ScopesRestore(s1, body);
      var t1 := Run(s1, Calls(body)).0;
      assert ([EnterEvent(x)] + Calls(body))[0] == EnterEvent(x);
      assert ([EnterEvent(x)] + Calls(body))[1..] == Calls(body);
      assert Run(s, inner) == Run(s1, Calls(body));
      assert WellNested(s, inner);
      RunAppend(s, inner, [ExitEvent(x)]);
      StepsRespectSame(t1, s1, x);
      EnterExitRestores(s, x);
      var t2 := ExitStep(t1, x).0;
      assert Run(s, block) == ExitStep(t1, x);
      assert WellNested(t1, [ExitEvent(x)]) by {
        assert t1.classwide == s1.classwide;
      }
      WellNestedAppend(s, inner, [ExitEvent(x)]);
      ScopesRestore(t2, rest);
      RunAppend(s, block, Calls(rest));
      WellNestedAppend(s, block, Calls(rest));
    }
  }

  /** Entering a:A, b:B and c:A in turn: the cross-type stack is [a, b, c],
      A's stack is [a, c], B's is [b], and the filter on B finds b. */
  lemma ThreeNestedEntries(a: Ctx, b: Ctx, c: Ctx)
    requires a.cls == c.cls && a.cls != b.cls
    ensures var t := EnterStep(EnterStep(EnterStep(Initial, a), b), c);
            t.classwide == [a, b, c] && StackOf(t, a.cls) == [a, c] && StackOf(t, b.cls) == [b] &&
            ScanFromTop(t.classwide, Matcher(map[], Classes({b.cls}))) == Success(b)
  {
    var t := EnterStep(EnterStep(EnterStep(Initial, a), b), c);
    assert DropLast(t.classwide) == [a, b];
  }

  /** Leaving a single-context state twice: the second exit raises
      StackUnderflow and changes nothing. */
  lemma ExitTooMany(a: Ctx)
    ensures var e := [EnterEvent(a), ExitEvent(a), ExitEvent(a)];
            Run(Initial, e) == (ExitStep(EnterStep(Initial, a), a).0, Fail(StackUnderflow))
  {
    var e := [EnterEvent(a), ExitEvent(a), ExitEvent(a)];
    var s1 := EnterStep(Initial, a);
    var s2 := ExitStep(s1, a).0;
    assert StackOf(s2, a.cls) == [];
    assert e[1..] == [ExitEvent(a), ExitEvent(a)] && e[1..][1..] == [ExitEvent(a)];
    assert ExitStep(s2, a) == (s2, Fail(StackUnderflow));
    assert Run(s2, [ExitEvent(a)]) == (s2, Fail(StackUnderflow));
    assert ExitStep(s1, a).1 == Pass;
    assert Run(s1, [ExitEvent(a), ExitEvent(a)]) == Run(s2, [ExitEvent(a)]);
  }

  /** An extra exit raises only when its class's stack is empty: with an older
      context of the same class still active, exiting a2 twice pops a2 and
      then a1, and nothing raises. */
  lemma ExtraExitPopsOlder(a1: Ctx, a2: Ctx)
    requires a1.cls == a2.cls
    ensures var r := Run(Initial, [EnterEvent(a1), EnterEvent(a2), ExitEvent(a2), ExitEvent(a2)]);
            r.1 == Pass && r.0.classwide == [] && StackOf(r.0, a1.cls) == []
  {
    var s1 := EnterStep(Initial, a1);
    var s2 := EnterStep(s1, a2);
    assert StackOf(s2, a1.cls) == [a1, a2] && s2.classwide == [a1, a2];
    var t1 := ExitStep(s2, a2).0;
    assert StackOf(t1, a1.cls) == [a1] && t1.classwide == [a1];
    var t2 := ExitStep(t1, a2).0;
    assert ExitStep(t1, a2).1 == Pass && t2.classwide == [] && StackOf(t2, a1.cls) == [];
    assert Run(t2, []) == (t2, Pass);
    assert Run(t1, [ExitEvent(a2)]) == Run(t2, []);
    assert Run(s2, [ExitEvent(a2), ExitEvent(a2)]) == Run(t1, [ExitEvent(a2)]);
    assert Run(s1, [EnterEvent(a2), ExitEvent(a2), ExitEvent(a2)]) == Run(s2, [ExitEvent(a2), ExitEvent(a2)]);
  }
}
