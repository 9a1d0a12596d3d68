# scoped-context, modelled in Dafny

`ScopedContext` is a Python mixin that turns any class into a scoped
context. Entering an instance (`with x:`) pushes it onto a stack owned by
its exact class and onto one cross-type stack shared by every subclass.
Leaving it pops the top of both. The classmethods `current()` and
`context_stack()` read the class's own stack. `_current_classwide` and
`_classwide_context_stack`, and the free functions `get_current_context`
and `get_context_stack`, read the cross-type stack, optionally filtered
with `isinstance` by a class or a tuple of classes. A lookup that finds
nothing raises `NoContextError`.

The model covers one thread's state:

- `contexts.dfy` (module `Contexts`): a context is `Ctx(id, cls)`, an
  identity plus its exact class tag. `Hierarchy` gives each class its
  bases, so that `isinstance` can be modelled. `Filter` stands for the
  `class_or_tuple` argument. `Result`/`Outcome` carry `NoContextError`,
  and `StackUnderflow` stands for the `queue.Empty` raised by
  `get(block=False)`.
- `stacks.dfy` (module `Stacks`): stacks are sequences, oldest first.
  `Keep` is the list comprehension that filters a stack. `Top` is
  `queue[-1]` with the empty check. `ScanFromTop` is an independent
  reference for "most recent match".
- `registry_state.dfy` (module `RegistryState`): the registry's state as a
  value, with a map from class tag to stack and the cross-type stack. It
  defines what `__enter__` and `__exit__` do to that state, and `Synced`,
  the invariant that projecting the cross-type stack onto a class gives
  that class's stack.
- `traces.dfy` (module `Traces`): sequences of enter and exit calls. It
  also models nested `with` blocks and proves the invariant over whole
  traces.
- `scoped_context.dfy` (module `ScopedContext`): the class
  `ContextRegistry`. Its fields are the two stacks, updated in place by
  `Enter` and `Exit`, whose contracts tie the new state to
  `RegistryState`'s steps. Its read-only functions are the classmethods.
  The two free functions sit beside the class.

Facts about the code that the model keeps:

- Lookups that find nothing raise `NoContextError`.
- The cross-type filter is `isinstance`, so instances of subclasses of a
  filter class match too.
- `__exit__` does not compare the popped element with `self`.
- `__exit__` pops the class's own stack first. If that stack is empty it
  raises and touches nothing. If only the cross-type stack is empty, the
  first pop stays done when the second `get` raises. `ExitStep` keeps
  this order. `SyncedExitFailsOnlyWhenEmpty` shows that a synchronised
  state never reaches the partial case.

## Model

| member | source | states |
|---|---|---|
| `Contexts.MatchesIsInstanceOfSome` | src/scoped_context/__init__.py:72 | a tuple filter keeps an instance exactly when `isinstance` holds for one of its classes |
| `Contexts.LeafFilterIsExactClass` | src/scoped_context/__init__.py:72 | filtering by a class with no subclass keeps exactly the contexts of that exact class |
| `Stacks.Keep` | src/scoped_context/__init__.py:72 | the filtered list is no longer than the stack, every entry in it passes the filter, and every passing entry of the stack is in it |
| `Stacks.KeepAppend` | src/scoped_context/__init__.py:71-73 | filtering distributes over concatenation, so matching entries keep their relative order |
| `Stacks.KeepCount` | src/scoped_context/__init__.py:138-140 | each context occurs in the filtered list as often as in the stack if it matches, else not at all |
| `Stacks.KeepAll` | src/scoped_context/__init__.py:71-73 | filtering returns the stack unchanged exactly when every entry matches |
| `Stacks.KeepNone` | src/scoped_context/__init__.py:92-96 | the filtered list is empty exactly when no entry matches |
| `Stacks.KeepCongruent` | src/scoped_context/__init__.py:72 | two filters that agree on every entry give the same list |
| `Stacks.TopOfKeepIsScan` | src/scoped_context/__init__.py:92-96 | the last element of the filtered list, or NoContextError, equals a scan from the top for the first match |
| `Stacks.ScanFindsLastMatch` | src/scoped_context/__init__.py:92-96 | the scan raises NoContextError exactly when nothing matches; otherwise it returns a matching entry above which nothing matches |
| `Stacks.FilterSkipsNonMatching` | src/scoped_context/__init__.py:122-126 | with x:A, y:C, z:B active the filter {A, B} finds z, and with x:A, y:C it finds x |
| `RegistryState.EnterStep` | src/scoped_context/__init__.py:98-102 | entering appends the context to its class's stack and to the cross-type stack, and leaves every other class's stack unchanged |
| `RegistryState.ExitStep` | src/scoped_context/__init__.py:104-112 | exiting succeeds exactly when both stacks are non-empty and pops their tops; an empty own stack raises StackUnderflow and changes nothing; other classes are untouched |
| `RegistryState.InitialSynced` | src/scoped_context/__init__.py:40-50 | the freshly created, empty stacks are synchronised |
| `RegistryState.EnterPreservesSync` | src/scoped_context/__init__.py:100-101 | entering keeps every class's stack equal to the projection of the cross-type stack |
| `RegistryState.EnterMakesCurrent` | src/scoped_context/__init__.py:98-102 | after entering x, x is its class's current context and the cross-type current under every filter it matches; other filters see what they saw before |
| `RegistryState.EnterExitRestores` | src/scoped_context/__init__.py:98-112 | exiting right after entering raises nothing and restores both stacks |
| `RegistryState.ExitPreservesSync` | src/scoped_context/__init__.py:111-112 | exiting a context of the class that owns the top of the cross-type stack succeeds, drops that top and keeps the stacks synchronised |
| `RegistryState.SyncedExitFailsOnlyWhenEmpty` | src/scoped_context/__init__.py:111-112 | in a synchronised state exit raises exactly when the class's own stack is empty, and then changes nothing |
| `RegistryState.OutOfOrderExitDesyncs` | src/scoped_context/__init__.py:111-112 | exiting a context whose class does not own the top of the cross-type stack, provided its own class's stack is non-empty, still succeeds but breaks synchronisation, since no identity check is made |
| `RegistryState.ExitIgnoresIdentity` | src/scoped_context/__init__.py:111-112 | exit depends on the exited context only through its class |
| `RegistryState.SyncedCurrentIsLatestOfClass` | src/scoped_context/__init__.py:76-81 | in a synchronised state a class's current context is the most recent cross-type entry of that exact class |
| `Traces.WellNestedKeepsSync` | src/scoped_context/__init__.py:98-112 | along any trace in which each exit leaves the top of the cross-type stack, no exit raises and the stacks stay synchronised |
| `Traces.SyncedAtEveryPoint` | src/scoped_context/__init__.py:100-112 | the same holds after every prefix of such a trace |
| `Traces.ScopesRestore` | src/scoped_context/__init__.py:98-112 | any nest of `with` blocks, from any state, is well-nested, raises nothing and leaves both stacks as they were |
| `Traces.ThreeNestedEntries` | src/scoped_context/__init__.py:52-73 | after entering a:A, b:B, c:A the cross-type stack is [a, b, c], A's stack [a, c], B's [b], and the filter on B finds b |
| `Traces.ExitTooMany` | src/scoped_context/__init__.py:111 | from the empty registry, entering a and exiting it twice makes the second exit raise StackUnderflow |
| `Traces.ExtraExitPopsOlder` | src/scoped_context/__init__.py:111-112 | with an older context of the same class active, an extra exit does not raise: exiting a2 twice after entering a1 and a2 pops both and empties the stacks |
| `ScopedContext.ContextRegistry.constructor` | src/scoped_context/__init__.py:33-50 | a new registry has only empty stacks, which are synchronised |
| `ScopedContext.ContextRegistry.ContextStack` | src/scoped_context/__init__.py:52-58 | under the invariant, a class's stack holds only contexts of that exact class and is the projection of the cross-type stack |
| `ScopedContext.ContextRegistry.Current` | src/scoped_context/__init__.py:75-81 | raises NoContextError exactly when the class's stack is empty, else returns its last element; under the invariant, that is the most recent cross-type entry of the class |
| `ScopedContext.ContextRegistry.ClasswideContextStack` | src/scoped_context/__init__.py:60-73 | unfiltered it is the whole cross-type stack; filtered it holds the matching entries and each as often as in the stack; for a class without subclasses it equals that class's own stack |
| `ScopedContext.ContextRegistry.CurrentClasswide` | src/scoped_context/__init__.py:83-96 | equals the scan from the top for the first matching entry (so, by ScanFindsLastMatch, the most recent match or NoContextError); unfiltered, the top of the cross-type stack |
| `ScopedContext.ContextRegistry.Enter` | src/scoped_context/__init__.py:98-102 | returns the context itself, performs EnterStep in place, makes it current for its class and for the unfiltered cross-type lookup, leaves other classes' stacks alone, and keeps the invariant |
| `ScopedContext.ContextRegistry.Exit` | src/scoped_context/__init__.py:104-112 | performs ExitStep in place whatever the exception arguments; exiting the top of the cross-type stack succeeds and keeps the invariant |
| `ScopedContext.GetCurrentContext` | src/scoped_context/__init__.py:115-126 | agrees with the classmethod lookup on every filter and equals the scan from the top for the first match |
| `ScopedContext.GetContextStack` | src/scoped_context/__init__.py:129-140 | agrees with the classmethod stack on every filter; unfiltered it is the whole cross-type stack |

## Left out

- Thread-local storage and thread isolation: the model is one thread's
  state. Per-thread partitioning would be a map keyed by thread id.
- `queue.LifoQueue` locking and blocking: only non-blocking `put` and
  `get` are used. The queue is a sequence, and `queue.Empty` is the
  `StackUnderflow` error.
- Lazy creation of storage through `hasattr`: a stack not yet created is
  a class tag absent from the map, and it reads as empty. `Same` relates
  states that differ only in this.
- The `__init_subclass__` metaprogramming beyond "each class tag has its
  own stack".
- The bare `ScopedContext` base class: it declares `_thread_local` but
  only subclasses assign it, so `_stack()` raises `AttributeError` for the
  base class. That makes `ScopedContext.context_stack()`,
  `ScopedContext.current()`, and `__enter__`/`__exit__` on a plain
  `ScopedContext()` instance fail. The model has no tag for the base
  class: every class tag is a subclass with its own stack, and `Enter`
  and `EnterStep` accept every tag.
- Aliasing: `context_stack()` and the unfiltered cross-type stack return
  the live internal list in the code. The model returns the sequence
  value, so a caller's mutation of that list is not modelled.
- `isinstance` beyond a static, transitively closed table of bases: `__instancecheck__`,
  abstract base classes and virtual subclasses are not modelled.
- The `with` statement's guarantee that `__exit__` runs on every exit
  path belongs to the runtime. `Traces.Calls` assumes each block's exit
  call is made, and `Exit` ignores its exception argument.
- Typing imports and version checks.
