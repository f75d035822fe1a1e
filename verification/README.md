# Singleton registry with ordered initialisation and teardown

This project is a Dafny model of the singleton registry in `singleton.h`
(init_singleton). It models, sequentially, the following parts:

- **The teardown stack** `static_obj_stack<singletons_meta_data>`. This is an
  intrusive LIFO of meta-data nodes linked through `_next`. Its top is a
  `sequenced_ptr`: a node pointer paired with a 64-bit counter that every
  successful push or pop increments.
- **The per-type state of every `singleton<T>`.** This covers:
  - `_instance`;
  - the `_getInstance` dispatch, either the slow `firstTimeGetInstance` or
    the fast `optGetInstance`;
  - the node fields `_func`, `_p` and `_flags` bit `0x1` ("being
    constructed").
- **The process-wide bookkeeping**: `singletons_counter::global_counter`
  and `clean_up_phase`.
- **The operations**: `instance()`, `firstTimeGetInstance`,
  `optGetInstance`, `SpecialDeleter`, `activeDelete` and `emptyStack()`.

The modules follow the header's structure:

- `Base` (`base.dfy`) provides `Option` for nullable pointers, the
  `uint64_t` increment with wrap-around, and sequence helpers.
- `TeardownStack` (`teardown_stack.dfy`) holds two layers:
  - the concrete stack: the `_next` links plus the sequenced top pointer,
    with `Push`, `Pop`, `Cas` and the `Size` loop;
  - an abstract stack: a sequence of node ids, top first, plus the
    counter.

  Refinement lemmas show that push and pop are cons and uncons on the
  sequence.
- `Registry` (`registry.dfy`) holds:
  - the `World`: every type's slot, the stack, the counter, the clean-up
    flag and a trace of observable events (a constructor returning,
    `activeDelete` running, the late-initialisation warning);
  - `activeDelete`, `emptyStack` and `SpecialDeleter`;
  - the destruction of a `_instance` at process exit.
- `Singleton` (`singleton.dfy`) holds `instance()`, `firstTimeGetInstance`
  and `optGetInstance`.
  - A constructor `T{}` is modelled by `deps(T)`: the `instance()` calls it
    makes, in order.
  - The first call that does not return aborts the constructor and
    propagates.
  - The mutual recursion terminates because every nested construction
    turns one of the finitely many untouched slots into a flagged one.
- `Lifecycle` (`lifecycle.dfy`) holds the whole-program theorems:
  - the invariant `ConstructionPhase`, which holds from load time to the
    first destruction;
  - exactly-once construction and the identity of later calls;
  - circular dependencies throwing, and a call returning when its
    dependencies reach no cycle and no failed construction;
  - teardown in reverse order of construction once the last instance is
    destroyed.

## Model

| member | source | states |
|---|---|---|
| Base.Bump | singleton.h:150 | `++_seq` on a `uint64_t`: one more, except that the largest value wraps to 0 |
| TeardownStack.Cas | singleton.h:97-104 | the compare-and-swap succeeds exactly when the cell equals the expected pair, installs the desired pair on success and leaves the cell alone on failure |
| TeardownStack.Push | singleton.h:139-152 | after `push(p)` the top pointer is `p`, `p->_next` is the old top pointer, the sequence is the old one plus one (wrapping), and no other node's `_next` changes |
| TeardownStack.Pop | singleton.h:153-166 | on an empty stack `pop()` returns null and leaves pointer and sequence untouched; otherwise it returns the old top, the new top is its `_next`, and the sequence advances by one |
| TeardownStack.Size | singleton.h:168-174 | the loop along `_next` counts exactly the nodes of the chain from the top to `nullptr` |
| TeardownStack.ChainUnique | singleton.h:172 | a top pointer determines the chain `size()` walks, so the count is well defined |
| TeardownStack.ChainDistinct | singleton.h:172 | a chain that reaches `nullptr` never visits a node twice |
| TeardownStack.PushRefines | singleton.h:139-152 | pushing a node not on the stack turns the represented sequence `s` into `[p] + s` with the next counter, so `size()` grows by one |
| TeardownStack.PopRefines | singleton.h:153-166 | pop returns the head of the represented sequence and leaves its tail represented, so a non-empty pop shrinks `size()` by one and an empty pop changes nothing |
| TeardownStack.PushPopRoundTrip | singleton.h:139-166 | LIFO on the linked stack: `push(p)` then `pop()` returns `p`, restores the previous top pointer and advances the sequence by two |
| TeardownStack.APushPopRoundTrip | singleton.h:139-166 | LIFO on the abstract stack: push then pop restores the contents and returns the pushed node |
| Registry.Initial | singleton.h:323-326 | at load time every slot has no instance, the slow dispatch and a zeroed node |
| Registry.ActiveDeleteOf | singleton.h:273-284 | `activeDelete` deletes the node's payload (records it as freed) and sets `_p` to null, touching no other slot |
| Registry.Invoke | singleton.h:196-200 | for a popped node with `_func` set, `_func` is null afterwards and exactly one deletion of the node's payload is recorded; with `_func` null nothing happens |
| Registry.Drain | singleton.h:189-201 | the pop loop ends with an empty stack after one sequence increment per node, and leaves counter and clean-up flag alone |
| Registry.DrainFrame | singleton.h:189-201 | the pop loop leaves unstacked types' slots alone and leaves every stacked node with `_func` null |
| Registry.DrainKeepsSlotState | singleton.h:189-201 | the pop loop changes no `_instance`, no dispatch and no flags |
| Registry.DrainExtends | singleton.h:189-201 | the pop loop only appends to the history |
| Registry.InvokeHead | singleton.h:196-200 | one round appends only deletions, and invokes the popped node's `_func` once if it was set and never otherwise |
| Registry.DrainOnlyDeletes | singleton.h:189-201 | everything the pop loop does is a call of `activeDelete` |
| Registry.DrainInvokesStacked | singleton.h:189-201 | every `_func` the loop calls belonged to a node on the stack whose `_func` was set |
| Registry.DrainInvokesOnce | singleton.h:196-200 | each node's `_func` is called at most once, even for a node listed twice, because it is nulled before the call |
| Registry.DrainMatchesTeardown | singleton.h:189-201 | on a stack without repeats, the loop performs exactly the reference teardown: one deletion per node with `_func` set, from the top down (reverse push order) |
| Registry.EmptyStackOf | singleton.h:182-202 | `emptyStack()` sets `clean_up_phase`, leaves the stack empty, changes no counter, instance or dispatch, nulls every stacked `_func`, leaves unstacked slots alone, and its history is the reference teardown |
| Registry.EmptyStackTwice | singleton.h:182-202 | a second `emptyStack()` changes nothing and invokes nothing |
| Registry.SpecialDeleter | singleton.h:246-271 | on null nothing happens; on a non-null `p`: dispatch back to the slow path, counter minus one, and no instance changes. While the counter stays non-zero only `t`'s slot changes, with `_p` recording `p`, and stack, history and clean-up flag are unchanged. When it reaches 0, `emptyStack()` runs: clean-up set, stack empty, every stacked `_func` null, unstacked slots untouched, and the history gains exactly the reference teardown of the stack with `p` as `t`'s payload |
| Registry.DestroyInstance | singleton.h:324 | destroying a null `_instance` changes nothing. A non-null one runs the deleter on the object and leaves the pointer null: counter minus one, `t`'s dispatch back to the slow path, other instances and dispatches kept, and either only `t`'s slot changes (counter non-zero) or the full teardown of the stack, with the object as `t`'s payload, is appended (counter zero) |
| Singleton.Finish | singleton.h:315-318 | the slot switches to the fast path with bit `0x1` cleared, returns its instance, and nothing else changes |
| Singleton.Construct | singleton.h:302-312 | a new object of the type becomes `_instance` and the counter grows by one; if `_p` was null the node is armed with `activeDelete` and the object and pushed on top, otherwise stack and node are unchanged |
| Singleton.Flag | singleton.h:302 | setting bit `0x1` of a type's node changes nothing else, and a fresh slot stops being untouched |
| Singleton.Instance | singleton.h:331 | `instance()` only grows the world (no slot becomes untouched, a slot under construction or an existing instance is never disturbed, the counter moves with the constructions); a returned reference is the slot's instance, and a thrown error names a type with no instance and the bit `0x1` set; a call that returns leaves no construction under way that was not under way before; if every fast-path slot held an instance before, it still does |
| Singleton.OptGetInstance | singleton.h:321 | the fast path changes nothing; it returns the instance, and with a null instance it is undefined behaviour |
| Singleton.FirstTimeGetInstance | singleton.h:286-319 | on return the slot holds the returned object with the fast path installed and bit `0x1` clear; with a null instance and the bit set it throws for this type and changes no slot, stack, counter or construction; any error it throws names a type with no instance and the bit set; on return no new construction is under way; during clean-up the warning is recorded first |
| Singleton.Build | singleton.h:300-318 | constructing a fresh slot returns exactly when the constructor `new T{}`, run with bit `0x1` set, completes; it then returns the new instance, otherwise the slot keeps bit `0x1` set and no instance; a returned object's node is armed and on top of the stack when `_p` was null, and `_p` is untouched otherwise; on return no new construction is under way |
| Singleton.RunConstructor | singleton.h:303 | a constructor that completes leaves every type it asked for ready and no new construction under way; one that fails propagates a non-returning outcome, an error naming a type with no instance and the bit set |
| Lifecycle.InitialConstructionPhase | singleton.h:323-326 | load time satisfies the construction-phase invariant: the stack lists the constructed types newest first with their armed nodes, the counter is the depth, the fast path installed exactly on the ready slots, dependencies below |
| Lifecycle.FlagPreserves | singleton.h:302 | setting bit `0x1` on a fresh slot keeps the invariant |
| Lifecycle.ConstructPreserves | singleton.h:303-312 | recording a construction whose dependencies are ready keeps the invariant |
| Lifecycle.FinishPreserves | singleton.h:315-316 | installing the fast path on a ready slot keeps the invariant |
| Lifecycle.InstancePreserves | singleton.h:331 | any `instance()` call keeps the invariant and never reaches the undefined null dereference |
| Lifecycle.FirstTimePreserves | singleton.h:286-319 | the slow path keeps the invariant and is never undefined |
| Lifecycle.BuildPreserves | singleton.h:300-318 | a construction keeps the invariant and is never undefined |
| Lifecycle.RunConstructorPreserves | singleton.h:303 | a constructor's nested calls keep the invariant and fail only with an exception |
| Lifecycle.ConstructedAtMostOnce | singleton.h:293-313 | over a whole construction phase no type is constructed twice |
| Lifecycle.ReadyObjIsBuilt | singleton.h:303 | a ready type's instance is the only object of that type ever constructed |
| Lifecycle.NotReadyNotBuilt | singleton.h:293-303 | a type that is not ready has never been constructed |
| Lifecycle.FirstCallIsSlowPath | singleton.h:323 | a type that is not ready still dispatches to `firstTimeGetInstance`, which for a fresh slot constructs |
| Lifecycle.FirstCallConstructsOnce | singleton.h:293-318 | a first call that returns has constructed exactly one object of the type, the one returned; the counter grew by the objects constructed during the call; the fast path is installed, bit `0x1` cleared and the node on top of the stack |
| Lifecycle.LaterCallIsIdentity | singleton.h:321-331 | while constructing, any call for a type that is ready, whatever calls for other types came in between, takes the fast path, returns the same object and changes nothing: no construction, no counter, stack or history change |
| Lifecycle.SecondCallIsIdentity | singleton.h:321 | after a call returns an object, the next call returns the same object and changes nothing |
| Lifecycle.ReadyClosure | singleton.h:303-311 | while constructing, everything a ready type needs, transitively, is ready |
| Lifecycle.ConstructorRan | singleton.h:302-303 | after a fresh type's constructor has run, the invariant holds and the type is still flagged, and if the call returns, everything the constructor asked for is ready |
| Lifecycle.CycleBlocked | singleton.h:9 | a type on a dependency cycle that is not ready has a dependency that is not ready |
| Lifecycle.BuildOnCycleFails | singleton.h:9 | constructing a type on a dependency cycle never returns |
| Lifecycle.ReentryThrows | singleton.h:293-298 | re-entering a type under construction throws the circular-dependency error for it and changes no slot, stack, counter or constructed object |
| Lifecycle.CycleThrows | singleton.h:9 | a type whose constructor asks for itself, directly or transitively, throws a circular-dependency error and does not loop; the error names a type whose construction is under way or failed earlier, not necessarily one on the cycle |
| Lifecycle.BuildReturns | singleton.h:300-318 | constructing a fresh type whose transitive dependencies form no cycle and include no construction under way or failed earlier returns |
| Lifecycle.RunConstructorReturns | singleton.h:303 | a constructor whose nested calls all reach only such types runs to completion |
| Lifecycle.InstanceReturns | singleton.h:293-318 | the converse of CycleThrows, whenever every fast-path slot holds an instance (during construction and after clean-up alike): a call whose transitive dependencies form no cycle (a rank decreases along them) and include no type whose construction is under way or failed earlier returns an object, so `instance()` throws only for a cycle or an earlier failed construction |
| Lifecycle.PhaseFastPathSound | singleton.h:315-321 | while constructing, every slot on the fast path holds an instance, so InstanceReturns applies throughout construction |
| Lifecycle.ShutdownIdle | singleton.h:257 | once no instance remains, destroying more `_instance`s does nothing |
| Lifecycle.DestroyStep | singleton.h:257-268 | one destruction while shutting down lowers the counter by one; above zero the stack and history are untouched, at zero no instance is left and the whole stack has been torn down |
| Lifecycle.ShutdownWaits | singleton.h:257-268 | whatever the order of destruction, as long as the counter is above 0 the stack and history are those of the end of the construction phase |
| Lifecycle.ShutdownRun | singleton.h:257-268 | destroying the instances one by one leaves stack and history alone after every destruction that keeps the counter above 0; once all are destroyed the counter is 0 and the whole stack has been torn down once, leaving it empty |
| Lifecycle.TeardownFreesPayloads | singleton.h:282-283 | the teardown of armed nodes frees their payloads, one per node, in stack order |
| Lifecycle.ShutdownStarts | singleton.h:17-19 | at the end of the construction phase every stacked node is armed, and the counter counts the live instances |
| Lifecycle.TeardownIsReverse | singleton.h:17-19 | tearing down the stack frees the constructed objects in reverse order of construction |
| Lifecycle.FreedTypes | singleton.h:17-19 | the `i`-th object freed is the instance of the `i`-th stacked type |
| Lifecycle.StackRespectsDeps | singleton.h:303-311 | every dependency of a stacked type lies strictly below it |
| Lifecycle.TeardownRespectsDeps | singleton.h:10 | the teardown deletes every type before each type its constructor asked for |
| Lifecycle.TeardownReversesConstruction | singleton.h:10 | destroying every live `_instance`, in any order, ends with counter 0 and an empty stack, and frees exactly the constructed objects in reverse order of construction, each type before its dependencies |

## Behaviour of the code the model keeps

- **A failed construction is sticky.** Bit `0x1` is set before `new T{}`
  (singleton.h:302) and cleared only at singleton.h:316. A constructor
  that throws skips line 316. The slot is left with no instance and the bit
  set, so every later call for that type throws the circular-dependency
  error too. `Constructing` covers both "still running" and "threw".
- **`activated` is not a guard** (singleton.h:250-256). It is read only
  by the disabled verbose output (singleton.h:254), so it prevents
  nothing. The deleter is modelled without it.
- **Dispatch reset.** The deleter's reset at singleton.h:260 is conditional
  on the dispatch being `optGetInstance`. With only two possible values it
  always ends at `firstTimeGetInstance`, so it is modelled unconditionally.
- **Reconstruction after teardown.** A call after the deleter has run
  finds `_instance` null and the slow path installed. It constructs again
  and warns when `clean_up_phase` is set. The node is not pushed again
  while its `_p` is still set (singleton.h:306). The rebuilt object is
  still counted (singleton.h:304). So after building A and B, destroying
  A, calling A again and destroying B, the counter is left at 1 and
  `emptyStack()` never runs.
- **The counter can go negative.** It is a plain signed integer and
  nothing stops it going below zero. The model keeps it as an unbounded
  `int` with no clamp.

## Left out

- The 128-bit packing of `sequenced_ptr`, the `__sync_*` and `std::atomic`
  compare-and-swap, and the retry loops are not modelled
  (singleton.h:63-105, 143-151, 156-164). Sequentially the first
  compare-and-swap succeeds, so each loop is a single round through `Cas`.
- The `std::mutex` locks and the double-checked `_instance` test are not
  modelled (singleton.h:170, 184, 259, 299-300). They matter only under
  concurrency. Concurrency and threads are out of scope.
- `early_initializer`, `early_initializer_no_args` and `lazy_initializer`
  are not modelled. They decide only when the first `instance()` call
  happens, which the model takes as given.
- The `InitT` stream initialiser, the verbose output and
  `report_singletons_stack` are not modelled. They do output only. The
  clean-up warning is kept as a `LateInit` event.
- `_func_name`, `_useCount` and `active_delete_count` are not modelled.
  `_func_name` and `active_delete_count` are read only by the diagnostic
  output (singleton.h:193, 210, 279). `_useCount` is never used.
- `app_args.h`, `app_env.h`, the examples and the tests are not part of
  this model.
- The C++ runtime's order of static destruction is not modelled. It is a
  parameter (`order` in `Shutdown`), and the teardown theorem holds for
  every order.
- Not modelled: constructors that throw on their own, that call
  `instance()` only conditionally or that do other work. A constructor is
  its fixed list of nested `instance()` calls. Destructors that call
  `instance()` are also left out.
- Not modelled: the `int64_t` range of `global_counter` and the `uint64_t`
  result of `size()`. Both are unbounded integers, because the number of
  singleton types is far below either limit. The 64-bit wrap of the
  stack's sequence number is modelled.
- Lifecycle.FirstCallConstructsOnce: the counter grows by the number of
  objects constructed during the call, not always by exactly one. Nested
  first-time constructions of dependencies also count. The `+1` per
  construction itself is stated by Singleton.Construct. Its conclusions
  are guarded by the call returning; when it returns is stated by
  Lifecycle.InstanceReturns.
- Lifecycle.CycleThrows: it states that the call throws for a type whose
  construction is under way or failed earlier. It does not name that type.
  The type need not lie on the cycle. An earlier failed construction
  elsewhere leaves its bit set, and a later call reaching that type throws
  for it first. The converse, that a call reaching no cycle and no failed
  construction returns, is Lifecycle.InstanceReturns.
- Lifecycle.TeardownReversesConstruction: it is stated for teardown
  starting from the construction phase, not for runs that reconstruct
  after a teardown.
