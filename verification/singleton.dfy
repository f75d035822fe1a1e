/** The per-type state machine of `singleton<T>`: the accessor `instance()`
    calls through the `_getInstance` dispatch, which points either at the
    slow `firstTimeGetInstance` or at the fast `optGetInstance`.

    A constructor `T{}` is modelled by `deps(T)`: the `instance()` calls it
    makes, in order. A call that does not return (a circular-dependency
    exception) propagates out of the constructor unchanged. Recursion is
    well founded because every nested construction first turns an untouched
    slot of the program's finitely many singleton types into a flagged one. */
module Singleton {
  import opened Base
  import opened TeardownStack
  import opened Registry

  /** What each type's constructor asks for, in order. */
  type Deps = TypeId -> seq<TypeId>

  /** The result of `instance()`: a reference to the object, the
      circular-dependency `logic_error` raised for type `culprit`, or the
      undefined behaviour of `optGetInstance` dereferencing a null
      `_instance` (which the invariants show never happens). */
  datatype Outcome = Returned(obj: Obj) | Threw(culprit: TypeId) | Undefined(ty: TypeId)

  /** How a constructor ended: it returned, or a nested call failed. */
  datatype CtorResult = Completed | Failed(cause: Outcome)

  /** Every type the program's constructors ask for is one of its types. */
  ghost predicate Closed(w: World, deps: Deps)
  {
    forall t :: t in w.slots ==> forall d :: d in deps(t) ==> d in w.slots
  }

  /** What any nested call may do to the world: same types, no slot
      becomes untouched again, the trace only grows, a flagged slot with
      no instance is not touched, and an existing instance stays. */
  ghost predicate Grows(w: World, w': World)
  {
    && w'.slots.Keys == w.slots.Keys
    && Untouched(w') <= Untouched(w)
    && IsPrefix(w.trace, w'.trace)
    && w'.cleanUp == w.cleanUp
    && w.nextSerial <= w'.nextSerial
    && w'.counter == w.counter + |BuiltObjs(w'.trace)| - |BuiltObjs(w.trace)|
    && (forall x :: x in w.slots && Constructing(w.slots[x]) ==> w'.slots[x] == w.slots[x])
    && (forall x :: x in w.slots && Ready(w.slots[x]) ==> w'.slots[x].instance == w.slots[x].instance)
  }

  /** Every slot on the fast path holds an instance, so `optGetInstance`
      never dereferences a null pointer. */
  ghost predicate FastPathSound(w: World)
  {
    forall x :: x in w.slots && w.slots[x].dispatch == OptGet ==> w.slots[x].instance.Some?
  }

  lemma GrowsTrans(w1: World, w2: World, w3: World)
    requires Grows(w1, w2) && Grows(w2, w3)
    ensures Grows(w1, w3)
  {
    SuffixSplit(w1.trace, w2.trace, w3.trace);
  }

  /** Appending an event other than a construction leaves the objects
      constructed as they were. */
  lemma BuiltObjsSkip(tr: seq<Event>, e: Event)
    requires !e.Built?
    ensures BuiltObjs(tr + [e]) == BuiltObjs(tr)
  {
    assert (tr + [e])[..|tr|] == tr;
  }

  lemma SubsetCard<T>(a: set<T>, b: set<T>)
    requires a <= b
    ensures |a| <= |b|
  {
    assert b == a + (b - a);
  }

  /** Overwriting the slot of `t` with a non-untouched one removes exactly
      `t` from the untouched set. */
  lemma UntouchedAfterSet(w: World, t: TypeId, s: Slot)
    requires t in w.slots && !Fresh(s)
    ensures Untouched(SetSlot(w, t, s)) == Untouched(w) - {t}
  {
  }

  /** Changing only the stack, counter, serial, trace or clean-up flag does
      not change which slots are untouched. */
  lemma UntouchedOnlySlots(w: World, w': World)
    requires w'.slots == w.slots
    ensures Untouched(w') == Untouched(w)
  {
  }

  /** The tail of `firstTimeGetInstance`: switch the dispatch to the
      fast path, clear the "being constructed" bit, return the instance. */
  function Finish(w: World, t: TypeId): (r: (World, Outcome))
    requires t in w.slots && w.slots[t].instance.Some?
    ensures r.1 == Returned(w.slots[t].instance.value)
    ensures r.0.slots.Keys == w.slots.Keys
    ensures r.0.slots[t].instance == w.slots[t].instance
    ensures r.0.slots[t].dispatch == OptGet && !Flagged(r.0.slots[t])
    ensures r.0.slots[t].node.func == w.slots[t].node.func
    ensures r.0.slots[t].node.payload == w.slots[t].node.payload
    ensures forall x :: x != t ==> SlotOf(r.0, x) == SlotOf(w, x)
    ensures r.0.stack == w.stack && r.0.counter == w.counter && r.0.trace == w.trace
    ensures r.0.cleanUp == w.cleanUp && r.0.nextSerial == w.nextSerial
  {
    var s := w.slots[t];
    (SetSlot(w, t, s.(dispatch := OptGet, node := s.node.(flags := s.node.flags & !1))), Returned(s.instance.value))
  }

  /** `new T{}` returned inside `firstTimeGetInstance`. Store the fresh
      object in `_instance`, count it live and, only if the node's `_p` is
      null, arm the node with `activeDelete` and the object and push it. */
  function Construct(w: World, t: TypeId): (r: World)
    requires t in w.slots
    ensures r.slots.Keys == w.slots.Keys
    ensures r.slots[t].instance == Some(Obj(t, w.nextSerial))
    ensures r.counter == w.counter + 1
    ensures r.nextSerial == w.nextSerial + 1
    ensures r.trace == w.trace + [Built(Obj(t, w.nextSerial))]
    ensures w.slots[t].node.payload.None? ==>
              && r.stack == APush(w.stack, t)
              && r.slots[t].node == w.slots[t].node.(func := Some(ActiveDelete(t)), payload := Some(Obj(t, w.nextSerial)))
    ensures w.slots[t].node.payload.Some? ==> r.stack == w.stack && r.slots[t].node == w.slots[t].node
    ensures r.slots[t].dispatch == w.slots[t].dispatch
    ensures forall x :: x != t ==> SlotOf(r, x) == SlotOf(w, x)
    ensures r.cleanUp == w.cleanUp
  {
    var o := Obj(t, w.nextSerial);
    var s := w.slots[t];
    var w1 := SetSlot(w, t, s.(instance := Some(o)))
                .(counter := w.counter + 1, nextSerial := w.nextSerial + 1, trace := w.trace + [Built(o)]);
    if s.node.payload.None? then
      var s1 := w1.slots[t];
      SetSlot(w1, t, s1.(node := s1.node.(func := Some(ActiveDelete(t)), payload := Some(o))))
        .(stack := APush(w1.stack, t))
    else w1
  }

  /** Set the "being constructed" bit of `t`'s node, as
      `firstTimeGetInstance` does before running the constructor. */
  function Flag(w: World, t: TypeId): (r: World)
    requires t in w.slots
    ensures r.slots.Keys == w.slots.Keys
    ensures r.slots[t].instance == w.slots[t].instance && r.slots[t].dispatch == w.slots[t].dispatch
    ensures Flagged(r.slots[t])
    ensures forall x :: x != t ==> SlotOf(r, x) == SlotOf(w, x)
    ensures r.stack == w.stack && r.counter == w.counter && r.trace == w.trace
    ensures r.cleanUp == w.cleanUp && r.nextSerial == w.nextSerial
    ensures Untouched(r) == Untouched(w) - {t}
  {
    var s := w.slots[t];
    UntouchedAfterSet(w, t, s.(node := s.node.(flags := 1)));
    SetSlot(w, t, s.(node := s.node.(flags := 1)))
  }

  /** `singleton<t>::instance()`: call whatever `_getInstance` points at. */
  function Instance(w: World, t: TypeId, deps: Deps): (r: (World, Outcome))
    requires Closed(w, deps) && t in w.slots
    ensures Grows(w, r.0)
    ensures r.1.Returned? ==> r.0.slots[t].instance == Some(r.1.obj)
    // the error names a type whose construction is under way or failed earlier
    ensures r.1.Threw? ==> r.1.culprit in r.0.slots && Constructing(r.0.slots[r.1.culprit])
    // a call that returns leaves no construction under way that was not already
    ensures r.1.Returned? ==> forall x :: x in w.slots && Constructing(r.0.slots[x]) ==> Constructing(w.slots[x])
    ensures FastPathSound(w) ==> FastPathSound(r.0)
    decreases |Untouched(w)|, 2
  {
    match w.slots[t].dispatch
    case OptGet => OptGetInstance(w, t)
    case FirstTimeGet => FirstTimeGetInstance(w, t, deps)
  }

  /** `optGetInstance`: dereference `_instance` unconditionally. */
  function OptGetInstance(w: World, t: TypeId): (r: (World, Outcome))
    requires t in w.slots
    ensures r.0 == w
    ensures w.slots[t].instance.Some? ==> r.1 == Returned(w.slots[t].instance.value)
    ensures w.slots[t].instance.None? ==> r.1 == Undefined(t)
  {
    match w.slots[t].instance
    case Some(o) => (w, Returned(o))
    case None => (w, Undefined(t))
  }

  /** `firstTimeGetInstance`: warn when called during clean-up; if there is
      no instance yet, throw when the "being constructed" bit is set and
      construct otherwise; then switch to the fast path. The lock and the
      re-check of `_instance` under it are sequentially redundant and left
      out. */
  function FirstTimeGetInstance(w: World, t: TypeId, deps: Deps): (r: (World, Outcome))
    requires Closed(w, deps) && t in w.slots
    ensures Grows(w, r.0)
    ensures r.1.Returned? ==>
              && r.0.slots[t].instance == Some(r.1.obj)
              && r.0.slots[t].dispatch == OptGet && !Flagged(r.0.slots[t])
    // re-entry while the bit is set: circular dependency, nothing changes
    ensures Constructing(w.slots[t]) ==>
              && r.1 == Threw(t)
              && r.0.slots == w.slots && r.0.stack == w.stack && r.0.counter == w.counter
              && BuiltObjs(r.0.trace) == BuiltObjs(w.trace)
    ensures r.1.Threw? ==> r.1.culprit in r.0.slots && Constructing(r.0.slots[r.1.culprit])
    // a call during clean-up leaves the warning in the trace
    ensures w.cleanUp ==> IsPrefix(w.trace + [LateInit(t)], r.0.trace)
    ensures r.1.Returned? ==> forall x :: x in w.slots && Constructing(r.0.slots[x]) ==> Constructing(w.slots[x])
    ensures FastPathSound(w) ==> FastPathSound(r.0)
    decreases |Untouched(w)|, 1
  {
    var w0 := if w.cleanUp then w.(trace := w.trace + [LateInit(t)]) else w;
    UntouchedOnlySlots(w, w0);
    BuiltObjsSkip(w.trace, LateInit(t));
    var s := w0.slots[t];
    if s.instance.Some? then
      var r := Finish(w0, t);
      UntouchedAfterSet(w0, t, r.0.slots[t]);
      r
    else if Flagged(s) then
      (w0, Threw(t))
    else
      var r := Build(w0, t, deps);
      GrowsTrans(w, w0, r.0);
      r
  }

  /** The construction step of `firstTimeGetInstance`, for a slot with no
      instance and the bit clear: set the bit, run the constructor and, if
      it returns, record the object and switch to the fast path. If the
      constructor throws, the exception propagates and the bit stays set. */
  function Build(w: World, t: TypeId, deps: Deps): (r: (World, Outcome))
    requires Closed(w, deps) && t in w.slots && Fresh(w.slots[t])
    ensures Grows(w, r.0)
    ensures r.1.Returned? ==>
              && r.0.slots[t].instance == Some(r.1.obj)
              && r.0.slots[t].dispatch == OptGet && !Flagged(r.0.slots[t])
    ensures !r.1.Returned? ==> Constructing(r.0.slots[t])
    ensures r.1.Threw? ==> r.1.culprit in r.0.slots && Constructing(r.0.slots[r.1.culprit])
    // the node is armed and pushed, on top, only if its `_p` was null
    ensures r.1.Returned? && w.slots[t].node.payload.None? ==>
              && r.0.stack.items != [] && r.0.stack.items[0] == t
              && r.0.slots[t].node.func == Some(ActiveDelete(t)) && r.0.slots[t].node.payload == Some(r.1.obj)
    ensures r.1.Returned? && w.slots[t].node.payload.Some? ==>
              r.0.slots[t].node.payload == w.slots[t].node.payload
    // the call returns exactly when the constructor runs to completion
    ensures r.1.Returned? <==> RunConstructor(Flag(w, t), deps(t), deps).1.Completed?
    ensures r.1.Returned? ==> forall x :: x in w.slots && Constructing(r.0.slots[x]) ==> Constructing(w.slots[x])
    ensures FastPathSound(w) ==> FastPathSound(r.0)
    decreases |Untouched(w)|, 0
  {
    var w1 := Flag(w, t);
    var (w2, done) := RunConstructor(w1, deps(t), deps);
    if done.Failed? then
      GrowsTrans(w, w1, w2);
      FlagKeepsFastPath(w, t);
      (w2, done.cause)
    else
      var r := Finish(Construct(w2, t), t);
      BuildGrows(w, w1, w2, r.0, t);
      BuildSettles(w, w1, w2, r.0, t);
      r
  }

  /** The world after a successful construction has only grown. */
  lemma BuildGrows(w: World, w1: World, w2: World, w3: World, t: TypeId)
    requires t in w.slots && Fresh(w.slots[t])
    requires w1 == Flag(w, t)
    requires Grows(w1, w2)
    requires w3 == Finish(Construct(w2, t), t).0
    ensures Grows(w, w3)
  {
    var o := Obj(t, w2.nextSerial);
    var c := Construct(w2, t);
    assert w3.trace == w2.trace + [Built(o)] && w3.counter == w2.counter + 1;
    assert BuiltObjs(w3.trace) == BuiltObjs(w2.trace) + [o] by {
      assert (w2.trace + [Built(o)])[..|w2.trace|] == w2.trace;
    }
    assert w3.counter == w.counter + |BuiltObjs(w3.trace)| - |BuiltObjs(w.trace)|;
    assert Untouched(w3) <= Untouched(w) by {
      UntouchedAfterSet(w, t, w1.slots[t]);
      UntouchedAfterSet(w2, t, c.slots[t]);
      UntouchedAfterSet(c, t, w3.slots[t]);
    }
    assert IsPrefix(w.trace, w3.trace) by {
      SuffixSplit(w.trace, w1.trace, w2.trace);
    }
    forall x | x in w.slots && Constructing(w.slots[x])
      ensures w3.slots[x] == w.slots[x]
    {
      assert x != t;
      assert SlotOf(w3, x) == SlotOf(c, x) == SlotOf(w2, x);
    }
    forall x | x in w.slots && Ready(w.slots[x])
      ensures w3.slots[x].instance == w.slots[x].instance
    {
      assert x != t;
      assert SlotOf(w3, x) == SlotOf(c, x) == SlotOf(w2, x);
    }
  }

  lemma FlagKeepsFastPath(w: World, t: TypeId)
    requires t in w.slots
    ensures FastPathSound(w) ==> FastPathSound(Flag(w, t))
  {
    var w1 := Flag(w, t);
    forall x | x in w1.slots && x != t
      ensures w1.slots[x] == w.slots[x]
    {
      assert SlotOf(w1, x) == SlotOf(w, x);
    }
  }

  /** A successful construction ends with `t`'s bit cleared, so the only
      constructions under way are those that were under way before. */
  lemma BuildSettles(w: World, w1: World, w2: World, w3: World, t: TypeId)
    requires t in w.slots && w1 == Flag(w, t) && w2.slots.Keys == w1.slots.Keys
    requires w3 == Finish(Construct(w2, t), t).0
    requires forall x :: x in w1.slots && Constructing(w2.slots[x]) ==> Constructing(w1.slots[x])
    requires FastPathSound(w1) ==> FastPathSound(w2)
    ensures forall x :: x in w.slots && Constructing(w3.slots[x]) ==> Constructing(w.slots[x])
    ensures FastPathSound(w) ==> FastPathSound(w3)
  {
    var c := Construct(w2, t);
    if FastPathSound(w) {
      forall x | x in w1.slots && w1.slots[x].dispatch == OptGet
        ensures w1.slots[x].instance.Some?
      {
        assert SlotOf(w1, x).instance == SlotOf(w, x).instance;
      }
      forall x | x in w3.slots && w3.slots[x].dispatch == OptGet
        ensures w3.slots[x].instance.Some?
      {
        if x != t {
          assert SlotOf(w3, x) == SlotOf(c, x) == SlotOf(w2, x);
        }
      }
    }
    forall x | x in w.slots && Constructing(w3.slots[x])
      ensures Constructing(w.slots[x])
    {
      assert x != t;
      assert SlotOf(w3, x) == SlotOf(c, x) == SlotOf(w2, x);
      assert SlotOf(w1, x) == SlotOf(w, x);
    }
  }

  /** The body of `T{}`: the nested `instance()` calls `ds`, in order; the
      first one that does not return aborts the constructor. */
  function RunConstructor(w: World, ds: seq<TypeId>, deps: Deps): (r: (World, CtorResult))
    requires Closed(w, deps) && forall d :: d in ds ==> d in w.slots
    ensures Grows(w, r.0)
    ensures r.1.Completed? ==> forall d :: d in ds ==> Ready(r.0.slots[d])
    ensures r.1.Failed? ==> !r.1.cause.Returned?
    ensures r.1.Failed? && r.1.cause.Threw? ==>
              r.1.cause.culprit in r.0.slots && Constructing(r.0.slots[r.1.cause.culprit])
    ensures r.1.Completed? ==> forall x :: x in w.slots && Constructing(r.0.slots[x]) ==> Constructing(w.slots[x])
    ensures FastPathSound(w) ==> FastPathSound(r.0)
    decreases |Untouched(w)|, 3, |ds|
  {
    if ds == [] then (w, Completed)
    else
      var (w1, o) := Instance(w, ds[0], deps);
      if !o.Returned? then (w1, Failed(o))
      else
        SubsetCard(Untouched(w1), Untouched(w));
        var (w2, done) := RunConstructor(w1, ds[1..], deps);
        GrowsTrans(w, w1, w2);
        (w2, done)
  }
}
