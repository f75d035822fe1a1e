/** Process-wide state of the singleton registry: the static members of
    every `singleton<T>` (its `_instance`, its `_getInstance` dispatch and
    its `singleton_meta_data_node`), the teardown stack, the live-instance
    counter `singletons_counter::global_counter` and `clean_up_phase`.

    Singleton types are named by `TypeId`; the node of type `t` on the
    teardown stack is the node with id `t`. Constructed objects are named by
    `Obj`, fresh for every construction. Observable effects (a constructor
    completing, `activeDelete` running, the late-initialisation warning) are
    appended to `trace`. */
module Registry {
  import opened Base
  import opened TeardownStack

  type TypeId = NodeId

  /** An object of singleton type `ty`, the `serial`-th one constructed. */
  datatype Obj = Obj(ty: TypeId, serial: nat)

  /** The only function ever stored in a node's `_func`: the
      `activeDelete` of `singleton<owner>`. */
  datatype Deleter = ActiveDelete(owner: TypeId)

  /** `singletons_meta_data` without `_next` (kept by the stack) and without
      the diagnostic name and the unused use count. */
  datatype MetaData = MetaData(func: Option<Deleter>, payload: Option<Obj>, flags: bv32)

  /** Which accessor `_getInstance` points at. */
  datatype Dispatch = FirstTimeGet | OptGet

  /** The static members of one `singleton<T>`. */
  datatype Slot = Slot(instance: Option<Obj>, dispatch: Dispatch, node: MetaData)

  /** A zero-initialised slot, as every slot is at load time. */
  const FreshSlot := Slot(None, FirstTimeGet, MetaData(None, None, 0))

  datatype Event =
    | Built(obj: Obj)                       // a constructor `T{}` returned
    | Deleted(node: TypeId, freed: Option<Obj>)  // `activeDelete` ran on `node` (deleting `freed`, or `nullptr`)
    | LateInit(ty: TypeId)                  // construction attempted during clean-up

  datatype World = World(
    slots: map<TypeId, Slot>,
    stack: Stack,
    counter: int,
    cleanUp: bool,
    nextSerial: nat,
    trace: seq<Event>)

  /** The state at load time, for a program whose singleton types are `types`. */
  function Initial(types: set<TypeId>): (w: World)
    ensures w.slots.Keys == types
    ensures forall t :: t in types ==> w.slots[t] == FreshSlot
  {
    World(map t | t in types :: FreshSlot, InitialStack, 0, false, 0, [])
  }

  function SlotOf(w: World, t: TypeId): Slot
  {
    if t in w.slots then w.slots[t] else FreshSlot
  }

  function SetSlot(w: World, t: TypeId, s: Slot): World
  {
    w.(slots := w.slots[t := s])
  }

  function SetNode(w: World, t: TypeId, n: MetaData): World
  {
    SetSlot(w, t, SlotOf(w, t).(node := n))
  }

  /** Bit `0x1` of `_flags`: "being constructed". */
  predicate Flagged(s: Slot)
  {
    s.node.flags & 1 != 0
  }

  /** Nothing has happened to the slot yet: no instance, flag clear. */
  predicate Fresh(s: Slot)
  {
    s.instance.None? && !Flagged(s)
  }

  /** Construction began and never completed: the constructor is still
      running, or it threw and left the flag behind. */
  predicate Constructing(s: Slot)
  {
    s.instance.None? && Flagged(s)
  }

  predicate Ready(s: Slot)
  {
    s.instance.Some?
  }

  /** The program's types whose slot is untouched. */
  function Untouched(w: World): set<TypeId>
  {
    set t | t in w.slots && Fresh(w.slots[t])
  }

  /** Objects constructed, in the order their constructors returned. */
  function BuiltObjs(tr: seq<Event>): (r: seq<Obj>)
    ensures |r| <= |tr|
  {
    if tr == [] then []
    else BuiltObjs(tr[..|tr| - 1]) + (if tr[|tr| - 1].Built? then [tr[|tr| - 1].obj] else [])
  }

  /** Objects destroyed by `activeDelete`, in order (a `nullptr` payload
      destroys nothing). */
  function FreedObjs(tr: seq<Event>): (r: seq<Obj>)
    ensures |r| <= |tr|
  {
    if tr == [] then []
    else FreedObjs(tr[..|tr| - 1])
         + (if tr[|tr| - 1].Deleted? && tr[|tr| - 1].freed.Some? then [tr[|tr| - 1].freed.value] else [])
  }

  /** The nodes whose `_func` ran, in order. */
  function Invoked(tr: seq<Event>): (r: seq<TypeId>)
    ensures |r| <= |tr|
  {
    if tr == [] then []
    else Invoked(tr[..|tr| - 1]) + (if tr[|tr| - 1].Deleted? then [tr[|tr| - 1].node] else [])
  }

  lemma {:induction false} BuiltObjsAppend(a: seq<Event>, b: seq<Event>)
    ensures BuiltObjs(a + b) == BuiltObjs(a) + BuiltObjs(b)
    decreases |b|
  {
    if b == [] {
      assert a + b == a;
    } else {
      assert (a + b)[..|a + b| - 1] == a + b[..|b| - 1];
      BuiltObjsAppend(a, b[..|b| - 1]);
    }
  }

  lemma {:induction false} FreedObjsAppend(a: seq<Event>, b: seq<Event>)
    ensures FreedObjs(a + b) == FreedObjs(a) + FreedObjs(b)
    decreases |b|
  {
    if b == [] {
      assert a + b == a;
    } else {
      assert (a + b)[..|a + b| - 1] == a + b[..|b| - 1];
      FreedObjsAppend(a, b[..|b| - 1]);
    }
  }

  lemma {:induction false} InvokedAppend(a: seq<Event>, b: seq<Event>)
    ensures Invoked(a + b) == Invoked(a) + Invoked(b)
    decreases |b|
  {
    if b == [] {
      assert a + b == a;
    } else {
      assert (a + b)[..|a + b| - 1] == a + b[..|b| - 1];
      InvokedAppend(a, b[..|b| - 1]);
    }
  }

  /** `activeDelete` applied to node `np`: deletes the payload (deleting
      `nullptr` does nothing) and clears `_p`. The deleter stored in a node
      is always its own type's, so the node determines the call. */
  function ActiveDeleteOf(w: World, np: TypeId): (r: World)
    ensures r.trace == w.trace + [Deleted(np, SlotOf(w, np).node.payload)]
    ensures SlotOf(r, np).node.payload.None?
    ensures SlotOf(r, np).node.func == SlotOf(w, np).node.func
    ensures forall t :: t != np ==> SlotOf(r, t) == SlotOf(w, t)
  {
    var n := SlotOf(w, np).node;
    SetNode(w, np, n.(payload := None)).(trace := w.trace + [Deleted(np, n.payload)])
  }

  /** Reference for a teardown of the distinct nodes `items` (top first):
      one deletion per node whose `_func` is set, in stack order. */
  function Teardown(w: World, items: seq<TypeId>): seq<Event>
  {
    if items == [] then []
    else
      var n := SlotOf(w, items[0]).node;
      (if n.func.Some? then [Deleted(items[0], n.payload)] else []) + Teardown(w, items[1..])
  }

  /** One round of the `while (auto p = stack::pop())` loop of
      `emptyStack`, after a successful pop of `p`: if `_func` is set, clear
      it first and then call it on the node. */
  function Invoke(w: World, p: TypeId): (r: World)
    ensures r.stack == w.stack && r.counter == w.counter && r.cleanUp == w.cleanUp
    ensures r.nextSerial == w.nextSerial
    ensures SlotOf(w, p).node.func.Some? ==> r.trace == w.trace + [Deleted(p, SlotOf(w, p).node.payload)]
    ensures SlotOf(w, p).node.func.None? ==> r == w
    ensures SlotOf(r, p).node.func.None?
    ensures SlotOf(r, p).instance == SlotOf(w, p).instance
    ensures SlotOf(r, p).dispatch == SlotOf(w, p).dispatch
    ensures SlotOf(r, p).node.flags == SlotOf(w, p).node.flags
    ensures forall t :: t != p ==> SlotOf(r, t) == SlotOf(w, t)
  {
    var n := SlotOf(w, p).node;
    if n.func.Some? then
      ActiveDeleteOf(SetNode(w, p, n.(func := None)), p)
    else w
  }

  /** The loop of `emptyStack`: pop until the stack is empty. */
  function Drain(w: World): (r: World)
    ensures r.stack.items == []
    ensures r.stack.seqNo == BumpN(w.stack.seqNo, |w.stack.items|)
    ensures r.counter == w.counter && r.cleanUp == w.cleanUp && r.nextSerial == w.nextSerial
    ensures |w.trace| <= |r.trace|
    decreases |w.stack.items|
  {
    if w.stack.items == [] then w
    else
      BumpNShift(w.stack.seqNo, |w.stack.items| - 1);
      Drain(Invoke(w.(stack := APop(w.stack).0), w.stack.items[0]))
  }

  /** `Drain` leaves the slots of unstacked types alone and clears the
      `_func` of every stacked node. */
  lemma {:induction false} DrainFrame(w: World)
    ensures forall t :: t !in w.stack.items ==> SlotOf(Drain(w), t) == SlotOf(w, t)
    ensures forall t :: t in w.stack.items ==> SlotOf(Drain(w), t).node.func.None?
    decreases |w.stack.items|
  {
    if w.stack.items != [] {
      var w1 := Invoke(w.(stack := APop(w.stack).0), w.stack.items[0]);
      assert forall t :: t in w.stack.items <==> t == w.stack.items[0] || t in w1.stack.items;
      DrainFrame(w1);
    }
  }

  /** `Drain` touches only the nodes' `_func` and `_p` fields. */
  lemma {:induction false} DrainKeepsSlotState(w: World)
    ensures forall t :: SlotOf(Drain(w), t).instance == SlotOf(w, t).instance
    ensures forall t :: SlotOf(Drain(w), t).dispatch == SlotOf(w, t).dispatch
    ensures forall t :: SlotOf(Drain(w), t).node.flags == SlotOf(w, t).node.flags
    decreases |w.stack.items|
  {
    if w.stack.items != [] {
      var w1 := Invoke(w.(stack := APop(w.stack).0), w.stack.items[0]);
      DrainKeepsSlotState(w1);
    }
  }

  /** `Drain` only appends to the trace. */
  lemma {:induction false} DrainExtends(w: World)
    ensures IsPrefix(w.trace, Drain(w).trace)
    decreases |w.stack.items|
  {
    if w.stack.items != [] {
      var w1 := Invoke(w.(stack := APop(w.stack).0), w.stack.items[0]);
      DrainExtends(w1);
      assert IsPrefix(w.trace, w1.trace);
      SuffixSplit(w.trace, w1.trace, Drain(w1).trace);
    }
  }

  /** What one round of the loop appends to the trace. */
  lemma InvokeHead(w: World, p: TypeId)
    ensures IsPrefix(w.trace, Invoke(w, p).trace)
    ensures var head := Invoke(w, p).trace[|w.trace|..];
            && (forall e :: e in head ==> e.Deleted?)
            && (SlotOf(w, p).node.func.Some? ==> Invoked(head) == [p])
            && (SlotOf(w, p).node.func.None? ==> Invoked(head) == [])
  {
    var head := Invoke(w, p).trace[|w.trace|..];
    if SlotOf(w, p).node.func.Some? {
      assert head == [Deleted(p, SlotOf(w, p).node.payload)];
      assert head[..0] == [];
    } else {
      assert head == [];
    }
  }

  /** The trace `Drain` appends splits into the first round's part and the
      rest. */
  lemma DrainSplit(w: World)
    requires w.stack.items != []
    ensures var w1 := Invoke(w.(stack := APop(w.stack).0), w.stack.items[0]);
            && IsPrefix(w.trace, w1.trace)
            && IsPrefix(w1.trace, Drain(w).trace)
            && Drain(w).trace[|w.trace|..] == w1.trace[|w.trace|..] + Drain(w).trace[|w1.trace|..]
  {
    var w1 := Invoke(w.(stack := APop(w.stack).0), w.stack.items[0]);
    InvokeHead(w.(stack := APop(w.stack).0), w.stack.items[0]);
    DrainExtends(w1);
    SuffixSplit(w.trace, w1.trace, Drain(w1).trace);
  }

  /** Everything `emptyStack` appends to the trace is a deletion. */
  lemma {:induction false} DrainOnlyDeletes(w: World)
    ensures forall e :: e in Drain(w).trace[|w.trace|..] ==> e.Deleted?
    decreases |w.stack.items|
  {
    if w.stack.items != [] {
      var w0 := w.(stack := APop(w.stack).0);
      var w1 := Invoke(w0, w.stack.items[0]);
      DrainOnlyDeletes(w1);
      InvokeHead(w0, w.stack.items[0]);
      DrainSplit(w);
    }
  }

  /** Every `_func` `emptyStack` calls was set on a node that was on the
      stack. */
  lemma {:induction false} DrainInvokesStacked(w: World)
    ensures forall t :: t in Invoked(Drain(w).trace[|w.trace|..]) ==>
              t in w.stack.items && SlotOf(w, t).node.func.Some?
    decreases |w.stack.items|
  {
    if w.stack.items != [] {
      var p := w.stack.items[0];
      var w0 := w.(stack := APop(w.stack).0);
      var w1 := Invoke(w0, p);
      var r := Drain(w1);
      DrainInvokesStacked(w1);
      InvokeHead(w0, p);
      DrainSplit(w);
      var rest := r.trace[|w1.trace|..];
      var head := w1.trace[|w.trace|..];
      InvokedAppend(head, rest);
      forall t | t in Invoked(rest)
        ensures t in w.stack.items && SlotOf(w, t).node.func.Some?
      {
        assert t in w1.stack.items && SlotOf(w1, t).node.func.Some?;
        assert t != p;
      }
    }
  }

  /** `emptyStack` calls each node's `_func` at most once. This holds even
      for a stack that lists a node twice, because `_func` is cleared before
      it is called. */
  lemma {:induction false} DrainInvokesOnce(w: World)
    ensures Distinct(Invoked(Drain(w).trace[|w.trace|..]))
    decreases |w.stack.items|
  {
    if w.stack.items != [] {
      var p := w.stack.items[0];
      var w0 := w.(stack := APop(w.stack).0);
      var w1 := Invoke(w0, p);
      var r := Drain(w1);
      DrainInvokesOnce(w1);
      DrainInvokesStacked(w1);
      InvokeHead(w0, p);
      DrainSplit(w);
      var rest := r.trace[|w1.trace|..];
      var head := w1.trace[|w.trace|..];
      InvokedAppend(head, rest);
      if SlotOf(w0, p).node.func.Some? {
        assert SlotOf(w1, p).node.func.None?;
        DistinctCons(p, Invoked(rest));
      }
    }
  }

  /** On a stack without repeated nodes, `emptyStack` performs exactly the
      reference teardown: stack order, one deletion per set `_func`. */
  lemma {:induction false} DrainMatchesTeardown(w: World)
    ensures Distinct(w.stack.items) ==> Drain(w).trace == w.trace + Teardown(w, w.stack.items)
    decreases |w.stack.items|
  {
    if w.stack.items != [] && Distinct(w.stack.items) {
      var p := w.stack.items[0];
      var w0 := w.(stack := APop(w.stack).0);
      var w1 := Invoke(w0, p);
      DrainMatchesTeardown(w1);
      TeardownFrame(w, w1, w.stack.items[1..]);
    }
  }

  /** `Teardown` only looks at the nodes it is given. */
  lemma {:induction false} TeardownFrame(w: World, w': World, items: seq<TypeId>)
    requires forall t :: t in items ==> SlotOf(w, t).node == SlotOf(w', t).node
    ensures Teardown(w, items) == Teardown(w', items)
    decreases |items|
  {
    if items != [] {
      TeardownFrame(w, w', items[1..]);
    }
  }

  /** `emptyStack()`: enter the clean-up phase and drain the stack. */
  function EmptyStackOf(w: World): (r: World)
    ensures r.cleanUp
    ensures r.stack.items == []
    ensures r.counter == w.counter
    ensures forall t :: SlotOf(r, t).instance == SlotOf(w, t).instance
    ensures forall t :: SlotOf(r, t).dispatch == SlotOf(w, t).dispatch
    ensures Distinct(w.stack.items) ==> r.trace == w.trace + Teardown(w, w.stack.items)
    ensures forall t :: t in w.stack.items ==> SlotOf(r, t).node.func.None?
    ensures forall t :: t !in w.stack.items ==> SlotOf(r, t) == SlotOf(w, t)
  {
    DrainFrame(w.(cleanUp := true));
    DrainKeepsSlotState(w.(cleanUp := true));
    DrainMatchesTeardown(w.(cleanUp := true));
    TeardownFrame(w, w.(cleanUp := true), w.stack.items);
    Drain(w.(cleanUp := true))
  }

  /** A second `emptyStack()` finds the stack empty and invokes nothing. */
  lemma EmptyStackTwice(w: World)
    ensures EmptyStackOf(EmptyStackOf(w)) == EmptyStackOf(w)
    ensures Invoked(EmptyStackOf(EmptyStackOf(w)).trace[|EmptyStackOf(w).trace|..]) == []
  {
    var r := EmptyStackOf(w);
    assert r.(cleanUp := true) == r;
    assert r.trace[|r.trace|..] == [];
  }

  /** `SpecialDeleter::operator()(p)` of `singleton<t>`: on a non-null `p`
      repoint the dispatch at the slow path, record `p` as the node's
      payload, decrement the live counter and, when it reaches zero, empty
      the stack. The `activated` flag it sets is never read. */
  function SpecialDeleter(w: World, t: TypeId, p: Option<Obj>): (r: World)
    ensures p.None? ==> r == w
    ensures p.Some? ==> r.counter == w.counter - 1
    ensures p.Some? ==> SlotOf(r, t).dispatch == FirstTimeGet
    ensures p.Some? ==> forall x :: SlotOf(r, x).instance == SlotOf(w, x).instance
    ensures p.Some? ==> forall x :: x != t ==> SlotOf(r, x).dispatch == SlotOf(w, x).dispatch
    // other singletons still live: only `t`'s slot changes
    ensures p.Some? && r.counter != 0 ==>
              && SlotOf(r, t).node == SlotOf(w, t).node.(payload := p)
              && r.stack == w.stack && r.trace == w.trace && r.cleanUp == w.cleanUp
              && (forall x :: x != t ==> SlotOf(r, x) == SlotOf(w, x))
    // the last one: `emptyStack()` tears down the whole stack, with `p` as `t`'s payload
    ensures p.Some? && r.counter == 0 ==>
              && r.cleanUp && r.stack.items == []
              && (Distinct(w.stack.items) ==>
                    r.trace == w.trace + Teardown(SetNode(w, t, SlotOf(w, t).node.(payload := p)), w.stack.items))
              && (forall x :: x in w.stack.items ==> SlotOf(r, x).node.func.None?)
              && (forall x :: x != t && x !in w.stack.items ==> SlotOf(r, x) == SlotOf(w, x))
  {
    if p.None? then w
    else
      var s := SlotOf(w, t);
      var s1 := s.(dispatch := FirstTimeGet, node := s.node.(payload := p));
      var w1 := SetSlot(w, t, s1).(counter := w.counter - 1);
      TeardownFrame(w1, SetNode(w, t, s.node.(payload := p)), w.stack.items);
      if w1.counter == 0 then EmptyStackOf(w1) else w1
  }

  /** Static destruction of `singleton<t>::_instance` (a `unique_ptr` with
      `SpecialDeleter`): the deleter runs on a non-null pointer, then the
      pointer becomes null. Invoked by the environment at process exit. */
  function DestroyInstance(w: World, t: TypeId): (r: World)
    ensures SlotOf(r, t).instance.None?
    ensures SlotOf(w, t).instance.None? ==> r == w
    ensures SlotOf(w, t).instance.Some? ==>
              && r.counter == w.counter - 1
              && SlotOf(r, t).dispatch == FirstTimeGet
              && (forall x :: x != t ==> SlotOf(r, x).instance == SlotOf(w, x).instance)
              && (forall x :: x != t ==> SlotOf(r, x).dispatch == SlotOf(w, x).dispatch)
    ensures SlotOf(w, t).instance.Some? && r.counter != 0 ==>
              && SlotOf(r, t).node == SlotOf(w, t).node.(payload := SlotOf(w, t).instance)
              && r.stack == w.stack && r.trace == w.trace && r.cleanUp == w.cleanUp
              && (forall x :: x != t ==> SlotOf(r, x) == SlotOf(w, x))
    ensures SlotOf(w, t).instance.Some? && r.counter == 0 ==>
              && r.cleanUp && r.stack.items == []
              && (Distinct(w.stack.items) ==>
                    r.trace == w.trace
                               + Teardown(SetNode(w, t, SlotOf(w, t).node.(payload := SlotOf(w, t).instance)), w.stack.items))
              && (forall x :: x in w.stack.items ==> SlotOf(r, x).node.func.None?)
              && (forall x :: x != t && x !in w.stack.items ==> SlotOf(r, x) == SlotOf(w, x))
  {
    var p := SlotOf(w, t).instance;
    if p.None? then w
    else
      var w1 := SpecialDeleter(w, t, p);
      SetSlot(w1, t, SlotOf(w1, t).(instance := None))
  }

  /** Process exit: the `_instance` of each type in `order` is destroyed in
      turn. `order` is the C++ runtime's order of static destruction, which
      the registry does not control. */
  function Shutdown(w: World, order: seq<TypeId>): World
    decreases |order|
  {
    if order == [] then w else Shutdown(DestroyInstance(w, order[0]), order[1..])
  }
}
