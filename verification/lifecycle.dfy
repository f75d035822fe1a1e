/** Properties of whole runs of the registry: the invariant that holds
    while the program constructs singletons, exactly-once construction,
    circular-dependency detection, the fast path after the first call, and
    reverse-of-construction teardown. */
module Lifecycle {
  import opened Base
  import opened TeardownStack
  import opened Registry
  import opened Singleton

  /** Nothing has been torn down or warned about yet: the trace holds only
      completed constructions. */
  ghost predicate NoTeardownYet(w: World)
  {
    !w.cleanUp && forall e :: e in w.trace ==> e.Built?
  }

  /** The stack lists each constructed object's type once, newest on top:
      position `i` from the top holds the `i`-th newest object, which is
      the instance of that type; the counter equals the depth. */
  ghost predicate StackMirrorsBuilds(w: World)
  {
    var items := w.stack.items;
    var built := BuiltObjs(w.trace);
    && Distinct(items)
    && |items| == |built|
    && w.counter == |items|
    && (forall i :: 0 <= i < |items| ==>
          && items[i] in w.slots
          && built[|items| - 1 - i].ty == items[i]
          && w.slots[items[i]].instance == Some(built[|items| - 1 - i]))
  }

  /** Exactly the ready slots are on the stack, and their nodes are armed
      with their own `activeDelete` and object; other nodes are blank. */
  ghost predicate NodesArmed(w: World)
  {
    && (forall x :: x in w.slots ==> (Ready(w.slots[x]) <==> x in w.stack.items))
    && (forall x :: x in w.slots && Ready(w.slots[x]) ==>
          w.slots[x].node.func == Some(ActiveDelete(x)) && w.slots[x].node.payload == w.slots[x].instance)
    && (forall x :: x in w.slots && !Ready(w.slots[x]) ==>
          w.slots[x].node.func.None? && w.slots[x].node.payload.None?)
  }

  /** The fast path is installed exactly on the ready slots, and their
      bit is clear. */
  ghost predicate FastPathReady(w: World)
  {
    forall x :: x in w.slots ==>
      && (w.slots[x].dispatch == OptGet <==> Ready(w.slots[x]))
      && (Ready(w.slots[x]) ==> !Flagged(w.slots[x]))
  }

  /** Every dependency of a stacked type lies below it. */
  ghost predicate DepsBelow(w: World, deps: Deps)
  {
    var items := w.stack.items;
    forall i, d :: 0 <= i < |items| && d in deps(items[i]) ==> d in items[i + 1..]
  }

  /** The state of the registry from load time until the first instance is
      destroyed. */
  ghost predicate ConstructionPhase(w: World, deps: Deps)
  {
    && NoTeardownYet(w)
    && StackMirrorsBuilds(w)
    && NodesArmed(w)
    && FastPathReady(w)
    && DepsBelow(w, deps)
  }

  /** Load time satisfies the invariant. */
  lemma InitialConstructionPhase(types: set<TypeId>, deps: Deps)
    ensures ConstructionPhase(Initial(types), deps)
  {
  }

  /** Setting the "being constructed" bit of a slot that is not ready and
      not on the fast path keeps the invariant. */
  lemma FlagPreserves(w: World, t: TypeId, deps: Deps)
    requires ConstructionPhase(w, deps) && t in w.slots && Fresh(w.slots[t])
    ensures ConstructionPhase(Flag(w, t), deps)
  {
    var w1 := Flag(w, t);
    assert w1.stack == w.stack && w1.trace == w.trace;
    assert t !in w.stack.items;
  }

  /** A constructor that returned, with all its dependencies ready, leads to
      a state that keeps the invariant: the object is pushed on top. */
  lemma ConstructPreserves(w: World, t: TypeId, deps: Deps)
    requires ConstructionPhase(w, deps) && t in w.slots && !Ready(w.slots[t])
    requires forall d :: d in deps(t) ==> d in w.slots && Ready(w.slots[d])
    ensures ConstructionPhase(Finish(Construct(w, t), t).0, deps)
  {
    var r := Finish(Construct(w, t), t).0;
    var o := Obj(t, w.nextSerial);
    assert t !in w.stack.items;
    assert r.stack.items == [t] + w.stack.items;
    assert r.trace == w.trace + [Built(o)];
    assert r.slots[t].instance == Some(o);
    assert r.slots[t].node.func == Some(ActiveDelete(t)) && r.slots[t].node.payload == Some(o);
    assert forall x :: x != t ==> SlotOf(r, x) == SlotOf(w, x);
    assert r.slots.Keys == w.slots.Keys;
    PushMirrors(w, r, t, o);
    PushArms(w, r, t);
    PushDepsBelow(w, r, t, deps);
  }

  lemma PushMirrors(w: World, r: World, t: TypeId, o: Obj)
    requires StackMirrorsBuilds(w) && t in w.slots && t !in w.stack.items && o.ty == t
    requires r.stack.items == [t] + w.stack.items && r.trace == w.trace + [Built(o)]
    requires r.counter == w.counter + 1 && r.slots.Keys == w.slots.Keys
    requires r.slots[t].instance == Some(o)
    requires forall x :: x != t ==> SlotOf(r, x) == SlotOf(w, x)
    ensures StackMirrorsBuilds(r)
  {
    assert BuiltObjs(r.trace) == BuiltObjs(w.trace) + [o];
    var items := r.stack.items;
    var built := BuiltObjs(r.trace);
    forall i | 0 <= i < |items|
      ensures items[i] in r.slots && built[|items| - 1 - i].ty == items[i]
      ensures r.slots[items[i]].instance == Some(built[|items| - 1 - i])
    {
      if i > 0 {
        assert items[i] == w.stack.items[i - 1];
        assert SlotOf(r, items[i]) == SlotOf(w, items[i]);
      }
    }
    DistinctCons(t, w.stack.items);
  }

  lemma PushArms(w: World, r: World, t: TypeId)
    requires NodesArmed(w) && FastPathReady(w) && t in w.slots && !Ready(w.slots[t])
    requires r.stack.items == [t] + w.stack.items && r.slots.Keys == w.slots.Keys
    requires r.slots[t].instance.Some?
    requires r.slots[t].node.func == Some(ActiveDelete(t)) && r.slots[t].node.payload == r.slots[t].instance
    requires r.slots[t].dispatch == OptGet && !Flagged(r.slots[t])
    requires forall x :: x != t ==> SlotOf(r, x) == SlotOf(w, x)
    ensures NodesArmed(r) && FastPathReady(r)
  {
    forall x | x in r.slots
      ensures Ready(r.slots[x]) <==> x in r.stack.items
    {
      if x != t {
        assert SlotOf(r, x) == SlotOf(w, x);
      }
    }
    forall x | x in r.slots && x != t
      ensures r.slots[x] == w.slots[x]
    {
      assert SlotOf(r, x) == SlotOf(w, x);
    }
  }

  lemma PushDepsBelow(w: World, r: World, t: TypeId, deps: Deps)
    requires DepsBelow(w, deps) && NodesArmed(w)
    requires forall d :: d in deps(t) ==> d in w.slots && Ready(w.slots[d])
    requires r.stack.items == [t] + w.stack.items
    ensures DepsBelow(r, deps)
  {
    var items := r.stack.items;
    forall i, d | 0 <= i < |items| && d in deps(items[i])
      ensures d in items[i + 1..]
    {
      if i == 0 {
        assert d in w.stack.items;
        assert items[1..] == w.stack.items;
      } else {
        assert items[i] == w.stack.items[i - 1];
        assert items[i + 1..] == w.stack.items[i - 1 + 1..];
      }
    }
  }

  lemma {:induction false} InstancePreserves(w: World, t: TypeId, deps: Deps)
    requires Closed(w, deps) && t in w.slots && ConstructionPhase(w, deps)
    ensures ConstructionPhase(Instance(w, t, deps).0, deps)
    ensures !Instance(w, t, deps).1.Undefined?
    decreases |Untouched(w)|, 2
  {
    if w.slots[t].dispatch == FirstTimeGet {
      FirstTimePreserves(w, t, deps);
    }
  }

  lemma {:induction false} FirstTimePreserves(w: World, t: TypeId, deps: Deps)
    requires Closed(w, deps) && t in w.slots && ConstructionPhase(w, deps)
    ensures ConstructionPhase(FirstTimeGetInstance(w, t, deps).0, deps)
    ensures !FirstTimeGetInstance(w, t, deps).1.Undefined?
    decreases |Untouched(w)|, 1
  {
    var s := w.slots[t];
    if s.instance.Some? {
      assert FirstTimeGetInstance(w, t, deps) == Finish(w, t);
      FinishPreserves(w, t, deps);
    } else if !Flagged(s) {
      assert FirstTimeGetInstance(w, t, deps) == Build(w, t, deps);
      BuildPreserves(w, t, deps);
    } else {
      assert FirstTimeGetInstance(w, t, deps) == (w, Threw(t));
    }
  }

  /** Installing the fast path on a ready slot keeps the invariant. */
  lemma FinishPreserves(w: World, t: TypeId, deps: Deps)
    requires ConstructionPhase(w, deps) && t in w.slots && w.slots[t].instance.Some?
    ensures ConstructionPhase(Finish(w, t).0, deps)
  {
    assert t in w.stack.items;
  }

  lemma {:induction false} BuildPreserves(w: World, t: TypeId, deps: Deps)
    requires Closed(w, deps) && t in w.slots && Fresh(w.slots[t]) && ConstructionPhase(w, deps)
    ensures ConstructionPhase(Build(w, t, deps).0, deps)
    ensures !Build(w, t, deps).1.Undefined?
    decreases |Untouched(w)|, 0
  {
    var w1 := Flag(w, t);
    FlagPreserves(w, t, deps);
    RunConstructorPreserves(w1, deps(t), deps);
    var (w2, done) := RunConstructor(w1, deps(t), deps);
    if done.Completed? {
      ConstructPreserves(w2, t, deps);
    }
  }

  lemma {:induction false} RunConstructorPreserves(w: World, ds: seq<TypeId>, deps: Deps)
    requires Closed(w, deps) && (forall d :: d in ds ==> d in w.slots) && ConstructionPhase(w, deps)
    ensures ConstructionPhase(RunConstructor(w, ds, deps).0, deps)
    ensures RunConstructor(w, ds, deps).1.Failed? ==> !RunConstructor(w, ds, deps).1.cause.Undefined?
    decreases |Untouched(w)|, 3, |ds|
  {
    if ds != [] {
      InstancePreserves(w, ds[0], deps);
      var (w1, o) := Instance(w, ds[0], deps);
      if o.Returned? {
        SubsetCard(Untouched(w1), Untouched(w));
        RunConstructorPreserves(w1, ds[1..], deps);
      }
    }
  }

  // ---------------------------------------------------------------------
  // Exactly-once construction and the fast path

  /** Over a whole run, no type is constructed twice. */
  lemma ConstructedAtMostOnce(w: World, deps: Deps)
    requires ConstructionPhase(w, deps)
    ensures forall i, j :: 0 <= i < j < |BuiltObjs(w.trace)| ==>
              BuiltObjs(w.trace)[i].ty != BuiltObjs(w.trace)[j].ty
  {
    var items := w.stack.items;
    var built := BuiltObjs(w.trace);
    forall i, j | 0 <= i < j < |built|
      ensures built[i].ty != built[j].ty
    {
      assert built[i].ty == items[|items| - 1 - i];
      assert built[j].ty == items[|items| - 1 - j];
    }
  }

  /** A ready type's instance is the one object of its type ever built. */
  lemma ReadyObjIsBuilt(w: World, deps: Deps, t: TypeId)
    requires ConstructionPhase(w, deps) && t in w.slots && Ready(w.slots[t])
    ensures w.slots[t].instance.value in BuiltObjs(w.trace)
    ensures forall k :: 0 <= k < |BuiltObjs(w.trace)| && BuiltObjs(w.trace)[k].ty == t ==>
              BuiltObjs(w.trace)[k] == w.slots[t].instance.value
  {
    var items := w.stack.items;
    var built := BuiltObjs(w.trace);
    var i :| 0 <= i < |items| && items[i] == t;
    assert w.slots[t].instance.value == built[|items| - 1 - i];
    ConstructedAtMostOnce(w, deps);
  }

  /** A type that is not ready has never been built. */
  lemma NotReadyNotBuilt(w: World, deps: Deps, t: TypeId)
    requires ConstructionPhase(w, deps) && t in w.slots && !Ready(w.slots[t])
    ensures forall k :: 0 <= k < |BuiltObjs(w.trace)| ==> BuiltObjs(w.trace)[k].ty != t
  {
    var items := w.stack.items;
    var built := BuiltObjs(w.trace);
    forall k | 0 <= k < |built|
      ensures built[k].ty != t
    {
      assert built[k].ty == items[|items| - 1 - k];
    }
  }

  /** While constructing, the first call for a type that is not ready takes
      the slow path, and for a fresh slot goes on to construct. */
  lemma FirstCallIsSlowPath(w: World, t: TypeId, deps: Deps)
    requires Closed(w, deps) && t in w.slots && ConstructionPhase(w, deps) && !Ready(w.slots[t])
    ensures Instance(w, t, deps) == FirstTimeGetInstance(w, t, deps)
    ensures Fresh(w.slots[t]) ==> Instance(w, t, deps) == Build(w, t, deps)
  {
    assert w.slots[t].dispatch == FirstTimeGet;
  }

  /** The first call for a type that has not been constructed: if it
      returns, it has constructed exactly one object of that type — the one
      returned, and the only one of that type ever constructed; the counter
      grew by the number of objects constructed during the call (the type
      itself and whatever its constructor needed for the first time); the
      fast path is installed, the bit cleared, and the type's node sits on
      top of the stack. */
  lemma FirstCallConstructsOnce(w: World, t: TypeId, deps: Deps)
    requires Closed(w, deps) && t in w.slots && ConstructionPhase(w, deps) && !Ready(w.slots[t])
    ensures var (w', o) := Instance(w, t, deps);
            var built' := BuiltObjs(w'.trace);
            o.Returned? ==>
              && o.obj.ty == t
              && o.obj in built' && o.obj !in BuiltObjs(w.trace)
              && (forall k :: 0 <= k < |built'| && built'[k].ty == t ==> built'[k] == o.obj)
              && w'.counter == w.counter + |built'| - |BuiltObjs(w.trace)|
              && w'.slots[t].dispatch == OptGet && !Flagged(w'.slots[t])
              && w'.stack.items != [] && w'.stack.items[0] == t
  {
    var (w', o) := Instance(w, t, deps);
    FirstCallIsSlowPath(w, t, deps);
    if o.Returned? {
      assert Fresh(w.slots[t]);
      InstancePreserves(w, t, deps);
      ReadyObjIsBuilt(w', deps, t);
      NotReadyNotBuilt(w, deps, t);
      var items := w'.stack.items;
      var i :| 0 <= i < |items| && items[i] == t;
      assert o.obj.ty == t;
    }
  }

  /** After a call has returned an object, the next call for the same type
      takes the fast path and changes nothing: no construction, no counter
      or stack change, same object. */
  lemma SecondCallIsIdentity(w: World, t: TypeId, deps: Deps)
    requires Closed(w, deps) && t in w.slots
    ensures var (w', o) := Instance(w, t, deps);
            o.Returned? ==> Instance(w', t, deps) == (w', o)
  {
  }

  /** Any later call for a type that is ready, however many calls for other
      types came in between, takes the fast path: it returns the same
      object and changes nothing. */
  lemma LaterCallIsIdentity(w: World, t: TypeId, deps: Deps)
    requires Closed(w, deps) && t in w.slots && ConstructionPhase(w, deps) && Ready(w.slots[t])
    ensures Instance(w, t, deps) == (w, Returned(w.slots[t].instance.value))
  {
    assert w.slots[t].dispatch == OptGet;
  }

  // ---------------------------------------------------------------------
  // Circular dependencies

  /** Each type in `p` is in the dependency list of the one before. */
  ghost predicate DepPath(deps: Deps, p: seq<TypeId>)
  {
    |p| >= 1 && forall i :: 0 <= i < |p| - 1 ==> p[i + 1] in deps(p[i])
  }

  /** While constructing, every type a ready type needs is ready. */
  lemma {:induction false} ReadyClosure(w: World, deps: Deps, p: seq<TypeId>)
    requires ConstructionPhase(w, deps) && DepPath(deps, p)
    requires p[0] in w.slots && Ready(w.slots[p[0]])
    ensures p[|p| - 1] in w.slots && Ready(w.slots[p[|p| - 1]])
    decreases |p|
  {
    if |p| > 1 {
      var items := w.stack.items;
      assert p[0] in items;
      var i :| 0 <= i < |items| && items[i] == p[0];
      assert p[1] in items[i + 1..];
      assert p[1] in items;
      var j :| 0 <= j < |items| && items[j] == p[1];
      assert DepPath(deps, p[1..]);
      ReadyClosure(w, deps, p[1..]);
    }
  }

  /** The state just after `t`'s constructor has run: the invariant holds,
      `t` is still mid-construction, and if the call goes on to return,
      every type the constructor asked for is ready. */
  lemma ConstructorRan(w: World, t: TypeId, deps: Deps) returns (w2: World)
    requires Closed(w, deps) && t in w.slots && ConstructionPhase(w, deps) && Fresh(w.slots[t])
    ensures ConstructionPhase(w2, deps) && t in w2.slots && Constructing(w2.slots[t])
    ensures Build(w, t, deps).1.Returned? ==> forall d :: d in deps(t) ==> d in w2.slots && Ready(w2.slots[d])
  {
    var w1 := Flag(w, t);
    FlagPreserves(w, t, deps);
    RunConstructorPreserves(w1, deps(t), deps);
    w2 := RunConstructor(w1, deps(t), deps).0;
    assert w2.slots[t] == w1.slots[t];
  }

  /** While constructing, a type on a dependency cycle that is not ready
      has a dependency that is not ready either. */
  lemma CycleBlocked(w: World, t: TypeId, deps: Deps, p: seq<TypeId>)
    requires ConstructionPhase(w, deps) && t in w.slots && !Ready(w.slots[t])
    requires DepPath(deps, p) && |p| >= 2 && p[0] == t && p[|p| - 1] == t
    ensures exists d :: d in deps(t) && !(d in w.slots && Ready(w.slots[d]))
  {
    var q := p[1..];
    assert q[0] in deps(t);
    assert DepPath(deps, q) by {
      forall i | 0 <= i < |q| - 1
        ensures q[i + 1] in deps(q[i])
      {
        assert q[i] == p[i + 1] && q[i + 1] == p[i + 2];
      }
    }
    assert q[|q| - 1] == t;
    if q[0] in w.slots && Ready(w.slots[q[0]]) {
      ReadyClosure(w, deps, q);
    }
  }

  /** Constructing a type that lies on a dependency cycle never returns. */
  lemma BuildOnCycleFails(w: World, t: TypeId, deps: Deps, p: seq<TypeId>)
    requires Closed(w, deps) && t in w.slots && ConstructionPhase(w, deps) && Fresh(w.slots[t])
    requires DepPath(deps, p) && |p| >= 2 && p[0] == t && p[|p| - 1] == t
    ensures !Build(w, t, deps).1.Returned?
  {
    var w2 := ConstructorRan(w, t, deps);
    CycleBlocked(w2, t, deps, p);
  }

  /** While constructing, a call for a type whose constructor is still
      running (or threw) throws the circular-dependency error for that type
      and changes neither the slots, the stack, the counter nor the
      constructed objects. */
  lemma ReentryThrows(w: World, t: TypeId, deps: Deps)
    requires Closed(w, deps) && t in w.slots && ConstructionPhase(w, deps) && Constructing(w.slots[t])
    ensures var (w', o) := Instance(w, t, deps);
            && o == Threw(t)
            && w'.slots == w.slots && w'.stack == w.stack && w'.counter == w.counter
            && BuiltObjs(w'.trace) == BuiltObjs(w.trace)
  {
    FirstCallIsSlowPath(w, t, deps);
  }

  /** A type whose constructor asks, directly or transitively, for the type
      itself cannot be constructed: the first call throws the
      circular-dependency error and never loops. The error names a type
      whose construction is under way or failed earlier, which need not lie
      on the cycle. */
  lemma CycleThrows(w: World, t: TypeId, deps: Deps, p: seq<TypeId>)
    requires Closed(w, deps) && t in w.slots && ConstructionPhase(w, deps) && !Ready(w.slots[t])
    requires DepPath(deps, p) && |p| >= 2 && p[0] == t && p[|p| - 1] == t
    ensures var (w', o) := Instance(w, t, deps);
            o.Threw? && o.culprit in w'.slots && Constructing(w'.slots[o.culprit])
  {
    FirstCallIsSlowPath(w, t, deps);
    InstancePreserves(w, t, deps);
    if Fresh(w.slots[t]) {
      BuildOnCycleFails(w, t, deps, p);
    }
  }

  // ---------------------------------------------------------------------
  // Construction that succeeds

  /** `S` is closed under `deps` and `rank` strictly decreases along every
      dependency inside it: the constructors reachable from `S` form no
      cycle. */
  ghost predicate Ranked(w: World, deps: Deps, S: set<TypeId>, rank: TypeId -> nat)
  {
    && S <= w.slots.Keys
    && forall x, d :: x in S && d in deps(x) ==> d in S && rank(d) < rank(x)
  }

  /** No type of `S` ranked below `k` has a construction under way or one
      that failed earlier. */
  ghost predicate NoneUnderWayBelow(w: World, S: set<TypeId>, rank: TypeId -> nat, k: int)
  {
    forall x :: x in S && rank(x) < k ==> x in w.slots && !Constructing(w.slots[x])
  }

  lemma {:induction false} CallReturns(w: World, t: TypeId, deps: Deps, S: set<TypeId>, rank: TypeId -> nat)
    requires Closed(w, deps) && FastPathSound(w) && Ranked(w, deps, S, rank)
    requires t in S && NoneUnderWayBelow(w, S, rank, rank(t) + 1)
    ensures Instance(w, t, deps).1.Returned?
    decreases |Untouched(w)|, 2
  {
    if w.slots[t].dispatch == FirstTimeGet {
      FirstTimeReturns(w, t, deps, S, rank);
    }
  }

  lemma {:induction false} FirstTimeReturns(w: World, t: TypeId, deps: Deps, S: set<TypeId>, rank: TypeId -> nat)
    requires Closed(w, deps) && FastPathSound(w) && Ranked(w, deps, S, rank)
    requires t in S && NoneUnderWayBelow(w, S, rank, rank(t) + 1)
    ensures FirstTimeGetInstance(w, t, deps).1.Returned?
    decreases |Untouched(w)|, 1
  {
    if w.slots[t].instance.None? {
      assert !Constructing(w.slots[t]);
      var w0 := if w.cleanUp then w.(trace := w.trace + [LateInit(t)]) else w;
      UntouchedOnlySlots(w, w0);
      assert FirstTimeGetInstance(w, t, deps) == Build(w0, t, deps);
      BuildReturns(w0, t, deps, S, rank);
    }
  }

  /** Constructing a type none of whose transitive dependencies is on a
      cycle or mid-construction returns. */
  lemma {:induction false} BuildReturns(w: World, t: TypeId, deps: Deps, S: set<TypeId>, rank: TypeId -> nat)
    requires Closed(w, deps) && FastPathSound(w) && Ranked(w, deps, S, rank)
    requires t in S && Fresh(w.slots[t]) && NoneUnderWayBelow(w, S, rank, rank(t))
    ensures Build(w, t, deps).1.Returned?
    decreases |Untouched(w)|, 0
  {
    var w1 := Flag(w, t);
    FlagKeepsFastPath(w, t);
    forall x | x in S && rank(x) < rank(t)
      ensures x in w1.slots && !Constructing(w1.slots[x])
    {
      assert SlotOf(w1, x) == SlotOf(w, x);
    }
    RunConstructorReturns(w1, deps(t), deps, S, rank, rank(t));
  }

  lemma {:induction false} RunConstructorReturns(w: World, ds: seq<TypeId>, deps: Deps, S: set<TypeId>, rank: TypeId -> nat, k: int)
    requires Closed(w, deps) && FastPathSound(w) && Ranked(w, deps, S, rank)
    requires forall d :: d in ds ==> d in S && rank(d) < k
    requires NoneUnderWayBelow(w, S, rank, k)
    ensures RunConstructor(w, ds, deps).1.Completed?
    decreases |Untouched(w)|, 3, |ds|
  {
    if ds != [] {
      CallReturns(w, ds[0], deps, S, rank);
      var w1 := Instance(w, ds[0], deps).0;
      SubsetCard(Untouched(w1), Untouched(w));
      forall x | x in S && rank(x) < k
        ensures x in w1.slots && !Constructing(w1.slots[x])
      {
        assert !Constructing(w.slots[x]);
      }
      RunConstructorReturns(w1, ds[1..], deps, S, rank, k);
    }
  }

  /** The converse of `CycleThrows`: a call for a type whose transitive
      dependencies (`S`, ordered by `rank`) form no cycle and include no
      type whose construction is under way or failed earlier returns an
      object, during construction or after clean-up alike. So `instance()`
      throws only for a cycle or an earlier failed construction. */
  lemma InstanceReturns(w: World, t: TypeId, deps: Deps, S: set<TypeId>, rank: TypeId -> nat)
    requires Closed(w, deps) && FastPathSound(w) && Ranked(w, deps, S, rank)
    requires t in S && forall x :: x in S ==> !Constructing(w.slots[x])
    ensures Instance(w, t, deps).1.Returned?
  {
    CallReturns(w, t, deps, S, rank);
  }

  /** While constructing, the fast path is sound. */
  lemma PhaseFastPathSound(w: World, deps: Deps)
    requires ConstructionPhase(w, deps)
    ensures FastPathSound(w)
  {
    forall x | x in w.slots && w.slots[x].dispatch == OptGet
      ensures w.slots[x].instance.Some?
    {
      assert Ready(w.slots[x]);
    }
  }

  // ---------------------------------------------------------------------
  // Teardown

  /** How many of `items` still hold an instance. */
  function CountReady(w: World, items: seq<TypeId>): nat
  {
    if items == [] then 0
    else (if SlotOf(w, items[0]).instance.Some? then 1 else 0) + CountReady(w, items[1..])
  }

  lemma {:induction false} CountReadyAll(w: World, items: seq<TypeId>)
    requires forall x :: x in items ==> SlotOf(w, x).instance.Some?
    ensures CountReady(w, items) == |items|
    decreases |items|
  {
    if items != [] {
      CountReadyAll(w, items[1..]);
    }
  }

  lemma {:induction false} CountReadyZero(w: World, items: seq<TypeId>)
    ensures CountReady(w, items) == 0 <==> forall x :: x in items ==> SlotOf(w, x).instance.None?
    decreases |items|
  {
    if items != [] {
      CountReadyZero(w, items[1..]);
    }
  }

  /** Emptying one stacked slot lowers the count by one. */
  lemma {:induction false} CountReadyDrop(w: World, w': World, items: seq<TypeId>, t: TypeId)
    requires Distinct(items) && t in items
    requires SlotOf(w, t).instance.Some? && SlotOf(w', t).instance.None?
    requires forall x :: x != t ==> SlotOf(w', x).instance == SlotOf(w, x).instance
    ensures CountReady(w', items) == CountReady(w, items) - 1
    decreases |items|
  {
    if items[0] == t {
      assert t !in items[1..];
      CountReadyFrame(w, w', items[1..], t);
    } else {
      CountReadyDrop(w, w', items[1..], t);
    }
  }

  lemma {:induction false} CountReadyFrame(w: World, w': World, items: seq<TypeId>, t: TypeId)
    requires t !in items
    requires forall x :: x != t ==> SlotOf(w', x).instance == SlotOf(w, x).instance
    ensures CountReady(w', items) == CountReady(w, items)
    decreases |items|
  {
    if items != [] {
      CountReadyFrame(w, w', items[1..], t);
    }
  }

  /** Between the first destruction and the teardown: the stack and trace
      are as at the end of the construction phase, the stacked nodes are
      untouched, and the counter equals the number of stacked slots still
      holding an instance. */
  ghost predicate ShuttingDown(w0: World, v: World)
  {
    && v.stack == w0.stack && v.trace == w0.trace
    && v.counter == CountReady(v, w0.stack.items)
    && (forall x :: SlotOf(v, x).instance.Some? ==> x in w0.stack.items)
    && (forall x :: x in w0.stack.items ==> SlotOf(v, x).node == SlotOf(w0, x).node)
    && (forall x :: SlotOf(v, x).instance.Some? ==> SlotOf(v, x).node.payload == SlotOf(v, x).instance)
  }

  lemma {:induction false} ShutdownIdle(v: World, order: seq<TypeId>)
    requires forall x :: SlotOf(v, x).instance.None?
    ensures Shutdown(v, order) == v
    decreases |order|
  {
    if order != [] {
      ShutdownIdle(v, order[1..]);
    }
  }

  /** Destroying one live instance while shutting down: the counter drops
      by one; above zero the registry is still shutting down with stack
      and history untouched, and at zero no instance is left and the stack
      has been torn down in full. */
  lemma DestroyStep(w0: World, v: World, t: TypeId)
    requires ShuttingDown(w0, v) && Distinct(w0.stack.items) && SlotOf(v, t).instance.Some?
    ensures var v1 := DestroyInstance(v, t);
            && v1.counter == v.counter - 1
            && (v1.counter > 0 ==> ShuttingDown(w0, v1))
            && (v1.counter == 0 ==>
                  && (forall x :: SlotOf(v1, x).instance.None?)
                  && v1.trace == w0.trace + Teardown(w0, w0.stack.items)
                  && v1.stack.items == [] && v1.cleanUp)
  {
    var items := w0.stack.items;
    var v1 := DestroyInstance(v, t);
    var p := SlotOf(v, t).instance;
    var s := SlotOf(v, t);
    var u := SetSlot(v, t, s.(dispatch := FirstTimeGet, node := s.node.(payload := p))).(counter := v.counter - 1);
    assert u.slots[t].node == s.node;
    assert forall x :: SlotOf(u, x).node == SlotOf(v, x).node;
    assert forall x :: SlotOf(v1, x).instance == (if x == t then None else SlotOf(v, x).instance);
    CountReadyDrop(v, v1, items, t);
    if u.counter == 0 {
      var e := EmptyStackOf(u);
      assert v1 == SetSlot(e, t, SlotOf(e, t).(instance := None));
      TeardownFrame(w0, u, items);
      CountReadyZero(v1, items);
    } else {
      assert v1 == SetSlot(u, t, SlotOf(u, t).(instance := None));
    }
  }

  /** However the destructions are ordered, as long as the counter has not
      reached zero nothing visible happens: stack and history are those of
      the end of the construction phase. */
  lemma {:induction false} ShutdownWaits(w0: World, v: World, order: seq<TypeId>)
    requires ShuttingDown(w0, v) && Distinct(w0.stack.items)
    ensures Shutdown(v, order).counter > 0 ==> ShuttingDown(w0, Shutdown(v, order))
    decreases |order|
  {
    if order != [] {
      var t := order[0];
      var v1 := DestroyInstance(v, t);
      if v.counter == 0 {
        CountReadyZero(v, w0.stack.items);
        ShutdownIdle(v, order);
      } else if SlotOf(v, t).instance.None? {
        ShutdownWaits(w0, v1, order[1..]);
      } else {
        DestroyStep(w0, v, t);
        if v1.counter == 0 {
          ShutdownIdle(v1, order[1..]);
        } else {
          ShutdownWaits(w0, v1, order[1..]);
        }
      }
    }
  }

  /** Destroying the instances one by one: nothing happens until the
      counter reaches zero, and then the stack is torn down in full. */
  lemma {:induction false} ShutdownRun(w0: World, v: World, order: seq<TypeId>)
    requires ShuttingDown(w0, v) && Distinct(w0.stack.items)
    requires forall x :: SlotOf(v, x).instance.Some? ==> x in order
    ensures v.counter == 0 ==> Shutdown(v, order) == v
    ensures Shutdown(v, order).counter == 0
    ensures v.counter > 0 ==>
              && Shutdown(v, order).trace == w0.trace + Teardown(w0, w0.stack.items)
              && Shutdown(v, order).stack.items == []
              && Shutdown(v, order).cleanUp
    // every destruction before the last leaves stack and history alone
    ensures forall k :: 0 <= k <= |order| && Shutdown(v, order[..k]).counter > 0 ==>
              Shutdown(v, order[..k]).trace == w0.trace && Shutdown(v, order[..k]).stack == w0.stack
    decreases |order|
  {
    forall k | 0 <= k <= |order|
      ensures Shutdown(v, order[..k]).counter > 0 ==>
                Shutdown(v, order[..k]).trace == w0.trace && Shutdown(v, order[..k]).stack == w0.stack
    {
      ShutdownWaits(w0, v, order[..k]);
    }
    var items := w0.stack.items;
    if v.counter == 0 {
      CountReadyZero(v, items);
      ShutdownIdle(v, order);
    } else if order != [] {
      var t := order[0];
      var v1 := DestroyInstance(v, t);
      if SlotOf(v, t).instance.None? {
        ShutdownRun(w0, v1, order[1..]);
      } else {
        DestroyStep(w0, v, t);
        if v1.counter == 0 {
          ShutdownIdle(v1, order[1..]);
        } else {
          ShutdownRun(w0, v1, order[1..]);
        }
      }
    } else {
      CountReadyZero(v, items);
      assert false;
    }
  }

  /** Tearing down armed nodes frees their payloads, one per node, in
      stack order. */
  lemma {:induction false} TeardownFreesPayloads(w: World, items: seq<TypeId>)
    requires forall x :: x in items ==> SlotOf(w, x).node.func.Some? && SlotOf(w, x).node.payload.Some?
    ensures |FreedObjs(Teardown(w, items))| == |items|
    ensures forall i :: 0 <= i < |items| ==> FreedObjs(Teardown(w, items))[i] == SlotOf(w, items[i]).node.payload.value
    decreases |items|
  {
    if items != [] {
      TeardownFreesPayloads(w, items[1..]);
      var n := SlotOf(w, items[0]).node;
      var e := [Deleted(items[0], n.payload)];
      FreedObjsAppend(e, Teardown(w, items[1..]));
      assert FreedObjs(e) == [n.payload.value] by {
        assert e[..0] == [];
      }
      var f := FreedObjs(Teardown(w, items));
      forall i | 0 <= i < |items|
        ensures f[i] == SlotOf(w, items[i]).node.payload.value
      {
        if i > 0 {
          assert items[i] == items[1..][i - 1];
        }
      }
    }
  }

  /** In the construction phase nothing has been freed yet. */
  lemma {:induction false} NothingFreedYet(tr: seq<Event>)
    requires forall e :: e in tr ==> e.Built?
    ensures FreedObjs(tr) == []
    decreases |tr|
  {
    if tr != [] {
      assert forall e :: e in tr[..|tr| - 1] ==> e in tr;
      assert tr[|tr| - 1] in tr;
      NothingFreedYet(tr[..|tr| - 1]);
    }
  }

  /** The construction phase is where shutdown starts from. */
  lemma ShutdownStarts(w: World, deps: Deps)
    requires ConstructionPhase(w, deps)
    ensures ShuttingDown(w, w)
    ensures forall x :: SlotOf(w, x).instance.Some? ==> x in w.slots && Ready(w.slots[x])
    ensures forall x :: x in w.stack.items ==> SlotOf(w, x).node.func.Some? && SlotOf(w, x).node.payload.Some?
  {
    var items := w.stack.items;
    forall x | x in items
      ensures SlotOf(w, x).instance.Some?
    {
      var i :| 0 <= i < |items| && items[i] == x;
    }
    CountReadyAll(w, items);
  }

  /** Tearing down the stack of the construction phase frees the objects in
      the reverse of the order they were built. */
  lemma TeardownIsReverse(w: World, deps: Deps)
    requires ConstructionPhase(w, deps)
    ensures FreedObjs(Teardown(w, w.stack.items)) == Reverse(BuiltObjs(w.trace))
  {
    var items := w.stack.items;
    ShutdownStarts(w, deps);
    TeardownFreesPayloads(w, items);
    var freed := FreedObjs(Teardown(w, items));
    var built := BuiltObjs(w.trace);
    forall i | 0 <= i < |items|
      ensures freed[i] == Reverse(built)[i]
    {
      assert SlotOf(w, items[i]).node.payload == w.slots[items[i]].instance;
    }
  }

  /** In the construction phase, a type's dependencies sit strictly below
      it on the stack. */
  lemma StackRespectsDeps(w: World, deps: Deps)
    requires DepsBelow(w, deps) && Distinct(w.stack.items)
    ensures var items := w.stack.items;
            forall i, j :: 0 <= i < |items| && 0 <= j < |items| && items[j] in deps(items[i]) ==> i < j
  {
    var items := w.stack.items;
    forall i, j | 0 <= i < |items| && 0 <= j < |items| && items[j] in deps(items[i])
      ensures i < j
    {
      var k :| 0 <= k < |items[i + 1..]| && items[i + 1..][k] == items[j];
      assert items[i + 1 + k] == items[j];
    }
  }

  /** The `i`-th object freed by the teardown is the instance of the
      `i`-th stacked type. */
  lemma FreedTypes(w: World, deps: Deps)
    requires ConstructionPhase(w, deps)
    ensures var freed := FreedObjs(Teardown(w, w.stack.items));
            |freed| == |w.stack.items| && forall i :: 0 <= i < |freed| ==> freed[i].ty == w.stack.items[i]
  {
    var items := w.stack.items;
    var built := BuiltObjs(w.trace);
    TeardownIsReverse(w, deps);
    forall i | 0 <= i < |items|
      ensures Reverse(built)[i].ty == items[i]
    {
      assert Reverse(built)[i] == built[|items| - 1 - i];
    }
  }

  /** ... and frees every type before each type its constructor asked for. */
  lemma TeardownRespectsDeps(w: World, deps: Deps)
    requires ConstructionPhase(w, deps)
    ensures var freed := FreedObjs(Teardown(w, w.stack.items));
            forall i, j :: 0 <= i < |freed| && 0 <= j < |freed| && freed[j].ty in deps(freed[i].ty) ==> i < j
  {
    FreedTypes(w, deps);
    StackRespectsDeps(w, deps);
  }

  /** Reverse-of-construction teardown. After the construction phase, when
      the runtime destroys every singleton's `_instance` in any order, the
      last destruction brings the counter to zero and empties the stack;
      the objects freed over the whole run are exactly the objects built,
      in reverse order, so a type is deleted before every type its
      constructor asked for. */
  lemma TeardownReversesConstruction(w: World, deps: Deps, order: seq<TypeId>)
    requires ConstructionPhase(w, deps)
    requires forall x :: x in w.slots && Ready(w.slots[x]) ==> x in order
    ensures var r := Shutdown(w, order);
            var freed := FreedObjs(r.trace);
            && freed == Reverse(BuiltObjs(w.trace))
            && r.stack.items == []
            && r.counter == 0
            && (forall i, j :: 0 <= i < |freed| && 0 <= j < |freed| && freed[j].ty in deps(freed[i].ty) ==> i < j)
  {
    var items := w.stack.items;
    var r := Shutdown(w, order);
    ShutdownStarts(w, deps);
    ShutdownRun(w, w, order);
    NothingFreedYet(w.trace);
    TeardownIsReverse(w, deps);
    TeardownRespectsDeps(w, deps);
    if items == [] {
      assert r == w;
    } else {
      FreedObjsAppend(w.trace, Teardown(w, items));
    }
  }
}
