/** The process-wide teardown stack `static_obj_stack`: an intrusive LIFO of
    meta-data nodes linked through their `_next` field, whose top is a
    sequenced pointer (a node pointer paired with a 64-bit counter that every
    successful push or pop increments, so that a compare-and-swap on the pair
    rejects a stale view even when a node address is reused).

    Two layers are modelled. The concrete layer keeps the `_next` field of
    every node and the sequenced top pointer, and performs push and pop as a
    load, a computation and one compare-and-swap; sequentially the
    compare-and-swap always succeeds, so the retry loop is a single round.
    The abstract layer is a sequence of node ids, top first, with the same
    counter. `Represents` ties the two together and the refinement lemmas
    show that push and pop are cons and uncons on the sequence. */
module TeardownStack {
  import opened Base

  /** Identity of a `singletons_meta_data` node (one per singleton type). */
  type NodeId = nat

  /** `sequenced_ptr`: the top-of-stack pointer and its sequence number. */
  datatype SeqPtr = SeqPtr(ptr: Option<NodeId>, seqNo: U64)

  /** The `_next` field of every node; a node never written has `nullptr`. */
  type Links = map<NodeId, Option<NodeId>>

  function Next(links: Links, p: NodeId): Option<NodeId>
  {
    if p in links then links[p] else None
  }

  /** Sequential compare-and-swap on the whole (pointer, sequence) pair:
      returns whether it succeeded and the new cell contents. */
  function Cas(cell: SeqPtr, expected: SeqPtr, desired: SeqPtr): (r: (bool, SeqPtr))
    ensures r.0 <==> cell == expected
    ensures r.0 ==> r.1 == desired
    ensures !r.0 ==> r.1 == cell
  {
    if cell == expected then (true, desired) else (false, cell)
  }

  /** `push(p)`: link `p` in front of the current top and install it with
      the next sequence number. Returns the new top and the new links. */
  function Push(top: SeqPtr, links: Links, p: NodeId): (r: (SeqPtr, Links))
    ensures r.0.ptr == Some(p)
    ensures Next(r.1, p) == top.ptr
    ensures r.0.seqNo == Bump(top.seqNo)
    ensures forall q :: q != p ==> Next(r.1, q) == Next(links, q)
  {
    var stackTop := top;
    var newTop := SeqPtr(Some(p), Bump(stackTop.seqNo));
    var links' := links[p := stackTop.ptr];
    var (ok, top') := Cas(top, stackTop, newTop);
    (top', links')
  }

  /** `pop()`: on an empty stack returns `nullptr` and changes nothing;
      otherwise unlinks the top node and returns it. Pop never writes a
      node's `_next`, so the links are not returned. */
  function Pop(top: SeqPtr, links: Links): (r: (SeqPtr, Option<NodeId>))
    ensures top.ptr.None? ==> r == (top, None)
    ensures top.ptr.Some? ==> r.1 == top.ptr && r.0.ptr == Next(links, top.ptr.value)
    ensures top.ptr.Some? ==> r.0.seqNo == Bump(top.seqNo)
  {
    var stackTop := top;
    if stackTop.ptr.None? then (top, None)
    else
      var newTop := SeqPtr(Next(links, stackTop.ptr.value), Bump(stackTop.seqNo));
      var (ok, top') := Cas(top, stackTop, newTop);
      (top', stackTop.ptr)
  }

  /** Following `_next` from `ptr` visits exactly the nodes of `s`, in order,
      and then reaches `nullptr`. */
  ghost predicate Chain(links: Links, ptr: Option<NodeId>, s: seq<NodeId>)
    decreases |s|
  {
    if s == [] then ptr.None?
    else ptr == Some(s[0]) && Chain(links, Next(links, s[0]), s[1..])
  }

  /** `size()`: the number of nodes reachable from the top through `_next`.
      The caller's stack is well formed, i.e. the chain ends in `nullptr`;
      `s` names that chain. */
  method Size(top: SeqPtr, links: Links, ghost s: seq<NodeId>) returns (n: nat)
    requires Chain(links, top.ptr, s)
    ensures n == |s|
  {
    n := 0;
    var p := top.ptr;
    ghost var rest := s;
    while p.Some?
      invariant Chain(links, p, rest)
      invariant n + |rest| == |s|
      decreases |rest|
    {
      n := n + 1;
      p := Next(links, p.value);
      rest := rest[1..];
    }
  }

  /** The abstract stack: node ids from top to bottom, and the counter. */
  datatype Stack = Stack(items: seq<NodeId>, seqNo: U64)

  /** The stack at load time: no nodes, sequence 0. */
  const InitialStack := Stack([], 0)

  function APush(st: Stack, p: NodeId): (r: Stack)
  {
    Stack([p] + st.items, Bump(st.seqNo))
  }

  function APop(st: Stack): (r: (Stack, Option<NodeId>))
  {
    if st.items == [] then (st, None)
    else (Stack(st.items[1..], Bump(st.seqNo)), Some(st.items[0]))
  }

  /** The concrete top and links implement the abstract stack `st`. */
  ghost predicate Represents(top: SeqPtr, links: Links, st: Stack)
  {
    top.seqNo == st.seqNo && Chain(links, top.ptr, st.items)
  }

  /** Rewriting the `_next` of a node off the chain leaves the chain intact. */
  lemma {:induction false} ChainFrame(links: Links, ptr: Option<NodeId>, s: seq<NodeId>, p: NodeId, v: Option<NodeId>)
    requires Chain(links, ptr, s)
    requires p !in s
    ensures Chain(links[p := v], ptr, s)
    decreases |s|
  {
    if s != [] {
      assert Next(links[p := v], s[0]) == Next(links, s[0]);
      ChainFrame(links, Next(links, s[0]), s[1..], p, v);
    }
  }

  /** A pointer determines its chain: `size()` is well defined. */
  lemma {:induction false} ChainUnique(links: Links, ptr: Option<NodeId>, s: seq<NodeId>, s': seq<NodeId>)
    requires Chain(links, ptr, s) && Chain(links, ptr, s')
    ensures s == s'
    decreases |s|
  {
    if s != [] {
      ChainUnique(links, Next(links, s[0]), s[1..], s'[1..]);
    }
  }

  /** A well-formed chain never visits a node twice. */
  lemma {:induction false} ChainDistinct(links: Links, ptr: Option<NodeId>, s: seq<NodeId>)
    requires Chain(links, ptr, s)
    ensures Distinct(s)
    decreases |s|
  {
    if s != [] {
      ChainDistinct(links, Next(links, s[0]), s[1..]);
      if s[0] in s[1..] {
        var k :| 0 <= k < |s[1..]| && s[1..][k] == s[0];
        ChainSuffix(links, Next(links, s[0]), s[1..], k);
        // From s[k+1] the chain is s[k+1..], but s[k+1] == s[0] starts s.
        ChainUnique(links, Some(s[0]), s, s[1..][k..]);
      }
    }
  }

  /** Every suffix of a chain is the chain of its first node. */
  lemma {:induction false} ChainSuffix(links: Links, ptr: Option<NodeId>, s: seq<NodeId>, k: nat)
    requires Chain(links, ptr, s)
    requires k < |s|
    ensures Chain(links, Some(s[k]), s[k..])
    decreases k
  {
    if k > 0 {
      ChainSuffix(links, Next(links, s[0]), s[1..], k - 1);
      assert s[1..][k - 1..] == s[k..];
    }
  }

  /** Concrete `push` of a node not already on the stack is abstract cons,
      so `size()` grows by one. */
  lemma PushRefines(top: SeqPtr, links: Links, st: Stack, p: NodeId)
    requires Represents(top, links, st)
    requires p !in st.items
    ensures Represents(Push(top, links, p).0, Push(top, links, p).1, APush(st, p))
  {
    var (top', links') := Push(top, links, p);
    ChainFrame(links, top.ptr, st.items, p, top.ptr);
    assert links' == links[p := top.ptr];
    assert ([p] + st.items)[1..] == st.items;
  }

  /** Concrete `pop` is abstract uncons: same node returned, and the
      remaining chain is the tail, so a non-empty pop shrinks `size()` by
      one and an empty pop changes neither pointer nor counter. */
  lemma PopRefines(top: SeqPtr, links: Links, st: Stack)
    requires Represents(top, links, st)
    ensures Pop(top, links).1 == APop(st).1
    ensures Represents(Pop(top, links).0, links, APop(st).0)
  {
  }

  /** LIFO round trip on the concrete stack: push then pop hands back the
      pushed node, restores the previous top pointer and advances the
      counter by two. */
  lemma PushPopRoundTrip(top: SeqPtr, links: Links, p: NodeId)
    ensures var (top1, links1) := Push(top, links, p);
            var (top2, q) := Pop(top1, links1);
            q == Some(p) && top2.ptr == top.ptr && top2.seqNo == BumpN(top.seqNo, 2)
  {
  }

  /** LIFO round trip on the abstract stack. */
  lemma APushPopRoundTrip(st: Stack, p: NodeId)
    ensures APop(APush(st, p)) == (Stack(st.items, BumpN(st.seqNo, 2)), Some(p))
  {
  }
}
