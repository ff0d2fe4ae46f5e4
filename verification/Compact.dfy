/** Garbage collection of wire expressions: `compact` keeps the nodes the roots reach, renumbers
    them, and remembers both directions of the renumbering. */
module Compaction {
  import opened Wrappers

  const INDEX_MASK: nat := 0x7fff_ffff
  const U32_MAX: nat := 0xffff_ffff

  datatype WireSort = WireBv | WireBool

  /** A typed reference: one sort bit and a 31-bit index. */
  datatype NodeRef = NodeRef(sort: WireSort, index: nat)

  /** A node header; `children` is where its `arity` children start in the shared child array. */
  datatype RawNode = RawNode(tag: nat, arity: nat, auxHi: nat, width: nat, auxLo: nat, children: nat, payload: nat)

  datatype NodeMeta = NodeMeta(sort: WireSort, width: nat)

  /** `NodeRef::new`: the index must fit 31 bits. */
  function NewRef(sort: WireSort, index: nat): Result<NodeRef> {
    if index > INDEX_MASK then Err(Invalid) else Ok(NodeRef(sort, index))
  }

  /** The packed 32-bit form. */
  function Raw(r: NodeRef): nat { (if r.sort.WireBool? then 0x8000_0000 else 0) + r.index }

  function FromRaw(raw: nat): NodeRef {
    NodeRef(if raw / 0x8000_0000 % 2 == 0 then WireBv else WireBool, raw % 0x8000_0000)
  }

  lemma {:induction false} RawRoundTrip(r: NodeRef)
    requires r.index <= INDEX_MASK
    ensures FromRaw(Raw(r)) == r && Raw(r) <= U32_MAX
  {}

  // ------------------------------------------------------------------------- well-formedness

  /** The child references of a node. */
  function ChildrenOf(node: RawNode, children: seq<NodeRef>): seq<NodeRef> {
    if node.arity > 0 && node.children + node.arity <= |children|
    then children[node.children..node.children + node.arity]
    else []
  }

  predicate NodeOk(nodes: seq<RawNode>, children: seq<NodeRef>, sorts: seq<WireSort>, i: nat)
    requires i < |nodes| == |sorts|
  {
    && (nodes[i].arity > 0 ==> nodes[i].children + nodes[i].arity <= |children|)
    && forall c :: 0 <= c < |ChildrenOf(nodes[i], children)| ==> RefOk(sorts, i, ChildrenOf(nodes[i], children)[c])
  }

  /** The reference names one of the first `n` nodes, with that node's sort. */
  predicate RefOk(sorts: seq<WireSort>, n: nat, r: NodeRef) { r.index < n <= |sorts| && sorts[r.index] == r.sort }

  /** Children come before their parents and are referred to by their sorts. */
  ghost predicate GraphOk(nodes: seq<RawNode>, children: seq<NodeRef>, sorts: seq<WireSort>) {
    |nodes| == |sorts| && forall i {:trigger nodes[i]} :: 0 <= i < |nodes| ==> NodeOk(nodes, children, sorts, i)
  }

  /** The children of the nodes lie side by side in the child array, in the order of the nodes. */
  ghost predicate Packed(nodes: seq<RawNode>, total: nat) {
    && (forall i {:trigger nodes[i]} :: 0 <= i < |nodes| ==>
          && (if nodes[i].arity > 0 then nodes[i].children + nodes[i].arity <= total else nodes[i].children == 0)
          && nodes[i].children <= U32_MAX)
    && forall i, j {:trigger nodes[i], nodes[j]} :: 0 <= i < j < |nodes| && nodes[j].arity > 0 ==>
         nodes[i].children + nodes[i].arity <= nodes[j].children
  }

  /** How many children the listed nodes have together. */
  function ArityOf(nodes: seq<RawNode>, live: seq<nat>): (n: nat) {
    if live == [] then 0 else
      var last := live[|live| - 1];
      ArityOf(nodes, live[..|live| - 1]) + if last < |nodes| then nodes[last].arity else 0
  }

  /** Listed nodes that end below `bound` have at most `bound` children together. */
  lemma {:induction false} ArityBelow(nodes: seq<RawNode>, total: nat, live: seq<nat>, bound: nat)
    requires Packed(nodes, total) && Increasing(live, |nodes|)
    requires forall k {:trigger live[k]} :: 0 <= k < |live| && nodes[live[k]].arity > 0 ==>
               nodes[live[k]].children + nodes[live[k]].arity <= bound
    ensures ArityOf(nodes, live) <= bound
    decreases |live|
  {
    if live != [] {
      var last := live[|live| - 1];
      ArityBelow(nodes, total, live[..|live| - 1], if nodes[last].arity > 0 then nodes[last].children else bound);
    }
  }

  /** No copied node starts later than its original, and the copies need no more room. */
  lemma {:induction false} CopiesFit(nodes: seq<RawNode>, total: nat, live: seq<nat>, n: nat)
    requires Packed(nodes, total) && Increasing(live, |nodes|) && n <= |live|
    ensures ArityOf(nodes, live[..n]) <= total
    ensures n < |live| && nodes[live[n]].arity > 0 ==> ArityOf(nodes, live[..n]) <= nodes[live[n]].children <= U32_MAX
    ensures n < |live| ==> ArityOf(nodes, live[..n + 1]) == ArityOf(nodes, live[..n]) + nodes[live[n]].arity
  {
    ArityBelow(nodes, total, live[..n], total);
    if n < |live| {
      assert live[..n + 1][..n] == live[..n];
      if nodes[live[n]].arity > 0 { ArityBelow(nodes, total, live[..n], nodes[live[n]].children); }
    }
  }

  function SortsOf(meta: seq<NodeMeta>): (s: seq<WireSort>)
    ensures |s| == |meta|
  {
    seq(|meta|, i requires 0 <= i < |meta| => meta[i].sort)
  }

  // --------------------------------------------------------------------------- reachability

  /** A set of node indices that contains the children of its members. */
  ghost predicate ClosedSet(nodes: seq<RawNode>, children: seq<NodeRef>, live: set<nat>) {
    forall i, c :: i in live && i < |nodes| && 0 <= c < |ChildrenOf(nodes[i], children)| ==>
        ChildrenOf(nodes[i], children)[c].index in live
  }

  ghost function Marked(marks: seq<bool>): set<nat> { set i | 0 <= i < |marks| && marks[i] }

  /** `live` is the least closed set with the roots: what they reach. */
  ghost predicate ReachedFrom(nodes: seq<RawNode>, children: seq<NodeRef>, roots: seq<NodeRef>, live: set<nat>) {
    && ClosedSet(nodes, children, live)
    && (forall r :: 0 <= r < |roots| ==> roots[r].index in live)
    && forall other: set<nat> ::
         ClosedSet(nodes, children, other) && (forall r :: 0 <= r < |roots| ==> roots[r].index in other) ==>
           live <= other
  }

  /** The effect of marking from one reference: what is newly marked is closed, and in every closed
      set that contains the reference. */
  ghost predicate MarksFrom(nodes: seq<RawNode>, children: seq<NodeRef>, was: seq<bool>, now: seq<bool>, index: nat) {
    && |now| == |was| == |nodes|
    && (forall i :: 0 <= i < |was| && was[i] ==> now[i])
    && NewClosed(nodes, children, was, now)
    && (forall live: set<nat>, i: nat ::
          ClosedSet(nodes, children, live) && index in live && i < |now| && now[i] && !was[i] ==> i in live)
  }

  /** Children of newly marked nodes are marked. */
  ghost predicate NewClosed(nodes: seq<RawNode>, children: seq<NodeRef>, was: seq<bool>, now: seq<bool>) {
    forall i: nat, c ::
      i < |now| == |was| == |nodes| && now[i] && !was[i] && 0 <= c < |ChildrenOf(nodes[i], children)| ==>
        ChildrenOf(nodes[i], children)[c].index < |now| && now[ChildrenOf(nodes[i], children)[c].index]
  }

  // ------------------------------------------------------------------------ unfolded terms

  /** The term a node stands for, with all sharing expanded. */
  datatype Tree = Tree(head: RawNode, kids: seq<(WireSort, Tree)>)

  function Unfold(nodes: seq<RawNode>, children: seq<NodeRef>, i: nat): Tree
    decreases i, 1
  {
    if i >= |nodes| then Tree(RawNode(0, 0, 0, 0, 0, 0, 0), [])
    else Tree(nodes[i].(children := 0), UnfoldAll(nodes, children, i, ChildrenOf(nodes[i], children)))
  }

  function UnfoldAll(nodes: seq<RawNode>, children: seq<NodeRef>, i: nat,
                     refs: seq<NodeRef>): (kids: seq<(WireSort, Tree)>)
    ensures |kids| == |refs|
    ensures forall c :: 0 <= c < |refs| && refs[c].index < i ==>
              kids[c] == (refs[c].sort, Unfold(nodes, children, refs[c].index))
    decreases i, 0, refs
  {
    if refs == [] then [] else
      var kid := if refs[0].index < i then Unfold(nodes, children, refs[0].index)
          else Tree(RawNode(0, 0, 0, 0, 0, 0, 0), []);
      [(refs[0].sort, kid)] + UnfoldAll(nodes, children, i, refs[1..])
  }

  // ------------------------------------------------------------------------------- results

  datatype Compacted = Compacted(
    nodes: seq<RawNode>,
    children: seq<NodeRef>,
    blob: seq<nat>,
    oldToNew: seq<Option<NodeRef>>,
    newToOld: map<NodeRef, NodeRef>)
  {
    /** The new reference of a live old one. */
    function RemapRef(old': NodeRef): Result<NodeRef> {
      if old'.index >= |oldToNew| || oldToNew[old'.index].None? then Err(Invalid)
      else if oldToNew[old'.index].value.sort != old'.sort then Err(Invalid)
      else Ok(oldToNew[old'.index].value)
    }

    /** The old reference of a new one. */
    function OriginalRef(new': NodeRef): Result<NodeRef> {
      if new' in newToOld then Ok(newToOld[new']) else Err(Invalid)
    }
  }

  /** The renumbering that lists the live nodes in their old order. */
  ghost predicate Renumbers(sorts: seq<WireSort>, live: seq<nat>, marks: seq<bool>, n: nat,
                            oldToNew: seq<Option<NodeRef>>, newToOld: map<NodeRef, NodeRef>)
  {
    && n <= |marks| == |sorts| == |oldToNew|
    && Lists(live, marks, n) && Forward(sorts, live, oldToNew) && Backward(sorts, live, newToOld)
  }

  /** `live` lists the marked indices below `n`. */
  ghost predicate Lists(live: seq<nat>, marks: seq<bool>, n: nat) {
    Increasing(live, n) && n <= |marks| && forall i: nat :: i < n ==> (marks[i] <==> i in live)
  }

  ghost predicate Forward(sorts: seq<WireSort>, live: seq<nat>, oldToNew: seq<Option<NodeRef>>) {
    && |oldToNew| == |sorts|
    && (forall i: nat {:trigger oldToNew[i]} :: i < |oldToNew| && i !in live ==> oldToNew[i] == None)
    && (forall k {:trigger live[k]} :: 0 <= k < |live| ==>
          live[k] < |sorts| && oldToNew[live[k]] == Some(NodeRef(sorts[live[k]], k)))
  }

  ghost predicate Backward(sorts: seq<WireSort>, live: seq<nat>, newToOld: map<NodeRef, NodeRef>) {
    && (forall k {:trigger live[k]} :: 0 <= k < |live| ==>
          live[k] < |sorts| && NodeRef(sorts[live[k]], k) in newToOld
            && newToOld[NodeRef(sorts[live[k]], k)] == NodeRef(sorts[live[k]], live[k]))
    && (forall r :: r in newToOld ==> r.index < |live| && live[r.index] < |sorts| && r.sort == sorts[live[r.index]])
  }

  ghost predicate Increasing(live: seq<nat>, n: nat) {
    && (forall k {:trigger live[k]} :: 0 <= k < |live| ==> live[k] < n)
    && (forall j, k {:trigger live[j], live[k]} :: 0 <= j < k < |live| ==> live[j] < live[k])
  }

  /** Node `k` of the new graph is old node `live[k]`, with its children renumbered. */
  ghost predicate Copied(nodes: seq<RawNode>, children: seq<NodeRef>, oldToNew: seq<Option<NodeRef>>, live: seq<nat>,
                         n: nat, newNodes: seq<RawNode>, newChildren: seq<NodeRef>)
  {
    && n <= |live| && |newNodes| == n
    && forall k {:trigger newNodes[k]} :: 0 <= k < n ==>
         live[k] < |nodes| && CopiedNode(nodes[live[k]], children, oldToNew, newNodes[k], newChildren)
  }

  predicate CopiedNode(node: RawNode, children: seq<NodeRef>, oldToNew: seq<Option<NodeRef>>, newNode: RawNode,
                       newChildren: seq<NodeRef>)
  {
    && newNode.(children := 0) == node.(children := 0)
    && (newNode.arity > 0 ==> newNode.children + newNode.arity <= |newChildren|)
    && |ChildrenOf(newNode, newChildren)| == |ChildrenOf(node, children)|
    && forall c :: 0 <= c < |ChildrenOf(node, children)| ==>
         RemappedTo(oldToNew, ChildrenOf(node, children)[c], ChildrenOf(newNode, newChildren)[c])
  }

  predicate RemappedTo(oldToNew: seq<Option<NodeRef>>, old': NodeRef, new': NodeRef) {
    old'.index < |oldToNew| && oldToNew[old'.index] == Some(new')
  }

  // --------------------------------------------------------------------------------- proofs

  lemma {:induction false} OrderedIndices(live: seq<nat>, n: nat, j: nat, k: nat)
    requires Increasing(live, n) && j < |live| && k < |live|
    ensures live[j] < live[k] <==> j < k
  {}

  /** Children of a live node are live and renumbered below it, with their sorts. */
  lemma {:induction false} ChildRenumbered(nodes: seq<RawNode>, children: seq<NodeRef>, sorts: seq<WireSort>,
                                           marks: seq<bool>, live: seq<nat>, oldToNew: seq<Option<NodeRef>>,
                                           newToOld: map<NodeRef, NodeRef>, k: nat, c: nat) returns (j: nat)
    requires GraphOk(nodes, children, sorts) && Renumbers(sorts, live, marks, |nodes|, oldToNew, newToOld)
    requires ClosedSet(nodes, children, Marked(marks))
    requires k < |live| && c < |ChildrenOf(nodes[live[k]], children)|
    ensures var r := ChildrenOf(nodes[live[k]], children)[c];
            j < k && live[j] == r.index && oldToNew[r.index] == Some(NodeRef(r.sort, j))
  {
    var i := live[k];
    assert NodeOk(nodes, children, sorts, i);
    var r := ChildrenOf(nodes[i], children)[c];
    assert RefOk(sorts, i, r);
    assert i in Marked(marks);
    assert r.index in live;
    j :| 0 <= j < |live| && live[j] == r.index;
    OrderedIndices(live, |nodes|, j, k);
  }

  /** The new graph is well formed and unfolds to the same terms. */
  lemma {:induction false} SameTerm(nodes: seq<RawNode>, children: seq<NodeRef>, sorts: seq<WireSort>, marks: seq<bool>,
                                    live: seq<nat>, oldToNew: seq<Option<NodeRef>>, newToOld: map<NodeRef, NodeRef>,
                                    newNodes: seq<RawNode>, newChildren: seq<NodeRef>, k: nat)
    requires GraphOk(nodes, children, sorts) && Renumbers(sorts, live, marks, |nodes|, oldToNew, newToOld)
    requires ClosedSet(nodes, children, Marked(marks))
    requires Copied(nodes, children, oldToNew, live, |live|, newNodes, newChildren)
    requires k < |live|
    ensures Unfold(newNodes, newChildren, k) == Unfold(nodes, children, live[k])
    decreases k
  {
    hide GraphOk, Renumbers, ClosedSet, ChildrenOf;
    LiveBelow(sorts, live, marks, |nodes|, oldToNew, newToOld, k);
    GraphLength(nodes, children, sorts);
    var i := live[k];
    assert CopiedNode(nodes[i], children, oldToNew, newNodes[k], newChildren);
    var olds, news := ChildrenOf(nodes[i], children), ChildrenOf(newNodes[k], newChildren);
    forall c | 0 <= c < |olds|
      ensures news[c].index < k && olds[c].index < i && news[c].sort == olds[c].sort
      ensures Unfold(newNodes, newChildren, news[c].index) == Unfold(nodes, children, olds[c].index)
    {
      assert RemappedTo(oldToNew, olds[c], news[c]);
      var j := ChildRenumbered(nodes, children, sorts, marks, live, oldToNew, newToOld, k, c);
      IndexBelow(sorts, live, marks, |nodes|, oldToNew, newToOld, j, k);
      SameTerm(nodes, children, sorts, marks, live, oldToNew, newToOld, newNodes, newChildren, j);
    }
    hide Unfold;
    SameKids(nodes, children, i, olds, newNodes, newChildren, k, news);
    UnfoldOf(nodes, children, i);
    UnfoldOf(newNodes, newChildren, k);
  }

  lemma {:induction false} SameKids(nodes: seq<RawNode>, children: seq<NodeRef>, i: nat, olds: seq<NodeRef>,
                                    newNodes: seq<RawNode>, newChildren: seq<NodeRef>, k: nat, news: seq<NodeRef>)
    requires |olds| == |news|
    requires forall c :: 0 <= c < |olds| ==> news[c].index < k && olds[c].index < i && news[c].sort == olds[c].sort
    requires forall c :: 0 <= c < |olds| ==>
               Unfold(newNodes, newChildren, news[c].index) == Unfold(nodes, children, olds[c].index)
    ensures UnfoldAll(newNodes, newChildren, k, news) == UnfoldAll(nodes, children, i, olds)
  {
    hide Unfold;
    var a, b := UnfoldAll(newNodes, newChildren, k, news), UnfoldAll(nodes, children, i, olds);
    hide UnfoldAll;
    assert forall c :: 0 <= c < |olds| ==> a[c] == b[c];
  }

  lemma {:induction false} UnfoldOf(nodes: seq<RawNode>, children: seq<NodeRef>, i: nat)
    requires i < |nodes|
    ensures Unfold(nodes, children, i) ==
              Tree(nodes[i].(children := 0), UnfoldAll(nodes, children, i, ChildrenOf(nodes[i], children)))
  {}

  lemma {:induction false} GraphLength(nodes: seq<RawNode>, children: seq<NodeRef>, sorts: seq<WireSort>)
    requires GraphOk(nodes, children, sorts)
    ensures |nodes| == |sorts|
  {}

  lemma {:induction false} LiveBelow(sorts: seq<WireSort>, live: seq<nat>, marks: seq<bool>, n: nat,
                                     oldToNew: seq<Option<NodeRef>>, newToOld: map<NodeRef, NodeRef>, k: nat)
    requires Renumbers(sorts, live, marks, n, oldToNew, newToOld) && k < |live|
    ensures live[k] < n <= |sorts| == |marks| == |oldToNew|
  {}

  lemma {:induction false} IndexBelow(sorts: seq<WireSort>, live: seq<nat>, marks: seq<bool>, n: nat,
                                      oldToNew: seq<Option<NodeRef>>, newToOld: map<NodeRef, NodeRef>, j: nat, k: nat)
    requires Renumbers(sorts, live, marks, n, oldToNew, newToOld) && j < k < |live|
    ensures live[j] < live[k]
  {}

  /** The sorts of the new nodes. */
  function NewSorts(sorts: seq<WireSort>, live: seq<nat>): (s: seq<WireSort>)
    ensures |s| == |live|
  {
    seq(|live|, k requires 0 <= k < |live| => if live[k] < |sorts| then sorts[live[k]] else WireBv)
  }

  lemma {:induction false} NewGraphOk(nodes: seq<RawNode>, children: seq<NodeRef>, sorts: seq<WireSort>,
                                      marks: seq<bool>, live: seq<nat>, oldToNew: seq<Option<NodeRef>>,
                                      newToOld: map<NodeRef, NodeRef>, newNodes: seq<RawNode>,
                                      newChildren: seq<NodeRef>)
    requires GraphOk(nodes, children, sorts) && Renumbers(sorts, live, marks, |nodes|, oldToNew, newToOld)
    requires ClosedSet(nodes, children, Marked(marks))
    requires Copied(nodes, children, oldToNew, live, |live|, newNodes, newChildren)
    ensures GraphOk(newNodes, newChildren, NewSorts(sorts, live))
  {
    hide GraphOk, Renumbers, ClosedSet, ChildrenOf;
    GraphLength(nodes, children, sorts);
    var s := NewSorts(sorts, live);
    forall k | 0 <= k < |newNodes| ensures NodeOk(newNodes, newChildren, s, k) {
      LiveBelow(sorts, live, marks, |nodes|, oldToNew, newToOld, k);
      assert CopiedNode(nodes[live[k]], children, oldToNew, newNodes[k], newChildren);
      var olds, news := ChildrenOf(nodes[live[k]], children), ChildrenOf(newNodes[k], newChildren);
      forall c | 0 <= c < |news| ensures RefOk(s, k, news[c]) {
        assert RemappedTo(oldToNew, olds[c], news[c]);
        var j := ChildRenumbered(nodes, children, sorts, marks, live, oldToNew, newToOld, k, c);
        LiveBelow(sorts, live, marks, |nodes|, oldToNew, newToOld, j);
        ChildSort(nodes, children, sorts, live[k], c);
      }
    }
    AllNodesOk(newNodes, newChildren, s);
  }

  lemma {:induction false} AllNodesOk(nodes: seq<RawNode>, children: seq<NodeRef>, sorts: seq<WireSort>)
    requires |nodes| == |sorts| && forall i :: 0 <= i < |nodes| ==> NodeOk(nodes, children, sorts, i)
    ensures GraphOk(nodes, children, sorts)
  {}

  lemma {:induction false} ChildSort(nodes: seq<RawNode>, children: seq<NodeRef>, sorts: seq<WireSort>, i: nat, c: nat)
    requires GraphOk(nodes, children, sorts) && i < |nodes| && c < |ChildrenOf(nodes[i], children)|
    ensures RefOk(sorts, i, ChildrenOf(nodes[i], children)[c])
  {
    assert NodeOk(nodes, children, sorts, i);
  }

  /** What compaction promises. */
  ghost predicate Compacts(nodes: seq<RawNode>, children: seq<NodeRef>, sorts: seq<WireSort>, blob: seq<nat>,
                           roots: seq<NodeRef>, c: Compacted, live: seq<nat>)
  {
    && Increasing(live, |nodes|) && |nodes| == |sorts| && |c.nodes| == |live| && c.blob == blob
    && ReachedFrom(nodes, children, roots, SetOf(live))
    && GraphOk(c.nodes, c.children, NewSorts(sorts, live))
    && (forall k {:trigger live[k]} :: 0 <= k < |live| ==>
          Unfold(c.nodes, c.children, k) == Unfold(nodes, children, live[k]))
    && (forall o: NodeRef, n: NodeRef {:trigger c.RemapRef(o), c.OriginalRef(n)} ::
          c.RemapRef(o) == Ok(n) <==>
            n.index < |live| && o == NodeRef(sorts[live[n.index]], live[n.index]) && n.sort == o.sort)
    && (forall o: NodeRef, n: NodeRef {:trigger c.RemapRef(o), c.OriginalRef(n)} :: c.RemapRef(o) == Ok(n) <==>
          c.OriginalRef(n) == Ok(o))
  }

  ghost function SetOf(live: seq<nat>): set<nat> { set i | i in live }

  // -------------------------------------------------------------------------------- marking

  /** In the middle of marking: everything new except the node being expanded is closed. */
  ghost predicate Marking(nodes: seq<RawNode>, children: seq<NodeRef>, was: seq<bool>, now: seq<bool>, index: nat,
                          done: nat)
  {
    && |now| == |was| == |nodes| && index < |now| && now[index] && !was[index]
    && done <= |ChildrenOf(nodes[index], children)|
    && (forall i :: 0 <= i < |was| && was[i] ==> now[i])
    && (forall c :: 0 <= c < done ==>
          ChildrenOf(nodes[index], children)[c].index < |now| && now[ChildrenOf(nodes[index], children)[c].index])
    && (forall i: nat, c ::
          i < |now| && i != index && now[i] && !was[i] && 0 <= c < |ChildrenOf(nodes[i], children)| ==>
            ChildrenOf(nodes[i], children)[c].index < |now| && now[ChildrenOf(nodes[i], children)[c].index])
    && (forall live: set<nat>, i: nat ::
          ClosedSet(nodes, children, live) && index in live && i < |now| && now[i] && !was[i] ==> i in live)
  }

  lemma {:induction false} MarkingStarts(nodes: seq<RawNode>, children: seq<NodeRef>, was: seq<bool>, index: nat)
    requires |was| == |nodes| && index < |was| && !was[index]
    ensures Marking(nodes, children, was, was[index := true], index, 0)
  {
    hide ChildrenOf, ClosedSet;
  }

  lemma {:induction false} MarkingStep(nodes: seq<RawNode>, children: seq<NodeRef>, was: seq<bool>, mid: seq<bool>,
                                       now: seq<bool>, index: nat, done: nat)
    requires Marking(nodes, children, was, mid, index, done) && done < |ChildrenOf(nodes[index], children)|
    requires var r := ChildrenOf(nodes[index], children)[done];
             MarksFrom(nodes, children, mid, now, r.index) && r.index < |now| && now[r.index]
    ensures Marking(nodes, children, was, now, index, done + 1)
  {
    hide ChildrenOf;
    var r := ChildrenOf(nodes[index], children)[done];
    forall live: set<nat>, i: nat | ClosedSet(nodes, children, live) && index in live && i < |now| && now[i] && !was[i]
      ensures i in live
    {
      assert r.index in live;
    }
  }

  lemma {:induction false} MarkingEnds(nodes: seq<RawNode>, children: seq<NodeRef>, was: seq<bool>, now: seq<bool>,
                                       index: nat)
    requires |nodes| > index && Marking(nodes, children, was, now, index, |ChildrenOf(nodes[index], children)|)
    ensures MarksFrom(nodes, children, was, now, index)
  {
    hide ChildrenOf, ClosedSet;
  }

  lemma {:induction false} AlreadyMarked(nodes: seq<RawNode>, children: seq<NodeRef>, was: seq<bool>, index: nat)
    requires |was| == |nodes|
    ensures MarksFrom(nodes, children, was, was, index)
  {}

  /** Marking from some roots: closed, complete, and in every closed set with the roots. */
  ghost predicate MarkedRoots(nodes: seq<RawNode>, children: seq<NodeRef>, roots: seq<NodeRef>, n: nat,
                              marks: seq<bool>)
  {
    && |marks| == |nodes| && n <= |roots|
    && ClosedSet(nodes, children, Marked(marks))
    && (forall r :: 0 <= r < n ==> roots[r].index in Marked(marks))
    && forall other: set<nat> ::
         ClosedSet(nodes, children, other) && (forall r :: 0 <= r < n ==> roots[r].index in other) ==>
           Marked(marks) <= other
  }

  lemma {:induction false} NothingMarked(nodes: seq<RawNode>, children: seq<NodeRef>, roots: seq<NodeRef>,
                                         marks: seq<bool>)
    requires |marks| == |nodes| && forall i :: 0 <= i < |marks| ==> !marks[i]
    ensures MarkedRoots(nodes, children, roots, 0, marks)
  {
    hide ChildrenOf;
    assert Marked(marks) == {};
  }

  lemma {:induction false} RootMarked(nodes: seq<RawNode>, children: seq<NodeRef>, roots: seq<NodeRef>, n: nat,
                                      was: seq<bool>, now: seq<bool>)
    requires n < |roots| && MarkedRoots(nodes, children, roots, n, was)
    requires MarksFrom(nodes, children, was, now, roots[n].index)
    requires roots[n].index < |now| && now[roots[n].index]
    ensures MarkedRoots(nodes, children, roots, n + 1, now)
  {
    hide ChildrenOf;
    StillClosed(nodes, children, was, now);
    forall other: set<nat> | ClosedSet(nodes, children, other)
        && (forall r :: 0 <= r < n + 1 ==> roots[r].index in other)
      ensures Marked(now) <= other
    {
      assert Marked(was) <= other;
      assert roots[n].index in other;
      forall i | i in Marked(now) ensures i in other {
        if i in Marked(was) {
        } else {
          assert now[i] && !was[i];
        }
      }
    }
  }

  lemma {:induction false} StillClosed(nodes: seq<RawNode>, children: seq<NodeRef>, was: seq<bool>, now: seq<bool>)
    requires |now| == |was| == |nodes| && ClosedSet(nodes, children, Marked(was))
    requires NewClosed(nodes, children, was, now)
    requires forall i :: 0 <= i < |was| && was[i] ==> now[i]
    ensures ClosedSet(nodes, children, Marked(now))
  {
    hide ChildrenOf;
    forall i, c | i in Marked(now) && i < |nodes| && 0 <= c < |ChildrenOf(nodes[i], children)|
      ensures ChildrenOf(nodes[i], children)[c].index in Marked(now)
    {
      if was[i] { assert i in Marked(was); assert ChildrenOf(nodes[i], children)[c].index in Marked(was); }
    }
  }

  // ----------------------------------------------------------------------------- renumbering

  lemma {:induction false} RenumberStep(sorts: seq<WireSort>, live: seq<nat>, marks: seq<bool>, n: nat,
                                        oldToNew: seq<Option<NodeRef>>, newToOld: map<NodeRef, NodeRef>)
    requires n < |marks| && Renumbers(sorts, live, marks, n, oldToNew, newToOld)
    ensures var r := NodeRef(sorts[n], |live|);
            if marks[n]
            then Renumbers(sorts, live + [n], marks, n + 1, oldToNew[n := Some(r)], newToOld[r := NodeRef(sorts[n], n)])
            else Renumbers(sorts, live, marks, n + 1, oldToNew, newToOld)
  {
    hide Lists, Forward, Backward;
    ListsStep(live, marks, n);
    if marks[n] {
      ForwardStep(sorts, live, marks, n, oldToNew);
      BackwardStep(sorts, live, n, newToOld);
    }
  }

  lemma {:induction false} ListsStep(live: seq<nat>, marks: seq<bool>, n: nat)
    requires n < |marks| && Lists(live, marks, n)
    ensures Lists(if marks[n] then live + [n] else live, marks, n + 1)
  {
    if marks[n] {
      var more := live + [n];
      assert forall i :: i in more <==> i in live || i == n;
    }
  }

  lemma {:induction false} ForwardStep(sorts: seq<WireSort>, live: seq<nat>, marks: seq<bool>, n: nat,
                                       oldToNew: seq<Option<NodeRef>>)
    requires n < |sorts| && Lists(live, marks, n) && Forward(sorts, live, oldToNew)
    ensures Forward(sorts, live + [n], oldToNew[n := Some(NodeRef(sorts[n], |live|))])
  {
    var more := live + [n];
    assert forall i :: i in more <==> i in live || i == n;
    var next := oldToNew[n := Some(NodeRef(sorts[n], |live|))];
    forall k | 0 <= k < |more| ensures more[k] < |sorts| && next[more[k]] == Some(NodeRef(sorts[more[k]], k)) {
      if k < |live| { assert live[k] < n; }
    }
  }

  lemma {:induction false} BackwardStep(sorts: seq<WireSort>, live: seq<nat>, n: nat, newToOld: map<NodeRef, NodeRef>)
    requires n < |sorts| && Backward(sorts, live, newToOld)
    ensures Backward(sorts, live + [n], newToOld[NodeRef(sorts[n], |live|) := NodeRef(sorts[n], n)])
  {
    var more := live + [n];
    var next := newToOld[NodeRef(sorts[n], |live|) := NodeRef(sorts[n], n)];
    forall k | 0 <= k < |more|
      ensures more[k] < |sorts| && NodeRef(sorts[more[k]], k) in next
      ensures next[NodeRef(sorts[more[k]], k)] == NodeRef(sorts[more[k]], more[k])
    {
      if k < |live| { assert live[k] == more[k]; }
    }
  }

  lemma {:induction false} AllRenumbered(nodes: seq<RawNode>, children: seq<NodeRef>, sorts: seq<WireSort>,
                                         roots: seq<NodeRef>, marks: seq<bool>, live: seq<nat>,
                                         oldToNew: seq<Option<NodeRef>>, newToOld: map<NodeRef, NodeRef>)
    requires MarkedRoots(nodes, children, roots, |roots|, marks)
    requires Renumbers(sorts, live, marks, |nodes|, oldToNew, newToOld)
    ensures ReachedFrom(nodes, children, roots, SetOf(live))
  {
    hide ChildrenOf, ClosedSet;
    assert SetOf(live) == Marked(marks);
  }

  /** The two maps are inverse bijections between the live old references and the new ones. */
  lemma {:induction false} InverseMaps(sorts: seq<WireSort>, live: seq<nat>, marks: seq<bool>, c: Compacted, o: NodeRef,
                                       n: NodeRef)
    requires Renumbers(sorts, live, marks, |marks|, c.oldToNew, c.newToOld)
    ensures c.RemapRef(o) == Ok(n) <==>
              n.index < |live| && o == NodeRef(sorts[live[n.index]], live[n.index]) && n.sort == o.sort
    ensures c.RemapRef(o) == Ok(n) <==> c.OriginalRef(n) == Ok(o)
  {
    if o.index < |c.oldToNew| && o.index in live {
      var k :| 0 <= k < |live| && live[k] == o.index;
      assert c.oldToNew[live[k]] == Some(NodeRef(sorts[live[k]], k));
    }
    if n.index < |live| {
      assert c.oldToNew[live[n.index]] == Some(NodeRef(sorts[live[n.index]], n.index));
    }
  }

  // -------------------------------------------------------------------------- copying nodes

  lemma {:induction false} CopiedLater(nodes: seq<RawNode>, children: seq<NodeRef>, oldToNew: seq<Option<NodeRef>>,
                                       live: seq<nat>, n: nat, newNodes: seq<RawNode>, newChildren: seq<NodeRef>,
                                       more: seq<NodeRef>, next: RawNode)
    requires Copied(nodes, children, oldToNew, live, n, newNodes, newChildren) && newChildren <= more
    requires n < |live| && live[n] < |nodes| && CopiedNode(nodes[live[n]], children, oldToNew, next, more)
    ensures Copied(nodes, children, oldToNew, live, n + 1, newNodes + [next], more)
  {
    var all := newNodes + [next];
    forall k | 0 <= k < n + 1
      ensures live[k] < |nodes| && CopiedNode(nodes[live[k]], children, oldToNew, all[k], more)
    {
      if k < n {
        var node := newNodes[k];
        assert CopiedNode(nodes[live[k]], children, oldToNew, node, newChildren);
        assert ChildrenOf(newNodes[k], more) == ChildrenOf(newNodes[k], newChildren);
      }
    }
  }

  // -------------------------------------------------------------------------------- builder

  class ExprBuilder {
    var nodes: seq<RawNode>
    var children: seq<NodeRef>
    var blob: seq<nat>
    var meta: seq<NodeMeta>

    ghost predicate Valid()
      reads this
    {
      && |meta| == |nodes| && |nodes| <= INDEX_MASK + 1 && GraphOk(nodes, children, SortsOf(meta))
      && Packed(nodes, |children|) && |children| <= U32_MAX + 255 && |blob| <= U32_MAX
    }

    constructor ()
      ensures Valid() && nodes == [] && children == [] && blob == [] && meta == []
    {
      nodes, children, blob, meta := [], [], [], [];
    }

    /** The reference points into the builder and has its node's sort. */
    function MetaFor(r: NodeRef): (m: Result<NodeMeta>)
      reads this
      ensures m.Ok? ==> r.index < |meta| && m.value == meta[r.index] && m.value.sort == r.sort
      ensures m.Err? ==> r.index >= |meta| || meta[r.index].sort != r.sort
    {
      if r.index >= |meta| then Err(Invalid)
      else if meta[r.index].sort != r.sort then Err(Invalid)
      else Ok(meta[r.index])
    }

    /** Appends bytes to the blob table, which never outgrows 32-bit offsets. */
    method PushBlob(bytes: seq<nat>) returns (r: Result<(nat, nat)>)
      requires Valid()
      modifies this`blob
      ensures Valid() && (r.Ok? <==> |old(blob)| + |bytes| <= U32_MAX)
      ensures r.Ok? ==> r.value == (|old(blob)|, |bytes|)
      ensures blob == old(blob) + if r.Ok? then bytes else []
    {
      hide GraphOk;
      if |blob| > U32_MAX || |bytes| > U32_MAX || |blob| + |bytes| > U32_MAX { return Err(Invalid); }
      r := Ok((|blob|, |bytes|));
      blob := blob + bytes;
    }

    /** Appends a node over existing children.  `sort` is the result sort of the tag. */
    method PushNode(tag: nat, sort: WireSort, width: nat, kids: seq<NodeRef>, auxHi: nat, auxLo: nat, payload: nat)
        returns (r: Result<NodeRef>)
      requires Valid()
      modifies this
      ensures Valid() && blob == old(blob)
      ensures r.Ok? <==> (|kids| <= 255 && |old(children)| <= U32_MAX && |old(nodes)| <= INDEX_MASK
                          && forall c :: 0 <= c < |kids| ==> RefOk(SortsOf(old(meta)), |old(nodes)|, kids[c]))
      ensures r.Ok? ==> r.value == NodeRef(sort, |old(nodes)|) && meta == old(meta) + [NodeMeta(sort, width)]
      ensures r.Ok? ==> |nodes| == |old(nodes)| + 1 && nodes[..|old(nodes)|] == old(nodes)
      ensures r.Ok? ==> var node := nodes[|old(nodes)|];
                        ChildrenOf(node, children) == kids
                          && node.(children := 0) == RawNode(tag, |kids|, auxHi, width, auxLo, 0, payload)
      ensures r.Err? ==> nodes == old(nodes) && meta == old(meta)
    {
      hide GraphOk;
      if |kids| > 255 { return Err(Invalid); }
      for c := 0 to |kids|
        invariant forall d :: 0 <= d < c ==> RefOk(SortsOf(meta), |nodes|, kids[d])
      {
        if MetaFor(kids[c]).Err? { return Err(Invalid); }
      }
      if |children| > U32_MAX { return Err(Invalid); }
      var childStart := |children|;
      MoreChildren(nodes, children, SortsOf(meta), kids);
      ghost var total := |children|;
      children := children + kids;
      var id := NewRef(sort, |nodes|);
      if id.Err? { return id; }
      var node := RawNode(tag, |kids|, auxHi, width, auxLo, if kids == [] then 0 else childStart, payload);
      MoreNodes(nodes, children, SortsOf(meta), node, sort, kids);
      assert SortsOf(meta + [NodeMeta(sort, width)]) == SortsOf(meta) + [sort];
      MorePacked(nodes, total, node);
      nodes, meta := nodes + [node], meta + [NodeMeta(sort, width)];
      r := id;
    }

    /** Depth-first marking of everything a reference reaches. */
    method MarkRef(r: NodeRef, marks: array<bool>) returns (ok: bool)
      requires Valid() && marks.Length == |nodes|
      modifies marks
      ensures ok == RefOk(SortsOf(meta), |nodes|, r)
      ensures !ok ==> marks[..] == old(marks[..])
      ensures ok ==> MarksFrom(nodes, children, old(marks[..]), marks[..], r.index) && marks[r.index]
      decreases r.index
    {
      hide GraphOk, MarksFrom, Marking;
      if MetaFor(r).Err? { return false; }
      var index := r.index;
      ghost var was := marks[..];
      if marks[index] {
        AlreadyMarked(nodes, children, was, index);
        return true;
      }
      marks[index] := true;
      assert marks[..] == was[index := true];
      MarkingStarts(nodes, children, was, index);
      var kids := ChildrenOf(nodes[index], children);
      for c := 0 to |kids|
        invariant Marking(nodes, children, was, marks[..], index, c)
      {
        ghost var mid := marks[..];
        ChildSort(nodes, children, SortsOf(meta), index, c);
        var marked := MarkRef(kids[c], marks);
        MarkingStep(nodes, children, was, mid, marks[..], index, c);
      }
      MarkingEnds(nodes, children, was, marks[..], index);
      StaysMarked(nodes, children, was, marks[..], index, |kids|);
      ok := true;
    }

    /** Keeps exactly the nodes the roots reach, in their order, and renumbers all references.
        It fails when a root is not a valid reference, or the nodes kept have too many children. */
    method Compact(roots: seq<NodeRef>) returns (r: Result<Compacted>, ghost live: seq<nat>)
      requires Valid()
      ensures r.Ok? <==>
                (forall k :: 0 <= k < |roots| ==> RefOk(SortsOf(meta), |nodes|, roots[k]))
                  && ArityOf(nodes, live) <= U32_MAX
      ensures (forall k :: 0 <= k < |roots| ==> RefOk(SortsOf(meta), |nodes|, roots[k])) ==>
                Increasing(live, |nodes|) && ReachedFrom(nodes, children, roots, SetOf(live))
                  && ArityOf(nodes, live) <= |children|
      ensures r.Ok? ==> Compacts(nodes, children, SortsOf(meta), blob, roots, r.value, live)
      ensures r.Ok? ==> exists kept: seq<nat> ::
                Compacts(nodes, children, SortsOf(meta), blob, roots, r.value, kept)
      ensures |children| <= U32_MAX ==>
                (r.Ok? <==> forall k :: 0 <= k < |roots| ==> RefOk(SortsOf(meta), |nodes|, roots[k]))
    {
      hide GraphOk, Packed, MarksFrom, MarkedRoots, Renumbers, Copied, Unfold, ReachedFrom, ClosedSet, RefOk;
      var marks := new bool[|nodes|](_ => false);
      live := [];
      NothingMarked(nodes, children, roots, marks[..]);
      for k := 0 to |roots|
        invariant MarkedRoots(nodes, children, roots, k, marks[..])
        invariant forall j :: 0 <= j < k ==> RefOk(SortsOf(meta), |nodes|, roots[j])
      {
        ghost var was := marks[..];
        var ok := MarkRef(roots[k], marks);
        if !ok { return Err(Invalid), live; }
        RootInRange(SortsOf(meta), |nodes|, roots[k]);
        RootMarked(nodes, children, roots, k, was, marks[..]);
      }
      var oldToNew, newToOld;
      oldToNew, newToOld, live := Renumber(marks[..]);
      var newNodes, newChildren := CopyNodes(marks[..], oldToNew, newToOld, live, roots);
      AllRenumbered(nodes, children, SortsOf(meta), roots, marks[..], live, oldToNew, newToOld);
      RenumberOrder(SortsOf(meta), live, marks[..], |nodes|, oldToNew, newToOld);
      if |newNodes| > INDEX_MASK + 1 || |newChildren| > U32_MAX || |blob| > U32_MAX { return Err(Invalid), live; }
      var c := Compacted(newNodes, newChildren, blob, oldToNew, newToOld);
      Finished(nodes, children, SortsOf(meta), blob, roots, marks[..], c, live);
      r := Ok(c);
    }

    /** Numbers the marked nodes in their old order. */
    method Renumber(marks: seq<bool>)
        returns (oldToNew: seq<Option<NodeRef>>, newToOld: map<NodeRef, NodeRef>, ghost live: seq<nat>)
      requires Valid() && |marks| == |nodes|
      ensures Renumbers(SortsOf(meta), live, marks, |nodes|, oldToNew, newToOld)
    {
      hide GraphOk;
      oldToNew, newToOld, live := seq(|nodes|, _ => None), map[], [];
      var nextIndex := 0;
      for oldIndex := 0 to |nodes|
        invariant nextIndex == |live| && Renumbers(SortsOf(meta), live, marks, oldIndex, oldToNew, newToOld)
      {
        hide Renumbers;
        RenumberStep(SortsOf(meta), live, marks, oldIndex, oldToNew, newToOld);
        RenumberLength(SortsOf(meta), live, marks, oldIndex, oldToNew, newToOld);
        if marks[oldIndex] {
          var newRef := NodeRef(meta[oldIndex].sort, nextIndex);
          var oldRef := NodeRef(meta[oldIndex].sort, oldIndex);
          oldToNew := oldToNew[oldIndex := Some(newRef)];
          newToOld := newToOld[newRef := oldRef];
          nextIndex := nextIndex + 1;
          live := live + [oldIndex];
        }
      }
    }

    /** Copies the live nodes, remapping their children. */
    method CopyNodes(marks: seq<bool>, oldToNew: seq<Option<NodeRef>>, ghost newToOld: map<NodeRef, NodeRef>,
                     ghost live: seq<nat>, ghost roots: seq<NodeRef>)
      returns (newNodes: seq<RawNode>, newChildren: seq<NodeRef>)
      requires Valid() && Renumbers(SortsOf(meta), live, marks, |nodes|, oldToNew, newToOld)
      requires MarkedRoots(nodes, children, roots, |roots|, marks)
      ensures Copied(nodes, children, oldToNew, live, |live|, newNodes, newChildren)
      ensures |newNodes| == |live| <= |nodes| && |newChildren| == ArityOf(nodes, live) <= |children|
    {
      hide GraphOk, Packed, Renumbers, MarkedRoots, Copied, ClosedSet, ChildrenOf, CopiedNode, ArityOf;
      newNodes, newChildren := [], [];
      ghost var n := 0;
      CopyStarts(nodes, children, oldToNew, live);
      RenumberEnd(SortsOf(meta), live, marks, |nodes|, oldToNew, newToOld);
      RenumberOrder(SortsOf(meta), live, marks, |nodes|, oldToNew, newToOld);
      NoChildren(nodes, live);
      RootsClosed(nodes, children, roots, marks);
      for oldIndex := 0 to |nodes|
        invariant n <= |live| && Copied(nodes, children, oldToNew, live, n, newNodes, newChildren)
        invariant |newNodes| == n && |newChildren| == ArityOf(nodes, live[..n])
        invariant forall k :: 0 <= k < n ==> live[k] < oldIndex
        invariant forall k :: n <= k < |live| ==> oldIndex <= live[k]
      {
        if !marks[oldIndex] {
          assert oldIndex !in live;
          continue;
        }
        NextLive(SortsOf(meta), live, marks, |nodes|, oldToNew, newToOld, oldIndex, n);
        var oldNode := nodes[oldIndex];
        var kids := RemapChildren(ChildrenOf(oldNode, children), oldToNew, newToOld, live, marks, n);
        var newNode := oldNode.(children := if oldNode.arity == 0 then 0 else |newChildren|);
        // The start fits 32 bits: the original start does, and the copy starts no later.
        CopiesFit(nodes, |children|, live, n);
        assert oldNode.arity > 0 ==> |newChildren| <= U32_MAX;
        ChildCount(nodes, children, SortsOf(meta), oldIndex);
        NodeRemapped(nodes, children, SortsOf(meta), oldIndex, oldToNew, newNode, newChildren, kids);
        CopiedLater(nodes, children, oldToNew, live, n, newNodes, newChildren, newChildren + kids, newNode);
        newChildren := newChildren + kids;
        newNodes := newNodes + [newNode];
        n := n + 1;
      }
      assert live[..|live|] == live;
      CopiesFit(nodes, |children|, live, |live|);
    }

    /** The new references of a node's children; none is missing. */
    method RemapChildren(olds: seq<NodeRef>, oldToNew: seq<Option<NodeRef>>, ghost newToOld: map<NodeRef, NodeRef>,
                         ghost live: seq<nat>, ghost marks: seq<bool>, ghost k: nat) returns (news: seq<NodeRef>)
      requires Valid() && Renumbers(SortsOf(meta), live, marks, |nodes|, oldToNew, newToOld)
      requires ClosedSet(nodes, children, Marked(marks))
      requires k < |live| && live[k] < |nodes| && olds == ChildrenOf(nodes[live[k]], children)
      ensures |news| == |olds| && forall c :: 0 <= c < |olds| ==> RemappedTo(oldToNew, olds[c], news[c])
    {
      hide GraphOk, Renumbers, ClosedSet, ChildrenOf;
      news := [];
      for c := 0 to |olds|
        invariant |news| == c && forall d :: 0 <= d < c ==> RemappedTo(oldToNew, olds[d], news[d])
      {
        ghost var j := ChildRenumbered(nodes, children, SortsOf(meta), marks, live, oldToNew, newToOld, k, c);
        LiveBelow(SortsOf(meta), live, marks, |nodes|, oldToNew, newToOld, j);
        news := news + [oldToNew[olds[c].index].value];
      }
    }
  }

  // --------------------------------------------------------------------- facts for the loops

  lemma {:induction false} MoreChildren(nodes: seq<RawNode>, children: seq<NodeRef>, sorts: seq<WireSort>,
                                        kids: seq<NodeRef>)
    requires GraphOk(nodes, children, sorts)
    ensures GraphOk(nodes, children + kids, sorts)
  {
    var more := children + kids;
    forall i | 0 <= i < |nodes| ensures NodeOk(nodes, more, sorts, i) {
      assert NodeOk(nodes, children, sorts, i);
      assert ChildrenOf(nodes[i], more) == ChildrenOf(nodes[i], children);
    }
  }

  lemma {:induction false} MorePacked(nodes: seq<RawNode>, total: nat, node: RawNode)
    requires Packed(nodes, total) && total <= U32_MAX && node.children == if node.arity == 0 then 0 else total
    ensures Packed(nodes + [node], total + node.arity)
  {}

  lemma {:induction false} MoreNodes(nodes: seq<RawNode>, children: seq<NodeRef>, sorts: seq<WireSort>, node: RawNode,
                                     sort: WireSort, kids: seq<NodeRef>)
    requires GraphOk(nodes, children, sorts) && kids == ChildrenOf(node, children)
    requires node.arity > 0 ==> node.children + node.arity <= |children|
    requires forall c :: 0 <= c < |kids| ==> RefOk(sorts, |nodes|, kids[c])
    ensures GraphOk(nodes + [node], children, sorts + [sort])
  {
    hide ChildrenOf;
    var more, all := nodes + [node], sorts + [sort];
    forall i | 0 <= i < |more| ensures NodeOk(more, children, all, i) {
      if i < |nodes| {
        assert NodeOk(nodes, children, sorts, i);
        assert forall c :: 0 <= c < |ChildrenOf(nodes[i], children)| ==>
            RefOk(sorts, i, ChildrenOf(nodes[i], children)[c]);
      }
    }
  }

  lemma {:induction false} StaysMarked(nodes: seq<RawNode>, children: seq<NodeRef>, was: seq<bool>, now: seq<bool>,
                                       index: nat, done: nat)
    requires Marking(nodes, children, was, now, index, done)
    ensures index < |now| && now[index]
  {}

  lemma {:induction false} RootInRange(sorts: seq<WireSort>, n: nat, r: NodeRef)
    requires RefOk(sorts, n, r)
    ensures r.index < n
  {}

  lemma {:induction false} RenumberLength(sorts: seq<WireSort>, live: seq<nat>, marks: seq<bool>, n: nat,
                                          oldToNew: seq<Option<NodeRef>>, newToOld: map<NodeRef, NodeRef>)
    requires Renumbers(sorts, live, marks, n, oldToNew, newToOld)
    ensures n <= |marks| == |sorts| == |oldToNew|
  {}

  lemma {:induction false} RenumberEnd(sorts: seq<WireSort>, live: seq<nat>, marks: seq<bool>, n: nat,
                                       oldToNew: seq<Option<NodeRef>>, newToOld: map<NodeRef, NodeRef>)
    requires Renumbers(sorts, live, marks, n, oldToNew, newToOld)
    ensures n <= |marks| == |oldToNew| && forall k :: 0 <= k < |live| ==> live[k] < n
    ensures forall i: nat :: i < n ==> (marks[i] <==> i in live)
  {}

  lemma {:induction false} RenumberOrder(sorts: seq<WireSort>, live: seq<nat>, marks: seq<bool>, n: nat,
                                         oldToNew: seq<Option<NodeRef>>, newToOld: map<NodeRef, NodeRef>)
    requires Renumbers(sorts, live, marks, n, oldToNew, newToOld)
    ensures Increasing(live, n) && |live| <= n
  {
    IncreasingLength(live, n);
  }

  lemma {:induction false} IncreasingLength(live: seq<nat>, n: nat)
    requires Increasing(live, n)
    ensures |live| <= n
  {
    if live != [] {
      var last := live[|live| - 1];
      IncreasingLength(live[..|live| - 1], last);
    }
  }

  lemma {:induction false} NoChildren(nodes: seq<RawNode>, live: seq<nat>)
    ensures ArityOf(nodes, live[..0]) == 0
  {}

  lemma {:induction false} ChildCount(nodes: seq<RawNode>, children: seq<NodeRef>, sorts: seq<WireSort>, i: nat)
    requires GraphOk(nodes, children, sorts) && i < |nodes|
    ensures |ChildrenOf(nodes[i], children)| == nodes[i].arity
  {
    assert NodeOk(nodes, children, sorts, i);
  }

  lemma {:induction false} CopyStarts(nodes: seq<RawNode>, children: seq<NodeRef>, oldToNew: seq<Option<NodeRef>>,
                                      live: seq<nat>)
    ensures Copied(nodes, children, oldToNew, live, 0, [], [])
  {}

  lemma {:induction false} RootsClosed(nodes: seq<RawNode>, children: seq<NodeRef>, roots: seq<NodeRef>,
                                       marks: seq<bool>)
    requires MarkedRoots(nodes, children, roots, |roots|, marks)
    ensures ClosedSet(nodes, children, Marked(marks))
  {}

  lemma {:induction false} NextLive(sorts: seq<WireSort>, live: seq<nat>, marks: seq<bool>, n: nat,
                                    oldToNew: seq<Option<NodeRef>>, newToOld: map<NodeRef, NodeRef>, i: nat, k: nat)
    requires Renumbers(sorts, live, marks, n, oldToNew, newToOld) && i < n && marks[i] && k <= |live|
    requires forall j :: 0 <= j < k ==> live[j] < i
    requires forall j :: k <= j < |live| ==> i <= live[j]
    ensures k < |live| && live[k] == i
    ensures forall j :: k + 1 <= j < |live| ==> i + 1 <= live[j]
  {
    assert i in live;
    var j :| 0 <= j < |live| && live[j] == i;
    OrderedIndices(live, n, k, j);
  }

  lemma {:induction false} NodeRemapped(nodes: seq<RawNode>, children: seq<NodeRef>, sorts: seq<WireSort>, i: nat,
                                        oldToNew: seq<Option<NodeRef>>, newNode: RawNode, newChildren: seq<NodeRef>,
                                        kids: seq<NodeRef>)
    requires GraphOk(nodes, children, sorts) && i < |nodes|
    requires newNode == nodes[i].(children := if nodes[i].arity == 0 then 0 else |newChildren|)
    requires |kids| == |ChildrenOf(nodes[i], children)|
    requires forall c :: 0 <= c < |kids| ==> RemappedTo(oldToNew, ChildrenOf(nodes[i], children)[c], kids[c])
    ensures CopiedNode(nodes[i], children, oldToNew, newNode, newChildren + kids)
  {
    hide RemappedTo;
    assert NodeOk(nodes, children, sorts, i);
    assert ChildrenOf(newNode, newChildren + kids) == kids;
  }

  lemma {:induction false} Finished(nodes: seq<RawNode>, children: seq<NodeRef>, sorts: seq<WireSort>, blob: seq<nat>,
                                    roots: seq<NodeRef>, marks: seq<bool>, c: Compacted, live: seq<nat>)
    requires GraphOk(nodes, children, sorts) && MarkedRoots(nodes, children, roots, |roots|, marks)
    requires Renumbers(sorts, live, marks, |nodes|, c.oldToNew, c.newToOld)
    requires Copied(nodes, children, c.oldToNew, live, |live|, c.nodes, c.children) && c.blob == blob
    ensures Compacts(nodes, children, sorts, blob, roots, c, live)
  {
    hide GraphOk, MarkedRoots, Copied, Unfold, ReachedFrom, ClosedSet;
    GraphLength(nodes, children, sorts);
    RootsClosed(nodes, children, roots, marks);
    AllRenumbered(nodes, children, sorts, roots, marks, live, c.oldToNew, c.newToOld);
    CopiedLength(nodes, children, c.oldToNew, live, |live|, c.nodes, c.children);
    NewGraphOk(nodes, children, sorts, marks, live, c.oldToNew, c.newToOld, c.nodes, c.children);
    forall k | 0 <= k < |live| ensures Unfold(c.nodes, c.children, k) == Unfold(nodes, children, live[k]) {
      SameTerm(nodes, children, sorts, marks, live, c.oldToNew, c.newToOld, c.nodes, c.children, k);
    }
    forall o: NodeRef, n: NodeRef
      ensures c.RemapRef(o) == Ok(n) <==>
                n.index < |live| && o == NodeRef(sorts[live[n.index]], live[n.index]) && n.sort == o.sort
      ensures c.RemapRef(o) == Ok(n) <==> c.OriginalRef(n) == Ok(o)
    {
      InverseMaps(sorts, live, marks, c, o, n);
    }
  }

  lemma {:induction false} CopiedLength(nodes: seq<RawNode>, children: seq<NodeRef>, oldToNew: seq<Option<NodeRef>>,
                                        live: seq<nat>, n: nat, newNodes: seq<RawNode>, newChildren: seq<NodeRef>)
    requires Copied(nodes, children, oldToNew, live, n, newNodes, newChildren)
    ensures |newNodes| == n
  {}

  /** Every root is remapped, and its unfolded term is unchanged. */
  lemma {:induction false} RootsKept(nodes: seq<RawNode>, children: seq<NodeRef>, sorts: seq<WireSort>, blob: seq<nat>,
                                     roots: seq<NodeRef>, c: Compacted, live: seq<nat>, k: nat)
    requires Compacts(nodes, children, sorts, blob, roots, c, live) && k < |roots| && RefOk(sorts, |nodes|, roots[k])
    ensures c.RemapRef(roots[k]).Ok?
    ensures var n := c.RemapRef(roots[k]).value;
            && n.sort == roots[k].sort && c.OriginalRef(n) == Ok(roots[k])
            && Unfold(c.nodes, c.children, n.index) == Unfold(nodes, children, roots[k].index)
  {
    hide Unfold, ClosedSet, GraphOk, Compacted.RemapRef, Compacted.OriginalRef;
    var o := roots[k];
    assert o.index in SetOf(live);
    var j :| 0 <= j < |live| && live[j] == o.index;
    var n := NodeRef(o.sort, j);
    assert c.RemapRef(o) == Ok(n) <==> c.OriginalRef(n) == Ok(o);
  }
}
