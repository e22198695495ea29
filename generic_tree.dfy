/** GenericTree<T>: an ordered N-ary tree whose nodes live in an arena of
    ids. A node id stands for a TreeNode pointer, a None child slot for a
    null entry left in childrenPtrs by deleteSubtree. */
module GenericTrees {
  import opened Wrappers
  import opened TreeArena
  import opened Deletion
  import opened Construction
  import opened Compaction
  import opened Rendering

  /** The runtime_error outcomes: a second createRoot, and deleteSubtree
      given a node of another tree. */
  datatype TreeError = RootAlreadyExists | NodeOfAnotherTree

  /** A TreeNode pointer as a caller holds it: the tree whose arena owns the
      node, and the node's id in that arena. */
  datatype NodeRef<T> = NodeRef(tree: GenericTree<T>, id: NodeId)

  /** A well-formed arena whose ids are all below the next id to allocate. */
  ghost predicate Allocated<T>(nodes: Arena<T>, root: Option<NodeId>, rank: map<NodeId, nat>, nextId: nat) {
    WellFormed(nodes, root, rank) && forall n :: n in nodes ==> n < nextId
  }

  /** addChild keeps the arena allocated below the next id. */
  lemma AttachAllocated<T>(nodes: Arena<T>, root: Option<NodeId>, rank: map<NodeId, nat>, nextId: nat,
                           p: NodeId, data: T)
    requires Allocated(nodes, root, rank, nextId) && p in nodes
    ensures nextId !in nodes
    ensures Allocated(Attach(nodes, p, nextId, data), root, rank[nextId := rank[p] + 1], nextId + 1)
  {
    AttachWellFormed(nodes, root, rank, p, nextId, data);
  }

  /** deleteSubtree keeps the arena well-formed and allocated below the
      next id. */
  lemma DeleteAllocated<T>(nodes: Arena<T>, root: Option<NodeId>, rank: map<NodeId, nat>, nextId: nat, t: NodeId)
    requires Allocated(nodes, root, rank, nextId) && t in nodes
    ensures Allocated(AfterDelete(nodes, rank, t), if root == Some(t) then None else root, rank, nextId)
  {
    DeleteWellFormed(nodes, root, rank, t);
  }

  class GenericTree<T> {
    /** The live nodes. */
    var nodes: Arena<T>
    /** rootNodePtr. */
    var root: Option<NodeId>
    /** The id the next allocated node receives. */
    var nextId: nat
    /** The depth of every node; it orders the parent chains. */
    ghost var rank: map<NodeId, nat>

    ghost predicate Valid()
      reads this
    {
      Allocated(nodes, root, rank, nextId)
    }

    /** GenericTree(): an empty tree. */
    constructor ()
      ensures Valid() && nodes == map[] && root.None?
    {
      nodes := map[];
      root := None;
      nextId := 0;
      rank := map[];
    }

    /** GenericTree(rootData): an empty tree, then createRoot(rootData). */
    constructor WithRoot(rootData: T)
      ensures Valid() && root.Some? && nodes == map[root.value := Node(None, [], rootData)]
    {
      nodes := map[];
      root := None;
      nextId := 0;
      rank := map[];
      new;
      var created := CreateRoot(rootData);
    }

    /** createRoot: fails when a root exists and changes nothing; otherwise
        the tree becomes a single parentless node holding rootData. */
    method CreateRoot(rootData: T) returns (r: Result<NodeId, TreeError>)
      requires Valid()
      modifies this
      ensures Valid()
      ensures old(root).Some? ==> r == Failure(RootAlreadyExists) && unchanged(this)
      ensures old(root).None? ==>
        r.Success? && r.value !in old(nodes) && root == Some(r.value) &&
        nodes == map[r.value := Node(None, [], rootData)]
    {
      if root.Some? {
        return Failure(RootAlreadyExists);
      }
      var id := nextId;
      nextId := nextId + 1;
      nodes := map[id := Node(None, [], rootData)];
      rank := map[id := 0];
      root := Some(id);
      return Success(id);
    }

    /** addChild. */
    method AddChild(parent: NodeId, childData: T) returns (child: NodeId)
      requires Valid() && parent in nodes
      modifies this`nodes, this`rank, this`nextId
      ensures Valid()
      ensures child !in old(nodes) && nodes == Attach(old(nodes), parent, child, childData)
    {
      child := nextId;
      var grown;
      ghost var rank';
      grown, rank' := AttachInArena(nodes, root, rank, nextId, parent, childData);
      nodes, rank, nextId := grown, rank', nextId + 1;
    }

    /** deleteSubtree: a null target is a no-op; a node of another tree is
        refused with nothing changed; otherwise the target's slot in its
        parent is nulled and the target with all its descendants is
        destroyed, and the root is reset when it was the target. */
    method DeleteSubtree(target: Option<NodeRef<T>>) returns (r: Result<(), TreeError>)
      requires Valid()
      requires target.Some? ==> target.value.tree.Valid() && target.value.id in target.value.tree.nodes
      modifies this`nodes, this`root
      ensures Valid()
      ensures target.None? ==> r == Success(()) && unchanged(this)
      ensures target.Some? && target.value.tree != this ==> r == Failure(NodeOfAnotherTree) && unchanged(this)
      ensures target.Some? && target.value.tree == this ==>
        r == Success(()) &&
        nodes == AfterDelete(old(nodes), old(rank), target.value.id) &&
        root == (if old(root) == Some(target.value.id) then None else old(root))
    {
      if target.None? {
        return Success(());
      }
      var tree := target.value.tree;
      r, nodes, root := DeleteChecked(nodes, root, rank, nextId, tree.nodes, tree.rank, tree == this, target.value.id);
    }

    /** clear: deleteSubtree on the root; afterwards the tree is empty. */
    method Clear()
      requires Valid()
      modifies this`nodes, this`root
      ensures Valid() && root.None? && nodes == map[]
    {
      var target := if root.None? then None else Some(NodeRef(this, root.value));
      if root.Some? {
        DeleteRootEmpties(nodes, root, rank);
      }
      var r := DeleteSubtree(target);
      if root.Some? {
        // deleteSubtree always resets the root it was given.
        assert false;
      }
    }

    /** compress: on an empty tree nothing happens; otherwise every child
        vector of the tree loses its null slots. */
    method Compress()
      requires Valid()
      modifies this`nodes
      ensures Valid() && nodes == Compacted(old(nodes))
    {
      if root.None? {
        return;
      }
      nodes := CompressArena(nodes, root, rank, nextId);
    }

    /** Print: the text drawn for the tree, each payload shown by show. */
    method Print(show: T -> string) returns (out: string)
      requires Valid()
      ensures out == Rendered(nodes, root, rank, show)
      ensures root.None? ==> out == "[empty tree]\n"
    {
      out := RenderArena(nodes, root, rank, show);
    }
  }

  /** addChild on the arena: the node nextId becomes the rightmost child of
      parent, one level below it. */
  method AttachInArena<T>(nodes: Arena<T>, root: Option<NodeId>, ghost rank: map<NodeId, nat>, nextId: nat,
                          parent: NodeId, childData: T)
    returns (grown: Arena<T>, ghost rank': map<NodeId, nat>)
    requires Allocated(nodes, root, rank, nextId) && parent in nodes
    ensures nextId !in nodes && grown == Attach(nodes, parent, nextId, childData)
    ensures Allocated(grown, root, rank', nextId + 1)
  {
    AttachAllocated(nodes, root, rank, nextId, parent, childData);
    grown, rank' := Attach(nodes, parent, nextId, childData), rank[nextId := rank[parent] + 1];
  }

  /** deleteSubtree given a node t of the tree whose arena is links, which
      is this tree's arena exactly when sameTree holds: the walk from t
      must reach this tree's root, or nothing changes. */
  method DeleteChecked<T>(nodes: Arena<T>, root: Option<NodeId>, ghost rank: map<NodeId, nat>, nextId: nat,
                          links: Arena<T>, ghost linksRank: map<NodeId, nat>, sameTree: bool, t: NodeId)
    returns (r: Result<(), TreeError>, remaining: Arena<T>, newRoot: Option<NodeId>)
    requires Allocated(nodes, root, rank, nextId)
    requires Ranked(links, linksRank) && t in links
    requires sameTree ==> links == nodes && linksRank == rank
    ensures Allocated(remaining, newRoot, rank, nextId)
    ensures !sameTree ==> r == Failure(NodeOfAnotherTree) && remaining == nodes && newRoot == root
    ensures sameTree ==>
      r == Success(()) && remaining == AfterDelete(nodes, rank, t) &&
      newRoot == (if root == Some(t) then None else root)
  {
    // Walk back from the target to the parentless node of its tree.
    var top := TopOf(links, linksRank, t);
    // A pointer is the pair (tree, id): the walk must end at this root.
    if !sameTree || root != Some(top) {
      return Failure(NodeOfAnotherTree), nodes, root;
    }
    remaining, newRoot := DeleteInArena(nodes, root, rank, nextId, t);
    r := Success(());
  }

  /** The walk of deleteSubtree up the parent pointers from t: it ends at
      the parentless node above t, which in a well-formed tree is the
      root. */
  method TopOf<T>(links: Arena<T>, ghost rank: map<NodeId, nat>, t: NodeId) returns (top: NodeId)
    requires Ranked(links, rank) && t in links
    ensures top in links && top in Ancestors(links, rank, t) && links[top].parent.None?
  {
    top := t;
    while links[top].parent.Some?
      invariant top in links && Ancestors(links, rank, top) <= Ancestors(links, rank, t)
      decreases rank[top]
    {
      top := links[top].parent.value;
    }
  }

  /** deleteSubtree past its checks, on the arena: t is a node of the tree,
      which loses t's subtree and, when t was its root, its root. */
  method DeleteInArena<T>(nodes: Arena<T>, root: Option<NodeId>, ghost rank: map<NodeId, nat>, nextId: nat, t: NodeId)
    returns (remaining: Arena<T>, newRoot: Option<NodeId>)
    requires Allocated(nodes, root, rank, nextId) && t in nodes
    ensures remaining == AfterDelete(nodes, rank, t)
    ensures newRoot == (if root == Some(t) then None else root)
    ensures Allocated(remaining, newRoot, rank, nextId)
  {
    var targetingWholeTreeRoot := root == Some(t);
    remaining := RemoveSubtree(nodes, rank, t);
    DeleteAllocated(nodes, root, rank, nextId, t);
    newRoot := if targetingWholeTreeRoot then None else root;
  }

  /** The arena part of deleteSubtree once the target is known to be in
      this tree: null its slot, explore its subtree, destroy what was
      explored. */
  method RemoveSubtree<T>(nodes: Arena<T>, ghost rank: map<NodeId, nat>, t: NodeId) returns (remaining: Arena<T>)
    requires Linked(nodes, rank) && t in nodes
    ensures remaining == AfterDelete(nodes, rank, t)
  {
    var detached := NullSlot(nodes, rank, t);
    DetachKeepsSubtree(nodes, rank, t);
    var nodesToDelete := ExploreSubtree(detached, nodes, rank, t);
    remaining := DestroyAll(detached, nodesToDelete);
    AfterDeleteOf(nodes, rank, t, remaining);
  }

  /** The tombstone step of deleteSubtree: the slot of t in its parent's
      children becomes None; a parentless t has no slot. */
  method NullSlot<T>(nodes: Arena<T>, ghost rank: map<NodeId, nat>, t: NodeId) returns (detached: Arena<T>)
    requires Linked(nodes, rank) && t in nodes
    ensures detached == Detach(nodes, rank, t)
  {
    detached := nodes;
    if nodes[t].parent.Some? {
      var p := nodes[t].parent.value;
      var cs := nodes[p].children;
      assert Some(t) in cs;
      var i := 0;
      while i < |cs| && cs[i] != Some(t)
        invariant i <= |cs|
        invariant forall j :: 0 <= j < i ==> cs[j] != Some(t)
      {
        i := i + 1;
      }
      if i == |cs| {
        // The target is always listed by its parent.
        assert false;
      }
      assert i == FirstSlot(cs, t);
      detached := nodes[p := nodes[p].(children := cs[i := None])];
    }
  }

  /** The explore loop of deleteSubtree: a stack walk from t that skips
      null slots and lists every node below t exactly once. It reads only
      the nodes of t's subtree, which the tombstone step left as they
      were in nodes0. */
  method ExploreSubtree<T>(nodes: Arena<T>, ghost nodes0: Arena<T>, ghost rank: map<NodeId, nat>, t: NodeId)
    returns (nodesToDelete: seq<NodeId>)
    requires Linked(nodes0, rank) && t in nodes0
    requires forall x :: x in Subtree(nodes0, rank, t) ==> x in nodes && nodes[x] == nodes0[x]
    ensures forall x :: x in nodesToDelete <==> x in Subtree(nodes0, rank, t)
    ensures forall i, j :: 0 <= i < j < |nodesToDelete| ==> nodesToDelete[i] != nodesToDelete[j]
  {
    ghost var subtree := Subtree(nodes0, rank, t);
    SubtreeDownClosed(nodes0, rank, t);
    FrontierStart(nodes0, t, subtree);
    var nodesToExplore: seq<Option<NodeId>> := [Some(t)];
    nodesToDelete := [];
    ghost var explored: set<NodeId> := {};
    while nodesToExplore != []
      invariant Frontier(nodes0, t, subtree, explored, nodesToExplore)
      invariant forall x :: x in nodesToDelete <==> x in explored
      invariant forall i, j :: 0 <= i < j < |nodesToDelete| ==> nodesToDelete[i] != nodesToDelete[j]
      decreases subtree - explored, |nodesToExplore|
    {
      nodesToExplore, nodesToDelete, explored :=
        ExploreStep(nodes, nodes0, rank, t, subtree, explored, nodesToExplore, nodesToDelete);
    }
    FrontierComplete(nodes0, rank, t, explored);
  }

  /** One round of the explore loop: pop the last slot; drop it when it is
      null, otherwise list its node for deletion and push the node's child
      slots. */
  method ExploreStep<T>(nodes: Arena<T>, ghost nodes0: Arena<T>, ghost rank: map<NodeId, nat>, t: NodeId,
                        ghost subtree: set<NodeId>, ghost explored: set<NodeId>,
                        nodesToExplore: seq<Option<NodeId>>, nodesToDelete: seq<NodeId>)
    returns (work: seq<Option<NodeId>>, listed: seq<NodeId>, ghost visited: set<NodeId>)
    requires DownClosed(nodes0, t, subtree) && SlotsDistinct(nodes0)
    requires forall x :: x in subtree ==> x in nodes && nodes[x] == nodes0[x]
    requires nodesToExplore != [] && Frontier(nodes0, t, subtree, explored, nodesToExplore)
    requires forall x :: x in nodesToDelete <==> x in explored
    requires forall i, j :: 0 <= i < j < |nodesToDelete| ==> nodesToDelete[i] != nodesToDelete[j]
    ensures Frontier(nodes0, t, subtree, visited, work)
    ensures forall x :: x in listed <==> x in visited
    ensures forall i, j :: 0 <= i < j < |listed| ==> listed[i] != listed[j]
    ensures (visited == explored && |work| < |nodesToExplore|) || explored < visited <= subtree
  {
    var curNode := nodesToExplore[|nodesToExplore| - 1];
    var rest := nodesToExplore[..|nodesToExplore| - 1];
    PopLast(nodesToExplore);
    if curNode.None? {
      FrontierSkip(nodes0, t, subtree, explored, nodesToExplore, rest);
      work, listed, visited := rest, nodesToDelete, explored;
    } else {
      var c := curNode.value;
      FrontierVisit(nodes0, t, subtree, explored, nodesToExplore, c, rest, nodes0[c].children);
      listed := nodesToDelete + [c];
      work := PushSlots(rest, nodes[c].children);
      visited := explored + {c};
    }
  }

  /** Pushes the slots of cs, in order, onto a work list. */
  method PushSlots(work: seq<Option<NodeId>>, cs: seq<Option<NodeId>>) returns (pushed: seq<Option<NodeId>>)
    ensures pushed == work + cs
  {
    pushed := work;
    for k := 0 to |cs|
      invariant pushed == work + cs[..k]
    {
      pushed := pushed + [cs[k]];
    }
    assert cs[..|cs|] == cs;
  }

  /** The delete loop of deleteSubtree: destroys the listed nodes, the last
      listed first. */
  method DestroyAll<T>(live: Arena<T>, nodesToDelete: seq<NodeId>) returns (remaining: Arena<T>)
    ensures forall n :: n in remaining <==> n in live && n !in nodesToDelete
    ensures forall n :: n in remaining ==> remaining[n] == live[n]
  {
    remaining := live;
    var stack := nodesToDelete;
    while stack != []
      invariant |stack| <= |nodesToDelete| && stack == nodesToDelete[..|stack|]
      invariant forall n :: n in remaining <==> n in live && n !in nodesToDelete[|stack|..]
      invariant forall n :: n in remaining ==> remaining[n] == live[n]
    {
      var curNode := stack[|stack| - 1];
      assert nodesToDelete[|stack| - 1..] == [curNode] + nodesToDelete[|stack|..];
      stack := stack[..|stack| - 1];
      remaining := remaining - {curNode};
    }
    assert nodesToDelete[0..] == nodesToDelete;
  }

  /** compress past its empty-tree check: a breadth-first pass from the
      root whose queue only ever holds live slots; each dequeued node's
      child vector is replaced by its live slots. */
  method CompressArena<T>(nodes: Arena<T>, root: Option<NodeId>, ghost rank: map<NodeId, nat>, nextId: nat)
    returns (compressed: Arena<T>)
    requires Allocated(nodes, root, rank, nextId) && root.Some?
    ensures compressed == Compacted(nodes)
    ensures Allocated(compressed, root, rank, nextId)
  {
    var r := root.value;
    ghost var all := Subtree(nodes, rank, r);
    SubtreeOfRoot(nodes, root, rank);
    SubtreeDownClosed(nodes, rank, r);
    FrontierStart(nodes, r, all);
    var nodesToExplore: seq<Option<NodeId>> := [Some(r)];
    compressed := nodes;
    ghost var explored: set<NodeId> := {};
    while nodesToExplore != []
      invariant Frontier(nodes, r, all, explored, nodesToExplore)
      invariant None !in nodesToExplore
      invariant compressed == CompactedOn(nodes, explored)
      decreases all - explored
    {
      compressed, nodesToExplore, explored := CompressStep(nodes, rank, r, all, explored, compressed, nodesToExplore);
    }
    FrontierComplete(nodes, rank, r, explored);
    CompactedWellFormed(nodes, root, rank);
  }

  /** One round of the compress loop: dequeue the front node, build its
      compressed child vector while queueing its live children, and swap
      the new vector in. */
  method CompressStep<T>(ghost nodes: Arena<T>, ghost rank: map<NodeId, nat>, r: NodeId, ghost all: set<NodeId>,
                         ghost explored: set<NodeId>, current: Arena<T>, nodesToExplore: seq<Option<NodeId>>)
    returns (compressed: Arena<T>, queue: seq<Option<NodeId>>, ghost visited: set<NodeId>)
    requires DownClosed(nodes, r, all) && SlotsDistinct(nodes)
    requires nodesToExplore != [] && Frontier(nodes, r, all, explored, nodesToExplore)
    requires None !in nodesToExplore
    requires current == CompactedOn(nodes, explored)
    ensures Frontier(nodes, r, all, visited, queue)
    ensures None !in queue
    ensures compressed == CompactedOn(nodes, visited)
    ensures explored < visited <= all
  {
    var frontNode := nodesToExplore[0];
    var rest := nodesToExplore[1..];
    if frontNode.None? {
      // Only live slots are ever queued.
      assert false;
    }
    var c := frontNode.value;
    CompressVisit(nodes, r, all, explored, nodesToExplore, c, rest);
    var compressedChildrenPtrs;
    compressedChildrenPtrs, queue := FilterChildren(current[c].children, rest);
    compressed := current[c := current[c].(children := compressedChildrenPtrs)];
    CompactedOnStep(nodes, explored, c);
    visited := explored + {c};
  }

  /** The inner loop of compress: the live slots of cs in order, each also
      appended to the queue. */
  method FilterChildren(cs: seq<Option<NodeId>>, rest: seq<Option<NodeId>>)
    returns (compressedChildrenPtrs: seq<Option<NodeId>>, queue: seq<Option<NodeId>>)
    ensures compressedChildrenPtrs == Compact(cs)
    ensures queue == rest + compressedChildrenPtrs
  {
    compressedChildrenPtrs := [];
    queue := rest;
    for k := 0 to |cs|
      invariant compressedChildrenPtrs == Compact(cs[..k])
      invariant queue == rest + compressedChildrenPtrs
    {
      var slot := cs[k];
      CompactPrefix(cs, k);
      if slot.Some? {
        Assoc(rest, compressedChildrenPtrs, [slot]);
        compressedChildrenPtrs := compressedChildrenPtrs + [slot];
        queue := queue + [slot];
      } else {
        assert Compact(cs[..k + 1]) == compressedChildrenPtrs + [];
      }
    }
    assert cs[..|cs|] == cs;
  }

}
