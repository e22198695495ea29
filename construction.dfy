/** The effect of GenericTree::TreeNode::addChild on the node arena, and how
    it interacts with deleteSubtree. */
module Construction {
  import opened Wrappers
  import opened TreeArena
  import opened Deletion

  /** The arena after p.addChild(data) allocates the node c: c is a leaf
      whose parent is p, appended as p's rightmost slot. */
  function Attach<T>(nodes: Arena<T>, p: NodeId, c: NodeId, data: T): (r: Arena<T>)
    requires p in nodes && c !in nodes
    ensures r.Keys == nodes.Keys + {c}
    ensures r[c] == Node(Some(p), [], data)
    ensures forall n :: n in nodes && n != p ==> r[n] == nodes[n]
    ensures r[p].parent == nodes[p].parent && r[p].data == nodes[p].data
    ensures var old_cs := nodes[p].children;
      |r[p].children| == |old_cs| + 1 &&
      r[p].children[..|old_cs|] == old_cs && r[p].children[|old_cs|] == Some(c)
  {
    var withChild := nodes[c := Node(Some(p), [], data)];
    withChild[p := withChild[p].(children := withChild[p].children + [Some(c)])]
  }

  /** addChild keeps a well-formed tree well-formed, the new node one level
      below its parent. */
  lemma AttachWellFormed<T>(nodes: Arena<T>, root: Option<NodeId>, rank: map<NodeId, nat>,
                            p: NodeId, c: NodeId, data: T)
    requires WellFormed(nodes, root, rank) && p in nodes && c !in nodes
    ensures WellFormed(Attach(nodes, p, c, data), root, rank[c := rank[p] + 1])
  {
    AttachRanked(nodes, rank, p, c, data);
    AttachChildrenLinked(nodes, rank, p, c, data);
    AttachParentsLinked(nodes, rank, p, c, data);
    AttachSlotsDistinct(nodes, rank, p, c, data);
    AttachRoot(nodes, root, rank, p, c, data);
  }

  lemma AttachRoot<T>(nodes: Arena<T>, root: Option<NodeId>, rank: map<NodeId, nat>,
                      p: NodeId, c: NodeId, data: T)
    requires WellFormed(nodes, root, rank) && p in nodes && c !in nodes
    ensures root.Some? && root.value in Attach(nodes, p, c, data)
    ensures Attach(nodes, p, c, data)[root.value].parent.None?
    ensures forall n :: n in Attach(nodes, p, c, data) && Attach(nodes, p, c, data)[n].parent.None? ==> root == Some(n)
  {
    var r := Attach(nodes, p, c, data);
    forall n | n in r && r[n].parent.None? ensures root == Some(n) {
      assert n != c;
      assert r[n].parent == nodes[n].parent;
    }
  }

  lemma AttachRanked<T>(nodes: Arena<T>, rank: map<NodeId, nat>, p: NodeId, c: NodeId, data: T)
    requires Ranked(nodes, rank) && p in nodes && c !in nodes
    ensures Ranked(Attach(nodes, p, c, data), rank[c := rank[p] + 1])
  {
    var r := Attach(nodes, p, c, data);
    forall n | n in r ensures n in nodes ==> r[n].parent == nodes[n].parent {
    }
  }

  lemma AttachChildrenLinked<T>(nodes: Arena<T>, rank: map<NodeId, nat>, p: NodeId, c: NodeId, data: T)
    requires ChildrenLinked(nodes) && p in nodes && c !in nodes
    ensures ChildrenLinked(Attach(nodes, p, c, data))
  {
    var r := Attach(nodes, p, c, data);
    forall x, y {:trigger Some(y) in r[x].children} | x in r && Some(y) in r[x].children ensures y in r && r[y].parent == Some(x) {
      if x == p {
        assert r[p].children == nodes[p].children + [Some(c)];
        if y != c {
          assert Some(y) in nodes[p].children;
        }
      } else {
        assert r[x] == nodes[x];
      }
    }
  }

  lemma AttachParentsLinked<T>(nodes: Arena<T>, rank: map<NodeId, nat>, p: NodeId, c: NodeId, data: T)
    requires Ranked(nodes, rank) && ParentsLinked(nodes) && p in nodes && c !in nodes
    ensures ParentsLinked(Attach(nodes, p, c, data))
  {
    var r := Attach(nodes, p, c, data);
    forall x, y | x in r && y in r && r[x].parent == Some(y) ensures Some(x) in r[y].children {
      if x == c {
        assert r[p].children[|nodes[p].children|] == Some(c);
      } else {
        assert nodes[x].parent == Some(y);
        assert y in nodes;
        assert Some(x) in nodes[y].children;
        if y == p {
          assert r[p].children == nodes[p].children + [Some(c)];
        } else {
          assert r[y] == nodes[y];
        }
      }
    }
  }

  lemma AttachSlotsDistinct<T>(nodes: Arena<T>, rank: map<NodeId, nat>, p: NodeId, c: NodeId, data: T)
    requires ChildrenLinked(nodes) && SlotsDistinct(nodes) && p in nodes && c !in nodes
    ensures SlotsDistinct(Attach(nodes, p, c, data))
  {
    var r := Attach(nodes, p, c, data);
    assert Some(c) !in nodes[p].children;
    forall x | x in r ensures Distinct(r[x].children) {
      if x == p {
        assert multiset(r[p].children) == multiset(nodes[p].children) + multiset{Some(c)} by {
          assert r[p].children == nodes[p].children + [Some(c)];
        }
      } else if x != c {
        assert r[x] == nodes[x];
      }
    }
  }

  /** A node's parent chain does not change when a new leaf is attached. */
  lemma {:induction false} AttachKeepsAncestors<T>(nodes: Arena<T>, rank: map<NodeId, nat>,
                                                   p: NodeId, c: NodeId, data: T, n: NodeId)
    requires Ranked(nodes, rank) && p in nodes && c !in nodes && n in nodes
    requires Ranked(Attach(nodes, p, c, data), rank[c := rank[p] + 1])
    ensures Ancestors(Attach(nodes, p, c, data), rank[c := rank[p] + 1], n) == Ancestors(nodes, rank, n)
    decreases rank[n]
  {
    match nodes[n].parent
    case None =>
    case Some(q) => AttachKeepsAncestors(nodes, rank, p, c, data, q);
  }

  /** Deleting a freshly added child leaves a tombstone in the parent's
      last slot and restores the arena otherwise. */
  lemma AttachThenDelete<T>(nodes: Arena<T>, root: Option<NodeId>, rank: map<NodeId, nat>,
                            p: NodeId, c: NodeId, data: T)
    requires WellFormed(nodes, root, rank) && p in nodes && c !in nodes
    ensures Linked(Attach(nodes, p, c, data), rank[c := rank[p] + 1])
    ensures AfterDelete(Attach(nodes, p, c, data), rank[c := rank[p] + 1], c) ==
      nodes[p := Node(nodes[p].parent, nodes[p].children + [None], nodes[p].data)]
  {
    AttachWellFormed(nodes, root, rank, p, c, data);
    AttachDelete(nodes, rank, p, c, data);
  }

  lemma AttachDelete<T>(nodes: Arena<T>, rank: map<NodeId, nat>, p: NodeId, c: NodeId, data: T)
    requires Ranked(nodes, rank) && ChildrenLinked(nodes) && p in nodes && c !in nodes
    requires Linked(Attach(nodes, p, c, data), rank[c := rank[p] + 1])
    ensures AfterDelete(Attach(nodes, p, c, data), rank[c := rank[p] + 1], c) ==
      nodes[p := Node(nodes[p].parent, nodes[p].children + [None], nodes[p].data)]
  {
    var a := Attach(nodes, p, c, data);
    var rank' := rank[c := rank[p] + 1];
    var r := AfterDelete(a, rank', c);
    var cs := nodes[p].children;
    assert a[c].children == [];
    DeleteLeaf(a, rank', c);
    DeleteKeepsOthers(a, rank', c);
    assert Some(c) !in cs;
    assert a[p].children == cs + [Some(c)];
    DeleteLastSlot(a, rank', c, p, cs);
    assert a.Keys - {c} == nodes.Keys;
    SameExceptAt(r, nodes, p, Node(nodes[p].parent, cs + [None], nodes[p].data));
  }

  /** An arena that differs from nodes at most at p is nodes with p updated. */
  lemma SameExceptAt<T>(r: Arena<T>, nodes: Arena<T>, p: NodeId, v: Node<T>)
    requires p in nodes && r.Keys == nodes.Keys && r[p] == v
    requires forall n :: n in r && n != p ==> r[n] == nodes[n]
    ensures r == nodes[p := v]
  {
    SameMap(r, nodes[p := v]);
  }

}
