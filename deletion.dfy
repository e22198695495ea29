/** The effect of GenericTree::deleteSubtree on the node arena: the target's
    slot in its parent becomes a tombstone, and the target together with
    every node below it leaves the arena. */
module Deletion {
  import opened Wrappers
  import opened TreeArena

  /** The index of the first slot holding x. */
  function FirstSlot(s: seq<Option<NodeId>>, x: NodeId): (k: nat)
    requires Some(x) in s
    ensures k < |s| && s[k] == Some(x)
    ensures forall j :: 0 <= j < k ==> s[j] != Some(x)
  {
    if s[0] == Some(x) then 0 else 1 + FirstSlot(s[1..], x)
  }

  /** Nulling the only slot that holds t removes t from the live slots,
      keeps every other slot, and keeps the live slots distinct. */
  lemma Tombstone(cs: seq<Option<NodeId>>, k: nat, t: NodeId)
    requires Distinct(cs) && k < |cs| && cs[k] == Some(t)
    ensures |cs[k := None]| == |cs|
    ensures forall j :: 0 <= j < |cs| ==> cs[k := None][j] == if cs[j] == Some(t) then None else cs[j]
    ensures forall x :: Some(x) in cs[k := None] <==> Some(x) in cs && x != t
    ensures Distinct(cs[k := None])
  {
    var ds := cs[k := None];
    assert multiset(ds) == multiset(cs) - multiset{Some(t)} + multiset{None};
    forall x ensures Some(x) in ds <==> Some(x) in cs && x != t {
      assert multiset(ds)[Some(x)] == multiset(cs)[Some(x)] - (if x == t then 1 else 0);
    }
  }

  /** The arena after the tombstone step: where t has a parent, the first
      slot of that parent holding t becomes None. */
  ghost function Detach<T>(nodes: Arena<T>, rank: map<NodeId, nat>, t: NodeId): (d: Arena<T>)
    requires Linked(nodes, rank) && t in nodes
    ensures d.Keys == nodes.Keys
  {
    match nodes[t].parent
    case None => nodes
    case Some(p) =>
      var cs := nodes[p].children;
      assert Some(t) in cs;
      nodes[p := nodes[p].(children := cs[FirstSlot(cs, t) := None])]
  }

  /** The tombstone step changes no parent and no payload, and no node but
      t's parent. */
  lemma DetachOthers<T>(nodes: Arena<T>, rank: map<NodeId, nat>, t: NodeId)
    requires Linked(nodes, rank) && t in nodes
    ensures forall n :: n in nodes ==>
      Detach(nodes, rank, t)[n].parent == nodes[n].parent && Detach(nodes, rank, t)[n].data == nodes[n].data
    ensures forall n :: n in nodes && nodes[t].parent != Some(n) ==> Detach(nodes, rank, t)[n] == nodes[n]
  {
  }

  /** In t's parent the slot holding t becomes None; the vector keeps its
      length and every other slot. */
  lemma DetachSlots<T>(nodes: Arena<T>, rank: map<NodeId, nat>, t: NodeId)
    requires Linked(nodes, rank) && t in nodes && nodes[t].parent.Some?
    ensures var p := nodes[t].parent.value;
      var cs := nodes[p].children;
      p in nodes && |Detach(nodes, rank, t)[p].children| == |cs| &&
      forall j :: 0 <= j < |cs| ==> Detach(nodes, rank, t)[p].children[j] == if cs[j] == Some(t) then None else cs[j]
  {
    var p := nodes[t].parent.value;
    var cs := nodes[p].children;
    assert Some(t) in cs;
    Tombstone(cs, FirstSlot(cs, t), t);
  }

  /** After the tombstone step, t is in no live slot, every other live slot
      is kept, and the live slots of each node stay distinct. */
  lemma DetachLive<T>(nodes: Arena<T>, rank: map<NodeId, nat>, t: NodeId)
    requires Linked(nodes, rank) && t in nodes
    ensures forall n, x :: n in nodes ==>
      (Some(x) in Detach(nodes, rank, t)[n].children <==> Some(x) in nodes[n].children && x != t)
    ensures SlotsDistinct(Detach(nodes, rank, t))
  {
    var d := Detach(nodes, rank, t);
    forall n, x | n in nodes
      ensures Some(x) in d[n].children <==> Some(x) in nodes[n].children && x != t
      ensures Distinct(d[n].children)
    {
      if nodes[t].parent == Some(n) {
        var cs := nodes[n].children;
        assert Some(t) in cs;
        Tombstone(cs, FirstSlot(cs, t), t);
      } else {
        assert d[n] == nodes[n];
        assert Some(t) !in nodes[n].children;
      }
    }
  }

  /** The arena after deleteSubtree(t): exactly the nodes whose parent chain
      does not pass through t survive. */
  ghost function AfterDelete<T>(nodes: Arena<T>, rank: map<NodeId, nat>, t: NodeId): (r: Arena<T>)
    requires Linked(nodes, rank) && t in nodes
    ensures forall n :: n in r <==> n in nodes && t !in Ancestors(nodes, rank, n)
  {
    var d := Detach(nodes, rank, t);
    map n | n in d && n !in Subtree(nodes, rank, t) :: d[n]
  }

  /** Every survivor except t's parent is unchanged by the deletion. */
  lemma DeleteKeepsOthers<T>(nodes: Arena<T>, rank: map<NodeId, nat>, t: NodeId)
    requires Linked(nodes, rank) && t in nodes
    ensures forall n :: n in AfterDelete(nodes, rank, t) && nodes[t].parent != Some(n) ==>
      AfterDelete(nodes, rank, t)[n] == nodes[n]
  {
    DetachOthers(nodes, rank, t);
  }

  /** t's parent survives with t's slot nulled, the same number of slots,
      every other slot, and the same parent and payload. */
  lemma DeleteTombstones<T>(nodes: Arena<T>, rank: map<NodeId, nat>, t: NodeId)
    requires Linked(nodes, rank) && t in nodes && nodes[t].parent.Some?
    ensures var p := nodes[t].parent.value;
      var cs := nodes[p].children;
      var r := AfterDelete(nodes, rank, t);
      p in r && r[p].parent == nodes[p].parent && r[p].data == nodes[p].data &&
      |r[p].children| == |cs| &&
      forall j :: 0 <= j < |cs| ==> r[p].children[j] == if cs[j] == Some(t) then None else cs[j]
  {
    ParentOutside(nodes, rank, t);
    DetachOthers(nodes, rank, t);
    DetachSlots(nodes, rank, t);
  }

  /** t's parent is not below t. */
  lemma ParentOutside<T>(nodes: Arena<T>, rank: map<NodeId, nat>, t: NodeId)
    requires Ranked(nodes, rank) && t in nodes
    ensures nodes[t].parent.Some? ==> nodes[t].parent.value !in Subtree(nodes, rank, t)
  {
    if nodes[t].parent.Some? {
      AncestorsAbove(nodes, rank, nodes[t].parent.value);
    }
  }

  /** The parent of a surviving node survives. */
  lemma SurvivorParent<T>(nodes: Arena<T>, rank: map<NodeId, nat>, t: NodeId, n: NodeId)
    requires Linked(nodes, rank) && t in nodes
    requires n in AfterDelete(nodes, rank, t) && nodes[n].parent.Some?
    ensures nodes[n].parent.value in AfterDelete(nodes, rank, t)
  {
    var p := nodes[n].parent.value;
    assert Ancestors(nodes, rank, n) == {n} + Ancestors(nodes, rank, p);
  }

  /** Deletion keeps the parent chains of the survivors. */
  lemma DeleteRanked<T>(nodes: Arena<T>, rank: map<NodeId, nat>, t: NodeId)
    requires Linked(nodes, rank) && t in nodes
    ensures Ranked(AfterDelete(nodes, rank, t), rank)
  {
    var r := AfterDelete(nodes, rank, t);
    DetachOthers(nodes, rank, t);
    forall n | n in r && r[n].parent.Some? ensures r[n].parent.value in r {
      SurvivorParent(nodes, rank, t, n);
    }
  }

  /** A live slot of a survivor names a survivor that is its child. */
  lemma DeleteChildrenLinked<T>(nodes: Arena<T>, rank: map<NodeId, nat>, t: NodeId)
    requires Linked(nodes, rank) && t in nodes
    ensures ChildrenLinked(AfterDelete(nodes, rank, t))
  {
    var r := AfterDelete(nodes, rank, t);
    forall p, c {:trigger Some(c) in r[p].children} | p in r && Some(c) in r[p].children ensures c in r && r[c].parent == Some(p) {
      SurvivorChild(nodes, rank, t, p, c);
    }
  }

  lemma SurvivorChild<T>(nodes: Arena<T>, rank: map<NodeId, nat>, t: NodeId, p: NodeId, c: NodeId)
    requires Linked(nodes, rank) && t in nodes
    requires p in AfterDelete(nodes, rank, t) && Some(c) in AfterDelete(nodes, rank, t)[p].children
    ensures c in AfterDelete(nodes, rank, t) && AfterDelete(nodes, rank, t)[c].parent == Some(p)
  {
    var d := Detach(nodes, rank, t);
    assert AfterDelete(nodes, rank, t)[p] == d[p];
    DetachLive(nodes, rank, t);
    assert Some(c) in nodes[p].children && c != t;
    ChildOutside(nodes, rank, t, p, c);
    DetachOthers(nodes, rank, t);
  }

  /** A live child of a node outside t's subtree, other than t, is outside
      it too. */
  lemma ChildOutside<T>(nodes: Arena<T>, rank: map<NodeId, nat>, t: NodeId, p: NodeId, c: NodeId)
    requires Linked(nodes, rank)
    requires p in nodes && t !in Ancestors(nodes, rank, p) && Some(c) in nodes[p].children && c != t
    ensures c in nodes && nodes[c].parent == Some(p) && t !in Ancestors(nodes, rank, c)
  {
  }

  /** A survivor's surviving parent still lists it. */
  lemma DeleteParentsLinked<T>(nodes: Arena<T>, rank: map<NodeId, nat>, t: NodeId)
    requires Linked(nodes, rank) && t in nodes
    ensures ParentsLinked(AfterDelete(nodes, rank, t))
  {
    var r := AfterDelete(nodes, rank, t);
    var d := Detach(nodes, rank, t);
    DetachOthers(nodes, rank, t);
    DetachLive(nodes, rank, t);
    forall c, p | c in r && p in r && r[c].parent == Some(p) ensures Some(c) in r[p].children {
      assert r[p] == d[p] && r[c] == d[c];
      assert c != t;
    }
  }

  /** Deletion keeps the child slots of every survivor distinct. */
  lemma DeleteSlotsDistinct<T>(nodes: Arena<T>, rank: map<NodeId, nat>, t: NodeId)
    requires Linked(nodes, rank) && t in nodes
    ensures SlotsDistinct(AfterDelete(nodes, rank, t))
  {
    var r := AfterDelete(nodes, rank, t);
    var d := Detach(nodes, rank, t);
    DetachLive(nodes, rank, t);
    forall p | p in r ensures Distinct(r[p].children) {
      assert r[p] == d[p];
    }
  }

  /** Deleting the root empties the arena. */
  lemma DeleteRootEmpties<T>(nodes: Arena<T>, root: Option<NodeId>, rank: map<NodeId, nat>)
    requires WellFormed(nodes, root, rank) && root.Some?
    ensures AfterDelete(nodes, rank, root.value) == map[]
  {
    var r := AfterDelete(nodes, rank, root.value);
    if r != map[] {
      var n :| n in r;
      RootIsAncestor(nodes, root, rank, n);
      assert false;
    }
  }

  /** Deletion keeps the pointer graph of the survivors consistent. */
  lemma DeleteLinked<T>(nodes: Arena<T>, rank: map<NodeId, nat>, t: NodeId)
    requires Linked(nodes, rank) && t in nodes
    ensures Linked(AfterDelete(nodes, rank, t), rank)
  {
    DeleteRanked(nodes, rank, t);
    DeleteChildrenLinked(nodes, rank, t);
    DeleteParentsLinked(nodes, rank, t);
    DeleteSlotsDistinct(nodes, rank, t);
  }

  /** Unless it is the target, the root survives, and it is still the only
      parentless node. */
  lemma RootSurvives<T>(nodes: Arena<T>, root: Option<NodeId>, rank: map<NodeId, nat>, t: NodeId)
    requires WellFormed(nodes, root, rank) && t in nodes && root != Some(t)
    ensures root.Some? && root.value in AfterDelete(nodes, rank, t)
    ensures forall n :: n in AfterDelete(nodes, rank, t) && AfterDelete(nodes, rank, t)[n].parent.None? ==> root == Some(n)
  {
    var r := AfterDelete(nodes, rank, t);
    var rt := root.value;
    assert nodes[rt].parent.None?;
    assert t !in Ancestors(nodes, rank, rt);
    forall n | n in r && r[n].parent.None? ensures root == Some(n) {
      SurvivorParentless(nodes, rank, t, n);
    }
  }

  /** deleteSubtree keeps a well-formed tree well-formed; the tree becomes
      empty exactly when the target was its root. */
  lemma DeleteWellFormed<T>(nodes: Arena<T>, root: Option<NodeId>, rank: map<NodeId, nat>, t: NodeId)
    requires WellFormed(nodes, root, rank) && t in nodes
    ensures WellFormed(AfterDelete(nodes, rank, t), if root == Some(t) then None else root, rank)
    ensures AfterDelete(nodes, rank, t) == map[] <==> root == Some(t)
  {
    DeleteLinked(nodes, rank, t);
    if root == Some(t) {
      DeleteRootEmpties(nodes, root, rank);
    } else {
      RootSurvives(nodes, root, rank, t);
    }
  }

  /** A survivor without a parent had none before. */
  lemma SurvivorParentless<T>(nodes: Arena<T>, rank: map<NodeId, nat>, t: NodeId, n: NodeId)
    requires Linked(nodes, rank) && t in nodes
    requires n in AfterDelete(nodes, rank, t)
    ensures AfterDelete(nodes, rank, t)[n].parent == nodes[n].parent
  {
    DetachOthers(nodes, rank, t);
  }

  /** Deleting a node without live children removes that node alone. */
  lemma DeleteLeaf<T>(nodes: Arena<T>, rank: map<NodeId, nat>, t: NodeId)
    requires Linked(nodes, rank) && t in nodes
    requires forall y :: Some(y) !in nodes[t].children
    ensures AfterDelete(nodes, rank, t).Keys == nodes.Keys - {t}
  {
    var r := AfterDelete(nodes, rank, t);
    ClosedHoldsSubtree(nodes, rank, t, {t});
    forall n | n in nodes ensures n in r <==> n != t {
      assert n in Subtree(nodes, rank, t) <==> t in Ancestors(nodes, rank, n);
    }
  }

  /** Deleting the node in the last slot of its parent turns that slot into
      a tombstone. */
  lemma DeleteLastSlot<T>(nodes: Arena<T>, rank: map<NodeId, nat>, t: NodeId, p: NodeId, cs: seq<Option<NodeId>>)
    requires Linked(nodes, rank) && t in nodes && nodes[t].parent == Some(p)
    requires nodes[p].children == cs + [Some(t)] && Some(t) !in cs
    ensures p in AfterDelete(nodes, rank, t)
    ensures AfterDelete(nodes, rank, t)[p] == nodes[p].(children := cs + [None])
  {
    ParentOutside(nodes, rank, t);
    var k := FirstSlot(nodes[p].children, t);
    assert k == |cs|;
    assert (cs + [Some(t)])[k := None] == cs + [None];
    assert Detach(nodes, rank, t)[p] == nodes[p].(children := cs + [None]);
  }

  /** Nulling t's slot leaves every node of t's subtree as it was. */
  lemma DetachKeepsSubtree<T>(nodes: Arena<T>, rank: map<NodeId, nat>, t: NodeId)
    requires Linked(nodes, rank) && t in nodes
    ensures forall x :: x in Subtree(nodes, rank, t) ==>
      x in Detach(nodes, rank, t) && Detach(nodes, rank, t)[x] == nodes[x]
  {
    DetachOthers(nodes, rank, t);
    ParentOutside(nodes, rank, t);
  }

  /** AfterDelete is the detached arena less t's subtree. */
  lemma AfterDeleteOf<T>(nodes: Arena<T>, rank: map<NodeId, nat>, t: NodeId, remaining: Arena<T>)
    requires Linked(nodes, rank) && t in nodes
    requires forall n :: n in remaining <==> n in Detach(nodes, rank, t) && n !in Subtree(nodes, rank, t)
    requires forall n :: n in remaining ==> remaining[n] == Detach(nodes, rank, t)[n]
    ensures remaining == AfterDelete(nodes, rank, t)
  {
    var r := AfterDelete(nodes, rank, t);
    forall n ensures n in remaining <==> n in r {
    }
    forall n | n in remaining ensures remaining[n] == r[n] {
    }
    SameMap(remaining, r);
  }
}
