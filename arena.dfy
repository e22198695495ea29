/** The node arena behind a GenericTree: nodes addressed by stable ids, their
    parent back-references and ordered child slots, and the well-formedness of
    that pointer graph. */
module TreeArena {
  import opened Wrappers

  type NodeId = nat

  /** One tree node: its parent (None for the root), its ordered child slots
      (None is a tombstone left behind by a deletion) and its payload. */
  datatype Node<T> = Node(parent: Option<NodeId>, children: seq<Option<NodeId>>, data: T)

  type Arena<T> = map<NodeId, Node<T>>

  /** No live child id occurs twice in one child vector. */
  ghost predicate Distinct(s: seq<Option<NodeId>>) {
    forall x: NodeId {:trigger multiset(s)[Some(x)]} :: multiset(s)[Some(x)] <= 1
  }

  /** Every node has a rank: 0 without a parent, one more than its parent's
      otherwise. The rank is the node's depth and rules out cycles. */
  ghost predicate Ranked<T>(nodes: Arena<T>, rank: map<NodeId, nat>) {
    forall n {:trigger nodes[n]} :: n in nodes ==>
      n in rank &&
      (nodes[n].parent.None? ==> rank[n] == 0) &&
      (nodes[n].parent.Some? ==>
         nodes[n].parent.value in nodes && nodes[n].parent.value in rank &&
         rank[n] == rank[nodes[n].parent.value] + 1)
  }

  /** A live child slot points at a node whose parent is the slot's owner. */
  ghost predicate ChildrenLinked<T>(nodes: Arena<T>) {
    forall p, c {:trigger Some(c) in nodes[p].children} :: p in nodes && Some(c) in nodes[p].children ==>
      c in nodes && nodes[c].parent == Some(p)
  }

  /** A node with a parent is listed among that parent's children. */
  ghost predicate ParentsLinked<T>(nodes: Arena<T>) {
    forall c :: c in nodes && nodes[c].parent.Some? ==>
      nodes[c].parent.value in nodes && Some(c) in nodes[nodes[c].parent.value].children
  }

  ghost predicate SlotsDistinct<T>(nodes: Arena<T>) {
    forall p :: p in nodes ==> Distinct(nodes[p].children)
  }

  /** Parent/child consistency of the pointer graph, with acyclicity. */
  ghost predicate Linked<T>(nodes: Arena<T>, rank: map<NodeId, nat>) {
    Ranked(nodes, rank) && ChildrenLinked(nodes) && ParentsLinked(nodes) && SlotsDistinct(nodes)
  }

  /** The arena holds exactly one tree: empty iff there is no root, and the
      root is the only parentless node. */
  ghost predicate WellFormed<T>(nodes: Arena<T>, root: Option<NodeId>, rank: map<NodeId, nat>) {
    Linked(nodes, rank) &&
    (root.None? ==> nodes == map[]) &&
    (root.Some? ==> root.value in nodes && nodes[root.value].parent.None?) &&
    (forall n :: n in nodes && nodes[n].parent.None? ==> root == Some(n))
  }

  /** The parent chain of n, n included, up to its parentless ancestor. */
  ghost function Ancestors<T>(nodes: Arena<T>, rank: map<NodeId, nat>, n: NodeId): (a: set<NodeId>)
    requires Ranked(nodes, rank) && n in nodes
    ensures n in a
    decreases rank[n]
  {
    match nodes[n].parent
    case None => {n}
    case Some(p) => {n} + Ancestors(nodes, rank, p)
  }

  /** Every node on the parent chain of n is live and no deeper than n. */
  lemma {:induction false} AncestorsAbove<T>(nodes: Arena<T>, rank: map<NodeId, nat>, n: NodeId)
    requires Ranked(nodes, rank) && n in nodes
    ensures forall m :: m in Ancestors(nodes, rank, n) ==> m in nodes && m in rank && rank[m] <= rank[n]
    decreases rank[n]
  {
    match nodes[n].parent
    case None =>
    case Some(p) => AncestorsAbove(nodes, rank, p);
  }

  /** The parent chain of n holds exactly rank[n] + 1 distinct nodes. */
  lemma {:induction false} AncestorsCount<T>(nodes: Arena<T>, rank: map<NodeId, nat>, n: NodeId)
    requires Ranked(nodes, rank) && n in nodes
    ensures |Ancestors(nodes, rank, n)| == rank[n] + 1
    decreases rank[n]
  {
    match nodes[n].parent
    case None =>
    case Some(p) =>
      AncestorsCount(nodes, rank, p);
      AncestorsAbove(nodes, rank, p);
  }

  /** Depth is bounded by the number of nodes, so walks down the tree end. */
  lemma RankBelowSize<T>(nodes: Arena<T>, rank: map<NodeId, nat>, n: NodeId)
    requires Ranked(nodes, rank) && n in nodes
    ensures rank[n] < |nodes|
  {
    var a := Ancestors(nodes, rank, n);
    AncestorsCount(nodes, rank, n);
    AncestorsAbove(nodes, rank, n);
    assert |a| <= |nodes.Keys| by { SubsetCard(a, nodes.Keys); }
  }

  lemma {:induction false} SubsetCard<X>(a: set<X>, b: set<X>)
    requires a <= b
    ensures |a| <= |b|
  {
    if a != {} {
      var x :| x in a;
      SubsetCard(a - {x}, b - {x});
    }
  }

  /** Walking the parent chain from any node ends at the tree's root. */
  lemma {:induction false} RootIsAncestor<T>(nodes: Arena<T>, root: Option<NodeId>, rank: map<NodeId, nat>, n: NodeId)
    requires WellFormed(nodes, root, rank) && n in nodes
    ensures root.Some? && root.value in Ancestors(nodes, rank, n)
    decreases rank[n]
  {
    match nodes[n].parent
    case None =>
    case Some(p) => RootIsAncestor(nodes, root, rank, p);
  }

  /** The nodes whose parent chain passes through t: t and its descendants. */
  ghost function Subtree<T>(nodes: Arena<T>, rank: map<NodeId, nat>, t: NodeId): (s: set<NodeId>)
    requires Ranked(nodes, rank) && t in nodes
    ensures t in s && s <= nodes.Keys
  {
    set n | n in nodes && t in Ancestors(nodes, rank, n)
  }

  /** The subtree of the root is the whole arena. */
  lemma SubtreeOfRoot<T>(nodes: Arena<T>, root: Option<NodeId>, rank: map<NodeId, nat>)
    requires WellFormed(nodes, root, rank) && root.Some?
    ensures Subtree(nodes, rank, root.value) == nodes.Keys
  {
    forall n | n in nodes ensures n in Subtree(nodes, rank, root.value) {
      RootIsAncestor(nodes, root, rank, n);
    }
  }

  /** A live child of a node below t is below t, one level deeper. */
  lemma ChildInSubtree<T>(nodes: Arena<T>, rank: map<NodeId, nat>, t: NodeId, p: NodeId, c: NodeId)
    requires Ranked(nodes, rank) && ChildrenLinked(nodes) && t in nodes
    requires p in Subtree(nodes, rank, t) && Some(c) in nodes[p].children
    ensures c in Subtree(nodes, rank, t) && rank[c] == rank[p] + 1
  {
    assert nodes[c].parent == Some(p);
    assert t in Ancestors(nodes, rank, p);
    assert t in Ancestors(nodes, rank, c);
  }

  /** A set that holds t and is closed under live children holds t's subtree. */
  lemma ClosedHoldsSubtree<T>(nodes: Arena<T>, rank: map<NodeId, nat>, t: NodeId, e: set<NodeId>)
    requires Linked(nodes, rank) && t in nodes && t in e
    requires forall x, y {:trigger Some(y) in nodes[x].children} :: x in e && x in nodes && Some(y) in nodes[x].children ==> y in e
    ensures Subtree(nodes, rank, t) <= e
  {
    forall n | n in Subtree(nodes, rank, t) ensures n in e {
      ClosedHoldsNode(nodes, rank, t, e, n);
    }
  }

  lemma {:induction false} ClosedHoldsNode<T>(nodes: Arena<T>, rank: map<NodeId, nat>, t: NodeId, e: set<NodeId>, n: NodeId)
    requires Linked(nodes, rank) && t in nodes && t in e
    requires forall x, y {:trigger Some(y) in nodes[x].children} :: x in e && x in nodes && Some(y) in nodes[x].children ==> y in e
    requires n in nodes && t in Ancestors(nodes, rank, n)
    ensures n in e
    decreases rank[n]
  {
    if n != t {
      var p := nodes[n].parent.value;
      ClosedHoldsNode(nodes, rank, t, e, p);
    }
  }

  /** A set s of nodes below t that is closed under live children: each live
      child of a member is a member, is not t, is not its own parent, and
      names that member as its parent. */
  ghost predicate DownClosed<T>(nodes: Arena<T>, t: NodeId, s: set<NodeId>) {
    s <= nodes.Keys && t in s &&
    forall x, y {:trigger Some(y) in nodes[x].children} :: x in s && Some(y) in nodes[x].children ==>
      y in s && y != t && y != x && nodes[y].parent == Some(x)
  }

  /** t's subtree is closed under live children. */
  lemma SubtreeDownClosed<T>(nodes: Arena<T>, rank: map<NodeId, nat>, t: NodeId)
    requires Linked(nodes, rank) && t in nodes
    ensures DownClosed(nodes, t, Subtree(nodes, rank, t))
  {
    var s := Subtree(nodes, rank, t);
    forall x, y {:trigger Some(y) in nodes[x].children} | x in s && Some(y) in nodes[x].children
      ensures y in s && y != t && y != x && nodes[y].parent == Some(x)
    {
      ChildInSubtree(nodes, rank, t, x, y);
      AncestorsAbove(nodes, rank, x);
    }
  }

  /** The state of a work-list traversal of the subtree s of t (the explore
      stack of deleteSubtree, the queue of compress): `done` holds the visited
      nodes, `work` the pending slots. Every pending or visited node is in s
      and was reached from a visited parent; each pending node is pending once
      and not yet visited; every live child of a visited node is visited or
      pending. */
  ghost predicate Frontier<T>(nodes: Arena<T>, t: NodeId, s: set<NodeId>,
                              done: set<NodeId>, work: seq<Option<NodeId>>)
    requires s <= nodes.Keys
  {
    done <= s &&
    Distinct(work) &&
    (forall x :: Some(x) in work ==> x in s && x !in done) &&
    (forall x {:trigger Some(x) in work} :: Some(x) in work && x != t && nodes[x].parent.Some? ==> nodes[x].parent.value in done) &&
    (forall x :: x in done && x != t && nodes[x].parent.Some? ==> nodes[x].parent.value in done) &&
    ClosedUnder(nodes, done, work) &&
    (t in done || Some(t) in work)
  }

  /** Every live child of a visited node is visited or pending. */
  ghost predicate ClosedUnder<T>(nodes: Arena<T>, done: set<NodeId>, work: seq<Option<NodeId>>)
    requires done <= nodes.Keys
  {
    forall x, y {:trigger Some(y) in nodes[x].children} :: x in done && Some(y) in nodes[x].children ==> y in done || Some(y) in work
  }

  /** A traversal starts with t alone pending. */
  lemma FrontierStart<T>(nodes: Arena<T>, t: NodeId, s: set<NodeId>)
    requires DownClosed(nodes, t, s)
    ensures Frontier(nodes, t, s, {}, [Some(t)])
  {
    assert forall x :: Some(x) in [Some(t)] ==> x == t;
  }

  /** Taking the last slot off a work list. */
  lemma PopLast(work: seq<Option<NodeId>>)
    requires work != []
    ensures multiset(work) == multiset(work[..|work| - 1]) + multiset{work[|work| - 1]}
  {
    assert work == work[..|work| - 1] + [work[|work| - 1]];
  }

  /** Popping a tombstone from the work list keeps the traversal state. */
  lemma FrontierSkip<T>(nodes: Arena<T>, t: NodeId, s: set<NodeId>,
                        done: set<NodeId>, work: seq<Option<NodeId>>, rest: seq<Option<NodeId>>)
    requires s <= nodes.Keys
    requires Frontier(nodes, t, s, done, work)
    requires multiset(work) == multiset(rest) + multiset{None}
    ensures Frontier(nodes, t, s, done, rest)
  {
    forall x ensures Some(x) in work <==> Some(x) in rest
      ensures multiset(rest)[Some(x)] == multiset(work)[Some(x)]
    {
      assert multiset(work)[Some(x)] == multiset(rest)[Some(x)];
    }
  }

  /** Visiting a pending node c (popping it and pushing its child slots, all
      of them or only the live ones) keeps the traversal state. */
  lemma FrontierVisit<T>(nodes: Arena<T>, t: NodeId, s: set<NodeId>,
                         done: set<NodeId>, work: seq<Option<NodeId>>, c: NodeId,
                         rest: seq<Option<NodeId>>, pushed: seq<Option<NodeId>>)
    requires DownClosed(nodes, t, s) && c in nodes
    requires Frontier(nodes, t, s, done, work)
    requires multiset(work) == multiset(rest) + multiset{Some(c)}
    requires forall y :: Some(y) in pushed <==> Some(y) in nodes[c].children
    requires Distinct(pushed)
    ensures c in s && c !in done
    ensures Frontier(nodes, t, s, done + {c}, rest + pushed)
  {
    RestOfWork(work, c, rest);
    forall y | Some(y) in pushed ensures y in s && y != t && y != c && nodes[y].parent == Some(c) {
      assert Some(y) in nodes[c].children;
    }
    PendingAfterVisit(nodes, t, s, done, work, c, rest, pushed);
    ParentsAfterVisit(nodes, t, s, done, work, c);
    DistinctAfterVisit(work, c, rest, pushed);
    ClosedAfterVisit(nodes, done, work, c, rest, pushed);
  }

  /** Taking one occurrence of Some(c) out of a work list without repeated
      live slots leaves every other live slot and no other copy of c. */
  lemma RestOfWork(work: seq<Option<NodeId>>, c: NodeId, rest: seq<Option<NodeId>>)
    requires Distinct(work)
    requires multiset(work) == multiset(rest) + multiset{Some(c)}
    ensures Some(c) in work
    ensures forall y :: Some(y) in rest <==> Some(y) in work && y != c
  {
    assert multiset(work)[Some(c)] > 0;
    forall y ensures Some(y) in rest <==> Some(y) in work && y != c {
      assert multiset(work)[Some(y)] == multiset(rest)[Some(y)] + multiset{Some(c)}[Some(y)];
    }
  }

  /** After visiting c, every pending node is in s, unvisited and reached
      from a visited parent, and the new child slots repeat no pending one. */
  lemma PendingAfterVisit<T>(nodes: Arena<T>, t: NodeId, s: set<NodeId>,
                             done: set<NodeId>, work: seq<Option<NodeId>>, c: NodeId,
                             rest: seq<Option<NodeId>>, pushed: seq<Option<NodeId>>)
    requires s <= nodes.Keys && done <= s && c !in done
    requires forall x :: Some(x) in work ==> x in s && x !in done
    requires forall x {:trigger Some(x) in work} :: Some(x) in work && x != t && nodes[x].parent.Some? ==> nodes[x].parent.value in done
    requires forall x :: x in done && x != t && nodes[x].parent.Some? ==> nodes[x].parent.value in done
    requires forall y :: Some(y) in rest ==> Some(y) in work && y != c
    requires forall y :: Some(y) in pushed ==> y in s && y != t && y != c && nodes[y].parent == Some(c)
    ensures forall y :: Some(y) in pushed ==> Some(y) !in rest
    ensures forall x :: Some(x) in rest + pushed ==> x in s && x !in done + {c}
    ensures forall x {:trigger Some(x) in rest + pushed} :: Some(x) in rest + pushed && x != t && nodes[x].parent.Some? ==> nodes[x].parent.value in done + {c}
  {
    forall x | Some(x) in rest + pushed ensures x in s && x !in done + {c} {
      if Some(x) in rest {
        assert Some(x) in work;
      } else {
        assert Some(x) in pushed;
      }
    }
    forall x | Some(x) in rest + pushed && x != t && nodes[x].parent.Some? ensures nodes[x].parent.value in done + {c} {
      if Some(x) in rest {
        assert Some(x) in work;
      } else {
        assert Some(x) in pushed;
      }
    }
  }

  /** After visiting c, every visited node other than t has a visited parent. */
  lemma ParentsAfterVisit<T>(nodes: Arena<T>, t: NodeId, s: set<NodeId>,
                             done: set<NodeId>, work: seq<Option<NodeId>>, c: NodeId)
    requires s <= nodes.Keys
    requires Frontier(nodes, t, s, done, work) && Some(c) in work
    ensures forall x :: x in done + {c} && x != t && nodes[x].parent.Some? ==> nodes[x].parent.value in done + {c}
  {
  }

  /** Removing one occurrence of a live slot and appending slots that are
      distinct and new keeps a work list free of repeated live slots. */
  lemma DistinctAfterVisit(work: seq<Option<NodeId>>, c: NodeId, rest: seq<Option<NodeId>>, pushed: seq<Option<NodeId>>)
    requires Distinct(work) && Distinct(pushed)
    requires multiset(work) == multiset(rest) + multiset{Some(c)}
    requires forall y :: Some(y) in pushed ==> Some(y) !in rest
    ensures Distinct(rest + pushed)
  {
    forall x: NodeId ensures multiset(rest + pushed)[Some(x)] <= 1 {
      assert multiset(rest + pushed) == multiset(rest) + multiset(pushed);
      if Some(x) in pushed {
        assert multiset(rest)[Some(x)] == 0;
      } else {
        assert multiset(pushed)[Some(x)] == 0;
        assert multiset(work)[Some(x)] == multiset(rest)[Some(x)] + multiset{Some(c)}[Some(x)];
      }
    }
  }

  /** Visiting c keeps every live child of a visited node visited or pending. */
  lemma ClosedAfterVisit<T>(nodes: Arena<T>, done: set<NodeId>, work: seq<Option<NodeId>>, c: NodeId,
                            rest: seq<Option<NodeId>>, pushed: seq<Option<NodeId>>)
    requires done <= nodes.Keys && c in nodes
    requires ClosedUnder(nodes, done, work)
    requires multiset(work) == multiset(rest) + multiset{Some(c)}
    requires forall y :: Some(y) in nodes[c].children ==> Some(y) in pushed
    ensures ClosedUnder(nodes, done + {c}, rest + pushed)
  {
    forall x, y {:trigger Some(y) in nodes[x].children} | x in done + {c} && Some(y) in nodes[x].children
      ensures y in done + {c} || Some(y) in rest + pushed
    {
      if x == c {
        assert Some(y) in pushed;
      } else if y !in done && y != c {
        assert Some(y) in work;
        assert multiset(work)[Some(y)] == multiset(rest)[Some(y)] + multiset{Some(c)}[Some(y)];
      }
    }
  }

  /** A traversal of t's subtree whose work list is empty has visited exactly
      that subtree. */
  lemma FrontierComplete<T>(nodes: Arena<T>, rank: map<NodeId, nat>, t: NodeId, done: set<NodeId>)
    requires Linked(nodes, rank) && t in nodes
    requires Frontier(nodes, t, Subtree(nodes, rank, t), done, [])
    ensures done == Subtree(nodes, rank, t)
  {
    assert ClosedUnder(nodes, done, []);
    ClosedHoldsSubtree(nodes, rank, t, done);
  }

  /** Two maps with the same keys and the same value at every key are equal. */
  lemma SameMap<K, V>(r: map<K, V>, e: map<K, V>)
    requires forall n :: n in r <==> n in e
    requires forall n :: n in r ==> r[n] == e[n]
    ensures r == e
  {
  }

  /** Splitting off the last element of a non-empty sequence. */
  lemma SplitLast<X>(s: seq<X>)
    requires s != []
    ensures s == s[..|s| - 1] + [s[|s| - 1]]
  {
  }

  /** Concatenation is associative. */
  lemma Assoc<X>(a: seq<X>, b: seq<X>, c: seq<X>)
    ensures a + (b + c) == (a + b) + c
  {
  }
}
