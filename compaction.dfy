/** The effect of GenericTree::compress on the node arena: every child
    vector loses its null slots and keeps its live slots in order. */
module Compaction {
  import opened Wrappers
  import opened TreeArena

  /** A child vector with the null slots filtered out. */
  function Compact(s: seq<Option<NodeId>>): (r: seq<Option<NodeId>>)
    ensures None !in r && |r| <= |s|
    ensures forall x :: x in r <==> x in s && x.Some?
  {
    if s == [] then []
    else Compact(s[..|s| - 1]) + (if s[|s| - 1].Some? then [s[|s| - 1]] else [])
  }

  /** Filtering a vector that grows by one slot. */
  lemma CompactSnoc(s: seq<Option<NodeId>>, x: Option<NodeId>)
    ensures Compact(s + [x]) == Compact(s) + (if x.Some? then [x] else [])
  {
    assert (s + [x])[..|s|] == s;
  }

  /** Filtering one more slot of a vector read left to right. */
  lemma CompactPrefix(s: seq<Option<NodeId>>, k: nat)
    requires k < |s|
    ensures Compact(s[..k + 1]) == Compact(s[..k]) + (if s[k].Some? then [s[k]] else [])
  {
    assert s[..k + 1] == s[..k] + [s[k]];
    CompactSnoc(s[..k], s[k]);
  }

  /** Filtering distributes over concatenation, so the live slots keep their
      relative order. */
  lemma {:induction false} CompactConcat(a: seq<Option<NodeId>>, b: seq<Option<NodeId>>)
    ensures Compact(a + b) == Compact(a) + Compact(b)
    decreases |b|
  {
    if b != [] {
      var b' := b[..|b| - 1];
      var x := b[|b| - 1];
      assert b == b' + [x];
      assert a + b == (a + b') + [x];
      CompactSnoc(a + b', x);
      CompactSnoc(b', x);
      CompactConcat(a, b');
    } else {
      assert a + b == a;
    }
  }

  /** Each live slot keeps its multiplicity; the null slots are gone. */
  lemma {:induction false} CompactMultiset(s: seq<Option<NodeId>>)
    ensures multiset(Compact(s)) == multiset(s)[None := 0]
  {
    if s != [] {
      var s' := s[..|s| - 1];
      var x := s[|s| - 1];
      assert s == s' + [x];
      CompactMultiset(s');
    }
  }

  /** A vector without null slots is left as it is, so filtering twice
      filters once. */
  lemma {:induction false} CompactLive(s: seq<Option<NodeId>>)
    requires None !in s
    ensures Compact(s) == s
  {
    if s != [] {
      var s' := s[..|s| - 1];
      assert s == s' + [s[|s| - 1]];
      CompactLive(s');
    }
  }

  /** Filtering keeps the live slots distinct. */
  lemma CompactDistinct(s: seq<Option<NodeId>>)
    requires Distinct(s)
    ensures Distinct(Compact(s))
  {
    CompactMultiset(s);
    forall x: NodeId ensures multiset(Compact(s))[Some(x)] <= 1 {
      assert multiset(Compact(s))[Some(x)] == multiset(s)[Some(x)];
    }
  }

  /** The arena part-way through compress: the nodes in done have had their
      child vectors filtered, the others are as they were. */
  ghost function CompactedOn<T>(nodes: Arena<T>, done: set<NodeId>): (r: Arena<T>)
    ensures r.Keys == nodes.Keys
  {
    map n | n in nodes :: if n in done then nodes[n].(children := Compact(nodes[n].children)) else nodes[n]
  }

  /** The arena after compress: the same nodes with the same parents and
      payloads and the same live slots, and no null slot left. */
  ghost function Compacted<T>(nodes: Arena<T>): (r: Arena<T>)
    ensures r.Keys == nodes.Keys
    ensures forall n :: n in nodes ==>
      r[n].parent == nodes[n].parent && r[n].data == nodes[n].data && None !in r[n].children
    ensures forall n, x :: n in nodes ==> (Some(x) in r[n].children <==> Some(x) in nodes[n].children)
  {
    CompactedOn(nodes, nodes.Keys)
  }

  /** Filtering the child vector of one more node. */
  lemma CompactedOnStep<T>(nodes: Arena<T>, done: set<NodeId>, c: NodeId)
    requires c in nodes
    ensures CompactedOn(nodes, done)[c := nodes[c].(children := Compact(nodes[c].children))] ==
      CompactedOn(nodes, done + {c})
  {
    var a := CompactedOn(nodes, done)[c := nodes[c].(children := Compact(nodes[c].children))];
    var b := CompactedOn(nodes, done + {c});
    SameMap(a, b);
  }

  /** Each child vector after compress is the old one with the null slots
      removed, the live ones in their old order. */
  lemma CompactedOrder<T>(nodes: Arena<T>, n: NodeId, before: seq<Option<NodeId>>, after: seq<Option<NodeId>>)
    requires n in nodes && nodes[n].children == before + after
    ensures Compacted(nodes)[n].children == Compact(before) + Compact(after)
  {
    CompactConcat(before, after);
  }

  /** Dequeuing c and queueing its live children, in order, keeps the
      work list a frontier of the subtree. */
  lemma CompressVisit<T>(nodes: Arena<T>, t: NodeId, s: set<NodeId>, done: set<NodeId>,
                         work: seq<Option<NodeId>>, c: NodeId, rest: seq<Option<NodeId>>)
    requires DownClosed(nodes, t, s) && SlotsDistinct(nodes)
    requires Frontier(nodes, t, s, done, work) && None !in work
    requires work == [Some(c)] + rest
    ensures c in s && c !in done && c in CompactedOn(nodes, done)
    ensures CompactedOn(nodes, done)[c] == nodes[c]
    ensures Frontier(nodes, t, s, done + {c}, rest + Compact(nodes[c].children))
    ensures None !in rest + Compact(nodes[c].children)
  {
    assert Some(c) in work;
    CompactDistinct(nodes[c].children);
    FrontierVisit(nodes, t, s, done, work, c, rest, Compact(nodes[c].children));
  }

  /** compress keeps a well-formed tree well-formed. */
  lemma CompactedWellFormed<T>(nodes: Arena<T>, root: Option<NodeId>, rank: map<NodeId, nat>)
    requires WellFormed(nodes, root, rank)
    ensures WellFormed(Compacted(nodes), root, rank)
  {
    var r := Compacted(nodes);
    forall p | p in r ensures Distinct(r[p].children) {
      CompactDistinct(nodes[p].children);
    }
    forall c | c in r && r[c].parent.Some?
      ensures r[c].parent.value in r && Some(c) in r[r[c].parent.value].children
    {
      assert nodes[c].parent == r[c].parent;
    }
  }

  /** A second compress changes nothing. */
  lemma CompactedIdempotent<T>(nodes: Arena<T>)
    ensures Compacted(Compacted(nodes)) == Compacted(nodes)
  {
    var r := Compacted(nodes);
    forall n | n in r ensures Compacted(r)[n] == r[n] {
      CompactLive(r[n].children);
    }
    SameMap(Compacted(r), r);
  }
}
