/** The text GenericTree::Print writes: the nodes in pre-order, each drawn as
    two rows of margin glyphs followed by its payload on the second row. */
module Rendering {
  import opened Wrappers
  import opened TreeArena
  import opened Compaction

  /** The number of rows in the drawing of one node. */
  const LastRow: nat := 2

  /** A margin column shows a vertical stem or a blank. */
  function Stem(stem: bool): string {
    if stem then "|" else " "
  }

  /** Margin column i on the given row. Columns before the last one are the
      stem and two spaces of padding. The last column ends the first row,
      dropping a trailing blank, and leads into the payload on the last row. */
  function Cell(margin: seq<bool>, i: nat, row: nat): (c: string)
    requires i < |margin|
    ensures '\n' in c <==> i + 1 == |margin| && row != LastRow
    ensures '_' in c <==> i + 1 == |margin| && row == LastRow
  {
    if i + 1 < |margin| then Stem(margin[i]) + "  "
    else if row == LastRow then Stem(margin[i]) + "_ "
    else if margin[i] then "|\n"
    else "\n"
  }

  /** The first k margin columns of one row: three characters a column, and
      a line break only once the last column of a connector row is drawn. */
  function Cells(margin: seq<bool>, k: nat, row: nat): (r: string)
    requires k <= |margin|
    ensures k < |margin| ==> |r| == 3 * k
    ensures '\n' in r <==> 0 < k == |margin| && row != LastRow
  {
    if k == 0 then "" else Cells(margin, k - 1, row) + Cell(margin, k - 1, row)
  }

  /** The first j margin rows; a node without margin columns has none. */
  function MarginRows(margin: seq<bool>, j: nat): (r: string)
    ensures margin == [] ==> r == ""
  {
    if j == 0 then "" else MarginRows(margin, j - 1) + Cells(margin, |margin|, j)
  }

  /** The drawing of one node with the given current margin and payload;
      without margin it is the payload line alone. */
  function NodeText(margin: seq<bool>, payload: string): (r: string)
    ensures margin == [] ==> r == payload + "\n"
  {
    MarginRows(margin, LastRow) + payload + "\n"
  }

  /** Padding columns: a stem or a blank, then two spaces, per column. */
  function Pad(p: seq<bool>): string {
    if p == [] then "" else Pad(p[..|p| - 1]) + Stem(p[|p| - 1]) + "  "
  }

  /** The columns before the last one are padding. */
  lemma {:induction false} CellsPad(p: seq<bool>, b: bool, k: nat, row: nat)
    requires k <= |p|
    ensures Cells(p + [b], k, row) == Pad(p[..k])
  {
    if k > 0 {
      CellsPad(p, b, k - 1, row);
      assert p[..k][..k - 1] == p[..k - 1];
      assert Cell(p + [b], k - 1, row) == Stem(p[k - 1]) + "  ";
      Assoc(Pad(p[..k - 1]), Stem(p[k - 1]), "  ");
    }
  }

  /** The picture of a node with margin m = p + [b]: a connector row and a
      payload row, both behind the padding of the outer columns p, the
      connector showing a stem only if the last column does. */
  lemma NodeTextShape(p: seq<bool>, b: bool, m: seq<bool>, payload: string)
    requires m == p + [b]
    ensures NodeText(m, payload) ==
      (Pad(p) + (if b then "|\n" else "\n")) + (Pad(p) + (Stem(b) + "_ ")) + payload + "\n"
  {
    CellsPad(p, b, |p|, 1);
    CellsPad(p, b, |p|, 2);
    assert p[..|p|] == p;
    assert m[|p|] == b && |m| == |p| + 1;
    assert Cell(m, |p|, 1) == (if b then "|\n" else "\n");
    assert Cell(m, |p|, 2) == Stem(b) + "_ ";
    assert Cells(m, |m|, 1) == Pad(p) + (if b then "|\n" else "\n");
    assert Cells(m, |m|, 2) == Pad(p) + (Stem(b) + "_ ");
    assert MarginRows(m, 0) == [];
    var row1 := Pad(p) + (if b then "|\n" else "\n");
    var row2 := Pad(p) + (Stem(b) + "_ ");
    assert MarginRows(m, 1) == row1;
    assert MarginRows(m, LastRow) == row1 + row2;
  }

  /** One pending item of the print stacks: a child slot (None for a null
      pointer), its depth, and its current and trailing margin flags. */
  datatype Entry = Entry(slot: Option<NodeId>, depth: nat, cur: seq<bool>, trail: seq<bool>)

  /** The entry pushed for slot i of a node's child vector cs: the current
      margin is the node's trailing margin plus a stem beside the child, the
      trailing margin adds a blank below the rightmost child and a stem below
      every other one. */
  function ChildEntry(cs: seq<Option<NodeId>>, i: nat, depth: nat, trail: seq<bool>): (e: Entry)
    requires i < |cs|
    ensures e.slot == cs[i] && e.depth == depth
    ensures |e.cur| == |trail| + 1 && e.cur[..|trail|] == trail && e.cur[|trail|]
    ensures |e.trail| == |trail| + 1 && e.trail[..|trail|] == trail && (e.trail[|trail|] <==> i + 1 < |cs|)
  {
    Entry(cs[i], depth, trail + [true], trail + [i + 1 < |cs|])
  }

  /** Every live slot in es is a node of the arena. */
  ghost predicate Placed<T>(nodes: Arena<T>, es: seq<Entry>) {
    forall e :: e in es && e.slot.Some? ==> e.slot.value in nodes
  }

  /** The entries printed for e and its descendants, in pre-order: e itself,
      then, for a live slot, the entries of each child slot from left to
      right. A null slot is printed and not expanded. */
  ghost function Entries<T>(nodes: Arena<T>, rank: map<NodeId, nat>, e: Entry): (es: seq<Entry>)
    requires Ranked(nodes, rank) && ChildrenLinked(nodes)
    requires e.slot.Some? ==> e.slot.value in nodes
    ensures |es| > 0 && es[0] == e && Placed(nodes, es)
    decreases if e.slot.Some? then |nodes| - rank[e.slot.value] else 0, 1, 0
  {
    match e.slot
    case None => [e]
    case Some(n) =>
      RankBelowSize(nodes, rank, n);
      [e] + KidEntries(nodes, rank, n, 0, e.depth + 1, e.trail)
  }

  /** The entries of the child slots of n from slot i on, at the given depth
      below a node whose trailing margin is trail. */
  ghost function KidEntries<T>(nodes: Arena<T>, rank: map<NodeId, nat>, n: NodeId, i: nat,
                               depth: nat, trail: seq<bool>): (es: seq<Entry>)
    requires Ranked(nodes, rank) && ChildrenLinked(nodes) && n in nodes
    requires i <= |nodes[n].children|
    ensures Placed(nodes, es)
    decreases |nodes| - rank[n], 0, |nodes[n].children| - i
  {
    var cs := nodes[n].children;
    if i == |cs| then []
    else
      RankBelowSize(nodes, rank, n);
      assert cs[i] in cs;
      Entries(nodes, rank, ChildEntry(cs, i, depth, trail)) + KidEntries(nodes, rank, n, i + 1, depth, trail)
  }

  /** The line printed for a slot: the payload as shown, or [null]. */
  function Label<T>(nodes: Arena<T>, slot: Option<NodeId>, show: T -> string): string
    requires slot.Some? ==> slot.value in nodes
  {
    match slot
    case None => "[null]"
    case Some(n) => show(nodes[n].data)
  }

  /** The drawings of es, one after another. */
  ghost function Text<T>(nodes: Arena<T>, es: seq<Entry>, show: T -> string): string
    requires Placed(nodes, es)
  {
    if es == [] then ""
    else
      var k := |es| - 1;
      Text(nodes, es[..k], show) + NodeText(es[k].cur, Label(nodes, es[k].slot, show))
  }

  /** What Print writes for a well-formed tree. */
  ghost function Rendered<T>(nodes: Arena<T>, root: Option<NodeId>, rank: map<NodeId, nat>,
                             show: T -> string): string
    requires WellFormed(nodes, root, rank)
  {
    match root
    case None => "[empty tree]\n"
    case Some(r) => Text(nodes, Entries(nodes, rank, Entry(Some(r), 0, [], [])), show)
  }

  /** The four parallel stacks of Print have one height and hold only
      slots of the arena. */
  ghost predicate Stacks<T>(nodes: Arena<T>, slots: seq<Option<NodeId>>, depths: seq<nat>,
                            curs: seq<seq<bool>>, trails: seq<seq<bool>>) {
    |depths| == |slots| && |curs| == |slots| && |trails| == |slots| &&
    forall x :: Some(x) in slots ==> x in nodes
  }

  /** The entries still to be printed for the four parallel stacks, whose top
      is the last element: the top entry's subtree first, then the rest. */
  ghost function StackEntries<T>(nodes: Arena<T>, rank: map<NodeId, nat>, slots: seq<Option<NodeId>>,
                                 depths: seq<nat>, curs: seq<seq<bool>>, trails: seq<seq<bool>>): seq<Entry>
    requires Ranked(nodes, rank) && ChildrenLinked(nodes)
    requires Stacks(nodes, slots, depths, curs, trails)
  {
    if slots == [] then []
    else
      var k := |slots| - 1;
      assert slots[k] in slots;
      Entries(nodes, rank, Entry(slots[k], depths[k], curs[k], trails[k])) +
        StackEntries(nodes, rank, slots[..k], depths[..k], curs[..k], trails[..k])
  }

  /** Pushing one entry puts its subtree in front of what was pending. */
  lemma StackPush<T>(nodes: Arena<T>, rank: map<NodeId, nat>, slots: seq<Option<NodeId>>,
                     depths: seq<nat>, curs: seq<seq<bool>>, trails: seq<seq<bool>>, e: Entry,
                     slots': seq<Option<NodeId>>, depths': seq<nat>, curs': seq<seq<bool>>, trails': seq<seq<bool>>)
    requires Ranked(nodes, rank) && ChildrenLinked(nodes)
    requires Stacks(nodes, slots, depths, curs, trails)
    requires e.slot.Some? ==> e.slot.value in nodes
    requires slots' == slots + [e.slot] && depths' == depths + [e.depth]
    requires curs' == curs + [e.cur] && trails' == trails + [e.trail]
    ensures Stacks(nodes, slots', depths', curs', trails')
    ensures StackEntries(nodes, rank, slots', depths', curs', trails') ==
      Entries(nodes, rank, e) + StackEntries(nodes, rank, slots, depths, curs, trails)
  {
    var k := |slots|;
    assert slots'[..k] == slots && depths'[..k] == depths && curs'[..k] == curs && trails'[..k] == trails;
    assert Entry(slots'[k], depths'[k], curs'[k], trails'[k]) == e;
  }

  /** Printing one more entry appends its drawing. */
  lemma TextSnoc<T>(nodes: Arena<T>, es: seq<Entry>, e: Entry, show: T -> string)
    requires Placed(nodes, es) && (e.slot.Some? ==> e.slot.value in nodes)
    ensures Placed(nodes, es + [e])
    ensures Text(nodes, es + [e], show) == Text(nodes, es, show) + NodeText(e.cur, Label(nodes, e.slot, show))
  {
    assert (es + [e])[..|es|] == es;
  }

  /** An entry whose margins are as wide as its depth, the current margin
      ending in a stem below the top level. */
  ghost predicate Shaped(e: Entry) {
    |e.cur| == e.depth && |e.trail| == e.depth && (e.depth > 0 ==> e.cur[e.depth - 1])
  }

  /** The layout below a shaped entry e: every entry is shaped, is at least
      as deep as e, and a live one sits as far below e as its rank is below
      e's node's rank. */
  lemma {:induction false} EntriesLayout<T>(nodes: Arena<T>, rank: map<NodeId, nat>, e: Entry)
    requires Ranked(nodes, rank) && ChildrenLinked(nodes)
    requires e.slot.Some? ==> e.slot.value in nodes
    requires Shaped(e)
    ensures forall f :: f in Entries(nodes, rank, e) ==> Shaped(f) && f.depth >= e.depth
    ensures forall f :: f in Entries(nodes, rank, e)[1..] ==> f.depth > e.depth
    ensures e.slot.Some? ==> forall f :: f in Entries(nodes, rank, e) && f.slot.Some? ==>
      f.depth + rank[e.slot.value] == rank[f.slot.value] + e.depth
    decreases if e.slot.Some? then |nodes| - rank[e.slot.value] else 0, 1, 0
  {
    match e.slot
    case None =>
    case Some(n) =>
      RankBelowSize(nodes, rank, n);
      KidEntriesLayout(nodes, rank, n, 0, e.depth + 1, e.trail);
  }

  lemma {:induction false} KidEntriesLayout<T>(nodes: Arena<T>, rank: map<NodeId, nat>, n: NodeId, i: nat,
                                               depth: nat, trail: seq<bool>)
    requires Ranked(nodes, rank) && ChildrenLinked(nodes) && n in nodes
    requires i <= |nodes[n].children|
    requires depth > 0 && |trail| == depth - 1
    ensures forall f :: f in KidEntries(nodes, rank, n, i, depth, trail) ==> Shaped(f) && f.depth >= depth
    ensures forall f :: f in KidEntries(nodes, rank, n, i, depth, trail) && f.slot.Some? ==>
      f.depth + rank[n] + 1 == rank[f.slot.value] + depth
    decreases |nodes| - rank[n], 0, |nodes[n].children| - i
  {
    var cs := nodes[n].children;
    if i < |cs| {
      RankBelowSize(nodes, rank, n);
      assert cs[i] in cs;
      var child := ChildEntry(cs, i, depth, trail);
      EntriesLayout(nodes, rank, child);
      KidEntriesLayout(nodes, rank, n, i + 1, depth, trail);
    }
  }

  /** The slots an entry sequence prints. */
  ghost function Slots(es: seq<Entry>): set<Option<NodeId>> {
    set f | f in es :: f.slot
  }

  /** Every live child of a printed node is printed too. */
  ghost predicate Expanded<T>(nodes: Arena<T>, es: seq<Entry>) {
    forall x, y {:trigger Some(y) in nodes[x].children, Some(x) in Slots(es)} ::
      x in nodes && Some(x) in Slots(es) && Some(y) in nodes[x].children ==> Some(y) in Slots(es)
  }

  /** The child slots of n from slot i on all start an entry of KidEntries. */
  lemma {:induction false} KidSlots<T>(nodes: Arena<T>, rank: map<NodeId, nat>, n: NodeId, i: nat,
                                       depth: nat, trail: seq<bool>)
    requires Ranked(nodes, rank) && ChildrenLinked(nodes) && n in nodes
    requires i <= |nodes[n].children|
    ensures forall j :: i <= j < |nodes[n].children| ==>
      nodes[n].children[j] in Slots(KidEntries(nodes, rank, n, i, depth, trail))
    decreases |nodes[n].children| - i
  {
    var cs := nodes[n].children;
    if i < |cs| {
      assert cs[i] in cs;
      var head := Entries(nodes, rank, ChildEntry(cs, i, depth, trail));
      assert head[0] in head;
      KidSlots(nodes, rank, n, i + 1, depth, trail);
    }
  }

  /** The entries of a slot and of the child slots of a node are closed
      under live children: the walk expands every live node it prints. */
  lemma {:induction false} EntriesExpanded<T>(nodes: Arena<T>, rank: map<NodeId, nat>, e: Entry)
    requires Ranked(nodes, rank) && ChildrenLinked(nodes)
    requires e.slot.Some? ==> e.slot.value in nodes
    ensures Expanded(nodes, Entries(nodes, rank, e))
    decreases if e.slot.Some? then |nodes| - rank[e.slot.value] else 0, 1, 0
  {
    match e.slot
    case None =>
    case Some(n) =>
      RankBelowSize(nodes, rank, n);
      var kids := KidEntries(nodes, rank, n, 0, e.depth + 1, e.trail);
      KidEntriesExpanded(nodes, rank, n, 0, e.depth + 1, e.trail);
      KidSlots(nodes, rank, n, 0, e.depth + 1, e.trail);
      var es := [e] + kids;
      assert Slots(es) == {e.slot} + Slots(kids);
      forall x, y {:trigger Some(y) in nodes[x].children, Some(x) in Slots(es)}
        | x in nodes && Some(x) in Slots(es) && Some(y) in nodes[x].children
        ensures Some(y) in Slots(es)
      {
        if x == n {
          var j :| 0 <= j < |nodes[n].children| && nodes[n].children[j] == Some(y);
        }
      }
  }

  lemma {:induction false} KidEntriesExpanded<T>(nodes: Arena<T>, rank: map<NodeId, nat>, n: NodeId, i: nat,
                                                 depth: nat, trail: seq<bool>)
    requires Ranked(nodes, rank) && ChildrenLinked(nodes) && n in nodes
    requires i <= |nodes[n].children|
    ensures Expanded(nodes, KidEntries(nodes, rank, n, i, depth, trail))
    decreases |nodes| - rank[n], 0, |nodes[n].children| - i
  {
    var cs := nodes[n].children;
    if i < |cs| {
      RankBelowSize(nodes, rank, n);
      assert cs[i] in cs;
      var head := Entries(nodes, rank, ChildEntry(cs, i, depth, trail));
      var tail := KidEntries(nodes, rank, n, i + 1, depth, trail);
      EntriesExpanded(nodes, rank, ChildEntry(cs, i, depth, trail));
      KidEntriesExpanded(nodes, rank, n, i + 1, depth, trail);
      assert Slots(head + tail) == Slots(head) + Slots(tail);
    }
  }

  /** The entries Print walks through for a non-empty tree. */
  ghost function Walk<T>(nodes: Arena<T>, root: Option<NodeId>, rank: map<NodeId, nat>): (es: seq<Entry>)
    requires WellFormed(nodes, root, rank) && root.Some?
    ensures |es| > 0 && es[0] == Entry(root, 0, [], []) && Placed(nodes, es)
  {
    Entries(nodes, rank, Entry(root, 0, [], []))
  }

  /** Print shows every node of the tree, and a slot it shows is a node of
      the tree or a null pointer. */
  lemma WalkCovers<T>(nodes: Arena<T>, root: Option<NodeId>, rank: map<NodeId, nat>)
    requires WellFormed(nodes, root, rank) && root.Some?
    ensures forall m :: Some(m) in Slots(Walk(nodes, root, rank)) <==> m in nodes
  {
    var es := Walk(nodes, root, rank);
    var r := root.value;
    var printed := set x | x in nodes && Some(x) in Slots(es);
    assert es[0] in es;
    EntriesExpanded(nodes, rank, Entry(root, 0, [], []));
    ClosedHoldsSubtree(nodes, rank, r, printed);
    SubtreeOfRoot(nodes, root, rank);
  }

  /** Print draws each node at its depth in the tree: the root alone on its
      line, every other node behind a connector row ending in a stem and a
      payload row ending in "|_ ", the padding given by the node's margin. */
  lemma WalkPicture<T>(nodes: Arena<T>, root: Option<NodeId>, rank: map<NodeId, nat>, k: nat, show: T -> string)
    requires WellFormed(nodes, root, rank) && root.Some? && k < |Walk(nodes, root, rank)|
    ensures var f := Walk(nodes, root, rank)[k];
      Shaped(f) && (f.slot.Some? ==> f.depth == rank[f.slot.value]) && (k == 0 <==> f.depth == 0)
    ensures var f := Walk(nodes, root, rank)[k];
      var payload := Label(nodes, f.slot, show);
      if k == 0 then NodeText(f.cur, payload) == payload + "\n"
      else var p := f.cur[..|f.cur| - 1];
        NodeText(f.cur, payload) == (Pad(p) + "|\n") + (Pad(p) + "|_ ") + payload + "\n"
  {
    var es := Walk(nodes, root, rank);
    var f := es[k];
    EntriesLayout(nodes, rank, Entry(root, 0, [], []));
    assert f in es;
    if k > 0 {
      assert f == es[1..][k - 1];
      var p := f.cur[..|f.cur| - 1];
      assert f.cur == p + [true];
      NodeTextShape(p, true, f.cur, Label(nodes, f.slot, show));
      assert Stem(true) + "_ " == "|_ ";
    }
  }

  /** Nothing below a live slot is a null pointer when no child vector holds
      one. */
  lemma {:induction false} EntriesLive<T>(nodes: Arena<T>, rank: map<NodeId, nat>, e: Entry)
    requires Ranked(nodes, rank) && ChildrenLinked(nodes)
    requires e.slot.Some? && e.slot.value in nodes
    requires forall m :: m in nodes ==> None !in nodes[m].children
    ensures forall f :: f in Entries(nodes, rank, e) ==> f.slot.Some?
    decreases |nodes| - rank[e.slot.value], 1, 0
  {
    var n := e.slot.value;
    RankBelowSize(nodes, rank, n);
    KidEntriesLive(nodes, rank, n, 0, e.depth + 1, e.trail);
  }

  lemma {:induction false} KidEntriesLive<T>(nodes: Arena<T>, rank: map<NodeId, nat>, n: NodeId, i: nat,
                                             depth: nat, trail: seq<bool>)
    requires Ranked(nodes, rank) && ChildrenLinked(nodes) && n in nodes
    requires i <= |nodes[n].children|
    requires forall m :: m in nodes ==> None !in nodes[m].children
    ensures forall f :: f in KidEntries(nodes, rank, n, i, depth, trail) ==> f.slot.Some?
    decreases |nodes| - rank[n], 0, |nodes[n].children| - i
  {
    var cs := nodes[n].children;
    if i < |cs| {
      RankBelowSize(nodes, rank, n);
      assert cs[i] in cs && None !in cs;
      assert Some(cs[i].value) in cs;
      EntriesLive(nodes, rank, ChildEntry(cs, i, depth, trail));
      KidEntriesLive(nodes, rank, n, i + 1, depth, trail);
    }
  }

  /** After compress, Print shows no [null] line. */
  lemma CompactedPrintsNoNull<T>(nodes: Arena<T>, root: Option<NodeId>, rank: map<NodeId, nat>)
    requires WellFormed(nodes, root, rank) && root.Some?
    ensures WellFormed(Compacted(nodes), root, rank)
    ensures forall f :: f in Walk(Compacted(nodes), root, rank) ==> f.slot.Some?
  {
    CompactedWellFormed(nodes, root, rank);
    EntriesLive(Compacted(nodes), rank, Entry(root, 0, [], []));
  }

  /** Writes the drawing of one node: the margin rows, then the payload
      line. */
  method WriteNode(out: string, curMargin: seq<bool>, payload: string) returns (written: string)
    ensures written == out + NodeText(curMargin, payload)
  {
    written := out;
    for row := 1 to LastRow + 1
      invariant written == out + MarginRows(curMargin, row - 1)
    {
      Assoc(out, MarginRows(curMargin, row - 1), Cells(curMargin, |curMargin|, row));
      written := WriteRow(written, curMargin, row);
    }
    Assoc(out, MarginRows(curMargin, LastRow), payload);
    Assoc(out, MarginRows(curMargin, LastRow) + payload, "\n");
    written := written + payload + "\n";
  }

  /** Writes one margin row, column by column. */
  method WriteRow(out: string, curMargin: seq<bool>, row: nat) returns (written: string)
    ensures written == out + Cells(curMargin, |curMargin|, row)
  {
    written := out;
    for i := 0 to |curMargin|
      invariant written == out + Cells(curMargin, i, row)
    {
      var showStem := curMargin[i];
      var stemSymbol := "|";
      if !showStem {
        stemSymbol := " ";
      }
      var isLastCol := i + 1 == |curMargin|;
      var glyphs;
      if isLastCol {
        if LastRow == row {
          glyphs := stemSymbol + "_ ";
        } else if showStem {
          glyphs := stemSymbol + "\n";
        } else {
          glyphs := "\n";
        }
      } else {
        glyphs := stemSymbol + "  ";
      }
      assert glyphs == Cell(curMargin, i, row);
      Assoc(out, Cells(curMargin, i, row), glyphs);
      written := written + glyphs;
    }
  }

  /** Pushing the entry of child slot k on top of the entries of the slots
      after it extends them to the slots from k on. */
  lemma PushChild<T>(nodes: Arena<T>, rank: map<NodeId, nat>, n: NodeId, k: nat, depth: nat, trail: seq<bool>,
                     slots: seq<Option<NodeId>>, depths: seq<nat>, curs: seq<seq<bool>>, trails: seq<seq<bool>>,
                     below: seq<Entry>)
    requires Ranked(nodes, rank) && ChildrenLinked(nodes) && n in nodes && k < |nodes[n].children|
    requires Stacks(nodes, slots, depths, curs, trails)
    requires StackEntries(nodes, rank, slots, depths, curs, trails) ==
      KidEntries(nodes, rank, n, k + 1, depth, trail) + below
    ensures var e := ChildEntry(nodes[n].children, k, depth, trail);
      Stacks(nodes, slots + [e.slot], depths + [e.depth], curs + [e.cur], trails + [e.trail]) &&
      StackEntries(nodes, rank, slots + [e.slot], depths + [e.depth], curs + [e.cur], trails + [e.trail]) ==
        KidEntries(nodes, rank, n, k, depth, trail) + below
  {
    var cs := nodes[n].children;
    var e := ChildEntry(cs, k, depth, trail);
    assert cs[k] in cs;
    StackPush(nodes, rank, slots, depths, curs, trails, e,
              slots + [e.slot], depths + [e.depth], curs + [e.cur], trails + [e.trail]);
    var later := KidEntries(nodes, rank, n, k + 1, depth, trail);
    assert KidEntries(nodes, rank, n, k, depth, trail) == Entries(nodes, rank, e) + later;
    Assoc(Entries(nodes, rank, e), later, below);
  }

  /** Pushes the child slots of n, rightmost first, so that the leftmost is
      on top: the pending entries grow by the entries of all of n's child
      slots, in order. */
  method PushKids<T>(ghost nodes: Arena<T>, ghost rank: map<NodeId, nat>, n: NodeId, cs: seq<Option<NodeId>>,
                     curDepth: nat, trailingMargin: seq<bool>,
                     slots: seq<Option<NodeId>>, depths: seq<nat>, curs: seq<seq<bool>>, trails: seq<seq<bool>>)
    returns (slots': seq<Option<NodeId>>, depths': seq<nat>, curs': seq<seq<bool>>, trails': seq<seq<bool>>)
    requires Ranked(nodes, rank) && ChildrenLinked(nodes) && n in nodes && cs == nodes[n].children
    requires Stacks(nodes, slots, depths, curs, trails)
    ensures Stacks(nodes, slots', depths', curs', trails')
    ensures StackEntries(nodes, rank, slots', depths', curs', trails') ==
      KidEntries(nodes, rank, n, 0, curDepth + 1, trailingMargin) + StackEntries(nodes, rank, slots, depths, curs, trails)
  {
    ghost var below := StackEntries(nodes, rank, slots, depths, curs, trails);
    slots', depths', curs', trails' := slots, depths, curs, trails;
    var k: nat := |cs|;
    assert StackEntries(nodes, rank, slots', depths', curs', trails') ==
      KidEntries(nodes, rank, n, k, curDepth + 1, trailingMargin) + below;
    while k > 0
      invariant k <= |cs|
      invariant Stacks(nodes, slots', depths', curs', trails')
      invariant StackEntries(nodes, rank, slots', depths', curs', trails') ==
        KidEntries(nodes, rank, n, k, curDepth + 1, trailingMargin) + below
    {
      k := k - 1;
      var childPtr := cs[k];
      var nextMargin := trailingMargin + [true];
      var nextTrailingMargin := trailingMargin;
      if k == |cs| - 1 {
        // The rightmost child leaves a blank trailing in the margin.
        nextTrailingMargin := nextTrailingMargin + [false];
      } else {
        nextTrailingMargin := nextTrailingMargin + [true];
      }
      PushChild(nodes, rank, n, k, curDepth + 1, trailingMargin, slots', depths', curs', trails', below);
      slots' := slots' + [childPtr];
      depths' := depths' + [curDepth + 1];
      curs' := curs' + [nextMargin];
      trails' := trails' + [nextTrailingMargin];
    }
  }

  /** The state of Print between two rounds: the lines written so far
      render the entries already popped, and those followed by what the
      stacks still hold are the whole walk. */
  ghost predicate Printing<T>(nodes: Arena<T>, root: Option<NodeId>, rank: map<NodeId, nat>, show: T -> string,
                              out: string, slots: seq<Option<NodeId>>, depths: seq<nat>,
                              curs: seq<seq<bool>>, trails: seq<seq<bool>>, emitted: seq<Entry>) {
    WellFormed(nodes, root, rank) && root.Some? &&
    Stacks(nodes, slots, depths, curs, trails) && Placed(nodes, emitted) &&
    emitted + StackEntries(nodes, rank, slots, depths, curs, trails) == Walk(nodes, root, rank) &&
    out == Text(nodes, emitted, show)
  }

  /** The stack loop of Print: pop a slot with its depth and margins, draw
      it, and push its child slots. */
  method RenderArena<T>(nodes: Arena<T>, root: Option<NodeId>, ghost rank: map<NodeId, nat>, show: T -> string)
    returns (out: string)
    requires WellFormed(nodes, root, rank)
    ensures out == Rendered(nodes, root, rank, show)
  {
    if root.None? {
      return "[empty tree]\n";
    }
    var nodesToExplore: seq<Option<NodeId>> := [root];
    var depthStack: seq<nat> := [0];
    var curMarginStack: seq<seq<bool>> := [[]];
    var trailingMarginStack: seq<seq<bool>> := [[]];
    ghost var emitted: seq<Entry> := [];
    out := "";
    PrintingStarts(nodes, root, rank, show);
    while nodesToExplore != []
      invariant Printing(nodes, root, rank, show, out, nodesToExplore, depthStack, curMarginStack, trailingMarginStack, emitted)
      decreases |Walk(nodes, root, rank)| - |emitted|
    {
      out, nodesToExplore, depthStack, curMarginStack, trailingMarginStack, emitted :=
        RenderStep(nodes, root, rank, show, out, nodesToExplore, depthStack, curMarginStack, trailingMarginStack, emitted);
    }
    PrintingEnds(nodes, root, rank, show, out, emitted);
  }

  /** Before the first round the stacks hold the root alone. */
  lemma PrintingStarts<T>(nodes: Arena<T>, root: Option<NodeId>, rank: map<NodeId, nat>, show: T -> string)
    requires WellFormed(nodes, root, rank) && root.Some?
    ensures Printing(nodes, root, rank, show, "", [root], [0], [[]], [[]], [])
  {
    StackStart(nodes, rank, Entry(root, 0, [], []));
    var none: seq<Entry> := [];
    assert none + Walk(nodes, root, rank) == Walk(nodes, root, rank);
    assert Placed(nodes, none) && Text(nodes, none, show) == "";
  }

  /** Stacks holding a single entry owe exactly that entry's subtree. */
  lemma StackStart<T>(nodes: Arena<T>, rank: map<NodeId, nat>, e: Entry)
    requires Ranked(nodes, rank) && ChildrenLinked(nodes)
    requires e.slot.Some? ==> e.slot.value in nodes
    ensures Stacks(nodes, [e.slot], [e.depth], [e.cur], [e.trail])
    ensures StackEntries(nodes, rank, [e.slot], [e.depth], [e.cur], [e.trail]) == Entries(nodes, rank, e)
  {
    var none: seq<Entry> := [];
    StackPush(nodes, rank, [], [], [], [], e, [e.slot], [e.depth], [e.cur], [e.trail]);
    assert StackEntries(nodes, rank, [], [], [], []) == none;
    assert Entries(nodes, rank, e) + none == Entries(nodes, rank, e);
  }

  /** Once the stacks are empty the whole walk has been written. */
  lemma PrintingEnds<T>(nodes: Arena<T>, root: Option<NodeId>, rank: map<NodeId, nat>, show: T -> string,
                        out: string, emitted: seq<Entry>)
    requires Printing(nodes, root, rank, show, out, [], [], [], [], emitted)
    ensures out == Rendered(nodes, root, rank, show)
  {
    assert emitted + [] == emitted;
  }


  /** One round of the Print loop. */
  method RenderStep<T>(nodes: Arena<T>, root: Option<NodeId>, ghost rank: map<NodeId, nat>, show: T -> string,
                       out: string, nodesToExplore: seq<Option<NodeId>>, depthStack: seq<nat>,
                       curMarginStack: seq<seq<bool>>, trailingMarginStack: seq<seq<bool>>, ghost emitted: seq<Entry>)
    returns (out': string, slots': seq<Option<NodeId>>, depths': seq<nat>, curs': seq<seq<bool>>,
             trails': seq<seq<bool>>, ghost emitted': seq<Entry>)
    requires nodesToExplore != []
    requires Printing(nodes, root, rank, show, out, nodesToExplore, depthStack, curMarginStack, trailingMarginStack, emitted)
    ensures Printing(nodes, root, rank, show, out', slots', depths', curs', trails', emitted')
    ensures |emitted'| == |emitted| + 1
    ensures |StackEntries(nodes, rank, slots', depths', curs', trails')| <
      |StackEntries(nodes, rank, nodesToExplore, depthStack, curMarginStack, trailingMarginStack)|
  {
    var k := |nodesToExplore| - 1;
    var curNode := nodesToExplore[k];
    slots' := nodesToExplore[..k];
    var curDepth := depthStack[k];
    depths' := depthStack[..k];
    var curMargin := curMarginStack[k];
    curs' := curMarginStack[..k];
    var trailingMargin := trailingMarginStack[k];
    trails' := trailingMarginStack[..k];

    var top := Entry(curNode, curDepth, curMargin, trailingMargin);
    assert curNode in nodesToExplore;
    assert Stacks(nodes, slots', depths', curs', trails') by {
      forall x | Some(x) in slots' ensures x in nodes {
        assert Some(x) in nodesToExplore;
      }
    }
    SplitLast(nodesToExplore);
    SplitLast(depthStack);
    SplitLast(curMarginStack);
    SplitLast(trailingMarginStack);
    StackPush(nodes, rank, slots', depths', curs', trails', top,
              nodesToExplore, depthStack, curMarginStack, trailingMarginStack);
    ghost var rest := StackEntries(nodes, rank, slots', depths', curs', trails');

    var payload;
    if curNode.Some? {
      payload := show(nodes[curNode.value].data);
    } else {
      payload := "[null]";
    }
    out' := WriteNode(out, curMargin, payload);
    TextSnoc(nodes, emitted, top, show);
    emitted' := emitted + [top];

    AfterPop(nodes, rank, emitted, top, rest);
    slots', depths', curs', trails' := Expand(nodes, rank, top, slots', depths', curs', trails');
  }

  /** Pushes the child slots of a popped live node that has children. */
  method Expand<T>(nodes: Arena<T>, ghost rank: map<NodeId, nat>, top: Entry,
                   slots: seq<Option<NodeId>>, depths: seq<nat>, curs: seq<seq<bool>>, trails: seq<seq<bool>>)
    returns (slots': seq<Option<NodeId>>, depths': seq<nat>, curs': seq<seq<bool>>, trails': seq<seq<bool>>)
    requires Ranked(nodes, rank) && ChildrenLinked(nodes)
    requires top.slot.Some? ==> top.slot.value in nodes
    requires Stacks(nodes, slots, depths, curs, trails)
    ensures Stacks(nodes, slots', depths', curs', trails')
    ensures StackEntries(nodes, rank, slots', depths', curs', trails') ==
      Kids(nodes, rank, top) + StackEntries(nodes, rank, slots, depths, curs, trails)
  {
    var curNode := top.slot;
    if curNode.Some? && |nodes[curNode.value].children| > 0 {
      slots', depths', curs', trails' :=
        PushKids(nodes, rank, curNode.value, nodes[curNode.value].children, top.depth, top.trail,
                 slots, depths, curs, trails);
    } else {
      slots', depths', curs', trails' := slots, depths, curs, trails;
      assert Kids(nodes, rank, top) == [];
      assert [] + StackEntries(nodes, rank, slots, depths, curs, trails) == StackEntries(nodes, rank, slots, depths, curs, trails);
    }
  }

  /** The entries of the child slots of a popped entry, none for a null
      slot. */
  ghost function Kids<T>(nodes: Arena<T>, rank: map<NodeId, nat>, e: Entry): seq<Entry>
    requires Ranked(nodes, rank) && ChildrenLinked(nodes)
    requires e.slot.Some? ==> e.slot.value in nodes
  {
    if e.slot.Some? then KidEntries(nodes, rank, e.slot.value, 0, e.depth + 1, e.trail) else []
  }

  /** Popping e, printing it and pushing its child slots leaves the printed
      and pending entries as they were. */
  lemma AfterPop<T>(nodes: Arena<T>, rank: map<NodeId, nat>, emitted: seq<Entry>, e: Entry, rest: seq<Entry>)
    requires Ranked(nodes, rank) && ChildrenLinked(nodes)
    requires e.slot.Some? ==> e.slot.value in nodes
    ensures (emitted + [e]) + (Kids(nodes, rank, e) + rest) == emitted + (Entries(nodes, rank, e) + rest)
    ensures e.slot.None? || |nodes[e.slot.value].children| == 0 ==> Kids(nodes, rank, e) == []
  {
    var kids := Kids(nodes, rank, e);
    assert Entries(nodes, rank, e) == [e] + kids;
    Assoc([e], kids, rest);
    Assoc(emitted, [e], kids + rest);
  }

  /** The arena of a root holding a with two leaf children holding b and c,
      added in that order. */
  function TwoChildren<T>(a: T, b: T, c: T): (nodes: Arena<T>)
    ensures nodes.Keys == {0, 1, 2}
  {
    map[0 := Node(None, [Some(1), Some(2)], a), 1 := Node(Some(0), [], b), 2 := Node(Some(0), [], c)]
  }

  const TwoChildrenRank: map<NodeId, nat> := map[0 := 0, 1 := 1, 2 := 1]

  /** That arena is a well-formed tree rooted at 0. */
  lemma TwoChildrenWellFormed<T>(a: T, b: T, c: T)
    ensures WellFormed(TwoChildren(a, b, c), Some(0), TwoChildrenRank)
  {
    var nodes := TwoChildren(a, b, c);
    var rank := TwoChildrenRank;
    forall n | n in nodes
      ensures n == 0 || n == 1 || n == 2
    {
    }
    assert Ranked(nodes, rank);
    forall p, x {:trigger Some(x) in nodes[p].children} | p in nodes && Some(x) in nodes[p].children
      ensures x in nodes && nodes[x].parent == Some(p)
    {
      assert p == 0 && (x == 1 || x == 2);
    }
    assert ParentsLinked(nodes);
    forall p | p in nodes ensures Distinct(nodes[p].children) {
      assert multiset(nodes[0].children) == multiset{Some(1), Some(2)};
    }
  }

  /** The pre-order entries of that tree: the root, then b, then c; b keeps
      a stem trailing below it, c, the rightmost child, a blank. */
  lemma TwoChildrenEntries<T>(a: T, b: T, c: T)
    requires WellFormed(TwoChildren(a, b, c), Some(0), TwoChildrenRank)
    ensures Walk(TwoChildren(a, b, c), Some(0), TwoChildrenRank) ==
      [Entry(Some(0), 0, [], []), Entry(Some(1), 1, [true], [true]), Entry(Some(2), 1, [true], [false])]
  {
    var nodes := TwoChildren(a, b, c);
    var rank := TwoChildrenRank;
    var cs := nodes[0].children;
    var e1 := ChildEntry(cs, 0, 1, []);
    var e2 := ChildEntry(cs, 1, 1, []);
    assert Entries(nodes, rank, e1) == [e1];
    assert Entries(nodes, rank, e2) == [e2];
    assert KidEntries(nodes, rank, 0, 1, 1, []) == [e2];
    assert KidEntries(nodes, rank, 0, 0, 1, []) == [e1, e2];
    var e0 := Entry(Some(0), 0, [], []);
    assert Entries(nodes, rank, e0) == [e0] + [e1, e2];
    assert e1 == Entry(Some(1), 1, [true], [true]) && e2 == Entry(Some(2), 1, [true], [false]);
  }

  /** The arena of a root holding a alone. */
  function RootOnly<T>(a: T): (nodes: Arena<T>)
    ensures nodes.Keys == {0} && nodes[0].parent.None? && nodes[0].children == []
  {
    map[0 := Node(None, [], a)]
  }

  /** Print draws a tree of one node as its payload line alone. */
  lemma RootOnlyPicture<T>(a: T, show: T -> string)
    ensures WellFormed(RootOnly(a), Some(0), map[0 := 0])
    ensures Rendered(RootOnly(a), Some(0), map[0 := 0], show) == show(a) + "\n"
  {
    var nodes := RootOnly(a);
    var e0 := Entry(Some(0), 0, [], []);
    assert KidEntries(nodes, map[0 := 0], 0, 0, 1, []) == [];
    assert Entries(nodes, map[0 := 0], e0) == [e0];
    assert [e0][..0] == [];
    assert NodeText([], show(a)) == show(a) + "\n";
    assert Text(nodes, [e0], show) == "" + (show(a) + "\n");
    assert "" + (show(a) + "\n") == show(a) + "\n";
  }

  /** A node whose current margin is one stem: a connector row "|" and a
      payload row "|_ ". */
  lemma ChildRows(payload: string)
    ensures NodeText([true], payload) == "|\n|_ " + payload + "\n"
  {
    NodeTextShape([], true, [true], payload);
    assert Pad([]) == "";
    assert Pad([]) + "|\n" == "|\n";
    assert Pad([]) + (Stem(true) + "_ ") == "|_ ";
    assert "|\n" + "|_ " == "|\n|_ ";
  }

  /** Print draws that tree as the root's payload line and, for each child,
      a connector row "|" and a payload row "|_ ". */
  lemma TwoChildrenPicture<T>(a: T, b: T, c: T, show: T -> string)
    ensures WellFormed(TwoChildren(a, b, c), Some(0), TwoChildrenRank)
    ensures Rendered(TwoChildren(a, b, c), Some(0), TwoChildrenRank, show) ==
      (show(a) + "\n") + ("|\n|_ " + show(b) + "\n") + ("|\n|_ " + show(c) + "\n")
  {
    var nodes := TwoChildren(a, b, c);
    TwoChildrenWellFormed(a, b, c);
    TwoChildrenEntries(a, b, c);
    var e0 := Entry(Some(0), 0, [], []);
    var e1 := Entry(Some(1), 1, [true], [true]);
    var e2 := Entry(Some(2), 1, [true], [false]);
    var es := [e0, e1, e2];
    ChildRows(show(b));
    ChildRows(show(c));
    assert NodeText([], show(a)) == show(a) + "\n";
    assert es[..2] == [e0, e1] && [e0, e1][..1] == [e0] && [e0][..0] == [];
    var la, lb, lc := show(a) + "\n", "|\n|_ " + show(b) + "\n", "|\n|_ " + show(c) + "\n";
    assert Text(nodes, [e0], show) == "" + la;
    assert "" + la == la;
    assert Text(nodes, [e0, e1], show) == la + lb;
    assert Text(nodes, es, show) == (la + lb) + lc;
    assert Rendered(nodes, Some(0), TwoChildrenRank, show) == Text(nodes, es, show);
  }
}
