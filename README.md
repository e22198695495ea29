# GenericTree in Dafny

A model of `GenericTree<T>` from `GenericTree.h`. It is an ordered N-ary tree
built from raw pointers: each `TreeNode` has a parent pointer, a vector of
child pointers and a payload. The model covers the following operations:

- **createRoot.** Installs the one root and refuses a second one.
- **TreeNode::addChild.** Appends a new rightmost child.
- **deleteSubtree.**
  - checks ownership by walking up to the root;
  - nulls the target's slot in its parent, leaving a tombstone;
  - explores the subtree with a stack, skipping null slots;
  - destroys what it explored;
  - resets the root when the root was the target.
- **clear.**
- **compress.** A breadth-first pass with a queue that filters the null
  slots out of every child vector.
- **Print.** A pre-order walk with four parallel stacks (node, depth,
  current margin, trailing margin) that draws the tree with `|`, `_ ` and
  blank glyphs.

The pointer graph is an arena, `map<NodeId, Node<T>>`:

- A node has `parent: Option<NodeId>`, `children: seq<Option<NodeId>>` and
  `data: T`.
- A `None` child slot is the null pointer that deleteSubtree leaves behind.
- Allocation hands out the next unused id. `delete` removes the id from the
  arena.
- A ghost rank map gives every node its depth. This rules out cycles and
  makes the parent walk and the traversals terminate.
- `WellFormed` states:
  - parents and children agree;
  - no live child appears twice in one vector;
  - the root is the only parentless node;
  - the arena is empty exactly when there is no root.

The class `GenericTrees.GenericTree` holds the arena, the root and the
next id as fields. Its methods update them and are proved against pure
specifications:

- `Attach`, `AfterDelete` and `Compacted` give the new arena.
- `Rendered` gives the printed text.

Modules:

- `wrappers.dfy`: `Option` and `Result`.
- `arena.dfy`:
  - the node arena and its well-formedness;
  - parent chains and subtrees;
  - the invariant shared by the explore stack and the compress queue.
- `construction.dfy`: addChild.
- `deletion.dfy`: the tombstone step and the nodes that deleteSubtree
  removes.
- `compaction.dfy`: compress.
- `render.dfy`: Print's text and the stack loop that writes it.
- `generic_tree.dfy`: the class and the loops of deleteSubtree and compress.

A node pointer given to deleteSubtree is a `NodeRef`: the tree that owns
the node, plus the node's id in that tree's arena. A node of another tree
therefore has a different root above it, as in the source.

About the output format:

- The root's line has no margin, so a tree of one node `A` prints `A\n`.
  `Rendering.RootOnlyPicture` proves this.
- Every other node gets two rows:
  - a connector row, which ends in the stem `|`;
  - a payload row, which ends in `|_ ` before the payload.
- Both rows are drawn behind the margin columns of the node's ancestors.
- So a root `A` with children `B` and `C` prints `A\n|\n|_ B\n|\n|_ C\n`.
  `Rendering.TwoChildrenPicture` proves this.

## Model

| member | source | states |
|---|---|---|
| TreeArena.Ancestors | GenericTree.h:163-168 | the parent chain that the walk-back loop visits; it contains the node it starts from |
| TreeArena.Linked | GenericTree.h:24-26 | the pointer-graph invariant: every node has a depth one more than its parent's; a live child slot names a node whose parentPtr is the slot's owner; a node with a parent is listed by it; no vector lists a child twice |
| TreeArena.WellFormed | GenericTree.h:55 | Linked, plus: the arena is empty exactly when rootNodePtr is null, and the root is the only node without a parent |
| Deletion.Detach | GenericTree.h:179-206 | the tombstone step: where t has a parent, the first slot of that parent holding t becomes null; it keeps every id |
| Compaction.CompactedOn | GenericTree.h:308-334 | the arena part-way through compress: the nodes already dequeued have filtered vectors, the others are as they were; it keeps every id |
| Rendering.Cell | GenericTree.h:410-440 | one margin column of one row: a line break only in the last column of the connector row, an underscore only in the last column of the payload row |
| Rendering.Cells | GenericTree.h:410-443 | one margin row: three characters for each column before the last, and a line break exactly when the last column of a connector row is drawn |
| Rendering.MarginRows | GenericTree.h:406-446 | the margin rows of a node; a node without margin columns, the root, has none |
| Rendering.NodeText | GenericTree.h:406-453 | the drawing of one node ends its line, and a node without margin is drawn as its payload line alone |
| Rendering.ChildEntry | GenericTree.h:464-489 | the entry pushed for child slot i: one level deeper; its current margin is the parent's trailing margin plus a stem; its trailing margin adds a blank exactly for the rightmost child and a stem for every other |
| Rendering.Label | GenericTree.h:448-453 | the payload line of a slot: the node's data as shown, or "[null]" for a null pointer |
| Rendering.Rendered | GenericTree.h:349-494 | what Print writes: "[empty tree]" and a line break for an empty tree, otherwise the drawings of the pre-order walk from the root |
| Rendering.StackEntries | GenericTree.h:354-369 | the entries that the four parallel stacks still owe: the top entry's whole subtree first, then the entries below it |
| Rendering.RootOnlyPicture | GenericTree.h:349-453 | Print draws a tree of one node as its payload and a line break, with no margin rows |
| GenericTrees.GenericTree.Valid | GenericTree.h:55 | the class invariant: the arena is a well-formed tree whose ids are all below the next id to allocate |
| TreeArena.AncestorsAbove | GenericTree.h:163-168 | every node on a parent chain is live and no deeper than the node the chain starts from |
| TreeArena.AncestorsCount | GenericTree.h:163-168 | a node's parent chain holds exactly rank + 1 distinct nodes, so the rank is the node's depth |
| TreeArena.RankBelowSize | GenericTree.h:163-168 | a node's depth is below the number of nodes, which bounds every walk down the tree |
| TreeArena.RootIsAncestor | GenericTree.h:163-171 | in a well-formed tree, walking up from any node reaches the root |
| TreeArena.SubtreeOfRoot | GenericTree.h:85-94 | every node of a well-formed tree lies below the root |
| TreeArena.ChildInSubtree | GenericTree.h:249-254 | a live child of a node below t is below t, one level deeper |
| TreeArena.ClosedHoldsSubtree | GenericTree.h:210-256 | any set that holds t and is closed under live children contains t's whole subtree |
| TreeArena.SubtreeDownClosed | GenericTree.h:249-254 | t's subtree is closed under live children, and each child names its parent |
| TreeArena.FrontierStart | GenericTree.h:217 | a traversal that starts with t alone pending satisfies the work-list invariant |
| TreeArena.FrontierSkip | GenericTree.h:240-244 | popping a null slot from the work list keeps the work-list invariant |
| TreeArena.FrontierVisit | GenericTree.h:246-254 | popping a live node and pushing its child slots keeps the work-list invariant; the node was pending and not yet visited |
| TreeArena.FrontierComplete | GenericTree.h:220-256 | once the work list is empty, the visited set is exactly t's subtree |
| Construction.Attach | GenericTree.h:141-149 | addChild: the new node c is a leaf holding the data whose parent is p; p's child vector grows by one slot, Some(c), after all its old slots, tombstones included; p keeps its parent and payload, and every other node is unchanged |
| Construction.AttachWellFormed | GenericTree.h:141-149 | addChild keeps a well-formed tree well-formed, with the new node one level below its parent |
| Construction.AttachKeepsAncestors | GenericTree.h:141-149 | attaching a leaf changes no existing node's parent chain |
| Construction.AttachThenDelete | GenericTree.h:179-206 | deleting a freshly added child restores the arena, except that the parent's last slot is now a tombstone |
| Deletion.FirstSlot | GenericTree.h:186-196 | the search stops at the first slot that holds the target; no earlier slot holds it |
| Deletion.Tombstone | GenericTree.h:186-190 | nulling the slot that holds t keeps the vector's length and every other slot, removes t from the live slots, and keeps them distinct |
| Deletion.DetachOthers | GenericTree.h:179-207 | the tombstone step changes only t's parent, and no parent pointer or payload |
| Deletion.DetachSlots | GenericTree.h:179-207 | in t's parent, the slot that held t becomes null, with the same length and every other slot kept |
| Deletion.DetachLive | GenericTree.h:179-207 | after the tombstone step t is in no live slot, every other live slot is kept, and the live slots stay distinct |
| Deletion.AfterDelete | GenericTree.h:210-285 | exactly the nodes whose parent chain passes through the target are destroyed |
| Deletion.DeleteKeepsOthers | GenericTree.h:179-285 | every surviving node other than the target's parent is unchanged |
| Deletion.DeleteTombstones | GenericTree.h:179-206 | the target's parent survives with the target's slot nulled and its length, other slots, parent and payload kept |
| Deletion.DeleteLeaf | GenericTree.h:210-285 | deleting a node without live children removes that node alone |
| Deletion.DeleteLastSlot | GenericTree.h:186-190 | deleting the node in its parent's last slot turns that slot into a tombstone |
| Deletion.DeleteWellFormed | GenericTree.h:287-291 | deleteSubtree keeps the tree well-formed; the tree becomes empty exactly when the target was the root, and then the root is reset |
| Deletion.DeleteRootEmpties | GenericTree.h:85-94 | deleting the root removes every node |
| Deletion.RootSurvives | GenericTree.h:287-291 | deleting a node other than the root keeps the root, and it stays the only parentless node |
| Deletion.DetachKeepsSubtree | GenericTree.h:210-256 | the tombstone step leaves every node of the target's subtree as it was, so the explore loop sees the original subtree |
| Deletion.AfterDeleteOf | GenericTree.h:260-285 | removing the explored nodes from the detached arena gives exactly the arena after deletion |
| Compaction.Compact | GenericTree.h:321-331 | the filtered vector has no null slot, is no longer than the original, and holds exactly the live slots |
| Compaction.CompactPrefix | GenericTree.h:323-331 | filtering one more slot appends it if it is live and nothing otherwise |
| Compaction.CompactConcat | GenericTree.h:321-334 | filtering distributes over concatenation, so surviving slots keep their relative order |
| Compaction.CompactMultiset | GenericTree.h:321-331 | each live slot keeps its multiplicity and every null slot is gone |
| Compaction.CompactLive | GenericTree.h:321-331 | a vector without null slots is left unchanged |
| Compaction.CompactDistinct | GenericTree.h:321-331 | filtering keeps live slots distinct |
| Compaction.Compacted | GenericTree.h:297-337 | compress keeps the same nodes with the same parents and payloads and the same live children, and leaves no null slot |
| Compaction.CompactedOnStep | GenericTree.h:334 | swapping in one node's filtered vector moves that node into the compressed part |
| Compaction.CompactedOrder | GenericTree.h:321-334 | each new child vector is the old one without null slots, in the old order |
| Compaction.CompressVisit | GenericTree.h:308-331 | dequeuing a live node and enqueuing its live children keeps the queue invariant; no null pointer is ever queued |
| Compaction.CompactedWellFormed | GenericTree.h:297-337 | compress keeps a well-formed tree well-formed |
| Compaction.CompactedIdempotent | GenericTree.h:297-337 | a second compress changes nothing |
| Rendering.CellsPad | GenericTree.h:437-440 | every margin column before the last draws a stem or a blank followed by two spaces |
| Rendering.NodeTextShape | GenericTree.h:406-453 | a node with margin p + [b] draws a connector row (padding, then a stem only if b) and a payload row (padding, then the stem or blank and "_ ") |
| Rendering.ChildRows | GenericTree.h:423-435 | a node whose margin is a single stem column is drawn as a connector row holding just the stem glyph, then a payload row holding the stem glyph, an underscore and a space before its payload |
| Rendering.Entries | GenericTree.h:373-492 | the pre-order entries of a slot start with the slot itself, and every live slot among them is a node |
| Rendering.StackPush | GenericTree.h:461-489 | pushing one entry on the four stacks puts its whole subtree in front of what was pending |
| Rendering.TextSnoc | GenericTree.h:406-453 | drawing one more entry appends its node text |
| Rendering.EntriesLayout | GenericTree.h:469-489 | each entry has current and trailing margins as long as its depth; a child's margin ends in a stem; children are deeper than their parent; a live entry's depth offset equals its rank offset |
| Rendering.KidEntriesLayout | GenericTree.h:469-489 | the entries of a node's children sit one level deeper, with margins as long as their depth |
| Rendering.KidSlots | GenericTree.h:461-467 | every child slot of a node begins an entry among its children's entries |
| Rendering.EntriesExpanded | GenericTree.h:457-467 | every live node that Print shows has all its live children shown too |
| Rendering.KidEntriesExpanded | GenericTree.h:457-467 | the entries of a node's children are closed under live children |
| Rendering.Walk | GenericTree.h:354-369 | Print's walk starts at the root at depth 0 with empty margins |
| Rendering.WalkCovers | GenericTree.h:373-492 | Print shows every node of the tree, and every live slot it shows is a node of the tree |
| Rendering.WalkPicture | GenericTree.h:406-453 | the k-th printed entry is at its node's depth with margins of that length; only the root is at depth 0 and is drawn as just its payload line; every other node gets a connector row ending in the stem glyph and a payload row ending in the stem glyph, an underscore and a space, both behind the padding of its outer margin columns |
| Rendering.EntriesLive | GenericTree.h:448-453 | when no child vector holds a null slot, no printed entry below a live node is null |
| Rendering.KidEntriesLive | GenericTree.h:448-453 | the same, for the entries of a node's children |
| Rendering.CompactedPrintsNoNull | GenericTree.h:448-453 | after compress, Print shows no "[null]" line |
| Rendering.WriteNode | GenericTree.h:408-453 | the two margin rows and the payload line append exactly the node's text |
| Rendering.WriteRow | GenericTree.h:410-443 | one margin row appends exactly that row's glyphs, column by column |
| Rendering.PushChild | GenericTree.h:464-489 | pushing child k on top of the entries for the children after k gives the entries for the children from k on |
| Rendering.PushKids | GenericTree.h:458-491 | pushing the children rightmost first puts all of their entries, left to right, in front of what was pending |
| Rendering.RenderArena | GenericTree.h:349-494 | the stack loop writes exactly Rendered: "[empty tree]\n" for an empty tree, otherwise the text of the pre-order walk |
| Rendering.PrintingStarts | GenericTree.h:354-369 | the four stacks seeded with the root at depth 0 and empty margins hold the whole walk |
| Rendering.StackStart | GenericTree.h:354-369 | stacks seeded with a single entry owe exactly that entry's subtree of the walk |
| Rendering.PrintingEnds | GenericTree.h:373 | once the stacks are empty, everything written is the whole walk |
| Rendering.RenderStep | GenericTree.h:373-492 | one round pops one entry, writes its text and pushes its children, keeping the loop invariant and emitting one entry |
| Rendering.Expand | GenericTree.h:457-492 | the pending entries grow in front by exactly the entries of the popped node's child slots, left to right; a null slot adds none |
| Rendering.AfterPop | GenericTree.h:373-492 | popping an entry and pushing its children leaves the same walk: emitted plus pending |
| Rendering.TwoChildrenWellFormed | GenericTree.h:138-150 | that arena is a well-formed tree |
| Rendering.TwoChildrenEntries | GenericTree.h:458-489 | its walk is the root, then the first child with a trailing stem, then the rightmost child with a trailing blank |
| Rendering.TwoChildrenPicture | GenericTree.h:340-497 | Print draws that tree as the root's payload line, then, for each child in order, a connector row with the stem glyph and a payload row with the stem glyph and an underscore before the child's payload |
| GenericTrees.AttachAllocated | GenericTree.h:141-149 | after addChild every id stays below the next id to allocate, and the tree stays well-formed |
| GenericTrees.DeleteAllocated | GenericTree.h:177-291 | deleteSubtree keeps the tree well-formed and allocated |
| GenericTrees.GenericTree.constructor | GenericTree.h:71 | a new tree is empty |
| GenericTrees.GenericTree.WithRoot | GenericTree.h:75-77 | the tree holds exactly one parentless node with the given data, and it is the root |
| GenericTrees.GenericTree.CreateRoot | GenericTree.h:115-135 | with a root already present, it fails with RootAlreadyExists and changes nothing; otherwise the tree becomes a single parentless node holding the data, which becomes the root and is returned |
| GenericTrees.GenericTree.AddChild | GenericTree.h:138-150 | the new id was not in the tree, and the arena becomes Attach of the old one |
| GenericTrees.GenericTree.DeleteSubtree | GenericTree.h:153-294 | a null target changes nothing; a node of another tree is refused and nothing changes; otherwise the arena becomes AfterDelete and the root is reset exactly when it was the target |
| GenericTrees.GenericTree.Clear | GenericTree.h:85-94 | afterwards the tree is empty and has no root |
| GenericTrees.GenericTree.Compress | GenericTree.h:297-337 | the arena becomes Compacted of the old one and stays well-formed |
| GenericTrees.GenericTree.Print | GenericTree.h:340-497 | the text written is Rendered of the tree, which is "[empty tree]\n" for an empty tree; the tree is not modified |
| GenericTrees.AttachInArena | GenericTree.h:138-150 | the arena part of addChild: a fresh id becomes the rightmost child of the parent |
| GenericTrees.DeleteChecked | GenericTree.h:162-291 | the ownership check: a node of another tree fails with NodeOfAnotherTree and nothing changes; otherwise the subtree is deleted |
| GenericTrees.TopOf | GenericTree.h:163-168 | the walk up the parent pointers ends at a parentless node on the target's parent chain |
| GenericTrees.DeleteInArena | GenericTree.h:177-291 | the arena becomes AfterDelete, and the root is reset exactly when the target was the root |
| GenericTrees.RemoveSubtree | GenericTree.h:179-285 | tombstone, explore and destroy together give AfterDelete |
| GenericTrees.NullSlot | GenericTree.h:179-207 | the first slot of the parent that holds the target becomes null; a parentless target changes nothing |
| GenericTrees.ExploreSubtree | GenericTree.h:210-256 | the delete stack lists every node of the target's subtree exactly once and nothing else |
| GenericTrees.ExploreStep | GenericTree.h:220-254 | one round either skips a null slot, shrinking the stack, or lists one new node of the subtree |
| GenericTrees.PushSlots | GenericTree.h:251-254 | every child slot, null ones included, is pushed in vector order |
| GenericTrees.DestroyAll | GenericTree.h:260-285 | exactly the listed nodes leave the arena; the others are unchanged |
| GenericTrees.CompressArena | GenericTree.h:299-335 | the queue loop turns the arena into Compacted and keeps it well-formed |
| GenericTrees.CompressStep | GenericTree.h:311-334 | one round filters the front node's vector and queues its live children; no null pointer is ever dequeued |
| GenericTrees.FilterChildren | GenericTree.h:321-331 | the new vector is the old one without null slots, and exactly those slots are appended to the queue |

## Left out

- Debug tracing: the `showDebugMessages` field and the branches it guards (GenericTree.h:228-237, 268-277, 391-402) are not modelled. They write diagnostic text, and in Print a depth line replaces the drawing. The model is the default, with the flag off.
- The `std::cerr` messages printed before exceptions are not modelled. A refused operation returns a `Failure` value: `RootAlreadyExists` for createRoot and `NodeOfAnotherTree` for deleteSubtree. The model does not terminate the program.
- Three throws are unreachable in a well-formed tree, and the model proves it:
  - the target missing from its parent's vector (GenericTree.h:200-206);
  - a null pointer dequeued by compress (GenericTree.h:314-318);
  - clear finding the root not reset (GenericTree.h:91-93).
- `new` and `delete`: allocation hands out the next unused id, and destruction removes an id from the arena. The order in which the delete stack destroys nodes is not modelled. Only the set of destroyed nodes is.
- `GenericTrees.GenericTree.DeleteSubtree`: `TopOf` walks the arena of the tree that owns the target. For a node of another tree, the outcome is decided by tree identity alone, because ids of different arenas can coincide. The source compares root pointers instead, and these differ whenever the trees differ.
- `GenericTrees.GenericTree.Print`: `os << data` is a foreign call, so the payload is rendered by a `show` parameter. `std::endl` is modelled as "\n"; the flush is not. The output stream is a returned string.
- `getRootPtr` (GenericTree.h:61-63) is the `root` field itself. It is not a separate member.
- `operator<<` (GenericTree.h:107-110), the deleted copy constructors and assignments, and the destructors (GenericTree.h:49, 97-99) are language plumbing and are not modelled. The destructor is just `clear`.
- `Rendering.WalkCovers`: it proves that Print shows every node of the tree and nothing outside it. It does not prove that each node is shown exactly once.
- `int` depth (GenericTree.h:360, 382) is modelled as an unbounded `nat`. Depths above INT_MAX, where the source's `curDepth+1` would overflow, are not modelled.
- TreeNode's public surface (GenericTree.h:21-50) is not modelled:
  - **The public fields `parentPtr`, `childrenPtrs` and `data`.** Through a pointer returned by createRoot or addChild, a caller can write `node->data`, and later Print output shows the change. The model has no such write. A payload is fixed when its node is created.
  - **Rewriting `childrenPtrs` or `parentPtr`, and the public constructors `TreeNode()` and `TreeNode(data)`.** A caller can break the pointer graph or build a node outside any tree. Those are the only ways to reach the throw at GenericTree.h:200-206. A standalone node also reaches the different-tree throw at GenericTree.h:171-172.
  - **What the model gives instead.** Its API is the class `GenericTrees.GenericTree`, and `Valid` keeps every tree well-formed by construction. The three throws above are unreachable only under that restriction.
