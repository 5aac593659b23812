# swell layout model in Dafny

A model of the tiling layout core of the swell window manager, with proofs.

The core is a forest of nodes kept in an arena. Every node has five links: parent, previous and next sibling, first and last child. Three components observe the forest:

- the **selection** remembers, for each container, which child was last selected and whether the selection stops there;
- the **layout** records a size for each node, a total for each container and a layout kind (Horizontal, Vertical, Tabbed or Stacked);
- the **layout tree** ties the forest to windows and to spaces (one tree per space).

On top of the core sit:

- the layout manager, which turns user commands and window events into tree operations;
- the reactor, which keeps the list of windows in order and lays them out in a binary split of the screen.

The model is written in the source's own form:

- The arena (`NodeArena.Forest`) is a class. Its field `nodes` is a `map<NodeId, Node>` with the five `Option` links. Its methods update that field one link at a time, as the Rust code does.
- Two ghost fields, `kids` (the ordered child list of each node) and `depth`, witness the invariant `ForestLinks.Linked`. That invariant says the links form a forest whose sibling chains are exactly the child lists.
- The observer is modelled as a returned sequence of `ObserverCall` values (`AddedToForest`, `AddedToParent`, `RemovingFromParent`, `RemovedFromForest`), in the order the source makes the calls.
- The selection, layout and layout tree are classes whose methods are proved against value-level functions, for example:
  - `Selections.Walk`, the descent that `current_selection` performs;
  - `Selections.AfterRemoving`, the rule for re-selecting after a child leaves;
  - `Layouts.Frames`, the rectangles that `apply` produces;
  - `Navigation.Aim`, the destination `move_node_inner` chooses;
  - `Resizing.ResizeInfo`, the effect of `resize`.
- The properties are proved about those functions as lemmas.

Files and modules:

| file | module | source it models |
|---|---|---|
| `types.dfy` | `Types` | identifiers and rectangles |
| `forest_links.dfy` | `ForestLinks` | the link structure of `model/node.rs` and `tree.rs`, with its invariant |
| `node_arena.dfy` | `NodeArena` | `model/node.rs` |
| `legacy_tree.dfy` | `LegacyTrees` | `tree.rs` |
| `selection.dfy` | `Selections` | `model/selection.rs` |
| `layout.dfy` | `Layouts` | `model/layout.rs` |
| `navigation.dfy` | `Navigation` | the traversal and move logic of `model/layout_tree.rs` |
| `resizing.dfy` | `Resizing` | the resize logic of `model/layout_tree.rs` |
| `layout_tree.dfy` | `LayoutTrees` | `model/layout_tree.rs` |
| `space_tree.dfy` | `SpaceTrees` | `model/tree.rs` |
| `manager.dfy` | `Manager` | `layout.rs` |
| `reactor.dfy` | `Reactors` | `reactor.rs` |
| `tree_fits.dfy`, `space_fits.dfy`, `edit_fits.dfy` | `TreeFits`, `SpaceFits`, `EditFits` | invariants tying the components together, and the lemmas that keep them |

`tree.rs` is an older, observer-less copy of the same arena. Its operations have the same link updates as `model/node.rs`, so they are modelled by the methods of `NodeArena.Forest`; only `Tree::new` is a member of its own (`LegacyTrees.Tree`). The two files differ only in the observer calls, which `tree.rs` does not make.

`layout_tree.rs` relies on a generic observer-carrying tree type. That type provides `with_observer`, `detach`, `replace`, `mk_node().push_back/insert_before` and the `removed_child` hook. Its source is not part of this model, so its behaviour is modelled from the way `layout_tree.rs` calls it, using the same arena operations (`LayoutTrees.LayoutTree.Detach`, `AttachBack`, `AttachBefore`, `AttachAfter`, `Cull`).

## Model

| member | source | states |
|---|---|---|
| `NodeArena.Forest.constructor` | crates/swell/src/model/node.rs:18-20 | a new forest is empty and satisfies the forest invariant |
| `NodeArena.Forest.MkNode` | crates/swell/src/model/node.rs:23-25 | a fresh key is inserted with all five links empty; nothing else changes |
| `NodeArena.Forest.NewRoot` | crates/swell/src/model/node.rs:62-66 | a fresh unlinked root is added, the invariant is kept, and its subtree is just itself |
| `NodeArena.Forest.HLinkAfter` | crates/swell/src/model/node.rs:302-311 | `x` becomes the next sibling of `prev`; the old next sibling, if any, is moved after `x`, with both directions of each link set |
| `NodeArena.Forest.HLinkBefore` | crates/swell/src/model/node.rs:313-322 | the mirror image: `x` becomes the previous sibling of `next` and the old previous sibling is moved before it |
| `NodeArena.Forest.LinkUnderBack` | crates/swell/src/model/node.rs:261-268 | the links become those of the child list with `x` appended under `p` (`InsertLinks` at the end) |
| `NodeArena.Forest.LinkUnderFront` | crates/swell/src/model/node.rs:270-277 | the links become those of the child list with `x` prepended under `p` |
| `NodeArena.Forest.LinkBefore` | crates/swell/src/model/node.rs:279-288 | `x` is linked into `next`'s parent at `next`'s position; the parent of `next` must exist (the source panics otherwise) |
| `NodeArena.Forest.LinkAfter` | crates/swell/src/model/node.rs:290-300 | `x` is linked into `prev`'s parent just after `prev` |
| `NodeArena.Forest.AttachBack` | crates/swell/src/model/node.rs:261-268 | on a valid forest, re-linking a detached subtree root at the end of `p`'s children appends it to the child list, keeps the invariant and keeps its subtree |
| `NodeArena.Forest.AttachFront` | crates/swell/src/model/node.rs:270-277 | the same at the front of the child list |
| `NodeArena.Forest.AttachBefore` | crates/swell/src/model/node.rs:279-288 | the same, inserted at the index of `next`; every other parent link is kept |
| `NodeArena.Forest.AttachAfter` | crates/swell/src/model/node.rs:290-300 | the same, spliced just after `prev` |
| `NodeArena.Forest.UnlinkRecord` | crates/swell/src/model/node.rs:328-344 | the neighbours of the removed record are re-linked around it, and the parent's first and last child are moved off it |
| `NodeArena.Forest.DeleteRecursive` | crates/swell/src/model/node.rs:346-355 | it deletes exactly the proper descendants of the node, each once, and keeps every other record |
| `NodeArena.Forest.TakeAndUnlink` | crates/swell/src/model/node.rs:240-246 | the node's record is taken out and returned, and its siblings and parent no longer refer to it |
| `NodeArena.Forest.Remove` | crates/swell/src/model/node.rs:239-248 | the whole subtree is removed and the node is cut out of its parent's child list. The observer gets `RemovingFromParent(id)`, then one `RemovedFromForest` for each deleted descendant. The invariant is kept |
| `NodeArena.Forest.Detach` | crates/swell/src/model/node.rs:328-344 | the node is cut out of its parent's child list and becomes a root; its subtree is kept whole |
| `NodeArena.Forest.PushBack` | crates/swell/src/model/node.rs:203-210 | a fresh node is appended to `p`'s children; the calls are `AddedToForest` then `AddedToParent`; the invariant is kept |
| `NodeArena.Forest.PushFront` | crates/swell/src/model/node.rs:212-219 | a fresh node is prepended to `p`'s children, with the same calls |
| `NodeArena.Forest.InsertBefore` | crates/swell/src/model/node.rs:221-228 | a fresh node is inserted just before `next` in its parent's child list |
| `NodeArena.Forest.InsertAfter` | crates/swell/src/model/node.rs:230-237 | a fresh node is inserted just after `prev` in its parent's child list |
| `NodeArena.Forest.Children` | crates/swell/src/model/node.rs:124-129 | following `first_child` and then `next_sibling` yields exactly the child list, and each child's parent is the node |
| `NodeArena.Forest.ChildrenRev` | crates/swell/src/model/node.rs:132-137 | following `last_child` and then `prev_sibling` yields exactly the reversed child list |
| `ForestLinks.Ancestors` | crates/swell/src/model/node.rs:141-148 | the ancestors start with the node itself, follow parent links, and end at a root |
| `NodeArena.AncestorsWithParentIn` | crates/swell/src/model/node.rs:152-162 | each ancestor is paired with its parent, and the last pair has no parent |
| `ForestLinks.SiblingSymmetry` | crates/swell/src/model/node.rs:251-258 | in a valid forest, `a`'s next sibling is `b` exactly when `b`'s previous sibling is `a` |
| `ForestLinks.RootOf` | crates/swell/src/model/layout_tree.rs:66 | the last ancestor is a root that the node lies under |
| `NodeArena.OwnedNode.Own` | crates/swell/src/model/node.rs:69-71 | a new owner holds the node, so dropping it would panic |
| `NodeArena.OwnedNode.NewRootIn` | crates/swell/src/model/node.rs:62-66 | creates a fresh unlinked root, owned, and reports only `AddedToForest` |
| `NodeArena.OwnedNode.Remove` | crates/swell/src/model/node.rs:82-84 | takes the id, so a later drop no longer panics, and removes the subtree as `Forest.Remove` does |
| `LegacyTrees.Tree.constructor` | crates/swell/src/tree.rs:18-23 | `Tree::new` inserts a fresh node with no links and makes it the root |
| `Selections.Walk` | crates/swell/src/model/selection.rs:17-26 | the current selection lies under the root and is a node where the walk stops: it has no entry, or its entry is marked to stop |
| `Selections.Selection.CurrentSelection` | crates/swell/src/model/selection.rs:17-26 | the loop returns `Walk` from the root |
| `Selections.LocalOf` | crates/swell/src/model/selection.rs:28-34 | there is no local selection exactly when the node has no entry or its entry stops there; otherwise it is the recorded child |
| `Selections.LocalOfIsChild` | crates/swell/src/model/selection.rs:28-34 | in a coherent selection, a local selection is a child of the node |
| `Selections.Selection.LocalSelection` | crates/swell/src/model/selection.rs:28-34 | the method agrees with `LocalOf` |
| `Selections.Selection.SelectLocally` | crates/swell/src/model/selection.rs:36-46 | a root changes nothing; otherwise the parent's entry becomes this node without a stop, so the node is the parent's local selection; coherence is kept |
| `Selections.MarkStops` | crates/swell/src/model/selection.rs:49-51 | after marking, the walk from the node stops at the node itself |
| `Selections.SelectReaches` | crates/swell/src/model/selection.rs:52-62 | pointing each ancestor's entry at the child on the path makes the walk from the root reach what the walk from the node reached |
| `Selections.Selection.Select` | crates/swell/src/model/selection.rs:48-63 | after `select`, the current selection of the node's tree is that node, and coherence is kept |
| `Selections.RemovalRule` | crates/swell/src/model/selection.rs:70-79 | if the removed node was the parent's selected child, the next sibling is selected, else the previous one, else the entry is dropped; the stop flag is kept; otherwise nothing changes |
| `Selections.RemovingFrame` | crates/swell/src/model/selection.rs:65-79 | removing a node changes the local selection of no node other than its parent |
| `Selections.RemovingCoherent` | crates/swell/src/model/selection.rs:65-79 | after the node is cut out, every remaining entry still names a child |
| `Selections.Selection.HandleEvent` | crates/swell/src/model/selection.rs:65-84 | additions change nothing, `RemovingFromParent` applies the removal rule, and `RemovedFromForest` drops the node's own entry |
| `Selections.LastSelected` | crates/swell/src/model/layout_tree.rs:139 | `last_selection` is the recorded child whether or not the entry stops |
| `Selections.LastSelectedIsChild` | crates/swell/src/model/layout_tree.rs:139 | in a coherent selection, that child is a child of the node |
| `Selections.NestedSelectionSteps` | crates/swell/src/model/layout_tree.rs:309-327 | the selection updates that nesting a node makes all together give `NestedSelection` |
| `Selections.PathTo` | crates/swell/src/model/layout_tree.rs:207 | the ancestors taken up to the old parent start at the node and exclude the old parent |
| `Selections.PathSelected` | crates/swell/src/model/layout_tree.rs:206-210 | after `select_locally` on each node of that path, each is its parent's local selection |
| `Selections.WalkSelects` | crates/swell/src/model/selection.rs:17-26 | if the walk from `k` ends below its child `z`, then `z` is `k`'s local selection and the walk from `z` ends at the same node |
| `Selections.CurrentIsLocal` | crates/swell/src/model/selection.rs:17-26 | the current selection of a tree is its parent's local selection |
| `Selections.WalkUp` | crates/swell/src/model/selection.rs:17-26 | if each node on a path is its parent's local selection, the walk from the top of the path ends where the walk from its bottom does |
| `Selections.SelectionKept` | crates/swell/src/model/layout_tree.rs:198-212 | moving the current selection and re-selecting along the path to the old parent leaves it the current selection |
| `Layouts.KindOrientation` | crates/swell/src/model/layout.rs:33-39 | Horizontal and Tabbed are horizontal; Vertical and Stacked are vertical |
| `Layouts.DirOrientation` | crates/swell/src/model/layout.rs:60-66 | Left and Right are horizontal; Up and Down are vertical |
| `Layouts.FromOrientation` | crates/swell/src/layout.rs:140-145 | the ungrouped kind of an orientation has that orientation and is not a group |
| `Layouts.GroupOf` | crates/swell/src/layout.rs:146-153 | the group kind of an orientation has that orientation and is a group |
| `Layouts.AddedBalanced` | crates/swell/src/model/layout.rs:82-86 | after a child joins with size 1 and its parent's total grows by 1, the parent's total is still the sum of its children's sizes |
| `Layouts.LeavingBalanced` | crates/swell/src/model/layout.rs:87-89 | after the leaving child's size is subtracted, the parent's total is the sum over the remaining children |
| `Layouts.EventsKeepOthers` | crates/swell/src/model/layout.rs:80-94 | those updates leave the balance of every other container intact |
| `Layouts.Layout.HandleEvent` | crates/swell/src/model/layout.rs:80-94 | `AddedToParent` sets size 1 and adds 1 to the parent's total; `RemovingFromParent` subtracts the node's size; `RemovedFromForest` drops the record |
| `Layouts.Layout.SetKind` | crates/swell/src/model/layout.rs:96-98 | only the node's kind changes, and an ungrouped kind is also remembered as the last ungrouped kind |
| `Layouts.Layout.Kind` | crates/swell/src/model/layout.rs:100-102 | returns the recorded kind |
| `Layouts.Layout.LastUngroupedKind` | crates/swell/src/model/layout_tree.rs:292-294 | the last ungrouped kind is never a group |
| `Layouts.Layout.Total` | crates/swell/src/model/layout.rs:109-111 | in a balanced container, the total is the sum of its children's sizes |
| `Layouts.Layout.Proportion` | crates/swell/src/model/layout.rs:104-107 | `None` exactly for a root; otherwise the node's size over its parent's total |
| `Layouts.ProportionsSumToOne` | crates/swell/src/model/layout.rs:104-107 | the proportions of the children of a balanced container with a non-zero total add up to 1 |
| `Layouts.ShareKeepsSum` | crates/swell/src/model/layout.rs:113-119 | the share is clamped to the donor's size and to minus the taker's size. The pair's sum is kept and both sizes stay non-negative. A share inside the bounds moves exactly. No other record changes |
| `Layouts.ShareBalanced` | crates/swell/src/model/layout.rs:113-119 | moving a share between two siblings keeps their parent balanced |
| `Layouts.Layout.TakeShare` | crates/swell/src/model/layout.rs:113-119 | the new records are `Shared` of the old |
| `Layouts.TakenBalanced` | crates/swell/src/model/layout_tree.rs:312 | a new sibling that takes over a node's size keeps every container balanced |
| `Layouts.Layout.AssumeSizeOf` | crates/swell/src/model/layout_tree.rs:312 | the heir gets the original's size and the parent's total is adjusted by the difference |
| `Layouts.KidFramesStep` | crates/swell/src/model/layout.rs:161-194 | each child gets a slice of the container along its orientation, in proportion to its size, starting where the previous slice ended |
| `Layouts.FramesTiles` | crates/swell/src/model/layout.rs:137-196 | the layout yields exactly one frame for each window below the node, in depth-first child order |
| `Layouts.GroupFrames` | crates/swell/src/model/layout.rs:156-160 | every child of a Tabbed or Stacked container is laid out in the container's whole rect, whatever kind of node it is |
| `Layouts.GroupWindowFrames` | crates/swell/src/model/layout.rs:145-160 | a group of windows gives each window the group's rect |
| `Layouts.Layout.Apply` | crates/swell/src/model/layout.rs:137-196 | the recursion appends `Frames` of the node to the output |
| `Layouts.Layout.ApplyChild` | crates/swell/src/model/layout.rs:157-193 | one turn of a child loop adds that child's frames and moves the position on |
| `Layouts.Layout.GetSizes` | crates/swell/src/model/layout.rs:125-135 | returns `Frames` of the root, whose window ids are exactly `Tiles`, the windows in depth-first order |
| `Layouts.NestedInfoSteps` | crates/swell/src/model/layout_tree.rs:311-313 | inserting a container, taking over the node's size and moving the node under it gives `NestedInfo`; the old parent is unchanged |
| `Layouts.NestedShare` | crates/swell/src/model/layout_tree.rs:311-313 | a nested node keeps its share of the old parent, and fills its new container whole |
| `Navigation.MoveOverSibling` | crates/swell/src/model/layout_tree.rs:184-196 | `move_over` gives `s` exactly when the parent is laid out along the direction and `s` is the adjacent child on that side |
| `Navigation.DescendStepChild` | crates/swell/src/model/layout_tree.rs:171-180 | one descent step stops exactly at a leaf. Along the direction, it takes the last child for Up and Left and the first for Down and Right. Otherwise it takes the local selection, else the first child |
| `Navigation.DescendLeaf` | crates/swell/src/model/layout_tree.rs:171-181 | the descent ends at a leaf under its start |
| `Navigation.ClimbFirst` | crates/swell/src/model/layout_tree.rs:164-168 | the climb gives the `move_over` result of the first ancestor where it succeeds |
| `Navigation.TraverseSpec` | crates/swell/src/model/layout_tree.rs:162-182 | `traverse` fails exactly when `move_over` fails from every ancestor; otherwise it ends at a leaf below the sibling found |
| `Navigation.SeekSpec` | crates/swell/src/model/layout_tree.rs:225-236 | the descent into the sibling stops at a leaf, or at the child chosen in the first container laid out along the direction |
| `Navigation.RiseSpec` | crates/swell/src/model/layout_tree.rs:247-256 | the upward search fails exactly when no ancestor's parent is laid out along the direction; otherwise it finds the first such ancestor |
| `Navigation.AimSpec` | crates/swell/src/model/layout_tree.rs:214-267 | a leaf sibling gives `Ahead` of that sibling; a container sibling gives `Behind` the node found inside it; with no sibling, `Ahead` of the first ancestor whose parent is laid out along the direction; there is no destination exactly when no such ancestor exists, and a new root is then needed |
| `Navigation.Landed` | crates/swell/src/model/layout_tree.rs:268-281 | the node is placed right after the target when landing `Ahead` moving right or down, or `Behind` moving left or up, and right before it otherwise; the list gains only the node |
| `Navigation.SwapLanding` | crates/swell/src/model/layout_tree.rs:268-281 | landing `Ahead` of a sibling `s`, in the list with the node cut out, gives the original list with the node and `s` exchanged, whichever the direction |
| `Navigation.AimSwap` | crates/swell/src/model/layout_tree.rs:225-239 | moving over a leaf sibling aims `Ahead` of it, and the landing exchanges the two in their parent's list |
| `Navigation.PlacementSwap` | crates/swell/src/model/layout_tree.rs:237-239 | wherever `move_node_inner` leaves the node (`Placement`), a move over a leaf sibling is a swap (`Swapped`): the node keeps its parent, it and the sibling exchange places, and nothing else in that list moves |
| `Navigation.BesideRoot` | crates/swell/src/model/layout_tree.rs:260-266 | under the fresh root, the node lands beside the old root, before it moving left or up and after it otherwise, or alone when the old root was culled |
| `Resizing.ResizeTargetNone` | crates/swell/src/model/layout_tree.rs:336-345 | there is nothing to resize exactly when no ancestor has a sibling in the direction under an ungrouped parent |
| `Resizing.ResizeTargetFirst` | crates/swell/src/model/layout_tree.rs:343 | the node resized is the first such ancestor |
| `Resizing.ResizeInfoShared` | crates/swell/src/model/layout_tree.rs:346-370 | `resize` moves the local share, which is the screen ratio times the parent's total over the exchange rate, from the sibling to that ancestor |
| `Resizing.ResizeMovesShare` | crates/swell/src/model/layout_tree.rs:334-373 | only the resized node and its sibling change size; their sum and all totals are kept; with no target nothing changes |
| `Resizing.ResizeAllBalanced` | crates/swell/src/model/layout_tree.rs:334-373 | every container stays balanced |
| `Resizing.EdgeDeltas` | crates/swell/src/model/layout_tree.rs:393-412 | the left and right deltas add up to the change in width, and the up and down deltas to the change in height |
| `Resizing.FrameRightEdge` | crates/swell/src/model/layout_tree.rs:379-419 | moving only the right edge resizes once, to the right, by the change in width over the screen width |
| `Resizing.FrameKeepsBalanced` | crates/swell/src/model/layout_tree.rs:379-419 | a resize from a frame change keeps every container balanced |
| `LayoutTrees.LayoutTree.constructor` | crates/swell/src/model/layout_tree.rs:55-63 | a new layout tree is empty and valid |
| `LayoutTrees.LayoutTree.Dispatch` | crates/swell/src/model/layout_tree.rs:469-500 | each tree event reaches the selection and then the layout, with the effect each of them states |
| `LayoutTrees.LayoutTree.Space` | crates/swell/src/model/layout_tree.rs:147-156 | the first call for a space creates and records a fresh root; later calls return that root and change nothing |
| `LayoutTrees.LayoutTree.AddWindow` | crates/swell/src/model/layout_tree.rs:65-72 | a fresh node is appended under the parent. It is recorded as the window, and under the window with the space of the parent's root |
| `LayoutTrees.LayoutTree.AddWindows` | crates/swell/src/model/layout_tree.rs:74-80 | one node per window is appended, in order, and earlier windows are kept |
| `LayoutTrees.LayoutTree.AddContainer` | crates/swell/src/model/layout_tree.rs:113-117 | a fresh node of the given kind is appended under the parent |
| `LayoutTrees.LayoutTree.RetainWindows` | crates/swell/src/model/layout_tree.rs:82-93 | exactly the windows the predicate rejects lose their records and their nodes; emptied containers are culled |
| `LayoutTrees.LayoutTree.DropWindow` | crates/swell/src/model/layout_tree.rs:84-89 | every node of one rejected window is removed, and only those |
| `LayoutTrees.LayoutTree.Windows` | crates/swell/src/model/layout_tree.rs:95-97 | every window listed has nodes that record it, and every node's window is listed |
| `LayoutTrees.LayoutTree.WindowNode` | crates/swell/src/model/layout_tree.rs:99-106 | `None` exactly when no node of the window is on the space; otherwise a node of the window on that space |
| `LayoutTrees.LayoutTree.WindowAt` | crates/swell/src/model/layout_tree.rs:108-110 | `None` exactly when the node is not a window; otherwise the window, which lists the node |
| `LayoutTrees.LayoutTree.Select` | crates/swell/src/model/layout_tree.rs:119-121 | afterwards the node is the current selection of its tree |
| `LayoutTrees.LayoutTree.Selection` | crates/swell/src/model/layout_tree.rs:123-126 | always `Some`, a node under the root that `Walk` reaches |
| `LayoutTrees.LayoutTree.AscendSelection` | crates/swell/src/model/layout_tree.rs:128-134 | it moves exactly when the current selection has a parent, and then the parent becomes the current selection |
| `LayoutTrees.LayoutTree.DescendSelection` | crates/swell/src/model/layout_tree.rs:136-145 | it moves exactly when the current selection has a last-selected child, and then that child becomes the current selection |
| `LayoutTrees.LayoutTree.Layout` | crates/swell/src/model/layout_tree.rs:288-290 | the node's recorded kind |
| `LayoutTrees.LayoutTree.LastUngroupedLayout` | crates/swell/src/model/layout_tree.rs:292-294 | never a group kind |
| `LayoutTrees.LayoutTree.SetLayout` | crates/swell/src/model/layout_tree.rs:296-298 | only the node's kind changes; a group kind leaves the last ungrouped kind as it was |
| `LayoutTrees.LayoutTree.NestInContainer` | crates/swell/src/model/layout_tree.rs:300-332 | there are three cases. An only child reuses its parent. A node with siblings gets a new container in its place, with its size and selection. A root gets a new root that takes over its space. Each case gives the parent the kind |
| `LayoutTrees.LayoutTree.Resize` | crates/swell/src/model/layout_tree.rs:334-373 | it resizes exactly when a target exists, and the new records are `ResizeInfo` |
| `LayoutTrees.LayoutTree.CheckAndResize` | crates/swell/src/model/layout_tree.rs:387-392 | a non-zero delta counts once and resizes by delta over whole |
| `LayoutTrees.LayoutTree.SetFrameFromResize` | crates/swell/src/model/layout_tree.rs:379-419 | all four edges are checked and resized, and the call panics exactly when more than two edges moved |
| `LayoutTrees.LayoutTree.CalculateLayout` | crates/swell/src/model/layout_tree.rs:158-160 | returns `Frames` of the root: one frame per window, in order |
| `LayoutTrees.LayoutTree.Detach` | crates/swell/src/model/layout_tree.rs:270-280 | the node is cut out with its subtree and becomes a root; the selection applies the removal rule and the layout subtracts its size |
| `LayoutTrees.LayoutTree.AttachBefore` | crates/swell/src/model/layout_tree.rs:273 | a detached node is inserted before the target, and the layout counts it in |
| `LayoutTrees.LayoutTree.AttachAfter` | crates/swell/src/model/layout_tree.rs:270 | a detached node is inserted after the target, and the layout counts it in |
| `LayoutTrees.LayoutTree.AttachBack` | crates/swell/src/model/layout_tree.rs:313 | a detached node is appended under the parent, and the layout counts it in |
| `LayoutTrees.LayoutTree.Cull` | crates/swell/src/model/layout_tree.rs:488-495 | an emptied non-root container is removed, and so on upwards. Roots are never removed. Only nodes above the start go, selections elsewhere are kept, and every surviving child list is its old list with the removed nodes taken out (`KidsSurvive`) |
| `EditFits.CullKids` | crates/swell/src/model/layout_tree.rs:488-495 | cutting the emptied parent out and then culling further up leaves every surviving child list as the original one with the removed nodes taken out |
| `LayoutTrees.LayoutTree.Prune` | crates/swell/src/model/layout_tree.rs:492-494 | one empty non-root container is detached and removed |
| `LayoutTrees.LayoutTree.Interpose` | crates/swell/src/model/layout_tree.rs:311-312 | a fresh container is inserted before the node and takes over its size |
| `LayoutTrees.LayoutTree.Adopt` | crates/swell/src/model/layout_tree.rs:313 | the node moves under its new sibling, carrying its subtree |
| `LayoutTrees.LayoutTree.NestBelow` | crates/swell/src/model/layout_tree.rs:308-317 | the node is replaced in its parent's list by a fresh container holding only it, with `NestedSelection` and `NestedInfo` |
| `LayoutTrees.LayoutTree.NestRoot` | crates/swell/src/model/layout_tree.rs:318-327 | a fresh root above the old root takes over its space, selecting the old root |
| `LayoutTrees.LayoutTree.FindDestination` | crates/swell/src/model/layout_tree.rs:220-267 | the destination is `Aim` |
| `LayoutTrees.LayoutTree.Relocate` | crates/swell/src/model/layout_tree.rs:268-281 | the node is cut from its parent's list and put into the target's parent's list at the spot `Landed` gives; every other child list is as after the cut |
| `LayoutTrees.LayoutTree.Land` | crates/swell/src/model/layout_tree.rs:268-282 | after the relocation and the cull, the node's new parent is the target's parent, whose list is the `Landed` list less the culled nodes, and exactly the `Landed` list when the node stayed under its old parent; nothing is culled when the old parent kept another child |
| `LayoutTrees.LayoutTree.MoveAboveRoot` | crates/swell/src/model/layout_tree.rs:260-281 | with no destination, a fresh root laid out along the direction takes over the old root's space and holds the node and the old root, in the order of the direction; the node is alone there only when the cull took the old root, which cannot happen when its old parent kept another child |
| `LayoutTrees.LayoutTree.MoveNodeInner` | crates/swell/src/model/layout_tree.rs:214-282 | the node lands where `Placement` says: in its target's parent's list on the side `Landed` gives, less the containers the move emptied; with no destination, beside the old root under a fresh root laid out along the direction |
| `LayoutTrees.LayoutTree.MoveNode` | crates/swell/src/model/layout_tree.rs:198-212 | it moves exactly when the node has a parent. A moved node lands where `Placement` says and swaps with a leaf sibling it moves over (`Swapped`). One that was its parent's local selection is re-selected up to the old parent, and one that was the current selection stays the current selection |
| `LayoutTrees.LayoutTree.SelectUpTo` | crates/swell/src/model/layout_tree.rs:206-210 | `select_locally` is applied to each ancestor up to the old parent |
| `SpaceTrees.Tree.constructor` | crates/swell/src/model/tree.rs:40-47 | a new tree is empty |
| `SpaceTrees.Tree.Space` | crates/swell/src/model/tree.rs:88-93 | a root is created on first use and returned unchanged afterwards |
| `SpaceTrees.Tree.AddWindow` | crates/swell/src/model/tree.rs:49-54 | a fresh node is appended under the space root and recorded as the window; the selection ignores the addition |
| `SpaceTrees.Tree.AddWindows` | crates/swell/src/model/tree.rs:56-62 | one appended node per window, in order |
| `SpaceTrees.Tree.RemoveWindow` | crates/swell/src/model/tree.rs:66-70 | the window node is removed after `RemovingFromParent` reaches the selection; the selection then drops it |
| `SpaceTrees.Tree.RetainWindows` | crates/swell/src/model/tree.rs:64-74 | exactly the nodes of rejected windows are removed |
| `SpaceTrees.Tree.Windows` | crates/swell/src/model/tree.rs:76-78 | the windows are exactly those recorded on nodes |
| `Manager.LayoutManager.constructor` | crates/swell/src/layout.rs:49-51 | a new manager holds an empty layout tree |
| `Manager.LayoutManager.AddWindow` | crates/swell/src/layout.rs:53-56 | the window is appended under the space's root |
| `Manager.LayoutManager.AddWindows` | crates/swell/src/layout.rs:58-61 | one node per window is appended under the space's root |
| `Manager.LayoutManager.RetainWindows` | crates/swell/src/layout.rs:63-65 | exactly the rejected windows go |
| `Manager.LayoutManager.Windows` | crates/swell/src/layout.rs:68-70 | the windows of the layout tree |
| `Manager.LayoutManager.RaiseWindow` | crates/swell/src/layout.rs:75-81 | a raised window that has a node on the space becomes the current selection; otherwise nothing changes |
| `Manager.LayoutManager.ResizeWindow` | crates/swell/src/layout.rs:82-93 | a window with a node on the space is resized from its frame change, panicking on more than two moved edges; otherwise nothing changes |
| `Manager.LayoutManager.HandleEvent` | crates/swell/src/layout.rs:72-95 | dispatches the two events as above and always answers with no response |
| `Manager.LayoutManager.Raised` | crates/swell/src/layout.rs:115-125 | a window is raised exactly when traversing from the current selection lands on a window node |
| `Manager.LayoutManager.Focus` | crates/swell/src/layout.rs:115-125 | the method computes `Raised` |
| `Manager.LayoutManager.HandleCommand` | crates/swell/src/layout.rs:97-170 | MoveFocus raises the window `traverse` finds; NextWindow and PrevWindow are MoveFocus Left and Right; every other command answers with no response |
| `Manager.LayoutManager.RunCommand` | crates/swell/src/layout.rs:100-168 | focus commands, Shuffle and Debug leave the tree unchanged |
| `Manager.LayoutManager.MoveSelection` | crates/swell/src/layout.rs:134-139 | the current selection is moved only if it has a parent; a moved one lands where `Placement` says, swaps with a leaf sibling it moves over, and stays the current selection of its tree |
| `Manager.LayoutManager.SplitSelection` | crates/swell/src/layout.rs:140-145 | the selection ends up as the only child of a container of the ungrouped kind of the orientation |
| `Manager.LayoutManager.GroupSelection` | crates/swell/src/layout.rs:146-153 | the selection's parent, if any, takes the group kind of the orientation |
| `Manager.LayoutManager.UngroupSelection` | crates/swell/src/layout.rs:154-163 | a grouped parent of the selection returns to its last ungrouped kind; otherwise nothing changes |
| `Manager.LayoutManager.Calculate` | crates/swell/src/layout.rs:172-176 | one frame per window of the space's tree, in order |
| `Reactors.Keep` | crates/swell/src/reactor.rs:99-100 | the kept windows are a sub-list, all accepted by the predicate |
| `Reactors.KeepCounts` | crates/swell/src/reactor.rs:99-100 | each accepted window keeps its number of occurrences; rejected ones have none |
| `Reactors.Standard` | crates/swell/src/reactor.rs:93-95 | a window is listed exactly when the launch reports it as standard |
| `Reactors.Extend` | crates/swell/src/reactor.rs:96 | the map gains the reported windows, the last report winning, and keeps the others |
| `Reactors.MainScreen` | crates/swell/src/reactor.rs:127-136 | the main screen is the first frame with the first space, when both exist |
| `Reactors.Reactor.constructor` | crates/swell/src/reactor.rs:50-56 | a new reactor has no apps, windows or screen |
| `Reactors.Reactor.HandleEvent` | crates/swell/src/reactor.rs:87-152 | each event updates the apps, the window order, the window map, the main screen and the space as its arm does. A layout update follows every event except activation, move and resize |
| `Reactors.Turn` | crates/swell/src/reactor.rs:247-274 | the split turns to the other orientation |
| `Reactors.CalculateLayout` | crates/swell/src/reactor.rs:201-279 | one rect per window, and a single window gets the whole screen |
| `Reactors.HalvesTile` | crates/swell/src/reactor.rs:232-277 | the two halves lie in the screen, do not overlap, and cover its area |
| `Reactors.BspTiles` | crates/swell/src/reactor.rs:232-277 | every Bsp rect lies in the screen, no two overlap, and their areas add up to the screen's |
| `Reactors.SliceColumns` | crates/swell/src/reactor.rs:216-230 | horizontal slices are equal full-height columns, side by side from the left edge to the right edge |

## Left out

- `Layouts.Ratio`: a size over a total of 0 is taken as 0, where the source's floating-point division gives infinity or NaN.
  - `Layouts.Layout.Proportion`, `Layouts.Layout.Apply` (through `ChildRect`), `Resizing.ExchangeRate` and `Resizing.LocalShare` all use it.
  - For example, with an exchange rate of 0, the source's infinite share is clamped by `take_share` to the sibling's whole size; the model moves nothing.
  - Real numbers have no infinity or NaN.
- `Layouts.Layout.HandleEvent`: it has an `AddedToForest` arm that creates a default record, which the event match in `model/layout.rs` does not have.
  - The source's `entry(..).or_insert` in the `AddedToParent` arm creates the record lazily.
  - The model creates it one event earlier, so that every node has a record.
  - The event the source calls `RemovedFromTree` is `RemovedFromForest` here.
- `Layouts.Layout.LastUngroupedKind`: `last_ungrouped_kind` is called by the layout tree but its source is not shown. It is modelled as a field of each record, set by `SetKind` whenever the new kind is not a group.
- `Layouts.Layout.AssumeSizeOf`: `assume_size_of` is not shown. It is modelled as the heir taking the original's size, with the parent's total adjusted by the difference (`SizeTaken`).
- `Selections.LastSelected`: `last_selection` is not shown. It is modelled as the recorded selected child, regardless of the stop flag.
- `LayoutTrees.LayoutTree.RemoveLeaf`: the `remove` that follows `detach` in `parent.detach(tree).remove()` is modelled as removing an already detached, childless node. Only `RemovedFromForest` is reported, because `RemovingFromParent` was reported when the node was detached. The type that `detach` returns is not part of this model.
- `LayoutTrees.LayoutTree.Cull`: the `removed_child` hook is called by the tree type, whose source is not part of this model. The model runs it on the old parent at these points:
  - after a moved node has been re-inserted (`Land`);
  - after a window node has been removed (`RemoveWindowNode`).
- `NodeArena.Forest.InsertBefore`, `NodeArena.Forest.InsertAfter`, `NodeArena.Forest.LinkBefore`, `NodeArena.Forest.LinkAfter`: the source's panic "cannot make a sibling of the root node" is a precondition.
- `Layouts.Layout.TakeShare`: the `assert_eq!` that both nodes have the same parent is a precondition.
- `Layouts.Layout.HandleEvent`, `Selections.Selection.HandleEvent` and `LayoutTrees.LayoutTree.Dispatch`: the unwraps of the parent, and the indexing of records that must exist, are preconditions.
- `LayoutTrees.LayoutTree.SetFrameFromResize`: the panic on more than two moved edges is a returned `panics` flag. The resizes it performs beforehand are modelled, as in the source.
- `Reactors.Reactor.HandleEvent`: its preconditions stand for the source's panics:
  - indexing `apps`/`windows` with an unknown id;
  - `spaces[0]` on an empty list.
- `Reactors.CalculateLayout`: `Slice(Vertical)` is `todo!()` in the source and is excluded by a precondition. The window count is kept below 2^32 because the source casts it to `u32`.
- Floating point: `f32`/`f64` are real numbers. The `.round()` of each child rect in `apply` is not modelled, nor the `as f32` cast of the share in `resize`. The frames are exact proportions.
- The `Shuffle` command draws a random order. `Reactors.Reactor.HandleEvent` takes the shuffled order as a parameter, required to be a permutation. `Manager.LayoutManager.RunCommand` treats `Shuffle` as leaving the tree unchanged, as `layout.rs` does apart from its logging.
- `Debug`, `print_tree` and `draw_tree` only print, and are left out.
- `update_layout`, which sends frames to applications with animation, is left out because it is I/O. The reactor's `Command` and the decision to relayout are modelled.
- The application thread handle (`AppThreadHandle`), the event channel and `spawn` are left out because they are threads and I/O. `Reactors.Reactor` keeps only the `AppInfo` of each application.
- The `Hello` command only prints. `Reactors.Reactor.HandleEvent` models it as changing nothing.
- Node ids are integers handed out by a counter (`nextId`) rather than slot-map keys with generations. A removed id is never reused.
- Memory reservation (`reserve`, `set_capacity`) has no observable effect and is left out.
- The `Drop` impls of `LayoutTree` and `Tree` that forget the space roots are left out. `NodeArena.OwnedNode.DropPanics` states when dropping an owner would panic.
