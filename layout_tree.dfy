/**
 * The layout tree (crates/swell/src/model/layout_tree.rs): one forest whose
 * observer is the selection and the layout, the window nodes and the roots of
 * the spaces, and the operations the window manager drives it with.
 */
module LayoutTrees {
  import opened Types
  import opened ForestLinks
  import opened NodeArena
  import opened Selections
  import opened Layouts
  import opened TreeFits
  import opened EditFits
  import opened Navigation
  import opened Resizing

  /** The layout tree (`LayoutTree`). */
  class LayoutTree {
    /** The forest of the tree; its observer is the selection and the layout. */
    const forest: Forest
    const sel: Selection
    const lay: Layout
    /** The window shown by each window node. */
    var windows: map<NodeId, WindowId>
    /** The nodes of each window, with the space of each. */
    var windowNodes: map<WindowId, seq<WindowNodeInfo>>
    var spaceRoots: map<SpaceId, NodeId>
    var rootSpaces: map<NodeId, SpaceId>

    /** What every step keeps, including the steps inside an operation. */
    ghost predicate Core()
      reads this, forest, sel, lay
    {
      && forest.Valid()
      && Fits(forest.nodes, forest.kids, forest.nextId, sel.nodes, lay.info, windows, windowNodes, spaceRoots, rootSpaces)
      && AllBalanced(lay.info, forest.kids)
    }

    /** What holds between operations. */
    ghost predicate Valid()
      reads this, forest, sel, lay
    {
      Core() && Settled(forest.nodes, windows, windowNodes, rootSpaces)
    }

    /** `LayoutTree::new`: an empty forest, no windows and no spaces. */
    constructor ()
      ensures Valid() && forest.nodes == map[] && sel.nodes == map[] && lay.info == map[]
      ensures windows == map[] && windowNodes == map[] && spaceRoots == map[] && rootSpaces == map[]
    {
      forest := new Forest();
      sel := new Selection();
      lay := new Layout();
      windows, windowNodes, spaceRoots, rootSpaces := map[], map[], map[], map[];
    }

    /** `Components::dispatch_event`: the selection sees the event first, then the layout. */
    method Dispatch(event: ObserverCall)
      requires event.AddedToParent? ==> event.node in forest.nodes && forest.nodes[event.node].parent.Some?
      requires event.RemovingFromParent? ==>
                 && event.node in forest.nodes && forest.nodes[event.node].parent.Some?
                 && event.node in lay.info && forest.nodes[event.node].parent.value in lay.info
      modifies sel, lay
      ensures event.AddedToForest? ==> sel.nodes == old(sel.nodes) && lay.info == old(lay.info)[event.node := DefaultInfo]
      ensures event.AddedToParent? ==>
                && sel.nodes == old(sel.nodes)
                && lay.info == AfterAdded(old(lay.info), event.node, forest.nodes[event.node].parent.value)
      ensures event.RemovingFromParent? ==>
                && sel.nodes == AfterRemoving(old(sel.nodes), forest.nodes, event.node)
                && lay.info == AfterLeaving(old(lay.info), event.node, forest.nodes[event.node].parent.value)
      ensures event.RemovedFromForest? ==>
                sel.nodes == old(sel.nodes) - {event.node} && lay.info == old(lay.info) - {event.node}
    {
      sel.HandleEvent(forest, event);
      lay.HandleEvent(forest, event);
    }

    /**
     * `space`: the root of `space`, made on first use as a fresh root that
     * the layout records; later calls return the same root and change
     * nothing.
     */
    method Space(space: SpaceId) returns (root: NodeId)
      requires Valid()
      modifies this, forest, sel, lay
      ensures Valid()
      ensures space in spaceRoots && root == spaceRoots[space] && root in forest.nodes && forest.nodes[root].parent.None?
      ensures space in old(spaceRoots) ==>
                && root == old(spaceRoots[space])
                && unchanged(this) && unchanged(forest) && unchanged(sel) && unchanged(lay)
      ensures space !in old(spaceRoots) ==>
                && root !in old(forest.nodes) && forest.nodes == old(forest.nodes)[root := Unlinked]
                && forest.kids == old(forest.kids)[root := []]
                && spaceRoots == old(spaceRoots)[space := root] && rootSpaces == old(rootSpaces)[root := space]
                && sel.nodes == old(sel.nodes) && lay.info == old(lay.info)[root := DefaultInfo]
                && windows == old(windows) && windowNodes == old(windowNodes)
    {
      if space in spaceRoots {
        root := spaceRoots[space];
        return;
      }
      ghost var m, k, d, n, sl, info, ws, wn, sr, rs :=
        forest.nodes, forest.kids, forest.depth, forest.nextId, sel.nodes, lay.info, windows, windowNodes, spaceRoots, rootSpaces;
      FreshRootBalanced(m, k, d, info, n);
      root := forest.NewRoot();
      Dispatch(AddedToForest(root));
      rootSpaces := rootSpaces[root := space];
      spaceRoots := spaceRoots[space := root];
      FreshRootFits(m, k, n, sl, info, ws, wn, sr, rs, forest.nodes, forest.kids, forest.nextId, lay.info, spaceRoots, rootSpaces, root, space);
    }

    /** The push of `add_container` and `add_window`: a fresh node becomes the last child of `parent`. */
    method PushNode(parent: NodeId) returns (node: NodeId)
      requires Valid() && parent in forest.nodes && parent !in windows
      modifies forest, sel, lay
      ensures Valid()
      ensures node !in old(forest.nodes) && forest.nodes.Keys == old(forest.nodes.Keys) + {node}
      ensures forest.kids == old(forest.kids)[node := []][parent := old(forest.kids[parent]) + [node]]
      ensures forest.nodes[node].parent == Some(parent)
      ensures sel.nodes == old(sel.nodes)
      ensures lay.info == AfterAdded(old(lay.info)[node := DefaultInfo], node, parent)
    {
      ghost var m, k, d, n: int, sl, info :=
        forest.nodes, forest.kids, forest.depth, forest.nextId, sel.nodes, lay.info;
      var calls;
      node, calls := forest.PushBack(parent);
      ParentIff(forest.nodes, forest.kids, forest.depth, node, parent);
      Dispatch(calls[0]);
      Dispatch(calls[1]);
      ContainerPushedFits(m, k, d, n, sl, info, windows, windowNodes, spaceRoots, rootSpaces,
                          forest.nodes, forest.kids, forest.depth, forest.nextId, lay.info, node, parent);
      PushedBalanced(m, k, d, info, node, parent);
    }

    /** Records the leaf `node`, which is not a root, as a node of `wid` on `space`. */
    method RecordWindow(node: NodeId, wid: WindowId, space: SpaceId)
      requires Valid() && node in forest.nodes && forest.kids[node] == [] && forest.nodes[node].parent.Some?
      requires node !in windows
      modifies this
      ensures Valid()
      ensures windows == old(windows)[node := wid]
      ensures var infos := if wid in old(windowNodes) then old(windowNodes[wid]) else [];
              windowNodes == old(windowNodes)[wid := infos + [WindowNodeInfo(space, node)]]
      ensures spaceRoots == old(spaceRoots) && rootSpaces == old(rootSpaces)
    {
      WindowRecordedFits(forest.nodes, forest.kids, windows, windowNodes, rootSpaces, node, wid, space);
      WindowRecordedListed(windows, windowNodes, node, wid, space);
      var infos := if wid in windowNodes then windowNodes[wid] else [];
      windows := windows[node := wid];
      windowNodes := windowNodes[wid := infos + [WindowNodeInfo(space, node)]];
    }

    /**
     * `add_window`: a fresh window node becomes the last child of `parent`
     * and is recorded under `wid` with the space of the root above `parent`.
     */
    method AddWindow(parent: NodeId, wid: WindowId) returns (node: NodeId)
      requires Valid() && parent in forest.nodes && parent !in windows
      modifies this, forest, sel, lay
      ensures Valid()
      ensures node !in old(forest.nodes) && forest.nodes.Keys == old(forest.nodes.Keys) + {node}
      ensures forest.kids == old(forest.kids)[node := []][parent := old(forest.kids[parent]) + [node]]
      ensures forest.nodes[node].parent == Some(parent)
      ensures windows == old(windows)[node := wid]
      ensures old(RootOf(forest.nodes, forest.depth, parent) in rootSpaces)
      ensures var space := old(rootSpaces[RootOf(forest.nodes, forest.depth, parent)]);
              var infos := if wid in old(windowNodes) then old(windowNodes[wid]) else [];
              windowNodes == old(windowNodes)[wid := infos + [WindowNodeInfo(space, node)]]
      ensures sel.nodes == old(sel.nodes)
      ensures lay.info == AfterAdded(old(lay.info)[node := DefaultInfo], node, parent)
      ensures spaceRoots == old(spaceRoots) && rootSpaces == old(rootSpaces)
    {
      var root := RootOf(forest.nodes, forest.depth, parent);
      var space := rootSpaces[root];
      node := PushNode(parent);
      RecordWindow(node, wid, space);
    }
 
    /**
     * `add_windows`: each window of `wids` in turn gets a fresh window node
     * appended under `parent`; `nodes` are those nodes, in the same order.
     */
    method AddWindows(parent: NodeId, wids: seq<WindowId>) returns (ghost nodes: seq<NodeId>)
      requires Valid() && parent in forest.nodes && parent !in windows
      modifies this, forest, sel, lay
      ensures Valid() && |nodes| == |wids| && parent in forest.nodes
      ensures forest.kids[parent] == old(forest.kids[parent]) + nodes
      ensures forall j | 0 <= j < |nodes| :: nodes[j] !in old(forest.nodes) && nodes[j] in windows && windows[nodes[j]] == wids[j]
      ensures forall n | n in old(windows) :: n in windows && windows[n] == old(windows[n])
      ensures forall n | n in windows :: n in old(windows) || n in nodes
      ensures spaceRoots == old(spaceRoots) && rootSpaces == old(rootSpaces)
    {
      ghost var M, K, W := forest.nodes.Keys, forest.kids[parent], windows;
      nodes := [];
      var i := 0;
      while i < |wids|
        invariant 0 <= i <= |wids| && |nodes| == i
        invariant Valid() && parent in forest.nodes && parent !in windows && M <= forest.nodes.Keys
        invariant Appended(forest.kids[parent], windows, M, K, W, nodes, wids)
        invariant spaceRoots == old(spaceRoots) && rootSpaces == old(rootSpaces)
      {
        ghost var kp, ws, present := forest.kids[parent], windows, forest.nodes.Keys;
        WindowsPresent(forest.nodes, forest.kids, windows, windowNodes, rootSpaces);
        var node := AddWindow(parent, wids[i]);
        AppendStep(kp, ws, forest.kids[parent], windows, M, K, W, nodes, wids, node, present);
        nodes := nodes + [node];
        i := i + 1;
      }
    }

    /** `add_container`: a fresh node of layout `kind` becomes the last child of `parent`. */
    method AddContainer(parent: NodeId, kind: LayoutKind) returns (node: NodeId)
      requires Valid() && parent in forest.nodes && parent !in windows
      modifies forest, sel, lay
      ensures Valid()
      ensures node !in old(forest.nodes) && forest.nodes.Keys == old(forest.nodes.Keys) + {node}
      ensures forest.kids == old(forest.kids)[node := []][parent := old(forest.kids[parent]) + [node]]
      ensures forest.nodes[node].parent == Some(parent)
      ensures sel.nodes == old(sel.nodes)
      ensures Layout(node) == kind && (!IsGroup(kind) ==> LastUngroupedLayout(node) == kind)
      ensures lay.info == Kinded(AfterAdded(old(lay.info)[node := DefaultInfo], node, parent), node, kind)
    {
      node := PushNode(parent);
      SetLayout(node, kind);
    }

    /**
     * `windows`: the windows that have nodes. Each node recorded for one of
     * them is a window node showing it, and every window node's window is
     * among them.
     */
    function Windows(): (ws: set<WindowId>)
      reads this, forest
      ensures WindowsFit(forest.nodes, forest.kids, windows, windowNodes, rootSpaces) ==>
                forall w | w in ws :: w in windowNodes && forall i | 0 <= i < |windowNodes[w]| ::
                  windowNodes[w][i].node in windows && windows[windowNodes[w][i].node] == w
      ensures Listed(windows, windowNodes) ==> forall n | n in windows :: windows[n] in ws
    {
      windowNodes.Keys
    }

    /**
     * `window_node`: the first node of `wid` recorded on `space`, if any; it
     * is a window node showing `wid`.
     */
    function WindowNode(space: SpaceId, wid: WindowId): (r: Option<NodeId>)
      reads this
      ensures r.None? <==> wid !in windowNodes || forall i | 0 <= i < |windowNodes[wid]| :: windowNodes[wid][i].space != space
      ensures r.Some? ==> wid in windowNodes && exists i | 0 <= i < |windowNodes[wid]| ::
                windowNodes[wid][i] == WindowNodeInfo(space, r.value)
      ensures r.Some? && WindowsFit(forest.nodes, forest.kids, windows, windowNodes, rootSpaces) ==>
                r.value in windows && windows[r.value] == wid
    {
      if wid in windowNodes then FirstOnSpace(windowNodes[wid], space) else None
    }

    /** `window_at`: the window a node shows, if it is a window node; that window lists the node. */
    function WindowAt(node: NodeId): (r: Option<WindowId>)
      reads this
      ensures r.None? <==> node !in windows
      ensures r.Some? && Listed(windows, windowNodes) ==> r.value in windowNodes && node in NodesOf(windowNodes[r.value])
    {
      if node in windows then Some(windows[node]) else None
    }

    /**
     * `select`: `selection` becomes the current selection of its tree; every
     * ancestor selects the path down to it.
     */
    method Select(selection: NodeId)
      requires Valid() && selection in forest.nodes
      modifies sel
      ensures Valid()
      ensures sel.nodes == SelectPath(Mark(old(sel.nodes), selection), forest.nodes, forest.depth, selection)
      ensures Walk(sel.nodes, forest.nodes, forest.kids, forest.depth, RootOf(forest.nodes, forest.depth, selection)) == selection
    {
      ghost var sl := sel.nodes;
      sel.Select(forest, selection);
      SelectPathKeys(Mark(sl, selection), forest.nodes, forest.depth, selection);
      SelectionFits(forest.nodes, forest.kids, forest.nextId, sl, sel.nodes, lay.info, windows, windowNodes, spaceRoots, rootSpaces);
    }

    /** `selection`: the current selection below `root`, which lies in the tree of `root`. */
    method Selection(root: NodeId) returns (r: Option<NodeId>)
      requires Valid() && root in forest.nodes
      ensures r == Some(Walk(sel.nodes, forest.nodes, forest.kids, forest.depth, root))
      ensures r.value in forest.nodes && Under(forest.nodes, forest.depth, r.value, root)
    {
      var node := sel.CurrentSelection(forest, root);
      r := Some(node);
    }

    /**
     * `ascend_selection`: when the current selection below `root` has a
     * parent, that parent becomes the current selection of its tree (of
     * `root`, when `root` is a root); otherwise nothing changes.
     */
    method AscendSelection(root: NodeId) returns (moved: bool)
      requires Valid() && root in forest.nodes
      modifies sel
      ensures Valid()
      ensures var s := Walk(old(sel.nodes), forest.nodes, forest.kids, forest.depth, root);
              && moved == forest.nodes[s].parent.Some?
              && (!moved ==> sel.nodes == old(sel.nodes))
              && (moved ==>
                    var p := forest.nodes[s].parent.value;
                    && sel.nodes == SelectPath(Mark(old(sel.nodes), p), forest.nodes, forest.depth, p)
                    && Walk(sel.nodes, forest.nodes, forest.kids, forest.depth, RootOf(forest.nodes, forest.depth, p)) == p
                    && (forest.nodes[root].parent.None? ==> Walk(sel.nodes, forest.nodes, forest.kids, forest.depth, root) == p))
    {
      var current := Selection(root);
      var s := current.value;
      if forest.nodes[s].parent.None? {
        return false;
      }
      var p := forest.nodes[s].parent.value;
      RootOfUnder(forest.nodes, forest.depth, s, root);
      RootOfUnder(forest.nodes, forest.depth, s, p);
      Select(p);
      return true;
    }

    /**
     * `descend_selection`: when the current selection below `root` recalls a
     * last selected child, that child becomes the current selection of its
     * tree (of `root`, when `root` is a root); otherwise nothing changes.
     */
    method DescendSelection(root: NodeId) returns (moved: bool)
      requires Valid() && root in forest.nodes
      modifies sel
      ensures Valid()
      ensures var s := Walk(old(sel.nodes), forest.nodes, forest.kids, forest.depth, root);
              && moved == LastSelected(old(sel.nodes), s).Some?
              && (!moved ==> sel.nodes == old(sel.nodes))
              && (moved ==>
                    var c := LastSelected(old(sel.nodes), s).value;
                    && c in forest.nodes && forest.nodes[c].parent == Some(s)
                    && sel.nodes == SelectPath(Mark(old(sel.nodes), c), forest.nodes, forest.depth, c)
                    && Walk(sel.nodes, forest.nodes, forest.kids, forest.depth, RootOf(forest.nodes, forest.depth, c)) == c
                    && (forest.nodes[root].parent.None? ==> Walk(sel.nodes, forest.nodes, forest.kids, forest.depth, root) == c))
    {
      var current := Selection(root);
      var s := current.value;
      var child := LastSelected(sel.nodes, s);
      if child.None? {
        return false;
      }
      var c := child.value;
      LastSelectedIsChild(sel.nodes, forest.nodes, forest.kids, forest.depth, s);
      UnderTrans(forest.nodes, forest.depth, c, s, root);
      RootOfUnder(forest.nodes, forest.depth, c, root);
      Select(c);
      return true;
    }

    /** `layout`: the layout kind of `node`. */
    function Layout(node: NodeId): (k: LayoutKind)
      reads this, lay
      requires node in lay.info
      ensures k == lay.info[node].kind
    {
      lay.Kind(node)
    }

    /** `last_ungrouped_layout`: never a group while the tree is valid. */
    function LastUngroupedLayout(node: NodeId): (k: LayoutKind)
      reads this, forest, sel, lay
      requires node in lay.info
      ensures Core() ==> !IsGroup(k)
    {
      lay.LastUngroupedKind(node)
    }

    /**
     * `set_layout`: the node takes `kind`, which becomes its last ungrouped
     * kind unless a group. Only the layout changes, so `Valid` is kept too.
     */
    method SetLayout(node: NodeId, kind: LayoutKind)
      requires Core() && node in forest.nodes
      modifies lay
      ensures Core()
      ensures lay.info == Kinded(old(lay.info), node, kind)
      ensures Layout(node) == kind && (!IsGroup(kind) ==> LastUngroupedLayout(node) == kind)
      ensures IsGroup(kind) ==> LastUngroupedLayout(node) == old(LastUngroupedLayout(node))
    {
      ghost var info := lay.info;
      lay.SetKind(node, kind);
      InfoFits(forest.nodes, forest.kids, forest.nextId, sel.nodes, info, lay.info, windows, windowNodes, spaceRoots, rootSpaces);
      KindsOnlyBalanced(info, lay.info, forest.kids);
    }

    /**
     * `resize`: the nearest ancestor of `node` (itself included) whose parent
     * is not a group and which has a sibling in `dir` takes the screen ratio,
     * converted into a share of its parent, from that sibling; reports
     * whether there was one.
     */
    method Resize(node: NodeId, screenRatio: real, dir: Direction) returns (resized: bool)
      requires Valid() && node in forest.nodes
      modifies lay
      ensures Valid()
      ensures resized == ResizeTarget(forest.nodes, forest.depth, old(lay.info), node, dir).Some?
      ensures lay.info == ResizeInfo(forest.nodes, forest.kids, forest.depth, old(lay.info), node, screenRatio, dir)
    {
      ghost var info := lay.info;
      ResizeSizesOnly(forest.nodes, forest.kids, forest.depth, info, node, screenRatio, dir);
      ResizeAllBalanced(forest.nodes, forest.kids, forest.depth, info, node, screenRatio, dir);
      var target := ResizeTarget(forest.nodes, forest.depth, lay.info, node, dir);
      if target.None? {
        return false;
      }
      var t := target.value;
      var sibling := MoveOver(forest.nodes, lay.info, t, dir).value;
      SiblingInForest(forest.nodes, forest.kids, forest.depth, lay.info, t, dir);
      var parent := forest.nodes[t].parent.value;
      ResizeInfoShared(forest.nodes, forest.kids, forest.depth, info, node, screenRatio, dir, t, sibling, parent);
      var localShare := LocalShare(forest.nodes, forest.depth, lay.info, parent, screenRatio, dir);
      lay.TakeShare(forest, t, sibling, localShare);
      InfoFits(forest.nodes, forest.kids, forest.nextId, sel.nodes, info, lay.info, windows, windowNodes, spaceRoots, rootSpaces);
      return true;
    }

    /** One edge of `set_frame_from_resize`: resizes and counts when the edge moved. */
    method CheckAndResize(node: NodeId, delta: real, whole: real, dir: Direction, count: nat) returns (count': nat)
      requires Valid() && node in forest.nodes
      modifies lay
      ensures Valid()
      ensures count' == count + (if delta != 0.0 then 1 else 0)
      ensures lay.info == EdgeStep(forest.nodes, forest.kids, forest.depth, old(lay.info), node, delta, whole, dir)
    {
      count' := count;
      if delta != 0.0 {
        count' := count' + 1;
        var _ := Resize(node, Ratio(delta, whole), dir);
      }
    }

    /**
     * `set_frame_from_resize`: resizes `node` towards each edge that moved
     * from `before` to `after`, by the move over the screen's extent. The
     * source panics once all four edges are done when more than two of them
     * moved; `panics` reports that, the resizes having happened.
     */
    method SetFrameFromResize(node: NodeId, before: Rect, after: Rect, screen: Rect) returns (panics: bool)
      requires Valid() && node in forest.nodes
      modifies lay
      ensures Valid()
      ensures panics <==> MovedEdges(EdgeDeltas(before, after)) > 2
      ensures lay.info == FrameInfo(forest.nodes, forest.kids, forest.depth, old(lay.info), node, before, after, screen)
    {
      var e := EdgeDeltas(before, after);
      var count := 0;
      count := CheckAndResize(node, e.left, screen.w, Left, count);
      count := CheckAndResize(node, e.right, screen.w, Right, count);
      count := CheckAndResize(node, e.up, screen.h, Up, count);
      count := CheckAndResize(node, e.down, screen.h, Down, count);
      assert count == MovedEdges(e);
      panics := count > 2;
    }

    /**
     * `calculate_layout`: the frame of every window below `root` laid out in
     * `frame`, one per window node of the tree, in order.
     */
    method CalculateLayout(root: NodeId, frame: Rect) returns (sizes: seq<(WindowId, Rect)>)
      requires Valid() && root in forest.nodes
      ensures sizes == Frames(lay.info, windows, forest.nodes, forest.kids, forest.depth, root, frame)
      ensures Ids(sizes) == Tiles(windows, forest.nodes, forest.kids, forest.depth, root)
    {
      sizes := lay.GetSizes(forest, windows, root, frame);
    }
 
    /**
     * `detach`: announces that `x` is about to leave its parent (its parent
     * selects another child, and loses the size of `x` from its total), then
     * cuts `x` out, which becomes a root.
     */
    method Detach(x: NodeId)
      requires Core() && x in forest.nodes && forest.nodes[x].parent.Some?
      modifies forest, sel, lay
      ensures unchanged(this)
      ensures Core() && forest.nextId == old(forest.nextId) && Placed(old(forest.nodes), old(forest.kids), x)
      ensures forest.nodes.Keys == old(forest.nodes.Keys) && forest.kids[x] == old(forest.kids[x])
      ensures forest.nodes == CutLinks(old(forest.nodes), old(forest.kids), x)
      ensures forest.kids == CutKids(old(forest.nodes), old(forest.kids), x)
      ensures sel.nodes == AfterRemoving(old(sel.nodes), old(forest.nodes), x)
      ensures lay.info == AfterLeaving(old(lay.info), x, old(forest.nodes[x].parent.value))
      ensures Roots(forest.nodes) == Roots(old(forest.nodes)) + {x}
      ensures forest.Subtree(x) == Sub(old(forest.nodes), old(forest.depth), x)
    {
      ghost var m, k, d, sl, info := forest.nodes, forest.kids, forest.depth, sel.nodes, lay.info;
      Dispatch(RemovingFromParent(x));
      forest.Detach(x);
      DetachFits(m, k, d, forest.nextId, sl, info, windows, windowNodes, spaceRoots, rootSpaces, x);
      DetachBalanced(m, k, d, info, x);
      DetachRoots(m, k, d, x);
      CutNode(m, k, d, x);
    }

    /**
     * Links the root `x`, which roots no space, as the last child of `p`,
     * which is not a window node, and announces it: `x` takes size one and
     * the total of `p` grows by one.
     */
    method AttachBack(x: NodeId, p: NodeId)
      requires Core() && Linkable(forest.nodes, forest.kids, forest.depth, x, p)
      requires x !in rootSpaces && p !in windows
      modifies forest, sel, lay
      ensures unchanged(this)
      ensures Core() && forest.nextId == old(forest.nextId) && forest.nodes.Keys == old(forest.nodes.Keys)
      ensures forest.kids == old(forest.kids)[p := old(forest.kids[p]) + [x]]
      ensures forest.nodes[x].parent == Some(p)
      ensures sel.nodes == old(sel.nodes) && lay.info == AfterAdded(old(lay.info), x, p)
      ensures Roots(forest.nodes) == Roots(old(forest.nodes)) - {x}
    {
      ghost var m, k, d, info := forest.nodes, forest.kids, forest.depth, lay.info;
      forest.AttachBack(x, p);
      InsertAtEnd(k[p], x);
      AttachFits(m, k, d, forest.nextId, sel.nodes, info, windows, windowNodes, spaceRoots, rootSpaces,
                 forest.nodes, forest.kids, forest.depth, x, p, |k[p]|);
      AttachBalanced(m, k, d, info, x, p, |k[p]|);
      Dispatch(AddedToParent(x));
    }

    /** Links the root `x`, which roots no space, as the sibling right before `next`, and announces it. */
    method AttachBefore(x: NodeId, next: NodeId)
      requires Core() && next in forest.nodes && forest.nodes[next].parent.Some?
      requires Linkable(forest.nodes, forest.kids, forest.depth, x, forest.nodes[next].parent.value)
      requires x !in rootSpaces
      modifies forest, sel, lay
      ensures unchanged(this)
      ensures Core() && forest.nextId == old(forest.nextId) && forest.nodes.Keys == old(forest.nodes.Keys)
      ensures var p := old(forest.nodes[next].parent.value);
              && forest.kids == old(forest.kids)[p := InsertAt(old(forest.kids[p]), IndexOf(old(forest.kids[p]), next), x)]
              && forest.nodes[x].parent == Some(p)
              && lay.info == AfterAdded(old(lay.info), x, p)
      ensures sel.nodes == old(sel.nodes)
      ensures Roots(forest.nodes) == Roots(old(forest.nodes)) - {x}
      ensures forest.Subtree(x) == Sub(old(forest.nodes), old(forest.depth), x)
    {
      ghost var m, k, d, info := forest.nodes, forest.kids, forest.depth, lay.info;
      ghost var p := m[next].parent.value;
      ParentNotWindow(m, k, d, windows, windowNodes, rootSpaces, next);
      forest.AttachBefore(x, next);
      AttachFits(m, k, d, forest.nextId, sel.nodes, info, windows, windowNodes, spaceRoots, rootSpaces,
                 forest.nodes, forest.kids, forest.depth, x, p, IndexOf(k[p], next));
      AttachBalanced(m, k, d, info, x, p, IndexOf(k[p], next));
      Dispatch(AddedToParent(x));
    }

    /** Links the root `x`, which roots no space, as the sibling right after `prev`, and announces it. */
    method AttachAfter(x: NodeId, prev: NodeId)
      requires Core() && prev in forest.nodes && forest.nodes[prev].parent.Some?
      requires Linkable(forest.nodes, forest.kids, forest.depth, x, forest.nodes[prev].parent.value)
      requires x !in rootSpaces
      modifies forest, sel, lay
      ensures unchanged(this)
      ensures Core() && forest.nextId == old(forest.nextId) && forest.nodes.Keys == old(forest.nodes.Keys)
      ensures var p := old(forest.nodes[prev].parent.value);
              && forest.kids == old(forest.kids)[p := SpliceAfter(old(forest.kids[p]), prev, x)]
              && forest.nodes[x].parent == Some(p)
              && lay.info == AfterAdded(old(lay.info), x, p)
      ensures sel.nodes == old(sel.nodes)
      ensures Roots(forest.nodes) == Roots(old(forest.nodes)) - {x}
      ensures forest.Subtree(x) == Sub(old(forest.nodes), old(forest.depth), x)
    {
      ghost var m, k, d, info := forest.nodes, forest.kids, forest.depth, lay.info;
      ghost var p := m[prev].parent.value;
      ghost var L := k[p];
      assert prev in L;
      ghost var j := IndexOf(L, prev) + 1;
      ParentNotWindow(m, k, d, windows, windowNodes, rootSpaces, prev);
      forest.AttachAfter(x, prev);
      assert forest.kids == k[p := InsertAt(L, j, x)];
      AttachFits(m, k, d, forest.nextId, sel.nodes, info, windows, windowNodes, spaceRoots, rootSpaces,
                 forest.nodes, forest.kids, forest.depth, x, p, j);
      AttachBalanced(m, k, d, info, x, p, j);
      Dispatch(AddedToParent(x));
    }

    /**
     * `remove` on a detached leaf that is neither a window node nor the root
     * of a space: the node leaves the forest and its selection entry and
     * layout record go with it.
     */
    method RemoveLeaf(x: NodeId)
      requires Core() && x in forest.nodes && forest.nodes[x].parent.None? && forest.kids[x] == []
      requires x !in windows && x !in rootSpaces
      modifies forest, sel, lay
      ensures unchanged(this)
      ensures Core() && forest.nextId == old(forest.nextId)
      ensures forest.nodes == old(forest.nodes) - {x} && forest.kids == old(forest.kids) - {x}
      ensures forest.nodes.Keys == old(forest.nodes.Keys) - {x} && |forest.nodes| == |old(forest.nodes)| - 1
      ensures sel.nodes == old(sel.nodes) - {x} && lay.info == old(lay.info) - {x}
      ensures Roots(forest.nodes) == Roots(old(forest.nodes)) - {x}
    {
      ghost var m, k, d, sl, info := forest.nodes, forest.kids, forest.depth, sel.nodes, lay.info;
      RemoveLeafFits(m, k, d, forest.nextId, sl, info, windows, windowNodes, spaceRoots, rootSpaces, x);
      var _, _ := forest.Remove(x);
      Dispatch(RemovedFromForest(x));
      assert forest.nodes.Keys == old(forest.nodes.Keys) - {x};
    }

    /**
     * `removed_child`, for the parent `p` a node has left: an empty
     * container that is not a root is detached and removed, and its own
     * parent is looked at in turn; anything else is left alone.
     */
    method Cull(p: NodeId)
      requires Core() && p in forest.nodes && p !in windows
      modifies forest, sel, lay
      ensures unchanged(this)
      ensures Core() && forest.nextId == old(forest.nextId)
      ensures forest.nodes.Keys <= old(forest.nodes.Keys) && Roots(forest.nodes) == Roots(old(forest.nodes))
      ensures old(forest.kids[p] == [] && forest.nodes[p].parent.Some?) ==> p !in forest.nodes
      ensures !old(forest.kids[p] == [] && forest.nodes[p].parent.Some?) ==>
                && forest.nodes == old(forest.nodes) && forest.kids == old(forest.kids)
                && sel.nodes == old(sel.nodes) && lay.info == old(lay.info)
      ensures KeepsParents(old(forest.nodes), forest.nodes) && GoneWhole(old(forest.nodes), old(forest.kids), forest.nodes)
      ensures forall n | n in old(forest.nodes) && n !in forest.nodes :: Under(old(forest.nodes), old(forest.depth), p, n)
      ensures forall k | k in forest.nodes && !Under(old(forest.nodes), old(forest.depth), p, k) ::
                LocalOf(sel.nodes, k) == old(LocalOf(sel.nodes, k))
      ensures SameKinds(old(lay.info), lay.info)
      ensures KidsSurvive(old(forest.kids), forest.kids, forest.nodes.Keys)
      decreases |forest.nodes|
    {
      if forest.nodes[p].firstChild.None? && forest.nodes[p].parent.Some? {
        ghost var m0, k0, d0, s0 := forest.nodes, forest.kids, forest.depth, sel.nodes;
        var parent := Prune(p);
        ghost var m1, k1, d1, s1 := forest.nodes, forest.kids, forest.depth, sel.nodes;
        Cull(parent);
        CullSteps(m0, k0, d0, m1, k1, d1, forest.nodes, p, parent);
        CullEntries(m0, d0, m1, d1, forest.nodes, s0, s1, sel.nodes, p, parent);
        CullKids(m0, k0, d0, k1, m1.Keys, forest.kids, forest.nodes.Keys, p, parent);
      } else {
        KidsSurviveSelf(forest.nodes, forest.kids, forest.depth);
      }
    }

    /**
     * Detaches and removes the empty non-root container `p`, answering its
     * former parent.
     */
    method Prune(p: NodeId) returns (parent: NodeId)
      requires Core() && p in forest.nodes && p !in windows
      requires forest.kids[p] == [] && forest.nodes[p].parent.Some?
      modifies forest, sel, lay
      ensures unchanged(this)
      ensures Core() && forest.nextId == old(forest.nextId) && parent == old(forest.nodes[p].parent.value)
      ensures forest.nodes.Keys == old(forest.nodes.Keys) - {p} && parent in forest.nodes && parent !in windows
      ensures |forest.nodes| < |old(forest.nodes)|
      ensures Roots(forest.nodes) == Roots(old(forest.nodes))
      ensures KeepsParents(old(forest.nodes), forest.nodes) && Placed(old(forest.nodes), old(forest.kids), p)
      ensures forest.kids == CutKids(old(forest.nodes), old(forest.kids), p) - {p}
      ensures sel.nodes == AfterRemoving(old(sel.nodes), old(forest.nodes), p) - {p}
      ensures SameKinds(old(lay.info), lay.info)
    {
      parent := forest.nodes[p].parent.value;
      ParentNotWindow(forest.nodes, forest.kids, forest.depth, windows, windowNodes, rootSpaces, p);
      ghost var R, K, info := Roots(forest.nodes), forest.nodes.Keys, lay.info;
      CutParents(forest.nodes, forest.kids, forest.depth, p);
      assert p !in R;
      Detach(p);
      assert p in Roots(forest.nodes);
      RemoveLeaf(p);
      assert R + {p} - {p} == R;
      DropKeepsKinds(info, p, parent);
    }
 
    /**
     * Takes out the window node `n` of a window whose record is already
     * gone: `n` stops being a window node, is detached and removed, and its
     * emptied parent is culled.
     */
    method RemoveWindowNode(n: NodeId)
      requires Core() && RootsHaveSpaces(forest.nodes, rootSpaces) && n in windows && windows[n] !in windowNodes
      modifies this, forest, sel, lay
      ensures Core() && RootsHaveSpaces(forest.nodes, rootSpaces)
      ensures windows == old(windows) - {n} && n !in forest.nodes && forest.nodes.Keys <= old(forest.nodes.Keys)
      ensures windowNodes == old(windowNodes) && spaceRoots == old(spaceRoots) && rootSpaces == old(rootSpaces)
    {
      RootsIff(forest.nodes, rootSpaces);
      ForgetNodeFits(forest.nodes, forest.kids, forest.nextId, sel.nodes, lay.info, windows, windowNodes,
                     spaceRoots, rootSpaces, n);
      windows := windows - {n};
      var parent := Prune(n);
      Cull(parent);
      RootsIff(forest.nodes, rootSpaces);
    }

    /**
     * The step of `retain_windows` for a window the predicate rejects: its
     * record is dropped and each of its window nodes taken out.
     */
    method DropWindow(wid: WindowId)
      requires Valid() && wid in windowNodes
      modifies this, forest, sel, lay
      ensures Valid() && windowNodes == old(windowNodes) - {wid}
      ensures forall n :: n in windows <==> n in old(windows) && old(windows)[n] != wid
      ensures forall n | n in windows :: windows[n] == old(windows)[n]
      ensures spaceRoots == old(spaceRoots) && rootSpaces == old(rootSpaces)
    {
      var infos := windowNodes[wid];
      var ns := NodesOf(infos);
      assert Distinct(ns);
      DropRecordFits(forest.nodes, forest.kids, forest.nextId, sel.nodes, lay.info, windows, windowNodes,
                     spaceRoots, rootSpaces, wid);
      windowNodes := windowNodes - {wid};
      RemoveWindowNodes(ns, wid);
      forall n | n in windows
        ensures windows[n] in windowNodes && n in NodesOf(windowNodes[windows[n]])
      {
      }
    }

    /**
     * Takes out, one after the other, the window nodes `ns` of the window
     * `wid`, whose record is already gone.
     */
    method RemoveWindowNodes(ns: seq<NodeId>, wid: WindowId)
      requires Core() && RootsHaveSpaces(forest.nodes, rootSpaces) && wid !in windowNodes && Distinct(ns)
      requires forall n | n in ns :: n in windows && windows[n] == wid
      modifies this, forest, sel, lay
      ensures Core() && RootsHaveSpaces(forest.nodes, rootSpaces)
      ensures windowNodes == old(windowNodes) && spaceRoots == old(spaceRoots) && rootSpaces == old(rootSpaces)
      ensures forall n :: n in windows <==> n in old(windows) && n !in ns
      ensures forall n | n in windows :: windows[n] == old(windows)[n]
    {
      var i := 0;
      while i < |ns|
        invariant 0 <= i <= |ns|
        invariant Core() && RootsHaveSpaces(forest.nodes, rootSpaces)
        invariant windowNodes == old(windowNodes) && spaceRoots == old(spaceRoots) && rootSpaces == old(rootSpaces)
        invariant Dropped(windows, old(windows), ns[..i])
      {
        assert ns[i] !in ns[..i];
        ghost var w := windows;
        RemoveWindowNode(ns[i]);
        DropStep(w, old(windows), ns[..i], ns[i]);
        assert ns[..i + 1] == ns[..i] + [ns[i]];
        i := i + 1;
      }
      assert ns[..i] == ns;
    }

    /**
     * `retain_windows`: every window the predicate rejects loses its record
     * and its window nodes, visited in no particular order; every other
     * window keeps its record and its nodes.
     */
    method RetainWindows(keep: WindowId -> bool)
      requires Valid()
      modifies this, forest, sel, lay
      ensures Valid()
      ensures forall w :: w in windowNodes <==> w in old(windowNodes) && keep(w)
      ensures forall w | w in windowNodes :: windowNodes[w] == old(windowNodes)[w]
      ensures forall n :: n in windows <==> n in old(windows) && keep(old(windows)[n])
      ensures forall n | n in windows :: windows[n] == old(windows)[n]
    {
      ghost var WN0, W0 := windowNodes, windows;
      var todo := windowNodes.Keys;
      while todo != {}
        invariant Valid() && Retaining(windowNodes, windows, WN0, W0, todo, keep)
        decreases todo
      {
        var w :| w in todo;
        RetainOne(w, WN0, W0, todo, keep);
        todo := todo - {w};
      }
    }

    /** One window `w` of `retain_windows`: its record and nodes go unless it is kept. */
    method RetainOne(w: WindowId, ghost WN0: map<WindowId, seq<WindowNodeInfo>>, ghost W0: map<NodeId, WindowId>,
                     ghost todo: set<WindowId>, keep: WindowId -> bool)
      requires Valid() && Retaining(windowNodes, windows, WN0, W0, todo, keep) && w in todo
      modifies this, forest, sel, lay
      ensures Valid() && Retaining(windowNodes, windows, WN0, W0, todo - {w}, keep)
    {
      ghost var wn, ws := windowNodes, windows;
      if !keep(w) {
        DropWindow(w);
      }
      RetainStep(wn, ws, windowNodes, windows, WN0, W0, todo, keep, w);
    }

    /** `mk_node`: a fresh root, unknown to the selection, with the default layout record. */
    method MkNode() returns (node: NodeId)
      requires Core()
      modifies forest, sel, lay
      ensures unchanged(this)
      ensures Core() && forest.nextId == old(forest.nextId) + 1
      ensures node !in old(forest.nodes) && node !in windows && node !in rootSpaces
      ensures forest.nodes == old(forest.nodes)[node := Unlinked] && forest.kids == old(forest.kids)[node := []]
      ensures sel.nodes == old(sel.nodes) && lay.info == old(lay.info)[node := DefaultInfo]
      ensures Roots(forest.nodes) == Roots(old(forest.nodes)) + {node}
    {
      ghost var m, k, d, n, sl, info := forest.nodes, forest.kids, forest.depth, forest.nextId, sel.nodes, lay.info;
      FreshRootBalanced(m, k, d, info, n);
      FreshNodeFits(m, k, n, sl, info, windows, windowNodes, spaceRoots, rootSpaces, n);
      node := forest.NewRoot();
      Dispatch(AddedToForest(node));
    }

    /** `select_locally`: the parent of `node`, if it has one, selects `node`. */
    method SelectLocally(node: NodeId)
      requires Core() && node in forest.nodes
      modifies sel
      ensures Core()
      ensures forest.nodes[node].parent.None? ==> sel.nodes == old(sel.nodes)
      ensures forest.nodes[node].parent.Some? ==>
                sel.nodes == old(sel.nodes)[forest.nodes[node].parent.value := SelectionInfo(node, false)]
    {
      ghost var sl := sel.nodes;
      UnderDepth(forest.nodes, forest.depth, node, node);
      sel.SelectLocally(forest, node);
      SelectionFits(forest.nodes, forest.kids, forest.nextId, sl, sel.nodes, lay.info, windows, windowNodes, spaceRoots, rootSpaces);
    }

    /** A fresh container linked as the sibling right before `node`, which has a parent. */
    method Graft(node: NodeId) returns (np: NodeId)
      requires Core() && node in forest.nodes && forest.nodes[node].parent.Some?
      modifies forest, sel, lay
      ensures unchanged(this)
      ensures Core() && forest.nextId == old(forest.nextId) + 1
      ensures np !in old(forest.nodes) && np !in windows && np !in rootSpaces && np != node
      ensures forest.nodes.Keys == old(forest.nodes.Keys) + {np}
      ensures var p := old(forest.nodes[node].parent.value);
              && p in old(forest.kids) && node in old(forest.kids[p])
              && forest.kids == old(forest.kids)[np := []][p := InsertAt(old(forest.kids[p]), IndexOf(old(forest.kids[p]), node), np)]
              && forest.nodes[np].parent == Some(p) && forest.nodes[node].parent == Some(p)
              && lay.info == AfterAdded(old(lay.info)[np := DefaultInfo], np, p)
      ensures sel.nodes == old(sel.nodes)
      ensures Roots(forest.nodes) == Roots(old(forest.nodes))
    {
      var p := forest.nodes[node].parent.value;
      ghost var R, L := Roots(forest.nodes), forest.kids[p];
      np := MkNode();
      LeafNotAbove(forest.nodes, forest.kids, forest.depth, np, p);
      AttachBefore(np, node);
      InsertedBefore(forest.nodes, forest.kids, forest.depth, p, L, IndexOf(L, node), np);
      RootsBack(R, np);
    }

    /**
     * The first half of nesting `node` below its parent `p`: a fresh
     * container is linked right before `node` and takes over its size.
     */
    method Interpose(node: NodeId) returns (np: NodeId)
      requires Core() && node in forest.nodes && forest.nodes[node].parent.Some?
      modifies forest, sel, lay
      ensures unchanged(this)
      ensures Core() && forest.nextId == old(forest.nextId) + 1
      ensures np !in old(forest.nodes) && np !in windows && np !in rootSpaces
      ensures forest.nodes.Keys == old(forest.nodes.Keys) + {np}
      ensures var p := old(forest.nodes[node].parent.value);
              && p in old(forest.kids) && node in old(forest.kids[p])
              && forest.kids == old(forest.kids)[np := []][p := InsertAt(old(forest.kids[p]), IndexOf(old(forest.kids[p]), node), np)]
              && forest.nodes[np].parent == Some(p) && forest.nodes[node].parent == Some(p)
              && p in old(lay.info) && node in old(lay.info)
              && lay.info == SizeTaken(AfterAdded(old(lay.info)[np := DefaultInfo], np, p), np, node, p)
      ensures sel.nodes == old(sel.nodes)
      ensures Roots(forest.nodes) == Roots(old(forest.nodes))
      ensures !Under(forest.nodes, forest.depth, np, node)
    {
      assert forest.nodes[node].parent.value in lay.info && node in lay.info;
      np := Graft(node);
      TakeSize(np, node);
      SiblingNotUnder(forest.nodes, forest.depth, np, node);
    }

    /** `assume_size_of`: `heir` takes over the size of its sibling `orig`, which keeps none. */
    method TakeSize(heir: NodeId, orig: NodeId)
      requires Core() && heir in forest.nodes && orig in forest.nodes && heir != orig
      requires forest.nodes[heir].parent.Some? && forest.nodes[heir].parent == forest.nodes[orig].parent
      modifies lay
      ensures Core()
      ensures var p := forest.nodes[heir].parent.value;
              && p in old(lay.info) && heir in old(lay.info) && orig in old(lay.info)
              && lay.info == SizeTaken(old(lay.info), heir, orig, p)
    {
      TakenFits(forest.nodes, forest.kids, forest.depth, forest.nextId, sel.nodes, lay.info, windows, windowNodes,
                spaceRoots, rootSpaces, heir, orig);
      lay.AssumeSizeOf(forest.nodes, heir, orig);
    }

    /**
     * The second half of nesting: `node` leaves its parent and becomes the
     * last child of its sibling `np`, which does not lie below it.
     */
    method Adopt(node: NodeId, np: NodeId)
      requires Core() && node in forest.nodes && forest.nodes[node].parent.Some?
      requires np in forest.nodes && np != node && forest.nodes[np].parent == forest.nodes[node].parent
      requires np !in windows && !Under(forest.nodes, forest.depth, np, node)
      modifies forest, sel, lay
      ensures unchanged(this)
      ensures Core() && forest.nextId == old(forest.nextId) && forest.nodes.Keys == old(forest.nodes.Keys)
      ensures Placed(old(forest.nodes), old(forest.kids), node)
      ensures var K := CutKids(old(forest.nodes), old(forest.kids), node);
              np in K && forest.kids == K[np := K[np] + [node]]
      ensures forest.nodes[node].parent == Some(np) && forest.nodes[np].parent == old(forest.nodes[np].parent)
      ensures sel.nodes == AfterRemoving(old(sel.nodes), old(forest.nodes), node)
      ensures var p := old(forest.nodes[node].parent.value);
              && node in old(lay.info) && p in old(lay.info)
              && lay.info == AfterAdded(AfterLeaving(old(lay.info), node, p), node, np)
      ensures Roots(forest.nodes) == Roots(old(forest.nodes))
    {
      ghost var R, m, k, d := Roots(forest.nodes), forest.nodes, forest.kids, forest.depth;
      ghost var p := m[node].parent.value;
      assert node !in R;
      UnderDepth(m, d, np, p);
      CutKeepsChild(m, k, d, node, np);
      Detach(node);
      assert np !in Sub(m, d, node);
      AttachBack(node, np);
      ParentIff(forest.nodes, forest.kids, forest.depth, np, p);
      RootsBack(R, node);
    }

    /**
     * The second half of nesting `node` below its parent `p`: `node` moves
     * into its sibling `np`; `p` selects `np` when `select` holds, and `np`
     * selects `node`.
     */
    method Settle(node: NodeId, np: NodeId, select: bool)
      requires Core() && node in forest.nodes && forest.nodes[node].parent.Some?
      requires np in forest.nodes && np != node && forest.nodes[np].parent == forest.nodes[node].parent
      requires np !in windows && !Under(forest.nodes, forest.depth, np, node)
      modifies forest, sel, lay
      ensures unchanged(this)
      ensures Core() && forest.nextId == old(forest.nextId) && forest.nodes.Keys == old(forest.nodes.Keys)
      ensures Placed(old(forest.nodes), old(forest.kids), node)
      ensures var K := CutKids(old(forest.nodes), old(forest.kids), node);
              np in K && forest.kids == K[np := K[np] + [node]]
      ensures forest.nodes[node].parent == Some(np) && forest.nodes[np].parent == old(forest.nodes[np].parent)
      ensures var p := old(forest.nodes[node].parent.value);
              var r := AfterRemoving(old(sel.nodes), old(forest.nodes), node);
              sel.nodes == (if select then r[p := SelectionInfo(np, false)] else r)[np := SelectionInfo(node, false)]
      ensures var p := old(forest.nodes[node].parent.value);
              && node in old(lay.info) && p in old(lay.info)
              && lay.info == AfterAdded(AfterLeaving(old(lay.info), node, p), node, np)
      ensures Roots(forest.nodes) == Roots(old(forest.nodes))
    {
      ghost var p := forest.nodes[node].parent.value;
      Adopt(node, np);
      Reselect(node, np, p, select);
    }

    /** The selection steps of nesting: `p` selects `np` when `select` holds, then `np` selects `node`. */
    method Reselect(node: NodeId, np: NodeId, ghost p: NodeId, select: bool)
      requires Core() && node in forest.nodes && np in forest.nodes
      requires forest.nodes[np].parent == Some(p) && forest.nodes[node].parent == Some(np)
      modifies sel
      ensures Core()
      ensures sel.nodes == (if select then old(sel.nodes)[p := SelectionInfo(np, false)] else old(sel.nodes))[np := SelectionInfo(node, false)]
    {
      if select {
        SelectLocally(np);
      }
      SelectLocally(node);
    }

    /**
     * `nest_in_container` for a node with a parent `p`: a fresh container
     * `np` takes the place and the size of `node` among the children of
     * `p`, with `node` as its one child; `np` selects `node`, and `p`
     * selects `np` if `node` was its local selection.
     */
    method NestBelow(node: NodeId) returns (np: NodeId)
      requires Core() && node in forest.nodes && forest.nodes[node].parent.Some?
      modifies forest, sel, lay
      ensures unchanged(this)
      ensures Core() && forest.nextId == old(forest.nextId) + 1
      ensures np !in old(forest.nodes) && np !in windows && np !in rootSpaces
      ensures forest.nodes.Keys == old(forest.nodes.Keys) + {np}
      ensures var p := old(forest.nodes[node].parent.value);
              && p in old(forest.kids) && node in old(forest.kids[p])
              && var L := old(forest.kids[p]);
                 && forest.kids == old(forest.kids)[np := [node]][p := L[IndexOf(L, node) := np]]
                 && forest.nodes[np].parent == Some(p) && forest.nodes[node].parent == Some(np)
                 && sel.nodes == NestedSelection(old(sel.nodes), p, L, node, np)
      ensures node in old(lay.info) && lay.info == NestedInfo(old(lay.info), node, np)
      ensures Roots(forest.nodes) == Roots(old(forest.nodes))
    {
      var p := forest.nodes[node].parent.value;
      var select := sel.LocalSelection(p) == Some(node);
      ghost var m0, k0, d0, s0, i0 := forest.nodes, forest.kids, forest.depth, sel.nodes, lay.info;
      ghost var L := k0[p];
      UnderDepth(m0, d0, node, p);
      ParentIff(m0, k0, d0, node, p);
      KidsDistinct(m0, k0, d0, p);
      np := Interpose(node);
      FreshNotChild(m0, k0, d0, p, np);
      ghost var m1, k1, d1 := forest.nodes, forest.kids, forest.depth;
      Settle(node, np, select);
      NestedKidsSteps(m1, k1, d1, k0, p, np, node);
      NestedSelectionSteps(s0, m1, k1, d1, p, L, node, np);
      NestedInfoSteps(i0, node, np, p);
    }

    /**
     * The space of the root `node` passes to the root `r`, which is neither
     * a window node nor the root of a space.
     */
    method HandOver(node: NodeId, r: NodeId)
      requires Core() && node in rootSpaces && r in forest.nodes && forest.nodes[r].parent.None?
      requires r !in rootSpaces && r !in windows
      modifies this
      ensures Core() && windows == old(windows) && windowNodes == old(windowNodes)
      ensures var space := old(rootSpaces[node]);
              spaceRoots == old(spaceRoots)[space := r] && rootSpaces == (old(rootSpaces) - {node})[r := space]
    {
      HandOverFits(forest.nodes, forest.kids, forest.nextId, sel.nodes, lay.info, windows, windowNodes,
                   spaceRoots, rootSpaces, node, r);
      var space := rootSpaces[node];
      rootSpaces := (rootSpaces - {node})[r := space];
      spaceRoots := spaceRoots[space := r];
    }

    /** A fresh root `r` that takes over the space of the root `node`. */
    method Sprout(node: NodeId) returns (r: NodeId)
      requires Core() && node in forest.nodes && node in rootSpaces
      modifies this, forest, sel, lay
      ensures Core() && forest.nextId == old(forest.nextId) + 1 && r != node && r !in windows
      ensures r !in old(forest.nodes) && forest.nodes == old(forest.nodes)[r := Unlinked] && forest.kids == old(forest.kids)[r := []]
      ensures windows == old(windows) && windowNodes == old(windowNodes)
      ensures var space := old(rootSpaces[node]);
              spaceRoots == old(spaceRoots)[space := r] && rootSpaces == (old(rootSpaces) - {node})[r := space]
      ensures sel.nodes == old(sel.nodes) && lay.info == old(lay.info)[r := DefaultInfo]
      ensures Roots(forest.nodes) == Roots(old(forest.nodes)) + {r}
    {
      r := MkNode();
      HandOver(node, r);
    }

    /**
     * A fresh root `r` takes over the space of the root `node` and holds
     * `node` as its one child.
     */
    method RootAbove(node: NodeId) returns (r: NodeId)
      requires Core() && node in forest.nodes && node in rootSpaces
      modifies this, forest, sel, lay
      ensures Core() && forest.nextId == old(forest.nextId) + 1
      ensures r !in old(forest.nodes) && forest.nodes.Keys == old(forest.nodes.Keys) + {r}
      ensures forest.kids == old(forest.kids)[r := [node]]
      ensures forest.nodes[r].parent.None? && forest.nodes[node].parent == Some(r)
      ensures windows == old(windows) && windowNodes == old(windowNodes)
      ensures var space := old(rootSpaces[node]);
              spaceRoots == old(spaceRoots)[space := r] && rootSpaces == (old(rootSpaces) - {node})[r := space]
      ensures sel.nodes == old(sel.nodes) && lay.info == AfterAdded(old(lay.info)[r := DefaultInfo], node, r)
      ensures Roots(forest.nodes) == Roots(old(forest.nodes)) - {node} + {r}
    {
      ghost var k, R := forest.kids, Roots(forest.nodes);
      r := Sprout(node);
      AttachBack(node, r);
      ParentIff(forest.nodes, forest.kids, forest.depth, node, r);
      OneChild(k, r, node);
      RootsSwap(R, r, node);
    }

    /**
     * `nest_in_container` on a root: a fresh root takes over the space of
     * `node`, holds `node` as its one child and selects it.
     */
    method NestRoot(node: NodeId) returns (r: NodeId)
      requires Core() && node in forest.nodes && node in rootSpaces
      modifies this, forest, sel, lay
      ensures Core() && forest.nextId == old(forest.nextId) + 1
      ensures r !in old(forest.nodes) && forest.nodes.Keys == old(forest.nodes.Keys) + {r}
      ensures forest.kids == old(forest.kids)[r := [node]]
      ensures forest.nodes[r].parent.None? && forest.nodes[node].parent == Some(r)
      ensures windows == old(windows) && windowNodes == old(windowNodes)
      ensures var space := old(rootSpaces[node]);
              spaceRoots == old(spaceRoots)[space := r] && rootSpaces == (old(rootSpaces) - {node})[r := space]
      ensures sel.nodes == old(sel.nodes)[r := SelectionInfo(node, false)]
      ensures lay.info == AfterAdded(old(lay.info)[r := DefaultInfo], node, r)
      ensures Roots(forest.nodes) == Roots(old(forest.nodes)) - {node} + {r}
    {
      r := RootAbove(node);
      SelectLocally(node);
    }

    /** `nest_in_container` for a node with a parent and a sibling: the new container takes `kind`. */
    method NestAmongSiblings(node: NodeId, kind: LayoutKind) returns (np: NodeId)
      requires Valid() && node in forest.nodes && forest.nodes[node].parent.Some?
      modifies forest, sel, lay
      ensures Valid() && unchanged(this) && forest.nextId == old(forest.nextId) + 1
      ensures np !in old(forest.nodes) && forest.nodes.Keys == old(forest.nodes.Keys) + {np}
      ensures var p := old(forest.nodes[node].parent.value);
              && p in old(forest.kids) && node in old(forest.kids[p])
              && var L := old(forest.kids[p]);
                 && forest.kids == old(forest.kids)[np := [node]][p := L[IndexOf(L, node) := np]]
                 && forest.nodes[np].parent == Some(p) && forest.nodes[node].parent == Some(np)
                 && sel.nodes == NestedSelection(old(sel.nodes), p, L, node, np)
      ensures node in old(lay.info) && lay.info == Kinded(NestedInfo(old(lay.info), node, np), np, kind)
    {
      RootsIff(forest.nodes, rootSpaces);
      np := NestBelow(node);
      SetLayout(np, kind);
      RootsIff(forest.nodes, rootSpaces);
    }

    /** `nest_in_container` for a root: the new root of its space takes `kind`. */
    method NestAtRoot(node: NodeId, kind: LayoutKind) returns (r: NodeId)
      requires Valid() && node in forest.nodes && forest.nodes[node].parent.None?
      modifies this, forest, sel, lay
      ensures Valid() && forest.nextId == old(forest.nextId) + 1
      ensures r !in old(forest.nodes) && forest.nodes.Keys == old(forest.nodes.Keys) + {r}
      ensures forest.kids == old(forest.kids)[r := [node]]
      ensures forest.nodes[r].parent.None? && forest.nodes[node].parent == Some(r)
      ensures windows == old(windows) && windowNodes == old(windowNodes)
      ensures node in old(rootSpaces) && var space := old(rootSpaces[node]);
              spaceRoots == old(spaceRoots)[space := r] && rootSpaces == (old(rootSpaces) - {node})[r := space]
      ensures sel.nodes == old(sel.nodes)[r := SelectionInfo(node, false)]
      ensures lay.info == Kinded(AfterAdded(old(lay.info)[r := DefaultInfo], node, r), r, kind)
    {
      RootsIff(forest.nodes, rootSpaces);
      ghost var R, rs := Roots(forest.nodes), rootSpaces;
      assert node in Roots(forest.nodes);
      r := NestRoot(node);
      SetLayout(r, kind);
      assert R - {node} + {r} <= ((rs - {node})[r := rs[node]]).Keys;
      RootsIff(forest.nodes, rootSpaces);
    }

    /**
     * `nest_in_container`: `node` ends up the only child of a container of
     * layout `kind`, which is returned. An only child with a parent reuses
     * the parent; otherwise a fresh container takes the place of `node`
     * (among its siblings, or as the root of its space) and selects it.
     */
    method NestInContainer(node: NodeId, kind: LayoutKind) returns (parent: NodeId)
      requires Valid() && node in forest.nodes
      modifies this, forest, sel, lay
      ensures Valid()
      ensures parent in forest.kids && forest.kids[parent] == [node]
      ensures node in forest.nodes && forest.nodes[node].parent == Some(parent)
      ensures parent in lay.info && Layout(parent) == kind
      ensures windows == old(windows) && windowNodes == old(windowNodes)
      ensures var n := old(forest.nodes[node]);
              n.prevSibling.None? && n.nextSibling.None? && n.parent.Some? ==>
                && parent == n.parent.value && forest.nodes == old(forest.nodes) && forest.kids == old(forest.kids)
                && sel.nodes == old(sel.nodes) && lay.info == Kinded(old(lay.info), parent, kind)
                && spaceRoots == old(spaceRoots) && rootSpaces == old(rootSpaces)
      ensures var n := old(forest.nodes[node]);
              (n.prevSibling.Some? || n.nextSibling.Some?) && n.parent.Some? ==>
                && parent !in old(forest.nodes) && forest.nodes.Keys == old(forest.nodes.Keys) + {parent}
                && var p := n.parent.value;
                   && p in old(forest.kids) && node in old(forest.kids[p])
                   && var L := old(forest.kids[p]);
                      && forest.kids == old(forest.kids)[parent := [node]][p := L[IndexOf(L, node) := parent]]
                      && forest.nodes[parent].parent == Some(p)
                      && sel.nodes == NestedSelection(old(sel.nodes), p, L, node, parent)
                      && node in old(lay.info)
                      && lay.info == Kinded(NestedInfo(old(lay.info), node, parent), parent, kind)
                      && spaceRoots == old(spaceRoots) && rootSpaces == old(rootSpaces)
      ensures old(forest.nodes[node]).parent.None? ==>
                && parent !in old(forest.nodes) && forest.nodes.Keys == old(forest.nodes.Keys) + {parent}
                && forest.kids == old(forest.kids)[parent := [node]] && forest.nodes[parent].parent.None?
                && node in old(rootSpaces)
                && (var space := old(rootSpaces[node]);
                    spaceRoots == old(spaceRoots)[space := parent] && rootSpaces == (old(rootSpaces) - {node})[parent := space])
                && sel.nodes == old(sel.nodes)[parent := SelectionInfo(node, false)]
                && lay.info == Kinded(AfterAdded(old(lay.info)[parent := DefaultInfo], node, parent), parent, kind)
    {
      var n := forest.nodes[node];
      if n.prevSibling.None? && n.nextSibling.None? && n.parent.Some? {
        parent := n.parent.value;
        OnlyChildIff(forest.nodes, forest.kids, forest.depth, node);
        SetLayout(parent, kind);
      } else if n.parent.Some? {
        parent := NestAmongSiblings(node, kind);
      } else {
        parent := NestAtRoot(node, kind);
      }
    }

    /** The descent loop of `move_node_inner` into the sibling `sibling`. */
    method SeekTarget(sibling: NodeId, dir: Direction) returns (target: NodeId)
      requires Core() && sibling in forest.nodes
      ensures target == Seek(forest.nodes, forest.kids, forest.depth, lay.info, sel.nodes, sibling, dir)
    {
      var node := sibling;
      while true
        invariant node in forest.nodes
        invariant Seek(forest.nodes, forest.kids, forest.depth, lay.info, sel.nodes, node, dir)
               == Seek(forest.nodes, forest.kids, forest.depth, lay.info, sel.nodes, sibling, dir)
        decreases |forest.nodes| - forest.depth[node]
      {
        SelectedOrFirstChild(forest.nodes, forest.kids, forest.depth, sel.nodes, node);
        var next := sel.LocalSelection(node);
        if next.None? {
          next := forest.nodes[node].firstChild;
        }
        if next.None? {
          return node;
        }
        if KindOrientation(lay.Kind(node)) == DirOrientation(dir) {
          return next.value;
        }
        node := next.value;
      }
    }

    /** The destination `move_node_inner` computes for `moving`, before any change. */
    method FindDestination(moving: NodeId, dir: Direction) returns (d: Option<Destination>)
      requires Core() && moving in forest.nodes && forest.nodes[moving].parent.Some?
      ensures d == Aim(forest.nodes, forest.kids, forest.depth, lay.info, sel.nodes, moving, dir)
    {
      MoveOverChild(forest.nodes, forest.kids, forest.depth, lay.info, moving, dir);
      var sibling := MoveOver(forest.nodes, lay.info, moving, dir);
      if sibling.Some? {
        var target := SeekTarget(sibling.value, dir);
        d := if target == sibling.value then Some(Ahead(target)) else Some(Behind(target));
      } else {
        var up := Rise(forest.nodes, forest.depth, lay.info, forest.nodes[moving].parent.value, dir);
        d := if up.Some? then Some(Ahead(up.value)) else None;
      }
    }

    /**
     * The last step of `move_node_inner`: `moving` is detached and linked
     * right after its target, or right before it, as `LandsAfter` says.
     */
    method Relocate(moving: NodeId, dest: Destination, dir: Direction)
      requires Core() && moving in forest.nodes && forest.nodes[moving].parent.Some?
      requires dest.target in forest.nodes && dest.target != moving && forest.nodes[dest.target].parent.Some?
      requires !Under(forest.nodes, forest.depth, forest.nodes[dest.target].parent.value, moving)
      modifies forest, sel, lay
      ensures unchanged(this)
      ensures Core() && forest.nodes.Keys == old(forest.nodes.Keys) && Placed(old(forest.nodes), old(forest.kids), moving)
      ensures var q := old(forest.nodes[dest.target].parent.value);
              var K := CutKids(old(forest.nodes), old(forest.kids), moving);
              && q in K && dest.target in K[q]
              && forest.kids == K[q := Landed(K[q], dest, dir, moving)]
              && forest.nodes[moving].parent == Some(q)
      ensures ParentsKept(old(forest.nodes), forest.nodes, moving)
      ensures sel.nodes == AfterRemoving(old(sel.nodes), old(forest.nodes), moving)
      ensures var p, q := old(forest.nodes[moving].parent.value), old(forest.nodes[dest.target].parent.value);
              && moving in old(lay.info) && p in old(lay.info)
              && lay.info == AfterAdded(AfterLeaving(old(lay.info), moving, p), moving, q)
      ensures Roots(forest.nodes) == Roots(old(forest.nodes))
      ensures forest.Subtree(moving) == Sub(old(forest.nodes), old(forest.depth), moving)
    {
      ghost var R, m, k, d := Roots(forest.nodes), forest.nodes, forest.kids, forest.depth;
      var target := dest.target;
      ghost var q := m[target].parent.value;
      assert moving !in R && moving !in rootSpaces;
      CutKeepsChild(m, k, d, moving, target);
      CutParents(m, k, d, moving);
      Detach(moving);
      ghost var dC := forest.depth;
      ParentIff(forest.nodes, forest.kids, forest.depth, target, q);
      assert q !in Sub(m, d, moving);
      if LandsAfter(dest, dir) {
        AttachAfter(moving, target);
      } else {
        AttachBefore(moving, target);
      }
      RelocatedParents(m, k, d, dC, forest.nodes, forest.kids, forest.depth, moving, q, target, LandsAfter(dest, dir));
      RootsBack(R, moving);
    }

    /**
     * `move_node_inner`: `moving`, which has a parent, moves one step along
     * `dir`: next to the destination `Aim` picks, whose parent becomes its
     * parent; when there is none, the root of its tree is first nested in a
     * fresh root laid out along `dir`, which becomes its parent. Its old
     * parent is culled if the move emptied it.
     */
    method MoveNodeInner(moving: NodeId, dir: Direction)
      requires Valid() && moving in forest.nodes && forest.nodes[moving].parent.Some?
      modifies this, forest, sel, lay
      ensures Valid() && windows == old(windows) && windowNodes == old(windowNodes)
      ensures moving in forest.nodes && forest.nodes[moving].parent.Some?
      ensures var a := Aim(old(forest.nodes), old(forest.kids), old(forest.depth), old(lay.info), old(sel.nodes), moving, dir);
              a.Some? ==> && a.value.target in old(forest.nodes)
                          && forest.nodes[moving].parent == old(forest.nodes[a.value.target].parent)
      ensures var a := Aim(old(forest.nodes), old(forest.kids), old(forest.depth), old(lay.info), old(sel.nodes), moving, dir);
              var r0 := RootOf(old(forest.nodes), old(forest.depth), moving);
              var r := forest.nodes[moving].parent.value;
              a.None? ==> && r !in old(forest.nodes) && forest.nodes[r].parent.None? && r0 in old(rootSpaces)
                          && rootSpaces == (old(rootSpaces) - {r0})[r := old(rootSpaces[r0])]
                          && r in lay.info && Layout(r) == FromOrientation(DirOrientation(dir))
      ensures LocalOf(sel.nodes, moving) == old(LocalOf(sel.nodes, moving))
      ensures MovedAlone(old(forest.nodes), old(sel.nodes), forest.nodes, forest.depth, sel.nodes, moving,
                         old(forest.nodes[moving].parent.value))
      ensures Placement(old(forest.nodes), old(forest.kids), old(forest.depth), old(lay.info), old(sel.nodes),
                        forest.nodes, forest.kids, moving, dir)
    {
      ghost var p := forest.nodes[moving].parent.value;
      AimSpec(forest.nodes, forest.kids, forest.depth, lay.info, sel.nodes, moving, dir);
      var aim := FindDestination(moving, dir);
      if aim.Some? {
        Land(moving, aim.value, dir);
        if Under(forest.nodes, forest.depth, moving, p) {
          UnderDepth(forest.nodes, forest.depth, moving, p);
        }
      } else {
        MoveAboveRoot(moving, dir);
      }
    }

    /**
     * `move_node_inner` with no destination: `moving` lands ahead of the
     * former root of its tree, below the fresh root laid out along `dir`.
     */
    method MoveAboveRoot(moving: NodeId, dir: Direction)
      requires Valid() && moving in forest.nodes && forest.nodes[moving].parent.Some?
      modifies this, forest, sel, lay
      ensures Valid() && windows == old(windows) && windowNodes == old(windowNodes)
      ensures moving in forest.nodes && forest.nodes[moving].parent.Some?
      ensures var r0 := RootOf(old(forest.nodes), old(forest.depth), moving);
              var r := forest.nodes[moving].parent.value;
              && r !in old(forest.nodes) && forest.nodes[r].parent.None? && r0 in old(rootSpaces)
              && rootSpaces == (old(rootSpaces) - {r0})[r := old(rootSpaces[r0])]
              && r in lay.info && Layout(r) == FromOrientation(DirOrientation(dir))
      ensures LocalOf(sel.nodes, moving) == old(LocalOf(sel.nodes, moving))
      ensures !Under(forest.nodes, forest.depth, moving, old(forest.nodes[moving].parent.value))
      ensures var r0, p := RootOf(old(forest.nodes), old(forest.depth), moving), old(forest.nodes[moving].parent.value);
              var r := forest.nodes[moving].parent.value;
              && r in forest.kids && p in old(forest.kids)
              && forest.kids[r] == (if r0 !in forest.nodes then [moving] else if Backward(dir) then [moving, r0] else [r0, moving])
              && (|old(forest.kids[p])| > 1 ==> r0 in forest.nodes)
    {
      var dest := RaiseRoot(moving, dir);
      ghost var r := forest.nodes[dest.target].parent.value;
      LandAtRoot(moving, dest, dir);
      assert forest.nodes[moving].parent == Some(r);
    }

    /**
     * The second half of `move_node_inner` with no destination: `moving`
     * lands ahead of the former root `dest.target`, the only child of the
     * fresh root, and the cull of its old parent cannot reach that root.
     */
    method LandAtRoot(moving: NodeId, dest: Destination, dir: Direction)
      requires Valid() && moving in forest.nodes && forest.nodes[moving].parent.Some?
      requires dest.target in forest.nodes && dest.target != moving && forest.nodes[dest.target].parent.Some?
      requires var r := forest.nodes[dest.target].parent.value;
               && r != moving && r in forest.nodes && forest.nodes[r].parent.None?
               && r in forest.kids && forest.kids[r] == [dest.target]
               && forest.nodes[moving].parent != Some(r) && !Under(forest.nodes, forest.depth, r, moving)
               && r in lay.info
      requires dest.Ahead?
      modifies forest, sel, lay
      ensures Valid() && unchanged(this) && SameKinds(old(lay.info), lay.info)
      ensures var r := old(forest.nodes[dest.target].parent.value);
              && r in forest.nodes && forest.nodes[r].parent.None?
              && r in lay.info && lay.info[r].kind == old(lay.info[r].kind)
      ensures moving in forest.nodes && forest.nodes[moving].parent == old(forest.nodes[dest.target].parent)
      ensures LocalOf(sel.nodes, moving) == old(LocalOf(sel.nodes, moving))
      ensures !Under(forest.nodes, forest.depth, moving, old(forest.nodes[moving].parent.value))
      ensures var p, r0, r := old(forest.nodes[moving].parent.value), dest.target, old(forest.nodes[dest.target].parent.value);
              && r in forest.kids && p in old(forest.kids)
              && forest.kids[r] == (if r0 !in forest.nodes then [moving] else if Backward(dir) then [moving, r0] else [r0, moving])
              && (|old(forest.kids[p])| > 1 ==> r0 in forest.nodes)
    {
      ghost var p := forest.nodes[moving].parent.value;
      ghost var m1, k1 := forest.nodes, forest.kids;
      ghost var r0, r1 := dest.target, m1[dest.target].parent.value;
      CutElsewhere(m1, k1, forest.depth, moving, r1);
      Land(moving, dest, dir);
      BesideRoot(r0, moving, dir, forest.nodes.Keys);
      assert Under(forest.nodes, forest.depth, moving, p) ==> Under(forest.nodes, forest.depth, r1, p);
    }

    /**
     * The case of `move_node_inner` with no destination: the root of the
     * tree of `moving` is nested in a fresh root laid out along `dir`, and
     * becomes the target to land ahead of.
     */
    method RaiseRoot(moving: NodeId, dir: Direction) returns (dest: Destination)
      requires Valid() && moving in forest.nodes && forest.nodes[moving].parent.Some?
      modifies this, forest, sel, lay
      ensures Valid() && windows == old(windows) && windowNodes == old(windowNodes)
      ensures dest == Ahead(RootOf(old(forest.nodes), old(forest.depth), moving))
      ensures moving in forest.nodes && forest.nodes[moving].parent == old(forest.nodes[moving].parent)
      ensures dest.target in forest.nodes && dest.target != moving && forest.nodes[dest.target].parent.Some?
      ensures forest.nodes.Keys == old(forest.nodes.Keys) + {forest.nodes[dest.target].parent.value}
      ensures forest.kids == old(forest.kids)[forest.nodes[dest.target].parent.value := [dest.target]]
      ensures var r, r0 := forest.nodes[dest.target].parent.value, dest.target;
              && r !in old(forest.nodes) && r != moving && forest.nodes[r].parent.None?
              && r0 in old(rootSpaces) && rootSpaces == (old(rootSpaces) - {r0})[r := old(rootSpaces[r0])]
              && r in lay.info && Layout(r) == FromOrientation(DirOrientation(dir))
              && !Under(forest.nodes, forest.depth, r, moving)
      ensures LocalOf(sel.nodes, moving) == old(LocalOf(sel.nodes, moving))
    {
      var oldRoot := RootOf(forest.nodes, forest.depth, moving);
      ghost var m, k, d, s := forest.nodes, forest.kids, forest.depth, sel.nodes;
      // `nest_in_container` on a root takes its root branch.
      var r := NestAtRoot(oldRoot, FromOrientation(DirOrientation(dir)));
      RaisedKeeps(m, k, d, s, forest.nodes, forest.kids, forest.depth, sel.nodes, oldRoot, r, moving);
      dest := Ahead(oldRoot);
    }

    /**
     * The end of `move_node_inner`: `moving` is relocated next to its
     * target, then its emptied old parent is culled. `moving` survives with
     * the parent of the target as its parent, and no kind changes.
     */
    method Land(moving: NodeId, dest: Destination, dir: Direction)
      requires Valid() && moving in forest.nodes && forest.nodes[moving].parent.Some?
      requires dest.target in forest.nodes && dest.target != moving && forest.nodes[dest.target].parent.Some?
      requires !Under(forest.nodes, forest.depth, forest.nodes[dest.target].parent.value, moving)
      modifies forest, sel, lay
      ensures Valid() && unchanged(this)
      ensures moving in forest.nodes && forest.nodes[moving].parent == old(forest.nodes[dest.target].parent)
      ensures SameKinds(old(lay.info), lay.info)
      ensures LocalOf(sel.nodes, moving) == old(LocalOf(sel.nodes, moving))
      ensures old(forest.nodes[moving].parent.value) in forest.nodes ==>
                && ParentsKept(old(forest.nodes), forest.nodes, moving)
                && sel.nodes == AfterRemoving(old(sel.nodes), old(forest.nodes), moving)
      ensures var p, q := old(forest.nodes[moving].parent.value), old(forest.nodes[dest.target].parent.value);
              var K := CutKids(old(forest.nodes), old(forest.kids), moving);
              && q in K && dest.target in K[q] && q in forest.kids
              && forest.kids[q] == Surviving(Landed(K[q], dest, dir, moving), forest.nodes.Keys)
              && (q == p ==> forest.kids[q] == Landed(K[q], dest, dir, moving))
              && (q == p || |old(forest.kids[p])| > 1 ==> forest.nodes.Keys == old(forest.nodes.Keys))
    {
      var oldParent := forest.nodes[moving].parent.value;
      ghost var m1, d1, s1, info := forest.nodes, forest.depth, sel.nodes, lay.info;
      ghost var q := m1[dest.target].parent.value;
      ParentNotWindow(m1, forest.kids, d1, windows, windowNodes, rootSpaces, moving);
      RootsIff(forest.nodes, rootSpaces);
      Relocate(moving, dest, dir);
      ghost var m2, d2, k2 := forest.nodes, forest.depth, forest.kids;
      RemovingFrame(s1, m1, moving, moving);
      MovedKeepsKinds(info, moving, oldParent, q);
      MovedNotAbove(m1, d1, m2, d2, moving, oldParent);
      Cull(oldParent);
      MovedSurvives(m1, d1, m2, d2, forest.nodes, moving, oldParent);
      assert q in forest.nodes.Keys && forest.kids[q] == Surviving(k2[q], forest.nodes.Keys);
      RootsIff(forest.nodes, rootSpaces);
    }

    /**
     * The loop at the end of `move_node`: `node` and its ancestors, up to
     * but excluding `stop`, each become the local selection of their parent.
     */
    method SelectUpTo(node: NodeId, stop: NodeId)
      requires Core() && node in forest.nodes
      modifies sel
      ensures Core()
      ensures sel.nodes == SelectAlong(old(sel.nodes), forest.nodes, PathTo(forest.nodes, forest.depth, node, stop))
    {
      var cur := Some(node);
      while cur.Some? && cur.value != stop
        invariant Core() && (cur.Some? ==> cur.value in forest.nodes)
        invariant SelectAlong(sel.nodes, forest.nodes, if cur.Some? then PathTo(forest.nodes, forest.depth, cur.value, stop) else [])
               == SelectAlong(old(sel.nodes), forest.nodes, PathTo(forest.nodes, forest.depth, node, stop))
        decreases if cur.Some? then forest.depth[cur.value] + 1 else 0
      {
        var n := cur.value;
        ghost var P := PathTo(forest.nodes, forest.depth, n, stop);
        assert P[1..] == if forest.nodes[n].parent.Some? then PathTo(forest.nodes, forest.depth, forest.nodes[n].parent.value, stop) else [];
        SelectLocally(n);
        cur := forest.nodes[n].parent;
      }
    }

    /**
     * `move_node`: a node without a parent does not move. Otherwise the
     * node moves as `move_node_inner` says; if it was the local selection of
     * its old parent, it and its new ancestors up to that old parent become
     * the local selections of their parents, so the selection follows it.
     */
    method MoveNode(moving: NodeId, dir: Direction) returns (moved: bool)
      requires Valid() && moving in forest.nodes
      modifies this, forest, sel, lay
      ensures Valid() && windows == old(windows) && windowNodes == old(windowNodes)
      ensures moved <==> old(forest.nodes[moving].parent).Some?
      ensures !moved ==> unchanged(this) && unchanged(forest) && unchanged(sel) && unchanged(lay)
      ensures moved ==> moving in forest.nodes && forest.nodes[moving].parent.Some?
      ensures moved ==>
                var a := Aim(old(forest.nodes), old(forest.kids), old(forest.depth), old(lay.info), old(sel.nodes), moving, dir);
                a.Some? ==> && a.value.target in old(forest.nodes)
                            && forest.nodes[moving].parent == old(forest.nodes[a.value.target].parent)
      ensures moved && old(LocalOf(sel.nodes, forest.nodes[moving].parent.value)) == Some(moving) ==>
                var path := PathTo(forest.nodes, forest.depth, moving, old(forest.nodes[moving].parent.value));
                && path != [] && path[0] == moving
                && forall x | x in path && forest.nodes[x].parent.Some? ::
                     LocalOf(sel.nodes, forest.nodes[x].parent.value) == Some(x)
      ensures moved && old(Walk(sel.nodes, forest.nodes, forest.kids, forest.depth, RootOf(forest.nodes, forest.depth, moving))) == moving ==>
                Walk(sel.nodes, forest.nodes, forest.kids, forest.depth, RootOf(forest.nodes, forest.depth, moving)) == moving
      ensures moved ==> Placement(old(forest.nodes), old(forest.kids), old(forest.depth), old(lay.info), old(sel.nodes),
                                  forest.nodes, forest.kids, moving, dir)
      ensures moved ==> Swapped(old(forest.nodes), old(forest.kids), old(lay.info), forest.nodes, forest.kids, moving, dir)
    {
      if forest.nodes[moving].parent.None? {
        return false;
      }
      ghost var m0, k0, d0, info0, s0 := forest.nodes, forest.kids, forest.depth, lay.info, sel.nodes;
      MoveChild(moving, dir);
      PlacementSwap(m0, k0, d0, info0, s0, forest.nodes, forest.kids, moving, dir);
      return true;
    }

    /** `move_node` for a node that has a parent. */
    method MoveChild(moving: NodeId, dir: Direction)
      requires Valid() && moving in forest.nodes && forest.nodes[moving].parent.Some?
      modifies this, forest, sel, lay
      ensures Valid() && windows == old(windows) && windowNodes == old(windowNodes)
      ensures moving in forest.nodes && forest.nodes[moving].parent.Some?
      ensures var a := Aim(old(forest.nodes), old(forest.kids), old(forest.depth), old(lay.info), old(sel.nodes), moving, dir);
              a.Some? ==> && a.value.target in old(forest.nodes)
                          && forest.nodes[moving].parent == old(forest.nodes[a.value.target].parent)
      ensures old(LocalOf(sel.nodes, forest.nodes[moving].parent.value)) == Some(moving) ==>
                var path := PathTo(forest.nodes, forest.depth, moving, old(forest.nodes[moving].parent.value));
                && path != [] && path[0] == moving
                && forall x | x in path && forest.nodes[x].parent.Some? ::
                     LocalOf(sel.nodes, forest.nodes[x].parent.value) == Some(x)
      ensures old(Walk(sel.nodes, forest.nodes, forest.kids, forest.depth, RootOf(forest.nodes, forest.depth, moving))) == moving ==>
                Walk(sel.nodes, forest.nodes, forest.kids, forest.depth, RootOf(forest.nodes, forest.depth, moving)) == moving
      ensures Placement(old(forest.nodes), old(forest.kids), old(forest.depth), old(lay.info), old(sel.nodes),
                        forest.nodes, forest.kids, moving, dir)
    {
      var oldParent := forest.nodes[moving].parent.value;
      CurrentIsLocal(sel.nodes, forest.nodes, forest.kids, forest.depth, moving);
      var isSelection := sel.LocalSelection(oldParent) == Some(moving);
      if isSelection {
        MoveSelected(moving, dir);
      } else {
        MoveNodeInner(moving, dir);
      }
    }

    /** `move_node` for the local selection of its parent: the move, then the path back up is selected. */
    method MoveSelected(moving: NodeId, dir: Direction)
      requires Valid() && moving in forest.nodes && forest.nodes[moving].parent.Some?
      requires LocalOf(sel.nodes, forest.nodes[moving].parent.value) == Some(moving)
      modifies this, forest, sel, lay
      ensures Valid() && windows == old(windows) && windowNodes == old(windowNodes)
      ensures moving in forest.nodes && forest.nodes[moving].parent.Some?
      ensures var a := Aim(old(forest.nodes), old(forest.kids), old(forest.depth), old(lay.info), old(sel.nodes), moving, dir);
              a.Some? ==> && a.value.target in old(forest.nodes)
                          && forest.nodes[moving].parent == old(forest.nodes[a.value.target].parent)
      ensures var path := PathTo(forest.nodes, forest.depth, moving, old(forest.nodes[moving].parent.value));
              && path != [] && path[0] == moving
              && forall x | x in path && forest.nodes[x].parent.Some? ::
                   LocalOf(sel.nodes, forest.nodes[x].parent.value) == Some(x)
      ensures old(Walk(sel.nodes, forest.nodes, forest.kids, forest.depth, RootOf(forest.nodes, forest.depth, moving))) == moving ==>
                Walk(sel.nodes, forest.nodes, forest.kids, forest.depth, RootOf(forest.nodes, forest.depth, moving)) == moving
      ensures Placement(old(forest.nodes), old(forest.kids), old(forest.depth), old(lay.info), old(sel.nodes),
                        forest.nodes, forest.kids, moving, dir)
    {
      var oldParent := forest.nodes[moving].parent.value;
      ghost var m0, k0, d0, s0 := forest.nodes, forest.kids, forest.depth, sel.nodes;
      MoveNodeInner(moving, dir);
      SelectBack(moving, oldParent, m0, k0, d0, s0);
    }

    /**
     * The loop at the end of `move_node` for a node that was the local
     * selection of its old parent `oldParent`; `m0`, `k0`, `d0` and `s0`
     * are the forest and the selection before the move.
     */
    method SelectBack(moving: NodeId, oldParent: NodeId, ghost m0: map<NodeId, Node>, ghost k0: map<NodeId, seq<NodeId>>,
                      ghost d0: map<NodeId, nat>, ghost s0: SelectionMap)
      requires Valid() && moving in forest.nodes
      requires Linked(m0, k0, d0) && Coherent(s0, k0) && moving in m0 && m0[moving].parent == Some(oldParent)
      requires LocalOf(sel.nodes, moving) == LocalOf(s0, moving)
      requires MovedAlone(m0, s0, forest.nodes, forest.depth, sel.nodes, moving, oldParent)
      modifies sel
      ensures Valid()
      ensures var path := PathTo(forest.nodes, forest.depth, moving, oldParent);
              && path != [] && path[0] == moving
              && forall x | x in path && forest.nodes[x].parent.Some? ::
                   LocalOf(sel.nodes, forest.nodes[x].parent.value) == Some(x)
      ensures Walk(s0, m0, k0, d0, RootOf(m0, d0, moving)) == moving ==>
                Walk(sel.nodes, forest.nodes, forest.kids, forest.depth, RootOf(forest.nodes, forest.depth, moving)) == moving
    {
      ghost var s1 := sel.nodes;
      UnderDepth(forest.nodes, forest.depth, moving, moving);
      SelectUpTo(moving, oldParent);
      PathSelected(s1, forest.nodes, forest.depth, moving, oldParent);
      if Walk(s0, m0, k0, d0, RootOf(m0, d0, moving)) == moving {
        assert Fits(forest.nodes, forest.kids, forest.nextId, sel.nodes, lay.info, windows, windowNodes, spaceRoots, rootSpaces);
        SelectionKept(m0, k0, d0, s0, forest.nodes, forest.kids, forest.depth, s1, moving, oldParent);
      }
    }
  }
}
