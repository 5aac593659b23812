/**
 * The layout manager of crates/swell/src/layout.rs: it owns one layout tree
 * and turns the events and commands of the window manager into operations
 * on it.
 */
module Manager {
  import opened Types
  import opened ForestLinks
  import opened Selections
  import opened Layouts
  import opened TreeFits
  import opened Navigation
  import opened Resizing
  import opened LayoutTrees

  /** `LayoutCommand`. */
  datatype LayoutCommand =
    | Shuffle
    | NextWindow
    | PrevWindow
    | MoveFocus(direction: Direction)
    | Ascend
    | Descend
    | MoveNode(direction: Direction)
    | Split(orientation: Orientation)
    | Group(orientation: Orientation)
    | Ungroup
    | Debug

  /** `LayoutEvent`. */
  datatype LayoutEvent =
    | WindowRaised(space: SpaceId, raised: Option<WindowId>)
    | WindowResized(space: SpaceId, wid: WindowId, oldFrame: Rect, newFrame: Rect, screen: Rect)

  /** `EventResponse`: the window to raise, if any. */
  datatype EventResponse = EventResponse(raiseWindow: Option<WindowId>)

  /** The response with nothing to raise (`EventResponse::default`). */
  const NoResponse := EventResponse(None)

  /** `LayoutManager`. */
  class LayoutManager {
    const tree: LayoutTree

    ghost predicate Valid()
      reads this, tree, tree.forest, tree.sel, tree.lay
    {
      tree.Valid()
    }

    /** `LayoutManager::new`: an empty layout tree. */
    constructor ()
      ensures Valid() && tree.forest.nodes == map[] && tree.windows == map[] && tree.spaceRoots == map[]
    {
      tree := new LayoutTree();
    }

    /**
     * Where `traverse` lands from the current selection below `root`, in
     * `dir`, if anywhere.
     */
    ghost function FocusFrom(root: NodeId, dir: Direction): (r: Option<NodeId>)
      reads this, tree, tree.forest, tree.sel, tree.lay
      requires Valid() && root in tree.forest.nodes
      ensures r.Some? ==> r.value in tree.forest.nodes
    {
      var cur := Walk(tree.sel.nodes, tree.forest.nodes, tree.forest.kids, tree.forest.depth, root);
      TraverseSpec(tree.forest.nodes, tree.forest.kids, tree.forest.depth, tree.lay.info, tree.sel.nodes, cur, dir);
      Traverse(tree.forest.nodes, tree.forest.kids, tree.forest.depth, tree.lay.info, tree.sel.nodes, cur, dir)
    }

    /** The space roots are not window nodes, so a window can be added under one. */
    lemma RootNotWindow(space: SpaceId)
      requires Valid() && space in tree.spaceRoots
      ensures tree.spaceRoots[space] !in tree.windows
    {
      assert tree.Core();
      assert Fits(tree.forest.nodes, tree.forest.kids, tree.forest.nextId, tree.sel.nodes, tree.lay.info,
                  tree.windows, tree.windowNodes, tree.spaceRoots, tree.rootSpaces);
      assert SpacesFit(tree.forest.nodes, tree.spaceRoots, tree.rootSpaces);
      assert WindowsFit(tree.forest.nodes, tree.forest.kids, tree.windows, tree.windowNodes, tree.rootSpaces);
      var r := tree.spaceRoots[space];
      assert r in tree.rootSpaces;
    }

    /** The children of the root of `space`, none when it has no root yet. */
    ghost function SpaceKids(space: SpaceId): seq<NodeId>
      reads this, tree, tree.forest
    {
      if space in tree.spaceRoots && tree.spaceRoots[space] in tree.forest.kids then tree.forest.kids[tree.spaceRoots[space]] else []
    }

    /**
     * `add_window`: the root of `space` (made on first use) gets a fresh
     * window node `node` for `wid` as its last child, recorded on `space`.
     */
    method AddWindow(space: SpaceId, wid: WindowId) returns (ghost node: NodeId)
      requires Valid()
      modifies tree, tree.forest, tree.sel, tree.lay
      ensures Valid() && space in tree.spaceRoots && tree.spaceRoots[space] in tree.forest.kids
      ensures node !in old(tree.forest.nodes) && node in tree.forest.nodes
      ensures tree.forest.nodes[node].parent == Some(tree.spaceRoots[space])
      ensures tree.forest.kids[tree.spaceRoots[space]] == old(SpaceKids(space)) + [node]
      ensures tree.windows == old(tree.windows)[node := wid]
      ensures tree.windowNodes == old(tree.windowNodes)[wid := old(NodesOfWindow(wid)) + [WindowNodeInfo(space, node)]]
    {
      var root := tree.Space(space);
      RootNotWindow(space);
      node := tree.AddWindow(root, wid);
      assert RootOf(tree.forest.nodes, tree.forest.depth, root) == root;
    }

    /** The nodes recorded for `wid`, none when it has no record. */
    ghost function NodesOfWindow(wid: WindowId): seq<WindowNodeInfo>
      reads this, tree
    {
      if wid in tree.windowNodes then tree.windowNodes[wid] else []
    }

    /**
     * `add_windows`: the root of `space` (made on first use) gets a fresh
     * window node for each window of `wids`, in order, as its last
     * children; `nodes` are those nodes.
     */
    method AddWindows(space: SpaceId, wids: seq<WindowId>) returns (ghost nodes: seq<NodeId>)
      requires Valid()
      modifies tree, tree.forest, tree.sel, tree.lay
      ensures Valid() && space in tree.spaceRoots && tree.spaceRoots[space] in tree.forest.kids && |nodes| == |wids|
      ensures tree.forest.kids[tree.spaceRoots[space]] == old(SpaceKids(space)) + nodes
      ensures forall j | 0 <= j < |nodes| :: nodes[j] !in old(tree.forest.nodes) && nodes[j] in tree.windows && tree.windows[nodes[j]] == wids[j]
      ensures forall n | n in old(tree.windows) :: n in tree.windows && tree.windows[n] == old(tree.windows[n])
    {
      var root := tree.Space(space);
      RootNotWindow(space);
      nodes := tree.AddWindows(root, wids);
    }

    /** `retain_windows`: exactly the windows `keep` rejects lose their nodes. */
    method RetainWindows(keep: WindowId -> bool)
      requires Valid()
      modifies tree, tree.forest, tree.sel, tree.lay
      ensures Valid()
      ensures forall w :: w in tree.windowNodes <==> w in old(tree.windowNodes) && keep(w)
      ensures forall n :: n in tree.windows <==> n in old(tree.windows) && keep(old(tree.windows[n]))
    {
      tree.RetainWindows(keep);
    }

    /**
     * `windows`: the windows that have nodes: each node recorded for one of
     * them shows it, and every window node's window is among them.
     */
    function Windows(): (ws: set<WindowId>)
      reads this, tree, tree.forest, tree.sel, tree.lay
      requires Valid()
      ensures forall w | w in ws :: w in tree.windowNodes && forall i | 0 <= i < |tree.windowNodes[w]| ::
                tree.windowNodes[w][i].node in tree.windows && tree.windows[tree.windowNodes[w][i].node] == w
      ensures forall n | n in tree.windows :: tree.windows[n] in ws
    {
      tree.Windows()
    }

    /**
     * The `WindowRaised` arm: a raised window that has a node on `space`
     * makes that node the current selection of its tree; otherwise nothing
     * changes.
     */
    method RaiseWindow(space: SpaceId, raised: Option<WindowId>)
      requires Valid()
      modifies tree.sel
      ensures Valid()
      ensures var node := if raised.Some? then tree.WindowNode(space, raised.value) else None;
              && (node.None? ==> tree.sel.nodes == old(tree.sel.nodes))
              && (node.Some? ==>
                    && node.value in tree.forest.nodes && tree.windows[node.value] == raised.value
                    && tree.sel.nodes == SelectPath(Mark(old(tree.sel.nodes), node.value), tree.forest.nodes, tree.forest.depth, node.value)
                    && Walk(tree.sel.nodes, tree.forest.nodes, tree.forest.kids, tree.forest.depth,
                            RootOf(tree.forest.nodes, tree.forest.depth, node.value)) == node.value)
    {
      assert WindowsFit(tree.forest.nodes, tree.forest.kids, tree.windows, tree.windowNodes, tree.rootSpaces);
      if raised.Some? {
        var node := tree.WindowNode(space, raised.value);
        if node.Some? {
          tree.Select(node.value);
        }
      }
    }

    /**
     * The `WindowResized` arm: a resized window that has a node on `space`
     * resizes that node towards each edge that moved; otherwise nothing
     * changes. `panics` reports the panic of `set_frame_from_resize` on more
     * than two moved edges, which comes after its resizes.
     */
    method ResizeWindow(space: SpaceId, wid: WindowId, oldFrame: Rect, newFrame: Rect, screen: Rect) returns (panics: bool)
      requires Valid()
      modifies tree.lay
      ensures Valid()
      ensures var node := tree.WindowNode(space, wid);
              && (node.None? ==> tree.lay.info == old(tree.lay.info) && !panics)
              && (node.Some? ==>
                    && node.value in tree.forest.nodes && tree.windows[node.value] == wid
                    && (panics <==> MovedEdges(EdgeDeltas(oldFrame, newFrame)) > 2)
                    && tree.lay.info == FrameInfo(tree.forest.nodes, tree.forest.kids, tree.forest.depth, old(tree.lay.info),
                                                  node.value, oldFrame, newFrame, screen))
    {
      assert WindowsFit(tree.forest.nodes, tree.forest.kids, tree.windows, tree.windowNodes, tree.rootSpaces);
      panics := false;
      var node := tree.WindowNode(space, wid);
      if node.Some? {
        panics := tree.SetFrameFromResize(node.value, oldFrame, newFrame, screen);
      }
    }

    /**
     * `handle_event`: a raised window is selected and a resized window is
     * resized, each when it has a node on its space. The response is always
     * empty; `panics` is that of the resize.
     */
    method HandleEvent(event: LayoutEvent) returns (resp: EventResponse, panics: bool)
      requires Valid()
      modifies tree.sel, tree.lay
      ensures Valid() && resp == NoResponse
      ensures event.WindowRaised? ==>
                && tree.lay.info == old(tree.lay.info) && !panics
                && var node := if event.raised.Some? then tree.WindowNode(event.space, event.raised.value) else None;
                   && (node.None? ==> tree.sel.nodes == old(tree.sel.nodes))
                   && (node.Some? ==>
                         Walk(tree.sel.nodes, tree.forest.nodes, tree.forest.kids, tree.forest.depth,
                              RootOf(tree.forest.nodes, tree.forest.depth, node.value)) == node.value)
      ensures event.WindowResized? ==>
                && tree.sel.nodes == old(tree.sel.nodes)
                && var node := tree.WindowNode(event.space, event.wid);
                   && (node.None? ==> tree.lay.info == old(tree.lay.info) && !panics)
                   && (node.Some? ==>
                         && (panics <==> MovedEdges(EdgeDeltas(event.oldFrame, event.newFrame)) > 2)
                         && tree.lay.info == FrameInfo(tree.forest.nodes, tree.forest.kids, tree.forest.depth, old(tree.lay.info),
                                                       node.value, event.oldFrame, event.newFrame, event.screen))
    {
      panics := false;
      match event {
        case WindowRaised(space, raised) =>
          RaiseWindow(space, raised);
        case WindowResized(space, wid, oldFrame, newFrame, screen) =>
          panics := ResizeWindow(space, wid, oldFrame, newFrame, screen);
      }
      resp := NoResponse;
    }

    /**
     * `handle_command`: the root of `space` is made on first use, then the
     * command acts on the current selection below it. Only the focus
     * commands answer a window to raise.
     */
    method HandleCommand(space: SpaceId, command: LayoutCommand) returns (resp: EventResponse)
      requires Valid()
      modifies tree, tree.forest, tree.sel, tree.lay
      ensures Valid()
      ensures !(command.MoveFocus? || command.NextWindow? || command.PrevWindow?) ==> resp == NoResponse
      ensures command.MoveFocus? || command.NextWindow? || command.PrevWindow? ==>
                && space in tree.spaceRoots && tree.spaceRoots[space] in tree.forest.nodes
                && var root := tree.spaceRoots[space];
                   && (command.MoveFocus? ==> resp.raiseWindow == Raised(root, command.direction))
                   && (command.NextWindow? ==> resp.raiseWindow == Raised(root, Left))
                   && (command.PrevWindow? ==> resp.raiseWindow == Raised(root, Right))
    {
      var root := tree.Space(space);
      resp := RunCommand(root, command);
    }

    /**
     * The window to raise after a focus move from the current selection
     * below `root` in `dir`: the window of the node `traverse` lands on,
     * when that is a window node.
     */
    ghost function Raised(root: NodeId, dir: Direction): (r: Option<WindowId>)
      reads this, tree, tree.forest, tree.sel, tree.lay
      requires Valid() && root in tree.forest.nodes
      ensures r.Some? <==> FocusFrom(root, dir).Some? && FocusFrom(root, dir).value in tree.windows
      ensures r.Some? ==> r.value == tree.windows[FocusFrom(root, dir).value] && r.value in tree.windowNodes
    {
      var t := FocusFrom(root, dir);
      if t.Some? then tree.WindowAt(t.value) else None
    }

    /**
     * The `MoveFocus` arm: nothing changes, and the answer is the window of
     * the node `traverse` lands on from the current selection below `root`,
     * when that is a window node.
     */
    method Focus(root: NodeId, dir: Direction) returns (raised: Option<WindowId>)
      requires Valid() && root in tree.forest.nodes
      ensures raised == Raised(root, dir)
    {
      var current := tree.Selection(root);
      var cur := current.value;
      TraverseSpec(tree.forest.nodes, tree.forest.kids, tree.forest.depth, tree.lay.info, tree.sel.nodes, cur, dir);
      var t := Traverse(tree.forest.nodes, tree.forest.kids, tree.forest.depth, tree.lay.info, tree.sel.nodes, cur, dir);
      raised := if t.Some? then tree.WindowAt(t.value) else None;
    }

    /**
     * The `MoveNode` arm: the current selection below `root` moves in
     * `dir`, as `move_node` says. A root selection changes nothing. Any
     * other lands where `Placement` says: it trades places with a leaf
     * sibling it moves over, and it stays the current selection of its
     * tree. No window gains or loses a node.
     */
    method MoveSelection(root: NodeId, dir: Direction)
      requires Valid() && root in tree.forest.nodes
      modifies tree, tree.forest, tree.sel, tree.lay
      ensures Valid() && tree.windows == old(tree.windows) && tree.windowNodes == old(tree.windowNodes)
      ensures var s := old(Walk(tree.sel.nodes, tree.forest.nodes, tree.forest.kids, tree.forest.depth, root));
              && (old(tree.forest.nodes[s].parent).None? ==>
                    unchanged(tree) && unchanged(tree.forest) && unchanged(tree.sel) && unchanged(tree.lay))
              && (old(tree.forest.nodes[s].parent).Some? ==> s in tree.forest.nodes && tree.forest.nodes[s].parent.Some?)
      ensures var s := old(Walk(tree.sel.nodes, tree.forest.nodes, tree.forest.kids, tree.forest.depth, root));
              old(tree.forest.nodes[s].parent).Some? ==>
                && Placement(old(tree.forest.nodes), old(tree.forest.kids), old(tree.forest.depth), old(tree.lay.info),
                             old(tree.sel.nodes), tree.forest.nodes, tree.forest.kids, s, dir)
                && Swapped(old(tree.forest.nodes), old(tree.forest.kids), old(tree.lay.info), tree.forest.nodes, tree.forest.kids, s, dir)
                && (old(Walk(tree.sel.nodes, tree.forest.nodes, tree.forest.kids, tree.forest.depth,
                             RootOf(tree.forest.nodes, tree.forest.depth, s))) == s ==>
                      Walk(tree.sel.nodes, tree.forest.nodes, tree.forest.kids, tree.forest.depth,
                           RootOf(tree.forest.nodes, tree.forest.depth, s)) == s)
    {
      var current := tree.Selection(root);
      var _ := tree.MoveNode(current.value, dir);
    }

    /**
     * The `Split` arm: the current selection below `root` ends up as the
     * only child of a container of the ungrouped layout of orientation `o`.
     */
    method SplitSelection(root: NodeId, o: Orientation)
      requires Valid() && root in tree.forest.nodes
      modifies tree, tree.forest, tree.sel, tree.lay
      ensures Valid() && tree.windows == old(tree.windows) && tree.windowNodes == old(tree.windowNodes)
      ensures var s := old(Walk(tree.sel.nodes, tree.forest.nodes, tree.forest.kids, tree.forest.depth, root));
              && s in tree.forest.nodes && tree.forest.nodes[s].parent.Some?
              && var p := tree.forest.nodes[s].parent.value;
                 && tree.forest.kids[p] == [s] && p in tree.lay.info && tree.Layout(p) == FromOrientation(o)
    {
      var current := tree.Selection(root);
      var _ := tree.NestInContainer(current.value, FromOrientation(o));
    }

    /**
     * The `Group` arm: the parent of the current selection below `root`, if
     * it has one, takes the group layout of orientation `o`; nothing else
     * changes.
     */
    method GroupSelection(root: NodeId, o: Orientation)
      requires Valid() && root in tree.forest.nodes
      modifies tree.lay
      ensures Valid()
      ensures var p := tree.forest.nodes[Walk(tree.sel.nodes, tree.forest.nodes, tree.forest.kids, tree.forest.depth, root)].parent;
              && (p.None? ==> tree.lay.info == old(tree.lay.info))
              && (p.Some? ==> tree.lay.info == Kinded(old(tree.lay.info), p.value, GroupOf(o)))
    {
      var current := tree.Selection(root);
      var parent := tree.forest.nodes[current.value].parent;
      if parent.Some? {
        tree.SetLayout(parent.value, GroupOf(o));
      }
    }

    /**
     * The `Ungroup` arm: the parent of the current selection below `root`,
     * if it has one and its layout is a group, takes back its last
     * ungrouped layout; nothing else changes.
     */
    method UngroupSelection(root: NodeId)
      requires Valid() && root in tree.forest.nodes
      modifies tree.lay
      ensures Valid()
      ensures var p := tree.forest.nodes[Walk(tree.sel.nodes, tree.forest.nodes, tree.forest.kids, tree.forest.depth, root)].parent;
              && (p.None? ==> tree.lay.info == old(tree.lay.info))
              && (p.Some? ==>
                    && p.value in old(tree.lay.info)
                    && tree.lay.info == if IsGroup(old(tree.Layout(p.value)))
                                        then Kinded(old(tree.lay.info), p.value, old(tree.LastUngroupedLayout(p.value)))
                                        else old(tree.lay.info))
    {
      var current := tree.Selection(root);
      var parent := tree.forest.nodes[current.value].parent;
      if parent.Some? {
        assert tree.Core();
        assert Fits(tree.forest.nodes, tree.forest.kids, tree.forest.nextId, tree.sel.nodes, tree.lay.info,
                    tree.windows, tree.windowNodes, tree.spaceRoots, tree.rootSpaces);
        if IsGroup(tree.Layout(parent.value)) {
          tree.SetLayout(parent.value, tree.LastUngroupedLayout(parent.value));
        }
      }
    }

    /**
     * The match of `handle_command` on the root `root` of a space. Only the
     * focus commands answer something. `NextWindow` and `PrevWindow` run as
     * focus moves to the left and to the right (the source re-enters
     * `handle_command`, whose second `space` call finds the root the first
     * one made). `Shuffle` and `Debug` change nothing.
     */
    method RunCommand(root: NodeId, command: LayoutCommand) returns (resp: EventResponse)
      requires Valid() && root in tree.forest.nodes
      modifies tree, tree.forest, tree.sel, tree.lay
      ensures Valid()
      ensures command.MoveFocus? || command.NextWindow? || command.PrevWindow? || command.Shuffle? || command.Debug? ==>
                unchanged(tree) && unchanged(tree.forest) && unchanged(tree.sel) && unchanged(tree.lay)
      ensures command.MoveFocus? ==> resp.raiseWindow == Raised(root, command.direction)
      ensures command.NextWindow? ==> resp.raiseWindow == Raised(root, Left)
      ensures command.PrevWindow? ==> resp.raiseWindow == Raised(root, Right)
      ensures !(command.MoveFocus? || command.NextWindow? || command.PrevWindow?) ==> resp == NoResponse
      decreases if command.NextWindow? || command.PrevWindow? then 1 else 0
    {
      resp := NoResponse;
      match command {
        case Shuffle =>
        case NextWindow =>
          resp := RunCommand(root, MoveFocus(Left));
        case PrevWindow =>
          resp := RunCommand(root, MoveFocus(Right));
        case MoveFocus(direction) =>
          var raised := Focus(root, direction);
          resp := EventResponse(raised);
        case Ascend =>
          var _ := tree.AscendSelection(root);
        case Descend =>
          var _ := tree.DescendSelection(root);
        case MoveNode(direction) =>
          MoveSelection(root, direction);
        case Split(orientation) =>
          SplitSelection(root, orientation);
        case Group(orientation) =>
          GroupSelection(root, orientation);
        case Ungroup =>
          UngroupSelection(root);
        case Debug =>
      }
    }

    /** `calculate`: the frame of every window of `space` laid out on `screen`, one per window node. */
    method Calculate(space: SpaceId, screen: Rect) returns (sizes: seq<(WindowId, Rect)>)
      requires Valid()
      modifies tree, tree.forest, tree.sel, tree.lay
      ensures Valid() && space in tree.spaceRoots && tree.spaceRoots[space] in tree.forest.nodes
      ensures var root := tree.spaceRoots[space];
              && sizes == Frames(tree.lay.info, tree.windows, tree.forest.nodes, tree.forest.kids, tree.forest.depth, root, screen)
              && Ids(sizes) == Tiles(tree.windows, tree.forest.nodes, tree.forest.kids, tree.forest.depth, root)
    {
      var root := tree.Space(space);
      sizes := tree.CalculateLayout(root, screen);
    }
  }
}
