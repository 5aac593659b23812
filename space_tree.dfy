/**
 * The earlier window tree of crates/swell/src/model/tree.rs: one forest
 * holding a root per space with the window nodes below it, and a selection
 * that hears about every window node that comes and goes.
 */
module SpaceTrees {
  import opened Types
  import opened ForestLinks
  import opened NodeArena
  import opened Selections
  import opened TreeFits
  import opened SpaceFits
  import EditFits

  /** The window tree (`Tree`). */
  class Tree {
    const forest: Forest
    const sel: Selection
    /** The window shown by each window node. */
    var windows: map<NodeId, WindowId>
    /** The root of each space seen so far. */
    var spaces: map<SpaceId, NodeId>

    ghost predicate Valid()
      reads this, forest, sel
    {
      forest.Valid() && Registered(forest.nodes, forest.kids, sel.nodes, windows, spaces)
    }

    /** `Tree::new`: an empty forest, no windows and no spaces. */
    constructor ()
      ensures Valid() && forest.nodes == map[] && sel.nodes == map[] && windows == map[] && spaces == map[]
    {
      forest := new Forest();
      sel := new Selection();
      windows, spaces := map[], map[];
    }

    /**
     * `space`: the root of `space`, made on first use as a fresh root; later
     * calls return the same root and change nothing.
     */
    method Space(space: SpaceId) returns (root: NodeId)
      requires Valid()
      modifies this, forest
      ensures Valid() && windows == old(windows)
      ensures space in spaces && root == spaces[space] && root in forest.nodes && forest.nodes[root].parent.None?
      ensures space in old(spaces) ==> root == old(spaces[space]) && unchanged(this) && unchanged(forest)
      ensures space !in old(spaces) ==>
                && root !in old(forest.nodes) && forest.nodes == old(forest.nodes)[root := Unlinked]
                && forest.kids == old(forest.kids)[root := []] && spaces == old(spaces)[space := root]
    {
      if space in spaces {
        return spaces[space];
      }
      RootAddedRegistered(forest.nodes, forest.kids, sel.nodes, windows, spaces, forest.nextId, space);
      root := forest.NewRoot();
      spaces := spaces[space := root];
    }

    /**
     * `add_window`: a fresh window node showing `wid` becomes the last child
     * of the root of `space`, which is made first if the space is new; the
     * selection hears that the node joined its parent.
     */
    method AddWindow(space: SpaceId, wid: WindowId) returns (node: NodeId)
      requires Valid()
      modifies this, forest, sel
      ensures Valid() && sel.nodes == old(sel.nodes)
      ensures space in spaces && forall s | s != space :: s in spaces <==> s in old(spaces)
      ensures forall s | s in old(spaces) :: spaces[s] == old(spaces[s])
      ensures space !in old(spaces) ==> spaces[space] !in old(forest.nodes)
      ensures node !in old(forest.nodes) && forest.nodes.Keys == old(forest.nodes.Keys) + {node, spaces[space]}
      ensures node in forest.nodes && forest.nodes[node].parent == Some(spaces[space])
      ensures forest.kids[spaces[space]] ==
                (if space in old(spaces) then old(forest.kids[spaces[space]]) else []) + [node]
      ensures windows == old(windows)[node := wid]
    {
      var root := Space(space);
      node := PushWindow(root, wid);
    }

    /**
     * `add_windows`: each window of `wids` in turn gets a fresh window node
     * at the end of the root of `space`; `nodes` are those nodes, in the
     * same order. No window at all leaves the tree as it was.
     */
    method AddWindows(space: SpaceId, wids: seq<WindowId>) returns (ghost nodes: seq<NodeId>)
      requires Valid()
      modifies this, forest, sel
      ensures Valid() && |nodes| == |wids|
      ensures forall j | 0 <= j < |nodes| :: nodes[j] !in old(forest.nodes) && nodes[j] in windows && windows[nodes[j]] == wids[j]
      ensures forall n | n in old(windows) :: n in windows && windows[n] == old(windows[n])
      ensures forall n | n in windows :: n in old(windows) || n in nodes
      ensures wids != [] ==>
                && space in spaces
                && forest.kids[spaces[space]] == (if space in old(spaces) then old(forest.kids[spaces[space]]) else []) + nodes
      ensures wids == [] ==> spaces == old(spaces) && windows == old(windows)
    {
      ghost var K := if space in spaces then forest.kids[spaces[space]] else [];
      ghost var M, W := forest.nodes.Keys, windows;
      nodes := [];
      var i := 0;
      while i < |wids|
        invariant 0 <= i <= |wids| && |nodes| == i
        invariant Valid() && M <= forest.nodes.Keys
        invariant EditFits.Appended(SpaceKids(space), windows, M, K, W, nodes, wids)
        invariant forall s | s in old(spaces) :: s in spaces && spaces[s] == old(spaces[s])
        invariant i == 0 ==> spaces == old(spaces) && windows == old(windows)
        invariant 0 < i ==> space in spaces
      {
        var node := AddNext(space, wids[i], wids, nodes, M, K, W);
        nodes := nodes + [node];
        i := i + 1;
      }
    }

    /** The children of the root of `space`, none while `space` has no root yet. */
    ghost function SpaceKids(space: SpaceId): seq<NodeId>
      reads this, forest, sel
      requires forest.Valid() && Registered(forest.nodes, forest.kids, sel.nodes, windows, spaces)
    {
      if space in spaces then forest.kids[spaces[space]] else []
    }

    /** One turn of the loop of `add_windows`: `add_window` for the next window of `wids`. */
    method AddNext(space: SpaceId, wid: WindowId, ghost wids: seq<WindowId>, ghost nodes: seq<NodeId>, ghost M: set<NodeId>,
                   ghost K: seq<NodeId>, ghost W: map<NodeId, WindowId>) returns (node: NodeId)
      requires Valid() && M <= forest.nodes.Keys && |nodes| < |wids| && wid == wids[|nodes|]
      requires EditFits.Appended(SpaceKids(space), windows, M, K, W, nodes, wids)
      modifies this, forest, sel
      ensures Valid() && M <= forest.nodes.Keys && space in spaces
      ensures forall s | s in old(spaces) :: s in spaces && spaces[s] == old(spaces[s])
      ensures EditFits.Appended(SpaceKids(space), windows, M, K, W, nodes + [node], wids)
    {
      assert forall n | n in windows :: n in forest.nodes;
      ghost var kp, ws, present := SpaceKids(space), windows, forest.nodes.Keys;
      node := AddWindow(space, wid);
      EditFits.AppendStep(kp, ws, SpaceKids(space), windows, M, K, W, nodes, wids, node, present);
    }

    /** The push of `add_window`: a fresh window node showing `wid` becomes the last child of `root`. */
    method PushWindow(root: NodeId, wid: WindowId) returns (node: NodeId)
      requires Valid() && root in forest.nodes && forest.nodes[root].parent.None?
      modifies this`windows, forest, sel
      ensures Valid() && sel.nodes == old(sel.nodes)
      ensures node !in old(forest.nodes) && forest.nodes.Keys == old(forest.nodes.Keys) + {node}
      ensures forest.nodes[node].parent == Some(root)
      ensures forest.kids == old(forest.kids)[node := []][root := old(forest.kids[root]) + [node]]
      ensures windows == old(windows)[node := wid]
    {
      ghost var m, k, d := forest.nodes, forest.kids, forest.depth;
      var calls;
      node, calls := forest.PushBack(root);
      PushedRegistered(m, k, d, forest.nodes, forest.kids, forest.depth, sel.nodes, windows, spaces, node, root, wid);
      windows := windows[node := wid];
      sel.HandleEvent(forest, AddedToParent(node));
    }

    /**
     * The step of `retain_windows` for a window node whose window the
     * predicate rejects: the selection applies the removal rule, the node
     * is deleted, and the selection drops the node's own entry.
     */
    method RemoveWindow(n: NodeId)
      requires Valid() && n in windows
      modifies this, forest, sel
      ensures Valid() && spaces == old(spaces) && windows == old(windows) - {n}
      ensures Placed(old(forest.nodes), old(forest.kids), n)
      ensures forest.nodes == CutLinks(old(forest.nodes), old(forest.kids), n) - {n}
      ensures forest.kids == CutKids(old(forest.nodes), old(forest.kids), n) - {n}
      ensures sel.nodes == AfterRemoving(old(sel.nodes), old(forest.nodes), n) - {n}
      ensures forest.nodes.Keys == old(forest.nodes.Keys) - {n} && sel.nodes.Keys <= old(sel.nodes.Keys)
    {
      RemovedRegistered(forest.nodes, forest.kids, forest.depth, sel.nodes, windows, spaces, n);
      windows := windows - {n};
      DeleteLeaf(n);
    }

    /**
     * Deletes the leaf `n`, which has a parent, telling the selection
     * before it leaves its parent and after it leaves the forest.
     */
    method DeleteLeaf(n: NodeId)
      requires forest.Valid() && n in forest.nodes && forest.kids[n] == [] && forest.nodes[n].parent.Some?
      modifies forest, sel
      ensures forest.Valid() && Placed(old(forest.nodes), old(forest.kids), n)
      ensures forest.nodes == CutLinks(old(forest.nodes), old(forest.kids), n) - {n}
      ensures forest.kids == CutKids(old(forest.nodes), old(forest.kids), n) - {n}
      ensures sel.nodes == AfterRemoving(old(sel.nodes), old(forest.nodes), n) - {n}
    {
      LeafAlone(forest.nodes, forest.kids, forest.depth, n);
      sel.HandleEvent(forest, RemovingFromParent(n));
      var _, _ := forest.Remove(n);
      sel.HandleEvent(forest, RemovedFromForest(n));
    }

    /**
     * `retain_windows`: every window node whose window the predicate
     * rejects leaves the forest, visited in no particular order; every
     * other window node and every space root stays.
     */
    method RetainWindows(keep: WindowId -> bool)
      requires Valid()
      modifies this, forest, sel
      ensures Valid() && spaces == old(spaces)
      ensures forall n :: n in windows <==> n in old(windows) && keep(old(windows)[n])
      ensures forall n | n in windows :: windows[n] == old(windows)[n]
      ensures forall n :: n in forest.nodes <==> n in old(forest.nodes) && (n in old(windows) ==> keep(old(windows)[n]))
    {
      ghost var W0, K0 := windows, forest.nodes.Keys;
      var todo := windows.Items;
      while todo != {}
        invariant Valid() && spaces == old(spaces) && RetainingSpace(windows, forest.nodes.Keys, W0, K0, todo, keep)
        decreases todo
      {
        var e :| e in todo;
        RetainOne(e, W0, K0, todo, keep);
        todo := todo - {e};
      }
    }

    /** One entry `e` of `retain_windows`: its window node is removed unless its window is kept. */
    method RetainOne(e: (NodeId, WindowId), ghost W0: map<NodeId, WindowId>, ghost K0: set<NodeId>,
                     ghost todo: set<(NodeId, WindowId)>, keep: WindowId -> bool)
      requires Valid() && RetainingSpace(windows, forest.nodes.Keys, W0, K0, todo, keep) && e in todo
      modifies this, forest, sel
      ensures Valid() && spaces == old(spaces) && RetainingSpace(windows, forest.nodes.Keys, W0, K0, todo - {e}, keep)
    {
      ghost var ws, ks := windows, forest.nodes.Keys;
      if !keep(e.1) {
        RemoveWindow(e.0);
      }
      RetainStep(ws, ks, windows, forest.nodes.Keys, W0, K0, todo, keep, e);
    }

    /** `windows`: the window of every window node, and nothing else. */
    function Windows(): (ws: set<WindowId>)
      reads this
      ensures forall n | n in windows :: windows[n] in ws
      ensures forall w | w in ws :: exists n | n in windows :: windows[n] == w
    {
      set n | n in windows :: windows[n]
    }
  }
}
