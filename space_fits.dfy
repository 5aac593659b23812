/**
 * What the window tree of crates/swell/src/model/tree.rs keeps true, stated
 * on the values of its state, and the lemmas that carry it across adding a
 * space, pushing a window node and deleting one.
 */
module SpaceFits {
  import opened Types
  import opened ForestLinks
  import opened Selections
  import opened TreeFits

  /**
   * What the tree keeps true, on the values of its state: the selection is
   * coherent with the child lists and has entries only for nodes of the
   * forest, the root of every space is a root of the forest, and every
   * window node is a leaf that is not a root.
   */
  ghost predicate Registered(m: map<NodeId, Node>, k: map<NodeId, seq<NodeId>>, sel: SelectionMap,
                             windows: map<NodeId, WindowId>, spaces: map<SpaceId, NodeId>)
  {
    && Coherent(sel, k)
    && sel.Keys <= m.Keys
    && (forall s | s in spaces :: spaces[s] in m && m[spaces[s]].parent.None?)
    && (forall n | n in windows :: n in m && n in k && m[n].parent.Some? && k[n] == [])
  }

  /** A fresh root recorded for a new space keeps `Registered`. */
  lemma RootAddedRegistered(m: map<NodeId, Node>, k: map<NodeId, seq<NodeId>>, sel: SelectionMap,
                            windows: map<NodeId, WindowId>, spaces: map<SpaceId, NodeId>, r: NodeId, s: SpaceId)
    requires Registered(m, k, sel, windows, spaces) && r !in m
    ensures Registered(m[r := Unlinked], k[r := []], sel, windows, spaces[s := r])
  {
  }

  /**
   * Pushing the fresh node `node` as the last child of `p`, which is not a
   * window node, and recording it as a window node of `wid` keeps
   * `Registered`; the node's parent is `p`.
   */
  lemma PushedRegistered(m: map<NodeId, Node>, k: map<NodeId, seq<NodeId>>, d: map<NodeId, nat>,
                         m': map<NodeId, Node>, k': map<NodeId, seq<NodeId>>, d': map<NodeId, nat>,
                         sel: SelectionMap, windows: map<NodeId, WindowId>, spaces: map<SpaceId, NodeId>,
                         node: NodeId, p: NodeId, wid: WindowId)
    requires Linked(m, k, d) && Linked(m', k', d') && Registered(m, k, sel, windows, spaces)
    requires node !in m && p in m && p !in windows && m'.Keys == m.Keys + {node}
    requires k' == k[node := []][p := k[p] + [node]]
    ensures m'[node].parent == Some(p)
    ensures Registered(m', k', sel, windows[node := wid], spaces)
  {
    ParentIff(m', k', d', node, p);
    GrowKeepsRoots(m, k, d, m', k', d');
    CoherentGrow(sel, k, k');
    forall s | s in spaces
      ensures m'[spaces[s]].parent.None?
    {
      var r := spaces[s];
      RootIff(m, k, d, r);
      RootIff(m', k', d', r);
    }
  }

  /** The subtree of a leaf is the leaf alone. */
  lemma LeafAlone(m: map<NodeId, Node>, k: map<NodeId, seq<NodeId>>, d: map<NodeId, nat>, x: NodeId)
    requires Linked(m, k, d) && x in m && k[x] == []
    ensures Sub(m, d, x) == {x}
  {
    forall n | n in m && Under(m, d, n, x)
      ensures n == x
    {
      if n != x {
        var c := PathChild(m, d, n, x);
        KidStep(m, k, d, x, c);
        assert false;
      }
    }
  }

  /**
   * Deleting the window node `x`, with the removal rule applied to the
   * selection of its parent and its own entry dropped, keeps `Registered`;
   * the subtree of `x` is `x` alone.
   */
  lemma RemovedRegistered(m: map<NodeId, Node>, k: map<NodeId, seq<NodeId>>, d: map<NodeId, nat>,
                          sel: SelectionMap, windows: map<NodeId, WindowId>, spaces: map<SpaceId, NodeId>, x: NodeId)
    requires Linked(m, k, d) && Registered(m, k, sel, windows, spaces) && x in windows
    ensures Placed(m, k, x)
    ensures Registered(CutLinks(m, k, x) - {x}, CutKids(m, k, x) - {x}, AfterRemoving(sel, m, x) - {x},
                       windows - {x}, spaces)
  {
    CutParents(m, k, d, x);
    RemovingCoherent(sel, m, k, d, x);
    var p := m[x].parent.value;
    ParentIff(m, k, d, x, p);
    var m', k' := CutLinks(m, k, x), CutKids(m, k, x);
    assert k' == k[p := RemoveAt(k[p], IndexOf(k[p], x))];
    forall n | n in windows - {x}
      ensures n in m' - {x} && n in k' - {x} && (m' - {x})[n].parent.Some? && (k' - {x})[n] == []
    {
      assert n != p;
    }
  }

  /**
   * Where `retain_windows` stands, with window nodes `windows` and nodes
   * `nodes`, started from the window nodes `W0` and the nodes `K0`, with
   * the entries `todo` still to visit: the entries not yet visited are still
   * there, a window node is gone only if its window was rejected, and
   * exactly the gone window nodes have left the forest.
   */
  ghost predicate RetainingSpace(windows: map<NodeId, WindowId>, nodes: set<NodeId>, W0: map<NodeId, WindowId>,
                            K0: set<NodeId>, todo: set<(NodeId, WindowId)>, keep: WindowId -> bool)
  {
    && (forall e | e in todo :: e.0 in windows && windows[e.0] == e.1)
    && windows.Keys <= W0.Keys && (forall n | n in windows :: windows[n] == W0[n])
    && (forall n | n in W0 && n !in windows :: !keep(W0[n]))
    && (forall n | n in windows :: (n, windows[n]) in todo || keep(windows[n]))
    && nodes == K0 - (W0.Keys - windows.Keys)
  }

  /** Visiting the entry `e`, and removing its window node when its window is rejected, keeps `RetainingSpace`. */
  lemma RetainStep(windows: map<NodeId, WindowId>, nodes: set<NodeId>,
                   windows': map<NodeId, WindowId>, nodes': set<NodeId>, W0: map<NodeId, WindowId>,
                   K0: set<NodeId>, todo: set<(NodeId, WindowId)>, keep: WindowId -> bool, e: (NodeId, WindowId))
    requires RetainingSpace(windows, nodes, W0, K0, todo, keep) && e in todo
    requires keep(e.1) ==> windows' == windows && nodes' == nodes
    requires !keep(e.1) ==> windows' == windows - {e.0} && nodes' == nodes - {e.0}
    ensures RetainingSpace(windows', nodes', W0, K0, todo - {e}, keep)
  {
  }
}
