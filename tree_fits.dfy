/**
 * What the layout tree of crates/swell/src/model/layout_tree.rs keeps true,
 * stated on the values of its state, and the lemmas that carry it across
 * each change of the forest, the selection, the layout records and the
 * window and space maps.
 */
module TreeFits {
  import opened Types
  import opened ForestLinks
  import opened Selections
  import opened Layouts

  /** Where a window sits: the space of its tree and its node (`WindowNodeInfo`). */
  datatype WindowNodeInfo = WindowNodeInfo(space: SpaceId, node: NodeId)

  function NodesOf(infos: seq<WindowNodeInfo>): (r: seq<NodeId>)
    ensures |r| == |infos| && forall i | 0 <= i < |infos| :: r[i] == infos[i].node
  {
    if infos == [] then [] else [infos[0].node] + NodesOf(infos[1..])
  }

  /**
   * Every window node is a leaf of the forest and not the root of a space,
   * and every record of a window names a window node of that window, each at
   * most once.
   */
  ghost predicate WindowsFit(m: map<NodeId, Node>, kids: map<NodeId, seq<NodeId>>, windows: map<NodeId, WindowId>,
                             windowNodes: map<WindowId, seq<WindowNodeInfo>>, rootSpaces: map<NodeId, SpaceId>)
  {
    && (forall n | n in windows :: n in m && n in kids && kids[n] == [] && n !in rootSpaces)
    && (forall w, i | w in windowNodes && 0 <= i < |windowNodes[w]| ::
          windowNodes[w][i].node in windows && windows[windowNodes[w][i].node] == w)
    && (forall w | w in windowNodes :: Distinct(NodesOf(windowNodes[w])))
  }

  /** `space_roots` and `root_spaces` are inverse maps, onto roots of the forest. */
  ghost predicate SpacesFit(m: map<NodeId, Node>, spaceRoots: map<SpaceId, NodeId>, rootSpaces: map<NodeId, SpaceId>)
  {
    && (forall s | s in spaceRoots :: spaceRoots[s] in rootSpaces && rootSpaces[spaceRoots[s]] == s)
    && (forall r | r in rootSpaces :: r in m && m[r].parent.None? &&
          rootSpaces[r] in spaceRoots && spaceRoots[rootSpaces[r]] == r)
  }

  /** Every window node is recorded under its window. */
  ghost predicate Listed(windows: map<NodeId, WindowId>, windowNodes: map<WindowId, seq<WindowNodeInfo>>)
  {
    forall n | n in windows :: windows[n] in windowNodes && n in NodesOf(windowNodes[windows[n]])
  }

  /** Every root of the forest is the root of a space. */
  ghost predicate RootsHaveSpaces(m: map<NodeId, Node>, rootSpaces: map<NodeId, SpaceId>)
  {
    forall n | n in m && m[n].parent.None? :: n in rootSpaces
  }

  /** A forest whose child lists only grew has no new roots among the old nodes. */
  lemma GrowKeepsRoots(m: map<NodeId, Node>, kids: map<NodeId, seq<NodeId>>, depth: map<NodeId, nat>,
                       m': map<NodeId, Node>, kids': map<NodeId, seq<NodeId>>, depth': map<NodeId, nat>)
    requires Linked(m, kids, depth) && Linked(m', kids', depth')
    requires forall q | q in m :: q in m' && forall c | c in kids[q] :: c in kids'[q]
    ensures forall n | n in m && m[n].parent.Some? :: n in m' && m'[n].parent.Some?
  {
    forall n | n in m && m[n].parent.Some?
      ensures n in m' && m'[n].parent.Some?
    {
      var q := m[n].parent.value;
      assert n in kids[q];
      KidStep(m', kids', depth', q, n);
    }
  }

  /** Under a valid forest, the parent of a node is the node whose child list holds it. */
  lemma ParentIff(m: map<NodeId, Node>, kids: map<NodeId, seq<NodeId>>, depth: map<NodeId, nat>, n: NodeId, q: NodeId)
    requires Linked(m, kids, depth) && n in m && q in m
    ensures m[n].parent == Some(q) <==> n in kids[q]
  {
    if n in kids[q] {
      KidStep(m, kids, depth, q, n);
    }
  }

  /** Under a valid forest, a root is a node no child list holds. */
  lemma RootIff(m: map<NodeId, Node>, kids: map<NodeId, seq<NodeId>>, depth: map<NodeId, nat>, n: NodeId)
    requires Linked(m, kids, depth) && n in m
    ensures m[n].parent.None? <==> forall q | q in m :: n !in kids[q]
  {
    if m[n].parent.None? {
      RootNotAChild(m, kids, depth, n);
    } else {
      UnderDepth(m, depth, n, m[n].parent.value);
    }
  }

  /** Entries stay coherent when every child list holding their selection only grows. */
  lemma CoherentGrow(sel: SelectionMap, kids: map<NodeId, seq<NodeId>>, kids': map<NodeId, seq<NodeId>>)
    requires Coherent(sel, kids)
    requires forall q | q in sel && q in kids' :: q in kids && forall c | c in kids[q] :: c in kids'[q]
    ensures Coherent(sel, kids')
  {
  }

  /**
   * What every step of the layout tree keeps, stated on the values of its
   * state: the selection stays coherent with the child lists and has no
   * entry for a key not yet handed out, every node has a layout record that
   * remembers no group as its last ungrouped kind, and the window and space
   * maps fit the forest.
   */
  ghost predicate Fits(m: map<NodeId, Node>, kids: map<NodeId, seq<NodeId>>, nextId: int, sel: SelectionMap, info: InfoMap,
                       windows: map<NodeId, WindowId>, windowNodes: map<WindowId, seq<WindowNodeInfo>>,
                       spaceRoots: map<SpaceId, NodeId>, rootSpaces: map<NodeId, SpaceId>)
  {
    && Coherent(sel, kids)
    && (forall k | k in sel :: k < nextId)
    && m.Keys <= info.Keys
    && UngroupedIn(info)
    && WindowsFit(m, kids, windows, windowNodes, rootSpaces)
    && SpacesFit(m, spaceRoots, rootSpaces)
  }

  /** What holds between operations besides `Fits`. */
  ghost predicate Settled(m: map<NodeId, Node>, windows: map<NodeId, WindowId>,
                          windowNodes: map<WindowId, seq<WindowNodeInfo>>, rootSpaces: map<NodeId, SpaceId>)
  {
    Listed(windows, windowNodes) && RootsHaveSpaces(m, rootSpaces)
  }

  /**
   * A fresh root recorded as the root of the new space `s` keeps every
   * invariant; the primed parameters are the state afterwards.
   */
  lemma FreshRootFits(m: map<NodeId, Node>, k: map<NodeId, seq<NodeId>>, nextId: int,
                      sel: SelectionMap, info: InfoMap, windows: map<NodeId, WindowId>,
                      windowNodes: map<WindowId, seq<WindowNodeInfo>>,
                      spaceRoots: map<SpaceId, NodeId>, rootSpaces: map<NodeId, SpaceId>,
                      m': map<NodeId, Node>, k': map<NodeId, seq<NodeId>>, nextId': int, info': InfoMap,
                      spaceRoots': map<SpaceId, NodeId>, rootSpaces': map<NodeId, SpaceId>, x: NodeId, s: SpaceId)
    requires m.Keys == k.Keys && (forall n | n in m :: n < nextId)
    requires Fits(m, k, nextId, sel, info, windows, windowNodes, spaceRoots, rootSpaces)
    requires Settled(m, windows, windowNodes, rootSpaces)
    requires x == nextId && nextId' == nextId + 1 && s !in spaceRoots
    requires m' == m[x := Unlinked] && k' == k[x := []] && info' == info[x := DefaultInfo]
    requires spaceRoots' == spaceRoots[s := x] && rootSpaces' == rootSpaces[x := s]
    ensures Fits(m', k', nextId', sel, info', windows, windowNodes, spaceRoots', rootSpaces')
    ensures Settled(m', windows, windowNodes, rootSpaces')
  {
    assert x !in rootSpaces;
  }

  /** The layout records once a fresh node `x` has been added below `p`. */
  lemma AddedInfoFits(m: map<NodeId, Node>, info: InfoMap, x: NodeId, p: NodeId)
    requires m.Keys <= info.Keys && UngroupedIn(info) && p in m
    ensures var info' := AfterAdded(info[x := DefaultInfo], x, p);
            (m.Keys + {x}) <= info'.Keys && UngroupedIn(info')
  {
  }

  /** The window records stay well formed once `x`, a leaf that is neither a window nor a root, is recorded under `wid`. */
  lemma WindowRecordedFits(m: map<NodeId, Node>, k: map<NodeId, seq<NodeId>>,
                           windows: map<NodeId, WindowId>, windowNodes: map<WindowId, seq<WindowNodeInfo>>,
                           rootSpaces: map<NodeId, SpaceId>, x: NodeId, wid: WindowId, space: SpaceId)
    requires x in m && x in k && k[x] == [] && x !in windows && x !in rootSpaces
    requires WindowsFit(m, k, windows, windowNodes, rootSpaces)
    ensures var infos := if wid in windowNodes then windowNodes[wid] else [];
            WindowsFit(m, k, windows[x := wid], windowNodes[wid := infos + [WindowNodeInfo(space, x)]], rootSpaces)
  {
    var infos := if wid in windowNodes then windowNodes[wid] else [];
    var all := infos + [WindowNodeInfo(space, x)];
    assert Distinct(NodesOf(all)) by {
      forall i | 0 <= i < |infos|
        ensures NodesOf(all)[i] != x
      {
        assert infos[i].node in windows;
      }
    }
  }

  /** Every window node stays listed once `x` is recorded under `wid`. */
  lemma WindowRecordedListed(windows: map<NodeId, WindowId>, windowNodes: map<WindowId, seq<WindowNodeInfo>>,
                             x: NodeId, wid: WindowId, space: SpaceId)
    requires Listed(windows, windowNodes)
    ensures var infos := if wid in windowNodes then windowNodes[wid] else [];
            Listed(windows[x := wid], windowNodes[wid := infos + [WindowNodeInfo(space, x)]])
  {
    var infos := if wid in windowNodes then windowNodes[wid] else [];
    var all := infos + [WindowNodeInfo(space, x)];
    var windows', windowNodes' := windows[x := wid], windowNodes[wid := all];
    forall n | n in windows'
      ensures windows'[n] in windowNodes' && n in NodesOf(windowNodes'[windows'[n]])
    {
      if n == x {
        assert NodesOf(all)[|infos|] == x;
      } else if windows[n] == wid {
        var i :| 0 <= i < |NodesOf(infos)| && NodesOf(infos)[i] == n;
        assert NodesOf(all)[i] == n;
      }
    }
  }

  /** The roots of spaces stay roots and no new root appears once `x` is pushed below `p`. */
  lemma SpacesPushed(m: map<NodeId, Node>, k: map<NodeId, seq<NodeId>>, d: map<NodeId, nat>,
                     m': map<NodeId, Node>, d': map<NodeId, nat>,
                     spaceRoots: map<SpaceId, NodeId>, rootSpaces: map<NodeId, SpaceId>, x: NodeId, p: NodeId)
    requires Linked(m, k, d) && x !in m && p in m
    requires m'.Keys == m.Keys + {x} && Linked(m', k[x := []][p := k[p] + [x]], d')
    requires SpacesFit(m, spaceRoots, rootSpaces) && RootsHaveSpaces(m, rootSpaces)
    ensures m'[x].parent == Some(p)
    ensures SpacesFit(m', spaceRoots, rootSpaces) && RootsHaveSpaces(m', rootSpaces)
  {
    var k' := k[x := []][p := k[p] + [x]];
    ParentIff(m', k', d', x, p);
    GrowKeepsRoots(m, k, d, m', k', d');
    forall r | r in rootSpaces
      ensures m'[r].parent.None?
    {
      RootIff(m, k, d, r);
      RootIff(m', k', d', r);
    }
  }

  /**
   * A fresh node pushed last below a node that is not a window keeps every
   * invariant; the primed parameters are the state afterwards.
   */
  lemma ContainerPushedFits(m: map<NodeId, Node>, k: map<NodeId, seq<NodeId>>, d: map<NodeId, nat>, nextId: int,
                            sel: SelectionMap, info: InfoMap, windows: map<NodeId, WindowId>,
                            windowNodes: map<WindowId, seq<WindowNodeInfo>>,
                            spaceRoots: map<SpaceId, NodeId>, rootSpaces: map<NodeId, SpaceId>,
                            m': map<NodeId, Node>, k': map<NodeId, seq<NodeId>>, d': map<NodeId, nat>, nextId': int,
                            info': InfoMap, x: NodeId, p: NodeId)
    requires Linked(m, k, d) && (forall n | n in m :: n < nextId)
    requires Fits(m, k, nextId, sel, info, windows, windowNodes, spaceRoots, rootSpaces)
    requires Settled(m, windows, windowNodes, rootSpaces)
    requires p in m && p !in windows && x == nextId && nextId' > nextId
    requires m'.Keys == m.Keys + {x} && k' == k[x := []][p := k[p] + [x]] && Linked(m', k', d')
    requires info' == AfterAdded(info[x := DefaultInfo], x, p)
    ensures m'[x].parent == Some(p)
    ensures Fits(m', k', nextId', sel, info', windows, windowNodes, spaceRoots, rootSpaces)
    ensures Settled(m', windows, windowNodes, rootSpaces)
  {
    CoherentGrow(sel, k, k');
    AddedInfoFits(m, info, x, p);
    SpacesPushed(m, k, d, m', d', spaceRoots, rootSpaces, x, p);
    forall n | n in windows
      ensures n in m' && n in k' && k'[n] == [] && n !in rootSpaces
    {
      assert n in m && n != x && n != p && k[n] == [];
      assert k'[n] == k[x := []][n];
    }
  }

  /** New selection entries that agree with the child lists and name only nodes of the forest keep every invariant. */
  lemma SelectionFits(m: map<NodeId, Node>, k: map<NodeId, seq<NodeId>>, nextId: int, sel: SelectionMap, sel': SelectionMap,
                      info: InfoMap, windows: map<NodeId, WindowId>, windowNodes: map<WindowId, seq<WindowNodeInfo>>,
                      spaceRoots: map<SpaceId, NodeId>, rootSpaces: map<NodeId, SpaceId>)
    requires (forall n | n in m :: n < nextId) && Fits(m, k, nextId, sel, info, windows, windowNodes, spaceRoots, rootSpaces)
    requires Coherent(sel', k) && forall n | n in sel' :: n in sel || n in m
    ensures Fits(m, k, nextId, sel', info, windows, windowNodes, spaceRoots, rootSpaces)
  {
  }

  /** Layout records with the same keys that still remember no group keep every invariant. */
  lemma InfoFits(m: map<NodeId, Node>, k: map<NodeId, seq<NodeId>>, nextId: int, sel: SelectionMap,
                 info: InfoMap, info': InfoMap, windows: map<NodeId, WindowId>, windowNodes: map<WindowId, seq<WindowNodeInfo>>,
                 spaceRoots: map<SpaceId, NodeId>, rootSpaces: map<NodeId, SpaceId>)
    requires Fits(m, k, nextId, sel, info, windows, windowNodes, spaceRoots, rootSpaces)
    requires info'.Keys == info.Keys && UngroupedIn(info')
    ensures Fits(m, k, nextId, sel, info', windows, windowNodes, spaceRoots, rootSpaces)
  {
  }

  /**
   * `window_node`: the node of the first record on `space`, if any
   * (`filter(..).next()`).
   */
  function FirstOnSpace(infos: seq<WindowNodeInfo>, space: SpaceId): (r: Option<NodeId>)
    ensures r.None? <==> forall i | 0 <= i < |infos| :: infos[i].space != space
    ensures r.Some? ==> exists i | 0 <= i < |infos| ::
              && infos[i] == WindowNodeInfo(space, r.value)
              && forall j | 0 <= j < i :: infos[j].space != space
  {
    if infos == [] then None
    else if infos[0].space == space then Some(infos[0].node)
    else
      var r := FirstOnSpace(infos[1..], space);
      assert forall j | 1 <= j < |infos| :: infos[j] == infos[1..][j - 1];
      r
  }
}
