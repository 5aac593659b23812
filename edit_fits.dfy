/**
 * How the invariants of the layout tree (crates/swell/src/model/layout_tree.rs)
 * survive the structural edits its operations are made of: pushing a fresh
 * node, cutting a node from its parent, linking a root below a parent and
 * deleting a detached leaf. Each lemma takes the state before and the state
 * after as values.
 */
module EditFits {
  import opened Types
  import opened ForestLinks
  import opened Selections
  import opened Layouts
  import opened TreeFits

  /** The roots of the forest `m`. */
  ghost function Roots(m: map<NodeId, Node>): set<NodeId>
  {
    set n | n in m && m[n].parent.None?
  }

  /** Every root has a space exactly when the roots are among the roots of spaces. */
  lemma RootsIff(m: map<NodeId, Node>, rootSpaces: map<NodeId, SpaceId>)
    ensures RootsHaveSpaces(m, rootSpaces) <==> Roots(m) <= rootSpaces.Keys
  {
    if Roots(m) <= rootSpaces.Keys {
      forall n | n in m && m[n].parent.None?
        ensures n in rootSpaces
      {
        assert n in Roots(m);
      }
    }
    if RootsHaveSpaces(m, rootSpaces) {
      forall n | n in Roots(m)
        ensures n in rootSpaces.Keys
      {
      }
    }
  }

  /** A node that is not a root's parent is not its own child. */
  lemma NotOwnChild(m: map<NodeId, Node>, k: map<NodeId, seq<NodeId>>, d: map<NodeId, nat>, p: NodeId)
    requires Linked(m, k, d) && p in m
    ensures p !in k[p]
  {
    if p in k[p] {
      KidStep(m, k, d, p, p);
    }
  }

  /** A fresh root with the default record keeps every container balanced. */
  lemma FreshRootBalanced(m: map<NodeId, Node>, k: map<NodeId, seq<NodeId>>, d: map<NodeId, nat>, info: InfoMap, x: NodeId)
    requires Linked(m, k, d) && x !in m && AllBalanced(info, k)
    ensures AllBalanced(info[x := DefaultInfo], k[x := []])
  {
    var info', k' := info[x := DefaultInfo], k[x := []];
    forall q | q in k'
      ensures Balanced(info', k', q)
    {
      if q != x {
        forall c | c in k[q]
          ensures c != x
        {
          KidStep(m, k, d, q, c);
        }
        KeepBalanced(info, info', k, k', q);
      }
    }
  }

  /**
   * A fresh node pushed last below `p` keeps every container balanced: `p`
   * gains the new node's size of one in its total.
   */
  lemma PushedBalanced(m: map<NodeId, Node>, k: map<NodeId, seq<NodeId>>, d: map<NodeId, nat>, info: InfoMap,
                       x: NodeId, p: NodeId)
    requires Linked(m, k, d) && x !in m && p in m && AllBalanced(info, k)
    ensures AllBalanced(AfterAdded(info[x := DefaultInfo], x, p), k[x := []][p := k[p] + [x]])
  {
    var i0, k0 := info[x := DefaultInfo], k[x := []];
    var info', k' := AfterAdded(i0, x, p), k[x := []][p := k[p] + [x]];
    forall q | q in k'
      ensures Balanced(info', k', q)
    {
      if q != x {
        forall c | c in k[q]
          ensures c != x
        {
          KidStep(m, k, d, q, c);
        }
        if q == p {
          NotOwnChild(m, k, d, p);
          KeepBalanced(info, i0, k, k0, p);
          AddedBalanced(i0, k0, x, p, |k[p]|);
          InsertAtEnd(k[p], x);
        } else {
          KeepBalanced(info, info', k, k', q);
        }
      }
    }
  }

  /** Facts about the node `x` about to be cut from its parent. */
  lemma CutNode(m: map<NodeId, Node>, k: map<NodeId, seq<NodeId>>, d: map<NodeId, nat>, x: NodeId)
    requires Linked(m, k, d) && x in m && m[x].parent.Some?
    ensures Placed(m, k, x)
    ensures var p := m[x].parent.value;
            && p in m && x in k[p] && k[p] != [] && p !in k[p] && x != p
            && CutKids(m, k, x) == k[p := RemoveAt(k[p], IndexOf(k[p], x))]
  {
    var p := m[x].parent.value;
    NotOwnChild(m, k, d, p);
  }

  /**
   * Cutting `x` from its parent, with the selection's removal rule and the
   * parent's total losing the size of `x`, keeps every invariant of `Fits`.
   */
  lemma DetachFits(m: map<NodeId, Node>, k: map<NodeId, seq<NodeId>>, d: map<NodeId, nat>, nextId: int,
                   sel: SelectionMap, info: InfoMap, windows: map<NodeId, WindowId>,
                   windowNodes: map<WindowId, seq<WindowNodeInfo>>,
                   spaceRoots: map<SpaceId, NodeId>, rootSpaces: map<NodeId, SpaceId>, x: NodeId)
    requires Linked(m, k, d) && x in m && m[x].parent.Some?
    requires Fits(m, k, nextId, sel, info, windows, windowNodes, spaceRoots, rootSpaces)
    ensures Placed(m, k, x) && x in info && m[x].parent.value in info
    ensures Fits(CutLinks(m, k, x), CutKids(m, k, x), nextId, AfterRemoving(sel, m, x),
                 AfterLeaving(info, x, m[x].parent.value), windows, windowNodes, spaceRoots, rootSpaces)
  {
    DetachRecords(m, k, d, nextId, sel, info, x);
    DetachMaps(m, k, d, windows, windowNodes, spaceRoots, rootSpaces, x);
  }

  /** The selection and layout part of `DetachFits`. */
  lemma DetachRecords(m: map<NodeId, Node>, k: map<NodeId, seq<NodeId>>, d: map<NodeId, nat>, nextId: int,
                      sel: SelectionMap, info: InfoMap, x: NodeId)
    requires Linked(m, k, d) && x in m && m[x].parent.Some?
    requires Coherent(sel, k) && (forall n | n in sel :: n < nextId) && m.Keys <= info.Keys && UngroupedIn(info)
    ensures Placed(m, k, x) && x in info && m[x].parent.value in info
    ensures var sel', info' := AfterRemoving(sel, m, x), AfterLeaving(info, x, m[x].parent.value);
            && Coherent(sel', CutKids(m, k, x)) && (forall n | n in sel' :: n < nextId)
            && CutLinks(m, k, x).Keys <= info'.Keys && UngroupedIn(info')
  {
    CutParents(m, k, d, x);
    RemovingCoherent(sel, m, k, d, x);
  }

  /** The window and space part of `DetachFits`. */
  lemma DetachMaps(m: map<NodeId, Node>, k: map<NodeId, seq<NodeId>>, d: map<NodeId, nat>,
                   windows: map<NodeId, WindowId>, windowNodes: map<WindowId, seq<WindowNodeInfo>>,
                   spaceRoots: map<SpaceId, NodeId>, rootSpaces: map<NodeId, SpaceId>, x: NodeId)
    requires Linked(m, k, d) && x in m && m[x].parent.Some?
    requires WindowsFit(m, k, windows, windowNodes, rootSpaces) && SpacesFit(m, spaceRoots, rootSpaces)
    ensures Placed(m, k, x)
    ensures WindowsFit(CutLinks(m, k, x), CutKids(m, k, x), windows, windowNodes, rootSpaces)
    ensures SpacesFit(CutLinks(m, k, x), spaceRoots, rootSpaces)
  {
    var p := m[x].parent.value;
    CutNode(m, k, d, x);
    CutParents(m, k, d, x);
    assert forall n | n in windows :: n != p;
    assert forall r | r in rootSpaces :: r != x;
  }

  /** Cutting `x` from its parent makes it a root and changes no other root. */
  lemma DetachRoots(m: map<NodeId, Node>, k: map<NodeId, seq<NodeId>>, d: map<NodeId, nat>, x: NodeId)
    requires Linked(m, k, d) && x in m
    ensures Placed(m, k, x) && Roots(CutLinks(m, k, x)) == Roots(m) + {x}
  {
    CutParents(m, k, d, x);
    var m' := CutLinks(m, k, x);
    forall n
      ensures n in Roots(m') <==> n in Roots(m) + {x}
    {
    }
  }

  /** Cutting `x` from its parent keeps every container balanced. */
  lemma DetachBalanced(m: map<NodeId, Node>, k: map<NodeId, seq<NodeId>>, d: map<NodeId, nat>, info: InfoMap, x: NodeId)
    requires Linked(m, k, d) && x in m && m[x].parent.Some? && AllBalanced(info, k)
    ensures Placed(m, k, x) && x in info && m[x].parent.value in info
    ensures AllBalanced(AfterLeaving(info, x, m[x].parent.value), CutKids(m, k, x))
  {
    var p := m[x].parent.value;
    CutNode(m, k, d, x);
    assert Balanced(info, k, p);
    var i := IndexOf(k[p], x);
    var info', k' := AfterLeaving(info, x, p), CutKids(m, k, x);
    forall q | q in k'
      ensures Balanced(info', k', q)
    {
      if q == p {
        LeavingBalanced(info, k, p, i);
      } else {
        KeepBalanced(info, info', k, k', q);
      }
    }
  }

  /** The child list after an insertion holds the new node and the old children, and nothing else. */
  lemma InsertElems(s: seq<NodeId>, j: nat, x: NodeId)
    requires j <= |s|
    ensures forall c | c in InsertAt(s, j, x) :: c == x || c in s
    ensures x in InsertAt(s, j, x) && forall c | c in s :: c in InsertAt(s, j, x)
  {
    var r := InsertAt(s, j, x);
    assert r == s[..j] + [x] + s[j..];
    forall c | c in s
      ensures c in r
    {
      var t :| 0 <= t < |s| && s[t] == c;
      if t < j { assert r[t] == c; } else { assert r[t + 1] == c; }
    }
  }

  /**
   * Linking the root `x`, which roots no space, as the `j`-th child of `p`,
   * which is not a window node, with `p` gaining the new child's size of one,
   * keeps every invariant of `Fits`; `x` stops being a root.
   */
  lemma AttachFits(m: map<NodeId, Node>, k: map<NodeId, seq<NodeId>>, d: map<NodeId, nat>, nextId: int,
                   sel: SelectionMap, info: InfoMap, windows: map<NodeId, WindowId>,
                   windowNodes: map<WindowId, seq<WindowNodeInfo>>,
                   spaceRoots: map<SpaceId, NodeId>, rootSpaces: map<NodeId, SpaceId>,
                   m': map<NodeId, Node>, k': map<NodeId, seq<NodeId>>, d': map<NodeId, nat>,
                   x: NodeId, p: NodeId, j: nat)
    requires Linked(m, k, d) && Linked(m', k', d') && m'.Keys == m.Keys
    requires x in m && m[x].parent.None? && p in m && j <= |k[p]| && k' == k[p := InsertAt(k[p], j, x)]
    requires x !in rootSpaces && p !in windows
    requires Fits(m, k, nextId, sel, info, windows, windowNodes, spaceRoots, rootSpaces)
    ensures m'[x].parent == Some(p)
    ensures Fits(m', k', nextId, sel, AfterAdded(info, x, p), windows, windowNodes, spaceRoots, rootSpaces)
    ensures Roots(m') == Roots(m) - {x}
  {
    InsertElems(k[p], j, x);
    ParentIff(m', k', d', x, p);
    AttachRoots(m, k, d, m', k', d', x, p, j);
    AttachRecords(m, k, nextId, sel, info, m', k', x, p, j);
    AttachMaps(m, k, windows, windowNodes, spaceRoots, rootSpaces, m', k', x, p, j);
  }

  /** The selection and layout part of `AttachFits`. */
  lemma AttachRecords(m: map<NodeId, Node>, k: map<NodeId, seq<NodeId>>, nextId: int, sel: SelectionMap, info: InfoMap,
                      m': map<NodeId, Node>, k': map<NodeId, seq<NodeId>>, x: NodeId, p: NodeId, j: nat)
    requires m.Keys == k.Keys && m'.Keys == m.Keys && x in m && p in m && j <= |k[p]| && k' == k[p := InsertAt(k[p], j, x)]
    requires Coherent(sel, k) && (forall n | n in sel :: n < nextId) && m.Keys <= info.Keys && UngroupedIn(info)
    ensures Coherent(sel, k') && m'.Keys <= AfterAdded(info, x, p).Keys && UngroupedIn(AfterAdded(info, x, p))
  {
    InsertElems(k[p], j, x);
    CoherentGrow(sel, k, k');
  }

  /** The window and space part of `AttachFits`. */
  lemma AttachMaps(m: map<NodeId, Node>, k: map<NodeId, seq<NodeId>>,
                   windows: map<NodeId, WindowId>, windowNodes: map<WindowId, seq<WindowNodeInfo>>,
                   spaceRoots: map<SpaceId, NodeId>, rootSpaces: map<NodeId, SpaceId>,
                   m': map<NodeId, Node>, k': map<NodeId, seq<NodeId>>, x: NodeId, p: NodeId, j: nat)
    requires m'.Keys == m.Keys && p in k && j <= |k[p]| && k' == k[p := InsertAt(k[p], j, x)]
    requires x !in rootSpaces && p !in windows && Roots(m') == Roots(m) - {x}
    requires WindowsFit(m, k, windows, windowNodes, rootSpaces) && SpacesFit(m, spaceRoots, rootSpaces)
    ensures WindowsFit(m', k', windows, windowNodes, rootSpaces) && SpacesFit(m', spaceRoots, rootSpaces)
  {
    forall r | r in rootSpaces
      ensures r in m' && m'[r].parent.None?
    {
      assert r in Roots(m);
      assert r in Roots(m');
    }
  }

  /** Linking the root `x` below `p` makes `x` no longer a root and changes no other root. */
  lemma AttachRoots(m: map<NodeId, Node>, k: map<NodeId, seq<NodeId>>, d: map<NodeId, nat>,
                    m': map<NodeId, Node>, k': map<NodeId, seq<NodeId>>, d': map<NodeId, nat>,
                    x: NodeId, p: NodeId, j: nat)
    requires Linked(m, k, d) && Linked(m', k', d') && m'.Keys == m.Keys
    requires x in m && p in m && j <= |k[p]| && k' == k[p := InsertAt(k[p], j, x)]
    ensures Roots(m') == Roots(m) - {x}
  {
    InsertElems(k[p], j, x);
    forall n
      ensures n in Roots(m') <==> n in Roots(m) - {x}
    {
      if n in m {
        RootIff(m, k, d, n);
        RootIff(m', k', d', n);
        assert m'[n].parent.None? <==> m[n].parent.None? && n != x;
      }
    }
  }

  /** Linking the root `x` as the `j`-th child of `p` keeps every container balanced. */
  lemma AttachBalanced(m: map<NodeId, Node>, k: map<NodeId, seq<NodeId>>, d: map<NodeId, nat>, info: InfoMap,
                       x: NodeId, p: NodeId, j: nat)
    requires Linked(m, k, d) && x in m && m[x].parent.None? && p in m && p != x && j <= |k[p]|
    requires AllBalanced(info, k)
    ensures AllBalanced(AfterAdded(info, x, p), k[p := InsertAt(k[p], j, x)])
  {
    var info', k' := AfterAdded(info, x, p), k[p := InsertAt(k[p], j, x)];
    RootNotAChild(m, k, d, x);
    forall q | q in k'
      ensures Balanced(info', k', q)
    {
      if q == p {
        NotOwnChild(m, k, d, p);
        AddedBalanced(info, k, x, p, j);
      } else {
        KeepBalanced(info, info', k, k', q);
      }
    }
  }

  /**
   * Deleting the detached leaf `x`, which is neither a window node nor the
   * root of a space, with its selection entry and layout record, keeps every
   * invariant; its subtree is itself alone.
   */
  lemma RemoveLeafFits(m: map<NodeId, Node>, k: map<NodeId, seq<NodeId>>, d: map<NodeId, nat>, nextId: int,
                       sel: SelectionMap, info: InfoMap, windows: map<NodeId, WindowId>,
                       windowNodes: map<WindowId, seq<WindowNodeInfo>>,
                       spaceRoots: map<SpaceId, NodeId>, rootSpaces: map<NodeId, SpaceId>, x: NodeId)
    requires Linked(m, k, d) && x in m && m[x].parent.None? && k[x] == []
    requires x !in windows && x !in rootSpaces
    requires Fits(m, k, nextId, sel, info, windows, windowNodes, spaceRoots, rootSpaces) && AllBalanced(info, k)
    ensures Sub(m, d, x) == {x}
    ensures Fits(m - {x}, k - {x}, nextId, sel - {x}, info - {x}, windows, windowNodes, spaceRoots, rootSpaces)
    ensures AllBalanced(info - {x}, k - {x})
    ensures Roots(m - {x}) == Roots(m) - {x}
  {
    RootNotAChild(m, k, d, x);
    forall n | n in m && Under(m, d, n, x)
      ensures n == x
    {
      if n != x {
        var c := PathChild(m, d, n, x);
        assert false;
      }
    }
    forall q | q in k - {x}
      ensures Balanced(info - {x}, k - {x}, q)
    {
      KeepBalanced(info, info - {x}, k, k - {x}, q);
    }
  }

  /** The parent of a node is not a window node: window nodes are leaves. */
  lemma ParentNotWindow(m: map<NodeId, Node>, k: map<NodeId, seq<NodeId>>, d: map<NodeId, nat>,
                        windows: map<NodeId, WindowId>, windowNodes: map<WindowId, seq<WindowNodeInfo>>,
                        rootSpaces: map<NodeId, SpaceId>, c: NodeId)
    requires Linked(m, k, d) && WindowsFit(m, k, windows, windowNodes, rootSpaces) && c in m && m[c].parent.Some?
    ensures m[c].parent.value !in windows
  {
    var p := m[c].parent.value;
    UnderDepth(m, d, c, p);
    ParentIff(m, k, d, c, p);
  }

  /** Dropping the record of a window keeps every invariant of `Fits`. */
  lemma DropRecordFits(m: map<NodeId, Node>, k: map<NodeId, seq<NodeId>>, nextId: int,
                       sel: SelectionMap, info: InfoMap, windows: map<NodeId, WindowId>,
                       windowNodes: map<WindowId, seq<WindowNodeInfo>>,
                       spaceRoots: map<SpaceId, NodeId>, rootSpaces: map<NodeId, SpaceId>, w: WindowId)
    requires Fits(m, k, nextId, sel, info, windows, windowNodes, spaceRoots, rootSpaces)
    ensures Fits(m, k, nextId, sel, info, windows, windowNodes - {w}, spaceRoots, rootSpaces)
  {
  }

  /** Forgetting a window node whose window has no record left keeps every invariant of `Fits`. */
  lemma ForgetNodeFits(m: map<NodeId, Node>, k: map<NodeId, seq<NodeId>>, nextId: int,
                       sel: SelectionMap, info: InfoMap, windows: map<NodeId, WindowId>,
                       windowNodes: map<WindowId, seq<WindowNodeInfo>>,
                       spaceRoots: map<SpaceId, NodeId>, rootSpaces: map<NodeId, SpaceId>, n: NodeId)
    requires Fits(m, k, nextId, sel, info, windows, windowNodes, spaceRoots, rootSpaces)
    requires n in windows && windows[n] !in windowNodes
    ensures Fits(m, k, nextId, sel, info, windows - {n}, windowNodes, spaceRoots, rootSpaces)
  {
  }

  /** A fresh root that no space records keeps every invariant of `Fits`. */
  lemma FreshNodeFits(m: map<NodeId, Node>, k: map<NodeId, seq<NodeId>>, nextId: int,
                      sel: SelectionMap, info: InfoMap, windows: map<NodeId, WindowId>,
                      windowNodes: map<WindowId, seq<WindowNodeInfo>>,
                      spaceRoots: map<SpaceId, NodeId>, rootSpaces: map<NodeId, SpaceId>, x: NodeId)
    requires m.Keys == k.Keys && (forall n | n in m :: n < nextId) && x == nextId
    requires Fits(m, k, nextId, sel, info, windows, windowNodes, spaceRoots, rootSpaces)
    ensures x !in windows && x !in rootSpaces
    ensures Fits(m[x := Unlinked], k[x := []], nextId + 1, sel, info[x := DefaultInfo], windows, windowNodes,
                 spaceRoots, rootSpaces)
    ensures Roots(m[x := Unlinked]) == Roots(m) + {x}
  {
    CoherentGrow(sel, k, k[x := []]);
    var m' := m[x := Unlinked];
    forall n
      ensures n in Roots(m') <==> n in Roots(m) + {x}
    {
    }
  }

  /** Nothing but a leaf itself lies below the leaf. */
  lemma LeafNotAbove(m: map<NodeId, Node>, k: map<NodeId, seq<NodeId>>, d: map<NodeId, nat>, x: NodeId, n: NodeId)
    requires Linked(m, k, d) && x in m && k[x] == [] && n in m && n != x
    ensures !Under(m, d, n, x)
  {
    if Under(m, d, n, x) {
      var c := PathChild(m, d, n, x);
      ParentIff(m, k, d, c, x);
    }
  }

  /**
   * Cutting `x` out and linking it again next to `target`, a child of `q`,
   * leaves every other node with its parent.
   */
  lemma RelocatedParents(m: map<NodeId, Node>, k: map<NodeId, seq<NodeId>>, d: map<NodeId, nat>, dC: map<NodeId, nat>,
                         m1: map<NodeId, Node>, k1: map<NodeId, seq<NodeId>>, d1: map<NodeId, nat>,
                         x: NodeId, q: NodeId, target: NodeId, after: bool)
    requires Linked(m, k, d) && x in m && Placed(m, k, x)
    requires Linked(CutLinks(m, k, x), CutKids(m, k, x), dC)
    requires q in CutKids(m, k, x) && target in CutKids(m, k, x)[q]
    requires Linked(m1, k1, d1) && m1.Keys == m.Keys
    requires var K := CutKids(m, k, x);
             k1 == K[q := if after then SpliceAfter(K[q], target, x) else InsertAt(K[q], IndexOf(K[q], target), x)]
    ensures ParentsKept(m, m1, x)
  {
    var mC, K := CutLinks(m, k, x), CutKids(m, k, x);
    CutParents(m, k, d, x);
    var j := if after then IndexOf(K[q], target) + 1 else IndexOf(K[q], target);
    assert k1 == K[q := InsertAt(K[q], j, x)];
    InsertElems(K[q], j, x);
    KidsKeepParents(mC, K, dC, m1, k1, d1, x, q, InsertAt(K[q], j, x));
  }

  /**
   * Nesting the root `t` in a fresh root `r` leaves a node `n` below `t`
   * with its parent and its local selection, and `r` not below it.
   */
  lemma RaisedKeeps(m: map<NodeId, Node>, k: map<NodeId, seq<NodeId>>, d: map<NodeId, nat>, sel: SelectionMap,
                    m': map<NodeId, Node>, k': map<NodeId, seq<NodeId>>, d': map<NodeId, nat>, sel': SelectionMap,
                    t: NodeId, r: NodeId, n: NodeId)
    requires Linked(m, k, d) && Linked(m', k', d') && m'.Keys == m.Keys + {r} && r !in m
    requires k' == k[r := [t]] && m'[r].parent.None?
    requires sel' == sel[r := SelectionInfo(t, false)]
    requires n in m && m[n].parent.Some?
    ensures m'[n].parent == m[n].parent && LocalOf(sel', n) == LocalOf(sel, n)
    ensures !Under(m', d', r, n)
  {
    var q := m[n].parent.value;
    ParentIff(m, k, d, n, q);
    assert k'[q] == k[q];
    ParentIff(m', k', d', n, q);
  }

  /** Of two siblings, neither lies below the other. */
  lemma SiblingNotUnder(m: map<NodeId, Node>, d: map<NodeId, nat>, a: NodeId, b: NodeId)
    requires Ranked(m, d) && a in m && b in m && a != b && m[a].parent.Some? && m[a].parent == m[b].parent
    ensures !Under(m, d, a, b)
  {
    if Under(m, d, a, b) {
      UnderDepth(m, d, m[a].parent.value, b);
    }
  }

  /**
   * The roots of spaces once the root `old` of `space` hands the space over
   * to the fresh root `r`, which is no window node, keep every invariant of
   * `Fits`.
   */
  lemma HandOverFits(m: map<NodeId, Node>, k: map<NodeId, seq<NodeId>>, nextId: int,
                     sel: SelectionMap, info: InfoMap, windows: map<NodeId, WindowId>,
                     windowNodes: map<WindowId, seq<WindowNodeInfo>>,
                     spaceRoots: map<SpaceId, NodeId>, rootSpaces: map<NodeId, SpaceId>, prior: NodeId, r: NodeId)
    requires Fits(m, k, nextId, sel, info, windows, windowNodes, spaceRoots, rootSpaces)
    requires prior in rootSpaces && r in m && m[r].parent.None? && r !in rootSpaces && r !in windows
    ensures var space := rootSpaces[prior];
            Fits(m, k, nextId, sel, info, windows, windowNodes, spaceRoots[space := r], (rootSpaces - {prior})[r := space])
  {
  }

  /**
   * `assume_size_of` between two siblings keeps every invariant: only sizes
   * and the total of their parent change, and the parent stays balanced.
   */
  lemma TakenFits(m: map<NodeId, Node>, k: map<NodeId, seq<NodeId>>, d: map<NodeId, nat>, nextId: int,
                  sel: SelectionMap, info: InfoMap, windows: map<NodeId, WindowId>,
                  windowNodes: map<WindowId, seq<WindowNodeInfo>>,
                  spaceRoots: map<SpaceId, NodeId>, rootSpaces: map<NodeId, SpaceId>, heir: NodeId, orig: NodeId)
    requires Linked(m, k, d) && AllBalanced(info, k)
    requires Fits(m, k, nextId, sel, info, windows, windowNodes, spaceRoots, rootSpaces)
    requires heir in m && orig in m && heir != orig && m[heir].parent.Some? && m[heir].parent == m[orig].parent
    ensures var p := m[heir].parent.value;
            && p in info && heir in info && orig in info
            && Fits(m, k, nextId, sel, SizeTaken(info, heir, orig, p), windows, windowNodes, spaceRoots, rootSpaces)
            && AllBalanced(SizeTaken(info, heir, orig, p), k)
  {
    var p := m[heir].parent.value;
    UnderDepth(m, d, heir, p);
    ParentIff(m, k, d, heir, p);
    ParentIff(m, k, d, orig, p);
    KidsDistinct(m, k, d, p);
    NotOwnChild(m, k, d, p);
    ChildOfOne(m, k, d, p, IndexOf(k[p], heir));
    ChildOfOne(m, k, d, p, IndexOf(k[p], orig));
    TakenBalanced(info, k, heir, orig, p);
    InfoFits(m, k, nextId, sel, info, SizeTaken(info, heir, orig, p), windows, windowNodes, spaceRoots, rootSpaces);
  }

  /** Adding a node to the roots and taking it away again leaves them as they were. */
  lemma RootsBack(R: set<NodeId>, x: NodeId)
    requires x !in R
    ensures R + {x} - {x} == R
  {
  }

  /** A fresh root `r` taking the place of the root `node` among the roots. */
  lemma RootsSwap(R: set<NodeId>, r: NodeId, node: NodeId)
    requires r != node
    ensures R + {r} - {node} == R - {node} + {r}
  {
  }

  /** The node a fresh sibling was linked before keeps its parent. */
  lemma InsertedBefore(m: map<NodeId, Node>, k: map<NodeId, seq<NodeId>>, d: map<NodeId, nat>,
                       p: NodeId, L: seq<NodeId>, j: nat, x: NodeId)
    requires Linked(m, k, d) && p in m && j < |L| && k[p] == InsertAt(L, j, x)
    ensures L[j] in m && m[L[j]].parent == Some(p)
  {
    assert k[p][j + 1] == L[j];
    assert ChildLinked(m, k, p, j + 1);
  }

  /** A node other than `c` stays in the child list of its parent once `c` is cut out. */
  lemma CutKeepsChild(m: map<NodeId, Node>, k: map<NodeId, seq<NodeId>>, d: map<NodeId, nat>, c: NodeId, n: NodeId)
    requires Linked(m, k, d) && c in m && n in m && n != c && m[n].parent.Some?
    ensures Placed(m, k, c)
    ensures var q := m[n].parent.value; q in CutKids(m, k, c) && n in CutKids(m, k, c)[q]
  {
    var q := m[n].parent.value;
    UnderDepth(m, d, n, q);
    ParentIff(m, k, d, n, q);
    if m[c].parent.Some? {
      var p := m[c].parent.value;
      UnderDepth(m, d, c, p);
      ParentIff(m, k, d, c, p);
      if p == q {
        var L, i, t := k[p], IndexOf(k[p], c), IndexOf(k[p], n);
        if t < i {
          assert RemoveAt(L, i)[t] == n;
        } else {
          assert RemoveAt(L, i)[t - 1] == n;
        }
      }
    }
  }

  /**
   * The child lists after nesting: inserting `np` before `node`, cutting
   * `node` out and making it the one child of `np` leaves `np` in the place
   * of `node`.
   */
  lemma NestedKids(k: map<NodeId, seq<NodeId>>, p: NodeId, np: NodeId, node: NodeId)
    requires p in k && node in k[p] && Distinct(k[p]) && np !in k[p] && np !in k && np != p
    ensures var L := k[p];
            var i := IndexOf(L, node);
            && node in InsertAt(L, i, np) && IndexOf(InsertAt(L, i, np), node) == i + 1
            && var K := k[np := []][p := RemoveAt(InsertAt(L, i, np), i + 1)];
               K[np := K[np] + [node]] == k[np := [node]][p := L[i := np]]
  {
    var L := k[p];
    var i := IndexOf(L, node);
    SwapIn(L, i, np);
    var K := k[np := []][p := RemoveAt(InsertAt(L, i, np), i + 1)];
    assert K[np] + [node] == [node];
    assert K[np := [node]] == k[np := [node]][p := L[i := np]];
  }

  /** `NestedKids` stated on the forest `np` was linked into, from which `node` is cut. */
  lemma NestedKidsSteps(m1: map<NodeId, Node>, k1: map<NodeId, seq<NodeId>>, d1: map<NodeId, nat>,
                        k: map<NodeId, seq<NodeId>>, p: NodeId, np: NodeId, node: NodeId)
    requires p in k && node in k[p] && Distinct(k[p]) && np !in k[p] && np !in k && np != p
    requires k1 == k[np := []][p := InsertAt(k[p], IndexOf(k[p], node), np)]
    requires Linked(m1, k1, d1) && node in m1 && m1[node].parent == Some(p)
    ensures Placed(m1, k1, node)
    ensures var K := CutKids(m1, k1, node);
            np in K && K[np := K[np] + [node]] == k[np := [node]][p := k[p][IndexOf(k[p], node) := np]]
  {
    NestedKids(k, p, np, node);
    ParentIff(m1, k1, d1, node, p);
  }

  /** A key outside the forest is no node and no child of any node. */
  lemma FreshNotChild(m: map<NodeId, Node>, k: map<NodeId, seq<NodeId>>, d: map<NodeId, nat>, p: NodeId, x: NodeId)
    requires Linked(m, k, d) && p in m && x !in m
    ensures x !in k && x != p && x !in k[p]
  {
    forall i | 0 <= i < |k[p]|
      ensures k[p][i] != x
    {
      assert ChildLinked(m, k, p, i);
    }
  }

  /** A child has neither sibling exactly when it is the one child of its parent. */
  lemma OnlyChildIff(m: map<NodeId, Node>, k: map<NodeId, seq<NodeId>>, d: map<NodeId, nat>, c: NodeId)
    requires Linked(m, k, d) && c in m && m[c].parent.Some?
    ensures m[c].parent.value in k
    ensures m[c].prevSibling.None? && m[c].nextSibling.None? <==> k[m[c].parent.value] == [c]
  {
    var p := m[c].parent.value;
    UnderDepth(m, d, c, p);
    ParentIff(m, k, d, c, p);
    var L, i := k[p], IndexOf(k[p], c);
    assert ChildLinked(m, k, p, i);
    if L == [c] {
      assert i == 0;
    }
  }

  /** A fresh empty child list that then receives `x` holds just `x`. */
  lemma OneChild(k: map<NodeId, seq<NodeId>>, r: NodeId, x: NodeId)
    ensures k[r := []][r := k[r := []][r] + [x]] == k[r := [x]]
  {
    assert [] + [x] == [x];
  }

  /** Every node of `m'` was a node of `m`, under the same parent. */
  ghost predicate KeepsParents(m: map<NodeId, Node>, m': map<NodeId, Node>)
  {
    forall n | n in m' :: n in m && m'[n].parent == m[n].parent
  }

  /** Every node of `m` missing from `m'` went together with all its children. */
  ghost predicate GoneWhole(m: map<NodeId, Node>, kids: map<NodeId, seq<NodeId>>, m': map<NodeId, Node>)
  {
    forall n | n in m && n !in m' :: n in kids && forall c | c in kids[n] :: c !in m'
  }

  /** Where the parents are kept, a node lies below the nodes it lay below before. */
  lemma {:induction false} UnderKept(m: map<NodeId, Node>, d: map<NodeId, nat>, m': map<NodeId, Node>, d': map<NodeId, nat>,
                                     x: NodeId, a: NodeId)
    requires Ranked(m, d) && Ranked(m', d') && KeepsParents(m, m') && x in m' && Under(m', d', x, a)
    ensures x in m && Under(m, d, x, a)
    decreases d'[x]
  {
    if x != a {
      UnderKept(m, d, m', d', m'[x].parent.value, a);
    }
  }

  /**
   * Removing the empty non-root `p` and then culling from its former parent
   * `q` keeps the local selection of every surviving node that is not `p`
   * or one of its ancestors.
   */
  lemma CullEntries(m0: map<NodeId, Node>, d0: map<NodeId, nat>, m1: map<NodeId, Node>, d1: map<NodeId, nat>,
                    m2: map<NodeId, Node>, s0: SelectionMap, s1: SelectionMap, s2: SelectionMap, p: NodeId, q: NodeId)
    requires Ranked(m0, d0) && Ranked(m1, d1) && p in m0 && m0[p].parent == Some(q) && q in m1
    requires KeepsParents(m0, m1) && s1 == AfterRemoving(s0, m0, p) - {p} && m2.Keys <= m1.Keys
    requires forall k | k in m2 && !Under(m1, d1, q, k) :: LocalOf(s2, k) == LocalOf(s1, k)
    ensures forall k | k in m2 && !Under(m0, d0, p, k) :: LocalOf(s2, k) == LocalOf(s0, k)
  {
    forall k | k in m2 && !Under(m0, d0, p, k)
      ensures LocalOf(s2, k) == LocalOf(s0, k)
    {
      if Under(m1, d1, q, k) {
        UnderKept(m0, d0, m1, d1, q, k);
        assert false;
      }
    }
  }

  /**
   * Removing the empty non-root `p` and then culling from its former
   * parent `q` removes `p` and ancestors of `p` only, each with all its
   * children, and keeps every other parent link; `m1` and `k1` are the
   * forest after the removal of `p`, `m2` the forest after the cull.
   */
  lemma CullSteps(m0: map<NodeId, Node>, k0: map<NodeId, seq<NodeId>>, d0: map<NodeId, nat>,
                  m1: map<NodeId, Node>, k1: map<NodeId, seq<NodeId>>, d1: map<NodeId, nat>,
                  m2: map<NodeId, Node>, p: NodeId, q: NodeId)
    requires Linked(m0, k0, d0) && Linked(m1, k1, d1) && p in m0 && m0[p].parent == Some(q) && k0[p] == []
    requires m1.Keys == m0.Keys - {p} && KeepsParents(m0, m1)
    requires Placed(m0, k0, p) && k1 == CutKids(m0, k0, p) - {p}
    requires KeepsParents(m1, m2) && GoneWhole(m1, k1, m2)
    requires forall n | n in m1 && n !in m2 :: Under(m1, d1, q, n)
    ensures KeepsParents(m0, m2) && GoneWhole(m0, k0, m2)
    ensures forall n | n in m0 && n !in m2 :: Under(m0, d0, p, n)
  {
    forall n | n in m0 && n !in m2
      ensures Under(m0, d0, p, n)
    {
      if n != p {
        UnderKept(m0, d0, m1, d1, q, n);
      }
    }
    forall n | n in m0 && n !in m2
      ensures n in k0 && forall c | c in k0[n] :: c !in m2
    {
      if n != p {
        forall c | c in k0[n]
          ensures c !in m2
        {
          if c != p {
            if n == q {
              var L := k0[q];
              var i := IndexOf(L, p);
              var j := IndexOf(L, c);
              assert k1[q] == RemoveAt(L, i);
              if j < i {
                assert k1[q][j] == c;
              } else {
                assert j > i;
                assert k1[q][j - 1] == c;
              }
            } else {
              assert k1[n] == k0[n];
            }
          }
        }
      }
    }
  }

  /**
   * Every node of `keys` had a child list in `k0`, and its child list in
   * `k1` is the old one with the nodes outside `keys` left out.
   */
  ghost predicate KidsSurvive(k0: map<NodeId, seq<NodeId>>, k1: map<NodeId, seq<NodeId>>, keys: set<NodeId>)
  {
    forall n | n in keys :: n in k0 && n in k1 && k1[n] == Surviving(k0[n], keys)
  }

  /** In a well-linked forest every child is a node, so nothing is left out. */
  lemma KidsSurviveSelf(m: map<NodeId, Node>, k: map<NodeId, seq<NodeId>>, d: map<NodeId, nat>)
    requires Linked(m, k, d)
    ensures KidsSurvive(k, k, m.Keys)
  {
    forall n | n in m
      ensures k[n] == Surviving(k[n], m.Keys)
    {
      forall c | c in k[n]
        ensures c in m.Keys
      {
        KidStep(m, k, d, n, c);
      }
      SurvivingAll(k[n], m.Keys);
    }
  }

  /**
   * Removing the empty non-root `p` from the forest `m0`, `k0`, then culling
   * from its former parent `q`, leaves out of every surviving child list
   * exactly the nodes that are gone; `k1` is the forest after the removal,
   * `k2` and `keys2` the forest after the cull.
   */
  lemma CullKids(m0: map<NodeId, Node>, k0: map<NodeId, seq<NodeId>>, d0: map<NodeId, nat>,
                 k1: map<NodeId, seq<NodeId>>, keys1: set<NodeId>, k2: map<NodeId, seq<NodeId>>, keys2: set<NodeId>,
                 p: NodeId, q: NodeId)
    requires Linked(m0, k0, d0) && p in m0 && m0[p].parent == Some(q)
    requires keys1 == m0.Keys - {p} && Placed(m0, k0, p) && k1 == CutKids(m0, k0, p) - {p}
    requires keys2 <= keys1 && KidsSurvive(k1, k2, keys2)
    ensures KidsSurvive(k0, k2, keys2)
  {
    forall n | n in keys2
      ensures n in k0 && k2[n] == Surviving(k0[n], keys2)
    {
      if n == q {
        var L := k0[q];
        KidsDistinct(m0, k0, d0, q);
        forall c | c in L
          ensures c in m0.Keys
        {
          KidStep(m0, k0, d0, q, c);
        }
        SurvivingCut(L, IndexOf(L, p), m0.Keys);
        SurvivingTwice(L, keys1, keys2);
      }
    }
  }

  /** Cutting `c` from its parent leaves the child list of any other node as it was. */
  lemma CutElsewhere(m: map<NodeId, Node>, k: map<NodeId, seq<NodeId>>, d: map<NodeId, nat>, c: NodeId, n: NodeId)
    requires Linked(m, k, d) && c in m && n in m && m[c].parent != Some(n)
    ensures Placed(m, k, c) && CutKids(m, k, c)[n] == k[n]
  {
    if m[c].parent.Some? {
      KidStep(m, k, d, m[c].parent.value, c);
      ParentIff(m, k, d, c, m[c].parent.value);
    }
  }

  /** A node moved with its subtree intact does not end up above its old parent. */
  lemma MovedNotAbove(m0: map<NodeId, Node>, d0: map<NodeId, nat>, m1: map<NodeId, Node>, d1: map<NodeId, nat>,
                      x: NodeId, p: NodeId)
    requires Ranked(m0, d0) && Ranked(m1, d1) && x in m0 && m0[x].parent == Some(p) && p in m1
    requires Sub(m1, d1, x) == Sub(m0, d0, x)
    ensures !Under(m1, d1, p, x)
  {
    if Under(m1, d1, p, x) {
      assert p in Sub(m1, d1, x);
      UnderDepth(m0, d0, p, x);
      assert false;
    }
  }

  /**
   * A node moved away from its parent `p` outlives a cull that starts at
   * `p` and takes out ancestors of `p` only: its subtree, which did not hold
   * `p`, is the same in the forest `m1` the cull starts from.
   */
  lemma MovedSurvives(m0: map<NodeId, Node>, d0: map<NodeId, nat>, m1: map<NodeId, Node>, d1: map<NodeId, nat>,
                      m2: map<NodeId, Node>, x: NodeId, p: NodeId)
    requires Ranked(m0, d0) && Ranked(m1, d1) && x in m0 && m0[x].parent == Some(p) && x in m1 && p in m1
    requires Sub(m1, d1, x) == Sub(m0, d0, x)
    requires forall n | n in m1 && n !in m2 :: Under(m1, d1, p, n)
    ensures x in m2
  {
    if x !in m2 {
      assert p in Sub(m1, d1, x);
      UnderDepth(m0, d0, p, x);
    }
  }

  /** The window records `W0` less exactly the nodes in `gone`, each as it was. */
  ghost predicate Dropped(windows: map<NodeId, WindowId>, W0: map<NodeId, WindowId>, gone: seq<NodeId>)
  {
    && (forall n :: n in windows <==> n in W0 && n !in gone)
    && (forall n | n in windows :: windows[n] == W0[n])
  }

  /** Dropping one more window node keeps `Dropped`. */
  lemma DropStep(windows: map<NodeId, WindowId>, W0: map<NodeId, WindowId>, gone: seq<NodeId>, x: NodeId)
    requires Dropped(windows, W0, gone)
    ensures Dropped(windows - {x}, W0, gone + [x])
  {
  }

  /**
   * Where `retain_windows` stands, started from the records `WN0` and the
   * window nodes `W0`, with the windows `todo` still to visit: a window
   * loses its record, and its nodes, only if it was visited and rejected;
   * everything that stays is as it was.
   */
  ghost predicate Retaining(windowNodes: map<WindowId, seq<WindowNodeInfo>>, windows: map<NodeId, WindowId>,
                            WN0: map<WindowId, seq<WindowNodeInfo>>, W0: map<NodeId, WindowId>,
                            todo: set<WindowId>, keep: WindowId -> bool)
  {
    && todo <= windowNodes.Keys
    && (forall w :: w in windowNodes <==> w in WN0 && (w in todo || keep(w)))
    && (forall w | w in windowNodes :: windowNodes[w] == WN0[w])
    && (forall n :: n in windows <==> n in W0 && (W0[n] in todo || keep(W0[n])))
    && (forall n | n in windows :: windows[n] == W0[n])
  }

  /** Visiting the window `w`, and dropping it when rejected, keeps `Retaining`. */
  lemma RetainStep(windowNodes: map<WindowId, seq<WindowNodeInfo>>, windows: map<NodeId, WindowId>,
                   windowNodes': map<WindowId, seq<WindowNodeInfo>>, windows': map<NodeId, WindowId>,
                   WN0: map<WindowId, seq<WindowNodeInfo>>, W0: map<NodeId, WindowId>,
                   todo: set<WindowId>, keep: WindowId -> bool, w: WindowId)
    requires Retaining(windowNodes, windows, WN0, W0, todo, keep) && w in todo
    requires keep(w) ==> windowNodes' == windowNodes && windows' == windows
    requires !keep(w) ==> windowNodes' == windowNodes - {w}
    requires !keep(w) ==> forall n :: n in windows' <==> n in windows && windows[n] != w
    requires !keep(w) ==> forall n | n in windows' :: windows'[n] == windows[n]
    ensures Retaining(windowNodes', windows', WN0, W0, todo - {w}, keep)
  {
  }

  /**
   * Part way through `add_windows`: the child list of the parent is its
   * old list `K` followed by `nodes`, the fresh node of each window of
   * `wids` so far, recorded under that window; the old records `W` stay.
   */
  ghost predicate Appended(kidsOfParent: seq<NodeId>, windows: map<NodeId, WindowId>, M: set<NodeId>, K: seq<NodeId>,
                           W: map<NodeId, WindowId>, nodes: seq<NodeId>, wids: seq<WindowId>)
  {
    && |nodes| <= |wids| && kidsOfParent == K + nodes
    && (forall j | 0 <= j < |nodes| :: nodes[j] !in M && nodes[j] in windows && windows[nodes[j]] == wids[j])
    && (forall n | n in W :: n in windows && windows[n] == W[n])
    && (forall n | n in windows :: n in W || n in nodes)
  }

  /** Window nodes are nodes of the forest. */
  lemma WindowsPresent(m: map<NodeId, Node>, k: map<NodeId, seq<NodeId>>, windows: map<NodeId, WindowId>,
                       windowNodes: map<WindowId, seq<WindowNodeInfo>>, rootSpaces: map<NodeId, SpaceId>)
    requires WindowsFit(m, k, windows, windowNodes, rootSpaces)
    ensures windows.Keys <= m.Keys
  {
    forall n | n in windows
      ensures n in m
    {
    }
  }

  /** Appending the fresh window node `node` of the next window keeps `Appended`. */
  lemma AppendStep(kidsOfParent: seq<NodeId>, windows: map<NodeId, WindowId>,
                   kidsOfParent': seq<NodeId>, windows': map<NodeId, WindowId>, M: set<NodeId>, K: seq<NodeId>,
                   W: map<NodeId, WindowId>, nodes: seq<NodeId>, wids: seq<WindowId>, node: NodeId, present: set<NodeId>)
    requires Appended(kidsOfParent, windows, M, K, W, nodes, wids) && |nodes| < |wids|
    requires windows.Keys <= present && M <= present && node !in present
    requires kidsOfParent' == kidsOfParent + [node] && windows' == windows[node := wids[|nodes|]]
    ensures Appended(kidsOfParent', windows', M, K, W, nodes + [node], wids)
  {
  }
}
