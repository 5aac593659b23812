/**
 * The selection of crates/swell/src/model/selection.rs: every container may
 * keep an entry naming its selected child, and whether the selection stops
 * at the container itself instead of going on into that child.
 */
module Selections {
  import opened Types
  import opened ForestLinks
  import opened NodeArena

  /** The entry a container keeps (`SelectionInfo`). */
  datatype SelectionInfo = SelectionInfo(selectedChild: NodeId, stopHere: bool)

  type SelectionMap = map<NodeId, SelectionInfo>

  /** The entry of every node of the forest names one of that node's children. */
  ghost predicate Coherent(sel: SelectionMap, kids: map<NodeId, seq<NodeId>>)
  {
    forall p | p in sel && p in kids :: sel[p].selectedChild in kids[p]
  }

  /**
   * Where `current_selection` ends up when it starts at `n`: it follows
   * selected children until it meets a node without an entry or whose entry
   * stops there.
   */
  ghost function Walk(sel: SelectionMap, m: map<NodeId, Node>, kids: map<NodeId, seq<NodeId>>,
                      depth: map<NodeId, nat>, n: NodeId): (r: NodeId)
    requires Linked(m, kids, depth) && Coherent(sel, kids) && n in m
    ensures r in m && Under(m, depth, r, n)
    ensures r !in sel || sel[r].stopHere
    decreases |m| - depth[n]
  {
    if n in sel && !sel[n].stopHere then
      var c := sel[n].selectedChild;
      KidStep(m, kids, depth, n, c);
      var r := Walk(sel, m, kids, depth, c);
      UnderTrans(m, depth, r, c, n);
      r
    else
      n
  }

  /** The first step of `select`: the entry of `n` itself, if any, now stops there. */
  function Mark(sel: SelectionMap, n: NodeId): (r: SelectionMap)
    ensures r.Keys == sel.Keys
    ensures forall k | k in r :: r[k].selectedChild == sel[k].selectedChild
    ensures forall k | k in r :: r[k].stopHere == (sel[k].stopHere || k == n)
  {
    if n in sel then sel[n := sel[n].(stopHere := true)] else sel
  }

  /**
   * The entries the walk up of `select` writes: every proper ancestor of `n`
   * selects the child on the path to `n`, without stopping.
   */
  ghost function SelectPath(sel: SelectionMap, m: map<NodeId, Node>, depth: map<NodeId, nat>, n: NodeId): SelectionMap
    requires Ranked(m, depth) && n in m
    decreases depth[n]
  {
    match m[n].parent
    case None => sel
    case Some(p) => SelectPath(sel[p := SelectionInfo(n, false)], m, depth, p)
  }

  /** Once the entry of `n` stops there, the walk from `n` goes nowhere. */
  lemma MarkStops(sel: SelectionMap, m: map<NodeId, Node>, kids: map<NodeId, seq<NodeId>>,
                  depth: map<NodeId, nat>, n: NodeId)
    requires Linked(m, kids, depth) && Coherent(sel, kids) && n in m
    ensures Coherent(Mark(sel, n), kids) && Walk(Mark(sel, n), m, kids, depth, n) == n
  {
  }

  /** An entry for a node above `x`, or outside the forest, does not change the walk from `x`. */
  lemma {:induction false} WalkFrame(sel: SelectionMap, m: map<NodeId, Node>, kids: map<NodeId, seq<NodeId>>,
                                     depth: map<NodeId, nat>, x: NodeId, k: NodeId, v: SelectionInfo)
    requires Linked(m, kids, depth) && x in m && Coherent(sel, kids) && Coherent(sel[k := v], kids)
    requires k in m ==> depth[k] < depth[x]
    ensures Walk(sel[k := v], m, kids, depth, x) == Walk(sel, m, kids, depth, x)
    decreases |m| - depth[x]
  {
    if x in sel && !sel[x].stopHere {
      var c := sel[x].selectedChild;
      KidStep(m, kids, depth, x, c);
      WalkFrame(sel, m, kids, depth, c, k, v);
    }
  }

  lemma {:induction false} SelectPathCoherent(sel: SelectionMap, m: map<NodeId, Node>, kids: map<NodeId, seq<NodeId>>,
                                              depth: map<NodeId, nat>, n: NodeId)
    requires Linked(m, kids, depth) && Coherent(sel, kids) && n in m
    ensures Coherent(SelectPath(sel, m, depth, n), kids)
    decreases depth[n]
  {
    if m[n].parent.Some? {
      var p := m[n].parent.value;
      assert n in kids[p];
      SelectPathCoherent(sel[p := SelectionInfo(n, false)], m, kids, depth, p);
    }
  }

  /** The walk up of `select` writes entries only for nodes of the forest. */
  lemma {:induction false} SelectPathKeys(sel: SelectionMap, m: map<NodeId, Node>, depth: map<NodeId, nat>, n: NodeId)
    requires Ranked(m, depth) && n in m
    ensures forall k | k in SelectPath(sel, m, depth, n) :: k in sel || k in m
    decreases depth[n]
  {
    if m[n].parent.Some? {
      var p := m[n].parent.value;
      SelectPathKeys(sel[p := SelectionInfo(n, false)], m, depth, p);
    }
  }

  /**
   * The walk up of `select` makes the walk from the root of `x` end where
   * the walk from `x` ended before.
   */
  lemma {:induction false} SelectReaches(sel: SelectionMap, m: map<NodeId, Node>, kids: map<NodeId, seq<NodeId>>,
                                         depth: map<NodeId, nat>, x: NodeId)
    requires Linked(m, kids, depth) && Coherent(sel, kids) && x in m
    ensures Coherent(SelectPath(sel, m, depth, x), kids)
    ensures Walk(SelectPath(sel, m, depth, x), m, kids, depth, RootOf(m, depth, x)) == Walk(sel, m, kids, depth, x)
    decreases depth[x]
  {
    SelectPathCoherent(sel, m, kids, depth, x);
    if m[x].parent.Some? {
      var p := m[x].parent.value;
      var v := SelectionInfo(x, false);
      assert x in kids[p];
      WalkFrame(sel, m, kids, depth, x, p, v);
      assert Walk(sel[p := v], m, kids, depth, p) == Walk(sel[p := v], m, kids, depth, x);
      SelectReaches(sel[p := v], m, kids, depth, p);
    }
  }

  /**
   * The entries once `x` is about to leave its parent: if the parent had `x`
   * selected, it selects the next sibling of `x`, else the previous one,
   * else it loses its entry.
   */
  function AfterRemoving(sel: SelectionMap, m: map<NodeId, Node>, x: NodeId): SelectionMap
    requires x in m && m[x].parent.Some?
  {
    var p := m[x].parent.value;
    if p in sel && sel[p].selectedChild == x then
      var next := if m[x].nextSibling.Some? then m[x].nextSibling else m[x].prevSibling;
      if next.Some? then sel[p := sel[p].(selectedChild := next.value)] else sel - {p}
    else
      sel
  }

  /** Removing `x` touches only the entry of its parent. */
  lemma RemovingFrame(sel: SelectionMap, m: map<NodeId, Node>, x: NodeId, k: NodeId)
    requires x in m && m[x].parent.Some? && k != m[x].parent.value
    ensures LocalOf(AfterRemoving(sel, m, x), k) == LocalOf(sel, k)
  {
  }

  /**
   * The removal rule in terms of the child list of the parent: a parent that
   * had `x` selected moves on to the child after `x`, else to the one
   * before, else drops its entry; any other entry stays.
   */
  lemma RemovalRule(sel: SelectionMap, m: map<NodeId, Node>, kids: map<NodeId, seq<NodeId>>,
                    depth: map<NodeId, nat>, x: NodeId)
    requires Linked(m, kids, depth) && x in m && m[x].parent.Some?
    ensures x in kids[m[x].parent.value]
    ensures var p := m[x].parent.value;
            var L := kids[p];
            var i := IndexOf(L, x);
            var r := AfterRemoving(sel, m, x);
            && (p !in sel || sel[p].selectedChild != x ==> r == sel)
            && (p in sel && sel[p].selectedChild == x && i + 1 < |L| ==>
                  r == sel[p := SelectionInfo(L[i + 1], sel[p].stopHere)])
            && (p in sel && sel[p].selectedChild == x && i + 1 == |L| && 0 < i ==>
                  r == sel[p := SelectionInfo(L[i - 1], sel[p].stopHere)])
            && (p in sel && sel[p].selectedChild == x && |L| == 1 ==> r == sel - {p})
  {
    var p := m[x].parent.value;
    assert ChildLinked(m, kids, p, IndexOf(kids[p], x));
  }

  /**
   * The entries after the removal rule agree with the child lists once `x`
   * has been cut out: no entry is left naming `x` under its old parent.
   */
  lemma RemovingCoherent(sel: SelectionMap, m: map<NodeId, Node>, kids: map<NodeId, seq<NodeId>>,
                         depth: map<NodeId, nat>, x: NodeId)
    requires Linked(m, kids, depth) && Coherent(sel, kids) && x in m && m[x].parent.Some?
    ensures Placed(m, kids, x)
    ensures Coherent(AfterRemoving(sel, m, x), CutKids(m, kids, x))
  {
    var p := m[x].parent.value;
    var L := kids[p];
    var i := IndexOf(L, x);
    assert ChildLinked(m, kids, p, i);
    KidsDistinct(m, kids, depth, p);
    var r := AfterRemoving(sel, m, x);
    var k' := CutKids(m, kids, x);
    assert k' == kids[p := RemoveAt(L, i)];
    forall q | q in r && q in k'
      ensures r[q].selectedChild in k'[q]
    {
      if q == p {
        var c := r[p].selectedChild;
        assert c in L && c != x;
        var t := IndexOf(L, c);
        if t < i {
          assert RemoveAt(L, i)[t] == c;
        } else {
          assert RemoveAt(L, i)[t - 1] == c;
        }
      }
    }
  }

  /**
   * The local selection of `n` in the entries `sel`: its selected child,
   * unless it has no entry or the selection stops at it.
   */
  function LocalOf(sel: SelectionMap, n: NodeId): (r: Option<NodeId>)
    ensures r.None? <==> n !in sel || sel[n].stopHere
    ensures r.Some? ==> r.value == sel[n].selectedChild
  {
    if n in sel && !sel[n].stopHere then Some(sel[n].selectedChild) else None
  }

  /** A local selection is a child of its node. */
  lemma LocalOfIsChild(sel: SelectionMap, m: map<NodeId, Node>, kids: map<NodeId, seq<NodeId>>,
                       depth: map<NodeId, nat>, n: NodeId)
    requires Linked(m, kids, depth) && Coherent(sel, kids) && n in m && LocalOf(sel, n).Some?
    ensures var c := LocalOf(sel, n).value;
            && c in kids[n] && c in m && m[c].parent == Some(n)
            && depth[c] == depth[n] + 1 && depth[c] < |m|
  {
    KidStep(m, kids, depth, n, sel[n].selectedChild);
  }

  /**
   * `last_selection`, which is not part of this model's source: taken to be
   * the child named in the entry of `n`, whether or not the selection stops
   * at `n`, so that it recalls the child a selection below `n` went through.
   */
  function LastSelected(sel: SelectionMap, n: NodeId): (r: Option<NodeId>)
    ensures r.None? <==> n !in sel
    ensures r.Some? ==> r.value == sel[n].selectedChild
  {
    if n in sel then Some(sel[n].selectedChild) else None
  }

  /** In a coherent selection the last selection of a node is one of its children. */
  lemma LastSelectedIsChild(sel: SelectionMap, m: map<NodeId, Node>, kids: map<NodeId, seq<NodeId>>,
                      depth: map<NodeId, nat>, n: NodeId)
    requires Linked(m, kids, depth) && Coherent(sel, kids) && n in m && LastSelected(sel, n).Some?
    ensures var c := LastSelected(sel, n).value;
            c in kids[n] && c in m && m[c].parent == Some(n) && Under(m, depth, c, n)
  {
    KidStep(m, kids, depth, n, sel[n].selectedChild);
  }

  /** The per-container selection (`Selection`). */
  class Selection {
    var nodes: SelectionMap

    /** `Selection::default`: no container has an entry. */
    constructor ()
      ensures nodes == map[]
    {
      nodes := map[];
    }

    /**
     * `current_selection`: from `root`, follows selected children while
     * there is an entry that does not stop.
     */
    method CurrentSelection(ghost f: Forest, root: NodeId) returns (node: NodeId)
      requires f.Valid() && Coherent(nodes, f.kids) && root in f.nodes
      ensures node == Walk(nodes, f.nodes, f.kids, f.depth, root)
    {
      node := root;
      DepthBound(f.nodes, f.kids, f.depth, root);
      while node in nodes && !nodes[node].stopHere
        invariant node in f.nodes && f.depth[node] < |f.nodes|
        invariant Walk(nodes, f.nodes, f.kids, f.depth, node) == Walk(nodes, f.nodes, f.kids, f.depth, root)
        decreases |f.nodes| - f.depth[node]
      {
        KidStep(f.nodes, f.kids, f.depth, node, nodes[node].selectedChild);
        node := nodes[node].selectedChild;
      }
    }

    /**
     * `local_selection`: the selected child of `node`, unless `node` has no
     * entry or the selection stops at it.
     */
    function LocalSelection(node: NodeId): (r: Option<NodeId>)
      reads this
      ensures r == LocalOf(nodes, node)
    {
      if node in nodes && !nodes[node].stopHere then Some(nodes[node].selectedChild) else None
    }

    /** `select_locally`: the parent of `node`, if any, selects `node` without stopping. */
    method SelectLocally(f: Forest, node: NodeId)
      requires f.Valid() && node in f.nodes
      modifies this
      ensures f.nodes[node].parent.None? ==> nodes == old(nodes)
      ensures f.nodes[node].parent.Some? ==>
                nodes == old(nodes)[f.nodes[node].parent.value := SelectionInfo(node, false)]
      ensures f.nodes[node].parent.Some? ==> LocalSelection(f.nodes[node].parent.value) == Some(node)
      ensures Coherent(old(nodes), f.kids) ==> Coherent(nodes, f.kids)
    {
      if f.nodes[node].parent.Some? {
        var parent := f.nodes[node].parent.value;
        nodes := nodes[parent := SelectionInfo(node, false)];
      }
    }

    /**
     * `select`: the entry of `selection` stops there, and every ancestor
     * selects the child on the path down to `selection`; so the current
     * selection of its root becomes `selection`.
     */
    method Select(f: Forest, selection: NodeId)
      requires f.Valid() && Coherent(nodes, f.kids) && selection in f.nodes
      modifies this
      ensures nodes == SelectPath(Mark(old(nodes), selection), f.nodes, f.depth, selection)
      ensures Coherent(nodes, f.kids)
      ensures Walk(nodes, f.nodes, f.kids, f.depth, RootOf(f.nodes, f.depth, selection)) == selection
    {
      if selection in nodes {
        nodes := nodes[selection := nodes[selection].(stopHere := true)];
      }
      ghost var marked := nodes;
      MarkStops(old(nodes), f.nodes, f.kids, f.depth, selection);
      SelectReaches(marked, f.nodes, f.kids, f.depth, selection);
      var node := selection;
      while f.nodes[node].parent.Some?
        invariant node in f.nodes
        invariant SelectPath(nodes, f.nodes, f.depth, node) == SelectPath(marked, f.nodes, f.depth, selection)
        decreases f.depth[node]
      {
        var parent := f.nodes[node].parent.value;
        nodes := nodes[parent := SelectionInfo(node, false)];
        node := parent;
      }
    }

    /**
     * `handle_event`: applies the removal rule before a node leaves its
     * parent, and drops the entry of a node deleted from the forest. The
     * source unwraps the parent of a node leaving its parent.
     */
    method HandleEvent(f: Forest, event: ObserverCall)
      requires event.RemovingFromParent? ==> event.node in f.nodes && f.nodes[event.node].parent.Some?
      modifies this
      ensures event.AddedToForest? || event.AddedToParent? ==> nodes == old(nodes)
      ensures event.RemovingFromParent? ==> nodes == AfterRemoving(old(nodes), f.nodes, event.node)
      ensures event.RemovedFromForest? ==> nodes == old(nodes) - {event.node}
    {
      match event
      case AddedToForest(_) =>
      case AddedToParent(_) =>
      case RemovingFromParent(node) =>
        var parent := f.nodes[node].parent.value;
        if parent in nodes && nodes[parent].selectedChild == node {
          var next := f.nodes[node].nextSibling;
          if next.None? {
            next := f.nodes[node].prevSibling;
          }
          if next.Some? {
            nodes := nodes[parent := nodes[parent].(selectedChild := next.value)];
          } else {
            nodes := nodes - {parent};
          }
        }
      case RemovedFromForest(node) =>
        nodes := nodes - {node};
    }
  }

  /**
   * The entries once `node`, a child of `p` in the list `L`, has been nested
   * into the fresh container `np`: `np` selects `node`; `p` selects `np`
   * when `node` was its local selection, and an entry of `p` that names
   * `node` behind a stop moves on to the sibling after `node`, else to `np`.
   */
  function NestedSelection(sel: SelectionMap, p: NodeId, L: seq<NodeId>, node: NodeId, np: NodeId): SelectionMap
    requires node in L
  {
    var i := IndexOf(L, node);
    var s1 :=
      if LocalOf(sel, p) == Some(node) then sel[p := SelectionInfo(np, false)]
      else if p in sel && sel[p].selectedChild == node then
        sel[p := sel[p].(selectedChild := if i + 1 < |L| then L[i + 1] else np)]
      else sel;
    s1[np := SelectionInfo(node, false)]
  }

  /**
   * The selection steps of nesting — the removal rule as `node` leaves `p`
   * right after `np`, `p` selecting `np` when `node` was its local
   * selection, and `np` selecting `node` — give `NestedSelection`.
   */
  lemma NestedSelectionSteps(sel: SelectionMap, m: map<NodeId, Node>, kids: map<NodeId, seq<NodeId>>,
                             depth: map<NodeId, nat>, p: NodeId, L: seq<NodeId>, node: NodeId, np: NodeId)
    requires Linked(m, kids, depth) && node in m && m[node].parent == Some(p)
    requires node in L && Distinct(L) && np !in L && kids[p] == InsertAt(L, IndexOf(L, node), np)
    ensures var r := AfterRemoving(sel, m, node);
            var r2 := if LocalOf(sel, p) == Some(node) then r[p := SelectionInfo(np, false)] else r;
            r2[np := SelectionInfo(node, false)] == NestedSelection(sel, p, L, node, np)
  {
    var i := IndexOf(L, node);
    SwapIn(L, i, np);
    RemovalRule(sel, m, kids, depth, node);
    var L' := kids[p];
    assert L'[i] == np;
    if p in sel && sel[p].selectedChild == node {
      var next := if i + 1 < |L| then L[i + 1] else np;
      if i + 1 < |L| {
        assert L'[i + 2] == L[i + 1];
      }
      var r := AfterRemoving(sel, m, node);
      assert r == sel[p := sel[p].(selectedChild := next)];
      if !sel[p].stopHere {
        UpdateTwice(sel, p, sel[p].(selectedChild := next), SelectionInfo(np, false));
      }
    }
  }

  /** A second update of the same key overrides the first. */
  lemma UpdateTwice(sel: SelectionMap, k: NodeId, a: SelectionInfo, b: SelectionInfo)
    ensures sel[k := a][k := b] == sel[k := b]
  {
  }

  /**
   * The ancestors of `n`, from `n` itself, taken while they differ from
   * `stop` (`ancestors(..).take_while(|&a| a != stop)`).
   */
  function PathTo(m: map<NodeId, Node>, ghost depth: map<NodeId, nat>, n: NodeId, stop: NodeId): (r: seq<NodeId>)
    requires Ranked(m, depth) && n in m
    ensures stop !in r && (r != [] ==> r[0] == n)
    ensures forall x | x in r :: x in m && depth[x] <= depth[n]
    decreases depth[n]
  {
    if n == stop then []
    else
      match m[n].parent
      case None => [n]
      case Some(p) => [n] + PathTo(m, depth, p, stop)
  }

  /** The entries after `select_locally(x)`: the parent of `x`, if any, selects `x` without stopping. */
  function LocalSelect(sel: SelectionMap, m: map<NodeId, Node>, x: NodeId): SelectionMap
    requires x in m
  {
    match m[x].parent
    case None => sel
    case Some(p) => sel[p := SelectionInfo(x, false)]
  }

  /** The entries after `select_locally` on every node of `P` in turn. */
  function SelectAlong(sel: SelectionMap, m: map<NodeId, Node>, P: seq<NodeId>): SelectionMap
    requires forall x | x in P :: x in m
    decreases |P|
  {
    if P == [] then sel else SelectAlong(LocalSelect(sel, m, P[0]), m, P[1..])
  }

  /** An entry no node of `P` is a child of stays as it was. */
  lemma {:induction false} SelectAlongFrame(sel: SelectionMap, m: map<NodeId, Node>, P: seq<NodeId>, k: NodeId)
    requires forall x | x in P :: x in m && m[x].parent != Some(k)
    ensures (k in SelectAlong(sel, m, P) <==> k in sel)
    ensures k in sel ==> SelectAlong(sel, m, P)[k] == sel[k]
    decreases |P|
  {
    if P != [] {
      SelectAlongFrame(LocalSelect(sel, m, P[0]), m, P[1..], k);
    }
  }

  /**
   * Selecting locally along the path from `n` up to `stop` leaves every
   * node of the path the local selection of its parent.
   */
  lemma {:induction false} PathSelected(sel: SelectionMap, m: map<NodeId, Node>, depth: map<NodeId, nat>, n: NodeId, stop: NodeId)
    requires Ranked(m, depth) && n in m
    ensures forall x | x in PathTo(m, depth, n, stop) && m[x].parent.Some? ::
              LocalOf(SelectAlong(sel, m, PathTo(m, depth, n, stop)), m[x].parent.value) == Some(x)
    decreases depth[n]
  {
    var P := PathTo(m, depth, n, stop);
    if P != [] && m[n].parent.Some? {
      var p := m[n].parent.value;
      var s1 := LocalSelect(sel, m, n);
      var R := PathTo(m, depth, p, stop);
      assert P == [n] + R && P[1..] == R;
      PathSelected(s1, m, depth, p, stop);
      forall x | x in R
        ensures x in m && m[x].parent != Some(p)
      {
      }
      SelectAlongFrame(s1, m, R, p);
    }
  }

  /** Every node on the path from `n` up to `stop` lies above `n`. */
  lemma {:induction false} PathUnder(m: map<NodeId, Node>, depth: map<NodeId, nat>, n: NodeId, stop: NodeId, x: NodeId)
    requires Ranked(m, depth) && n in m && x in PathTo(m, depth, n, stop)
    ensures Under(m, depth, n, x)
    decreases depth[n]
  {
    if x != n {
      PathUnder(m, depth, m[n].parent.value, stop, x);
    }
  }

  /** When `stop` lies above `n`, the path from `n` up to `stop` runs strictly below it. */
  lemma {:induction false} PathBelow(m: map<NodeId, Node>, depth: map<NodeId, nat>, n: NodeId, stop: NodeId)
    requires Ranked(m, depth) && n in m && Under(m, depth, n, stop)
    ensures stop in m && forall x | x in PathTo(m, depth, n, stop) :: depth[x] > depth[stop]
    decreases depth[n]
  {
    UnderDepth(m, depth, n, stop);
    if n != stop {
      var p := m[n].parent.value;
      UnderDepth(m, depth, p, stop);
      PathBelow(m, depth, p, stop);
    }
  }

  /** The path up to `stop` depends only on the parent links of the nodes other than `stop`. */
  lemma {:induction false} PathKept(m0: map<NodeId, Node>, d0: map<NodeId, nat>, m1: map<NodeId, Node>, d1: map<NodeId, nat>,
                                    n: NodeId, stop: NodeId)
    requires Ranked(m0, d0) && Ranked(m1, d1) && n in m0 && n in m1
    requires ParentsKept(m0, m1, stop)
    ensures PathTo(m1, d1, n, stop) == PathTo(m0, d0, n, stop)
    decreases d1[n]
  {
    if n != stop && m1[n].parent.Some? {
      PathKept(m0, d0, m1, d1, m1[n].parent.value, stop);
    }
  }

  /**
   * A walk from `k` that ends at `w` below the child `z` of `k` goes through
   * `z`: `z` is the local selection of `k`.
   */
  lemma WalkSelects(sel: SelectionMap, m: map<NodeId, Node>, kids: map<NodeId, seq<NodeId>>,
                    depth: map<NodeId, nat>, k: NodeId, w: NodeId, z: NodeId)
    requires Linked(m, kids, depth) && Coherent(sel, kids) && k in m && z in m && m[z].parent == Some(k)
    requires Walk(sel, m, kids, depth, k) == w && Under(m, depth, w, z)
    ensures LocalOf(sel, k) == Some(z) && Walk(sel, m, kids, depth, z) == w
  {
    UnderDepth(m, depth, w, z);
    var c := sel[k].selectedChild;
    KidStep(m, kids, depth, k, c);
    UnderSameDepth(m, depth, w, c, z);
  }

  /** A walk from `r` that ends at `w` passes through every node between `r` and `w`. */
  lemma {:induction false} WalkDown(sel: SelectionMap, m: map<NodeId, Node>, kids: map<NodeId, seq<NodeId>>,
                                    depth: map<NodeId, nat>, r: NodeId, w: NodeId, z: NodeId)
    requires Linked(m, kids, depth) && Coherent(sel, kids) && r in m && z in m
    requires Walk(sel, m, kids, depth, r) == w && Under(m, depth, w, z) && Under(m, depth, z, r)
    ensures Walk(sel, m, kids, depth, z) == w
    decreases depth[z]
  {
    if z != r {
      var k := m[z].parent.value;
      UnderTrans(m, depth, w, z, k);
      WalkDown(sel, m, kids, depth, r, w, k);
      WalkSelects(sel, m, kids, depth, k, w, z);
    }
  }

  /** The current selection of a tree is the local selection of its parent. */
  lemma CurrentIsLocal(sel: SelectionMap, m: map<NodeId, Node>, kids: map<NodeId, seq<NodeId>>,
                       depth: map<NodeId, nat>, x: NodeId)
    requires Linked(m, kids, depth) && Coherent(sel, kids) && x in m && m[x].parent.Some?
    ensures Walk(sel, m, kids, depth, RootOf(m, depth, x)) == x ==> LocalOf(sel, m[x].parent.value) == Some(x)
  {
    if Walk(sel, m, kids, depth, RootOf(m, depth, x)) == x {
      var p := m[x].parent.value;
      RootOfUnder(m, depth, x, p);
      WalkDown(sel, m, kids, depth, RootOf(m, depth, x), x, p);
      WalkSelects(sel, m, kids, depth, p, x, x);
    }
  }

  /**
   * Going up from `n` towards `stop` through nodes each selected by its
   * parent, the walk from `stop` (when `stop` lies above `n`), or else from
   * the root of `n`, ends where the walk from `n` ends.
   */
  lemma {:induction false} WalkUp(sel: SelectionMap, m: map<NodeId, Node>, kids: map<NodeId, seq<NodeId>>,
                                  depth: map<NodeId, nat>, n: NodeId, stop: NodeId)
    requires Linked(m, kids, depth) && Coherent(sel, kids) && n in m
    requires forall x | x in PathTo(m, depth, n, stop) && m[x].parent.Some? :: LocalOf(sel, m[x].parent.value) == Some(x)
    ensures Under(m, depth, n, stop) ==> stop in m && Walk(sel, m, kids, depth, stop) == Walk(sel, m, kids, depth, n)
    ensures !Under(m, depth, n, stop) ==> Walk(sel, m, kids, depth, RootOf(m, depth, n)) == Walk(sel, m, kids, depth, n)
    decreases depth[n]
  {
    if n != stop && m[n].parent.Some? {
      var p := m[n].parent.value;
      assert PathTo(m, depth, n, stop) == [n] + PathTo(m, depth, p, stop);
      assert LocalOf(sel, p) == Some(n);
      WalkUp(sel, m, kids, depth, p, stop);
      if Under(m, depth, n, stop) {
        UnderDepth(m, depth, n, stop);
      }
    }
  }

  /**
   * Where `moving`, below `p`, was the current selection of its tree, every
   * node on the path from `p` up to the root is the local selection of its
   * parent.
   */
  lemma UpperSelected(m0: map<NodeId, Node>, k0: map<NodeId, seq<NodeId>>, d0: map<NodeId, nat>, s0: SelectionMap,
                      moving: NodeId, p: NodeId, z: NodeId)
    requires Linked(m0, k0, d0) && Coherent(s0, k0) && moving in m0 && m0[moving].parent == Some(p)
    requires Walk(s0, m0, k0, d0, RootOf(m0, d0, moving)) == moving
    requires z in PathTo(m0, d0, p, moving) && m0[z].parent.Some?
    ensures LocalOf(s0, m0[z].parent.value) == Some(z)
  {
    var k := m0[z].parent.value;
    PathUnder(m0, d0, p, moving, z);
    UnderTrans(m0, d0, moving, p, z);
    UnderTrans(m0, d0, moving, z, k);
    RootOfUnder(m0, d0, moving, k);
    WalkDown(s0, m0, k0, d0, RootOf(m0, d0, moving), moving, k);
    WalkSelects(s0, m0, k0, d0, k, moving, z);
  }

  /**
   * After `moving` has left its parent `p` and been linked again below `p`,
   * with no other parent link changed, and the path from `moving` up to `p`
   * has been selected: every node from `p` up to its root is still the
   * local selection of its parent, if `moving` was the current selection
   * of its tree before.
   */
  lemma {:induction false} UpperKept(m0: map<NodeId, Node>, k0: map<NodeId, seq<NodeId>>, d0: map<NodeId, nat>, s0: SelectionMap,
                                     m1: map<NodeId, Node>, k1: map<NodeId, seq<NodeId>>, d1: map<NodeId, nat>, s1: SelectionMap,
                                     moving: NodeId, p: NodeId)
    requires Linked(m0, k0, d0) && Coherent(s0, k0) && Linked(m1, k1, d1)
    requires moving in m0 && m0[moving].parent == Some(p) && moving in m1 && p in m1 && Under(m1, d1, moving, p)
    requires Walk(s0, m0, k0, d0, RootOf(m0, d0, moving)) == moving
    requires ParentsKept(m0, m1, moving)
    requires s1 == AfterRemoving(s0, m0, moving)
    ensures forall z | z in PathTo(m1, d1, p, moving) && m1[z].parent.Some? ::
              LocalOf(SelectAlong(s1, m1, PathTo(m1, d1, moving, p)), m1[z].parent.value) == Some(z)
  {
    var U := PathTo(m1, d1, p, moving);
    var P := PathTo(m1, d1, moving, p);
    PathKept(m0, d0, m1, d1, p, moving);
    PathBelow(m1, d1, moving, p);
    forall z | z in U && m1[z].parent.Some?
      ensures LocalOf(SelectAlong(s1, m1, P), m1[z].parent.value) == Some(z)
    {
      var k := m1[z].parent.value;
      forall x | x in P
        ensures x in m1 && m1[x].parent != Some(k)
      {
      }
      assert z != moving && m0[z].parent == Some(k) && k != p;
      SelectAlongFrame(s1, m1, P, k);
      RemovingFrame(s0, m0, moving, k);
      UpperSelected(m0, k0, d0, s0, moving, p, z);
    }
  }

  /**
   * A move of `x` away from its old parent `p` that, when `p` is still
   * above `x` afterwards, changed no other parent link and only the entry
   * of `p` in the selection (`s0`, `m0` before the move, `s1`, `m1`, `d1`
   * after it).
   */
  ghost predicate MovedAlone(m0: map<NodeId, Node>, s0: SelectionMap, m1: map<NodeId, Node>, d1: map<NodeId, nat>,
                             s1: SelectionMap, x: NodeId, p: NodeId)
    requires Ranked(m1, d1) && x in m1 && x in m0 && m0[x].parent.Some?
  {
    Under(m1, d1, x, p) ==> ParentsKept(m0, m1, x) && s1 == AfterRemoving(s0, m0, x)
  }

  /**
   * `move_node` keeps the current selection. `s0`, `m0` are the selection
   * and the forest before the move, `m1` the forest after it and `s1` the
   * selection before the path from `moving` up to its old parent `p` is
   * selected. The move keeps the entry of `moving` and moves it alone.
   * Then a `moving` that was the current selection of its tree is the
   * current selection of its tree afterwards.
   */
  lemma {:induction false} SelectionKept(m0: map<NodeId, Node>, k0: map<NodeId, seq<NodeId>>, d0: map<NodeId, nat>, s0: SelectionMap,
                                         m1: map<NodeId, Node>, k1: map<NodeId, seq<NodeId>>, d1: map<NodeId, nat>, s1: SelectionMap,
                                         moving: NodeId, p: NodeId)
    requires Linked(m0, k0, d0) && Coherent(s0, k0) && Linked(m1, k1, d1)
    requires moving in m0 && m0[moving].parent == Some(p) && moving in m1
    requires Walk(s0, m0, k0, d0, RootOf(m0, d0, moving)) == moving
    requires LocalOf(s1, moving) == LocalOf(s0, moving)
    requires MovedAlone(m0, s0, m1, d1, s1, moving, p)
    requires Coherent(SelectAlong(s1, m1, PathTo(m1, d1, moving, p)), k1)
    ensures Walk(SelectAlong(s1, m1, PathTo(m1, d1, moving, p)), m1, k1, d1, RootOf(m1, d1, moving)) == moving
  {
    var P := PathTo(m1, d1, moving, p);
    var s2 := SelectAlong(s1, m1, P);
    PathSelected(s1, m1, d1, moving, p);
    SelectAlongFrame(s1, m1, P, moving);
    assert LocalOf(s2, moving) == LocalOf(s0, moving);
    assert Walk(s2, m1, k1, d1, moving) == moving;
    WalkUp(s2, m1, k1, d1, moving, p);
    if Under(m1, d1, moving, p) {
      UnderDepth(m1, d1, moving, p);
      UpperKept(m0, k0, d0, s0, m1, k1, d1, s1, moving, p);
      WalkUp(s2, m1, k1, d1, p, moving);
      UnderDepth(m1, d1, m1[moving].parent.value, p);
      if Under(m1, d1, p, moving) {
        UnderDepth(m1, d1, p, moving);
      }
      RootOfUnder(m1, d1, moving, p);
    }
  }
}
