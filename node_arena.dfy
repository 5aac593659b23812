/**
 * The forest of crates/swell/src/model/node.rs: a slot map of link records
 * that the link helpers rewrite in place, the public `NodeId` operations
 * that report to an observer, and the `OwnedNode` handle.
 *
 * The observer is modelled by the sequence of calls each operation makes on
 * it, returned in the order they happen.
 */
module NodeArena {
  import opened Types
  import opened ForestLinks

  /** One call into an `Observer`. */
  datatype ObserverCall =
    | AddedToForest(node: NodeId)
    | AddedToParent(node: NodeId)
    | RemovingFromParent(node: NodeId)
    | RemovedFromForest(node: NodeId)

  /** The calls `delete_recursive` makes, one per deleted node, in deletion order. */
  function RemovedCalls(deleted: seq<NodeId>): (r: seq<ObserverCall>)
    ensures |r| == |deleted|
    ensures forall i | 0 <= i < |r| :: r[i] == RemovedFromForest(deleted[i])
  {
    if deleted == [] then [] else [RemovedFromForest(deleted[0])] + RemovedCalls(deleted[1..])
  }

  function Reverse(s: seq<NodeId>): (r: seq<NodeId>)
    ensures |r| == |s|
    ensures forall i | 0 <= i < |s| :: r[i] == s[|s| - 1 - i]
  {
    if s == [] then [] else Reverse(s[1..]) + [s[0]]
  }

  /**
   * Each ancestor of `n` paired with the ancestor after it
   * (`NodeId::ancestors_with_parent`).
   */
  function AncestorsWithParentIn(m: map<NodeId, Node>, ghost depth: map<NodeId, nat>, n: NodeId)
    : (r: seq<(NodeId, Option<NodeId>)>)
    requires Ranked(m, depth) && n in m
    ensures var a := Ancestors(m, depth, n);
            && |r| == |a|
            && (forall i | 0 <= i < |r| :: r[i].0 == a[i] && r[i].1 == m[a[i]].parent)
            && r[|r| - 1].1.None?
    decreases depth[n]
  {
    match m[n].parent
    case None => [(n, None)]
    case Some(p) => [(n, Some(p))] + AncestorsWithParentIn(m, depth, p)
  }

  /** A forest of nodes (`Forest`). */
  class Forest {
    /** The slot map. */
    var nodes: map<NodeId, Node>
    /** The next key the slot map hands out; keys are never reused. */
    var nextId: NodeId
    /** The ordered children of every node. */
    ghost var kids: map<NodeId, seq<NodeId>>
    /** The distance of every node from its root. */
    ghost var depth: map<NodeId, nat>

    ghost predicate Valid()
      reads this
    {
      Linked(nodes, kids, depth) && forall k | k in nodes :: k < nextId
    }

    /** The subtree rooted at `n`. */
    ghost function Subtree(n: NodeId): set<NodeId>
      reads this
      requires Valid()
    {
      Sub(nodes, depth, n)
    }

    /** `Forest::new`. */
    constructor ()
      ensures Valid() && nodes == map[] && kids == map[]
    {
      nodes, nextId, kids, depth := map[], 0, map[], map[];
    }

    /**
     * `mk_node`: inserts a node with no links under a fresh key. Only the slot
     * map changes; callers that keep the forest valid update the ghost state.
     */
    method MkNode() returns (id: NodeId)
      modifies this`nodes, this`nextId
      ensures kids == old(kids) && depth == old(depth)
      ensures id == old(nextId) && nextId == id + 1
      ensures nodes == old(nodes)[id := Unlinked]
    {
      id := nextId;
      nodes := nodes[id := Unlinked];
      nextId := nextId + 1;
    }

    /** A fresh root with no links, as `mk_node` leaves it in a valid forest. */
    method NewRoot() returns (id: NodeId)
      requires Valid()
      modifies this
      ensures Valid() && nextId == old(nextId) + 1
      ensures id == old(nextId) && id !in old(nodes) && nodes == old(nodes)[id := Unlinked] && kids == old(kids)[id := []]
      ensures Subtree(id) == {id}
    {
      id := MkNode();
      kids, depth := kids[id := []], depth[id := 0];
      RootValid(old(nodes), old(kids), old(depth), id);
    }

    /** The forest is valid again once a fresh key `x` has been added as a root to the valid forest `m`, `k`, `d`. */
    lemma RootValid(m: map<NodeId, Node>, k: map<NodeId, seq<NodeId>>, d: map<NodeId, nat>, x: NodeId)
      requires Linked(m, k, d) && (forall n | n in m :: n < x)
      requires nodes == m[x := Unlinked] && kids == k[x := []] && depth == d[x := 0] && nextId == x + 1
      ensures Valid() && Subtree(x) == {x}
    {
      FreshLeaf(m, k, d, x);
    }

    /** `hlink_after`: splice `x` into a sibling chain right after `prev`. */
    method HLinkAfter(x: NodeId, prev: NodeId)
      requires x in nodes && prev in nodes && x != prev && nodes[x].prevSibling.None?
      requires nodes[prev].nextSibling.Some? ==>
                 nodes[prev].nextSibling.value in nodes && nodes[prev].nextSibling.value != x &&
                 nodes[prev].nextSibling.value != prev
      modifies this`nodes
      ensures nextId == old(nextId) && kids == old(kids) && depth == old(depth)
      ensures var next := old(nodes[prev].nextSibling);
              var m := old(nodes)[x := old(nodes[x]).(prevSibling := Some(prev),
                                                       nextSibling := if next.Some? then next else old(nodes[x].nextSibling))]
                                 [prev := old(nodes[prev]).(nextSibling := Some(x))];
              nodes == if next.Some? then m[next.value := old(nodes[next.value]).(prevSibling := Some(x))] else m
    {
      nodes := nodes[x := nodes[x].(prevSibling := Some(prev))];
      var next := nodes[prev].nextSibling;
      nodes := nodes[prev := nodes[prev].(nextSibling := Some(x))];
      if next.Some? {
        nodes := nodes[next.value := nodes[next.value].(prevSibling := Some(x))];
        nodes := nodes[x := nodes[x].(nextSibling := next)];
      }
    }

    /** `hlink_before`: splice `x` into a sibling chain right before `next`. */
    method HLinkBefore(x: NodeId, next: NodeId)
      requires x in nodes && next in nodes && x != next && nodes[x].nextSibling.None?
      requires nodes[next].prevSibling.Some? ==>
                 nodes[next].prevSibling.value in nodes && nodes[next].prevSibling.value != x &&
                 nodes[next].prevSibling.value != next
      modifies this`nodes
      ensures nextId == old(nextId) && kids == old(kids) && depth == old(depth)
      ensures var prev := old(nodes[next].prevSibling);
              var m := old(nodes)[x := old(nodes[x]).(nextSibling := Some(next),
                                                       prevSibling := if prev.Some? then prev else old(nodes[x].prevSibling))]
                                 [next := old(nodes[next]).(prevSibling := Some(x))];
              nodes == if prev.Some? then m[prev.value := old(nodes[prev.value]).(nextSibling := Some(x))] else m
    {
      nodes := nodes[x := nodes[x].(nextSibling := Some(next))];
      var prev := nodes[next].prevSibling;
      nodes := nodes[next := nodes[next].(prevSibling := Some(x))];
      if prev.Some? {
        nodes := nodes[prev.value := nodes[prev.value].(nextSibling := Some(x))];
        nodes := nodes[x := nodes[x].(prevSibling := prev)];
      }
    }

    /** `link_under_back`: the root `x` becomes the last child of `p`, whose children are `L`. */
    method LinkUnderBack(x: NodeId, p: NodeId, ghost L: seq<NodeId>)
      requires Splicable(nodes, L, x, p, |L|)
      modifies this`nodes
      ensures nextId == old(nextId) && kids == old(kids) && depth == old(depth)
      ensures nodes == InsertLinks(old(nodes), L, x, p, |L|)
    {
      nodes := nodes[x := nodes[x].(parent := Some(p))];
      if nodes[p].firstChild.None? {
        nodes := nodes[p := nodes[p].(firstChild := Some(x))];
      }
      var last := nodes[p].lastChild;
      nodes := nodes[p := nodes[p].(lastChild := Some(x))];
      if last.Some? {
        HLinkAfter(x, last.value);
      }
    }

    /** `link_under_front`: the root `x` becomes the first child of `p`, whose children are `L`. */
    method LinkUnderFront(x: NodeId, p: NodeId, ghost L: seq<NodeId>)
      requires Splicable(nodes, L, x, p, 0)
      modifies this`nodes
      ensures nextId == old(nextId) && kids == old(kids) && depth == old(depth)
      ensures nodes == InsertLinks(old(nodes), L, x, p, 0)
    {
      nodes := nodes[x := nodes[x].(parent := Some(p))];
      if nodes[p].lastChild.None? {
        nodes := nodes[p := nodes[p].(lastChild := Some(x))];
      }
      var first := nodes[p].firstChild;
      nodes := nodes[p := nodes[p].(firstChild := Some(x))];
      if first.Some? {
        HLinkBefore(x, first.value);
      }
    }

    /**
     * `link_before`: the root `x` becomes the sibling right before `next`,
     * the `j`-th of the children `L` of `next`'s parent. `next` must have a
     * parent: the source panics with "cannot make a sibling of the root
     * node" otherwise.
     */
    method LinkBefore(x: NodeId, next: NodeId, ghost L: seq<NodeId>, ghost j: nat)
      requires next in nodes && nodes[next].parent.Some?
      requires Splicable(nodes, L, x, nodes[next].parent.value, j) && j < |L| && L[j] == next
      modifies this`nodes
      ensures nextId == old(nextId) && kids == old(kids) && depth == old(depth)
      ensures nodes == InsertLinks(old(nodes), L, x, old(nodes[next].parent.value), j)
    {
      var p := nodes[next].parent.value;
      nodes := nodes[x := nodes[x].(parent := Some(p))];
      if nodes[p].firstChild == Some(next) {
        nodes := nodes[p := nodes[p].(firstChild := Some(x))];
      }
      HLinkBefore(x, next);
    }

    /**
     * `link_after`: the root `x` becomes the sibling right after `prev`, the
     * `j`-th of the children `L` of `prev`'s parent; `prev` must have a parent.
     */
    method LinkAfter(x: NodeId, prev: NodeId, ghost L: seq<NodeId>, ghost i: nat)
      requires prev in nodes && nodes[prev].parent.Some?
      requires i < |L| && Splicable(nodes, L, x, nodes[prev].parent.value, i + 1) && L[i] == prev
      modifies this`nodes
      ensures nextId == old(nextId) && kids == old(kids) && depth == old(depth)
      ensures nodes == InsertLinks(old(nodes), L, x, old(nodes[prev].parent.value), i + 1)
    {
      var p := nodes[prev].parent.value;
      nodes := nodes[x := nodes[x].(parent := Some(p))];
      if nodes[p].lastChild == Some(prev) {
        nodes := nodes[p := nodes[p].(lastChild := Some(x))];
      }
      HLinkAfter(x, prev);
    }
  
    /**
     * Brings the ghost state up to date once the root `x` of the valid forest
     * `m`, `k`, `d` has been linked in as the `j`-th child of `p`.
     */
    ghost method AttachGhost(m: map<NodeId, Node>, k: map<NodeId, seq<NodeId>>, d: map<NodeId, nat>,
                             x: NodeId, p: NodeId, j: nat)
      requires Linkable(m, k, d, x, p) && j <= |k[p]| && (forall n | n in m :: n < nextId)
      requires nodes == InsertLinks(m, k[p], x, p, j)
      modifies this`kids, this`depth
      ensures Valid() && nodes.Keys == m.Keys && kids == k[p := InsertAt(k[p], j, x)]
      ensures Subtree(x) == Sub(m, d, x)
    {
      depth := AttachFacts(m, k, d, x, p, j);
      kids := k[p := InsertAt(k[p], j, x)];
      AttachValid(m, k, depth, x, p, j);
    }

    lemma AttachValid(m: map<NodeId, Node>, k: map<NodeId, seq<NodeId>>, d: map<NodeId, nat>,
                      x: NodeId, p: NodeId, j: nat)
      requires p in k && j <= |k[p]| && x in m && p in m && (forall n | n in m :: n < nextId)
      requires Linked(InsertLinks(m, k[p], x, p, j), k[p := InsertAt(k[p], j, x)], d)
      requires nodes == InsertLinks(m, k[p], x, p, j) && kids == k[p := InsertAt(k[p], j, x)] && depth == d
      ensures Valid() && nodes.Keys == m.Keys
    {
      InsertParents(m, k[p], x, p, j);
    }

    /** Makes the root `x` the first child of `p` (`link_under_front`). */
    method AttachFront(x: NodeId, p: NodeId)
      requires Valid() && Linkable(nodes, kids, depth, x, p)
      modifies this
      ensures Valid()
      ensures nodes.Keys == old(nodes.Keys) && nextId == old(nextId)
      ensures kids == old(kids)[p := [x] + old(kids[p])]
      ensures Subtree(x) == Sub(old(nodes), old(depth), x)
    {
      ghost var L := kids[p];
      LinkableSplicable(nodes, kids, depth, x, p, 0);
      LinkUnderFront(x, p, L);
      AttachGhost(old(nodes), old(kids), old(depth), x, p, 0);
      InsertAtFront(L, x);
    }

    /** Makes the root `x` the last child of `p` (`link_under_back`). */
    method AttachBack(x: NodeId, p: NodeId)
      requires Valid() && Linkable(nodes, kids, depth, x, p)
      modifies this
      ensures Valid()
      ensures nodes.Keys == old(nodes.Keys) && nextId == old(nextId)
      ensures kids == old(kids)[p := old(kids[p]) + [x]]
      ensures Subtree(x) == Sub(old(nodes), old(depth), x)
    {
      ghost var L := kids[p];
      LinkableSplicable(nodes, kids, depth, x, p, |L|);
      LinkUnderBack(x, p, L);
      AttachGhost(old(nodes), old(kids), old(depth), x, p, |L|);
      InsertAtEnd(L, x);
    }

    /** Makes the root `x` the sibling right before `next` (`link_before`). */
    method AttachBefore(x: NodeId, next: NodeId)
      requires Valid() && next in nodes && nodes[next].parent.Some?
      requires Linkable(nodes, kids, depth, x, nodes[next].parent.value)
      modifies this
      ensures Valid()
      ensures nodes.Keys == old(nodes.Keys) && nextId == old(nextId)
      ensures var p := old(nodes[next].parent.value);
              kids == old(kids)[p := InsertAt(old(kids[p]), IndexOf(old(kids[p]), next), x)]
      ensures ParentsKept(old(nodes), nodes, x)
      ensures Subtree(x) == Sub(old(nodes), old(depth), x)
    {
      ghost var p := nodes[next].parent.value;
      ghost var L := kids[p];
      assert next in L;
      ghost var j := IndexOf(L, next);
      LinkableSplicable(nodes, kids, depth, x, p, j);
      LinkBefore(x, next, L, j);
      InsertParents(old(nodes), L, x, p, j);
      AttachGhost(old(nodes), old(kids), old(depth), x, p, j);
    }

    /** Makes the root `x` the sibling right after `prev` (`link_after`). */
    method AttachAfter(x: NodeId, prev: NodeId)
      requires Valid() && prev in nodes && nodes[prev].parent.Some?
      requires Linkable(nodes, kids, depth, x, nodes[prev].parent.value)
      modifies this
      ensures Valid()
      ensures nodes.Keys == old(nodes.Keys) && nextId == old(nextId)
      ensures var p := old(nodes[prev].parent.value);
              kids == old(kids)[p := SpliceAfter(old(kids[p]), prev, x)]
      ensures ParentsKept(old(nodes), nodes, x)
      ensures Subtree(x) == Sub(old(nodes), old(depth), x)
    {
      ghost var p := nodes[prev].parent.value;
      ghost var L := kids[p];
      assert prev in L;
      ghost var i := IndexOf(L, prev);
      ghost var j := i + 1;
      LinkableSplicable(nodes, kids, depth, x, p, j);
      LinkAfter(x, prev, L, i);
      InsertParents(old(nodes), L, x, p, j);
      AttachGhost(old(nodes), old(kids), old(depth), x, p, j);
    }

    /**
     * `Node::unlink`: given the record `rec` that `c` had in `M`, rewrite the
     * links of its neighbours and its parent so that they skip `c`. The record
     * of `c` itself, if still present, is not touched.
     */
    method UnlinkRecord(c: NodeId, rec: Node, ghost M: map<NodeId, Node>, ghost L: seq<NodeId>, ghost i: nat,
                        ghost M1: map<NodeId, Node>)
      requires c in M && rec == M[c]
      requires nodes.Keys <= M.Keys && forall k | k in M && k != c :: k in nodes && nodes[k] == M[k]
      requires rec.parent.None? ==> rec.prevSibling.None? && rec.nextSibling.None? && M1 == M
      requires rec.parent.Some? ==> Unsplicable(M, L, c, rec.parent.value, i) &&
                                    M1 == UnlinkLinks(M, L, c, rec.parent.value, i)
      modifies this`nodes
      ensures nextId == old(nextId) && kids == old(kids) && depth == old(depth)
      ensures nodes.Keys == old(nodes.Keys)
      ensures forall k | k in nodes && k != c :: nodes[k] == M1[k]
      ensures c in nodes ==> nodes[c] == old(nodes[c])
    {
      if rec.prevSibling.Some? {
        var prev := rec.prevSibling.value;
        nodes := nodes[prev := nodes[prev].(nextSibling := rec.nextSibling)];
      }
      if rec.nextSibling.Some? {
        var next := rec.nextSibling.value;
        nodes := nodes[next := nodes[next].(prevSibling := rec.prevSibling)];
      }
      if rec.parent.Some? {
        var parent := rec.parent.value;
        if Some(c) == nodes[parent].firstChild {
          nodes := nodes[parent := nodes[parent].(firstChild := rec.nextSibling)];
        }
        if Some(c) == nodes[parent].lastChild {
          nodes := nodes[parent := nodes[parent].(lastChild := rec.prevSibling)];
        }
      }
    }

    /**
     * `Node::delete_recursive`: removes every descendant of `a` from the slot
     * map, walking the child chain that starts at `rec.firstChild` and
     * recursing into each child after removing it. `deleted` lists the removed
     * nodes in the order they were removed.
     */
    method DeleteRecursive(rec: Node, ghost a: NodeId, ghost M: map<NodeId, Node>,
                           ghost K: map<NodeId, seq<NodeId>>, ghost D: map<NodeId, nat>)
      returns (deleted: seq<NodeId>)
      requires Linked(M, K, D) && a in M && rec.firstChild == M[a].firstChild
      requires forall k | k in Sub(M, D, a) && k != a :: k in nodes && nodes[k] == M[k]
      modifies this`nodes
      ensures nextId == old(nextId) && kids == old(kids) && depth == old(depth)
      ensures Distinct(deleted) && Elems(deleted) == Sub(M, D, a) - {a}
      ensures nodes == old(nodes) - Elems(deleted)
      decreases |M| - D[a]
    {
      DeleteStart(M, K, D, a);
      ghost var L := K[a];
      var iter := rec.firstChild;
      deleted := [];
      ghost var i := 0;
      while iter.Some?
        invariant i <= |L| && iter == (if i < |L| then Some(L[i]) else None)
        invariant Distinct(deleted) && Elems(deleted) == SubsOf(M, D, L[..i])
        invariant nodes == old(nodes) - Elems(deleted)
        decreases |L| - i
      {
        var child := iter.value;
        DeleteStep(M, K, D, a, i, Elems(deleted));
        var node := nodes[child];
        nodes := nodes - {child};
        var sub := DeleteRecursive(node, child, M, K, D);
        DeleteAppend(deleted, child, sub, Elems(deleted), Sub(M, D, child));
        MinusMinus(old(nodes), Elems(deleted), {child});
        MinusMinus(old(nodes), Elems(deleted) + {child}, Elems(sub));
        deleted := deleted + [child] + sub;
        iter := node.nextSibling;
        i := i + 1;
      }
      DeleteEnd(M, K, D, a);
    }

    /**
     * The first half of `NodeId::remove`: takes the record of `id` out of the
     * slot map and unlinks it, so that the map becomes `CutLinks` without `id`.
     */
    method TakeAndUnlink(id: NodeId) returns (rec: Node)
      requires Valid() && id in nodes
      modifies this`nodes
      ensures nextId == old(nextId) && kids == old(kids) && depth == old(depth)
      ensures rec == old(nodes[id]) && Placed(old(nodes), old(kids), id)
      ensures nodes == CutLinks(old(nodes), old(kids), id) - {id}
      ensures nodes.Keys == old(nodes.Keys) - {id}
      ensures forall k | k in Sub(old(nodes), old(depth), id) && k != id :: k in nodes && nodes[k] == old(nodes[k])
    {
      ghost var L, i, D1, D2 := CutFacts(nodes, kids, depth, id);
      CutBelow(nodes, kids, depth, id);
      ghost var M1 := CutLinks(nodes, kids, id);
      rec := nodes[id];
      nodes := nodes - {id};
      UnlinkRecord(id, rec, old(nodes), L, i, M1);
      AllBut(nodes, M1, id);
    }

    /**
     * `NodeId::remove`: tells the observer the node is leaving its parent,
     * takes it out of the slot map, unlinks it and deletes its descendants,
     * which the observer hears about one by one.
     */
    method Remove(id: NodeId) returns (calls: seq<ObserverCall>, deleted: seq<NodeId>)
      requires Valid() && id in nodes
      modifies this
      ensures Valid() && nextId == old(nextId) && Placed(old(nodes), old(kids), id)
      ensures nodes == CutLinks(old(nodes), old(kids), id) - Sub(old(nodes), old(depth), id)
      ensures kids == CutKids(old(nodes), old(kids), id) - Sub(old(nodes), old(depth), id)
      ensures Distinct(deleted) && Elems(deleted) == Sub(old(nodes), old(depth), id) - {id}
      ensures calls == [RemovingFromParent(id)] + RemovedCalls(deleted)
    {
      calls := [RemovingFromParent(id)];
      ghost var M, K, D := nodes, kids, depth;
      ghost var S := Sub(M, D, id);
      ghost var M1 := CutLinks(M, K, id);
      ghost var D2 := CutRest(M, K, D, id);
      var rec := TakeAndUnlink(id);
      deleted := DeleteRecursive(rec, id, M, K, D);
      MinusRoot(M1, id, S);
      calls := calls + RemovedCalls(deleted);
      kids, depth := CutKids(M, K, id) - S, D2;
    }

    /**
     * Unlinks `x` (`Node::unlink` on its own record) and clears its parent
     * and sibling links, so that the slot map becomes `CutLinks`.
     */
    method CutOut(x: NodeId, ghost L: seq<NodeId>, ghost i: nat)
      requires x in nodes && Placed(nodes, kids, x)
      requires nodes[x].parent.None? ==> nodes[x].prevSibling.None? && nodes[x].nextSibling.None?
      requires nodes[x].parent.Some? ==>
                 var p := nodes[x].parent.value;
                 && L == kids[p] && i == IndexOf(L, x) && Unsplicable(nodes, L, x, p, i)
      requires CutLinks(nodes, kids, x).Keys == nodes.Keys
      requires CutLinks(nodes, kids, x)[x] == nodes[x].(parent := None, prevSibling := None, nextSibling := None)
      modifies this`nodes
      ensures nextId == old(nextId) && kids == old(kids) && depth == old(depth)
      ensures nodes == CutLinks(old(nodes), old(kids), x)
    {
      ghost var M1 := CutLinks(nodes, kids, x);
      var rec := nodes[x];
      var root := rec.(parent := None, prevSibling := None, nextSibling := None);
      UnlinkRecord(x, rec, nodes, L, i, M1);
      nodes := nodes[x := root];
      Rejoin(nodes, M1, x);
    }

    /**
     * Unlinks `x` from its parent and siblings and leaves it in the slot map
     * as a root with its subtree below it: the `detach` of the tree API that
     * crates/swell/src/model/layout_tree.rs calls, which is `NodeId::remove`
     * without the deletion.
     */
    method Detach(x: NodeId)
      requires Valid() && x in nodes
      modifies this
      ensures Valid() && nextId == old(nextId) && Placed(old(nodes), old(kids), x)
      ensures nodes == CutLinks(old(nodes), old(kids), x)
      ensures kids == CutKids(old(nodes), old(kids), x)
      ensures Subtree(x) == Sub(old(nodes), old(depth), x)
    {
      ghost var L, i := CutPrep(nodes, kids, depth, x);
      CutOut(x, L, i);
      DetachGhost(old(nodes), old(kids), old(depth), x);
    }

    /**
     * Brings the ghost state up to date once `c` has been cut out of the
     * valid forest `m`, `k`, `d`: the ordered children become `CutKids` and
     * the depths those under which `c` is a root.
     */
    ghost method DetachGhost(m: map<NodeId, Node>, k: map<NodeId, seq<NodeId>>, d: map<NodeId, nat>, c: NodeId)
      requires Linked(m, k, d) && c in m && (forall n | n in m :: n < nextId)
      requires Placed(m, k, c) && nodes == CutLinks(m, k, c)
      modifies this`kids, this`depth
      ensures Valid() && kids == CutKids(m, k, c) && Subtree(c) == Sub(m, d, c)
    {
      kids := CutKids(m, k, c);
      depth := CutDepth(m, k, d, c);
    }

    /**
     * Brings the ghost state up to date once the fresh key `x` has been
     * linked in as the `j`-th child of `p` of the valid forest `m`, `k`, `d`.
     */
    ghost method PushGhost(m: map<NodeId, Node>, k: map<NodeId, seq<NodeId>>, d: map<NodeId, nat>,
                           x: NodeId, p: NodeId, j: nat)
      requires Linked(m, k, d) && (forall n | n in m :: n < x) && p in m && j <= |k[p]|
      requires nodes == InsertLinks(m[x := Unlinked], k[p], x, p, j) && nextId == x + 1
      modifies this`kids, this`depth
      ensures Valid() && nodes.Keys == m.Keys + {x} && kids == k[x := []][p := InsertAt(k[p], j, x)]
    {
      kids, depth := k[x := []][p := InsertAt(k[p], j, x)], d[x := d[p] + 1];
      PushValid(m, k, d, x, p, j);
    }

    lemma PushValid(m: map<NodeId, Node>, k: map<NodeId, seq<NodeId>>, d: map<NodeId, nat>,
                    x: NodeId, p: NodeId, j: nat)
      requires Linked(m, k, d) && (forall n | n in m :: n < x) && p in m && j <= |k[p]|
      requires nodes == InsertLinks(m[x := Unlinked], k[p], x, p, j) && nextId == x + 1
      requires kids == k[x := []][p := InsertAt(k[p], j, x)] && depth == d[x := d[p] + 1]
      ensures Valid() && nodes.Keys == m.Keys + {x}
    {
      PushFacts(m, k, d, x, p, j);
    }

    /** `NodeId::push_back`: a fresh node becomes the last child of `p`. */
    method PushBack(p: NodeId) returns (node: NodeId, calls: seq<ObserverCall>)
      requires Valid() && p in nodes
      modifies this
      ensures Valid() && nextId > old(nextId)
      ensures node == old(nextId) && node !in old(nodes) && nodes.Keys == old(nodes.Keys) + {node}
      ensures kids == old(kids)[node := []][p := old(kids[p]) + [node]]
      ensures calls == [AddedToForest(node), AddedToParent(node)]
    {
      ghost var L := kids[p];
      ghost var j := |L|;
      PushSplicable(nodes, kids, depth, nextId, p, j);
      node := nextId;
      nodes, nextId := nodes[node := Unlinked], nextId + 1;
      LinkUnderBack(node, p, L);
      PushGhost(old(nodes), old(kids), old(depth), node, p, j);
      InsertAtEnd(L, node);
      calls := [AddedToForest(node), AddedToParent(node)];
    }

    /** `NodeId::push_front`: a fresh node becomes the first child of `p`. */
    method PushFront(p: NodeId) returns (node: NodeId, calls: seq<ObserverCall>)
      requires Valid() && p in nodes
      modifies this
      ensures Valid() && nextId > old(nextId)
      ensures node == old(nextId) && node !in old(nodes) && nodes.Keys == old(nodes.Keys) + {node}
      ensures kids == old(kids)[node := []][p := [node] + old(kids[p])]
      ensures calls == [AddedToForest(node), AddedToParent(node)]
    {
      ghost var L := kids[p];
      ghost var j := 0;
      PushSplicable(nodes, kids, depth, nextId, p, j);
      node := nextId;
      nodes, nextId := nodes[node := Unlinked], nextId + 1;
      LinkUnderFront(node, p, L);
      PushGhost(old(nodes), old(kids), old(depth), node, p, j);
      InsertAtFront(L, node);
      calls := [AddedToForest(node), AddedToParent(node)];
    }

    /**
     * `NodeId::insert_before`: a fresh node becomes the sibling right before
     * `next`. The source panics when `next` is a root.
     */
    method InsertBefore(next: NodeId) returns (node: NodeId, calls: seq<ObserverCall>)
      requires Valid() && next in nodes && nodes[next].parent.Some?
      modifies this
      ensures Valid() && nextId > old(nextId)
      ensures node == old(nextId) && node !in old(nodes) && nodes.Keys == old(nodes.Keys) + {node}
      ensures var p := old(nodes[next].parent.value);
              kids == old(kids)[node := []][p := InsertAt(old(kids[p]), IndexOf(old(kids[p]), next), node)]
      ensures calls == [AddedToForest(node), AddedToParent(node)]
    {
      ghost var p := nodes[next].parent.value;
      ghost var L := kids[p];
      assert next in L;
      ghost var j := IndexOf(L, next);
      PushSplicable(nodes, kids, depth, nextId, p, j);
      node := nextId;
      nodes, nextId := nodes[node := Unlinked], nextId + 1;
      LinkBefore(node, next, L, j);
      PushGhost(old(nodes), old(kids), old(depth), node, p, j);
      calls := [AddedToForest(node), AddedToParent(node)];
    }

    /**
     * `NodeId::insert_after`: a fresh node becomes the sibling right after
     * `prev`. The source panics when `prev` is a root.
     */
    method InsertAfter(prev: NodeId) returns (node: NodeId, calls: seq<ObserverCall>)
      requires Valid() && prev in nodes && nodes[prev].parent.Some?
      modifies this
      ensures Valid() && nextId > old(nextId)
      ensures node == old(nextId) && node !in old(nodes) && nodes.Keys == old(nodes.Keys) + {node}
      ensures var p := old(nodes[prev].parent.value);
              kids == old(kids)[node := []][p := SpliceAfter(old(kids[p]), prev, node)]
      ensures calls == [AddedToForest(node), AddedToParent(node)]
    {
      ghost var p := nodes[prev].parent.value;
      ghost var L := kids[p];
      assert prev in L;
      ghost var i := IndexOf(L, prev);
      ghost var j := i + 1;
      PushSplicable(nodes, kids, depth, nextId, p, j);
      node := nextId;
      nodes, nextId := nodes[node := Unlinked], nextId + 1;
      LinkAfter(node, prev, L, i);
      PushGhost(old(nodes), old(kids), old(depth), node, p, j);
      assert kids == old(kids)[node := []][p := InsertAt(L, j, node)];
      calls := [AddedToForest(node), AddedToParent(node)];
    }

    /** `NodeId::children`: follows `next_sibling` links from the first child of `n`. */
    method Children(n: NodeId) returns (r: seq<NodeId>)
      requires Valid() && n in nodes
      ensures r == kids[n]
      ensures forall c | c in r :: c in nodes && nodes[c].parent == Some(n)
    {
      ghost var L := kids[n];
      var cur := nodes[n].firstChild;
      r := [];
      while cur.Some?
        invariant |r| <= |L| && r == L[..|r|]
        invariant cur == if |r| < |L| then Some(L[|r|]) else None
        decreases |L| - |r|
      {
        var c := cur.value;
        assert ChildLinked(nodes, kids, n, |r|);
        cur := nodes[c].nextSibling;
        r := r + [c];
      }
      forall i | 0 <= i < |r|
        ensures r[i] in nodes && nodes[r[i]].parent == Some(n)
      {
        assert ChildLinked(nodes, kids, n, i);
      }
    }

    /** `NodeId::children_rev`: follows `prev_sibling` links from the last child of `n`. */
    method ChildrenRev(n: NodeId) returns (r: seq<NodeId>)
      requires Valid() && n in nodes
      ensures r == Reverse(kids[n])
    {
      ghost var L := kids[n];
      var cur := nodes[n].lastChild;
      r := [];
      while cur.Some?
        invariant |r| <= |L| && forall i | 0 <= i < |r| :: r[i] == L[|L| - 1 - i]
        invariant cur == if |r| < |L| then Some(L[|L| - 1 - |r|]) else None
        decreases |L| - |r|
      {
        var c := cur.value;
        assert ChildLinked(nodes, kids, n, |L| - 1 - |r|);
        cur := nodes[c].prevSibling;
        r := r + [c];
      }
    }
  }

  /**
   * `OwnedNode`: a handle on a node that must be removed explicitly. `id`
   * becomes `None` once the node has been removed through the handle.
   */
  class OwnedNode {
    var id: Option<NodeId>
    const name: string

    /** `OwnedNode::own`: takes ownership of an existing node. */
    constructor Own(node: NodeId, name: string)
      ensures id == Some(node) && this.name == name && DropPanics()
    {
      id := Some(node);
      this.name := name;
    }

    /** `OwnedNode::new_root_in`: a fresh root, announced to the observer. */
    static method NewRootIn(forest: Forest, name: string) returns (o: OwnedNode, calls: seq<ObserverCall>)
      requires forest.Valid()
      modifies forest
      ensures fresh(o) && forest.Valid() && o.id.Some? && o.DropPanics()
      ensures o.id.value !in old(forest.nodes) && forest.nodes == old(forest.nodes)[o.id.value := Unlinked]
      ensures forest.kids == old(forest.kids)[o.id.value := []]
      ensures calls == [AddedToForest(o.id.value)]
    {
      var node := forest.NewRoot();
      calls := [AddedToForest(node)];
      o := new OwnedNode.Own(node, name);
    }

    /** Dropping the handle panics exactly while it still owns a node. */
    predicate DropPanics()
      reads this
    {
      id.Some?
    }

    /**
     * `OwnedNode::remove`: removes the owned node and its subtree. The source
     * panics when the node was already removed.
     */
    method Remove(forest: Forest) returns (calls: seq<ObserverCall>, deleted: seq<NodeId>)
      requires forest.Valid() && id.Some? && id.value in forest.nodes
      modifies this, forest
      ensures id.None? && !DropPanics()
      ensures forest.Valid() && forest.nextId == old(forest.nextId)
      ensures Placed(old(forest.nodes), old(forest.kids), old(id.value))
      ensures forest.nodes == CutLinks(old(forest.nodes), old(forest.kids), old(id.value)) -
                              Sub(old(forest.nodes), old(forest.depth), old(id.value))
      ensures forest.kids == CutKids(old(forest.nodes), old(forest.kids), old(id.value)) -
                             Sub(old(forest.nodes), old(forest.depth), old(id.value))
      ensures Distinct(deleted) && Elems(deleted) == Sub(old(forest.nodes), old(forest.depth), old(id.value)) - {old(id.value)}
      ensures calls == [RemovingFromParent(old(id.value))] + RemovedCalls(deleted)
    {
      var node := id.value;
      id := None;
      calls, deleted := forest.Remove(node);
    }
  }
}