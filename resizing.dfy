/**
 * The resize rules of crates/swell/src/model/layout_tree.rs (`resize` and
 * `set_frame_from_resize`) on the values of the forest and the layout
 * records: which node gives way, how much of its parent's total it takes
 * from the sibling in the direction of the resize, and the resizes a change
 * of frame asks for.
 */
module Resizing {
  import opened Types
  import opened ForestLinks
  import opened Layouts
  import opened Navigation

  /**
   * `can_resize`, together with the sibling it finds: the node can resize
   * when it has a parent that is not a group and `move_over` finds a sibling.
   */
  function ResizeSibling(m: map<NodeId, Node>, info: InfoMap, n: NodeId, dir: Direction): Option<NodeId>
    requires n in m && m.Keys <= info.Keys
    requires m[n].parent.Some? ==> m[n].parent.value in m
  {
    match m[n].parent
    case None => None
    case Some(p) => if IsGroup(info[p].kind) then None else MoveOver(m, info, n, dir)
  }

  /** The first ancestor of `n`, `n` included, that can resize in the direction. */
  function ResizeTarget(m: map<NodeId, Node>, ghost depth: map<NodeId, nat>, info: InfoMap, n: NodeId, dir: Direction)
    : (r: Option<NodeId>)
    requires Ranked(m, depth) && m.Keys <= info.Keys && n in m
    ensures r.Some? ==> r.value in m && ResizeSibling(m, info, r.value, dir).Some?
    decreases depth[n]
  {
    if ResizeSibling(m, info, n, dir).Some? then Some(n)
    else
      match m[n].parent
      case None => None
      case Some(p) => ResizeTarget(m, depth, info, p, dir)
  }

  /** `resize` finds no node to resize exactly when no ancestor of `n`, `n` included, can resize. */
  lemma {:induction false} ResizeTargetNone(m: map<NodeId, Node>, depth: map<NodeId, nat>, info: InfoMap,
                                            n: NodeId, dir: Direction)
    requires Ranked(m, depth) && m.Keys <= info.Keys && n in m
    ensures ResizeTarget(m, depth, info, n, dir).None? <==>
              forall x | x in Ancestors(m, depth, n) :: ResizeSibling(m, info, x, dir).None?
    decreases depth[n]
  {
    if ResizeSibling(m, info, n, dir).None? && m[n].parent.Some? {
      var p := m[n].parent.value;
      ResizeTargetNone(m, depth, info, p, dir);
      assert Ancestors(m, depth, n) == [n] + Ancestors(m, depth, p);
    }
  }

  /** The node `resize` picks is the first of the ancestors of `n`, `n` included, that can resize. */
  lemma {:induction false} ResizeTargetFirst(m: map<NodeId, Node>, depth: map<NodeId, nat>, info: InfoMap,
                                             n: NodeId, dir: Direction)
    requires Ranked(m, depth) && m.Keys <= info.Keys && n in m
    ensures ResizeTarget(m, depth, info, n, dir).Some? ==>
              exists i | 0 <= i < |Ancestors(m, depth, n)| ::
                && Ancestors(m, depth, n)[i] == ResizeTarget(m, depth, info, n, dir).value
                && forall x | x in Ancestors(m, depth, n)[..i] :: ResizeSibling(m, info, x, dir).None?
    decreases depth[n]
  {
    var a := Ancestors(m, depth, n);
    var r := ResizeTarget(m, depth, info, n, dir);
    if ResizeSibling(m, info, n, dir).Some? {
      assert a[0] == r.value && a[..0] == [];
    } else if r.Some? {
      var p := m[n].parent.value;
      ResizeTargetFirst(m, depth, info, p, dir);
      var b := Ancestors(m, depth, p);
      assert a == [n] + b;
      var i :| 0 <= i < |b| && b[i] == r.value && forall x | x in b[..i] :: ResizeSibling(m, info, x, dir).None?;
      ConsPrefix(n, b, i);
    }
  }

  /**
   * The exchange rate of `resize`, taken over `n` and its ancestors: the
   * product of the proportions of those whose parent is laid out along the
   * direction and is not a group.
   */
  function ExchangeRate(m: map<NodeId, Node>, ghost depth: map<NodeId, nat>, info: InfoMap, n: NodeId, dir: Direction)
    : real
    requires Ranked(m, depth) && m.Keys <= info.Keys && n in m
    decreases depth[n]
  {
    match m[n].parent
    case None => 1.0
    case Some(p) =>
      var k := info[p].kind;
      var here := if KindOrientation(k) == DirOrientation(dir) && !IsGroup(k) then Ratio(info[n].size, info[p].total) else 1.0;
      ExchangeRate(m, depth, info, p, dir) * here
  }

  /**
   * The share of `resize`: the screen ratio times the total of the parent
   * `p`, over the exchange rate from `p` up.
   */
  function LocalShare(m: map<NodeId, Node>, ghost depth: map<NodeId, nat>, info: InfoMap, p: NodeId, screenRatio: real,
                      dir: Direction): real
    requires Ranked(m, depth) && m.Keys <= info.Keys && p in m
  {
    Ratio(screenRatio * info[p].total, ExchangeRate(m, depth, info, p, dir))
  }

  /**
   * The records after `resize(node, screen_ratio, dir)`: unchanged when no
   * ancestor can resize; otherwise the node picked takes from its sibling in
   * the direction the screen ratio converted into a share of its parent's
   * total.
   */
  function ResizeInfo(m: map<NodeId, Node>, ghost kids: map<NodeId, seq<NodeId>>, ghost depth: map<NodeId, nat>,
                      info: InfoMap, node: NodeId, screenRatio: real, dir: Direction): InfoMap
    requires Linked(m, kids, depth) && m.Keys <= info.Keys && node in m
  {
    match ResizeTarget(m, depth, info, node, dir)
    case None => info
    case Some(t) =>
      var s := MoveOver(m, info, t, dir).value;
      var p := m[t].parent.value;
      SiblingInForest(m, kids, depth, info, t, dir);
      Shared(info, t, s, LocalShare(m, depth, info, p, screenRatio, dir))
  }

  /** When `resize` finds a node to resize, it takes the share from that node's sibling. */
  lemma ResizeInfoShared(m: map<NodeId, Node>, kids: map<NodeId, seq<NodeId>>, depth: map<NodeId, nat>,
                         info: InfoMap, node: NodeId, screenRatio: real, dir: Direction, t: NodeId, s: NodeId, p: NodeId)
    requires Linked(m, kids, depth) && m.Keys <= info.Keys && node in m
    requires ResizeTarget(m, depth, info, node, dir) == Some(t)
    requires t in m && MoveOver(m, info, t, dir) == Some(s) && m[t].parent == Some(p)
    ensures t in info && s in info && p in info
    ensures ResizeInfo(m, kids, depth, info, node, screenRatio, dir) ==
              Shared(info, t, s, LocalShare(m, depth, info, p, screenRatio, dir))
  {
    SiblingInForest(m, kids, depth, info, t, dir);
  }

  /** The sibling `move_over` finds is a different child of the same parent. */
  lemma SiblingInForest(m: map<NodeId, Node>, kids: map<NodeId, seq<NodeId>>, depth: map<NodeId, nat>,
                        info: InfoMap, t: NodeId, dir: Direction)
    requires Linked(m, kids, depth) && m.Keys <= info.Keys && t in m && MoveOver(m, info, t, dir).Some?
    ensures var s := MoveOver(m, info, t, dir).value;
            var p := m[t].parent.value;
            && m[t].parent.Some? && s in m && s != t && m[s].parent == m[t].parent
            && s in kids[p] && t in kids[p] && Distinct(kids[p]) && p !in kids[p]
  {
    var s := MoveOver(m, info, t, dir).value;
    MoveOverSibling(m, kids, depth, info, t, dir, s);
    var p := m[t].parent.value;
    KidStep(m, kids, depth, p, s);
    KidsDistinct(m, kids, depth, p);
    var i := IndexOf(kids[p], t);
    if p in kids[p] {
      KidStep(m, kids, depth, p, p);
    }
  }

  /**
   * `resize` moves size only between the node it picks and that node's
   * sibling: their sum stays and every other record stays.
   */
  lemma ResizeMovesShare(m: map<NodeId, Node>, kids: map<NodeId, seq<NodeId>>, depth: map<NodeId, nat>,
                         info: InfoMap, node: NodeId, screenRatio: real, dir: Direction)
    requires Linked(m, kids, depth) && m.Keys <= info.Keys && node in m
    ensures var r := ResizeInfo(m, kids, depth, info, node, screenRatio, dir);
            && r.Keys == info.Keys
            && (ResizeTarget(m, depth, info, node, dir).None? ==> r == info)
            && (ResizeTarget(m, depth, info, node, dir).Some? ==>
                  var t := ResizeTarget(m, depth, info, node, dir).value;
                  var s := MoveOver(m, info, t, dir).value;
                  && s in m && m[s].parent == m[t].parent && s != t
                  && r[t].size + r[s].size == info[t].size + info[s].size
                  && r[t].total == info[t].total && r[s].total == info[s].total
                  && (forall k | k in info && k != t && k != s :: r[k] == info[k]))
  {
    var target := ResizeTarget(m, depth, info, node, dir);
    if target.Some? {
      var t := target.value;
      var s := MoveOver(m, info, t, dir).value;
      var p := m[t].parent.value;
      SiblingInForest(m, kids, depth, info, t, dir);
      ShareKeepsSum(info, t, s, LocalShare(m, depth, info, p, screenRatio, dir));
    }
  }

  /** `resize` changes sizes only, and so keeps the last ungrouped kinds free of groups. */
  lemma ResizeSizesOnly(m: map<NodeId, Node>, kids: map<NodeId, seq<NodeId>>, depth: map<NodeId, nat>,
                        info: InfoMap, node: NodeId, screenRatio: real, dir: Direction)
    requires Linked(m, kids, depth) && m.Keys <= info.Keys && node in m
    ensures SizesOnly(info, ResizeInfo(m, kids, depth, info, node, screenRatio, dir))
    ensures UngroupedIn(info) ==> UngroupedIn(ResizeInfo(m, kids, depth, info, node, screenRatio, dir))
  {
    var target := ResizeTarget(m, depth, info, node, dir);
    if target.Some? {
      var t := target.value;
      var s := MoveOver(m, info, t, dir).value;
      var p := m[t].parent.value;
      SiblingInForest(m, kids, depth, info, t, dir);
      SharedSizesOnly(info, t, s, LocalShare(m, depth, info, p, screenRatio, dir));
    }
  }

  /** A container whose total was the sum of its children's sizes still is after `resize`. */
  lemma ResizeKeepsBalanced(m: map<NodeId, Node>, kids: map<NodeId, seq<NodeId>>, depth: map<NodeId, nat>,
                            info: InfoMap, node: NodeId, screenRatio: real, dir: Direction, q: NodeId)
    requires Linked(m, kids, depth) && m.Keys <= info.Keys && node in m && q in m && Balanced(info, kids, q)
    ensures Balanced(ResizeInfo(m, kids, depth, info, node, screenRatio, dir), kids, q)
  {
    var target := ResizeTarget(m, depth, info, node, dir);
    var r := ResizeInfo(m, kids, depth, info, node, screenRatio, dir);
    ResizeMovesShare(m, kids, depth, info, node, screenRatio, dir);
    if target.Some? {
      var t := target.value;
      var s := MoveOver(m, info, t, dir).value;
      var p := m[t].parent.value;
      SiblingInForest(m, kids, depth, info, t, dir);
      if q == p {
        assert r[p] == info[p];
        SumShare(info, r, kids[p], t, s);
      } else {
        OthersKeepBalance(m, kids, depth, info, r, q, t, s);
      }
    }
  }

  /** `resize` keeps every container of a balanced forest balanced. */
  lemma ResizeAllBalanced(m: map<NodeId, Node>, kids: map<NodeId, seq<NodeId>>, depth: map<NodeId, nat>,
                          info: InfoMap, node: NodeId, screenRatio: real, dir: Direction)
    requires Linked(m, kids, depth) && m.Keys <= info.Keys && node in m && AllBalanced(info, kids)
    ensures AllBalanced(ResizeInfo(m, kids, depth, info, node, screenRatio, dir), kids)
  {
    forall q | q in kids
      ensures Balanced(ResizeInfo(m, kids, depth, info, node, screenRatio, dir), kids, q)
    {
      ResizeKeepsBalanced(m, kids, depth, info, node, screenRatio, dir, q);
    }
  }

  /** A parent other than that of `t` and `s` keeps its total, and its children keep their sizes. */
  lemma OthersKeepBalance(m: map<NodeId, Node>, kids: map<NodeId, seq<NodeId>>, depth: map<NodeId, nat>,
                          info: InfoMap, r: InfoMap, q: NodeId, t: NodeId, s: NodeId)
    requires Linked(m, kids, depth) && q in m && t in m && s in m
    requires m[t].parent.Some? && m[s].parent == m[t].parent && q != m[t].parent.value
    requires r.Keys == info.Keys && forall k | k in info && k != t && k != s :: r[k] == info[k]
    requires q in info && r[q].total == info[q].total && Balanced(info, kids, q)
    ensures Balanced(r, kids, q)
  {
    forall c | c in kids[q]
      ensures c != t && c != s
    {
      KidStep(m, kids, depth, q, c);
    }
    SumSame(info, r, kids[q]);
  }

  /** The amount an edge moved: positive when it moved outwards. */
  datatype Edges = Edges(left: real, right: real, up: real, down: real)

  /** How far each edge moved from `before` to `after`; a growing frame moves its edges outwards. */
  function EdgeDeltas(before: Rect, after: Rect): (e: Edges)
    ensures e.left + e.right == after.w - before.w && e.up + e.down == after.h - before.h
  {
    Edges(before.x - after.x, (after.x + after.w) - (before.x + before.w), before.y - after.y, (after.y + after.h) - (before.y + before.h))
  }

  /** The number of edges that moved, which the source allows to be at most two. */
  function MovedEdges(e: Edges): nat
  {
    (if e.left != 0.0 then 1 else 0) + (if e.right != 0.0 then 1 else 0)
    + (if e.up != 0.0 then 1 else 0) + (if e.down != 0.0 then 1 else 0)
  }

  /** One step of `set_frame_from_resize`: resizes by the edge's move over the screen's extent, if it moved. */
  function EdgeStep(m: map<NodeId, Node>, ghost kids: map<NodeId, seq<NodeId>>, ghost depth: map<NodeId, nat>,
                    info: InfoMap, node: NodeId, delta: real, whole: real, dir: Direction): (r: InfoMap)
    requires Linked(m, kids, depth) && m.Keys <= info.Keys && node in m
    ensures r.Keys == info.Keys
  {
    ResizeMovesShare(m, kids, depth, info, node, Ratio(delta, whole), dir);
    if delta != 0.0 then ResizeInfo(m, kids, depth, info, node, Ratio(delta, whole), dir) else info
  }

  /** The records after `set_frame_from_resize`: the left, right, top and bottom edge in turn. */
  function FrameInfo(m: map<NodeId, Node>, ghost kids: map<NodeId, seq<NodeId>>, ghost depth: map<NodeId, nat>,
                     info: InfoMap, node: NodeId, before: Rect, after: Rect, screen: Rect): InfoMap
    requires Linked(m, kids, depth) && m.Keys <= info.Keys && node in m
  {
    var e := EdgeDeltas(before, after);
    var i1 := EdgeStep(m, kids, depth, info, node, e.left, screen.w, Left);
    var i2 := EdgeStep(m, kids, depth, i1, node, e.right, screen.w, Right);
    var i3 := EdgeStep(m, kids, depth, i2, node, e.up, screen.h, Up);
    EdgeStep(m, kids, depth, i3, node, e.down, screen.h, Down)
  }

  /**
   * A frame whose only change is its right edge resizes once, to the right,
   * by the move of that edge over the screen width; an unchanged frame
   * changes nothing.
   */
  lemma FrameRightEdge(m: map<NodeId, Node>, kids: map<NodeId, seq<NodeId>>, depth: map<NodeId, nat>,
                       info: InfoMap, node: NodeId, before: Rect, after: Rect, screen: Rect)
    requires Linked(m, kids, depth) && m.Keys <= info.Keys && node in m
    requires after.x == before.x && after.y == before.y && after.h == before.h
    ensures MovedEdges(EdgeDeltas(before, after)) <= 1
    ensures FrameInfo(m, kids, depth, info, node, before, after, screen) ==
              if after.w == before.w then info
              else ResizeInfo(m, kids, depth, info, node, Ratio(after.w - before.w, screen.w), Right)
  {
    var e := EdgeDeltas(before, after);
    assert e.left == 0.0 && e.up == 0.0 && e.down == 0.0;
    assert e.right == after.w - before.w;
  }

  /**
   * `set_frame_from_resize` changes sizes only, and every container whose
   * total was the sum of its children's sizes still is afterwards.
   */
  lemma FrameKeepsBalanced(m: map<NodeId, Node>, kids: map<NodeId, seq<NodeId>>, depth: map<NodeId, nat>,
                           info: InfoMap, node: NodeId, before: Rect, after: Rect, screen: Rect, q: NodeId)
    requires Linked(m, kids, depth) && m.Keys <= info.Keys && node in m && q in m
    ensures SizesOnly(info, FrameInfo(m, kids, depth, info, node, before, after, screen))
    ensures Balanced(info, kids, q) ==> Balanced(FrameInfo(m, kids, depth, info, node, before, after, screen), kids, q)
  {
    var e := EdgeDeltas(before, after);
    var i1 := EdgeStep(m, kids, depth, info, node, e.left, screen.w, Left);
    var i2 := EdgeStep(m, kids, depth, i1, node, e.right, screen.w, Right);
    var i3 := EdgeStep(m, kids, depth, i2, node, e.up, screen.h, Up);
    var i4 := EdgeStep(m, kids, depth, i3, node, e.down, screen.h, Down);
    EdgeStepKeeps(m, kids, depth, info, node, e.left, screen.w, Left, q);
    EdgeStepKeeps(m, kids, depth, i1, node, e.right, screen.w, Right, q);
    EdgeStepKeeps(m, kids, depth, i2, node, e.up, screen.h, Up, q);
    EdgeStepKeeps(m, kids, depth, i3, node, e.down, screen.h, Down, q);
  }

  lemma EdgeStepKeeps(m: map<NodeId, Node>, kids: map<NodeId, seq<NodeId>>, depth: map<NodeId, nat>,
                      info: InfoMap, node: NodeId, delta: real, whole: real, dir: Direction, q: NodeId)
    requires Linked(m, kids, depth) && m.Keys <= info.Keys && node in m && q in m
    ensures SizesOnly(info, EdgeStep(m, kids, depth, info, node, delta, whole, dir))
    ensures Balanced(info, kids, q) ==> Balanced(EdgeStep(m, kids, depth, info, node, delta, whole, dir), kids, q)
  {
    ResizeSizesOnly(m, kids, depth, info, node, Ratio(delta, whole), dir);
    if Balanced(info, kids, q) {
      ResizeKeepsBalanced(m, kids, depth, info, node, Ratio(delta, whole), dir, q);
    }
  }
}
