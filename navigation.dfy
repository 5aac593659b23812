/**
 * Directional focus search of crates/swell/src/model/layout_tree.rs
 * (`traverse` and `move_over`): climb until a sibling lies in the direction
 * of travel, step onto it, then descend, keeping close to the side the
 * search came from.
 */
module Navigation {
  import opened Types
  import opened ForestLinks
  import opened Selections
  import opened Layouts

  /** Up and Left look towards the start of a child list. */
  predicate Backward(dir: Direction)
  {
    dir.Up? || dir.Left?
  }

  /**
   * `move_over`: the sibling of `from` on the side of `dir`, when the parent
   * of `from` is laid out along the orientation of `dir`.
   */
  function MoveOver(m: map<NodeId, Node>, info: InfoMap, from: NodeId, dir: Direction): Option<NodeId>
    requires from in m && m.Keys <= info.Keys
    requires m[from].parent.Some? ==> m[from].parent.value in m
  {
    match m[from].parent
    case None => None
    case Some(p) =>
      if KindOrientation(info[p].kind) != DirOrientation(dir) then None
      else if Backward(dir) then m[from].prevSibling
      else m[from].nextSibling
  }

  /**
   * In a valid forest, `move_over` yields `s` exactly when the parent of
   * `from` is laid out along `dir` and `s` is the child next to `from` on
   * that side of the parent's child list.
   */
  lemma MoveOverSibling(m: map<NodeId, Node>, kids: map<NodeId, seq<NodeId>>, depth: map<NodeId, nat>,
                        info: InfoMap, from: NodeId, dir: Direction, s: NodeId)
    requires Linked(m, kids, depth) && m.Keys <= info.Keys && from in m
    ensures MoveOver(m, info, from, dir) == Some(s) <==>
              && m[from].parent.Some?
              && var p := m[from].parent.value;
                 var i := IndexOf(kids[p], from);
                 && from in kids[p]
                 && KindOrientation(info[p].kind) == DirOrientation(dir)
                 && (if Backward(dir) then 0 < i && kids[p][i - 1] == s else i + 1 < |kids[p]| && kids[p][i + 1] == s)
  {
    if m[from].parent.Some? {
      var p := m[from].parent.value;
      assert ChildLinked(m, kids, p, IndexOf(kids[p], from));
    }
  }

  /**
   * One step of the descent of `traverse`: into a container laid out along
   * `dir`, the child nearest the side the search came from; into any other
   * node, its local selection, else its first child.
   */
  function DescendStep(m: map<NodeId, Node>, info: InfoMap, sel: SelectionMap, node: NodeId, dir: Direction): Option<NodeId>
    requires node in m && m.Keys <= info.Keys
  {
    if KindOrientation(info[node].kind) == DirOrientation(dir) then
      if Backward(dir) then m[node].lastChild else m[node].firstChild
    else SelectedOrFirst(m, sel, node)
  }

  /** The local selection of `node`, else its first child (`local_selection(..).or(first_child(..))`). */
  function SelectedOrFirst(m: map<NodeId, Node>, sel: SelectionMap, node: NodeId): Option<NodeId>
    requires node in m
  {
    match LocalOf(sel, node)
    case Some(c) => Some(c)
    case None => m[node].firstChild
  }

  /** It is a child one level down, and there is none exactly at a leaf. */
  lemma SelectedOrFirstChild(m: map<NodeId, Node>, kids: map<NodeId, seq<NodeId>>, depth: map<NodeId, nat>,
                             sel: SelectionMap, node: NodeId)
    requires Linked(m, kids, depth) && Coherent(sel, kids) && node in m
    ensures var r := SelectedOrFirst(m, sel, node);
            && (r.None? <==> kids[node] == [])
            && (r.Some? ==> r.value in kids[node] && r.value in m && m[r.value].parent == Some(node)
                            && depth[r.value] == depth[node] + 1 && depth[r.value] < |m|)
            && (r.Some? ==> r == Some(if LocalOf(sel, node).Some? then LocalOf(sel, node).value else kids[node][0]))
  {
    var r := SelectedOrFirst(m, sel, node);
    if r.Some? {
      if LocalOf(sel, node).Some? {
        LocalOfIsChild(sel, m, kids, depth, node);
      } else {
        KidStep(m, kids, depth, node, r.value);
      }
    }
  }

  /**
   * The descent step in terms of the child list: it stops exactly at a
   * leaf; in a container laid out along `dir` it takes the last child for Up
   * and Left and the first for Down and Right; elsewhere the local selection,
   * else the first child.
   */
  lemma DescendStepChild(m: map<NodeId, Node>, kids: map<NodeId, seq<NodeId>>, depth: map<NodeId, nat>,
                         info: InfoMap, sel: SelectionMap, node: NodeId, dir: Direction)
    requires Linked(m, kids, depth) && Coherent(sel, kids) && m.Keys <= info.Keys && node in m
    ensures var r := DescendStep(m, info, sel, node, dir);
            var L := kids[node];
            && (r.None? <==> L == [])
            && (r.Some? ==> r.value in L && r.value in m && depth[r.value] == depth[node] + 1 && depth[r.value] < |m|)
            && (L != [] && KindOrientation(info[node].kind) == DirOrientation(dir) ==>
                  r == Some(if Backward(dir) then L[|L| - 1] else L[0]))
            && (L != [] && KindOrientation(info[node].kind) != DirOrientation(dir) ==>
                  r == Some(if LocalOf(sel, node).Some? then LocalOf(sel, node).value else L[0]))
  {
    var r := DescendStep(m, info, sel, node, dir);
    if r.Some? {
      KidStep(m, kids, depth, node, r.value);
    }
  }

  /** The end of the descent of `traverse` from `node` (`iter::successors(..).last()`). */
  function Descend(m: map<NodeId, Node>, ghost kids: map<NodeId, seq<NodeId>>, ghost depth: map<NodeId, nat>,
                   info: InfoMap, sel: SelectionMap, node: NodeId, dir: Direction): NodeId
    requires Linked(m, kids, depth) && Coherent(sel, kids) && m.Keys <= info.Keys && node in m
    decreases |m| - depth[node]
  {
    DescendStepChild(m, kids, depth, info, sel, node, dir);
    match DescendStep(m, info, sel, node, dir)
    case None => node
    case Some(c) => Descend(m, kids, depth, info, sel, c, dir)
  }

  /** The descent ends at a leaf at or below where it started. */
  lemma {:induction false} DescendLeaf(m: map<NodeId, Node>, kids: map<NodeId, seq<NodeId>>, depth: map<NodeId, nat>,
                                       info: InfoMap, sel: SelectionMap, node: NodeId, dir: Direction)
    requires Linked(m, kids, depth) && Coherent(sel, kids) && m.Keys <= info.Keys && node in m
    ensures var r := Descend(m, kids, depth, info, sel, node, dir);
            r in m && kids[r] == [] && Under(m, depth, r, node)
    decreases |m| - depth[node]
  {
    DescendStepChild(m, kids, depth, info, sel, node, dir);
    match DescendStep(m, info, sel, node, dir)
    case None =>
    case Some(c) =>
      DescendLeaf(m, kids, depth, info, sel, c, dir);
      KidStep(m, kids, depth, node, c);
      assert Under(m, depth, c, node);
      UnderTrans(m, depth, Descend(m, kids, depth, info, sel, c, dir), c, node);
  }

  /** The first ancestor of `n`, `n` included, from which `move_over` moves, and where it lands. */
  function Climb(m: map<NodeId, Node>, ghost depth: map<NodeId, nat>, info: InfoMap, n: NodeId, dir: Direction)
    : Option<NodeId>
    requires Ranked(m, depth) && m.Keys <= info.Keys && n in m
    decreases depth[n]
  {
    match MoveOver(m, info, n, dir)
    case Some(s) => Some(s)
    case None =>
      match m[n].parent
      case None => None
      case Some(p) => Climb(m, depth, info, p, dir)
  }

  /**
   * `Climb` is the first hit of `move_over` along the ancestors of `n`: it
   * finds nothing exactly when `move_over` fails from every ancestor, and
   * otherwise lands where `move_over` does from the first ancestor it works
   * from.
   */
  lemma {:induction false} ClimbFirst(m: map<NodeId, Node>, depth: map<NodeId, nat>, info: InfoMap, n: NodeId, dir: Direction)
    requires Ranked(m, depth) && m.Keys <= info.Keys && n in m
    ensures Climb(m, depth, info, n, dir).None? <==>
              forall x | x in Ancestors(m, depth, n) :: MoveOver(m, info, x, dir).None?
    ensures Climb(m, depth, info, n, dir).Some? ==>
              exists i | 0 <= i < |Ancestors(m, depth, n)| ::
                && MoveOver(m, info, Ancestors(m, depth, n)[i], dir) == Climb(m, depth, info, n, dir)
                && forall x | x in Ancestors(m, depth, n)[..i] :: MoveOver(m, info, x, dir).None?
    decreases depth[n]
  {
    var a := Ancestors(m, depth, n);
    var r := Climb(m, depth, info, n, dir);
    if MoveOver(m, info, n, dir).Some? {
      assert a[0] == n && a[..0] == [];
    } else if m[n].parent.Some? {
      var p := m[n].parent.value;
      ClimbFirst(m, depth, info, p, dir);
      var b := Ancestors(m, depth, p);
      assert a == [n] + b;
      if r.Some? {
        var i :| 0 <= i < |b| && MoveOver(m, info, b[i], dir) == r && forall x | x in b[..i] :: MoveOver(m, info, x, dir).None?;
        ConsPrefix(n, b, i);
      }
    }
  }

  /** Prefixes of a sequence with one more element in front. */
  lemma ConsPrefix(n: NodeId, b: seq<NodeId>, i: nat)
    requires i < |b|
    ensures ([n] + b)[i + 1] == b[i] && forall x | x in ([n] + b)[..i + 1] :: x == n || x in b[..i]
  {
    assert ([n] + b)[..i + 1] == [n] + b[..i];
  }

  /**
   * `traverse`: climb to the first ancestor that can move along `dir`, move,
   * then descend.
   */
  function Traverse(m: map<NodeId, Node>, ghost kids: map<NodeId, seq<NodeId>>, ghost depth: map<NodeId, nat>,
                    info: InfoMap, sel: SelectionMap, from: NodeId, dir: Direction): Option<NodeId>
    requires Linked(m, kids, depth) && Coherent(sel, kids) && m.Keys <= info.Keys && from in m
  {
    match Climb(m, depth, info, from, dir)
    case None => None
    case Some(s) =>
      MoveOverInForest(m, kids, depth, info, from, dir);
      Some(Descend(m, kids, depth, info, sel, s, dir))
  }

  /** Whatever `Climb` lands on is a node of the forest. */
  lemma {:induction false} MoveOverInForest(m: map<NodeId, Node>, kids: map<NodeId, seq<NodeId>>, depth: map<NodeId, nat>,
                                            info: InfoMap, n: NodeId, dir: Direction)
    requires Linked(m, kids, depth) && m.Keys <= info.Keys && n in m
    ensures Climb(m, depth, info, n, dir).Some? ==> Climb(m, depth, info, n, dir).value in m
    decreases depth[n]
  {
    match MoveOver(m, info, n, dir)
    case Some(s) =>
      MoveOverSibling(m, kids, depth, info, n, dir, s);
      var p := m[n].parent.value;
      KidStep(m, kids, depth, p, s);
    case None =>
      if m[n].parent.Some? {
        MoveOverInForest(m, kids, depth, info, m[n].parent.value, dir);
      }
  }

  /**
   * `traverse` finds nothing exactly when `move_over` fails from every
   * ancestor of `from`; otherwise it ends at a leaf below the node that
   * `move_over` reaches from the first ancestor it works from.
   */
  lemma TraverseSpec(m: map<NodeId, Node>, kids: map<NodeId, seq<NodeId>>, depth: map<NodeId, nat>,
                     info: InfoMap, sel: SelectionMap, from: NodeId, dir: Direction)
    requires Linked(m, kids, depth) && Coherent(sel, kids) && m.Keys <= info.Keys && from in m
    ensures Traverse(m, kids, depth, info, sel, from, dir).None? <==>
              forall x | x in Ancestors(m, depth, from) :: MoveOver(m, info, x, dir).None?
    ensures Traverse(m, kids, depth, info, sel, from, dir).Some? ==>
              var r := Traverse(m, kids, depth, info, sel, from, dir).value;
              && r in m && kids[r] == []
              && exists i | 0 <= i < |Ancestors(m, depth, from)| ::
                   && MoveOver(m, info, Ancestors(m, depth, from)[i], dir).Some?
                   && Under(m, depth, r, MoveOver(m, info, Ancestors(m, depth, from)[i], dir).value)
                   && forall x | x in Ancestors(m, depth, from)[..i] :: MoveOver(m, info, x, dir).None?
  {
    ClimbFirst(m, depth, info, from, dir);
    MoveOverInForest(m, kids, depth, info, from, dir);
    var c := Climb(m, depth, info, from, dir);
    if c.Some? {
      DescendLeaf(m, kids, depth, info, sel, c.value, dir);
    }
  }

  /**
   * The descent of `move_node_inner` into the sibling it moves over: follow
   * the local selection, else the first child; stop at a leaf, or at the
   * child reached from the first node laid out along `dir`.
   */
  function Seek(m: map<NodeId, Node>, ghost kids: map<NodeId, seq<NodeId>>, ghost depth: map<NodeId, nat>,
                info: InfoMap, sel: SelectionMap, node: NodeId, dir: Direction): NodeId
    requires Linked(m, kids, depth) && Coherent(sel, kids) && m.Keys <= info.Keys && node in m
    decreases |m| - depth[node]
  {
    SelectedOrFirstChild(m, kids, depth, sel, node);
    match SelectedOrFirst(m, sel, node)
    case None => node
    case Some(next) =>
      if KindOrientation(info[node].kind) == DirOrientation(dir) then next
      else Seek(m, kids, depth, info, sel, next, dir)
  }

  /**
   * The descent stays inside the tree of `node` and stops at `node` exactly
   * when `node` is a leaf; any other stop is a leaf or a child of a node laid
   * out along `dir`, its parent lying at or below `node`.
   */
  lemma {:induction false} SeekSpec(m: map<NodeId, Node>, kids: map<NodeId, seq<NodeId>>, depth: map<NodeId, nat>,
                                    info: InfoMap, sel: SelectionMap, node: NodeId, dir: Direction)
    requires Linked(m, kids, depth) && Coherent(sel, kids) && m.Keys <= info.Keys && node in m
    ensures var t := Seek(m, kids, depth, info, sel, node, dir);
            && t in m && Under(m, depth, t, node)
            && (t == node <==> kids[node] == [])
            && (t != node ==> && m[t].parent.Some? && Under(m, depth, m[t].parent.value, node)
                              && (kids[t] == [] || KindOrientation(info[m[t].parent.value].kind) == DirOrientation(dir)))
    decreases |m| - depth[node]
  {
    SelectedOrFirstChild(m, kids, depth, sel, node);
    var t := Seek(m, kids, depth, info, sel, node, dir);
    match SelectedOrFirst(m, sel, node)
    case None =>
    case Some(next) =>
      assert Under(m, depth, next, node);
      if KindOrientation(info[node].kind) != DirOrientation(dir) {
        SeekSpec(m, kids, depth, info, sel, next, dir);
        UnderTrans(m, depth, t, next, node);
        UnderDepth(m, depth, t, next);
        if t != next {
          UnderTrans(m, depth, m[t].parent.value, next, node);
        }
      }
  }

  /**
   * The upward search of `move_node_inner`: the first of `a` and its
   * ancestors whose parent is laid out along `dir`.
   */
  function Rise(m: map<NodeId, Node>, ghost depth: map<NodeId, nat>, info: InfoMap, a: NodeId, dir: Direction)
    : Option<NodeId>
    requires Ranked(m, depth) && m.Keys <= info.Keys && a in m
    decreases depth[a]
  {
    match m[a].parent
    case None => None
    case Some(p) =>
      if KindOrientation(info[p].kind) == DirOrientation(dir) then Some(a)
      else Rise(m, depth, info, p, dir)
  }

  /**
   * The search fails exactly when no ancestor of `a` (itself included) has
   * a parent laid out along `dir`; otherwise it yields such an ancestor, and
   * every node on the way up to it has a parent laid out across `dir`.
   */
  lemma {:induction false} RiseSpec(m: map<NodeId, Node>, depth: map<NodeId, nat>, info: InfoMap, a: NodeId, dir: Direction)
    requires Ranked(m, depth) && m.Keys <= info.Keys && a in m
    ensures Rise(m, depth, info, a, dir).None? <==>
              forall x | x in Ancestors(m, depth, a) && m[x].parent.Some? ::
                KindOrientation(info[m[x].parent.value].kind) != DirOrientation(dir)
    ensures Rise(m, depth, info, a, dir).Some? ==>
              var t := Rise(m, depth, info, a, dir).value;
              && t in m && Under(m, depth, a, t) && m[t].parent.Some?
              && KindOrientation(info[m[t].parent.value].kind) == DirOrientation(dir)
              && forall x | x in Ancestors(m, depth, a) && x != t && Under(m, depth, x, t) ::
                   m[x].parent.Some? && KindOrientation(info[m[x].parent.value].kind) != DirOrientation(dir)
    decreases depth[a]
  {
    if m[a].parent.Some? {
      var p := m[a].parent.value;
      var r := Rise(m, depth, info, a, dir);
      assert Ancestors(m, depth, a) == [a] + Ancestors(m, depth, p);
      if KindOrientation(info[p].kind) != DirOrientation(dir) {
        RiseSpec(m, depth, info, p, dir);
        if r.Some? {
          forall x | x in Ancestors(m, depth, a) && x != r.value && Under(m, depth, x, r.value)
            ensures m[x].parent.Some? && KindOrientation(info[m[x].parent.value].kind) != DirOrientation(dir)
          {
          }
        }
      } else {
        forall x | x in Ancestors(m, depth, a) && x != a && Under(m, depth, x, a)
          ensures false
        {
          AncestorsUnder(m, depth, p, x);
          UnderDepth(m, depth, x, a);
          UnderDepth(m, depth, p, x);
        }
      }
    }
  }

  /** Where `move_node_inner` puts the moving node: next to `target`, on the near or the far side. */
  datatype Destination = Ahead(target: NodeId) | Behind(target: NodeId)

  /**
   * Whether the moving node goes right after its target: ahead of the target
   * when moving Right or Down, behind it when moving Left or Up.
   */
  predicate LandsAfter(d: Destination, dir: Direction)
  {
    d.Ahead? != Backward(dir)
  }

  /**
   * The child list `L` once `moving` is linked next to the target of
   * `dest`: right after it when `LandsAfter`, right before it otherwise.
   */
  function Landed(L: seq<NodeId>, dest: Destination, dir: Direction, moving: NodeId): (r: seq<NodeId>)
    requires dest.target in L
    ensures |r| == |L| + 1
    ensures forall x :: x in r <==> x in L || x == moving
    ensures var i := IndexOf(L, dest.target);
            if LandsAfter(dest, dir) then r[i] == dest.target && r[i + 1] == moving
            else r[i] == moving && r[i + 1] == dest.target
  {
    if LandsAfter(dest, dir) then SpliceAfter(L, dest.target, moving)
    else InsertAt(L, IndexOf(L, dest.target), moving)
  }

  /** The node `move_over` steps onto is a sibling of `from`. */
  lemma MoveOverChild(m: map<NodeId, Node>, kids: map<NodeId, seq<NodeId>>, depth: map<NodeId, nat>,
                      info: InfoMap, from: NodeId, dir: Direction)
    requires Linked(m, kids, depth) && m.Keys <= info.Keys && from in m
    ensures MoveOver(m, info, from, dir).Some? ==>
              var s := MoveOver(m, info, from, dir).value;
              s in m && s != from && m[from].parent.Some? && m[s].parent == m[from].parent
  {
    if MoveOver(m, info, from, dir).Some? {
      var s := MoveOver(m, info, from, dir).value;
      MoveOverSibling(m, kids, depth, info, from, dir, s);
      var p := m[from].parent.value;
      KidStep(m, kids, depth, p, s);
      KidsDistinct(m, kids, depth, p);
    }
  }

  /**
   * The destination `move_node_inner` picks for `moving`, which has a
   * parent. Moving over a leaf sibling swaps places with it; moving over a
   * container lands next to where the descent into it stops; with no
   * sibling to move over, the node lands ahead of the first ancestor whose
   * parent is laid out along `dir`. None when there is no such ancestor:
   * the root of the tree must first be nested in a new container.
   */
  function Aim(m: map<NodeId, Node>, ghost kids: map<NodeId, seq<NodeId>>, ghost depth: map<NodeId, nat>,
               info: InfoMap, sel: SelectionMap, moving: NodeId, dir: Direction): Option<Destination>
    requires Linked(m, kids, depth) && Coherent(sel, kids) && m.Keys <= info.Keys
    requires moving in m && m[moving].parent.Some?
  {
    MoveOverChild(m, kids, depth, info, moving, dir);
    match MoveOver(m, info, moving, dir)
    case Some(s) =>
      var t := Seek(m, kids, depth, info, sel, s, dir);
      if t == s then Some(Ahead(s)) else Some(Behind(t))
    case None =>
      match Rise(m, depth, info, m[moving].parent.value, dir)
      case None => None
      case Some(t) => Some(Ahead(t))
  }

  /**
   * The destination is a node with a parent, and that parent lies outside
   * the subtree of `moving`, so `moving` can be linked there once cut out.
   * It is the sibling moved over exactly when that sibling is a leaf, and
   * otherwise lies below it; with no sibling to move over it is a proper
   * ancestor of `moving`, and there is none exactly when no ancestor of the
   * parent of `moving` has a parent laid out along `dir`.
   */
  lemma AimSpec(m: map<NodeId, Node>, kids: map<NodeId, seq<NodeId>>, depth: map<NodeId, nat>,
                info: InfoMap, sel: SelectionMap, moving: NodeId, dir: Direction)
    requires Linked(m, kids, depth) && Coherent(sel, kids) && m.Keys <= info.Keys
    requires moving in m && m[moving].parent.Some?
    ensures var a := Aim(m, kids, depth, info, sel, moving, dir);
            a.Some? ==> && a.value.target in m && a.value.target != moving && m[a.value.target].parent.Some?
                        && !Under(m, depth, m[a.value.target].parent.value, moving)
    ensures var a := Aim(m, kids, depth, info, sel, moving, dir);
            MoveOver(m, info, moving, dir).Some? ==>
              var s := MoveOver(m, info, moving, dir).value;
              && s in m && a.Some?
              && (kids[s] == [] <==> a.value == Ahead(s))
              && (kids[s] != [] ==> a.value.Behind? && Under(m, depth, a.value.target, s))
    ensures var a := Aim(m, kids, depth, info, sel, moving, dir);
            var p := m[moving].parent.value;
            MoveOver(m, info, moving, dir).None? ==>
              && (a.None? <==> Rise(m, depth, info, p, dir).None?)
              && (a.Some? ==> a.value.Ahead? && Under(m, depth, p, a.value.target))
  {
    MoveOverChild(m, kids, depth, info, moving, dir);
    var p := m[moving].parent.value;
    var a := Aim(m, kids, depth, info, sel, moving, dir);
    UnderDepth(m, depth, p, p);
    match MoveOver(m, info, moving, dir)
    case Some(s) =>
      SeekSpec(m, kids, depth, info, sel, s, dir);
      var t := a.value.target;
      if t == s {
        if Under(m, depth, p, moving) {
          UnderDepth(m, depth, p, moving);
        }
      } else {
        var q := m[t].parent.value;
        UnderDepth(m, depth, s, s);
        if t == moving {
          UnderSameDepth(m, depth, t, s, moving);
        }
        if Under(m, depth, q, moving) {
          UnderSameDepth(m, depth, q, s, moving);
        }
      }
    case None =>
      RiseSpec(m, depth, info, p, dir);
      if a.Some? {
        var t := a.value.target;
        var q := m[t].parent.value;
        UnderDepth(m, depth, p, t);
        assert depth[moving] == depth[p] + 1;
        if Under(m, depth, q, moving) {
          UnderDepth(m, depth, q, moving);
        }
      }
  }

  /** The first position of an element of a list of distinct elements is its position. */
  lemma IndexOfDistinct(L: seq<NodeId>, j: nat)
    requires Distinct(L) && j < |L|
    ensures IndexOf(L, L[j]) == j
  {
  }

  /** Inserting `x` at `j + 1` into `L` with its element at `j` cut out. */
  lemma ExchangeAhead(L: seq<NodeId>, j: nat, x: NodeId)
    requires j + 1 < |L|
    ensures InsertAt(RemoveAt(L, j), j + 1, x) == L[j := L[j + 1]][j + 1 := x]
  {
    var r, t := InsertAt(RemoveAt(L, j), j + 1, x), L[j := L[j + 1]][j + 1 := x];
    forall k | 0 <= k < |t|
      ensures r[k] == t[k]
    {
    }
  }

  /** Inserting `x` at `j - 1` into `L` with its element at `j` cut out. */
  lemma ExchangeBehind(L: seq<NodeId>, j: nat, x: NodeId)
    requires 0 < j < |L|
    ensures InsertAt(RemoveAt(L, j), j - 1, x) == L[j := L[j - 1]][j - 1 := x]
  {
    var r, t := InsertAt(RemoveAt(L, j), j - 1, x), L[j := L[j - 1]][j - 1 := x];
    forall k | 0 <= k < |t|
      ensures r[k] == t[k]
    {
    }
  }

  /**
   * Landing ahead of the neighbour `s` of `moving`, in the child list `L`
   * with `moving` cut out, exchanges `moving` and `s`.
   */
  lemma SwapLanding(L: seq<NodeId>, i: nat, moving: NodeId, s: NodeId, dir: Direction)
    requires Distinct(L) && i < |L| && L[i] == moving
    requires if Backward(dir) then 0 < i && L[i - 1] == s else i + 1 < |L| && L[i + 1] == s
    ensures s in RemoveAt(L, i) && s in L
    ensures Landed(RemoveAt(L, i), Ahead(s), dir, moving) == L[i := s][IndexOf(L, s) := moving]
  {
    var R := RemoveAt(L, i);
    if Backward(dir) {
      assert R[i - 1] == s;
      IndexOfDistinct(L, i - 1);
      assert Distinct(R) by {
        forall a, b | 0 <= a < |R| && 0 <= b < |R| && R[a] == R[b]
          ensures a == b
        {
          assert L[if a < i then a else a + 1] == L[if b < i then b else b + 1];
        }
      }
      IndexOfDistinct(R, i - 1);
      ExchangeBehind(L, i, moving);
    } else {
      assert R[i] == s;
      IndexOfDistinct(L, i + 1);
      assert Distinct(R) by {
        forall a, b | 0 <= a < |R| && 0 <= b < |R| && R[a] == R[b]
          ensures a == b
        {
          assert L[if a < i then a else a + 1] == L[if b < i then b else b + 1];
        }
      }
      IndexOfDistinct(R, i);
      ExchangeAhead(L, i, moving);
    }
  }

  /**
   * Landing ahead of `r0` as the only child of a fresh root puts `moving`
   * on the side of `dir`; once `r0` is left out, `moving` is alone.
   */
  lemma BesideRoot(r0: NodeId, moving: NodeId, dir: Direction, keep: set<NodeId>)
    requires moving in keep
    ensures Surviving(Landed([r0], Ahead(r0), dir, moving), keep)
              == if r0 !in keep then [moving] else if Backward(dir) then [moving, r0] else [r0, moving]
  {
    var l := Landed([r0], Ahead(r0), dir, moving);
    assert l == if Backward(dir) then [moving, r0] else [r0, moving];
    assert l[1..][1..] == [];
  }

  /**
   * Moving over a leaf sibling `s`: the destination is `s` itself, and
   * landing ahead of it exchanges `moving` and `s` in their parent's
   * child list.
   */
  lemma AimSwap(m: map<NodeId, Node>, kids: map<NodeId, seq<NodeId>>, depth: map<NodeId, nat>,
                info: InfoMap, sel: SelectionMap, moving: NodeId, dir: Direction, s: NodeId)
    requires Linked(m, kids, depth) && Coherent(sel, kids) && m.Keys <= info.Keys
    requires moving in m && m[moving].parent.Some?
    requires MoveOver(m, info, moving, dir) == Some(s) && s in kids && kids[s] == []
    ensures Aim(m, kids, depth, info, sel, moving, dir) == Some(Ahead(s))
    ensures var p := m[moving].parent.value;
            && Placed(m, kids, moving) && s in m && m[s].parent == Some(p) && p in kids
            && var L := kids[p];
               && moving in L && s in L && s in CutKids(m, kids, moving)[p]
               && Landed(CutKids(m, kids, moving)[p], Ahead(s), dir, moving)
                    == L[IndexOf(L, moving) := s][IndexOf(L, s) := moving]
  {
    AimSpec(m, kids, depth, info, sel, moving, dir);
    MoveOverChild(m, kids, depth, info, moving, dir);
    MoveOverSibling(m, kids, depth, info, moving, dir, s);
    var p := m[moving].parent.value;
    KidsDistinct(m, kids, depth, p);
    SwapLanding(kids[p], IndexOf(kids[p], moving), moving, s, dir);
  }

  /**
   * Where `move_node_inner` leaves `moving`, from the forest `m0`, `k0`
   * before the move to the forest `m1`, `k1` after it. With a destination,
   * `moving` sits next to its target, on the side `LandsAfter` gives, in
   * the child list of the target's parent, from which it was first cut
   * out; the containers the move emptied and culled are left out of that
   * list, and nothing is culled from it when the parent is the old parent.
   * Without one, `moving` and the old root of its tree are the children of
   * a fresh root, in the order of `dir`; `moving` is alone there when the
   * old root was culled, which cannot happen when its old parent kept
   * another child.
   */
  ghost predicate Placement(m0: map<NodeId, Node>, k0: map<NodeId, seq<NodeId>>, d0: map<NodeId, nat>,
                            info0: InfoMap, sel0: SelectionMap,
                            m1: map<NodeId, Node>, k1: map<NodeId, seq<NodeId>>, moving: NodeId, dir: Direction)
    requires Linked(m0, k0, d0) && Coherent(sel0, k0) && m0.Keys <= info0.Keys
    requires moving in m0 && m0[moving].parent.Some?
  {
    && moving in m1 && m1[moving].parent.Some? && m1[moving].parent.value in m1 && m1[moving].parent.value in k1
    && var p, q := m0[moving].parent.value, m1[moving].parent.value;
       match Aim(m0, k0, d0, info0, sel0, moving, dir)
       case Some(dest) =>
         && dest.target in m0 && m0[dest.target].parent == Some(q)
         && Placed(m0, k0, moving)
         && var K := CutKids(m0, k0, moving);
            && q in K && dest.target in K[q]
            && k1[q] == Surviving(Landed(K[q], dest, dir, moving), m1.Keys)
            && (q == p ==> k1[q] == Landed(K[q], dest, dir, moving))
       case None =>
         var r0 := RootOf(m0, d0, moving);
         && q !in m0 && m1[q].parent.None? && p in k0
         && k1[q] == (if r0 !in m1 then [moving] else if Backward(dir) then [moving, r0] else [r0, moving])
         && (|k0[p]| > 1 ==> r0 in m1)
  }

  /**
   * A move over a leaf sibling `s` exchanges `moving` and `s` in the child
   * list of their parent, from `k0` before the move to `k1` after it, and
   * moves nothing else in it.
   */
  ghost predicate Swapped(m0: map<NodeId, Node>, k0: map<NodeId, seq<NodeId>>, info0: InfoMap,
                          m1: map<NodeId, Node>, k1: map<NodeId, seq<NodeId>>, moving: NodeId, dir: Direction)
    requires moving in m0 && m0.Keys <= info0.Keys
    requires m0[moving].parent.Some? && m0[moving].parent.value in m0
  {
    var s := MoveOver(m0, info0, moving, dir);
    s.Some? && s.value in k0 && k0[s.value] == [] ==>
      var p := m0[moving].parent.value;
      && moving in m1 && m1[moving].parent == Some(p) && p in k0 && p in k1
      && var L := k0[p];
         && moving in L && s.value in L
         && k1[p] == L[IndexOf(L, moving) := s.value][IndexOf(L, s.value) := moving]
  }

  /** Where `move_node_inner` leaves `moving`, a move over a leaf sibling is a swap. */
  lemma PlacementSwap(m0: map<NodeId, Node>, k0: map<NodeId, seq<NodeId>>, d0: map<NodeId, nat>,
                      info0: InfoMap, sel0: SelectionMap,
                      m1: map<NodeId, Node>, k1: map<NodeId, seq<NodeId>>, moving: NodeId, dir: Direction)
    requires Linked(m0, k0, d0) && Coherent(sel0, k0) && m0.Keys <= info0.Keys
    requires moving in m0 && m0[moving].parent.Some?
    requires Placement(m0, k0, d0, info0, sel0, m1, k1, moving, dir)
    ensures Swapped(m0, k0, info0, m1, k1, moving, dir)
  {
    var s := MoveOver(m0, info0, moving, dir);
    if s.Some? && s.value in k0 && k0[s.value] == [] {
      AimSwap(m0, k0, d0, info0, sel0, moving, dir, s.value);
    }
  }
}
