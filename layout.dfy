/**
 * Proportional sizes and layout kinds (crates/swell/src/model/layout.rs):
 * every node has a size, its share of its parent, and every container a
 * total, the sum of its children's sizes, and a layout kind that decides how
 * its rectangle is handed to its children.
 */
module Layouts {
  import opened Types
  import opened ForestLinks
  import opened NodeArena

  /** How a container lays out its children (`LayoutKind`); the default is `Horizontal`. */
  datatype LayoutKind = Horizontal | Vertical | Tabbed | Stacked

  datatype Orientation = Horizontal | Vertical

  datatype Direction = Left | Right | Up | Down

  /** `LayoutKind::orientation`: Tabbed stacks along the horizontal axis, Stacked along the vertical one. */
  function KindOrientation(k: LayoutKind): (o: Orientation)
    ensures o == Orientation.Horizontal <==> k == LayoutKind.Horizontal || k == LayoutKind.Tabbed
    ensures o == Orientation.Vertical <==> k == LayoutKind.Vertical || k == LayoutKind.Stacked
  {
    match k
    case Horizontal => Orientation.Horizontal
    case Tabbed => Orientation.Horizontal
    case Vertical => Orientation.Vertical
    case Stacked => Orientation.Vertical
  }

  /** `LayoutKind::is_group`: the kinds that show one child at a time. */
  predicate IsGroup(k: LayoutKind)
  {
    k == LayoutKind.Tabbed || k == LayoutKind.Stacked
  }

  /** `Direction::orientation`. */
  function DirOrientation(d: Direction): (o: Orientation)
    ensures o == Orientation.Horizontal <==> d == Left || d == Right
    ensures o == Orientation.Vertical <==> d == Up || d == Down
  {
    match d
    case Left => Orientation.Horizontal
    case Right => Orientation.Horizontal
    case Up => Orientation.Vertical
    case Down => Orientation.Vertical
  }

  /** `LayoutKind::from(orientation)`: the ungrouped kind of an orientation. */
  function FromOrientation(o: Orientation): (k: LayoutKind)
    ensures KindOrientation(k) == o && !IsGroup(k)
  {
    match o
    case Horizontal => LayoutKind.Horizontal
    case Vertical => LayoutKind.Vertical
  }

  /** `LayoutKind::group(orientation)`: the grouped kind of an orientation. */
  function GroupOf(o: Orientation): (k: LayoutKind)
    ensures KindOrientation(k) == o && IsGroup(k)
  {
    match o
    case Horizontal => LayoutKind.Tabbed
    case Vertical => LayoutKind.Stacked
  }

  /**
   * The layout record of a node (`LayoutInfo`), with the last ungrouped kind
   * it was given.
   */
  datatype LayoutInfo = LayoutInfo(size: real, total: real, kind: LayoutKind, lastUngrouped: LayoutKind)

  /** `LayoutInfo::default()`. */
  const DefaultInfo := LayoutInfo(0.0, 0.0, LayoutKind.Horizontal, LayoutKind.Horizontal)

  type InfoMap = map<NodeId, LayoutInfo>

  /** The record of `n`, inserted as the default when missing (`entry(n).or_insert(default)`). */
  function Entry(info: InfoMap, n: NodeId): LayoutInfo
  {
    if n in info then info[n] else DefaultInfo
  }

  /** No record remembers a group as its last ungrouped kind. */
  ghost predicate UngroupedIn(info: InfoMap)
  {
    forall n | n in info :: !IsGroup(info[n].lastUngrouped)
  }

  /** The records once `x` has been added below `p`: `x` takes size 1 and the total of `p` grows by 1. */
  function AfterAdded(info: InfoMap, x: NodeId, p: NodeId): InfoMap
  {
    var i1 := info[x := Entry(info, x).(size := 1.0)];
    i1[p := Entry(i1, p).(total := Entry(i1, p).total + 1.0)]
  }

  /** Every record of `info'` has the kind it had in `info`. */
  ghost predicate SameKinds(info: InfoMap, info': InfoMap)
  {
    forall n | n in info' :: n in info && info'[n].kind == info[n].kind
  }

  /** Taking `x` out of `p` and dropping its record changes no kind. */
  lemma DropKeepsKinds(info: InfoMap, x: NodeId, p: NodeId)
    requires x in info && p in info
    ensures SameKinds(info, AfterLeaving(info, x, p) - {x})
  {
  }

  /** Moving `x` from `p` to `q` changes no kind. */
  lemma MovedKeepsKinds(info: InfoMap, x: NodeId, p: NodeId, q: NodeId)
    requires x in info && p in info && q in info
    ensures SameKinds(info, AfterAdded(AfterLeaving(info, x, p), x, q))
  {
  }

  /** The records once `x` is about to leave `p`: the total of `p` loses the size of `x`. */
  function AfterLeaving(info: InfoMap, x: NodeId, p: NodeId): InfoMap
    requires x in info && p in info
  {
    info[p := info[p].(total := info[p].total - info[x].size)]
  }

  /** The sum of the sizes of the nodes of `s`. */
  function SumSizes(info: InfoMap, s: seq<NodeId>): real
    requires forall c | c in s :: c in info
  {
    if s == [] then 0.0 else var x := s[|s| - 1]; assert x in s; SumSizes(info, s[..|s| - 1]) + info[x].size
  }

  /** The total of `p` is the sum of the sizes of its children. */
  ghost predicate Balanced(info: InfoMap, kids: map<NodeId, seq<NodeId>>, p: NodeId)
  {
    p in info && p in kids && (forall c | c in kids[p] :: c in info) && info[p].total == SumSizes(info, kids[p])
  }

  /** Sums only read sizes. */
  lemma {:induction false} SumSame(info: InfoMap, info': InfoMap, s: seq<NodeId>)
    requires forall c | c in s :: c in info && c in info' && info'[c].size == info[c].size
    ensures SumSizes(info', s) == SumSizes(info, s)
  {
    if s != [] {
      SumSame(info, info', s[..|s| - 1]);
    }
  }

  lemma {:induction false} SumInsert(info: InfoMap, s: seq<NodeId>, j: nat, x: NodeId)
    requires j <= |s| && x in info && forall c | c in s :: c in info
    ensures forall c | c in InsertAt(s, j, x) :: c in info
    ensures SumSizes(info, InsertAt(s, j, x)) == SumSizes(info, s) + info[x].size
  {
    var t := InsertAt(s, j, x);
    if j == |s| {
      assert t[..|t| - 1] == s;
    } else {
      var s' := s[..|s| - 1];
      assert t[..|t| - 1] == InsertAt(s', j, x);
      SumInsert(info, s', j, x);
    }
  }

  lemma {:induction false} SumRemove(info: InfoMap, s: seq<NodeId>, i: nat)
    requires i < |s| && forall c | c in s :: c in info
    ensures forall c | c in RemoveAt(s, i) :: c in info
    ensures SumSizes(info, RemoveAt(s, i)) == SumSizes(info, s) - info[s[i]].size
  {
    var t := RemoveAt(s, i);
    if i + 1 == |s| {
      assert t == s[..|s| - 1];
    } else {
      var s' := s[..|s| - 1];
      assert t[..|t| - 1] == RemoveAt(s', i);
      SumRemove(info, s', i);
    }
  }

  /**
   * `AddedToParent` keeps the total of the parent the sum of its children's
   * sizes once the new child `x` is in the child list.
   */
  lemma AddedBalanced(info: InfoMap, kids: map<NodeId, seq<NodeId>>, x: NodeId, p: NodeId, j: nat)
    requires Balanced(info, kids, p) && x !in kids[p] && x != p && p !in kids[p] && j <= |kids[p]|
    ensures Balanced(AfterAdded(info, x, p), kids[p := InsertAt(kids[p], j, x)], p)
  {
    var L := kids[p];
    var i1 := info[x := Entry(info, x).(size := 1.0)];
    var i2 := AfterAdded(info, x, p);
    SumSame(info, i1, L);
    SumInsert(i1, L, j, x);
    SumSame(i1, i2, InsertAt(L, j, x));
  }

  /**
   * `RemovingFromParent` keeps the total of the parent the sum of its
   * children's sizes once the child is out of the child list.
   */
  lemma LeavingBalanced(info: InfoMap, kids: map<NodeId, seq<NodeId>>, p: NodeId, i: nat)
    requires Balanced(info, kids, p) && i < |kids[p]| && p !in kids[p]
    ensures Balanced(AfterLeaving(info, kids[p][i], p), kids[p := RemoveAt(kids[p], i)], p)
  {
    var L := kids[p];
    var i2 := AfterLeaving(info, L[i], p);
    SumRemove(info, L, i);
    SumSame(info, i2, RemoveAt(L, i));
  }

  /** An event on `p` leaves another container balanced: sizes do not move. */
  lemma EventsKeepOthers(info: InfoMap, kids: map<NodeId, seq<NodeId>>, x: NodeId, p: NodeId, q: NodeId)
    requires Balanced(info, kids, q) && q != p && q != x
    requires x in info && p in info
    ensures Balanced(AfterLeaving(info, x, p), kids, q)
    ensures x !in kids[q] ==> Balanced(AfterAdded(info, x, p), kids, q)
  {
    SumSame(info, AfterLeaving(info, x, p), kids[q]);
    if x !in kids[q] {
      SumSame(info, AfterAdded(info, x, p), kids[q]);
    }
  }

  /** Every node of the forest `kids` is balanced. */
  ghost predicate AllBalanced(info: InfoMap, kids: map<NodeId, seq<NodeId>>)
  {
    forall p | p in kids :: Balanced(info, kids, p)
  }

  /** A container keeps its balance when its children, their sizes and its total stay. */
  lemma KeepBalanced(info: InfoMap, info': InfoMap, kids: map<NodeId, seq<NodeId>>, kids': map<NodeId, seq<NodeId>>, q: NodeId)
    requires Balanced(info, kids, q) && q in kids' && kids'[q] == kids[q]
    requires q in info' && info'[q].total == info[q].total
    requires forall c | c in kids[q] :: c in info' && info'[c].size == info[c].size
    ensures Balanced(info', kids', q)
  {
    SumSame(info, info', kids[q]);
  }

  /** Records whose sizes and totals all stay keep every container balanced. */
  lemma KindsOnlyBalanced(info: InfoMap, info': InfoMap, kids: map<NodeId, seq<NodeId>>)
    requires AllBalanced(info, kids) && info'.Keys == info.Keys
    requires forall n | n in info :: info'[n].size == info[n].size && info'[n].total == info[n].total
    ensures AllBalanced(info', kids)
  {
    forall q | q in kids
      ensures Balanced(info', kids, q)
    {
      KeepBalanced(info, info', kids, kids, q);
    }
  }

  /** `r` differs from `info` in sizes only: the same nodes, totals and kinds. */
  ghost predicate SizesOnly(info: InfoMap, r: InfoMap)
  {
    r.Keys == info.Keys && forall k | k in info :: r[k] == info[k].(size := r[k].size)
  }

  function Min(a: real, b: real): real { if a <= b then a else b }

  function Max(a: real, b: real): real { if a >= b then a else b }

  /** The share `take_share` moves: clamped to at most `from`'s size and at least minus `node`'s size. */
  function Clamped(info: InfoMap, node: NodeId, from: NodeId, share: real): real
    requires node in info && from in info
  {
    Max(Min(share, info[from].size), -info[node].size)
  }

  /** The records once `take_share` has moved the clamped share from `from` to `node`. */
  function Shared(info: InfoMap, node: NodeId, from: NodeId, share: real): InfoMap
    requires node in info && from in info
  {
    var s := Clamped(info, node, from, share);
    var i1 := info[from := info[from].(size := info[from].size - s)];
    i1[node := i1[node].(size := i1[node].size + s)]
  }

  /** `take_share` changes sizes only. */
  lemma SharedSizesOnly(info: InfoMap, node: NodeId, from: NodeId, share: real)
    requires node in info && from in info
    ensures SizesOnly(info, Shared(info, node, from, share))
  {
  }

  /**
   * `take_share` moves size between the two nodes only: their sum stays,
   * neither goes below zero, the share is taken as asked when it fits, and no
   * other record changes.
   */
  lemma ShareKeepsSum(info: InfoMap, node: NodeId, from: NodeId, share: real)
    requires node in info && from in info && node != from
    ensures var r := Shared(info, node, from, share);
            && r.Keys == info.Keys
            && r[node].size + r[from].size == info[node].size + info[from].size
            && (info[node].size >= 0.0 && info[from].size >= 0.0 ==> r[node].size >= 0.0 && r[from].size >= 0.0)
            && (-info[node].size <= share <= info[from].size ==> r[node].size == info[node].size + share)
            && r[node] == info[node].(size := r[node].size) && r[from] == info[from].(size := r[from].size)
            && (forall k | k in info && k != node && k != from :: r[k] == info[k])
  {
  }

  /** Moving size between two children of `p` keeps `p` balanced. */
  lemma {:induction false} SumShare(info: InfoMap, info': InfoMap, s: seq<NodeId>, a: NodeId, b: NodeId)
    requires Distinct(s) && a != b && forall c | c in s :: c in info && c in info'
    requires a in info && b in info && a in info' && b in info'
    requires forall c | c in s && c != a && c != b :: info'[c].size == info[c].size
    requires info'[a].size + info'[b].size == info[a].size + info[b].size
    ensures a in s && b in s ==> SumSizes(info', s) == SumSizes(info, s)
    ensures a in s && b !in s ==> SumSizes(info', s) == SumSizes(info, s) + info'[a].size - info[a].size
    ensures a !in s && b in s ==> SumSizes(info', s) == SumSizes(info, s) + info'[b].size - info[b].size
    ensures a !in s && b !in s ==> SumSizes(info', s) == SumSizes(info, s)
  {
    if s != [] {
      var t := s[..|s| - 1];
      assert Distinct(t) by {
        forall i, j | 0 <= i < |t| && 0 <= j < |t| && t[i] == t[j] ensures i == j {
          assert s[i] == t[i] && s[j] == t[j];
        }
      }
      var last := s[|s| - 1];
      assert last !in t by {
        forall i | 0 <= i < |t| ensures t[i] != last {
          assert s[i] == t[i];
        }
      }
      SumShare(info, info', t, a, b);
    }
  }

  lemma ShareBalanced(info: InfoMap, kids: map<NodeId, seq<NodeId>>, p: NodeId, node: NodeId, from: NodeId, share: real)
    requires Balanced(info, kids, p) && Distinct(kids[p]) && p !in kids[p]
    requires node in kids[p] && from in kids[p] && node != from
    ensures Balanced(Shared(info, node, from, share), kids, p)
  {
    ShareKeepsSum(info, node, from, share);
    SumShare(info, Shared(info, node, from, share), kids[p], node, from);
  }

  /** Changing the size of `a` alone changes the sum of a list holding `a` once by the difference. */
  lemma {:induction false} SumResize(info: InfoMap, info': InfoMap, s: seq<NodeId>, a: NodeId)
    requires Distinct(s) && (forall c | c in s :: c in info && c in info') && a in info && a in info'
    requires forall c | c in s && c != a :: info'[c].size == info[c].size
    ensures a in s ==> SumSizes(info', s) == SumSizes(info, s) + info'[a].size - info[a].size
    ensures a !in s ==> SumSizes(info', s) == SumSizes(info, s)
  {
    if s != [] {
      var t := s[..|s| - 1];
      assert Distinct(t) by {
        forall i, j | 0 <= i < |t| && 0 <= j < |t| && t[i] == t[j] ensures i == j {
          assert s[i] == t[i] && s[j] == t[j];
        }
      }
      var last := s[|s| - 1];
      assert last !in t by {
        forall i | 0 <= i < |t| ensures t[i] != last {
          assert s[i] == t[i];
        }
      }
      SumResize(info, info', t, a);
    }
  }

  /**
   * The records once `heir` has taken over the size of its sibling `orig`,
   * which keeps none, and their parent `p` has given up the size `heir` had.
   */
  function SizeTaken(info: InfoMap, heir: NodeId, orig: NodeId, p: NodeId): InfoMap
    requires heir in info && orig in info && p in info
  {
    var i1 := info[orig := info[orig].(size := 0.0)];
    var i2 := i1[heir := i1[heir].(size := info[orig].size)];
    i2[p := i2[p].(total := i2[p].total - info[heir].size)]
  }

  /**
   * Taking over a sibling's size keeps every container balanced: the parent
   * loses exactly the size `heir` gave up, and no other total or child list
   * is touched.
   */
  lemma TakenBalanced(info: InfoMap, kids: map<NodeId, seq<NodeId>>, heir: NodeId, orig: NodeId, p: NodeId)
    requires AllBalanced(info, kids) && p in kids && heir in kids[p] && orig in kids[p] && heir != orig
    requires Distinct(kids[p]) && p !in kids[p]
    requires forall q | q in kids && q != p :: heir !in kids[q] && orig !in kids[q]
    ensures SizeTaken(info, heir, orig, p).Keys == info.Keys
    ensures AllBalanced(SizeTaken(info, heir, orig, p), kids)
  {
    var r := SizeTaken(info, heir, orig, p);
    var i1 := info[orig := info[orig].(size := 0.0)];
    forall q | q in kids
      ensures Balanced(r, kids, q)
    {
      if q == p {
        SumResize(info, i1, kids[p], orig);
        SumResize(i1, r, kids[p], heir);
      } else {
        KeepBalanced(info, r, kids, kids, q);
      }
    }
  }

  /** The ratio of a child's size to its parent's total; zero when the total is zero. */
  function Ratio(size: real, total: real): real
  {
    if total == 0.0 then 0.0 else size / total
  }

  /** The sum of the proportions of the nodes of `s` within a total `t`. */
  function SumRatios(info: InfoMap, s: seq<NodeId>, t: real): real
    requires forall c | c in s :: c in info
  {
    if s == [] then 0.0 else var x := s[|s| - 1]; assert x in s; SumRatios(info, s[..|s| - 1], t) + Ratio(info[x].size, t)
  }

  lemma {:induction false} SumRatiosScale(info: InfoMap, s: seq<NodeId>, t: real)
    requires t != 0.0 && forall c | c in s :: c in info
    ensures SumRatios(info, s, t) == SumSizes(info, s) / t
  {
    if s != [] {
      SumRatiosScale(info, s[..|s| - 1], t);
    }
  }

  /** In a balanced container with a non-zero total, the proportions of the children add up to one. */
  lemma ProportionsSumToOne(info: InfoMap, kids: map<NodeId, seq<NodeId>>, p: NodeId)
    requires Balanced(info, kids, p) && info[p].total != 0.0
    ensures SumRatios(info, kids[p], info[p].total) == 1.0
  {
    var t := info[p].total;
    SumRatiosScale(info, kids[p], t);
    assert SumSizes(info, kids[p]) == t;
    assert t / t == 1.0;
  }

  /** Where the children of a container of kind `k` start along its axis. */
  function StartPos(k: LayoutKind, r: Rect): real
  {
    match k
    case Horizontal => r.x
    case Vertical => r.y
    case Tabbed => 0.0
    case Stacked => 0.0
  }

  /**
   * The rectangle `apply` hands a child of a container of kind `k` laid out
   * in `r`: the whole of `r` in a group, otherwise the slice of `r` at `pos`
   * with the child's `ratio` of the extent.
   */
  function ChildRect(k: LayoutKind, r: Rect, pos: real, ratio: real): Rect
  {
    match k
    case Horizontal => Rect(pos, r.y, r.w * ratio, r.h)
    case Vertical => Rect(r.x, pos, r.w, r.h * ratio)
    case Tabbed => r
    case Stacked => r
  }

  /** Where the next child starts: the far edge of the slice just handed out. */
  function NextPos(k: LayoutKind, c: Rect, pos: real): real
  {
    match k
    case Horizontal => c.x + c.w
    case Vertical => c.y + c.h
    case Tabbed => pos
    case Stacked => pos
  }

  /** The window frames `apply` emits for `n` laid out in `r`. */
  ghost function Frames(info: InfoMap, windows: map<NodeId, WindowId>, m: map<NodeId, Node>,
                        kids: map<NodeId, seq<NodeId>>, depth: map<NodeId, nat>, n: NodeId, r: Rect)
    : seq<(WindowId, Rect)>
    requires Linked(m, kids, depth) && n in m && m.Keys <= info.Keys
    decreases |m| - depth[n], 1, 0
  {
    if n in windows then [(windows[n], r)]
    else KidFrames(info, windows, m, kids, depth, n, 0, StartPos(info[n].kind, r), r)
  }

  /** The frames of the children of `n` from the `i`-th on, the `i`-th starting at `pos`. */
  ghost function KidFrames(info: InfoMap, windows: map<NodeId, WindowId>, m: map<NodeId, Node>,
                           kids: map<NodeId, seq<NodeId>>, depth: map<NodeId, nat>, n: NodeId,
                           i: nat, pos: real, r: Rect): seq<(WindowId, Rect)>
    requires Linked(m, kids, depth) && n in m && m.Keys <= info.Keys && i <= |kids[n]|
    decreases |m| - depth[n], 0, |kids[n]| - i
  {
    if i == |kids[n]| then []
    else
      var c := kids[n][i];
      KidStep(m, kids, depth, n, c);
      var k := info[n].kind;
      var cr := ChildRect(k, r, pos, Ratio(info[c].size, info[n].total));
      Frames(info, windows, m, kids, depth, c, cr) + KidFrames(info, windows, m, kids, depth, n, i + 1, NextPos(k, cr, pos), r)
  }

  /** One step of `KidFrames`: the frames of the `i`-th child, then those of the rest. */
  lemma KidFramesStep(info: InfoMap, windows: map<NodeId, WindowId>, m: map<NodeId, Node>,
                      kids: map<NodeId, seq<NodeId>>, depth: map<NodeId, nat>, n: NodeId,
                      i: nat, pos: real, r: Rect)
    requires Linked(m, kids, depth) && n in m && m.Keys <= info.Keys && i < |kids[n]|
    ensures kids[n][i] in m && depth[kids[n][i]] < |m| && depth[kids[n][i]] == depth[n] + 1
    ensures var k := info[n].kind;
            var cr := ChildRect(k, r, pos, Ratio(info[kids[n][i]].size, info[n].total));
            KidFrames(info, windows, m, kids, depth, n, i, pos, r) ==
              Frames(info, windows, m, kids, depth, kids[n][i], cr) +
              KidFrames(info, windows, m, kids, depth, n, i + 1, NextPos(k, cr, pos), r)
  {
    KidStep(m, kids, depth, n, kids[n][i]);
  }

  /** The windows below `n` in the order `apply` visits them; a window ends the descent. */
  ghost function Tiles(windows: map<NodeId, WindowId>, m: map<NodeId, Node>, kids: map<NodeId, seq<NodeId>>,
                       depth: map<NodeId, nat>, n: NodeId): seq<WindowId>
    requires Linked(m, kids, depth) && n in m
    decreases |m| - depth[n], 1, 0
  {
    if n in windows then [windows[n]] else KidTiles(windows, m, kids, depth, n, 0)
  }

  ghost function KidTiles(windows: map<NodeId, WindowId>, m: map<NodeId, Node>, kids: map<NodeId, seq<NodeId>>,
                          depth: map<NodeId, nat>, n: NodeId, i: nat): seq<WindowId>
    requires Linked(m, kids, depth) && n in m && i <= |kids[n]|
    decreases |m| - depth[n], 0, |kids[n]| - i
  {
    if i == |kids[n]| then []
    else
      KidStep(m, kids, depth, n, kids[n][i]);
      Tiles(windows, m, kids, depth, kids[n][i]) + KidTiles(windows, m, kids, depth, n, i + 1)
  }

  function Ids(fs: seq<(WindowId, Rect)>): (r: seq<WindowId>)
    ensures |r| == |fs| && forall i | 0 <= i < |fs| :: r[i] == fs[i].0
  {
    if fs == [] then [] else [fs[0].0] + Ids(fs[1..])
  }

  lemma IdsAppend(a: seq<(WindowId, Rect)>, b: seq<(WindowId, Rect)>)
    ensures Ids(a + b) == Ids(a) + Ids(b)
  {
    assert Ids(a + b) == Ids(a) + Ids(b) by {
      assert |Ids(a + b)| == |Ids(a) + Ids(b)|;
    }
  }

  /**
   * `apply` emits one frame per window below `n`, each window once, in
   * depth-first order, whatever the sizes and the rectangle.
   */
  lemma {:induction false} FramesTiles(info: InfoMap, windows: map<NodeId, WindowId>, m: map<NodeId, Node>,
                                       kids: map<NodeId, seq<NodeId>>, depth: map<NodeId, nat>, n: NodeId, r: Rect)
    requires Linked(m, kids, depth) && n in m && m.Keys <= info.Keys
    ensures Ids(Frames(info, windows, m, kids, depth, n, r)) == Tiles(windows, m, kids, depth, n)
    decreases |m| - depth[n], 1, 0
  {
    if n !in windows {
      KidFramesTiles(info, windows, m, kids, depth, n, 0, StartPos(info[n].kind, r), r);
    }
  }

  lemma {:induction false} KidFramesTiles(info: InfoMap, windows: map<NodeId, WindowId>, m: map<NodeId, Node>,
                                          kids: map<NodeId, seq<NodeId>>, depth: map<NodeId, nat>, n: NodeId,
                                          i: nat, pos: real, r: Rect)
    requires Linked(m, kids, depth) && n in m && m.Keys <= info.Keys && i <= |kids[n]|
    ensures Ids(KidFrames(info, windows, m, kids, depth, n, i, pos, r)) == KidTiles(windows, m, kids, depth, n, i)
    decreases |m| - depth[n], 0, |kids[n]| - i
  {
    if i < |kids[n]| {
      var c := kids[n][i];
      KidStep(m, kids, depth, n, c);
      var k := info[n].kind;
      var cr := ChildRect(k, r, pos, Ratio(info[c].size, info[n].total));
      FramesTiles(info, windows, m, kids, depth, c, cr);
      KidFramesTiles(info, windows, m, kids, depth, n, i + 1, NextPos(k, cr, pos), r);
      IdsAppend(Frames(info, windows, m, kids, depth, c, cr),
                KidFrames(info, windows, m, kids, depth, n, i + 1, NextPos(k, cr, pos), r));
    }
  }

  /** The frames of the children of `n` from the `i`-th on, each child laid out in the whole of `r`. */
  ghost function WholeFrames(info: InfoMap, windows: map<NodeId, WindowId>, m: map<NodeId, Node>,
                             kids: map<NodeId, seq<NodeId>>, depth: map<NodeId, nat>, n: NodeId,
                             i: nat, r: Rect): seq<(WindowId, Rect)>
    requires Linked(m, kids, depth) && n in m && m.Keys <= info.Keys && i <= |kids[n]|
    decreases |kids[n]| - i
  {
    if i == |kids[n]| then []
    else
      KidStep(m, kids, depth, n, kids[n][i]);
      Frames(info, windows, m, kids, depth, kids[n][i], r) + WholeFrames(info, windows, m, kids, depth, n, i + 1, r)
  }

  /**
   * In a Tabbed or Stacked container every child, window or container, is
   * laid out in the container's own rectangle: the frames of the children
   * are those of each child laid out in the whole of `r`, in order.
   */
  lemma {:induction false} GroupFrames(info: InfoMap, windows: map<NodeId, WindowId>, m: map<NodeId, Node>,
                                       kids: map<NodeId, seq<NodeId>>, depth: map<NodeId, nat>, n: NodeId,
                                       i: nat, pos: real, r: Rect)
    requires Linked(m, kids, depth) && n in m && m.Keys <= info.Keys && i <= |kids[n]|
    requires IsGroup(info[n].kind)
    ensures KidFrames(info, windows, m, kids, depth, n, i, pos, r) == WholeFrames(info, windows, m, kids, depth, n, i, r)
    decreases |kids[n]| - i
  {
    if i < |kids[n]| {
      KidFramesStep(info, windows, m, kids, depth, n, i, pos, r);
      GroupFrames(info, windows, m, kids, depth, n, i + 1, pos, r);
    }
  }

  /**
   * In a Tabbed or Stacked container whose children are windows, every child
   * is framed with the container's own rectangle.
   */
  lemma {:induction false} GroupWindowFrames(info: InfoMap, windows: map<NodeId, WindowId>, m: map<NodeId, Node>,
                                             kids: map<NodeId, seq<NodeId>>, depth: map<NodeId, nat>, n: NodeId,
                                             i: nat, r: Rect)
    requires Linked(m, kids, depth) && n in m && m.Keys <= info.Keys && i <= |kids[n]|
    requires forall c | c in kids[n] :: c in windows
    ensures var fs := WholeFrames(info, windows, m, kids, depth, n, i, r);
            && |fs| == |kids[n]| - i
            && forall j | 0 <= j < |fs| :: kids[n][i + j] in windows && fs[j] == (windows[kids[n][i + j]], r)
    decreases |kids[n]| - i
  {
    if i < |kids[n]| {
      var c := kids[n][i];
      KidStep(m, kids, depth, n, c);
      GroupWindowFrames(info, windows, m, kids, depth, n, i + 1, r);
    }
  }

  /** The layout records of all nodes (`Layout`). */
  class Layout {
    var info: InfoMap

    /** `Layout::default`. */
    constructor ()
      ensures info == map[] && UngroupedKept()
    {
      info := map[];
    }

    /** No record remembers a group as its last ungrouped kind. */
    ghost predicate UngroupedKept()
      reads this
    {
      UngroupedIn(info)
    }

    /**
     * `handle_event`: a node added to the forest gets the default record; a
     * node added to a parent takes size 1 and raises the parent's total by 1;
     * a node about to leave its parent takes its size out of the parent's
     * total; a node deleted from the forest loses its record. The source
     * unwraps the parent in the two middle cases and indexes the records of
     * the node and its parent when it leaves.
     */
    method HandleEvent(f: Forest, event: ObserverCall)
      requires event.AddedToParent? ==> event.node in f.nodes && f.nodes[event.node].parent.Some?
      requires event.RemovingFromParent? ==>
                 && event.node in f.nodes && f.nodes[event.node].parent.Some?
                 && event.node in info && f.nodes[event.node].parent.value in info
      modifies this
      ensures event.AddedToForest? ==> info == old(info)[event.node := DefaultInfo]
      ensures event.AddedToParent? ==> info == AfterAdded(old(info), event.node, f.nodes[event.node].parent.value)
      ensures event.RemovingFromParent? ==>
                info == AfterLeaving(old(info), event.node, f.nodes[event.node].parent.value)
      ensures event.RemovedFromForest? ==> info == old(info) - {event.node}
      ensures old(UngroupedKept()) ==> UngroupedKept()
    {
      match event
      case AddedToForest(node) =>
        info := info[node := DefaultInfo];
      case AddedToParent(node) =>
        var parent := f.nodes[node].parent.value;
        info := info[node := Entry(info, node).(size := 1.0)];
        info := info[parent := Entry(info, parent).(total := Entry(info, parent).total + 1.0)];
      case RemovingFromParent(node) =>
        var parent := f.nodes[node].parent.value;
        info := info[parent := info[parent].(total := info[parent].total - info[node].size)];
      case RemovedFromForest(node) =>
        info := info - {node};
    }

    /**
     * `set_kind`: the node takes the kind, and remembers it as its last
     * ungrouped kind when it is not a group. The source indexes the record.
     */
    method SetKind(node: NodeId, kind: LayoutKind)
      requires node in info
      modifies this
      ensures info == Kinded(old(info), node, kind)
      ensures Kind(node) == kind && (!IsGroup(kind) ==> LastUngroupedKind(node) == kind)
      ensures old(UngroupedKept()) ==> UngroupedKept()
    {
      var rec := info[node].(kind := kind);
      if !IsGroup(kind) {
        rec := rec.(lastUngrouped := kind);
      }
      info := info[node := rec];
    }

    /** `kind`: the kind of the node. The source indexes the record. */
    function Kind(node: NodeId): (k: LayoutKind)
      reads this
      requires node in info
      ensures k == info[node].kind
    {
      info[node].kind
    }

    /** `last_ungrouped_kind`: never a group while the records keep that so. */
    function LastUngroupedKind(node: NodeId): (k: LayoutKind)
      reads this
      requires node in info
      ensures UngroupedKept() ==> !IsGroup(k)
    {
      info[node].lastUngrouped
    }

    /**
     * `total`: the total of the node, which is the sum of its children's
     * sizes while the node is balanced.
     */
    function Total(node: NodeId, ghost kids: map<NodeId, seq<NodeId>>): (t: real)
      reads this
      requires node in info
      ensures Balanced(info, kids, node) ==> t == SumSizes(info, kids[node])
    {
      info[node].total
    }

    /**
     * `proportion`: none for a root, otherwise the node's size over its
     * parent's total. The source indexes both records.
     */
    function Proportion(m: map<NodeId, Node>, node: NodeId): (r: Option<real>)
      reads this
      requires node in m
      requires m[node].parent.Some? ==> node in info && m[node].parent.value in info
      ensures r.None? <==> m[node].parent.None?
      ensures r.Some? ==> r.value == Ratio(info[node].size, info[m[node].parent.value].total)
    {
      match m[node].parent
      case None => None
      case Some(parent) => Some(Ratio(info[node].size, info[parent].total))
    }

    /**
     * `take_share`: moves the clamped share of size from `from` to `node`.
     * The source asserts that the two have the same parent and indexes their
     * records.
     */
    method TakeShare(f: Forest, node: NodeId, from: NodeId, share: real)
      requires node in f.nodes && from in f.nodes && f.nodes[node].parent == f.nodes[from].parent
      requires node in info && from in info
      modifies this
      ensures info == Shared(old(info), node, from, share)
      ensures old(UngroupedKept()) ==> UngroupedKept()
    {
      var s := Min(share, info[from].size);
      s := Max(s, -info[node].size);
      info := info[from := info[from].(size := info[from].size - s)];
      info := info[node := info[node].(size := info[node].size + s)];
    }

    /**
     * `assume_size_of`: `heir` takes over the size of its sibling `orig`,
     * which keeps none, and their parent gives up the size `heir` had; the
     * two share a parent.
     */
    method AssumeSizeOf(m: map<NodeId, Node>, heir: NodeId, orig: NodeId)
      requires heir in m && orig in m && m[heir].parent.Some? && m[heir].parent == m[orig].parent
      requires heir in info && orig in info && m[heir].parent.value in info
      modifies this
      ensures info == SizeTaken(old(info), heir, orig, m[heir].parent.value)
      ensures old(UngroupedKept()) ==> UngroupedKept()
    {
      var parent := m[heir].parent.value;
      var size := info[orig].size;
      var had := info[heir].size;
      info := info[orig := info[orig].(size := 0.0)];
      info := info[heir := info[heir].(size := size)];
      info := info[parent := info[parent].(total := info[parent].total - had)];
    }

    /**
     * `apply`: appends to `sizes` the frame of every window below `node`
     * laid out in `rect`; a window takes the whole rectangle and ends the
     * descent.
     */
    method Apply(f: Forest, windows: map<NodeId, WindowId>, node: NodeId, rect: Rect, sizes: seq<(WindowId, Rect)>)
      returns (out: seq<(WindowId, Rect)>)
      requires f.Valid() && node in f.nodes && f.nodes.Keys <= info.Keys
      ensures out == sizes + Frames(info, windows, f.nodes, f.kids, f.depth, node, rect)
      decreases |f.nodes| - f.depth[node], 2
    {
      if node in windows {
        out := sizes + [(windows[node], rect)];
      } else {
        out := ApplyChildren(f, windows, node, rect, sizes);
      }
    }

    /**
     * The container arm of `apply`: walks the children of `node` in order,
     * handing each its slice of `rect` (all of it in a group) and advancing
     * the position by the slice's extent.
     */
    method ApplyChildren(f: Forest, windows: map<NodeId, WindowId>, node: NodeId, rect: Rect,
                         sizes: seq<(WindowId, Rect)>)
      returns (out: seq<(WindowId, Rect)>)
      requires f.Valid() && node in f.nodes && f.nodes.Keys <= info.Keys
      ensures out == sizes + KidFrames(info, windows, f.nodes, f.kids, f.depth, node, 0, StartPos(info[node].kind, rect), rect)
      decreases |f.nodes| - f.depth[node], 1
    {
      var children := f.Children(node);
      var pos := StartPos(info[node].kind, rect);
      out := sizes;
      var i := 0;
      while i < |children|
        invariant i <= |children| && children == f.kids[node]
        invariant out + KidFrames(info, windows, f.nodes, f.kids, f.depth, node, i, pos, rect) ==
                  sizes + KidFrames(info, windows, f.nodes, f.kids, f.depth, node, 0, StartPos(info[node].kind, rect), rect)
      {
        out, pos := ApplyChild(f, windows, node, i, children[i], pos, rect, out);
        i := i + 1;
      }
    }

    /**
     * One turn of the loop of `apply` over the children of `node`: frames the
     * `i`-th child in its slice at `pos` and returns where the next slice
     * starts.
     */
    method ApplyChild(f: Forest, windows: map<NodeId, WindowId>, node: NodeId, i: nat, child: NodeId, pos: real, rect: Rect,
                      sizes: seq<(WindowId, Rect)>)
      returns (out: seq<(WindowId, Rect)>, next: real)
      requires f.Valid() && node in f.nodes && f.nodes.Keys <= info.Keys && i < |f.kids[node]| && child == f.kids[node][i]
      ensures out + KidFrames(info, windows, f.nodes, f.kids, f.depth, node, i + 1, next, rect) ==
              sizes + KidFrames(info, windows, f.nodes, f.kids, f.depth, node, i, pos, rect)
      decreases |f.nodes| - f.depth[node], 0
    {
      ghost var m, kids, depth := f.nodes, f.kids, f.depth;
      KidFramesStep(info, windows, m, kids, depth, node, i, pos, rect);
      var kind := info[node].kind;
      var cr := ChildRect(kind, rect, pos, Ratio(info[child].size, info[node].total));
      out := Apply(f, windows, child, cr, sizes);
      next := NextPos(kind, cr, pos);
    }

    /** `get_sizes`: the frames of every window below `root` laid out in `rect`. */
    method GetSizes(f: Forest, windows: map<NodeId, WindowId>, root: NodeId, rect: Rect)
      returns (sizes: seq<(WindowId, Rect)>)
      requires f.Valid() && root in f.nodes && f.nodes.Keys <= info.Keys
      ensures sizes == Frames(info, windows, f.nodes, f.kids, f.depth, root, rect)
      ensures Ids(sizes) == Tiles(windows, f.nodes, f.kids, f.depth, root)
    {
      sizes := Apply(f, windows, root, rect, []);
      FramesTiles(info, windows, f.nodes, f.kids, f.depth, root, rect);
    }
  }

  /**
   * The records once `node` has taken the layout `kind`, which it remembers
   * as its last ungrouped kind unless `kind` is a group.
   */
  function Kinded(info: InfoMap, node: NodeId, kind: LayoutKind): InfoMap
    requires node in info
  {
    info[node := info[node].(kind := kind, lastUngrouped := if IsGroup(kind) then info[node].lastUngrouped else kind)]
  }

  /**
   * The records once `node`, a child of `p`, has been nested into the fresh
   * container `np`: `np` stands in `p` with the size `node` had, and `node`,
   * the one child of `np`, has size one.
   */
  function NestedInfo(info: InfoMap, node: NodeId, np: NodeId): InfoMap
    requires node in info
  {
    info[np := DefaultInfo.(size := info[node].size, total := 1.0)][node := info[node].(size := 1.0)]
  }

  /**
   * The four announcements of `nest_in_container` below a parent — `np`
   * added before `node`, `np` taking over the size of `node`, `node`
   * leaving `p` and `node` added below `np` — leave the records of
   * `NestedInfo`, and the total of `p` is back where it was.
   */
  lemma NestedInfoSteps(info: InfoMap, node: NodeId, np: NodeId, p: NodeId)
    requires node in info && p in info && np != node && np != p && node != p
    ensures var i1 := AfterAdded(info[np := DefaultInfo], np, p);
            && np in i1 && node in i1 && p in i1
            && var i2 := SizeTaken(i1, np, node, p);
               AfterAdded(AfterLeaving(i2, node, p), node, np) == NestedInfo(info, node, np)
    ensures NestedInfo(info, node, np)[p] == info[p]
  {
  }

  /** Nesting keeps the share of its parent that `node` had: the container `np` now has it. */
  lemma NestedShare(info: InfoMap, node: NodeId, np: NodeId, p: NodeId)
    requires node in info && p in info && np != node && np != p && node != p
    ensures var r := NestedInfo(info, node, np);
            && Ratio(r[np].size, r[p].total) == Ratio(info[node].size, info[p].total)
            && Ratio(r[node].size, r[np].total) == 1.0
  {
  }
}

