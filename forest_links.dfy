/**
 * The link invariant of the slot-map forest shared by crates/swell/src/model/node.rs
 * and crates/swell/src/tree.rs, stated over plain values.
 *
 * Every node is a record of five optional links (parent, previous and next
 * sibling, first and last child) stored in a map keyed by node id. The ghost
 * map `kids` gives, for every node, the ordered list of its children, and the
 * ghost map `depth` witnesses that the parent links contain no cycle.
 * `Linked` states that the links are exactly the ones `kids` calls for.
 */
module ForestLinks {
  import opened Types

  /** The link record of one node (`Node` in node.rs). */
  datatype Node = Node(parent: Option<NodeId>, prevSibling: Option<NodeId>, nextSibling: Option<NodeId>,
                       firstChild: Option<NodeId>, lastChild: Option<NodeId>)

  /** `Node::default()`: a node with no links. */
  const Unlinked: Node := Node(None, None, None, None, None)

  function FirstOf(s: seq<NodeId>): Option<NodeId> { if s == [] then None else Some(s[0]) }

  function LastOf(s: seq<NodeId>): Option<NodeId> { if s == [] then None else Some(s[|s| - 1]) }

  function PrevIn(s: seq<NodeId>, i: nat): Option<NodeId>
    requires i < |s|
  {
    if i == 0 then None else Some(s[i - 1])
  }

  function NextIn(s: seq<NodeId>, i: nat): Option<NodeId>
    requires i < |s|
  {
    if i + 1 == |s| then None else Some(s[i + 1])
  }

  function InsertAt(s: seq<NodeId>, j: nat, x: NodeId): (r: seq<NodeId>)
    requires j <= |s|
    ensures |r| == |s| + 1 && r[j] == x
    ensures forall i {:trigger r[i]} | 0 <= i < j :: r[i] == s[i]
    ensures forall i {:trigger r[i]} | j < i < |r| :: r[i] == s[i - 1]
  {
    s[..j] + [x] + s[j..]
  }

  /** `s` with `x` placed right after the first `prev`. */
  function SpliceAfter(s: seq<NodeId>, prev: NodeId, x: NodeId): seq<NodeId>
    requires prev in s
  {
    InsertAt(s, IndexOf(s, prev) + 1, x)
  }

  lemma InsertAtEnd(s: seq<NodeId>, x: NodeId)
    ensures InsertAt(s, |s|, x) == s + [x]
  {
  }

  lemma InsertAtFront(s: seq<NodeId>, x: NodeId)
    ensures InsertAt(s, 0, x) == [x] + s
  {
  }

  function RemoveAt(s: seq<NodeId>, i: nat): (r: seq<NodeId>)
    requires i < |s|
    ensures |r| == |s| - 1
    ensures forall k {:trigger r[k]} | 0 <= k < i :: r[k] == s[k]
    ensures forall k {:trigger r[k]} | i <= k < |r| :: r[k] == s[k + 1]
  {
    s[..i] + s[i + 1..]
  }

  predicate Distinct(s: seq<NodeId>)
  {
    forall i, j | 0 <= i < |s| && 0 <= j < |s| && s[i] == s[j] :: i == j
  }

  /** The elements of `s` that are in `keep`, in their order in `s`. */
  function Surviving(s: seq<NodeId>, keep: set<NodeId>): (r: seq<NodeId>)
    ensures forall x :: x in r <==> x in s && x in keep
    ensures |r| <= |s|
  {
    if s == [] then [] else (if s[0] in keep then [s[0]] else []) + Surviving(s[1..], keep)
  }

  lemma {:induction false} SurvivingAppend(s: seq<NodeId>, t: seq<NodeId>, keep: set<NodeId>)
    ensures Surviving(s + t, keep) == Surviving(s, keep) + Surviving(t, keep)
  {
    if s != [] {
      assert (s + t)[1..] == s[1..] + t;
      SurvivingAppend(s[1..], t, keep);
    } else {
      assert s + t == t;
    }
  }

  /** Nothing is dropped from a list whose elements are all kept. */
  lemma {:induction false} SurvivingAll(s: seq<NodeId>, keep: set<NodeId>)
    requires forall x | x in s :: x in keep
    ensures Surviving(s, keep) == s
  {
    if s != [] {
      var h := s[0];
      assert h in s;
      assert h in keep;
      forall x | x in s[1..]
        ensures x in keep
      {
        assert x in s;
      }
      SurvivingAll(s[1..], keep);
      assert Surviving(s, keep) == [s[0]] + Surviving(s[1..], keep);
      assert [s[0]] + s[1..] == s;
    }
  }

  /** Filtering by `a` and then by a smaller `b` is filtering by `b`. */
  lemma {:induction false} SurvivingTwice(s: seq<NodeId>, a: set<NodeId>, b: set<NodeId>)
    requires b <= a
    ensures Surviving(Surviving(s, a), b) == Surviving(s, b)
  {
    if s != [] {
      var h := if s[0] in a then [s[0]] else [];
      SurvivingAppend(h, Surviving(s[1..], a), b);
      SurvivingTwice(s[1..], a, b);
      if s[0] in a {
        assert Surviving(h, b) == (if s[0] in b then [s[0]] else []) by {
          assert h[1..] == [];
        }
      }
    }
  }

  /**
   * Cutting the element at `i` out of a list of distinct kept elements is
   * filtering out that one element.
   */
  lemma {:induction false} SurvivingCut(s: seq<NodeId>, i: nat, keep: set<NodeId>)
    requires i < |s| && Distinct(s) && forall x | x in s :: x in keep
    ensures RemoveAt(s, i) == Surviving(s, keep - {s[i]})
    decreases i
  {
    var k' := keep - {s[i]};
    assert s[0] in s;
    if i == 0 {
      forall x | x in s[1..]
        ensures x in k'
      {
        var t :| 0 <= t < |s[1..]| && s[1..][t] == x;
        assert s[t + 1] == x;
      }
      SurvivingAll(s[1..], k');
    } else {
      var s' := s[1..];
      assert s'[i - 1] == s[i];
      assert Distinct(s') by {
        forall a, b | 0 <= a < |s'| && 0 <= b < |s'| && s'[a] == s'[b]
          ensures a == b
        {
          assert s[a + 1] == s[b + 1];
        }
      }
      forall x | x in s'
        ensures x in keep
      {
        assert x in s;
      }
      SurvivingCut(s', i - 1, keep);
      assert s[0] in k';
      assert RemoveAt(s, i) == [s[0]] + RemoveAt(s', i - 1);
    }
  }

  /** Parent links point into the map and go one level up in `depth`. */
  ghost predicate Ranked(m: map<NodeId, Node>, depth: map<NodeId, nat>)
  {
    && m.Keys <= depth.Keys
    && (forall c | c in m && m[c].parent.Some? ::
          m[c].parent.value in m && depth[c] == depth[m[c].parent.value] + 1)
  }

  /** The i-th child of p carries the parent and sibling links its position calls for. */
  ghost predicate ChildLinked(m: map<NodeId, Node>, kids: map<NodeId, seq<NodeId>>, p: NodeId, i: nat)
    requires p in kids && i < |kids[p]|
  {
    var c := kids[p][i];
    && c in m
    && m[c].parent == Some(p)
    && m[c].prevSibling == PrevIn(kids[p], i)
    && m[c].nextSibling == NextIn(kids[p], i)
  }

  /** The links of `m` are exactly those of the ordered forest `kids`. */
  ghost predicate Linked(m: map<NodeId, Node>, kids: map<NodeId, seq<NodeId>>, depth: map<NodeId, nat>)
  {
    && m.Keys == kids.Keys == depth.Keys
    && Ranked(m, depth)
    && (forall c | c in m && m[c].parent.None? ::
          m[c].prevSibling.None? && m[c].nextSibling.None? && depth[c] == 0)
    && (forall c | c in m && m[c].parent.Some? :: c in kids[m[c].parent.value])
    && (forall p | p in m :: m[p].firstChild == FirstOf(kids[p]) && m[p].lastChild == LastOf(kids[p]))
    && (forall p, i | p in m && 0 <= i < |kids[p]| :: ChildLinked(m, kids, p, i))
  }

  /** Every node of `m'` other than `x` was a node of `m`, and has the parent it had there. */
  ghost predicate ParentsKept(m: map<NodeId, Node>, m': map<NodeId, Node>, x: NodeId)
  {
    forall n | n in m' && n != x :: n in m && m'[n].parent == m[n].parent
  }

  /** `k` is `a` or lies below `a`. */
  ghost predicate Under(m: map<NodeId, Node>, depth: map<NodeId, nat>, k: NodeId, a: NodeId)
    requires Ranked(m, depth) && k in m
    decreases depth[k]
  {
    k == a || (m[k].parent.Some? && Under(m, depth, m[k].parent.value, a))
  }

  /** The subtree rooted at `a`: `a` and all its descendants. */
  ghost function Sub(m: map<NodeId, Node>, depth: map<NodeId, nat>, a: NodeId): set<NodeId>
    requires Ranked(m, depth)
  {
    set k | k in m && Under(m, depth, k, a)
  }

  /** The depths of the subtree of `a`, moved so that `a` sits at depth `base`. */
  ghost function Shift(m: map<NodeId, Node>, depth: map<NodeId, nat>, a: NodeId, base: nat): map<NodeId, nat>
    requires Ranked(m, depth) && a in m
  {
    map k | k in depth ::
      if k in m && Under(m, depth, k, a) && depth[k] >= depth[a] then depth[k] - depth[a] + base else depth[k]
  }

  lemma {:induction false} UnderDepth(m: map<NodeId, Node>, depth: map<NodeId, nat>, k: NodeId, a: NodeId)
    requires Ranked(m, depth) && k in m && Under(m, depth, k, a)
    ensures a in m && depth[a] <= depth[k]
    decreases depth[k]
  {
    if k != a {
      UnderDepth(m, depth, m[k].parent.value, a);
    }
  }

  lemma {:induction false} UnderTrans(m: map<NodeId, Node>, depth: map<NodeId, nat>, k: NodeId, c: NodeId, a: NodeId)
    requires Ranked(m, depth) && k in m && c in m
    requires Under(m, depth, k, c) && Under(m, depth, c, a)
    ensures Under(m, depth, k, a)
    decreases depth[k]
  {
    if k != c {
      UnderTrans(m, depth, m[k].parent.value, c, a);
    }
  }

  /** The ancestor of `k` at a given depth is unique. */
  lemma {:induction false} UnderSameDepth(m: map<NodeId, Node>, depth: map<NodeId, nat>, k: NodeId, a: NodeId, b: NodeId)
    requires Ranked(m, depth) && k in m
    requires Under(m, depth, k, a) && Under(m, depth, k, b)
    requires a in m && b in m && depth[a] == depth[b]
    ensures a == b
    decreases depth[k]
  {
    if k == a {
      if k != b {
        UnderDepth(m, depth, m[k].parent.value, b);
      }
    } else if k == b {
      UnderDepth(m, depth, m[k].parent.value, a);
    } else {
      UnderSameDepth(m, depth, m[k].parent.value, a, b);
    }
  }

  /** A proper descendant of `a` lies below one of the children of `a`. */
  lemma {:induction false} PathChild(m: map<NodeId, Node>, depth: map<NodeId, nat>, k: NodeId, a: NodeId)
    returns (c: NodeId)
    requires Ranked(m, depth) && k in m && Under(m, depth, k, a) && k != a
    ensures c in m && m[c].parent == Some(a) && Under(m, depth, k, c)
    decreases depth[k]
  {
    var p := m[k].parent.value;
    if p == a {
      c := k;
    } else {
      c := PathChild(m, depth, p, a);
    }
  }

  /** No element repeats in a child list: the previous-sibling links tell the positions apart. */
  lemma KidsDistinct(m: map<NodeId, Node>, kids: map<NodeId, seq<NodeId>>, depth: map<NodeId, nat>, p: NodeId)
    requires Linked(m, kids, depth) && p in m
    ensures Distinct(kids[p])
  {
    var s := kids[p];
    forall i, j | 0 <= i < |s| && 0 <= j < |s| && s[i] == s[j]
      ensures i == j
    {
      KidsDistinctAt(m, kids, depth, p, i, j);
    }
  }

  lemma {:induction false} KidsDistinctAt(m: map<NodeId, Node>, kids: map<NodeId, seq<NodeId>>, depth: map<NodeId, nat>,
                                          p: NodeId, i: nat, j: nat)
    requires Linked(m, kids, depth) && p in m
    requires i < |kids[p]| && j < |kids[p]| && kids[p][i] == kids[p][j]
    ensures i == j
    decreases i
  {
    assert ChildLinked(m, kids, p, i) && ChildLinked(m, kids, p, j);
    if i != 0 && j != 0 {
      KidsDistinctAt(m, kids, depth, p, i - 1, j - 1);
    }
  }

  /** A node without a parent is in no child list. */
  lemma RootNotAChild(m: map<NodeId, Node>, kids: map<NodeId, seq<NodeId>>, depth: map<NodeId, nat>, r: NodeId)
    requires Linked(m, kids, depth) && r in m && m[r].parent.None?
    ensures forall p | p in m :: r !in kids[p]
  {
    forall p, i | p in m && 0 <= i < |kids[p]|
      ensures kids[p][i] != r
    {
      assert ChildLinked(m, kids, p, i);
    }
  }

  /** The child lists of two different parents are disjoint. */
  lemma ChildOfOne(m: map<NodeId, Node>, kids: map<NodeId, seq<NodeId>>, depth: map<NodeId, nat>, p: NodeId, i: nat)
    requires Linked(m, kids, depth) && p in m && i < |kids[p]|
    ensures forall q | q in m && q != p :: kids[p][i] !in kids[q]
  {
    assert ChildLinked(m, kids, p, i);
    forall q, j | q in m && q != p && 0 <= j < |kids[q]|
      ensures kids[q][j] != kids[p][i]
    {
      assert ChildLinked(m, kids, q, j);
    }
  }

  /**
   * The ancestors of `n`, starting with `n` itself and following parent links
   * up to a root (`NodeId::ancestors`).
   */
  function Ancestors(m: map<NodeId, Node>, ghost depth: map<NodeId, nat>, n: NodeId): (r: seq<NodeId>)
    requires Ranked(m, depth) && n in m
    ensures |r| >= 1 && r[0] == n
    ensures forall i | 0 <= i < |r| :: r[i] in m
    ensures forall i | 0 <= i < |r| - 1 :: m[r[i]].parent == Some(r[i + 1])
    ensures m[r[|r| - 1]].parent.None?
    decreases depth[n]
  {
    match m[n].parent
    case None => [n]
    case Some(p) => [n] + Ancestors(m, depth, p)
  }

  /** The ancestors of `n` are exactly the nodes `n` lies below. */
  lemma {:induction false} AncestorsUnder(m: map<NodeId, Node>, depth: map<NodeId, nat>, n: NodeId, a: NodeId)
    requires Ranked(m, depth) && n in m
    ensures a in Ancestors(m, depth, n) <==> Under(m, depth, n, a)
    decreases depth[n]
  {
    if m[n].parent.Some? {
      AncestorsUnder(m, depth, m[n].parent.value, a);
    }
  }

  lemma {:induction false} AncestorDepths(m: map<NodeId, Node>, kids: map<NodeId, seq<NodeId>>, depth: map<NodeId, nat>, n: NodeId)
    requires Linked(m, kids, depth) && n in m
    ensures |Ancestors(m, depth, n)| == depth[n] + 1
    ensures forall i | 0 <= i < |Ancestors(m, depth, n)| ::
              Ancestors(m, depth, n)[i] in m && depth[Ancestors(m, depth, n)[i]] == depth[n] - i
    decreases depth[n]
  {
    if m[n].parent.Some? {
      AncestorDepths(m, kids, depth, m[n].parent.value);
    }
  }

  function Elems(s: seq<NodeId>): set<NodeId> { set x | x in s }

  lemma {:induction false} DistinctCard(s: seq<NodeId>)
    requires Distinct(s)
    ensures |Elems(s)| == |s|
  {
    if s != [] {
      var t := s[1..];
      forall i, j | 0 <= i < |t| && 0 <= j < |t| && t[i] == t[j]
        ensures i == j
      {
        assert s[i + 1] == s[j + 1];
      }
      DistinctCard(t);
      forall i | 0 <= i < |t|
        ensures t[i] != s[0]
      {
        assert s[i + 1] == t[i];
      }
      assert Elems(s) == Elems(t) + {s[0]};
    }
  }

  lemma CardOfSubset(s: set<NodeId>, t: set<NodeId>)
    requires s <= t
    ensures |s| <= |t|
  {
    assert t == s + (t - s);
    assert s * (t - s) == {};
    assert |s + (t - s)| == |s| + |t - s|;
  }

  /** Depths are bounded by the number of nodes, so a walk down the tree terminates. */
  lemma DepthBound(m: map<NodeId, Node>, kids: map<NodeId, seq<NodeId>>, depth: map<NodeId, nat>, n: NodeId)
    requires Linked(m, kids, depth) && n in m
    ensures depth[n] < |m|
  {
    var c := Ancestors(m, depth, n);
    AncestorDepths(m, kids, depth, n);
    forall i, j | 0 <= i < |c| && 0 <= j < |c| && c[i] == c[j]
      ensures i == j
    {
      assert depth[c[i]] == depth[n] - i && depth[c[j]] == depth[n] - j;
    }
    DistinctCard(c);
    CardOfSubset(Elems(c), m.Keys);
    assert |m.Keys| == |m|;
  }

  /**
   * The links after the root `x` becomes the child of `p` at position `j` of
   * `p`'s child list `L`: `x` gets its parent and siblings, the neighbours
   * point at `x`, and `p`'s first and last child follow the new list.
   */
  function InsertLinks(m: map<NodeId, Node>, L: seq<NodeId>, x: NodeId, p: NodeId, j: nat): map<NodeId, Node>
    requires j <= |L| && x in m && p in m
  {
    var L' := InsertAt(L, j, x);
    map k | k in m ::
      if k == x then m[x].(parent := Some(p), prevSibling := PrevIn(L', j), nextSibling := NextIn(L', j))
      else if k == p then m[p].(firstChild := FirstOf(L'), lastChild := LastOf(L'))
      else if 0 < j && k == L[j - 1] then m[k].(nextSibling := Some(x))
      else if j < |L| && k == L[j] then m[k].(prevSibling := Some(x))
      else m[k]
  }

  /** Facts about the children of one node that every link rewrite relies on. */
  lemma ChildFacts(m: map<NodeId, Node>, kids: map<NodeId, seq<NodeId>>, depth: map<NodeId, nat>, p: NodeId)
    requires Linked(m, kids, depth) && p in m
    ensures Distinct(kids[p])
    ensures forall i | 0 <= i < |kids[p]| ::
              kids[p][i] in m && m[kids[p][i]].parent == Some(p) && kids[p][i] != p
  {
    KidsDistinct(m, kids, depth, p);
    forall i | 0 <= i < |kids[p]|
      ensures kids[p][i] in m && m[kids[p][i]].parent == Some(p) && kids[p][i] != p
    {
      assert ChildLinked(m, kids, p, i);
    }
  }

  /** `x` is a root that may be linked below `p`: `p` is not in the subtree of `x`. */
  ghost predicate Linkable(m: map<NodeId, Node>, kids: map<NodeId, seq<NodeId>>, depth: map<NodeId, nat>,
                           x: NodeId, p: NodeId)
  {
    Linked(m, kids, depth) && x in m && p in m && m[x].parent.None? && !Under(m, depth, p, x)
  }

  lemma InsertRanked(m: map<NodeId, Node>, kids: map<NodeId, seq<NodeId>>, depth: map<NodeId, nat>,
                     x: NodeId, p: NodeId, j: nat)
    requires Linkable(m, kids, depth, x, p) && j <= |kids[p]|
    ensures var m' := InsertLinks(m, kids[p], x, p, j);
            var depth' := Shift(m, depth, x, depth[p] + 1);
            && m'.Keys == depth'.Keys == m.Keys
            && Ranked(m', depth')
            && (forall c | c in m' && m'[c].parent.None? ::
                  m'[c].prevSibling.None? && m'[c].nextSibling.None? && depth'[c] == 0)
  {
    InsertParentDepths(m, kids, depth, x, p, j);
    InsertRoots(m, kids, depth, x, p, j);
  }

  lemma InsertParentDepths(m: map<NodeId, Node>, kids: map<NodeId, seq<NodeId>>, depth: map<NodeId, nat>,
                           x: NodeId, p: NodeId, j: nat)
    requires Linkable(m, kids, depth, x, p) && j <= |kids[p]|
    ensures var m' := InsertLinks(m, kids[p], x, p, j);
            var depth' := Shift(m, depth, x, depth[p] + 1);
            forall c | c in m' && m'[c].parent.Some? ::
              m'[c].parent.value in m' && depth'[c] == depth'[m'[c].parent.value] + 1
  {
    var L := kids[p];
    var m' := InsertLinks(m, L, x, p, j);
    var depth' := Shift(m, depth, x, depth[p] + 1);
    ChildFacts(m, kids, depth, p);
    assert x != p;
    forall c | c in m' && m'[c].parent.Some?
      ensures m'[c].parent.value in m' && depth'[c] == depth'[m'[c].parent.value] + 1
    {
      InsertParentDepth(m, kids, depth, x, p, j, c);
    }
  }

  lemma InsertParentDepth(m: map<NodeId, Node>, kids: map<NodeId, seq<NodeId>>, depth: map<NodeId, nat>,
                          x: NodeId, p: NodeId, j: nat, c: NodeId)
    requires Linkable(m, kids, depth, x, p) && j <= |kids[p]|
    requires c in m && InsertLinks(m, kids[p], x, p, j)[c].parent.Some?
    ensures var m' := InsertLinks(m, kids[p], x, p, j);
            var depth' := Shift(m, depth, x, depth[p] + 1);
            m'[c].parent.value in m' && depth'[c] == depth'[m'[c].parent.value] + 1
  {
    ChildFacts(m, kids, depth, p);
    var m' := InsertLinks(m, kids[p], x, p, j);
    if c != x {
      var q := m[c].parent.value;
      assert m'[c].parent == m[c].parent;
      if Under(m, depth, c, x) {
        assert Under(m, depth, q, x);
        UnderDepth(m, depth, q, x);
      }
    }
  }

  lemma InsertRoots(m: map<NodeId, Node>, kids: map<NodeId, seq<NodeId>>, depth: map<NodeId, nat>,
                    x: NodeId, p: NodeId, j: nat)
    requires Linkable(m, kids, depth, x, p) && j <= |kids[p]|
    ensures var m' := InsertLinks(m, kids[p], x, p, j);
            var depth' := Shift(m, depth, x, depth[p] + 1);
            forall c | c in m' && m'[c].parent.None? ::
              m'[c].prevSibling.None? && m'[c].nextSibling.None? && depth'[c] == 0
  {
    var m' := InsertLinks(m, kids[p], x, p, j);
    forall c | c in m' && m'[c].parent.None?
      ensures m'[c].prevSibling.None? && m'[c].nextSibling.None?
      ensures Shift(m, depth, x, depth[p] + 1)[c] == 0
    {
      assert c != x && m[c].parent.None?;
      ChildFacts(m, kids, depth, p);
      assert !Under(m, depth, c, x);
    }
  }

  lemma InsertMembers(m: map<NodeId, Node>, kids: map<NodeId, seq<NodeId>>, depth: map<NodeId, nat>,
                      x: NodeId, p: NodeId, j: nat)
    requires Linkable(m, kids, depth, x, p) && j <= |kids[p]|
    ensures var m' := InsertLinks(m, kids[p], x, p, j);
            var kids' := kids[p := InsertAt(kids[p], j, x)];
            && (forall c | c in m' && m'[c].parent.Some? :: c in kids'[m'[c].parent.value])
            && (forall q | q in m' :: m'[q].firstChild == FirstOf(kids'[q]) && m'[q].lastChild == LastOf(kids'[q]))
  {
    InsertMembership(m, kids, depth, x, p, j);
    InsertEnds(m, kids, depth, x, p, j);
  }

  lemma InsertMembership(m: map<NodeId, Node>, kids: map<NodeId, seq<NodeId>>, depth: map<NodeId, nat>,
                         x: NodeId, p: NodeId, j: nat)
    requires Linkable(m, kids, depth, x, p) && j <= |kids[p]|
    ensures var m' := InsertLinks(m, kids[p], x, p, j);
            var kids' := kids[p := InsertAt(kids[p], j, x)];
            forall c | c in m' && m'[c].parent.Some? :: c in kids'[m'[c].parent.value]
  {
    var L := kids[p];
    var L' := InsertAt(L, j, x);
    var m' := InsertLinks(m, L, x, p, j);
    var kids' := kids[p := L'];
    forall c | c in m' && m'[c].parent.Some?
      ensures c in kids'[m'[c].parent.value]
    {
      if c != x && m[c].parent.value == p {
        var i :| 0 <= i < |L| && L[i] == c;
        if i < j { assert L'[i] == c; } else { assert L'[i + 1] == c; }
      }
    }
  }

  lemma InsertEnds(m: map<NodeId, Node>, kids: map<NodeId, seq<NodeId>>, depth: map<NodeId, nat>,
                   x: NodeId, p: NodeId, j: nat)
    requires Linkable(m, kids, depth, x, p) && j <= |kids[p]|
    ensures var m' := InsertLinks(m, kids[p], x, p, j);
            var kids' := kids[p := InsertAt(kids[p], j, x)];
            forall q | q in m' :: m'[q].firstChild == FirstOf(kids'[q]) && m'[q].lastChild == LastOf(kids'[q])
  {
    ChildFacts(m, kids, depth, p);
  }

  lemma InsertSiblings(m: map<NodeId, Node>, kids: map<NodeId, seq<NodeId>>, depth: map<NodeId, nat>,
                       x: NodeId, p: NodeId, j: nat)
    requires Linkable(m, kids, depth, x, p) && j <= |kids[p]|
    ensures var m' := InsertLinks(m, kids[p], x, p, j);
            var kids' := kids[p := InsertAt(kids[p], j, x)];
            forall i | 0 <= i < |kids'[p]| :: ChildLinked(m', kids', p, i)
  {
    var L := kids[p];
    var L' := InsertAt(L, j, x);
    var m' := InsertLinks(m, L, x, p, j);
    var kids' := kids[p := L'];
    ChildFacts(m, kids, depth, p);
    RootNotAChild(m, kids, depth, x);
    forall i | 0 <= i < |L'|
      ensures ChildLinked(m', kids', p, i)
    {
      if i < j {
        assert ChildLinked(m, kids, p, i);
      } else if j < i {
        assert ChildLinked(m, kids, p, i - 1);
      }
    }
  }

  lemma InsertOthers(m: map<NodeId, Node>, kids: map<NodeId, seq<NodeId>>, depth: map<NodeId, nat>,
                     x: NodeId, p: NodeId, j: nat)
    requires Linkable(m, kids, depth, x, p) && j <= |kids[p]|
    ensures var m' := InsertLinks(m, kids[p], x, p, j);
            var kids' := kids[p := InsertAt(kids[p], j, x)];
            forall q, i | q in m' && q != p && 0 <= i < |kids'[q]| :: ChildLinked(m', kids', q, i)
  {
    var L := kids[p];
    var m' := InsertLinks(m, L, x, p, j);
    var kids' := kids[p := InsertAt(L, j, x)];
    RootNotAChild(m, kids, depth, x);
    forall q, i | q in m' && q != p && 0 <= i < |kids'[q]|
      ensures ChildLinked(m', kids', q, i)
    {
      assert ChildLinked(m, kids, q, i);
      ChildOfOne(m, kids, depth, q, i);
      if j > 0 { assert L[j - 1] in L; }
      if j < |L| { assert L[j] in L; }
    }
  }

  /** Linking a root below a node outside its subtree keeps the forest well linked. */
  lemma InsertLinked(m: map<NodeId, Node>, kids: map<NodeId, seq<NodeId>>, depth: map<NodeId, nat>,
                     x: NodeId, p: NodeId, j: nat)
    requires Linkable(m, kids, depth, x, p) && j <= |kids[p]|
    ensures Linked(InsertLinks(m, kids[p], x, p, j), kids[p := InsertAt(kids[p], j, x)],
                   Shift(m, depth, x, depth[p] + 1))
  {
    var m' := InsertLinks(m, kids[p], x, p, j);
    var kids' := kids[p := InsertAt(kids[p], j, x)];
    var depth' := Shift(m, depth, x, depth[p] + 1);
    InsertRanked(m, kids, depth, x, p, j);
    InsertMembers(m, kids, depth, x, p, j);
    InsertSiblings(m, kids, depth, x, p, j);
    InsertOthers(m, kids, depth, x, p, j);
    assert m'.Keys == kids'.Keys;
    forall q, i | q in m' && 0 <= i < |kids'[q]|
      ensures ChildLinked(m', kids', q, i)
    {
      if q == p {
        assert 0 <= i < |kids'[p]|;
      }
    }
  }

  /**
   * The links after the `i`-th child `c` of `p` (child list `L`) is cut out:
   * its neighbours point past it, `p`'s first and last child follow the
   * shortened list, and `c` becomes a root with its own children intact.
   */
  function UnlinkLinks(m: map<NodeId, Node>, L: seq<NodeId>, c: NodeId, p: NodeId, i: nat): map<NodeId, Node>
    requires i < |L| && c in m && p in m
  {
    var L' := RemoveAt(L, i);
    map k | k in m ::
      if k == c then m[c].(parent := None, prevSibling := None, nextSibling := None)
      else if k == p then m[p].(firstChild := FirstOf(L'), lastChild := LastOf(L'))
      else if 0 < i && k == L[i - 1] then m[k].(nextSibling := NextIn(L, i))
      else if i + 1 < |L| && k == L[i + 1] then m[k].(prevSibling := PrevIn(L, i))
      else m[k]
  }

  lemma UnlinkRanked(m: map<NodeId, Node>, kids: map<NodeId, seq<NodeId>>, depth: map<NodeId, nat>, p: NodeId, i: nat)
    requires Linked(m, kids, depth) && p in m && i < |kids[p]|
    ensures kids[p][i] in m
    ensures var c := kids[p][i];
            var m' := UnlinkLinks(m, kids[p], c, p, i);
            var depth' := Shift(m, depth, c, 0);
            && m'.Keys == depth'.Keys == m.Keys
            && Ranked(m', depth')
  {
    var L := kids[p];
    assert ChildLinked(m, kids, p, i);
    var c := L[i];
    var m' := UnlinkLinks(m, L, c, p, i);
    var depth' := Shift(m, depth, c, 0);
    forall k | k in m' && m'[k].parent.Some?
      ensures m'[k].parent.value in m' && depth'[k] == depth'[m'[k].parent.value] + 1
    {
      UnlinkParentDepth(m, kids, depth, p, i, k);
    }
  }

  lemma UnlinkParentDepth(m: map<NodeId, Node>, kids: map<NodeId, seq<NodeId>>, depth: map<NodeId, nat>,
                          p: NodeId, i: nat, k: NodeId)
    requires Linked(m, kids, depth) && p in m && i < |kids[p]| && kids[p][i] in m
    requires k in m && UnlinkLinks(m, kids[p], kids[p][i], p, i)[k].parent.Some?
    ensures var c := kids[p][i];
            var m' := UnlinkLinks(m, kids[p], c, p, i);
            var depth' := Shift(m, depth, c, 0);
            m'[k].parent.value in m' && depth'[k] == depth'[m'[k].parent.value] + 1
  {
    var L := kids[p];
    var c := L[i];
    assert ChildLinked(m, kids, p, i);
    var m' := UnlinkLinks(m, L, c, p, i);
    var q := m[k].parent.value;
    assert k != c && m'[k].parent == m[k].parent;
    if Under(m, depth, k, c) {
      assert Under(m, depth, q, c);
      UnderDepth(m, depth, q, c);
    }
  }

  lemma UnlinkRoots(m: map<NodeId, Node>, kids: map<NodeId, seq<NodeId>>, depth: map<NodeId, nat>, p: NodeId, i: nat)
    requires Linked(m, kids, depth) && p in m && i < |kids[p]|
    ensures kids[p][i] in m
    ensures var c := kids[p][i];
            var m' := UnlinkLinks(m, kids[p], c, p, i);
            var depth' := Shift(m, depth, c, 0);
            forall k | k in m' && m'[k].parent.None? ::
              m'[k].prevSibling.None? && m'[k].nextSibling.None? && depth'[k] == 0
  {
    var L := kids[p];
    ChildFacts(m, kids, depth, p);
    var c := L[i];
    var m' := UnlinkLinks(m, L, c, p, i);
    var depth' := Shift(m, depth, c, 0);
    forall k | k in m' && m'[k].parent.None?
      ensures m'[k].prevSibling.None? && m'[k].nextSibling.None? && depth'[k] == 0
    {
      if k != c {
        assert m[k].parent.None?;
        assert !Under(m, depth, k, c);
      }
    }
  }

  lemma UnlinkMembers(m: map<NodeId, Node>, kids: map<NodeId, seq<NodeId>>, depth: map<NodeId, nat>, p: NodeId, i: nat)
    requires Linked(m, kids, depth) && p in m && i < |kids[p]|
    ensures kids[p][i] in m
    ensures var m' := UnlinkLinks(m, kids[p], kids[p][i], p, i);
            var kids' := kids[p := RemoveAt(kids[p], i)];
            && (forall k | k in m' && m'[k].parent.Some? :: k in kids'[m'[k].parent.value])
            && (forall q | q in m' :: m'[q].firstChild == FirstOf(kids'[q]) && m'[q].lastChild == LastOf(kids'[q]))
  {
    UnlinkMembership(m, kids, depth, p, i);
    UnlinkEnds(m, kids, depth, p, i);
  }

  lemma UnlinkMembership(m: map<NodeId, Node>, kids: map<NodeId, seq<NodeId>>, depth: map<NodeId, nat>, p: NodeId, i: nat)
    requires Linked(m, kids, depth) && p in m && i < |kids[p]|
    ensures kids[p][i] in m
    ensures var m' := UnlinkLinks(m, kids[p], kids[p][i], p, i);
            var kids' := kids[p := RemoveAt(kids[p], i)];
            forall k | k in m' && m'[k].parent.Some? :: k in kids'[m'[k].parent.value]
  {
    assert ChildLinked(m, kids, p, i);
    var L := kids[p];
    var m' := UnlinkLinks(m, L, L[i], p, i);
    forall k | k in m' && m'[k].parent.Some?
      ensures k in kids[p := RemoveAt(L, i)][m'[k].parent.value]
    {
      UnlinkMember(m, kids, depth, p, i, k);
    }
  }

  lemma UnlinkMember(m: map<NodeId, Node>, kids: map<NodeId, seq<NodeId>>, depth: map<NodeId, nat>,
                     p: NodeId, i: nat, k: NodeId)
    requires Linked(m, kids, depth) && p in m && i < |kids[p]| && kids[p][i] in m
    requires k in m && UnlinkLinks(m, kids[p], kids[p][i], p, i)[k].parent.Some?
    ensures var m' := UnlinkLinks(m, kids[p], kids[p][i], p, i);
            k in kids[p := RemoveAt(kids[p], i)][m'[k].parent.value]
  {
    var L := kids[p];
    KidsDistinct(m, kids, depth, p);
    var L' := RemoveAt(L, i);
    if m[k].parent.value == p {
      var t :| 0 <= t < |L| && L[t] == k;
      if t < i { assert L'[t] == k; } else { assert L'[t - 1] == k; }
    }
  }

  lemma UnlinkEnds(m: map<NodeId, Node>, kids: map<NodeId, seq<NodeId>>, depth: map<NodeId, nat>, p: NodeId, i: nat)
    requires Linked(m, kids, depth) && p in m && i < |kids[p]|
    ensures kids[p][i] in m
    ensures var m' := UnlinkLinks(m, kids[p], kids[p][i], p, i);
            var kids' := kids[p := RemoveAt(kids[p], i)];
            forall q | q in m' :: m'[q].firstChild == FirstOf(kids'[q]) && m'[q].lastChild == LastOf(kids'[q])
  {
    ChildFacts(m, kids, depth, p);
  }

  lemma UnlinkSiblings(m: map<NodeId, Node>, kids: map<NodeId, seq<NodeId>>, depth: map<NodeId, nat>, p: NodeId, i: nat)
    requires Linked(m, kids, depth) && p in m && i < |kids[p]|
    ensures kids[p][i] in m
    ensures var m' := UnlinkLinks(m, kids[p], kids[p][i], p, i);
            var kids' := kids[p := RemoveAt(kids[p], i)];
            forall t | 0 <= t < |kids'[p]| :: ChildLinked(m', kids', p, t)
  {
    var L := kids[p];
    ChildFacts(m, kids, depth, p);
    var L' := RemoveAt(L, i);
    var m' := UnlinkLinks(m, L, L[i], p, i);
    var kids' := kids[p := L'];
    forall t | 0 <= t < |L'|
      ensures ChildLinked(m', kids', p, t)
    {
      if t < i {
        assert ChildLinked(m, kids, p, t);
      } else {
        assert ChildLinked(m, kids, p, t + 1);
      }
    }
  }

  lemma UnlinkOthers(m: map<NodeId, Node>, kids: map<NodeId, seq<NodeId>>, depth: map<NodeId, nat>, p: NodeId, i: nat)
    requires Linked(m, kids, depth) && p in m && i < |kids[p]|
    ensures kids[p][i] in m
    ensures var m' := UnlinkLinks(m, kids[p], kids[p][i], p, i);
            var kids' := kids[p := RemoveAt(kids[p], i)];
            forall q, t | q in m' && q != p && 0 <= t < |kids'[q]| :: ChildLinked(m', kids', q, t)
  {
    var L := kids[p];
    ChildFacts(m, kids, depth, p);
    var m' := UnlinkLinks(m, L, L[i], p, i);
    var kids' := kids[p := RemoveAt(L, i)];
    forall q, t | q in m' && q != p && 0 <= t < |kids'[q]|
      ensures ChildLinked(m', kids', q, t)
    {
      assert ChildLinked(m, kids, q, t);
      ChildOfOne(m, kids, depth, q, t);
      assert L[i] in L;
      if i > 0 { assert L[i - 1] in L; }
      if i + 1 < |L| { assert L[i + 1] in L; }
    }
  }

  /** Cutting a child out of its parent's list keeps the forest well linked. */
  lemma UnlinkLinked(m: map<NodeId, Node>, kids: map<NodeId, seq<NodeId>>, depth: map<NodeId, nat>, p: NodeId, i: nat)
    requires Linked(m, kids, depth) && p in m && i < |kids[p]|
    ensures kids[p][i] in m
    ensures Linked(UnlinkLinks(m, kids[p], kids[p][i], p, i), kids[p := RemoveAt(kids[p], i)],
                   Shift(m, depth, kids[p][i], 0))
  {
    assert ChildLinked(m, kids, p, i);
    var c := kids[p][i];
    var m' := UnlinkLinks(m, kids[p], c, p, i);
    var kids' := kids[p := RemoveAt(kids[p], i)];
    var depth' := Shift(m, depth, c, 0);
    UnlinkRanked(m, kids, depth, p, i);
    UnlinkRoots(m, kids, depth, p, i);
    UnlinkMembers(m, kids, depth, p, i);
    UnlinkSiblings(m, kids, depth, p, i);
    UnlinkOthers(m, kids, depth, p, i);
    assert m'.Keys == kids'.Keys;
    forall q, t | q in m' && 0 <= t < |kids'[q]|
      ensures ChildLinked(m', kids', q, t)
    {
      if q == p {
        assert 0 <= t < |kids'[p]|;
      }
    }
  }

  /** Removing a whole tree, from its root down, keeps the rest of the forest well linked. */
  lemma DeleteLinked(m: map<NodeId, Node>, kids: map<NodeId, seq<NodeId>>, depth: map<NodeId, nat>, a: NodeId)
    requires Linked(m, kids, depth) && a in m && m[a].parent.None?
    ensures var s := Sub(m, depth, a); Linked(m - s, kids - s, depth - s)
  {
    var s := Sub(m, depth, a);
    var m', kids', depth' := m - s, kids - s, depth - s;
    forall c | c in m' && m'[c].parent.Some?
      ensures m'[c].parent.value in m'
    {
      var q := m[c].parent.value;
      if q in s {
        assert Under(m, depth, c, a);
      }
    }
    assert Ranked(m', depth');
    forall q, i | q in m' && 0 <= i < |kids'[q]|
      ensures ChildLinked(m', kids', q, i)
    {
      assert ChildLinked(m, kids, q, i);
    }
  }

  /** Two forests with the same parent links apart from that of `c` agree on what lies under `c`. */
  lemma {:induction false} SameUnder(m: map<NodeId, Node>, d: map<NodeId, nat>,
                                     m': map<NodeId, Node>, d': map<NodeId, nat>, k: NodeId, c: NodeId)
    requires Ranked(m, d) && Ranked(m', d') && m.Keys <= m'.Keys && k in m
    requires forall n | n in m && n != c :: m'[n].parent == m[n].parent
    ensures Under(m', d', k, c) <==> Under(m, d, k, c)
    decreases d[k]
  {
    if k != c && m[k].parent.Some? {
      SameUnder(m, d, m', d', m[k].parent.value, c);
    }
  }

  lemma SameSub(m: map<NodeId, Node>, d: map<NodeId, nat>, m': map<NodeId, Node>, d': map<NodeId, nat>, c: NodeId)
    requires Ranked(m, d) && Ranked(m', d') && m.Keys == m'.Keys
    requires forall n | n in m && n != c :: m'[n].parent == m[n].parent
    ensures Sub(m', d', c) == Sub(m, d, c)
  {
    forall k | k in m
      ensures Under(m', d', k, c) <==> Under(m, d, k, c)
    {
      SameUnder(m, d, m', d', k, c);
    }
  }

  /** A node added with no links is a leaf root and lies below no other node. */
  lemma FreshLeaf(m: map<NodeId, Node>, kids: map<NodeId, seq<NodeId>>, depth: map<NodeId, nat>, x: NodeId)
    requires Linked(m, kids, depth) && x !in m
    ensures Linked(m[x := Unlinked], kids[x := []], depth[x := 0])
    ensures forall k | k in m :: !Under(m[x := Unlinked], depth[x := 0], k, x)
  {
    FreshLinked(m, kids, depth, x);
    FreshNotAbove(m, depth, x);
  }

  lemma FreshLinked(m: map<NodeId, Node>, kids: map<NodeId, seq<NodeId>>, depth: map<NodeId, nat>, x: NodeId)
    requires Linked(m, kids, depth) && x !in m
    ensures Linked(m[x := Unlinked], kids[x := []], depth[x := 0])
  {
    var m', k', d' := m[x := Unlinked], kids[x := []], depth[x := 0];
    forall c | c in m' && m'[c].parent.Some?
      ensures m'[c].parent.value in m' && d'[c] == d'[m'[c].parent.value] + 1
    {
      assert c != x && m'[c] == m[c] && m[c].parent.value != x;
    }
    forall c | c in m' && m'[c].parent.Some?
      ensures c in k'[m'[c].parent.value]
    {
      assert c != x && m'[c] == m[c] && m[c].parent.value != x;
    }
    forall p | p in m'
      ensures m'[p].firstChild == FirstOf(k'[p]) && m'[p].lastChild == LastOf(k'[p])
    {
      if p != x {
        assert m'[p] == m[p] && k'[p] == kids[p];
      }
    }
    forall p, i | p in m' && 0 <= i < |k'[p]|
      ensures ChildLinked(m', k', p, i)
    {
      assert p != x && k'[p] == kids[p];
      assert ChildLinked(m, kids, p, i);
      assert kids[p][i] != x && m'[kids[p][i]] == m[kids[p][i]];
    }
  }


  lemma FreshNotAbove(m: map<NodeId, Node>, depth: map<NodeId, nat>, x: NodeId)
    requires Ranked(m, depth) && x !in m && Ranked(m[x := Unlinked], depth[x := 0])
    ensures forall k | k in m :: !Under(m[x := Unlinked], depth[x := 0], k, x)
  {
    var m', d' := m[x := Unlinked], depth[x := 0];
    forall k | k in m
      ensures !Under(m', d', k, x)
    {
      if Under(m, depth, k, x) {
        UnderDepth(m, depth, k, x);
      }
      SameUnder(m, depth, m', d', k, x);
    }
  }

  /** The sibling links are symmetric: `a`'s next sibling is `b` exactly when `b`'s previous sibling is `a`. */
  lemma SiblingSymmetry(m: map<NodeId, Node>, kids: map<NodeId, seq<NodeId>>, depth: map<NodeId, nat>, a: NodeId, b: NodeId)
    requires Linked(m, kids, depth) && a in m && b in m
    ensures m[a].nextSibling == Some(b) <==> m[b].prevSibling == Some(a)
  {
    if m[a].nextSibling == Some(b) {
      var p := m[a].parent.value;
      var i :| 0 <= i < |kids[p]| && kids[p][i] == a;
      assert ChildLinked(m, kids, p, i) && ChildLinked(m, kids, p, i + 1);
    }
    if m[b].prevSibling == Some(a) {
      var p := m[b].parent.value;
      var i :| 0 <= i < |kids[p]| && kids[p][i] == b;
      assert ChildLinked(m, kids, p, i) && ChildLinked(m, kids, p, i - 1);
      KidsDistinct(m, kids, depth, p);
    }
  }

  /** The position of `x` in `s`. */
  function IndexOf(s: seq<NodeId>, x: NodeId): (i: nat)
    requires x in s
    ensures i < |s| && s[i] == x
    ensures forall t | 0 <= t < i :: s[t] != x
  {
    if s[0] == x then 0 else 1 + IndexOf(s[1..], x)
  }

  /** The union of the subtrees of the nodes of `s`. */
  ghost function SubsOf(m: map<NodeId, Node>, depth: map<NodeId, nat>, s: seq<NodeId>): set<NodeId>
    requires Ranked(m, depth)
  {
    if s == [] then {} else SubsOf(m, depth, s[..|s| - 1]) + Sub(m, depth, s[|s| - 1])
  }

  lemma {:induction false} SubsOfIn(m: map<NodeId, Node>, depth: map<NodeId, nat>, s: seq<NodeId>, k: NodeId)
    requires Ranked(m, depth)
    ensures k in SubsOf(m, depth, s) <==> exists i | 0 <= i < |s| :: k in Sub(m, depth, s[i])
  {
    if s != [] {
      var t := s[..|s| - 1];
      SubsOfIn(m, depth, t, k);
      if k in SubsOf(m, depth, t) {
        var i :| 0 <= i < |t| && k in Sub(m, depth, t[i]);
        assert s[i] == t[i];
      }
      forall i | 0 <= i < |s| - 1 && k in Sub(m, depth, s[i])
        ensures k in SubsOf(m, depth, t)
      {
        assert t[i] == s[i];
      }
    }
  }

  /** Below a node lie exactly the subtrees of its children. */
  lemma ChildSubs(m: map<NodeId, Node>, kids: map<NodeId, seq<NodeId>>, depth: map<NodeId, nat>, a: NodeId)
    requires Linked(m, kids, depth) && a in m
    ensures SubsOf(m, depth, kids[a]) == Sub(m, depth, a) - {a}
  {
    ChildFacts(m, kids, depth, a);
    forall k | k in Sub(m, depth, a) - {a}
      ensures k in SubsOf(m, depth, kids[a])
    {
      var c := PathChild(m, depth, k, a);
      var i :| 0 <= i < |kids[a]| && kids[a][i] == c;
      assert k in Sub(m, depth, kids[a][i]);
      SubsOfIn(m, depth, kids[a], k);
    }
    forall k | k in SubsOf(m, depth, kids[a])
      ensures k in Sub(m, depth, a) - {a}
    {
      SubsOfIn(m, depth, kids[a], k);
      var i :| 0 <= i < |kids[a]| && k in Sub(m, depth, kids[a][i]);
      var c := kids[a][i];
      assert Under(m, depth, c, a);
      UnderTrans(m, depth, k, c, a);
      UnderDepth(m, depth, k, c);
    }
  }

  /** The subtrees of two different children of one node are disjoint. */
  lemma SiblingSubsDisjoint(m: map<NodeId, Node>, kids: map<NodeId, seq<NodeId>>, depth: map<NodeId, nat>,
                            a: NodeId, i: nat, j: nat)
    requires Linked(m, kids, depth) && a in m && i < |kids[a]| && j < |kids[a]| && i != j
    ensures Sub(m, depth, kids[a][i]) !! Sub(m, depth, kids[a][j])
  {
    ChildFacts(m, kids, depth, a);
    forall k | k in Sub(m, depth, kids[a][i]) && k in Sub(m, depth, kids[a][j])
      ensures false
    {
      UnderSameDepth(m, depth, k, kids[a][i], kids[a][j]);
    }
  }

  /**
   * The links around position `j` of `p`'s child list `L` that splicing the
   * root `x` in at that position reads and rewrites.
   */
  ghost predicate Splicable(m: map<NodeId, Node>, L: seq<NodeId>, x: NodeId, p: NodeId, j: nat)
  {
    && j <= |L| && x in m && p in m && x != p
    && m[x].parent.None? && m[x].prevSibling.None? && m[x].nextSibling.None?
    && m[p].firstChild == FirstOf(L) && m[p].lastChild == LastOf(L)
    && Distinct(L)
    && (forall i | 0 <= i < |L| :: L[i] in m && L[i] != x && L[i] != p)
    && (0 < j ==> m[L[j - 1]].nextSibling == NextIn(L, j - 1))
    && (j < |L| ==> m[L[j]].prevSibling == PrevIn(L, j))
  }

  lemma LinkableSplicable(m: map<NodeId, Node>, kids: map<NodeId, seq<NodeId>>, depth: map<NodeId, nat>,
                          x: NodeId, p: NodeId, j: nat)
    requires Linkable(m, kids, depth, x, p) && j <= |kids[p]|
    ensures Splicable(m, kids[p], x, p, j)
  {
    ChildFacts(m, kids, depth, p);
    RootNotAChild(m, kids, depth, x);
    if 0 < j { assert ChildLinked(m, kids, p, j - 1); }
    if j < |kids[p]| { assert ChildLinked(m, kids, p, j); }
  }

  lemma InsertParents(m: map<NodeId, Node>, L: seq<NodeId>, x: NodeId, p: NodeId, j: nat)
    requires j <= |L| && x in m && p in m
    ensures InsertLinks(m, L, x, p, j).Keys == m.Keys
    ensures forall n | n in m && n != x :: InsertLinks(m, L, x, p, j)[n].parent == m[n].parent
  {
  }

  /**
   * When only the child list of `q` changes, and it gains or loses no node
   * other than `x`, every node other than `x` keeps its parent.
   */
  lemma KidsKeepParents(m0: map<NodeId, Node>, k0: map<NodeId, seq<NodeId>>, d0: map<NodeId, nat>,
                        m1: map<NodeId, Node>, k1: map<NodeId, seq<NodeId>>, d1: map<NodeId, nat>,
                        x: NodeId, q: NodeId, L: seq<NodeId>)
    requires Linked(m0, k0, d0) && Linked(m1, k1, d1) && m1.Keys == m0.Keys && q in m0
    requires k1 == k0[q := L]
    requires forall n | n in L && n != x :: n in k0[q]
    requires forall n | n in k0[q] :: n in L
    ensures ParentsKept(m0, m1, x)
  {
    forall n | n in m1 && n != x
      ensures n in m0 && m1[n].parent == m0[n].parent
    {
      if m0[n].parent.Some? {
        var y := m0[n].parent.value;
        assert n in k1[y];
        KidStep(m1, k1, d1, y, n);
      } else if m1[n].parent.Some? {
        var y := m1[n].parent.value;
        assert n in k0[y];
        KidStep(m0, k0, d0, y, n);
        assert false;
      }
    }
  }

  /** Linking `x` below `p` leaves the subtree of `x` as it was. */
  lemma InsertSameSub(m: map<NodeId, Node>, kids: map<NodeId, seq<NodeId>>, depth: map<NodeId, nat>,
                      x: NodeId, p: NodeId, j: nat)
    requires Linkable(m, kids, depth, x, p) && j <= |kids[p]|
    ensures Ranked(InsertLinks(m, kids[p], x, p, j), Shift(m, depth, x, depth[p] + 1))
    ensures Sub(InsertLinks(m, kids[p], x, p, j), Shift(m, depth, x, depth[p] + 1), x) == Sub(m, depth, x)
  {
    InsertRanked(m, kids, depth, x, p, j);
    InsertParents(m, kids[p], x, p, j);
    SameSub(m, depth, InsertLinks(m, kids[p], x, p, j), Shift(m, depth, x, depth[p] + 1), x);
  }

  /**
   * Everything a link rewrite needs to know to keep a well-linked forest well
   * linked; `depth'` is the new depth map.
   */
  lemma AttachFacts(m: map<NodeId, Node>, kids: map<NodeId, seq<NodeId>>, depth: map<NodeId, nat>,
                    x: NodeId, p: NodeId, j: nat)
    returns (depth': map<NodeId, nat>)
    requires Linkable(m, kids, depth, x, p) && j <= |kids[p]|
    ensures Splicable(m, kids[p], x, p, j)
    ensures Linked(InsertLinks(m, kids[p], x, p, j), kids[p := InsertAt(kids[p], j, x)], depth')
    ensures Sub(InsertLinks(m, kids[p], x, p, j), depth', x) == Sub(m, depth, x)
  {
    LinkableSplicable(m, kids, depth, x, p, j);
    InsertSameSub(m, kids, depth, x, p, j);
    InsertLinked(m, kids, depth, x, p, j);
    depth' := Shift(m, depth, x, depth[p] + 1);
  }

  /** The part of `PushFacts` a link helper needs before it runs. */
  lemma PushSplicable(m: map<NodeId, Node>, kids: map<NodeId, seq<NodeId>>, depth: map<NodeId, nat>,
                      x: NodeId, p: NodeId, j: nat)
    requires Linked(m, kids, depth) && x !in m && p in m && j <= |kids[p]|
    ensures Splicable(m[x := Unlinked], kids[p], x, p, j)
  {
    PushFacts(m, kids, depth, x, p, j);
  }

  /**
   * A fresh node `x` linked in as the `j`-th child of `p`: the link helpers
   * can splice it in, and the result is well linked with `x` one level
   * below `p`.
   */
  lemma PushFacts(m: map<NodeId, Node>, kids: map<NodeId, seq<NodeId>>, depth: map<NodeId, nat>,
                  x: NodeId, p: NodeId, j: nat)
    requires Linked(m, kids, depth) && x !in m && p in m && j <= |kids[p]|
    ensures Splicable(m[x := Unlinked], kids[p], x, p, j)
    ensures Linked(InsertLinks(m[x := Unlinked], kids[p], x, p, j), kids[x := []][p := InsertAt(kids[p], j, x)],
                   depth[x := depth[p] + 1])
    ensures InsertLinks(m[x := Unlinked], kids[p], x, p, j).Keys == m.Keys + {x}
  {
    FreshLeaf(m, kids, depth, x);
    var m', k', d' := m[x := Unlinked], kids[x := []], depth[x := 0];
    assert k'[p] == kids[p];
    LinkableSplicable(m', k', d', x, p, j);
    InsertLinked(m', k', d', x, p, j);
    ShiftFresh(m, kids, depth, x, p);
  }

  /** A fresh leaf hung below `p` sits one level below `p`; no other depth changes. */
  lemma ShiftFresh(m: map<NodeId, Node>, kids: map<NodeId, seq<NodeId>>, depth: map<NodeId, nat>,
                   x: NodeId, p: NodeId)
    requires Linked(m, kids, depth) && x !in m && p in m
    ensures Shift(m[x := Unlinked], depth[x := 0], x, depth[p] + 1) == depth[x := depth[p] + 1]
  {
    var m', d' := m[x := Unlinked], depth[x := 0];
    assert Ranked(m', d');
    FreshNotAbove(m, depth, x);
    var s := Shift(m', d', x, depth[p] + 1);
    forall k | k in s ensures s[k] == depth[x := depth[p] + 1][k] {
      if k != x && k in m {
        assert !Under(m', d', k, x);
      }
    }
  }



  /** The local facts the unlink code relies on when it cuts `c`, the `i`-th child of `p`, out of `L`. */
  ghost predicate Unsplicable(m: map<NodeId, Node>, L: seq<NodeId>, c: NodeId, p: NodeId, i: nat)
  {
    && i < |L| && L[i] == c && c in m && p in m && c != p
    && m[c].parent == Some(p) && m[c].prevSibling == PrevIn(L, i) && m[c].nextSibling == NextIn(L, i)
    && m[p].firstChild == FirstOf(L) && m[p].lastChild == LastOf(L)
    && Distinct(L)
    && (forall k | 0 <= k < |L| :: L[k] in m && L[k] != p)
  }

  lemma UnlinkParents(m: map<NodeId, Node>, L: seq<NodeId>, c: NodeId, p: NodeId, i: nat)
    requires i < |L| && c in m && p in m
    ensures UnlinkLinks(m, L, c, p, i).Keys == m.Keys
    ensures forall n | n in m && n != c :: UnlinkLinks(m, L, c, p, i)[n].parent == m[n].parent
  {
  }

  /**
   * Everything an unlink needs to know to keep a well-linked forest well
   * linked; `depth'` is the new depth map, under which the cut-out node is a
   * root whose subtree is unchanged.
   */
  lemma DetachFacts(m: map<NodeId, Node>, kids: map<NodeId, seq<NodeId>>, depth: map<NodeId, nat>, p: NodeId, i: nat)
    returns (depth': map<NodeId, nat>)
    requires Linked(m, kids, depth) && p in m && i < |kids[p]|
    ensures Unsplicable(m, kids[p], kids[p][i], p, i)
    ensures Linked(UnlinkLinks(m, kids[p], kids[p][i], p, i), kids[p := RemoveAt(kids[p], i)], depth')
    ensures Sub(UnlinkLinks(m, kids[p], kids[p][i], p, i), depth', kids[p][i]) == Sub(m, depth, kids[p][i])
  {
    ChildFacts(m, kids, depth, p);
    assert ChildLinked(m, kids, p, i);
    var c := kids[p][i];
    UnlinkLinked(m, kids, depth, p, i);
    UnlinkRanked(m, kids, depth, p, i);
    UnlinkParents(m, kids[p], c, p, i);
    depth' := Shift(m, depth, c, 0);
    SameSub(m, depth, UnlinkLinks(m, kids[p], c, p, i), depth', c);
  }

  /** Appending a node and then a list of its descendants to a list of other nodes keeps it free of repeats. */
  lemma DeleteAppend(deleted: seq<NodeId>, c: NodeId, sub: seq<NodeId>, done: set<NodeId>, s: set<NodeId>)
    requires Distinct(deleted) && Elems(deleted) == done
    requires Distinct(sub) && Elems(sub) == s - {c} && c in s && s !! done
    ensures Distinct(deleted + [c] + sub) && Elems(deleted + [c] + sub) == done + s
    ensures Elems(deleted + [c] + sub) == Elems(deleted) + {c} + Elems(sub)
  {
    var r := deleted + [c] + sub;
    forall i, j | 0 <= i < j < |r|
      ensures r[i] != r[j]
    {
      if j < |deleted| {
        assert r[i] == deleted[i] && r[j] == deleted[j];
      } else if j == |deleted| {
        assert r[i] in Elems(deleted);
      } else if i < |deleted| {
        assert r[j] == sub[j - |deleted| - 1] && r[j] in Elems(sub);
        assert r[i] in Elems(deleted);
      } else if i == |deleted| {
        assert r[j] == sub[j - |deleted| - 1] && r[j] in Elems(sub);
      } else {
        assert r[i] == sub[i - |deleted| - 1] && r[j] == sub[j - |deleted| - 1];
      }
    }
    forall k | k in done + s
      ensures k in Elems(r)
    {
      if k in done {
        var i :| 0 <= i < |deleted| && deleted[i] == k;
        assert r[i] == k;
      } else if k == c {
        assert r[|deleted|] == k;
      } else {
        assert k in Elems(sub);
        var i :| 0 <= i < |sub| && sub[i] == k;
        assert r[|deleted| + 1 + i] == k;
      }
    }
    forall k | k in Elems(r)
      ensures k in done + s
    {
      var i :| 0 <= i < |r| && r[i] == k;
      if i < |deleted| {
        assert k in Elems(deleted);
      } else if i > |deleted| {
        assert k == sub[i - |deleted| - 1] && k in Elems(sub);
      }
    }
  }

  /** Before the walk over the children of `a`: nothing is deleted yet, and the walk starts at the first child. */
  lemma DeleteStart(m: map<NodeId, Node>, kids: map<NodeId, seq<NodeId>>, depth: map<NodeId, nat>, a: NodeId)
    requires Linked(m, kids, depth) && a in m
    ensures depth[a] < |m| && m[a].firstChild == FirstOf(kids[a])
    ensures SubsOf(m, depth, kids[a][..0]) == {} && Distinct([]) && Elems([]) == {}
  {
    DepthBound(m, kids, depth, a);
    assert kids[a][..0] == [];
  }

  /** After the walk over all children of `a`: everything below `a` is deleted. */
  lemma DeleteEnd(m: map<NodeId, Node>, kids: map<NodeId, seq<NodeId>>, depth: map<NodeId, nat>, a: NodeId)
    requires Linked(m, kids, depth) && a in m
    ensures SubsOf(m, depth, kids[a][..|kids[a]|]) == Sub(m, depth, a) - {a}
  {
    ChildSubs(m, kids, depth, a);
    assert kids[a][..|kids[a]|] == kids[a];
  }

  /**
   * What deleting the `i`-th child `c` of `a`, after the children before it,
   * relies on: the subtree of `c` lies below `a` and is disjoint from what has
   * already been deleted, and adding it accounts for one more child.
   */
  lemma DeleteStep(m: map<NodeId, Node>, kids: map<NodeId, seq<NodeId>>, depth: map<NodeId, nat>,
                   a: NodeId, i: nat, done: set<NodeId>)
    requires Linked(m, kids, depth) && a in m && i < |kids[a]| && done == SubsOf(m, depth, kids[a][..i])
    ensures var c := kids[a][i];
            && c in m && m[c].parent == Some(a) && depth[c] == depth[a] + 1 && depth[c] < |m|
            && m[c].nextSibling == NextIn(kids[a], i)
            && c in Sub(m, depth, c) && c !in done
            && (forall k | k in Sub(m, depth, c) :: k in Sub(m, depth, a) && k != a && k !in done)
            && SubsOf(m, depth, kids[a][..i + 1]) == done + Sub(m, depth, c)
  {
    ChildFacts(m, kids, depth, a);
    assert ChildLinked(m, kids, a, i);
    var c := kids[a][i];
    DepthBound(m, kids, depth, c);
    assert Under(m, depth, c, a);
    forall k | k in Sub(m, depth, c)
      ensures k in Sub(m, depth, a) && k != a && k !in done
    {
      UnderTrans(m, depth, k, c, a);
      UnderDepth(m, depth, k, c);
      SubsOfIn(m, depth, kids[a][..i], k);
      forall t | 0 <= t < i && k in Sub(m, depth, kids[a][..i][t])
        ensures false
      {
        SiblingSubsDisjoint(m, kids, depth, a, t, i);
      }
    }
    assert kids[a][..i + 1][..i] == kids[a][..i];
  }

  lemma MinusMinus(m: map<NodeId, Node>, a: set<NodeId>, b: set<NodeId>)
    ensures m - a - b == m - (a + b)
  {
  }

  /** `c` is in the slot map and, if it has a parent, in that parent's child list. */
  ghost predicate Placed(m: map<NodeId, Node>, kids: map<NodeId, seq<NodeId>>, c: NodeId)
  {
    c in m && (m[c].parent.Some? ==> m[c].parent.value in m && m[c].parent.value in kids &&
                                      c in kids[m[c].parent.value])
  }

  /** The link records once `c` is cut from its parent, if it has one. */
  ghost function CutLinks(m: map<NodeId, Node>, kids: map<NodeId, seq<NodeId>>, c: NodeId): map<NodeId, Node>
    requires Placed(m, kids, c)
  {
    match m[c].parent
    case None => m
    case Some(p) => UnlinkLinks(m, kids[p], c, p, IndexOf(kids[p], c))
  }

  /** The ordered children once `c` is cut from its parent, if it has one. */
  ghost function CutKids(m: map<NodeId, Node>, kids: map<NodeId, seq<NodeId>>, c: NodeId): map<NodeId, seq<NodeId>>
    requires Placed(m, kids, c)
  {
    match m[c].parent
    case None => kids
    case Some(p) => kids[p := RemoveAt(kids[p], IndexOf(kids[p], c))]
  }

  /**
   * The state a removal passes through: `CutLinks` and `CutKids` with the
   * depths `depth1` describe the forest once `c` has been cut from its parent,
   * where `c` is a root over the same subtree `s`; without `s` they describe a
   * well-linked forest with depths `depth2`.
   */
  lemma CutFacts(m: map<NodeId, Node>, kids: map<NodeId, seq<NodeId>>, depth: map<NodeId, nat>, c: NodeId)
    returns (L: seq<NodeId>, i: nat, depth1: map<NodeId, nat>, depth2: map<NodeId, nat>)
    requires Linked(m, kids, depth) && c in m
    ensures Placed(m, kids, c)
    ensures var m1 := CutLinks(m, kids, c);
            && Linked(m1, CutKids(m, kids, c), depth1) && c in m1 && m1[c].parent.None?
            && m1[c].firstChild == m[c].firstChild
            && m1.Keys == m.Keys && Sub(m1, depth1, c) == Sub(m, depth, c)
    ensures m[c].parent.None? ==> m[c].prevSibling.None? && m[c].nextSibling.None?
    ensures m[c].parent.Some? ==>
              var p := m[c].parent.value;
              && L == kids[p] && i == IndexOf(L, c) && Unsplicable(m, L, c, p, i)
    ensures var s := Sub(m, depth, c);
            Linked(CutLinks(m, kids, c) - s, CutKids(m, kids, c) - s, depth2)
  {
    var m1, kids1;
    if m[c].parent.None? {
      m1, kids1, depth1, L, i := m, kids, depth, [], 0;
    } else {
      var p := m[c].parent.value;
      L := kids[p];
      i := IndexOf(L, c);
      depth1 := DetachFacts(m, kids, depth, p, i);
      m1 := UnlinkLinks(m, L, c, p, i);
      kids1 := kids[p := RemoveAt(L, i)];
      UnlinkParents(m, L, c, p, i);
    }
    DeleteLinked(m1, kids1, depth1, c);
    depth2 := depth1 - Sub(m1, depth1, c);
  }

  /** What the link helpers need to cut `c` out: its position, and its record once cut. */
  lemma CutPrep(m: map<NodeId, Node>, kids: map<NodeId, seq<NodeId>>, depth: map<NodeId, nat>, c: NodeId)
    returns (L: seq<NodeId>, i: nat)
    requires Linked(m, kids, depth) && c in m
    ensures Placed(m, kids, c)
    ensures m[c].parent.None? ==> m[c].prevSibling.None? && m[c].nextSibling.None?
    ensures m[c].parent.Some? ==>
              var p := m[c].parent.value;
              && L == kids[p] && i == IndexOf(L, c) && Unsplicable(m, L, c, p, i)
    ensures CutLinks(m, kids, c).Keys == m.Keys
    ensures CutLinks(m, kids, c)[c] == m[c].(parent := None, prevSibling := None, nextSibling := None)
  {
    L, i := [], 0;
    if m[c].parent.Some? {
      var p := m[c].parent.value;
      L := kids[p];
      i := IndexOf(L, c);
      var d' := DetachFacts(m, kids, depth, p, i);
      UnlinkParents(m, L, c, p, i);
    }
  }

  /** The depths under which the forest with `c` cut out is well linked, over the same subtree of `c`. */
  lemma CutDepth(m: map<NodeId, Node>, kids: map<NodeId, seq<NodeId>>, depth: map<NodeId, nat>, c: NodeId)
    returns (depth1: map<NodeId, nat>)
    requires Linked(m, kids, depth) && c in m
    ensures Placed(m, kids, c)
    ensures Linked(CutLinks(m, kids, c), CutKids(m, kids, c), depth1)
    ensures c in CutLinks(m, kids, c) && Sub(CutLinks(m, kids, c), depth1, c) == Sub(m, depth, c)
  {
    var L, i, d2;
    L, i, depth1, d2 := CutFacts(m, kids, depth, c);
  }

  /**
   * Cutting `c` from its parent changes no link record other than those of
   * `c`, its parent and its two neighbouring siblings.
   */
  lemma CutUntouched(m: map<NodeId, Node>, kids: map<NodeId, seq<NodeId>>, depth: map<NodeId, nat>, c: NodeId)
    requires Linked(m, kids, depth) && c in m
    ensures Placed(m, kids, c)
    ensures CutLinks(m, kids, c).Keys == m.Keys
    ensures forall k | k in m && k != c && Some(k) != m[c].parent && Some(k) != m[c].prevSibling &&
                       Some(k) != m[c].nextSibling :: CutLinks(m, kids, c)[k] == m[k]
  {
    if m[c].parent.Some? {
      var p := m[c].parent.value;
      var L := kids[p];
      var i := IndexOf(L, c);
      assert ChildLinked(m, kids, p, i);
    }
  }

  /** Cutting `c` from its parent leaves the records of its proper descendants alone. */
  lemma CutBelow(m: map<NodeId, Node>, kids: map<NodeId, seq<NodeId>>, depth: map<NodeId, nat>, c: NodeId)
    requires Linked(m, kids, depth) && c in m
    ensures Placed(m, kids, c)
    ensures forall k | k in Sub(m, depth, c) && k != c :: k in CutLinks(m, kids, c) && CutLinks(m, kids, c)[k] == m[k]
  {
    var L, i, d1, d2 := CutFacts(m, kids, depth, c);
    if m[c].parent.Some? {
      var p := m[c].parent.value;
      ChildFacts(m, kids, depth, p);
      forall k | k in Sub(m, depth, c) && k != c
        ensures k != p && (0 < i ==> k != L[i - 1]) && (i + 1 < |L| ==> k != L[i + 1])
      {
        UnderDepth(m, depth, k, c);
        if 0 < i && k == L[i - 1] {
          UnderSameDepth(m, depth, k, c, k);
        }
        if i + 1 < |L| && k == L[i + 1] {
          UnderSameDepth(m, depth, k, c, k);
        }
      }
    }
  }

  /** Without the subtree of `c`, the cut forest is well linked. */
  lemma CutRest(m: map<NodeId, Node>, kids: map<NodeId, seq<NodeId>>, depth: map<NodeId, nat>, c: NodeId)
    returns (depth2: map<NodeId, nat>)
    requires Linked(m, kids, depth) && c in m
    ensures Placed(m, kids, c)
    ensures var s := Sub(m, depth, c);
            Linked(CutLinks(m, kids, c) - s, CutKids(m, kids, c) - s, depth2)
  {
    var L, i, d1;
    L, i, d1, depth2 := CutFacts(m, kids, depth, c);
  }

  /** A map that agrees with `m1` everywhere except at a key `c` it lacks. */
  lemma AllBut(n: map<NodeId, Node>, m1: map<NodeId, Node>, c: NodeId)
    requires n.Keys == m1.Keys - {c} && forall k | k in n :: n[k] == m1[k]
    ensures n == m1 - {c}
  {
    var r := m1 - {c};
    assert n.Keys == r.Keys;
    assert forall k | k in n :: n[k] == r[k];
  }

  /** A map that agrees with `m1` everywhere but at `c`, once `c` is given `m1`'s record, is `m1`. */
  lemma Rejoin(n: map<NodeId, Node>, m1: map<NodeId, Node>, c: NodeId)
    requires n.Keys == m1.Keys && c in n && n[c] == m1[c]
    requires forall k | k in n && k != c :: n[k] == m1[k]
    ensures n == m1
  {
  }

  lemma MinusRoot(m: map<NodeId, Node>, c: NodeId, s: set<NodeId>)
    requires c in s
    ensures (m - {c}) - (s - {c}) == m - s
  {
  }

  /** A child of `p` is a node one level below `p`, and no level reaches the number of nodes. */
  lemma KidStep(m: map<NodeId, Node>, kids: map<NodeId, seq<NodeId>>, depth: map<NodeId, nat>, p: NodeId, c: NodeId)
    requires Linked(m, kids, depth) && p in m && c in kids[p]
    ensures c in m && m[c].parent == Some(p) && depth[c] == depth[p] + 1 && depth[c] < |m|
  {
    assert ChildLinked(m, kids, p, IndexOf(kids[p], c));
    DepthBound(m, kids, depth, c);
  }

  /** The root of the tree `n` belongs to: the last of its ancestors. */
  function RootOf(m: map<NodeId, Node>, ghost depth: map<NodeId, nat>, n: NodeId): (r: NodeId)
    requires Ranked(m, depth) && n in m
    ensures r in m && m[r].parent.None? && Under(m, depth, n, r)
    ensures var a := Ancestors(m, depth, n); r == a[|a| - 1]
    decreases depth[n]
  {
    match m[n].parent
    case None => n
    case Some(p) => RootOf(m, depth, p)
  }

  /** A node lies in the tree of every node it lies below. */
  lemma {:induction false} RootOfUnder(m: map<NodeId, Node>, depth: map<NodeId, nat>, k: NodeId, a: NodeId)
    requires Ranked(m, depth) && k in m && Under(m, depth, k, a)
    ensures a in m && RootOf(m, depth, k) == RootOf(m, depth, a)
    decreases depth[k]
  {
    UnderDepth(m, depth, k, a);
    if k != a {
      RootOfUnder(m, depth, m[k].parent.value, a);
    }
  }

  /** Cutting `c` out leaves every parent link but that of `c`, which it clears. */
  lemma CutParents(m: map<NodeId, Node>, kids: map<NodeId, seq<NodeId>>, depth: map<NodeId, nat>, c: NodeId)
    requires Linked(m, kids, depth) && c in m
    ensures Placed(m, kids, c)
    ensures CutLinks(m, kids, c).Keys == m.Keys && CutLinks(m, kids, c)[c].parent.None?
    ensures forall n | n in m && n != c :: CutLinks(m, kids, c)[n].parent == m[n].parent
  {
    var L, i := CutPrep(m, kids, depth, c);
    if m[c].parent.Some? {
      UnlinkParents(m, L, c, m[c].parent.value, i);
    }
  }

  /**
   * `x` put in place of the element at `i` by first inserting it before and
   * then removing the old element, which now follows it.
   */
  lemma SwapIn(s: seq<NodeId>, i: nat, x: NodeId)
    requires i < |s| && Distinct(s) && x !in s
    ensures s[i] in InsertAt(s, i, x) && IndexOf(InsertAt(s, i, x), s[i]) == i + 1
    ensures RemoveAt(InsertAt(s, i, x), i + 1) == s[i := x]
  {
    var t := InsertAt(s, i, x);
    assert t[i + 1] == s[i];
    forall j | 0 <= j < i + 1
      ensures t[j] != s[i]
    {
      if j < i {
        assert t[j] == s[j];
      }
    }
  }
}
