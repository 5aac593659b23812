/**
 * The earlier arena tree of crates/swell/src/tree.rs. Its link, unlink,
 * recursive-delete and iteration code is the code of model/node.rs without
 * the observer, so its forest is the `Forest` of `NodeArena` with the
 * observer calls ignored; what this module adds is the `Tree` handle.
 */
module LegacyTrees {
  import opened Types
  import opened ForestLinks
  import opened NodeArena

  /** `Tree`: a handle on one root of a forest. */
  class Tree {
    const root: NodeId

    /** `Tree::new`: a fresh node with no parent, no siblings and no children becomes a root of `f`. */
    constructor (f: Forest)
      requires f.Valid()
      modifies f
      ensures f.Valid() && root !in old(f.nodes) && root == old(f.nextId) && f.nextId > root
      ensures f.nodes == old(f.nodes)[root := Unlinked] && f.kids == old(f.kids)[root := []]
    {
      var r := f.NewRoot();
      root := r;
    }
  }
}
