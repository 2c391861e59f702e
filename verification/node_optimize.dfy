/**
 * QuadTreeNode::Optimize: a bottom-up pass that first optimizes every child,
 * then folds each child left with no children of its own and at most
 * MERGE_LIMIT meshes into the parent (its meshes move up, the child is
 * dropped), and finally reports whether the node itself is now empty.
 */
module NodeOptimize {
  import opened Wrappers
  import opened Geometry
  import opened Meshes
  import opened QuadTreeNodes

  /** A childless child holding at most this many meshes is folded into its parent. */
  const MERGE_LIMIT: nat := 1

  /**
   * The node is a leaf light enough to be merged into its parent.  "No
   * children" is GetChildCount(k) == 0, by GetChildCount's contract.
   */
  predicate Foldable(k: Node)
  {
    k.children == NoChildren && |k.meshes| <= MERGE_LIMIT
  }

  /** No node anywhere below is foldable: Optimize has nothing left to do. */
  ghost predicate Compact(n: Node)
    decreases n, 1
  {
    && SlotCompact(n.children.s0)
    && SlotCompact(n.children.s1)
    && SlotCompact(n.children.s2)
    && SlotCompact(n.children.s3)
  }

  ghost predicate SlotCompact(o: Option<Node>)
    decreases o, 0
  {
    match o
    case None => true
    case Some(k) => !Foldable(k) && Compact(k)
  }

  /**
   * Optimize(): the optimized node and whether it is now empty (no children
   * and no meshes of its own).  Meshes raised from folded children follow the
   * node's own meshes, in slot order.
   */
  function Optimize(n: Node): (r: (Node, bool))
    decreases n, 1
    ensures multiset(AllMeshes(r.0)) == multiset(AllMeshes(n))
    ensures r.1 <==> r.0.children == NoChildren && |r.0.meshes| == 0
    ensures Compact(r.0)
    ensures r.0.boxSize == n.boxSize && r.0.boxCenter == n.boxCenter && r.0.sphere == n.sphere
    ensures r.0.children == Children(OptimizeSlot(n.children.s0).0, OptimizeSlot(n.children.s1).0,
                                     OptimizeSlot(n.children.s2).0, OptimizeSlot(n.children.s3).0)
    ensures |r.0.meshes| >= |n.meshes| && r.0.meshes[..|n.meshes|] == n.meshes
    ensures multiset(r.0.meshes[|n.meshes|..])
         == multiset(OptimizeSlot(n.children.s0).1) + multiset(OptimizeSlot(n.children.s1).1)
          + multiset(OptimizeSlot(n.children.s2).1) + multiset(OptimizeSlot(n.children.s3).1)
  {
    var c := n.children;
    var f0, f1, f2, f3 := OptimizeSlot(c.s0), OptimizeSlot(c.s1), OptimizeSlot(c.s2), OptimizeSlot(c.s3);
    var raised := f0.1 + f1.1 + f2.1 + f3.1;
    var r := n.(children := Children(f0.0, f1.0, f2.0, f3.0), meshes := n.meshes + raised);
    RegroupMeshes(n.meshes, SlotMeshes(c.s0), SlotMeshes(c.s1), SlotMeshes(c.s2), SlotMeshes(c.s3),
                  f0, f1, f2, f3);
    assert r.meshes[|n.meshes|..] == raised;
    (r, r.children == NoChildren && |r.meshes| == 0)
  }

  /**
   * Optimizes the child in one slot: either the optimized child stays, or it
   * is folded and its meshes are handed to the parent.
   */
  function OptimizeSlot(o: Option<Node>): (r: (Option<Node>, seq<QuadTreeMesh>))
    decreases o, 0
    ensures multiset(SlotMeshes(r.0)) + multiset(r.1) == multiset(SlotMeshes(o))
    ensures SlotCompact(r.0)
    ensures o.None? ==> r.0.None? && r.1 == []
    ensures r.0.Some? ==> o.Some? && r.1 == []
                          && r.0.value.boxSize == o.value.boxSize
                          && r.0.value.boxCenter == o.value.boxCenter
    ensures o.Some? ==> (r.0.None? <==> Foldable(Optimize(o.value).0))
    ensures r.0.Some? ==> r.0.value == Optimize(o.value).0
  {
    match o
    case None => (None, [])
    case Some(k) =>
      var k' := Optimize(k).0;
      if Foldable(k') then
        FoldedMeshes(o, k');
        (None, k'.meshes)
      else (Some(k'), [])
  }

  /** A childless node's subtree is just its own meshes, which the parent takes over. */
  lemma FoldedMeshes(o: Option<Node>, k': Node)
    requires o.Some?
    requires k'.children == NoChildren
    requires multiset(AllMeshes(k')) == multiset(AllMeshes(o.value))
    ensures multiset(k'.meshes) == multiset(SlotMeshes(o))
  {
    assert SlotMeshes(o) == AllMeshes(o.value);
    assert AllMeshes(k') == k'.meshes;
  }

  /** Moving each slot's raised meshes up to the parent keeps the subtree's multiset. */
  lemma RegroupMeshes(own: seq<QuadTreeMesh>, a: seq<QuadTreeMesh>, b: seq<QuadTreeMesh>,
                      d: seq<QuadTreeMesh>, e: seq<QuadTreeMesh>,
                      f0: (Option<Node>, seq<QuadTreeMesh>), f1: (Option<Node>, seq<QuadTreeMesh>),
                      f2: (Option<Node>, seq<QuadTreeMesh>), f3: (Option<Node>, seq<QuadTreeMesh>))
    requires multiset(SlotMeshes(f0.0)) + multiset(f0.1) == multiset(a)
    requires multiset(SlotMeshes(f1.0)) + multiset(f1.1) == multiset(b)
    requires multiset(SlotMeshes(f2.0)) + multiset(f2.1) == multiset(d)
    requires multiset(SlotMeshes(f3.0)) + multiset(f3.1) == multiset(e)
    ensures multiset(own + (f0.1 + f1.1 + f2.1 + f3.1)
                     + (SlotMeshes(f0.0) + SlotMeshes(f1.0) + SlotMeshes(f2.0) + SlotMeshes(f3.0)))
         == multiset(own + (a + b + d + e))
  {
  }

  /** Optimize never deepens the tree, so the insertion depth bound survives it. */
  lemma {:induction false} OptimizeHeight(n: Node)
    ensures Height(Optimize(n).0) <= Height(n)
    decreases n, 1
  {
    OptimizeSlotHeight(n.children.s0);
    OptimizeSlotHeight(n.children.s1);
    OptimizeSlotHeight(n.children.s2);
    OptimizeSlotHeight(n.children.s3);
  }

  lemma {:induction false} OptimizeSlotHeight(o: Option<Node>)
    ensures SlotHeight(OptimizeSlot(o).0) <= SlotHeight(o)
    decreases o, 0
  {
    if o.Some? {
      OptimizeHeight(o.value);
    }
  }

  /** Optimize keeps every child in its quadrant and every mesh in its child. */
  lemma {:induction false} OptimizePlaced(n: Node)
    requires Placed(n)
    ensures Placed(Optimize(n).0)
    decreases n, 1
  {
    var r := Optimize(n).0;
    var c := n.children;
    OptimizeSlotPlaced(n, r, 0, c.s0);
    OptimizeSlotPlaced(n, r, 1, c.s1);
    OptimizeSlotPlaced(n, r, 2, c.s2);
    OptimizeSlotPlaced(n, r, 3, c.s3);
  }

  lemma {:induction false} OptimizeSlotPlaced(parent: Node, parent': Node, q: Quadrant, o: Option<Node>)
    requires SlotPlaced(parent, q, o)
    requires parent'.boxSize == parent.boxSize && parent'.boxCenter == parent.boxCenter
    ensures SlotPlaced(parent', q, OptimizeSlot(o).0)
    decreases o, 0
  {
    var o' := OptimizeSlot(o).0;
    if o'.Some? {
      var k, k' := o.value, o'.value;
      assert k' == Optimize(k).0;
      OptimizePlaced(k);
      KeptChildPlaced(parent, parent', q, k, k');
    }
  }

  /** A child rearranged in place, with the same meshes and footprint, stays placed. */
  lemma KeptChildPlaced(parent: Node, parent': Node, q: Quadrant, k: Node, k': Node)
    requires SlotPlaced(parent, q, Some(k))
    requires parent'.boxSize == parent.boxSize && parent'.boxCenter == parent.boxCenter
    requires k'.boxSize == k.boxSize && k'.boxCenter == k.boxCenter
    requires multiset(AllMeshes(k')) == multiset(AllMeshes(k))
    requires Placed(k')
    ensures SlotPlaced(parent', q, Some(k'))
  {
    assert ChildCenter(parent', q) == ChildCenter(parent, q);
    SameMeshesInSquare(k, k');
  }

  /** Rearranging a subtree's meshes keeps them inside the same footprint. */
  lemma SameMeshesInSquare(k: Node, k': Node)
    requires forall m :: m in AllMeshes(k) ==> InSquare(m.sphere, k.boxCenter, k.boxSize)
    requires multiset(AllMeshes(k')) == multiset(AllMeshes(k))
    requires k'.boxSize == k.boxSize && k'.boxCenter == k.boxCenter
    ensures forall m :: m in AllMeshes(k') ==> InSquare(m.sphere, k'.boxCenter, k'.boxSize)
  {
    forall m | m in AllMeshes(k')
      ensures InSquare(m.sphere, k'.boxCenter, k'.boxSize)
    {
      assert m in multiset(AllMeshes(k'));
      assert m in AllMeshes(k);
    }
  }

  /** A compact node is a fixed point: Optimize leaves it as it is. */
  lemma {:induction false} CompactIsFixed(n: Node)
    requires Compact(n)
    ensures Optimize(n).0 == n
    decreases n, 1
  {
    var c := n.children;
    CompactSlotIsFixed(c.s0);
    CompactSlotIsFixed(c.s1);
    CompactSlotIsFixed(c.s2);
    CompactSlotIsFixed(c.s3);
    var r := Optimize(n).0;
    assert r.children == c;
    assert |r.meshes[|n.meshes|..]| == 0;
    assert r.meshes == r.meshes[..|n.meshes|] + r.meshes[|n.meshes|..];
  }

  lemma {:induction false} CompactSlotIsFixed(o: Option<Node>)
    requires SlotCompact(o)
    ensures OptimizeSlot(o) == (o, [])
    decreases o, 0
  {
    if o.Some? {
      CompactIsFixed(o.value);
    }
  }

  /** Optimizing twice gives the same tree and the same answer as optimizing once. */
  lemma {:induction false} OptimizeIdempotent(n: Node)
    ensures Optimize(Optimize(n).0) == Optimize(n)
  {
    CompactIsFixed(Optimize(n).0);
  }
}
