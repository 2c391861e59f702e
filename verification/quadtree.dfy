/**
 * QuadTree: the container.  It owns the root node and the mesh pool, and
 * exposes insertion, the post-build Optimize and CalcVolume passes, Clear,
 * the footprint setters and the two top-level visibility queries, which
 * append to a caller's VisibleSet.
 */
module QuadTrees {
  import opened Geometry
  import opened Meshes
  import opened QuadTreeNodes
  import NodeOptimize
  import NodeVolume
  import NodeQuery
  import VisibleSets

  /**
   * `meshPool` lists every record created by AddMesh in creation order; a
   * record's `id` is its position there.
   */
  datatype QuadTree = QuadTree(root: Node, meshPool: seq<QuadTreeMesh>)

  /**
   * The tree's invariant: ids match pool positions, the root's subtree holds
   * each pooled record exactly as often as the pool does, no node lies more
   * than QUADTREE_MAX_DEPTH levels below the root, and every child sits in
   * its quadrant with all its meshes inside its footprint.
   */
  ghost predicate Valid(t: QuadTree)
  {
    && (forall i :: 0 <= i < |t.meshPool| ==> t.meshPool[i].id == i)
    && multiset(AllMeshes(t.root)) == multiset(t.meshPool)
    && Height(t.root) <= QUADTREE_MAX_DEPTH
    && Placed(t.root)
  }

  /** QuadTree(): an empty root node with an empty footprint, and no meshes. */
  function NewTree(): (t: QuadTree)
    ensures Valid(t)
    ensures AllMeshes(t.root) == [] && t.meshPool == []
  {
    QuadTree(NewNode(0.0, Vec2(0.0, 0.0)), [])
  }

  /** SetBoxSize: the root's half-extent. */
  function SetBoxSize(t: QuadTree, size: real): (r: QuadTree)
    ensures r.root.boxSize == size
    ensures r.root.boxCenter == t.root.boxCenter && r.root.children == t.root.children
    ensures r.root.sphere == t.root.sphere && r.root.meshes == t.root.meshes
    ensures AllMeshes(r.root) == AllMeshes(t.root) && r.meshPool == t.meshPool
  {
    t.(root := t.root.(boxSize := size))
  }

  /** SetBoxCenter: the root's centre in the partitioning plane. */
  function SetBoxCenter(t: QuadTree, center: Vec2): (r: QuadTree)
    ensures r.root.boxCenter == center
    ensures r.root.boxSize == t.root.boxSize && r.root.children == t.root.children
    ensures r.root.sphere == t.root.sphere && r.root.meshes == t.root.meshes
    ensures AllMeshes(r.root) == AllMeshes(t.root) && r.meshPool == t.meshPool
  {
    t.(root := t.root.(boxCenter := center))
  }

  /** Configuring the footprint before any child exists keeps the tree valid. */
  lemma SetFootprintValid(t: QuadTree, size: real, center: Vec2)
    requires Valid(t)
    requires GetChildCount(t.root) == 0
    ensures Valid(SetBoxSize(t, size))
    ensures Valid(SetBoxCenter(t, center))
  {
  }

  /** The record CreateMesh builds for the next insertion. */
  function NextMesh(t: QuadTree, sphere: BoundingSphere, box: BoundingBox, transform: Transform,
                    tex: Texture, verts: int, vBuffer: VertexBuffer, faces: int,
                    iBuffer: IndexBuffer, hasAlpha: bool): QuadTreeMesh
  {
    QuadTreeMesh(|t.meshPool|, sphere, box, tex, transform, verts, vBuffer, faces, iBuffer, hasAlpha)
  }

  /**
   * AddMesh: creates the record in the pool and inserts it from the root
   * with the full depth budget.
   */
  function AddMesh(t: QuadTree, sphere: BoundingSphere, box: BoundingBox, transform: Transform,
                   tex: Texture, verts: int, vBuffer: VertexBuffer, faces: int,
                   iBuffer: IndexBuffer, hasAlpha: bool): (r: QuadTree)
    ensures var m := NextMesh(t, sphere, box, transform, tex, verts, vBuffer, faces, iBuffer, hasAlpha);
      && r.meshPool == t.meshPool + [m]
      && multiset(AllMeshes(r.root)) == multiset(AllMeshes(t.root)) + multiset{m}
    ensures Valid(t) ==> Valid(r)
  {
    var m := NextMesh(t, sphere, box, transform, tex, verts, vBuffer, faces, iBuffer, hasAlpha);
    var root := QuadTreeNodes.AddMesh(t.root, m, QUADTREE_MAX_DEPTH);
    assert Placed(t.root) ==> Placed(root) by {
      if Placed(t.root) {
        AddMeshPlaced(t.root, m, QUADTREE_MAX_DEPTH);
      }
    }
    QuadTree(root, t.meshPool + [m])
  }

  /** Optimize: optimizes from the root and reports whether the root ended up empty. */
  function Optimize(t: QuadTree): (r: (QuadTree, bool))
    ensures r.0.meshPool == t.meshPool
    ensures multiset(AllMeshes(r.0.root)) == multiset(AllMeshes(t.root))
    ensures r.1 <==> GetChildCount(r.0.root) == 0 && |r.0.root.meshes| == 0
    ensures NodeOptimize.Compact(r.0.root)
    ensures Valid(t) ==> Valid(r.0)
  {
    var o := NodeOptimize.Optimize(t.root);
    assert Valid(t) ==> Valid(t.(root := o.0)) by {
      if Valid(t) {
        OptimizeKeepsValid(t);
      }
    }
    (t.(root := o.0), o.1)
  }

  lemma OptimizeKeepsValid(t: QuadTree)
    requires Valid(t)
    ensures Valid(t.(root := NodeOptimize.Optimize(t.root).0))
  {
    NodeOptimize.OptimizeHeight(t.root);
    NodeOptimize.OptimizePlaced(t.root);
  }

  /** Clear: drops every node and every mesh record. */
  function Clear(t: QuadTree): (r: QuadTree)
    ensures Valid(r)
    ensures AllMeshes(r.root) == [] && r.meshPool == []
  {
    NewTree()
  }

  /** CalcVolume: recomputes every node's sphere from the root down. */
  function CalcVolume(t: QuadTree): (r: QuadTree)
    ensures NodeVolume.VolumeSound(r.root)
    ensures r.meshPool == t.meshPool && AllMeshes(r.root) == AllMeshes(t.root)
    ensures Valid(t) ==> Valid(r)
  {
    NodeVolume.CalcVolumeKeepsTree(t.root);
    t.(root := NodeVolume.CalcVolume(t.root))
  }

  /** GetVisibleMeshes(frustum, visible_set): appends the frustum query's result. */
  function GetVisibleMeshes(t: QuadTree, f: Frustum, vs: VisibleSets.VisibleSet): (r: VisibleSets.VisibleSet)
    ensures |r.items| >= |vs.items|
    ensures r.items[..|vs.items|] == vs.items
    ensures multiset(r.items[|vs.items|..]) <= multiset(AllMeshes(t.root))
  {
    VisibleSets.AddAll(vs, NodeQuery.Visible(t.root, f, false))
  }

  /** GetVisibleMeshes(frustum, viewsphere, visible_set): appends the combined query's result. */
  function GetVisibleMeshesInSphere(t: QuadTree, f: Frustum, view: BoundingSphere,
                                    vs: VisibleSets.VisibleSet): (r: VisibleSets.VisibleSet)
    ensures |r.items| >= |vs.items|
    ensures r.items[..|vs.items|] == vs.items
    ensures multiset(r.items[|vs.items|..]) <= multiset(GetVisibleMeshes(t, f, vs).items[|vs.items|..])
  {
    VisibleSets.AddAll(vs, NodeQuery.VisibleIn(t.root, f, view, false))
  }

  // ------------------------------------------------------------------ lemmas

  lemma {:induction false} DistinctOnce(s: seq<QuadTreeMesh>, i: nat)
    requires forall j, k :: 0 <= j < k < |s| ==> s[j] != s[k]
    requires i < |s|
    ensures multiset(s)[s[i]] == 1
  {
    var p, l := s[..|s| - 1], s[|s| - 1];
    assert s == p + [l];
    if i == |s| - 1 {
      assert l !in p;
    } else {
      assert p[i] == s[i];
      DistinctOnce(p, i);
    }
  }

  /** Every inserted mesh sits in exactly one place in the tree: never dropped, never duplicated. */
  lemma ExactlyOnce(t: QuadTree, i: nat)
    requires Valid(t)
    requires i < |t.meshPool|
    ensures multiset(AllMeshes(t.root))[t.meshPool[i]] == 1
  {
    DistinctOnce(t.meshPool, i);
  }

  /** A query never reports a mesh that was not inserted, nor one mesh twice. */
  lemma QueryReportsOnce(t: QuadTree, f: Frustum, vs: VisibleSets.VisibleSet, m: QuadTreeMesh)
    requires Valid(t)
    ensures var found := GetVisibleMeshes(t, f, vs).items[|vs.items|..];
      && (m in found ==> m in t.meshPool)
      && multiset(found)[m] <= 1
  {
    var found := GetVisibleMeshes(t, f, vs).items[|vs.items|..];
    if m in found {
      assert m in multiset(AllMeshes(t.root));
      var i :| 0 <= i < |t.meshPool| && t.meshPool[i] == m;
      ExactlyOnce(t, i);
    }
  }

  lemma {:induction false} FilterCount(ms: seq<QuadTreeMesh>, f: Frustum, x: QuadTreeMesh)
    ensures multiset(NodeQuery.FrustumFilter(ms, f))[x]
         == if f(x.sphere) != Outside then multiset(ms)[x] else 0
  {
    if |ms| > 0 {
      FilterCount(ms[1..], f, x);
      assert ms == [ms[0]] + ms[1..];
    }
  }

  /**
   * End to end: after CalcVolume, the frustum query appends exactly the
   * inserted meshes the frustum does not reject, each once.
   */
  lemma QueryFindsAccepted(t: QuadTree, f: Frustum, vs: VisibleSets.VisibleSet)
    requires Valid(t)
    requires NodeVolume.VolumeSound(t.root)
    requires NodeQuery.Monotone(f)
    ensures multiset(GetVisibleMeshes(t, f, vs).items[|vs.items|..])
         == multiset(NodeQuery.FrustumFilter(t.meshPool, f))
  {
    NodeQuery.QueryMatchesScan(t.root, f, false);
    forall x
      ensures multiset(NodeQuery.FrustumFilter(AllMeshes(t.root), f))[x]
           == multiset(NodeQuery.FrustumFilter(t.meshPool, f))[x]
    {
      FilterCount(AllMeshes(t.root), f, x);
      FilterCount(t.meshPool, f, x);
    }
  }

  /** After Clear, both queries append nothing. */
  lemma QueryAfterClear(t: QuadTree, f: Frustum, view: BoundingSphere, vs: VisibleSets.VisibleSet)
    ensures GetVisibleMeshes(Clear(t), f, vs) == vs
    ensures GetVisibleMeshesInSphere(Clear(t), f, view, vs) == vs
  {
    var root := Clear(t).root;
    assert multiset(NodeQuery.Visible(root, f, false)) <= multiset(AllMeshes(root));
    assert NodeQuery.Visible(root, f, false) == [];
    assert vs.items + [] == vs.items;
  }
}
