/**
 * QuadTreeNode::CalcVolume: bottom-up, every node receives a sphere enclosing
 * the spheres of its own meshes and of its children.  The sphere is centred
 * on the node's footprint (height 0) and its radius is the largest taxicab
 * reach of an enclosed sphere, an over-approximation of the minimal one that
 * needs no square root.
 */
module NodeVolume {
  import opened Wrappers
  import opened Geometry
  import opened Meshes
  import opened QuadTreeNodes

  /** Every node's sphere encloses its own meshes' spheres and its children's spheres. */
  ghost predicate VolumeSound(n: Node)
    decreases n, 1
  {
    && (forall m :: m in n.meshes ==> Encloses(n.sphere, m.sphere))
    && SlotSound(n.sphere, n.children.s0)
    && SlotSound(n.sphere, n.children.s1)
    && SlotSound(n.sphere, n.children.s2)
    && SlotSound(n.sphere, n.children.s3)
  }

  ghost predicate SlotSound(s: BoundingSphere, o: Option<Node>)
    decreases o, 0
  {
    match o
    case None => true
    case Some(k) => Encloses(s, k.sphere) && VolumeSound(k)
  }

  /** The tree with every sphere erased: what CalcVolume must leave alone. */
  function Shape(n: Node): Node
    decreases n, 1
  {
    Node(Children(ShapeSlot(n.children.s0), ShapeSlot(n.children.s1),
                  ShapeSlot(n.children.s2), ShapeSlot(n.children.s3)),
         n.boxSize, n.boxCenter, ZeroSphere, n.meshes)
  }

  function ShapeSlot(o: Option<Node>): Option<Node>
    decreases o, 0
  {
    match o
    case None => None
    case Some(k) => Some(Shape(k))
  }

  function RMax(a: real, b: real): real { if a < b then b else a }

  /** How far from `c` a sphere reaches, measured with the taxicab distance. */
  function Reach(c: Vec3, s: BoundingSphere): real
  {
    L1Dist(c, s.center) + s.radius
  }

  /** The largest reach of the meshes' spheres, and never below zero. */
  function MeshReach(c: Vec3, ms: seq<QuadTreeMesh>): (r: real)
    ensures r >= 0.0
    ensures forall m :: m in ms ==> Reach(c, m.sphere) <= r
    ensures r == 0.0 || exists m :: m in ms && Reach(c, m.sphere) == r
  {
    if |ms| == 0 then 0.0
    else
      var rest := MeshReach(c, ms[1..]);
      assert forall m :: m in ms ==> m == ms[0] || m in ms[1..];
      RMax(Reach(c, ms[0].sphere), rest)
  }

  function SlotReach(c: Vec3, o: Option<Node>): (r: real)
    ensures r >= 0.0
    ensures o.Some? ==> Reach(c, o.value.sphere) <= r
  {
    match o
    case None => 0.0
    case Some(k) => RMax(0.0, Reach(c, k.sphere))
  }

  /**
   * CalcVolume(): recomputes the children first, then this node's sphere;
   * the node's new sphere is also the BoundingSphere QuadTreeNode::CalcVolume returns.
   */
  function CalcVolume(n: Node): (r: Node)
    decreases n, 1
    ensures VolumeSound(r)
    ensures Shape(r) == Shape(n)
    ensures r.sphere.center == Vec3(n.boxCenter.x, n.boxCenter.y, 0.0)
    ensures r.sphere.radius >= 0.0
  {
    var c0, c1, c2, c3 := CalcSlot(n.children.s0), CalcSlot(n.children.s1),
                          CalcSlot(n.children.s2), CalcSlot(n.children.s3);
    var center := Vec3(n.boxCenter.x, n.boxCenter.y, 0.0);
    var radius := RMax(MeshReach(center, n.meshes),
                       RMax(RMax(SlotReach(center, c0), SlotReach(center, c1)),
                            RMax(SlotReach(center, c2), SlotReach(center, c3))));
    var s := BoundingSphere(center, radius);
    forall m | m in n.meshes
      ensures Encloses(s, m.sphere)
    {
      ReachEncloses(center, radius, m.sphere);
    }
    SlotEncloses(center, radius, c0);
    SlotEncloses(center, radius, c1);
    SlotEncloses(center, radius, c2);
    SlotEncloses(center, radius, c3);
    n.(children := Children(c0, c1, c2, c3), sphere := s)
  }

  function CalcSlot(o: Option<Node>): (r: Option<Node>)
    decreases o, 0
    ensures ShapeSlot(r) == ShapeSlot(o)
    ensures r.Some? ==> VolumeSound(r.value)
  {
    match o
    case None => None
    case Some(k) => Some(CalcVolume(k))
  }

  lemma SlotEncloses(center: Vec3, radius: real, o: Option<Node>)
    requires o.Some? ==> VolumeSound(o.value)
    requires SlotReach(center, o) <= radius
    ensures SlotSound(BoundingSphere(center, radius), o)
  {
    if o.Some? {
      ReachEncloses(center, radius, o.value.sphere);
    }
  }

  /** Culling is safe: a sound node's sphere encloses every mesh anywhere below it. */
  lemma {:induction false} SoundEnclosesAll(n: Node, m: QuadTreeMesh)
    requires VolumeSound(n)
    requires m in AllMeshes(n)
    ensures Encloses(n.sphere, m.sphere)
    decreases n, 1
  {
    if m !in n.meshes {
      var c := n.children;
      assert m in SlotMeshes(c.s0) || m in SlotMeshes(c.s1)
          || m in SlotMeshes(c.s2) || m in SlotMeshes(c.s3);
      if m in SlotMeshes(c.s0) {
        SlotEnclosesAll(n.sphere, c.s0, m);
      } else if m in SlotMeshes(c.s1) {
        SlotEnclosesAll(n.sphere, c.s1, m);
      } else if m in SlotMeshes(c.s2) {
        SlotEnclosesAll(n.sphere, c.s2, m);
      } else {
        SlotEnclosesAll(n.sphere, c.s3, m);
      }
    }
  }

  lemma {:induction false} SlotEnclosesAll(s: BoundingSphere, o: Option<Node>, m: QuadTreeMesh)
    requires SlotSound(s, o)
    requires m in SlotMeshes(o)
    ensures Encloses(s, m.sphere)
    decreases o, 0
  {
    var k := o.value;
    SoundEnclosesAll(k, m);
    EnclosesTransitive(s, k.sphere, m.sphere);
  }

  /** Erasing spheres keeps the meshes, so equal shapes hold the same meshes in the same order. */
  lemma {:induction false} ShapeMeshes(a: Node, b: Node)
    requires Shape(a) == Shape(b)
    ensures AllMeshes(a) == AllMeshes(b)
    decreases a, 1
  {
    ShapeSlotMeshes(a.children.s0, b.children.s0);
    ShapeSlotMeshes(a.children.s1, b.children.s1);
    ShapeSlotMeshes(a.children.s2, b.children.s2);
    ShapeSlotMeshes(a.children.s3, b.children.s3);
  }

  lemma {:induction false} ShapeSlotMeshes(a: Option<Node>, b: Option<Node>)
    requires ShapeSlot(a) == ShapeSlot(b)
    ensures SlotMeshes(a) == SlotMeshes(b)
    decreases a, 0
  {
    if a.Some? {
      ShapeMeshes(a.value, b.value);
    }
  }

  lemma {:induction false} ShapeHeight(a: Node, b: Node)
    requires Shape(a) == Shape(b)
    ensures Height(a) == Height(b)
    decreases a, 1
  {
    ShapeSlotHeight(a.children.s0, b.children.s0);
    ShapeSlotHeight(a.children.s1, b.children.s1);
    ShapeSlotHeight(a.children.s2, b.children.s2);
    ShapeSlotHeight(a.children.s3, b.children.s3);
  }

  lemma {:induction false} ShapeSlotHeight(a: Option<Node>, b: Option<Node>)
    requires ShapeSlot(a) == ShapeSlot(b)
    ensures SlotHeight(a) == SlotHeight(b)
    decreases a, 0
  {
    if a.Some? {
      ShapeHeight(a.value, b.value);
    }
  }

  /** Placement looks only at footprints and meshes, never at spheres. */
  lemma {:induction false} ShapePlaced(a: Node, b: Node)
    requires Shape(a) == Shape(b)
    requires Placed(a)
    ensures Placed(b)
    decreases a, 1
  {
    ShapeSlotPlaced(a, b, 0, a.children.s0, b.children.s0);
    ShapeSlotPlaced(a, b, 1, a.children.s1, b.children.s1);
    ShapeSlotPlaced(a, b, 2, a.children.s2, b.children.s2);
    ShapeSlotPlaced(a, b, 3, a.children.s3, b.children.s3);
  }

  lemma {:induction false} ShapeSlotPlaced(pa: Node, pb: Node, q: Quadrant, a: Option<Node>, b: Option<Node>)
    requires pa.boxSize == pb.boxSize && pa.boxCenter == pb.boxCenter
    requires ShapeSlot(a) == ShapeSlot(b)
    requires SlotPlaced(pa, q, a)
    ensures SlotPlaced(pb, q, b)
    decreases a, 0
  {
    if a.Some? {
      var ka, kb := a.value, b.value;
      ShapeMeshes(ka, kb);
      ShapePlaced(ka, kb);
      assert ChildCenter(pa, q) == ChildCenter(pb, q);
    }
  }

  /** CalcVolume touches only spheres: same meshes, same height, same placement. */
  lemma CalcVolumeKeepsTree(n: Node)
    ensures AllMeshes(CalcVolume(n)) == AllMeshes(n)
    ensures Height(CalcVolume(n)) == Height(n)
    ensures Placed(n) ==> Placed(CalcVolume(n))
  {
    ShapeMeshes(CalcVolume(n), n);
    ShapeHeight(CalcVolume(n), n);
    if Placed(n) {
      ShapePlaced(n, CalcVolume(n));
    }
  }
}
