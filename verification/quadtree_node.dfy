/**
 * QuadTreeNode: a square footprint in the horizontal plane, four optional
 * children (one per quadrant), an enclosing sphere, and the meshes attached
 * directly at the node.  This module holds the structure, the meshes a
 * subtree reaches, its height, the placement invariant, and insertion
 * (AddMesh / PushDown).
 */
module QuadTreeNodes {
  import opened Wrappers
  import opened Geometry
  import opened Meshes

  /** Insertion starts with this depth budget at the root. */
  const QUADTREE_MAX_DEPTH: nat := 6

  /** Index of a child slot: bit 0 selects the +x half, bit 1 the +y half. */
  type Quadrant = q: nat | q < 4

  datatype Children = Children(s0: Option<Node>, s1: Option<Node>, s2: Option<Node>, s3: Option<Node>)

  /** `boxSize` is the half-extent of the node's square; `boxCenter` its centre. */
  datatype Node = Node(
    children: Children,
    boxSize: real,
    boxCenter: Vec2,
    sphere: BoundingSphere,
    meshes: seq<QuadTreeMesh>)

  const NoChildren := Children(None, None, None, None)

  const ZeroSphere := BoundingSphere(Vec3(0.0, 0.0, 0.0), 0.0)

  function Slot(c: Children, q: Quadrant): Option<Node>
  {
    if q == 0 then c.s0 else if q == 1 then c.s1 else if q == 2 then c.s2 else c.s3
  }

  function WithSlot(c: Children, q: Quadrant, o: Option<Node>): Children
  {
    if q == 0 then c.(s0 := o)
    else if q == 1 then c.(s1 := o)
    else if q == 2 then c.(s2 := o)
    else c.(s3 := o)
  }

  /** Replacing slot `q` changes slot `q` and no other. */
  lemma {:induction false} SlotOfWithSlot(c: Children, q: Quadrant, o: Option<Node>, p: Quadrant)
    ensures Slot(WithSlot(c, q, o), p) == if p == q then o else Slot(c, p)
  {
  }

  /** A node as the pool hands it out: no children and no meshes. */
  function NewNode(size: real, center: Vec2): Node
  {
    Node(NoChildren, size, center, ZeroSphere, [])
  }

  /** Centre of quadrant `q`: offset by half the node's half-extent on each axis. */
  function ChildCenter(n: Node, q: Quadrant): Vec2
  {
    var h := n.boxSize / 2.0;
    Vec2(n.boxCenter.x + (if q % 2 == 1 then h else -h),
         n.boxCenter.y + (if q / 2 == 1 then h else -h))
  }

  /** The quadrant a point falls in, by comparison with the node's centre. */
  function QuadrantOf(n: Node, p: Vec3): Quadrant
  {
    (if p.x >= n.boxCenter.x then 1 else 0) + (if p.y >= n.boxCenter.y then 2 else 0)
  }

  /** The sphere lies wholly inside quadrant `q`'s footprint. */
  predicate FitsQuadrant(n: Node, s: BoundingSphere, q: Quadrant)
  {
    InSquare(s, ChildCenter(n, q), n.boxSize / 2.0)
  }

  // ---------------------------------------------------------------- counting

  ghost function PresentSlots(c: Children): set<Quadrant>
  {
    set q: Quadrant | Slot(c, q).Some?
  }

  function Present(o: Option<Node>): nat { if o.Some? then 1 else 0 }

  ghost function PresentBelow(c: Children, k: nat): set<Quadrant>
    requires k <= 4
  {
    set q: Quadrant | q < k && Slot(c, q).Some?
  }

  lemma {:induction false} CountPresentBelow(c: Children, k: nat)
    requires 0 < k <= 4
    ensures var p: Quadrant := k - 1;
      |PresentBelow(c, k)| == |PresentBelow(c, k - 1)| + Present(Slot(c, p))
  {
    var p: Quadrant := k - 1;
    if Slot(c, p).Some? {
      assert PresentBelow(c, k) == PresentBelow(c, k - 1) + {p};
    } else {
      assert PresentBelow(c, k) == PresentBelow(c, k - 1);
    }
  }

  lemma {:induction false} ChildCountIsPresentSlots(c: Children)
    ensures |PresentSlots(c)| == Present(c.s0) + Present(c.s1) + Present(c.s2) + Present(c.s3)
  {
    assert PresentBelow(c, 0) == {};
    CountPresentBelow(c, 1);
    CountPresentBelow(c, 2);
    CountPresentBelow(c, 3);
    CountPresentBelow(c, 4);
    assert PresentSlots(c) == PresentBelow(c, 4);
  }

  /** GetChildCount: how many of the four slots hold a child. */
  function GetChildCount(n: Node): (r: nat)
    ensures r <= 4
    ensures r == |PresentSlots(n.children)|
    ensures r == 0 <==> n.children == NoChildren
  {
    var c := n.children;
    ChildCountIsPresentSlots(c);
    Present(c.s0) + Present(c.s1) + Present(c.s2) + Present(c.s3)
  }

  /** ClearChildren: drops all four subtrees, keeping the node's own meshes. */
  function ClearChildren(n: Node): (r: Node)
    ensures GetChildCount(r) == 0
    ensures AllMeshes(r) == n.meshes
    ensures r.meshes == n.meshes && r.boxSize == n.boxSize && r.boxCenter == n.boxCenter
  {
    n.(children := NoChildren)
  }

  // ------------------------------------------------------ meshes of a subtree

  /** Every mesh of the subtree: the node's own, then each child's in slot order. */
  function AllMeshes(n: Node): seq<QuadTreeMesh>
  {
    n.meshes + KidsMeshes(n.children)
  }

  function KidsMeshes(c: Children): seq<QuadTreeMesh>
  {
    SlotMeshes(c.s0) + SlotMeshes(c.s1) + SlotMeshes(c.s2) + SlotMeshes(c.s3)
  }

  function SlotMeshes(o: Option<Node>): seq<QuadTreeMesh>
  {
    match o
    case None => []
    case Some(k) => AllMeshes(k)
  }

  lemma SwapPart<T>(a: seq<T>, b: seq<T>, d: seq<T>, e: seq<T>, x: seq<T>)
    ensures multiset(x + b + d + e) + multiset(a) == multiset(a + b + d + e) + multiset(x)
    ensures multiset(a + x + d + e) + multiset(b) == multiset(a + b + d + e) + multiset(x)
    ensures multiset(a + b + x + e) + multiset(d) == multiset(a + b + d + e) + multiset(x)
    ensures multiset(a + b + d + x) + multiset(e) == multiset(a + b + d + e) + multiset(x)
  {
  }

  /** Replacing one slot swaps that slot's meshes and keeps the others. */
  lemma {:induction false} KidsMeshesWithSlot(c: Children, q: Quadrant, o: Option<Node>)
    ensures multiset(KidsMeshes(WithSlot(c, q, o))) + multiset(SlotMeshes(Slot(c, q)))
         == multiset(KidsMeshes(c)) + multiset(SlotMeshes(o))
  {
    var a, b, d, e := SlotMeshes(c.s0), SlotMeshes(c.s1), SlotMeshes(c.s2), SlotMeshes(c.s3);
    var x := SlotMeshes(o);
    SwapPart(a, b, d, e, x);
    assert KidsMeshes(c) == a + b + d + e;
    if q == 0 {
      assert KidsMeshes(WithSlot(c, q, o)) == x + b + d + e;
    } else if q == 1 {
      assert KidsMeshes(WithSlot(c, q, o)) == a + x + d + e;
    } else if q == 2 {
      assert KidsMeshes(WithSlot(c, q, o)) == a + b + x + e;
    } else {
      assert KidsMeshes(WithSlot(c, q, o)) == a + b + d + x;
    }
  }

  // ------------------------------------------------------------------ height

  function Max(a: nat, b: nat): nat { if a < b then b else a }

  /** Levels below the node: 0 for a node without children. */
  function Height(n: Node): nat
  {
    Max(Max(SlotHeight(n.children.s0), SlotHeight(n.children.s1)),
        Max(SlotHeight(n.children.s2), SlotHeight(n.children.s3)))
  }

  function SlotHeight(o: Option<Node>): nat
  {
    match o
    case None => 0
    case Some(k) => 1 + Height(k)
  }

  lemma {:induction false} HeightWithSlot(n: Node, q: Quadrant, o: Option<Node>, bound: nat)
    requires Height(n) <= bound
    requires SlotHeight(o) <= bound
    ensures Height(n.(children := WithSlot(n.children, q, o))) <= bound
  {
    var c := n.children;
    var a, b, d, e := SlotHeight(c.s0), SlotHeight(c.s1), SlotHeight(c.s2), SlotHeight(c.s3);
    assert a <= bound && b <= bound && d <= bound && e <= bound;
    var c' := WithSlot(c, q, o);
    if q == 0 {
      assert c' == Children(o, c.s1, c.s2, c.s3);
    } else if q == 1 {
      assert c' == Children(c.s0, o, c.s2, c.s3);
    } else if q == 2 {
      assert c' == Children(c.s0, c.s1, o, c.s3);
    } else {
      assert c' == Children(c.s0, c.s1, c.s2, o);
    }
  }

  lemma {:induction false} HeightOfSlot(n: Node, q: Quadrant)
    ensures SlotHeight(Slot(n.children, q)) <= Height(n)
  {
  }

  // --------------------------------------------------------------- placement

  /**
   * Every child covers exactly its quadrant of the parent's square, and every
   * mesh anywhere below a child lies inside that child's footprint.  The
   * node's own meshes are unconstrained: they are the ones that fitted no
   * quadrant, or that the depth limit kept here.
   */
  ghost predicate Placed(n: Node)
    decreases n, 1
  {
    && SlotPlaced(n, 0, n.children.s0)
    && SlotPlaced(n, 1, n.children.s1)
    && SlotPlaced(n, 2, n.children.s2)
    && SlotPlaced(n, 3, n.children.s3)
  }

  ghost predicate SlotPlaced(parent: Node, q: Quadrant, o: Option<Node>)
    decreases o, 0
  {
    match o
    case None => true
    case Some(k) =>
      && k.boxSize == parent.boxSize / 2.0
      && k.boxCenter == ChildCenter(parent, q)
      && (forall m :: m in AllMeshes(k) ==> InSquare(m.sphere, k.boxCenter, k.boxSize))
      && Placed(k)
  }

  lemma {:induction false} PlacedSlot(n: Node, q: Quadrant)
    requires Placed(n)
    ensures SlotPlaced(n, q, Slot(n.children, q))
  {
  }

  lemma {:induction false} PlacedWithSlot(n: Node, q: Quadrant, o: Option<Node>)
    requires Placed(n)
    requires SlotPlaced(n, q, o)
    ensures Placed(n.(children := WithSlot(n.children, q, o)))
  {
    var r := n.(children := WithSlot(n.children, q, o));
    forall p: Quadrant
      ensures SlotPlaced(r, p, Slot(r.children, p))
    {
      SlotOfWithSlot(n.children, q, o, p);
      if p != q {
        PlacedSlot(n, p);
      }
    }
    assert Slot(r.children, 0) == r.children.s0 && Slot(r.children, 1) == r.children.s1;
    assert Slot(r.children, 2) == r.children.s2 && Slot(r.children, 3) == r.children.s3;
  }

  // --------------------------------------------------------------- insertion

  /** Attaches the mesh at this node, after the meshes already there. */
  function Attach(n: Node, m: QuadTreeMesh): Node
  {
    n.(meshes := n.meshes + [m])
  }

  /**
   * AddMesh(new_mesh, depth): once the depth budget is spent the mesh stays
   * here; otherwise PushDown decides.
   */
  function AddMesh(n: Node, m: QuadTreeMesh, depth: nat): (r: Node)
    decreases depth, 1
    ensures multiset(AllMeshes(r)) == multiset(AllMeshes(n)) + multiset{m}
    ensures r.boxSize == n.boxSize && r.boxCenter == n.boxCenter && r.sphere == n.sphere
    ensures Height(r) <= Max(Height(n), depth)
    ensures depth == 0 ==> r == Attach(n, m)
  {
    if depth == 0 then Attach(n, m) else PushDown(n, m, depth)
  }

  /** The child in slot `q`, or the fresh node the pool would hand out for it. */
  function ChildFor(n: Node, q: Quadrant): (k: Node)
    ensures Slot(n.children, q).Some? ==> Slot(n.children, q) == Some(k)
    ensures Slot(n.children, q).None? ==> k == NewNode(n.boxSize / 2.0, ChildCenter(n, q))
  {
    match Slot(n.children, q)
    case Some(k) => k
    case None => NewNode(n.boxSize / 2.0, ChildCenter(n, q))
  }

  /**
   * PushDown: a mesh whose sphere lies inside its quadrant goes into that
   * child (created on demand with half the size, centred in the quadrant)
   * with one less level of budget; a sphere that straddles a centre line or
   * sticks out of the node stays here.
   */
  function PushDown(n: Node, m: QuadTreeMesh, depth: nat): (r: Node)
    requires depth > 0
    decreases depth, 0
    ensures multiset(AllMeshes(r)) == multiset(AllMeshes(n)) + multiset{m}
    ensures r.boxSize == n.boxSize && r.boxCenter == n.boxCenter && r.sphere == n.sphere
    ensures Height(r) <= Max(Height(n), depth)
    ensures !FitsQuadrant(n, m.sphere, QuadrantOf(n, m.sphere.center)) ==> r == Attach(n, m)
    ensures FitsQuadrant(n, m.sphere, QuadrantOf(n, m.sphere.center)) ==>
              r.meshes == n.meshes
              && forall p: Quadrant :: p != QuadrantOf(n, m.sphere.center) ==>
                   Slot(r.children, p) == Slot(n.children, p)
  {
    var q := QuadrantOf(n, m.sphere.center);
    if !FitsQuadrant(n, m.sphere, q) then Attach(n, m)
    else
      var child := ChildFor(n, q);
      assert SlotHeight(Some(child)) <= Height(n) + 1 by { HeightOfSlot(n, q); }
      var child' := AddMesh(child, m, depth - 1);
      HeightWithSlot(n, q, Some(child'), Max(Height(n), depth));
      ReplaceChild(n, q, child, child', m);
      OtherSlotsKept(n.children, q, Some(child'));
      n.(children := WithSlot(n.children, q, Some(child')))
  }

  lemma MultisetCancel<T>(a: multiset<T>, b: multiset<T>, x: multiset<T>, y: multiset<T>)
    requires a + x == b + (x + y)
    ensures a == b + y
  {
    assert a == (a + x) - x;
  }

  /** Swapping the child in slot `q` for one holding one more mesh adds that mesh to the subtree. */
  lemma {:induction false} ReplaceChild(n: Node, q: Quadrant, child: Node, child': Node, m: QuadTreeMesh)
    requires Slot(n.children, q).Some? ==> Slot(n.children, q) == Some(child)
    requires Slot(n.children, q).None? ==> AllMeshes(child) == []
    requires multiset(AllMeshes(child')) == multiset(AllMeshes(child)) + multiset{m}
    ensures multiset(AllMeshes(n.(children := WithSlot(n.children, q, Some(child')))))
         == multiset(AllMeshes(n)) + multiset{m}
  {
    var c' := WithSlot(n.children, q, Some(child'));
    ReplaceKid(n.children, q, child, child', m);
    assert AllMeshes(n.(children := c')) == n.meshes + KidsMeshes(c');
    assert AllMeshes(n) == n.meshes + KidsMeshes(n.children);
  }

  lemma {:induction false} ReplaceKid(c: Children, q: Quadrant, child: Node, child': Node, m: QuadTreeMesh)
    requires SlotMeshes(Slot(c, q)) == AllMeshes(child)
    requires multiset(AllMeshes(child')) == multiset(AllMeshes(child)) + multiset{m}
    ensures multiset(KidsMeshes(WithSlot(c, q, Some(child')))) == multiset(KidsMeshes(c)) + multiset{m}
  {
    assert SlotMeshes(Some(child')) == AllMeshes(child');
    KidsMeshesWithSlot(c, q, Some(child'));
    MultisetCancel(multiset(KidsMeshes(WithSlot(c, q, Some(child')))), multiset(KidsMeshes(c)),
                   multiset(AllMeshes(child)), multiset{m});
  }

  lemma {:induction false} OtherSlotsKept(c: Children, q: Quadrant, o: Option<Node>)
    ensures forall p: Quadrant :: p != q ==> Slot(WithSlot(c, q, o), p) == Slot(c, p)
  {
    forall p: Quadrant | p != q
      ensures Slot(WithSlot(c, q, o), p) == Slot(c, p)
    {
      SlotOfWithSlot(c, q, o, p);
    }
  }

  /** The child insertion descends into is placed, whether it existed or is fresh. */
  lemma {:induction false} ChildForPlaced(n: Node, q: Quadrant)
    requires Placed(n)
    ensures var k := ChildFor(n, q);
      && k.boxSize == n.boxSize / 2.0 && k.boxCenter == ChildCenter(n, q)
      && (forall x :: x in AllMeshes(k) ==> InSquare(x.sphere, k.boxCenter, k.boxSize))
      && Placed(k)
  {
    PlacedSlot(n, q);
  }

  /** A placed child that receives a mesh fitting its footprint stays placed. */
  lemma {:induction false} GrownChildPlaced(n: Node, q: Quadrant, child: Node, child': Node, m: QuadTreeMesh)
    requires child.boxSize == n.boxSize / 2.0 && child.boxCenter == ChildCenter(n, q)
    requires forall x :: x in AllMeshes(child) ==> InSquare(x.sphere, child.boxCenter, child.boxSize)
    requires child'.boxSize == child.boxSize && child'.boxCenter == child.boxCenter
    requires multiset(AllMeshes(child')) == multiset(AllMeshes(child)) + multiset{m}
    requires FitsQuadrant(n, m.sphere, q)
    requires Placed(child')
    ensures SlotPlaced(n, q, Some(child'))
  {
    forall x | x in AllMeshes(child')
      ensures InSquare(x.sphere, child'.boxCenter, child'.boxSize)
    {
      assert x in multiset(AllMeshes(child'));
      assert x in multiset(AllMeshes(child)) || x == m;
    }
  }

  /** Insertion keeps every child inside its quadrant and every mesh inside its child. */
  lemma {:induction false} AddMeshPlaced(n: Node, m: QuadTreeMesh, depth: nat)
    requires Placed(n)
    ensures Placed(AddMesh(n, m, depth))
    decreases depth
  {
    var q := QuadrantOf(n, m.sphere.center);
    if depth > 0 && FitsQuadrant(n, m.sphere, q) {
      var child := ChildFor(n, q);
      ChildForPlaced(n, q);
      AddMeshPlaced(child, m, depth - 1);
      var child' := AddMesh(child, m, depth - 1);
      GrownChildPlaced(n, q, child, child', m);
      PlacedWithSlot(n, q, Some(child'));
      assert AddMesh(n, m, depth) == n.(children := WithSlot(n.children, q, Some(child')));
    } else {
      AttachPlaced(n, m);
    }
  }

  lemma {:induction false} AttachPlaced(n: Node, m: QuadTreeMesh)
    requires Placed(n)
    ensures Placed(Attach(n, m))
  {
    var r := Attach(n, m);
    assert r.children == n.children && r.boxSize == n.boxSize && r.boxCenter == n.boxCenter;
    assert SlotPlaced(r, 0, r.children.s0) && SlotPlaced(r, 1, r.children.s1);
    assert SlotPlaced(r, 2, r.children.s2) && SlotPlaced(r, 3, r.children.s3);
  }

  /**
   * The quadrant chosen by comparing centres is the right one: a sphere of
   * non-negative radius that fits any quadrant fits the chosen one.
   */
  lemma {:induction false} QuadrantChoice(n: Node, s: BoundingSphere, q: Quadrant)
    requires s.radius >= 0.0
    requires FitsQuadrant(n, s, q)
    ensures FitsQuadrant(n, s, QuadrantOf(n, s.center))
  {
  }

  /**
   * A mesh is pushed below a node exactly when the depth budget is not spent
   * and its sphere lies in the chosen quadrant; otherwise it is the last
   * mesh attached at the node.
   */
  lemma {:induction false} AddMeshWhere(n: Node, m: QuadTreeMesh, depth: nat)
    ensures var r := AddMesh(n, m, depth);
      if depth > 0 && FitsQuadrant(n, m.sphere, QuadrantOf(n, m.sphere.center))
      then r.meshes == n.meshes
      else r.meshes == n.meshes + [m] && r.children == n.children
  {
  }
}
