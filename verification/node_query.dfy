/**
 * QuadTreeNode::GetVisibleMeshes, both overloads.  A subtree whose sphere the
 * frustum classifies as Outside is skipped whole; one classified Inside is
 * accepted whole without further frustum tests (the `inside` flag); in between,
 * the node's own meshes are tested one by one and the children are visited.
 * The second overload also requires every node and mesh to meet a view sphere.
 */
module NodeQuery {
  import opened Wrappers
  import opened Geometry
  import opened Meshes
  import opened QuadTreeNodes
  import opened NodeVolume

  // ------------------------------------------------------------------ filters

  /** The meshes the frustum does not reject, in order. */
  function FrustumFilter(ms: seq<QuadTreeMesh>, f: Frustum): (r: seq<QuadTreeMesh>)
    ensures multiset(r) <= multiset(ms)
    ensures forall m :: m in r <==> m in ms && f(m.sphere) != Outside
  {
    if |ms| == 0 then []
    else
      assert ms == [ms[0]] + ms[1..];
      var rest := FrustumFilter(ms[1..], f);
      if f(ms[0].sphere) != Outside then [ms[0]] + rest else rest
  }

  /** The meshes whose sphere meets the view sphere, in order. */
  function ViewFilter(ms: seq<QuadTreeMesh>, view: BoundingSphere): (r: seq<QuadTreeMesh>)
    ensures multiset(r) <= multiset(ms)
    ensures forall m :: m in r <==> m in ms && Overlaps(view, m.sphere)
  {
    if |ms| == 0 then []
    else
      assert ms == [ms[0]] + ms[1..];
      var rest := ViewFilter(ms[1..], view);
      if Overlaps(view, ms[0].sphere) then [ms[0]] + rest else rest
  }

  lemma {:induction false} FrustumFilterAppend(a: seq<QuadTreeMesh>, b: seq<QuadTreeMesh>, f: Frustum)
    ensures FrustumFilter(a + b, f) == FrustumFilter(a, f) + FrustumFilter(b, f)
  {
    if |a| > 0 {
      assert (a + b)[1..] == a[1..] + b;
      FrustumFilterAppend(a[1..], b, f);
    } else {
      assert a + b == b;
    }
  }

  lemma {:induction false} ViewFilterAppend(a: seq<QuadTreeMesh>, b: seq<QuadTreeMesh>, view: BoundingSphere)
    ensures ViewFilter(a + b, view) == ViewFilter(a, view) + ViewFilter(b, view)
  {
    if |a| > 0 {
      assert (a + b)[1..] == a[1..] + b;
      ViewFilterAppend(a[1..], b, view);
    } else {
      assert a + b == b;
    }
  }

  lemma {:induction false} FrustumFilterKeepsAll(ms: seq<QuadTreeMesh>, f: Frustum)
    requires forall m :: m in ms ==> f(m.sphere) != Outside
    ensures FrustumFilter(ms, f) == ms
  {
    if |ms| > 0 {
      FrustumFilterKeepsAll(ms[1..], f);
      assert [ms[0]] + ms[1..] == ms;
    }
  }

  lemma {:induction false} ViewFilterDropsAll(ms: seq<QuadTreeMesh>, view: BoundingSphere)
    requires forall m :: m in ms ==> !Overlaps(view, m.sphere)
    ensures ViewFilter(ms, view) == []
  {
    if |ms| > 0 {
      ViewFilterDropsAll(ms[1..], view);
    }
  }

  /** The node's own meshes that a query collects. */
  function Accept(ms: seq<QuadTreeMesh>, f: Frustum, inside: bool): seq<QuadTreeMesh>
  {
    if inside then ms else FrustumFilter(ms, f)
  }

  // ----------------------------------------------------------- frustum query

  /** GetVisibleMeshes(frustum, visible_set, inside): the meshes collected, in visiting order. */
  function Visible(n: Node, f: Frustum, inside: bool): (r: seq<QuadTreeMesh>)
    decreases n, 1
    ensures multiset(r) <= multiset(AllMeshes(n))
    ensures inside ==> r == AllMeshes(n)
    ensures !inside && f(n.sphere) == Outside ==> r == []
  {
    if !inside && f(n.sphere) == Outside then []
    else
      var ins := inside || f(n.sphere) == Inside;
      var own := Accept(n.meshes, f, ins);
      var kids := KidsVisible(n.children, f, ins);
      SubmultisetAppend(own, n.meshes, kids, KidsMeshes(n.children));
      own + kids
  }

  /** The children's contributions, in slot order. */
  function KidsVisible(c: Children, f: Frustum, inside: bool): (r: seq<QuadTreeMesh>)
    decreases c, 2
    ensures multiset(r) <= multiset(KidsMeshes(c))
    ensures inside ==> r == KidsMeshes(c)
  {
    var a, b, d, e := SlotVisible(c.s0, f, inside), SlotVisible(c.s1, f, inside),
                      SlotVisible(c.s2, f, inside), SlotVisible(c.s3, f, inside);
    SubmultisetAppend(a, SlotMeshes(c.s0), b, SlotMeshes(c.s1));
    SubmultisetAppend(a + b, SlotMeshes(c.s0) + SlotMeshes(c.s1), d, SlotMeshes(c.s2));
    SubmultisetAppend(a + b + d, SlotMeshes(c.s0) + SlotMeshes(c.s1) + SlotMeshes(c.s2), e, SlotMeshes(c.s3));
    a + b + d + e
  }

  lemma SubmultisetAppend<T>(a: seq<T>, A: seq<T>, b: seq<T>, B: seq<T>)
    requires multiset(a) <= multiset(A) && multiset(b) <= multiset(B)
    ensures multiset(a + b) <= multiset(A + B)
  {
  }

  function SlotVisible(o: Option<Node>, f: Frustum, inside: bool): (r: seq<QuadTreeMesh>)
    decreases o, 0
    ensures multiset(r) <= multiset(SlotMeshes(o))
    ensures inside ==> r == SlotMeshes(o)
  {
    match o
    case None => []
    case Some(k) => Visible(k, f, inside)
  }

  /** A frustum that rejects nothing sees every mesh of the subtree, in order. */
  lemma {:induction false} AcceptAllSeesAll(n: Node, f: Frustum, inside: bool)
    requires forall s :: f(s) != Outside
    ensures Visible(n, f, inside) == AllMeshes(n)
    decreases n, 1
  {
    if !inside {
      var ins := f(n.sphere) == Inside;
      FrustumFilterKeepsAll(n.meshes, f);
      KidsAcceptAllSeesAll(n.children, f, ins);
    }
  }

  lemma {:induction false} KidsAcceptAllSeesAll(c: Children, f: Frustum, inside: bool)
    requires forall s :: f(s) != Outside
    ensures KidsVisible(c, f, inside) == KidsMeshes(c)
    decreases c, 2
  {
    SlotAcceptAllSeesAll(c.s0, f, inside);
    SlotAcceptAllSeesAll(c.s1, f, inside);
    SlotAcceptAllSeesAll(c.s2, f, inside);
    SlotAcceptAllSeesAll(c.s3, f, inside);
  }

  lemma {:induction false} SlotAcceptAllSeesAll(o: Option<Node>, f: Frustum, inside: bool)
    requires forall s :: f(s) != Outside
    ensures SlotVisible(o, f, inside) == SlotMeshes(o)
    decreases o, 0
  {
    if o.Some? {
      AcceptAllSeesAll(o.value, f, inside);
    }
  }

  /**
   * What a plane-based frustum test gives: a sphere inside an Outside sphere
   * is Outside, and a sphere inside an Inside sphere is Inside.
   */
  ghost predicate Monotone(f: Frustum)
  {
    forall outer, inner :: Encloses(outer, inner) ==>
      && (f(outer) == Outside ==> f(inner) == Outside)
      && (f(outer) == Inside ==> f(inner) == Inside)
  }

  /**
   * The hierarchical query loses nothing and adds nothing: on a tree with
   * sound volumes it returns exactly the meshes a flat scan of the subtree
   * would accept, in the same order.
   */
  lemma {:induction false} QueryMatchesScan(n: Node, f: Frustum, inside: bool)
    requires VolumeSound(n)
    requires Monotone(f)
    ensures Visible(n, f, inside) == Accept(AllMeshes(n), f, inside)
    decreases n, 1
  {
    if inside {
    } else if f(n.sphere) == Outside {
      FrustumRejectsEnclosed(n, f);
    } else if f(n.sphere) == Inside {
      FrustumAcceptsEnclosed(n, f);
      assert Visible(n, f, false) == Visible(n, f, true);
    } else {
      KidsQueryMatchesScan(n.sphere, n.children, f);
      FrustumFilterAppend(n.meshes, KidsMeshes(n.children), f);
    }
  }

  lemma FrustumRejectsEnclosed(n: Node, f: Frustum)
    requires VolumeSound(n) && Monotone(f)
    requires f(n.sphere) == Outside
    ensures FrustumFilter(AllMeshes(n), f) == []
  {
    var r := FrustumFilter(AllMeshes(n), f);
    if |r| > 0 {
      assert r[0] in AllMeshes(n);
      SoundEnclosesAll(n, r[0]);
    }
  }

  lemma FrustumAcceptsEnclosed(n: Node, f: Frustum)
    requires VolumeSound(n) && Monotone(f)
    requires f(n.sphere) == Inside
    ensures FrustumFilter(AllMeshes(n), f) == AllMeshes(n)
  {
    forall m | m in AllMeshes(n)
      ensures f(m.sphere) != Outside
    {
      SoundEnclosesAll(n, m);
    }
    FrustumFilterKeepsAll(AllMeshes(n), f);
  }

  lemma {:induction false} KidsQueryMatchesScan(s: BoundingSphere, c: Children, f: Frustum)
    requires SlotSound(s, c.s0) && SlotSound(s, c.s1) && SlotSound(s, c.s2) && SlotSound(s, c.s3)
    requires Monotone(f)
    ensures KidsVisible(c, f, false) == FrustumFilter(KidsMeshes(c), f)
    decreases c, 2
  {
    SlotQueryMatchesScan(s, c.s0, f);
    SlotQueryMatchesScan(s, c.s1, f);
    SlotQueryMatchesScan(s, c.s2, f);
    SlotQueryMatchesScan(s, c.s3, f);
    var a, b, d, e := SlotMeshes(c.s0), SlotMeshes(c.s1), SlotMeshes(c.s2), SlotMeshes(c.s3);
    FrustumFilterAppend(a + b + d, e, f);
    FrustumFilterAppend(a + b, d, f);
    FrustumFilterAppend(a, b, f);
  }

  lemma {:induction false} SlotQueryMatchesScan(s: BoundingSphere, o: Option<Node>, f: Frustum)
    requires SlotSound(s, o)
    requires Monotone(f)
    ensures SlotVisible(o, f, false) == FrustumFilter(SlotMeshes(o), f)
    decreases o, 0
  {
    if o.Some? {
      QueryMatchesScan(o.value, f, false);
    }
  }

  // ------------------------------------------------- frustum and view sphere

  /**
   * GetVisibleMeshes(frustum, viewsphere, visible_set, inside): as Visible,
   * but a node or mesh whose sphere misses the view sphere is dropped too.
   * The `inside` flag skips only the frustum test.
   */
  function VisibleIn(n: Node, f: Frustum, view: BoundingSphere, inside: bool): (r: seq<QuadTreeMesh>)
    decreases n, 1
    ensures multiset(r) <= multiset(Visible(n, f, inside))
    ensures !Overlaps(view, n.sphere) ==> r == []
  {
    if !Overlaps(view, n.sphere) then []
    else if !inside && f(n.sphere) == Outside then []
    else
      var ins := inside || f(n.sphere) == Inside;
      var own := ViewFilter(Accept(n.meshes, f, ins), view);
      var kids := KidsVisibleIn(n.children, f, view, ins);
      SubmultisetAppend(own, Accept(n.meshes, f, ins), kids, KidsVisible(n.children, f, ins));
      own + kids
  }

  function KidsVisibleIn(c: Children, f: Frustum, view: BoundingSphere, inside: bool): (r: seq<QuadTreeMesh>)
    decreases c, 2
    ensures multiset(r) <= multiset(KidsVisible(c, f, inside))
  {
    var a, b, d, e := SlotVisibleIn(c.s0, f, view, inside), SlotVisibleIn(c.s1, f, view, inside),
                      SlotVisibleIn(c.s2, f, view, inside), SlotVisibleIn(c.s3, f, view, inside);
    var A, B, D, E := SlotVisible(c.s0, f, inside), SlotVisible(c.s1, f, inside),
                      SlotVisible(c.s2, f, inside), SlotVisible(c.s3, f, inside);
    SubmultisetAppend(a, A, b, B);
    SubmultisetAppend(a + b, A + B, d, D);
    SubmultisetAppend(a + b + d, A + B + D, e, E);
    a + b + d + e
  }

  function SlotVisibleIn(o: Option<Node>, f: Frustum, view: BoundingSphere, inside: bool): (r: seq<QuadTreeMesh>)
    decreases o, 0
    ensures multiset(r) <= multiset(SlotVisible(o, f, inside))
  {
    match o
    case None => []
    case Some(k) => VisibleIn(k, f, view, inside)
  }

  /**
   * On a tree with sound volumes the view-sphere test at the nodes only
   * prunes: the result is the frustum-only result with the meshes that miss
   * the view sphere removed, in the same order.
   */
  lemma {:induction false} SphereQueryMatchesFilter(n: Node, f: Frustum, view: BoundingSphere, inside: bool)
    requires VolumeSound(n)
    ensures VisibleIn(n, f, view, inside) == ViewFilter(Visible(n, f, inside), view)
    decreases n, 1
  {
    if !Overlaps(view, n.sphere) {
      forall m | m in Visible(n, f, inside)
        ensures !Overlaps(view, m.sphere)
      {
        assert m in multiset(AllMeshes(n));
        SoundEnclosesAll(n, m);
        if Overlaps(view, m.sphere) {
          OverlapsGrows(view, n.sphere, m.sphere);
        }
      }
      ViewFilterDropsAll(Visible(n, f, inside), view);
    } else if !inside && f(n.sphere) == Outside {
    } else {
      var ins := inside || f(n.sphere) == Inside;
      KidsSphereQueryMatchesFilter(n.sphere, n.children, f, view, ins);
      ViewFilterAppend(Accept(n.meshes, f, ins), KidsVisible(n.children, f, ins), view);
    }
  }

  lemma {:induction false} KidsSphereQueryMatchesFilter(s: BoundingSphere, c: Children, f: Frustum,
                                                        view: BoundingSphere, inside: bool)
    requires SlotSound(s, c.s0) && SlotSound(s, c.s1) && SlotSound(s, c.s2) && SlotSound(s, c.s3)
    ensures KidsVisibleIn(c, f, view, inside) == ViewFilter(KidsVisible(c, f, inside), view)
    decreases c, 2
  {
    SlotSphereQueryMatchesFilter(s, c.s0, f, view, inside);
    SlotSphereQueryMatchesFilter(s, c.s1, f, view, inside);
    SlotSphereQueryMatchesFilter(s, c.s2, f, view, inside);
    SlotSphereQueryMatchesFilter(s, c.s3, f, view, inside);
    var a, b, d, e := SlotVisible(c.s0, f, inside), SlotVisible(c.s1, f, inside),
                      SlotVisible(c.s2, f, inside), SlotVisible(c.s3, f, inside);
    ViewFilterAppend(a + b + d, e, view);
    ViewFilterAppend(a + b, d, view);
    ViewFilterAppend(a, b, view);
  }

  lemma {:induction false} SlotSphereQueryMatchesFilter(s: BoundingSphere, o: Option<Node>, f: Frustum,
                                                        view: BoundingSphere, inside: bool)
    requires SlotSound(s, o)
    ensures SlotVisibleIn(o, f, view, inside) == ViewFilter(SlotVisible(o, f, inside), view)
    decreases o, 0
  {
    if o.Some? {
      SphereQueryMatchesFilter(o.value, f, view, inside);
    }
  }
}
