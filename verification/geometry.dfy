/**
 * Exact geometry for the distant-land quadtree: points, bounding spheres, the
 * square footprints of nodes, and the sphere relations the culling relies on.
 * Distances are compared in squared form, so no square roots are needed.
 */
module Geometry {

  /** A point of the partitioning plane (the two horizontal components). */
  datatype Vec2 = Vec2(x: real, y: real)

  datatype Vec3 = Vec3(x: real, y: real, z: real)

  datatype BoundingSphere = BoundingSphere(center: Vec3, radius: real)

  /** Axis-aligned box; carried by every mesh but never consulted by the index. */
  datatype BoundingBox = BoundingBox(min: Vec3, max: Vec3)

  /** Result of testing a sphere against a view frustum. */
  datatype Containment = Outside | Intersect | Inside

  /** The frustum plane test, abstracted as a classification of spheres. */
  type Frustum = BoundingSphere -> Containment

  function Sq(a: real): real { a * a }

  function SqDist(a: Vec3, b: Vec3): real
  {
    Sq(a.x - b.x) + Sq(a.y - b.y) + Sq(a.z - b.z)
  }

  function Abs(a: real): real { if a < 0.0 then -a else a }

  /** Taxicab distance: never smaller than the Euclidean one. */
  function L1Dist(a: Vec3, b: Vec3): (d: real)
    ensures d >= 0.0
    ensures SqDist(a, b) <= d * d
  {
    var dx, dy, dz := Abs(a.x - b.x), Abs(a.y - b.y), Abs(a.z - b.z);
    assert dx * dy >= 0.0 && dx * dz >= 0.0 && dy * dz >= 0.0;
    assert (dx + dy + dz) * (dx + dy + dz)
        == dx * dx + dy * dy + dz * dz + 2.0 * (dx * dy + dx * dz + dy * dz);
    dx + dy + dz
  }

  /** `outer` contains every point of `inner`. */
  predicate Encloses(outer: BoundingSphere, inner: BoundingSphere)
  {
    && inner.radius <= outer.radius
    && SqDist(outer.center, inner.center) <= Sq(outer.radius - inner.radius)
  }

  /** The two spheres share at least one point. */
  predicate Overlaps(a: BoundingSphere, b: BoundingSphere)
  {
    && 0.0 <= a.radius + b.radius
    && SqDist(a.center, b.center) <= Sq(a.radius + b.radius)
  }

  /** The sphere lies entirely inside the square of half-extent `half` around `center`. */
  predicate InSquare(s: BoundingSphere, center: Vec2, half: real)
  {
    && center.x - half <= s.center.x - s.radius
    && s.center.x + s.radius <= center.x + half
    && center.y - half <= s.center.y - s.radius
    && s.center.y + s.radius <= center.y + half
  }

  lemma MulMono(a: real, b: real, c: real, d: real)
    requires 0.0 <= a <= c && 0.0 <= b <= d
    ensures a * b <= c * d
  {
    assert a * b <= c * b;
    assert c * b <= c * d;
  }

  lemma SqNonneg(a: real)
    ensures Sq(a) >= 0.0
  {
  }

  lemma SqSwap(a: real, b: real)
    ensures Sq(a - b) == (b - a) * (b - a)
  {
  }

  lemma SquareOfEqual(a: real, b: real)
    requires a == b
    ensures a * a == Sq(b)
  {
  }

  lemma SqCongruent(a: real, b: real)
    requires a == b
    ensures Sq(a) == Sq(b)
  {
  }

  lemma PosMul(a: real, b: real)
    requires a > 0.0 && b > 0.0
    ensures a * b > 0.0
  {
  }

  /** Lagrange's identity in three dimensions, the core of Cauchy-Schwarz. */
  lemma Lagrange(u1: real, u2: real, u3: real, v1: real, v2: real, v3: real)
    ensures (u1 * u1 + u2 * u2 + u3 * u3) * (v1 * v1 + v2 * v2 + v3 * v3)
         == Sq(u1 * v1 + u2 * v2 + u3 * v3)
          + Sq(u1 * v2 - u2 * v1) + Sq(u1 * v3 - u3 * v1) + Sq(u2 * v3 - u3 * v2)
  {
  }

  /** Cauchy-Schwarz, bounded: a dot product is at most the product of the length bounds. */
  lemma DotBound(U: real, V: real, D: real, p: real, q: real)
    requires 0.0 <= p && 0.0 <= q
    requires 0.0 <= U <= p * p && 0.0 <= V <= q * q
    requires D * D <= U * V
    ensures D <= p * q
  {
    MulMono(U, V, p * p, q * q);
    var pq := p * q;
    assert p * p * (q * q) == pq * pq;
    if D > pq {
      assert D * D - pq * pq == (D - pq) * (D + pq);
      PosMul(D - pq, D + pq);
    }
  }

  lemma Expand(u1: real, u2: real, u3: real, v1: real, v2: real, v3: real)
    ensures Sq(u1 + v1) + Sq(u2 + v2) + Sq(u3 + v3)
         == (u1 * u1 + u2 * u2 + u3 * u3) + 2.0 * (u1 * v1 + u2 * v2 + u3 * v3)
          + (v1 * v1 + v2 * v2 + v3 * v3)
  {
  }

  function Len2(v: Vec3): real { v.x * v.x + v.y * v.y + v.z * v.z }

  lemma SqDistLen(a: Vec3, b: Vec3)
    ensures SqDist(a, b) == Len2(Vec3(b.x - a.x, b.y - a.y, b.z - a.z))
  {
    SqSwap(a.x, b.x); SqSwap(a.y, b.y); SqSwap(a.z, b.z);
  }

  /** The triangle inequality on difference vectors u = b - a and v = c - b. */
  lemma SumBound(u: Vec3, v: Vec3, p: real, q: real)
    requires 0.0 <= p && 0.0 <= q
    requires Len2(u) <= p * p
    requires Len2(v) <= q * q
    ensures Len2(Vec3(u.x + v.x, u.y + v.y, u.z + v.z)) <= (p + q) * (p + q)
  {
    var U, V := Len2(u), Len2(v);
    var D := u.x * v.x + u.y * v.y + u.z * v.z;
    Lagrange(u.x, u.y, u.z, v.x, v.y, v.z);
    SqNonneg(u.x * v.y - u.y * v.x);
    SqNonneg(u.x * v.z - u.z * v.x);
    SqNonneg(u.y * v.z - u.z * v.y);
    assert Sq(D) == D * D;
    assert D * D <= U * V;
    DotBound(U, V, D, p, q);
    Expand(u.x, u.y, u.z, v.x, v.y, v.z);
    assert (p + q) * (p + q) == p * p + 2.0 * (p * q) + q * q;
  }

  /** Triangle inequality in squared form: |a - c| <= |a - b| + |b - c|. */
  lemma Triangle(a: Vec3, b: Vec3, c: Vec3, p: real, q: real)
    requires 0.0 <= p && 0.0 <= q
    requires SqDist(a, b) <= Sq(p)
    requires SqDist(b, c) <= Sq(q)
    ensures SqDist(a, c) <= Sq(p + q)
  {
    var u := Vec3(b.x - a.x, b.y - a.y, b.z - a.z);
    var v := Vec3(c.x - b.x, c.y - b.y, c.z - b.z);
    SqDistLen(a, b);
    SqDistLen(b, c);
    SqDistLen(a, c);
    SumBound(u, v, p, q);
    SquareOfEqual(p + q, p + q);
    assert Vec3(c.x - a.x, c.y - a.y, c.z - a.z) == Vec3(u.x + v.x, u.y + v.y, u.z + v.z);
  }

  /** Enclosure chains, stated on plain centres and radii. */
  lemma EnclosureChain(ca: Vec3, cb: Vec3, cc: Vec3, ra: real, rb: real, rc: real)
    requires rb <= ra && rc <= rb
    requires SqDist(ca, cb) <= Sq(ra - rb)
    requires SqDist(cb, cc) <= Sq(rb - rc)
    ensures SqDist(ca, cc) <= Sq(ra - rc)
  {
    Triangle(ca, cb, cc, ra - rb, rb - rc);
    SqCongruent((ra - rb) + (rb - rc), ra - rc);
  }

  lemma EnclosesTransitive(a: BoundingSphere, b: BoundingSphere, c: BoundingSphere)
    requires Encloses(a, b) && Encloses(b, c)
    ensures Encloses(a, c)
  {
    EnclosureChain(a.center, b.center, c.center, a.radius, b.radius, c.radius);
  }

  /** Overlap grows outward, stated on plain centres and radii. */
  lemma OverlapChain(cv: Vec3, ci: Vec3, co: Vec3, rv: real, ri: real, ro: real)
    requires ri <= ro && 0.0 <= rv + ri
    requires SqDist(cv, ci) <= Sq(rv + ri)
    requires SqDist(ci, co) <= Sq(ro - ri)
    ensures SqDist(cv, co) <= Sq(rv + ro)
  {
    Triangle(cv, ci, co, rv + ri, ro - ri);
    SqCongruent((rv + ri) + (ro - ri), rv + ro);
  }

  /** A sphere that meets an enclosed sphere meets the enclosing one too. */
  lemma OverlapsGrows(view: BoundingSphere, outer: BoundingSphere, inner: BoundingSphere)
    requires Encloses(outer, inner)
    requires Overlaps(view, inner)
    ensures Overlaps(view, outer)
  {
    assert SqDist(inner.center, outer.center) == SqDist(outer.center, inner.center);
    OverlapChain(view.center, inner.center, outer.center, view.radius, inner.radius, outer.radius);
  }

  /** Any sphere whose taxicab reach from `c` is at most `r` lies in the sphere (c, r). */
  lemma ReachEncloses(c: Vec3, r: real, s: BoundingSphere)
    requires L1Dist(c, s.center) + s.radius <= r
    ensures Encloses(BoundingSphere(c, r), s)
  {
    var d := L1Dist(c, s.center);
    MulMono(d, d, r - s.radius, r - s.radius);
  }
}
