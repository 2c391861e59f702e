/**
 * The mesh record of the distant-land index (QuadTreeMesh) and the two
 * orderings used to batch draw calls.  Direct3D resources are opaque: the
 * index never looks inside them, it only stores them and compares their
 * addresses.
 */
module Meshes {
  import opened Geometry
  import Sorting

  datatype Texture = Texture(address: nat)
  datatype VertexBuffer = VertexBuffer(address: nat)
  datatype IndexBuffer = IndexBuffer(address: nat)

  /** A world matrix, known only by identity. */
  datatype Transform = Transform(token: nat)

  /**
   * One drawable batch.  `id` is the record's slot in the tree's mesh pool,
   * i.e. the identity that QuadTree.h's non-owning `QuadTreeMesh*` pointers carry.
   */
  datatype QuadTreeMesh = QuadTreeMesh(
    id: nat,
    sphere: BoundingSphere,
    box: BoundingBox,
    tex: Texture,
    transform: Transform,
    verts: int,
    vBuffer: VertexBuffer,
    faces: int,
    iBuffer: IndexBuffer,
    hasAlpha: bool)

  /**
   * Render-state order: opaque batches before blended ones, then by texture,
   * then by vertex buffer, so that consecutive draws share as much state as
   * possible.
   */
  predicate CompareByState(lh: QuadTreeMesh, rh: QuadTreeMesh)
  {
    if lh.hasAlpha != rh.hasAlpha then !lh.hasAlpha
    else if lh.tex != rh.tex then lh.tex.address < rh.tex.address
    else lh.vBuffer.address < rh.vBuffer.address
  }

  /** Texture order: by texture address only. */
  predicate CompareByTexture(lh: QuadTreeMesh, rh: QuadTreeMesh)
  {
    lh.tex.address < rh.tex.address
  }

  /** The lexicographic key that CompareByState compares. */
  function StateKey(m: QuadTreeMesh): (int, nat, nat)
  {
    (if m.hasAlpha then 1 else 0, m.tex.address, m.vBuffer.address)
  }

  predicate KeyLess(a: (int, nat, nat), b: (int, nat, nat))
  {
    a.0 < b.0 || (a.0 == b.0 && (a.1 < b.1 || (a.1 == b.1 && a.2 < b.2)))
  }

  lemma CompareByStateIsKeyOrder(lh: QuadTreeMesh, rh: QuadTreeMesh)
    ensures CompareByState(lh, rh) <==> KeyLess(StateKey(lh), StateKey(rh))
  {
    if lh.hasAlpha == rh.hasAlpha && lh.tex != rh.tex {
      assert lh.tex.address != rh.tex.address;
    }
  }

  lemma CompareByStateIsStrictOrder()
    ensures Sorting.StrictOrder(CompareByState)
  {
    forall a, b, c | CompareByState(a, b) && CompareByState(b, c)
      ensures CompareByState(a, c)
    {
      CompareByStateIsKeyOrder(a, b);
      CompareByStateIsKeyOrder(b, c);
      CompareByStateIsKeyOrder(a, c);
    }
  }

  lemma CompareByTextureIsStrictOrder()
    ensures Sorting.StrictOrder(CompareByTexture)
  {
  }
}
