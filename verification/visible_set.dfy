/**
 * The per-query collection of visible meshes (VisibleSet): non-owning
 * references gathered during a culling pass, then ordered for submission.
 * References are modelled by the immutable records themselves, whose `id`
 * carries the identity a pointer would.
 */
module VisibleSets {
  import opened Meshes
  import Sorting

  datatype VisibleSet = VisibleSet(items: seq<QuadTreeMesh>)

  const Empty := VisibleSet([])

  /** size(): the number of references held. */
  function Size(vs: VisibleSet): nat
  {
    |vs.items|
  }

  /** Appends one reference at the back. */
  function AddMesh(vs: VisibleSet, m: QuadTreeMesh): (r: VisibleSet)
    ensures Size(r) == Size(vs) + 1
    ensures r.items[Size(vs)] == m
    ensures r.items[..Size(vs)] == vs.items
  {
    VisibleSet(vs.items + [m])
  }

  /** Appends a whole run of references at the back, in order. */
  function AddAll(vs: VisibleSet, ms: seq<QuadTreeMesh>): (r: VisibleSet)
    ensures Size(r) == Size(vs) + |ms|
    ensures r.items[..Size(vs)] == vs.items
    ensures r.items[Size(vs)..] == ms
  {
    VisibleSet(vs.items + ms)
  }

  /** Drops every reference; the records themselves are untouched. */
  function RemoveAll(vs: VisibleSet): (r: VisibleSet)
    ensures Size(r) == 0
  {
    Empty
  }

  function SortByState(vs: VisibleSet): (r: VisibleSet)
    ensures Size(r) == Size(vs)
    ensures multiset(r.items) == multiset(vs.items)
    ensures Sorting.SortedBy(r.items, CompareByState)
    ensures Sorting.SortedBy(vs.items, CompareByState) ==> r == vs
  {
    CompareByStateIsStrictOrder();
    Sorting.SortSorted(vs.items, CompareByState);
    assert Sorting.SortedBy(vs.items, CompareByState) ==> Sorting.InsertionSort(vs.items, CompareByState) == vs.items by {
      if Sorting.SortedBy(vs.items, CompareByState) {
        Sorting.SortKeepsSorted(vs.items, CompareByState);
      }
    }
    VisibleSet(Sorting.InsertionSort(vs.items, CompareByState))
  }

  function SortByTexture(vs: VisibleSet): (r: VisibleSet)
    ensures Size(r) == Size(vs)
    ensures multiset(r.items) == multiset(vs.items)
    ensures Sorting.SortedBy(r.items, CompareByTexture)
    ensures Sorting.SortedBy(vs.items, CompareByTexture) ==> r == vs
  {
    CompareByTextureIsStrictOrder();
    Sorting.SortSorted(vs.items, CompareByTexture);
    assert Sorting.SortedBy(vs.items, CompareByTexture) ==> Sorting.InsertionSort(vs.items, CompareByTexture) == vs.items by {
      if Sorting.SortedBy(vs.items, CompareByTexture) {
        Sorting.SortKeepsSorted(vs.items, CompareByTexture);
      }
    }
    VisibleSet(Sorting.InsertionSort(vs.items, CompareByTexture))
  }

  /** Sorting twice by the same key is the same as sorting once. */
  lemma SortByStateIdempotent(vs: VisibleSet)
    ensures SortByState(SortByState(vs)) == SortByState(vs)
  {
  }

  lemma SortByTextureIdempotent(vs: VisibleSet)
    ensures SortByTexture(SortByTexture(vs)) == SortByTexture(vs)
  {
  }
}
