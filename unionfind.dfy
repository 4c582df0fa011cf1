/**
 * The union-find structure the percolation grid relies on (the library class
 * `WeightedQuickUnionUF`), specified by its connectivity contract and realised
 * by a component-label array: two elements are connected exactly when they
 * carry the same label, and every label names a member of its own component.
 */
module UnionFind {

  /** x and y are in the same component of the partition labelled by `ids`. */
  predicate Same(ids: seq<nat>, x: nat, y: nat)
    requires x < |ids| && y < |ids|
  {
    ids[x] == ids[y]
  }

  /** The connectivity `union(p, q)` must produce: the components of p and q become one, the rest stay. */
  ghost predicate Merged(ids: seq<nat>, p: nat, q: nat, x: nat, y: nat)
    requires p < |ids| && q < |ids| && x < |ids| && y < |ids|
  {
    || Same(ids, x, y)
    || (Same(ids, x, p) && Same(ids, y, q))
    || (Same(ids, x, q) && Same(ids, y, p))
  }

  /** Every label is an element of the component it names (the component's root). */
  ghost predicate Rooted(ids: seq<nat>)
  {
    forall k :: 0 <= k < |ids| ==> ids[k] < |ids| && ids[ids[k]] == ids[k]
  }

  /**
   * The merged relation is again an equivalence, it does not depend on the
   * order of p and q, it joins p with q, and it joins nothing outside the
   * two merged components that was not joined before.
   */
  lemma MergedIsUnion(ids: seq<nat>, p: nat, q: nat)
    requires p < |ids| && q < |ids|
    ensures Merged(ids, p, q, p, q)
    ensures forall x, y :: 0 <= x < |ids| && 0 <= y < |ids| ==> (Merged(ids, p, q, x, y) <==> Merged(ids, q, p, x, y))
    ensures forall x, y :: 0 <= x < |ids| && 0 <= y < |ids| && Merged(ids, p, q, x, y) ==> Merged(ids, p, q, y, x)
    ensures forall x, y, z :: 0 <= x < |ids| && 0 <= y < |ids| && 0 <= z < |ids| && Merged(ids, p, q, x, y) && Merged(ids, p, q, y, z) ==> Merged(ids, p, q, x, z)
    ensures forall x, y :: 0 <= x < |ids| && 0 <= y < |ids| && !Same(ids, x, p) && !Same(ids, x, q) ==> (Merged(ids, p, q, x, y) <==> Same(ids, x, y))
  {
  }

  class UnionFind {
    /** The component label of each element. */
    const id: array<nat>

    ghost predicate Valid()
      reads this, id
    {
      Rooted(id[..])
    }

    /** `new WeightedQuickUnionUF(m)`: m singleton components. */
    constructor (m: nat)
      ensures Valid() && fresh(id) && id.Length == m
      ensures forall x, y :: 0 <= x < m && 0 <= y < m ==> (Same(id[..], x, y) <==> x == y)
    {
      id := new nat[m](k => k);
    }

    /** The root of p's component. */
    function Find(p: nat): (r: nat)
      reads this, id
      requires Valid() && p < id.Length
      ensures r < id.Length && Same(id[..], p, r) && id[r] == r
    {
      id[p]
    }

    /** p and q are in the same component. */
    function Connected(p: nat, q: nat): (b: bool)
      reads this, id
      requires Valid() && p < id.Length && q < id.Length
      ensures b <==> Same(id[..], p, q)
    {
      Find(p) == Find(q)
    }

    /** Merges the components of p and q and no other. */
    method Union(p: nat, q: nat)
      requires Valid() && p < id.Length && q < id.Length
      modifies id
      ensures Valid()
      ensures forall x, y :: 0 <= x < id.Length && 0 <= y < id.Length ==>
                (Same(id[..], x, y) <==> Merged(old(id[..]), p, q, x, y))
    {
      ghost var before := id[..];
      var pRoot, qRoot := id[p], id[q];
      for k := 0 to id.Length
        invariant forall m :: 0 <= m < k ==> id[m] == (if before[m] == pRoot then qRoot else before[m])
        invariant forall m :: k <= m < id.Length ==> id[m] == before[m]
      {
        if id[k] == pRoot {
          id[k] := qRoot;
        }
      }
    }
  }
}
