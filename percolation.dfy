/**
 * The N-by-N percolation grid of percolation/Percolation.java: sites are
 * addressed by 0-based (row, column) pairs, stored row-major in `site`, and two
 * sentinel slots sit after the grid cells, the virtual top (index N*N) and the
 * virtual bottom (index N*N + 1). Connectivity lives in a union-find over the
 * N*N + 2 indices.
 */
module Percolation {
  import opened Exceptions
  import opened UnionFind

  // ---------------------------------------------------------------------------
  // Coordinates and indices
  // ---------------------------------------------------------------------------

  /** The number of real sites of an n-by-n grid; the sentinels follow them. */
  function Cells(n: int): nat
  {
    n * n
  }

  /** The bounds check of `getIndex`: both coordinates in [0, n). */
  predicate InBounds(n: int, i: int, j: int)
  {
    0 <= i < n && 0 <= j < n
  }

  /** The row-major index of an in-bounds site. */
  function Index(n: int, i: int, j: int): (r: nat)
    requires InBounds(n, i, j)
    ensures r < Cells(n)
  {
    RowFits(n, i);
    i * n + j
  }

  /** The site an index of a real site names: its row and its column. */
  function Coords(n: int, x: nat): (int, int)
    requires 0 < n
  {
    (x / n, x % n)
  }

  lemma RowFits(n: int, i: int)
    requires 0 <= i < n
    ensures 0 <= i * n && (i + 1) * n <= n * n
  {
  }

  lemma MulAtLeast(k: int, n: int)
    requires 0 < n && 1 <= k
    ensures n <= k * n
  {
  }

  /** Euclidean division has one quotient and one remainder. */
  lemma DivUnique(n: int, x: int, q: int, r: int)
    requires 0 < n && 0 <= r < n && x == q * n + r
    ensures x / n == q && x % n == r
  {
    var q', r' := x / n, x % n;
    assert (q' - q) * n == r - r' by { assert x == q' * n + r'; }
    if q' > q { MulAtLeast(q' - q, n); }
    if q' < q { MulAtLeast(q - q', n); }
  }

  /** Coords undoes Index, so no two sites share an index. */
  lemma IndexCoords(n: int, i: int, j: int)
    requires InBounds(n, i, j)
    ensures Coords(n, Index(n, i, j)) == (i, j)
  {
    DivUnique(n, Index(n, i, j), i, j);
  }

  /** Index undoes Coords: every real-site index names an in-bounds site. */
  lemma CoordsIndex(n: int, x: nat)
    requires 0 < n && x < Cells(n)
    ensures InBounds(n, Coords(n, x).0, Coords(n, x).1)
    ensures Index(n, Coords(n, x).0, Coords(n, x).1) == x
  {
    var q := x / n;
    if q >= n { MulAtLeast(q - n + 1, n); }
  }

  lemma IndexInjective(n: int)
    ensures forall i, j, i', j' :: InBounds(n, i, j) && InBounds(n, i', j') && Index(n, i, j) == Index(n, i', j') ==> i == i' && j == j'
  {
    forall i, j, i', j' | InBounds(n, i, j) && InBounds(n, i', j') && Index(n, i, j) == Index(n, i', j')
      ensures i == i' && j == j'
    {
      IndexCoords(n, i, j);
      IndexCoords(n, i', j');
    }
  }

  /**
   * `getIndex(i, j)` with the row-major formula the grid evidently intends:
   * out-of-bounds coordinates throw, and in-bounds ones get a real-site index
   * from which the coordinates can be recovered.
   */
  function GetIndex(n: int, i: int, j: int): (r: Result<nat>)
    ensures r.Success? <==> InBounds(n, i, j)
    ensures r.Failure? ==> r.error == IndexOutOfBounds
    ensures r.Success? ==> r.value < Cells(n) && Coords(n, r.value) == (i, j)
  {
    if i < 0 || i >= n || j < 0 || j >= n then
      Failure(IndexOutOfBounds)
    else
      IndexCoords(n, i, j);
      Success(Index(n, i, j))
  }

  /** `getIndex(i, j)` as written: the same bounds check, then (i-1)*SIZE + (j-1)*SIZE. */
  function GetIndexAsWritten(n: int, i: int, j: int): (r: Result<int>)
    ensures r.Failure? <==> !InBounds(n, i, j)
    ensures r.Failure? ==> r.error == IndexOutOfBounds
    ensures r.Success? ==> r.value == (i + j - 2) * n
  {
    if i < 0 || i >= n || j < 0 || j >= n then
      Failure(IndexOutOfBounds)
    else
      Success((i - 1) * n + (j - 1) * n)
  }

  /** As written, (i, j) and (j, i) share an index, and site (0, 0) gets a negative one. */
  lemma GetIndexAsWrittenCollides(n: int)
    requires 2 <= n
    ensures GetIndexAsWritten(n, 0, 1) == GetIndexAsWritten(n, 1, 0) == Success(-n)
    ensures GetIndexAsWritten(n, 0, 0) == Success(-2 * n) && -2 * n < 0
  {
  }

  // ---------------------------------------------------------------------------
  // The unions `open` performs
  // ---------------------------------------------------------------------------

  /** (i', j') is one of the four neighbours of (i, j). */
  predicate Adjacent(i: int, j: int, i': int, j': int)
  {
    || (i' == i + 1 && j' == j)
    || (i' == i - 1 && j' == j)
    || (i' == i && j' == j + 1)
    || (i' == i && j' == j - 1)
  }

  /** The site `connectNeighbor` unions with: (i, j) itself when it is in bounds and open, else none. */
  function NeighbourLink(n: int, sites: seq<bool>, i: int, j: int): set<nat>
    requires |sites| == Cells(n) + 2
  {
    if InBounds(n, i, j) && sites[Index(n, i, j)] then {Index(n, i, j)} else {}
  }

  /**
   * The indices `open(i, j)` unions the new site with, in the order of the
   * source: the site itself, the virtual top on the top row, the virtual bottom
   * on the bottom row, and the open neighbours below, above, right and left.
   */
  function OpenLinks(n: int, sites: seq<bool>, i: int, j: int): set<nat>
    requires InBounds(n, i, j) && |sites| == Cells(n) + 2
  {
    {Index(n, i, j)}
      + (if i == 0 then {Cells(n)} else {})
      + (if i == n - 1 then {Cells(n) + 1} else {})
      + NeighbourLink(n, sites, i + 1, j)
      + NeighbourLink(n, sites, i - 1, j)
      + NeighbourLink(n, sites, i, j + 1)
      + NeighbourLink(n, sites, i, j - 1)
  }

  /** What opening (i, j) links it to, said without the four calls: a sentinel on its edge row, or an open neighbour. */
  ghost predicate LinkedTo(n: int, sites: seq<bool>, i: int, j: int, l: nat)
    requires InBounds(n, i, j) && |sites| == Cells(n) + 2
  {
    || l == Index(n, i, j)
    || (i == 0 && l == Cells(n))
    || (i == n - 1 && l == Cells(n) + 1)
    || (l < Cells(n) && sites[l] && Adjacent(i, j, Coords(n, l).0, Coords(n, l).1))
  }

  lemma OpenLinksAreLinks(n: int, sites: seq<bool>, i: int, j: int)
    requires InBounds(n, i, j) && |sites| == Cells(n) + 2
    ensures forall l :: l in OpenLinks(n, sites, i, j) <==> LinkedTo(n, sites, i, j, l)
  {
    var L := OpenLinks(n, sites, i, j);
    forall l | l in L ensures LinkedTo(n, sites, i, j, l) {
      if l < Cells(n) && l != Index(n, i, j) {
        var i', j' :| InBounds(n, i', j') && Adjacent(i, j, i', j') && l == Index(n, i', j') && sites[l];
        IndexCoords(n, i', j');
      }
    }
    forall l: nat | LinkedTo(n, sites, i, j, l) ensures l in L {
      if l < Cells(n) && l != Index(n, i, j) {
        CoordsIndex(n, l);
      }
    }
  }

  // ---------------------------------------------------------------------------
  // Connectivity after an open
  // ---------------------------------------------------------------------------

  /** x's component, under the labels `ids`, holds one of the sites in `links`. */
  ghost predicate Touches(ids: seq<nat>, links: set<nat>, x: nat)
    requires x < |ids|
  {
    exists l :: l in links && l < |ids| && ids[l] == ids[x]
  }

  /**
   * `ids` is what successive unions of the sites in `links` make of `before`:
   * two indices are connected when they were connected before, or when both
   * components touched a linked site.
   */
  ghost predicate Reconnected(before: seq<nat>, ids: seq<nat>, links: set<nat>)
  {
    && |ids| == |before|
    && (forall l :: l in links ==> l < |before|)
    && forall x, y :: 0 <= x < |before| && 0 <= y < |before| ==>
         (ids[x] == ids[y] <==> before[x] == before[y] || (Touches(before, links, x) && Touches(before, links, y)))
  }

  /** Nothing connected under `before` is disconnected under `after`. */
  ghost predicate Coarsens(before: seq<nat>, after: seq<nat>)
  {
    |after| == |before| && forall x, y :: 0 <= x < |before| && 0 <= y < |before| && before[x] == before[y] ==> after[x] == after[y]
  }

  /** Before the first union there is one linked site, the opened one. */
  lemma ReconnectedStart(before: seq<nat>, s: nat)
    requires s < |before|
    ensures Reconnected(before, before, {s})
  {
  }

  lemma TouchesOneMore(ids: seq<nat>, links: set<nat>, l: nat, x: nat)
    requires x < |ids| && l < |ids|
    ensures Touches(ids, links + {l}, x) <==> Touches(ids, links, x) || ids[x] == ids[l]
  {
    if Touches(ids, links + {l}, x) && ids[x] != ids[l] {
      var m :| m in links + {l} && m < |ids| && ids[m] == ids[x];
      assert m in links;
    }
  }

  /**
   * One more union of the opened site s with l, in either order, extends the
   * linked set by l.
   */
  lemma {:induction false} LinkOneMore(before: seq<nat>, ids: seq<nat>, next: seq<nat>, links: set<nat>, s: nat, l: nat, p: nat, q: nat)
    requires s in links && l < |before|
    requires Reconnected(before, ids, links)
    requires (p == s && q == l) || (p == l && q == s)
    requires |next| == |before|
    requires forall x, y :: 0 <= x < |before| && 0 <= y < |before| ==> (Same(next, x, y) <==> Merged(ids, p, q, x, y))
    ensures Reconnected(before, next, links + {l})
  {
    assert Touches(before, links, s);
    forall x, y | 0 <= x < |before| && 0 <= y < |before|
      ensures next[x] == next[y] <==> before[x] == before[y] || (Touches(before, links + {l}, x) && Touches(before, links + {l}, y))
    {
      TouchesOneMore(before, links, l, x);
      TouchesOneMore(before, links, l, y);
      TouchesOneMore(before, links, l, l);
      assert Same(next, x, y) <==> Merged(ids, p, q, x, y);
    }
  }

  /** Every linked site ends in one component, and no connection is lost. */
  lemma ReconnectedJoins(before: seq<nat>, ids: seq<nat>, links: set<nat>)
    requires Reconnected(before, ids, links)
    ensures Coarsens(before, ids)
    ensures forall l, m :: l in links && m in links ==> ids[l] == ids[m]
  {
    forall l, m | l in links && m in links ensures ids[l] == ids[m] {
      assert Touches(before, links, l) && Touches(before, links, m);
    }
  }

  // ---------------------------------------------------------------------------
  // The graph the unions follow
  // ---------------------------------------------------------------------------

  /**
   * An edge of the graph whose components the union-find holds: two open
   * neighbouring real sites, or an open top-row (bottom-row) site and the
   * virtual top (bottom), in either direction.
   */
  ghost predicate Edge(n: int, sites: seq<bool>, x: nat, y: nat)
    requires |sites| == Cells(n) + 2
  {
    && 0 < n && x < |sites| && y < |sites| && sites[x] && sites[y]
    && (|| (x < Cells(n) && y < Cells(n) && Adjacent(Coords(n, x).0, Coords(n, x).1, Coords(n, y).0, Coords(n, y).1))
        || (x < Cells(n) && Coords(n, x).0 == 0 && y == Cells(n))
        || (y < Cells(n) && Coords(n, y).0 == 0 && x == Cells(n))
        || (x < Cells(n) && Coords(n, x).0 == n - 1 && y == Cells(n) + 1)
        || (y < Cells(n) && Coords(n, y).0 == n - 1 && x == Cells(n) + 1))
  }

  /** `w` is a walk from x to y along edges of the graph. */
  ghost predicate Walk(n: int, sites: seq<bool>, w: seq<nat>, x: nat, y: nat)
    requires |sites| == Cells(n) + 2
  {
    && |w| > 0 && w[0] == x && w[|w| - 1] == y
    && (forall k :: 0 <= k < |w| ==> w[k] < |sites|)
    && (forall k :: 0 <= k < |w| - 1 ==> Edge(n, sites, w[k], w[k + 1]))
  }

  /** Some walk leads from x to y. */
  ghost predicate Reaches(n: int, sites: seq<bool>, x: nat, y: nat)
    requires |sites| == Cells(n) + 2
  {
    exists w :: Walk(n, sites, w, x, y)
  }

  /** Two indices in one component of `ids` are joined by a walk. */
  ghost predicate ComponentsReachable(n: int, sites: seq<bool>, ids: seq<nat>)
    requires |sites| == Cells(n) + 2 && |ids| == Cells(n) + 2
  {
    forall x, y :: 0 <= x < |ids| && 0 <= y < |ids| && ids[x] == ids[y] ==> Reaches(n, sites, x, y)
  }

  /** Walks compose. */
  lemma ReachesTrans(n: int, sites: seq<bool>, x: nat, m: nat, y: nat)
    requires |sites| == Cells(n) + 2
    requires Reaches(n, sites, x, m) && Reaches(n, sites, m, y)
    ensures Reaches(n, sites, x, y)
  {
    var w1 :| Walk(n, sites, w1, x, m);
    var w2 :| Walk(n, sites, w2, m, y);
    var w := w1 + w2[1..];
    forall k | 0 <= k < |w| - 1 ensures Edge(n, sites, w[k], w[k + 1]) {
      if k < |w1| - 1 {
        assert w[k] == w1[k] && w[k + 1] == w1[k + 1];
      } else {
        assert w[k] == w2[k - |w1| + 1] && w[k + 1] == w2[k - |w1| + 2];
      }
    }
    assert Walk(n, sites, w, x, y);
  }

  /** Opening sites keeps every walk a walk. */
  lemma ReachesGrows(n: int, sites: seq<bool>, sites': seq<bool>, x: nat, y: nat)
    requires |sites| == Cells(n) + 2 && |sites'| == |sites|
    requires forall k :: 0 <= k < |sites| && sites[k] ==> sites'[k]
    requires Reaches(n, sites, x, y)
    ensures Reaches(n, sites', x, y)
  {
    var w :| Walk(n, sites, w, x, y);
    assert Walk(n, sites', w, x, y);
  }

  /** A site an open links is one step from the opened site, in both directions. */
  lemma LinkReaches(n: int, sites: seq<bool>, i: int, j: int, l: nat)
    requires InBounds(n, i, j) && |sites| == Cells(n) + 2 && sites[Cells(n)] && sites[Cells(n) + 1]
    requires l in OpenLinks(n, sites[Index(n, i, j) := true], i, j)
    ensures Reaches(n, sites[Index(n, i, j) := true], Index(n, i, j), l)
    ensures Reaches(n, sites[Index(n, i, j) := true], l, Index(n, i, j))
  {
    var s := Index(n, i, j);
    var sites' := sites[s := true];
    OpenLinksAreLinks(n, sites', i, j);
    IndexCoords(n, i, j);
    if l == s {
      assert Walk(n, sites', [s], s, s);
    } else {
      assert Edge(n, sites', s, l) && Edge(n, sites', l, s);
      assert Walk(n, sites', [s, l], s, l);
      assert Walk(n, sites', [l, s], l, s);
    }
  }

  // ---------------------------------------------------------------------------
  // The grid invariant
  // ---------------------------------------------------------------------------

  /** A closed real site is alone in its component. */
  ghost predicate ClosedAlone(n: int, sites: seq<bool>, ids: seq<nat>)
    requires |sites| == Cells(n) + 2 && |ids| == Cells(n) + 2
  {
    forall x, y :: 0 <= x < Cells(n) && 0 <= y < |ids| && !sites[x] && ids[x] == ids[y] ==> x == y
  }

  /** Every open site of row `row` is connected to the slot `sentinel`. */
  ghost predicate RowLinked(n: int, sites: seq<bool>, ids: seq<nat>, row: int, sentinel: nat)
    requires |sites| == Cells(n) + 2 && |ids| == Cells(n) + 2 && sentinel < |ids|
  {
    forall i, j :: InBounds(n, i, j) && i == row && sites[Index(n, i, j)] ==> ids[Index(n, i, j)] == ids[sentinel]
  }

  /** Every two open neighbouring sites are connected. */
  ghost predicate NeighboursLinked(n: int, sites: seq<bool>, ids: seq<nat>)
    requires |sites| == Cells(n) + 2 && |ids| == Cells(n) + 2
  {
    forall i, j, i', j' ::
      InBounds(n, i, j) && InBounds(n, i', j') && Adjacent(i, j, i', j') && sites[Index(n, i, j)] && sites[Index(n, i', j')]
      ==> ids[Index(n, i, j)] == ids[Index(n, i', j')]
  }

  /**
   * What the grid's unions guarantee: the sentinel slots are open, a closed
   * site is alone in its component, every open top-row site is connected to
   * the virtual top, every open bottom-row site to the virtual bottom, and
   * every two open neighbouring sites to each other; and two indices are in
   * one component only when a walk of the graph joins them.
   */
  ghost predicate GridInvariant(n: int, sites: seq<bool>, ids: seq<nat>)
  {
    && |sites| == Cells(n) + 2 && |ids| == Cells(n) + 2
    && sites[Cells(n)] && sites[Cells(n) + 1]
    && ClosedAlone(n, sites, ids)
    && RowLinked(n, sites, ids, 0, Cells(n))
    && RowLinked(n, sites, ids, n - 1, Cells(n) + 1)
    && NeighboursLinked(n, sites, ids)
    && ComponentsReachable(n, sites, ids)
  }

  /** The two ends of an edge are connected. */
  lemma EdgeConnected(n: int, sites: seq<bool>, ids: seq<nat>, x: nat, y: nat)
    requires GridInvariant(n, sites, ids) && Edge(n, sites, x, y)
    ensures ids[x] == ids[y]
  {
    if x < Cells(n) {
      CoordsIndex(n, x);
    }
    if y < Cells(n) {
      CoordsIndex(n, y);
    }
  }

  /** The two ends of a walk are connected. */
  lemma {:induction false} WalkConnected(n: int, sites: seq<bool>, ids: seq<nat>, w: seq<nat>, x: nat, y: nat)
    requires GridInvariant(n, sites, ids) && Walk(n, sites, w, x, y)
    ensures ids[x] == ids[y]
    decreases |w|
  {
    if |w| > 1 {
      EdgeConnected(n, sites, ids, w[0], w[1]);
      assert Walk(n, sites, w[1..], w[1], y) by {
        forall k | 0 <= k < |w[1..]| - 1 ensures Edge(n, sites, w[1..][k], w[1..][k + 1]) {
          assert w[1..][k] == w[k + 1] && w[1..][k + 1] == w[k + 2];
        }
      }
      WalkConnected(n, sites, ids, w[1..], w[1], y);
    }
  }

  /**
   * The components of the union-find are exactly the reachability classes of
   * the graph: two indices are connected iff a walk joins them.
   */
  lemma ConnectedIffReaches(n: int, sites: seq<bool>, ids: seq<nat>)
    requires GridInvariant(n, sites, ids)
    ensures forall x, y :: 0 <= x < |ids| && 0 <= y < |ids| ==> (ids[x] == ids[y] <==> Reaches(n, sites, x, y))
  {
    forall x, y | 0 <= x < |ids| && 0 <= y < |ids| && Reaches(n, sites, x, y) ensures ids[x] == ids[y] {
      var w :| Walk(n, sites, w, x, y);
      WalkConnected(n, sites, ids, w, x, y);
    }
  }

  /** The connections an open adds are joined by walks through the opened site. */
  lemma OpenKeepsReachable(n: int, sites: seq<bool>, before: seq<nat>, ids: seq<nat>, i: int, j: int)
    requires GridInvariant(n, sites, before) && InBounds(n, i, j) && !sites[Index(n, i, j)]
    requires Reconnected(before, ids, OpenLinks(n, sites[Index(n, i, j) := true], i, j))
    ensures ComponentsReachable(n, sites[Index(n, i, j) := true], ids)
  {
    var s := Index(n, i, j);
    var sites' := sites[s := true];
    var L := OpenLinks(n, sites', i, j);
    forall x, y | 0 <= x < |ids| && 0 <= y < |ids| && ids[x] == ids[y]
      ensures Reaches(n, sites', x, y)
    {
      if before[x] == before[y] {
        ReachesGrows(n, sites, sites', x, y);
      } else {
        var l1 :| l1 in L && l1 < |before| && before[l1] == before[x];
        var l2 :| l2 in L && l2 < |before| && before[l2] == before[y];
        ReachesGrows(n, sites, sites', x, l1);
        ReachesGrows(n, sites, sites', l2, y);
        LinkReaches(n, sites, i, j, l1);
        LinkReaches(n, sites, i, j, l2);
        ReachesTrans(n, sites', x, l1, s);
        ReachesTrans(n, sites', x, s, l2);
        ReachesTrans(n, sites', x, l2, y);
      }
    }
  }

  /** A closed site touches none of the sites a new open links, so it stays alone. */
  lemma OpenKeepsClosedAlone(n: int, sites: seq<bool>, before: seq<nat>, ids: seq<nat>, i: int, j: int)
    requires GridInvariant(n, sites, before) && InBounds(n, i, j) && !sites[Index(n, i, j)]
    requires Reconnected(before, ids, OpenLinks(n, sites[Index(n, i, j) := true], i, j))
    ensures ClosedAlone(n, sites[Index(n, i, j) := true], ids)
  {
    var s := Index(n, i, j);
    var sites' := sites[s := true];
    var L := OpenLinks(n, sites', i, j);
    OpenLinksAreLinks(n, sites', i, j);
    forall x, y | 0 <= x < Cells(n) && 0 <= y < |ids| && !sites'[x] && ids[x] == ids[y]
      ensures x == y
    {
      assert !Touches(before, L, x);
    }
  }

  /** The new site joins the sentinel of its row, and old row links survive. */
  lemma OpenKeepsRowLinked(n: int, sites: seq<bool>, before: seq<nat>, ids: seq<nat>, i: int, j: int, row: int, sentinel: nat)
    requires GridInvariant(n, sites, before) && InBounds(n, i, j) && !sites[Index(n, i, j)]
    requires (row == 0 && sentinel == Cells(n)) || (row == n - 1 && sentinel == Cells(n) + 1)
    requires Reconnected(before, ids, OpenLinks(n, sites[Index(n, i, j) := true], i, j))
    ensures RowLinked(n, sites[Index(n, i, j) := true], ids, row, sentinel)
  {
    var s := Index(n, i, j);
    var sites' := sites[s := true];
    var L := OpenLinks(n, sites', i, j);
    ReconnectedJoins(before, ids, L);
    IndexInjective(n);
    forall i1, j1 | InBounds(n, i1, j1) && i1 == row && sites'[Index(n, i1, j1)]
      ensures ids[Index(n, i1, j1)] == ids[sentinel]
    {
      if i1 == i && j1 == j {
        assert s in L && sentinel in L;
      } else {
        assert sites[Index(n, i1, j1)];
      }
    }
  }

  /** The new site joins its open neighbours, and old neighbour links survive. */
  lemma OpenKeepsNeighboursLinked(n: int, sites: seq<bool>, before: seq<nat>, ids: seq<nat>, i: int, j: int)
    requires GridInvariant(n, sites, before) && InBounds(n, i, j) && !sites[Index(n, i, j)]
    requires Reconnected(before, ids, OpenLinks(n, sites[Index(n, i, j) := true], i, j))
    ensures NeighboursLinked(n, sites[Index(n, i, j) := true], ids)
  {
    var s := Index(n, i, j);
    var sites' := sites[s := true];
    var L := OpenLinks(n, sites', i, j);
    ReconnectedJoins(before, ids, L);
    IndexInjective(n);
    forall i1, j1, i2, j2 |
      InBounds(n, i1, j1) && InBounds(n, i2, j2) && Adjacent(i1, j1, i2, j2) && sites'[Index(n, i1, j1)] && sites'[Index(n, i2, j2)]
      ensures ids[Index(n, i1, j1)] == ids[Index(n, i2, j2)]
    {
      if i1 == i && j1 == j {
        assert s in L && Index(n, i2, j2) in L;
      } else if i2 == i && j2 == j {
        assert s in L && Index(n, i1, j1) in L;
      } else {
        assert sites[Index(n, i1, j1)] && sites[Index(n, i2, j2)];
      }
    }
  }

  /** Opening a closed site and performing its unions keeps the grid invariant. */
  lemma OpenKeepsInvariant(n: int, sites: seq<bool>, before: seq<nat>, ids: seq<nat>, i: int, j: int)
    requires GridInvariant(n, sites, before) && InBounds(n, i, j) && !sites[Index(n, i, j)]
    requires Reconnected(before, ids, OpenLinks(n, sites[Index(n, i, j) := true], i, j))
    ensures GridInvariant(n, sites[Index(n, i, j) := true], ids)
  {
    OpenKeepsClosedAlone(n, sites, before, ids, i, j);
    OpenKeepsRowLinked(n, sites, before, ids, i, j, 0, Cells(n));
    OpenKeepsRowLinked(n, sites, before, ids, i, j, n - 1, Cells(n) + 1);
    OpenKeepsNeighboursLinked(n, sites, before, ids, i, j);
    OpenKeepsReachable(n, sites, before, ids, i, j);
  }

  /** An open site is already connected to every site opening it would link it to. */
  lemma OpenSiteJoinsLinks(n: int, sites: seq<bool>, ids: seq<nat>, i: int, j: int)
    requires GridInvariant(n, sites, ids) && InBounds(n, i, j) && sites[Index(n, i, j)]
    ensures forall l :: l in OpenLinks(n, sites, i, j) ==> ids[Index(n, i, j)] == ids[l]
  {
    forall l | l in OpenLinks(n, sites, i, j) ensures ids[Index(n, i, j)] == ids[l] {
      if l < Cells(n) && l != Index(n, i, j) {
        var i', j' :| InBounds(n, i', j') && Adjacent(i, j, i', j') && l == Index(n, i', j') && sites[l];
      }
    }
  }

  /**
   * A site opened off the top row with no open neighbour is not full, unless
   * it is on the bottom row of a grid that already percolates (backwash).
   */
  lemma OpenedAloneNotFull(n: int, sites: seq<bool>, before: seq<nat>, ids: seq<nat>, i: int, j: int)
    requires GridInvariant(n, sites, before) && InBounds(n, i, j) && !sites[Index(n, i, j)] && i != 0
    requires OpenLinks(n, sites[Index(n, i, j) := true], i, j) <= {Index(n, i, j), Cells(n) + 1}
    requires i == n - 1 ==> before[Cells(n)] != before[Cells(n) + 1]
    requires Reconnected(before, ids, OpenLinks(n, sites[Index(n, i, j) := true], i, j))
    ensures ids[Cells(n)] != ids[Index(n, i, j)]
  {
    var s := Index(n, i, j);
    var L := OpenLinks(n, sites[s := true], i, j);
    assert before[Cells(n)] != before[s];
    if Touches(before, L, Cells(n)) {
      var l :| l in L && l < |before| && before[l] == before[Cells(n)];
    }
  }

  /** The unions of a fresh grid: every site closed and alone, the sentinels open. */
  lemma FreshGridInvariant(n: int, sites: seq<bool>, ids: seq<nat>)
    requires |sites| == Cells(n) + 2 && |ids| == Cells(n) + 2
    requires forall x :: 0 <= x < Cells(n) ==> !sites[x]
    requires sites[Cells(n)] && sites[Cells(n) + 1]
    requires forall x, y :: 0 <= x < |ids| && 0 <= y < |ids| ==> (Same(ids, x, y) <==> x == y)
    ensures GridInvariant(n, sites, ids)
  {
    forall x, y | 0 <= x < |ids| && 0 <= y < |ids| && ids[x] == ids[y] ensures x == y && Reaches(n, sites, x, y) {
      assert Same(ids, x, y);
      assert Walk(n, sites, [x], x, x);
    }
  }

  /** A site connected to the virtual top is open. */
  lemma FullIsOpen(n: int, sites: seq<bool>, ids: seq<nat>, i: int, j: int)
    requires GridInvariant(n, sites, ids) && InBounds(n, i, j)
    requires ids[Cells(n)] == ids[Index(n, i, j)]
    ensures sites[Index(n, i, j)]
  {
  }

  // ---------------------------------------------------------------------------
  // Open paths
  // ---------------------------------------------------------------------------

  /** A non-empty walk through open in-bounds sites, each step to a neighbour. */
  ghost predicate OpenPath(n: int, sites: seq<bool>, path: seq<(int, int)>)
    requires |sites| == Cells(n) + 2
  {
    && |path| > 0
    && (forall k :: 0 <= k < |path| ==> InBounds(n, path[k].0, path[k].1) && sites[Index(n, path[k].0, path[k].1)])
    && (forall k :: 0 <= k < |path| - 1 ==> Adjacent(path[k].0, path[k].1, path[k + 1].0, path[k + 1].1))
  }

  /** The two ends of an open path are connected. */
  lemma {:induction false} OpenPathConnected(n: int, sites: seq<bool>, ids: seq<nat>, path: seq<(int, int)>)
    requires GridInvariant(n, sites, ids) && OpenPath(n, sites, path)
    ensures ids[Index(n, path[0].0, path[0].1)] == ids[Index(n, path[|path| - 1].0, path[|path| - 1].1)]
    decreases |path|
  {
    if |path| > 1 {
      var rest := path[1..];
      assert OpenPath(n, sites, rest) by {
        forall k | 0 <= k < |rest| - 1 ensures Adjacent(rest[k].0, rest[k].1, rest[k + 1].0, rest[k + 1].1) {
          assert rest[k] == path[k + 1] && rest[k + 1] == path[k + 2];
        }
      }
      OpenPathConnected(n, sites, ids, rest);
      assert Adjacent(path[0].0, path[0].1, path[1].0, path[1].1);
    }
  }

  /** An open path from the top row makes its last site full. */
  lemma TopPathIsFull(n: int, sites: seq<bool>, ids: seq<nat>, path: seq<(int, int)>)
    requires GridInvariant(n, sites, ids) && OpenPath(n, sites, path) && path[0].0 == 0
    ensures ids[Cells(n)] == ids[Index(n, path[|path| - 1].0, path[|path| - 1].1)]
  {
    OpenPathConnected(n, sites, ids, path);
  }

  /** An open path from the top row to the bottom row connects the two sentinels. */
  lemma TopBottomPathPercolates(n: int, sites: seq<bool>, ids: seq<nat>, path: seq<(int, int)>)
    requires GridInvariant(n, sites, ids) && OpenPath(n, sites, path)
    requires path[0].0 == 0 && path[|path| - 1].0 == n - 1
    ensures ids[Cells(n)] == ids[Cells(n) + 1]
  {
    OpenPathConnected(n, sites, ids, path);
  }

  // ---------------------------------------------------------------------------
  // The grid object
  // ---------------------------------------------------------------------------

  class Percolation {
    /** SIZE: the number of rows and of columns. */
    const size: int
    /** The union-find index of the virtual top, N*N. */
    const virtualTop: nat
    /** The union-find index of the virtual bottom, N*N + 1. */
    const virtualBottom: nat
    /** Which sites are open: N*N real sites, then the two sentinel slots. */
    const site: array<bool>
    /** The connectivity of the N*N + 2 indices. */
    const uf: UnionFind

    /** The fixed layout: sentinel positions, array lengths, a well-formed union-find. */
    /** The site array has a slot for every real site and the two sentinels. */
    ghost predicate SitesShaped()
      reads this, site
    {
      site.Length == Cells(size) + 2
    }

    ghost predicate Shaped()
      reads this, site, uf, uf.id
    {
      && SitesShaped()
      && virtualTop == Cells(size) && virtualBottom == Cells(size) + 1
      && uf.id.Length == Cells(size) + 2
      && uf.Valid()
    }

    ghost predicate Valid()
      reads this, site, uf, uf.id
    {
      Shaped() && GridInvariant(size, site[..], uf.id[..])
    }

    /** `new Percolation(N)`: every real site closed, both sentinel slots open, nothing connected. */
    constructor (n: int)
      ensures Valid() && size == n && fresh(site) && fresh(uf) && fresh(uf.id)
      ensures forall x :: 0 <= x < Cells(n) ==> !site[x]
      ensures site[virtualTop] && site[virtualBottom]
      ensures forall x, y :: 0 <= x < uf.id.Length && 0 <= y < uf.id.Length ==> (Same(uf.id[..], x, y) <==> x == y)
    {
      var cells := Cells(n);
      var sites := new bool[cells + 2];
      for k := 0 to cells
        invariant forall x :: 0 <= x < k ==> !sites[x]
      {
        sites[k] := false;
      }
      sites[cells] := true;
      sites[cells + 1] := true;
      size := n;
      uf := new UnionFind(cells + 2);
      site := sites;
      virtualTop := cells;
      virtualBottom := cells + 1;
      new;
      FreshGridInvariant(n, site[..], uf.id[..]);
    }

    /** `isOpen(i, j)`: out-of-bounds coordinates throw; otherwise whether that site is open. */
    function IsOpen(i: int, j: int): (r: Result<bool>)
      reads this, site
      requires SitesShaped()
      ensures r.Failure? <==> !InBounds(size, i, j)
      ensures r.Failure? ==> r.error == IndexOutOfBounds
      ensures r.Success? ==> (r.value <==> site[Index(size, i, j)])
    {
      match GetIndex(size, i, j)
      case Failure(e) => Failure(e)
      case Success(k) => Success(site[k])
    }

    /**
     * `isFull(i, j)`: out-of-bounds coordinates throw; otherwise whether the
     * site is connected to the virtual top, which holds exactly when a walk of
     * the graph leads there from the virtual top. A full site is open, and the
     * last site of an open path from the top row is full.
     */
    function IsFull(i: int, j: int): (r: Result<bool>)
      reads this, site, uf, uf.id
      requires Valid()
      ensures r.Failure? <==> !InBounds(size, i, j)
      ensures r.Failure? ==> r.error == IndexOutOfBounds
      ensures r.Success? ==> (r.value <==> Reaches(size, site[..], virtualTop, Index(size, i, j)))
      ensures r == Success(true) ==> site[Index(size, i, j)]
      ensures forall path: seq<(int, int)> :: OpenPath(size, site[..], path) && path[0].0 == 0 && path[|path| - 1] == (i, j) ==> r == Success(true)
    {
      match GetIndex(size, i, j)
      case Failure(e) => Failure(e)
      case Success(k) =>
        FullIsOpenHere(i, j);
        TopPathsAreFull();
        ConnectedIffReachesHere();
        Success(uf.Connected(virtualTop, k))
    }

    /**
     * `percolates()`: whether the virtual top is connected to the virtual
     * bottom, that is, whether a walk of the graph joins them; an open path
     * from the top row to the bottom row makes it true.
     */
    function Percolates(): (b: bool)
      reads this, site, uf, uf.id
      requires Valid()
      ensures b <==> Same(uf.id[..], virtualTop, virtualBottom)
      ensures b <==> Reaches(size, site[..], virtualTop, virtualBottom)
      ensures forall path: seq<(int, int)> :: OpenPath(size, site[..], path) && path[0].0 == 0 && path[|path| - 1].0 == size - 1 ==> b
    {
      TopBottomPathsPercolate();
      ConnectedIffReachesHere();
      uf.Connected(virtualTop, virtualBottom)
    }

    lemma ConnectedIffReachesHere()
      requires Valid()
      ensures forall x, y :: 0 <= x < uf.id.Length && 0 <= y < uf.id.Length ==>
                (Same(uf.id[..], x, y) <==> Reaches(size, site[..], x, y))
    {
      ConnectedIffReaches(size, site[..], uf.id[..]);
    }

    lemma FullIsOpenHere(i: int, j: int)
      requires Valid() && InBounds(size, i, j)
      ensures Same(uf.id[..], virtualTop, Index(size, i, j)) ==> site[Index(size, i, j)]
    {
      if Same(uf.id[..], virtualTop, Index(size, i, j)) {
        FullIsOpen(size, site[..], uf.id[..], i, j);
      }
    }

    lemma TopPathsAreFull()
      requires Valid()
      ensures forall path: seq<(int, int)> :: OpenPath(size, site[..], path) && path[0].0 == 0 ==>
                uf.id[virtualTop] == uf.id[Index(size, path[|path| - 1].0, path[|path| - 1].1)]
    {
      forall path: seq<(int, int)> | OpenPath(size, site[..], path) && path[0].0 == 0
        ensures uf.id[virtualTop] == uf.id[Index(size, path[|path| - 1].0, path[|path| - 1].1)]
      {
        TopPathIsFull(size, site[..], uf.id[..], path);
      }
    }

    lemma TopBottomPathsPercolate()
      requires Valid()
      ensures forall path: seq<(int, int)> :: OpenPath(size, site[..], path) && path[0].0 == 0 && path[|path| - 1].0 == size - 1 ==>
                uf.id[virtualTop] == uf.id[virtualBottom]
    {
      forall path: seq<(int, int)> | OpenPath(size, site[..], path) && path[0].0 == 0 && path[|path| - 1].0 == size - 1
        ensures uf.id[virtualTop] == uf.id[virtualBottom]
      {
        TopBottomPathPercolates(size, site[..], uf.id[..], path);
      }
    }

    /**
     * `connectNeighbor`: when (i, j) is in bounds and open, union it with the
     * site at `index`; when it is out of bounds or closed, do nothing. The
     * ghost parameters carry the connectivity before the current `open` began
     * and the sites linked so far.
     */
    method ConnectNeighbor(index: nat, i: int, j: int, ghost before: seq<nat>, ghost linked: set<nat>)
      returns (ghost linked': set<nat>)
      requires Shaped() && index < Cells(size) && index in linked
      requires Reconnected(before, uf.id[..], linked)
      modifies uf.id
      ensures Shaped()
      ensures linked' == linked + NeighbourLink(size, site[..], i, j)
      ensures Reconnected(before, uf.id[..], linked')
    {
      var open := IsOpen(i, j);
      if open.Success? && open.value {
        var neighbour := Index(size, i, j);
        ghost var ids := uf.id[..];
        uf.Union(index, neighbour);
        LinkOneMore(before, ids, uf.id[..], linked, index, neighbour, index, neighbour);
        linked' := linked + {neighbour};
      } else {
        linked' := linked;
      }
    }

    /**
     * The unions of `open(i, j)` for the site at `index`, in the order of the
     * source. `open` performs them inline (percolation/Percolation.java:51-63);
     * `Connect`, `ConnectRows`, `ConnectNeighbours` and `ConnectSentinel` only
     * split that body into steps, each with its own contract.
     */
    method Connect(index: nat, i: int, j: int)
      requires Shaped() && InBounds(size, i, j) && index == Index(size, i, j)
      modifies uf.id
      ensures Shaped()
      ensures Reconnected(old(uf.id[..]), uf.id[..], OpenLinks(size, site[..], i, j))
    {
      ghost var before := uf.id[..];
      ReconnectedStart(before, index);
      ghost var linked := ConnectRows(index, i, before);
      linked := ConnectNeighbours(index, i, j, before, linked);
    }

    /** The unions with the virtual top (top row) and the virtual bottom (bottom row). */
    method ConnectRows(index: nat, i: int, ghost before: seq<nat>) returns (ghost linked: set<nat>)
      requires Shaped() && index < Cells(size)
      requires Reconnected(before, uf.id[..], {index})
      modifies uf.id
      ensures Shaped()
      ensures linked == {index} + (if i == 0 then {Cells(size)} else {}) + (if i == size - 1 then {Cells(size) + 1} else {})
      ensures Reconnected(before, uf.id[..], linked)
    {
      linked := {index};
      if i == 0 {
        linked := ConnectSentinel(index, virtualTop, before, linked);
      }
      if i == size - 1 {
        linked := ConnectSentinel(index, virtualBottom, before, linked);
      }
    }

    /** The unions with the four neighbours: below, above, right, left. */
    method ConnectNeighbours(index: nat, i: int, j: int, ghost before: seq<nat>, ghost linked: set<nat>)
      returns (ghost linked': set<nat>)
      requires Shaped() && index < Cells(size) && index in linked
      requires Reconnected(before, uf.id[..], linked)
      modifies uf.id
      ensures Shaped()
      ensures linked' == linked + NeighbourLink(size, site[..], i + 1, j) + NeighbourLink(size, site[..], i - 1, j)
                          + NeighbourLink(size, site[..], i, j + 1) + NeighbourLink(size, site[..], i, j - 1)
      ensures Reconnected(before, uf.id[..], linked')
    {
      linked' := ConnectNeighbor(index, i + 1, j, before, linked);
      linked' := ConnectNeighbor(index, i - 1, j, before, linked');
      linked' := ConnectNeighbor(index, i, j + 1, before, linked');
      linked' := ConnectNeighbor(index, i, j - 1, before, linked');
    }

    /** `percolation.union(sentinel, index)`, with the sites linked so far. */
    method ConnectSentinel(index: nat, sentinel: nat, ghost before: seq<nat>, ghost linked: set<nat>)
      returns (ghost linked': set<nat>)
      requires Shaped() && index < Cells(size) && index in linked && sentinel < uf.id.Length
      requires Reconnected(before, uf.id[..], linked)
      modifies uf.id
      ensures Shaped()
      ensures linked' == linked + {sentinel}
      ensures Reconnected(before, uf.id[..], linked')
    {
      ghost var ids := uf.id[..];
      uf.Union(sentinel, index);
      LinkOneMore(before, ids, uf.id[..], linked, index, sentinel, sentinel, index);
      linked' := linked + {sentinel};
    }

    /**
     * `open(i, j)`: out-of-bounds coordinates throw before anything changes;
     * an open site is left as it is; a closed site is opened and unioned with
     * the virtual top (top row), the virtual bottom (bottom row) and each open
     * neighbour, which connects exactly what touches one of those sites.
     */
    method Open(i: int, j: int) returns (r: Outcome)
      requires Valid()
      modifies site, uf.id
      ensures Valid()
      ensures r == if InBounds(size, i, j) then Pass else Fail(IndexOutOfBounds)
      ensures !InBounds(size, i, j) ==> site[..] == old(site[..]) && uf.id[..] == old(uf.id[..])
      ensures InBounds(size, i, j) ==> site[..] == old(site[..])[Index(size, i, j) := true]
      ensures InBounds(size, i, j) ==> site[Index(size, i, j)]
      ensures forall k :: 0 <= k < site.Length && (!InBounds(size, i, j) || k != Index(size, i, j)) ==> site[k] == old(site[k])
      ensures InBounds(size, i, j) && old(site[Index(size, i, j)]) ==> uf.id[..] == old(uf.id[..])
      ensures InBounds(size, i, j) && !old(site[Index(size, i, j)]) ==>
                Reconnected(old(uf.id[..]), uf.id[..], OpenLinks(size, site[..], i, j))
      ensures Coarsens(old(uf.id[..]), uf.id[..])
      ensures InBounds(size, i, j) ==> forall l :: l in OpenLinks(size, site[..], i, j) ==> Same(uf.id[..], Index(size, i, j), l)
    {
      var open := IsOpen(i, j);
      if open.Failure? {
        return Fail(open.error);
      }
      if open.value {
        OpenSiteJoinsLinks(size, site[..], uf.id[..], i, j);
        return Pass;
      }
      var index := Index(size, i, j);
      site[index] := true;
      ghost var before := uf.id[..];
      Connect(index, i, j);
      assert site[..] == old(site[..])[index := true];
      OpenKeepsInvariant(size, old(site[..]), before, uf.id[..], i, j);
      ReconnectedJoins(before, uf.id[..], OpenLinks(size, site[..], i, j));
      r := Pass;
    }
  }

  /**
   * After `open(i, j)` the site is open, it is full when it is on the top row,
   * and it is connected to the virtual bottom when it is on the bottom row.
   */
  method OpenThenQuery(grid: Percolation, i: int, j: int) returns (open: Result<bool>, full: Result<bool>)
    requires grid.Valid() && InBounds(grid.size, i, j)
    modifies grid.site, grid.uf.id
    ensures grid.Valid() && open == Success(true)
    ensures i == 0 ==> full == Success(true)
    ensures i == grid.size - 1 ==> grid.uf.Connected(grid.virtualBottom, Index(grid.size, i, j))
  {
    var r := grid.Open(i, j);
    open := grid.IsOpen(i, j);
    full := grid.IsFull(i, j);
  }

  /** `open` only adds unions, so a grid that percolates keeps percolating. */
  method OpenKeepsPercolating(grid: Percolation, i: int, j: int) returns (percolates: bool)
    requires grid.Valid() && grid.Percolates()
    modifies grid.site, grid.uf.id
    ensures grid.Valid() && percolates
  {
    var r := grid.Open(i, j);
    percolates := grid.Percolates();
  }

  /**
   * In a 3-by-3 grid whose first column is open, the virtual top and the
   * virtual bottom are connected, and so is any open bottom-right corner.
   */
  lemma ColumnPercolates(sites: seq<bool>, ids: seq<nat>)
    requires GridInvariant(3, sites, ids)
    requires sites[Index(3, 0, 0)] && sites[Index(3, 1, 0)] && sites[Index(3, 2, 0)]
    ensures ids[Cells(3)] == ids[Cells(3) + 1]
    ensures sites[Index(3, 2, 2)] ==> ids[Index(3, 2, 2)] == ids[Cells(3)]
  {
    assert Adjacent(0, 0, 1, 0) && Adjacent(1, 0, 2, 0);
    assert ids[Index(3, 0, 0)] == ids[Index(3, 1, 0)] == ids[Index(3, 2, 0)];
  }

  /** A fresh 3-by-3 grid with its first column opened, in order from the top. */
  method OpenFirstColumn() returns (grid: Percolation)
    ensures fresh(grid) && fresh(grid.site) && fresh(grid.uf) && fresh(grid.uf.id)
    ensures grid.Valid() && grid.size == 3
    ensures grid.site[Index(3, 0, 0)] && grid.site[Index(3, 1, 0)] && grid.site[Index(3, 2, 0)]
    ensures !grid.site[Index(3, 2, 1)] && !grid.site[Index(3, 1, 2)] && !grid.site[Index(3, 2, 2)]
  {
    grid := new Percolation(3);
    assert !grid.site[Index(3, 2, 1)] && !grid.site[Index(3, 1, 2)] && !grid.site[Index(3, 2, 2)];
    var r := grid.Open(0, 0);
    r := grid.Open(1, 0);
    r := grid.Open(2, 0);
  }

  /**
   * The backwash of this grid, which unions every open bottom-row site with
   * the virtual bottom: in a 3-by-3 grid whose first column is open the grid
   * percolates, and then opening the bottom-right corner, whose neighbours
   * (2, 1) and (1, 2) are closed, makes that corner report full.
   */
  method BackwashScenario() returns (percolated: bool, cornerIsolated: bool, cornerFull: Result<bool>)
    ensures percolated && cornerIsolated
    ensures cornerFull == Success(true)
  {
    var grid := OpenFirstColumn();
    ColumnPercolates(grid.site[..], grid.uf.id[..]);
    percolated := grid.Percolates();
    var r := grid.Open(2, 2);
    cornerIsolated := grid.IsOpen(2, 1) == Success(false) && grid.IsOpen(1, 2) == Success(false);
    ColumnPercolates(grid.site[..], grid.uf.id[..]);
    cornerFull := grid.IsFull(2, 2);
  }

  /** The centre of a 3-by-3 grid whose four neighbours are closed links only to itself. */
  lemma CentreLinksAlone(sites: seq<bool>)
    requires |sites| == Cells(3) + 2
    requires !sites[Index(3, 2, 1)] && !sites[Index(3, 0, 1)] && !sites[Index(3, 1, 2)] && !sites[Index(3, 1, 0)]
    ensures OpenLinks(3, sites, 1, 1) == {Index(3, 1, 1)}
  {
  }

  /**
   * A site with no open neighbour is not full until a neighbour on a path
   * from the top opens: in a fresh 3-by-3 grid, (1, 1) is not full after it
   * opens, and is full once (0, 1) above it opens.
   */
  method FillFromAboveScenario() returns (fullAlone: Result<bool>, fullJoined: Result<bool>)
    ensures fullAlone == Success(false)
    ensures fullJoined == Success(true)
  {
    var grid := new Percolation(3);
    ghost var sites, ids := grid.site[..], grid.uf.id[..];
    assert !sites[Index(3, 2, 1)] && !sites[Index(3, 0, 1)] && !sites[Index(3, 1, 2)] && !sites[Index(3, 1, 0)] && !sites[Index(3, 1, 1)];
    var r := grid.Open(1, 1);
    CentreLinksAlone(grid.site[..]);
    OpenedAloneNotFull(3, sites, ids, grid.uf.id[..], 1, 1);
    fullAlone := grid.IsFull(1, 1);
    r := grid.Open(0, 1);
    assert Adjacent(0, 1, 1, 1);
    fullJoined := grid.IsFull(1, 1);
  }
}
