# Percolation grid and linked deque

This project models two exercises from a Java course repository and proves
properties of the models.

1. **The percolation grid.** An N-by-N grid of sites starts with every site
   closed. Sites are opened one at a time. Connectivity lives in a union-find
   over N*N + 2 indices. The last two are the virtual top and the virtual
   bottom. Opening a site unions it with:
   - the virtual top, when the site is on the top row;
   - the virtual bottom, when the site is on the bottom row;
   - each open in-bounds neighbour.

   A site is *full* when it is connected to the virtual top. The grid
   *percolates* when the two virtual sites are connected.
2. **The deque.** A doubly linked list with `head`, `tail` and a `size`
   counter. It has `addFirst`, `addLast`, `removeFirst` and `removeLast`, and
   an iterator that runs from front to back.

Modules:

- `Exceptions` (`exceptions.dfy`): the Java exceptions thrown, and the
  `Result`, `Outcome` and `Option` values that carry them.
  - A Java call that throws returns `Failure(e)` or `Fail(e)`.
  - A possibly-null argument is an `Option`.
- `UnionFind` (`unionfind.dfy`): the library class `WeightedQuickUnionUF`,
  given by its contract. `union(p, q)` merges exactly the components of `p`
  and `q`; `connected` answers component membership.
  - The contract is realised by an array of component labels.
  - `Union` relabels in a loop.
- `Percolation` (`percolation.dfy`): the grid as a class. It has a `site`
  array, the two sentinel indices and a union-find. Pure functions and
  lemmas beside it describe:
  - the indexing;
  - the set of indices an `open` links;
  - the connectivity after an `open`;
  - the grid invariant.

  The invariant `GridInvariant` holds after every operation. It says:
  - the two sentinel slots are open;
  - a closed site is alone in its component;
  - every open top-row site is connected to the virtual top;
  - every open bottom-row site is connected to the virtual bottom;
  - every two open neighbours are connected;
  - two indices are connected only when a walk joins them in the graph whose
    edges link open neighbours, open top-row sites with the virtual top, and
    open bottom-row sites with the virtual bottom.

  From it follows that the union-find components are exactly the connected
  parts of that graph. So a site is full iff a walk leads to it from the
  virtual top, and the grid percolates iff a walk joins the two virtual
  sites. Such a walk may pass through the virtual bottom; that is the
  backwash. It also follows that every open path from the top row makes its
  last site full, and that a path to the bottom row makes the grid percolate.
- `Queues` (`queues.dfy`): `Node`, `Deque` and `ListIterator` are classes.
  - The deque's ghost `contents` is its sequence of elements, and `nodes`
    holds the node objects.
  - `Valid()` ties the two to the `next`/`prev` links.
  - Every operation of the corrected deque is specified by its effect on
    `contents`.
  - The operations as written (`RemoveFirstAsWritten`, `RemoveLastAsWritten`,
    `AddFirstAsWritten`, `AddLastAsWritten`) are specified by their effect on
    the fields and links alone; they leave the ghost state as it was.
  - The unit tests of the Java file are methods whose postconditions state
    what the tests check.

Where the code and its description disagree, the model follows the code:

- Coordinates are 0-based, as the bounds check of `getIndex` and the
  top-row test `i == 0` have it. They are not 1-based.
- Every open bottom-row site is unioned with the virtual bottom, as `open`
  does (percolation/Percolation.java:56-58). The model keeps the resulting
  backwash and exhibits it in `BackwashScenario`; there is no backwash fix.
- `connectNeighbor` does not compile as written:
  - `open` calls it with two arguments, but it takes three;
  - it calls an `indexOf` that does not exist;
  - it lacks a return on its normal path.

  It is modelled as what it evidently means: with the opened site's index,
  union with (i, j) when (i, j) is in bounds and open, and otherwise do
  nothing.
- `getIndex` computes `(i-1)*SIZE + (j-1)*SIZE`, which is not an index of
  the grid (see Findings). The rest of the model uses the row-major index
  `i*SIZE + j`.

## Model

| member | source | states |
|---|---|---|
| UnionFind.MergedIsUnion | percolation/Percolation.java:53 | the connectivity a union must produce is an equivalence: symmetric, transitive, independent of argument order, joining p with q, and leaving alone everything outside the two merged components |
| UnionFind.UnionFind.constructor | percolation/Percolation.java:30 | a new union-find of m elements has m singleton components |
| UnionFind.UnionFind.Find | percolation/Percolation.java:71 | the root found is in p's component and is its own label |
| UnionFind.UnionFind.Connected | percolation/Percolation.java:71 | connected holds exactly when p and q are in the same component |
| UnionFind.UnionFind.Union | percolation/Percolation.java:53 | after union(p, q), x and y are connected iff they were already, or one was with p and the other with q |
| Percolation.Index | percolation/Percolation.java:15 | the index of an in-bounds site is a real-site index, below N*N |
| Percolation.IndexCoords | percolation/Percolation.java:15 | the row and the column can be recovered from a site's index |
| Percolation.CoordsIndex | percolation/Percolation.java:15 | every real-site index is the index of exactly the in-bounds site its coordinates name |
| Percolation.IndexInjective | percolation/Percolation.java:15 | no two in-bounds sites share an index |
| Percolation.GetIndex | percolation/Percolation.java:11-16 | throws IndexOutOfBounds iff a coordinate is outside [0, N); otherwise gives a real-site index that names the site |
| Percolation.GetIndexAsWritten | percolation/Percolation.java:11-16 | as written: throws IndexOutOfBounds iff a coordinate is outside [0, N); otherwise gives (i + j - 2) * N, which depends only on i + j |
| Percolation.GetIndexAsWrittenCollides | percolation/Percolation.java:15 | as written, sites (0, 1) and (1, 0) get the same index, and site (0, 0) gets a negative one |
| Percolation.OpenLinksAreLinks | percolation/Percolation.java:51-63 | the indices open unions with are exactly: the site; the virtual top on the top row; the virtual bottom on the bottom row; the open in-bounds grid neighbours |
| Percolation.ReconnectedStart | percolation/Percolation.java:49 | before any union of an open, the connectivity has the opened site as its only link |
| Percolation.TouchesOneMore | percolation/Percolation.java:53 | after one more link, a component touches the links iff it touched them before or contains the new one |
| Percolation.LinkOneMore | percolation/Percolation.java:60-63 | one more union of the opened site with l, in either argument order, extends the linked set by l |
| Percolation.ReconnectedJoins | percolation/Percolation.java:52-63 | after the unions of an open, nothing connected before is disconnected, and all linked sites are in one component |
| Percolation.OpenKeepsClosedAlone | percolation/Percolation.java:44-64 | after an open, every closed site is still alone in its component |
| Percolation.OpenKeepsRowLinked | percolation/Percolation.java:52-58 | after an open, every open site of the top (bottom) row is still connected to the virtual top (bottom) |
| Percolation.OpenKeepsNeighboursLinked | percolation/Percolation.java:59-63 | after an open, every two open neighbouring sites are connected |
| Percolation.OpenKeepsInvariant | percolation/Percolation.java:44-64 | opening a closed site and performing its unions preserves the grid invariant |
| Percolation.OpenSiteJoinsLinks | percolation/Percolation.java:45-47 | an open site is already connected to every index opening it would union it with |
| Percolation.OpenedAloneNotFull | percolation/Percolation.java:52-63 | a site opened below the top row with no open neighbour is not full; on the bottom row this needs a grid that does not percolate yet |
| Percolation.ReachesGrows | percolation/Percolation.java:48 | opening sites keeps every walk of the graph a walk |
| Percolation.LinkReaches | percolation/Percolation.java:51-63 | every index open unions the new site with is one edge away from it, in both directions |
| Percolation.OpenKeepsReachable | percolation/Percolation.java:44-64 | after an open, two connected indices are still joined by a walk of the graph |
| Percolation.EdgeConnected | percolation/Percolation.java:51-63 | under the grid invariant, the two ends of an edge of the graph are connected |
| Percolation.WalkConnected | percolation/Percolation.java:51-63 | under the grid invariant, the two ends of a walk of the graph are connected |
| Percolation.ConnectedIffReaches | percolation/Percolation.java:70-76 | under the grid invariant, two indices are connected iff a walk of the graph joins them |
| Percolation.FreshGridInvariant | percolation/Percolation.java:28-42 | the grid invariant holds for a fresh grid: all real sites closed, both sentinels open, all singletons |
| Percolation.FullIsOpen | percolation/Percolation.java:70-72 | a site connected to the virtual top is open |
| Percolation.OpenPathConnected | percolation/Percolation.java:59-63 | the two ends of a path of open neighbouring sites are connected |
| Percolation.TopPathIsFull | percolation/Percolation.java:70-72 | the last site of an open path from the top row is connected to the virtual top |
| Percolation.TopBottomPathPercolates | percolation/Percolation.java:74-76 | an open path from the top row to the bottom row connects the virtual top and the virtual bottom |
| Percolation.Percolation.constructor | percolation/Percolation.java:28-42 | every real site closed, both sentinel slots open, N*N + 2 singleton components, grid invariant established |
| Percolation.Percolation.IsOpen | percolation/Percolation.java:66-68 | throws IndexOutOfBounds iff out of bounds; otherwise whether the site is open |
| Percolation.Percolation.IsFull | percolation/Percolation.java:70-72 | throws iff out of bounds; otherwise true iff a walk of the graph leads from the virtual top to the site; a full site is open; the last site of every open path from the top row is full |
| Percolation.Percolation.Percolates | percolation/Percolation.java:74-76 | true iff the virtual top and the virtual bottom are connected, iff a walk of the graph joins them; true whenever an open path runs from the top row to the bottom row |
| Percolation.Percolation.ConnectedIffReachesHere | percolation/Percolation.java:70-76 | on this grid, two indices are connected iff a walk of the graph joins them |
| Percolation.Percolation.FullIsOpenHere | percolation/Percolation.java:70-72 | on this grid, a site connected to the virtual top is open |
| Percolation.Percolation.TopPathsAreFull | percolation/Percolation.java:70-72 | on this grid, every open path from the top row ends in a site connected to the virtual top |
| Percolation.Percolation.TopBottomPathsPercolate | percolation/Percolation.java:74-76 | on this grid, every open top-to-bottom path connects the two virtual sites |
| Percolation.Percolation.ConnectNeighbor | percolation/Percolation.java:18-27 | unions with (i, j) exactly when it is in bounds and open; an out-of-bounds neighbour is skipped without error |
| Percolation.Percolation.Connect | percolation/Percolation.java:51-63 | the unions of open connect exactly what touches one of the linked indices |
| Percolation.Percolation.ConnectRows | percolation/Percolation.java:51-58 | the top-row site is linked to the virtual top, and the bottom-row site to the virtual bottom |
| Percolation.Percolation.ConnectNeighbours | percolation/Percolation.java:59-63 | the site is linked to each open in-bounds neighbour: below, above, right and left |
| Percolation.Percolation.ConnectSentinel | percolation/Percolation.java:53 | union(sentinel, index) adds the sentinel to the linked set |
| Percolation.Percolation.Open | percolation/Percolation.java:44-64 | an out-of-bounds site throws and changes nothing; an open site changes nothing; otherwise only that site is opened, the new connectivity is exactly what its links give, no connection is lost, and the invariant is kept |
| Percolation.OpenThenQuery | percolation/Percolation.java:48-58 | after open(i, j), isOpen(i, j) holds; a top-row site is full; a bottom-row site is connected to the virtual bottom |
| Percolation.OpenKeepsPercolating | percolation/Percolation.java:74-76 | once the grid percolates, another open leaves it percolating |
| Percolation.ColumnPercolates | percolation/Percolation.java:56-58 | in a 3-by-3 grid with its first column open, the sentinels are connected, and so is an open bottom-right corner |
| Percolation.OpenFirstColumn | percolation/Percolation.java:44-64 | opening the first column of a fresh 3-by-3 grid leaves the other bottom-right sites closed |
| Percolation.BackwashScenario | percolation/Percolation.java:56-58 | backwash: once the grid percolates, an isolated bottom-row site with closed neighbours reports full |
| Percolation.CentreLinksAlone | percolation/Percolation.java:59-63 | the centre of a 3-by-3 grid with closed neighbours is linked only to itself |
| Percolation.FillFromAboveScenario | percolation/Percolation.java:70-72 | the centre site opened alone is not full, and it becomes full once the site above it opens |
| Queues.Node.constructor | queues/Deque.java:14-16 | a new node holds the item and has no links |
| Queues.Deque.constructor | queues/Deque.java:19-21 | a new deque is empty and well formed |
| Queues.Deque.IsEmpty | queues/Deque.java:23-25 | true iff the deque holds no element |
| Queues.Deque.Size | queues/Deque.java:27-29 | the number of elements |
| Queues.Deque.AddFirst | queues/Deque.java:31-47 | a null item throws NullPointerException and changes nothing; otherwise the contents become [x] + old contents and size grows by 1 |
| Queues.Deque.AddLast | queues/Deque.java:49-65 | a null item throws NullPointerException and changes nothing; otherwise the contents become old contents + [x] and size grows by 1 |
| Queues.Deque.RemoveFirst | queues/Deque.java:67-75 | empty throws NoSuchElementException and changes nothing; otherwise returns the front element, drops it from the contents and decrements size, with the links kept well formed |
| Queues.Deque.RemoveLast | queues/Deque.java:77-85 | empty throws NoSuchElementException and changes nothing; otherwise returns the back element, drops it from the contents and decrements size, with the links kept well formed |
| Queues.Deque.RemoveFirstAsWritten | queues/Deque.java:67-75 | as written: returns the front item, moves head to its next and decrements size; tail and every link remain as they were |
| Queues.Deque.RemoveLastAsWritten | queues/Deque.java:77-85 | as written: returns the back item, moves tail to its prev and decrements size; head and every link remain as they were |
| Queues.Deque.AddFirstAsWritten | queues/Deque.java:31-47 | as written, on any field values: null throws and changes nothing; otherwise a fresh front node links forward to the old head, the old head links back to it, tail is set only when size was 0, and size grows by 1 |
| Queues.Deque.AddLastAsWritten | queues/Deque.java:49-65 | as written, on any field values: null throws and changes nothing; otherwise a fresh back node links back to the old tail, the old tail links forward to it, head is set only when size was 0, and size grows by 1 |
| Queues.Deque.Iterator | queues/Deque.java:87-89 | a fresh iterator whose remaining items are the contents, front to back |
| Queues.ListIterator.constructor | queues/Deque.java:95-97 | the iterator starts at the first node and will yield the items of its chain |
| Queues.ListIterator.HasNext | queues/Deque.java:99-101 | true iff items remain to be yielded |
| Queues.ListIterator.Next | queues/Deque.java:107-114 | no remaining item throws NoSuchElementException and changes nothing; otherwise yields the first remaining item and drops it |
| Queues.Drain | queues/Deque.java:149-152 | a for-each loop yields exactly the remaining items in order |
| Queues.Elements | queues/Deque.java:149-152 | iterating over a deque yields exactly its contents, front to back |
| Queues.InsertionOrderScenario | queues/Deque.java:138-153 | after addLast of each element, iteration yields the elements in insertion order |
| Queues.AddRemoveFront | queues/Deque.java:31-75 | addFirst(x) then removeFirst() gives back x and restores the contents |
| Queues.AddRemoveBack | queues/Deque.java:49-85 | addLast(x) then removeLast() gives back x and restores the contents |
| Queues.BasicScenario | queues/Deque.java:118-133 | a new deque is empty with size 0; addFirst(a) then removeLast() gives a; addLast(z) then removeFirst() gives z; size is 1 in between |
| Queues.RemoveLastScenario | queues/Deque.java:77-85 | corrected: removing the back of [a, b] leaves size 1, and iteration yields [a] |
| Queues.RemoveLastAsWrittenScenario | queues/Deque.java:81-84 | as written: removing the back of [a, b] leaves size 1, but iteration yields [a, b] |
| Queues.RemoveFirstScenario | queues/Deque.java:67-75 | corrected: emptying [a, b] from the front clears the new front's prev and both ends |
| Queues.RemoveFirstAsWrittenScenario | queues/Deque.java:71-74 | as written: the new front keeps a prev link to the removed node, and tail still names a removed node when size is 0 |
| Queues.StaleHeadScenario | queues/Deque.java:31-47 | as written: after addLast(a), removeLast(), addFirst(c) the size is 1, but the stale head makes iteration yield c and then the removed a |
| Queues.StaleTailScenario | queues/Deque.java:49-65 | as written: after addLast(a), removeFirst(), addLast(c) the size is 1 and iteration yields c, but the stale tail leaves the new front node with a prev link to the removed node |

## Left out

- percolation/PercolationStats.java: Monte Carlo trials over random sites, floating-point statistics and printing. Randomness, floating point and I/O are outside the model.
- `WeightedQuickUnionUF` internals: the library class is not part of this model. It is specified by its connectivity contract. The weighting and the path compression are not modelled; `UnionFind` realises the contract with a component-label array and a relabelling loop.
- `UnionFind.UnionFind.Union`: the library throws for an element outside [0, M); the model instead requires an element in range. The grid only passes in-range indices.
- `Percolation.Percolation.constructor`: `SIZE*SIZE + 2` is not reduced to 32 bits. A grid large enough to overflow `int` is not modelled.
- `Percolation.Percolation.IsFull`: it is characterised exactly by walks of the graph, which may pass through the two virtual sites. It is not restated as a path of grid sites only. With backwash, a walk through the virtual bottom is no such path.
- `Percolation.Percolation.Percolates`: it is characterised exactly by walks of the graph. That every such walk yields a top-to-bottom path of open grid sites is not proved.
- A backwash fix: the source has none, so none is modelled.
- The argument-count and `indexOf` compile errors of `connectNeighbor` and its missing return value: it is modelled by its evident meaning.
- `ListIterator.remove()`, which throws UnsupportedOperationException: it is not modelled.
- `Iterable`/`Iterator` interface plumbing and Java generics erasure. The Java for-each is modelled by `Queues.Drain` over `ListIterator`.
- `main` and its printing, including the deliberate `assert false` at the end of the basic test.
- `Queues.Deque.Iterator`: it is specified only while the deque's nodes are not modified. The behaviour of an iterator across later `add`/`remove` calls is not modelled.
- Garbage collection: a removed node stays allocated and keeps its links; only the deque's own fields and the new end's link change.

## Findings

| source | as written | input that shows it | evidently intended | confidence | as-written member | corrected member |
|---|---|---|---|---|---|---|
| percolation/Percolation.java:15 | the index is `(i-1)*SIZE + (j-1)*SIZE` | SIZE = 2 or more: sites (0, 1) and (1, 0) both get index -SIZE, and site (0, 0) gets -2*SIZE, outside the site array | the row-major index `i*SIZE + j`, one distinct real-site index per site | not executed | Percolation.GetIndexAsWrittenCollides | Percolation.GetIndex |
| queues/Deque.java:71-74 | `removeFirst` moves only `head` and `size` | addLast(a), addLast(b), removeFirst(), removeFirst(): the node of b keeps `prev` to the removed node of a, and `tail` still names the node of b with size 0; addLast(a), removeFirst(), addLast(c): size is 1, and the node of c links back to the removed node of a (StaleTailScenario) | clear the new front's `prev`, and clear `tail` when the deque empties | not executed | Queues.RemoveFirstAsWrittenScenario | Queues.Deque.RemoveFirst |
| queues/Deque.java:81-84 | `removeLast` moves only `tail` and `size` | addLast(a), addLast(b), removeLast(): size is 1, but iteration from `head` yields a and then the removed b; addLast(a), removeLast(), addFirst(c): size is 1, but iteration yields c and then the removed a (StaleHeadScenario) | clear the new back's `next`, and clear `head` when the deque empties | not executed | Queues.RemoveLastAsWrittenScenario | Queues.Deque.RemoveLast |
