# Percolation on an n-by-n grid, modelled in Dafny

The system is a percolation simulator. An `n`-by-`n` grid of sites starts
closed. Sites are opened one at a time, or all at once by a row-major scan that
opens each site whose random draw falls below a probability. The grid
percolates when a chain of open sites, each sharing a side with the next, leads
from the top row to the bottom row. The class `Percolation` answers that
question with a weighted quick-union forest. The forest covers the `n * n` site
indices `row * n + col` plus two virtual nodes: `n * n` sits above row 0 and
`n * n + 1` sits below row `n - 1`. Opening a site joins it to the virtual node
of its boundary row and to each open neighbour. The grid percolates exactly when
the two virtual nodes are in one set.

The project has five modules:

- `Connectivity` (`connectivity.dfy`) gives undirected reachability over a set of
  links. This is what a union-find forest means: two identifiers are in one set
  exactly when a chain of `union` calls joins them.
- `UnionFind` (`union_find.dfy`) is the weighted quick-union forest the grid
  uses. It is a class over a parent array and a size array. Its constructor
  makes singletons. `Find` follows parent links. `Union` hangs the root of the
  smaller tree under the root of the larger one; on a tie, `q`'s root goes under
  `p`'s root. The library's source is not part of this model. This class is an
  implementation with the library's contract, not a copy of its code. Ghost
  fields record the class of every element (`root`), a termination measure for
  `Find` (`rank`) and every pair ever passed to `Union` (`links`). The object
  invariant says that the classes are the connected components of `links`.
  `UnionScenarioFirstHalf` and `UnionScenarioSecondHalf` run a five-element
  sequence of unions and check which elements end up together.
- `Grid` (`grid.dfy`) holds the geometry and the graph of open sites:
  - the index mapping and the neighbour indices;
  - the links each step of `openSite` adds;
  - the predicate `Percolates`;
  - the theorem that the top node reaches the bottom node through the links
    exactly when the grid percolates.
- `PercolationGrid` (`percolation.dfy`) is the class `Percolation`. Its fields
  match the Java class: `grid`, `gridSize`, `gridSquared`, `wquFind`,
  `virtualTop` and `virtualBottom`. A ghost set `openSites` mirrors the open
  flags. The object invariant `Valid` combines two facts. The array flags
  are exactly `openSites`, and the forest's links are exactly the edges of the
  open-site graph. That invariant is what makes `PercolationCheck` equivalent
  to `Percolates`.
- `PercolationScenarios` (`scenarios.dfy`) drives small grids through the class.

The random draws of `openAllSites` are replaced by a sequence `d` of `n * n`
decisions. Site `(row, col)` is opened when `d[row * n + col]` is true. This is
the row-major scan the source performs, with each draw already compared with
the probability.

## Model

| member | source | states |
|---|---|---|
| PercolationGrid.Percolation.constructor | src/Percolation.java:16-23 | all flags are closed and `openSites` is empty; the forest has `n * n + 2` singletons and no links; the virtual nodes are `n * n` and `n * n + 1`; the invariant holds |
| PercolationGrid.Percolation.OpenSite | src/Percolation.java:26-41 | afterwards the open set is exactly the old set plus `(row, col)` and only that flag changes; an already open site leaves the forest untouched; a closed one adds exactly the boundary and neighbour links; the invariant is kept; percolation, once true, stays true |
| PercolationGrid.Percolation.JoinNewSite | src/Percolation.java:32-40 | the unions for a newly opened site add exactly its boundary links and its neighbour links; the forest stays valid |
| PercolationGrid.Percolation.ConditionalUnions | src/Percolation.java:32-38 | two guarded unions add exactly the two guarded links; the forest stays valid |
| PercolationGrid.Percolation.UnionIf | src/Percolation.java:32-34 | when `cond` holds, one union adds exactly the link `(p, q)`; otherwise nothing changes; the forest stays valid |
| PercolationGrid.Percolation.ConnectAdjacentSites | src/Percolation.java:44-64 | joins the site to each in-bounds open neighbour (left, right, up, down) and adds no other link |
| PercolationGrid.Percolation.OpenAllSites | src/Percolation.java:67-77 | the open set becomes the old set plus exactly the sites whose decision is true; the invariant is kept; percolation, once true, stays true |
| PercolationGrid.Percolation.PercolationCheck | src/Percolation.java:80-82 | the answer is true exactly when a chain of open adjacent sites links row 0 to row `n - 1` |
| PercolationGrid.Percolation.OpenSiteJoined | src/Percolation.java:32-62 | in every valid state an open row-0 site is with the top node, an open row-`n-1` site is with the bottom node, and each open site is with each open neighbour |
| UnionFind.WeightedQuickUnion.constructor | src/Percolation.java:19 | `size` singleton sets and no links |
| UnionFind.WeightedQuickUnion.Find | src/Percolation.java:81 | returns the root of the element's class, a self-parented element, without changing anything |
| UnionFind.WeightedQuickUnion.Union | src/Percolation.java:33 | records the link `(p, q)` and merges exactly the classes of `p` and `q`, leaving every other pair as it was |
| Grid.IndexInRange | src/Percolation.java:30 | a site's index `row * n + col` lies in `0..n*n-1` and differs from both virtual nodes |
| Grid.SiteIndexRoundTrip | src/Percolation.java:30 | the index of a site decodes back to that site |
| Grid.IndexSiteRoundTrip | src/Percolation.java:30 | for every index `x` below `n * n`, the site `SiteOf(n, x)` lies on the grid and has index `x` |
| Grid.NeighbourIndex | src/Percolation.java:46-62 | `index - 1`, `index + 1`, `index - n` and `index + n` are the indices of the left, right, upper and lower neighbours |
| Grid.NeighbourIndexInRange | src/Percolation.java:44-64 | every index `connectAdjacentSites` passes to `union` lies on the grid |
| Grid.SiteLinksAreEdges | src/Percolation.java:29-62 | every link opening a site makes joins two adjacent open sites, or joins a boundary site to its virtual node |
| Grid.EdgeFromNewSite | src/Percolation.java:32-62 | every edge at the newly opened site is one of the links its opening makes |
| Grid.OpenSitePreservesEdges | src/Percolation.java:26-41 | opening a closed site and adding its links keeps the links equal to the edges of the open-site graph |
| Grid.OpenSiteConnected | src/Percolation.java:32-62 | with links equal to edges, an open site is joined to its virtual node and to its open neighbours |
| Grid.ReachMeansPercolates | src/Percolation.java:80-82 | if the top node reaches the bottom node over sound links, the grid percolates |
| Grid.PercolatesMeansReach | src/Percolation.java:80-82 | if the grid percolates and every edge is a link, the top node reaches the bottom node |
| Grid.LinksReachIsPercolation | src/Percolation.java:80-82 | with links equal to edges, the top node reaches the bottom node exactly when the grid percolates |
| Grid.PercolatesMonotone | src/Percolation.java:26-41 | opening more sites never stops a grid from percolating |
| Grid.PercolatesOpensEveryRow | src/Percolation.java:80-82 | a percolating grid has an open site in every row |
| Grid.BlockedRowStopsPercolation | src/Percolation.java:80-82 | a row with no open site means the grid does not percolate |
| Grid.SingleOpenSite | src/Percolation.java:32-38 | a 1-by-1 grid with its site open percolates, because its one row is both boundary rows |
| Grid.OpenMiddleColumn | src/Percolation.java:80-82 | a 3-by-3 grid with the middle column open percolates |
| Grid.MiddleColumnDrawn | src/Percolation.java:70-76 | decisions that open only the middle column of a 3-by-3 grid make it percolate |
| Grid.ClosedMiddleRowDrawn | src/Percolation.java:70-76 | decisions that open the first and last rows of a 3-by-3 grid, but not its middle row, make it blocked |
| Grid.VisitSite | src/Percolation.java:71-74 | visiting `(row, col)` opens it exactly when its decision is true, and nothing else |
| Grid.NextRow | src/Percolation.java:70-75 | finishing a row is starting the next |
| Grid.AllVisited | src/Percolation.java:70-76 | after the whole scan the open set is the old set plus the sites whose decision is true |
| PercolationScenarios.DrawnSingleSiteGrid | src/Percolation.java:67-82 | a 1-by-1 grid opened by one decision percolates exactly when that decision is true |
| PercolationScenarios.MiddleColumnGrid | src/Percolation.java:67-82 | a fresh 3-by-3 grid scanned with the middle column's decisions true percolates |
| PercolationScenarios.ClosedMiddleRowGrid | src/Percolation.java:67-82 | a fresh 3-by-3 grid scanned with only the first and last rows' decisions true does not percolate |

## Left out

- `displayGridWithResult` (lines 84-109) only reads the flags to draw them.
  `main` (lines 112-141) is the trial driver: it builds 10-by-10 grids, seeds
  `openAllSites` from the clock, reads `percolationCheck`, draws the result and
  waits for a key or a click. It uses only the modelled operations; the clock,
  the drawing and the input are not modelled.
- `StdRandom`, the seed and the `double` probability of `openAllSites` are
  replaced by the decision sequence. Which drawn values fall below the
  probability is not modelled.
- `WeightedQuickUnionUF` is not part of this model. `UnionFind` implements its
  contract: union by size with ties under `p`'s root, and `find` returning the
  root. It leaves out the library's `count` of components, its own argument
  checks and anything inside it beyond that contract.
- Java's 32-bit `int` is not modelled. `n * n + 2` and `row * n + col`
  overflow for `n` above 46340; the model uses unbounded integers.
- `OpenSite`, `ConnectAdjacentSites`: out-of-range `row` or `col` is a
  precondition. In Java that case throws `ArrayIndexOutOfBoundsException`
  before any state changes. A negative `n` is excluded by the type `nat`; Java
  throws `NegativeArraySizeException`.
- `PercolationGrid.Percolation.constructor`: `n == 0` is accepted, as the code
  accepts it: Java has no check for it. That grid has no sites and never
  percolates.
- `ConnectAdjacentSites` reads the four neighbour flags before its first union
  instead of before each one. No union changes a flag, so the links it adds are
  the same. The four guarded unions are performed in pairs by
  `ConditionalUnions`; the bodies keep the source's order of unions, which the
  contracts, stated as sets of links, do not record.
- The ghost fields of `UnionFind` are proof state only; the model says nothing
  about the running time of `find`.
