/** The percolation grid: an `n`-by-`n` array of site flags together with a
    weighted quick-union forest over the `n * n` site indices and two virtual
    nodes, `n * n` above the first row and `n * n + 1` below the last one.

    Opening a site joins it to the virtual top node when it is in row 0, to the
    virtual bottom node when it is in row `n - 1`, and to each open neighbour.
    The grid percolates when the two virtual nodes are in one set. The ghost
    field `openSites` is the set of open sites; the object invariant says the
    flags agree with it and the forest's links are exactly the edges of the
    open-site graph, which makes the percolation query answer whether a chain
    of open sites leads from row 0 to row `n - 1`. */
module PercolationGrid {
  import opened UnionFind
  import opened Grid

  class Percolation {
    const grid: array2<bool>
    const gridSize: nat
    const gridSquared: int
    const wquFind: WeightedQuickUnion
    const virtualTop: int
    const virtualBottom: int
    ghost var openSites: set<Site>

    /** Everything but the link invariant: the sizes, the forest's own
        invariant and the flags agreeing with `openSites`. */
    ghost predicate Shape()
      reads this, grid, wquFind, wquFind.parent, wquFind.weight
    {
      gridSquared == gridSize * gridSize &&
      virtualTop == Top(gridSize) && virtualBottom == Bottom(gridSize) &&
      grid.Length0 == gridSize && grid.Length1 == gridSize &&
      wquFind.Valid() && wquFind.size == gridSquared + 2 &&
      OnGrid(gridSize, openSites) && FlagsMatch()
    }

    /** The open flags are exactly the sites of `openSites`. */
    ghost predicate FlagsMatch()
      reads this, grid
    {
      forall r, c :: 0 <= r < grid.Length0 && 0 <= c < grid.Length1 ==> (grid[r, c] <==> (r, c) in openSites)
    }

    ghost predicate Valid()
      reads this, grid, wquFind, wquFind.parent, wquFind.weight
    {
      Shape() && EdgesMatch(gridSize, openSites, wquFind.links)
    }

    /** An `n`-by-`n` grid of closed sites over a forest of `n * n + 2`
        singletons. */
    constructor (n: nat)
      ensures Valid() && gridSize == n && openSites == {}
      ensures virtualTop == n * n && virtualBottom == n * n + 1
      ensures forall r, c :: 0 <= r < n && 0 <= c < n ==> !grid[r, c]
      ensures wquFind.size == n * n + 2 && wquFind.root == seq(n * n + 2, i => i) && wquFind.links == {}
      ensures fresh(grid) && fresh(wquFind) && fresh(wquFind.parent) && fresh(wquFind.weight)
    {
      gridSize := n;
      gridSquared := n * n;
      wquFind := new WeightedQuickUnion(n * n + 2);
      grid := new bool[n, n]((r, c) => false);
      virtualTop := n * n;
      virtualBottom := n * n + 1;
      openSites := {};
    }

    /** Opens site `(row, col)`. An open site is left as it is; a closed one is
        opened and joined to the virtual node of its boundary row and to each
        open neighbour. */
    method OpenSite(row: int, col: int)
      requires Valid() && 0 <= row < gridSize && 0 <= col < gridSize
      modifies this`openSites, grid, wquFind, wquFind.parent, wquFind.weight
      ensures Valid()
      ensures openSites == old(openSites) + {(row, col)}
      ensures forall r, c :: 0 <= r < gridSize && 0 <= c < gridSize ==> grid[r, c] == (old(grid[r, c]) || (r, c) == (row, col))
      ensures old(grid[row, col]) ==>
        unchanged(wquFind, wquFind.parent, wquFind.weight)
      ensures !old(grid[row, col]) ==>
        wquFind.links == old(wquFind.links) + SiteLinks(gridSize, openSites, row, col)
      ensures old(Percolates(gridSize, openSites)) ==> Percolates(gridSize, openSites)
    {
      if grid[row, col] {
        return;
      }
      ghost var sites, links := openSites, wquFind.links;
      grid[row, col] := true;
      openSites := openSites + {(row, col)};
      IndexInRange(gridSize, row, col);
      var index := row * gridSize + col;
      JoinNewSite(row, col, index);
      OpenSitePreservesEdges(gridSize, sites, links, row, col);
      PercolatesMonotone(gridSize, sites, openSites);
    }

    /** In every valid state an open site is in the set of the virtual top
        node when it is in row 0, in the set of the virtual bottom node when it
        is in row `n - 1`, and in the set of each open neighbour: the unions
        `openSite` makes are never undone. */
    lemma OpenSiteJoined(row: int, col: int)
      requires Valid() && InBounds(gridSize, (row, col)) && (row, col) in openSites
      ensures row == 0 ==> Joined(wquFind.root, virtualTop, Index(gridSize, row, col))
      ensures row == gridSize - 1 ==> Joined(wquFind.root, Index(gridSize, row, col), virtualBottom)
      ensures forall r, c :: InBounds(gridSize, (r, c)) && (r, c) in openSites && Adjacent((row, col), (r, c)) ==>
        Joined(wquFind.root, Index(gridSize, row, col), Index(gridSize, r, c))
    {
      OpenSiteConnected(gridSize, openSites, wquFind.links, wquFind.root, row, col);
    }

    /** The unions `openSite` makes for the newly opened site `(row, col)`,
        whose index is `index`: the virtual top node for row 0, the virtual
        bottom node for row `n - 1`, then the open neighbours. */
    method JoinNewSite(row: int, col: int, index: int)
      requires wquFind.Valid() && wquFind.size == gridSize * gridSize + 2
      requires virtualTop == Top(gridSize) && virtualBottom == Bottom(gridSize)
      requires grid.Length0 == gridSize && grid.Length1 == gridSize && FlagsMatch()
      requires 0 <= row < gridSize && 0 <= col < gridSize && index == Index(gridSize, row, col)
      modifies wquFind, wquFind.parent, wquFind.weight
      ensures wquFind.Valid()
      ensures wquFind.links == old(wquFind.links) + SiteLinks(gridSize, openSites, row, col)
    {
      IndexInRange(gridSize, row, col);
      ghost var l0 := wquFind.links;
      ConditionalUnions(row == 0, virtualTop, index, row == gridSize - 1, index, virtualBottom);
      ghost var l2 := wquFind.links;
      ConnectAdjacentSites(row, col, index);
      SiteSteps(gridSize, openSites, row, col, index, l0, l2, wquFind.links);
    }

    /** Joins site `(row, col)`, whose index is `index`, to each open
        neighbour, in the order left, right, up, down. */
    method ConnectAdjacentSites(row: int, col: int, index: int)
      requires wquFind.Valid() && wquFind.size == gridSize * gridSize + 2
      requires grid.Length0 == gridSize && grid.Length1 == gridSize && FlagsMatch()
      requires 0 <= row < gridSize && 0 <= col < gridSize && index == Index(gridSize, row, col)
      modifies wquFind, wquFind.parent, wquFind.weight
      ensures wquFind.Valid()
      ensures wquFind.links == old(wquFind.links) + NeighbourLinks(gridSize, openSites, row, col)
    {
      NeighbourIndexInRange(gridSize, row, col);
      var left := col - 1 >= 0 && grid[row, col - 1];
      var right := col + 1 < gridSize && grid[row, col + 1];
      var up := row - 1 >= 0 && grid[row - 1, col];
      var down := row + 1 < gridSize && grid[row + 1, col];
      ghost var sites, l0 := openSites, wquFind.links;
      ConditionalUnions(left, index, index - 1, right, index, index + 1);
      ghost var l2 := wquFind.links;
      ConditionalUnions(up, index, index - gridSize, down, index, index + gridSize);
      NeighbourSteps(gridSize, sites, row, col, index, left, right, up, down, l0, l2, wquFind.links);
    }

    /** Two conditional `union` calls in a row. */
    method ConditionalUnions(first: bool, p: int, q: int, second: bool, p': int, q': int)
      requires wquFind.Valid()
      requires first ==> 0 <= p < wquFind.size && 0 <= q < wquFind.size
      requires second ==> 0 <= p' < wquFind.size && 0 <= q' < wquFind.size
      modifies wquFind, wquFind.parent, wquFind.weight
      ensures wquFind.Valid()
      ensures wquFind.links == old(wquFind.links) + LinkIf(first, p, q) + LinkIf(second, p', q')
    {
      UnionIf(first, p, q);
      UnionIf(second, p', q');
    }

    /** A conditional `union` of `p` and `q`, taken when `cond` holds. */
    method UnionIf(cond: bool, p: int, q: int)
      requires wquFind.Valid() && (cond ==> 0 <= p < wquFind.size && 0 <= q < wquFind.size)
      modifies wquFind, wquFind.parent, wquFind.weight
      ensures wquFind.Valid()
      ensures wquFind.links == old(wquFind.links) + LinkIf(cond, p, q)
    {
      if cond {
        wquFind.Union(p, q);
      }
    }

    /** Visits every site in row-major order and opens it when its decision,
        `d[row * n + col]`, is true. */
    method OpenAllSites(d: seq<bool>)
      requires Valid() && |d| == gridSize * gridSize
      modifies this`openSites, grid, wquFind, wquFind.parent, wquFind.weight
      ensures Valid()
      ensures openSites == old(openSites) + Drawn(gridSize, d)
      ensures old(Percolates(gridSize, openSites)) ==> Percolates(gridSize, openSites)
    {
      for row := 0 to gridSize
        invariant Valid()
        invariant OpenedSoFar(gridSize, d, old(openSites), openSites, row, 0)
        invariant old(openSites) <= openSites
      {
        for col := 0 to gridSize
          invariant Valid()
          invariant OpenedSoFar(gridSize, d, old(openSites), openSites, row, col)
          invariant old(openSites) <= openSites
        {
          VisitSite(gridSize, d, old(openSites), openSites, row, col);
          IndexInRange(gridSize, row, col);
          if d[row * gridSize + col] {
            OpenSite(row, col);
          }
        }
        NextRow(gridSize, d, old(openSites), openSites, row);
      }
      AllVisited(gridSize, d, old(openSites), openSites);
      PercolatesMonotone(gridSize, old(openSites), openSites);
    }

    /** The grid percolates: the virtual top and bottom nodes are in one set.
        Nothing changes. */
    method PercolationCheck() returns (percolates: bool)
      requires Valid()
      ensures percolates <==> Percolates(gridSize, openSites)
    {
      var top := wquFind.Find(virtualTop);
      var bottom := wquFind.Find(virtualBottom);
      percolates := top == bottom;
      LinksReachIsPercolation(gridSize, openSites, wquFind.links);
    }
  }
}
