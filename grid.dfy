/** The geometry of an `n`-by-`n` percolation grid and the graph its open sites
    form.

    Site `(row, col)` has the index `row * n + col`; the two virtual nodes are
    `n * n` (top) and `n * n + 1` (bottom). The open-site graph joins two open
    sites that share a side, every open site of row 0 to the top node and every
    open site of row `n - 1` to the bottom node. The grid percolates when a chain
    of open sites, each sharing a side with the next, leads from row 0 to row
    `n - 1`. */
module Grid {
  import opened Connectivity

  type Site = (int, int)

  predicate InBounds(n: int, s: Site)
  {
    0 <= s.0 < n && 0 <= s.1 < n
  }

  /** Every open site lies on the grid. */
  predicate OnGrid(n: int, sites: set<Site>)
  {
    forall s :: s in sites ==> InBounds(n, s)
  }

  /** The union-find index of site `(row, col)`. */
  function Index(n: int, row: int, col: int): int
  {
    row * n + col
  }

  function Top(n: int): int
  {
    n * n
  }

  function Bottom(n: int): int
  {
    n * n + 1
  }

  /** The site whose index is `x`. */
  function SiteOf(n: int, x: int): Site
    requires n > 0
  {
    (x / n, x % n)
  }

  /** `a` and `b` share a side. */
  predicate Adjacent(a: Site, b: Site)
  {
    (a.0 == b.0 && (a.1 == b.1 + 1 || b.1 == a.1 + 1)) ||
    (a.1 == b.1 && (a.0 == b.0 + 1 || b.0 == a.0 + 1))
  }

  /** `x` is the index of an open site. */
  predicate OpenNode(n: int, sites: set<Site>, x: int)
  {
    n > 0 && 0 <= x < n * n && SiteOf(n, x) in sites
  }

  /** `x` is an open site of row `row`. */
  predicate OpenInRow(n: int, sites: set<Site>, x: int, row: int)
  {
    OpenNode(n, sites, x) && SiteOf(n, x).0 == row
  }

  /** `x` and `y` are joined in the open-site graph, in either direction. */
  predicate GridEdge(n: int, sites: set<Site>, x: int, y: int)
  {
    (OpenNode(n, sites, x) && OpenNode(n, sites, y) && Adjacent(SiteOf(n, x), SiteOf(n, y))) ||
    (x == Top(n) && OpenInRow(n, sites, y, 0)) ||
    (y == Top(n) && OpenInRow(n, sites, x, 0)) ||
    (x == Bottom(n) && OpenInRow(n, sites, y, n - 1)) ||
    (y == Bottom(n) && OpenInRow(n, sites, x, n - 1))
  }

  /** Every link is an edge of the open-site graph. */
  predicate LinksSound(n: int, sites: set<Site>, links: set<(int, int)>)
  {
    forall l :: l in links ==> GridEdge(n, sites, l.0, l.1)
  }

  /** Every edge of the open-site graph is a link. */
  ghost predicate LinksComplete(n: int, sites: set<Site>, links: set<(int, int)>)
  {
    forall x, y {:trigger GridEdge(n, sites, x, y)} :: GridEdge(n, sites, x, y) ==> Linked(links, x, y)
  }

  /** The links are exactly the edges of the open-site graph. */
  ghost predicate EdgesMatch(n: int, sites: set<Site>, links: set<(int, int)>)
  {
    LinksSound(n, sites, links) && LinksComplete(n, sites, links)
  }

  /** A non-empty chain of open sites on the grid, each sharing a side with the next. */
  predicate IsOpenChain(n: int, sites: set<Site>, c: seq<Site>)
  {
    |c| > 0 &&
    (forall i :: 0 <= i < |c| ==> InBounds(n, c[i]) && c[i] in sites) &&
    (forall i :: 0 <= i < |c| - 1 ==> Adjacent(c[i], c[i + 1]))
  }

  /** A chain of open sites leads from row 0 to row `n - 1`. */
  ghost predicate Percolates(n: int, sites: set<Site>)
  {
    exists c: seq<Site> :: IsOpenChain(n, sites, c) && c[0].0 == 0 && c[|c| - 1].0 == n - 1
  }

  /** The link `(s, t)` when `cond` holds, and no link otherwise. */
  function LinkIf(cond: bool, s: int, t: int): set<(int, int)>
  {
    if cond then {(s, t)} else {}
  }

  /** The links `openSite` makes for the boundary rows, as the pairs it passes to `union`. */
  function BoundaryLinks(n: int, row: int, col: int): set<(int, int)>
  {
    var s := Index(n, row, col);
    LinkIf(row == 0, Top(n), s) + LinkIf(row == n - 1, s, Bottom(n))
  }

  /** The links `connectAdjacentSites` makes to the open neighbours of
      `(row, col)`, in the order left, right, up, down. */
  function NeighbourLinks(n: int, sites: set<Site>, row: int, col: int): set<(int, int)>
  {
    var s := Index(n, row, col);
    LinkIf(col - 1 >= 0 && (row, col - 1) in sites, s, s - 1) +
    LinkIf(col + 1 < n && (row, col + 1) in sites, s, s + 1) +
    LinkIf(row - 1 >= 0 && (row - 1, col) in sites, s, s - n) +
    LinkIf(row + 1 < n && (row + 1, col) in sites, s, s + n)
  }

  /** All links opening a closed site `(row, col)` makes, `sites` already holding it. */
  function SiteLinks(n: int, sites: set<Site>, row: int, col: int): set<(int, int)>
  {
    BoundaryLinks(n, row, col) + NeighbourLinks(n, sites, row, col)
  }

  /** `(r, c)` comes before `(row, col)` in row-major order. */
  predicate Before(r: int, c: int, row: int, col: int)
  {
    r < row || (r == row && c < col)
  }

  /** The decision for site `(r, c)` in a row-major sequence of decisions. */
  predicate DrawnAt(n: int, d: seq<bool>, r: int, c: int)
    requires |d| == n * n && InBounds(n, (r, c))
  {
    IndexInRange(n, r, c);
    d[Index(n, r, c)]
  }

  /** The sites whose decision is true. */
  function Drawn(n: int, d: seq<bool>): set<Site>
    requires |d| == n * n
  {
    set r, c | 0 <= r < n && 0 <= c < n && DrawnAt(n, d, r, c) :: (r, c)
  }

  // ---------------------------------------------------------------------------
  // Indices

  lemma MulAtLeast(k: int, n: int)
    requires k >= 1 && n > 0
    ensures k * n >= n
  {
    assert k * n == (k - 1) * n + n;
  }

  /** A multiple of a positive `n` by a nonzero factor is at least `n` away from 0. */
  lemma MulSign(k: int, n: int)
    requires n > 0
    ensures k >= 1 ==> k * n >= n
    ensures k <= -1 ==> k * n <= -n
  {
    if k >= 1 {
      MulAtLeast(k, n);
    }
    if k <= -1 {
      MulAtLeast(-k, n);
      assert (-k) * n == -(k * n);
    }
  }

  /** Division by a positive `n` recovers the row and column of an index. */
  lemma DivModUnique(n: int, r: int, c: int)
    requires n > 0 && 0 <= c < n
    ensures (r * n + c) / n == r && (r * n + c) % n == c
  {
    var x := r * n + c;
    var q, m := x / n, x % n;
    assert (r - q) * n == m - c;
    MulSign(r - q, n);
  }

  /** The index of a site lies in `0..n*n-1`, below both virtual nodes. */
  lemma IndexInRange(n: int, r: int, c: int)
    requires InBounds(n, (r, c))
    ensures 0 <= Index(n, r, c) < n * n
    ensures Index(n, r, c) != Top(n) && Index(n, r, c) != Bottom(n)
  {
    assert r * n <= (n - 1) * n by {
      assert (n - 1) * n - r * n == (n - 1 - r) * n;
      if n - 1 - r >= 1 {
        MulAtLeast(n - 1 - r, n);
      }
    }
  }

  /** Site to index to site. */
  lemma SiteIndexRoundTrip(n: int, r: int, c: int)
    requires InBounds(n, (r, c))
    ensures SiteOf(n, Index(n, r, c)) == (r, c)
  {
    DivModUnique(n, r, c);
  }

  /** Index to site to index: every index below `n*n` is that of a site. */
  lemma IndexSiteRoundTrip(n: int, x: int)
    requires n > 0 && 0 <= x < n * n
    ensures InBounds(n, SiteOf(n, x)) && Index(n, SiteOf(n, x).0, SiteOf(n, x).1) == x
  {
    var q := x / n;
    if q >= n {
      MulAtLeast(q - n + 1, n);
      assert q * n == (q - n) * n + n * n;
      assert q * n >= n * n by {
        if q - n >= 1 {
          MulAtLeast(q - n, n);
        }
      }
    }
  }

  /** The index arithmetic of `connectAdjacentSites`: one step left, right, up
      or down is the index of that neighbour. */
  lemma NeighbourIndex(n: int, row: int, col: int)
    requires InBounds(n, (row, col))
    ensures col - 1 >= 0 ==> Index(n, row, col) - 1 == Index(n, row, col - 1)
    ensures col + 1 < n ==> Index(n, row, col) + 1 == Index(n, row, col + 1)
    ensures row - 1 >= 0 ==> Index(n, row, col) - n == Index(n, row - 1, col)
    ensures row + 1 < n ==> Index(n, row, col) + n == Index(n, row + 1, col)
  {
    assert (row - 1) * n == row * n - n && (row + 1) * n == row * n + n;
  }

  /** The indices `connectAdjacentSites` passes to `union` lie on the grid. */
  lemma NeighbourIndexInRange(n: int, row: int, col: int)
    requires InBounds(n, (row, col))
    ensures 0 <= Index(n, row, col) < n * n
    ensures col - 1 >= 0 ==> 0 <= Index(n, row, col) - 1 < n * n
    ensures col + 1 < n ==> 0 <= Index(n, row, col) + 1 < n * n
    ensures row - 1 >= 0 ==> 0 <= Index(n, row, col) - n < n * n
    ensures row + 1 < n ==> 0 <= Index(n, row, col) + n < n * n
  {
    NeighbourIndex(n, row, col);
    IndexInRange(n, row, col);
    if col - 1 >= 0 { IndexInRange(n, row, col - 1); }
    if col + 1 < n { IndexInRange(n, row, col + 1); }
    if row - 1 >= 0 { IndexInRange(n, row - 1, col); }
    if row + 1 < n { IndexInRange(n, row + 1, col); }
  }

  // ---------------------------------------------------------------------------
  // Opening a site keeps the links equal to the edges of the open-site graph

  /** Opening more sites keeps every edge. */
  lemma EdgeMono(n: int, sites: set<Site>, more: set<Site>, x: int, y: int)
    requires sites <= more && GridEdge(n, sites, x, y)
    ensures GridEdge(n, more, x, y)
  {
  }

  /** The only open node that appears when `(row, col)` opens is its own index. */
  lemma OpenNodeAfter(n: int, sites: set<Site>, row: int, col: int, z: int)
    requires InBounds(n, (row, col))
    ensures OpenNode(n, sites + {(row, col)}, z) ==> OpenNode(n, sites, z) || z == Index(n, row, col)
  {
    if OpenNode(n, sites + {(row, col)}, z) && SiteOf(n, z) == (row, col) {
      IndexSiteRoundTrip(n, z);
    }
  }

  /** A neighbour of `(row, col)` that lies on the grid: its index and the
      facts that make it an open node once it is open. */
  lemma NeighbourNode(n: int, row: int, col: int, r: int, c: int)
    requires InBounds(n, (row, col)) && InBounds(n, (r, c))
    ensures 0 <= Index(n, r, c) < n * n && SiteOf(n, Index(n, r, c)) == (r, c)
    ensures Index(n, r, c) != Top(n) && Index(n, r, c) != Bottom(n)
  {
    IndexInRange(n, r, c);
    SiteIndexRoundTrip(n, r, c);
  }

  /** Every link opening `(row, col)` makes is an edge once the site is open. */
  lemma SiteLinksAreEdges(n: int, sites: set<Site>, row: int, col: int)
    requires InBounds(n, (row, col)) && (row, col) in sites
    ensures LinksSound(n, sites, SiteLinks(n, sites, row, col))
  {
    var s := Index(n, row, col);
    NeighbourNode(n, row, col, row, col);
    NeighbourIndex(n, row, col);
    forall l | l in SiteLinks(n, sites, row, col)
      ensures GridEdge(n, sites, l.0, l.1)
    {
      if l !in BoundaryLinks(n, row, col) {
        if col - 1 >= 0 && (row, col - 1) in sites && l == (s, s - 1) {
          NeighbourNode(n, row, col, row, col - 1);
        } else if col + 1 < n && (row, col + 1) in sites && l == (s, s + 1) {
          NeighbourNode(n, row, col, row, col + 1);
        } else if row - 1 >= 0 && (row - 1, col) in sites && l == (s, s - n) {
          NeighbourNode(n, row, col, row - 1, col);
        } else {
          assert row + 1 < n && (row + 1, col) in sites && l == (s, s + n);
          NeighbourNode(n, row, col, row + 1, col);
        }
      }
    }
  }

  /** An edge at the newly opened site `(row, col)` is one of the links opening it makes. */
  lemma EdgeFromNewSite(n: int, sites: set<Site>, row: int, col: int, y: int)
    requires InBounds(n, (row, col)) && (row, col) in sites
    requires GridEdge(n, sites, Index(n, row, col), y)
    ensures Linked(SiteLinks(n, sites, row, col), Index(n, row, col), y)
  {
    var s := Index(n, row, col);
    NeighbourNode(n, row, col, row, col);
    NeighbourIndex(n, row, col);
    if y != Top(n) && y != Bottom(n) {
      assert OpenNode(n, sites, y) && Adjacent((row, col), SiteOf(n, y));
      IndexSiteRoundTrip(n, y);
      var (r, c) := SiteOf(n, y);
      assert y == Index(n, r, c);
    }
  }

  /** Opening the closed site `(row, col)` and adding the links it makes keeps
      the links equal to the edges of the open-site graph. */
  lemma OpenSitePreservesEdges(n: int, sites: set<Site>, links: set<(int, int)>, row: int, col: int)
    requires InBounds(n, (row, col)) && EdgesMatch(n, sites, links)
    ensures EdgesMatch(n, sites + {(row, col)}, links + SiteLinks(n, sites + {(row, col)}, row, col))
  {
    var sites' := sites + {(row, col)};
    var added := SiteLinks(n, sites', row, col);
    var links' := links + added;
    SiteLinksAreEdges(n, sites', row, col);
    forall l | l in links'
      ensures GridEdge(n, sites', l.0, l.1)
    {
      if l in links {
        EdgeMono(n, sites, sites', l.0, l.1);
      }
    }
    forall x, y | GridEdge(n, sites', x, y)
      ensures Linked(links', x, y)
    {
      if !GridEdge(n, sites, x, y) {
        OpenNodeAfter(n, sites, row, col, x);
        OpenNodeAfter(n, sites, row, col, y);
        if x == Index(n, row, col) {
          EdgeFromNewSite(n, sites', row, col, y);
        } else {
          EdgeFromNewSite(n, sites', row, col, x);
        }
      }
    }
  }

  /** `x` and `y` are in range and carry the same class label. */
  predicate Joined(root: seq<int>, x: int, y: int)
  {
    0 <= x < |root| && 0 <= y < |root| && root[x] == root[y]
  }

  /** With every edge a link and classes that are the components of the links,
      an open site is in the class of the top node if it is in row 0, in the
      class of the bottom node if it is in row `n - 1`, and in the class of
      each open neighbour. */
  lemma OpenSiteConnected(n: int, sites: set<Site>, links: set<(int, int)>, root: seq<int>, row: int, col: int)
    requires InBounds(n, (row, col)) && (row, col) in sites
    requires LinksComplete(n, sites, links) && |root| == n * n + 2 && Explains(root, links, n * n + 2)
    ensures row == 0 ==> Joined(root, Top(n), Index(n, row, col))
    ensures row == n - 1 ==> Joined(root, Index(n, row, col), Bottom(n))
    ensures forall r, c :: InBounds(n, (r, c)) && (r, c) in sites && Adjacent((row, col), (r, c)) ==>
      Joined(root, Index(n, row, col), Index(n, r, c))
  {
    var s := Index(n, row, col);
    NeighbourNode(n, row, col, row, col);
    if row == 0 {
      assert GridEdge(n, sites, Top(n), s);
      ReachLink(links, Top(n), s);
    }
    if row == n - 1 {
      assert GridEdge(n, sites, s, Bottom(n));
      ReachLink(links, s, Bottom(n));
    }
    forall r, c | InBounds(n, (r, c)) && (r, c) in sites && Adjacent((row, col), (r, c))
      ensures Joined(root, s, Index(n, r, c))
    {
      NeighbourNode(n, row, col, r, c);
      assert GridEdge(n, sites, s, Index(n, r, c));
      ReachLink(links, s, Index(n, r, c));
    }
  }

  // ---------------------------------------------------------------------------
  // Reaching the bottom node from the top node is percolation

  /** `x` is an open site that a chain of open sites reaches from row 0. */
  ghost predicate ReachedFromTop(n: int, sites: set<Site>, x: int)
  {
    OpenNode(n, sites, x) &&
    exists c: seq<Site> :: IsOpenChain(n, sites, c) && c[0].0 == 0 && c[|c| - 1] == SiteOf(n, x)
  }

  /** One edge of a walk from the top node. */
  lemma StepFromTop(n: int, sites: set<Site>, u: int, v: int)
    requires GridEdge(n, sites, u, v)
    requires Percolates(n, sites) || u == Top(n) || ReachedFromTop(n, sites, u)
    ensures Percolates(n, sites) || v == Top(n) || ReachedFromTop(n, sites, v)
  {
    if u == Top(n) {
      if v != Top(n) {
        IndexSiteRoundTrip(n, v);
        var c := [SiteOf(n, v)];
        assert IsOpenChain(n, sites, c);
      }
    } else if ReachedFromTop(n, sites, u) {
      var c: seq<Site> :| IsOpenChain(n, sites, c) && c[0].0 == 0 && c[|c| - 1] == SiteOf(n, u);
      if v == Bottom(n) {
        assert IsOpenChain(n, sites, c) && c[|c| - 1].0 == n - 1;
      } else if v != Top(n) {
        IndexSiteRoundTrip(n, v);
        var c' := c + [SiteOf(n, v)];
        assert IsOpenChain(n, sites, c') && c'[0].0 == 0 && c'[|c'| - 1] == SiteOf(n, v);
      }
    }
  }

  /** Along a walk of edges from the top node every node is the top node or
      reached from row 0, unless the grid already percolates. */
  lemma {:induction false} WalkFromTop(n: int, sites: set<Site>, links: set<(int, int)>, p: seq<int>)
    requires LinksSound(n, sites, links)
    requires IsPath(links, p) && |p| > 0 && p[0] == Top(n)
    ensures Percolates(n, sites) || p[|p| - 1] == Top(n) || ReachedFromTop(n, sites, p[|p| - 1])
  {
    if |p| > 1 {
      var q := p[..|p| - 1];
      assert IsPath(links, q) by {
        forall i | 0 <= i < |q| - 1 ensures Linked(links, q[i], q[i + 1]) {
          assert q[i] == p[i] && q[i + 1] == p[i + 1];
        }
      }
      WalkFromTop(n, sites, links, q);
      var u, v := p[|p| - 2], p[|p| - 1];
      assert Linked(links, u, v);
      assert GridEdge(n, sites, u, v) by {
        if (u, v) in links {
          assert GridEdge(n, sites, (u, v).0, (u, v).1);
        } else {
          assert GridEdge(n, sites, (v, u).0, (v, u).1);
        }
      }
      StepFromTop(n, sites, u, v);
    }
  }

  /** With only edges as links, a path from the top node to the bottom node
      means the grid percolates. */
  lemma ReachMeansPercolates(n: int, sites: set<Site>, links: set<(int, int)>)
    requires LinksSound(n, sites, links)
    ensures Reach(links, Top(n), Bottom(n)) ==> Percolates(n, sites)
  {
    if Reach(links, Top(n), Bottom(n)) {
      var p: seq<int> :| IsPath(links, p) && |p| > 0 && p[0] == Top(n) && p[|p| - 1] == Bottom(n);
      WalkFromTop(n, sites, links, p);
    }
  }

  /** With every edge a link, a percolating chain gives a path from the top
      node through the chain's sites to the bottom node. */
  lemma PercolatesMeansReach(n: int, sites: set<Site>, links: set<(int, int)>)
    requires LinksComplete(n, sites, links)
    ensures Percolates(n, sites) ==> Reach(links, Top(n), Bottom(n))
  {
    if Percolates(n, sites) {
      var c: seq<Site> :| IsOpenChain(n, sites, c) && c[0].0 == 0 && c[|c| - 1].0 == n - 1;
      var idx := seq(|c|, i requires 0 <= i < |c| => Index(n, c[i].0, c[i].1));
      var p := [Top(n)] + idx + [Bottom(n)];
      forall i | 0 <= i < |p| - 1
        ensures Linked(links, p[i], p[i + 1])
      {
        if i == 0 {
          NeighbourNode(n, c[0].0, c[0].1, c[0].0, c[0].1);
          assert GridEdge(n, sites, p[0], p[1]);
        } else if i == |p| - 2 {
          var k := |c| - 1;
          NeighbourNode(n, c[k].0, c[k].1, c[k].0, c[k].1);
          assert p[i] == idx[k];
          assert GridEdge(n, sites, p[i], p[i + 1]);
        } else {
          NeighbourNode(n, c[i - 1].0, c[i - 1].1, c[i - 1].0, c[i - 1].1);
          NeighbourNode(n, c[i].0, c[i].1, c[i].0, c[i].1);
          assert p[i] == idx[i - 1] && p[i + 1] == idx[i];
          assert GridEdge(n, sites, p[i], p[i + 1]);
        }
      }
      assert IsPath(links, p);
    }
  }

  /** The correctness theorem: when the links are exactly the edges of the
      open-site graph, the top node reaches the bottom node exactly when the
      grid percolates. */
  lemma LinksReachIsPercolation(n: int, sites: set<Site>, links: set<(int, int)>)
    requires EdgesMatch(n, sites, links)
    ensures Reach(links, Top(n), Bottom(n)) <==> Percolates(n, sites)
  {
    ReachMeansPercolates(n, sites, links);
    PercolatesMeansReach(n, sites, links);
  }

  // ---------------------------------------------------------------------------
  // Properties of percolation itself

  /** Opening more sites never stops a grid from percolating. */
  lemma PercolatesMonotone(n: int, sites: set<Site>, more: set<Site>)
    requires sites <= more
    ensures Percolates(n, sites) ==> Percolates(n, more)
  {
    if Percolates(n, sites) {
      var c: seq<Site> :| IsOpenChain(n, sites, c) && c[0].0 == 0 && c[|c| - 1].0 == n - 1;
      assert IsOpenChain(n, more, c);
    }
  }

  /** A chain passes through every row between the rows of its ends. */
  lemma {:induction false} ChainCrossesRow(n: int, sites: set<Site>, c: seq<Site>, k: int) returns (i: nat)
    requires IsOpenChain(n, sites, c) && c[0].0 <= k <= c[|c| - 1].0
    ensures i < |c| && c[i].0 == k
  {
    if c[0].0 == k {
      i := 0;
    } else {
      assert Adjacent(c[0], c[1]);
      var j := ChainCrossesRow(n, sites, c[1..], k);
      i := j + 1;
    }
  }

  /** A percolating grid has an open site in every row. */
  lemma PercolatesOpensEveryRow(n: int, sites: set<Site>, k: int)
    requires 0 <= k < n
    ensures Percolates(n, sites) ==> exists col :: 0 <= col < n && (k, col) in sites
  {
    if Percolates(n, sites) {
      var c: seq<Site> :| IsOpenChain(n, sites, c) && c[0].0 == 0 && c[|c| - 1].0 == n - 1;
      var i := ChainCrossesRow(n, sites, c, k);
      assert InBounds(n, c[i]) && c[i] in sites;
      assert c[i] == (k, c[i].1);
    }
  }

  /** A row with no open site stops percolation. */
  lemma BlockedRowStopsPercolation(n: int, sites: set<Site>, k: int)
    requires 0 <= k < n && forall col :: 0 <= col < n ==> (k, col) !in sites
    ensures !Percolates(n, sites)
  {
    PercolatesOpensEveryRow(n, sites, k);
  }

  /** A 3-by-3 grid whose middle column is open percolates. */
  lemma OpenMiddleColumn()
    ensures Percolates(3, {(0, 1), (1, 1), (2, 1)})
  {
    var c := [(0, 1), (1, 1), (2, 1)];
    assert IsOpenChain(3, {(0, 1), (1, 1), (2, 1)}, c);
  }

  /** A 1-by-1 grid with its one site open percolates. */
  lemma SingleOpenSite()
    ensures Percolates(1, {(0, 0)})
  {
    assert IsOpenChain(1, {(0, 0)}, [(0, 0)]);
  }

  /** Decisions that open exactly the middle column of a 3-by-3 grid make it
      percolate. */
  lemma MiddleColumnDrawn()
    ensures Percolates(3, Drawn(3, [false, true, false, false, true, false, false, true, false]))
  {
    var d := [false, true, false, false, true, false, false, true, false];
    assert DrawnAt(3, d, 0, 1) && DrawnAt(3, d, 1, 1) && DrawnAt(3, d, 2, 1);
    OpenMiddleColumn();
    PercolatesMonotone(3, {(0, 1), (1, 1), (2, 1)}, Drawn(3, d));
  }

  /** Decisions that open the first and last rows of a 3-by-3 grid but not
      its middle row leave it blocked. */
  lemma ClosedMiddleRowDrawn()
    ensures !Percolates(3, Drawn(3, [true, true, true, false, false, false, true, true, true]))
  {
    var d := [true, true, true, false, false, false, true, true, true];
    assert !DrawnAt(3, d, 1, 0) && !DrawnAt(3, d, 1, 1) && !DrawnAt(3, d, 1, 2);
    BlockedRowStopsPercolation(3, Drawn(3, d), 1);
  }

  // ---------------------------------------------------------------------------
  // The links opening a site adds, call by call

  /** The four conditional `union` calls of `connectAdjacentSites`, each adding
      its conditional link, add exactly the neighbour links. */
  lemma NeighbourSteps(n: int, sites: set<Site>, row: int, col: int, index: int,
                       left: bool, right: bool, up: bool, down: bool,
                       l0: set<(int, int)>, l2: set<(int, int)>, l4: set<(int, int)>)
    requires index == Index(n, row, col)
    requires left == (col - 1 >= 0 && (row, col - 1) in sites)
    requires right == (col + 1 < n && (row, col + 1) in sites)
    requires up == (row - 1 >= 0 && (row - 1, col) in sites)
    requires down == (row + 1 < n && (row + 1, col) in sites)
    requires l2 == l0 + LinkIf(left, index, index - 1) + LinkIf(right, index, index + 1)
    requires l4 == l2 + LinkIf(up, index, index - n) + LinkIf(down, index, index + n)
    ensures l4 == l0 + NeighbourLinks(n, sites, row, col)
  {
  }

  /** The two conditional `union` calls of `openSite` for the boundary rows,
      each adding its conditional link, then the neighbour links, add all the
      links opening the site makes. */
  lemma SiteSteps(n: int, sites: set<Site>, row: int, col: int, index: int,
                  l0: set<(int, int)>, l2: set<(int, int)>, l3: set<(int, int)>)
    requires index == Index(n, row, col)
    requires l2 == l0 + LinkIf(row == 0, Top(n), index) + LinkIf(row == n - 1, index, Bottom(n))
    requires l3 == l2 + NeighbourLinks(n, sites, row, col)
    ensures l3 == l0 + SiteLinks(n, sites, row, col)
  {
  }

  // ---------------------------------------------------------------------------
  // Opening sites by a row-major sequence of decisions

  /** Once every site before `(row, col)` in row-major order has been visited,
      the open sites are those of `before` and the visited ones whose decision
      is true. */
  ghost predicate OpenedSoFar(n: int, d: seq<bool>, before: set<Site>, now: set<Site>, row: int, col: int)
    requires |d| == n * n
  {
    forall r, c :: InBounds(n, (r, c)) ==>
      ((r, c) in now <==> (r, c) in before || (Before(r, c, row, col) && DrawnAt(n, d, r, c)))
  }

  /** Visiting `(row, col)` opens it exactly when its decision is true. */
  lemma VisitSite(n: int, d: seq<bool>, before: set<Site>, now: set<Site>, row: int, col: int)
    requires |d| == n * n && InBounds(n, (row, col)) && OpenedSoFar(n, d, before, now, row, col)
    ensures OpenedSoFar(n, d, before, if DrawnAt(n, d, row, col) then now + {(row, col)} else now, row, col + 1)
  {
  }

  /** Finishing a row is starting the next one. */
  lemma NextRow(n: int, d: seq<bool>, before: set<Site>, now: set<Site>, row: int)
    requires |d| == n * n && OpenedSoFar(n, d, before, now, row, n)
    ensures OpenedSoFar(n, d, before, now, row + 1, 0)
  {
  }

  /** Once every site has been visited, the open sites are those of `before`
      and the drawn ones. */
  lemma AllVisited(n: int, d: seq<bool>, before: set<Site>, now: set<Site>)
    requires |d| == n * n && OnGrid(n, before) && OnGrid(n, now)
    requires OpenedSoFar(n, d, before, now, n, 0)
    ensures now == before + Drawn(n, d)
  {
    forall s | s in now
      ensures s in before + Drawn(n, d)
    {
      assert InBounds(n, (s.0, s.1));
    }
    forall s | s in before + Drawn(n, d)
      ensures s in now
    {
      assert InBounds(n, (s.0, s.1));
    }
  }
}
