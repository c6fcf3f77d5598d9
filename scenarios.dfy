/** Small grids driven through the public operations: construction, opening
    sites by a sequence of decisions, and the percolation query. */
module PercolationScenarios {
  import opened Grid
  import opened PercolationGrid

  /** Opening the one site of a 1-by-1 grid by a decision sequence percolates
      exactly when the decision is true. */
  method DrawnSingleSiteGrid(open: bool) returns (percolates: bool)
    ensures percolates == open
  {
    var p := new Percolation(1);
    p.OpenAllSites([open]);
    percolates := p.PercolationCheck();
    assert DrawnAt(1, [open], 0, 0) == open;
    if open {
      assert p.openSites == {(0, 0)};
      SingleOpenSite();
    } else {
      assert p.openSites == {};
      BlockedRowStopsPercolation(1, {}, 0);
    }
  }

  /** A 3-by-3 grid whose decisions open the middle column percolates. */
  method MiddleColumnGrid() returns (percolates: bool)
    ensures percolates
  {
    var p := new Percolation(3);
    var d := [false, true, false, false, true, false, false, true, false];
    p.OpenAllSites(d);
    percolates := p.PercolationCheck();
    assert p.openSites == Drawn(3, d);
    MiddleColumnDrawn();
  }

  /** A 3-by-3 grid whose decisions open the first and last rows but not the
      middle row does not percolate. */
  method ClosedMiddleRowGrid() returns (percolates: bool)
    ensures !percolates
  {
    var p := new Percolation(3);
    var d := [true, true, true, false, false, false, true, true, true];
    p.OpenAllSites(d);
    percolates := p.PercolationCheck();
    assert p.openSites == Drawn(3, d);
    ClosedMiddleRowDrawn();
  }
}
