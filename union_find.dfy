/** A weighted quick-union forest over the identifiers `0..size-1`.

    The forest is an array of parent links and an array of subtree sizes; `Union`
    hangs the root of the smaller tree under the root of the larger one. Its
    meaning is kept in three ghost fields: `root[i]` is the root that `Find(i)`
    reaches, `rank[i]` strictly decreases along parent links (so `Find`
    terminates), and `links` records every pair ever passed to `Union`. The
    object invariant says that the classes of `root` are exactly the connected
    components of `links`. */
module UnionFind {
  import opened Connectivity

  class WeightedQuickUnion {
    const size: nat
    const parent: array<int>
    const weight: array<int>
    ghost var root: seq<int>
    ghost var rank: seq<nat>
    ghost var links: set<(int, int)>

    ghost predicate Valid()
      reads this, parent, weight
    {
      parent.Length == size && weight.Length == size && parent != weight &&
      Forest(parent[..], root, rank) &&
      LinksWithin(links, size) &&
      Explains(root, links, size)
    }

    /** `x` and `y` are in the same set. */
    ghost predicate SameSet(x: int, y: int)
      reads this
      requires 0 <= x < |root| && 0 <= y < |root|
    {
      root[x] == root[y]
    }

    /** `size` singleton sets. */
    constructor (n: nat)
      ensures Valid() && size == n
      ensures fresh(parent) && fresh(weight)
      ensures root == seq(n, i => i) && links == {}
      ensures forall i :: 0 <= i < n ==> weight[i] == 1
    {
      size := n;
      parent := new int[n](i => i);
      weight := new int[n](i => 1);
      root := seq(n, i => i);
      rank := seq(n, i => 0);
      links := {};
      SingletonsExplained(n);
    }

    /** The root of the tree holding `p`; the forest is left as it is. */
    method Find(p: int) returns (r: int)
      requires Valid() && 0 <= p < size
      ensures r == root[p] && 0 <= r < size && parent[r] == r
    {
      r := p;
      while parent[r] != r
        invariant 0 <= r < size && root[r] == root[p]
        decreases rank[r]
      {
        r := parent[r];
      }
    }

    /** Merges the sets holding `p` and `q`. */
    method Union(p: int, q: int)
      requires Valid() && 0 <= p < size && 0 <= q < size
      modifies this, parent, weight
      ensures Valid()
      ensures links == old(links) + {(p, q)}
      ensures IsMerge(old(root), root, p, q)
    {
      var rootP := Find(p);
      var rootQ := Find(q);
      if rootP == rootQ {
        RecordLink(p, q);
        return;
      }
      if weight[rootP] < weight[rootQ] {
        Attach(rootP, rootQ, p, q);
      } else {
        Attach(rootQ, rootP, p, q);
      }
    }

    /** Records the link `(p, q)` between two members of one set. */
    ghost method RecordLink(p: int, q: int)
      requires Valid() && 0 <= p < size && 0 <= q < size && root[p] == root[q]
      modifies this`links
      ensures Valid() && IsMerge(old(root), root, p, q) && links == old(links) + {(p, q)}
    {
      SameClassExplained(root, links, p, q);
      MergeWithinClass(root, p, q);
      LinksWithinAdd(links, size, p, q);
      links := links + {(p, q)};
    }

    /** Hangs root `child` under root `newRoot`, the two being the roots of
        `p` and `q`, and records the link `(p, q)`. */
    method Attach(child: int, newRoot: int, ghost p: int, ghost q: int)
      requires Valid() && 0 <= p < size && 0 <= q < size
      requires (child == root[p] && newRoot == root[q]) || (child == root[q] && newRoot == root[p])
      requires child != newRoot && parent[child] == child && parent[newRoot] == newRoot
      modifies this, parent, weight
      ensures Valid()
      ensures links == old(links) + {(p, q)}
      ensures IsMerge(old(root), root, p, q)
    {
      ghost var before := parent[..];
      weight[newRoot] := weight[newRoot] + weight[child];
      parent[child] := newRoot;
      rank, root, links := RankAfterAttach(root, rank, child), Rename(root, child, newRoot), links + {(p, q)};
      AttachPreserves(before, old(root), old(rank), old(links), child, newRoot, p, q, parent[..], root, rank);
    }
  }

  /** The shape of a parent forest: every parent link stays in range and inside
      its element's class, a self-parented element is its own class's root with
      rank 0, and rank strictly decreases from child to parent. */
  ghost predicate Forest(parent: seq<int>, root: seq<int>, rank: seq<nat>)
  {
    |parent| == |root| == |rank| &&
    (forall i :: 0 <= i < |parent| ==> 0 <= parent[i] < |parent| && 0 <= root[i] < |parent|) &&
    (forall i {:trigger parent[i]} :: 0 <= i < |parent| ==> root[parent[i]] == root[i]) &&
    (forall i :: 0 <= i < |parent| && parent[i] == i ==> root[i] == i && rank[i] == 0) &&
    (forall i {:trigger parent[i]} :: 0 <= i < |parent| && parent[i] != i ==> rank[parent[i]] < rank[i])
  }

  /** Ranks after hanging root `child` under another root: the whole tree of
      `child` moves one level down. */
  function RankAfterAttach(root: seq<int>, rank: seq<nat>, child: int): seq<nat>
    requires |root| == |rank|
  {
    seq(|rank|, i requires 0 <= i < |rank| => if root[i] == child then rank[i] + 1 else rank[i])
  }

  /** Everything `Attach` needs about the ghost state after hanging root
      `child` under root `newRoot`. */
  lemma AttachPreserves(parent: seq<int>, root: seq<int>, rank: seq<nat>, links: set<(int, int)>,
                        child: int, newRoot: int, p: int, q: int,
                        parent': seq<int>, root': seq<int>, rank': seq<nat>)
    requires Forest(parent, root, rank) && LinksWithin(links, |root|) && Explains(root, links, |root|)
    requires 0 <= p < |root| && 0 <= q < |root|
    requires (child == root[p] && newRoot == root[q]) || (child == root[q] && newRoot == root[p])
    requires child != newRoot && parent[child] == child && parent[newRoot] == newRoot
    requires parent' == parent[child := newRoot] && root' == Rename(root, child, newRoot)
    requires rank' == RankAfterAttach(root, rank, child)
    ensures Forest(parent', root', rank') && |root'| == |root|
    ensures LinksWithin(links + {(p, q)}, |root|)
    ensures Explains(root', links + {(p, q)}, |root|)
    ensures IsMerge(root, root', p, q)
  {
    AttachKeepsForest(parent, root, rank, child, newRoot);
    LinksWithinAdd(links, |root|, p, q);
    MergeExplained(root, links, p, q, child, newRoot);
    RenameMerges(root, p, q, child, newRoot);
  }

  /** Hanging one root under another keeps the forest shape, with the child's
      class relabelled into the new root's. */
  lemma AttachKeepsForest(parent: seq<int>, root: seq<int>, rank: seq<nat>, child: int, newRoot: int)
    requires Forest(parent, root, rank)
    requires 0 <= child < |parent| && 0 <= newRoot < |parent| && child != newRoot
    requires parent[child] == child && parent[newRoot] == newRoot
    ensures Forest(parent[child := newRoot], Rename(root, child, newRoot), RankAfterAttach(root, rank, child))
  {
    var parent', root', rank' := parent[child := newRoot], Rename(root, child, newRoot), RankAfterAttach(root, rank, child);
    assert |parent'| == |root'| == |rank'| == |parent|;
    forall i | 0 <= i < |parent|
      ensures 0 <= parent'[i] < |parent| && 0 <= root'[i] < |parent|
      ensures root'[parent'[i]] == root'[i]
      ensures parent'[i] == i ==> root'[i] == i && rank'[i] == 0
      ensures parent'[i] != i ==> rank'[parent'[i]] < rank'[i]
    {
      assert root'[i] == if root[i] == child then newRoot else root[i];
      assert rank'[i] == if root[i] == child then rank[i] + 1 else rank[i];
      if i == child {
        assert parent'[i] == newRoot;
        assert root[newRoot] == newRoot && root[child] == child && rank[newRoot] == 0;
      } else {
        assert parent'[i] == parent[i];
        assert root[parent[i]] == root[i];
      }
    }
  }

  /** The five-element scenario, first half: after joining 0-1 and 1-2, 0 is
      with 2 and 3 is apart. */
  method UnionScenarioFirstHalf()
  {
    var uf := new WeightedQuickUnion(5);
    ghost var r0 := uf.root;
    uf.Union(0, 1);
    ghost var r1 := uf.root;
    assert r1[0] == r1[1] by { assert Merged(r0, 0, 1, 0, 1); }
    assert r1[1] != r1[3] && r1[2] != r1[3] by { assert !Merged(r0, 0, 1, 1, 3) && !Merged(r0, 0, 1, 2, 3); }
    uf.Union(1, 2);
    assert uf.SameSet(0, 2) by { assert Merged(r1, 1, 2, 0, 2); }
    assert !uf.SameSet(0, 3) by { assert !Merged(r1, 1, 2, 0, 3); }
  }

  /** The five-element scenario, second half: after also joining 3-4 and 2-3,
      all five elements are in one set. */
  method UnionScenarioSecondHalf()
  {
    var uf := new WeightedQuickUnion(5);
    ghost var r0 := uf.root;
    uf.Union(0, 1);
    ghost var r1 := uf.root;
    assert r1[0] == r1[1] by { assert Merged(r0, 0, 1, 0, 1); }
    uf.Union(1, 2);
    ghost var r2 := uf.root;
    assert r2[0] == r2[1] == r2[2] by { assert Merged(r1, 1, 2, 0, 1) && Merged(r1, 1, 2, 0, 2); }
    uf.Union(3, 4);
    ghost var r3 := uf.root;
    assert r3[0] == r3[1] == r3[2] && r3[3] == r3[4] by {
      assert Merged(r2, 3, 4, 0, 1) && Merged(r2, 3, 4, 0, 2) && Merged(r2, 3, 4, 3, 4);
    }
    uf.Union(2, 3);
    assert uf.SameSet(0, 1) && uf.SameSet(0, 2) && uf.SameSet(0, 3) && uf.SameSet(0, 4) by {
      assert Merged(r3, 2, 3, 0, 1) && Merged(r3, 2, 3, 0, 2) && Merged(r3, 2, 3, 0, 3) && Merged(r3, 2, 3, 0, 4);
    }
  }
}
