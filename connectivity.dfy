/** Undirected reachability over a set of links between integer identifiers.

    This is the abstract meaning of a union-find forest: two identifiers are in
    the same set exactly when a chain of union calls joins them. */
module Connectivity {

  /** `x` and `y` are joined by one link, in either direction. */
  predicate Linked(links: set<(int, int)>, x: int, y: int)
  {
    (x, y) in links || (y, x) in links
  }

  /** Consecutive elements of `p` are linked. */
  predicate IsPath(links: set<(int, int)>, p: seq<int>)
  {
    forall i :: 0 <= i < |p| - 1 ==> Linked(links, p[i], p[i + 1])
  }

  /** Some path of links leads from `x` to `y`. */
  ghost predicate Reach(links: set<(int, int)>, x: int, y: int)
  {
    exists p :: IsPath(links, p) && |p| > 0 && p[0] == x && p[|p| - 1] == y
  }

  /** Every link has both ends in `0..size-1`. */
  predicate LinksWithin(links: set<(int, int)>, size: int)
  {
    forall l :: l in links ==> 0 <= l.0 < size && 0 <= l.1 < size
  }

  /** The classes of the labelling `root` over `0..size-1` are exactly the
      connected components of `links`. */
  ghost predicate Explains(root: seq<int>, links: set<(int, int)>, size: nat)
    requires |root| == size
  {
    forall x, y {:trigger Reach(links, x, y)} :: 0 <= x < size && 0 <= y < size ==> (root[x] == root[y] <==> Reach(links, x, y))
  }

  /** Relabels every element of class `from` into class `to`. */
  function Rename(root: seq<int>, from: int, to: int): seq<int>
  {
    seq(|root|, i requires 0 <= i < |root| => if root[i] == from then to else root[i])
  }

  /** After merging the classes of `p` and `q`, `x` and `y` are together exactly
      when they were together before, or one was with `p` and the other with `q`. */
  predicate Merged(root: seq<int>, p: int, q: int, x: int, y: int)
    requires 0 <= p < |root| && 0 <= q < |root| && 0 <= x < |root| && 0 <= y < |root|
  {
    root[x] == root[y]
    || (root[x] == root[p] && root[y] == root[q])
    || (root[x] == root[q] && root[y] == root[p])
  }

  /** `after` labels the classes of `before` with those of `p` and `q` merged
      and every other class left as it was. */
  ghost predicate IsMerge(before: seq<int>, after: seq<int>, p: int, q: int)
    requires 0 <= p < |before| && 0 <= q < |before|
  {
    |after| == |before| &&
    forall x, y :: 0 <= x < |before| && 0 <= y < |before| ==> (after[x] == after[y] <==> Merged(before, p, q, x, y))
  }

  /** A link with both ends in range keeps every link in range. */
  lemma LinksWithinAdd(links: set<(int, int)>, size: int, p: int, q: int)
    requires LinksWithin(links, size) && 0 <= p < size && 0 <= q < size
    ensures LinksWithin(links + {(p, q)}, size)
  {
    forall l | l in links + {(p, q)}
      ensures 0 <= l.0 < size && 0 <= l.1 < size
    {
      if l != (p, q) {
        assert l in links;
      }
    }
  }

  lemma ReachRefl(links: set<(int, int)>, x: int)
    ensures Reach(links, x, x)
  {
    assert IsPath(links, [x]);
  }

  lemma ReachLink(links: set<(int, int)>, x: int, y: int)
    requires Linked(links, x, y)
    ensures Reach(links, x, y)
  {
    assert IsPath(links, [x, y]);
  }

  lemma ReachTrans(links: set<(int, int)>, x: int, y: int, z: int)
    requires Reach(links, x, y) && Reach(links, y, z)
    ensures Reach(links, x, z)
  {
    var p :| IsPath(links, p) && |p| > 0 && p[0] == x && p[|p| - 1] == y;
    var q :| IsPath(links, q) && |q| > 0 && q[0] == y && q[|q| - 1] == z;
    var r := p + q[1..];
    forall i | 0 <= i < |r| - 1
      ensures Linked(links, r[i], r[i + 1])
    {
      if i < |p| - 1 {
        assert r[i] == p[i] && r[i + 1] == p[i + 1];
      } else {
        assert r[i] == q[i - |p| + 1] && r[i + 1] == q[i - |p| + 2];
      }
    }
    assert IsPath(links, r) && r[0] == x && r[|r| - 1] == z;
  }

  lemma ReachSym(links: set<(int, int)>, x: int, y: int)
    requires Reach(links, x, y)
    ensures Reach(links, y, x)
  {
    var p :| IsPath(links, p) && |p| > 0 && p[0] == x && p[|p| - 1] == y;
    var r := seq(|p|, i requires 0 <= i < |p| => p[|p| - 1 - i]);
    forall i | 0 <= i < |r| - 1
      ensures Linked(links, r[i], r[i + 1])
    {
      assert r[i] == p[|p| - 1 - i] && r[i + 1] == p[|p| - 2 - i];
      assert Linked(links, p[|p| - 2 - i], p[|p| - 1 - i]);
    }
    assert IsPath(links, r) && r[0] == y && r[|r| - 1] == x;
  }

  /** Adding links never disconnects anything. */
  lemma ReachMono(links: set<(int, int)>, more: set<(int, int)>, x: int, y: int)
    requires links <= more && Reach(links, x, y)
    ensures Reach(more, x, y)
  {
    var p :| IsPath(links, p) && |p| > 0 && p[0] == x && p[|p| - 1] == y;
    assert IsPath(more, p);
  }

  /** Without links every element is reachable only from itself. */
  lemma {:induction false} ReachNoLinks(x: int, y: int)
    requires Reach({}, x, y)
    ensures x == y
  {
    var p :| IsPath({}, p) && |p| > 0 && p[0] == x && p[|p| - 1] == y;
    assert |p| > 1 ==> Linked({}, p[0], p[1]);
  }

  /** A path whose every link stays inside one class of `root` stays inside the
      class it starts in. */
  lemma {:induction false} PathWithinClass(root: seq<int>, links: set<(int, int)>, p: seq<int>)
    requires forall x, y :: Linked(links, x, y) ==> 0 <= x < |root| && 0 <= y < |root| && root[x] == root[y]
    requires IsPath(links, p) && |p| > 0 && 0 <= p[0] < |root|
    ensures 0 <= p[|p| - 1] < |root| && root[p[0]] == root[p[|p| - 1]]
  {
    if |p| > 1 {
      var q := p[..|p| - 1];
      assert IsPath(links, q) by {
        forall i | 0 <= i < |q| - 1 ensures Linked(links, q[i], q[i + 1]) {
          assert q[i] == p[i] && q[i + 1] == p[i + 1];
        }
      }
      PathWithinClass(root, links, q);
      assert Linked(links, p[|p| - 2], p[|p| - 1]);
    }
  }

  /** The empty link set explains the labelling in which every element is alone. */
  lemma SingletonsExplained(size: nat)
    ensures Explains(seq(size, i => i), {}, size)
  {
    var root := seq(size, i => i);
    forall x, y | 0 <= x < size && 0 <= y < size
      ensures root[x] == root[y] <==> Reach({}, x, y)
    {
      if x == y {
        ReachRefl({}, x);
      }
      if Reach({}, x, y) {
        ReachNoLinks(x, y);
      }
    }
  }

  /** Merging the classes of `a` and `b` (relabelling one root into the other)
      is explained by the old links plus the link `(a, b)`. */
  lemma MergeExplained(root: seq<int>, links: set<(int, int)>, a: int, b: int, from: int, to: int)
    requires 0 <= a < |root| && 0 <= b < |root|
    requires LinksWithin(links, |root|) && Explains(root, links, |root|)
    requires (from == root[a] && to == root[b]) || (from == root[b] && to == root[a])
    ensures Explains(Rename(root, from, to), links + {(a, b)}, |root|)
  {
    var size := |root|;
    var root' := Rename(root, from, to);
    var links' := links + {(a, b)};
    forall x, y | Linked(links', x, y)
      ensures 0 <= x < size && 0 <= y < size && root'[x] == root'[y]
    {
      if Linked(links, x, y) {
        ReachLink(links, x, y);
      }
    }
    forall x, y | 0 <= x < size && 0 <= y < size
      ensures root'[x] == root'[y] <==> Reach(links', x, y)
    {
      if Reach(links', x, y) {
        var p :| IsPath(links', p) && |p| > 0 && p[0] == x && p[|p| - 1] == y;
        PathWithinClass(root', links', p);
      }
      if root'[x] == root'[y] {
        if root[x] == root[y] {
          ReachMono(links, links', x, y);
        } else {
          ReachLink(links', a, b);
          if root[x] == root[a] {
            assert root[y] == root[b];
            ReachMono(links, links', x, a);
            ReachMono(links, links', b, y);
            ReachTrans(links', x, a, b);
            ReachTrans(links', x, b, y);
          } else {
            assert root[x] == root[b] && root[y] == root[a];
            ReachSym(links', a, b);
            ReachMono(links, links', x, b);
            ReachMono(links, links', a, y);
            ReachTrans(links', x, b, a);
            ReachTrans(links', x, a, y);
          }
        }
      }
    }
  }

  /** A link inside one class leaves the classes explained. */
  lemma SameClassExplained(root: seq<int>, links: set<(int, int)>, a: int, b: int)
    requires 0 <= a < |root| && 0 <= b < |root| && root[a] == root[b]
    requires LinksWithin(links, |root|) && Explains(root, links, |root|)
    ensures Explains(root, links + {(a, b)}, |root|)
  {
    MergeExplained(root, links, a, b, root[a], root[b]);
    assert Rename(root, root[a], root[b]) == root;
  }

  /** The relabelling used to merge two classes is the merge of their members. */
  lemma RenameMerges(root: seq<int>, a: int, b: int, from: int, to: int)
    requires 0 <= a < |root| && 0 <= b < |root|
    requires (from == root[a] && to == root[b]) || (from == root[b] && to == root[a])
    ensures IsMerge(root, Rename(root, from, to), a, b)
  {
  }

  /** Merging two members of one class changes nothing. */
  lemma MergeWithinClass(root: seq<int>, a: int, b: int)
    requires 0 <= a < |root| && 0 <= b < |root| && root[a] == root[b]
    ensures IsMerge(root, root, a, b)
  {
  }
}
