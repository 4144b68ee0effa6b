/**
 * The binary mask and its 4-connected components.
 *
 * A mask is a `bool[,]` indexed [x, y]; its foreground is the set of in-bounds
 * cells that are true. A component is everything reachable from a seed cell by
 * a path of 4-adjacent foreground cells.
 */
module Connectivity {
  import opened Geometry

  predicate InBounds(a: array2<bool>, c: Coord) {
    0 <= c.x < a.Length0 && 0 <= c.y < a.Length1
  }

  /** Every cell of a w-by-h grid. */
  function Grid(w: int, h: int): set<Coord> {
    set x, y | 0 <= x < w && 0 <= y < h :: Coord(x, y)
  }

  /** The foreground cells of the mask, as a set of coordinates. */
  ghost function Foreground(a: array2<bool>): (f: set<Coord>)
    reads a
    ensures forall c {:trigger c in f} :: c in f <==> InBounds(a, c) && a[c.x, c.y]
  {
    set c | c in Grid(a.Length0, a.Length1) && a[c.x, c.y]
  }

  /** A non-empty walk through f in which consecutive cells are 4-adjacent. */
  ghost predicate IsPath(f: set<Coord>, p: seq<Coord>) {
    && |p| > 0
    && (forall i :: 0 <= i < |p| ==> p[i] in f)
    && (forall i :: 0 <= i < |p| - 1 ==> Adjacent(p[i], p[i + 1]))
  }

  ghost predicate Reachable(f: set<Coord>, s: Coord, c: Coord) {
    exists p {:trigger IsPath(f, p)} :: IsPath(f, p) && p[0] == s && p[|p| - 1] == c
  }

  /** The 4-connected component of s in f (empty when s is not in f). */
  ghost function Component(f: set<Coord>, s: Coord): set<Coord> {
    set c | c in f && Reachable(f, s, c)
  }

  /** r is a subset of f that no 4-adjacency of f leaves. */
  ghost predicate Closed(f: set<Coord>, r: set<Coord>) {
    && r <= f
    && forall c, d :: c in r && d in f && Adjacent(c, d) ==> d in r
  }

  lemma ReachableSelf(f: set<Coord>, s: Coord)
    requires s in f
    ensures Reachable(f, s, s)
  {
    assert IsPath(f, [s]);
  }

  /** Reachability extends by one adjacent foreground cell. */
  lemma ReachableStep(f: set<Coord>, s: Coord, c: Coord, d: Coord)
    requires Reachable(f, s, c) && d in f && Adjacent(c, d)
    ensures Reachable(f, s, d)
  {
    var p :| IsPath(f, p) && p[0] == s && p[|p| - 1] == c;
    var p' := p + [d];
    assert IsPath(f, p');
  }

  /** Reachability is symmetric: a path walked backwards is a path. */
  lemma ReachableSymmetric(f: set<Coord>, s: Coord, c: Coord)
    requires Reachable(f, s, c)
    ensures Reachable(f, c, s)
  {
    var p :| IsPath(f, p) && p[0] == s && p[|p| - 1] == c;
    var r := seq(|p|, i requires 0 <= i < |p| => p[|p| - 1 - i]);
    forall i | 0 <= i < |r| - 1
      ensures Adjacent(r[i], r[i + 1])
    {
      assert Adjacent(p[|p| - 2 - i], p[|p| - 1 - i]);
    }
    assert IsPath(f, r);
  }

  /** Reachability is transitive: two paths that meet join into one. */
  lemma ReachableTransitive(f: set<Coord>, s: Coord, c: Coord, d: Coord)
    requires Reachable(f, s, c) && Reachable(f, c, d)
    ensures Reachable(f, s, d)
  {
    var p :| IsPath(f, p) && p[0] == s && p[|p| - 1] == c;
    var q :| IsPath(f, q) && q[0] == c && q[|q| - 1] == d;
    var r := p + q[1..];
    forall i | 0 <= i < |r| - 1
      ensures Adjacent(r[i], r[i + 1])
    {
      if i < |p| - 1 {
        assert r[i] == p[i] && r[i + 1] == p[i + 1];
      } else {
        assert r[i] == q[i - |p| + 1] && r[i + 1] == q[i - |p| + 2];
      }
    }
    assert IsPath(f, r);
  }

  /** No 4-neighbour of c is in f. */
  predicate Isolated(f: set<Coord>, c: Coord) {
    West(c) !in f && East(c) !in f && North(c) !in f && South(c) !in f
  }

  /** A cell of f is isolated exactly when its component is the cell alone. */
  lemma IsolatedComponent(f: set<Coord>, s: Coord)
    requires s in f
    ensures Isolated(f, s) <==> Component(f, s) == {s}
  {
    ComponentClosed(f, s);
    if Isolated(f, s) {
      ClosedContainsComponent(f, {s}, s);
    } else {
      var n :| n in f && Adjacent(s, n);
      assert n in Component(f, s) && n != s;
    }
  }

  /** Every cell of a component has that same component. */
  lemma SameComponent(f: set<Coord>, s: Coord, c: Coord)
    requires c in Component(f, s)
    ensures Component(f, c) == Component(f, s)
  {
    ReachableSymmetric(f, s, c);
    forall d | d in Component(f, c)
      ensures d in Component(f, s)
    {
      ReachableTransitive(f, s, c, d);
    }
    forall d | d in Component(f, s)
      ensures d in Component(f, c)
    {
      ReachableTransitive(f, c, s, d);
    }
  }

  /**
   * Two components are the same or share no cell: a seed outside the
   * component of another seed has a component disjoint from it.
   */
  lemma ComponentsDisjoint(f: set<Coord>, s: Coord, t: Coord)
    requires t !in Component(f, s)
    ensures Component(f, s) !! Component(f, t)
  {
    if c :| c in Component(f, s) && c in Component(f, t) {
      ReachableSymmetric(f, t, c);
      ReachableTransitive(f, s, c, t);
    }
  }

  lemma {:induction false} PathStaysIn(f: set<Coord>, r: set<Coord>, p: seq<Coord>)
    requires IsPath(f, p) && p[0] in r && Closed(f, r)
    ensures forall i :: 0 <= i < |p| ==> p[i] in r
  {
    if |p| > 1 {
      var q := p[..|p| - 1];
      assert IsPath(f, q);
      PathStaysIn(f, r, q);
      assert p[|p| - 2] == q[|q| - 1];
    }
  }

  /** A closed set that holds the seed holds the whole component of the seed. */
  lemma ClosedContainsComponent(f: set<Coord>, r: set<Coord>, s: Coord)
    requires s in r && Closed(f, r)
    ensures Component(f, s) <= r
  {
    forall c | c in Component(f, s)
      ensures c in r
    {
      var p :| IsPath(f, p) && p[0] == s && p[|p| - 1] == c;
      PathStaysIn(f, r, p);
    }
  }

  /** A component is closed in its own foreground and holds its seed. */
  lemma ComponentClosed(f: set<Coord>, s: Coord)
    requires s in f
    ensures s in Component(f, s)
    ensures Closed(f, Component(f, s))
  {
    ReachableSelf(f, s);
    forall c, d | c in Component(f, s) && d in f && Adjacent(c, d)
      ensures d in Component(f, s)
    {
      ReachableStep(f, s, c, d);
    }
  }

  lemma ClosedSelf(f: set<Coord>)
    ensures Closed(f, f)
  {
  }

  /**
   * Taking components out of f0 does not change the component of a seed that
   * is left: g is f0 minus whole components exactly when g is closed in f0.
   */
  lemma ComponentOfClosedPart(f0: set<Coord>, g: set<Coord>, s: Coord)
    requires Closed(f0, g) && s in g
    ensures Component(g, s) == Component(f0, s)
  {
    forall c | c in Component(g, s)
      ensures c in Component(f0, s)
    {
      var p :| IsPath(g, p) && p[0] == s && p[|p| - 1] == c;
      assert IsPath(f0, p);
    }
    ComponentClosed(g, s);
    assert Closed(f0, Component(g, s)) by {
      forall c, d | c in Component(g, s) && d in f0 && Adjacent(c, d)
        ensures d in Component(g, s)
      {
        assert d in g;
      }
    }
    ClosedContainsComponent(f0, Component(g, s), s);
  }

  /** Removing the component of s from a closed part leaves a closed part. */
  lemma RemoveComponentClosed(f0: set<Coord>, g: set<Coord>, s: Coord)
    requires Closed(f0, g) && s in g
    ensures Closed(f0, g - Component(g, s))
  {
    ComponentClosed(g, s);
    forall c, d | c in g - Component(g, s) && d in f0 && Adjacent(c, d)
      ensures d in g - Component(g, s)
    {
      assert d in g;
      assert Adjacent(d, c);
    }
  }
}
