// Which vertices the flagged edges of a graph join, as evaluateTree needs it:
// a walk of at most d flagged edges, how such walks combine, and why walks of
// vertices - 1 edges reach every vertex any walk reaches.

module Reach {
  import opened Wrappers
  import opened Letters
  import P = Paths
  import G = Graphs
  import T = Trees

  /**
   * x and y are joined by a walk of at most d flagged edges in use: y is x, or a
   * flagged edge in use has y at one end and at its other end a vertex joined to
   * x within d - 1 edges.
   */
  ghost predicate Near(g: G.Graph, flags: seq<bool>, x: int, y: int, d: nat)
    requires G.Valid(g)
    decreases d
  {
    x == y ||
    (d > 0 &&
     exists e :: 0 <= e < g.edges && e < |flags| && flags[e] &&
       ((g.end[e] == y && Near(g, flags, x, g.start[e], d - 1)) ||
        (g.start[e] == y && Near(g, flags, x, g.end[e], d - 1))))
  }

  /** vertices - 1, the most edges a walk needs (0 for a graph without vertices). */
  function Span(g: G.Graph): nat
  {
    if g.vertices > 0 then g.vertices - 1 else 0
  }

  /** Every two vertices are joined by a walk of at most vertices - 1 flagged edges in use. */
  ghost predicate Connected(g: G.Graph, flags: seq<bool>)
    requires G.Valid(g)
  {
    forall x, y :: 0 <= x < g.vertices && 0 <= y < g.vertices ==> Near(g, flags, x, y, Span(g))
  }

  /** Edge e is in use, flagged, and has a and b as its two ends. */
  predicate Joins(g: G.Graph, flags: seq<bool>, e: int, a: int, b: int)
    requires G.Valid(g)
  {
    0 <= e < g.edges && e < |flags| && flags[e] &&
    ((g.start[e] == a && g.end[e] == b) || (g.start[e] == b && g.end[e] == a))
  }

  /** One more edge allowed: what is joined within d is joined within d + 1. */
  lemma {:induction false} NearUp(g: G.Graph, flags: seq<bool>, x: int, y: int, d: nat)
    requires G.Valid(g) && Near(g, flags, x, y, d)
    ensures Near(g, flags, x, y, d + 1)
    decreases d
  {
    if x != y {
      var e :| 0 <= e < g.edges && e < |flags| && flags[e] &&
        ((g.end[e] == y && Near(g, flags, x, g.start[e], d - 1)) ||
         (g.start[e] == y && Near(g, flags, x, g.end[e], d - 1)));
      if g.end[e] == y && Near(g, flags, x, g.start[e], d - 1) {
        NearUp(g, flags, x, g.start[e], d - 1);
      } else {
        NearUp(g, flags, x, g.end[e], d - 1);
      }
    }
  }

  /** What is joined within d is joined within any larger bound. */
  lemma {:induction false} NearMono(g: G.Graph, flags: seq<bool>, x: int, y: int, d: nat, d': nat)
    requires G.Valid(g) && d <= d' && Near(g, flags, x, y, d)
    ensures Near(g, flags, x, y, d')
    decreases d' - d
  {
    if d < d' {
      NearUp(g, flags, x, y, d);
      NearMono(g, flags, x, y, d + 1, d');
    }
  }

  /** A flagged edge from x' to x in front of a walk from x to y: a walk from x' to y, one edge longer. */
  lemma {:induction false} NearPrepend(g: G.Graph, flags: seq<bool>, e: int, x': int, x: int, y: int, d: nat)
    requires G.Valid(g) && Joins(g, flags, e, x', x) && Near(g, flags, x, y, d)
    ensures Near(g, flags, x', y, d + 1)
    decreases d
  {
    if x == y {
      assert Near(g, flags, x', x', 0);
    } else {
      var f :| 0 <= f < g.edges && f < |flags| && flags[f] &&
        ((g.end[f] == y && Near(g, flags, x, g.start[f], d - 1)) ||
         (g.start[f] == y && Near(g, flags, x, g.end[f], d - 1)));
      if g.end[f] == y && Near(g, flags, x, g.start[f], d - 1) {
        NearPrepend(g, flags, e, x', x, g.start[f], d - 1);
      } else {
        NearPrepend(g, flags, e, x', x, g.end[f], d - 1);
      }
    }
  }

  /** The edges join both ways: a walk from x to y run backwards goes from y to x. */
  lemma {:induction false} NearSym(g: G.Graph, flags: seq<bool>, x: int, y: int, d: nat)
    requires G.Valid(g) && Near(g, flags, x, y, d)
    ensures Near(g, flags, y, x, d)
    decreases d
  {
    if x != y {
      var e :| 0 <= e < g.edges && e < |flags| && flags[e] &&
        ((g.end[e] == y && Near(g, flags, x, g.start[e], d - 1)) ||
         (g.start[e] == y && Near(g, flags, x, g.end[e], d - 1)));
      if g.end[e] == y && Near(g, flags, x, g.start[e], d - 1) {
        NearSym(g, flags, x, g.start[e], d - 1);
        NearPrepend(g, flags, e, y, g.start[e], x, d - 1);
      } else {
        NearSym(g, flags, x, g.end[e], d - 1);
        NearPrepend(g, flags, e, y, g.end[e], x, d - 1);
      }
    }
  }

  /** A path from x to y along flagged edges in use is a walk of |p| edges. */
  lemma {:induction false} WalkNear(g: G.Graph, flags: seq<bool>, p: P.Path, x: int, y: int)
    requires G.Valid(g) && |flags| <= g.edges && G.EndOf(g, p, x) == Some(y) && T.LettersIn(p, flags)
    ensures Near(g, flags, x, y, |p|)
    decreases |p|
  {
    if p != [] {
      var c := p[0];
      var z := G.LastVertex(g, c).value;
      assert T.LettersIn(p[1..], flags) by {
        forall i | 0 <= i < |p[1..]| ensures p[1..][i].index < |flags| && flags[p[1..][i].index] {
          assert p[1..][i] == p[i + 1];
        }
      }
      WalkNear(g, flags, p[1..], z, y);
      assert c.index < |flags| && flags[c.index];
      assert Joins(g, flags, c.index, x, z);
      NearPrepend(g, flags, c.index, x, z, y, |p| - 1);
    }
  }

  // ---- walks of vertices - 1 edges are enough ----

  /** The vertices joined to x within d edges. */
  ghost function Ball(g: G.Graph, flags: seq<bool>, x: int, d: nat): set<int>
    requires G.Valid(g)
  {
    set y | 0 <= y < g.vertices && Near(g, flags, x, y, d)
  }

  /** One more edge reaches no vertex that d edges do not. */
  ghost predicate Still(g: G.Graph, flags: seq<bool>, x: int, d: nat)
    requires G.Valid(g)
  {
    forall y :: 0 <= y < g.vertices && Near(g, flags, x, y, d + 1) ==> Near(g, flags, x, y, d)
  }

  /** Once one more edge reaches nothing new, no number of edges does. */
  lemma {:induction false} StillForever(g: G.Graph, flags: seq<bool>, x: int, y: int, d: nat, d': nat)
    requires G.Valid(g) && G.EndpointsOK(g) && Still(g, flags, x, d) && d <= d'
    requires 0 <= y < g.vertices && Near(g, flags, x, y, d')
    ensures Near(g, flags, x, y, d)
    decreases d'
  {
    if d < d' && x != y {
      var e :| 0 <= e < g.edges && e < |flags| && flags[e] &&
        ((g.end[e] == y && Near(g, flags, x, g.start[e], d' - 1)) ||
         (g.start[e] == y && Near(g, flags, x, g.end[e], d' - 1)));
      var z := if g.end[e] == y && Near(g, flags, x, g.start[e], d' - 1) then g.start[e] else g.end[e];
      if d < d' - 1 {
        StillForever(g, flags, x, z, d, d' - 1);
      }
      assert Near(g, flags, x, y, d + 1);
    }
  }

  /** Cardinality of a subset. */
  lemma SubsetCard(a: set<int>, b: set<int>)
    requires a <= b
    ensures |a| <= |b|
  {
    assert b == a + (b - a);
    assert |b| == |a| + |b - a|;
  }

  /** The numbers from 0 below n. */
  function Range(n: nat): (r: set<int>)
    ensures |r| == n
    ensures forall z :: z in r <==> 0 <= z < n
  {
    if n == 0 then {} else Range(n - 1) + {n - 1}
  }

  /** Within d edges x reaches more than d vertices, or the reach has stopped growing by then. */
  lemma {:induction false} BallGrows(g: G.Graph, flags: seq<bool>, x: int, d: nat)
    requires G.Valid(g) && G.EndpointsOK(g) && 0 <= x < g.vertices
    ensures |Ball(g, flags, x, d)| > d || exists d0: nat :: d0 <= d && Still(g, flags, x, d0)
  {
    if d == 0 {
      assert x in Ball(g, flags, x, 0);
    } else {
      BallGrows(g, flags, x, d - 1);
      if |Ball(g, flags, x, d - 1)| > d - 1 && !Still(g, flags, x, d - 1) {
        var y :| 0 <= y < g.vertices && Near(g, flags, x, y, d) && !Near(g, flags, x, y, d - 1);
        var a := Ball(g, flags, x, d - 1);
        forall z | z in a ensures z in Ball(g, flags, x, d) {
          NearUp(g, flags, x, z, d - 1);
        }
        SubsetCard(a + {y}, Ball(g, flags, x, d));
      }
    }
  }

  /** Whatever x reaches, it reaches within vertices - 1 edges. */
  lemma NearSaturates(g: G.Graph, flags: seq<bool>, x: int, y: int, d: nat)
    requires G.Valid(g) && G.EndpointsOK(g) && 0 <= x < g.vertices && 0 <= y < g.vertices
    requires Near(g, flags, x, y, d)
    ensures Near(g, flags, x, y, Span(g))
  {
    var n := Span(g);
    BallGrows(g, flags, x, n);
    if |Ball(g, flags, x, n)| > n {
      if !Near(g, flags, x, y, n) {
        SubsetCard(Ball(g, flags, x, n), Range(g.vertices) - {y});
      }
    } else {
      var d0: nat :| d0 <= n && Still(g, flags, x, d0);
      if d <= n {
        NearMono(g, flags, x, y, d, n);
      } else {
        StillForever(g, flags, x, y, d0, d);
        NearMono(g, flags, x, y, d0, n);
      }
    }
  }

  /** Any path along flagged edges in use joins its ends within vertices - 1 edges. */
  lemma WalkConnects(g: G.Graph, flags: seq<bool>, p: P.Path, x: int, y: int)
    requires G.Valid(g) && G.EndpointsOK(g) && 0 <= x < g.vertices && 0 <= y < g.vertices
    requires |flags| <= g.edges && G.EndOf(g, p, x) == Some(y) && T.LettersIn(p, flags)
    ensures Near(g, flags, x, y, Span(g))
  {
    WalkNear(g, flags, p, x, y);
    NearSaturates(g, flags, x, y, |p|);
  }

  // ---- the table of paths evaluateTree fills ----

  /** Every two distinct vertices joined within d edges have a non-empty entry in path. */
  ghost predicate Filled(g: G.Graph, path: array2<P.Path>, flags: seq<bool>, d: nat)
    requires G.Valid(g)
    reads path
  {
    forall x, y :: 0 <= x < path.Length0 && 0 <= y < path.Length1 && x != y && Near(g, flags, x, y, d) ==>
      path[x, y] != []
  }

  /**
   * A pair i, j joined within d but not within d - 1 edges has a vertex k between:
   * joined to i within d - 1 edges and to j by one edge, so both entries are there
   * once every pair within d - 1 edges is.
   */
  lemma Between(g: G.Graph, path: array2<P.Path>, flags: seq<bool>, d: nat, i: int, j: int)
    requires G.Valid(g) && G.EndpointsOK(g) && path.Length0 == path.Length1 == g.vertices
    requires 2 <= d && Filled(g, path, flags, d - 1)
    requires 0 <= i < g.vertices && 0 <= j < g.vertices && i != j && Near(g, flags, i, j, d) && path[i, j] == []
    ensures exists k :: 0 <= k < g.vertices && path[i, k] != [] && path[k, j] != []
  {
    var e :| 0 <= e < g.edges && e < |flags| && flags[e] &&
      ((g.end[e] == j && Near(g, flags, i, g.start[e], d - 1)) ||
       (g.start[e] == j && Near(g, flags, i, g.end[e], d - 1)));
    var k := if g.end[e] == j && Near(g, flags, i, g.start[e], d - 1) then g.start[e] else g.end[e];
    assert Near(g, flags, k, j, 1) by {
      assert Near(g, flags, k, k, 0);
    }
    NearMono(g, flags, k, j, 1, d - 1);
    if k == i {
      assert false;
    }
    if k == j {
      assert false;
    }
    assert path[i, k] != [] && path[k, j] != [];
  }
}
