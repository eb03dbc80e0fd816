/**
 * The bookkeeping half of TrainTrack.java that looks at the graph as a whole: the
 * transition matrix, the valences of the vertices, the valence-one and valence-two
 * homotopies, and tightenPlus. The train track object is a GraphMap; its methods
 * here are module-level methods on one.
 */
module Homotopies {
  import opened Wrappers
  import opened Letters
  import P = Paths
  import G = Graphs
  import opened IntMatrices
  import opened IntVectors
  import GM = GraphMaps

  /** Every letter of the image of an edge in use is an edge in use. */
  predicate ImagesWithin(g: G.Graph)
    requires G.Valid(g)
  {
    forall j :: 0 <= j < g.edges ==> P.LettersBelow(g.im[j], g.edges)
  }

  // ---- the transition matrix ----

  /** The number of letters of edge k, in either orientation, among the first n letters of w. */
  function Occurrences(w: P.Path, k: int, n: nat): (c: nat)
    requires n <= |w|
    ensures c <= n
  {
    if n == 0 then 0 else Occurrences(w, k, n - 1) + (if w[n - 1].index == k then 1 else 0)
  }

  /** The transition matrix: entry [k][j] counts the letters of edge k in the image of edge j. */
  function Transition(g: G.Graph): (m: Mat)
    requires G.Valid(g)
    ensures Square(m, g.edges) && Nonneg(m)
  {
    seq(g.edges, k => seq(g.edges, j requires 0 <= j < g.edges => Occurrences(g.im[j], k, |g.im[j]|)))
  }

  /** The sum of the first n entries of column j. */
  function ColumnSum(m: Mat, j: nat, n: nat): int
    requires n <= |m| && forall k :: 0 <= k < |m| ==> j < |m[k]|
  {
    if n == 0 then 0 else ColumnSum(m, j, n - 1) + m[n - 1][j]
  }

  /** The counts of letters of edges 0..K-1 among the first n letters of w. */
  function CountsBelow(w: P.Path, kk: nat, n: nat): nat
    requires n <= |w|
  {
    if kk == 0 then 0 else CountsBelow(w, kk - 1, n) + Occurrences(w, kk - 1, n)
  }

  /** The indicator of a letter of edge x, summed over the edges below K. */
  lemma {:induction false} IndicatorSum(w: P.Path, kk: nat, n: nat)
    requires 0 < n <= |w|
    ensures CountsBelow(w, kk, n) == CountsBelow(w, kk, n - 1) + (if w[n - 1].index < kk then 1 else 0)
  {
    if kk > 0 {
      IndicatorSum(w, kk - 1, n);
    }
  }

  /** Counting the letters of every edge below K counts every letter, when all letters are below K. */
  lemma {:induction false} CountsBelowAll(w: P.Path, kk: nat, n: nat)
    requires n <= |w| && P.LettersBelow(w, kk)
    ensures CountsBelow(w, kk, n) == n
  {
    if n == 0 {
      CountsBelowZero(w, kk);
    } else {
      CountsBelowAll(w, kk, n - 1);
      IndicatorSum(w, kk, n);
    }
  }

  lemma {:induction false} CountsBelowZero(w: P.Path, kk: nat)
    ensures CountsBelow(w, kk, 0) == 0
  {
    if kk > 0 {
      CountsBelowZero(w, kk - 1);
    }
  }

  /** Column j of the transition matrix counts the letters of the image of j. */
  lemma {:induction false} ColumnSumCounts(g: G.Graph, j: nat, n: nat)
    requires G.Valid(g) && j < g.edges && n <= g.edges
    ensures ColumnSum(Transition(g), j, n) == CountsBelow(g.im[j], n, |g.im[j]|)
  {
    if n > 0 {
      ColumnSumCounts(g, j, n - 1);
    }
  }

  /** Every column of the transition matrix sums to the length of the image of its edge. */
  lemma TransitionColumns(g: G.Graph, j: nat)
    requires G.Valid(g) && ImagesWithin(g) && j < g.edges
    ensures ColumnSum(Transition(g), j, g.edges) == |g.im[j]|
  {
    ColumnSumCounts(g, j, g.edges);
    CountsBelowAll(g.im[j], g.edges, |g.im[j]|);
  }

  /** updateTransitionMatrix for column j: every letter of the image of j adds one to its row. */
  method CountColumn(g: GM.GraphMap, c: array2<int>, j: nat)
    requires g.Valid() && ImagesWithin(g.State()) && j < g.edges
    requires g.edges <= c.Length0 && g.edges <= c.Length1
    requires forall r :: 0 <= r < g.edges ==> c[r, j] == 0
    modifies c
    ensures forall r :: 0 <= r < g.edges ==> c[r, j] == Transition(g.State())[r][j]
    ensures forall r, q :: 0 <= r < g.edges && 0 <= q < g.edges && q != j ==> c[r, q] == old(c[r, q])
  {
    var w := g.im[j];
    var k := 0;
    while k < |w|
      invariant 0 <= k <= |w|
      invariant forall r :: 0 <= r < g.edges ==> c[r, j] == Occurrences(w, r, k)
      invariant forall r, q :: 0 <= r < g.edges && 0 <= q < g.edges && q != j ==> c[r, q] == old(c[r, q])
    {
      var x := w[k].index;
      c[x, j] := c[x, j] + 1;
      k := k + 1;
    }
  }

  /**
   * transitionMatrix (updateTransitionMatrix and a copy): a fresh matrix whose entry
   * [k][j] counts the letters of edge k in the image of edge j.
   */
  method TransitionMatrix(g: GM.GraphMap) returns (m: IntMatrix)
    requires g.Valid() && ImagesWithin(g.State())
    ensures fresh(m) && fresh(m.a) && m.Valid() && m.n == g.edges && m.Entries() == Transition(g.State())
  {
    ghost var t := Transition(g.State());
    var n := g.edges;
    m := new IntMatrix(n);
    var c := m.a;
    m.RowsAt(n);
    var j := 0;
    while j < n
      invariant 0 <= j <= n && m.Valid() && m.n == n && m.a == c && fresh(m) && fresh(c)
      invariant n <= c.Length0 && n <= c.Length1
      invariant forall r, q :: 0 <= r < n && 0 <= q < n ==> c[r, q] == if q < j then t[r][q] else 0
    {
      CountColumn(g, c, j);
      j := j + 1;
    }
    m.RowsAt(n);
    assert forall r :: 0 <= r < n ==> m.Entries()[r] == t[r];
  }

  /** isIrreducible of a train track: the irreducibility of its transition matrix. */
  method IsIrreducible(g: GM.GraphMap) returns (b: bool)
    requires g.Valid() && ImagesWithin(g.State())
    ensures b == Irreducible(Transition(g.State()), g.edges)
  {
    var m := TransitionMatrix(g);
    b := m.IsIrreducible();
  }

  // ---- valences ----

  /** The valence of every vertex: the number of edge ends at it, a loop counting twice. */
  function Valences(g: G.Graph): (val: seq<int>)
    requires G.Valid(g) && g.vertices >= 0
    ensures |val| == g.vertices
  {
    seq(g.vertices, x => G.Valence(g, x, g.edges))
  }

  /** The sum over the vertices below n of the valence among the first k edges. */
  function ValenceSum(g: G.Graph, n: nat, k: nat): nat
    requires G.Valid(g) && k <= g.edges
  {
    if n == 0 then 0 else ValenceSum(g, n - 1, k) + G.Valence(g, n - 1, k)
  }

  /** The indicator of vertex a summed over the vertices below n. */
  function Hits(a: int, n: nat): nat
  {
    if n == 0 then 0 else Hits(a, n - 1) + (if a == n - 1 then 1 else 0)
  }

  lemma {:induction false} HitsOnce(a: int, n: nat)
    ensures Hits(a, n) == if 0 <= a < n then 1 else 0
  {
    if n > 0 {
      HitsOnce(a, n - 1);
    }
  }

  /** Adding edge k - 1 adds its two ends to the valence sum. */
  lemma {:induction false} ValenceSumStep(g: G.Graph, n: nat, k: nat)
    requires G.Valid(g) && 0 < k <= g.edges
    ensures ValenceSum(g, n, k) == ValenceSum(g, n, k - 1) + Hits(g.start[k - 1], n) + Hits(g.end[k - 1], n)
  {
    if n > 0 {
      ValenceSumStep(g, n - 1, k);
    }
  }

  lemma {:induction false} ValenceSumEmpty(g: G.Graph, n: nat)
    requires G.Valid(g)
    ensures ValenceSum(g, n, 0) == 0
  {
    if n > 0 {
      ValenceSumEmpty(g, n - 1);
    }
  }

  /** The handshake count over the first k edges: every edge has two ends at vertices. */
  lemma {:induction false} HandshakeUpTo(g: G.Graph, k: nat)
    requires G.Valid(g) && G.EndpointsOK(g) && k <= g.edges && g.vertices >= 0
    ensures ValenceSum(g, g.vertices, k) == 2 * k
  {
    if k == 0 {
      ValenceSumEmpty(g, g.vertices);
    } else {
      HandshakeUpTo(g, k - 1);
      ValenceSumStep(g, g.vertices, k);
      HitsOnce(g.start[k - 1], g.vertices);
      HitsOnce(g.end[k - 1], g.vertices);
    }
  }

  lemma {:induction false} TotalValences(g: G.Graph, n: nat)
    requires G.Valid(g) && g.vertices >= 0 && n <= g.vertices
    ensures Total(Valences(g), n) == ValenceSum(g, n, g.edges)
  {
    if n > 0 {
      TotalValences(g, n - 1);
    }
  }

  /** The valences of a map whose edges end at vertices add up to twice the number of edges. */
  lemma Handshake(g: G.Graph)
    requires G.Valid(g) && G.EndpointsOK(g) && g.vertices >= 0
    ensures Total(Valences(g), g.vertices) == 2 * g.edges
  {
    TotalValences(g, g.vertices);
    HandshakeUpTo(g, g.edges);
  }

  /** countValences: one pass over the edges, adding one at each end. */
  method CountValences(g: GM.GraphMap) returns (val: IntVector)
    requires g.Valid() && G.EndpointsOK(g.State()) && g.vertices >= 0
    ensures fresh(val) && val.Valid() && val.Contents() == Valences(g.State())
  {
    ghost var s := g.State();
    val := new IntVector(g.vertices);
    var c := val.v;
    var i := 0;
    while i < g.edges
      invariant 0 <= i <= g.edges && val.Valid() && val.n == g.vertices && val.v == c && fresh(val) && fresh(c)
      invariant forall x :: 0 <= x < g.vertices ==> c[x] == G.Valence(s, x, i)
    {
      c[g.start[i]] := c[g.start[i]] + 1;
      c[g.end[i]] := c[g.end[i]] + 1;
      i := i + 1;
    }
  }

  // ---- the valence-one homotopy ----

  /** Edge e has an end at a vertex of valence one. */
  predicate AtValenceOne(g: G.Graph, e: nat)
    requires G.Valid(g) && e < g.edges
  {
    G.Valence(g, g.start[e], g.edges) == 1 || G.Valence(g, g.end[e], g.edges) == 1
  }

  /** The first edge from i on with an end at a vertex of valence one. */
  function V1Edge(g: G.Graph, i: nat): (r: Option<nat>)
    requires G.Valid(g) && i <= g.edges
    ensures r.Some? ==> i <= r.value < g.edges && AtValenceOne(g, r.value)
    ensures r.Some? ==> forall e :: i <= e < r.value ==> !AtValenceOne(g, e)
    ensures r.None? ==> forall e :: i <= e < g.edges ==> !AtValenceOne(g, e)
    decreases g.edges - i
  {
    if i == g.edges then None
    else if AtValenceOne(g, i) then Some(i)
    else V1Edge(g, i + 1)
  }

  /** v1Homotopy: the first edge at a vertex of valence one collapsed, if there is one. */
  function V1Homotopy(g: G.Graph): (r: (G.Graph, bool))
    requires G.Valid(g)
  {
    match V1Edge(g, 0)
    case Some(e) => (G.Collapsed(g, e), true)
    case None => (g, false)
  }

  /** A vertex with some valence is an end of some edge. */
  lemma {:induction false} ValenceWitness(g: G.Graph, v: int, k: nat) returns (e: nat)
    requires G.Valid(g) && k <= g.edges && G.Valence(g, v, k) > 0
    ensures e < k && (g.start[e] == v || g.end[e] == v)
  {
    if g.start[k - 1] == v || g.end[k - 1] == v {
      e := k - 1;
    } else {
      e := ValenceWitness(g, v, k - 1);
    }
  }

  /** With no edge at a vertex of valence one, no vertex has valence one. */
  lemma NoValenceOne(g: G.Graph)
    requires G.Valid(g) && V1Edge(g, 0).None?
    ensures forall x :: G.Valence(g, x, g.edges) != 1
  {
    forall x ensures G.Valence(g, x, g.edges) != 1 {
      if G.Valence(g, x, g.edges) > 0 {
        var e := ValenceWitness(g, x, g.edges);
        assert !AtValenceOne(g, e);
      }
    }
  }

  /**
   * v1Homotopy reports a change exactly when some vertex has valence one, and then
   * removes one edge and keeps the map well-formed.
   */
  lemma V1HomotopySpec(g: G.Graph)
    requires G.WellFormed(g)
    ensures V1Homotopy(g).1 <==> exists x :: 0 <= x < g.vertices && G.Valence(g, x, g.edges) == 1
    ensures V1Homotopy(g).1 ==> G.WellFormed(V1Homotopy(g).0) && V1Homotopy(g).0.edges == g.edges - 1
    ensures !V1Homotopy(g).1 ==> V1Homotopy(g).0 == g
  {
    var r := V1Edge(g, 0);
    if r.Some? {
      assert V1Homotopy(g) == (G.Collapsed(g, r.value), true);
      G.CollapseEdgeSpec(g, r.value);
      var x := ValenceOneAt(g, r.value);
    } else {
      assert V1Homotopy(g) == (g, false);
      NoValenceOne(g);
    }
  }

  /** An edge at a vertex of valence one names a vertex of valence one. */
  lemma ValenceOneAt(g: G.Graph, e: nat) returns (x: int)
    requires G.WellFormed(g) && e < g.edges && AtValenceOne(g, e)
    ensures 0 <= x < g.vertices && G.Valence(g, x, g.edges) == 1
  {
    x := if G.Valence(g, g.start[e], g.edges) == 1 then g.start[e] else g.end[e];
  }

  /** v1Homotopy on a train track. */
  method V1HomotopyStep(g: GM.GraphMap) returns (flag: bool)
    requires g.Valid() && G.EndpointsOK(g.State()) && g.vertices >= 0
    modifies g, g.im, g.start, g.end
    ensures g.Valid() && (g.State(), flag) == V1Homotopy(old(g.State()))
    ensures g.im == old(g.im) && g.start == old(g.start) && g.end == old(g.end)
  {
    var val := CountValences(g);
    var i := 0;
    while i < g.edges
      invariant 0 <= i <= g.edges && V1Edge(g.State(), i) == V1Edge(g.State(), 0)
    {
      if val.v[g.start[i]] == 1 || val.v[g.end[i]] == 1 {
        var _ := g.CollapseEdge(i);
        return true;
      }
      i := i + 1;
    }
    flag := false;
  }

  // ---- the valence-two homotopy ----

  /** Edge e is not a loop and has an end at a vertex of valence two. */
  predicate AtValenceTwo(g: G.Graph, e: nat)
    requires G.Valid(g) && e < g.edges
  {
    (G.Valence(g, g.start[e], g.edges) == 2 || G.Valence(g, g.end[e], g.edges) == 2) && g.start[e] != g.end[e]
  }

  /** The first edge from i on that is not a loop and has an end at a vertex of valence two. */
  function V2Edge(g: G.Graph, i: nat): (r: Option<nat>)
    requires G.Valid(g) && i <= g.edges
    ensures r.Some? ==> i <= r.value < g.edges && AtValenceTwo(g, r.value)
    ensures r.Some? ==> forall e :: i <= e < r.value ==> !AtValenceTwo(g, e)
    ensures r.None? ==> forall e :: i <= e < g.edges ==> !AtValenceTwo(g, e)
    decreases g.edges - i
  {
    if i == g.edges then None
    else if AtValenceTwo(g, i) then Some(i)
    else V2Edge(g, i + 1)
  }

  /** The valence-two vertex of edge e: its start if that has valence two, else its end. */
  function V2Vertex(g: G.Graph, e: nat): int
    requires G.Valid(g) && e < g.edges
  {
    if G.Valence(g, g.start[e], g.edges) == 2 then g.start[e] else g.end[e]
  }

  /** Edge e has an end at v. */
  predicate Touches(g: G.Graph, e: nat, v: int)
    requires G.Valid(g) && e < g.edges
  {
    g.start[e] == v || g.end[e] == v
  }

  /** The first edge from j on with an end at v. */
  function NextAt(g: G.Graph, v: int, j: nat): (r: Option<nat>)
    requires G.Valid(g) && j <= g.edges
    ensures r.Some? ==> j <= r.value < g.edges && Touches(g, r.value, v)
    ensures r.Some? ==> forall e :: j <= e < r.value ==> !Touches(g, e, v)
    ensures r.None? ==> forall e :: j <= e < g.edges ==> !Touches(g, e, v)
    decreases g.edges - j
  {
    if j == g.edges then None
    else if Touches(g, j, v) then Some(j)
    else NextAt(g, v, j + 1)
  }

  /** The valence among the first k edges counts the ends of each of them. */
  lemma {:induction false} OneEnd(g: G.Graph, v: int, k: nat, e: nat)
    requires G.Valid(g) && e < k <= g.edges
    ensures G.Valence(g, v, k) >= G.Ends(g, v, e)
  {
    if e < k - 1 {
      OneEnd(g, v, k - 1, e);
    }
  }

  /** ... and of any two of them together. */
  lemma {:induction false} TwoEnds(g: G.Graph, v: int, k: nat, e: nat, f: nat)
    requires G.Valid(g) && e < k <= g.edges && f < k && e != f
    ensures G.Valence(g, v, k) >= G.Ends(g, v, e) + G.Ends(g, v, f)
  {
    if e == k - 1 {
      OneEnd(g, v, k - 1, f);
    } else if f == k - 1 {
      OneEnd(g, v, k - 1, e);
    } else {
      TwoEnds(g, v, k - 1, e, f);
    }
  }

  /** A valence above the ends of edge e comes from another edge at v. */
  lemma {:induction false} OtherEnd(g: G.Graph, v: int, k: nat, e: nat) returns (f: nat)
    requires G.Valid(g) && e < k <= g.edges && G.Valence(g, v, k) > G.Ends(g, v, e)
    ensures f < k && f != e && Touches(g, f, v)
  {
    if k - 1 != e && Touches(g, k - 1, v) {
      f := k - 1;
    } else if k - 1 == e {
      f := ValenceWitness(g, v, k - 1);
    } else {
      f := OtherEnd(g, v, k - 1, e);
    }
  }

  /**
   * The partner search of v2Homotopy ends: for the first edge i that is not a loop
   * and ends at a vertex vt of valence two, another edge with an end at vt comes
   * after i (one before it would be a loop at vt, giving vt a valence of three).
   */
  lemma V2PartnerAfter(g: G.Graph, i: nat)
    requires G.Valid(g) && V2Edge(g, 0) == Some(i)
    ensures NextAt(g, V2Vertex(g, i), i + 1).Some?
  {
    var vt := V2Vertex(g, i);
    assert G.Ends(g, vt, i) == 1;
    var f := OtherEnd(g, vt, g.edges, i);
    TwoEnds(g, vt, g.edges, i, f);
    assert AtValenceTwo(g, f);
  }

  /** The two edges v2Homotopy joins: the first edge at a valence-two vertex and its partner. */
  function V2Pair(g: G.Graph): (r: Option<(nat, nat)>)
    requires G.Valid(g)
    ensures r.Some? ==> r.value.0 < r.value.1 < g.edges
  {
    match V2Edge(g, 0)
    case None => None
    case Some(i) =>
      V2PartnerAfter(g, i);
      Some((i, NextAt(g, V2Vertex(g, i), i + 1).value))
  }

  /**
   * v2Homotopy: the two edges at the valence-two vertex joined, the one the oracle
   * calls bigger (larger in the Perron-Frobenius eigenvector) absorbing the other.
   */
  function V2Homotopy(g: G.Graph, isBigger: (G.Graph, nat, nat) -> bool): (r: (G.Graph, bool))
    requires G.Valid(g)
  {
    match V2Pair(g)
    case None => (g, false)
    case Some((i, j)) =>
      if isBigger(g, i, j) then (G.JoinEdges(g, j, i).0, true) else (G.JoinEdges(g, i, j).0, true)
  }

  /**
   * v2Homotopy changes a map exactly when some edge that is not a loop ends at a vertex
   * of valence two; the join it then makes never fails, removes one edge and keeps
   * the map well-formed.
   */
  lemma V2HomotopySpec(g: G.Graph, isBigger: (G.Graph, nat, nat) -> bool)
    requires G.WellFormed(g)
    ensures V2Homotopy(g, isBigger).1 <==> exists e :: 0 <= e < g.edges && AtValenceTwo(g, e)
    ensures V2Homotopy(g, isBigger).1 ==>
      G.WellFormed(V2Homotopy(g, isBigger).0) && V2Homotopy(g, isBigger).0.edges == g.edges - 1
    ensures !V2Homotopy(g, isBigger).1 ==> V2Homotopy(g, isBigger).0 == g
  {
    if V2Edge(g, 0).Some? {
      var i := V2Edge(g, 0).value;
      V2PartnerAfter(g, i);
      var vt := V2Vertex(g, i);
      var j := NextAt(g, vt, i + 1).value;
      assert V2Pair(g) == Some((i, j));
      assert Touches(g, i, vt) && Touches(g, j, vt);
      if isBigger(g, i, j) {
        G.JoinEdgesWellFormed(g, j, i);
      } else {
        G.JoinEdgesWellFormed(g, i, j);
      }
    }
  }

  /** The search of v2Homotopy for its first edge, on the counted valences. */
  method FindV2(g: GM.GraphMap, val: IntVector) returns (r: Option<nat>)
    requires g.Valid() && G.EndpointsOK(g.State()) && g.vertices >= 0
    requires val.Valid() && val.Contents() == Valences(g.State())
    ensures r == V2Edge(g.State(), 0)
  {
    ghost var s := g.State();
    var i := 0;
    var flag := false;
    while i < g.edges && !flag
      invariant 0 <= i <= g.edges && V2Edge(s, 0) == (if flag then Some(i) else V2Edge(s, i))
      invariant flag ==> i < g.edges
      decreases g.edges - i, if flag then 0 else 1
    {
      if (val.v[g.start[i]] == 2 || val.v[g.end[i]] == 2) && g.start[i] != g.end[i] {
        flag := true;
      } else {
        i := i + 1;
      }
    }
    r := if flag then Some(i) else None;
  }

  /** The partner search of v2Homotopy: the next edge after i with an end at vt. */
  method PartnerOf(g: GM.GraphMap, i: nat, vt: int) returns (j: nat)
    requires g.Valid() && V2Edge(g.State(), 0) == Some(i) && vt == V2Vertex(g.State(), i)
    ensures Some(j) == NextAt(g.State(), vt, i + 1)
  {
    ghost var s := g.State();
    V2PartnerAfter(s, i);
    ghost var j0 := NextAt(s, vt, i + 1).value;
    j := i + 1;
    while g.start[j] != vt && g.end[j] != vt
      invariant i < j <= j0 && NextAt(s, vt, j) == Some(j0)
      decreases j0 - j
    {
      j := j + 1;
    }
  }

  /** v2Homotopy on a train track, with the eigenvector comparison as an oracle. */
  method V2HomotopyStep(g: GM.GraphMap, isBigger: (G.Graph, nat, nat) -> bool) returns (flag: bool)
    requires g.Valid() && G.EndpointsOK(g.State()) && g.vertices >= 0
    modifies g, g.im, g.start, g.end
    ensures g.Valid() && (g.State(), flag) == V2Homotopy(old(g.State()), isBigger)
    ensures g.im == old(g.im) && g.start == old(g.start) && g.end == old(g.end)
  {
    var val := CountValences(g);
    var r := FindV2(g, val);
    if r.None? {
      return false;
    }
    var i := r.value;
    var vt := if val.v[g.start[i]] == 2 then g.start[i] else g.end[i];
    var j := PartnerOf(g, i, vt);
    assert V2Pair(g.State()) == Some((i, j));
    if isBigger(g.State(), i, j) {
      i, j := j, i;
    }
    var _ := g.JoinEdges(i, j);
    flag := true;
  }

  // ---- tightenPlus ----

  /**
   * The vertex pass of tightenPlus, repeated while it reports a change, with the corrected tightenVertex:
   * the map after the last pass, and whether any pass reported a change.
   */
  function VertexLoop(g: G.Graph): (r: (G.Graph, bool))
    requires G.Valid(g)
    ensures G.Valid(r.0)
    decreases G.Size(g)
  {
    var t := G.TightenVertex(g, true);
    G.TightenVertexShrinks(g);
    if t.1 then (VertexLoop(t.0).0, true) else (t.0, false)
  }

  /**
   * The vertex pass of tightenPlus as written, repeated while it reports a change, with at most fuel
   * passes: the map after the last pass, or None when fuel runs out first.
   */
  function VertexLoopAsWritten(g: G.Graph, fuel: nat): (r: Option<G.Graph>)
    requires G.Valid(g)
    ensures r.Some? ==> G.Valid(r.value)
    decreases fuel
  {
    var t := G.TightenVertex(g, false);
    if !t.1 then Some(t.0)
    else if fuel == 0 then None
    else VertexLoopAsWritten(t.0, fuel - 1)
  }

  /**
   * As written, tightenPlus never returns on a map with one vertex and no edges: the
   * vertex pass reports a change there without changing anything, so no number of
   * passes ends the loop. The corrected loop returns at once.
   */
  lemma {:induction false} TightenPlusAsWrittenSpins(fuel: nat)
    ensures VertexLoopAsWritten(G.BareVertex(), fuel) == None
    ensures TightenPlus(G.BareVertex()).0 == G.Tightened(G.BareVertex())
    decreases fuel
  {
    G.TightenVertexIsolatedVertex();
    if fuel > 0 {
      TightenPlusAsWrittenSpins(fuel - 1);
    }
  }

  /**
   * tightenPlus: the vertex passes repeated while they report a change, then (only
   * when none did) tighten; true when something changed.
   */
  function TightenPlus(g: G.Graph): (r: (G.Graph, bool))
    requires G.Valid(g)
    ensures G.Valid(r.0)
  {
    var (h, f) := VertexLoop(g);
    if f then (h, true) else (G.Tightened(h), G.TightenFlag(h))
  }

  lemma SumLengthsTightened(g: G.Graph, k: nat)
    requires G.Valid(g) && k <= g.edges
    ensures G.SumLengths(G.Tightened(g).im, k) <= G.SumLengths(g.im, k)
  {
    var t := G.Tightened(g).im;
    forall i | 0 <= i < k
      ensures |t[i]| <= |g.im[i]|
    {
      P.TightenLength(g.im[i]);
    }
    G.SumLengthsMono(g.im, t, k);
  }

  /** The edges of a map never increase through the vertex passes. */
  lemma {:induction false} VertexLoopShrinks(g: G.Graph)
    requires G.Valid(g)
    ensures G.Size(VertexLoop(g).0) <= G.Size(g) && VertexLoop(g).0.edges <= g.edges
    ensures VertexLoop(g).1 ==> G.Size(VertexLoop(g).0) < G.Size(g)
    decreases G.Size(g)
  {
    G.TightenVertexShrinks(g);
    var t := G.TightenVertex(g, true);
    var p := G.VertexPass(g, 0, true);
    if t.1 {
      VertexLoopShrinks(t.0);
    }
  }

  /**
   * tightenPlus never makes a map larger or adds an edge; when it reports no change
   * every image is freely reduced.
   */
  lemma TightenPlusSpec(g: G.Graph)
    requires G.Valid(g)
    ensures G.Size(TightenPlus(g).0) <= G.Size(g) && TightenPlus(g).0.edges <= g.edges
    ensures !TightenPlus(g).1 ==> forall i :: 0 <= i < TightenPlus(g).0.edges ==> P.Reduced(TightenPlus(g).0.im[i])
  {
    VertexLoopShrinks(g);
    var h := VertexLoop(g).0;
    SumLengthsTightened(h, h.edges);
    G.TightenedReduced(h);
  }

  /** tightenPlus on a train track. */
  method TightenPlusStep(g: GM.GraphMap) returns (flag: bool)
    requires g.Valid()
    modifies g, g.im, g.start, g.end
    ensures g.Valid() && (g.State(), flag) == TightenPlus(old(g.State()))
    ensures g.im == old(g.im) && g.start == old(g.start) && g.end == old(g.end)
  {
    ghost var goal := VertexLoop(g.State());
    flag := false;
    while true
      invariant g.Valid() && g.im == old(g.im) && g.start == old(g.start) && g.end == old(g.end)
      invariant VertexLoop(g.State()).0 == goal.0 && goal.1 == (flag || VertexLoop(g.State()).1)
      decreases G.Size(g.State())
    {
      ghost var s := g.State();
      G.TightenVertexShrinks(s);
      var more := g.TightenVertex(true);
      if !more {
        break;
      }
      flag := true;
    }
    if !flag {
      flag := g.Tighten();
    }
  }
}
