/**
 * Gates of a train track (Gates.java): at every vertex the ends of edges there
 * (the adjacency list), grouped into gates, two ends sharing a gate when the turn
 * between them is illegal, and the infinitesimal edges joining two gates whenever
 * the turn between them is taken by the image of some edge. The map is
 * pseudo-Anosov when the infinitesimal edges at every vertex form a path or a loop
 * through all its gates and the transition matrix is irreducible.
 */
module GateStructures {
  import opened Wrappers
  import opened Letters
  import P = Paths
  import G = Graphs
  import GM = GraphMaps
  import H = Homotopies
  import T = Turns
  import R = Reduction
  import M = IntMatrices

  /** The exception of an array index out of bounds. */
  const OutOfRange := "array index out of range"

  /** A copy keeps a train track a train track. */
  lemma CopyTrack(g: G.Graph)
    requires R.Track(g)
    ensures R.Track(G.Copy(g)) && G.Copy(g).edges == g.edges && G.Copy(g).vertices == g.vertices
    ensures forall i :: 0 <= i < g.edges ==>
      G.Copy(g).start[i] == g.start[i] && G.Copy(g).end[i] == g.end[i] && G.Copy(g).im[i] == g.im[i]
  {
    var h := G.Copy(g);
    forall i | 0 <= i < h.edges ensures P.LettersBelow(h.im[i], h.edges) {
      assert h.im[i] == g.im[i];
    }
  }

  /** mapd takes a letter of an edge in use to a letter of an edge in use. */
  lemma MapdWithin(g: G.Graph, c: Sym)
    requires G.WellFormed(g) && c.index < g.edges && G.Mapd(g, c).Ok?
    ensures G.Mapd(g, c).value.index < g.edges
  {
    assert P.LettersBelow(g.im[c.index], g.edges);
    P.ReverseLettersBelow(g.im[c.index], g.edges);
  }

  /** An edge has two ends, so a vertex has at most two darts per edge. */
  lemma {:induction false} DartsBound(g: G.Graph, v: int, k: nat)
    requires G.Valid(g) && k <= g.edges
    ensures |G.Darts(g, v, k)| == G.Valence(g, v, k) <= 2 * k
  {
    if k > 0 {
      DartsBound(g, v, k - 1);
    }
  }

  /** Darts depend only on the ends of the edges counted. */
  lemma {:induction false} DartsAgree(g: G.Graph, h: G.Graph, v: int, k: nat)
    requires G.Valid(g) && G.Valid(h) && k <= g.edges && k <= h.edges
    requires forall i :: 0 <= i < k ==> g.start[i] == h.start[i] && g.end[i] == h.end[i]
    ensures G.Darts(g, v, k) == G.Darts(h, v, k)
  {
    if k > 0 {
      DartsAgree(g, h, v, k - 1);
    }
  }

  // ---- the relabelling exchange makes ----

  /** Gate g1 called g2 and g2 called g1. */
  function Relabel(x: int, g1: int, g2: int): (y: int)
    ensures (y == g1 <==> x == g2) || g1 == g2
    ensures (y == g2 <==> x == g1) || g1 == g2
  {
    if x == g1 then g2 else if x == g2 then g1 else x
  }

  /** The gates of the first n darts renamed. */
  function Swapped(row: seq<int>, n: nat, g1: int, g2: int): (r: seq<int>)
    requires n <= |row|
    ensures |r| == |row|
  {
    seq(|row|, k requires 0 <= k < |row| => if k < n then Relabel(row[k], g1, g2) else row[k])
  }

  /** A square table of flags. */
  predicate Square(t: seq<seq<bool>>)
  {
    forall x :: 0 <= x < |t| ==> |t[x]| == |t|
  }

  /** The table of infinitesimal edges with gates g1 and g2 exchanged among the first n. */
  function Exchanged(t: seq<seq<bool>>, n: nat, g1: int, g2: int): (r: seq<seq<bool>>)
    requires Square(t) && n <= |t| && 0 <= g1 < n && 0 <= g2 < n
    ensures Square(r) && |r| == |t|
  {
    seq(|t|, x requires 0 <= x < |t| =>
      seq(|t|, y requires 0 <= y < |t| =>
        if x < n && y < n then t[Relabel(x, g1, g2)][Relabel(y, g1, g2)] else t[x][y]))
  }

  /** The column half of exchange: in the first n rows, columns g1 and g2 trade places. */
  function ColumnsSwapped(t: seq<seq<bool>>, n: nat, g1: int, g2: int): (r: seq<seq<bool>>)
    requires Square(t) && n <= |t| && 0 <= g1 < |t| && 0 <= g2 < |t|
    ensures Square(r) && |r| == |t|
  {
    seq(|t|, x requires 0 <= x < |t| =>
      seq(|t|, y requires 0 <= y < |t| => if x < n then t[x][Relabel(y, g1, g2)] else t[x][y]))
  }

  /** The row half of exchange: in the first n columns, rows g1 and g2 trade places. */
  function RowsSwapped(t: seq<seq<bool>>, n: nat, g1: int, g2: int): (r: seq<seq<bool>>)
    requires Square(t) && n <= |t| && 0 <= g1 < |t| && 0 <= g2 < |t|
    ensures Square(r) && |r| == |t|
  {
    seq(|t|, x requires 0 <= x < |t| =>
      seq(|t|, y requires 0 <= y < |t| => if y < n then t[Relabel(x, g1, g2)][y] else t[x][y]))
  }

  /** The two halves of exchange, one after the other, rename both coordinates among the first n gates. */
  lemma HalvesExchange(t: seq<seq<bool>>, n: nat, g1: int, g2: int)
    requires Square(t) && n <= |t| && 0 <= g1 < n && 0 <= g2 < n
    ensures RowsSwapped(ColumnsSwapped(t, n, g1, g2), n, g1, g2) == Exchanged(t, n, g1, g2)
  {
    var c := ColumnsSwapped(t, n, g1, g2);
    var r := RowsSwapped(c, n, g1, g2);
    var e := Exchanged(t, n, g1, g2);
    forall x | 0 <= x < |t| ensures r[x] == e[x] {
      forall y | 0 <= y < |t| ensures r[x][y] == e[x][y] {
        if y < n {
          assert r[x][y] == c[Relabel(x, g1, g2)][y];
        }
      }
    }
  }

  /** Renaming twice restores the gates. */
  lemma SwappedTwice(row: seq<int>, n: nat, g1: int, g2: int)
    requires n <= |row|
    ensures Swapped(Swapped(row, n, g1, g2), n, g1, g2) == row
  {
    var r := Swapped(Swapped(row, n, g1, g2), n, g1, g2);
    forall k | 0 <= k < |row| ensures r[k] == row[k] {
      if k < n {
        assert Relabel(Relabel(row[k], g1, g2), g1, g2) == row[k];
      }
    }
  }

  /** Exchanging twice restores the table. */
  lemma ExchangedTwice(t: seq<seq<bool>>, n: nat, g1: int, g2: int)
    requires Square(t) && n <= |t| && 0 <= g1 < n && 0 <= g2 < n
    ensures Exchanged(Exchanged(t, n, g1, g2), n, g1, g2) == t
  {
    var r := Exchanged(Exchanged(t, n, g1, g2), n, g1, g2);
    forall x | 0 <= x < |t| ensures r[x] == t[x] {
      forall y | 0 <= y < |t| ensures r[x][y] == t[x][y] {
        if x < n && y < n {
          assert Relabel(Relabel(x, g1, g2), g1, g2) == x;
          assert Relabel(Relabel(y, g1, g2), g1, g2) == y;
        }
      }
    }
  }

  /** A table read the same in both orders. */
  predicate Symmetric(t: seq<seq<bool>>)
    requires Square(t)
  {
    forall x, y :: 0 <= x < |t| && 0 <= y < |t| ==> t[x][y] == t[y][x]
  }

  /** Exchanging keeps the infinitesimal edges undirected. */
  lemma ExchangedSymmetric(t: seq<seq<bool>>, n: nat, g1: int, g2: int)
    requires Square(t) && n <= |t| && 0 <= g1 < n && 0 <= g2 < n && Symmetric(t)
    ensures Symmetric(Exchanged(t, n, g1, g2))
  {
  }

  // ---- degrees of gates ----

  /** The number of flags among the first k. */
  function Degree(row: seq<bool>, k: nat): (d: nat)
    requires k <= |row|
    ensures d <= k
  {
    if k == 0 then 0 else Degree(row, k - 1) + (if row[k - 1] then 1 else 0)
  }

  /** The number of gates among the first j with one infinitesimal edge to the first n. */
  function Ends(t: seq<seq<bool>>, n: nat, j: nat): nat
    requires Square(t) && n <= |t| && j <= |t|
  {
    if j == 0 then 0 else Ends(t, n, j - 1) + (if Degree(t[j - 1], n) == 1 then 1 else 0)
  }

  /** The degree test of isPseudoAnosov at a vertex with n gates: every gate has one or two infinitesimal edges, at most two gates have one. */
  predicate DegreesOK(t: seq<seq<bool>>, n: nat)
    requires Square(t) && n <= |t|
  {
    (forall j :: 0 <= j < n ==> 1 <= Degree(t[j], n) <= 2) && Ends(t, n, n) <= 2
  }

  /** Counting more gates never lowers the number with one infinitesimal edge. */
  lemma {:induction false} EndsMono(t: seq<seq<bool>>, n: nat, j: nat, k: nat)
    requires Square(t) && n <= |t| && j <= k <= |t|
    ensures Ends(t, n, j) <= Ends(t, n, k)
  {
    if j < k {
      EndsMono(t, n, j, k - 1);
    }
  }

  /** The first j gates form a path 0, 1, ..., j - 1 of infinitesimal edges. */
  predicate Chain(t: seq<seq<bool>>, j: nat)
    requires Square(t) && j <= |t|
  {
    forall k :: 0 <= k < j - 1 ==> t[k][k + 1]
  }

  /** A path on the first j gates grows by gate j when gate j - 1 is joined to it. */
  lemma ChainExtend(t: seq<seq<bool>>, j: nat)
    requires Square(t) && j < |t| && Chain(t, j) && (0 < j ==> t[j - 1][j])
    ensures Chain(t, j + 1)
  {
  }

  /**
   * The walk of isPseudoAnosov stopped after j of the n gates: they form a path, and the
   * last of them has no infinitesimal edge to any gate not yet on it.
   */
  predicate Stuck(t: seq<seq<bool>>, n: nat, j: nat)
    requires Square(t) && n <= |t|
  {
    0 < j < n && Chain(t, j) && Unjoined(t[j - 1], j, n)
  }

  /** Gate row has no infinitesimal edge to the gates from..to-1. */
  predicate Unjoined(row: seq<bool>, from: nat, to: nat)
    requires to <= |row|
  {
    forall p :: from <= p < to ==> !row[p]
  }

  /** Vertex with n gates passed both tests of isPseudoAnosov: before the walk the degrees, after it the path. */
  predicate Passed(before: seq<seq<bool>>, after: seq<seq<bool>>, n: nat)
    requires Square(before) && Square(after) && n <= |before| && n <= |after|
  {
    DegreesOK(before, n) && Chain(after, n)
  }

  /** Vertex with n gates failed one of the tests of isPseudoAnosov. */
  predicate Failed(before: seq<seq<bool>>, after: seq<seq<bool>>, n: nat)
    requires Square(before) && Square(after) && n <= |before| && n <= |after|
  {
    !DegreesOK(before, n) || exists j :: 0 < j < n && Stuck(after, n, j)
  }

  /** Exchanging two gates at or after j keeps a path on the first j gates, and moves gate g2 to place g1. */
  lemma ExchangedChain(t: seq<seq<bool>>, n: nat, j: nat, g2: int)
    requires Square(t) && n <= |t| && j < n && j <= g2 < n && Chain(t, j)
    ensures Chain(Exchanged(t, n, j, g2), j)
    ensures 0 < j ==> Exchanged(t, n, j, g2)[j - 1][j] == t[j - 1][g2]
  {
  }

  // ---- the gate structure ----

  class Gates {
    var g: GM.GraphMap
    var adj: array2<Sym>
    var noad: array<int>
    var ga: array2<int>
    var nogates: array<int>
    var infini: array3<bool>

    /** Tables sized by the vertices and twice the edges of a train track the tables do not share storage with. */
    predicate Valid()
      reads this, g, g.im, g.start, g.end
    {
      g.Valid() && R.Track(g.State()) &&
      adj.Length0 == g.vertices && adj.Length1 == 2 * g.edges &&
      noad.Length == g.vertices && nogates.Length == g.vertices &&
      ga.Length0 == g.vertices && ga.Length1 == 2 * g.edges &&
      infini.Length0 == g.vertices && infini.Length1 == 2 * g.edges && infini.Length2 == 2 * g.edges &&
      noad != nogates && noad != g.start && noad != g.end && nogates != g.start && nogates != g.end
    }

    /** The ends of edges at vertex v, in the order findAdj lists them. */
    ghost function Darts(v: int): seq<Sym>
      reads this, g, g.im, g.start, g.end
      requires Valid()
    {
      G.Darts(g.State(), v, g.edges)
    }

    /** findAdj has listed the darts at v. */
    ghost predicate Listed(v: int)
      reads this, g, g.im, g.start, g.end, adj, noad
      requires Valid() && 0 <= v < g.vertices
    {
      noad[v] == |Darts(v)| && noad[v] <= adj.Length1 &&
      forall k :: 0 <= k < noad[v] ==> adj[v, k] == Darts(v)[k]
    }

    /** Every dart at every vertex listed. */
    ghost predicate Adjacent()
      reads this, g, g.im, g.start, g.end, adj, noad
      requires Valid()
    {
      forall v :: 0 <= v < g.vertices ==> Listed(v)
    }

    /** Every dart at v in a gate numbered below nogates[v], at least one gate and no more than the darts allow. */
    ghost predicate GatedAt(v: int)
      reads this, g, g.im, g.start, g.end, noad, ga, nogates
      requires Valid() && 0 <= v < g.vertices
    {
      1 <= nogates[v] <= (if noad[v] <= 1 then 1 else noad[v]) &&
      forall k :: 0 <= k < 2 * g.edges ==> 0 <= ga[v, k] < nogates[v]
    }

    ghost predicate Gated()
      reads this, g, g.im, g.start, g.end, noad, ga, nogates
      requires Valid()
    {
      (forall v :: 0 <= v < g.vertices ==> 0 <= noad[v] <= 2 * g.edges) &&
      forall v :: 0 <= v < g.vertices ==> GatedAt(v)
    }

    /** The infinitesimal edges at vertex v. */
    ghost function Table(v: int): (t: seq<seq<bool>>)
      reads this, infini
      requires 0 <= v < infini.Length0 && infini.Length1 == infini.Length2
      ensures Square(t) && |t| == infini.Length1
    {
      var a := infini;
      seq(a.Length1, x requires 0 <= x < a.Length1 reads a =>
        seq(a.Length2, y requires 0 <= y < a.Length2 reads a => a[v, x, y]))
    }

    /** The gate numbers of the darts at vertex v. */
    ghost function GateRow(v: int): (r: seq<int>)
      reads this, ga
      requires 0 <= v < ga.Length0
    {
      var a := ga;
      seq(a.Length1, k requires 0 <= k < a.Length1 reads a => a[v, k])
    }

    /** Infinitesimal edges join gates in both directions. */
    ghost predicate Undirected()
      reads this, g, g.im, g.start, g.end, infini
      requires Valid()
    {
      forall v, x, y :: 0 <= v < g.vertices && 0 <= x < 2 * g.edges && 0 <= y < 2 * g.edges ==>
        infini[v, x, y] == infini[v, y, x]
    }

    /** The constructor's allocation: a copy of the train track and cleared tables. */
    constructor (gg: GM.GraphMap)
      requires gg.Valid() && R.Track(gg.State())
      ensures Valid() && g.State() == G.Copy(gg.State()) && fresh(g)
      ensures forall v, x, y :: 0 <= v < g.vertices && 0 <= x < 2 * g.edges && 0 <= y < 2 * g.edges ==>
        !infini[v, x, y]
      ensures forall v, k :: 0 <= v < g.vertices && 0 <= k < 2 * g.edges ==> ga[v, k] == 0
      ensures fresh(adj) && fresh(noad) && fresh(ga) && fresh(nogates) && fresh(infini)
    {
      var h := new GM.GraphMap.Copy(gg);
      CopyTrack(gg.State());
      var nv: nat, n := h.vertices, 2 * h.edges;
      g := h;
      adj := new Sym[nv, n]((_, _) => Sym(0, false));
      noad := new int[nv](_ => 0);
      ga := new int[nv, n]((_, _) => 0);
      nogates := new int[nv](_ => 0);
      infini := new bool[nv, n, n]((_, _, _) => false);
    }

    /** findAdj: for every vertex the forward letters of the edges starting there and the backward letters of those ending there, in edge order. */
    method FindAdj()
      requires Valid()
      modifies adj, noad
      ensures Adjacent()
      ensures forall v :: 0 <= v < g.vertices ==> noad[v] == G.Valence(g.State(), v, g.edges)
    {
      var i := 0;
      while i < g.vertices
        invariant 0 <= i <= g.vertices && forall v :: 0 <= v < i ==> Listed(v)
      {
        ListAt(i);
        i := i + 1;
      }
      forall v | 0 <= v < g.vertices ensures noad[v] == G.Valence(g.State(), v, g.edges) {
        assert Listed(v);
        DartsBound(g.State(), v, g.edges);
      }
    }

    /** The row of findAdj at vertex i. */
    method ListAt(i: int)
      requires Valid() && 0 <= i < g.vertices
      modifies adj, noad
      ensures Listed(i)
      ensures forall v :: 0 <= v < g.vertices && v != i && old(Listed(v)) ==> Listed(v)
    {
      ghost var s := g.State();
      var cnt := 0;
      var j := 0;
      while j < g.edges
        invariant 0 <= j <= g.edges && cnt == |G.Darts(s, i, j)| <= 2 * j
        invariant forall k :: 0 <= k < cnt ==> adj[i, k] == G.Darts(s, i, j)[k]
        invariant forall v, k :: 0 <= v < g.vertices && v != i && 0 <= k < 2 * g.edges ==> adj[v, k] == old(adj[v, k])
        invariant forall v :: 0 <= v < g.vertices && v != i ==> noad[v] == old(noad[v])
      {
        cnt := AddDarts(s, i, j, cnt);
        j := j + 1;
      }
      noad[i] := cnt;
      forall v | 0 <= v < g.vertices && v != i && old(Listed(v)) ensures Listed(v) {
        forall k | 0 <= k < noad[v] ensures adj[v, k] == Darts(v)[k] {
          assert old(adj[v, k]) == Darts(v)[k];
        }
      }
    }

    /** One edge of the loop of findAdj: its start and then its end, when they are vertex i. */
    method AddDarts(ghost s: G.Graph, i: int, j: int, cnt: int) returns (cnt': int)
      requires Valid() && s == g.State() && 0 <= i < g.vertices && 0 <= j < g.edges
      requires cnt == |G.Darts(s, i, j)| <= 2 * j
      requires forall k :: 0 <= k < cnt ==> adj[i, k] == G.Darts(s, i, j)[k]
      modifies adj
      ensures cnt' == |G.Darts(s, i, j + 1)| <= 2 * (j + 1)
      ensures forall k :: 0 <= k < cnt' ==> adj[i, k] == G.Darts(s, i, j + 1)[k]
      ensures forall v, k :: 0 <= v < g.vertices && v != i && 0 <= k < 2 * g.edges ==> adj[v, k] == old(adj[v, k])
    {
      DartsBound(s, i, j + 1);
      IndexToCharInRange(j, false);
      IndexToCharInRange(j, true);
      cnt' := cnt;
      if g.start[j] == i {
        adj[i, cnt'] := IndexToSym(j, false);
        cnt' := cnt' + 1;
      }
      if g.end[j] == i {
        adj[i, cnt'] := IndexToSym(j, true);
        cnt' := cnt' + 1;
      }
    }

    /** The gate numbers all start at 0, as the constructor leaves them. */
    ghost predicate Cleared()
      reads this, g, g.im, g.start, g.end, ga
      requires Valid()
    {
      forall v, k :: 0 <= v < g.vertices && 0 <= k < 2 * g.edges ==> ga[v, k] == 0
    }

    /** findGates: each dart at a vertex in a gate; a later dart joins the gate of an earlier one while their turn is illegal. */
    method FindGates()
      requires Valid() && Adjacent() && Cleared()
      modifies ga, nogates
      ensures Adjacent() && Gated()
    {
      forall v | 0 <= v < g.vertices ensures 0 <= noad[v] <= 2 * g.edges {
        assert Listed(v);
      }
      var i := 0;
      while i < g.vertices
        invariant 0 <= i <= g.vertices && forall v :: 0 <= v < i ==> GatedAt(v)
        invariant forall v, k :: i <= v < g.vertices && 0 <= k < 2 * g.edges ==> ga[v, k] == 0
      {
        GatesAt(i);
        i := i + 1;
      }
    }

    /** The gates at vertex i. */
    method GatesAt(i: int)
      requires Valid() && 0 <= i < g.vertices && 0 <= noad[i] <= 2 * g.edges
      requires forall k :: 0 <= k < 2 * g.edges ==> ga[i, k] == 0
      modifies ga, nogates
      ensures GatedAt(i)
      ensures forall v, k :: 0 <= v < g.vertices && v != i && 0 <= k < 2 * g.edges ==> ga[v, k] == old(ga[v, k])
      ensures forall v :: 0 <= v < g.vertices && v != i ==> nogates[v] == old(nogates[v])
      ensures forall v :: 0 <= v < g.vertices && v != i && old(GatedAt(v)) ==> GatedAt(v)
    {
      var cnt := 0;
      var j := 0;
      while j < noad[i] - 1
        modifies ga
        invariant 0 <= j && (j <= noad[i] - 1 || j == 0) && 0 <= cnt <= j
        invariant forall k :: 0 <= k < 2 * g.edges ==> 0 <= ga[i, k] <= cnt
        invariant forall v, k :: 0 <= v < g.vertices && v != i && 0 <= k < 2 * g.edges ==> ga[v, k] == old(ga[v, k])
      {
        var flag := false;
        if ga[i, j] >= cnt {
          var k := j + 1;
          while k < noad[i]
            modifies ga
            invariant j + 1 <= k <= noad[i]
            invariant forall x :: 0 <= x < 2 * g.edges ==> 0 <= ga[i, x] <= cnt + (if flag then 1 else 0)
            invariant forall v, x :: 0 <= v < g.vertices && v != i && 0 <= x < 2 * g.edges ==> ga[v, x] == old(ga[v, x])
          {
            if ga[i, k] >= cnt {
              var d := T.IsIllegal(g, adj[i, j], adj[i, k]);
              if d == 0 {
                ga[i, k] := cnt + 1;
                flag := true;
              }
            }
            k := k + 1;
          }
        }
        if flag {
          cnt := cnt + 1;
        }
        j := j + 1;
      }
      nogates[i] := cnt + 1;
      forall v | 0 <= v < g.vertices && v != i && old(GatedAt(v)) ensures GatedAt(v) {
        forall k | 0 <= k < 2 * g.edges ensures 0 <= ga[v, k] < nogates[v] {
          assert ga[v, k] == old(ga[v, k]);
        }
      }
    }

    /** The position of dart a in the list at vt, searched along the whole row as the source does. */
    method Find(vt: int, a: Sym) returns (r: Option<nat>)
      requires 0 <= vt < adj.Length0
      ensures r.Some? ==> r.value < adj.Length1 && adj[vt, r.value] == a
      ensures r.None? ==> forall k :: 0 <= k < adj.Length1 ==> adj[vt, k] != a
    {
      var i := 0;
      while i < adj.Length1 && adj[vt, i] != a
        invariant 0 <= i <= adj.Length1 && forall k :: 0 <= k < i ==> adj[vt, k] != a
      {
        i := i + 1;
      }
      r := if i < adj.Length1 then Some(i) else None;
    }

    /** The common vertex of a turn whose second letter is an edge in use. */
    method TurnVertex(b: Sym) returns (vt: int)
      requires Valid() && b.index < g.edges
      ensures vt == G.FirstVertex(g.State(), b).value && 0 <= vt < g.vertices
    {
      assert Inv(b).index == b.index;
      vt := if b.inv then g.end[b.index] else g.start[b.index];
    }

    /**
     * infedgesrec(flags, a, b): unless the turn (a, b) was seen, it is marked in both
     * orders, the gates of a and b at their common vertex are joined by an
     * infinitesimal edge, and the walk goes on with the turn's image under mapd.
     * A letter missing from the list, or a mapd that fails, throws.
     */
    method InfEdgesRec(flags: array2<bool>, a: Sym, b: Sym) returns (r: Outcome)
      requires Walkable() && Undirected()
      requires flags.Length0 == 2 * g.edges && flags.Length1 == 2 * g.edges
      requires a.index < g.edges && b.index < g.edges
      modifies flags, infini
      ensures Undirected()
      decreases |T.Pairs(2 * g.edges) - T.Marked(flags)|
    {
      var seen := MarkTurn(flags, a, b);
      if seen {
        return Pass;
      }
      WalkableKept();
      var m := Step(a, b);
      if m.Err? {
        return Fail(m.msg);
      }
      WalkableKept();
      r := InfEdgesRec(flags, m.value.0, m.value.1);
    }

    /**
     * One step of the walk: the gates of a and b joined at the vertex of the turn,
     * then the turn's image under mapd.
     */
    method Step(a: Sym, b: Sym) returns (r: Result<(Sym, Sym)>)
      requires Walkable() && Undirected() && a.index < g.edges && b.index < g.edges
      modifies infini
      ensures Walkable() && Undirected()
      ensures r.Ok? ==> r.value.0.index < g.edges && r.value.1.index < g.edges
    {
      var vt := TurnVertex(b);
      var c := Connect(vt, a, b);
      if c.Fail? {
        return Err(c.msg);
      }
      WalkableKept();
      r := Images(a, b);
    }

    /**
     * The turn (a, b) looked up in the table of visited turns and, when it is new,
     * marked in both orders, which leaves fewer unvisited turns.
     */
    method MarkTurn(flags: array2<bool>, a: Sym, b: Sym) returns (seen: bool)
      requires Valid() && flags.Length0 == 2 * g.edges && flags.Length1 == 2 * g.edges
      requires a.index < g.edges && b.index < g.edges
      modifies flags
      ensures seen == old(flags[T.CharToCoord(g.State(), a), T.CharToCoord(g.State(), b)])
      ensures seen ==> unchanged(flags)
      ensures !seen ==> |T.Pairs(2 * g.edges) - T.Marked(flags)| < |T.Pairs(2 * g.edges) - old(T.Marked(flags))|
    {
      var x := T.CharToCoord(g.State(), a);
      var y := T.CharToCoord(g.State(), b);
      T.CoordInjective(g.State(), a, b);
      T.CoordInjective(g.State(), b, a);
      if flags[x, y] {
        return true;
      }
      ghost var before := T.Marked(flags);
      T.Mark(flags, x, y);
      T.Shrinks(T.Pairs(2 * g.edges), before, T.Marked(flags), (x, y));
      seen := false;
    }

    /** The train track and its gates, which the walk over turns leaves alone. */
    ghost predicate Walkable()
      reads this, g, g.im, g.start, g.end, noad, ga, nogates
    {
      Valid() && Gated()
    }

    /** Changes to the tables of turns and of infinitesimal edges leave the train track and its gates alone. */
    twostate lemma WalkableKept()
      requires old(Walkable()) && unchanged(this)
      requires unchanged(old(g), old(g.im), old(g.start), old(g.end), old(noad), old(ga), old(nogates))
      ensures Walkable()
    {
    }

    /** The images of the darts a and b under mapd, or mapd's failure. */
    method Images(a: Sym, b: Sym) returns (r: Result<(Sym, Sym)>)
      requires Valid() && a.index < g.edges && b.index < g.edges
      ensures r.Ok? <==> G.Mapd(g.State(), a).Ok? && G.Mapd(g.State(), b).Ok?
      ensures r.Ok? ==> r.value == (G.Mapd(g.State(), a).value, G.Mapd(g.State(), b).value)
      ensures r.Ok? ==> r.value.0.index < g.edges && r.value.1.index < g.edges
    {
      var ma := G.Mapd(g.State(), a);
      if ma.Err? {
        return Err(ma.msg);
      }
      var mb := G.Mapd(g.State(), b);
      if mb.Err? {
        return Err(mb.msg);
      }
      MapdWithin(g.State(), a);
      MapdWithin(g.State(), b);
      r := Ok((ma.value, mb.value));
    }

    /** The gates of darts a and b at vt joined; a dart missing from the list throws. */
    method Connect(vt: int, a: Sym, b: Sym) returns (r: Outcome)
      requires Walkable() && Undirected() && 0 <= vt < g.vertices
      modifies infini
      ensures Undirected()
    {
      var ia := Find(vt, a);
      if ia.None? {
        return Fail(OutOfRange);
      }
      var gx := ga[vt, ia.value];
      var ib := Find(vt, b);
      if ib.None? {
        return Fail(OutOfRange);
      }
      var gy := ga[vt, ib.value];
      assert GatedAt(vt);
      Join(vt, gx, gy);
      r := Pass;
    }

    /** An infinitesimal edge between gates x and y at vt, in both directions. */
    method Join(vt: int, x: int, y: int)
      requires Valid() && Undirected() && 0 <= vt < g.vertices && 0 <= x < 2 * g.edges && 0 <= y < 2 * g.edges
      modifies infini
      ensures Undirected()
    {
      infini[vt, x, y] := true;
      infini[vt, y, x] := true;
    }

    /** findInfEdges: the walk from every turn taken by the image of an edge. */
    method FindInfEdges() returns (r: Outcome)
      requires Valid() && Gated() && Undirected()
      modifies infini
      ensures Undirected()
    {
      var n := 2 * g.edges;
      var flags := new bool[n, n]((_, _) => false);
      var i := 0;
      while i < g.edges
        invariant 0 <= i <= g.edges && Undirected()
      {
        var w := g.im[i];
        var j := 0;
        while j < |w| - 1
          invariant 0 <= j && Undirected()
        {
          assert P.LettersBelow(w, g.edges);
          r := InfEdgesRec(flags, Inv(w[j]), w[j + 1]);
          if r.Fail? {
            return;
          }
          j := j + 1;
        }
        i := i + 1;
      }
      r := Pass;
    }

    /** infinitesimalEdges: the adjacency lists, the gates, then the infinitesimal edges. */
    method InfinitesimalEdges() returns (r: Outcome)
      requires Valid() && Undirected() && Cleared()
      modifies adj, noad, ga, nogates, infini
      ensures Adjacent() && Gated() && Undirected()
    {
      FindAdj();
      FindGates();
      r := FindInfEdges();
    }

    /** The column swap of exchange: for the first nogates[vt] rows, columns g1 and g2 exchanged. */
    method SwapColumns(vt: int, g1: int, g2: int)
      requires Valid() && 0 <= vt < g.vertices && 0 <= g1 < 2 * g.edges && 0 <= g2 < 2 * g.edges
      requires 0 <= nogates[vt] <= 2 * g.edges
      modifies infini
      ensures Table(vt) == ColumnsSwapped(old(Table(vt)), nogates[vt], g1, g2)
      ensures forall v :: 0 <= v < g.vertices && v != vt ==> Table(v) == old(Table(v))
    {
      var i := 0;
      while i < nogates[vt]
        invariant 0 <= i <= nogates[vt]
        invariant forall v, x, y :: 0 <= v < g.vertices && 0 <= x < 2 * g.edges && 0 <= y < 2 * g.edges ==>
          infini[v, x, y] == if v == vt && x < i then old(infini[v, x, Relabel(y, g1, g2)]) else old(infini[v, x, y])
      {
        var tmp := infini[vt, i, g1];
        infini[vt, i, g1] := infini[vt, i, g2];
        infini[vt, i, g2] := tmp;
        i := i + 1;
      }
      forall v | 0 <= v < g.vertices
        ensures Table(v) == if v == vt then ColumnsSwapped(old(Table(vt)), nogates[vt], g1, g2) else old(Table(v))
      {
        forall x | 0 <= x < 2 * g.edges
          ensures Table(v)[x] == (if v == vt then ColumnsSwapped(old(Table(vt)), nogates[vt], g1, g2) else old(Table(v)))[x]
        {
        }
      }
    }

    /** The row swap of exchange: for the first nogates[vt] columns, rows g1 and g2 exchanged. */
    method SwapRows(vt: int, g1: int, g2: int)
      requires Valid() && 0 <= vt < g.vertices && 0 <= g1 < 2 * g.edges && 0 <= g2 < 2 * g.edges
      requires 0 <= nogates[vt] <= 2 * g.edges
      modifies infini
      ensures Table(vt) == RowsSwapped(old(Table(vt)), nogates[vt], g1, g2)
      ensures forall v :: 0 <= v < g.vertices && v != vt ==> Table(v) == old(Table(v))
    {
      var i := 0;
      while i < nogates[vt]
        invariant 0 <= i <= nogates[vt]
        invariant forall v, x, y :: 0 <= v < g.vertices && 0 <= x < 2 * g.edges && 0 <= y < 2 * g.edges ==>
          infini[v, x, y] == if v == vt && y < i then old(infini[v, Relabel(x, g1, g2), y]) else old(infini[v, x, y])
      {
        var tmp := infini[vt, g1, i];
        infini[vt, g1, i] := infini[vt, g2, i];
        infini[vt, g2, i] := tmp;
        i := i + 1;
      }
      forall v | 0 <= v < g.vertices
        ensures Table(v) == if v == vt then RowsSwapped(old(Table(vt)), nogates[vt], g1, g2) else old(Table(v))
      {
        forall x | 0 <= x < 2 * g.edges
          ensures Table(v)[x] == (if v == vt then RowsSwapped(old(Table(vt)), nogates[vt], g1, g2) else old(Table(v)))[x]
        {
        }
      }
    }

    /** The gate renaming of exchange, over the darts at vt. */
    method RenameGates(vt: int, g1: int, g2: int)
      requires Valid() && 0 <= vt < g.vertices && 0 <= noad[vt] <= 2 * g.edges
      modifies ga
      ensures GateRow(vt) == Swapped(old(GateRow(vt)), noad[vt], g1, g2)
      ensures forall v, k :: 0 <= v < g.vertices && v != vt && 0 <= k < 2 * g.edges ==> ga[v, k] == old(ga[v, k])
      ensures forall v :: 0 <= v < g.vertices && v != vt ==> GateRow(v) == old(GateRow(v))
      ensures old(Gated()) && 0 <= g1 < nogates[vt] && 0 <= g2 < nogates[vt] ==> Gated()
    {
      var i := 0;
      while i < noad[vt]
        invariant 0 <= i <= noad[vt]
        invariant forall v, k :: 0 <= v < g.vertices && 0 <= k < 2 * g.edges ==>
          ga[v, k] == if v == vt && k < i then Relabel(old(ga[v, k]), g1, g2) else old(ga[v, k])
      {
        if ga[vt, i] == g1 {
          ga[vt, i] := g2;
        } else if ga[vt, i] == g2 {
          ga[vt, i] := g1;
        }
        i := i + 1;
      }
      assert GateRow(vt) == Swapped(old(GateRow(vt)), noad[vt], g1, g2);
      forall v | 0 <= v < g.vertices && v != vt ensures GateRow(v) == old(GateRow(v)) {
        assert forall k :: 0 <= k < 2 * g.edges ==> GateRow(v)[k] == old(GateRow(v))[k];
      }
      if old(Gated()) && 0 <= g1 < nogates[vt] && 0 <= g2 < nogates[vt] {
        forall v | 0 <= v < g.vertices ensures GatedAt(v) {
          assert old(GatedAt(v));
          if v == vt {
            forall k | 0 <= k < 2 * g.edges ensures 0 <= ga[vt, k] < nogates[vt] {
              assert ga[vt, k] == GateRow(vt)[k];
              assert old(ga[vt, k]) == old(GateRow(vt))[k];
            }
          } else {
            forall k | 0 <= k < 2 * g.edges ensures 0 <= ga[v, k] < nogates[v] {
              assert ga[v, k] == old(ga[v, k]);
            }
          }
        }
      }
    }

    /**
     * exchange(vt, g1, g2): gates g1 and g2 at vt trade names, in the gate of every
     * dart and in both coordinates of the table of infinitesimal edges. Other
     * vertices are untouched, and exchanging twice restores everything (SwappedTwice,
     * ExchangedTwice).
     */
    method Exchange(vt: int, g1: int, g2: int)
      requires Valid() && Gated() && 0 <= vt < g.vertices && 0 <= g1 < nogates[vt] && 0 <= g2 < nogates[vt]
      requires nogates[vt] <= 2 * g.edges
      modifies ga, infini
      ensures Gated()
      ensures GateRow(vt) == Swapped(old(GateRow(vt)), noad[vt], g1, g2)
      ensures Table(vt) == Exchanged(old(Table(vt)), nogates[vt], g1, g2)
      ensures forall v :: 0 <= v < g.vertices && v != vt ==> GateRow(v) == old(GateRow(v)) && Table(v) == old(Table(v))
    {
      assert GatedAt(vt);
      RenameGates(vt, g1, g2);
      SwapColumns(vt, g1, g2);
      SwapRows(vt, g1, g2);
      HalvesExchange(old(Table(vt)), nogates[vt], g1, g2);
    }

    /**
     * The first loop of isPseudoAnosov at vertex i: every gate has one or two
     * infinitesimal edges and at most two gates have one. When the test passes, pos is
     * the last gate with one edge, or gate 0 when there is none.
     */
    method Degrees(i: int) returns (ok: bool, pos: int)
      requires Valid() && 0 <= i < g.vertices && 1 <= nogates[i] <= 2 * g.edges
      ensures ok == DegreesOK(Table(i), nogates[i])
      ensures ok ==> 0 <= pos < nogates[i]
    {
      var n := nogates[i];
      ghost var t := Table(i);
      var flag := 0;
      pos := 0;
      var j := 0;
      while j < n
        invariant 0 <= j <= n && 0 <= pos < n
        invariant forall m :: 0 <= m < j ==> 1 <= Degree(t[m], n) <= 2
        invariant flag == Ends(t, n, j) <= 2
      {
        var cnt := 0;
        var k := 0;
        while k < n
          invariant 0 <= k <= n && cnt == Degree(t[j], k)
        {
          if infini[i, j, k] {
            cnt := cnt + 1;
          }
          k := k + 1;
        }
        if cnt > 2 || cnt == 0 {
          return false, pos;
        }
        if cnt == 1 {
          if flag > 1 {
            EndsMono(t, n, j + 1, n);
            return false, pos;
          }
          pos := j;
          flag := flag + 1;
        }
        j := j + 1;
      }
      ok := true;
    }

    /**
     * The second loop of isPseudoAnosov at vertex i: starting from gate pos, each gate
     * in turn is exchanged into place j, and the walk moves on to the first later gate
     * joined to it. It succeeds when every gate is placed, so that the renumbered gates
     * form the path 0, 1, ..., n - 1; otherwise the walk is stuck.
     */
    method Walk(i: int, pos: int) returns (ok: bool)
      requires Valid() && Gated() && Undirected() && 0 <= i < g.vertices
      requires nogates[i] <= 2 * g.edges && 0 <= pos < nogates[i]
      modifies ga, infini
      ensures Gated() && Undirected()
      ensures ok ==> Chain(Table(i), nogates[i])
      ensures !ok ==> exists j :: Stuck(Table(i), nogates[i], j)
      ensures forall v :: 0 <= v < g.vertices && v != i ==> Table(v) == old(Table(v))
    {
      var n := nogates[i];
      var j := 0;
      var p := pos;
      while j < n && p < n
        invariant 0 <= j <= p <= n && nogates[i] == n
        invariant Gated() && Undirected()
        invariant Chain(Table(i), j)
        invariant 0 < j && p < n ==> Table(i)[j - 1][p]
        invariant 0 < j && p == n ==> Unjoined(Table(i)[j - 1], j, n)
        invariant j == 0 ==> p < n
        invariant forall v :: 0 <= v < g.vertices && v != i ==> Table(v) == old(Table(v))
      {
        p := Advance(i, j, p);
        j := j + 1;
      }
      ok := j >= n;
      if !ok {
        assert Stuck(Table(i), n, j);
      }
    }

    /** One round of the walk, seen from the path: it grows by gate j, and q is the next candidate. */
    method Advance(i: int, j: int, p: int) returns (q: int)
      requires Valid() && Gated() && Undirected() && 0 <= i < g.vertices
      requires nogates[i] <= 2 * g.edges && 0 <= j <= p < nogates[i]
      requires Chain(Table(i), j) && (0 < j ==> Table(i)[j - 1][p])
      modifies ga, infini
      ensures Gated() && Undirected() && Chain(Table(i), j + 1)
      ensures j + 1 <= q <= nogates[i]
      ensures q < nogates[i] ==> Table(i)[j][q]
      ensures q == nogates[i] ==> Unjoined(Table(i)[j], j + 1, nogates[i])
      ensures forall v :: 0 <= v < g.vertices && v != i ==> Table(v) == old(Table(v))
    {
      ghost var t := Table(i);
      ExchangedChain(t, nogates[i], j, p);
      q := Place(i, j, p);
      ChainExtend(Table(i), j);
    }

    /**
     * One round of the walk: gate p exchanged into place j, then the first later gate
     * joined to gate j, or n when there is none.
     */
    method Place(i: int, j: int, p: int) returns (q: int)
      requires Valid() && Gated() && Undirected() && 0 <= i < g.vertices
      requires nogates[i] <= 2 * g.edges && 0 <= j <= p < nogates[i]
      modifies ga, infini
      ensures Gated() && Undirected()
      ensures Table(i) == Exchanged(old(Table(i)), nogates[i], j, p)
      ensures forall v :: 0 <= v < g.vertices && v != i ==> Table(v) == old(Table(v))
      ensures j + 1 <= q <= nogates[i]
      ensures q < nogates[i] ==> Table(i)[j][q]
      ensures Unjoined(Table(i)[j], j + 1, q)
    {
      ghost var t := Table(i);
      forall v | 0 <= v < g.vertices ensures Symmetric(Table(v)) {
        TableSymmetric(v);
      }
      Exchange(i, j, p);
      ExchangedSymmetric(t, nogates[i], j, p);
      SymmetricUndirected();
      q := NextJoined(i, j);
    }

    /** The first gate after j joined to gate j at vertex i, or nogates[i] when there is none. */
    method NextJoined(i: int, j: int) returns (q: int)
      requires Valid() && 0 <= i < g.vertices && 0 <= j < nogates[i] <= 2 * g.edges
      ensures j + 1 <= q <= nogates[i]
      ensures q < nogates[i] ==> Table(i)[j][q]
      ensures Unjoined(Table(i)[j], j + 1, q)
    {
      q := j + 1;
      while q < nogates[i] && !infini[i, j, q]
        invariant j + 1 <= q <= nogates[i]
        invariant Unjoined(Table(i)[j], j + 1, q)
      {
        q := q + 1;
      }
    }

    /**
     * isPseudoAnosov: at every vertex the gates pass the degree test and the walk
     * renumbers them into a single path of infinitesimal edges, and the transition
     * matrix is irreducible. With vertices but no edges the tables are empty and the
     * first lookup is out of range.
     */
    method IsPseudoAnosov() returns (r: Result<bool>)
      requires Valid() && Gated() && Undirected()
      modifies ga, infini
      ensures Gated() && Undirected()
      ensures r.Err? <==> 0 < g.vertices && g.edges == 0
      ensures r == Ok(true) ==> (M.Irreducible(H.Transition(g.State()), g.edges) &&
        forall v :: 0 <= v < g.vertices ==>
          0 <= nogates[v] <= 2 * g.edges && Passed(old(Table(v)), Table(v), nogates[v]))
      ensures r == Ok(false) ==> (!M.Irreducible(H.Transition(g.State()), g.edges) ||
        exists v :: 0 <= v < g.vertices && 0 <= nogates[v] <= 2 * g.edges && Failed(old(Table(v)), Table(v), nogates[v]))
    {
      var i := 0;
      while i < g.vertices
        invariant 0 <= i <= g.vertices && Gated() && Undirected()
        invariant g.edges == 0 ==> i == 0
        invariant forall v :: i <= v < g.vertices ==> Table(v) == old(Table(v))
        invariant forall v :: 0 <= v < i ==>
          0 <= nogates[v] <= 2 * g.edges && Passed(old(Table(v)), Table(v), nogates[v])
      {
        assert GatedAt(i);
        if nogates[i] > 2 * g.edges {
          return Err(OutOfRange);
        }
        var ok := CheckVertex(i);
        if !ok {
          return Ok(false);
        }
        i := i + 1;
      }
      R.TrackImagesWithin(g.State());
      var irr := H.IsIrreducible(g);
      r := Ok(irr);
    }

    /** The two loops of isPseudoAnosov at vertex i: the degree test, then the walk. */
    method CheckVertex(i: int) returns (ok: bool)
      requires Valid() && Gated() && Undirected() && 0 <= i < g.vertices && 1 <= nogates[i] <= 2 * g.edges
      modifies ga, infini
      ensures Gated() && Undirected()
      ensures ok ==> Passed(old(Table(i)), Table(i), nogates[i])
      ensures !ok ==> Failed(old(Table(i)), Table(i), nogates[i])
      ensures forall v :: 0 <= v < g.vertices && v != i ==> Table(v) == old(Table(v))
    {
      var pos;
      ok, pos := Degrees(i);
      if !ok {
        return;
      }
      ok := Walk(i, pos);
    }

    /** Undirected infinitesimal edges make every vertex's table symmetric. */
    lemma TableSymmetric(v: int)
      requires Valid() && Undirected() && 0 <= v < g.vertices
      ensures Symmetric(Table(v))
    {
      forall x, y | 0 <= x < 2 * g.edges && 0 <= y < 2 * g.edges ensures Table(v)[x][y] == Table(v)[y][x] {
        assert Table(v)[x][y] == infini[v, x, y];
        assert Table(v)[y][x] == infini[v, y, x];
      }
    }

    /** Symmetric tables at every vertex make the infinitesimal edges undirected. */
    lemma SymmetricUndirected()
      requires Valid() && forall v :: 0 <= v < g.vertices ==> Symmetric(Table(v))
      ensures Undirected()
    {
      forall v, x, y | 0 <= v < g.vertices && 0 <= x < 2 * g.edges && 0 <= y < 2 * g.edges
        ensures infini[v, x, y] == infini[v, y, x]
      {
        assert Table(v)[x][y] == infini[v, x, y];
        assert Table(v)[y][x] == infini[v, y, x];
      }
    }
  }

  /** The gates of a train track: Java's constructor, which throws when the walk for infinitesimal edges does. */
  method Build(gg: GM.GraphMap) returns (r: Result<Gates>)
    requires gg.Valid() && R.Track(gg.State())
    ensures r.Ok? ==> r.value.Valid() && r.value.Adjacent() && r.value.Gated() && r.value.Undirected()
    ensures r.Ok? ==> r.value.g.State() == G.Copy(gg.State())
  {
    var gs := new Gates(gg);
    var o := gs.InfinitesimalEdges();
    if o.Fail? {
      return Err(o.msg);
    }
    r := Ok(gs);
  }
}
