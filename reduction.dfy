/**
 * The reduction engine of TrainTrack.java around the split-and-fold step:
 * collapseInvForest (collapse an invariant forest), cleanItUp (valence-one and
 * valence-two homotopies, tightening and forest collapses until none applies) and
 * trainTrackMap (split at an illegal turn, fold, clean up, until the map is a
 * train track or its transition matrix is reducible).
 */
module Reduction {
  import opened Wrappers
  import opened Letters
  import P = Paths
  import G = Graphs
  import GM = GraphMaps
  import H = Homotopies
  import I = InvariantSubgraphs
  import F = Forests
  import T = Turns
  import M = IntMatrices

  /** What the reduction steps need of a map: well-formed, with a vertex count that is a size. */
  predicate Track(g: G.Graph)
  {
    G.WellFormed(g) && g.vertices >= 0
  }

  // ---- every step keeps a train track well-formed ----

  /** Collapsing an edge keeps a map a track, with at least one vertex left. */
  lemma CollapsedTrack(g: G.Graph, ed: nat)
    requires Track(g) && ed < g.edges
    ensures Track(G.Collapsed(g, ed)) && G.Collapsed(g, ed).vertices >= 1
  {
    G.CollapseEdgeSpec(g, ed);
  }

  /** Chopping letters off the images keeps every letter an edge in use. */
  lemma ChoppedTrack(g: G.Graph, v: int)
    requires Track(g) && G.ChopOK(g, v)
    ensures Track(G.Chopped(g, v))
  {
    var h := G.Chopped(g, v);
    forall i | 0 <= i < h.edges ensures P.LettersBelow(h.im[i], h.edges) {
      assert P.LettersBelow(g.im[i], g.edges);
    }
  }

  /** The vertex passes of tightenVertex keep a map a track. */
  lemma {:induction false} VertexPassTrack(g: G.Graph, v: nat, strict: bool)
    requires Track(g)
    ensures Track(G.VertexPass(g, v, strict).0)
    decreases if v <= g.vertices then g.vertices - v else 0, 1
  {
    if v < g.vertices {
      var hit := G.ConstantAround(g, v) && (strict ==> |G.Darts(g, v, g.edges)| > 0);
      if hit {
        G.ConstantChopOK(g, v);
        assert G.VertexPass(g, v, strict).0 == G.VertexPass(G.Chopped(g, v), v + 1, strict).0;
        VertexChopTrack(g, v, strict);
      } else {
        VertexPassTrack(g, v + 1, strict);
        assert G.VertexPass(g, v, strict).0 == G.VertexPass(g, v + 1, strict).0;
      }
    }
  }

  /** The rest of the vertex passes after a chop at v. */
  lemma {:induction false} VertexChopTrack(g: G.Graph, v: nat, strict: bool)
    requires Track(g) && v < g.vertices && G.ChopOK(g, v)
    ensures Track(G.VertexPass(G.Chopped(g, v), v + 1, strict).0)
    decreases g.vertices - v, 0
  {
    ChoppedTrack(g, v);
    VertexPassTrack(G.Chopped(g, v), v + 1, strict);
  }

  /** The collapses of empty images keep a map a track. */
  lemma {:induction false} CollapseEmptyTrack(g: G.Graph, i: nat)
    requires Track(g) && i <= g.edges
    ensures Track(G.CollapseEmpty(g, i))
    decreases g.edges - i
  {
    if i < g.edges {
      if g.im[i] == [] {
        CollapsedTrack(g, i);
        CollapseEmptyTrack(G.Collapsed(g, i), i);
      } else {
        CollapseEmptyTrack(g, i + 1);
      }
    }
  }

  /** The repeated corrected tightenVertex keeps a map a track. */
  lemma {:induction false} VertexLoopTrack(g: G.Graph)
    requires Track(g)
    ensures Track(H.VertexLoop(g).0)
    decreases G.Size(g)
  {
    G.TightenVertexShrinks(g);
    VertexPassTrack(g, 0, true);
    CollapseEmptyTrack(G.VertexPass(g, 0, true).0, 0);
    var t := G.TightenVertex(g, true);
    if t.1 {
      VertexLoopTrack(t.0);
    }
  }

  /** tightenPlus keeps a map a track and adds no edge. */
  lemma TightenPlusTrack(g: G.Graph)
    requires Track(g)
    ensures Track(H.TightenPlus(g).0) && H.TightenPlus(g).0.edges <= g.edges
  {
    VertexLoopTrack(g);
    H.TightenPlusSpec(g);
    G.TightenedWellFormed(H.VertexLoop(g).0);
  }

  /** v1Homotopy keeps a map a track. */
  lemma V1Track(g: G.Graph)
    requires Track(g)
    ensures Track(H.V1Homotopy(g).0)
    ensures H.V1Homotopy(g).1 ==> H.V1Homotopy(g).0.edges == g.edges - 1
    ensures !H.V1Homotopy(g).1 ==> H.V1Homotopy(g).0 == g
  {
    H.V1HomotopySpec(g);
    var e := H.V1Edge(g, 0);
    if e.Some? {
      CollapsedTrack(g, e.value);
    }
  }

  /** v2Homotopy keeps a map a track. */
  lemma V2Track(g: G.Graph, isBigger: (G.Graph, nat, nat) -> bool)
    requires Track(g)
    ensures Track(H.V2Homotopy(g, isBigger).0)
    ensures H.V2Homotopy(g, isBigger).1 ==> H.V2Homotopy(g, isBigger).0.edges == g.edges - 1
    ensures !H.V2Homotopy(g, isBigger).1 ==> H.V2Homotopy(g, isBigger).0 == g
  {
    H.V2HomotopySpec(g, isBigger);
    var r := H.V2Homotopy(g, isBigger);
    if r.1 {
      var (i, j) := H.V2Pair(g).value;
      var e1, e2 := if isBigger(g, i, j) then j else i, if isBigger(g, i, j) then i else j;
      assert r.0 == G.JoinEdges(g, e1, e2).0;
      JoinTrack(g, e1, e2);
    }
  }

  /** A successful join of two distinct edges leaves at least one vertex. */
  lemma JoinTrack(g: G.Graph, e1: nat, e2: nat)
    requires Track(g) && e1 < g.edges && e2 < g.edges && e1 != e2
    requires G.JoinEdges(g, e1, e2).1 == Pass
    ensures Track(G.JoinEdges(g, e1, e2).0)
  {
    G.JoinEdgesWellFormed(g, e1, e2);
    G.OrientedWellFormed(g, e1, e2);
    var g4 := G.Oriented(g, e1, e2);
    var g5 := g4.(im := g4.im[e1 := g4.im[e1] + g4.im[e2]]);
    assert G.WellFormed(g5);
    CollapsedTrack(g5, e2);
  }

  // ---- collapseInvForest ----

  /** The exception genInvSub(invsub, 0) raises on a map without edges. */
  const NoEdges := "array index out of range: 0"

  /** The first edge from i on whose invariant subgraph passes the forest test. */
  ghost function FirstForest(g: G.Graph, i: nat): (r: Option<nat>)
    requires Track(g)
    ensures r.Some? ==> i <= r.value < g.edges
    decreases g.edges - i
  {
    if i >= g.edges then None
    else if F.Forest(g, I.Closure(g, i), true) then Some(i)
    else FirstForest(g, i + 1)
  }

  /** The collapsing loop: the marked edges among the first k collapsed, from the highest index down. */
  function CollapseMarked(g: G.Graph, m: seq<bool>, k: nat): (h: G.Graph)
    requires G.Valid(g) && k <= g.edges && k <= |m|
    decreases k
  {
    if k == 0 then g
    else CollapseMarked(if m[k - 1] then G.Collapsed(g, k - 1) else g, m, k - 1)
  }

  /**
   * collapseInvForest: the invariant subgraphs generated by edge 0, 1, ... tested in
   * turn; the first forest found is collapsed, and the answer says whether there
   * was one. A map without edges raises an exception.
   */
  ghost function CollapseInvForest(g: G.Graph): Result<(G.Graph, bool)>
    requires Track(g)
  {
    if g.edges == 0 then Err(NoEdges)
    else
      match FirstForest(g, 0)
      case None => Ok((g, false))
      case Some(i) => Ok((CollapseMarked(g, I.Closure(g, i), g.edges), true))
  }

  /** A flag among the first k makes the count positive. */
  lemma {:induction false} TruesWitness(b: seq<bool>, x: nat, k: nat)
    requires x < k <= |b| && b[x]
    ensures F.Trues(b, k) >= 1
  {
    if x < k - 1 {
      TruesWitness(b, x, k - 1);
    }
  }

  /** Collapsing the marked edges removes one edge per mark and keeps the map a track. */
  lemma {:induction false} CollapseMarkedSpec(g: G.Graph, m: seq<bool>, k: nat)
    requires Track(g) && k <= g.edges && k <= |m|
    ensures Track(CollapseMarked(g, m, k)) && CollapseMarked(g, m, k).edges == g.edges - F.Trues(m, k)
    decreases k
  {
    if k > 0 {
      if m[k - 1] {
        CollapsedTrack(g, k - 1);
        CollapseMarkedSpec(G.Collapsed(g, k - 1), m, k - 1);
      } else {
        CollapseMarkedSpec(g, m, k - 1);
      }
    }
  }

  /** The search finds the first edge whose invariant subgraph is a forest. */
  lemma {:induction false} FirstForestMeans(g: G.Graph, i: nat)
    requires Track(g)
    ensures FirstForest(g, i).None? ==> forall j :: i <= j < g.edges ==> !F.ComponentsPass(g, I.Closure(g, j))
    ensures FirstForest(g, i).Some? ==> F.ComponentsPass(g, I.Closure(g, FirstForest(g, i).value))
    decreases g.edges - i
  {
    if i < g.edges {
      F.ForestMeans(g, I.Closure(g, i));
      FirstForestMeans(g, i + 1);
    }
  }

  /**
   * collapseInvForest fails exactly on a map without edges. When it reports a forest,
   * it has collapsed an invariant subgraph in which every component is a tree, so
   * the map is a track with fewer edges; when it reports none, the map is unchanged
   * and no invariant subgraph generated by one edge is a forest.
   */
  lemma CollapseInvForestSpec(g: G.Graph)
    requires Track(g)
    ensures CollapseInvForest(g).Err? <==> g.edges == 0
    ensures CollapseInvForest(g).Ok? && CollapseInvForest(g).value.1 ==>
      var h := CollapseInvForest(g).value.0;
      Track(h) && h.edges < g.edges &&
      exists i :: 0 <= i < g.edges && F.ComponentsPass(g, I.Closure(g, i)) &&
        h.edges == g.edges - F.Trues(I.Closure(g, i), g.edges)
    ensures CollapseInvForest(g).Ok? && !CollapseInvForest(g).value.1 ==>
      CollapseInvForest(g).value.0 == g &&
      forall i :: 0 <= i < g.edges ==> !F.ComponentsPass(g, I.Closure(g, i))
  {
    FirstForestMeans(g, 0);
    if g.edges > 0 && FirstForest(g, 0).Some? {
      var i := FirstForest(g, 0).value;
      var c := I.Closure(g, i);
      assert c[i];
      TruesWitness(c, i, g.edges);
      CollapseMarkedSpec(g, c, g.edges);
    }
  }

  /** An edge in use has its letters below the edge count: the closure walk stays inside the map. */
  lemma TrackImagesWithin(g: G.Graph)
    requires Track(g)
    ensures H.ImagesWithin(g)
  {
  }

  /** collapseInvForest on a train track. */
  method CollapseInvForestRun(g: GM.GraphMap) returns (r: Result<bool>)
    requires g.Valid() && Track(g.State())
    modifies g, g.im, g.start, g.end
    ensures g.Valid() && g.im == old(g.im) && g.start == old(g.start) && g.end == old(g.end)
    ensures match CollapseInvForest(old(g.State()))
      case Ok((h, f)) => r == Ok(f) && g.State() == h
      case Err(m) => r == Err(m) && g.State() == old(g.State())
  {
    if g.edges == 0 {
      return Err(NoEdges);
    }
    var invsub := new bool[g.edges];
    var flag := Search(g, invsub);
    if flag {
      Collapse(g, invsub);
    }
    r := Ok(flag);
  }

  /** The do-while loop of collapseInvForest: the subgraphs generated by edge 0, 1, ... until one is a forest. */
  method Search(g: GM.GraphMap, invsub: array<bool>) returns (flag: bool)
    requires g.Valid() && Track(g.State()) && invsub.Length == g.edges > 0
    modifies invsub
    ensures flag <==> FirstForest(g.State(), 0).Some?
    ensures flag ==> invsub[..] == I.Closure(g.State(), FirstForest(g.State(), 0).value)
  {
    TrackImagesWithin(g.State());
    var i := 0;
    flag := false;
    while !flag && i < g.edges
      invariant 0 <= i <= g.edges
      invariant FirstForest(g.State(), 0) == (if flag then Some(i - 1) else FirstForest(g.State(), i))
      invariant flag ==> 0 < i && invsub[..] == I.Closure(g.State(), i - 1)
      decreases g.edges - i, if flag then 0 else 1
    {
      I.GenInvSub(g, invsub, i);
      i := i + 1;
      flag := F.IsForest(g, invsub, true);
    }
  }

  /** The loop of collapseInvForest that collapses the marked edges, from the last one down. */
  method Collapse(g: GM.GraphMap, invsub: array<bool>)
    requires g.Valid() && G.Valid(g.State()) && invsub.Length == g.edges
    modifies g, g.im, g.start, g.end
    ensures g.Valid() && g.im == old(g.im) && g.start == old(g.start) && g.end == old(g.end)
    ensures g.State() == CollapseMarked(old(g.State()), invsub[..], invsub.Length)
  {
    ghost var s := g.State();
    var k := g.edges;
    while k > 0
      invariant 0 <= k <= g.edges && k <= invsub.Length && g.Valid()
      invariant g.im == old(g.im) && g.start == old(g.start) && g.end == old(g.end)
      invariant CollapseMarked(s, invsub[..], invsub.Length) == CollapseMarked(g.State(), invsub[..], k)
    {
      k := k - 1;
      if invsub[k] {
        var _ := g.CollapseEdge(k);
      }
    }
  }

  // ---- cleanItUp ----

  /** v1Homotopy repeated while it succeeds: valence-one edges collapsed until none is left. */
  function V1Loop(g: G.Graph): (h: G.Graph)
    requires Track(g)
    decreases g.edges
  {
    V1Track(g);
    var (k, f) := H.V1Homotopy(g);
    if f then V1Loop(k) else g
  }

  /** collapseInvForest repeated while it succeeds, each success followed by tightenPlus. */
  ghost function ForestLoop(g: G.Graph): Result<G.Graph>
    requires Track(g)
    decreases g.edges
  {
    CollapseInvForestSpec(g);
    match CollapseInvForest(g)
    case Err(m) => Err(m)
    case Ok((h, f)) =>
      if f then TightenPlusTrack(h); ForestLoop(H.TightenPlus(h).0) else Ok(h)
  }

  /** The do-while loop of cleanItUp: tighten, collapse forests, and go round again after a valence-two homotopy. */
  ghost function CleanRounds(g: G.Graph, isBigger: (G.Graph, nat, nat) -> bool): Result<G.Graph>
    requires Track(g)
    decreases g.edges
  {
    TightenPlusTrack(g);
    var t := H.TightenPlus(g).0;
    ForestLoopSpec(t);
    match ForestLoop(t)
    case Err(m) => Err(m)
    case Ok(h) =>
      V2Track(h, isBigger);
      var (k, f) := H.V2Homotopy(h, isBigger);
      if f then CleanRounds(k, isBigger) else Ok(h)
  }

  /** cleanItUp: the valence-one homotopies, then the rounds; isBigger decides the joins. */
  ghost function CleanItUp(g: G.Graph, isBigger: (G.Graph, nat, nat) -> bool): Result<G.Graph>
    requires Track(g)
  {
    V1LoopSpec(g);
    CleanRounds(V1Loop(g), isBigger)
  }

  /** After the valence-one loop no edge ends at a vertex of valence one, and no edge was added. */
  lemma {:induction false} V1LoopSpec(g: G.Graph)
    requires Track(g)
    ensures Track(V1Loop(g)) && V1Loop(g).edges <= g.edges
    ensures forall e :: 0 <= e < V1Loop(g).edges ==> !H.AtValenceOne(V1Loop(g), e)
    decreases g.edges
  {
    V1Track(g);
    H.V1HomotopySpec(g);
    if H.V1Homotopy(g).1 {
      V1LoopSpec(H.V1Homotopy(g).0);
    }
  }

  /** The forest loop fails only on running out of edges; otherwise it leaves a track without an invariant forest. */
  lemma {:induction false} ForestLoopSpec(g: G.Graph)
    requires Track(g)
    ensures ForestLoop(g).Err? ==> ForestLoop(g).msg == NoEdges
    ensures ForestLoop(g).Ok? ==>
      var h := ForestLoop(g).value;
      Track(h) && h.edges <= g.edges &&
      forall i :: 0 <= i < h.edges ==> !F.ComponentsPass(h, I.Closure(h, i))
    decreases g.edges
  {
    CollapseInvForestSpec(g);
    match CollapseInvForest(g)
    case Err(m) =>
    case Ok((h, f)) =>
      if f {
        TightenPlusTrack(h);
        ForestLoopSpec(H.TightenPlus(h).0);
      }
  }

  /**
   * What cleanItUp promises: it fails only when a map runs out of edges, and
   * otherwise leaves a train track with no more edges than before, in which no edge
   * that is not a loop ends at a vertex of valence two and no invariant subgraph
   * generated by one edge is a forest.
   */
  lemma {:induction false} CleanRoundsSpec(g: G.Graph, isBigger: (G.Graph, nat, nat) -> bool)
    requires Track(g)
    ensures CleanRounds(g, isBigger).Err? ==> CleanRounds(g, isBigger).msg == NoEdges
    ensures CleanRounds(g, isBigger).Ok? ==>
      var h := CleanRounds(g, isBigger).value;
      Track(h) && h.edges <= g.edges &&
      (forall e :: 0 <= e < h.edges ==> !H.AtValenceTwo(h, e)) &&
      forall i :: 0 <= i < h.edges ==> !F.ComponentsPass(h, I.Closure(h, i))
    decreases g.edges
  {
    TightenPlusTrack(g);
    var t := H.TightenPlus(g).0;
    ForestLoopSpec(t);
    match ForestLoop(t)
    case Err(m) =>
    case Ok(h) =>
      V2Track(h, isBigger);
      H.V2HomotopySpec(h, isBigger);
      if H.V2Homotopy(h, isBigger).1 {
        CleanRoundsSpec(H.V2Homotopy(h, isBigger).0, isBigger);
      }
  }

  /** cleanItUp on a track: see CleanRoundsSpec. */
  lemma CleanItUpSpec(g: G.Graph, isBigger: (G.Graph, nat, nat) -> bool)
    requires Track(g)
    ensures CleanItUp(g, isBigger).Err? ==> CleanItUp(g, isBigger).msg == NoEdges
    ensures CleanItUp(g, isBigger).Ok? ==>
      var h := CleanItUp(g, isBigger).value;
      Track(h) && h.edges <= g.edges &&
      (forall e :: 0 <= e < h.edges ==> !H.AtValenceTwo(h, e)) &&
      forall i :: 0 <= i < h.edges ==> !F.ComponentsPass(h, I.Closure(h, i))
  {
    V1LoopSpec(g);
    CleanRoundsSpec(V1Loop(g), isBigger);
  }

  /** v1Homotopy repeated while it succeeds, on a train track. */
  method V1Run(g: GM.GraphMap)
    requires g.Valid() && Track(g.State())
    modifies g, g.im, g.start, g.end
    ensures g.Valid() && g.im == old(g.im) && g.start == old(g.start) && g.end == old(g.end)
    ensures g.State() == V1Loop(old(g.State()))
  {
    var flag := true;
    while flag
      invariant g.Valid() && Track(g.State())
      invariant g.im == old(g.im) && g.start == old(g.start) && g.end == old(g.end)
      invariant V1Loop(old(g.State())) == (if flag then V1Loop(g.State()) else g.State())
      decreases g.edges, if flag then 1 else 0
    {
      V1Track(g.State());
      flag := H.V1HomotopyStep(g);
    }
  }

  /** collapseInvForest repeated while it succeeds, each success followed by tightenPlus, on a train track. */
  method ForestRun(g: GM.GraphMap) returns (r: Outcome)
    requires g.Valid() && Track(g.State())
    modifies g, g.im, g.start, g.end
    ensures g.Valid() && g.im == old(g.im) && g.start == old(g.start) && g.end == old(g.end)
    ensures match ForestLoop(old(g.State()))
      case Ok(h) => r == Pass && g.State() == h
      case Err(m) => r == Fail(m)
  {
    while true
      invariant g.Valid() && Track(g.State())
      invariant g.im == old(g.im) && g.start == old(g.start) && g.end == old(g.end)
      invariant ForestLoop(old(g.State())) == ForestLoop(g.State())
      decreases g.edges
    {
      CollapseInvForestSpec(g.State());
      var c := CollapseInvForestRun(g);
      if c.Err? {
        return Fail(c.msg);
      }
      if !c.value {
        return Pass;
      }
      TightenPlusTrack(g.State());
      var _ := H.TightenPlusStep(g);
    }
  }

  /** cleanItUp on a train track, isBigger choosing the direction of each join. */
  method CleanItUpRun(g: GM.GraphMap, isBigger: (G.Graph, nat, nat) -> bool) returns (r: Outcome)
    requires g.Valid() && Track(g.State())
    modifies g, g.im, g.start, g.end
    ensures g.Valid() && g.im == old(g.im) && g.start == old(g.start) && g.end == old(g.end)
    ensures match CleanItUp(old(g.State()), isBigger)
      case Ok(h) => r == Pass && g.State() == h
      case Err(m) => r == Fail(m)
  {
    V1LoopSpec(g.State());
    V1Run(g);
    while true
      invariant g.Valid() && Track(g.State())
      invariant g.im == old(g.im) && g.start == old(g.start) && g.end == old(g.end)
      invariant CleanItUp(old(g.State()), isBigger) == CleanRounds(g.State(), isBigger)
      decreases g.edges
    {
      TightenPlusTrack(g.State());
      var _ := H.TightenPlusStep(g);
      ForestLoopSpec(g.State());
      r := ForestRun(g);
      if r.Fail? {
        return;
      }
      V2Track(g.State(), isBigger);
      var more := H.V2HomotopyStep(g, isBigger);
      if !more {
        return Pass;
      }
    }
  }

  // ---- trainTrackMap ----

  /** The end of trainTrackMap: its answer, the exception it lets through, or the fuel spent. */
  datatype Run = Finished(trainTrack: bool) | Raised(msg: string) | OutOfFuel

  /** What trainTrackMap relies on splitAndFold for: it fails, or it leaves a train track. */
  ghost predicate FoldKeepsTrack(fold: (G.Graph, Sym, Sym) -> Result<G.Graph>)
  {
    forall h, a, b :: Track(h) && fold(h, a, b).Ok? ==> Track(fold(h, a, b).value)
  }

  /** The map h put into g, in buffers of its own. */
  method Install(g: GM.GraphMap, h: G.Graph)
    requires G.Valid(h)
    modifies g
    ensures g.Valid() && g.State() == h && fresh(g.im) && fresh(g.start) && fresh(g.end)
  {
    var im := new P.Path[|h.im|](i requires 0 <= i < |h.im| => h.im[i]);
    var start := new int[|h.start|](i requires 0 <= i < |h.start| => h.start[i]);
    var end := new int[|h.end|](i requires 0 <= i < |h.end| => h.end[i]);
    g.Load(h, im, start, end, g.strict);
  }

  /** Splitting an edge of a track gives a track. */
  lemma SplitTrack(g: G.Graph, ed: nat, at: nat)
    requires Track(g) && G.SplitEdge(g, ed, at).Ok?
    ensures Track(G.SplitEdge(g, ed, at).value) && G.SplitEdge(g, ed, at).value.edges == g.edges + 1
    ensures G.SplitEdge(g, ed, at).value.vertices == g.vertices + 1
  {
    G.SplitEdgeSpec(g, ed, at);
    G.SplitEdgeWellFormed(g, ed, at);
  }

  /** Exchanging two vertices of a track gives a track. */
  lemma SwapTrack(g: G.Graph, v1: int, v2: int)
    requires Track(g) && 0 <= v1 < g.vertices && 0 <= v2 < g.vertices
    ensures G.SwapVertices(g, v1, v2) == G.SwapVerticesChecked(g, v1, v2)
    ensures Track(G.SwapVertices(g, v1, v2).value) && G.SwapVertices(g, v1, v2).value.edges == g.edges
  {
    G.SwapVerticesCheckedSpec(g, v1, v2);
  }

  /**
   * One round of the loop of trainTrackMap at the illegal turn (a, b): edge a split
   * after position b, turned round, its new start renumbered 0, then split and folded
   * by the oracle and cleaned up. false when one of them throws.
   */
  method Improve(g: GM.GraphMap, a: int, b: int, isBigger: (G.Graph, nat, nat) -> bool,
                 fold: (G.Graph, Sym, Sym) -> Result<G.Graph>) returns (ok: bool)
    requires g.Valid() && Track(g.State()) && T.IsTurn(g.State(), a, b) && FoldKeepsTrack(fold)
    modifies g, g.im, g.start, g.end
    ensures g.Valid() && (ok ==> Track(g.State()))
    ensures g.im == old(g.im) || fresh(g.im)
    ensures g.start == old(g.start) || fresh(g.start)
    ensures g.end == old(g.end) || fresh(g.end)
  {
    ok := TurnRound(g, a, b);
    if !ok {
      return;
    }
    var res := fold(g.State(), IndexToSym(a, false), IndexToSym(g.edges - 1, false));
    if res.Err? {
      return false;
    }
    Install(g, res.value);
    CleanItUpSpec(g.State(), isBigger);
    var r := CleanItUpRun(g, isBigger);
    ok := r.Pass?;
  }

  /**
   * The first half of a round: edge a split after position b, turned round, and its
   * new start renumbered 0; false when the split throws. The map stays a train track.
   */
  method TurnRound(g: GM.GraphMap, a: int, b: int) returns (ok: bool)
    requires g.Valid() && Track(g.State()) && T.IsTurn(g.State(), a, b)
    modifies g, g.im, g.start, g.end
    ensures g.Valid() && (ok ==> Track(g.State()))
    ensures g.im == old(g.im) || fresh(g.im)
    ensures g.start == old(g.start) || fresh(g.start)
    ensures g.end == old(g.end) || fresh(g.end)
  {
    ghost var s := g.State();
    var r := g.SplitEdge(a, b + 1);
    if r.Fail? {
      return false;
    }
    SplitTrack(s, a, b + 1);
    G.ReversedWellFormed(g.State(), a);
    r := g.ReverseEdge(a);
    SwapTrack(g.State(), g.start[a], 0);
    r := g.SwapVertices(g.start[a], 0);
    ok := true;
  }

  /**
   * trainTrackMap: clean up, then while there is an illegal turn and the transition
   * matrix is irreducible, improve the map at the turn. An exception in the loop is
   * caught and answered false (caught tells the proof so); at the end a map that
   * fails isGoodMap is answered false, and otherwise the answer says whether no
   * illegal turn is left. fuel bounds the number of rounds.
   */
  method TrainTrackMap(g: GM.GraphMap, isBigger: (G.Graph, nat, nat) -> bool,
                       fold: (G.Graph, Sym, Sym) -> Result<G.Graph>, fuel: nat) returns (r: Run, ghost caught: bool)
    requires g.Valid() && Track(g.State()) && FoldKeepsTrack(fold)
    modifies g, g.im, g.start, g.end
    ensures g.Valid()
    ensures r.Raised? ==> r.msg == NoEdges
    ensures r == Finished(true) ==>
      Track(g.State()) && G.IsGoodMap(g.State()) == Pass && forall k, l :: !T.Counts(g.State(), k, l)
    ensures r == Finished(false) && !caught ==>
      Track(g.State()) &&
      (G.IsGoodMap(g.State()) != Pass ||
       ((exists k, l :: T.Counts(g.State(), k, l)) && !M.Irreducible(H.Transition(g.State()), g.edges)))
  {
    caught := false;
    CleanItUpSpec(g.State(), isBigger);
    var c := CleanItUpRun(g, isBigger);
    if c.Fail? {
      return Raised(c.msg), false;
    }
    var flag, early;
    flag, early, caught := Rounds(g, isBigger, fold, fuel);
    if early.Some? {
      return early.value, caught;
    }
    var good := g.IsGoodMap();
    if good.Fail? {
      return Finished(false), false;
    }
    r := Finished(!flag);
  }

  /**
   * The loop of trainTrackMap: while an illegal turn is left and the transition matrix
   * is irreducible, improve the map at the turn. flag says whether an illegal turn is
   * left; early is the answer when the loop ends otherwise (out of fuel, or improve
   * raised an exception, which caught records).
   */
  method Rounds(g: GM.GraphMap, isBigger: (G.Graph, nat, nat) -> bool,
                fold: (G.Graph, Sym, Sym) -> Result<G.Graph>, fuel: nat)
    returns (flag: bool, early: Option<Run>, ghost caught: bool)
    requires g.Valid() && Track(g.State()) && FoldKeepsTrack(fold)
    modifies g, g.im, g.start, g.end
    ensures g.Valid()
    ensures early.Some? ==> (early.value == OutOfFuel && !caught) || (early.value == Finished(false) && caught)
    ensures early.None? ==> Track(g.State()) && !caught
    ensures early.None? && !flag ==> forall k, l :: !T.Counts(g.State(), k, l)
    ensures early.None? && flag ==>
      (exists k, l :: T.Counts(g.State(), k, l)) && !M.Irreducible(H.Transition(g.State()), g.edges)
  {
    caught := false;
    var fl := fuel;
    while true
      invariant g.Valid() && Track(g.State())
      invariant g.im == old(g.im) || fresh(g.im)
      invariant g.start == old(g.start) || fresh(g.start)
      invariant g.end == old(g.end) || fresh(g.end)
      decreases fl
    {
      var t := T.FindIllegalTurn(g);
      flag := t.Some?;
      if !flag {
        return flag, None, false;
      }
      TrackImagesWithin(g.State());
      var irr := H.IsIrreducible(g);
      if !irr {
        return flag, None, false;
      }
      if fl == 0 {
        return flag, Some(OutOfFuel), false;
      }
      fl := fl - 1;
      var ok := Improve(g, t.value.0, t.value.1, isBigger, fold);
      if !ok {
        return flag, Some(Finished(false)), true;
      }
    }
  }
}
