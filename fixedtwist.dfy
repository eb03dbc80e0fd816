/**
 * twistWithFixedWord(fx, twists, lab) (DehnTwist.java): the Dehn twists of a surface
 * given by a fixed word rather than a boundary word. The rose of the fixed word gets
 * a spanning tree (the text after a dot, or one found by spanningTree); the fixed word
 * with the tree edges deleted is dualized into a boundary word of the tree-collapsed
 * rose; each loop, with the tree edges deleted, is twisted with respect to that word,
 * and the images are made continuous again by filling in the tree paths between the
 * ends of consecutive letters.
 */
module FixedTwists {
  import opened Wrappers
  import opened Letters
  import P = Paths
  import G = Graphs
  import B = Boundary
  import T = Trees
  import W = Words
  import R = Reading
  import GM = GraphMaps
  import RC = Reach
  import D = DehnTwists
  import Numerals

  /** The character that separates the fixed word from the spanning tree. */
  const DOT := '.'

  /** What charAt(0) of an empty image throws. */
  const EmptyImage := "String index out of range: 0"

  // ---- the text ----

  /** indexOf(DOT): the first place of a dot, or |s| when there is none. */
  function Dot(s: string): (k: nat)
    ensures k <= |s|
    ensures k < |s| ==> s[k] == DOT
    ensures forall j :: 0 <= j < k ==> s[j] != DOT
    decreases |s|
  {
    if s == [] || s[0] == DOT then 0 else 1 + Dot(s[1..])
  }

  /** The fixed word before the dot and the spanning tree after it (empty without a dot). */
  function SplitFixed(fx: string): (r: Result<(P.Path, P.Path)>)
  {
    var k := Dot(fx);
    match R.ReadPath(fx[..k])
    case Err(m) => Err(m)
    case Ok(fw) =>
      if k == |fx| then Ok((fw, []))
      else
        match R.ReadPath(fx[k + 1..])
        case Err(m) => Err(m)
        case Ok(sp) => Ok((fw, sp))
  }

  /** No label of a letter holds a dot. */
  lemma {:induction false} NoDot(p: P.Path)
    ensures DOT !in PathToString(p)
    decreases |p|
  {
    if p != [] {
      var lab := SymToLabel(p[0]);
      NoDot(p[1..]);
      forall j | 0 <= j < |lab| ensures lab[j] != DOT {
        if j > 0 {
          assert lab[j] == lab[1..][j - 1];
        }
      }
    }
  }

  /** Printing a fixed word and a tree with a dot between them and splitting the text gives them back. */
  lemma SplitFixedText(fw: P.Path, sp: P.Path)
    ensures SplitFixed(PathToString(fw)) == Ok((fw, []))
    ensures sp != [] ==> SplitFixed(PathToString(fw) + [DOT] + PathToString(sp)) == Ok((fw, sp))
  {
    var a, b := PathToString(fw), PathToString(sp);
    NoDot(fw);
    PathStringRoundTrip(fw);
    PathStringRoundTrip(sp);
    assert Dot(a) == |a|;
    assert a[..|a|] == a;
    if sp != [] {
      var s := a + [DOT] + b;
      assert s[|a|] == DOT;
      assert Dot(s) == |a|;
      assert s[..|a|] == a && s[|a| + 1..] == b;
    }
  }

  // ---- the setup: the rose of the fixed word and its spanning tree ----

  /** The fixed word, its rose, and the spanning tree that is evaluated. */
  datatype Setup = Setup(fw: P.Path, rose: G.Graph, tree: P.Path)

  /**
   * Reading fx, identityFromFixed of the fixed word, and the tree: the one after the
   * dot, or auto, the tree spanningTree finds, when there is none. evaluateTree reads
   * the ends of the tree edges; a rose with an edge end the numbering never reached
   * fails here.
   */
  function SetupOf(fx: string, auto: P.Path): (r: Result<Setup>)
    ensures r.Ok? ==> GM.FixedRose(r.value.rose, r.value.fw) && G.EndpointsOK(r.value.rose)
  {
    match SplitFixed(fx)
    case Err(m) => Err(m)
    case Ok(pair) =>
      match GM.FixedRoseOf(pair.0)
      case Err(m) => Err(m)
      case Ok(rose) =>
        GM.FixedRoseOfShape(pair.0);
        if !G.EndpointsOK(rose) then Err(D.OutOfRange)
        else Ok(Setup(pair.0, rose, if pair.1 == [] then auto else pair.1))
  }

  /** The flags of a fresh boolean array. */
  function Blank(n: nat): (r: seq<bool>)
    ensures |r| == n
  {
    seq(n, _ => false)
  }

  /** The first two checks of evaluateTree: every letter names an edge, and the tree has vertices - 1 edges. */
  function TreeCheck(s: Setup): (r: Outcome)
    requires G.Valid(s.rose)
  {
    if !P.LettersBelow(s.tree, s.rose.edges) then Fail("array index out of bounds")
    else if T.Marks(Blank(s.rose.edges), s.tree).1 != s.rose.vertices - 1 then
      Fail("wrong number of edges in spanning tree: " + PathToString(s.tree))
    else Pass
  }

  /** A tree that passes names vertices - 1 distinct edges, and exactly those are flagged. */
  lemma TreeCheckCounts(s: Setup)
    requires G.Valid(s.rose) && TreeCheck(s) == Pass
    ensures |T.Named(s.tree)| == s.rose.vertices - 1
    ensures forall k :: 0 <= k < s.rose.edges ==> (T.Marks(Blank(s.rose.edges), s.tree).0[k] <==> k in T.Named(s.tree))
  {
    var n := s.rose.edges;
    assert T.Cleared(Blank(n), n) == Blank(n);
    T.TreeCount(Blank(n), n, s.tree);
  }

  /**
   * The tree paths of evaluateTree as a table: a square of the number of vertices,
   * each entry running from its row to its column along flagged edges only.
   */
  predicate TreePaths(g: G.Graph, table: seq<seq<P.Path>>, flags: seq<bool>)
  {
    G.Valid(g) && |table| == g.vertices &&
    (forall a :: 0 <= a < |table| ==> |table[a]| == |table|) &&
    (forall a, b :: 0 <= a < |table| && 0 <= b < |table[a]| ==> G.EndOf(g, table[a][b], a) == Some(b)) &&
    TreeLetters(table, flags)
  }

  /** Every entry of the table runs along flagged edges only. */
  predicate TreeLetters(table: seq<seq<P.Path>>, flags: seq<bool>)
  {
    forall a, b :: 0 <= a < |table| && 0 <= b < |table[a]| ==> T.LettersIn(table[a][b], flags)
  }

  /** The contents of an array of paths, row by row. */
  function TableOf(path: array2<P.Path>): (t: seq<seq<P.Path>>)
    reads path
    ensures |t| == path.Length0
    ensures forall a :: 0 <= a < |t| ==> |t[a]| == path.Length1
    ensures forall a, b :: 0 <= a < path.Length0 && 0 <= b < path.Length1 ==> t[a][b] == path[a, b]
  {
    seq(path.Length0, a requires 0 <= a < path.Length0 reads path =>
      seq(path.Length1, b requires 0 <= b < path.Length1 reads path => path[a, b]))
  }

  /** What evaluateTree leaves in its array makes a table of tree paths. */
  lemma SpannedTable(g: G.Graph, path: array2<P.Path>, flags: seq<bool>)
    requires G.Valid(g) && GM.Spanned(g, path, flags) && path.Length0 == g.vertices
    ensures TreePaths(g, TableOf(path), flags)
  {
    var t := TableOf(path);
    forall a, b | 0 <= a < |t| && 0 <= b < |t[a]|
      ensures G.EndOf(g, t[a][b], a) == Some(b)
    {
      assert GM.WalkAt(g, path, flags, a, b);
      if a < b {
        assert GM.SettledAt(path, a, b);
      } else if b < a {
        assert GM.SettledAt(path, b, a);
      }
    }
    forall a, b | 0 <= a < |t| && 0 <= b < |t[a]|
      ensures T.LettersIn(t[a][b], flags)
    {
      assert GM.WalkAt(g, path, flags, a, b);
    }
  }

  // ---- deleting the tree edges ----

  /** A letter of an edge flagged below n. */
  predicate InTree(c: Sym, flags: seq<bool>, n: nat)
  {
    c.index < n && c.index < |flags| && flags[c.index]
  }

  /** w with every letter of an edge flagged below n deleted. */
  function Off(w: P.Path, flags: seq<bool>, n: nat): (r: P.Path)
    ensures |r| <= |w|
    decreases |w|
  {
    if w == [] then []
    else (if InTree(w[0], flags, n) then [] else [w[0]]) + Off(w[1..], flags, n)
  }

  /** The loop of removeEdge calls: the flagged edges below n, one after the other. */
  function PrunedUpTo(w: P.Path, flags: seq<bool>, n: nat): P.Path
    requires n <= |flags|
  {
    if n == 0 then w
    else
      var p := PrunedUpTo(w, flags, n - 1);
      if flags[n - 1] then P.RemoveEdge(p, n - 1) else p
  }

  /** w with the edges of the spanning tree removed, as the loops of twist compute it. */
  function Pruned(w: P.Path, flags: seq<bool>): P.Path
  {
    PrunedUpTo(w, flags, |flags|)
  }

  lemma {:induction false} OffAppend(a: P.Path, b: P.Path, flags: seq<bool>, n: nat)
    ensures Off(a + b, flags, n) == Off(a, flags, n) + Off(b, flags, n)
    decreases |a|
  {
    if a != [] {
      assert (a + b)[0] == a[0] && (a + b)[1..] == a[1..] + b;
      OffAppend(a[1..], b, flags, n);
    } else {
      assert a + b == b;
    }
  }

  /** Removing flagged edge n from w with the flagged edges below n deleted deletes those up to n. */
  lemma {:induction false} OffNext(w: P.Path, flags: seq<bool>, n: nat)
    requires n < |flags|
    ensures Off(w, flags, n + 1) == if flags[n] then P.RemoveEdge(Off(w, flags, n), n) else Off(w, flags, n)
    decreases |w|
  {
    if w != [] {
      OffNext(w[1..], flags, n);
      var h := if InTree(w[0], flags, n) then [] else [w[0]];
      P.RemoveEdgeAppend(h, Off(w[1..], flags, n), n);
      if h != [] {
        assert h[1..] == [];
      }
    }
  }

  lemma {:induction false} OffNone(w: P.Path, flags: seq<bool>)
    ensures Off(w, flags, 0) == w
    decreases |w|
  {
    if w != [] {
      OffNone(w[1..], flags);
      assert [w[0]] + w[1..] == w;
    }
  }

  /** The removeEdge loop deletes exactly the letters of the flagged edges. */
  lemma {:induction false} PrunedOff(w: P.Path, flags: seq<bool>, n: nat)
    requires n <= |flags|
    ensures PrunedUpTo(w, flags, n) == Off(w, flags, n)
  {
    if n == 0 {
      OffNone(w, flags);
    } else {
      PrunedOff(w, flags, n - 1);
      OffNext(w, flags, n - 1);
    }
  }

  /** A word of the tree loses every letter. */
  lemma {:induction false} OffOfTree(p: P.Path, flags: seq<bool>)
    requires T.LettersIn(p, flags)
    ensures Off(p, flags, |flags|) == []
    decreases |p|
  {
    if p != [] {
      OffOfTree(p[1..], flags);
    }
  }

  /** A pruned word keeps the letters off the tree, in their order, and no tree letter. */
  lemma PrunedOffTree(w: P.Path, flags: seq<bool>)
    ensures Pruned(w, flags) == Off(w, flags, |flags|)
    ensures forall i :: 0 <= i < |Pruned(w, flags)| ==> !InTree(Pruned(w, flags)[i], flags, |flags|)
  {
    PrunedOff(w, flags, |flags|);
    OffLetters(w, flags, |flags|);
  }

  lemma {:induction false} OffLetters(w: P.Path, flags: seq<bool>, n: nat)
    ensures forall i :: 0 <= i < |Off(w, flags, n)| ==> !InTree(Off(w, flags, n)[i], flags, n)
    decreases |w|
  {
    if w != [] {
      OffLetters(w[1..], flags, n);
    }
  }

  // ---- filling in the tree paths ----

  /** path[a][b], or the throw of an index outside the table. */
  function Entry(table: seq<seq<P.Path>>, a: Option<int>, b: Option<int>): (r: Result<P.Path>)
    ensures r.Ok? <==> a.Some? && 0 <= a.value < |table| && b.Some? && 0 <= b.value < |table[a.value]|
    ensures r.Ok? ==> r.value == table[a.value][b.value]
  {
    if a.Some? && 0 <= a.value < |table| && b.Some? && 0 <= b.value < |table[a.value]| then
      Ok(table[a.value][b.value])
    else Err(D.OutOfRange)
  }

  /**
   * The letters im filled in from vertex a on and closed at vertex e: before each
   * letter the tree path from where the last one ended to where it starts, after the
   * last the tree path to e.
   */
  function FillFrom(g: G.Graph, table: seq<seq<P.Path>>, im: P.Path, a: Option<int>, e: int): Result<P.Path>
    requires G.Valid(g)
    decreases |im|
  {
    if im == [] then Entry(table, a, Some(e))
    else
      match Entry(table, a, G.FirstVertex(g, im[0]))
      case Err(m) => Err(m)
      case Ok(p) =>
        match FillFrom(g, table, im[1..], G.LastVertex(g, im[0]), e)
        case Err(m) => Err(m)
        case Ok(q) => Ok(p + [im[0]] + q)
  }

  /** The new image of edge k: its image filled in from its start to its end. */
  function FillImage(g: G.Graph, table: seq<seq<P.Path>>, k: nat): Result<P.Path>
    requires G.Valid(g) && k < g.edges
  {
    if !(0 <= g.start[k] < |table|) then Err(D.OutOfRange)
    else if g.im[k] == [] then Err(EmptyImage)
    else FillFrom(g, table, g.im[k], Some(g.start[k]), g.end[k])
  }

  /** The images of the edges from k on: tree edges keep theirs, the others are filled in. */
  function Filled(g: G.Graph, table: seq<seq<P.Path>>, flags: seq<bool>, k: nat): (r: Result<seq<P.Path>>)
    requires G.Valid(g) && k <= g.edges
    ensures r.Ok? ==> |r.value| == g.edges - k
    decreases g.edges - k
  {
    if k == g.edges then Ok([])
    else if k >= |flags| then Err(D.OutOfRange)
    else
      match (if flags[k] then Ok(g.im[k]) else FillImage(g, table, k))
      case Err(m) => Err(m)
      case Ok(p) =>
        match Filled(g, table, flags, k + 1)
        case Err(m) => Err(m)
        case Ok(ps) => Ok([p] + ps)
  }

  /** The map with its images filled in, then tightened. */
  function FilledMap(g: G.Graph, table: seq<seq<P.Path>>, flags: seq<bool>): (r: Result<G.Graph>)
    requires G.Valid(g)
    ensures r.Ok? ==> G.Valid(r.value)
  {
    match Filled(g, table, flags, 0)
    case Err(m) => Err(m)
    case Ok(ps) => Ok(G.Tightened(g.(im := ps + g.im[g.edges..])))
  }

  /** A successful fill starts with a vertex of the table. */
  lemma FillFromStarts(g: G.Graph, table: seq<seq<P.Path>>, im: P.Path, a: Option<int>, e: int)
    requires G.Valid(g) && FillFrom(g, table, im, a, e).Ok?
    ensures a.Some? && 0 <= a.value < |table|
  {
  }

  /** Filling in is what makes an image continuous: the filled word runs from a to e in the graph. */
  lemma {:induction false} FillFromRuns(g: G.Graph, table: seq<seq<P.Path>>, flags: seq<bool>, im: P.Path, a: int, e: int)
    requires TreePaths(g, table, flags) && FillFrom(g, table, im, Some(a), e).Ok?
    ensures G.EndOf(g, FillFrom(g, table, im, Some(a), e).value, a) == Some(e)
    decreases |im|
  {
    if im != [] {
      var c := im[0];
      var p := table[a][G.FirstVertex(g, c).value];
      var l := G.LastVertex(g, c);
      FillFromStarts(g, table, im[1..], l, e);
      var q := FillFrom(g, table, im[1..], l, e).value;
      FillFromRuns(g, table, flags, im[1..], l.value, e);
      G.EndOfAppend(g, p + [c], q, a);
      G.EndOfAppend(g, p, [c], a);
      assert [c][1..] == [];
    }
  }

  /** Filling in adds tree letters only: deleting them gives back the letters of im off the tree. */
  lemma {:induction false} FillFromOff(g: G.Graph, table: seq<seq<P.Path>>, flags: seq<bool>, im: P.Path, a: int, e: int)
    requires G.Valid(g) && TreeLetters(table, flags) && FillFrom(g, table, im, Some(a), e).Ok?
    ensures Off(FillFrom(g, table, im, Some(a), e).value, flags, |flags|) == Off(im, flags, |flags|)
    decreases |im|
  {
    var n := |flags|;
    if im == [] {
      OffOfTree(table[a][e], flags);
    } else {
      var c := im[0];
      var p := table[a][G.FirstVertex(g, c).value];
      var l := G.LastVertex(g, c);
      FillFromStarts(g, table, im[1..], l, e);
      var q := FillFrom(g, table, im[1..], l, e).value;
      assert FillFrom(g, table, im, Some(a), e).value == p + [c] + q;
      FillFromOff(g, table, flags, im[1..], l.value, e);
      OffAppend(p + [c], q, flags, n);
      OffAppend(p, [c], flags, n);
      OffOfTree(p, flags);
      OffAppend([c], im[1..], flags, n);
      assert [c] + im[1..] == im;
    }
  }

  /** A filled image runs from the start of its edge to its end, and keeps its letters off the tree. */
  lemma FillImageRuns(g: G.Graph, table: seq<seq<P.Path>>, flags: seq<bool>, k: nat)
    requires TreePaths(g, table, flags) && k < g.edges && FillImage(g, table, k).Ok?
    ensures G.EndOf(g, FillImage(g, table, k).value, g.start[k]) == Some(g.end[k])
    ensures Off(FillImage(g, table, k).value, flags, |flags|) == Off(g.im[k], flags, |flags|)
  {
    var im, a, e := g.im[k], g.start[k], g.end[k];
    assert FillImage(g, table, k) == FillFrom(g, table, im, Some(a), e);
    FillFromRuns(g, table, flags, im, a, e);
    FillFromOff(g, table, flags, im, a, e);
  }

  /** Slot j of the filled images from k on: the old image on the tree, the filled one off it. */
  lemma {:induction false} FilledAt(g: G.Graph, table: seq<seq<P.Path>>, flags: seq<bool>, k: nat, j: nat)
    requires G.Valid(g) && k <= j < g.edges && Filled(g, table, flags, k).Ok?
    ensures j < |flags|
    ensures !flags[j] ==> FillImage(g, table, j).Ok?
    ensures Filled(g, table, flags, k).value[j - k] ==
      if flags[j] then g.im[j] else FillImage(g, table, j).value
    decreases j - k
  {
    if k < j {
      FilledAt(g, table, flags, k + 1, j);
    }
  }

  /** A path runs the same in two graphs with the same ends and capacity. */
  lemma {:induction false} EndOfSameEnds(g: G.Graph, h: G.Graph, p: P.Path, a: int)
    requires G.Valid(g) && G.Valid(h) && |g.im| == |h.im| && g.start == h.start && g.end == h.end
    ensures G.EndOf(g, p, a) == G.EndOf(h, p, a)
    decreases |p|
  {
    if p != [] && G.FirstVertex(g, p[0]) == Some(a) {
      EndOfSameEnds(g, h, p[1..], G.LastVertex(g, p[0]).value);
    }
  }

  /** Tree paths of one graph are tree paths of any graph with the same ends. */
  lemma TreePathsSameEnds(g: G.Graph, h: G.Graph, table: seq<seq<P.Path>>, flags: seq<bool>)
    requires TreePaths(g, table, flags) && G.Valid(h)
    requires |g.im| == |h.im| && g.start == h.start && g.end == h.end && g.vertices == h.vertices
    ensures TreePaths(h, table, flags)
  {
    forall a, b | 0 <= a < |table| && 0 <= b < |table[a]|
      ensures G.EndOf(h, table[a][b], a) == Some(b)
    {
      EndOfSameEnds(g, h, table[a][b], a);
    }
  }

  /**
   * The point of the filling: in the filled and tightened map every image of an edge
   * off the tree runs from the start of the edge to its end.
   */
  lemma FilledMapContinuous(g: G.Graph, table: seq<seq<P.Path>>, flags: seq<bool>, k: nat)
    requires TreePaths(g, table, flags) && FilledMap(g, table, flags).Ok?
    requires k < g.edges && k < |flags| && !flags[k]
    ensures var h := FilledMap(g, table, flags).value;
      G.EndOf(h, h.im[k], h.start[k]) == Some(h.end[k])
  {
    var ps := Filled(g, table, flags, 0).value;
    var f := g.(im := ps + g.im[g.edges..]);
    var a, e := g.start[k], g.end[k];
    assert f.im[k] == FillImage(g, table, k).value && G.EndOf(g, f.im[k], a) == Some(e) by {
      FilledAt(g, table, flags, 0, k);
      FillImageRuns(g, table, flags, k);
    }
    EndOfSameEnds(g, f, f.im[k], a);
    G.TightenEndOf(f, f.im[k], a, e);
    EndOfSameEnds(f, G.Tightened(f), P.Tighten(f.im[k]), a);
  }

  // ---- the twists ----

  /** What each twist works with: the rose, the reduced boundary word, the tree flags and the tree paths. */
  datatype Context = Context(rose: G.Graph, red: P.Path, flags: seq<bool>, table: seq<seq<P.Path>>)

  /**
   * The map of one twist along tw: the rose twisted along tw with the tree edges
   * deleted, with respect to the reduced boundary word, filled in and tightened, and
   * checked with isGoodMap.
   */
  function FixedTwisted(c: Context, tw: P.Path, inv: bool): (r: Result<G.Graph>)
    requires G.Valid(c.rose)
    ensures r.Ok? ==> G.Valid(r.value) && G.IsGoodMap(r.value) == Pass
  {
    match D.TwistSpec(c.rose, c.red, Pruned(tw, c.flags), inv)
    case Err(m) => Err("bad twist: " + PathToString(tw) + "\nturn " + m + " occurs twice")
    case Ok(gg) =>
      D.TwistBent(c.rose, c.red, Pruned(tw, c.flags), inv);
      match FilledMap(gg, c.table, c.flags)
      case Err(m) => Err(m)
      case Ok(hh) => if G.IsGoodMap(hh).Fail? then Err("bad twist: " + PathToString(tw)) else Ok(hh)
  }

  /** One twist along tw composed after g. */
  function FixedCompose(g: G.Graph, c: Context, tw: P.Path, inv: bool): (r: Result<G.Graph>)
    requires G.Valid(g) && G.Valid(c.rose)
    ensures r.Ok? ==> G.Valid(r.value)
  {
    match FixedTwisted(c, tw, inv)
    case Err(m) => Err(m)
    case Ok(hh) => G.Compose(g, hh)
  }

  /** The twisted rose has the graph of the rose, so the tree paths still run along it. */
  lemma TwistedTreePaths(c: Context, tw: P.Path, inv: bool)
    requires G.Valid(c.rose) && TreePaths(c.rose, c.table, c.flags)
    requires D.TwistSpec(c.rose, c.red, tw, inv).Ok?
    ensures var gg := D.TwistSpec(c.rose, c.red, tw, inv).value;
      G.Valid(gg) && gg.edges == c.rose.edges && TreePaths(gg, c.table, c.flags)
  {
    D.TwistBent(c.rose, c.red, tw, inv);
    var gg := D.TwistSpec(c.rose, c.red, tw, inv).value;
    TreePathsSameEnds(c.rose, gg, c.table, c.flags);
  }

  /**
   * Every image of an edge off the tree in the twisted, filled map that one twist
   * composes after g runs from the start of its edge to its end.
   */
  lemma FixedTwistContinuous(c: Context, tw: P.Path, inv: bool, k: nat)
    requires G.Valid(c.rose) && TreePaths(c.rose, c.table, c.flags)
    requires D.TwistSpec(c.rose, c.red, Pruned(tw, c.flags), inv).Ok?
    requires k < c.rose.edges && k < |c.flags| && !c.flags[k]
    ensures var gg := D.TwistSpec(c.rose, c.red, Pruned(tw, c.flags), inv).value;
      G.Valid(gg) && (FilledMap(gg, c.table, c.flags).Ok? ==>
        var hh := FilledMap(gg, c.table, c.flags).value;
        G.EndOf(hh, hh.im[k], hh.start[k]) == Some(hh.end[k]) &&
        hh.start[k] == c.rose.start[k] && hh.end[k] == c.rose.end[k])
  {
    TwistedTreePaths(c, Pruned(tw, c.flags), inv);
    var gg := D.TwistSpec(c.rose, c.red, Pruned(tw, c.flags), inv).value;
    if FilledMap(gg, c.table, c.flags).Ok? {
      FilledMapContinuous(gg, c.table, c.flags, k);
    }
  }

  /** One twist applied to g: the loop must be a loop of g's graph. */
  function ApplyFixed(g: G.Graph, c: Context, tw: P.Path, inv: bool): (r: Result<G.Graph>)
    requires G.Valid(g) && G.Valid(c.rose)
    ensures r.Ok? ==> G.Valid(r.value)
  {
    if !G.IsGoodLoop(g, tw) then Err("bad loop: " + PathToString(tw)) else FixedCompose(g, c, tw, inv)
  }

  /** The twists of t from place i on applied to g in turn, collecting the marking. */
  function TwistsFixedFrom(t: string, i: nat, g: G.Graph, m: D.Marking, c: Context): (r: Result<(G.Graph, D.Marking)>)
    requires i <= |t| + 1 && G.Valid(g) && G.Valid(c.rose)
    ensures r.Ok? ==> G.Valid(r.value.0)
    decreases |t| + 1 - i
  {
    if i >= |t| then Ok((g, m))
    else match D.ItemAt(t, i)
      case Err(e) => Err(e)
      case Ok(it) =>
        match D.LoopOf(it.text)
        case Err(e) => Err(e)
        case Ok(tw) =>
          match ApplyFixed(g, c, tw, it.inv)
          case Err(e) => Err(e)
          case Ok(g') => TwistsFixedFrom(t, it.last + 1, g', D.Marked(m, tw), c)
  }

  /**
   * After the tree: the fixed word with the tree edges deleted, dualized; the rose
   * labelled lab composed with the twist along each loop of the normalized twists;
   * the marking; and the final isGoodMap.
   */
  function FixedTwistsWith(s: Setup, flags: seq<bool>, table: seq<seq<P.Path>>, twists: string, lab: string): (r: Result<G.Graph>)
    requires G.Valid(s.rose)
    ensures r.Ok? ==> G.Valid(r.value) && G.IsGoodMap(r.value) == Pass && r.value.marked
  {
    match B.DualizeSpec(Pruned(s.fw, flags))
    case Err(m) => Err(m)
    case Ok(red) =>
      MarkedTwists(twists, lab, Context(s.rose, red, flags, table))
  }

  /**
   * The rose labelled lab composed with the twist along each loop of the normalized
   * twists, then the marking and the final isGoodMap.
   */
  function MarkedTwists(twists: string, lab: string, c: Context): (r: Result<G.Graph>)
    requires G.Valid(c.rose)
    ensures r.Ok? ==> G.Valid(r.value) && G.IsGoodMap(r.value) == Pass && r.value.marked
  {
    match TwistsFixedFrom(D.Normalize(twists), 0, c.rose.(name := lab), D.Marking([], []), c)
    case Err(m) => Err(m)
    case Ok(gm) =>
      var h := gm.0.(marked := true, mark := gm.1.loops, marklabel := gm.1.labels);
      if G.IsGoodMap(h).Fail? then Err(D.Unexpected) else Ok(h)
  }

  // ---- twist(fx, twists, lab, true) ----

  /** acc put in front of a successful result; a failure passes through. */
  function Glue<X>(acc: seq<X>, r: Result<seq<X>>): Result<seq<X>>
  {
    match r
    case Err(m) => Err(m)
    case Ok(xs) => Ok(acc + xs)
  }

  lemma GlueGlue<X>(acc: seq<X>, xs: seq<X>, r: Result<seq<X>>)
    ensures Glue(acc, Glue(xs, r)) == Glue(acc + xs, r)
  {
    if r.Ok? {
      assert acc + (xs + r.value) == acc + xs + r.value;
    }
  }

  /** The loop of removeEdge calls over the flagged edges. */
  method PruneWord(w: P.Path, spt: array<bool>) returns (r: P.Path)
    ensures r == Pruned(w, spt[..])
  {
    r := w;
    var i := 0;
    while i < spt.Length
      invariant 0 <= i <= spt.Length && r == PrunedUpTo(w, spt[..], i)
    {
      if spt[i] {
        r := W.RemoveEdge(r, i);
      }
      i := i + 1;
    }
  }

  /** path[a][b], or the throw of an index outside the array. */
  method Lookup(path: array2<P.Path>, a: Option<int>, b: Option<int>) returns (r: Result<P.Path>)
    ensures r == Entry(TableOf(path), a, b)
  {
    if a.Some? && 0 <= a.value < path.Length0 && b.Some? && 0 <= b.value < path.Length1 {
      r := Ok(path[a.value, b.value]);
    } else {
      r := Err(D.OutOfRange);
    }
  }

  /**
   * The new image of edge k of gg, whose ends and image of k are those of s: the tree
   * path from the start of k, then each letter followed by the tree path to the start
   * of the next, and the tree path to the end of k.
   */
  method FillImageOf(gg: GM.GraphMap, path: array2<P.Path>, k: nat, ghost s: G.Graph) returns (r: Result<P.Path>)
    requires gg.Valid() && G.Valid(s) && k < s.edges
    requires gg.im.Length == |s.im| && gg.start[..] == s.start && gg.end[..] == s.end && gg.im[k] == s.im[k]
    ensures r == FillImage(s, TableOf(path), k)
  {
    var im := gg.im[k];
    var a := gg.start[k];
    if !(0 <= a < path.Length0) {
      return Err(D.OutOfRange);
    }
    if im == [] {
      return Err(EmptyImage);
    }
    var fv := gg.FirstVertexOf(im[0]);
    var p := Lookup(path, Some(a), fv);
    if p.Err? {
      return p;
    }
    FillFromStep(s, TableOf(path), im, 0, Some(a), s.end[k]);
    r := FillRest(gg, path, im, p.value + [im[0]], gg.end[k], s);
  }

  /** One letter of a fill: the tree path to where im[l] starts, the letter, and the fill of the rest. */
  lemma FillFromStep(s: G.Graph, table: seq<seq<P.Path>>, im: P.Path, l: nat, a: Option<int>, e: int)
    requires G.Valid(s) && l < |im|
    ensures FillFrom(s, table, im[l..], a, e) ==
      match Entry(table, a, G.FirstVertex(s, im[l]))
      case Err(m) => Err(m)
      case Ok(q) => Glue(q + [im[l]], FillFrom(s, table, im[l + 1..], G.LastVertex(s, im[l]), e))
  {
    assert im[l..][0] == im[l] && im[l..][1..] == im[l + 1..];
  }

  /** The loop over the letters of im after the first, acc holding the fill so far. */
  method FillRest(gg: GM.GraphMap, path: array2<P.Path>, im: P.Path, acc0: P.Path, e: int, ghost s: G.Graph)
    returns (r: Result<P.Path>)
    requires gg.Valid() && G.Valid(s) && im != [] && acc0 != [] && acc0[|acc0| - 1] == im[0]
    requires gg.im.Length == |s.im| && gg.start[..] == s.start && gg.end[..] == s.end
    ensures r == Glue(acc0, FillFrom(s, TableOf(path), im[1..], G.LastVertex(s, im[0]), e))
  {
    ghost var table := TableOf(path);
    ghost var goal := Glue(acc0, FillFrom(s, table, im[1..], G.LastVertex(s, im[0]), e));
    var acc := acc0;
    var l := 1;
    while l < |im|
      invariant 1 <= l <= |im| && acc != [] && acc[|acc| - 1] == im[l - 1]
      invariant Glue(acc, FillFrom(s, table, im[l..], G.LastVertex(s, im[l - 1]), e)) == goal
    {
      var lv := gg.LastVertexOf(acc[|acc| - 1]);
      var fv := gg.FirstVertexOf(im[l]);
      var q := Lookup(path, lv, fv);
      FillFromStep(s, table, im, l, lv, e);
      if q.Err? {
        return Err(q.msg);
      }
      GlueGlue(acc, q.value + [im[l]], FillFrom(s, table, im[l + 1..], G.LastVertex(s, im[l]), e));
      acc := acc + (q.value + [im[l]]);
      l := l + 1;
    }
    var lv := gg.LastVertexOf(acc[|acc| - 1]);
    var q := Lookup(path, lv, Some(e));
    assert im[l..] == [];
    if q.Err? {
      return Err(q.msg);
    }
    r := Ok(acc + q.value);
  }

  /** The loop over the edges of gg: every edge off the tree gets its filled image (setImage). */
  method FillTree(gg: GM.GraphMap, spt: array<bool>, path: array2<P.Path>, ghost s: G.Graph) returns (r: Outcome)
    requires gg.Valid() && gg.State() == s
    modifies gg.im
    ensures gg.Valid() && gg.im == old(gg.im)
    ensures r.Pass? <==> Filled(s, TableOf(path), spt[..], 0).Ok?
    ensures r.Pass? ==> gg.State() == s.(im := Filled(s, TableOf(path), spt[..], 0).value + s.im[s.edges..])
    ensures r.Fail? ==> r.msg == Filled(s, TableOf(path), spt[..], 0).msg
  {
    ghost var table := TableOf(path);
    ghost var goal := Filled(s, table, spt[..], 0);
    var k := 0;
    assert Glue(gg.im[..0], goal) == goal by {
      assert gg.im[..0] == [];
      if goal.Ok? {
        assert [] + goal.value == goal.value;
      }
    }
    while k < gg.edges
      invariant k <= gg.edges == s.edges && gg.Valid() && gg.im == old(gg.im)
      invariant gg.State() == s.(im := gg.State().im)
      invariant forall j :: k <= j < gg.im.Length ==> gg.im[j] == s.im[j]
      invariant Glue(gg.im[..k], Filled(s, table, spt[..], k)) == goal
    {
      r := FillEdge(gg, spt, path, k, s, goal);
      if r.Fail? {
        return;
      }
      k := k + 1;
    }
    assert gg.im[..] == gg.im[..k] + s.im[k..];
    r := Pass;
  }

  /** One pass of the loop of FillTree: edge k keeps its image on the tree and is filled in off it. */
  method FillEdge(gg: GM.GraphMap, spt: array<bool>, path: array2<P.Path>, k: nat, ghost s: G.Graph,
                  ghost goal: Result<seq<P.Path>>) returns (r: Outcome)
    requires G.Valid(s) && k < gg.edges == s.edges && gg.Valid() && gg.State() == s.(im := gg.State().im)
    requires forall j :: k <= j < gg.im.Length ==> j < |s.im| && gg.im[j] == s.im[j]
    requires Glue(gg.im[..k], Filled(s, TableOf(path), spt[..], k)) == goal
    modifies gg.im
    ensures gg.Valid()
    ensures r.Fail? ==> goal == Err(r.msg)
    ensures r.Pass? ==> gg.State() == s.(im := gg.State().im)
    ensures r.Pass? ==> forall j :: k < j < gg.im.Length ==> gg.im[j] == s.im[j]
    ensures r.Pass? ==> Glue(gg.im[..k + 1], Filled(s, TableOf(path), spt[..], k + 1)) == goal
  {
    ghost var table := TableOf(path);
    FilledStep(s, table, spt[..], k);
    if k >= spt.Length {
      return Fail(D.OutOfRange);
    }
    if !spt[k] {
      var fill := FillImageOf(gg, path, k, s);
      if fill.Err? {
        return Fail(fill.msg);
      }
      var _ := gg.SetImage(k, fill.value);
    }
    GlueGlue(gg.im[..k], [gg.im[k]], Filled(s, table, spt[..], k + 1));
    assert gg.im[..k + 1] == gg.im[..k] + [gg.im[k]];
    r := Pass;
  }

  /** One edge of the fill: its image kept or filled, then the rest. */
  lemma FilledStep(s: G.Graph, table: seq<seq<P.Path>>, flags: seq<bool>, k: nat)
    requires G.Valid(s) && k < s.edges
    ensures Filled(s, table, flags, k) ==
      if k >= |flags| then Err(D.OutOfRange)
      else match (if flags[k] then Ok(s.im[k]) else FillImage(s, table, k))
        case Err(m) => Err(m)
        case Ok(p) => Glue([p], Filled(s, table, flags, k + 1))
  {
  }

  /**
   * One twist of the loop: a fresh rose of the fixed word, twisted along tw with the
   * tree edges deleted, filled in, tightened and checked, then composed after g.
   */
  method FixedApplyOne(g: GM.GraphMap, fw: P.Path, red: P.Path, tw: P.Path, inv: bool, spt: array<bool>,
                       path: array2<P.Path>, ghost c: Context) returns (r: Outcome)
    requires g.Valid() && GM.FixedRoseOf(fw) == Ok(c.rose)
    requires c.red == red && c.flags == spt[..] && c.table == TableOf(path)
    modifies g
    ensures g.Valid()
    ensures r.Pass? <==> FixedCompose(old(g.State()), c, tw, inv).Ok?
    ensures r.Pass? ==> g.State() == FixedCompose(old(g.State()), c, tw, inv).value
    ensures r.Fail? ==> r.msg == FixedCompose(old(g.State()), c, tw, inv).msg
  {
    var gg;
    gg, r := TwistFilled(fw, red, tw, inv, spt, path, c);
    if r.Fail? {
      return;
    }
    r := g.Compose(gg);
  }

  /** The map of one twist: a fresh rose, twisted, filled in, tightened and checked with isGoodMap. */
  method TwistFilled(fw: P.Path, red: P.Path, tw: P.Path, inv: bool, spt: array<bool>, path: array2<P.Path>,
                     ghost c: Context) returns (gg: GM.GraphMap, r: Outcome)
    requires GM.FixedRoseOf(fw) == Ok(c.rose)
    requires c.red == red && c.flags == spt[..] && c.table == TableOf(path)
    ensures fresh(gg) && gg.Valid()
    ensures r.Pass? <==> FixedTwisted(c, tw, inv).Ok?
    ensures r.Pass? ==> gg.State() == FixedTwisted(c, tw, inv).value
    ensures r.Fail? ==> r.msg == FixedTwisted(c, tw, inv).msg
  {
    var made;
    gg, made := GM.GraphMap.IdentityFromFixed(fw);
    assert made.Pass? && gg.State() == c.rose;
    var raw := W.PathToString(tw);
    var t := PruneWord(tw, spt);
    r := D.Twist(gg, red, t, inv);
    if r.Fail? {
      return gg, Fail("bad twist: " + raw + "\nturn " + r.msg + " occurs twice");
    }
    r := FillTree(gg, spt, path, gg.State());
    if r.Fail? {
      return;
    }
    var _ := gg.Tighten();
    var good := gg.IsGoodMap();
    if good.Fail? {
      return gg, Fail("bad twist: " + raw);
    }
  }

  /** One pass of twist's loop: read the loop at place i, compose g with its twist and mark it. */
  method FixedTwistAt(g: GM.GraphMap, t: string, i: nat, ma: seq<P.Path>, ml: seq<string>, fw: P.Path, red: P.Path,
                      spt: array<bool>, path: array2<P.Path>, ghost c: Context)
    returns (next: nat, ma': seq<P.Path>, ml': seq<string>, r: Outcome)
    requires i < |t| && g.Valid() && GM.FixedRoseOf(fw) == Ok(c.rose) && G.Valid(c.rose)
    requires c.red == red && c.flags == spt[..] && c.table == TableOf(path)
    modifies g
    ensures g.Valid()
    ensures r.Pass? ==> i < next <= |t| + 1
    ensures r.Pass? ==> (TwistsFixedFrom(t, next, g.State(), D.Marking(ma', ml'), c) ==
      TwistsFixedFrom(t, i, old(g.State()), D.Marking(ma, ml), c))
    ensures r.Fail? ==> TwistsFixedFrom(t, i, old(g.State()), D.Marking(ma, ml), c) == Err(r.msg)
  {
    ma', ml', next := ma, ml, i;
    var it := D.ReadItem(t, i);
    if it.Err? {
      return next, ma', ml', Fail(it.msg);
    }
    var p := W.StringToPath(it.value.text);
    if p.None? {
      return next, ma', ml', Fail(R.BADNUMBER);
    }
    var tw := W.TightenWord(p.value);
    tw := W.TightenCycl(tw);
    var ok := g.IsGoodLoop(tw);
    if !ok {
      var s := W.PathToString(tw);
      return next, ma', ml', Fail("bad loop: " + s);
    }
    var seen := D.InMarking(ma, tw);
    if !seen {
      ml' := ml + ["C" + Numerals.IntToString(|ma|)];
      ma' := ma + [tw];
    }
    r := FixedApplyOne(g, fw, red, tw, it.value.inv, spt, path, c);
    next := it.value.last + 1;
  }

  /** Every edge end of g names a vertex, so evaluateTree can index its path table with it. */
  method EndsAssigned(g: GM.GraphMap) returns (ok: bool)
    requires g.Valid()
    ensures ok == G.EndpointsOK(g.State())
  {
    var i := 0;
    while i < g.edges
      invariant i <= g.edges
      invariant forall j :: 0 <= j < i ==> 0 <= g.start[j] < g.vertices && 0 <= g.end[j] < g.vertices
    {
      if !(0 <= g.start[i] < g.vertices && 0 <= g.end[i] < g.vertices) {
        return false;
      }
      i := i + 1;
    }
    return true;
  }

  /** The start of twist(fx, twists, lab, true): the fixed word and the tree read, and the rose of the fixed word. */
  method Prepare(fx: string, auto: P.Path) returns (g: GM.GraphMap, r: Outcome, fw: P.Path, tree: P.Path)
    ensures fresh(g) && g.Valid()
    ensures r.Pass? <==> SetupOf(fx, auto).Ok?
    ensures r.Fail? ==> r.msg == SetupOf(fx, auto).msg
    ensures r.Pass? ==> SetupOf(fx, auto).value == Setup(fw, g.State(), tree)
  {
    var k := Dot(fx);
    fw, tree := [], [];
    var p := W.StringToPath(fx[..k]);
    if p.None? {
      g := new GM.GraphMap();
      return g, Fail(R.BADNUMBER), fw, tree;
    }
    fw := p.value;
    if k < |fx| {
      var q := W.StringToPath(fx[k + 1..]);
      if q.None? {
        g := new GM.GraphMap();
        return g, Fail(R.BADNUMBER), fw, tree;
      }
      tree := q.value;
    }
    g, r := GM.GraphMap.IdentityFromFixed(fw);
    if r.Fail? {
      return;
    }
    GM.FixedRoseOfShape(fw);
    var ok := EndsAssigned(g);
    if !ok {
      return g, Fail(D.OutOfRange), fw, tree;
    }
    if tree == [] {
      tree := auto;
    }
  }

  /**
   * What twist(fx, twists, lab, true) leaves: the map h and the outcome r. The tree is
   * the one after the dot in fx, or auto, the tree spanningTree finds, when there is
   * none. evaluated says whether evaluateTree accepted the tree; then flags and table
   * are its flags and paths, and the result is the one they determine.
   */
  ghost predicate TwistedBy(fx: string, twists: string, lab: string, auto: P.Path, h: G.Graph, r: Outcome,
                            evaluated: bool, flags: seq<bool>, table: seq<seq<P.Path>>)
  {
    (SetupOf(fx, auto).Err? ==> r == Fail(SetupOf(fx, auto).msg) && !evaluated) &&
    (SetupOf(fx, auto).Ok? && TreeCheck(SetupOf(fx, auto).value).Fail? ==>
      r == TreeCheck(SetupOf(fx, auto).value) && !evaluated) &&
    (SetupOf(fx, auto).Ok? && TreeCheck(SetupOf(fx, auto).value).Pass? && !evaluated ==>
      r == Fail("bad spanning tree: " + PathToString(SetupOf(fx, auto).value.tree))) &&
    (evaluated ==> SetupOf(fx, auto).Ok? && TreeCheck(SetupOf(fx, auto).value).Pass?) &&
    (SetupOf(fx, auto).Ok? && TreeCheck(SetupOf(fx, auto).value).Pass? ==> var s := SetupOf(fx, auto).value;
      (evaluated <==> RC.Connected(s.rose, T.Marks(Blank(s.rose.edges), s.tree).0))) &&
    (evaluated ==> var s := SetupOf(fx, auto).value;
      flags == T.Marks(Blank(s.rose.edges), s.tree).0 && TreePaths(s.rose, table, flags) &&
      (r.Pass? <==> FixedTwistsWith(s, flags, table, twists, lab).Ok?) &&
      (r.Pass? ==> h == FixedTwistsWith(s, flags, table, twists, lab).value) &&
      (r.Fail? ==> r.msg == FixedTwistsWith(s, flags, table, twists, lab).msg))
  }

  /** twistWithFixedWord(fx, twists, lab): twist(fx, twists, lab, true), with auto the tree spanningTree finds. */
  method TwistWithFixedWord(fx: string, twists: string, lab: string, auto: P.Path)
    returns (g: GM.GraphMap, r: Outcome, ghost evaluated: bool, ghost flags: seq<bool>, ghost table: seq<seq<P.Path>>)
    ensures fresh(g) && g.Valid()
    ensures TwistedBy(fx, twists, lab, auto, g.State(), r, evaluated, flags, table)
  {
    evaluated, flags, table := false, [], [];
    var fw, tree;
    g, r, fw, tree := Prepare(fx, auto);
    if r.Fail? {
      return;
    }
    ghost var s := SetupOf(fx, auto).value;
    var spt, path;
    r, spt, path := PlantTree(g, tree, s);
    if r.Fail? {
      return;
    }
    evaluated, flags, table := true, spt[..], TableOf(path);
    var bd := PruneWord(fw, spt);
    var red := B.Dualize(bd);
    if red.Err? {
      return g, Fail(red.msg), evaluated, flags, table;
    }
    r := RunTwists(g, twists, lab, fw, red.value, spt, path, Context(s.rose, red.value, flags, table));
  }

  /**
   * The spanning tree of twist: fresh flags and a fresh table of paths, filled in by
   * evaluateTree on the rose of the fixed word.
   */
  method PlantTree(g: GM.GraphMap, tree: P.Path, ghost s: Setup) returns (r: Outcome, spt: array<bool>, path: array2<P.Path>)
    requires g.Valid() && g.State() == s.rose && s.tree == tree
    requires GM.FixedRose(s.rose, s.fw) && G.EndpointsOK(s.rose)
    ensures fresh(spt) && fresh(path)
    ensures TreeCheck(s).Fail? ==> r == TreeCheck(s)
    ensures TreeCheck(s).Pass? && r.Fail? ==> r == Fail("bad spanning tree: " + PathToString(tree))
    ensures r.Pass? ==> TreeCheck(s).Pass? && spt[..] == T.Marks(Blank(s.rose.edges), tree).0
    ensures r.Pass? ==> TreePaths(s.rose, TableOf(path), spt[..])
    ensures TreeCheck(s).Pass? ==> (r.Pass? <==> RC.Connected(s.rose, T.Marks(Blank(s.rose.edges), tree).0))
  {
    spt := new bool[g.edges](_ => false);
    path := new P.Path[g.vertices, g.vertices];
    assert spt[..] == Blank(s.rose.edges);
    assert T.Cleared(Blank(s.rose.edges), s.rose.edges) == Blank(s.rose.edges);
    r := g.EvaluateTree(spt, path, tree);
    assert spt[..s.rose.edges] == spt[..];
    if r.Pass? {
      SpannedTable(s.rose, path, spt[..]);
    }
  }

  /** The loop of twist over the twists, the marking and the final isGoodMap, on the rose g. */
  method RunTwists(g: GM.GraphMap, twists: string, lab: string, fw: P.Path, red: P.Path, spt: array<bool>,
                   path: array2<P.Path>, ghost c: Context) returns (r: Outcome)
    requires g.Valid() && GM.FixedRoseOf(fw) == Ok(c.rose) && g.State() == c.rose && G.Valid(c.rose)
    requires c.red == red && c.flags == spt[..] && c.table == TableOf(path)
    modifies g
    ensures g.Valid()
    ensures r.Pass? <==> MarkedTwists(twists, lab, c).Ok?
    ensures r.Pass? ==> g.State() == MarkedTwists(twists, lab, c).value
    ensures r.Fail? ==> r.msg == MarkedTwists(twists, lab, c).msg
  {
    var t := D.Normalize(twists);
    g.SetLabel(lab);
    ghost var goal := TwistsFixedFrom(t, 0, g.State(), D.Marking([], []), c);
    var ma: seq<P.Path>, ml: seq<string> := [], [];
    var i := 0;
    r := Pass;
    while i < |t|
      invariant i <= |t| + 1 && g.Valid() && r == Pass
      invariant TwistsFixedFrom(t, i, g.State(), D.Marking(ma, ml), c) == goal
      decreases |t| - i
    {
      i, ma, ml, r := FixedTwistAt(g, t, i, ma, ml, fw, red, spt, path, c);
      if r.Fail? {
        return;
      }
    }
    g.SetMarking(ma, ml);
    var good := g.IsGoodMap();
    if good.Fail? {
      return Fail(D.Unexpected);
    }
  }
}
