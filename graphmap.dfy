/**
 * GraphMap.java as an object: the buffers im, start and end are arrays that the
 * surgery methods update in place, and every method is proved to leave exactly
 * the state the Graphs module assigns to it (State() is the value view of the
 * object). A method that throws in the source returns Fail with the message of the
 * exception and leaves the object as it was.
 */
module GraphMaps {
  import opened Wrappers
  import opened Letters
  import P = Paths
  import G = Graphs
  import W = Words
  import N = Nielsen
  import B = Boundary
  import T = Trees
  import RC = Reach
  import Tokens
  import R = Reading
  import TZ = Tietze

  /** The outcome r and the new state agree with the value spec of the function that defines the operation: Ok moves to its value, Err keeps the old state. */
  predicate Follows(r: Outcome, spec: Result<G.Graph>, before: G.Graph, after: G.Graph)
  {
    match spec
    case Ok(h) => r == Pass && after == h
    case Err(m) => r == Fail(m) && after == before
  }

  class GraphMap {
    var edges: nat
    var vertices: int
    var im: array<P.Path>
    var start: array<int>
    var end: array<int>
    var fix: P.Path
    var marked: bool
    var mark: seq<P.Path>
    var marklabel: seq<string>
    var name: string
    var strict: bool

    /** Three buffers of one capacity, at most MAXINDEX, holding the edges in use. */
    predicate Valid()
      reads this
    {
      im.Length == start.Length && end.Length == start.Length &&
      edges <= im.Length <= MAXINDEX && start != end
    }

    /** The map as a value. */
    function State(): G.Graph
      reads this, im, start, end
    {
      G.Graph(edges, vertices, im[..], start[..], end[..], fix, marked, mark, marklabel, name)
    }

    /** The empty map of the default constructor: no buffers yet, strict checking on. */
    constructor ()
      ensures Valid() && State() == G.Init(0).value && strict
    {
      edges := 0;
      vertices := 0;
      im := new P.Path[0];
      start := new int[0];
      end := new int[0];
      fix := [];
      marked := false;
      mark := [];
      marklabel := [];
      name := [];
      strict := true;
    }

    /** The copy constructor GraphMap(g2). */
    constructor Copy(g2: GraphMap)
      requires g2.Valid()
      ensures Valid() && State() == G.Copy(g2.State()) && strict == g2.strict
      ensures fresh(im) && fresh(start) && fresh(end)
    {
      edges := 0;
      vertices := 0;
      im := new P.Path[0];
      start := new int[0];
      end := new int[0];
      fix := [];
      marked := false;
      mark := [];
      marklabel := [];
      name := [];
      strict := true;
      new;
      CopyGraph(g2);
    }

    /**
     * Fresh buffers of capacity n holding the first k slots of im, start and end,
     * with blank slots (empty image, vertex 0) after them.
     */
    static method Resized(im0: array<P.Path>, start0: array<int>, end0: array<int>, k: nat, n: nat)
      returns (im': array<P.Path>, start': array<int>, end': array<int>)
      requires k <= im0.Length && k <= start0.Length && k <= end0.Length && k <= n
      ensures fresh(im') && fresh(start') && fresh(end') && start' != end'
      ensures im'[..] == G.Padded(im0[..], k, n, [])
      ensures start'[..] == G.Padded(start0[..], k, n, 0)
      ensures end'[..] == G.Padded(end0[..], k, n, 0)
    {
      im' := new P.Path[n](_ => []);
      start' := new int[n](_ => 0);
      end' := new int[n](_ => 0);
      var i := 0;
      while i < k
        invariant 0 <= i <= k
        invariant forall j :: 0 <= j < n ==> im'[j] == if j < i then im0[j] else []
        invariant forall j :: 0 <= j < n ==> start'[j] == if j < i then start0[j] else 0
        invariant forall j :: 0 <= j < n ==> end'[j] == if j < i then end0[j] else 0
      {
        im'[i] := im0[i];
        start'[i] := start0[i];
        end'[i] := end0[i];
        i := i + 1;
      }
      assert im'[..] == G.Padded(im0[..], k, n, []);
      assert start'[..] == G.Padded(start0[..], k, n, 0);
      assert end'[..] == G.Padded(end0[..], k, n, 0);
    }

    /** Fresh buffers of capacity n, every slot blank (empty image, vertex 0). */
    static method Blank(n: nat) returns (im': array<P.Path>, start': array<int>, end': array<int>)
      ensures fresh(im') && fresh(start') && fresh(end') && start' != end'
      ensures im'[..] == seq(n, _ => []) && start'[..] == seq(n, _ => 0) && end'[..] == seq(n, _ => 0)
    {
      im' := new P.Path[n](_ => []);
      start' := new int[n](_ => 0);
      end' := new int[n](_ => 0);
    }

    /** init(n): fresh buffers of capacity n with blank slots; more than MAXINDEX is refused. */
    method Init(n: nat) returns (r: Outcome)
      requires Valid()
      modifies this
      ensures Valid() && Follows(r, G.Init(n), old(State()), State())
      ensures r.Pass? ==> fresh(im) && fresh(start) && fresh(end)
      ensures unchanged(this`strict)
    {
      if n > MAXINDEX {
        return Fail("too many edges");
      }
      Reset(n);
      r := Pass;
    }

    /** The empty map of capacity n. */
    method Reset(n: nat)
      requires n <= MAXINDEX
      modifies this
      ensures Valid() && State() == G.Init(n).value
      ensures fresh(im) && fresh(start) && fresh(end)
      ensures unchanged(this`strict)
    {
      var im', start', end' := Blank(n);
      Load(G.Init(n).value, im', start', end', strict);
    }

    /** copyGraph(g2): this becomes a copy of g2 in fresh buffers of the same capacity. */
    method CopyGraph(g2: GraphMap)
      requires g2.Valid() && Valid()
      modifies this
      ensures Valid() && State() == G.Copy(old(g2.State())) && strict == old(g2.strict)
      ensures fresh(im) && fresh(start) && fresh(end)
    {
      var g := g2.State();
      var im', start', end' := Resized(g2.im, g2.start, g2.end, g2.edges, g2.im.Length);
      Load(G.Copy(g), im', start', end', g2.strict);
    }

    /** The object takes the state h, with the given buffers holding h's buffers. */
    method Load(h: G.Graph, im': array<P.Path>, start': array<int>, end': array<int>, st: bool)
      requires G.Valid(h) && start' != end'
      requires im'[..] == h.im && start'[..] == h.start && end'[..] == h.end
      modifies this
      ensures Valid() && State() == h && strict == st
      ensures im == im' && start == start' && end == end'
    {
      edges, vertices, marked, fix, name, strict := h.edges, h.vertices, h.marked, h.fix, h.name, st;
      mark, marklabel := h.mark, h.marklabel;
      im, start, end := im', start', end';
    }

    /** increaseCapacity: the buffers replaced by fresh ones of the new capacity. */
    method IncreaseCapacity() returns (r: Outcome)
      requires Valid()
      modifies this
      ensures Valid() && Follows(r, G.Grow(old(State())), old(State()), State())
      ensures unchanged(this`strict)
      ensures r.Fail? ==> im == old(im) && start == old(start) && end == old(end)
      ensures r.Pass? ==> fresh(im) && fresh(start) && fresh(end)
    {
      if im.Length >= MAXINDEX {
        return Fail("can't increase capacity");
      }
      var n := if 2 * im.Length > MAXINDEX then MAXINDEX else 2 * im.Length;
      var im', start', end' := Resized(im, start, end, edges, n);
      im, start, end := im', start', end';
      r := Pass;
    }

    /** addEdge(v1, v2, image): a new last edge, after growing a full map. */
    method AddEdge(v1: int, v2: int, image: P.Path) returns (r: Outcome)
      requires Valid()
      modifies this, im, start, end
      ensures Valid() && Follows(r, G.AddEdge(old(State()), v1, v2, image), old(State()), State())
      ensures unchanged(this`strict)
      ensures old(edges) < old(im.Length) ==> im == old(im) && start == old(start) && end == old(end)
    {
      ghost var g := State();
      if edges >= im.Length {
        r := IncreaseCapacity();
        if r.Fail? {
          return;
        }
      }
      assert G.Roomy(g) == Ok(State());
      if edges >= im.Length {
        return Fail("array index out of bounds");
      }
      Append(v1, v2, image);
      r := Pass;
    }

    /** The second half of addEdge: the new edge written into the first free slot. */
    method Append(v1: int, v2: int, image: P.Path)
      requires Valid() && edges < im.Length
      modifies this, im, start, end
      ensures Valid() && im == old(im) && start == old(start) && end == old(end)
      ensures unchanged(this`strict)
      ensures var g := old(State());
        var vs := if v1 >= g.vertices then v1 + 1 else g.vertices;
        State() == g.(edges := g.edges + 1, vertices := if v2 >= vs then v2 + 1 else vs,
                      im := g.im[g.edges := image], start := g.start[g.edges := v1], end := g.end[g.edges := v2])
    {
      im[edges] := image;
      start[edges] := v1;
      end[edges] := v2;
      if v1 >= vertices {
        vertices := v1 + 1;
      }
      if v2 >= vertices {
        vertices := v2 + 1;
      }
      edges := edges + 1;
    }

    // ---- queries ----

    /** isGoodPath: every two consecutive letters meet; a letter outside the buffers makes it false. */
    method IsGoodPath(p: P.Path) returns (b: bool)
      requires Valid()
      ensures b == G.IsGoodPath(State(), p)
    {
      var g := State();
      var i := 0;
      while i + 1 < |p|
        invariant forall k :: 0 <= k < i && k + 1 < |p| ==> G.Joined(g, p[k], p[k + 1])
      {
        var a := G.LastVertex(g, p[i]);
        var c := G.FirstVertex(g, p[i + 1]);
        if a.None? || c.None? || a != c {
          return false;
        }
        i := i + 1;
      }
      return true;
    }

    /** isGoodLoop: empty, or a good path that ends where it starts. */
    method IsGoodLoop(p: P.Path) returns (b: bool)
      requires Valid()
      ensures b == G.IsGoodLoop(State(), p)
    {
      if p == [] {
        return true;
      }
      b := IsGoodPath(p);
      var g := State();
      var first := G.FirstVertex(g, p[0]);
      var last := G.LastVertex(g, p[|p| - 1]);
      b := b && first.Some? && last.Some? && first == last;
    }

    /** mapWord: the images of the letters concatenated and tightened; None for a letter outside the buffers. */
    method MapWord(ar: P.Path) returns (r: Option<P.Path>)
      requires Valid()
      ensures r == G.MapWord(State(), ar)
    {
      var g := State();
      var image := [];
      var i := 0;
      while i < |ar|
        invariant 0 <= i <= |ar| && P.LettersBelow(ar[..i], im.Length)
        invariant image == G.Unfold(g, ar[..i])
      {
        var c := ar[i];
        if c.index >= im.Length {
          return None;
        }
        var tmp := im[c.index];
        if c.inv {
          tmp := W.ReverseWord(tmp);
        }
        G.UnfoldAppend(g, ar[..i], [c]);
        assert ar[..i + 1] == ar[..i] + [c];
        assert G.Unfold(g, [c]) == G.LetterImage(g, c) + G.Unfold(g, [c][1..]);
        image := image + tmp;
        i := i + 1;
      }
      assert ar[..i] == ar;
      var t := W.TightenWord(image);
      r := Some(t);
    }

    /** size: the total length of the images of the edges in use. */
    method Size() returns (s: nat)
      requires Valid()
      ensures s == G.Size(State())
    {
      s := 0;
      var i := 0;
      while i < edges
        invariant 0 <= i <= edges && s == G.SumLengths(im[..], i)
      {
        s := s + |im[i]|;
        i := i + 1;
      }
    }

    /** sameGraph: equal counts and equal endpoints of every edge in use. */
    method SameGraph(g2: GraphMap) returns (b: bool)
      requires Valid() && g2.Valid()
      ensures b == G.SameGraph(State(), g2.State())
    {
      if edges != g2.edges || vertices != g2.vertices {
        return false;
      }
      var i := 0;
      while i < edges
        invariant 0 <= i <= edges
        invariant forall k :: 0 <= k < i ==> start[k] == g2.start[k] && end[k] == g2.end[k]
      {
        if start[i] != g2.start[i] || end[i] != g2.end[i] {
          return false;
        }
        i := i + 1;
      }
      return true;
    }

    /** equals: the same graph, the same images, and cyclically conjugate fixed words. */
    method Equals(g2: GraphMap) returns (b: bool)
      requires Valid() && g2.Valid()
      ensures b == G.SameMap(State(), g2.State())
    {
      b := SameGraph(g2);
      if !b {
        return;
      }
      var i := 0;
      while i < edges
        invariant 0 <= i <= edges
        invariant forall k :: 0 <= k < i ==> im[k] == g2.im[k]
      {
        if im[i] != g2.im[i] {
          return false;
        }
        i := i + 1;
      }
      b := W.IsCyclicallyConjugate(fix, g2.fix);
    }

    /** The first image of an edge in use that is not a good path. */
    method FirstBadImage() returns (r: Option<nat>)
      requires Valid()
      ensures r == G.FirstBadPath(State(), im[..edges])
    {
      var g := State();
      var i := 0;
      while i < edges
        invariant 0 <= i <= edges
        invariant forall k :: 0 <= k < i ==> G.IsGoodPath(g, g.im[..edges][k])
      {
        var ok := IsGoodPath(im[i]);
        if !ok {
          assert g.im[..edges][i] == im[i];
          return Some(i);
        }
        i := i + 1;
      }
      return None;
    }

    /** The first marked loop that is not a good path. */
    method FirstBadMark() returns (r: Option<nat>)
      requires Valid()
      ensures r == G.FirstBadPath(State(), mark)
    {
      var g := State();
      var i := 0;
      while i < |mark|
        invariant 0 <= i <= |mark|
        invariant forall k :: 0 <= k < i ==> G.IsGoodPath(g, mark[k])
      {
        var ok := IsGoodPath(mark[i]);
        if !ok {
          return Some(i);
        }
        i := i + 1;
      }
      return None;
    }

    /** isGoodMap with its message: Pass, or Fail with the message the source leaves in msg. */
    method IsGoodMap() returns (r: Outcome)
      requires Valid()
      ensures r == G.IsGoodMap(State())
    {
      var bad := FirstBadImage();
      if bad.Some? {
        var s := W.PathToString(im[bad.value]);
        return Fail("bad image: " + s);
      }
      if marked {
        bad := FirstBadMark();
        if bad.Some? {
          var s := W.PathToString(mark[bad.value]);
          return Fail("bad marking: " + s);
        }
      }
      var loop := IsGoodLoop(fix);
      if !loop {
        var s := W.PathToString(fix);
        return Fail("bad fixed word: " + s);
      }
      var m := MapWord(fix);
      if m.None? {
        return Fail("general error");
      }
      var c1 := W.IsCyclicallyConjugate(fix, m.value);
      var rf := W.ReverseWord(fix);
      var c2 := W.IsCyclicallyConjugate(rf, m.value);
      if c1 || c2 {
        r := Pass;
      } else {
        r := Fail("fixed word not preserved");
      }
    }

    /**
     * readGraph: the map read from the tokens of a text, checked with isGoodMap when
     * strict; on failure the message of the exception (the object is then left part-read).
     */
    method ReadGraph(toks: seq<Tokens.Token>) returns (r: Outcome)
      requires Valid()
      modifies this
      ensures Valid() && strict == old(strict)
      ensures match R.ReadGraph(toks, strict)
        case Ok(h) => r == Pass && State() == h
        case Err(m) => r == Fail(m)
    {
      r := ReadMap(toks);
      if r.Pass? && strict {
        r := IsGoodMap();
      }
    }

    /** readGraph up to the strict check. */
    method ReadMap(toks: seq<Tokens.Token>) returns (r: Outcome)
      requires Valid()
      modifies this
      ensures Valid() && strict == old(strict)
      ensures match R.ReadMap(toks)
        case Ok(h) => r == Pass && State() == h
        case Err(m) => r == Fail(m)
    {
      var st := new Tokens.Tokenizer(toks);
      var ed := st.NextInt();
      if ed < 0 || ed > MAXINDEX {
        assert R.ReadMap(toks) == Err("no of edges to small or too large");
        return Fail("no of edges to small or too large");
      }
      r := Init(4 * ed);
      if r.Fail? {
        assert R.ReadMap(toks) == Err("too many edges");
        return;
      }
      edges := ed;
      ghost var p := st.pos;
      vertices := st.NextInt();
      if vertices < 0 || vertices > edges * 2 {
        assert R.ReadMap(toks) == Err("no of vertices to small or too large");
        return Fail("no of vertices to small or too large");
      }
      assert (vertices, st.pos) == Tokens.NextNumber(toks, p);
      r := ReadBody(st);
    }

    /** The edges, the fixed word and the sections, read into a map just made by init(4 * edges). */
    method ReadBody(st: Tokens.Tokenizer) returns (r: Outcome)
      requires Valid() && st.Valid() && 4 * edges <= MAXINDEX && 0 <= vertices <= 2 * edges
      requires im[..] == seq(4 * edges, _ => []) && start[..] == seq(4 * edges, _ => 0) && end[..] == seq(4 * edges, _ => 0)
      modifies this, st, im, start, end
      ensures Valid() && strict == old(strict)
      ensures match R.ReadBody(st.toks, old(st.pos), old(edges), old(vertices))
        case Ok(b) => r == Pass && State() == R.Built(old(edges), old(vertices), b.0, b.1, b.2)
        case Err(m) => r == Fail(m)
    {
      var b := R.ReadBodyLoop(st, edges, vertices, im, start, end);
      if b.Err? {
        return Fail(b.msg);
      }
      var es := R.Edges(start[..edges], end[..edges], im[..edges]);
      R.BuiltFrom(edges, vertices, es, b.value.0, b.value.1, im[..], start[..], end[..]);
      Load(R.Built(edges, vertices, es, b.value.0, b.value.1), im, start, end, strict);
      r := Pass;
    }

    // ---- bookkeeping shared by the surgery ----

    /** One letter-level rewrite of a word, by the Word routine the source calls (String.replace for renaming). */
    static method ApplyWord(r: G.Rewrite, p: P.Path) returns (q: P.Path)
      ensures q == G.Apply(r, p)
    {
      match r
      case SplitOf(e, n) => q := W.SplitChar(p, e, n);
      case ReverseOf(e) => q := W.ReverseChar(p, e);
      case RemoveOf(e, last) =>
        q := W.RemoveEdge(p, e);
        q := G.RenameEdge(q, last, e);
      case FoldOf(from, to) => q := G.RenameEdge(p, from, to);
      case ReplaceOf(c, s) => q := W.ReplaceChar(p, c, s);
    }

    /** The rewrite applied to every image of an edge in use, the fixed word and, when marked, the marked loops. */
    method RewriteAll(r: G.Rewrite)
      requires Valid()
      modifies this, im
      ensures Valid() && im == old(im) && start == old(start) && end == old(end)
      ensures State() == G.RewriteAll(old(State()), r)
    {
      ghost var g := State();
      var i := 0;
      while i < edges
        invariant 0 <= i <= edges && Valid() && im == old(im) && start == old(start) && end == old(end)
        invariant State() == g.(im := G.ApplyFirst(r, g.im, i))
      {
        var w := ApplyWord(r, im[i]);
        im[i] := w;
        i := i + 1;
        assert im[..] == G.ApplyFirst(r, g.im, i);
      }
      fix := ApplyWord(r, fix);
      if marked {
        var k := 0;
        while k < |mark|
          invariant 0 <= k <= |mark| == |g.mark| && Valid() && im == old(im) && start == old(start) && end == old(end)
          invariant State() == g.(im := G.ApplyFirst(r, g.im, g.edges), fix := G.Apply(r, g.fix),
                                  mark := G.ApplyFirst(r, g.mark, k))
        {
          var w := ApplyWord(r, mark[k]);
          mark := mark[k := w];
          k := k + 1;
          assert mark == G.ApplyFirst(r, g.mark, k);
        }
      }
    }

    /** Both endpoints of every edge in use relabelled. */
    method Relabel(m: G.Relabel)
      requires Valid()
      modifies start, end
      ensures Valid() && State() == G.RelabelAll(old(State()), m)
    {
      ghost var g := State();
      var i := 0;
      while i < edges
        invariant 0 <= i <= edges
        invariant start[..] == G.RelabelFirst(m, g.start, i) && end[..] == G.RelabelFirst(m, g.end, i)
      {
        start[i] := G.Relabeled(m, start[i]);
        end[i] := G.Relabeled(m, end[i]);
        i := i + 1;
        assert start[..] == G.RelabelFirst(m, g.start, i);
        assert end[..] == G.RelabelFirst(m, g.end, i);
      }
    }

    /** adjustVertices(v1, v2): the larger vertex merged into the smaller, later vertices moved down. */
    method AdjustVertices(v1: int, v2: int)
      requires Valid()
      modifies this, start, end
      ensures Valid() && im == old(im) && start == old(start) && end == old(end)
      ensures State() == G.AdjustVertices(old(State()), v1, v2)
    {
      if v1 == v2 {
        return;
      }
      Relabel(G.AdjustMap(v1, v2));
      vertices := vertices - 1;
    }

    /** removeEntry(ed): the last edge moved into slot ed and the letters rewritten, without vertex bookkeeping. */
    method RemoveEntry(ed: nat)
      requires Valid() && ed < edges
      modifies this, im, start, end
      ensures Valid() && im == old(im) && start == old(start) && end == old(end)
      ensures State() == G.RemoveEntry(old(State()), ed)
    {
      MoveLast(ed);
      RewriteAll(G.RemoveOf(ed, edges));
    }

    /** The first half of removeEntry: one edge fewer, the last edge copied into slot ed. */
    method MoveLast(ed: nat)
      requires Valid() && ed < edges
      modifies this, im, start, end
      ensures Valid() && im == old(im) && start == old(start) && end == old(end)
      ensures State() == G.MoveLast(old(State()), ed) && edges == old(edges) - 1
    {
      edges := edges - 1;
      var last := edges;
      start[ed] := start[last];
      end[ed] := end[last];
      im[ed] := im[last];
    }

    /** collapseEdge(ed): the endpoints merged, then the entry removed. */
    method CollapseEdge(ed: nat) returns (r: Outcome)
      requires Valid()
      modifies this, im, start, end
      ensures Valid() && im == old(im) && start == old(start) && end == old(end)
      ensures Follows(r, G.CollapseEdge(old(State()), ed), old(State()), State())
    {
      if ed >= edges {
        return Fail("nonexistent edge");
      }
      AdjustVertices(start[ed], end[ed]);
      RemoveEntry(ed);
      r := Pass;
    }

    /** removeEdge(ed): the edge deleted, its endpoints merged first when one of them has fewer than three edges. */
    method RemoveEdge(ed: nat) returns (r: Outcome)
      requires Valid()
      modifies this, im, start, end
      ensures Valid() && im == old(im) && start == old(start) && end == old(end)
      ensures Follows(r, G.RemoveEdge(old(State()), ed), old(State()), State())
    {
      if ed >= edges {
        return Fail("nonexistent edge");
      }
      var cnt1, cnt2 := CountAt(start[ed], end[ed]);
      if cnt1 < 3 || cnt2 < 3 {
        AdjustVertices(start[ed], end[ed]);
      }
      RemoveEntry(ed);
      r := Pass;
    }

    /** The counting loop of removeEdge: how many edges in use touch a and how many touch b. */
    method CountAt(a: int, b: int) returns (cnt1: nat, cnt2: nat)
      requires Valid()
      ensures cnt1 == G.EdgesAt(State(), a, edges) && cnt2 == G.EdgesAt(State(), b, edges)
    {
      ghost var g := State();
      cnt1, cnt2 := 0, 0;
      var i := 0;
      while i < edges
        invariant 0 <= i <= edges
        invariant cnt1 == G.EdgesAt(g, a, i) && cnt2 == G.EdgesAt(g, b, i)
      {
        if start[i] == a || end[i] == a {
          cnt1 := cnt1 + 1;
        }
        if start[i] == b || end[i] == b {
          cnt2 := cnt2 + 1;
        }
        i := i + 1;
      }
    }

    /** reverseEdge(ed): the image and the endpoints of ed turned round, every occurrence flipped. */
    method ReverseEdge(ed: nat) returns (r: Outcome)
      requires Valid()
      modifies this, im, start, end
      ensures Valid() && im == old(im) && start == old(start) && end == old(end)
      ensures Follows(r, G.ReverseEdge(old(State()), ed), old(State()), State())
    {
      if ed >= edges {
        return Fail("nonexistent edge");
      }
      var w := W.ReverseWord(im[ed]);
      im[ed] := w;
      var i := start[ed];
      start[ed] := end[ed];
      end[ed] := i;
      RewriteAll(G.ReverseOf(ed));
      r := Pass;
    }

    /** splitEdge(ed, at): a new vertex cuts ed; the new last edge takes the image from position at on. */
    method SplitEdge(ed: nat, at: nat) returns (r: Outcome)
      requires Valid()
      modifies this, im, start, end
      ensures Valid() && Follows(r, G.SplitEdge(old(State()), ed, at), old(State()), State())
      ensures (im == old(im) && start == old(start) && end == old(end)) || (fresh(im) && fresh(start) && fresh(end))
    {
      if ed >= edges || |im[ed]| <= at {
        return Fail("illegal argument");
      }
      ghost var g := State();
      G.GrowKeeps(g);
      if edges >= im.Length {
        r := IncreaseCapacity();
        if r.Fail? {
          return;
        }
      }
      assert G.Roomy(g) == Ok(State());
      assert im[ed] == State().im[..g.edges][ed] == g.im[..g.edges][ed];
      var n := edges;
      Cut(ed, at);
      RewriteAll(G.SplitOf(ed, n));
      r := Pass;
    }

    /** The graph part of splitEdge. */
    method Cut(ed: nat, at: nat)
      requires Valid() && ed < edges < im.Length && at < |im[ed]|
      modifies this, im, start, end
      ensures Valid() && im == old(im) && start == old(start) && end == old(end)
      ensures State() == G.Cut(old(State()), ed, at)
    {
      var n := edges;
      end[n] := end[ed];
      start[n] := vertices;
      end[ed] := vertices;
      vertices := vertices + 1;
      edges := edges + 1;
      im[n] := im[ed][at..];
      im[ed] := im[ed][..at];
    }

    /** tighten: images freely reduced, the fixed word and the marked loops cyclically reduced; true when an image changed. */
    method Tighten() returns (flag: bool)
      requires Valid()
      modifies this, im
      ensures Valid() && im == old(im) && start == old(start) && end == old(end)
      ensures State() == G.Tightened(old(State())) && flag == G.TightenFlag(old(State()))
    {
      ghost var g := State();
      flag := false;
      var i := 0;
      while i < edges
        invariant 0 <= i <= edges && Valid() && im == old(im) && start == old(start) && end == old(end)
        invariant State() == g.(im := State().im)
        invariant forall k :: 0 <= k < im.Length ==> im[k] == if k < i then P.Tighten(g.im[k]) else g.im[k]
        invariant flag <==> exists k :: 0 <= k < i && P.Tighten(g.im[k]) != g.im[k]
      {
        var tmp := im[i];
        var w := W.TightenWord(im[i]);
        im[i] := w;
        if tmp != w {
          flag := true;
        }
        i := i + 1;
      }
      assert im[..] == G.Tightened(g).im;
      var f := W.TightenWord(fix);
      fix := W.TightenCycl(f);
      if marked {
        TightenMarks();
      }
    }

    /** The marked loops each freely and then cyclically reduced. */
    method TightenMarks()
      requires Valid()
      modifies this
      ensures Valid() && im == old(im) && start == old(start) && end == old(end)
      ensures State() == old(State()).(mark := seq(|old(mark)|, i requires 0 <= i < |old(mark)| =>
                                                 P.TightenCycl(P.Tighten(old(mark)[i]))))
    {
      ghost var g := State();
      var k := 0;
      while k < |mark|
        invariant 0 <= k <= |mark| == |g.mark| && Valid() && im == old(im) && start == old(start) && end == old(end)
        invariant State() == g.(mark := mark)
        invariant forall j :: 0 <= j < |mark| ==> mark[j] == if j < k then P.TightenCycl(P.Tighten(g.mark[j])) else g.mark[j]
      {
        var w := W.TightenWord(mark[k]);
        w := W.TightenCycl(w);
        mark := mark[k := w];
        k := k + 1;
      }
    }

    /** setLabel(s): the map's label becomes s. */
    method SetLabel(s: string)
      requires Valid()
      modifies this
      ensures Valid() && im == old(im) && start == old(start) && end == old(end)
      ensures State() == old(State()).(name := s)
    {
      name := s;
    }

    /** setImage(ed, s): slot ed of the image buffer becomes s, in use or not; outside the buffer it throws. */
    method SetImage(ed: int, s: P.Path) returns (r: Outcome)
      requires Valid()
      modifies im
      ensures Valid() && im == old(im)
      ensures 0 <= ed < im.Length ==> r == Pass && State() == old(State()).(im := old(State()).im[ed := s])
      ensures !(0 <= ed < im.Length) ==> r == Fail("array index out of bounds") && State() == old(State())
    {
      if !(0 <= ed < im.Length) {
        return Fail("array index out of bounds");
      }
      im[ed] := s;
      r := Pass;
    }

    /** setMarking(nm, ml, ma): the map becomes marked, with loops ma labelled ml. */
    method SetMarking(ma: seq<P.Path>, ml: seq<string>)
      requires Valid()
      modifies this
      ensures Valid() && im == old(im) && start == old(start) && end == old(end)
      ensures State() == old(State()).(marked := true, mark := ma, marklabel := ml)
    {
      marked := true;
      mark := ma;
      marklabel := ml;
    }

    /** identifyVertices(v1, v2): the two vertices become one and the last vertex takes the freed number. */
    method IdentifyVertices(v1: int, v2: int) returns (r: Outcome)
      requires Valid()
      modifies this, start, end
      ensures Valid() && Follows(r, G.IdentifyVertices(old(State()), v1, v2), old(State()), State())
    {
      if v1 < 0 || v2 < 0 {
        return Fail("nonexistent vertex");
      }
      if v1 >= vertices || v2 >= vertices {
        return Fail("nonexistent vertex");
      }
      r := Pass;
      if v1 == v2 {
        return;
      }
      Relabel(G.IdentifyMap(v1, v2, vertices));
      vertices := vertices - 1;
    }

    /** swapVertices(v1, v2) as the source has it: refused only above the vertex count. */
    method SwapVertices(v1: int, v2: int) returns (r: Outcome)
      requires Valid()
      modifies start, end
      ensures Valid() && Follows(r, G.SwapVertices(old(State()), v1, v2), old(State()), State())
    {
      if v1 > vertices || v2 > vertices {
        return Fail("nonexistent vertex");
      }
      if v1 != v2 {
        Relabel(G.Swap(v1, v2));
      }
      r := Pass;
    }

    /** elementaryFold(e1, e2): e2 renamed e1 everywhere, the ends identified, e2 removed. */
    method ElementaryFold(e1: nat, e2: nat) returns (r: Outcome)
      requires Valid()
      modifies this, im, start, end
      ensures Valid() && Follows(r, G.ElementaryFold(old(State()), e1, e2), old(State()), State())
    {
      if e1 >= edges || e2 >= edges {
        return Fail("nonexistent edge");
      }
      if e1 == e2 {
        return Pass;
      }
      if im[e1] != im[e2] || start[e1] != start[e2] {
        return Fail("different images");
      }
      RewriteAll(G.FoldOf(e2, e1));
      AdjustVertices(end[e1], end[e2]);
      RemoveEntry(e2);
      r := Pass;
    }

    /** joinEdges(e1, e2): the edges turned so that e1 ends where e2 starts, e1 takes the path e1 e2, e2 is collapsed. */
    method JoinEdges(e1: nat, e2: nat) returns (r: Outcome)
      requires Valid()
      modifies this, im, start, end
      ensures Valid() && (State(), r) == G.JoinEdges(old(State()), e1, e2)
      ensures im == old(im) && start == old(start) && end == old(end)
    {
      if e1 >= edges || e2 >= edges {
        return Fail("nonexistent edge");
      }
      if e1 == e2 {
        return Pass;
      }
      Orient(e1, e2);
      if start[e2] != end[e1] {
        return Fail("edges not adjacent");
      }
      im[e1] := im[e1] + im[e2];
      r := CollapseEdge(e2);
    }

    /** The turning step of joinEdges: e1 turned unless its end has valence two, then e1 and e2 turned until they meet. */
    method Orient(e1: nat, e2: nat)
      requires Valid() && e1 < edges && e2 < edges && e1 != e2
      modifies this, im, start, end
      ensures Valid() && im == old(im) && start == old(start) && end == old(end)
      ensures State() == G.Oriented(old(State()), e1, e2)
    {
      var valence := Valence(end[e1]);
      TurnIf(e1, valence != 2);
      TurnIf(e2, start[e2] != end[e1]);
      TurnIf(e1, start[e2] != end[e1]);
      TurnIf(e2, start[e2] != end[e1]);
    }

    /** The number of ends of edges in use at vertex v, a loop counting twice. */
    method Valence(v: int) returns (n: nat)
      requires Valid()
      ensures n == G.Valence(State(), v, edges)
    {
      n := 0;
      var i := 0;
      while i < edges
        invariant 0 <= i <= edges && n == G.Valence(State(), v, i)
      {
        if start[i] == v {
          n := n + 1;
        }
        if end[i] == v {
          n := n + 1;
        }
        i := i + 1;
      }
    }

    /** reverseEdge(ed) when the condition holds. */
    method TurnIf(ed: nat, b: bool)
      requires Valid() && ed < edges
      modifies this, im, start, end
      ensures Valid() && im == old(im) && start == old(start) && end == old(end)
      ensures State() == G.ReversedIf(old(State()), ed, b)
    {
      if b {
        var _ := ReverseEdge(ed);
      }
    }

    /** contractEdge(ed): every edge at the end of ed absorbs the image of ed, ed is collapsed, the map tightened. */
    method ContractEdge(ed: nat) returns (r: Outcome)
      requires Valid()
      modifies this, im, start, end
      ensures Valid() && Follows(r, G.ContractEdge(old(State()), ed), old(State()), State())
    {
      if ed >= edges {
        return Fail("index too large");
      }
      if start[ed] == end[ed] {
        return Fail("endpoints have to be distinct");
      }
      Attach(ed);
      r := CollapseEdge(ed);
      var _ := Tighten();
    }

    /** The first step of contractEdge: the image of ed put in front of (its inverse behind) each image at its end. */
    method Attach(ed: nat)
      requires Valid() && ed < edges
      modifies im
      ensures Valid() && State() == old(State()).(im := G.Attach(old(State()), ed))
    {
      ghost var g := State();
      var i := 0;
      while i < edges
        invariant 0 <= i <= edges && im[ed] == g.im[ed]
        invariant forall k :: 0 <= k < im.Length ==>
          im[k] == if k < i && k != ed then G.Attached(g, ed, k) else g.im[k]
      {
        if i != ed {
          if start[i] == end[ed] {
            im[i] := im[ed] + im[i];
          }
          if end[i] == end[ed] {
            var rev := W.ReverseWord(im[ed]);
            im[i] := im[i] + rev;
          }
        }
        i := i + 1;
      }
      im[ed] := [];
      assert im[..] == G.Attach(g, ed);
    }

    /** The images of the edges in use replaced, the rest of the buffer kept. */
    method Overwrite(ims: seq<P.Path>)
      requires Valid() && |ims| == edges
      modifies im
      ensures Valid() && State() == old(State()).(im := ims + old(im[edges..]))
    {
      ghost var g := State();
      var i := 0;
      while i < edges
        invariant 0 <= i <= edges
        invariant forall k :: 0 <= k < im.Length ==> im[k] == if k < i then ims[k] else g.im[k]
      {
        im[i] := ims[i];
        i := i + 1;
      }
      assert im[..] == ims + g.im[edges..];
    }

    /** The images of the edges of g1 mapped by this map, or None when one has a letter past the buffer. */
    method MapImages(g1: GraphMap) returns (r: Option<seq<P.Path>>)
      requires Valid() && g1.Valid() && g1.edges == edges
      ensures r.None? <==> exists k :: 0 <= k < edges && !P.LettersBelow(g1.im[k], im.Length)
      ensures r.Some? ==>
        |r.value| == edges && forall k :: 0 <= k < edges ==> r.value[k] == G.MapWord(State(), g1.im[k]).value
    {
      var ims: seq<P.Path> := [];
      var i := 0;
      while i < edges
        invariant 0 <= i <= edges && |ims| == i
        invariant forall k :: 0 <= k < i ==>
          P.LettersBelow(g1.im[k], im.Length) && ims[k] == G.MapWord(State(), g1.im[k]).value
      {
        var w := MapWord(g1.im[i]);
        if w.None? {
          return None;
        }
        ims := ims + [w.value];
        i := i + 1;
      }
      r := Some(ims);
    }

    /** compose(g1): this becomes the map whose images are the images of g1 mapped by this. */
    method Compose(g1: GraphMap) returns (r: Outcome)
      requires Valid() && g1.Valid()
      modifies this
      ensures Valid() && Follows(r, G.Compose(old(State()), old(g1.State())), old(State()), State())
      ensures (im == old(im) && start == old(start) && end == old(end)) || (fresh(im) && fresh(start) && fresh(end))
    {
      var gog1 := new GraphMap.Copy(this);
      var same := SameGraph(g1);
      if !same {
        return Fail("different graphs");
      }
      var ims := MapImages(g1);
      if ims.None? {
        return Fail("array index out of bounds");
      }
      ghost var g := State();
      gog1.Overwrite(ims.value);
      assert gog1.State() == G.Compose(g, g1.State()).value;
      CopyGraph(gog1);
      r := Pass;
    }

    /** The scan of tightenVertex at vertex v: whether every image at v is non-empty and D is constant there. */
    method ConstantAt(v: int) returns (flag: bool)
      requires Valid()
      ensures flag == G.ConstantAround(State(), v)
    {
      ghost var g := State();
      var val := -1;
      flag := true;
      var j := 0;
      while flag && j < edges
        invariant 0 <= j <= edges && Scanning(g, G.Darts(g, v, j), val, flag)
      {
        val, flag := ScanEdge(v, j, val);
        j := j + 1;
      }
      if !flag {
        G.DartsPrefix(g, v, j, edges);
        G.ConstantOnPrefix(g, G.Darts(g, v, j), G.Darts(g, v, edges));
      }
    }

    /** The darts of edge j at v in the scan, its start before its end. */
    method ScanEdge(v: int, j: nat, val: int) returns (val': int, flag': bool)
      requires Valid() && j < edges && Scanning(State(), G.Darts(State(), v, j), val, true)
      ensures Scanning(State(), G.Darts(State(), v, j + 1), val', flag')
    {
      ghost var ds := G.Darts(State(), v, j);
      val', flag' := val, true;
      if start[j] == v {
        val', flag' := ScanDart(ds, Sym(j, false), val', flag');
        ds := ds + [Sym(j, false)];
      }
      if end[j] == v {
        val', flag' := ScanDart(ds, Sym(j, true), val', flag');
        ds := ds + [Sym(j, true)];
      }
      assert ds == G.Darts(State(), v, j + 1);
    }

    /**
     * One dart c of that scan after the darts ds: the flag drops when the image of c
     * is empty or its D differs from the first value seen.
     */
    method ScanDart(ghost ds: seq<Sym>, c: Sym, val: int, flag: bool) returns (val': int, flag': bool)
      requires Valid() && c.index < edges && forall i :: 0 <= i < |ds| ==> ds[i].index < edges
      requires Scanning(State(), ds, val, flag)
      ensures Scanning(State(), ds + [c], val', flag')
    {
      val', flag' := val, flag;
      if im[c.index] == [] {
        flag' := false;
      } else {
        var d := G.D(State(), c);
        if val' < 0 {
          val' := Encode(d);
        }
        if val' != Encode(d) {
          flag' := false;
        }
        if flag && ds != [] {
          DecodeEncode(d);
          DecodeEncode(G.D(State(), ds[0]));
        }
      }
      if !flag {
        G.ConstantOnPrefix(State(), ds, ds + [c]);
      } else if !flag' {
        assert (ds + [c])[|ds|] == c;
      }
    }

    /** The chopping step of tightenVertex at v: each image loses its letters at its ends at v. */
    method ChopAt(v: int)
      requires Valid() && G.ChopOK(State(), v)
      modifies im
      ensures Valid() && State() == G.Chopped(old(State()), v)
    {
      ghost var g := State();
      var j := 0;
      while j < edges
        invariant 0 <= j <= edges
        invariant forall k :: 0 <= k < im.Length ==> im[k] == if k < j then G.Chopped(g, v).im[k] else g.im[k]
      {
        if start[j] == v {
          im[j] := im[j][1..];
        }
        if end[j] == v {
          im[j] := im[j][..|im[j]| - 1];
        }
        j := j + 1;
      }
      assert im[..] == G.Chopped(g, v).im;
    }

    /**
     * tightenVertex: at each vertex where D is constant the common letter is chopped
     * off, then edges with empty images are collapsed. As the source has it (strict
     * off), a vertex without any edge counts as a chop; the corrected form (strict on)
     * passes over such a vertex.
     */
    method TightenVertex(strict: bool) returns (fflag: bool)
      requires Valid()
      modifies this, im, start, end
      ensures Valid() && im == old(im) && start == old(start) && end == old(end)
      ensures (State(), fflag) == G.TightenVertex(old(State()), strict)
    {
      fflag := VertexLoop(strict);
      CollapseEmpty();
    }

    /** The pass of tightenVertex over the vertices, before the collapses. */
    method VertexLoop(strict: bool) returns (fflag: bool)
      requires Valid()
      modifies im
      ensures Valid() && (State(), fflag) == G.VertexPass(old(State()), 0, strict)
    {
      ghost var g := State();
      fflag := false;
      var i := 0;
      while i < vertices
        invariant 0 <= i && Valid()
        invariant G.VertexPass(State(), i, strict).0 == G.VertexPass(g, 0, strict).0
        invariant (fflag || G.VertexPass(State(), i, strict).1) == G.VertexPass(g, 0, strict).1
        decreases vertices - i
      {
        var flag := VertexStep(i, strict);
        fflag := fflag || flag;
        i := i + 1;
      }
    }

    /** One vertex of the pass of tightenVertex: chop at v if D is constant there. */
    method VertexStep(v: nat, strict: bool) returns (flag: bool)
      requires Valid() && v < vertices
      modifies im
      ensures Valid() && State().edges == old(State()).edges && State().vertices == old(State()).vertices
      ensures State().start == old(State()).start && State().end == old(State()).end
      ensures G.VertexPass(State(), v + 1, strict).0 == G.VertexPass(old(State()), v, strict).0
      ensures (flag || G.VertexPass(State(), v + 1, strict).1) == G.VertexPass(old(State()), v, strict).1
    {
      flag := ChopsAt(v, strict);
      if flag {
        G.ConstantChopOK(State(), v);
        ChopAt(v);
      }
    }

    /** Whether the pass of tightenVertex chops at v. */
    method ChopsAt(v: int, strict: bool) returns (flag: bool)
      requires Valid()
      ensures flag == (G.ConstantAround(State(), v) && (strict ==> |G.Darts(State(), v, edges)| > 0))
    {
      flag := ConstantAt(v);
      if flag && strict {
        flag := HasDart(v);
      }
    }

    /** Whether some end of an edge in use lies at v. */
    method HasDart(v: int) returns (b: bool)
      requires Valid()
      ensures b == (|G.Darts(State(), v, edges)| > 0)
    {
      b := false;
      var j := 0;
      while j < edges
        invariant 0 <= j <= edges && b == (|G.Darts(State(), v, j)| > 0)
      {
        if start[j] == v || end[j] == v {
          b := true;
        }
        j := j + 1;
      }
    }

    /** The closing loop of tightenVertex: every edge with an empty image is collapsed. */
    method CollapseEmpty()
      requires Valid()
      modifies this, im, start, end
      ensures Valid() && im == old(im) && start == old(start) && end == old(end)
      ensures State() == G.CollapseEmpty(old(State()), 0)
    {
      ghost var p := State();
      var i := 0;
      while i < edges
        invariant 0 <= i <= edges && Valid() && G.CollapseEmpty(State(), i) == G.CollapseEmpty(p, 0)
        invariant im == old(im) && start == old(start) && end == old(end)
        decreases edges - i
      {
        if im[i] == [] {
          var _ := CollapseEdge(i);
        } else {
          i := i + 1;
        }
      }
    }

    /** identity(): every edge in use becomes its own image. */
    method Identity()
      requires Valid()
      modifies im
      ensures Valid() && State() == G.Identity(old(State()))
    {
      ghost var g := State();
      var i := 0;
      while i < edges
        invariant 0 <= i <= edges
        invariant forall k :: 0 <= k < im.Length ==> im[k] == if k < i then [Sym(k, false)] else g.im[k]
      {
        im[i] := [Sym(i, false)];
        i := i + 1;
      }
      assert im[..] == G.Identity(g).im;
    }

    /** firstVertex(c): the endpoint where the letter c starts; past the buffers it throws. */
    method FirstVertexOf(c: Sym) returns (r: Option<int>)
      requires Valid()
      ensures r == G.FirstVertex(State(), c)
    {
      if c.index >= im.Length {
        return None;
      }
      r := Some(if c.inv then end[c.index] else start[c.index]);
    }

    /** lastVertex(c): the endpoint where the letter c ends; past the buffers it throws. */
    method LastVertexOf(c: Sym) returns (r: Option<int>)
      requires Valid()
      ensures r == G.LastVertex(State(), c)
    {
      if c.index >= im.Length {
        return None;
      }
      r := Some(if c.inv then start[c.index] else end[c.index]);
    }

    /** setFirstVertex(c, v): the endpoint where c starts becomes v. */
    method SetFirstVertex(c: Sym, v: int)
      requires Valid() && c.index < im.Length
      modifies start, end
      ensures Valid() && State() == G.SetFirst(old(State()), c, v)
    {
      if c.inv {
        end[c.index] := v;
      } else {
        start[c.index] := v;
      }
    }

    /**
     * replaceEdge(c, s, rel): every occurrence of c in the images, the fixed word, the
     * marked loops and the relations rel becomes s (and its inverse the inverse of s),
     * tightened; the edge c stays.
     */
    method ReplaceEdge(c: Sym, s: P.Path, rel: array?<P.Path>)
      requires Valid() && rel != im
      modifies this, im, rel
      ensures Valid() && im == old(im) && start == old(start) && end == old(end)
      ensures State() == G.RewriteAll(old(State()), G.ReplaceOf(c, s))
      ensures rel != null ==> rel[..] == G.ApplyFirst(G.ReplaceOf(c, s), old(rel[..]), rel.Length)
    {
      RewriteAll(G.ReplaceOf(c, s));
      if rel != null {
        ReplaceInAll(rel, c, s);
      }
    }

    /** The loop of replaceEdge over the relations: replaceChar on each of them. */
    static method ReplaceInAll(rel: array<P.Path>, c: Sym, s: P.Path)
      modifies rel
      ensures rel[..] == G.ApplyFirst(G.ReplaceOf(c, s), old(rel[..]), rel.Length)
    {
      ghost var rs := rel[..];
      var i := 0;
      while i < rel.Length
        invariant 0 <= i <= rel.Length && rel[..] == G.ApplyFirst(G.ReplaceOf(c, s), rs, i)
      {
        var w := W.ReplaceChar(rel[i], c, s);
        rel[i] := w;
        i := i + 1;
        assert rel[..] == G.ApplyFirst(G.ReplaceOf(c, s), rs, i);
      }
    }

    /**
     * tietzeTrafos(rel): every relation is scanned for a letter whose edge occurs only
     * once in it; the inverse of that letter is replaced everywhere (replaceEdge) by the
     * rest of the relation and its edge is noted; the noted edges are removed at the end.
     */
    method TietzeTrafos(rel: array<P.Path>) returns (r: Outcome)
      requires Valid() && rel != im
      modifies this, im, start, end, rel
      ensures Valid()
      ensures TZ.Trafos(old(State()), old(rel[..])).Ok? <==> r == Pass
      ensures r == Pass ==> State() == TZ.Trafos(old(State()), old(rel[..])).value
      ensures r != Pass ==> r == Fail(TZ.Trafos(old(State()), old(rel[..])).msg)
    {
      var gone, cntrep := ScanRelations(rel);
      r := RemoveNoted(gone[..cntrep]);
    }

    /** The scanning loop of tietzeTrafos: the relations in turn, the noted edges in gone[..cntrep]. */
    method ScanRelations(rel: array<P.Path>) returns (gone: array<nat>, cntrep: nat)
      requires Valid() && rel != im
      modifies this, im, rel
      ensures Valid() && im == old(im) && start == old(start) && end == old(end)
      ensures fresh(gone) && cntrep <= gone.Length
      ensures TZ.Scan(State(), rel[..], gone[..cntrep]) == TZ.ScanAll(TZ.Scan(old(State()), old(rel[..]), []), 0)
    {
      ghost var goal := TZ.ScanAll(TZ.Scan(State(), rel[..], []), 0);
      gone := new nat[rel.Length];
      cntrep := 0;
      var i := 0;
      while i < rel.Length
        invariant 0 <= cntrep <= i <= rel.Length == gone.Length
        invariant Valid() && im == old(im) && start == old(start) && end == old(end)
        invariant G.Valid(State()) && TZ.ScanAll(TZ.Scan(State(), rel[..], gone[..cntrep]), i) == goal
      {
        cntrep := ScanRelation(rel, i, gone, cntrep);
        i := i + 1;
      }
    }

    /** The removing loop of tietzeTrafos: removeEdge on each noted edge, stopping at the first refusal. */
    method RemoveNoted(gone: seq<nat>) returns (r: Outcome)
      requires Valid()
      modifies this, im, start, end
      ensures Valid()
      ensures TZ.RemoveAll(old(State()), gone, 0).Ok? <==> r == Pass
      ensures r == Pass ==> State() == TZ.RemoveAll(old(State()), gone, 0).value
      ensures r != Pass ==> r == Fail(TZ.RemoveAll(old(State()), gone, 0).msg)
    {
      ghost var goal := TZ.RemoveAll(State(), gone, 0);
      var i := 0;
      while i < |gone|
        invariant 0 <= i <= |gone|
        invariant Valid() && im == old(im) && start == old(start) && end == old(end)
        invariant TZ.RemoveAll(State(), gone, i) == goal
      {
        r := RemoveEdge(gone[i]);
        if r.Fail? {
          return;
        }
        i := i + 1;
      }
      r := Pass;
    }

    /** The scan of relation i by tietzeTrafos, with cntrep edges noted in gone so far. */
    method ScanRelation(rel: array<P.Path>, i: nat, gone: array<nat>, cntrep: nat) returns (cnt': nat)
      requires Valid() && rel != im && i < rel.Length == gone.Length && cntrep <= i
      modifies this, im, rel, gone
      ensures Valid() && im == old(im) && start == old(start) && end == old(end)
      ensures cntrep <= cnt' <= cntrep + 1
      ensures TZ.Scan(State(), rel[..], gone[..cnt']) ==
        TZ.ScanFrom(TZ.Scan(old(State()), old(rel[..]), old(gone[..cntrep])), i, 0)
    {
      ghost var goal := TZ.ScanFrom(TZ.Scan(State(), rel[..], gone[..cntrep]), i, 0);
      cnt' := cntrep;
      var j := 0;
      while j < |rel[i]|
        invariant Valid() && im == old(im) && start == old(start) && end == old(end)
        invariant cntrep <= cnt' <= cntrep + 1 && (cnt' == cntrep + 1 ==> rel[i] == [])
        invariant gone[..cntrep] == old(gone[..cntrep])
        invariant TZ.ScanFrom(TZ.Scan(State(), rel[..], gone[..cnt']), i, j) == goal
        decreases if j <= |rel[i]| then |rel[i]| - j else 0
      {
        var w := rel[i];
        var cnt := CountEdge(w, w[j].index);
        if cnt == 1 {
          TZ.HitVanishes(w, j);
          ReplaceEdge(Inv(w[j]), w[j + 1..] + w[..j], rel);
          gone[cnt'] := w[j].index;
          assert gone[..cnt' + 1] == old(gone[..cntrep]) + [w[j].index];
          cnt' := cnt' + 1;
        }
        j := j + 1;
      }
    }

    /** The counting loop of tietzeTrafos: the letters of w along edge e. */
    static method CountEdge(w: P.Path, e: int) returns (cnt: nat)
      ensures cnt == TZ.EdgeCount(w, e, |w|)
    {
      cnt := 0;
      var k := 0;
      while k < |w|
        invariant 0 <= k <= |w| && cnt == TZ.EdgeCount(w, e, k)
      {
        if w[k].index == e {
          cnt := cnt + 1;
        }
        k := k + 1;
      }
    }

    // ---- spanning trees (evaluateTree) ----

    /**
     * evaluateTree(spt, path, tr): spt gets the edges tr names (the flags of the edges
     * in use cleared first), tr must name vertices - 1 edges that were not flagged, and
     * path, when given, receives for every two vertices i and j a reduced path from i to
     * j made of the named edges, path[j, i] being path[i, j] run backwards.
     */
    method EvaluateTree(spt: array<bool>, path: array2?<P.Path>, tr: P.Path) returns (r: Outcome)
      requires Valid() && edges <= spt.Length
      requires path != null ==> G.EndpointsOK(State()) && path.Length0 == vertices && path.Length1 == vertices
      modifies spt, path
      ensures !P.LettersBelow(tr, spt.Length) ==> r == Fail("array index out of bounds")
      ensures P.LettersBelow(tr, spt.Length) ==>
        spt[..] == T.Marks(T.Cleared(old(spt[..]), edges), tr).0
      ensures P.LettersBelow(tr, spt.Length) && T.Marks(T.Cleared(old(spt[..]), edges), tr).1 != vertices - 1 ==>
        r == Fail("wrong number of edges in spanning tree: " + PathToString(tr))
      ensures P.LettersBelow(tr, spt.Length) && T.Marks(T.Cleared(old(spt[..]), edges), tr).1 == vertices - 1 ==>
        if path == null then r == Pass
        else r == Pass || r == Fail("bad spanning tree: " + PathToString(tr))
      ensures r == Pass && path != null ==> Spanned(State(), path, spt[..edges])
      ensures P.LettersBelow(tr, spt.Length) && T.Marks(T.Cleared(old(spt[..]), edges), tr).1 == vertices - 1 && path != null ==>
        (r == Pass <==> RC.Connected(State(), spt[..edges]))
    {
      var ok, cnt := MarkTree(spt, edges, tr);
      ghost var marked := spt[..];
      if !ok {
        return Fail("array index out of bounds");
      }
      if cnt != vertices - 1 {
        var s := W.PathToString(tr);
        return Fail("wrong number of edges in spanning tree: " + s);
      }
      r := Pass;
      if path != null {
        ClearPaths(path);
        PlaceTreeEdges(spt, path);
        var round := 2;
        while round < vertices
          invariant TreeWalks(State(), path, spt[..edges]) && spt[..] == marked
          invariant 2 <= round && (vertices >= 2 ==> round <= vertices) && RC.Filled(State(), path, spt[..edges], round - 1)
        {
          CloseRound(spt, path, round);
          round := round + 1;
        }
        ghost var flags := spt[..edges];
        if RC.Connected(State(), flags) {
          forall a, b | 0 <= a < b < vertices ensures path[a, b] != [] {
            RC.NearMono(State(), flags, a, b, RC.Span(State()), round - 1);
          }
        }
        r := FinishPaths(spt, path, tr);
        assert spt[..] == marked;
        if r == Pass {
          SpannedConnected(State(), path, flags);
        }
      }
    }

    /**
     * The first two loops of evaluateTree: clear the first n flags, then flag every
     * letter of tr, counting the flags that were not set yet; a letter past the flags fails.
     */
    static method MarkTree(spt: array<bool>, n: nat, tr: P.Path) returns (ok: bool, cnt: nat)
      requires n <= spt.Length
      modifies spt
      ensures ok <==> P.LettersBelow(tr, spt.Length)
      ensures ok ==> spt[..] == T.Marks(T.Cleared(old(spt[..]), n), tr).0
      ensures ok ==> cnt == T.Marks(T.Cleared(old(spt[..]), n), tr).1
    {
      ghost var before := spt[..];
      var i := 0;
      while i < n
        invariant i <= n && spt[..] == T.Cleared(before, i)
      {
        spt[i] := false;
        i := i + 1;
      }
      ghost var flags := spt[..];
      assert flags == T.Cleared(before, n);
      cnt := 0;
      i := 0;
      while i < |tr|
        invariant i <= |tr| && P.LettersBelow(tr[..i], spt.Length)
        invariant Marking(flags, tr, i, spt[..], cnt)
      {
        var j := tr[i].index;
        if j >= spt.Length {
          return false, cnt;
        }
        MarkStep(flags, tr, i, spt[..], cnt);
        if !spt[j] {
          cnt := cnt + 1;
        }
        spt[j] := true;
        i := i + 1;
      }
      assert tr[..i] == tr && tr[i..] == [];
      ok := true;
    }

    /** Every entry of path becomes the empty path. */
    static method ClearPaths(path: array2<P.Path>)
      modifies path
      ensures forall i, j :: 0 <= i < path.Length0 && 0 <= j < path.Length1 ==> path[i, j] == []
    {
      var i := 0;
      while i < path.Length0
        invariant i <= path.Length0
        invariant forall x, y :: 0 <= x < i && 0 <= y < path.Length1 ==> path[x, y] == []
      {
        var j := 0;
        while j < path.Length1
          invariant j <= path.Length1
          invariant forall x, y :: 0 <= x < i && 0 <= y < path.Length1 ==> path[x, y] == []
          invariant forall y :: 0 <= y < j ==> path[i, y] == []
        {
          path[i, j] := [];
          j := j + 1;
        }
        i := i + 1;
      }
    }

    /** Each flagged edge in use is the path from its start to its end, and its inverse the way back. */
    method PlaceTreeEdges(spt: array<bool>, path: array2<P.Path>)
      requires Valid() && edges <= spt.Length && G.EndpointsOK(State())
      requires path.Length0 == vertices && path.Length1 == vertices
      requires forall i, j :: 0 <= i < path.Length0 && 0 <= j < path.Length1 ==> path[i, j] == []
      modifies path
      ensures TreeWalks(State(), path, spt[..edges])
      ensures RC.Filled(State(), path, spt[..edges], 1)
    {
      forall x, y | 0 <= x < path.Length0 && 0 <= y < path.Length0
        ensures WalkAt(State(), path, spt[..edges], x, y)
      {
        assert path[x, y] == [] && path[y, x] == [];
      }
      ghost var g := State();
      var i := 0;
      while i < edges
        invariant i <= edges && TreeWalks(g, path, spt[..edges])
        invariant forall e :: 0 <= e < i && spt[e] ==> path[g.start[e], g.end[e]] != [] && path[g.end[e], g.start[e]] != []
      {
        if spt[i] {
          PutPair(spt, path, start[i], end[i], [Sym(i, false)], [Sym(i, true)]);
        }
        i := i + 1;
      }
      ghost var flags := spt[..edges];
      forall x, y | 0 <= x < path.Length0 && 0 <= y < path.Length1 && x != y && RC.Near(g, flags, x, y, 1)
        ensures path[x, y] != []
      {
        var e :| 0 <= e < g.edges && e < |flags| && flags[e] &&
          ((g.end[e] == y && RC.Near(g, flags, x, g.start[e], 0)) || (g.start[e] == y && RC.Near(g, flags, x, g.end[e], 0)));
        assert spt[e];
      }
    }

    /**
     * One round of evaluateTree's closure: a missing path i..j (i < j) is joined through
     * some k. Round d finds every pair joined within d flagged edges once the rounds
     * before found the pairs joined within d - 1.
     */
    method CloseRound(spt: array<bool>, path: array2<P.Path>, ghost d: nat)
      requires Valid() && edges <= spt.Length && G.EndpointsOK(State())
      requires path.Length0 == vertices && path.Length1 == vertices
      requires TreeWalks(State(), path, spt[..edges])
      requires 2 <= d && RC.Filled(State(), path, spt[..edges], d - 1)
      modifies path
      ensures TreeWalks(State(), path, spt[..edges])
      ensures RC.Filled(State(), path, spt[..edges], d)
    {
      ghost var g, flags := State(), spt[..edges];
      var i := 0;
      while i < vertices - 1
        invariant TreeWalks(g, path, flags) && RC.Filled(g, path, flags, d - 1)
        invariant forall a, b :: 0 <= a < b < vertices && a < i && RC.Near(g, flags, a, b, d) ==> path[a, b] != []
      {
        var j := i + 1;
        while j < vertices
          invariant 0 <= i < j && TreeWalks(g, path, flags) && RC.Filled(g, path, flags, d - 1)
          invariant forall a, b :: 0 <= a < b < vertices && (a < i || (a == i && b < j)) && RC.Near(g, flags, a, b, d) ==>
            path[a, b] != []
        {
          if path[i, j] == [] {
            ghost var k := i;
            if RC.Near(g, flags, i, j, d) {
              RC.Between(g, path, flags, d, i, j);
              k :| 0 <= k < vertices && path[i, k] != [] && path[k, j] != [];
            }
            CloseThrough(spt, path, i, j);
          }
          j := j + 1;
        }
        i := i + 1;
      }
      forall x, y | 0 <= x < path.Length0 && 0 <= y < path.Length1 && x != y && RC.Near(g, flags, x, y, d)
        ensures path[x, y] != []
      {
        if y < x {
          RC.NearSym(g, flags, x, y, d);
          assert path[y, x] != [];
          assert WalkAt(g, path, flags, x, y);
        }
      }
    }

    /** For every k with paths i..k and k..j, path[i, j] and path[j, i] go through k. */
    method CloseThrough(spt: array<bool>, path: array2<P.Path>, i: nat, j: nat)
      requires Valid() && edges <= spt.Length && path.Length0 == vertices && path.Length1 == vertices
      requires i < j < vertices && TreeWalks(State(), path, spt[..edges])
      modifies path
      ensures TreeWalks(State(), path, spt[..edges])
      ensures forall x, y :: 0 <= x < path.Length0 && 0 <= y < path.Length1 && old(path[x, y]) != [] ==> path[x, y] != []
      ensures forall k :: 0 <= k < vertices && old(path[i, k]) != [] && old(path[k, j]) != [] ==> path[i, j] != []
    {
      var k := 0;
      while k < vertices
        invariant TreeWalks(State(), path, spt[..edges])
        invariant forall x, y :: 0 <= x < path.Length0 && 0 <= y < path.Length1 && old(path[x, y]) != [] ==> path[x, y] != []
        invariant k <= vertices && forall k' :: 0 <= k' < k && old(path[i, k']) != [] && old(path[k', j]) != [] ==> path[i, j] != []
      {
        if path[i, k] != [] && path[k, j] != [] {
          JoinWalks(State(), spt[..edges], path, i, k, j);
          PutPair(spt, path, i, j, path[i, k] + path[k, j], path[j, k] + path[k, i]);
        }
        k := k + 1;
      }
    }

    /**
     * path[i, j] := p, then path[j, i] := q, for non-empty p from i to j and q from j
     * to i along flagged edges.
     */
    method PutPair(spt: array<bool>, path: array2<P.Path>, i: int, j: int, p: P.Path, q: P.Path)
      requires Valid() && edges <= spt.Length && 0 <= i < path.Length0 && 0 <= j < path.Length0
      requires TreeWalks(State(), path, spt[..edges])
      requires p != [] && G.EndOf(State(), p, i) == Some(j) && T.LettersIn(p, spt[..edges])
      requires q != [] && G.EndOf(State(), q, j) == Some(i) && T.LettersIn(q, spt[..edges])
      modifies path
      ensures TreeWalks(State(), path, spt[..edges])
      ensures path[i, j] == (if i == j then q else p) && path[j, i] == q
      ensures forall x, y :: 0 <= x < path.Length0 && 0 <= y < path.Length1 && !(x == i && y == j) && !(x == j && y == i) ==>
        path[x, y] == old(path[x, y])
      ensures forall a, b :: 0 <= a < b < path.Length0 && !(a == i && b == j) && !(a == j && b == i) ==>
        old(SettledAt(path, a, b)) ==> SettledAt(path, a, b)
      ensures forall x, y :: 0 <= x < path.Length0 && 0 <= y < path.Length1 && old(path[x, y]) != [] ==> path[x, y] != []
    {
      path[i, j] := p;
      path[j, i] := q;
      forall x, y | 0 <= x < path.Length0 && 0 <= y < path.Length0
        ensures WalkAt(State(), path, spt[..edges], x, y)
      {
        if !(x == i && y == j) && !(x == j && y == i) {
          assert old(WalkAt(State(), path, spt[..edges], x, y));
        }
      }
    }

    /**
     * The last loop of evaluateTree: for i < j a missing path is an error, otherwise
     * path[i, j] is tightened and path[j, i] becomes its reverse.
     */
    method FinishPaths(spt: array<bool>, path: array2<P.Path>, tr: P.Path) returns (r: Outcome)
      requires Valid() && edges <= spt.Length && path.Length0 == vertices && path.Length1 == vertices
      requires TreeWalks(State(), path, spt[..edges])
      modifies path
      ensures r == Pass || r == Fail("bad spanning tree: " + PathToString(tr))
      ensures r == Pass ==> Spanned(State(), path, spt[..edges])
      ensures (forall a, b :: 0 <= a < b < vertices ==> old(path[a, b]) != []) ==> r == Pass
    {
      var i: nat := 0;
      while i < vertices - 1
        invariant TreeWalks(State(), path, spt[..edges]) && Settled(path, i, i + 1)
        invariant forall a, b :: i <= a < b < vertices ==> path[a, b] == old(path[a, b])
      {
        var ok := FinishRow(spt, path, i);
        if !ok {
          var s := W.PathToString(tr);
          return Fail("bad spanning tree: " + s);
        }
        SettledNext(path, i);
        i := i + 1;
      }
      SettledDone(path, i);
      r := Pass;
    }

    /** Row i of the last loop: every pair i < j is settled, or a missing path stops it. */
    method FinishRow(spt: array<bool>, path: array2<P.Path>, i: nat) returns (ok: bool)
      requires Valid() && edges <= spt.Length && path.Length0 == vertices && path.Length1 == vertices && i < vertices
      requires TreeWalks(State(), path, spt[..edges]) && Settled(path, i, i + 1)
      modifies path
      ensures TreeWalks(State(), path, spt[..edges])
      ensures ok ==> Settled(path, i, vertices)
      ensures (forall b :: i < b < vertices ==> old(path[i, b]) != []) ==> ok
      ensures forall a, b :: i < a < b < vertices ==> path[a, b] == old(path[a, b])
    {
      var j := i + 1;
      while j < vertices
        invariant i < j && TreeWalks(State(), path, spt[..edges]) && Settled(path, i, j)
        invariant forall b :: j <= b < vertices ==> path[i, b] == old(path[i, b])
        invariant forall a, b :: i < a < b < vertices ==> path[a, b] == old(path[a, b])
      {
        if path[i, j] == [] {
          return false;
        }
        assert WalkAt(State(), path, spt[..edges], i, j);
        var t := W.TightenWord(path[i, j]);
        G.TightenEndOf(State(), path[i, j], i, j);
        T.TightenLettersIn(path[i, j], spt[..edges]);
        var u := W.ReverseWord(t);
        G.ReverseEndOf(State(), t, i, j);
        T.TightenLettersIn(t, spt[..edges]);
        PutPair(spt, path, i, j, t, u);
        assert SettledAt(path, i, j);
        j := j + 1;
      }
      ok := true;
    }

    // ---- identities on roses ----

    /** init(cap) followed by k calls addEdge(v, v, the edge itself): the rose with k petals at v. */
    static method BuildRose(cap: nat, k: nat, v: int) returns (g: GraphMap, r: Outcome)
      requires k <= cap && v >= -1
      ensures fresh(g) && g.Valid()
      ensures r == Pass <==> cap <= MAXINDEX
      ensures r == Pass ==> fresh(g.im) && fresh(g.start) && fresh(g.end)
      ensures r == Pass ==> g.State() == G.Rose(cap, k, v, [])
      ensures r != Pass ==> r == Fail("too many edges")
    {
      g := new GraphMap();
      r := g.Init(cap);
      if r.Fail? {
        return;
      }
      if cap > 0 {
        G.RoseAdd(cap, 0, v);
      } else {
        assert g.State() == G.Rose(cap, 0, v, []);
      }
      var i := 0;
      while i < k
        invariant 0 <= i <= k && g.Valid() && r == Pass
        invariant fresh(g.im) && fresh(g.start) && fresh(g.end)
        invariant g.State() == G.Rose(cap, i, v, [])
      {
        G.RoseAdd(cap, i, v);
        r := g.AddEdge(v, v, [Sym(i, false)]);
        i := i + 1;
      }
    }

    /** identity(n): the rose with n petals at vertex 0, each mapped to itself, and no fixed word. */
    static method IdentityRose(n: nat) returns (g: GraphMap, r: Outcome)
      ensures g.Valid() && Yields(r, G.IdentityRose(n), g.State())
    {
      g, r := BuildRose(2 * n, n, 0);
      if r.Pass? {
        g.fix := [];
      }
    }

    /** identity(bd): the rose with |bd|/2 petals at vertex 0 whose fixed word is dualize(bd). */
    static method IdentityFromBoundary(bd: P.Path) returns (g: GraphMap, r: Outcome)
      ensures fresh(g) && g.Valid() && Yields(r, BoundaryRose(bd), g.State())
      ensures r.Pass? ==> fresh(g.im) && fresh(g.start) && fresh(g.end)
    {
      g, r := BuildRose(2 * |bd|, |bd| / 2, 0);
      if r.Fail? {
        return;
      }
      var dw := B.Dualize(bd);
      if dw.Err? {
        return g, Fail(dw.msg);
      }
      g.fix := dw.value;
    }

    /**
     * identityFromFixed(fw): |fw|/2 edges mapped to themselves, with unassigned ends,
     * then vertices assigned by walking fw: each unassigned letter starts a new vertex,
     * which the walk gives to every letter it meets until it meets an assigned one.
     */
    static method IdentityFromFixed(fw: P.Path) returns (g: GraphMap, r: Outcome)
      ensures fresh(g) && g.Valid()
      ensures r == Pass ==> fresh(g.im)
      ensures !B.IsBoundary(fw) ==> r == Fail("bad boundary word: " + PathToString(fw))
      ensures B.IsBoundary(fw) && 2 * |fw| > MAXINDEX ==> r == Fail("too many edges")
      ensures B.IsBoundary(fw) && 2 * |fw| <= MAXINDEX && P.LettersBelow(fw, 2 * |fw|) ==> r == Pass
      ensures B.IsBoundary(fw) && 2 * |fw| <= MAXINDEX && r.Fail? ==>
        r == Fail("array index out of bounds") && !P.LettersBelow(fw, 2 * |fw|)
      ensures r.Fail? ==>
        r.msg in {"bad boundary word: " + PathToString(fw), "too many edges", "array index out of bounds"}
      ensures r.Pass? ==> FixedRose(g.State(), fw)
      ensures r.Pass? <==> FixedRoseOf(fw).Ok?
      ensures r.Pass? ==> g.State() == FixedRoseOf(fw).value
      ensures r.Fail? ==> r.msg == FixedRoseOf(fw).msg
    {
      var ok := B.IsBoundaryScan(fw);
      if !ok {
        g := new GraphMap();
        var t := W.PathToString(fw);
        return g, Fail("bad boundary word: " + t);
      }
      g, r := BuildRose(2 * |fw|, |fw| / 2, -1);
      if r.Fail? {
        return;
      }
      var cnt;
      r, cnt := AssignVertices(g, fw);
      if r.Fail? {
        return;
      }
      g.vertices := cnt;
      g.fix := fw;
    }

    /** The vertex-assigning walk of identityFromFixed; cnt counts the vertices. */
    static method AssignVertices(g: GraphMap, fw: P.Path) returns (r: Outcome, cnt: nat)
      requires 2 * |fw| <= MAXINDEX && B.InversesOccur(fw)
      requires g.Valid() && g.State() == G.Rose(2 * |fw|, |fw| / 2, -1, [])
      modifies g.start, g.end
      ensures g.Valid()
      ensures P.LettersBelow(fw, 2 * |fw|) ==> r == Pass
      ensures r != Pass ==> r == Fail("array index out of bounds") && !P.LettersBelow(fw, 2 * |fw|)
      ensures r == Pass ==> Assigning(g.State(), fw, cnt) && cnt <= |fw|
      ensures r == Pass ==> AssignFrom(old(g.State()), fw, 0, 0) == Ok((g.State(), cnt))
      ensures r != Pass ==> AssignFrom(old(g.State()), fw, 0, 0).Err?
    {
      var len := |fw|;
      var i := 0;
      r, cnt := Pass, 0;
      RoseAssigning(fw);
      ghost var goal := AssignFrom(g.State(), fw, 0, 0);
      while i < len
        invariant 0 <= i <= len && g.Valid() && Assigning(g.State(), fw, cnt) && r == Pass
        invariant cnt + G.Unset(g.State(), fw, len) <= len
        invariant AssignFrom(g.State(), fw, i, cnt) == goal
        decreases G.Unset(g.State(), fw, len), len - i
      {
        r, i, cnt := AssignAt(g, fw, i, cnt, goal);
        if r.Fail? {
          return;
        }
      }
    }

    /**
     * One position of the outer walk: an assigned letter is passed over, an unassigned
     * one starts the inner walk of a new vertex.
     */
    static method AssignAt(g: GraphMap, fw: P.Path, i: nat, cnt: nat, ghost goal: Result<(G.Graph, nat)>)
        returns (r: Outcome, i': nat, cnt': nat)
      requires B.InversesOccur(fw) && i < |fw| && g.Valid() && Assigning(g.State(), fw, cnt)
      requires cnt + G.Unset(g.State(), fw, |fw|) <= |fw| && AssignFrom(g.State(), fw, i, cnt) == goal
      modifies g.start, g.end
      ensures g.Valid()
      ensures r != Pass ==> r == Fail("array index out of bounds") && !P.LettersBelow(fw, 2 * |fw|) && goal.Err?
      ensures r == Pass ==> i' <= |fw| && Assigning(g.State(), fw, cnt') && cnt' + G.Unset(g.State(), fw, |fw|) <= |fw|
      ensures r == Pass ==> AssignFrom(g.State(), fw, i', cnt') == goal
      ensures r == Pass ==> old(G.Unset(g.State(), fw, |fw|)) > G.Unset(g.State(), fw, |fw|) ||
                            (G.Unset(g.State(), fw, |fw|) == old(G.Unset(g.State(), fw, |fw|)) && i' == i + 1)
    {
      var fv := g.FirstVertexOf(fw[i]);
      if fv.None? {
        assert fw[i].index >= 2 * |fw|;
        return Fail("array index out of bounds"), i, cnt;
      }
      if fv.value < 0 {
        r, i', cnt' := NewVertexAt(g, fw, i, cnt, goal);
      } else {
        AssignFromSkip(g.State(), fw, i, cnt);
        r, i', cnt' := Pass, i + 1, cnt;
      }
    }

    /** An unassigned letter of the outer walk: the inner walk gives a new vertex. */
    static method NewVertexAt(g: GraphMap, fw: P.Path, i: nat, cnt: nat, ghost goal: Result<(G.Graph, nat)>)
        returns (r: Outcome, i': nat, cnt': nat)
      requires B.InversesOccur(fw) && i < |fw| && g.Valid() && Assigning(g.State(), fw, cnt)
      requires cnt + G.Unset(g.State(), fw, |fw|) <= |fw| && G.Unassigned(g.State(), fw[i])
      requires AssignFrom(g.State(), fw, i, cnt) == goal
      modifies g.start, g.end
      ensures g.Valid()
      ensures r != Pass ==> r == Fail("array index out of bounds") && !P.LettersBelow(fw, 2 * |fw|) && goal.Err?
      ensures r == Pass ==> i' <= |fw| && Assigning(g.State(), fw, cnt') && cnt' + G.Unset(g.State(), fw, |fw|) <= |fw|
      ensures r == Pass ==> AssignFrom(g.State(), fw, i', cnt') == goal
      ensures r == Pass ==> G.Unset(g.State(), fw, |fw|) < old(G.Unset(g.State(), fw, |fw|))
    {
      ghost var h := g.State();
      var j;
      r, j := WalkVertex(g, fw, i, cnt);
      if r.Fail? {
        AssignFromWalkFails(h, fw, i, cnt);
        return r, i, cnt;
      }
      i', cnt' := j + 1, cnt + 1;
      AssignFromWalk(h, fw, i, cnt, g.State(), j, goal, i', cnt');
    }

    /**
     * The inner loops of identityFromFixed from position i, whose letter is unassigned:
     * the new vertex cnt goes to each letter met, and the walk goes on from just after
     * the inverse of that letter, until it meets an assigned letter.
     */
    static method WalkVertex(g: GraphMap, fw: P.Path, i0: nat, cnt: nat) returns (r: Outcome, i: nat)
      requires B.InversesOccur(fw) && i0 < |fw| && g.Valid() && Assigning(g.State(), fw, cnt)
      requires G.Unassigned(g.State(), fw[i0]) && cnt + G.Unset(g.State(), fw, |fw|) <= |fw|
      modifies g.start, g.end
      ensures g.Valid() && i < |fw|
      ensures r != Pass ==> r == Fail("array index out of bounds") && !P.LettersBelow(fw, 2 * |fw|)
      ensures r == Pass ==>
        Assigning(g.State(), fw, cnt + 1) && cnt + 1 + G.Unset(g.State(), fw, |fw|) <= |fw|
      ensures r == Pass ==> G.Unset(g.State(), fw, |fw|) < old(G.Unset(g.State(), fw, |fw|))
      ensures r == Pass ==> WalkFrom(old(g.State()), fw, i0, cnt) == Ok((g.State(), i))
      ensures r != Pass ==> WalkFrom(old(g.State()), fw, i0, cnt).Err?
    {
      ghost var goal := WalkFrom(g.State(), fw, i0, cnt);
      i, r := i0, Pass;
      var fv := Some(-1);
      while fv.Some? && fv.value < 0
        invariant i < |fw| && g.Valid() && Assigning(g.State(), fw, cnt + 1)
        invariant fv == G.FirstVertex(g.State(), fw[i])
        invariant fv.Some? && (fv.value < 0 ==> WalkFrom(g.State(), fw, i, cnt) == goal)
        invariant fv.value >= 0 ==> goal == Ok((g.State(), i))
        decreases G.Unset(g.State(), fw, |fw|)
      {
        i, fv := WalkStep(g, fw, i, cnt);
        if fv.None? {
          return Fail("array index out of bounds"), i;
        }
      }
    }

    /**
     * One letter of that walk: it gets the vertex cnt, the walk moves past its inverse,
     * and fv is the first vertex of the letter it reaches.
     */
    static method WalkStep(g: GraphMap, fw: P.Path, i: nat, cnt: nat) returns (i': nat, fv: Option<int>)
      requires B.InversesOccur(fw) && i < |fw| && g.Valid() && Assigning(g.State(), fw, cnt + 1)
      requires G.Unassigned(g.State(), fw[i])
      modifies g.start, g.end
      ensures i' < |fw| && g.Valid() && Assigning(g.State(), fw, cnt + 1)
      ensures G.Unset(g.State(), fw, |fw|) < old(G.Unset(g.State(), fw, |fw|))
      ensures g.State() == G.SetFirst(old(g.State()), fw[i], cnt)
      ensures i' == B.Next(B.SeekFrom(fw, Inv(fw[i]), i, 0), |fw|)
      ensures fv == G.FirstVertex(g.State(), fw[i'])
      ensures old(WalkFrom(g.State(), fw, i, cnt)) ==
        match fv
        case None => Err("array index out of bounds")
        case Some(v) => if v < 0 then WalkFrom(g.State(), fw, i', cnt) else Ok((g.State(), i'))
    {
      var c := fw[i];
      AssignStep(g.State(), fw, cnt, c);
      G.UnsetDrops(g.State(), fw, |fw|, i, cnt);
      g.SetFirstVertex(c, cnt);
      var j := B.Seek(fw, Inv(c), i);
      i' := B.Next(j, |fw|);
      fv := g.FirstVertexOf(fw[i']);
    }

    // ---- invertRose ----

    /** The word a Nielsen move makes of x and y, computed as the source does. */
    static method Moved(m: N.Move, x: P.Path, y: P.Path) returns (r: P.Path)
      ensures r == N.Combine(m, x, y)
    {
      var x', y' := x, y;
      if m == N.InvInv || m == N.InvProduct {
        x' := W.ReverseWord(x);
      }
      if m == N.ProductInv || m == N.InvInv {
        y' := W.ReverseWord(y);
      }
      r := W.TightenWord(x' + y');
    }

    /**
     * One move of invertRose on images i and j: taken when it makes image i smaller
     * in the order lessThan, and then made on the candidate inverse h as well.
     */
    method TryMove(m: N.Move, i: nat, j: nat, h: array<P.Path>, ghost phi: G.Graph) returns (moved: bool)
      requires Valid() && h != im && i < edges && j < edges && i != j && edges <= h.Length
      requires N.Related(phi, im[..], h[..], edges)
      modifies im, h
      ensures N.Related(phi, im[..], h[..], edges)
      ensures moved <==> N.LessThan(N.Combine(m, old(im[i]), old(im[j])), old(im[i]))
      ensures moved ==> N.Sum(N.Ranks(im[..]), edges) < N.Sum(N.Ranks(old(im[..])), edges)
      ensures !moved ==> im[..] == old(im[..]) && h[..] == old(h[..])
    {
      var c := Moved(m, im[i], im[j]);
      moved := N.LessThan(c, im[i]);
      if moved {
        var d := Moved(m, h[i], h[j]);
        ghost var f, hs := im[..], h[..];
        Store(h, i, c, d);
        N.MoveDecreases(phi, f, hs, edges, m, i, j, im[..], h[..]);
      }
    }

    /** Image i becomes c here and d in h. */
    method Store(h: array<P.Path>, i: nat, c: P.Path, d: P.Path)
      requires h != im && i < im.Length && i < h.Length
      modifies im, h
      ensures im[..] == old(im[..])[i := c] && h[..] == old(h[..])[i := d]
    {
      im[i] := c;
      h[i] := d;
    }

    /** The four moves tried in the order of the source; the first that applies is made. */
    method TryMoves(i: nat, j: nat, h: array<P.Path>, ghost phi: G.Graph) returns (moved: bool)
      requires Valid() && h != im && i < edges && j < edges && i != j && edges <= h.Length
      requires N.Related(phi, im[..], h[..], edges)
      modifies im, h
      ensures N.Related(phi, im[..], h[..], edges)
      ensures moved ==> N.Sum(N.Ranks(im[..]), edges) < N.Sum(N.Ranks(old(im[..])), edges)
      ensures !moved ==> im[..] == old(im[..]) && h[..] == old(h[..]) && N.Stuck(im[i], im[j])
    {
      moved := TryMove(N.Product, i, j, h, phi);
      if moved {
        return;
      }
      moved := TryMove(N.ProductInv, i, j, h, phi);
      if moved {
        return;
      }
      moved := TryMove(N.InvInv, i, j, h, phi);
      if moved {
        return;
      }
      moved := TryMove(N.InvProduct, i, j, h, phi);
    }

    /** The moves on image i with every other image in turn. */
    method SweepRow(i: nat, h: array<P.Path>, ghost phi: G.Graph) returns (progress: bool)
      requires Valid() && h != im && i < edges && edges <= h.Length
      requires N.Related(phi, im[..], h[..], edges)
      modifies im, h
      ensures N.Related(phi, im[..], h[..], edges)
      ensures progress ==> N.Sum(N.Ranks(im[..]), edges) < N.Sum(N.Ranks(old(im[..])), edges)
      ensures !progress ==> im[..] == old(im[..]) && N.StuckRow(im[..], i, edges)
    {
      ghost var f0 := im[..];
      progress := false;
      var j := 0;
      while j < edges
        invariant 0 <= j <= edges && N.Related(phi, im[..], h[..], edges)
        invariant progress ==> N.Sum(N.Ranks(im[..]), edges) < N.Sum(N.Ranks(f0), edges)
        invariant !progress ==> im[..] == f0
        invariant !progress ==> N.StuckRow(f0, i, j)
      {
        if i != j {
          var moved := TryMoves(i, j, h, phi);
          if moved {
            progress := true;
          }
        }
        if !progress {
          N.StuckRowStep(f0, i, j);
        }
        j := j + 1;
      }
    }

    /** One pass of the do-while loop of invertRose over all pairs of images. */
    method Sweep(h: array<P.Path>, ghost phi: G.Graph) returns (progress: bool)
      requires Valid() && h != im && edges <= h.Length
      requires N.Related(phi, im[..], h[..], edges)
      modifies im, h
      ensures N.Related(phi, im[..], h[..], edges)
      ensures progress ==> N.Sum(N.Ranks(im[..]), edges) < N.Sum(N.Ranks(old(im[..])), edges)
      ensures !progress ==> im[..] == old(im[..]) && N.NoMoves(im[..], edges)
    {
      ghost var f0 := im[..];
      progress := false;
      var i := 0;
      while i < edges
        invariant 0 <= i <= edges && N.Related(phi, im[..], h[..], edges)
        invariant progress ==> N.Sum(N.Ranks(im[..]), edges) < N.Sum(N.Ranks(f0), edges)
        invariant !progress ==> im[..] == f0
        invariant !progress ==> forall a :: 0 <= a < i ==> N.StuckRow(f0, a, edges)
      {
        var p := SweepRow(i, h, phi);
        if p {
          progress := true;
        }
        i := i + 1;
      }
    }

    /**
     * invertRose: Nielsen reduction. The images are shortened by the four moves while
     * one applies, the same moves building the candidate inverse from the identity;
     * when the images end up as the edges themselves, permuted and turned, the
     * candidate becomes the map and the result is true.
     */
    method InvertRose() returns (ok: bool)
      requires Valid() && G.WellFormed(State())
      modifies this, im
      ensures Valid() && State().(im := old(im[..])) == old(State())
      ensures ok ==> forall i :: 0 <= i < edges ==> G.MapWord(old(State()), im[i]) == Some([Sym(i, false)])
    {
      ghost var phi := State();
      var g := new GraphMap.Copy(this);
      g.Identity();
      var h := g.im;
      N.StartRelated(phi, h[..]);
      Reduce(h, phi);
      ok := SingleLetters();
      if !ok {
        return;
      }
      N.NoMovesDistinct(im[..], edges);
      ok := Permute(h, phi);
      if !ok {
        return;
      }
      TurnImages(h, phi);
      N.FinishRelated(phi, im[..], h[..], edges);
      im := h;
    }

    /** The do-while loop of invertRose: sweeps until one makes no move. */
    method Reduce(h: array<P.Path>, ghost phi: G.Graph)
      requires Valid() && h != im && edges <= h.Length
      requires N.Related(phi, im[..], h[..], edges)
      modifies im, h
      ensures N.Related(phi, im[..], h[..], edges) && N.NoMoves(im[..], edges)
    {
      var progress := true;
      while progress
        invariant N.Related(phi, im[..], h[..], edges)
        invariant !progress ==> N.NoMoves(im[..], edges)
        decreases N.Sum(N.Ranks(im[..]), edges) + (if progress then 1 else 0)
      {
        progress := Sweep(h, phi);
      }
    }

    /** Whether every image of an edge in use is a single letter. */
    method SingleLetters() returns (b: bool)
      requires Valid()
      ensures b <==> forall k :: 0 <= k < edges ==> |im[k]| == 1
    {
      var i := 0;
      while i < edges
        invariant 0 <= i <= edges && forall k :: 0 <= k < i ==> |im[k]| == 1
      {
        if |im[i]| != 1 {
          return false;
        }
        i := i + 1;
      }
      b := true;
    }

    /** The middle step of invertRose: images of single letters moved so that image i lies on edge i. */
    method Permute(h: array<P.Path>, ghost phi: G.Graph) returns (ok: bool)
      requires Valid() && h != im && h.Length == im.Length && edges == phi.edges
      requires N.Related(phi, im[..], h[..], edges) && N.Distinct(im[..], edges)
      modifies im, h
      ensures N.Related(phi, im[..], h[..], edges) && N.Distinct(im[..], edges)
      ensures ok ==> N.Placed(im[..], edges)
    {
      var i := 0;
      while i < edges - 1
        invariant 0 <= i <= edges && N.Related(phi, im[..], h[..], edges) && N.Distinct(im[..], edges)
        invariant N.Placed(im[..], i)
      {
        if im[i][0].index != i {
          var j := i + 1;
          while j < edges && im[j][0].index != i
            invariant i + 1 <= j <= edges
          {
            j := j + 1;
          }
          if j >= edges {
            return false;
          }
          N.SwapRelated(phi, im[..], h[..], edges, i, j);
          N.SwapPlaced(im[..], edges, i, j);
          ghost var f, hs := im[..], h[..];
          im[i], im[j] := im[j], im[i];
          h[i], h[j] := h[j], h[i];
          assert im[..] == f[i := f[j]][j := f[i]] && h[..] == hs[i := hs[j]][j := hs[i]];
        }
        i := i + 1;
      }
      ok := true;
      if edges > 0 {
        assert N.RelatedAt(phi, im[..], h[..], edges - 1);
        N.LastPlaced(im[..], edges);
      }
    }

    /** The last step of invertRose: images that are inverse letters are turned, on both maps. */
    method TurnImages(h: array<P.Path>, ghost phi: G.Graph)
      requires Valid() && h != im && h.Length == im.Length
      requires N.Related(phi, im[..], h[..], edges) && N.Distinct(im[..], edges) && N.Placed(im[..], edges)
      modifies im, h
      ensures N.Related(phi, im[..], h[..], edges)
      ensures forall k :: 0 <= k < edges ==> im[k] == [Sym(k, false)]
    {
      var i := 0;
      while i < edges
        invariant 0 <= i <= edges && N.Related(phi, im[..], h[..], edges)
        invariant forall k :: 0 <= k < edges ==> im[k] == (if k < i then [Sym(k, false)] else old(im[k]))
        invariant h[i..] == old(h[i..])
      {
        ghost var f, hs := im[..], h[..];
        if im[i][0].inv {
          N.ReverseRelated(phi, f, hs, edges, i);
          var w := W.ReverseWord(im[i]);
          im[i] := w;
          w := W.ReverseWord(h[i]);
          h[i] := w;
          assert im[..] == f[i := P.Reverse(f[i])] && h[..] == hs[i := P.Reverse(hs[i])];
        }
        assert im[i] == [im[i][0]];
        i := i + 1;
      }
    }
  }

  /** The outcome r and the built map agree with the value spec of the function that defines the construction. */
  predicate Yields(r: Outcome, spec: Result<G.Graph>, built: G.Graph)
  {
    match spec
    case Ok(h) => r == Pass && built == h
    case Err(m) => r == Fail(m)
  }

  /** identity(bd): init(2|bd|) refuses a long word, then the rose gets dualize(bd) as fixed word. */
  function BoundaryRose(bd: P.Path): (r: Result<G.Graph>)
  {
    if 2 * |bd| > MAXINDEX then Err("too many edges")
    else match B.DualizeSpec(bd)
      case Err(m) => Err(m)
      case Ok(dw) => Ok(G.Rose(2 * |bd|, |bd| / 2, 0, dw))
  }

  /**
   * identity(bd) succeeds on every non-empty strict boundary word that fits, and on
   * letters of the petals it is a well-formed identity map.
   */
  lemma BoundaryRoseIdentity(bd: P.Path, w: P.Path)
    ensures B.IsStrictBoundary(bd) && 0 < |bd| && 2 * |bd| <= MAXINDEX ==> BoundaryRose(bd).Ok?
    ensures BoundaryRose(bd).Ok? && P.LettersBelow(bd, |bd| / 2) && P.LettersBelow(w, |bd| / 2) ==>
      G.WellFormed(BoundaryRose(bd).value) &&
      G.MapWord(BoundaryRose(bd).value, w) == Some(P.Tighten(w))
  {
    if B.IsStrictBoundary(bd) && 0 < |bd| {
      B.StrictBoundaryReturns(bd);
    }
    if BoundaryRose(bd).Ok? && P.LettersBelow(bd, |bd| / 2) && P.LettersBelow(w, |bd| / 2) {
      var k := B.ReturnFrom(bd, 1).value;
      var dw := B.DualLetters(bd, k);
      assert P.LettersBelow(dw, |bd| / 2);
      G.RoseIdentity(2 * |bd|, |bd| / 2, dw, w);
    }
  }

  /**
   * The state while identityFromFixed assigns vertices: petals mapped to themselves,
   * every end of an edge in use unassigned (-1) or below cnt, blank slots after them.
   */
  predicate Assigning(g: G.Graph, fw: P.Path, cnt: nat)
  {
    G.Valid(g) && G.Capacity(g) == 2 * |fw| && g.edges == |fw| / 2 && g.vertices == 0 &&
    g.fix == [] && !g.marked && g.mark == [] && g.marklabel == [] && g.name == [] &&
    (forall i :: 0 <= i < G.Capacity(g) ==> g.im[i] == if i < g.edges then [Sym(i, false)] else []) &&
    (forall i :: 0 <= i < G.Capacity(g) ==>
      if i < g.edges then -1 <= g.start[i] < cnt && -1 <= g.end[i] < cnt
      else g.start[i] == 0 && g.end[i] == 0)
  }

  /**
   * What identityFromFixed(fw) builds: |fw|/2 edges mapped to themselves, fixed word fw,
   * at most |fw| vertices, and every end of an edge a vertex or -1 when the walk never
   * reached it.
   */
  predicate FixedRose(g: G.Graph, fw: P.Path)
  {
    G.Valid(g) && G.Capacity(g) == 2 * |fw| && g.edges == |fw| / 2 && g.fix == fw && !g.marked &&
    0 <= g.vertices <= |fw| &&
    (forall i :: 0 <= i < g.edges ==> g.im[i] == [Sym(i, false)]) &&
    (forall i :: 0 <= i < g.edges ==>
      -1 <= g.start[i] < g.vertices && -1 <= g.end[i] < g.vertices)
  }

  /** The numbering always succeeds when every letter of fw names one of its 2|fw| slots. */
  lemma FixedRoseOfOk(fw: P.Path)
    requires B.IsBoundary(fw) && 2 * |fw| <= MAXINDEX && P.LettersBelow(fw, 2 * |fw|)
    ensures FixedRoseOf(fw).Ok?
  {
    RoseAssigning(fw);
    AssignFromOk(G.Rose(2 * |fw|, |fw| / 2, -1, []), fw, 0, 0);
  }

  /** What identityFromFixed builds is a rose on the fixed word fw, as FixedRose describes. */
  lemma FixedRoseOfShape(fw: P.Path)
    requires FixedRoseOf(fw).Ok?
    ensures FixedRose(FixedRoseOf(fw).value, fw)
  {
    RoseAssigning(fw);
  }

  lemma {:induction false} WalkFromOk(g: G.Graph, fw: P.Path, i: nat, cnt: nat)
    requires B.InversesOccur(fw) && i < |fw| && Assigning(g, fw, cnt + 1) && G.Unassigned(g, fw[i])
    requires P.LettersBelow(fw, 2 * |fw|)
    ensures WalkFrom(g, fw, i, cnt).Ok?
    decreases G.Unset(g, fw, |fw|)
  {
    var c := fw[i];
    AssignStep(g, fw, cnt, c);
    G.UnsetDrops(g, fw, |fw|, i, cnt);
    var h := G.SetFirst(g, c, cnt);
    var j := B.Next(B.SeekFrom(fw, Inv(c), i, 0), |fw|);
    assert G.FirstVertex(h, fw[j]).Some?;
    if G.FirstVertex(h, fw[j]).value < 0 {
      WalkFromOk(h, fw, j, cnt);
    }
  }

  lemma {:induction false} AssignFromOk(g: G.Graph, fw: P.Path, i: nat, cnt: nat)
    requires B.InversesOccur(fw) && i <= |fw| && Assigning(g, fw, cnt) && cnt + G.Unset(g, fw, |fw|) <= |fw|
    requires P.LettersBelow(fw, 2 * |fw|)
    ensures AssignFrom(g, fw, i, cnt).Ok?
    decreases G.Unset(g, fw, |fw|), |fw| - i
  {
    if i < |fw| {
      assert G.FirstVertex(g, fw[i]).Some?;
      if G.FirstVertex(g, fw[i]).value >= 0 {
        AssignFromOk(g, fw, i + 1, cnt);
      } else {
        WalkFromOk(g, fw, i, cnt);
        var p := WalkFrom(g, fw, i, cnt).value;
        AssignFromWalk(g, fw, i, cnt, p.0, p.1, AssignFrom(g, fw, i, cnt), p.1 + 1, cnt + 1);
        AssignFromOk(p.0, fw, p.1 + 1, cnt + 1);
      }
    }
  }

  /** The rose with unassigned ends is where the walk starts. */
  lemma RoseAssigning(fw: P.Path)
    requires 2 * |fw| <= MAXINDEX
    ensures Assigning(G.Rose(2 * |fw|, |fw| / 2, -1, []), fw, 0)
  {
  }

  /** Giving vertex cnt to an unassigned letter keeps the walk's state. */
  lemma AssignStep(g: G.Graph, fw: P.Path, cnt: nat, c: Sym)
    requires Assigning(g, fw, cnt + 1) && G.Unassigned(g, c)
    ensures c.index < g.edges && Assigning(G.SetFirst(g, c, cnt), fw, cnt + 1)
  {
  }

  /**
   * The inner walk of identityFromFixed from position i, whose letter has no vertex
   * yet: the letter gets vertex cnt, the walk moves on to just after the next
   * occurrence of its inverse, and goes on until it meets a letter with a vertex.
   * The map and the position where the walk stopped.
   */
  function WalkFrom(g: G.Graph, fw: P.Path, i: nat, cnt: nat): (r: Result<(G.Graph, nat)>)
    requires B.InversesOccur(fw) && i < |fw| && Assigning(g, fw, cnt + 1) && G.Unassigned(g, fw[i])
    ensures r.Ok? ==> r.value.1 < |fw| && Assigning(r.value.0, fw, cnt + 1)
    ensures r.Ok? ==> G.Unset(r.value.0, fw, |fw|) < G.Unset(g, fw, |fw|)
    ensures r.Err? ==> r.msg == "array index out of bounds"
    decreases G.Unset(g, fw, |fw|)
  {
    var c := fw[i];
    AssignStep(g, fw, cnt, c);
    G.UnsetDrops(g, fw, |fw|, i, cnt);
    var h := G.SetFirst(g, c, cnt);
    var j := B.Next(B.SeekFrom(fw, Inv(c), i, 0), |fw|);
    match G.FirstVertex(h, fw[j])
    case None => Err("array index out of bounds")
    case Some(v) => if v < 0 then WalkFrom(h, fw, j, cnt) else Ok((h, j))
  }

  /**
   * The outer loop of identityFromFixed from position i: a letter without a vertex
   * starts the walk of a new vertex cnt, and the loop goes on after where the walk
   * stopped. The map and the number of vertices.
   */
  function AssignFrom(g: G.Graph, fw: P.Path, i: nat, cnt: nat): (r: Result<(G.Graph, nat)>)
    requires B.InversesOccur(fw) && i <= |fw| && Assigning(g, fw, cnt) && cnt + G.Unset(g, fw, |fw|) <= |fw|
    ensures r.Ok? ==> Assigning(r.value.0, fw, r.value.1) && r.value.1 <= |fw|
    ensures r.Err? ==> r.msg == "array index out of bounds"
    decreases G.Unset(g, fw, |fw|), |fw| - i
  {
    if i == |fw| then Ok((g, cnt))
    else match G.FirstVertex(g, fw[i])
      case None => Err("array index out of bounds")
      case Some(v) =>
        if v >= 0 then AssignFrom(g, fw, i + 1, cnt)
        else match WalkFrom(g, fw, i, cnt)
          case Err(m) => Err(m)
          case Ok(p) => AssignFrom(p.0, fw, p.1 + 1, cnt + 1)
  }

  /** An assigned letter is passed over by the outer walk. */
  lemma AssignFromSkip(g: G.Graph, fw: P.Path, i: nat, cnt: nat)
    requires B.InversesOccur(fw) && i < |fw| && Assigning(g, fw, cnt) && cnt + G.Unset(g, fw, |fw|) <= |fw|
    requires G.FirstVertex(g, fw[i]).Some? && G.FirstVertex(g, fw[i]).value >= 0
    ensures AssignFrom(g, fw, i, cnt) == AssignFrom(g, fw, i + 1, cnt)
  {
  }

  /** An inner walk that fails makes the whole walk fail. */
  lemma AssignFromWalkFails(g: G.Graph, fw: P.Path, i: nat, cnt: nat)
    requires B.InversesOccur(fw) && i < |fw| && Assigning(g, fw, cnt) && cnt + G.Unset(g, fw, |fw|) <= |fw|
    requires G.Unassigned(g, fw[i]) && WalkFrom(g, fw, i, cnt).Err?
    ensures AssignFrom(g, fw, i, cnt).Err?
  {
  }

  /** An unassigned letter starts an inner walk; the outer walk resumes just past its end. */
  lemma AssignFromWalk(g: G.Graph, fw: P.Path, i: nat, cnt: nat, h: G.Graph, j: nat, goal: Result<(G.Graph, nat)>, i': nat, cnt': nat)
    requires B.InversesOccur(fw) && i < |fw| && Assigning(g, fw, cnt) && cnt + G.Unset(g, fw, |fw|) <= |fw|
    requires G.Unassigned(g, fw[i]) && WalkFrom(g, fw, i, cnt) == Ok((h, j)) && AssignFrom(g, fw, i, cnt) == goal
    requires i' == j + 1 && cnt' == cnt + 1
    ensures cnt' + G.Unset(h, fw, |fw|) <= |fw| && Assigning(h, fw, cnt') && i' <= |fw|
    ensures G.Unset(h, fw, |fw|) < G.Unset(g, fw, |fw|)
    ensures AssignFrom(h, fw, i', cnt') == goal
  {
  }

  /**
   * identityFromFixed(fw): the rose of |fw|/2 petals with unassigned ends, its vertices
   * numbered by the walk, fw as its fixed word.
   */
  function FixedRoseOf(fw: P.Path): (r: Result<G.Graph>)
  {
    if !B.IsBoundary(fw) then Err("bad boundary word: " + PathToString(fw))
    else if 2 * |fw| > MAXINDEX then Err("too many edges")
    else
      RoseAssigning(fw);
      match AssignFrom(G.Rose(2 * |fw|, |fw| / 2, -1, []), fw, 0, 0)
      case Err(m) => Err(m)
      case Ok(p) => Ok(p.0.(vertices := p.1, fix := fw))
  }

  /**
   * constantAt's scan after the darts ds: flag says whether they are constant so far,
   * and while it holds val is the code of the D of the first dart (-1 before any).
   */
  predicate Scanning(g: G.Graph, ds: seq<Sym>, val: int, flag: bool)
    requires G.Valid(g) && forall i :: 0 <= i < |ds| ==> ds[i].index < g.edges
  {
    if flag then G.ConstantOn(g, ds) && val == (if ds == [] then -1 else Encode(G.D(g, ds[0])))
    else !G.ConstantOn(g, ds)
  }

  /** evaluateTree's count after the first i letters of tr: the rest marked from cur adds up to marking tr from flags. */
  predicate Marking(flags: seq<bool>, tr: P.Path, i: nat, cur: seq<bool>, cnt: nat)
    requires i <= |tr|
  {
    P.LettersBelow(tr, |flags|) && |cur| == |flags| ==>
      T.Marks(cur, tr[i..]).0 == T.Marks(flags, tr).0 &&
      cnt + T.Marks(cur, tr[i..]).1 == T.Marks(flags, tr).1
  }

  lemma MarkStep(flags: seq<bool>, tr: P.Path, i: nat, cur: seq<bool>, cnt: nat)
    requires i < |tr| && tr[i].index < |cur| && |cur| == |flags|
    requires Marking(flags, tr, i, cur, cnt)
    ensures Marking(flags, tr, i + 1, cur[tr[i].index := true], if cur[tr[i].index] then cnt else cnt + 1)
  {
    if P.LettersBelow(tr, |flags|) {
      assert tr[i..][0] == tr[i] && tr[i..][1..] == tr[i + 1..];
    }
  }

  /** Every non-empty entry path[i, j] runs from i to j along flagged edges. */
  predicate TreeWalks(g: G.Graph, path: array2<P.Path>, flags: seq<bool>)
    requires G.Valid(g)
    reads path
  {
    path.Length0 == path.Length1 &&
    forall i, j :: 0 <= i < path.Length0 && 0 <= j < path.Length0 ==> WalkAt(g, path, flags, i, j)
  }

  /** path[i, j] is empty exactly when path[j, i] is, and otherwise runs from i to j along flagged edges. */
  predicate WalkAt(g: G.Graph, path: array2<P.Path>, flags: seq<bool>, i: nat, j: nat)
    requires G.Valid(g) && i < path.Length0 && j < path.Length0 && path.Length0 == path.Length1
    reads path
  {
    (path[i, j] == [] <==> path[j, i] == []) &&
    (path[i, j] != [] ==> G.EndOf(g, path[i, j], i) == Some(j) && T.LettersIn(path[i, j], flags))
  }

  /** The pair a < b is done: a non-empty reduced path from a to b, and its reverse from b to a. */
  predicate SettledAt(path: array2<P.Path>, a: nat, b: nat)
    requires a < path.Length0 && b < path.Length1 && b < path.Length0 && a < path.Length1
    reads path
  {
    path[a, b] != [] && P.Reduced(path[a, b]) && path[b, a] == P.Reverse(path[a, b])
  }

  /** Every pair a < b before (i, j) in evaluateTree's last loop is done. */
  predicate Settled(path: array2<P.Path>, i: nat, j: nat)
    reads path
  {
    path.Length0 == path.Length1 &&
    forall a, b :: 0 <= a < b < path.Length0 && (a < i || (a == i && b < j)) ==> SettledAt(path, a, b)
  }

  /**
   * What evaluateTree leaves in path: every entry runs from its row to its column along
   * flagged edges, and for a < b the entry is non-empty and reduced, with its reverse at (b, a).
   */
  predicate Spanned(g: G.Graph, path: array2<P.Path>, flags: seq<bool>)
    requires G.Valid(g)
    reads path
  {
    TreeWalks(g, path, flags) && Settled(path, path.Length0, path.Length0)
  }

  /** Joining the paths i..k and k..j gives a path i..j along flagged edges, and back. */
  lemma JoinWalks(g: G.Graph, flags: seq<bool>, path: array2<P.Path>, i: int, k: int, j: int)
    requires G.Valid(g) && TreeWalks(g, path, flags)
    requires 0 <= i < path.Length0 && 0 <= k < path.Length0 && 0 <= j < path.Length0
    requires path[i, k] != [] && path[k, j] != []
    ensures path[j, k] != [] && path[k, i] != []
    ensures G.EndOf(g, path[i, k] + path[k, j], i) == Some(j) && T.LettersIn(path[i, k] + path[k, j], flags)
    ensures G.EndOf(g, path[j, k] + path[k, i], j) == Some(i) && T.LettersIn(path[j, k] + path[k, i], flags)
  {
    assert WalkAt(g, path, flags, i, k) && WalkAt(g, path, flags, k, j);
    assert WalkAt(g, path, flags, j, k) && WalkAt(g, path, flags, k, i);
    G.EndOfAppend(g, path[i, k], path[k, j], i);
    G.EndOfAppend(g, path[j, k], path[k, i], j);
  }

  /** A finished row i moves the last loop to row i + 1. */
  lemma SettledNext(path: array2<P.Path>, i: nat)
    requires Settled(path, i, path.Length0)
    ensures Settled(path, i + 1, i + 2)
  {
  }

  /** What evaluateTree leaves in path shows the flagged edges connect the graph. */
  lemma SpannedConnected(g: G.Graph, path: array2<P.Path>, flags: seq<bool>)
    requires G.Valid(g) && G.EndpointsOK(g) && |flags| <= g.edges
    requires Spanned(g, path, flags) && path.Length0 == g.vertices
    ensures RC.Connected(g, flags)
  {
    forall x, y | 0 <= x < g.vertices && 0 <= y < g.vertices
      ensures RC.Near(g, flags, x, y, RC.Span(g))
    {
      if x != y {
        assert WalkAt(g, path, flags, x, y);
        assert path[x, y] != [] by {
          if x < y {
            assert SettledAt(path, x, y);
          } else {
            assert SettledAt(path, y, x);
          }
        }
        RC.WalkConnects(g, flags, path[x, y], x, y);
      }
    }
  }

  /** Past the last row every pair is settled. */
  lemma SettledDone(path: array2<P.Path>, i: nat)
    requires Settled(path, i, i + 1) && path.Length0 <= i + 1
    ensures Settled(path, path.Length0, path.Length0)
  {
  }
}
