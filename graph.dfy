/**
 * The state of a graph self-map (GraphMap.java) as a value, and the meaning of
 * every surgery operation as a function from state to state.
 *
 * The buffers im, start and end have the capacity of the map as their length;
 * the first `edges` slots are the edges in use, later slots keep whatever was
 * left there. Letters of images, of the fixed word and of the marked loops are
 * oriented edges (Letters.Sym).
 */
module Graphs {
  import opened Wrappers
  import opened Letters
  import P = Paths

  datatype Graph = Graph(
    edges: nat,
    vertices: int,
    im: seq<P.Path>,
    start: seq<int>,
    end: seq<int>,
    fix: P.Path,
    marked: bool,
    mark: seq<P.Path>,
    marklabel: seq<string>,
    name: string)

  function Capacity(g: Graph): nat { |g.im| }

  /** Three buffers of one length, at most MAXINDEX, holding the edges in use. */
  predicate Valid(g: Graph)
  {
    |g.start| == |g.im| && |g.end| == |g.im| && g.edges <= |g.im| <= MAXINDEX
  }

  /** Every endpoint of an edge in use is a vertex. */
  predicate EndpointsOK(g: Graph)
    requires Valid(g)
  {
    forall i :: 0 <= i < g.edges ==> 0 <= g.start[i] < g.vertices && 0 <= g.end[i] < g.vertices
  }

  /** Every letter of an image of an edge in use, of the fixed word and of a marked loop is below a. */
  predicate LettersWithin(g: Graph, a: int)
    requires Valid(g)
  {
    (forall i :: 0 <= i < g.edges ==> P.LettersBelow(g.im[i], a)) &&
    P.LettersBelow(g.fix, a) &&
    (g.marked ==> forall i :: 0 <= i < |g.mark| ==> P.LettersBelow(g.mark[i], a))
  }

  /** Every letter of an image, of the fixed word and of a marked loop is an edge in use. */
  predicate LettersOK(g: Graph)
    requires Valid(g)
  {
    LettersWithin(g, g.edges)
  }

  /** The validity invariant of a map: valid buffers, endpoints are vertices, letters are edges. */
  predicate WellFormed(g: Graph)
  {
    Valid(g) && EndpointsOK(g) && LettersOK(g)
  }

  /** The part of the state the map consists of: everything except spare capacity. */
  predicate Agree(g: Graph, h: Graph)
    requires Valid(g) && Valid(h)
  {
    g.edges == h.edges && g.vertices == h.vertices &&
    g.im[..g.edges] == h.im[..h.edges] &&
    g.start[..g.edges] == h.start[..h.edges] &&
    g.end[..g.edges] == h.end[..h.edges] &&
    g.fix == h.fix && g.marked == h.marked && g.mark == h.mark &&
    g.marklabel == h.marklabel && g.name == h.name
  }

  // ---- construction (init, increaseCapacity, addEdge) ----

  /** init(n): an empty map with room for n edges; more than MAXINDEX is refused. */
  function Init(n: nat): (r: Result<Graph>)
    ensures r.Ok? <==> n <= MAXINDEX
    ensures r.Ok? ==>
      WellFormed(r.value) && Capacity(r.value) == n &&
      r.value.edges == 0 && r.value.vertices == 0 && r.value.fix == [] && !r.value.marked
  {
    if n > MAXINDEX then Err("too many edges")
    else Ok(Graph(0, 0, seq(n, _ => []), seq(n, _ => 0), seq(n, _ => 0), [], false, [], [], ""))
  }

  /** The capacity increaseCapacity moves to: double, but at most MAXINDEX. */
  function NewCapacity(cap: nat): nat
  {
    if 2 * cap > MAXINDEX then MAXINDEX else 2 * cap
  }

  /** Buffer s cut to its first k slots and padded with blank to length n. */
  function Padded<T>(s: seq<T>, k: nat, n: nat, blank: T): (r: seq<T>)
    requires k <= |s| && k <= n
    ensures |r| == n && r[..k] == s[..k]
    ensures forall i :: 0 <= i < n ==> r[i] == if i < k then s[i] else blank
  {
    s[..k] + seq(n - k, _ => blank)
  }

  /** increaseCapacity: the same map in buffers of the new capacity; refused at MAXINDEX. */
  function Grow(g: Graph): (r: Result<Graph>)
    requires Valid(g)
  {
    if Capacity(g) >= MAXINDEX then Err("can't increase capacity")
    else
      var n := NewCapacity(Capacity(g));
      Ok(g.(im := Padded(g.im, g.edges, n, []), start := Padded(g.start, g.edges, n, 0),
            end := Padded(g.end, g.edges, n, 0)))
  }

  /** Growing keeps the map and strictly enlarges a non-empty buffer. */
  lemma GrowKeeps(g: Graph)
    requires Valid(g)
    ensures Grow(g).Ok? <==> Capacity(g) < MAXINDEX
    ensures Grow(g).Ok? ==>
      Valid(Grow(g).value) && Agree(g, Grow(g).value) &&
      Capacity(Grow(g).value) == NewCapacity(Capacity(g)) &&
      (Capacity(g) > 0 ==> Capacity(Grow(g).value) > Capacity(g))
  {
  }

  /** Room for one more edge: the map itself, or the map grown when it is full. */
  function Roomy(g: Graph): (r: Result<Graph>)
    requires Valid(g)
  {
    if g.edges >= Capacity(g) then Grow(g) else Ok(g)
  }

  /** addEdge: a new last edge from v1 to v2; the vertex count covers both ends. */
  function AddEdge(g: Graph, v1: int, v2: int, image: P.Path): (r: Result<Graph>)
    requires Valid(g)
  {
    match Roomy(g)
    case Err(m) => Err(m)
    case Ok(h) =>
      if h.edges >= Capacity(h) then Err("array index out of bounds")
      else
        var n := h.edges;
        var vs := if v1 >= h.vertices then v1 + 1 else h.vertices;
        Ok(h.(edges := n + 1, vertices := if v2 >= vs then v2 + 1 else vs,
              im := h.im[n := image], start := h.start[n := v1], end := h.end[n := v2]))
  }

  /** addEdge appends exactly one edge and keeps the well-formedness of a map. */
  lemma AddEdgeShape(g: Graph, v1: int, v2: int, image: P.Path)
    requires Valid(g)
    ensures AddEdge(g, v1, v2, image).Ok? <==>
      (g.edges < Capacity(g) || 0 < Capacity(g) < MAXINDEX)
    ensures AddEdge(g, v1, v2, image).Ok? ==>
      var h := AddEdge(g, v1, v2, image).value;
      Valid(h) && h.edges == g.edges + 1 && h.im[g.edges] == image &&
      h.start[g.edges] == v1 && h.end[g.edges] == v2 &&
      h.im[..g.edges] == g.im[..g.edges] && h.start[..g.edges] == g.start[..g.edges] &&
      h.end[..g.edges] == g.end[..g.edges] &&
      h.vertices >= g.vertices && h.vertices > v1 && h.vertices > v2 &&
      (WellFormed(g) && v1 >= 0 && v2 >= 0 && P.LettersBelow(image, g.edges + 1) ==> WellFormed(h))
  {
    GrowKeeps(g);
    if AddEdge(g, v1, v2, image).Ok? {
      AddEdgeKeeps(g, v1, v2, image);
      if WellFormed(g) && v1 >= 0 && v2 >= 0 && P.LettersBelow(image, g.edges + 1) {
        AddEdgeWellFormed(g, v1, v2, image);
      }
    }
  }

  /** The new edge goes last, the edges before it are kept, and the vertices cover its ends. */
  lemma AddEdgeKeeps(g: Graph, v1: int, v2: int, image: P.Path)
    requires Valid(g) && AddEdge(g, v1, v2, image).Ok?
    ensures var h := AddEdge(g, v1, v2, image).value;
      Valid(h) && h.edges == g.edges + 1 && h.im[g.edges] == image &&
      h.start[g.edges] == v1 && h.end[g.edges] == v2 &&
      h.im[..g.edges] == g.im[..g.edges] && h.start[..g.edges] == g.start[..g.edges] &&
      h.end[..g.edges] == g.end[..g.edges] &&
      h.vertices >= g.vertices && h.vertices > v1 && h.vertices > v2
  {
    GrowKeeps(g);
    assert g.im[..g.edges] == Roomy(g).value.im[..g.edges];
    assert g.start[..g.edges] == Roomy(g).value.start[..g.edges];
    assert g.end[..g.edges] == Roomy(g).value.end[..g.edges];
  }

  /** An edge between existing vertices whose image uses existing edges keeps a map well-formed. */
  lemma AddEdgeWellFormed(g: Graph, v1: int, v2: int, image: P.Path)
    requires Valid(g) && AddEdge(g, v1, v2, image).Ok?
    requires WellFormed(g) && v1 >= 0 && v2 >= 0 && P.LettersBelow(image, g.edges + 1)
    ensures WellFormed(AddEdge(g, v1, v2, image).value)
  {
    var h := AddEdge(g, v1, v2, image).value;
    AddEdgeKeeps(g, v1, v2, image);
    forall i | 0 <= i < h.edges
      ensures 0 <= h.start[i] < h.vertices && 0 <= h.end[i] < h.vertices
      ensures P.LettersBelow(h.im[i], h.edges)
    {
      if i < g.edges {
        assert h.start[i] == h.start[..g.edges][i] == g.start[i];
        assert h.end[i] == h.end[..g.edges][i] == g.end[i];
        assert h.im[i] == h.im[..g.edges][i] == g.im[i];
      }
    }
  }

  // ---- letters and vertices ----

  /** lastVertex: the end of a forward letter, the start of a backward one; None outside the buffers. */
  function LastVertex(g: Graph, c: Sym): Option<int>
    requires Valid(g)
  {
    if c.index < Capacity(g) then Some(if c.inv then g.start[c.index] else g.end[c.index]) else None
  }

  /** firstVertex: the last vertex of the inverse letter. */
  function FirstVertex(g: Graph, c: Sym): Option<int>
    requires Valid(g)
  {
    LastVertex(g, Inv(c))
  }

  /** The image of a letter: the image of its edge, run backwards for a backward letter. */
  function LetterImage(g: Graph, c: Sym): P.Path
    requires Valid(g) && c.index < Capacity(g)
  {
    if c.inv then P.Reverse(g.im[c.index]) else g.im[c.index]
  }

  /**
   * mapd, the derivative map: the first letter of the image of a forward letter,
   * the inverse of the last letter for a backward one; letters of unused edges
   * are fixed, and an empty image has no derivative.
   */
  function Mapd(g: Graph, c: Sym): (r: Result<Sym>)
    requires Valid(g)
    ensures c.index >= g.edges ==> r == Ok(c)
    ensures c.index < g.edges ==> (r.Ok? <==> g.im[c.index] != [])
    ensures c.index < g.edges && r.Ok? ==> r.value == LetterImage(g, c)[0]
  {
    if c.index >= g.edges then Ok(c)
    else if g.im[c.index] == [] then Err("mapd not defined for empty image")
    else if c.inv then Ok(Inv(g.im[c.index][|g.im[c.index]| - 1]))
    else Ok(g.im[c.index][0])
  }

  /** The derivative of a letter of an edge in use with a non-empty image. */
  function D(g: Graph, c: Sym): Sym
    requires Valid(g) && c.index < g.edges && g.im[c.index] != []
  {
    Mapd(g, c).value
  }

  /** Letter a ends where letter b starts (both inside the buffers). */
  predicate Joined(g: Graph, a: Sym, b: Sym)
    requires Valid(g)
  {
    LastVertex(g, a).Some? && FirstVertex(g, b).Some? && LastVertex(g, a) == FirstVertex(g, b)
  }

  /** isGoodPath: consecutive letters meet at a vertex. */
  predicate IsGoodPath(g: Graph, p: P.Path)
    requires Valid(g)
  {
    forall i :: 0 <= i < |p| - 1 ==> Joined(g, p[i], p[i + 1])
  }

  /** isGoodLoop: empty, or a good path ending where it starts. */
  predicate IsGoodLoop(g: Graph, p: P.Path)
    requires Valid(g)
  {
    p == [] ||
    (IsGoodPath(g, p) && FirstVertex(g, p[0]).Some? && LastVertex(g, p[|p| - 1]).Some? &&
     FirstVertex(g, p[0]) == LastVertex(g, p[|p| - 1]))
  }

  // ---- walks (evaluateTree) ----

  /**
   * The vertex reached by running the path p from vertex a, or None when a letter does
   * not start where the previous one ended (or lies outside the buffers).
   */
  function EndOf(g: Graph, p: P.Path, a: int): Option<int>
    requires Valid(g)
    decreases |p|
  {
    if p == [] then Some(a)
    else if FirstVertex(g, p[0]) == Some(a) then EndOf(g, p[1..], LastVertex(g, p[0]).value)
    else None
  }

  /** A non-empty path that runs from a to b is a good path from a to b. */
  lemma {:induction false} EndOfGood(g: Graph, p: P.Path, a: int, b: int)
    requires Valid(g) && p != [] && EndOf(g, p, a) == Some(b)
    ensures IsGoodPath(g, p)
    ensures FirstVertex(g, p[0]) == Some(a) && LastVertex(g, p[|p| - 1]) == Some(b)
    decreases |p|
  {
    var x := LastVertex(g, p[0]).value;
    if |p| > 1 {
      EndOfGood(g, p[1..], x, b);
      forall i | 0 <= i < |p| - 1 ensures Joined(g, p[i], p[i + 1]) {
        if i > 0 {
          assert Joined(g, p[1..][i - 1], p[1..][i]);
        }
      }
    }
  }

  /** Running p then q from a: where p ends, q starts. */
  lemma {:induction false} EndOfAppend(g: Graph, p: P.Path, q: P.Path, a: int)
    requires Valid(g)
    ensures EndOf(g, p + q, a) == if EndOf(g, p, a).Some? then EndOf(g, q, EndOf(g, p, a).value) else None
    decreases |p|
  {
    if p != [] {
      assert (p + q)[0] == p[0] && (p + q)[1..] == p[1..] + q;
      if FirstVertex(g, p[0]) == Some(a) {
        EndOfAppend(g, p[1..], q, LastVertex(g, p[0]).value);
      }
    } else {
      assert p + q == q;
    }
  }

  /** A letter and its inverse cancel: the walk is back where it was. */
  lemma EndOfPush(g: Graph, s: P.Path, c: Sym, a: int, y: int)
    requires Valid(g) && EndOf(g, s + [c], a) == Some(y)
    ensures EndOf(g, P.Push(s, c), a) == Some(y)
  {
    if |s| > 0 && Inv(s[|s| - 1]) == c {
      var s', t := s[..|s| - 1], s[|s| - 1];
      assert s == s' + [t];
      assert s + [c] == s' + ([t] + [c]);
      EndOfAppend(g, s', [t] + [c], a);
      EndOfAppend(g, s', [t], a);
      assert EndOf(g, s', a).Some?;
      var u := EndOf(g, s', a).value;
      assert EndOf(g, [t] + [c], u) == Some(y);
      assert ([t] + [c])[0] == t && ([t] + [c])[1..] == [c] && [c][1..] == [];
      assert FirstVertex(g, t) == Some(u);
      var x := LastVertex(g, t).value;
      assert EndOf(g, [c], x) == Some(y);
      assert Inv(Inv(t)) == t;
      assert LastVertex(g, c) == Some(u);
      assert P.Push(s, c) == s';
    }
  }

  lemma {:induction false} EndOfReduce(g: Graph, stack: P.Path, rest: P.Path, a: int, b: int)
    requires Valid(g) && EndOf(g, stack + rest, a) == Some(b)
    ensures EndOf(g, P.Reduce(stack, rest), a) == Some(b)
    decreases |rest|
  {
    if rest != [] {
      var c, r' := rest[0], rest[1..];
      assert stack + rest == (stack + [c]) + r';
      EndOfAppend(g, stack + [c], r', a);
      var y := EndOf(g, stack + [c], a).value;
      EndOfPush(g, stack, c, a, y);
      EndOfAppend(g, P.Push(stack, c), r', a);
      EndOfReduce(g, P.Push(stack, c), r', a, b);
    } else {
      assert stack + rest == stack;
    }
  }

  /** Tightening a path from a to b leaves a path from a to b. */
  lemma TightenEndOf(g: Graph, p: P.Path, a: int, b: int)
    requires Valid(g) && EndOf(g, p, a) == Some(b)
    ensures EndOf(g, P.Tighten(p), a) == Some(b)
  {
    assert [] + p == p;
    EndOfReduce(g, [], p, a, b);
  }

  /** The reverse of a path from a to b runs from b to a. */
  lemma {:induction false} ReverseEndOf(g: Graph, p: P.Path, a: int, b: int)
    requires Valid(g) && EndOf(g, p, a) == Some(b)
    ensures EndOf(g, P.Reverse(p), b) == Some(a)
    decreases |p|
  {
    if p != [] {
      var c, p' := p[0], p[1..];
      var x := LastVertex(g, c).value;
      ReverseEndOf(g, p', x, b);
      assert p == [c] + p';
      P.ReverseAppend([c], p');
      assert P.Reverse([c]) == [Inv(c)];
      EndOfAppend(g, P.Reverse(p'), [Inv(c)], b);
      assert Inv(Inv(c)) == c;
    }
  }

  // ---- images of words (mapWord, compose) ----

  /** The images of the letters of w, one after the other. */
  function Unfold(g: Graph, w: P.Path): P.Path
    requires Valid(g) && P.LettersBelow(w, Capacity(g))
    decreases |w|
  {
    if w == [] then [] else LetterImage(g, w[0]) + Unfold(g, w[1..])
  }

  /** mapWord: the tightened image of w; None where a letter lies outside the buffers. */
  function MapWord(g: Graph, w: P.Path): (r: Option<P.Path>)
    requires Valid(g)
    ensures r.Some? <==> P.LettersBelow(w, Capacity(g))
    ensures r.Some? ==> P.Reduced(r.value)
  {
    if P.LettersBelow(w, Capacity(g)) then
      P.TightenReduced(Unfold(g, w));
      Some(P.Tighten(Unfold(g, w)))
    else None
  }

  lemma {:induction false} UnfoldAppend(g: Graph, a: P.Path, b: P.Path)
    requires Valid(g) && P.LettersBelow(a, Capacity(g)) && P.LettersBelow(b, Capacity(g))
    ensures P.LettersBelow(a + b, Capacity(g))
    ensures Unfold(g, a + b) == Unfold(g, a) + Unfold(g, b)
    decreases |a|
  {
    if a == [] {
      assert a + b == b;
    } else {
      assert (a + b)[0] == a[0] && (a + b)[1..] == a[1..] + b;
      UnfoldAppend(g, a[1..], b);
    }
  }

  /** The image of an inverse word is the inverse of the image (before tightening). */
  lemma {:induction false} UnfoldReverse(g: Graph, w: P.Path)
    requires Valid(g) && P.LettersBelow(w, Capacity(g))
    ensures P.LettersBelow(P.Reverse(w), Capacity(g))
    ensures Unfold(g, P.Reverse(w)) == P.Reverse(Unfold(g, w))
    decreases |w|
  {
    if w != [] {
      var c := w[0];
      assert w == [c] + w[1..];
      P.ReverseAppend([c], w[1..]);
      UnfoldReverse(g, w[1..]);
      UnfoldAppend(g, P.Reverse(w[1..]), P.Reverse([c]));
      assert P.Reverse([c]) == [Inv(c)];
      assert Unfold(g, [Inv(c)]) == LetterImage(g, Inv(c));
      P.ReverseReverse(g.im[c.index]);
      assert LetterImage(g, Inv(c)) == P.Reverse(LetterImage(g, c));
      P.ReverseAppend(LetterImage(g, c), Unfold(g, w[1..]));
    }
  }

  /** Tightened image of a word extended by one letter. */
  lemma TightenUnfoldSnoc(g: Graph, w: P.Path, c: Sym)
    requires Valid(g) && P.LettersBelow(w, Capacity(g)) && c.index < Capacity(g)
    ensures P.LettersBelow(w + [c], Capacity(g))
    ensures P.Tighten(Unfold(g, w + [c])) == P.Reduce(P.Tighten(Unfold(g, w)), LetterImage(g, c))
  {
    UnfoldAppend(g, w, [c]);
    assert [c][1..] == [];
    assert Unfold(g, [c]) == LetterImage(g, c) + [];
    assert Unfold(g, [c]) == LetterImage(g, c);
    P.ReduceAppend([], Unfold(g, w), LetterImage(g, c));
  }

  /** A letter mapped after its inverse cancels from the tightened image. */
  lemma UnfoldCancel(g: Graph, t: P.Path, c: Sym)
    requires Valid(g) && P.LettersBelow(t, Capacity(g)) && c.index < Capacity(g)
    ensures P.LettersBelow(t + [Inv(c)], Capacity(g))
    ensures P.Reduce(P.Tighten(Unfold(g, t + [Inv(c)])), LetterImage(g, c)) == P.Tighten(Unfold(g, t))
  {
    TightenUnfoldSnoc(g, t, Inv(c));
    P.ReverseReverse(g.im[c.index]);
    assert LetterImage(g, Inv(c)) == P.Reverse(LetterImage(g, c));
    var base := P.Tighten(Unfold(g, t));
    P.TightenReduced(Unfold(g, t));
    P.ReduceAppend(base, P.Reverse(LetterImage(g, c)), LetterImage(g, c));
    P.ReduceInverseCancels(base, LetterImage(g, c));
  }

  /** The inductive step of UnfoldTighten: one more letter. */
  lemma UnfoldTightenStep(g: Graph, w: P.Path, c: Sym)
    requires Valid(g) && P.LettersBelow(w, Capacity(g)) && c.index < Capacity(g)
    requires P.LettersBelow(P.Tighten(w), Capacity(g))
    requires P.Tighten(Unfold(g, P.Tighten(w))) == P.Tighten(Unfold(g, w))
    ensures P.LettersBelow(w + [c], Capacity(g)) && P.LettersBelow(P.Tighten(w + [c]), Capacity(g))
    ensures P.Tighten(Unfold(g, P.Tighten(w + [c]))) == P.Tighten(Unfold(g, w + [c]))
  {
    var t := P.Tighten(w);
    TightenUnfoldSnoc(g, w, c);
    P.ReduceSnoc([], w, c);
    assert P.Tighten(w + [c]) == P.Push(t, c);
    P.TightenLettersBelow(w + [c], Capacity(g));
    UnfoldPush(g, t, c);
  }

  /** Mapping a word with one more letter pushed on: the letter's image reduced onto the tightened image. */
  lemma UnfoldPush(g: Graph, t: P.Path, c: Sym)
    requires Valid(g) && P.LettersBelow(t, Capacity(g)) && c.index < Capacity(g)
    ensures P.LettersBelow(P.Push(t, c), Capacity(g))
    ensures P.Tighten(Unfold(g, P.Push(t, c))) == P.Reduce(P.Tighten(Unfold(g, t)), LetterImage(g, c))
  {
    if |t| > 0 && Inv(t[|t| - 1]) == c {
      var t' := t[..|t| - 1];
      assert t == t' + [Inv(c)];
      UnfoldCancel(g, t', c);
    } else {
      TightenUnfoldSnoc(g, t, c);
    }
  }

  /**
   * The map acts on reduced words: tightening a word before mapping it does not
   * change the tightened image (cancelling pairs map to cancelling words).
   */
  lemma {:induction false} UnfoldTighten(g: Graph, w: P.Path)
    requires Valid(g) && P.LettersBelow(w, Capacity(g))
    ensures P.LettersBelow(P.Tighten(w), Capacity(g))
    ensures P.Tighten(Unfold(g, P.Tighten(w))) == P.Tighten(Unfold(g, w))
    decreases |w|
  {
    P.TightenLettersBelow(w, Capacity(g));
    if w != [] {
      var w', c := w[..|w| - 1], w[|w| - 1];
      assert w == w' + [c];
      UnfoldTighten(g, w');
      UnfoldTightenStep(g, w', c);
    }
  }

  /** Mapping a product: the tightened image of a + b from the tightened images of a and b. */
  lemma UnfoldProduct(g: Graph, a: P.Path, b: P.Path)
    requires Valid(g) && P.LettersBelow(a, Capacity(g)) && P.LettersBelow(b, Capacity(g))
    ensures P.LettersBelow(P.Tighten(a + b), Capacity(g))
    ensures P.Tighten(Unfold(g, P.Tighten(a + b))) ==
      P.Tighten(P.Tighten(Unfold(g, a)) + P.Tighten(Unfold(g, b)))
  {
    UnfoldAppend(g, a, b);
    UnfoldTighten(g, a + b);
    P.TightenPrefix(Unfold(g, a), P.Tighten(Unfold(g, b)));
    P.TightenSuffix(Unfold(g, a), Unfold(g, b));
  }

  /** sameGraph: equal edge and vertex counts and equal endpoints of the edges in use. */
  predicate SameGraph(g: Graph, h: Graph)
    requires Valid(g) && Valid(h)
  {
    g.edges == h.edges && g.vertices == h.vertices &&
    forall i :: 0 <= i < g.edges ==> g.start[i] == h.start[i] && g.end[i] == h.end[i]
  }

  /** equals: the same graph, the same images, and cyclically conjugate fixed words. */
  predicate SameMap(g: Graph, h: Graph)
    requires Valid(g) && Valid(h)
  {
    SameGraph(g, h) && (forall i :: 0 <= i < g.edges ==> g.im[i] == h.im[i]) &&
    P.IsCyclicallyConjugate(g.fix, h.fix)
  }

  /** sameGraph and equals are reflexive (the fixed word is conjugate to itself). */
  lemma SameMapReflexive(g: Graph)
    requires Valid(g)
    ensures SameGraph(g, g) && SameMap(g, g)
  {
    P.ConjugateReflexiveSymmetric(g.fix, g.fix);
  }

  /** sameGraph and equals are symmetric. */
  lemma SameMapSymmetric(g: Graph, h: Graph)
    requires Valid(g) && Valid(h)
    ensures SameGraph(g, h) <==> SameGraph(h, g)
    ensures SameMap(g, h) <==> SameMap(h, g)
  {
    P.ConjugateReflexiveSymmetric(g.fix, h.fix);
    P.ConjugateReflexiveSymmetric(h.fix, g.fix);
  }

  /** copyGraph: the same map in fresh buffers of the same capacity (marks only when marked). */
  function Copy(g: Graph): (h: Graph)
    requires Valid(g)
  {
    g.(im := Padded(g.im, g.edges, Capacity(g), []), start := Padded(g.start, g.edges, Capacity(g), 0),
       end := Padded(g.end, g.edges, Capacity(g), 0),
       mark := if g.marked then g.mark else [], marklabel := if g.marked then g.marklabel else [])
  }

  /** compose(g1): the images of g1 mapped through this map, on the same graph. */
  function Compose(g: Graph, g1: Graph): (r: Result<Graph>)
    requires Valid(g) && Valid(g1)
    ensures r.Ok? ==> Valid(r.value) && Capacity(r.value) == Capacity(g)
  {
    if !SameGraph(g, g1) then Err("different graphs")
    else if exists i :: 0 <= i < g.edges && !P.LettersBelow(g1.im[i], Capacity(g)) then
      Err("array index out of bounds")
    else
      var c := Copy(g);
      Ok(c.(im := seq(Capacity(g), i requires 0 <= i < Capacity(g) =>
                      if i < g.edges then MapWord(g, g1.im[i]).value else [])))
  }

  /** Composing two maps of one well-formed graph gives a well-formed map of that graph. */
  lemma ComposeWellFormed(g: Graph, g1: Graph)
    requires WellFormed(g) && WellFormed(g1)
    ensures Compose(g, g1).Ok? <==> SameGraph(g, g1)
    ensures Compose(g, g1).Ok? ==> WellFormed(Compose(g, g1).value) && SameGraph(Compose(g, g1).value, g)
  {
    if SameGraph(g, g1) {
      forall i | 0 <= i < g.edges ensures P.LettersBelow(g1.im[i], Capacity(g)) {
      }
      var h := Compose(g, g1).value;
      forall i | 0 <= i < h.edges ensures P.LettersBelow(h.im[i], h.edges) {
        UnfoldLetters(g, g1.im[i]);
        P.TightenLettersBelow(Unfold(g, g1.im[i]), g.edges);
      }
    }
  }

  /** Under the composed map a letter goes to the tightened image under g of its image under g1. */
  lemma ComposeLetter(g: Graph, g1: Graph, c: Sym)
    requires Valid(g) && Valid(g1) && Compose(g, g1).Ok? && c.index < g.edges
    ensures P.LettersBelow(LetterImage(g1, c), Capacity(g))
    ensures LetterImage(Compose(g, g1).value, c) == P.Tighten(Unfold(g, LetterImage(g1, c)))
  {
    var im := g1.im[c.index];
    assert P.LettersBelow(im, Capacity(g));
    if c.inv {
      P.ReverseLettersBelow(im, Capacity(g));
      UnfoldReverse(g, im);
      P.TightenReverse(Unfold(g, im));
    }
  }

  /** Unfolding a word through the composed map is unfolding its unfolding through g1 through g, up to tightening. */
  lemma {:induction false} ComposeUnfold(g: Graph, g1: Graph, w: P.Path)
    requires Valid(g) && Valid(g1) && Compose(g, g1).Ok? && P.LettersBelow(w, g.edges)
    ensures P.LettersBelow(Unfold(g1, w), Capacity(g))
    ensures P.Tighten(Unfold(Compose(g, g1).value, w)) == P.Tighten(Unfold(g, Unfold(g1, w)))
    decreases |w|
  {
    if w != [] {
      var h := Compose(g, g1).value;
      var c, r := w[0], w[1..];
      ComposeUnfold(g, g1, r);
      ComposeLetter(g, g1, c);
      var a, b := LetterImage(g1, c), Unfold(g1, r);
      assert Unfold(g1, w) == a + b;
      UnfoldAppend(g, a, b);
      calc {
        P.Tighten(Unfold(h, w));
        P.Tighten(LetterImage(h, c) + Unfold(h, r));
        { P.TightenSuffix(LetterImage(h, c), Unfold(h, r)); }
        P.Tighten(P.Tighten(Unfold(g, a)) + P.Tighten(Unfold(g, b)));
        { P.TightenSuffix(P.Tighten(Unfold(g, a)), Unfold(g, b)); P.TightenPrefix(Unfold(g, a), Unfold(g, b)); }
        P.Tighten(Unfold(g, a) + Unfold(g, b));
        P.Tighten(Unfold(g, Unfold(g1, w)));
      }
    }
  }

  /**
   * compose is the composition of the two maps: the image of a word of edges in use
   * under the composed map is its image under g1 mapped through g.
   */
  lemma ComposeMapWord(g: Graph, g1: Graph, w: P.Path)
    requires Valid(g) && Valid(g1) && Compose(g, g1).Ok? && P.LettersBelow(w, g.edges)
    ensures MapWord(g1, w).Some? && MapWord(g, MapWord(g1, w).value).Some?
    ensures MapWord(Compose(g, g1).value, w) == MapWord(g, MapWord(g1, w).value)
  {
    ComposeUnfold(g, g1, w);
    UnfoldTighten(g, Unfold(g1, w));
  }

  /** The image of a word of edges in use consists of edges in use. */
  lemma {:induction false} UnfoldLetters(g: Graph, w: P.Path)
    requires WellFormed(g) && P.LettersBelow(w, g.edges)
    ensures P.LettersBelow(Unfold(g, w), g.edges)
    decreases |w|
  {
    if w != [] {
      UnfoldLetters(g, w[1..]);
      if w[0].inv {
        P.ReverseLettersBelow(g.im[w[0].index], g.edges);
      }
    }
  }

  // ---- isGoodMap ----

  /** The position of the first path of ps that is not a good path, if any. */
  function FirstBadPath(g: Graph, ps: seq<P.Path>): (r: Option<nat>)
    requires Valid(g)
    ensures r.Some? ==>
      r.value < |ps| && !IsGoodPath(g, ps[r.value]) &&
      forall j :: 0 <= j < r.value ==> IsGoodPath(g, ps[j])
    ensures r.None? ==> forall j :: 0 <= j < |ps| ==> IsGoodPath(g, ps[j])
    decreases |ps|
  {
    if ps == [] then None
    else if !IsGoodPath(g, ps[0]) then Some(0)
    else match FirstBadPath(g, ps[1..])
      case None => None
      case Some(k) => Some(k + 1)
  }

  /**
   * isGoodMap: every image is a good path, every marked loop too, the fixed word is
   * a good loop, and its image is cyclically conjugate to it or to its inverse. The
   * failure carries the message the source leaves in msg.
   */
  function IsGoodMap(g: Graph): (r: Outcome)
    requires Valid(g)
  {
    match FirstBadPath(g, g.im[..g.edges])
    case Some(i) => Fail("bad image: " + PathToString(g.im[i]))
    case None =>
      match (if g.marked then FirstBadPath(g, g.mark) else None)
      case Some(i) => Fail("bad marking: " + PathToString(g.mark[i]))
      case None =>
        if !IsGoodLoop(g, g.fix) then Fail("bad fixed word: " + PathToString(g.fix))
        else
          match MapWord(g, g.fix)
          case None => Fail("general error")
          case Some(m) =>
            if P.IsCyclicallyConjugate(g.fix, m) || P.IsCyclicallyConjugate(P.Reverse(g.fix), m) then Pass
            else Fail("fixed word not preserved")
  }

  /** A continuous map whose fixed word is cyclically fixed (up to inversion). */
  predicate GoodMap(g: Graph)
    requires Valid(g)
  {
    (forall i :: 0 <= i < g.edges ==> IsGoodPath(g, g.im[i])) &&
    (g.marked ==> forall i :: 0 <= i < |g.mark| ==> IsGoodPath(g, g.mark[i])) &&
    IsGoodLoop(g, g.fix) && P.LettersBelow(g.fix, Capacity(g)) &&
    var m := P.Tighten(Unfold(g, g.fix));
    P.IsCyclicallyConjugate(g.fix, m) || P.IsCyclicallyConjugate(P.Reverse(g.fix), m)
  }

  /** isGoodMap passes exactly on continuous maps with a preserved fixed word. */
  lemma IsGoodMapMeans(g: Graph)
    requires Valid(g)
    ensures IsGoodMap(g) == Pass <==> GoodMap(g)
    ensures IsGoodMap(g) != Pass ==> IsGoodMap(g).Fail?
  {
    var ims := g.im[..g.edges];
    assert forall i :: 0 <= i < g.edges ==> ims[i] == g.im[i];
    if IsGoodLoop(g, g.fix) && g.fix != [] {
      forall i | 0 <= i < |g.fix| ensures g.fix[i].index < Capacity(g) {
        if i < |g.fix| - 1 {
          assert Joined(g, g.fix[i], g.fix[i + 1]);
        } else {
          assert LastVertex(g, g.fix[|g.fix| - 1]).Some?;
        }
      }
    }
  }

  // ---- rewriting every image, the fixed word and the marking ----

  /** The letter-level rewrites surgery applies to all images, the fixed word and the marked loops. */
  datatype Rewrite =
    | SplitOf(e: Index, n: Index)         // splitChar(_, e, n)
    | ReverseOf(e: Index)                // reverseChar(_, e)
    | RemoveOf(e: Index, last: Index)    // removeEdge(_, e), then last renamed to e
    | FoldOf(from: Index, to: Index)     // edge from renamed to edge to
    | ReplaceOf(c: Sym, s: P.Path)       // replaceChar(_, c, s)

  /** String.replace of both letters of edge from by the letters of edge to. */
  function RenameEdge(p: P.Path, from: Index, to: Index): P.Path
  {
    P.Rename(P.Rename(p, Sym(from, false), Sym(to, false)), Sym(from, true), Sym(to, true))
  }

  function Apply(r: Rewrite, p: P.Path): P.Path
  {
    match r
    case SplitOf(e, n) => P.SplitChar(p, e, n)
    case ReverseOf(e) => P.ReverseChar(p, e)
    case RemoveOf(e, last) => RenameEdge(P.RemoveEdge(p, e), last, e)
    case FoldOf(from, to) => RenameEdge(p, from, to)
    case ReplaceOf(c, s) => P.ReplaceChar(p, c, s)
  }

  /** The first k paths of ps rewritten, the rest kept. */
  function ApplyFirst(r: Rewrite, ps: seq<P.Path>, k: nat): (qs: seq<P.Path>)
    ensures |qs| == |ps|
    ensures forall i :: 0 <= i < |ps| ==> qs[i] == if i < k then Apply(r, ps[i]) else ps[i]
  {
    seq(|ps|, i requires 0 <= i < |ps| => if i < k then Apply(r, ps[i]) else ps[i])
  }

  /** The rewrite applied to the images of the edges in use, the fixed word and (when marked) the marking. */
  function RewriteAll(g: Graph, r: Rewrite): (h: Graph)
    requires Valid(g)
    ensures Valid(h)
  {
    g.(im := ApplyFirst(r, g.im, g.edges), fix := Apply(r, g.fix),
       mark := if g.marked then ApplyFirst(r, g.mark, |g.mark|) else g.mark)
  }

  /** When a rewrite turns words in edges below a into words in edges below b. */
  predicate RewriteBound(r: Rewrite, a: int, b: int)
  {
    match r
    case SplitOf(e, n) => a == n && b == n + 1
    case ReverseOf(e) => b == a
    case RemoveOf(e, last) => a == last + 1 && e <= last && b == last
    case FoldOf(from, to) => to < a && b == a
    case ReplaceOf(c, s) => P.LettersBelow(s, a) && b == a
  }

  lemma {:induction false} SplitCharLetters(p: P.Path, e: int, n: Index)
    requires P.LettersBelow(p, n)
    ensures P.LettersBelow(P.SplitChar(p, e, n), n + 1)
    decreases |p|
  {
    if p != [] {
      IndexToCharInRange(n, true);
      IndexToCharInRange(n, false);
      SplitCharLetters(p[1..], e, n);
    }
  }

  lemma {:induction false} SubstituteAllLetters(w: P.Path, c: Sym, s: P.Path, a: int)
    requires P.LettersBelow(w, a) && P.LettersBelow(s, a)
    ensures P.LettersBelow(P.SubstituteAll(w, c, s), a)
    decreases |w|
  {
    if w != [] {
      SubstituteAllLetters(w[1..], c, s, a);
      P.ReverseLettersBelow(s, a);
    }
  }

  lemma RenameEdgeLetters(p: P.Path, from: Index, to: Index, a: int)
    requires P.LettersBelow(p, a) && to < a
    ensures P.LettersBelow(RenameEdge(p, from, to), a)
    ensures forall i :: 0 <= i < |RenameEdge(p, from, to)| ==> RenameEdge(p, from, to)[i].index != from || from == to
  {
  }

  /** Each rewrite keeps letters within the bound it promises. */
  lemma ApplyLetters(r: Rewrite, p: P.Path, a: int, b: int)
    requires RewriteBound(r, a, b) && P.LettersBelow(p, a)
    ensures P.LettersBelow(Apply(r, p), b)
  {
    match r
    case SplitOf(e, n) => SplitCharLetters(p, e, n);
    case ReverseOf(e) =>
    case RemoveOf(e, last) =>
      var q := P.RemoveEdge(p, e);
      P.RemoveEdgeLetters(p, e);
      forall i | 0 <= i < |q| ensures q[i].index < a {
        assert q[i] in p;
      }
      RenameEdgeLetters(q, last, e, a);
      var t := RenameEdge(q, last, e);
      forall i | 0 <= i < |t| ensures t[i].index < last {
        if e != last {
          assert t[i].index != last;
        } else {
          assert t[i] == q[i];
        }
      }
    case FoldOf(from, to) => RenameEdgeLetters(p, from, to, a);
    case ReplaceOf(c, s) =>
      SubstituteAllLetters(p, c, s, a);
      P.TightenLettersBelow(P.SubstituteAll(p, c, s), a);
  }

  /** A rewrite within bound b takes a map whose letters are below a to letters below b. */
  lemma RewriteAllLetters(g: Graph, r: Rewrite, a: int, b: int)
    requires Valid(g) && LettersWithin(g, a) && RewriteBound(r, a, b)
    ensures LettersWithin(RewriteAll(g, r), b)
  {
    var h := RewriteAll(g, r);
    forall i | 0 <= i < g.edges ensures P.LettersBelow(h.im[i], b) {
      ApplyLetters(r, g.im[i], a, b);
    }
    ApplyLetters(r, g.fix, a, b);
    if g.marked {
      forall i | 0 <= i < |h.mark| ensures P.LettersBelow(h.mark[i], b) {
        ApplyLetters(r, g.mark[i], a, b);
      }
    }
  }

  // ---- vertex relabelling (adjustVertices, identifyVertices, swapVertices) ----

  /** The relabellings of vertices the surgery applies to every endpoint. */
  datatype Relabel =
    | Adjust(lo: int, hi: int)                   // hi removed: hi becomes lo, later vertices move down
    | Identify(vmin: int, vmax: int, top: int)   // vmax becomes vmin, the last vertex top becomes vmax
    | Swap(v1: int, v2: int)                     // v1 and v2 exchanged

  function Relabeled(m: Relabel, x: int): int
  {
    match m
    case Adjust(lo, hi) => if x == hi then lo else if x > hi then x - 1 else x
    case Identify(vmin, vmax, top) =>
      var y := if x == vmax then vmin else x;
      if y == top then vmax else y
    case Swap(v1, v2) => if x == v1 then v2 else if x == v2 then v1 else x
  }

  /** The first k vertex numbers of s relabelled, the rest kept. */
  function RelabelFirst(m: Relabel, s: seq<int>, k: nat): (t: seq<int>)
    ensures |t| == |s|
    ensures forall i :: 0 <= i < |s| ==> t[i] == if i < k then Relabeled(m, s[i]) else s[i]
  {
    seq(|s|, i requires 0 <= i < |s| => if i < k then Relabeled(m, s[i]) else s[i])
  }

  /** Both endpoints of every edge in use relabelled. */
  function RelabelAll(g: Graph, m: Relabel): (h: Graph)
    requires Valid(g)
    ensures Valid(h)
  {
    g.(start := RelabelFirst(m, g.start, g.edges), end := RelabelFirst(m, g.end, g.edges))
  }

  /**
   * adjustVertices(v1, v2): the larger of two distinct vertices is merged into the
   * smaller one and the vertices above it move down by one.
   */
  function AdjustVertices(g: Graph, v1: int, v2: int): (h: Graph)
    requires Valid(g)
    ensures Valid(h)
  {
    if v1 == v2 then g
    else
      RelabelAll(g, AdjustMap(v1, v2)).(vertices := g.vertices - 1)
  }

  /** Merging two distinct vertices keeps every endpoint a vertex. */
  lemma AdjustVerticesEndpoints(g: Graph, v1: int, v2: int)
    requires Valid(g) && EndpointsOK(g) && 0 <= v1 < g.vertices && 0 <= v2 < g.vertices
    ensures EndpointsOK(AdjustVertices(g, v1, v2))
    ensures AdjustVertices(g, v1, v2).vertices == if v1 == v2 then g.vertices else g.vertices - 1
  {
    if v1 != v2 {
      var h := AdjustVertices(g, v1, v2);
      forall i | 0 <= i < h.edges ensures 0 <= h.start[i] < h.vertices && 0 <= h.end[i] < h.vertices {
        MergeIsQuotient(AdjustMap(v1, v2), g.vertices, v1, v2, g.start[i], g.start[i]);
        MergeIsQuotient(AdjustMap(v1, v2), g.vertices, v1, v2, g.end[i], g.end[i]);
      }
    }
  }

  /** identifyVertices: two vertices become one and the last vertex takes the freed number. */
  function IdentifyVertices(g: Graph, v1: int, v2: int): (r: Result<Graph>)
    requires Valid(g)
    ensures r.Ok? <==> 0 <= v1 < g.vertices && 0 <= v2 < g.vertices
  {
    if v1 < 0 || v2 < 0 || v1 >= g.vertices || v2 >= g.vertices then Err("nonexistent vertex")
    else if v1 == v2 then Ok(g)
    else
      Ok(RelabelAll(g, IdentifyMap(v1, v2, g.vertices)).(vertices := g.vertices - 1))
  }

  /** The relabelling identifyVertices(v1, v2) applies to a map with n vertices. */
  function IdentifyMap(v1: int, v2: int, n: int): Relabel
  {
    if v1 < v2 then Identify(v1, v2, n - 1) else Identify(v2, v1, n - 1)
  }

  /** The relabelling adjustVertices(v1, v2) applies. */
  function AdjustMap(v1: int, v2: int): Relabel
  {
    if v1 < v2 then Adjust(v1, v2) else Adjust(v2, v1)
  }

  /**
   * Both relabellings are quotient maps of the n vertices onto n - 1 vertices that
   * merge v1 with v2 and nothing else.
   */
  lemma MergeIsQuotient(m: Relabel, n: int, v1: int, v2: int, x: int, y: int)
    requires m == IdentifyMap(v1, v2, n) || m == AdjustMap(v1, v2)
    requires 0 <= v1 < n && 0 <= v2 < n && v1 != v2 && 0 <= x < n && 0 <= y < n
    ensures 0 <= Relabeled(m, x) < n - 1
    ensures Relabeled(m, x) == Relabeled(m, y) <==> x == y || ((x == v1 || x == v2) && (y == v1 || y == v2))
  {
  }

  /** Identifying two vertices keeps endpoints in range and loses one vertex. */
  lemma IdentifyVerticesEndpoints(g: Graph, v1: int, v2: int)
    requires Valid(g) && EndpointsOK(g) && 0 <= v1 < g.vertices && 0 <= v2 < g.vertices
    ensures EndpointsOK(IdentifyVertices(g, v1, v2).value)
    ensures IdentifyVertices(g, v1, v2).value.vertices == if v1 == v2 then g.vertices else g.vertices - 1
  {
    if v1 != v2 {
      var h := IdentifyVertices(g, v1, v2).value;
      forall i | 0 <= i < h.edges ensures 0 <= h.start[i] < h.vertices && 0 <= h.end[i] < h.vertices {
        MergeIsQuotient(IdentifyMap(v1, v2, g.vertices), g.vertices, v1, v2, g.start[i], g.start[i]);
        MergeIsQuotient(IdentifyMap(v1, v2, g.vertices), g.vertices, v1, v2, g.end[i], g.end[i]);
      }
    }
  }

  /**
   * swapVertices as written: the two vertex numbers exchanged, refused only above
   * the vertex count (so the number `vertices` itself is accepted).
   */
  function SwapVertices(g: Graph, v1: int, v2: int): (r: Result<Graph>)
    requires Valid(g)
    ensures r.Ok? <==> v1 <= g.vertices && v2 <= g.vertices
  {
    if v1 > g.vertices || v2 > g.vertices then Err("nonexistent vertex")
    else if v1 != v2 then Ok(RelabelAll(g, Swap(v1, v2)))
    else Ok(g)
  }

  /** swapVertices with the range check of identifyVertices. */
  function SwapVerticesChecked(g: Graph, v1: int, v2: int): (r: Result<Graph>)
    requires Valid(g)
    ensures r.Ok? <==> 0 <= v1 < g.vertices && 0 <= v2 < g.vertices
  {
    if v1 < 0 || v2 < 0 || v1 >= g.vertices || v2 >= g.vertices then Err("nonexistent vertex")
    else if v1 != v2 then Ok(RelabelAll(g, Swap(v1, v2)))
    else Ok(g)
  }

  /** A loop at vertex 0 in a one-vertex graph. */
  function OneLoop(): Graph
  {
    Graph(1, 1, [[Sym(0, false)]], [0], [0], [], false, [], [], "")
  }

  /** As written, swapVertices(0, 1) on a one-vertex map succeeds and moves an edge to the nonexistent vertex 1. */
  lemma SwapVerticesAcceptsMissingVertex()
    ensures WellFormed(OneLoop())
    ensures SwapVertices(OneLoop(), 0, 1).Ok? && !WellFormed(SwapVertices(OneLoop(), 0, 1).value)
    ensures SwapVerticesChecked(OneLoop(), 0, 1).Err?
  {
    var h := SwapVertices(OneLoop(), 0, 1).value;
    assert h.start[0] == 1;
  }

  /** The checked swap keeps a map well-formed and exchanges the two vertex numbers. */
  lemma SwapVerticesCheckedSpec(g: Graph, v1: int, v2: int)
    requires WellFormed(g)
    ensures SwapVerticesChecked(g, v1, v2).Ok? ==>
      var h := SwapVerticesChecked(g, v1, v2).value;
      WellFormed(h) && h.vertices == g.vertices && h.im == g.im &&
      forall i :: 0 <= i < g.edges ==>
        (h.start[i] == v1 <==> g.start[i] == v2) && (h.start[i] == v2 <==> g.start[i] == v1) &&
        (h.end[i] == v1 <==> g.end[i] == v2) && (h.end[i] == v2 <==> g.end[i] == v1)
  {
  }

  /** Swapping twice restores the map. */
  lemma SwapVerticesTwice(g: Graph, v1: int, v2: int)
    requires Valid(g) && SwapVerticesChecked(g, v1, v2).Ok?
    ensures SwapVerticesChecked(SwapVerticesChecked(g, v1, v2).value, v1, v2) == Ok(g)
  {
    var h := SwapVerticesChecked(g, v1, v2).value;
    if v1 != v2 {
      assert RelabelAll(h, Swap(v1, v2)).start == g.start;
      assert RelabelAll(h, Swap(v1, v2)).end == g.end;
    }
  }

  // ---- edge surgery ----

  /** reverseEdge on an edge in use: its image and endpoints turned round, every occurrence flipped. */
  function Reversed(g: Graph, ed: nat): (h: Graph)
    requires Valid(g) && ed < g.edges
    ensures Valid(h) && h.edges == g.edges && h.vertices == g.vertices
    ensures h.start == g.start[ed := g.end[ed]] && h.end == g.end[ed := g.start[ed]]
  {
    var g1 := g.(im := g.im[ed := P.Reverse(g.im[ed])], start := g.start[ed := g.end[ed]],
                 end := g.end[ed := g.start[ed]]);
    RewriteAll(g1, ReverseOf(ed))
  }

  /** reverseEdge: refused for an edge not in use. */
  function ReverseEdge(g: Graph, ed: nat): (r: Result<Graph>)
    requires Valid(g)
    ensures r.Ok? <==> ed < g.edges
  {
    if ed >= g.edges then Err("nonexistent edge") else Ok(Reversed(g, ed))
  }

  /** Reversing an edge twice restores the map. */
  lemma ReverseEdgeTwice(g: Graph, ed: nat)
    requires Valid(g) && ed < g.edges
    ensures Reversed(Reversed(g, ed), ed) == g
  {
    var h := Reversed(g, ed);
    var k := Reversed(h, ed);
    ReverseCharReverse(g.im[ed], ed);
    P.ReverseReverse(g.im[ed]);
    P.ReverseCharTwice(g.im[ed], ed);
    assert h.im[ed] == P.ReverseChar(P.Reverse(g.im[ed]), ed);
    assert k.im[ed] == P.ReverseChar(P.Reverse(h.im[ed]), ed);
    forall i | 0 <= i < |g.im| ensures k.im[i] == g.im[i] {
      if i < g.edges && i != ed {
        P.ReverseCharTwice(g.im[i], ed);
      }
    }
    P.ReverseCharTwice(g.fix, ed);
    if g.marked {
      forall i | 0 <= i < |g.mark| ensures k.mark[i] == g.mark[i] {
        P.ReverseCharTwice(g.mark[i], ed);
      }
    }
  }

  /** Flipping an edge commutes with running a path backwards. */
  lemma ReverseCharReverse(p: P.Path, e: int)
    ensures P.Reverse(P.ReverseChar(p, e)) == P.ReverseChar(P.Reverse(p), e)
  {
  }

  /** Reversing an edge keeps a map well-formed. */
  lemma ReversedWellFormed(g: Graph, ed: nat)
    requires WellFormed(g) && ed < g.edges
    ensures WellFormed(Reversed(g, ed))
  {
    var g1 := g.(im := g.im[ed := P.Reverse(g.im[ed])], start := g.start[ed := g.end[ed]],
                 end := g.end[ed := g.start[ed]]);
    P.ReverseLettersBelow(g.im[ed], g.edges);
    assert LettersOK(g1);
    RewriteAllLetters(g1, ReverseOf(ed), g.edges, g.edges);
  }

  /**
   * splitEdge(ed, at): a new vertex cuts edge ed; the new last edge runs from it to
   * the old end of ed and gets the image from position at on, ed keeps the part
   * before; then ed is replaced by ed followed by the new edge everywhere.
   */
  function SplitEdge(g: Graph, ed: nat, at: nat): (r: Result<Graph>)
    requires Valid(g)
  {
    if ed >= g.edges || |g.im[ed]| <= at then Err("illegal argument")
    else
      match Roomy(g)
      case Err(m) => Err(m)
      case Ok(h) =>
        GrowKeeps(g);
        Ok(RewriteAll(Cut(h, ed, at), SplitOf(ed, h.edges)))
  }

  /** The graph part of splitEdge: the new vertex, the new last edge, and the two halves of the image. */
  function Cut(h: Graph, ed: nat, at: nat): (h1: Graph)
    requires Valid(h) && ed < h.edges < Capacity(h) && at < |h.im[ed]|
    ensures Valid(h1) && h1.edges == h.edges + 1
  {
    var n := h.edges;
    h.(edges := n + 1, vertices := h.vertices + 1,
       start := h.start[n := h.vertices],
       end := h.end[n := h.end[ed]][ed := h.vertices],
       im := h.im[n := h.im[ed][at..]][ed := h.im[ed][..at]])
  }

  /** Cutting an edge of a well-formed map leaves letters below the old edge count and endpoints in range. */
  lemma CutWellFormed(h: Graph, ed: nat, at: nat)
    requires WellFormed(h) && ed < h.edges < Capacity(h) && at < |h.im[ed]|
    ensures EndpointsOK(Cut(h, ed, at)) && LettersWithin(Cut(h, ed, at), h.edges)
  {
  }

  /**
   * splitEdge fails exactly on a bad argument or a full map at MAXINDEX; otherwise
   * there is one more edge and one more vertex, the new edge n runs from the new
   * vertex to the old end of ed, ed ends at the new vertex, and the image of the
   * path ed n is the old image of ed with ed split.
   */
  lemma SplitEdgeSpec(g: Graph, ed: nat, at: nat)
    requires Valid(g)
    ensures SplitEdge(g, ed, at).Ok? <==>
      ed < g.edges && at < |g.im[ed]| && (g.edges < Capacity(g) || Capacity(g) < MAXINDEX)
    ensures SplitEdge(g, ed, at).Ok? ==>
      var h := SplitEdge(g, ed, at).value;
      var n := g.edges;
      h.edges == n + 1 && h.vertices == g.vertices + 1 &&
      h.start[n] == g.vertices && h.end[n] == g.end[ed] &&
      h.start[ed] == g.start[ed] && h.end[ed] == g.vertices &&
      h.im[ed] + h.im[n] == P.SplitChar(g.im[ed], ed, n) &&
      (forall i :: 0 <= i < n && i != ed ==>
        h.start[i] == g.start[i] && h.end[i] == g.end[i] && h.im[i] == P.SplitChar(g.im[i], ed, n)) &&
      h.fix == P.SplitChar(g.fix, ed, n)
  {
    if SplitEdge(g, ed, at).Ok? {
      RoomyKeeps(g);
      assert g.im[ed] == g.im[ed][..at] + g.im[ed][at..];
      P.SplitCharAppend(g.im[ed][..at], g.im[ed][at..], ed, g.edges);
      var h := SplitEdge(g, ed, at).value;
      forall i | 0 <= i < g.edges && i != ed
        ensures h.start[i] == g.start[i] && h.end[i] == g.end[i] && h.im[i] == P.SplitChar(g.im[i], ed, g.edges)
      {
        SplitEdgeAt(g, ed, at, i);
      }
    }
  }

  /** An edge other than the split one keeps its endpoints and has ed split in its image. */
  lemma SplitEdgeAt(g: Graph, ed: nat, at: nat, i: nat)
    requires Valid(g) && SplitEdge(g, ed, at).Ok? && i < g.edges && i != ed
    ensures var h := SplitEdge(g, ed, at).value;
      h.start[i] == g.start[i] && h.end[i] == g.end[i] && h.im[i] == P.SplitChar(g.im[i], ed, g.edges)
  {
    RoomyKeeps(g);
  }

  /** splitEdge replaces ed by ed followed by the new edge in every marked loop too. */
  lemma SplitEdgeMarks(g: Graph, ed: nat, at: nat)
    requires Valid(g) && SplitEdge(g, ed, at).Ok?
    ensures var h := SplitEdge(g, ed, at).value;
      h.marked == g.marked && |h.mark| == |g.mark| &&
      (g.marked ==> forall i :: 0 <= i < |g.mark| ==> h.mark[i] == P.SplitChar(g.mark[i], ed, g.edges))
  {
    RoomyKeeps(g);
  }

  /** A split adds one edge to a map that stays valid. */
  lemma SplitEdgeGrows(g: Graph, ed: nat, at: nat)
    requires Valid(g)
    ensures SplitEdge(g, ed, at).Ok? ==> Valid(SplitEdge(g, ed, at).value) && SplitEdge(g, ed, at).value.edges == g.edges + 1
  {
    SplitEdgeSpec(g, ed, at);
  }

  /** Making room for one more edge keeps every edge in use and everything else. */
  lemma RoomyKeeps(g: Graph)
    requires Valid(g)
    ensures Roomy(g).Ok? ==>
      var h := Roomy(g).value;
      Valid(h) && h.edges == g.edges && h.vertices == g.vertices && h.fix == g.fix &&
      h.marked == g.marked && h.mark == g.mark &&
      forall i :: 0 <= i < g.edges ==> h.start[i] == g.start[i] && h.end[i] == g.end[i] && h.im[i] == g.im[i]
  {
    if Roomy(g).Ok? {
      GrowKeeps(g);
      var h := Roomy(g).value;
      forall i | 0 <= i < g.edges
        ensures h.start[i] == g.start[i] && h.end[i] == g.end[i] && h.im[i] == g.im[i]
      {
        assert h.start[i] == h.start[..g.edges][i];
        assert h.end[i] == h.end[..g.edges][i];
        assert h.im[i] == h.im[..g.edges][i];
      }
    }
  }

  /** Making room keeps a map well-formed. */
  lemma RoomyWellFormed(g: Graph)
    requires WellFormed(g) && Roomy(g).Ok?
    ensures WellFormed(Roomy(g).value) && Agree(g, Roomy(g).value)
  {
    GrowKeeps(g);
    var h := Roomy(g).value;
    assert Agree(g, h) || h == g;
    forall i | 0 <= i < h.edges
      ensures 0 <= h.start[i] < h.vertices && 0 <= h.end[i] < h.vertices && P.LettersBelow(h.im[i], h.edges)
    {
      assert h.start[i] == h.start[..g.edges][i] && h.end[i] == h.end[..g.edges][i];
      assert h.im[i] == h.im[..g.edges][i];
    }
  }

  /** Splitting an edge keeps a map well-formed. */
  lemma SplitEdgeWellFormed(g: Graph, ed: nat, at: nat)
    requires WellFormed(g) && SplitEdge(g, ed, at).Ok?
    ensures WellFormed(SplitEdge(g, ed, at).value)
  {
    GrowKeeps(g);
    var h := Roomy(g).value;
    RoomyWellFormed(g);
    assert h.im[ed] == h.im[..g.edges][ed];
    CutWellFormed(h, ed, at);
    RewriteAllLetters(Cut(h, ed, at), SplitOf(ed, h.edges), h.edges, h.edges + 1);
  }

  /**
   * removeEntry(ed): the last edge moves into slot ed; in every image, the fixed
   * word and the marking the letters of ed are deleted and the last edge renamed ed.
   */
  function RemoveEntry(g: Graph, ed: nat): (h: Graph)
    requires Valid(g) && ed < g.edges
    ensures Valid(h) && h.edges == g.edges - 1 && h.vertices == g.vertices
  {
    RewriteAll(MoveLast(g, ed), RemoveOf(ed, g.edges - 1))
  }

  /** The last edge in use copied into slot ed, and the edge count lowered. */
  function MoveLast(g: Graph, ed: nat): (h: Graph)
    requires Valid(g) && ed < g.edges
    ensures Valid(h) && h.edges == g.edges - 1
  {
    var last := g.edges - 1;
    g.(edges := last, start := g.start[ed := g.start[last]], end := g.end[ed := g.end[last]],
       im := g.im[ed := g.im[last]])
  }

  /** Removing an entry keeps endpoints in range and letters among the remaining edges. */
  lemma RemoveEntryWellFormed(g: Graph, ed: nat)
    requires WellFormed(g) && ed < g.edges
    ensures WellFormed(RemoveEntry(g, ed))
  {
    var m := MoveLast(g, ed);
    assert LettersWithin(m, g.edges);
    RewriteAllLetters(m, RemoveOf(ed, g.edges - 1), g.edges, g.edges - 1);
  }

  /** The image of one edge in use after removeEntry(ed): the one of its slot, or of the last edge for slot ed, rewritten. */
  lemma RemoveEntryImage(g: Graph, ed: nat, i: nat)
    requires Valid(g) && ed < g.edges && i < g.edges - 1
    ensures RemoveEntry(g, ed).im[i] == Apply(RemoveOf(ed, g.edges - 1), g.im[if i == ed then g.edges - 1 else i])
  {
  }

  /** The fixed word and the marked loops after removeEntry(ed), rewritten. */
  lemma RemoveEntryWords(g: Graph, ed: nat)
    requires Valid(g) && ed < g.edges
    ensures var h := RemoveEntry(g, ed);
      h.fix == Apply(RemoveOf(ed, g.edges - 1), g.fix) && h.marked == g.marked && |h.mark| == |g.mark| &&
      (g.marked ==> forall i :: 0 <= i < |g.mark| ==> h.mark[i] == Apply(RemoveOf(ed, g.edges - 1), g.mark[i]))
  {
  }

  /** The number of edges among the first k that have an end at v (a loop counts once). */
  function EdgesAt(g: Graph, v: int, k: nat): nat
    requires Valid(g) && k <= g.edges
  {
    if k == 0 then 0
    else EdgesAt(g, v, k - 1) + (if g.start[k - 1] == v || g.end[k - 1] == v then 1 else 0)
  }

  /**
   * removeEdge(ed): the edge is deleted; its endpoints are merged first when one of
   * them has fewer than three edges.
   */
  function RemoveEdge(g: Graph, ed: nat): (r: Result<Graph>)
    requires Valid(g)
    ensures r.Ok? <==> ed < g.edges
    ensures r.Ok? ==> Valid(r.value) && r.value.edges == g.edges - 1
  {
    if ed >= g.edges then Err("nonexistent edge")
    else
      var cnt1 := EdgesAt(g, g.start[ed], g.edges);
      var cnt2 := EdgesAt(g, g.end[ed], g.edges);
      var g1 := if cnt1 < 3 || cnt2 < 3 then AdjustVertices(g, g.start[ed], g.end[ed]) else g;
      Ok(RemoveEntry(g1, ed))
  }

  /** collapseEdge on an edge in use: its endpoints merged, then the entry removed. */
  function Collapsed(g: Graph, ed: nat): (h: Graph)
    requires Valid(g) && ed < g.edges
    ensures Valid(h) && h.edges == g.edges - 1
  {
    RemoveEntry(AdjustVertices(g, g.start[ed], g.end[ed]), ed)
  }

  /** collapseEdge: refused for an edge not in use. */
  function CollapseEdge(g: Graph, ed: nat): (r: Result<Graph>)
    requires Valid(g)
    ensures r.Ok? <==> ed < g.edges
  {
    if ed >= g.edges then Err("nonexistent edge") else Ok(Collapsed(g, ed))
  }

  /**
   * Collapsing removes exactly one edge, loses a vertex exactly when the endpoints
   * differ, keeps a map well-formed, and puts the last edge (with its endpoints
   * relabelled) into slot ed.
   */
  lemma CollapseEdgeSpec(g: Graph, ed: nat)
    requires WellFormed(g) && ed < g.edges
    ensures var h := Collapsed(g, ed);
      WellFormed(h) && h.edges == g.edges - 1 &&
      h.vertices == (if g.start[ed] == g.end[ed] then g.vertices else g.vertices - 1) &&
      (ed < h.edges ==>
        h.start[ed] == Relabeled(AdjustMap(g.start[ed], g.end[ed]), g.start[g.edges - 1]) || g.start[ed] == g.end[ed])
  {
    var a := AdjustVertices(g, g.start[ed], g.end[ed]);
    AdjustVerticesEndpoints(g, g.start[ed], g.end[ed]);
    assert WellFormed(a);
    RemoveEntryWellFormed(a, ed);
  }

  /** Where adjustVertices(v1, v2) sends vertex x. */
  function Merge(v1: int, v2: int, x: int): int
  {
    if v1 == v2 then x else Relabeled(AdjustMap(v1, v2), x)
  }

  /**
   * What collapseEdge does to the rest of the map: every edge in use, the last one
   * now in slot ed, keeps its image with the letters of ed deleted and the last edge
   * renamed ed, and its endpoints with the two ends of ed merged; the fixed word and
   * every marked loop are rewritten the same way.
   */
  lemma CollapseEdgeRenames(g: Graph, ed: nat)
    requires Valid(g) && ed < g.edges
    ensures var h := Collapsed(g, ed);
      var last := g.edges - 1;
      (forall i :: 0 <= i < h.edges ==>
        var j := if i == ed then last else i;
        h.im[i] == RenameEdge(P.RemoveEdge(g.im[j], ed), last, ed) &&
        h.start[i] == Merge(g.start[ed], g.end[ed], g.start[j]) &&
        h.end[i] == Merge(g.start[ed], g.end[ed], g.end[j])) &&
      h.fix == RenameEdge(P.RemoveEdge(g.fix, ed), last, ed) &&
      h.marked == g.marked && |h.mark| == |g.mark| &&
      (g.marked ==> forall i :: 0 <= i < |g.mark| ==> h.mark[i] == RenameEdge(P.RemoveEdge(g.mark[i], ed), last, ed))
  {
    var h := Collapsed(g, ed);
    forall i | 0 <= i < h.edges
      ensures var j := if i == ed then g.edges - 1 else i;
        h.im[i] == RenameEdge(P.RemoveEdge(g.im[j], ed), g.edges - 1, ed) &&
        h.start[i] == Merge(g.start[ed], g.end[ed], g.start[j]) &&
        h.end[i] == Merge(g.start[ed], g.end[ed], g.end[j])
    {
      CollapsedAt(g, ed, i);
    }
    CollapsedWords(g, ed);
  }

  /** Edge i after collapseEdge: the entry it came from, rewritten and relabelled. */
  lemma CollapsedAt(g: Graph, ed: nat, i: nat)
    requires Valid(g) && ed < g.edges && i < g.edges - 1
    ensures var h := Collapsed(g, ed);
      var j := if i == ed then g.edges - 1 else i;
      h.im[i] == RenameEdge(P.RemoveEdge(g.im[j], ed), g.edges - 1, ed) &&
      h.start[i] == Merge(g.start[ed], g.end[ed], g.start[j]) &&
      h.end[i] == Merge(g.start[ed], g.end[ed], g.end[j])
  {
    var a := AdjustVertices(g, g.start[ed], g.end[ed]);
    var m := MoveLast(a, ed);
    var j := if i == ed then g.edges - 1 else i;
    assert a.im[j] == g.im[j];
    assert m.im[i] == a.im[j] && m.start[i] == a.start[j] && m.end[i] == a.end[j];
  }

  /** The fixed word and the marking after collapseEdge. */
  lemma CollapsedWords(g: Graph, ed: nat)
    requires Valid(g) && ed < g.edges
    ensures var h := Collapsed(g, ed);
      h.fix == RenameEdge(P.RemoveEdge(g.fix, ed), g.edges - 1, ed) &&
      h.marked == g.marked && |h.mark| == |g.mark| &&
      (g.marked ==> forall i :: 0 <= i < |g.mark| ==> h.mark[i] == RenameEdge(P.RemoveEdge(g.mark[i], ed), g.edges - 1, ed))
  {
    var a := AdjustVertices(g, g.start[ed], g.end[ed]);
    assert a.fix == g.fix && a.mark == g.mark && a.marked == g.marked;
  }

  /** A collapsed edge's letters disappear: an image without them only has the last edge renamed. */
  lemma CollapseDeletes(p: P.Path, ed: Index, last: Index)
    requires forall i :: 0 <= i < |p| ==> p[i].index != ed
    ensures Apply(RemoveOf(ed, last), p) == RenameEdge(p, last, ed)
    ensures |Apply(RemoveOf(ed, last), p)| == |p|
  {
    P.RemoveAbsentEdge(p, ed);
  }

  /** Every rewrite by removal only shortens a word. */
  lemma RemoveShortens(p: P.Path, ed: Index, last: Index)
    ensures |Apply(RemoveOf(ed, last), p)| <= |p|
  {
    P.RemoveEdgeLetters(p, ed);
  }

  // ---- tightening ----

  /** tighten: images freely reduced, the fixed word and the marked loops cyclically reduced. */
  function Tightened(g: Graph): (h: Graph)
    requires Valid(g)
    ensures Valid(h)
  {
    g.(im := seq(|g.im|, i requires 0 <= i < |g.im| => if i < g.edges then P.Tighten(g.im[i]) else g.im[i]),
       fix := P.TightenCycl(P.Tighten(g.fix)),
       mark := if g.marked then seq(|g.mark|, i requires 0 <= i < |g.mark| => P.TightenCycl(P.Tighten(g.mark[i])))
               else g.mark)
  }

  /** The flag tighten returns: some image of an edge in use changed. */
  predicate TightenFlag(g: Graph)
    requires Valid(g)
  {
    exists i :: 0 <= i < g.edges && P.Tighten(g.im[i]) != g.im[i]
  }

  /**
   * After tighten every image is freely reduced and the fixed word and marked loops
   * are cyclically reduced.
   */
  lemma TightenedReduced(g: Graph)
    requires Valid(g)
    ensures var h := Tightened(g);
      (forall i :: 0 <= i < h.edges ==> P.Reduced(h.im[i])) &&
      P.CyclicallyReduced(h.fix) &&
      (h.marked ==> forall i :: 0 <= i < |h.mark| ==> P.CyclicallyReduced(h.mark[i]))
  {
    var h := Tightened(g);
    forall i | 0 <= i < h.edges ensures P.Reduced(h.im[i]) {
      P.TightenReduced(g.im[i]);
    }
    P.TightenCyclShape(P.Tighten(g.fix));
    if h.marked {
      forall i | 0 <= i < |h.mark| ensures P.CyclicallyReduced(h.mark[i]) {
        P.TightenCyclShape(P.Tighten(g.mark[i]));
      }
    }
  }

  /** tighten reports a change exactly when some image of an edge in use was not freely reduced. */
  lemma TightenFlagMeans(g: Graph)
    requires Valid(g)
    ensures TightenFlag(g) <==> exists i :: 0 <= i < g.edges && !P.Reduced(g.im[i])
  {
    forall i | 0 <= i < g.edges ensures P.Tighten(g.im[i]) != g.im[i] <==> !P.Reduced(g.im[i]) {
      P.TightenReduced(g.im[i]);
      if P.Reduced(g.im[i]) {
        P.TightenOfReduced(g.im[i]);
      }
    }
  }

  /** Tightening twice is tightening once, and the second time reports no change. */
  lemma TightenedIdempotent(g: Graph)
    requires Valid(g)
    ensures Tightened(Tightened(g)) == Tightened(g)
    ensures !TightenFlag(Tightened(g))
  {
    var h := Tightened(g);
    TightenedReduced(g);
    TightenFlagMeans(h);
    forall i | 0 <= i < h.edges ensures P.Tighten(h.im[i]) == h.im[i] {
      P.TightenOfReduced(h.im[i]);
    }
    P.TightenOfReduced(h.fix);
    P.TightenCyclOfCyclicallyReduced(h.fix);
    if h.marked {
      forall i | 0 <= i < |h.mark| ensures P.TightenCycl(P.Tighten(h.mark[i])) == h.mark[i] {
        P.TightenOfReduced(h.mark[i]);
        P.TightenCyclOfCyclicallyReduced(h.mark[i]);
      }
    }
    assert Tightened(h).im == h.im;
    assert Tightened(h).mark == h.mark;
  }

  /** Tightening keeps a map well-formed. */
  lemma TightenedWellFormed(g: Graph)
    requires WellFormed(g)
    ensures WellFormed(Tightened(g))
  {
    var h := Tightened(g);
    forall i | 0 <= i < h.edges ensures P.LettersBelow(h.im[i], h.edges) {
      P.TightenLettersBelow(g.im[i], g.edges);
    }
    P.TightenLettersBelow(g.fix, g.edges);
    P.TightenCyclLettersBelow(P.Tighten(g.fix), g.edges);
    if g.marked {
      forall i | 0 <= i < |h.mark| ensures P.LettersBelow(h.mark[i], h.edges) {
        P.TightenLettersBelow(g.mark[i], g.edges);
        P.TightenCyclLettersBelow(P.Tighten(g.mark[i]), g.edges);
      }
    }
  }

  // ---- folds, joins and contractions ----

  /**
   * elementaryFold(e1, e2): two edges with one start and one image become one; e2
   * is renamed e1 everywhere, the two ends are identified, and e2 is removed.
   */
  function ElementaryFold(g: Graph, e1: nat, e2: nat): (r: Result<Graph>)
    requires Valid(g)
    ensures r.Ok? <==>
      e1 < g.edges && e2 < g.edges && (e1 == e2 || (g.im[e1] == g.im[e2] && g.start[e1] == g.start[e2]))
    ensures r.Ok? && e1 == e2 ==> r.value == g
  {
    if e1 >= g.edges || e2 >= g.edges then Err("nonexistent edge")
    else if e1 == e2 then Ok(g)
    else if g.im[e1] != g.im[e2] || g.start[e1] != g.start[e2] then Err("different images")
    else
      var g1 := RewriteAll(g, FoldOf(e2, e1));
      Ok(RemoveEntry(AdjustVertices(g1, g.end[e1], g.end[e2]), e2))
  }

  /**
   * A fold of two distinct edges keeps the map well-formed, removes one edge, and
   * loses a vertex exactly when the two ends differ.
   */
  lemma ElementaryFoldSpec(g: Graph, e1: nat, e2: nat)
    requires WellFormed(g) && ElementaryFold(g, e1, e2).Ok? && e1 != e2
    ensures var h := ElementaryFold(g, e1, e2).value;
      WellFormed(h) && h.edges == g.edges - 1 &&
      h.vertices == (if g.end[e1] == g.end[e2] then g.vertices else g.vertices - 1)
  {
    var g1 := RewriteAll(g, FoldOf(e2, e1));
    RewriteAllLetters(g, FoldOf(e2, e1), g.edges, g.edges);
    AdjustVerticesEndpoints(g1, g.end[e1], g.end[e2]);
    var a := AdjustVertices(g1, g.end[e1], g.end[e2]);
    assert WellFormed(a);
    RemoveEntryWellFormed(a, e2);
  }

  /**
   * What a fold of two distinct edges does to the words of the map: every edge in
   * use, the last one now in slot e2, has its image with e2 renamed e1 and then the
   * last edge renamed e2; the fixed word and every marked loop are renamed the same way.
   */
  lemma ElementaryFoldRenames(g: Graph, e1: nat, e2: nat)
    requires Valid(g) && ElementaryFold(g, e1, e2).Ok? && e1 != e2
    ensures var h := ElementaryFold(g, e1, e2).value;
      var last := g.edges - 1;
      (forall i :: 0 <= i < h.edges ==>
        h.im[i] == RenameEdge(RenameEdge(g.im[if i == e2 then last else i], e2, e1), last, e2)) &&
      h.fix == RenameEdge(RenameEdge(g.fix, e2, e1), last, e2) &&
      h.marked == g.marked && |h.mark| == |g.mark| &&
      (g.marked ==> forall i :: 0 <= i < |g.mark| ==> h.mark[i] == RenameEdge(RenameEdge(g.mark[i], e2, e1), last, e2))
  {
    var h := ElementaryFold(g, e1, e2).value;
    var last := g.edges - 1;
    assert h == RemoveEntry(AdjustVertices(RewriteAll(g, FoldOf(e2, e1)), g.end[e1], g.end[e2]), e2);
    forall i | 0 <= i < h.edges
      ensures h.im[i] == RenameEdge(RenameEdge(g.im[if i == e2 then last else i], e2, e1), last, e2)
    {
      FoldImageAt(g, e1, e2, g.end[e1], g.end[e2], i);
    }
    FoldWords(g, e1, e2, g.end[e1], g.end[e2]);
  }

  /** The fixed word and the marked loops after a fold that merges v1 and v2. */
  lemma FoldWords(g: Graph, e1: nat, e2: nat, v1: int, v2: int)
    requires Valid(g) && e1 < g.edges && e2 < g.edges && e1 != e2
    ensures var h := RemoveEntry(AdjustVertices(RewriteAll(g, FoldOf(e2, e1)), v1, v2), e2);
      var last := g.edges - 1;
      h.fix == RenameEdge(RenameEdge(g.fix, e2, e1), last, e2) &&
      h.marked == g.marked && |h.mark| == |g.mark| &&
      (g.marked ==> forall i :: 0 <= i < |g.mark| ==> h.mark[i] == RenameEdge(RenameEdge(g.mark[i], e2, e1), last, e2))
  {
    var last := g.edges - 1;
    var g1 := RewriteAll(g, FoldOf(e2, e1));
    var a := AdjustVertices(g1, v1, v2);
    assert a.fix == g1.fix && a.mark == g1.mark && a.marked == g.marked && a.edges == g.edges;
    RemoveEntryWords(a, e2);
    var h := RemoveEntry(a, e2);
    FoldRemoved(g.fix, e1, e2, last);
    if g.marked {
      forall i | 0 <= i < |g.mark| ensures h.mark[i] == RenameEdge(RenameEdge(g.mark[i], e2, e1), last, e2) {
        assert a.mark[i] == Apply(FoldOf(e2, e1), g.mark[i]);
        FoldRemoved(g.mark[i], e1, e2, last);
      }
    }
  }

  /** The image of one edge after a fold that merges v1 and v2. */
  lemma FoldImageAt(g: Graph, e1: nat, e2: nat, v1: int, v2: int, i: nat)
    requires Valid(g) && e1 < g.edges && e2 < g.edges && e1 != e2 && i < g.edges - 1
    ensures RemoveEntry(AdjustVertices(RewriteAll(g, FoldOf(e2, e1)), v1, v2), e2).im[i] ==
      RenameEdge(RenameEdge(g.im[if i == e2 then g.edges - 1 else i], e2, e1), g.edges - 1, e2)
  {
    var j, last := if i == e2 then g.edges - 1 else i, g.edges - 1;
    var g1 := RewriteAll(g, FoldOf(e2, e1));
    var a := AdjustVertices(g1, v1, v2);
    assert a.im == g1.im && a.edges == g.edges;
    RemoveEntryImage(a, e2, i);
    FoldRemoved(g.im[j], e1, e2, last);
  }

  /**
   * What a fold of two distinct edges does to the endpoints: every edge in use, the
   * last one now in slot e2, keeps its ends with the ends of the folded edges merged.
   */
  lemma ElementaryFoldEnds(g: Graph, e1: nat, e2: nat)
    requires Valid(g) && ElementaryFold(g, e1, e2).Ok? && e1 != e2
    ensures var h := ElementaryFold(g, e1, e2).value;
      forall i :: 0 <= i < h.edges ==>
        h.start[i] == Merge(g.end[e1], g.end[e2], g.start[if i == e2 then g.edges - 1 else i]) &&
        h.end[i] == Merge(g.end[e1], g.end[e2], g.end[if i == e2 then g.edges - 1 else i])
  {
    var g1 := RewriteAll(g, FoldOf(e2, e1));
    assert g1.start == g.start && g1.end == g.end && g1.edges == g.edges;
  }

  /** A fold's renaming followed by the removal of e2 is two renamings. */
  lemma FoldRemoved(p: P.Path, e1: Index, e2: Index, last: Index)
    requires e1 != e2
    ensures Apply(RemoveOf(e2, last), Apply(FoldOf(e2, e1), p)) == RenameEdge(RenameEdge(p, e2, e1), last, e2)
  {
    FoldLeavesNoLetter(p, e1, e2, last);
  }

  /** After the renaming of a fold no letter of e2 is left, so removing e2 only renames the last edge. */
  lemma FoldLeavesNoLetter(p: P.Path, e1: Index, e2: Index, last: Index)
    requires e1 != e2
    ensures forall i :: 0 <= i < |Apply(FoldOf(e2, e1), p)| ==> Apply(FoldOf(e2, e1), p)[i].index != e2
    ensures Apply(RemoveOf(e2, last), Apply(FoldOf(e2, e1), p)) == RenameEdge(RenameEdge(p, e2, e1), last, e2)
  {
    RenameEdgeLetters(p, e2, e1, MAXINDEX + 1);
    CollapseDeletes(RenameEdge(p, e2, e1), e2, last);
  }

  /** The number of edge ends at v among the first k edges (a loop counts twice). */
  function Valence(g: Graph, v: int, k: nat): nat
    requires Valid(g) && k <= g.edges
  {
    if k == 0 then 0
    else Valence(g, v, k - 1) + (if g.start[k - 1] == v then 1 else 0) + (if g.end[k - 1] == v then 1 else 0)
  }

  /** Reverse edge e when the condition holds. */
  function ReversedIf(g: Graph, e: nat, b: bool): (h: Graph)
    requires Valid(g) && e < g.edges
    ensures Valid(h) && h.edges == g.edges && h.vertices == g.vertices
    ensures h.start == (if b then g.start[e := g.end[e]] else g.start)
    ensures h.end == (if b then g.end[e := g.start[e]] else g.end)
  {
    if b then Reversed(g, e) else g
  }

  /** The orientations joinEdges tries before giving up: e1 ending where e2 starts. */
  function Oriented(g: Graph, e1: nat, e2: nat): (h: Graph)
    requires Valid(g) && e1 < g.edges && e2 < g.edges && e1 != e2
    ensures Valid(h) && h.edges == g.edges && h.vertices == g.vertices
  {
    var g1 := ReversedIf(g, e1, Valence(g, g.end[e1], g.edges) != 2);
    var g2 := ReversedIf(g1, e2, g1.start[e2] != g1.end[e1]);
    var g3 := ReversedIf(g2, e1, g2.start[e2] != g2.end[e1]);
    ReversedIf(g3, e2, g3.start[e2] != g3.end[e1])
  }

  lemma ReversedIfWellFormed(g: Graph, e: nat, b: bool)
    requires WellFormed(g) && e < g.edges
    ensures WellFormed(ReversedIf(g, e, b))
  {
    if b { ReversedWellFormed(g, e); }
  }

  /** Turning edges keeps a map well-formed. */
  lemma OrientedWellFormed(g: Graph, e1: nat, e2: nat)
    requires WellFormed(g) && e1 < g.edges && e2 < g.edges && e1 != e2
    ensures WellFormed(Oriented(g, e1, e2))
  {
    var g1 := ReversedIf(g, e1, Valence(g, g.end[e1], g.edges) != 2);
    ReversedIfWellFormed(g, e1, Valence(g, g.end[e1], g.edges) != 2);
    var g2 := ReversedIf(g1, e2, g1.start[e2] != g1.end[e1]);
    ReversedIfWellFormed(g1, e2, g1.start[e2] != g1.end[e1]);
    var g3 := ReversedIf(g2, e1, g2.start[e2] != g2.end[e1]);
    ReversedIfWellFormed(g2, e1, g2.start[e2] != g2.end[e1]);
    ReversedIfWellFormed(g3, e2, g3.start[e2] != g3.end[e1]);
  }

  /**
   * joinEdges(e1, e2), a valence-two homotopy: e1 and e2 are turned so that e1 ends
   * where e2 starts, e1 takes the image of the path e1 e2, and e2 is collapsed. A
   * failure after the turning leaves the turned map behind.
   */
  function JoinEdges(g: Graph, e1: nat, e2: nat): (r: (Graph, Outcome))
    requires Valid(g)
    ensures Valid(r.0)
    ensures r.1.Fail? && (e1 >= g.edges || e2 >= g.edges) ==> r.0 == g
    // two distinct edges are refused exactly when they have no endpoint in common
    ensures e1 < g.edges && e2 < g.edges && e1 != e2 ==>
      (r.1.Fail? <==>
         g.start[e1] != g.start[e2] && g.start[e1] != g.end[e2] &&
         g.end[e1] != g.start[e2] && g.end[e1] != g.end[e2])
    ensures r.1 == Pass && e1 != e2 ==> r.0.edges == g.edges - 1
  {
    if e1 >= g.edges || e2 >= g.edges then (g, Fail("nonexistent edge"))
    else if e1 == e2 then (g, Pass)
    else
      var g4 := Oriented(g, e1, e2);
      if g4.start[e2] != g4.end[e1] then (g4, Fail("edges not adjacent"))
      else (Collapsed(g4.(im := g4.im[e1 := g4.im[e1] + g4.im[e2]]), e2), Pass)
  }

  /** A successful join of two distinct edges keeps a map well-formed and removes one edge. */
  lemma JoinEdgesWellFormed(g: Graph, e1: nat, e2: nat)
    requires WellFormed(g) && e1 < g.edges && e2 < g.edges && e1 != e2
    requires JoinEdges(g, e1, e2).1 == Pass
    ensures WellFormed(JoinEdges(g, e1, e2).0) && JoinEdges(g, e1, e2).0.edges == g.edges - 1
  {
    OrientedWellFormed(g, e1, e2);
    var g4 := Oriented(g, e1, e2);
    var g5 := g4.(im := g4.im[e1 := g4.im[e1] + g4.im[e2]]);
    assert WellFormed(g5);
    CollapseEdgeSpec(g5, e2);
  }

  /** The image of edge i after contractEdge(ed) moves the end vertex of ed onto its start. */
  function Attached(g: Graph, ed: nat, i: nat): P.Path
    requires Valid(g) && ed < g.edges && i < g.edges
  {
    var a := if g.start[i] == g.end[ed] then g.im[ed] + g.im[i] else g.im[i];
    if g.end[i] == g.end[ed] then a + P.Reverse(g.im[ed]) else a
  }

  /**
   * contractEdge(ed): an edge with distinct ends shrinks to a point; every edge at its
   * end takes the image of ed before (or its inverse after), ed gets the empty
   * image and is collapsed, and the map is tightened.
   */
  function ContractEdge(g: Graph, ed: nat): (r: Result<Graph>)
    requires Valid(g)
    ensures r.Ok? <==> ed < g.edges && g.start[ed] != g.end[ed]
  {
    if ed >= g.edges then Err("index too large")
    else if g.start[ed] == g.end[ed] then Err("endpoints have to be distinct")
    else Ok(Tightened(Collapsed(g.(im := Attach(g, ed)), ed)))
  }

  /** All images after the attaching step of contractEdge. */
  function Attach(g: Graph, ed: nat): (im: seq<P.Path>)
    requires Valid(g) && ed < g.edges
    ensures |im| == |g.im|
  {
    seq(|g.im|, i requires 0 <= i < |g.im| =>
      if i == ed then [] else if i < g.edges then Attached(g, ed, i) else g.im[i])
  }

  /** Contracting an edge with distinct ends keeps a map well-formed and loses one edge and one vertex. */
  lemma ContractEdgeSpec(g: Graph, ed: nat)
    requires WellFormed(g) && ed < g.edges && g.start[ed] != g.end[ed]
    ensures var h := ContractEdge(g, ed).value;
      WellFormed(h) && h.edges == g.edges - 1 && h.vertices == g.vertices - 1 &&
      forall i :: 0 <= i < h.edges ==> P.Reduced(h.im[i])
  {
    var g1 := g.(im := Attach(g, ed));
    forall i | 0 <= i < g.edges ensures P.LettersBelow(g1.im[i], g.edges) {
      P.ReverseLettersBelow(g.im[ed], g.edges);
    }
    assert WellFormed(g1);
    CollapseEdgeSpec(g1, ed);
    TightenedWellFormed(Collapsed(g1, ed));
    TightenedReduced(Collapsed(g1, ed));
  }

  // ---- size ----

  /** The total length of the first k paths of s. */
  function SumLengths(s: seq<P.Path>, k: nat): nat
    requires k <= |s|
  {
    if k == 0 then 0 else SumLengths(s, k - 1) + |s[k - 1]|
  }

  /** size: the sum of the lengths of the images of the edges in use. */
  function Size(g: Graph): nat
    requires Valid(g)
  {
    SumLengths(g.im, g.edges)
  }

  /** A map has size zero exactly when every image is empty. */
  lemma {:induction false} SizeZero(s: seq<P.Path>, k: nat)
    requires k <= |s|
    ensures SumLengths(s, k) == 0 <==> forall i :: 0 <= i < k ==> s[i] == []
  {
    if k > 0 {
      SizeZero(s, k - 1);
    }
  }

  /** Paths that are no longer, one by one, have no larger total. */
  lemma {:induction false} SumLengthsMono(s: seq<P.Path>, t: seq<P.Path>, k: nat)
    requires k <= |s| && k <= |t|
    requires forall i :: 0 <= i < k ==> |t[i]| <= |s[i]|
    ensures SumLengths(t, k) <= SumLengths(s, k)
  {
    if k > 0 {
      SumLengthsMono(s, t, k - 1);
    }
  }

  /** Replacing one path changes the total by the difference of lengths. */
  lemma {:induction false} SumLengthsUpdate(s: seq<P.Path>, j: nat, x: P.Path, k: nat)
    requires j < k <= |s|
    ensures SumLengths(s[j := x], k) + |s[j]| == SumLengths(s, k) + |x|
  {
    if j < k - 1 {
      SumLengthsUpdate(s, j, x, k - 1);
    } else {
      SumLengthsMono(s, s[j := x], k - 1);
      SumLengthsMono(s[j := x], s, k - 1);
    }
  }

  /** Removing an entry takes the length of its image off the size, and the rewriting removes no more than that. */
  lemma RemoveEntrySize(g: Graph, ed: nat)
    requires Valid(g) && ed < g.edges
    ensures Size(RemoveEntry(g, ed)) + |g.im[ed]| <= Size(g)
  {
    var m := MoveLast(g, ed);
    var last := g.edges - 1;
    SumLengthsUpdate(g.im, ed, g.im[last], g.edges);
    assert Size(m) + |g.im[ed]| == Size(g);
    var h := RemoveEntry(g, ed);
    forall i | 0 <= i < last ensures |h.im[i]| <= |m.im[i]| {
      RemoveShortens(m.im[i], ed, last);
    }
    SumLengthsMono(m.im, h.im, last);
  }

  /** Collapsing an edge with an empty image does not make the map larger. */
  lemma CollapsedSize(g: Graph, ed: nat)
    requires Valid(g) && ed < g.edges && g.im[ed] == []
    ensures Size(Collapsed(g, ed)) <= Size(g)
  {
    var a := AdjustVertices(g, g.start[ed], g.end[ed]);
    assert a.im == g.im && a.edges == g.edges;
    RemoveEntrySize(a, ed);
  }

  // ---- tightenVertex ----

  /**
   * The darts (oriented ends of edges) at v among the first k edges, in the order
   * tightenVertex visits them: the start of an edge as the forward letter, its end
   * as the backward letter.
   */
  function Darts(g: Graph, v: int, k: nat): (ds: seq<Sym>)
    requires Valid(g) && k <= g.edges
    ensures forall i :: 0 <= i < |ds| ==> ds[i].index < k
    ensures forall i :: 0 <= i < |ds| ==> (if ds[i].inv then g.end[ds[i].index] else g.start[ds[i].index]) == v
  {
    if k == 0 then []
    else
      Darts(g, v, k - 1) + (if g.start[k - 1] == v then [Sym(k - 1, false)] else [])
        + (if g.end[k - 1] == v then [Sym(k - 1, true)] else [])
  }

  /** Every end of an edge at v is a dart at v. */
  lemma {:induction false} DartsComplete(g: Graph, v: int, k: nat, j: nat)
    requires Valid(g) && j < k <= g.edges
    ensures g.start[j] == v ==> Sym(j, false) in Darts(g, v, k)
    ensures g.end[j] == v ==> Sym(j, true) in Darts(g, v, k)
  {
    if j < k - 1 {
      DartsComplete(g, v, k - 1, j);
    }
  }

  /**
   * The condition under which tightenVertex chops at v: every edge at v has a
   * non-empty image and D takes one value on all darts at v. It holds vacuously at
   * a vertex without darts.
   */
  predicate ConstantAround(g: Graph, v: int)
    requires Valid(g)
  {
    ConstantOn(g, Darts(g, v, g.edges))
  }

  /** Every dart of ds has a non-empty image and D takes one value on them. */
  predicate ConstantOn(g: Graph, ds: seq<Sym>)
    requires Valid(g) && forall i :: 0 <= i < |ds| ==> ds[i].index < g.edges
  {
    (forall i :: 0 <= i < |ds| ==> g.im[ds[i].index] != []) &&
    (forall i :: 0 <= i < |ds| ==> D(g, ds[i]) == D(g, ds[0]))
  }

  /** A failure on some darts is a failure on every longer list of darts. */
  lemma ConstantOnPrefix(g: Graph, a: seq<Sym>, b: seq<Sym>)
    requires Valid(g) && a <= b && forall i :: 0 <= i < |b| ==> b[i].index < g.edges
    ensures ConstantOn(g, b) ==> ConstantOn(g, a)
  {
    if ConstantOn(g, b) && a != [] {
      assert a[0] == b[0];
    }
  }

  /** The darts found among the first j edges come first among the darts of the first k. */
  lemma {:induction false} DartsPrefix(g: Graph, v: int, j: nat, k: nat)
    requires Valid(g) && j <= k <= g.edges
    ensures Darts(g, v, j) <= Darts(g, v, k)
    decreases k - j
  {
    if j < k {
      DartsPrefix(g, v, j, k - 1);
    }
  }

  /** An image can lose its first letter (front) and its last letter (back). */
  predicate ChopFits(p: P.Path, front: bool, back: bool)
  {
    (if front then 1 else 0) + (if back then 1 else 0) <= |p|
  }

  function ChopEnds(p: P.Path, front: bool, back: bool): (q: P.Path)
    requires ChopFits(p, front, back)
    ensures |q| + (if front then 1 else 0) + (if back then 1 else 0) == |p|
    ensures forall i :: 0 <= i < |q| ==> q[i] == p[i + (if front then 1 else 0)]
  {
    var q := if front then p[1..] else p;
    if back then q[..|q| - 1] else q
  }

  /** Every image at v can lose the letter at each of its ends at v. */
  predicate ChopOK(g: Graph, v: int)
    requires Valid(g)
  {
    forall i :: 0 <= i < g.edges ==> ChopFits(g.im[i], g.start[i] == v, g.end[i] == v)
  }

  /** A constant derivative at v leaves room to chop: a loop at v has an image of two letters or more. */
  lemma ConstantChopOK(g: Graph, v: int)
    requires Valid(g) && ConstantAround(g, v)
    ensures ChopOK(g, v)
  {
    var ds := Darts(g, v, g.edges);
    forall i | 0 <= i < g.edges ensures ChopFits(g.im[i], g.start[i] == v, g.end[i] == v) {
      DartsComplete(g, v, g.edges, i);
      if g.start[i] == v && g.end[i] == v {
        var k1 :| 0 <= k1 < |ds| && ds[k1] == Sym(i, false);
        var k2 :| 0 <= k2 < |ds| && ds[k2] == Sym(i, true);
        assert D(g, ds[k1]) == D(g, ds[k2]);
        assert D(g, ds[k1]) == g.im[i][0];
        assert D(g, ds[k2]) == Inv(g.im[i][|g.im[i]| - 1]);
      } else if g.start[i] == v {
        var k1 :| 0 <= k1 < |ds| && ds[k1] == Sym(i, false);
      } else if g.end[i] == v {
        var k2 :| 0 <= k2 < |ds| && ds[k2] == Sym(i, true);
      }
    }
  }

  /** The chopping step at v: every image loses its letters at its ends at v. */
  function Chopped(g: Graph, v: int): (h: Graph)
    requires Valid(g) && ChopOK(g, v)
    ensures Valid(h) && h.edges == g.edges && h.vertices == g.vertices
    ensures h.start == g.start && h.end == g.end && h.fix == g.fix && h.mark == g.mark
    ensures forall i :: 0 <= i < g.edges ==> h.im[i] == ChopEnds(g.im[i], g.start[i] == v, g.end[i] == v)
  {
    g.(im := seq(|g.im|, i requires 0 <= i < |g.im| =>
      if i < g.edges then ChopEnds(g.im[i], g.start[i] == v, g.end[i] == v) else g.im[i]))
  }

  /** The number of ends of edge j at v: two for a loop at v. */
  function Ends(g: Graph, v: int, j: nat): nat
    requires Valid(g) && j < g.edges
  {
    (if g.start[j] == v then 1 else 0) + (if g.end[j] == v then 1 else 0)
  }

  lemma {:induction false} DartsCount(g: Graph, v: int, k: nat)
    requires Valid(g) && 0 < k <= g.edges
    ensures |Darts(g, v, k)| == |Darts(g, v, k - 1)| + Ends(g, v, k - 1)
  {
  }

  /** Images that lose Ends letters each lose |Darts| letters in all. */
  lemma {:induction false} SumLengthsLoss(g: Graph, t: seq<P.Path>, v: int, k: nat)
    requires Valid(g) && k <= g.edges && k <= |t|
    requires forall i :: 0 <= i < k ==> |t[i]| + Ends(g, v, i) == |g.im[i]|
    ensures SumLengths(t, k) + |Darts(g, v, k)| == SumLengths(g.im, k)
  {
    if k > 0 {
      SumLengthsLoss(g, t, v, k - 1);
      DartsCount(g, v, k);
    }
  }

  /** Chopping at v removes exactly one letter per dart at v. */
  lemma ChoppedSize(g: Graph, v: int)
    requires Valid(g) && ChopOK(g, v)
    ensures Size(Chopped(g, v)) + |Darts(g, v, g.edges)| == Size(g)
  {
    var h := Chopped(g, v);
    forall i | 0 <= i < g.edges ensures |h.im[i]| + Ends(g, v, i) == |g.im[i]| {
      assert h.im[i] == ChopEnds(g.im[i], g.start[i] == v, g.end[i] == v);
    }
    SumLengthsLoss(g, h.im, v, g.edges);
  }

  /**
   * The vertex pass of tightenVertex over the vertices from v on, each seeing the
   * images chopped at the vertices before it, and whether it chopped anywhere. With
   * strict, a vertex without darts is passed over (the corrected behaviour); without,
   * it counts as a chop, as the source does.
   */
  function VertexPass(g: Graph, v: nat, strict: bool): (r: (Graph, bool))
    requires Valid(g)
    ensures Valid(r.0) && r.0.edges == g.edges && r.0.vertices == g.vertices
    ensures r.0.start == g.start && r.0.end == g.end && r.0.fix == g.fix && r.0.mark == g.mark
    decreases if v <= g.vertices then g.vertices - v else 0
  {
    if v >= g.vertices then (g, false)
    else
      var hit := ConstantAround(g, v) && (strict ==> |Darts(g, v, g.edges)| > 0);
      var g1 := if hit then ConstantChopOK(g, v); Chopped(g, v) else g;
      var r := VertexPass(g1, v + 1, strict);
      (r.0, hit || r.1)
  }

  /** The closing loop of tightenVertex: every edge from i on with an empty image is collapsed. */
  function CollapseEmpty(g: Graph, i: nat): (h: Graph)
    requires Valid(g) && i <= g.edges
    ensures Valid(h) && h.edges <= g.edges
    decreases g.edges - i
  {
    if i == g.edges then g
    else if g.im[i] == [] then CollapseEmpty(Collapsed(g, i), i)
    else CollapseEmpty(g, i + 1)
  }

  /** tightenVertex (strict = false) and its corrected form (strict = true): the new map and the flag. */
  function TightenVertex(g: Graph, strict: bool): (r: (Graph, bool))
    requires Valid(g)
    ensures Valid(r.0)
  {
    var p := VertexPass(g, 0, strict);
    (CollapseEmpty(p.0, 0), p.1)
  }

  /** No collapse of an empty image makes the map larger. */
  lemma {:induction false} CollapseEmptySize(g: Graph, i: nat)
    requires Valid(g) && i <= g.edges
    ensures Size(CollapseEmpty(g, i)) <= Size(g)
    decreases g.edges - i
  {
    if i < g.edges {
      if g.im[i] == [] {
        CollapsedSize(g, i);
        CollapseEmptySize(Collapsed(g, i), i);
      } else {
        CollapseEmptySize(g, i + 1);
      }
    }
  }

  /** In the corrected pass every reported chop removes at least one letter. */
  lemma {:induction false} VertexPassSize(g: Graph, v: nat)
    requires Valid(g)
    ensures Size(VertexPass(g, v, true).0) + (if VertexPass(g, v, true).1 then 1 else 0) <= Size(g)
    decreases if v <= g.vertices then g.vertices - v else 0
  {
    if v < g.vertices {
      var hit := ConstantAround(g, v) && |Darts(g, v, g.edges)| > 0;
      if hit {
        ConstantChopOK(g, v);
        ChoppedSize(g, v);
        VertexPassSize(Chopped(g, v), v + 1);
      } else {
        VertexPassSize(g, v + 1);
      }
    }
  }

  /**
   * The corrected tightenVertex never makes a map larger and makes it strictly
   * smaller whenever it reports a change, so repeating it while it reports a change
   * ends.
   */
  lemma TightenVertexShrinks(g: Graph)
    requires Valid(g)
    ensures Size(TightenVertex(g, true).0) <= Size(g)
    ensures TightenVertex(g, true).1 ==> Size(TightenVertex(g, true).0) < Size(g)
  {
    VertexPassSize(g, 0);
    var p := VertexPass(g, 0, true);
    CollapseEmptySize(p.0, 0);
  }

  /** A map with one vertex and no edges. */
  function BareVertex(): Graph
  {
    Graph(0, 1, [], [], [], [], false, [], [], "")
  }

  /**
   * As written, tightenVertex reports a change at a vertex without edges while
   * changing nothing, so tightenPlus, which repeats tightenVertex while it reports a
   * change, never ends on such a map;
   * the corrected form reports no change.
   */
  lemma TightenVertexIsolatedVertex()
    ensures TightenVertex(BareVertex(), false) == (BareVertex(), true)
    ensures TightenVertex(BareVertex(), true) == (BareVertex(), false)
  {
    var g := BareVertex();
    assert Darts(g, 0, 0) == [];
    assert Chopped(g, 0) == g;
  }

  /** As written, any map with a vertex without darts makes tightenVertex report a change. */
  lemma {:induction false} IsolatedVertexReportsChange(g: Graph, u: nat, v: int)
    requires Valid(g) && u <= v < g.vertices && Darts(g, v, g.edges) == []
    ensures VertexPass(g, u, false).1
    decreases v - u
  {
    if u < v && !ConstantAround(g, u) {
      IsolatedVertexReportsChange(g, u + 1, v);
    } else if u < v {
      ConstantChopOK(g, u);
      var g1 := Chopped(g, u);
      assert Darts(g1, v, g1.edges) == Darts(g, v, g.edges) by {
        DartsSameEnds(g, g1, v, g.edges);
      }
    }
  }

  /** Darts depend only on the endpoints. */
  lemma {:induction false} DartsSameEnds(g: Graph, h: Graph, v: int, k: nat)
    requires Valid(g) && Valid(h) && k <= g.edges && k <= h.edges
    requires g.start == h.start && g.end == h.end
    ensures Darts(g, v, k) == Darts(h, v, k)
  {
    if k > 0 {
      DartsSameEnds(g, h, v, k - 1);
    }
  }

  // ---- identities ----

  /** identity(): every edge in use mapped to itself. */
  function Identity(g: Graph): (h: Graph)
    requires Valid(g)
    ensures Valid(h)
  {
    g.(im := seq(|g.im|, i requires 0 <= i < |g.im| => if i < g.edges then [Sym(i, false)] else g.im[i]))
  }

  /** Under the identity a word on the edges in use unfolds to itself. */
  lemma {:induction false} IdentityUnfold(g: Graph, w: P.Path)
    requires Valid(g) && P.LettersBelow(w, g.edges)
    ensures Unfold(Identity(g), w) == w
    decreases |w|
  {
    if w != [] {
      IdentityUnfold(g, w[1..]);
      assert w == [w[0]] + w[1..];
    }
  }

  /** The identity maps every word on the edges in use to its tightened form. */
  lemma IdentityMapWord(g: Graph, w: P.Path)
    requires Valid(g) && P.LettersBelow(w, g.edges)
    ensures MapWord(Identity(g), w) == Some(P.Tighten(w))
  {
    IdentityUnfold(g, w);
  }

  // ---- roses ----

  /**
   * k petal edges, each from v to v and mapped to itself, in buffers of capacity
   * cap (blank slots after them), with fixed word fix; the vertex count is the one
   * addEdge(v, v, ...) leaves behind.
   */
  function Rose(cap: nat, k: nat, v: int, fix: P.Path): (g: Graph)
    requires k <= cap <= MAXINDEX
    ensures Valid(g) && Capacity(g) == cap && g.edges == k && g.fix == fix && !g.marked
  {
    Graph(k, if k > 0 && v >= 0 then v + 1 else 0,
          seq(cap, i requires 0 <= i < cap => if i < k then [Sym(i, false)] else []),
          seq(cap, i => if i < k then v else 0), seq(cap, i => if i < k then v else 0),
          fix, false, [], [], "")
  }

  /** init(cap) is the rose without petals, and addEdge(v, v, the new edge) adds one petal. */
  lemma RoseAdd(cap: nat, k: nat, v: int)
    requires k < cap <= MAXINDEX && v >= -1
    ensures Init(cap) == Ok(Rose(cap, 0, v, []))
    ensures AddEdge(Rose(cap, k, v, []), v, v, [Sym(k, false)]) == Ok(Rose(cap, k + 1, v, []))
  {
    var g, h, z := Rose(cap, k, v, []), Rose(cap, k + 1, v, []), Rose(cap, 0, v, []);
    assert z.im == Init(cap).value.im && z.start == Init(cap).value.start && z.end == Init(cap).value.end;
    assert g.im[k := [Sym(k, false)]] == h.im;
    assert g.start[k := v] == h.start;
    assert g.end[k := v] == h.end;
  }

  /** The rose at vertex 0 is a well-formed map and the identity: a word maps to its tightened form. */
  lemma RoseIdentity(cap: nat, k: nat, fix: P.Path, w: P.Path)
    requires k <= cap <= MAXINDEX && P.LettersBelow(fix, k) && P.LettersBelow(w, k)
    ensures WellFormed(Rose(cap, k, 0, fix))
    ensures MapWord(Rose(cap, k, 0, fix), w) == Some(P.Tighten(w))
  {
    var g := Rose(cap, k, 0, fix);
    assert Identity(g) == g;
    IdentityMapWord(g, w);
  }

  /** identity(n): the rose with n petals at vertex 0 and no fixed word; init(2n) refuses more than MAXINDEX. */
  function IdentityRose(n: nat): (r: Result<Graph>)
    ensures r.Ok? <==> 2 * n <= MAXINDEX
    ensures r.Ok? ==> r.value.edges == n && r.value.fix == []
  {
    if 2 * n > MAXINDEX then Err("too many edges") else Ok(Rose(2 * n, n, 0, []))
  }

  /** setFirstVertex(c, v): the endpoint where c starts becomes v. */
  function SetFirst(g: Graph, c: Sym, v: int): (h: Graph)
    requires Valid(g) && c.index < Capacity(g)
    ensures Valid(h) && Capacity(h) == Capacity(g)
  {
    if c.inv then g.(end := g.end[c.index := v]) else g.(start := g.start[c.index := v])
  }

  /** setFirstVertex(c, v) changes where c starts and nothing else: every other letter keeps its first vertex. */
  lemma SetFirstOnly(g: Graph, c: Sym, v: int, x: Sym)
    requires Valid(g) && c.index < Capacity(g)
    ensures FirstVertex(SetFirst(g, c, v), x) == if x == c then Some(v) else FirstVertex(g, x)
  {
  }

  /** The number of the first k letters of w whose first vertex is still unassigned (negative). */
  function Unset(g: Graph, w: P.Path, k: nat): (n: nat)
    requires Valid(g) && k <= |w|
    ensures n <= k
  {
    if k == 0 then 0
    else Unset(g, w, k - 1) + (if Unassigned(g, w[k - 1]) then 1 else 0)
  }

  predicate Unassigned(g: Graph, c: Sym)
    requires Valid(g)
  {
    FirstVertex(g, c).Some? && FirstVertex(g, c).value < 0
  }

  /** Assigning a vertex to an unassigned letter w[i] lowers the count of every prefix containing i. */
  lemma {:induction false} UnsetDrops(g: Graph, w: P.Path, k: nat, i: nat, v: int)
    requires Valid(g) && k <= |w| && i < |w| && w[i].index < Capacity(g) && v >= 0
    requires Unassigned(g, w[i])
    ensures Unset(SetFirst(g, w[i], v), w, k) <= Unset(g, w, k)
    ensures i < k ==> Unset(SetFirst(g, w[i], v), w, k) < Unset(g, w, k)
  {
    if k > 0 {
      UnsetDrops(g, w, k - 1, i, v);
      SetFirstOnly(g, w[i], v, w[k - 1]);
    }
  }

  /** An unassigned letter among the first k is counted. */
  lemma {:induction false} UnsetCounts(g: Graph, w: P.Path, k: nat, i: nat)
    requires Valid(g) && i < k <= |w| && Unassigned(g, w[i])
    ensures Unset(g, w, k) >= 1
  {
    if i < k - 1 {
      UnsetCounts(g, w, k - 1, i);
    }
  }
}
