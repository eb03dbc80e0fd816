/**
 * readGraph (GraphMap.java) as a function of the token sequence of its input, and
 * the token sequence of the text toString writes, with the round trip between them.
 *
 * The input format: the number of edges, the number of vertices, then for each edge
 * its label, its start and end vertex (v0, v1, ...) and its image; then optionally
 * the fixed word, and sections "label" (a name) and "marking" (a count followed by
 * that many pairs of a label and a loop).
 */
module Reading {
  import opened Wrappers
  import opened Letters
  import opened Numerals
  import opened Tokens
  import P = Paths
  import G = Graphs

  const LABELTAG := "label"
  const MARKINGTAG := "marking"

  /** The message of the NumberFormatException stringToPath lets through. */
  const BADNUMBER := "number format error"

  /** labelToVertex: Integer.parseInt of the text after the first character. */
  function LabelToVertex(s: string): (r: Result<int>)
    ensures r.Ok? <==> |s| > 0 && ParseInt(s[1..]).Some?
    ensures r.Ok? ==> r.value == ParseInt(s[1..]).value
  {
    if |s| == 0 then Err("string index out of range")
    else match ParseInt(s[1..])
      case None => Err("For input string: \"" + s[1..] + "\"")
      case Some(v) => Ok(v)
  }

  /** stringToPath, with its exception as an error. */
  function ReadPath(s: string): (r: Result<P.Path>)
    ensures r.Ok? <==> StringToPath(s).Some?
    ensures r.Ok? ==> r.value == StringToPath(s).value
  {
    match StringToPath(s)
    case None => Err(BADNUMBER)
    case Some(p) => Ok(p)
  }

  /** nextString where the input may not end: the word and the position after it. */
  function Expect(toks: seq<Token>, pos: nat): (r: Result<(string, nat)>)
    requires pos <= |toks|
    ensures r.Ok? <==> NextWord(toks, pos).0.Some?
    ensures r.Ok? ==> r.value == (NextWord(toks, pos).0.value, NextWord(toks, pos).1) && pos < r.value.1
    ensures r.Err? ==> r.msg == "unexpected end of input"
  {
    var w := NextWord(toks, pos);
    if w.0.None? then Err("unexpected end of input") else Ok((w.0.value, w.1))
  }

  /** The edges read so far: starts, ends and images, one entry per edge. */
  datatype Edges = Edges(start: seq<int>, end: seq<int>, im: seq<P.Path>)

  /** n edges, all of whose endpoints are below vertices. */
  predicate EdgesOK(e: Edges, n: nat, vertices: int)
  {
    |e.start| == n && |e.end| == n && |e.im| == n &&
    forall k :: 0 <= k < n ==> 0 <= e.start[k] < vertices && 0 <= e.end[k] < vertices
  }

  /**
   * The four words of edge i: its label (which must be the label of i), its start and
   * its end (which must be vertices) and its image.
   */
  function ReadEdge(toks: seq<Token>, pos: nat, i: Index, vertices: int): (r: Result<(int, int, P.Path, nat)>)
    requires pos <= |toks|
    ensures r.Ok? ==> pos < r.value.3 <= |toks| && 0 <= r.value.0 < vertices && 0 <= r.value.1 < vertices
    ensures r.Ok? ==> NextWord(toks, pos).0 == Some(IndexToLabel(i, false))
  {
    var w1 :- Expect(toks, pos);
    if w1.0 != IndexToLabel(i, false) then Err("bad edge label: " + w1.0)
    else ReadEdgeRest(toks, w1.1, vertices)
  }

  /** The start, the end and the image of an edge, after its label. */
  function ReadEdgeRest(toks: seq<Token>, pos: nat, vertices: int): (r: Result<(int, int, P.Path, nat)>)
    requires pos <= |toks|
    ensures r.Ok? ==> pos < r.value.3 <= |toks| && 0 <= r.value.0 < vertices && 0 <= r.value.1 < vertices
  {
    var w2 :- Expect(toks, pos);
    var a :- LabelToVertex(w2.0);
    if a < 0 || a >= vertices then Err("bad vertex number " + IntToString(a))
    else
      var w3 :- Expect(toks, w2.1);
      var b :- LabelToVertex(w3.0);
      if b < 0 || b >= vertices then Err("bad vertex number: " + IntToString(b))
      else
        var w4 :- Expect(toks, w3.1);
        var p :- ReadPath(w4.0);
        Ok((a, b, p, w4.1))
  }

  /** Edges i, ..., n - 1 after the edges acc, and the position after them. */
  function ReadEdges(toks: seq<Token>, pos: nat, i: nat, n: nat, vertices: int, acc: Edges): (r: Result<(Edges, nat)>)
    requires pos <= |toks| && i <= n <= MAXINDEX && EdgesOK(acc, i, vertices)
    ensures r.Ok? ==> pos <= r.value.1 <= |toks| && EdgesOK(r.value.0, n, vertices)
    decreases n - i
  {
    if i == n then Ok((acc, pos))
    else
      var e :- ReadEdge(toks, pos, i, vertices);
      ReadEdges(toks, e.3, i + 1, n, vertices, Edges(acc.start + [e.0], acc.end + [e.1], acc.im + [e.2]))
  }

  /** Marked loops i, ..., n - 1: a label and a loop each. */
  function ReadMarks(toks: seq<Token>, pos: nat, i: nat, n: nat, mark: seq<P.Path>, ml: seq<string>)
    : (r: Result<(seq<P.Path>, seq<string>, nat)>)
    requires pos <= |toks| && i <= n && |mark| == i && |ml| == i
    ensures r.Ok? ==> pos <= r.value.2 <= |toks| && |r.value.0| == n && |r.value.1| == n
    decreases n - i
  {
    if i == n then Ok((mark, ml, pos))
    else
      var l :- Expect(toks, pos);
      var w :- Expect(toks, l.1);
      var p :- ReadPath(w.0);
      ReadMarks(toks, w.1, i + 1, n, mark + [p], ml + [l.0])
  }

  /** What the sections after the edges and the fixed word set. */
  datatype Extras = Extras(name: string, marked: bool, mark: seq<P.Path>, marklabel: seq<string>)

  /** One section, started by the word s: a label, a marking, or a word that is skipped. */
  function ReadSection(toks: seq<Token>, s: string, pos: nat, x: Extras): (r: Result<(Extras, nat)>)
    requires pos <= |toks|
    ensures r.Ok? ==> pos <= r.value.1 <= |toks|
    ensures r.Ok? && s != LABELTAG && s != MARKINGTAG ==> r.value == (x, pos)
    ensures r.Ok? && s != MARKINGTAG ==> r.value.0.mark == x.mark && r.value.0.marklabel == x.marklabel
    ensures r.Ok? && s == MARKINGTAG ==> r.value.0.marked && |r.value.0.mark| == |r.value.0.marklabel|
  {
    if s == LABELTAG then
      var l :- Expect(toks, pos);
      Ok((x.(name := l.0), l.1))
    else if s == MARKINGTAG then
      var n := NextNumber(toks, pos);
      if n.0 < 0 then Err("unexpected end of input")
      else
        var m :- ReadMarks(toks, n.1, 0, n.0, [], []);
        Ok((x.(marked := true, mark := m.0, marklabel := m.1), m.2))
    else Ok((x, pos))
  }

  /** The sections from the word s on, up to the end of the input. */
  function ReadSections(toks: seq<Token>, s: string, pos: nat, x: Extras): (r: Result<Extras>)
    requires pos <= |toks| && |x.mark| == |x.marklabel|
    ensures r.Ok? ==> |r.value.mark| == |r.value.marklabel|
    decreases |toks| - pos
  {
    var y :- ReadSection(toks, s, pos, x);
    var w := NextWord(toks, y.1);
    if w.0.None? then Ok(y.0) else ReadSections(toks, w.0.value, w.1, y.0)
  }

  /** Nothing set yet: no label, no marking. */
  const NOEXTRAS := Extras("", false, [], [])

  /** The sections from the word w (with the position after it) on; none when w is missing. */
  function ReadExtras(toks: seq<Token>, w: (Option<string>, nat)): (r: Result<Extras>)
    requires w.1 <= |toks|
    ensures r.Ok? ==> |r.value.mark| == |r.value.marklabel|
  {
    match w.0
    case None => Ok(NOEXTRAS)
    case Some(s) => ReadSections(toks, s, w.1, NOEXTRAS)
  }

  /** The map readGraph reads from toks, or the message of the exception it throws. */
  function ReadGraph(toks: seq<Token>, strict: bool): (r: Result<G.Graph>)
    ensures r.Ok? ==> G.Valid(r.value) && G.EndpointsOK(r.value)
    ensures r.Ok? ==> G.Capacity(r.value) == 4 * r.value.edges && 0 <= r.value.vertices <= 2 * r.value.edges
    ensures r.Ok? && strict ==> G.GoodMap(r.value)
  {
    var g :- ReadMap(toks);
    if strict && G.IsGoodMap(g).Fail? then Err(G.IsGoodMap(g).msg)
    else
      assert strict ==> G.GoodMap(g) by {
        G.IsGoodMapMeans(g);
      }
      Ok(g)
  }

  /** readGraph before the strict check: the two counts, then the body, in init(4 * edges). */
  function ReadMap(toks: seq<Token>): (r: Result<G.Graph>)
    ensures r.Ok? ==> G.Valid(r.value) && G.EndpointsOK(r.value)
    ensures r.Ok? ==> G.Capacity(r.value) == 4 * r.value.edges && 0 <= r.value.vertices <= 2 * r.value.edges
  {
    var ed := NextNumber(toks, 0);
    if ed.0 < 0 || ed.0 > MAXINDEX then Err("no of edges to small or too large")
    else if 4 * ed.0 > MAXINDEX then Err("too many edges")
    else
      var v := NextNumber(toks, ed.1);
      if v.0 < 0 || v.0 > 2 * ed.0 then Err("no of vertices to small or too large")
      else
        var b :- ReadBody(toks, v.1, ed.0, v.0);
        Ok(Built(ed.0, v.0, b.0, b.1, b.2))
  }

  /** What follows the two counts: the edges, the fixed word and the sections. */
  function ReadBody(toks: seq<Token>, pos: nat, ed: nat, v: int): (r: Result<(Edges, P.Path, Extras)>)
    requires pos <= |toks| && ed <= MAXINDEX
    ensures r.Ok? ==> EdgesOK(r.value.0, ed, v)
  {
    var es :- ReadEdges(toks, pos, 0, ed, v, Edges([], [], []));
    var w := NextWord(toks, es.1);
    var fx :- ReadFix(toks, w.0, w.1);
    var x :- ReadExtras(toks, fx.1);
    Ok((es.0, fx.0, x))
  }

  /** A first word after the edges that is no section tag is the fixed word; then the next word. */
  function ReadFix(toks: seq<Token>, s: Option<string>, pos: nat): (r: Result<(P.Path, (Option<string>, nat))>)
    requires pos <= |toks|
    ensures r.Ok? ==> r.value.1.1 <= |toks|
  {
    if s.Some? && s.value != LABELTAG && s.value != MARKINGTAG then
      var f :- ReadPath(s.value);
      Ok((f, NextWord(toks, pos)))
    else Ok(([], (s, pos)))
  }

  /** The map init(4 * ed) leaves after reading the edges es, the fixed word and the sections. */
  function Built(ed: nat, v: int, es: Edges, fix: P.Path, x: Extras): (g: G.Graph)
    requires 4 * ed <= MAXINDEX && EdgesOK(es, ed, v)
    ensures G.Valid(g) && G.EndpointsOK(g) && G.Capacity(g) == 4 * ed && g.edges == ed
  {
    var blank := 3 * ed;
    G.Graph(ed, v, es.im + seq(blank, _ => []), es.start + seq(blank, _ => 0), es.end + seq(blank, _ => 0),
            fix, x.marked, x.mark, x.marklabel, x.name)
  }

  // ---- the reading loops of readGraph, on a tokenizer ----

  /** nextString where the input may not end, on the tokenizer. */
  method ExpectWord(st: Tokenizer) returns (r: Result<string>)
    requires st.Valid()
    modifies st
    ensures st.Valid() && st.pos >= old(st.pos)
    ensures match Expect(st.toks, old(st.pos))
      case Ok(w) => r == Ok(w.0) && st.pos == w.1
      case Err(m) => r == Err(m)
  {
    var s := st.NextString();
    if s.None? {
      return Err("unexpected end of input");
    }
    r := Ok(s.value);
  }

  /** The start, the end and the image of an edge after its label, as ReadEdgeRest reads them. */
  method NextEdgeRest(st: Tokenizer, vertices: int) returns (r: Result<(int, int, P.Path)>)
    requires st.Valid()
    modifies st
    ensures st.Valid() && st.pos >= old(st.pos)
    ensures match ReadEdgeRest(st.toks, old(st.pos), vertices)
      case Ok(e) => r == Ok((e.0, e.1, e.2)) && st.pos == e.3
      case Err(m) => r == Err(m)
  {
    var s := ExpectWord(st);
    if s.Err? {
      return Err(s.msg);
    }
    var a := LabelToVertex(s.value);
    if a.Err? {
      return Err(a.msg);
    }
    if a.value < 0 || a.value >= vertices {
      return Err("bad vertex number " + IntToString(a.value));
    }
    s := ExpectWord(st);
    if s.Err? {
      return Err(s.msg);
    }
    var b := LabelToVertex(s.value);
    if b.Err? {
      return Err(b.msg);
    }
    if b.value < 0 || b.value >= vertices {
      return Err("bad vertex number: " + IntToString(b.value));
    }
    s := ExpectWord(st);
    if s.Err? {
      return Err(s.msg);
    }
    var p := ReadPath(s.value);
    if p.Err? {
      return Err(p.msg);
    }
    r := Ok((a.value, b.value, p.value));
  }

  /** The four words of edge i, as ReadEdge reads them. */
  method NextEdge(st: Tokenizer, i: Index, vertices: int) returns (r: Result<(int, int, P.Path)>)
    requires st.Valid()
    modifies st
    ensures st.Valid() && st.pos >= old(st.pos)
    ensures match ReadEdge(st.toks, old(st.pos), i, vertices)
      case Ok(e) => r == Ok((e.0, e.1, e.2)) && st.pos == e.3
      case Err(m) => r == Err(m)
  {
    var s := ExpectWord(st);
    if s.Err? {
      return Err(s.msg);
    }
    if s.value != IndexToLabel(i, false) {
      return Err("bad edge label: " + s.value);
    }
    r := NextEdgeRest(st, vertices);
  }

  /**
   * The loop over the edges of readGraph: edge i's start, end and image go to
   * start[i], end[i] and im[i]; the slots from n on are left alone.
   */
  method ReadEdgeLines(st: Tokenizer, n: nat, vertices: int, im: array<P.Path>, start: array<int>, end: array<int>)
    returns (r: Outcome)
    requires st.Valid() && n <= MAXINDEX && n <= im.Length && n <= start.Length && n <= end.Length && start != end
    modifies st, im, start, end
    ensures st.Valid()
    ensures im[n..] == old(im[n..]) && start[n..] == old(start[n..]) && end[n..] == old(end[n..])
    ensures match ReadEdges(st.toks, old(st.pos), 0, n, vertices, Edges([], [], []))
      case Ok(x) => r == Pass && st.pos == x.1 && Edges(start[..n], end[..n], im[..n]) == x.0
      case Err(m) => r == Fail(m)
  {
    ghost var spec := ReadEdges(st.toks, st.pos, 0, n, vertices, Edges([], [], []));
    ghost var tails := (im[n..], start[n..], end[n..]);
    var i := 0;
    while i < n
      invariant 0 <= i <= n && st.Valid()
      invariant (im[n..], start[n..], end[n..]) == tails
      invariant EdgesOK(Edges(start[..i], end[..i], im[..i]), i, vertices)
      invariant ReadEdges(st.toks, st.pos, i, n, vertices, Edges(start[..i], end[..i], im[..i])) == spec
    {
      var acc := Edges(start[..i], end[..i], im[..i]);
      ghost var pos := st.pos;
      var e := NextEdge(st, i, vertices);
      if e.Err? {
        return Fail(e.msg);
      }
      ReadEdgesStep(st.toks, pos, i, n, vertices, acc, (e.value.0, e.value.1, e.value.2, st.pos));
      StoreEdge(im, start, end, i, n, e.value.0, e.value.1, e.value.2);
      i := i + 1;
    }
    r := Pass;
  }

  /** Edge i read: its endpoints and image stored at i, nothing else written. */
  method StoreEdge(im: array<P.Path>, start: array<int>, end: array<int>, i: nat, n: nat, a: int, b: int, w: P.Path)
    requires i < n <= im.Length && n <= start.Length && n <= end.Length && start != end
    modifies im, start, end
    ensures start[..i + 1] == old(start[..i]) + [a] && end[..i + 1] == old(end[..i]) + [b]
    ensures im[..i + 1] == old(im[..i]) + [w]
    ensures im[n..] == old(im[n..]) && start[n..] == old(start[n..]) && end[n..] == old(end[n..])
  {
    start[i], end[i], im[i] := a, b, w;
  }

  /** The loop over the marked loops: a label, then a loop, n times. */
  method ReadMarkLoop(st: Tokenizer, n: nat) returns (r: Result<(seq<P.Path>, seq<string>)>)
    requires st.Valid()
    modifies st
    ensures st.Valid() && st.pos >= old(st.pos)
    ensures match ReadMarks(st.toks, old(st.pos), 0, n, [], [])
      case Ok(x) => r == Ok((x.0, x.1)) && st.pos == x.2
      case Err(m) => r == Err(m)
  {
    ghost var spec := ReadMarks(st.toks, st.pos, 0, n, [], []);
    ghost var pos0 := st.pos;
    var mark: seq<P.Path>, marklabel: seq<string> := [], [];
    var i := 0;
    while i < n
      invariant 0 <= i <= n && st.Valid() && st.pos >= pos0
      invariant |mark| == i && |marklabel| == i
      invariant ReadMarks(st.toks, st.pos, i, n, mark, marklabel) == spec
    {
      var l := ExpectWord(st);
      if l.Err? {
        return Err(l.msg);
      }
      var s := ExpectWord(st);
      if s.Err? {
        return Err(s.msg);
      }
      var p := ReadPath(s.value);
      if p.Err? {
        return Err(p.msg);
      }
      mark, marklabel := mark + [p.value], marklabel + [l.value];
      i := i + 1;
    }
    r := Ok((mark, marklabel));
  }

  /** The sections loop of readGraph, from the word s (the position after it in st) on. */
  method ReadSectionLoop(st: Tokenizer, s: Option<string>) returns (r: Result<Extras>)
    requires st.Valid()
    modifies st
    ensures st.Valid()
    ensures r == ReadExtras(st.toks, (s, old(st.pos)))
  {
    ghost var spec := ReadExtras(st.toks, (s, st.pos));
    var x := NOEXTRAS;
    var w := s;
    while w.Some?
      invariant st.Valid() && |x.mark| == |x.marklabel|
      invariant spec == if w.None? then Ok(x) else ReadSections(st.toks, w.value, st.pos, x)
      decreases |st.toks| - st.pos + (if w.Some? then 1 else 0)
    {
      ghost var pos, x0 := st.pos, x;
      if w.value == LABELTAG {
        var l := ExpectWord(st);
        if l.Err? {
          return Err(l.msg);
        }
        x := x.(name := l.value);
      } else if w.value == MARKINGTAG {
        var n := st.NextInt();
        if n < 0 {
          return Err("unexpected end of input");
        }
        var m := ReadMarkLoop(st, n);
        if m.Err? {
          return Err(m.msg);
        }
        x := x.(marked := true, mark := m.value.0, marklabel := m.value.1);
      }
      assert ReadSection(st.toks, w.value, pos, x0) == Ok((x, st.pos));
      w := st.NextString();
    }
    r := Ok(x);
  }

  /**
   * Everything readGraph reads after the two counts: the edges go to the buffers, the
   * fixed word and the sections are returned.
   */
  method ReadBodyLoop(st: Tokenizer, ed: nat, vertices: int, im: array<P.Path>, start: array<int>, end: array<int>)
    returns (r: Result<(P.Path, Extras)>)
    requires st.Valid() && ed <= MAXINDEX && ed <= im.Length && ed <= start.Length && ed <= end.Length && start != end
    modifies st, im, start, end
    ensures im[ed..] == old(im[ed..]) && start[ed..] == old(start[ed..]) && end[ed..] == old(end[ed..])
    ensures match ReadBody(st.toks, old(st.pos), ed, vertices)
      case Ok(b) => r == Ok((b.1, b.2)) && Edges(start[..ed], end[..ed], im[..ed]) == b.0
      case Err(m) => r == Err(m)
  {
    var e := ReadEdgeLines(st, ed, vertices, im, start, end);
    if e.Fail? {
      return Err(e.msg);
    }
    var fix: P.Path := [];
    var s := st.NextString();
    if s.Some? && s.value != LABELTAG && s.value != MARKINGTAG {
      var f := ReadPath(s.value);
      if f.Err? {
        return Err(f.msg);
      }
      fix := f.value;
      s := st.NextString();
    }
    var x := ReadSectionLoop(st, s);
    if x.Err? {
      return Err(x.msg);
    }
    r := Ok((fix, x.value));
  }

  /** Buffers holding the edges es and then blank slots, with the rest of a map, make up Built. */
  lemma BuiltFrom(ed: nat, v: int, es: Edges, fix: P.Path, x: Extras, im: seq<P.Path>, start: seq<int>, end: seq<int>)
    requires 4 * ed <= MAXINDEX && EdgesOK(es, ed, v) && |im| == 4 * ed && |start| == 4 * ed && |end| == 4 * ed
    requires Edges(start[..ed], end[..ed], im[..ed]) == es
    requires im[ed..] == seq(3 * ed, _ => []) && start[ed..] == seq(3 * ed, _ => 0) && end[ed..] == seq(3 * ed, _ => 0)
    ensures G.Graph(ed, v, im, start, end, fix, x.marked, x.mark, x.marklabel, x.name) == Built(ed, v, es, fix, x)
  {
    assert im == im[..ed] + im[ed..];
    assert start == start[..ed] + start[ed..];
    assert end == end[..ed] + end[ed..];
  }

  // ---- toString and the round trip ----

  /** The tokens of a line "lab: (a, b) --> img". */
  function LineTokens(lab: string, a: string, b: string, img: Token): (t: seq<Token>)
    ensures |t| == 11
  {
    [Word(lab), Other(':'), Other('('), Word(a), Other(','), Word(b), Other(')'), Other('-'), Other('-'), Other('>'), img]
  }

  /** The word toString writes for vertex n. */
  function VertexWord(n: int): string { "v" + IntToString(n) }

  /** The token toString writes for an image: its labels, or _ when it is empty. */
  function ImageToken(p: P.Path): Token { if p == [] then Dummy else Word(PathToString(p)) }

  /** The tokens of toString's line for edge i, "a: (v0, v1) --> image". */
  function EdgeLine(g: G.Graph, i: nat): (t: seq<Token>)
    requires G.Valid(g) && i < g.edges
    ensures |t| == 11
  {
    LineTokens(IndexToLabel(i, false), VertexWord(g.start[i]), VertexWord(g.end[i]), ImageToken(g.im[i]))
  }

  /** The lines of edges i, ..., edges - 1. */
  function Lines(g: G.Graph, i: nat): (t: seq<Token>)
    requires G.Valid(g) && i <= g.edges
    ensures |t| == 11 * (g.edges - i)
    decreases g.edges - i
  {
    if i == g.edges then [] else EdgeLine(g, i) + Lines(g, i + 1)
  }

  /** The lines "label: loop" of the marked loops i, ... (showMarking). */
  function MarkLines(mark: seq<P.Path>, ml: seq<string>, i: nat): (t: seq<Token>)
    requires |mark| == |ml| && i <= |mark|
    ensures |t| == 3 * (|mark| - i)
    decreases |mark| - i
  {
    if i == |mark| then [] else [Word(ml[i]), Other(':'), Word(PathToString(mark[i]))] + MarkLines(mark, ml, i + 1)
  }

  /** The fixed word line, when there is a fixed word. */
  function FixTokens(g: G.Graph): seq<Token>
  {
    if g.fix == [] then [] else [Word(PathToString(g.fix))]
  }

  /** The label line, when there is a label. */
  function LabelTokens(g: G.Graph): seq<Token>
  {
    if g.name == [] then [] else [Word(LABELTAG), Other(':'), Word(g.name)]
  }

  /** The marking (showMarking): the tag, the number of loops and one line per loop; nothing when unmarked. */
  function MarkingTokens(g: G.Graph): seq<Token>
  {
    if !g.marked || |g.mark| != |g.marklabel| then []
    else [Word(MARKINGTAG), Other(':'), Number(|g.mark|)] + MarkLines(g.mark, g.marklabel, 0)
  }

  /** What toString writes after the edges. */
  function Trailer(g: G.Graph): seq<Token>
  {
    FixTokens(g) + (LabelTokens(g) + MarkingTokens(g))
  }

  /**
   * The tokens of the text toString writes: the numbers of edges and vertices, one line
   * per edge, then the trailer (the comments it writes are not tokens).
   */
  function Written(g: G.Graph): seq<Token>
    requires G.Valid(g)
  {
    [Number(g.edges), Number(g.vertices)] + (Lines(g, 0) + Trailer(g))
  }

  /**
   * A map whose text reads back: it fits init(4 * edges), its endpoints and vertex count
   * pass the checks, its fixed word is not a section tag, and when it is marked every
   * loop and its label are non-empty (toString writes nothing for an empty one).
   */
  predicate Writable(g: G.Graph)
  {
    G.Valid(g) && 4 * g.edges <= MAXINDEX && G.EndpointsOK(g) && 0 <= g.vertices <= 2 * g.edges &&
    PathToString(g.fix) != LABELTAG && PathToString(g.fix) != MARKINGTAG &&
    if g.marked then
      |g.mark| == |g.marklabel| && forall i :: 0 <= i < |g.mark| ==> g.mark[i] != [] && g.marklabel[i] != []
    else g.mark == [] && g.marklabel == []
  }

  /** The first i edges of g. */
  function Prefix(g: G.Graph, i: nat): Edges
    requires G.Valid(g) && i <= g.edges
  {
    Edges(g.start[..i], g.end[..i], g.im[..i])
  }

  /** A word token at pos is what nextString reads. */
  lemma WordHere(toks: seq<Token>, pos: nat)
    requires pos < |toks| && IsWordLike(toks[pos])
    ensures NextWord(toks, pos) == (Some(if toks[pos].Dummy? then "" else toks[pos].s), pos + 1)
  {
    WordAtSkips(toks, pos, pos);
  }

  /** The vertex label v<n> reads back as n. */
  lemma VertexLabel(n: nat)
    requires n <= INT_MAX
    ensures LabelToVertex(VertexWord(n)) == Ok(n)
  {
    assert VertexWord(n)[1..] == IntToString(n);
    ParseIntToString(n);
  }

  /** The image token reads back as the image. */
  lemma ImageBack(p: P.Path)
    ensures ImageToken(p).Word? || ImageToken(p).Dummy?
    ensures ReadPath(if ImageToken(p).Dummy? then "" else ImageToken(p).s) == Ok(p)
  {
    if p != [] {
      PathStringRoundTrip(p);
    }
  }

  /** nextString from pos reads the word-like token at k when nothing before it is one. */
  lemma ExpectAt(toks: seq<Token>, pos: nat, k: nat, next: nat)
    requires pos <= k < |toks| && next == k + 1 && IsWordLike(toks[k])
    requires forall m :: pos <= m < k ==> !IsWordLike(toks[m])
    ensures Expect(toks, pos) == Ok((if toks[k].Dummy? then "" else toks[k].s, next))
  {
    WordAtSkips(toks, pos, k);
  }

  /** The tokens of a line, one by one. */
  lemma LineAt(toks: seq<Token>, pos: nat, lab: string, a: string, b: string, img: Token)
    requires At(toks, pos, LineTokens(lab, a, b, img))
    ensures toks[pos] == Word(lab) && toks[pos + 1] == Other(':') && toks[pos + 2] == Other('(')
    ensures toks[pos + 3] == Word(a) && toks[pos + 4] == Other(',') && toks[pos + 5] == Word(b)
    ensures toks[pos + 6] == Other(')') && toks[pos + 7] == Other('-') && toks[pos + 8] == Other('-')
    ensures toks[pos + 9] == Other('>') && toks[pos + 10] == img
  {
    var t := LineTokens(lab, a, b, img);
    forall k | 0 <= k < 11 ensures toks[pos + k] == t[k] {
      assert toks[pos..pos + 11][k] == t[k];
    }
  }

  /** nextString on a line finds its label, its two vertex words and its image token. */
  lemma LineWords(toks: seq<Token>, pos: nat, lab: string, a: string, b: string, img: Token)
    requires At(toks, pos, LineTokens(lab, a, b, img)) && IsWordLike(img)
    ensures Expect(toks, pos) == Ok((lab, pos + 1))
    ensures Expect(toks, pos + 1) == Ok((a, pos + 4))
    ensures Expect(toks, pos + 4) == Ok((b, pos + 6))
    ensures Expect(toks, pos + 6) == Ok((if img.Dummy? then "" else img.s, pos + 11))
  {
    LineAt(toks, pos, lab, a, b, img);
    ExpectAt(toks, pos, pos, pos + 1);
    ExpectAt(toks, pos + 1, pos + 3, pos + 4);
    ExpectAt(toks, pos + 4, pos + 5, pos + 6);
    ExpectAt(toks, pos + 6, pos + 10, pos + 11);
  }

  /** An edge line reads back as the edge. */
  lemma ReadEdgeLine(g: G.Graph, toks: seq<Token>, pos: nat, i: nat)
    requires Writable(g) && i < g.edges && At(toks, pos, EdgeLine(g, i))
    ensures ReadEdge(toks, pos, i, g.vertices) == Ok((g.start[i], g.end[i], g.im[i], (pos + 11) as nat))
  {
    LineWords(toks, pos, IndexToLabel(i, false), VertexWord(g.start[i]), VertexWord(g.end[i]), ImageToken(g.im[i]));
    ReadRestLine(g, toks, pos, i);
  }

  /** After the label, an edge line reads back as the start, the end and the image. */
  lemma ReadRestLine(g: G.Graph, toks: seq<Token>, pos: nat, i: nat)
    requires Writable(g) && i < g.edges && pos + 11 <= |toks|
    requires Expect(toks, pos + 1) == Ok((VertexWord(g.start[i]), pos + 4))
    requires Expect(toks, pos + 4) == Ok((VertexWord(g.end[i]), pos + 6))
    requires Expect(toks, pos + 6) == Ok((if ImageToken(g.im[i]).Dummy? then "" else ImageToken(g.im[i]).s, pos + 11))
    ensures ReadEdgeRest(toks, pos + 1, g.vertices) == Ok((g.start[i], g.end[i], g.im[i], (pos + 11) as nat))
  {
    ImageBack(g.im[i]);
    ReadRest(toks, pos, g.start[i], g.end[i], g.im[i], if ImageToken(g.im[i]).Dummy? then "" else ImageToken(g.im[i]).s, g.vertices);
  }

  lemma ReadRest(toks: seq<Token>, pos: nat, a: nat, b: nat, p: P.Path, w: string, vertices: int)
    requires pos + 11 <= |toks| && a < vertices && b < vertices && vertices <= INT_MAX
    requires Expect(toks, pos + 1) == Ok((VertexWord(a), pos + 4))
    requires Expect(toks, pos + 4) == Ok((VertexWord(b), pos + 6))
    requires Expect(toks, pos + 6) == Ok((w, pos + 11))
    requires ReadPath(w) == Ok(p)
    ensures ReadEdgeRest(toks, pos + 1, vertices) == Ok((a, b, p, (pos + 11) as nat))
  {
    VertexLabel(a);
    VertexLabel(b);
  }

  /** One step of ReadEdges when edge i reads as e. */
  lemma ReadEdgesStep(toks: seq<Token>, pos: nat, i: nat, n: nat, vertices: int, acc: Edges, e: (int, int, P.Path, nat))
    requires pos <= |toks| && i < n <= MAXINDEX && EdgesOK(acc, i, vertices)
    requires ReadEdge(toks, pos, i, vertices) == Ok(e)
    ensures e.3 <= |toks| && EdgesOK(Edges(acc.start + [e.0], acc.end + [e.1], acc.im + [e.2]), i + 1, vertices)
    ensures ReadEdges(toks, pos, i, n, vertices, acc) ==
      ReadEdges(toks, e.3, i + 1, n, vertices, Edges(acc.start + [e.0], acc.end + [e.1], acc.im + [e.2]))
  {
  }

  /** The first i + 1 edges are the first i and edge i. */
  lemma PrefixStep(g: G.Graph, i: nat)
    requires G.Valid(g) && i < g.edges
    ensures Prefix(g, i + 1) == Edges(Prefix(g, i).start + [g.start[i]], Prefix(g, i).end + [g.end[i]], Prefix(g, i).im + [g.im[i]])
  {
    assert g.start[..i] + [g.start[i]] == g.start[..i + 1];
    assert g.end[..i] + [g.end[i]] == g.end[..i + 1];
    assert g.im[..i] + [g.im[i]] == g.im[..i + 1];
  }

  /** Edge line i read in front of the later edges: ReadEdges moves on by one edge and eleven tokens. */
  lemma ReadEdgesLine(g: G.Graph, toks: seq<Token>, pos: nat, i: nat, q: nat)
    requires Writable(g) && i < g.edges && At(toks, pos, EdgeLine(g, i)) && pos + 11 <= |toks|
    requires EdgesOK(Prefix(g, i + 1), i + 1, g.vertices)
    requires ReadEdges(toks, pos + 11, i + 1, g.edges, g.vertices, Prefix(g, i + 1)) == Ok((Prefix(g, g.edges), q))
    ensures EdgesOK(Prefix(g, i), i, g.vertices)
    ensures ReadEdges(toks, pos, i, g.edges, g.vertices, Prefix(g, i)) == Ok((Prefix(g, g.edges), q))
  {
    ReadEdgeLine(g, toks, pos, i);
    PrefixStep(g, i);
    ReadEdgesStep(toks, pos, i, g.edges, g.vertices, Prefix(g, i), (g.start[i], g.end[i], g.im[i], (pos + 11) as nat));
  }

  /** The lines of edges i, ..., edges - 1 stand one after the other from pos. */
  predicate LinesAt(g: G.Graph, toks: seq<Token>, pos: nat, i: nat)
    requires G.Valid(g) && i <= g.edges
    decreases g.edges - i, 0
  {
    pos <= |toks| &&
    (i < g.edges ==> At(toks, pos, EdgeLine(g, i)) && LinesAfter(g, toks, pos + 11, i + 1))
  }

  /** LinesAt one line further on (a separate step, so that one unfolding shows one line). */
  predicate LinesAfter(g: G.Graph, toks: seq<Token>, pos: nat, i: nat)
    requires G.Valid(g) && i <= g.edges
    decreases g.edges - i, 1
  {
    LinesAt(g, toks, pos, i)
  }

  lemma {:induction false} AtLines(g: G.Graph, toks: seq<Token>, pos: nat, i: nat)
    requires G.Valid(g) && i <= g.edges && At(toks, pos, Lines(g, i))
    ensures LinesAt(g, toks, pos, i)
    decreases g.edges - i
  {
    if i < g.edges {
      AtSplit(toks, pos, EdgeLine(g, i), Lines(g, i + 1));
      AtLines(g, toks, pos + 11, i + 1);
      assert LinesAfter(g, toks, pos + 11, i + 1);
    }
  }

  /** The position after k edge lines from pos. */
  function PastLines(pos: nat, k: nat): nat { pos + 11 * k }

  /** The edge lines from edge i on read back as the edges. */
  lemma {:induction false} ReadLines(g: G.Graph, toks: seq<Token>, pos: nat, i: nat)
    requires Writable(g) && i <= g.edges && LinesAt(g, toks, pos, i)
    ensures EdgesOK(Prefix(g, i), i, g.vertices)
    ensures ReadEdges(toks, pos, i, g.edges, g.vertices, Prefix(g, i)) == Ok((Prefix(g, g.edges), PastLines(pos, g.edges - i)))
    decreases g.edges - i
  {
    if i < g.edges {
      ReadLines(g, toks, pos + 11, i + 1);
      var q := PastLines(pos + 11, g.edges - (i + 1));
      assert q == PastLines(pos, g.edges - i);
      ReadEdgesLine(g, toks, pos, i, q);
    } else {
      assert Prefix(g, i) == Prefix(g, g.edges);
    }
  }

  /** One step of ReadMarks over a line whose label reads as l and whose loop reads as p. */
  lemma ReadMarksStep(toks: seq<Token>, pos: nat, i: nat, n: nat, mark: seq<P.Path>, ml: seq<string>,
                      l: string, w: string, p: P.Path)
    requires pos + 3 <= |toks| && i < n && |mark| == i && |ml| == i
    requires Expect(toks, pos) == Ok((l, pos + 1))
    requires Expect(toks, pos + 1) == Ok((w, pos + 3))
    requires ReadPath(w) == Ok(p)
    ensures ReadMarks(toks, pos, i, n, mark, ml) == ReadMarks(toks, pos + 3, i + 1, n, mark + [p], ml + [l])
  {
  }

  /** nextString on a line "label: loop" finds the label and the loop. */
  lemma MarkLineWords(toks: seq<Token>, pos: nat, l: string, w: string)
    requires At(toks, pos, [Word(l), Other(':'), Word(w)])
    ensures Expect(toks, pos) == Ok((l, pos + 1))
    ensures Expect(toks, pos + 1) == Ok((w, pos + 3))
  {
    var line := [Word(l), Other(':'), Word(w)];
    assert toks[pos] == line[0] && toks[pos + 1] == line[1] && toks[pos + 2] == line[2] by {
      assert toks[pos..pos + 3] == line;
    }
    ExpectAt(toks, pos, pos, pos + 1);
    ExpectAt(toks, pos + 1, pos + 2, pos + 3);
  }

  /** The line "label: loop" of marked loop i stands at pos. */
  lemma MarkLineRead(toks: seq<Token>, pos: nat, mark: seq<P.Path>, ml: seq<string>, i: nat, q: nat)
    requires |mark| == |ml| && i < |mark| && mark[i] != []
    requires At(toks, pos, [Word(ml[i]), Other(':'), Word(PathToString(mark[i]))])
    requires ReadMarks(toks, pos + 3, i + 1, |mark|, mark[..i + 1], ml[..i + 1]) == Ok((mark, ml, q))
    ensures ReadMarks(toks, pos, i, |mark|, mark[..i], ml[..i]) == Ok((mark, ml, q))
  {
    MarkLineWords(toks, pos, ml[i], PathToString(mark[i]));
    PathStringRoundTrip(mark[i]);
    ReadMarksNext(toks, pos, i, mark, ml, ml[i], PathToString(mark[i]));
  }

  /** ReadMarksStep with the loops read so far taken as prefixes of the final ones. */
  lemma ReadMarksNext(toks: seq<Token>, pos: nat, i: nat, mark: seq<P.Path>, ml: seq<string>, l: string, w: string)
    requires pos + 3 <= |toks| && |mark| == |ml| && i < |mark| && ml[i] == l
    requires Expect(toks, pos) == Ok((l, pos + 1))
    requires Expect(toks, pos + 1) == Ok((w, pos + 3))
    requires ReadPath(w) == Ok(mark[i])
    ensures ReadMarks(toks, pos, i, |mark|, mark[..i], ml[..i]) ==
            ReadMarks(toks, pos + 3, i + 1, |mark|, mark[..i + 1], ml[..i + 1])
  {
    assert mark[..i] + [mark[i]] == mark[..i + 1];
    assert ml[..i] + [ml[i]] == ml[..i + 1];
    ReadMarksStep(toks, pos, i, |mark|, mark[..i], ml[..i], l, w, mark[i]);
  }

  /** The mark lines from loop i on stand one after the other from pos. */
  predicate MarkLinesAt(toks: seq<Token>, pos: nat, mark: seq<P.Path>, ml: seq<string>, i: nat)
    requires |mark| == |ml| && i <= |mark|
    decreases |mark| - i, 0
  {
    pos <= |toks| &&
    (i < |mark| ==>
       At(toks, pos, [Word(ml[i]), Other(':'), Word(PathToString(mark[i]))]) &&
       MarkLinesAfter(toks, pos + 3, mark, ml, i + 1))
  }

  /** MarkLinesAt one line further on. */
  predicate MarkLinesAfter(toks: seq<Token>, pos: nat, mark: seq<P.Path>, ml: seq<string>, i: nat)
    requires |mark| == |ml| && i <= |mark|
    decreases |mark| - i, 1
  {
    MarkLinesAt(toks, pos, mark, ml, i)
  }

  lemma {:induction false} AtMarkLines(toks: seq<Token>, pos: nat, mark: seq<P.Path>, ml: seq<string>, i: nat)
    requires |mark| == |ml| && i <= |mark| && At(toks, pos, MarkLines(mark, ml, i))
    ensures MarkLinesAt(toks, pos, mark, ml, i)
    decreases |mark| - i
  {
    if i < |mark| {
      var line := [Word(ml[i]), Other(':'), Word(PathToString(mark[i]))];
      AtSplit(toks, pos, line, MarkLines(mark, ml, i + 1));
      AtMarkLines(toks, pos + 3, mark, ml, i + 1);
      assert MarkLinesAfter(toks, pos + 3, mark, ml, i + 1);
    }
  }

  /** The position after k mark lines from pos. */
  function PastMarks(pos: nat, k: nat): nat { pos + 3 * k }

  /** The marked loops from i on read back. */
  lemma {:induction false} ReadMarkLines(toks: seq<Token>, pos: nat, mark: seq<P.Path>, ml: seq<string>, i: nat)
    requires |mark| == |ml| && i <= |mark| && MarkLinesAt(toks, pos, mark, ml, i)
    requires forall k :: 0 <= k < |mark| ==> mark[k] != []
    ensures ReadMarks(toks, pos, i, |mark|, mark[..i], ml[..i]) == Ok((mark, ml, PastMarks(pos, |mark| - i)))
    decreases |mark| - i
  {
    if i < |mark| {
      ReadMarkLines(toks, pos + 3, mark, ml, i + 1);
      var q := PastMarks(pos + 3, |mark| - (i + 1));
      assert q == PastMarks(pos, |mark| - i);
      MarkLineRead(toks, pos, mark, ml, i, q);
    } else {
      assert mark[..i] == mark && ml[..i] == ml;
    }
  }

  /** A token sequence is at its own start. */
  lemma AtWhole(toks: seq<Token>)
    ensures At(toks, 0, toks)
  {
    assert toks[0..|toks|] == toks;
  }

  /** The marking, last in the text, reads back as the loops and their labels. */
  lemma MarkingRead(g: G.Graph, toks: seq<Token>, pos: nat, x: Extras)
    requires Writable(g) && g.marked && |x.mark| == |x.marklabel|
    requires At(toks, pos, MarkingTokens(g)) && pos + |MarkingTokens(g)| == |toks|
    ensures NextWord(toks, pos) == (Some(MARKINGTAG), pos + 1)
    ensures ReadSections(toks, MARKINGTAG, pos + 1, x) == Ok(x.(marked := true, mark := g.mark, marklabel := g.marklabel))
  {
    var head := [Word(MARKINGTAG), Other(':'), Number(|g.mark|)];
    AtSplit(toks, pos, head, MarkLines(g.mark, g.marklabel, 0));
    assert toks[pos] == head[0] && toks[pos + 1] == head[1] && toks[pos + 2] == head[2] by {
      assert toks[pos..pos + 3] == head;
    }
    WordHere(toks, pos);
    NumberAtSkips(toks, pos + 1, pos + 2);
    AtMarkLines(toks, pos + 3, g.mark, g.marklabel, 0);
    ReadMarkLines(toks, pos + 3, g.mark, g.marklabel, 0);
    assert g.mark[..0] == [] && g.marklabel[..0] == [];
    assert PastMarks(pos + 3, |g.mark|) == |toks|;
  }

  /** The label line and the marking after it read back. */
  lemma LabelRead(g: G.Graph, toks: seq<Token>, pos: nat)
    requires Writable(g) && g.name != []
    requires At(toks, pos, LabelTokens(g) + MarkingTokens(g)) && pos + |LabelTokens(g) + MarkingTokens(g)| == |toks|
    ensures NextWord(toks, pos) == (Some(LABELTAG), pos + 1)
    ensures ReadSections(toks, LABELTAG, pos + 1, NOEXTRAS) == Ok(Extras(g.name, g.marked, g.mark, g.marklabel))
  {
    var head := [Word(LABELTAG), Other(':'), Word(g.name)];
    AtSplit(toks, pos, head, MarkingTokens(g));
    MarkLineWords(toks, pos, LABELTAG, g.name);
    var y := NOEXTRAS.(name := g.name);
    assert ReadSection(toks, LABELTAG, pos + 1, NOEXTRAS) == Ok((y, (pos + 3) as nat));
    if g.marked {
      MarkingRead(g, toks, pos + 3, y);
    } else {
      assert pos + 3 == |toks|;
    }
  }

  /** The label line and the marking read back as the label and the marking. */
  lemma SectionsRead(g: G.Graph, toks: seq<Token>, pos: nat)
    requires Writable(g)
    requires At(toks, pos, LabelTokens(g) + MarkingTokens(g)) && pos + |LabelTokens(g) + MarkingTokens(g)| == |toks|
    ensures ReadExtras(toks, NextWord(toks, pos)) == Ok(Extras(g.name, g.marked, g.mark, g.marklabel))
  {
    if g.name != [] {
      LabelRead(g, toks, pos);
    } else if g.marked {
      assert LabelTokens(g) + MarkingTokens(g) == MarkingTokens(g);
      MarkingRead(g, toks, pos, NOEXTRAS);
    } else {
      assert pos == |toks|;
    }
  }

  /** The first word of the label line and the marking is a section tag, or there is none. */
  lemma SectionsFirst(g: G.Graph, toks: seq<Token>, pos: nat)
    requires Writable(g)
    requires At(toks, pos, LabelTokens(g) + MarkingTokens(g)) && pos + |LabelTokens(g) + MarkingTokens(g)| == |toks|
    ensures NextWord(toks, pos).0 in {None, Some(LABELTAG), Some(MARKINGTAG)}
  {
    if g.name != [] {
      LabelRead(g, toks, pos);
    } else if g.marked {
      assert LabelTokens(g) + MarkingTokens(g) == MarkingTokens(g);
      MarkingRead(g, toks, pos, NOEXTRAS);
    } else {
      assert pos == |toks|;
    }
  }

  /** Everything after the edges reads back as the fixed word, the label and the marking. */
  lemma TrailerRead(g: G.Graph, toks: seq<Token>, pos: nat)
    requires Writable(g) && At(toks, pos, Trailer(g)) && pos + |Trailer(g)| == |toks|
    ensures ReadFix(toks, NextWord(toks, pos).0, NextWord(toks, pos).1).Ok?
    ensures ReadFix(toks, NextWord(toks, pos).0, NextWord(toks, pos).1).value.0 == g.fix
    ensures ReadExtras(toks, ReadFix(toks, NextWord(toks, pos).0, NextWord(toks, pos).1).value.1) ==
      Ok(Extras(g.name, g.marked, g.mark, g.marklabel))
  {
    AtSplit(toks, pos, FixTokens(g), LabelTokens(g) + MarkingTokens(g));
    if g.fix != [] {
      FixedRead(g, toks, pos);
    } else {
      SectionsFirst(g, toks, pos);
      SectionsRead(g, toks, pos);
    }
  }

  /** A fixed word line reads back as the fixed word. */
  lemma FixedRead(g: G.Graph, toks: seq<Token>, pos: nat)
    requires Writable(g) && g.fix != [] && At(toks, pos, FixTokens(g))
    requires At(toks, pos + 1, LabelTokens(g) + MarkingTokens(g)) && pos + 1 + |LabelTokens(g) + MarkingTokens(g)| == |toks|
    ensures NextWord(toks, pos) == (Some(PathToString(g.fix)), pos + 1)
    ensures ReadFix(toks, Some(PathToString(g.fix)), pos + 1) == Ok((g.fix, NextWord(toks, pos + 1)))
    ensures ReadExtras(toks, NextWord(toks, pos + 1)) == Ok(Extras(g.name, g.marked, g.mark, g.marklabel))
  {
    assert toks[pos] == Word(PathToString(g.fix)) by {
      assert toks[pos..pos + 1] == FixTokens(g);
    }
    WordHere(toks, pos);
    PathStringRoundTrip(g.fix);
    SectionsRead(g, toks, pos + 1);
  }

  /** The map built from g's own edges, fixed word, label and marking agrees with g. */
  lemma BuiltAgree(g: G.Graph)
    requires Writable(g)
    ensures EdgesOK(Prefix(g, g.edges), g.edges, g.vertices)
    ensures G.Agree(g, Built(g.edges, g.vertices, Prefix(g, g.edges), g.fix, Extras(g.name, g.marked, g.mark, g.marklabel)))
  {
    var h := Built(g.edges, g.vertices, Prefix(g, g.edges), g.fix, Extras(g.name, g.marked, g.mark, g.marklabel));
    assert h.im[..g.edges] == g.im[..g.edges];
    assert h.start[..g.edges] == g.start[..g.edges];
    assert h.end[..g.edges] == g.end[..g.edges];
  }

  /** readGraph without the strict check, given what each of its parts reads. */
  lemma ReadGraphParts(toks: seq<Token>, ed: nat, v: int, es: Edges, pe: nat, fix: P.Path, x: Extras)
    requires 2 <= |toks| && NextNumber(toks, 0) == (ed, 1) && NextNumber(toks, 1) == (v, 2)
    requires 4 * ed <= MAXINDEX && 0 <= v <= 2 * ed
    requires ReadEdges(toks, 2, 0, ed, v, Edges([], [], [])) == Ok((es, pe))
    requires ReadFix(toks, NextWord(toks, pe).0, NextWord(toks, pe).1).Ok?
    requires ReadFix(toks, NextWord(toks, pe).0, NextWord(toks, pe).1).value.0 == fix
    requires ReadExtras(toks, ReadFix(toks, NextWord(toks, pe).0, NextWord(toks, pe).1).value.1) == Ok(x)
    ensures EdgesOK(es, ed, v)
    ensures ReadGraph(toks, false) == Ok(Built(ed, v, es, fix, x))
  {
  }

  /**
   * The round trip of toString and readGraph: the text written for a map that can be
   * written reads back, without the strict check, as a map that agrees with it.
   */
  lemma ReadWritten(g: G.Graph)
    requires Writable(g)
    ensures ReadGraph(Written(g), false).Ok?
    ensures G.Agree(g, ReadGraph(Written(g), false).value)
  {
    var toks := Written(g);
    var pe := PastLines(2, g.edges);
    HeadRead(g);
    TrailerRead(g, toks, pe);
    BuiltAgree(g);
    ReadGraphParts(toks, g.edges, g.vertices, Prefix(g, g.edges), pe, g.fix, Extras(g.name, g.marked, g.mark, g.marklabel));
  }

  /** The two counts and the edge lines of the written text read back; the trailer follows them. */
  lemma HeadRead(g: G.Graph)
    requires Writable(g)
    ensures 2 <= |Written(g)| && NextNumber(Written(g), 0) == (g.edges, 1) && NextNumber(Written(g), 1) == (g.vertices, 2)
    ensures ReadEdges(Written(g), 2, 0, g.edges, g.vertices, Edges([], [], [])) == Ok((Prefix(g, g.edges), PastLines(2, g.edges)))
    ensures At(Written(g), PastLines(2, g.edges), Trailer(g)) && PastLines(2, g.edges) + |Trailer(g)| == |Written(g)|
  {
    var toks := Written(g);
    var head := [Number(g.edges), Number(g.vertices)];
    AtWhole(toks);
    AtSplit(toks, 0, head, Lines(g, 0) + Trailer(g));
    assert toks[0] == head[0] && toks[1] == head[1];
    NumberAtSkips(toks, 0, 0);
    NumberAtSkips(toks, 1, 1);
    AtSplit(toks, 2, Lines(g, 0), Trailer(g));
    AtLines(g, toks, 2, 0);
    ReadLines(g, toks, 2, 0);
    assert Prefix(g, 0) == Edges([], [], []);
  }
}
