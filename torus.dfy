/**
 * The layers of a mapping torus (MappingTorus.java). The base layer has one edge
 * per letter of a train track's fixed word, carrying that letter's image. Each
 * further layer either subdivides the two edges whose images cancel against each
 * other or folds them together. This goes on until no two cyclically adjacent
 * images cancel. A layer records its edges, their images and a label for the
 * initial vertex of each edge.
 *
 * An edge's name is a Java string: the character of a letter, followed by one
 * ".k" mark per subdivision the edge went through. It is modelled as the letter
 * plus the text of the marks.
 */
module MappingTori {
  import opened Wrappers
  import opened Letters
  import opened Numerals
  import P = Paths
  import W = Words
  import GM = GraphMaps

  const EmptyFix := "empty fixed word"
  /** The message of getIm past the edges in use. */
  const TooLarge := "index too large"
  const NoNextLayer := "no next layer"
  const TwoLayers := "need at least two layers"
  /** substring with bounds outside the string (StringIndexOutOfBoundsException). */
  const OutOfRange := "string index out of range"
  /** The model's message when a vertex cycle or the layer loop runs out of fuel. */
  const NoEnd := "out of fuel"

  // ---- computations mod n ----

  /** Java's %: it truncates, so the remainder has the sign of the dividend. */
  function JavaRem(a: int, n: int): int
    requires n > 0
  {
    if a >= 0 then a % n else -((-a) % n)
  }

  /** cyclPrev */
  function CyclPrev(i: int, n: int): int
    requires n > 0
  {
    JavaRem(i - 1 + n, n)
  }

  /** cyclNext */
  function CyclNext(i: int, n: int): int
    requires n > 0
  {
    JavaRem(i + 1, n)
  }

  /** The position cyclLeq gives i when the cycle is read from i0: i itself, or i + n before i0. */
  function Rank(i: int, n: int, i0: int): int
  {
    if i < i0 then i + n else i
  }

  /** cyclLeq */
  function CyclLeq(i: int, j: int, n: int, i0: int): bool
  {
    Rank(i, n, i0) <= Rank(j, n, i0)
  }

  /** On [0, n) the two steps stay in range and undo each other. */
  lemma CyclInverse(i: int, n: int)
    requires 0 <= i < n
    ensures 0 <= CyclNext(i, n) < n && 0 <= CyclPrev(i, n) < n
    ensures CyclNext(i, n) == (if i == n - 1 then 0 else i + 1)
    ensures CyclPrev(i, n) == (if i == 0 then n - 1 else i - 1)
    ensures CyclPrev(CyclNext(i, n), n) == i && CyclNext(CyclPrev(i, n), n) == i
  {
    ModSmall(i + 1, n);
    ModSmall(i - 1 + n, n);
    var j := CyclNext(i, n);
    ModSmall(j - 1 + n, n);
    var k := CyclPrev(i, n);
    ModSmall(k + 1, n);
  }

  /** x mod n for 0 <= x < 2n. */
  lemma ModSmall(x: int, n: int)
    requires 0 <= x < 2 * n
    ensures x % n == (if x < n then x else x - n)
  {
    if x >= n {
      assert x == (x - n) + n;
    }
  }

  /**
   * On [0, n), cyclLeq compares the number of steps from i0: the cycle is read
   * starting at i0, so i0 comes first and any two positions are comparable.
   */
  lemma CyclLeqRotates(i: int, j: int, n: int, i0: int)
    requires 0 <= i < n && 0 <= j < n && 0 <= i0 < n
    ensures CyclLeq(i, j, n, i0) <==> (i - i0) % n <= (j - i0) % n
    ensures CyclLeq(i0, j, n, i0)
    ensures CyclLeq(i, j, n, i0) || CyclLeq(j, i, n, i0)
  {
    StepsFrom(i, n, i0);
    StepsFrom(j, n, i0);
  }

  lemma StepsFrom(i: int, n: int, i0: int)
    requires 0 <= i < n && 0 <= i0 < n
    ensures (i - i0) % n == Rank(i, n, i0) - i0
  {
    if i < i0 {
      assert i - i0 + n == (i - i0) + 1 * n;
      ModSmall(i - i0 + n, n);
    } else {
      ModSmall(i - i0, n);
    }
  }

  // ---- edge names ----

  /** An edge name: the letter of its first character and the marks after it. */
  datatype Name = Name(letter: Sym, marks: string)

  /** inverse(String): flip the letter, keep the marks. */
  function InverseName(s: Name): (r: Name)
    ensures r != s && r.marks == s.marks && r.letter.index == s.letter.index
  {
    Name(Inv(s.letter), s.marks)
  }

  /** Inverting a name twice gives it back. */
  lemma InverseInvolution(s: Name)
    ensures InverseName(InverseName(s)) == s
  {
  }

  /** The mark subdivision number k appends: "." and the number. */
  function Mark(e: Name, k: int): (r: Name)
    ensures r.letter == e.letter && |r.marks| > |e.marks| && r.marks[..|e.marks|] == e.marks
  {
    Name(e.letter, e.marks + "." + IntToString(k))
  }

  /** Marks as subdivision writes them: nothing, or text starting with a dot. */
  predicate Marked(m: string)
  {
    m == [] || m[0] == '.'
  }

  /** toLabel: the label of the letter, then the marks. */
  function ToLabel(s: Name): string
  {
    SymToLabel(s.letter) + s.marks
  }

  /** Different names have different labels, as long as their marks start with a dot. */
  lemma ToLabelInjective(a: Name, b: Name)
    requires Marked(a.marks) && Marked(b.marks)
    requires ToLabel(a) == ToLabel(b)
    ensures a == b
  {
    var la, lb := SymToLabel(a.letter), SymToLabel(b.letter);
    LabelCut(la, lb, a.marks, b.marks);
    LabelCut(lb, la, b.marks, a.marks);
    assert la == ToLabel(a)[..|la|] && lb == ToLabel(b)[..|lb|];
    if a.letter != b.letter {
      LabelsDistinct(a.letter, b.letter);
    }
    assert a.marks == ToLabel(a)[|la|..];
  }

  /** A shorter label followed by dot marks cannot spell a longer label's digits. */
  lemma LabelCut(la: string, lb: string, ma: string, mb: string)
    requires 0 < |la| && 0 < |lb| && AllDigits(lb[1..]) && Marked(ma)
    ensures |la| < |lb| ==> la + ma != lb + mb
  {
    var k := |la|;
    if k < |lb| {
      assert (lb + mb)[k] == lb[1..][k - 1];
      if ma != [] {
        assert (la + ma)[k] == '.';
      }
    }
  }

  /** A letter's label gives every name a label with the dot-free reading of its letter. */
  lemma LabelOfName(s: Name)
    requires Marked(s.marks)
    ensures LabelToSym(ToLabel(s)[..|SymToLabel(s.letter)|]) == Some(s.letter)
  {
    assert ToLabel(s)[..|SymToLabel(s.letter)|] == SymToLabel(s.letter);
    LabelRoundTrip(s.letter);
  }

  /** indexOf on a list of names: the first position of x, or -1. */
  function IndexOf(xs: seq<Name>, x: Name): (r: int)
    ensures -1 <= r < |xs|
    decreases |xs|
  {
    if xs == [] then -1
    else if xs[0] == x then 0
    else
      var r := IndexOf(xs[1..], x);
      if r < 0 then -1 else r + 1
  }

  /** indexOf finds the first occurrence, and gives -1 exactly when there is none. */
  lemma {:induction false} IndexOfFirst(xs: seq<Name>, x: Name)
    ensures IndexOf(xs, x) >= 0 ==> xs[IndexOf(xs, x)] == x && x !in xs[..IndexOf(xs, x)]
    ensures IndexOf(xs, x) == -1 <==> x !in xs
    decreases |xs|
  {
    if xs != [] && xs[0] != x {
      IndexOfFirst(xs[1..], x);
      assert xs == [xs[0]] + xs[1..];
      var r := IndexOf(xs[1..], x);
      if r >= 0 {
        assert xs[..r + 1] == [xs[0]] + xs[1..][..r];
      }
    }
  }

  // ---- vertex labels ----

  /**
   * The edge whose initial vertex is glued to the initial vertex of the edge after
   * edge j's inverse: the position after indexOf(inverse(edges[j])), cyclically.
   */
  function Across(edges: seq<Name>, j: int): (r: int)
    requires 0 <= j < |edges|
    ensures 0 <= r < |edges|
  {
    (IndexOf(edges, InverseName(edges[j])) + 1) % |edges|
  }

  /** Where each step of stdLabels goes from each edge: Across for every position. */
  function Gluing(edges: seq<Name>): (r: seq<int>)
    ensures |r| == |edges| && InRange(r)
  {
    seq(|edges|, j requires 0 <= j < |edges| => Across(edges, j))
  }

  /** Every step leads to a position. */
  predicate InRange(next: seq<int>)
  {
    forall j :: 0 <= j < |next| ==> 0 <= next[j] < |next|
  }

  /** The label stdLabels gives glued vertex number cnt of layer n: "v.n.cnt". */
  function CycleLabel(n: int, cnt: int): string
  {
    "v." + IntToString(n) + "." + IntToString(cnt)
  }

  /** Copy k of a glued vertex: its label, "-" and k. */
  function Copy(lab: string, k: int): (r: string)
    ensures |r| > 0
  {
    lab + "-" + IntToString(k)
  }

  /**
   * The do/while of stdLabels from position j back to i: each step follows next
   * and labels the vertex it reaches; None when the fuel runs out first.
   */
  function LabelCycle(next: seq<int>, vs: seq<string>, i: int, j: int, lab: string, k: int, fuel: nat): (r: Option<seq<string>>)
    requires InRange(next) && |vs| == |next| && 0 <= j < |next|
    ensures r.Some? ==> |r.value| == |next|
    decreases fuel
  {
    if fuel == 0 then None
    else
      var j' := next[j];
      var vs' := vs[j' := Copy(lab, k)];
      if j' == i then Some(vs') else LabelCycle(next, vs', i, j', lab, k + 1, fuel - 1)
  }

  /** The for loop of stdLabels from position i on: a new cycle at every unlabelled vertex. */
  function LabelFrom(next: seq<int>, vs: seq<string>, i: int, n: int, cnt: int, fuel: nat): (r: Option<seq<string>>)
    requires InRange(next) && |vs| == |next| && 0 <= i <= |next|
    decreases |next| - i
  {
    if i == |next| then Some(vs)
    else if |vs[i]| == 0 then
      match LabelCycle(next, vs, i, i, CycleLabel(n, cnt), 0, fuel)
      case None => None
      case Some(vs') => LabelFrom(next, vs', i + 1, n, cnt + 1, fuel)
    else LabelFrom(next, vs, i + 1, n, cnt, fuel)
  }

  /** The labels stdLabels gives the vertices of layer n, each cycle within fuel steps. */
  function Labelling(edges: seq<Name>, n: int, fuel: nat): Option<seq<string>>
  {
    LabelFrom(Gluing(edges), seq(|edges|, _ => ""), 0, n, 0, fuel)
  }

  /** A cycle keeps every label already given and labels the vertex it closes at. */
  lemma {:induction false} LabelCycleKeeps(next: seq<int>, vs: seq<string>, i: int, j: int, lab: string, k: int, fuel: nat)
    requires InRange(next) && |vs| == |next| && 0 <= j < |next| && 0 <= i < |next|
    requires LabelCycle(next, vs, i, j, lab, k, fuel).Some?
    ensures |LabelCycle(next, vs, i, j, lab, k, fuel).value[i]| > 0
    ensures forall m :: 0 <= m < |vs| && |vs[m]| > 0 ==> |LabelCycle(next, vs, i, j, lab, k, fuel).value[m]| > 0
    decreases fuel
  {
    var j' := next[j];
    var vs' := vs[j' := Copy(lab, k)];
    if j' != i {
      LabelCycleKeeps(next, vs', i, j', lab, k + 1, fuel - 1);
    }
  }

  /** Every labelling stdLabels completes gives each vertex a label. */
  lemma {:induction false} LabelFromComplete(next: seq<int>, vs: seq<string>, i: int, n: int, cnt: int, fuel: nat)
    requires InRange(next) && |vs| == |next| && 0 <= i <= |next|
    requires forall m :: 0 <= m < i ==> |vs[m]| > 0
    requires LabelFrom(next, vs, i, n, cnt, fuel).Some?
    ensures |LabelFrom(next, vs, i, n, cnt, fuel).value| == |next|
    ensures forall m :: 0 <= m < |next| ==> |LabelFrom(next, vs, i, n, cnt, fuel).value[m]| > 0
    decreases |next| - i, 1
  {
    if i < |next| {
      if |vs[i]| == 0 {
        LabelFromCycle(next, vs, i, n, cnt, fuel);
      } else {
        LabelFromComplete(next, vs, i + 1, n, cnt, fuel);
      }
    }
  }

  /** The step of LabelFromComplete at a vertex without a label: its cycle labels it. */
  lemma {:induction false} LabelFromCycle(next: seq<int>, vs: seq<string>, i: int, n: int, cnt: int, fuel: nat)
    requires InRange(next) && |vs| == |next| && 0 <= i < |next| && |vs[i]| == 0
    requires forall m :: 0 <= m < i ==> |vs[m]| > 0
    requires LabelFrom(next, vs, i, n, cnt, fuel).Some?
    ensures |LabelFrom(next, vs, i, n, cnt, fuel).value| == |next|
    ensures forall m :: 0 <= m < |next| ==> |LabelFrom(next, vs, i, n, cnt, fuel).value[m]| > 0
    decreases |next| - i, 0
  {
    var c := LabelCycle(next, vs, i, i, CycleLabel(n, cnt), 0, fuel);
    assert c.Some? && LabelFrom(next, vs, i, n, cnt, fuel) == LabelFrom(next, c.value, i + 1, n, cnt + 1, fuel);
    LabelCycleKeeps(next, vs, i, i, CycleLabel(n, cnt), 0, fuel);
    LabelFromComplete(next, c.value, i + 1, n, cnt + 1, fuel);
  }

  /** stdLabels leaves no vertex with the dummy label. */
  lemma LabellingComplete(edges: seq<Name>, n: int, fuel: nat)
    requires Labelling(edges, n, fuel).Some?
    ensures |Labelling(edges, n, fuel).value| == |edges|
    ensures forall m :: 0 <= m < |edges| ==> |Labelling(edges, n, fuel).value[m]| > 0
  {
    LabelFromComplete(Gluing(edges), seq(|edges|, _ => ""), 0, n, 0, fuel);
  }

  // ---- the images ----

  /** size(): the sum of the lengths of the images. */
  function TotalLength(images: seq<P.Path>): nat
  {
    if images == [] then 0 else TotalLength(images[..|images| - 1]) + |images[|images| - 1]|
  }

  /** The size of a concatenation is the sum of the sizes. */
  lemma {:induction false} SizeAppend(a: seq<P.Path>, b: seq<P.Path>)
    ensures TotalLength(a + b) == TotalLength(a) + TotalLength(b)
    decreases |b|
  {
    if b == [] {
      assert a + b == a;
    } else {
      var front := b[..|b| - 1];
      assert (a + b)[..|a + b| - 1] == a + front;
      assert (a + b)[|a + b| - 1] == b[|b| - 1];
      SizeAppend(a, front);
    }
  }

  /** Images i and i + 1 (cyclically) cancel: their concatenation tightens to something shorter. */
  predicate Cancels(images: seq<P.Path>, i: int)
    requires 0 <= i < |images|
  {
    var s := images[i] + images[CyclNext(i, |images|)];
    |P.Tighten(s)| < |s|
  }

  /** The first position from i on whose image cancels with the next one, or -1. */
  function FirstFold(images: seq<P.Path>, i: nat): (r: int)
    requires i <= |images|
    ensures r == -1 || (i <= r < |images| && Cancels(images, r))
    ensures forall k :: i <= k < |images| && (r == -1 || k < r) ==> !Cancels(images, k)
    decreases |images| - i
  {
    if i == |images| then -1
    else if Cancels(images, i) then i
    else FirstFold(images, i + 1)
  }

  /** The edges of the base layer: one per letter of the fixed word, without marks. */
  function BaseEdges(fix: P.Path): (r: seq<Name>)
    ensures |r| == |fix|
  {
    seq(|fix|, i requires 0 <= i < |fix| => Name(fix[i], ""))
  }

  /** The image of a letter: the edge's image, reversed for a backward letter. */
  function LetterImage(im: seq<P.Path>, c: Sym): P.Path
    requires c.index < |im|
  {
    if c.inv then P.Reverse(im[c.index]) else im[c.index]
  }

  /**
   * Edges that are each other's inverse carry images that are each other's
   * reverse, as in the base layer.
   */
  predicate Consistent(edges: seq<Name>, images: seq<P.Path>)
    requires |images| == |edges|
  {
    forall i, j :: 0 <= i < |edges| && 0 <= j < |edges| && edges[j] == InverseName(edges[i]) ==>
      images[j] == P.Reverse(images[i])
  }

  /** The base layer's images agree on inverse edges. */
  lemma BaseConsistent(fix: P.Path, im: seq<P.Path>)
    requires P.LettersBelow(fix, |im|)
    ensures Consistent(BaseEdges(fix), seq(|fix|, i requires 0 <= i < |fix| => LetterImage(im, fix[i])))
  {
    var edges := BaseEdges(fix);
    var images := seq(|fix|, i requires 0 <= i < |fix| => LetterImage(im, fix[i]));
    forall i, j | 0 <= i < |edges| && 0 <= j < |edges| && edges[j] == InverseName(edges[i])
      ensures images[j] == P.Reverse(images[i])
    {
      assert fix[j] == Inv(fix[i]);
      P.ReverseReverse(im[fix[i].index]);
    }
  }

  /** The images of the base layer: each letter's image, in the order of the fixed word. */
  function BaseImages(fix: P.Path, im: seq<P.Path>): (r: seq<P.Path>)
    requires P.LettersBelow(fix, |im|)
    ensures |r| == |fix|
  {
    seq(|fix|, i requires 0 <= i < |fix| => LetterImage(im, fix[i]))
  }

  // ---- subdivision ----

  /** The type of a layer: the base layer, or one obtained by folding or by subdivision. */
  datatype Kind = Base | Fold | Subd

  /** What the subdivision loop has built so far of the new layer. */
  datatype Cut = Cut(edges: seq<Name>, images: seq<P.Path>, f0: int, subd0: bool, subd1: bool)

  /** One more edge copied with its image. */
  function Keep(c: Cut, e: Name, im: P.Path): Cut
  {
    c.(edges := c.edges + [e], images := c.images + [im])
  }

  /** Two more edges, the pieces of a subdivided one. */
  function Split(c: Cut, e1: Name, e2: Name, im1: P.Path, im2: P.Path): Cut
  {
    c.(edges := c.edges + [e1, e2], images := c.images + [im1, im2])
  }

  /**
   * The positions the subdivision loop treats specially: edge it, the edge nx
   * after it, and the first positions of their inverses (-1 if absent), with the
   * images s1 of it and s2 of nx.
   */
  datatype Spots = Spots(it: int, nx: int, inv1: int, inv2: int, s1: P.Path, s2: P.Path)

  /** The spots of the fold at it. */
  function SpotsAt(edges: seq<Name>, images: seq<P.Path>, it: int): (p: Spots)
    requires |images| == |edges| && 0 <= it < |edges|
    ensures 0 <= p.it < |edges|
  {
    var nx := CyclNext(it, |edges|);
    CyclInverse(it, |edges|);
    Spots(it, nx, IndexOf(edges, InverseName(edges[it])), IndexOf(edges, InverseName(edges[nx])), images[it], images[nx])
  }

  /**
   * What the subdivision loop adds for edge i when d letters cancel between s1
   * and s2. Edge it keeps the first |s1| - d letters and a new marked edge takes
   * the last d; the edge after it is cut after d letters; their inverses are cut
   * the other way round.
   */
  function CutEdge(edges: seq<Name>, images: seq<P.Path>, p: Spots, d: nat, k: int, c: Cut, i: int): Result<Cut>
    requires |images| == |edges| && 0 <= i < |edges|
  {
    var e := edges[i];
    var s1, s2 := p.s1, p.s2;
    if i == p.it then
      CutOne(c.(f0 := |c.edges|), c.(f0 := |c.edges| + 1, subd0 := true), e, images[i], s1, d, |s1| - d, e, Mark(e, k))
    else if i == p.nx then
      CutOne(c, c.(subd1 := true), e, images[i], s2, d, d, Mark(e, k), e)
    else if i == p.inv1 then
      CutOne(c, c.(subd0 := true), e, images[i], P.Reverse(s1), d, d, Mark(e, k), e)
    else if i == p.inv2 then
      CutOne(c, c.(subd1 := true), e, images[i], P.Reverse(s2), d, |s2| - d, e, Mark(e, k))
    else Ok(Keep(c, e, images[i]))
  }

  /**
   * One edge of the subdivision loop whose word w may need cutting: kept whole
   * (image im) when w has exactly d letters, cut at position j into e1 and e2
   * when it has more, and an exception from substring when it has fewer.
   */
  function CutOne(keep: Cut, split: Cut, e: Name, im: P.Path, w: P.Path, d: nat, j: int, e1: Name, e2: Name): Result<Cut>
    requires |w| > d ==> 0 <= j <= |w|
  {
    if |w| == d then Ok(Keep(keep, e, im))
    else if |w| < d then Err(OutOfRange)
    else Ok(Split(split, e1, e2, w[..j], w[j..]))
  }

  /** The subdivision loop from edge i on. */
  function CutFrom(edges: seq<Name>, images: seq<P.Path>, p: Spots, d: nat, k: int, c: Cut, i: int): Result<Cut>
    requires |images| == |edges| && 0 <= p.it < |edges| && 0 <= i <= |edges|
    decreases |edges| - i
  {
    if i == |edges| then Ok(c)
    else
      match CutEdge(edges, images, p, d, k, c, i)
      case Err(m) => Err(m)
      case Ok(c') => CutFrom(edges, images, p, d, k, c', i + 1)
  }

  /** The number of letters that cancel in a word: half the letters tightening removes. */
  function Cancelled(s: P.Path): (d: nat)
  {
    P.TightenLength(s);
    (|s| - |P.Tighten(s)|) / 2
  }

  /** The edges and images of the subdivision layer for the fold at it, with marker k. */
  function Subdivide(edges: seq<Name>, images: seq<P.Path>, it: int, k: int): Result<Cut>
    requires |images| == |edges| && 0 <= it < |edges|
  {
    var d := Cancelled(images[it] + images[CyclNext(it, |edges|)]);
    CutFrom(edges, images, SpotsAt(edges, images, it), d, k, Cut([], [], 0, false, false), 0)
  }

  // ---- folding ----

  /** The number of edges that survive a fold: all but the two folded ones. */
  function FoldCount(n0: int): nat
  {
    if n0 >= 2 then n0 - 2 else 0
  }

  /** The name an edge takes in the folded layer: the folded pair becomes the edge after f0. */
  function Rename(s: Name, f1: Name, f2: Name): Name
  {
    if s == f1 then f2 else if s == InverseName(f1) then InverseName(f2) else s
  }

  /**
   * The edges of the fold layer: every edge but f0 and the one after it, read
   * cyclically from two past f0, with the inverse of f0 renamed to the edge after
   * it and f0 itself to that edge's inverse.
   */
  function FoldEdges(edges: seq<Name>, f0: int): (r: seq<Name>)
    requires 0 <= f0 < |edges|
    ensures |r| == FoldCount(|edges|)
  {
    var n0 := |edges|;
    var f1 := InverseName(edges[f0]);
    var f2 := edges[CyclNext(f0, n0)];
    seq(FoldCount(n0), k requires 0 <= k < FoldCount(n0) => Rename(edges[(f0 + 2 + k) % n0], f1, f2))
  }

  /** The images of the fold layer: those of the surviving edges, in the same order. */
  function FoldImages(images: seq<P.Path>, f0: int): (r: seq<P.Path>)
    requires 0 <= f0 < |images|
    ensures |r| == FoldCount(|images|)
  {
    var n0 := |images|;
    seq(FoldCount(n0), k requires 0 <= k < FoldCount(n0) => images[(f0 + 2 + k) % n0])
  }

  /** A sequence read cyclically from position j. */
  function Rotate<T>(xs: seq<T>, j: int): seq<T>
    requires 0 <= j <= |xs|
  {
    xs[j..] + xs[..j]
  }

  lemma RotateAt<T>(xs: seq<T>, j: int, m: int)
    requires 0 <= j < |xs| && 0 <= m < |xs|
    ensures Rotate(xs, j)[m] == xs[(j + m) % |xs|]
  {
    ModSmall(j + m, |xs|);
  }

  /** The fold layer's images are the old ones read from f0, without the first two. */
  lemma FoldIsRotation(images: seq<P.Path>, f0: int)
    requires 0 <= f0 < |images| && |images| >= 2
    ensures Rotate(images, f0) == [images[f0], images[CyclNext(f0, |images|)]] + FoldImages(images, f0)
  {
    var n0 := |images|;
    var r := Rotate(images, f0);
    forall m | 0 <= m < n0 ensures r[m] == images[(f0 + m) % n0] {
      RotateAt(images, f0, m);
    }
    CyclInverse(f0, n0);
    ModSmall(f0 + 1, n0);
    assert r[2..] == FoldImages(images, f0);
    assert r == [r[0], r[1]] + r[2..];
  }

  /** Reading a sequence from another position keeps its elements and its size. */
  lemma RotateKeeps(xs: seq<P.Path>, j: int)
    requires 0 <= j <= |xs|
    ensures multiset(Rotate(xs, j)) == multiset(xs)
    ensures TotalLength(Rotate(xs, j)) == TotalLength(xs)
  {
    assert xs == xs[..j] + xs[j..];
    SizeAppend(xs[j..], xs[..j]);
    SizeAppend(xs[..j], xs[j..]);
  }

  /** The size of two images and then more. */
  lemma SizePair(a: P.Path, b: P.Path, rest: seq<P.Path>)
    ensures TotalLength([a, b] + rest) == |a| + |b| + TotalLength(rest)
  {
    SizeAppend([a, b], rest);
    assert [a, b][..1] == [a] && [a][..0] == [];
    assert TotalLength([a]) == |a|;
    assert TotalLength([a, b]) == |a| + |b|;
  }

  /**
   * Folding drops exactly the images of f0 and the edge after it: the fold layer's
   * images with those two are the old images, and its size is the old size less
   * their lengths.
   */
  lemma FoldDropsPair(images: seq<P.Path>, f0: int)
    requires 0 <= f0 < |images| && |images| >= 2
    ensures multiset(FoldImages(images, f0)) + multiset{images[f0], images[CyclNext(f0, |images|)]} == multiset(images)
    ensures TotalLength(FoldImages(images, f0)) + |images[f0]| + |images[CyclNext(f0, |images|)]| == TotalLength(images)
  {
    FoldIsRotation(images, f0);
    RotateKeeps(images, f0);
    SizePair(images[f0], images[CyclNext(f0, |images|)], FoldImages(images, f0));
  }

  // ---- the next layer ----

  /** The fields of the next layer, and the folded edge and marker nextLayer leaves behind. */
  datatype Next = Next(kind: Kind, f0: int, F0: int, subd0: bool, subd1: bool,
                       edges: seq<Name>, images: seq<P.Path>, thisF0: int, splt: int)

  /** The fold layer for folding f0 with the edge after it. */
  function Folded(edges: seq<Name>, images: seq<P.Path>, f0: int, F0: int, splt: int): Next
    requires |images| == |edges| && 0 <= f0 < |edges|
  {
    Next(Fold, 0, F0, false, false, FoldEdges(edges, f0), FoldImages(images, f0), f0, splt)
  }

  /**
   * nextLayer before the vertex labels: a layer that is no subdivision looks for
   * a fold and throws when there is none; if the two images cancel only in part,
   * the edges are subdivided first (marker splt, counted up), otherwise they are
   * folded. A subdivision layer folds the edge it has prepared.
   */
  function Successor(kind: Kind, f0: int, edges: seq<Name>, images: seq<P.Path>, splt: int): Result<Next>
    requires |images| == |edges| && (kind == Subd ==> 0 <= f0 < |edges|)
  {
    if kind != Subd then
      var it := FirstFold(images, 0);
      if it < 0 then Err(NoNextLayer)
      else
        var s := images[it] + images[CyclNext(it, |edges|)];
        if |P.Tighten(s)| > 0 then
          match Subdivide(edges, images, it, splt)
          case Err(m) => Err(m)
          case Ok(c) => Ok(Next(Subd, c.f0, it, c.subd0, c.subd1, c.edges, c.images, f0, splt + 1))
        else Ok(Folded(edges, images, it, it, splt))
    else Ok(Folded(edges, images, f0, 0, splt))
  }

  /** y is what nextLayer makes of x: from its kind, its f0, its edges and images, and the split count x left behind. */
  ghost predicate Succeeds(x: Next, y: Next)
  {
    |x.images| == |x.edges| && (x.kind == Subd ==> 0 <= x.f0 < |x.edges|) &&
    Successor(x.kind, x.f0, x.edges, x.images, x.splt) == Ok(y)
  }

  /** The value at i + 1 is what nextLayer makes of the one at i. */
  ghost predicate Link(ns: seq<Next>, i: nat)
    requires i + 1 < |ns|
  {
    Succeeds(ns[i], ns[i + 1])
  }

  /** Each value is what nextLayer makes of the one before it. */
  ghost predicate Chain(ns: seq<Next>)
  {
    forall i: nat {:trigger Link(ns, i)} :: i + 1 < |ns| ==> Link(ns, i)
  }

  /** A chain grows by the successor of its last value. */
  lemma ChainSnoc(ns: seq<Next>, y: Next)
    requires Chain(ns) && |ns| > 0 && Succeeds(ns[|ns| - 1], y)
    ensures Chain(ns + [y]) && (ns + [y])[..|ns|] == ns
  {
    var ms := ns + [y];
    forall i: nat | i + 1 < |ms|
      ensures Link(ms, i)
    {
      assert ms[i] == ns[i];
      if i + 1 < |ns| {
        assert Link(ns, i);
        assert ms[i + 1] == ns[i + 1];
      }
    }
  }

  /** Subdivision can only fail inside substring. */
  lemma {:induction false} CutFromFails(edges: seq<Name>, images: seq<P.Path>, p: Spots, d: nat, k: int, c: Cut, i: int)
    requires |images| == |edges| && 0 <= p.it < |edges| && 0 <= i <= |edges|
    ensures CutFrom(edges, images, p, d, k, c, i).Err? ==> CutFrom(edges, images, p, d, k, c, i).msg == OutOfRange
    decreases |edges| - i
  {
    if i < |edges| {
      var r := CutEdge(edges, images, p, d, k, c, i);
      if r.Ok? {
        CutFromFails(edges, images, p, d, k, r.value, i + 1);
      }
    }
  }

  /** nextLayer throws "no next layer" exactly when a layer that is no subdivision has no fold. */
  lemma NoNextLayerExactly(kind: Kind, f0: int, edges: seq<Name>, images: seq<P.Path>, splt: int)
    requires |images| == |edges| && (kind == Subd ==> 0 <= f0 < |edges|)
    ensures Successor(kind, f0, edges, images, splt) == Err(NoNextLayer) <==> kind != Subd && FirstFold(images, 0) == -1
  {
    var it := FirstFold(images, 0);
    if kind != Subd && it >= 0 {
      var d := Cancelled(images[it] + images[CyclNext(it, |edges|)]);
      CutFromFails(edges, images, SpotsAt(edges, images, it), d, splt, Cut([], [], 0, false, false), 0);
    }
  }

  /** A fold layer has two edges fewer than the layer it comes from, and an image per edge. */
  lemma FoldLayerSize(kind: Kind, f0: int, edges: seq<Name>, images: seq<P.Path>, splt: int)
    requires |images| == |edges| && (kind == Subd ==> 0 <= f0 < |edges|)
    requires Successor(kind, f0, edges, images, splt).Ok? && Successor(kind, f0, edges, images, splt).value.kind == Fold
    ensures |edges| >= 2 ==> |Successor(kind, f0, edges, images, splt).value.edges| == |edges| - 2
    ensures |Successor(kind, f0, edges, images, splt).value.images| == |Successor(kind, f0, edges, images, splt).value.edges|
  {
  }

  /** The subdivision loop keeps one image per edge and leaves f0 on an edge once it has passed edge it. */
  lemma {:induction false} CutFromShape(edges: seq<Name>, images: seq<P.Path>, p: Spots, d: nat, k: int, c: Cut, i: int)
    requires |images| == |edges| && 0 <= p.it < |edges| && 0 <= i <= |edges|
    requires |c.images| == |c.edges| && (i > p.it ==> 0 <= c.f0 < |c.edges|)
    requires CutFrom(edges, images, p, d, k, c, i).Ok?
    ensures |CutFrom(edges, images, p, d, k, c, i).value.images| == |CutFrom(edges, images, p, d, k, c, i).value.edges|
    ensures 0 <= CutFrom(edges, images, p, d, k, c, i).value.f0 < |CutFrom(edges, images, p, d, k, c, i).value.edges|
    decreases |edges| - i
  {
    if i < |edges| {
      var c' := CutEdge(edges, images, p, d, k, c, i).value;
      CutFromShape(edges, images, p, d, k, c', i + 1);
    }
  }

  /** The next layer's lists have one image per edge, and a subdivision layer's f0 is one of its edges. */
  lemma SuccessorShape(kind: Kind, f0: int, edges: seq<Name>, images: seq<P.Path>, splt: int)
    requires |images| == |edges| && (kind == Subd ==> 0 <= f0 < |edges|)
    requires Successor(kind, f0, edges, images, splt).Ok?
    ensures |Successor(kind, f0, edges, images, splt).value.images| == |Successor(kind, f0, edges, images, splt).value.edges|
    ensures Successor(kind, f0, edges, images, splt).value.kind == Subd ==>
      0 <= Successor(kind, f0, edges, images, splt).value.f0 < |Successor(kind, f0, edges, images, splt).value.edges|
  {
    var it := FirstFold(images, 0);
    if kind != Subd && it >= 0 {
      var d := Cancelled(images[it] + images[CyclNext(it, |edges|)]);
      if Subdivide(edges, images, it, splt).Ok? {
        CutFromShape(edges, images, SpotsAt(edges, images, it), d, splt, Cut([], [], 0, false, false), 0);
      }
    }
  }

  /** Adding images one or two at a time adds their lengths to the size. */
  lemma SizeKeepSplit(c: Cut, e: Name, im: P.Path, e1: Name, e2: Name, im1: P.Path, im2: P.Path)
    ensures TotalLength(Keep(c, e, im).images) == TotalLength(c.images) + |im|
    ensures TotalLength(Split(c, e1, e2, im1, im2).images) == TotalLength(c.images) + |im1| + |im2|
  {
    assert (c.images + [im])[..|c.images|] == c.images;
    SizeAppend(c.images, [im1, im2]);
    SizePair(im1, im2, []);
    assert [im1, im2] + [] == [im1, im2];
  }

  /** Cutting a word in two and adding both pieces adds its length. */
  lemma SplitSize(c: Cut, e1: Name, e2: Name, w: P.Path, j: int)
    requires 0 <= j <= |w|
    ensures TotalLength(Split(c, e1, e2, w[..j], w[j..]).images) == TotalLength(c.images) + |w|
  {
    SizeKeepSplit(c, e1, [], e1, e2, w[..j], w[j..]);
  }

  lemma CutEdgeSize(edges: seq<Name>, images: seq<P.Path>, p: Spots, d: nat, k: int, c: Cut, i: int)
    requires |images| == |edges| && 0 <= i < |edges|
    requires Fits(images, p)
    requires CutEdge(edges, images, p, d, k, c, i).Ok?
    ensures TotalLength(CutEdge(edges, images, p, d, k, c, i).value.images) == TotalLength(c.images) + |images[i]|
  {
    var e := edges[i];
    var s1, s2 := p.s1, p.s2;
    var r := CutEdge(edges, images, p, d, k, c, i);
    if i == p.it {
      var keep, split := c.(f0 := |c.edges|), c.(f0 := |c.edges| + 1, subd0 := true);
      assert r == CutOne(keep, split, e, images[i], s1, d, |s1| - d, e, Mark(e, k));
      CutOneSize(keep, split, e, images[i], s1, d, |s1| - d, e, Mark(e, k));
    } else if i == p.nx {
      assert r == CutOne(c, c.(subd1 := true), e, images[i], s2, d, d, Mark(e, k), e);
      CutOneSize(c, c.(subd1 := true), e, images[i], s2, d, d, Mark(e, k), e);
    } else if i == p.inv1 {
      var w := P.Reverse(s1);
      assert r == CutOne(c, c.(subd0 := true), e, images[i], w, d, d, Mark(e, k), e);
      CutOneSize(c, c.(subd0 := true), e, images[i], w, d, d, Mark(e, k), e);
    } else if i == p.inv2 {
      var w := P.Reverse(s2);
      assert r == CutOne(c, c.(subd1 := true), e, images[i], w, d, |s2| - d, e, Mark(e, k));
      CutOneSize(c, c.(subd1 := true), e, images[i], w, d, |s2| - d, e, Mark(e, k));
    } else {
      assert r == Ok(Keep(c, e, images[i]));
      SizeKeepSplit(c, e, images[i], e, e, [], []);
    }
  }

  /** The images at the spots are as long as the words the subdivision loop cuts there. */
  predicate Fits(images: seq<P.Path>, p: Spots)
  {
    (0 <= p.it < |images| ==> |images[p.it]| == |p.s1|) &&
    (0 <= p.nx < |images| ==> |images[p.nx]| == |p.s2|) &&
    (0 <= p.inv1 < |images| ==> |images[p.inv1]| == |p.s1|) &&
    (0 <= p.inv2 < |images| ==> |images[p.inv2]| == |p.s2|)
  }

  /** In a consistent layer the inverse of an edge carries an image as long as the edge's. */
  lemma SpotsFit(edges: seq<Name>, images: seq<P.Path>, it: int)
    requires |images| == |edges| && 0 <= it < |edges| && Consistent(edges, images)
    ensures Fits(images, SpotsAt(edges, images, it))
  {
    var nx := CyclNext(it, |edges|);
    CyclInverse(it, |edges|);
    IndexOfFirst(edges, InverseName(edges[it]));
    IndexOfFirst(edges, InverseName(edges[nx]));
  }

  /** A step that keeps or cuts a word adds its length to the size. */
  lemma CutOneSize(keep: Cut, split: Cut, e: Name, im: P.Path, w: P.Path, d: nat, j: int, e1: Name, e2: Name)
    requires |w| > d ==> 0 <= j <= |w|
    requires keep.images == split.images && |im| == |w|
    requires CutOne(keep, split, e, im, w, d, j, e1, e2).Ok?
    ensures TotalLength(CutOne(keep, split, e, im, w, d, j, e1, e2).value.images) == TotalLength(keep.images) + |w|
  {
    if |w| == d {
      SizeKeepSplit(keep, e, im, e1, e2, [], []);
    } else {
      SplitSize(split, e1, e2, w, j);
    }
  }

  /** From edge i on, the subdivision loop adds the size of the remaining images. */
  lemma {:induction false} CutFromSize(edges: seq<Name>, images: seq<P.Path>, p: Spots, d: nat, k: int, c: Cut, i: int)
    requires |images| == |edges| && 0 <= p.it < |edges| && 0 <= i <= |edges|
    requires Fits(images, p)
    requires CutFrom(edges, images, p, d, k, c, i).Ok?
    ensures TotalLength(CutFrom(edges, images, p, d, k, c, i).value.images) == TotalLength(c.images) + TotalLength(images[i..])
    decreases |edges| - i
  {
    if i == |edges| {
      assert images[i..] == [];
    } else {
      var c' := CutEdge(edges, images, p, d, k, c, i).value;
      CutEdgeSize(edges, images, p, d, k, c, i);
      CutFromSize(edges, images, p, d, k, c', i + 1);
      assert images[i..] == [images[i]] + images[i + 1..];
      SizeAppend([images[i]], images[i + 1..]);
      assert [images[i]][..0] == [];
    }
  }

  /**
   * Subdivision only cuts images into pieces: where the images of inverse edges
   * agree, as they do in the base layer, the size stays the same.
   */
  lemma SubdivisionKeepsSize(kind: Kind, f0: int, edges: seq<Name>, images: seq<P.Path>, splt: int)
    requires |images| == |edges| && (kind == Subd ==> 0 <= f0 < |edges|)
    requires Consistent(edges, images)
    requires Successor(kind, f0, edges, images, splt).Ok? && Successor(kind, f0, edges, images, splt).value.kind == Subd
    ensures TotalLength(Successor(kind, f0, edges, images, splt).value.images) == TotalLength(images)
  {
    var it := FirstFold(images, 0);
    var d := Cancelled(images[it] + images[CyclNext(it, |edges|)]);
    SpotsFit(edges, images, it);
    CutFromSize(edges, images, SpotsAt(edges, images, it), d, splt, Cut([], [], 0, false, false), 0);
    assert images[0..] == images;
  }

  /** Subdivision fails only inside substring, and nextLayer throws nothing else. */
  lemma SuccessorFails(kind: Kind, f0: int, edges: seq<Name>, images: seq<P.Path>, splt: int)
    requires |images| == |edges| && (kind == Subd ==> 0 <= f0 < |edges|)
    requires Successor(kind, f0, edges, images, splt).Err?
    ensures Successor(kind, f0, edges, images, splt).msg in {NoNextLayer, OutOfRange}
  {
    var it := FirstFold(images, 0);
    if kind != Subd && it >= 0 {
      var d := Cancelled(images[it] + images[CyclNext(it, |edges|)]);
      CutFromFails(edges, images, SpotsAt(edges, images, it), d, splt, Cut([], [], 0, false, false), 0);
    }
  }

  /**
   * The fold loop's cursor: it starts two past f0, and reaches f0 again exactly
   * after visiting every edge but the folded pair.
   */
  lemma FoldCursor(f0: int, n0: int, k: int)
    requires 0 <= f0 < n0 && 0 <= k <= FoldCount(n0)
    ensures CyclNext(f0 + 1, n0) == (f0 + 2) % n0
    ensures (f0 + 2 + k) % n0 == f0 <==> k == FoldCount(n0)
    ensures k < FoldCount(n0) ==> CyclNext((f0 + 2 + k) % n0, n0) == (f0 + 2 + k + 1) % n0
  {
    if n0 >= 2 {
      var x := f0 + 2 + k;
      ModSmall(x, n0);
      if k < FoldCount(n0) {
        ModSmall(x + 1, n0);
        ModSmall(x % n0 + 1, n0);
      }
    }
  }

  /** A prefix one longer is the prefix and the next element. */
  lemma PrefixSnoc<T>(xs: seq<T>, k: int)
    requires 0 <= k < |xs|
    ensures xs[..k + 1] == xs[..k] + [xs[k]]
  {
  }

  /** A layer of the mapping torus. */
  class Layer {
    var n: int
    var kind: Kind
    var f0: int
    var F0: int
    var subd0: bool
    var subd1: bool
    var edges: seq<Name>
    var images: seq<P.Path>
    var vertices: seq<string>

    /** One image and one vertex label per edge; a subdivision layer's f0 is one of its edges. */
    predicate Valid()
      reads this
    {
      |images| == |edges| && |vertices| == |edges| && (kind == Subd ==> 0 <= f0 < |edges|)
    }

    /** The fields a layer keeps once it is built; f0 alone changes, when the next layer is made. */
    predicate Shows(x: Next)
      reads this`kind, this`F0, this`subd0, this`subd1, this`edges, this`images
    {
      kind == x.kind && F0 == x.F0 && subd0 == x.subd0 && subd1 == x.subd1 && edges == x.edges && images == x.images
    }

    /** The fields nextLayer computes, as a value. */
    predicate Is(x: Next)
      reads this
    {
      kind == x.kind && f0 == x.f0 && F0 == x.F0 && subd0 == x.subd0 && subd1 == x.subd1 &&
      edges == x.edges && images == x.images
    }

    /** What the subdivision loop has built, as a value. */
    function Built(): Cut
      reads this
    {
      Cut(edges, images, f0, subd0, subd1)
    }

    /** Layer(int): an empty layer with number nn. */
    constructor Empty(nn: int)
      ensures n == nn && kind == Base && f0 == 0 && F0 == 0 && !subd0 && !subd1
      ensures edges == [] && images == [] && vertices == []
    {
      n := nn;
      kind := Base;
      f0 := 0;
      F0 := 0;
      edges := [];
      images := [];
      vertices := [];
      subd0 := false;
      subd1 := false;
    }

    /**
     * Layer(TrainTrack): an edge for each letter of the fixed word, carrying the
     * image of the letter's edge, reversed for a backward letter; then the
     * standard vertex labels. Throws on an empty fixed word, and getIm throws on
     * a letter past the edges in use.
     */
    static method FromTrack(t: GM.GraphMap, fuel: nat) returns (l: Layer?, res: Outcome)
      requires t.Valid()
      ensures res.Pass? <==> t.fix != [] && P.LettersBelow(t.fix, t.edges) && Labelling(BaseEdges(t.fix), 0, fuel).Some?
      ensures res.Fail? ==> l == null
      ensures res.Fail? ==> res.msg == (if t.fix == [] then EmptyFix else if !P.LettersBelow(t.fix, t.edges) then TooLarge else NoEnd)
      ensures res.Pass? ==> l != null && fresh(l) && l.Valid() && l.n == 0 && l.kind == Base
      ensures res.Pass? ==> l.edges == BaseEdges(t.fix) && l.images == BaseImages(t.fix, t.im[..t.edges])
      ensures res.Pass? ==> l.vertices == Labelling(l.edges, 0, fuel).value
    {
      if t.fix == [] {
        return null, Fail(EmptyFix);
      }
      l := new Layer.Empty(0);
      l.kind := Base;
      var fix := t.fix;
      var i := 0;
      while i < |fix|
        invariant 0 <= i <= |fix| && P.LettersBelow(fix[..i], t.edges)
        invariant l.edges == BaseEdges(fix[..i]) && l.images == BaseImages(fix[..i], t.im[..t.edges])
        invariant l.n == 0 && l.kind == Base && l.vertices == []
        invariant fresh(l)
      {
        var c := fix[i];
        var e := c.index;
        if e >= t.edges {
          return null, Fail(TooLarge);
        }
        assert fix[..i + 1] == fix[..i] + [c];
        if !c.inv {
          l.edges := l.edges + [Name(c, "")];
          l.images := l.images + [t.im[e]];
        } else {
          l.edges := l.edges + [Name(c, "")];
          var r := W.ReverseWord(t.im[e]);
          l.images := l.images + [r];
        }
        i := i + 1;
      }
      assert fix[..i] == fix;
      var r := l.StdLabels(fuel);
      if r.Fail? {
        return null, r;
      }
      l.n := 0;
      res := Pass;
    }

    /** stdLabels: label the vertices cycle by cycle, as "v.n.m-k". */
    method StdLabels(fuel: nat) returns (res: Outcome)
      modifies this`vertices
      ensures res.Pass? <==> Labelling(edges, n, fuel).Some?
      ensures res.Pass? ==> vertices == Labelling(edges, n, fuel).value
      ensures res.Pass? ==> |vertices| == |edges| && forall m :: 0 <= m < |edges| ==> |vertices[m]| > 0
      ensures res.Fail? ==> res.msg == NoEnd
    {
      var m := |edges|;
      ghost var next := Gluing(edges);
      vertices := [];
      var i := 0;
      while i < m
        invariant 0 <= i <= m && vertices == seq(i, _ => "")
      {
        vertices := vertices + [""];
        i := i + 1;
      }
      var cnt := 0;
      i := 0;
      while i < m
        invariant 0 <= i <= m && |vertices| == m
        invariant LabelFrom(next, vertices, i, n, cnt, fuel) == Labelling(edges, n, fuel)
      {
        if |vertices[i]| == 0 {
          var lab := CycleLabel(n, cnt);
          cnt := cnt + 1;
          var r := GlueCycle(edges, vertices, i, lab, fuel);
          if r.None? {
            return Fail(NoEnd);
          }
          vertices := r.value;
        }
        i := i + 1;
      }
      LabellingComplete(edges, n, fuel);
      return Pass;
    }

    /** The do/while of stdLabels: follow the gluing from i until it comes back, labelling as it goes. */
    static method GlueCycle(es: seq<Name>, vs: seq<string>, i: int, lab: string, fuel: nat) returns (r: Option<seq<string>>)
      requires |vs| == |es| && 0 <= i < |es|
      ensures r == LabelCycle(Gluing(es), vs, i, i, lab, 0, fuel)
    {
      ghost var next := Gluing(es);
      var j := i;
      var k := 0;
      var f := fuel;
      var cur := vs;
      while true
        invariant 0 <= j < |es| && |cur| == |es|
        invariant LabelCycle(next, cur, i, j, lab, k, f) == LabelCycle(next, vs, i, i, lab, 0, fuel)
        decreases f
      {
        if f == 0 {
          return None;
        }
        j := (IndexOf(es, InverseName(es[j])) + 1) % |es|;
        cur := cur[j := Copy(lab, k)];
        k := k + 1;
        f := f - 1;
        if i == j {
          return Some(cur);
        }
      }
    }

    /** findFold: the first edge whose image cancels against the next one, or -1. */
    method FindFold() returns (it: int)
      requires Valid()
      ensures it == FirstFold(images, 0)
    {
      var i := 0;
      while i < |edges|
        invariant 0 <= i <= |edges|
        invariant FirstFold(images, i) == FirstFold(images, 0)
      {
        var s := images[i] + images[CyclNext(i, |edges|)];
        var t := W.TightenWord(s);
        if |t| < |s| {
          return i;
        }
        i := i + 1;
      }
      return -1;
    }

    /** size(): the total length of the images. */
    method Size() returns (s: int)
      requires Valid()
      ensures s == TotalLength(images)
    {
      s := 0;
      var i := 0;
      while i < |edges|
        invariant 0 <= i <= |edges| && s == TotalLength(images[..i])
      {
        assert images[..i + 1][..i] == images[..i];
        s := s + |images[i]|;
        i := i + 1;
      }
      assert images[..i] == images;
    }

    /**
     * nextLayer: build layer n + 1 by subdividing or folding (see Successor),
     * then label its vertices.
     */
    method NextLayer(mt: MappingTorus, fuel: nat) returns (l: Layer?, res: Outcome)
      requires Valid()
      modifies this`f0, mt`splt
      ensures Valid()
      ensures res.Pass? <==> (Successor(kind, old(f0), edges, images, old(mt.splt)).Ok? &&
        Labelling(Successor(kind, old(f0), edges, images, old(mt.splt)).value.edges, n + 1, fuel).Some?)
      ensures res.Fail? ==> l == null
      ensures res.Fail? ==> res.msg == (if Successor(kind, old(f0), edges, images, old(mt.splt)).Err?
        then Successor(kind, old(f0), edges, images, old(mt.splt)).msg else NoEnd)
      ensures Successor(kind, old(f0), edges, images, old(mt.splt)).Ok? ==>
        f0 == Successor(kind, old(f0), edges, images, old(mt.splt)).value.thisF0 &&
        mt.splt == Successor(kind, old(f0), edges, images, old(mt.splt)).value.splt
      ensures Successor(kind, old(f0), edges, images, old(mt.splt)).Err? ==> f0 == old(f0) && mt.splt == old(mt.splt)
      ensures res.Pass? ==> l != null && fresh(l) && l.Valid() && l.n == n + 1
      ensures res.Pass? ==> l.Is(Successor(kind, old(f0), edges, images, old(mt.splt)).value)
      ensures res.Pass? ==> l.vertices == Labelling(l.edges, l.n, fuel).value
    {
      ghost var nx := Successor(kind, f0, edges, images, mt.splt);
      var l', r := Build(mt);
      if r.Fail? {
        return null, r;
      }
      SuccessorShape(kind, old(f0), edges, images, old(mt.splt));
      assert l'.edges == nx.value.edges;
      r := l'.StdLabels(fuel);
      if r.Fail? {
        return null, r;
      }
      return l', Pass;
    }

    /** nextLayer before the vertex labels: the new layer's edges and images, or the exception. */
    method Build(mt: MappingTorus) returns (l: Layer, res: Outcome)
      requires Valid()
      modifies this`f0, mt`splt
      ensures fresh(l) && l.n == n + 1 && l.vertices == []
      ensures res.Pass? <==> Successor(kind, old(f0), edges, images, old(mt.splt)).Ok?
      ensures res.Fail? ==> res.msg == Successor(kind, old(f0), edges, images, old(mt.splt)).msg
      ensures res.Pass? ==> l.Is(Successor(kind, old(f0), edges, images, old(mt.splt)).value)
      ensures res.Pass? ==> f0 == Successor(kind, old(f0), edges, images, old(mt.splt)).value.thisF0
      ensures res.Pass? ==> mt.splt == Successor(kind, old(f0), edges, images, old(mt.splt)).value.splt
      ensures res.Fail? ==> f0 == old(f0) && mt.splt == old(mt.splt)
    {
      l := new Layer.Empty(n + 1);
      if kind == Subd {
        l.FoldFrom(edges, images, f0, 0);
        return l, Pass;
      }
      var it := FindFold();
      if it < 0 {
        return l, Fail(NoNextLayer);
      }
      res := BuildAt(mt, l, it);
    }

    /** nextLayer past the search, for the fold it found at it: subdivide, or fold when the two images cancel. */
    method BuildAt(mt: MappingTorus, l: Layer, it: int) returns (res: Outcome)
      requires Valid() && kind != Subd && l != this
      requires it == FirstFold(images, 0) && it >= 0
      requires l.edges == [] && l.images == [] && l.f0 == 0 && !l.subd0 && !l.subd1
      modifies this`f0, mt`splt, l`kind, l`F0, l`edges, l`images, l`f0, l`subd0, l`subd1
      ensures res.Pass? <==> Successor(kind, old(f0), edges, images, old(mt.splt)).Ok?
      ensures res.Fail? ==> res.msg == Successor(kind, old(f0), edges, images, old(mt.splt)).msg
      ensures res.Pass? ==> l.Is(Successor(kind, old(f0), edges, images, old(mt.splt)).value)
      ensures res.Pass? ==> f0 == Successor(kind, old(f0), edges, images, old(mt.splt)).value.thisF0
      ensures res.Pass? ==> mt.splt == Successor(kind, old(f0), edges, images, old(mt.splt)).value.splt
      ensures res.Fail? ==> f0 == old(f0) && mt.splt == old(mt.splt)
    {
      var s := images[it] + images[(it + 1) % |edges|];
      CyclInverse(it, |edges|);
      var t := W.TightenWord(s);
      if |t| == 0 {
        f0 := it;
        l.FoldFrom(edges, images, it, it);
        return Pass;
      }
      var ok := l.SubdivideAt(edges, images, it, (|s| - |t|) / 2, mt.splt);
      if !ok {
        CutFromFails(edges, images, SpotsAt(edges, images, it), Cancelled(s), mt.splt, Cut([], [], 0, false, false), 0);
        return Fail(OutOfRange);
      }
      mt.splt := mt.splt + 1;
      res := Pass;
    }

    /** The subdivision branch of nextLayer, filling this empty layer. */
    method SubdivideAt(es: seq<Name>, ims: seq<P.Path>, it: int, d: nat, k: int) returns (ok: bool)
      requires |ims| == |es| && 0 <= it < |es|
      requires d == Cancelled(ims[it] + ims[CyclNext(it, |es|)])
      requires edges == [] && images == [] && f0 == 0 && !subd0 && !subd1
      modifies this`kind, this`F0, this`edges, this`images, this`f0, this`subd0, this`subd1
      ensures ok <==> Subdivide(es, ims, it, k).Ok?
      ensures ok ==> kind == Subd && F0 == it && Built() == Subdivide(es, ims, it, k).value
    {
      kind := Subd;
      F0 := it;
      ok := SubdivideFrom(es, ims, it, d, k);
    }

    /** The subdivision loop of nextLayer, filling this empty layer. */
    method SubdivideFrom(es: seq<Name>, ims: seq<P.Path>, it: int, d: nat, k: int) returns (ok: bool)
      requires |ims| == |es| && 0 <= it < |es|
      requires edges == [] && images == [] && f0 == 0 && !subd0 && !subd1
      modifies this`edges, this`images, this`f0, this`subd0, this`subd1
      ensures ok <==> CutFrom(es, ims, SpotsAt(es, ims, it), d, k, Cut([], [], 0, false, false), 0).Ok?
      ensures ok ==> Built() == CutFrom(es, ims, SpotsAt(es, ims, it), d, k, Cut([], [], 0, false, false), 0).value
    {
      ghost var p := SpotsAt(es, ims, it);
      var i := 0;
      while i < |es|
        invariant 0 <= i <= |es|
        invariant CutFrom(es, ims, p, d, k, Built(), i) == CutFrom(es, ims, p, d, k, Cut([], [], 0, false, false), 0)
      {
        var step := CutStep(es, ims, it, d, k, i);
        if !step {
          return false;
        }
        i := i + 1;
      }
      return true;
    }

    /** One pass of the subdivision loop: edge i copied, or cut in two when it is one of the spots. */
    method CutStep(es: seq<Name>, ims: seq<P.Path>, it: int, d: nat, k: int, i: int) returns (ok: bool)
      requires |ims| == |es| && 0 <= it < |es| && 0 <= i < |es|
      modifies this`edges, this`images, this`f0, this`subd0, this`subd1
      ensures ok <==> CutEdge(es, ims, SpotsAt(es, ims, it), d, k, old(Built()), i).Ok?
      ensures ok ==> Built() == CutEdge(es, ims, SpotsAt(es, ims, it), d, k, old(Built()), i).value
    {
      var n0 := |es|;
      var s1 := ims[it];
      var s2 := ims[(it + 1) % n0];
      var e := es[i];
      if i == it {
        if |s1| == d {
          f0 := |edges|;
          edges := edges + [e];
          images := images + [ims[i]];
        } else if |s1| < d {
          return false;
        } else {
          edges := edges + [e];
          f0 := |edges|;
          edges := edges + [Mark(e, k)];
          images := images + [s1[..|s1| - d]] + [s1[|s1| - d..]];
          subd0 := true;
        }
      } else if i == CyclNext(it, n0) {
        if |s2| == d {
          edges := edges + [e];
          images := images + [ims[i]];
        } else if |s2| < d {
          return false;
        } else {
          edges := edges + [Mark(e, k)] + [e];
          images := images + [s2[..d]] + [s2[d..]];
          subd1 := true;
        }
      } else {
        ok := CutInverse(es, ims, it, d, k, i);
        return;
      }
      return true;
    }

    /** The subdivision loop at an edge i that is neither it nor the edge after it: the inverses are cut too. */
    method CutInverse(es: seq<Name>, ims: seq<P.Path>, it: int, d: nat, k: int, i: int) returns (ok: bool)
      requires |ims| == |es| && 0 <= it < |es| && 0 <= i < |es|
      requires i != it && i != CyclNext(it, |es|)
      modifies this`edges, this`images, this`f0, this`subd0, this`subd1
      ensures ok <==> CutEdge(es, ims, SpotsAt(es, ims, it), d, k, old(Built()), i).Ok?
      ensures ok ==> Built() == CutEdge(es, ims, SpotsAt(es, ims, it), d, k, old(Built()), i).value
    {
      var n0 := |es|;
      var s1 := ims[it];
      var s2 := ims[(it + 1) % n0];
      var e := es[i];
      CyclInverse(it, n0);
      if i == IndexOf(es, InverseName(es[it])) {
        if |s1| == d {
          edges := edges + [e];
          images := images + [ims[i]];
        } else if |s1| < d {
          return false;
        } else {
          var r1 := W.ReverseWord(s1);
          edges := edges + [Mark(e, k)] + [e];
          images := images + [r1[..d]] + [r1[d..]];
          subd0 := true;
        }
      } else if i == IndexOf(es, InverseName(es[CyclNext(it, n0)])) {
        if |s2| == d {
          edges := edges + [e];
          images := images + [ims[i]];
        } else if |s2| < d {
          return false;
        } else {
          var r2 := W.ReverseWord(s2);
          edges := edges + [e] + [Mark(e, k)];
          images := images + [r2[..|s2| - d]] + [r2[|s2| - d..]];
          subd1 := true;
        }
      } else {
        edges := edges + [e];
        images := images + [ims[i]];
      }
      return true;
    }

    /** The fold branch of nextLayer: every edge from two past f0 round to f0, the folded pair renamed. */
    method FoldFrom(es: seq<Name>, ims: seq<P.Path>, at: int, at0: int)
      requires |ims| == |es| && 0 <= at < |es|
      requires edges == [] && images == [] && f0 == 0 && !subd0 && !subd1
      modifies this`kind, this`F0, this`edges, this`images
      ensures kind == Fold && F0 == at0 && f0 == 0 && !subd0 && !subd1
      ensures edges == FoldEdges(es, at) && images == FoldImages(ims, at)
    {
      var n0 := |es|;
      var f1 := InverseName(es[at]);
      var f2 := es[CyclNext(at, n0)];
      FoldCursor(at, n0, 0);
      var i := CyclNext(at + 1, n0);
      ghost var k := 0;
      while i != at
        invariant 0 <= k <= FoldCount(n0) && i == (at + 2 + k) % n0
        invariant edges == FoldEdges(es, at)[..k] && images == FoldImages(ims, at)[..k]
        decreases FoldCount(n0) - k
      {
        FoldCursor(at, n0, k);
        var s := es[i];
        ghost var renamed := Rename(s, f1, f2);
        assert FoldEdges(es, at)[k] == renamed;
        PrefixSnoc(FoldEdges(es, at), k);
        PrefixSnoc(FoldImages(ims, at), k);
        if s == f1 {
          edges := edges + [f2];
        } else if s == InverseName(f1) {
          edges := edges + [InverseName(f2)];
        } else {
          edges := edges + [s];
        }
        images := images + [ims[i]];
        i := CyclNext(i, n0);
        k := k + 1;
      }
      FoldCursor(at, n0, k);
      kind := Fold;
      F0 := at0;
    }
  }

  /** The layers of a mapping torus, from the base layer to one without a fold. */
  class MappingTorus {
    var layers: seq<Layer>
    var labelText: string
    var splt: int
    /** The layers as they were built: each with the f0 it had before the next layer was made, and the split count after it. */
    ghost var built: seq<Next>

    /**
     * The layers, numbered from 0, show the values built, one to one: each value is what nextLayer makes
     * of the one before it; each layer but the last has the f0 its step left, the last
     * one the f0 it was built with; and the split count is the last value's.
     */
    ghost predicate Traced()
      reads this, layers
    {
      |built| == |layers| && |layers| >= 1 && Chain(built) && splt == built[|built| - 1].splt &&
      layers[|layers| - 1].f0 == built[|built| - 1].f0 &&
      (forall k {:trigger layers[k]} :: 0 <= k < |layers| ==> layers[k].n == k && layers[k].Shows(built[k])) &&
      (forall k {:trigger layers[k]} :: 0 <= k < |layers| - 1 ==> layers[k].f0 == built[k + 1].thisF0 && layers[k] != layers[|layers| - 1])
    }

    constructor Init(lab: string)
      ensures layers == [] && labelText == lab && splt == 0 && built == []
    {
      layers := [];
      labelText := lab;
      splt := 0;
      built := [];
    }

    /**
     * The constructor: the base layer of t, then next layers as long as the last
     * one has a fold (at most steps of them); throws when that leaves a single
     * layer. Every layer after the base layer is what nextLayer makes of the one
     * before it.
     */
    static method Create(t: GM.GraphMap, fuel: nat, steps: nat) returns (mt: MappingTorus?, res: Outcome)
      requires t.Valid()
      ensures res.Fail? ==> mt == null
      ensures res.Pass? ==> mt != null && fresh(mt) && |mt.layers| >= 2 && mt.labelText == t.name
      ensures res.Pass? ==> mt.layers[0].kind == Base && mt.layers[0].edges == BaseEdges(t.fix)
      ensures res.Pass? ==> P.LettersBelow(t.fix, t.edges) && mt.layers[0].images == BaseImages(t.fix, old(t.im[..t.edges]))
      ensures res.Pass? ==> mt.Traced() && mt.built[0].splt == 0
      ensures res.Pass? ==> mt.layers[|mt.layers| - 1].Valid() && FirstFold(mt.layers[|mt.layers| - 1].images, 0) == -1
      ensures res == Fail(EmptyFix) <==> t.fix == []
      ensures res == Fail(TwoLayers) <==> (t.fix != [] && P.LettersBelow(t.fix, t.edges) &&
        Labelling(BaseEdges(t.fix), 0, fuel).Some? && FirstFold(BaseImages(t.fix, old(t.im[..t.edges])), 0) == -1)
    {
      var r;
      mt, r := Start(t, fuel);
      if r.Fail? {
        return null, r;
      }
      r := mt.Build(mt.layers[0], fuel, steps);
      if r.Fail? {
        return null, r;
      }
      res := Pass;
    }

    /** The rest of the constructor: grow the layers from the base layer; throw when that leaves it alone. */
    method Build(l: Layer, fuel: nat, steps: nat) returns (res: Outcome)
      requires layers == [l] && l.Valid() && Traced()
      modifies this`layers, this`splt, this`built, l`f0
      ensures res.Pass? ==> |layers| >= 2 && layers[0] == l && Traced() && built[0] == old(built[0])
      ensures res.Pass? ==> layers[|layers| - 1].Valid() && FirstFold(layers[|layers| - 1].images, 0) == -1
      ensures res == Fail(TwoLayers) <==> FirstFold(l.images, 0) == -1
      ensures res.Fail? ==> res.msg in {NoEnd, NoNextLayer, OutOfRange, TwoLayers}
    {
      res := Grow(l, fuel, steps);
      if res.Pass? && |layers| < 2 {
        res := Fail(TwoLayers);
      }
    }

    /** The start of the constructor: a torus whose only layer is the base layer of t. */
    static method Start(t: GM.GraphMap, fuel: nat) returns (mt: MappingTorus?, res: Outcome)
      requires t.Valid()
      ensures res.Pass? <==> t.fix != [] && P.LettersBelow(t.fix, t.edges) && Labelling(BaseEdges(t.fix), 0, fuel).Some?
      ensures res.Fail? ==> mt == null && res.msg == (if t.fix == [] then EmptyFix else if !P.LettersBelow(t.fix, t.edges) then TooLarge else NoEnd)
      ensures res.Pass? ==> mt != null && fresh(mt) && mt.labelText == t.name && |mt.layers| == 1 && fresh(mt.layers[0])
      ensures res.Pass? ==> mt.layers[0].Valid() && mt.layers[0].kind == Base && mt.layers[0].edges == BaseEdges(t.fix)
      ensures res.Pass? ==> mt.layers[0].images == BaseImages(t.fix, old(t.im[..t.edges]))
      ensures res.Pass? ==> mt.Traced() && mt.built[0].splt == 0
    {
      var l, r := Layer.FromTrack(t, fuel);
      if r.Fail? {
        return null, r;
      }
      mt := new MappingTorus.Init(t.name);
      mt.layers := [l];
      mt.built := [Next(l.kind, l.f0, l.F0, l.subd0, l.subd1, l.edges, l.images, l.f0, 0)];
      res := Pass;
    }

    /**
     * The loop of the constructor: add next layers while the last one, l, has a
     * fold, at most steps of them. Each layer added is what nextLayer makes of the
     * one before it.
     */
    method Grow(l: Layer, fuel: nat, steps: nat) returns (res: Outcome)
      requires layers == [l] && l.Valid() && Traced()
      modifies this`layers, this`splt, this`built, l`f0
      ensures |layers| >= 1 && layers[0] == l
      ensures res.Pass? ==> layers[|layers| - 1].Valid() && FirstFold(layers[|layers| - 1].images, 0) == -1
      ensures res.Pass? ==> (|layers| == 1 <==> FirstFold(l.images, 0) == -1)
      ensures res.Pass? ==> Traced() && built[0] == old(built[0])
      ensures FirstFold(l.images, 0) == -1 ==> res.Pass?
      ensures res.Fail? ==> res.msg in {NoEnd, NoNextLayer, OutOfRange}
    {
      var last: Layer := l;
      var f := last.FindFold();
      ghost var first := f;
      var count := steps;
      while f >= 0
        invariant last.Valid() && |layers| >= 1 && layers[0] == l && layers[|layers| - 1] == last
        invariant last == l || fresh(last)
        invariant Traced() && built[0] == old(built[0])
        invariant f == FirstFold(last.images, 0)
        invariant l.images == old(l.images) && first == FirstFold(l.images, 0)
        invariant |layers| == 1 ==> last == l
        invariant |layers| > 1 ==> first >= 0
        decreases count
      {
        if count == 0 {
          return Fail(NoEnd);
        }
        count := count - 1;
        var next, r := Extend(last, fuel);
        if r.Fail? {
          return r;
        }
        last := next;
        f := last.FindFold();
      }
      res := Pass;
    }

    /** One pass of the constructor's loop, with the layer it makes appended to the layers. */
    method Extend(last: Layer, fuel: nat) returns (next: Layer?, res: Outcome)
      requires last.Valid() && |layers| >= 1 && layers[|layers| - 1] == last && Traced()
      modifies this`layers, this`splt, this`built, last`f0
      ensures res.Fail? ==> res.msg in {NoEnd, NoNextLayer, OutOfRange} && layers == old(layers)
      ensures res.Pass? ==> next != null && fresh(next) && next.Valid() && next.n == last.n + 1 && layers == old(layers) + [next]
      ensures res.Pass? ==> Traced() && built[..old(|built|)] == old(built)
    {
      ghost var b, f0, sp := built, last.f0, splt;
      next, res := Step(last, fuel);
      if res.Fail? {
        return;
      }
      ghost var y := Successor(last.kind, f0, last.edges, last.images, sp).value;
      ChainSnoc(b, y);
      built := b + [y];
      layers := layers + [next];
      forall k | 0 <= k < |layers| - 1
        ensures layers[k].n == k && layers[k].Shows(built[k])
        ensures layers[k].f0 == built[k + 1].thisF0 && layers[k] != next
      {
        assert layers[k] == old(layers[k]) && built[k] == b[k];
      }
    }

    /**
     * One pass of the constructor's loop: the layer nextLayer makes of last, which
     * also moves last's f0 and the split count on; or the exception nextLayer throws.
     */
    method Step(last: Layer, fuel: nat) returns (next: Layer?, res: Outcome)
      requires last.Valid()
      modifies last`f0, this`splt
      ensures res.Fail? ==> res.msg in {NoEnd, NoNextLayer, OutOfRange}
      ensures res.Pass? ==> next != null && fresh(next) && next.Valid() && next.n == last.n + 1
      ensures res.Pass? ==> Successor(last.kind, old(last.f0), last.edges, last.images, old(splt)).Ok?
      ensures res.Pass? ==> var x := Successor(last.kind, old(last.f0), last.edges, last.images, old(splt)).value;
        next.Is(x) && last.f0 == x.thisF0 && splt == x.splt
    {
      ghost var f0, splt := last.f0, this.splt;
      next, res := last.NextLayer(this, fuel);
      if res.Fail? && Successor(last.kind, f0, last.edges, last.images, splt).Err? {
        SuccessorFails(last.kind, f0, last.edges, last.images, splt);
      }
    }
  }
}
