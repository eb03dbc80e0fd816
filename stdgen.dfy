/**
 * The standard generators of the mapping class group of a closed surface of genus
 * g (DehnTwist.java, stdGenerators): the boundary word a0 b0 A0 B0 a1 b1 A1 B1 ...
 * of the rose with 2g petals, four families a, b, c, d of curves around the handles,
 * and a twist text such as "a0B1c0" naming the curves to twist along (a capital
 * letter twists backwards). The named curves are written out as a twist sequence,
 * twisted with respect to the boundary word, and marked.
 */
module StandardGenerators {
  import opened Wrappers
  import opened Letters
  import opened Numerals
  import P = Paths
  import G = Graphs
  import GM = GraphMaps
  import B = Boundary
  import R = Reading
  import W = Words
  import D = DehnTwists

  const TooSmall := "genus too small"
  /** What the JVM throws when the tables tw and flag are allocated with a negative genus. */
  const NegativeSize := "negative array size"
  const BadLabel := "bad curve label"
  const BadIndex := "bad curve index"

  /** The letter of edge ind, as indexToChar writes it (an index past 15 bits wraps). */
  function Letter(ind: int, inv: bool): Sym { IndexToSym(ind, inv) }

  /** The commutator a_h b_h A_h B_h of handle h, with a_h = edge 2h and b_h = edge 2h+1. */
  function Handle(h: int): P.Path
  {
    [Letter(2 * h, false), Letter(2 * h + 1, false), Letter(2 * h, true), Letter(2 * h + 1, true)]
  }

  /** The boundary word of the first n handles. */
  function StdBoundary(n: nat): (bd: P.Path)
    ensures |bd| == 4 * n
  {
    if n == 0 then [] else StdBoundary(n - 1) + Handle(n - 1)
  }

  /** a_h B_h A_h b_h: the word a curve of family b picks up at a later handle h. */
  function Crossing(h: int): P.Path
  {
    [Letter(2 * h, false), Letter(2 * h + 1, true), Letter(2 * h, true), Letter(2 * h + 1, false)]
  }

  /** The words a_h B_h A_h b_h of the handles from..to-1, in order. */
  function Crossings(from: int, to: int): P.Path
    decreases to - from
  {
    if to <= from then [] else Crossings(from, to - 1) + Crossing(to - 1)
  }

  /**
   * tw[j][i]: the curve of family j at handle i. Family a is b_i, family b runs b_i
   * through the later handles, family c is b_i a_(i+1) B_(i+1) A_(i+1) (just b_i at the
   * last handle), and family d is a_i.
   */
  function StdLoop(genus: int, j: int, i: int): P.Path
  {
    if j == 0 then [Letter(2 * i + 1, false)]
    else if j == 1 then [Letter(2 * i + 1, false)] + Crossings(i + 1, genus)
    else if j == 2 then
      [Letter(2 * i + 1, false)] +
      (if i < genus - 1 then [Letter(2 * i + 2, false), Letter(2 * i + 3, true), Letter(2 * i + 2, true)] else [])
    else [Letter(2 * i, false)]
  }

  /** A curve named in the twist text: twisted backwards, its family 0..3, its handle. */
  datatype Curve = Curve(inv: bool, family: int, index: int)

  predicate InRange(genus: int, c: Curve)
  {
    0 <= c.family < 4 && 0 <= c.index < genus
  }

  predicate AllInRange(genus: int, cs: seq<Curve>)
  {
    forall n :: 0 <= n < |cs| ==> InRange(genus, cs[n])
  }

  /** The end of the run of characters up to '9' that starts at i. */
  function DigitsEnd(s: string, i: nat): (k: nat)
    requires i <= |s|
    ensures i <= k <= |s| && (k < |s| ==> s[k] > '9')
    decreases |s| - i
  {
    if i < |s| && s[i] <= '9' then DigitsEnd(s, i + 1) else i
  }

  /**
   * The curve named at the head of s, and the length of its name: the family from
   * the low five bits of the first character less one, backwards when it is below
   * 'a', then the handle from the characters up to '9' after it.
   */
  function CurveAt(genus: int, s: string): (r: Result<(Curve, nat)>)
    requires 0 < |s|
    ensures r.Ok? ==> 0 < r.value.1 <= |s| && InRange(genus, r.value.0)
  {
    var j := (s[0] as int - 1) % 32;
    if j > 3 then Err(BadLabel)
    else
      var e := DigitsEnd(s, 1);
      match ParseInt(s[1..e])
      case None => Err(R.BADNUMBER)
      case Some(k) =>
        if k >= genus then Err(BadIndex)
        else if k < 0 then Err(D.OutOfRange)
        else Ok((Curve(s[0] < 'a', j, k), e))
  }

  /** All the curves the twist text names, or the first complaint. */
  function CurvesOf(genus: int, s: string): (r: Result<seq<Curve>>)
    ensures r.Ok? ==> AllInRange(genus, r.value)
    decreases |s|
  {
    if s == [] then Ok([])
    else match CurveAt(genus, s)
      case Err(e) => Err(e)
      case Ok(ce) => Prepend([ce.0], CurvesOf(genus, s[ce.1..]))
  }

  function Prepend(d: seq<Curve>, r: Result<seq<Curve>>): (q: Result<seq<Curve>>)
    ensures q.Ok? == r.Ok? && (r.Err? ==> q == r)
  {
    match r
    case Err(e) => Err(e)
    case Ok(cs) => Ok(d + cs)
  }

  /** The twist sequence of one curve: "~" when backwards, then the labels of its loop in brackets. */
  function CurveText(genus: int, c: Curve): string
  {
    (if c.inv then [D.INV] else []) + [D.BRA] + PathToString(StdLoop(genus, c.family, c.index)) + [D.KET]
  }

  function TwistText(genus: int, cs: seq<Curve>): string
  {
    if cs == [] then [] else TwistText(genus, cs[..|cs| - 1]) + CurveText(genus, cs[|cs| - 1])
  }

  /** The (family, handle) pairs of cs, each once, in the order of first use. */
  function Uses(cs: seq<Curve>): seq<(int, int)>
  {
    if cs == [] then []
    else
      var u := Uses(cs[..|cs| - 1]);
      var c := cs[|cs| - 1];
      if (c.family, c.index) in u then u else u + [(c.family, c.index)]
  }

  /** The loops of the marking. */
  function MarkLoops(genus: int, u: seq<(int, int)>): (ma: seq<P.Path>)
    ensures |ma| == |u|
  {
    seq(|u|, n requires 0 <= n < |u| => StdLoop(genus, u[n].0, u[n].1))
  }

  /** The label of family j at handle k: the family's letter, then k. */
  function CurveLabel(j: int, k: int): string
  {
    SymToLabel(Letter(j, false)) + IntToString(k)
  }

  function MarkLabels(u: seq<(int, int)>): (ml: seq<string>)
    ensures |ml| == |u|
  {
    seq(|u|, n requires 0 <= n < |u| => CurveLabel(u[n].0, u[n].1))
  }

  /**
   * stdGenerators(genus, twists, lab): the boundary twist of the written-out curves,
   * marked with the distinct curves named, labelled twists when lab is empty. A
   * negative genus fails already when the tables are allocated, before the genus check.
   */
  function StandardTwists(genus: int, twists: string, lab: string): (r: Result<G.Graph>)
    ensures genus < 0 ==> r == Err(NegativeSize)
    ensures genus == 0 ==> r == Err(TooSmall)
    ensures r.Ok? ==> G.Valid(r.value) && r.value.marked && |r.value.mark| == |r.value.marklabel|
  {
    if genus < 0 then Err(NegativeSize)
    else if genus < 1 then Err(TooSmall)
    else match CurvesOf(genus, twists)
      case Err(e) => Err(e)
      case Ok(cs) =>
        match D.BoundaryTwists(PathToString(StdBoundary(genus)), TwistText(genus, cs), lab)
        case Err(e) => Err(e)
        case Ok(h) =>
          var u := Uses(cs);
          var m := h.(marked := true, mark := MarkLoops(genus, u), marklabel := MarkLabels(u));
          Ok(if lab == "" then m.(name := twists) else m)
  }

  /** stdGenerators(genus, twists, lab). */
  method StdGenerators(genus: int, twists: string, lab: string) returns (g: GM.GraphMap, r: Outcome)
    ensures g.Valid()
    ensures r.Pass? <==> StandardTwists(genus, twists, lab).Ok?
    ensures r.Pass? ==> g.State() == StandardTwists(genus, twists, lab).value
    ensures r.Fail? ==> r.msg == StandardTwists(genus, twists, lab).msg
  {
    g := new GM.GraphMap();
    if genus < 0 {
      return g, Fail(NegativeSize);
    }
    if genus < 1 {
      return g, Fail(TooSmall);
    }
    var tw, bd := StdLoops(genus);
    var read := ReadTwists(genus, twists, tw);
    if read.Err? {
      return g, Fail(read.msg);
    }
    var (tt, ma, ml) := read.value;
    ghost var cs := CurvesOf(genus, twists).value;
    ghost var spec := StandardTwists(genus, twists, lab);
    var bds := W.PathToString(bd);
    g, r := D.BoundaryTwist(bds, tt, lab);
    assert D.BoundaryTwists(bds, tt, lab).Err? ==> spec == Err(D.BoundaryTwists(bds, tt, lab).msg);
    if r.Fail? {
      return;
    }
    ghost var h := D.BoundaryTwists(bds, tt, lab).value;
    ghost var m := h.(marked := true, mark := ma, marklabel := ml);
    assert spec == Ok(if lab == "" then m.(name := twists) else m);
    g.SetMarking(ma, ml);
    if lab == "" {
      g.SetLabel(twists);
    }
  }

  /**
   * The loop over the twist text: the twist sequence of the curves it names and the
   * loops and labels of the marking, or the first complaint.
   */
  method ReadTwists(genus: int, twists: string, tw: array2<P.Path>)
    returns (r: Result<(string, seq<P.Path>, seq<string>)>)
    requires LoopTable(tw, genus)
    ensures r.Err? <==> CurvesOf(genus, twists).Err?
    ensures r.Err? ==> r.msg == CurvesOf(genus, twists).msg
    ensures r.Ok? ==> var cs := CurvesOf(genus, twists).value;
      r.value == (TwistText(genus, cs), MarkLoops(genus, Uses(cs)), MarkLabels(Uses(cs)))
  {
    var flag := new bool[4, genus]((_, _) => false);
    var tt: string := "";
    var ma: seq<P.Path>, ml: seq<string> := [], [];
    ghost var done: seq<Curve> := [];
    var i := 0;
    assert twists[i..] == twists;
    if CurvesOf(genus, twists).Ok? {
      assert [] + CurvesOf(genus, twists).value == CurvesOf(genus, twists).value;
    }
    while i < |twists|
      invariant 0 <= i <= |twists| && flag.Length0 == 4 && flag.Length1 == genus
      invariant Progress(genus, twists, i, tt, ma, ml, flag, done)
      decreases |twists| - i
    {
      var cur := ReadCurve(genus, twists, i);
      if cur.Err? {
        return Err(cur.msg);
      }
      tt, ma, ml := TakeCurve(genus, twists, tw, flag, i, cur.value.0, cur.value.1, tt, ma, ml, done);
      done := done + [cur.value.0];
      i := cur.value.1;
    }
    assert twists[i..] == [] && done + [] == done;
    return Ok((tt, ma, ml));
  }

  /** The state of the loop over the twist text after the curves done, up to position i. */
  ghost predicate Progress(genus: int, twists: string, i: int, tt: string, ma: seq<P.Path>, ml: seq<string>,
                           flag: array2<bool>, done: seq<Curve>)
    reads flag
  {
    0 <= i <= |twists| &&
    CurvesOf(genus, twists) == Prepend(done, CurvesOf(genus, twists[i..])) &&
    tt == TwistText(genus, done) &&
    ma == MarkLoops(genus, Uses(done)) && ml == MarkLabels(Uses(done)) &&
    Flagged(flag, Uses(done))
  }

  /** The twist sequence of the curve read at i appended, and the curve marked. */
  method TakeCurve(genus: int, twists: string, tw: array2<P.Path>, flag: array2<bool>, i: nat, cv: Curve, e: nat,
                   tt: string, ma: seq<P.Path>, ml: seq<string>, ghost done: seq<Curve>)
    returns (tt': string, ma': seq<P.Path>, ml': seq<string>)
    requires LoopTable(tw, genus) && flag.Length0 == 4 && flag.Length1 == genus
    requires Progress(genus, twists, i, tt, ma, ml, flag, done)
    requires i < e <= |twists| && InRange(genus, cv)
    requires CurvesOf(genus, twists[i..]) == Prepend([cv], CurvesOf(genus, twists[e..]))
    modifies flag
    ensures Progress(genus, twists, e, tt', ma', ml', flag, done + [cv])
  {
    var piece := CurvePiece(genus, tw, cv);
    tt' := tt + piece;
    ma', ml' := MarkCurve(genus, tw, flag, cv, ma, ml, done);
    TwistTextSnoc(genus, done, cv);
    PrependTwice(done, [cv], CurvesOf(genus, twists[e..]));
  }

  /** The flag of the curve checked and set, and the curve added to the marking when it is new. */
  method MarkCurve(genus: int, tw: array2<P.Path>, flag: array2<bool>, cv: Curve,
                   ma: seq<P.Path>, ml: seq<string>, ghost done: seq<Curve>)
    returns (ma': seq<P.Path>, ml': seq<string>)
    requires LoopTable(tw, genus) && flag.Length0 == 4 && flag.Length1 == genus
    requires InRange(genus, cv)
    requires ma == MarkLoops(genus, Uses(done)) && ml == MarkLabels(Uses(done))
    requires Flagged(flag, Uses(done))
    modifies flag
    ensures ma' == MarkLoops(genus, Uses(done + [cv])) && ml' == MarkLabels(Uses(done + [cv]))
    ensures Flagged(flag, Uses(done + [cv]))
  {
    UsesSnoc(done, cv);
    ma', ml' := ma, ml;
    if !flag[cv.family, cv.index] {
      MarkSnoc(genus, Uses(done), (cv.family, cv.index));
      ml' := ml + [CurveLabel(cv.family, cv.index)];
      ma' := ma + [tw[cv.family, cv.index]];
      flag[cv.family, cv.index] := true;
    }
  }

  /** The twist sequence of one curve: tt += (INV) BRA, pathToString(tw[j][k]), KET. */
  method CurvePiece(genus: int, tw: array2<P.Path>, cv: Curve) returns (piece: string)
    requires LoopTable(tw, genus) && InRange(genus, cv)
    ensures piece == CurveText(genus, cv)
  {
    var s := W.PathToString(tw[cv.family, cv.index]);
    piece := (if cv.inv then [D.INV, D.BRA] else [D.BRA]) + s + [D.KET];
  }

  lemma PrependTwice(d: seq<Curve>, e: seq<Curve>, r: Result<seq<Curve>>)
    ensures Prepend(d, Prepend(e, r)) == Prepend(d + e, r)
  {
    if r.Ok? {
      assert d + (e + r.value) == (d + e) + r.value;
    }
  }

  lemma CurvesOfStep(genus: int, s: string, c: Curve, len: nat)
    requires 0 < |s| && CurveAt(genus, s) == Ok((c, len))
    ensures CurvesOf(genus, s) == Prepend([c], CurvesOf(genus, s[len..]))
  {
  }

  lemma TwistTextSnoc(genus: int, cs: seq<Curve>, c: Curve)
    ensures TwistText(genus, cs + [c]) == TwistText(genus, cs) + CurveText(genus, c)
  {
    assert (cs + [c])[..|cs|] == cs;
  }

  lemma MarkSnoc(genus: int, u: seq<(int, int)>, p: (int, int))
    ensures MarkLoops(genus, u + [p]) == MarkLoops(genus, u) + [StdLoop(genus, p.0, p.1)]
    ensures MarkLabels(u + [p]) == MarkLabels(u) + [CurveLabel(p.0, p.1)]
  {
  }

  /** tw[j][i] holds the curve of family j at handle i. */
  predicate LoopTable(tw: array2<P.Path>, genus: int)
    reads tw
  {
    tw.Length0 == 4 && tw.Length1 == genus &&
    forall a, b :: 0 <= a < 4 && 0 <= b < genus ==> tw[a, b] == StdLoop(genus, a, b)
  }

  /** flag[j][k] is set exactly for the pairs in use. */
  predicate Flagged(flag: array2<bool>, u: seq<(int, int)>)
    reads flag
  {
    forall a, b :: 0 <= a < flag.Length0 && 0 <= b < flag.Length1 ==> (flag[a, b] <==> (a, b) in u)
  }

  /** Uses after one more curve: the pair appended when it is new. */
  lemma UsesSnoc(cs: seq<Curve>, c: Curve)
    ensures Uses(cs + [c]) == if (c.family, c.index) in Uses(cs) then Uses(cs) else Uses(cs) + [(c.family, c.index)]
  {
    assert (cs + [c])[..|cs|] == cs;
  }

  /** The loops tw[j][i] of every family and handle, and the boundary word. */
  method StdLoops(genus: int) returns (tw: array2<P.Path>, bd: P.Path)
    requires 1 <= genus
    ensures fresh(tw) && tw.Length0 == 4 && tw.Length1 == genus
    ensures LoopTable(tw, genus) && bd == StdBoundary(genus)
  {
    tw := new P.Path[4, genus];
    bd := [];
    var i := 0;
    while i < genus
      invariant 0 <= i <= genus && bd == StdBoundary(i)
      invariant forall a, b :: 0 <= a < 4 && 0 <= b < i ==> tw[a, b] == StdLoop(genus, a, b)
    {
      FillHandle(tw, genus, i);
      bd := bd + [Letter(2 * i, false), Letter(2 * i + 1, false), Letter(2 * i, true), Letter(2 * i + 1, true)];
      i := i + 1;
    }
  }

  /** The loops of the four families at handle i. */
  method FillHandle(tw: array2<P.Path>, genus: int, i: int)
    requires tw.Length0 == 4 && tw.Length1 == genus && 0 <= i < genus
    modifies tw
    ensures forall a :: 0 <= a < 4 ==> tw[a, i] == StdLoop(genus, a, i)
    ensures forall a, b :: 0 <= a < 4 && 0 <= b < genus && b != i ==> tw[a, b] == old(tw[a, b])
  {
    var w0, w1, w2, w3 := HandleLoops(genus, i);
    tw[0, i], tw[1, i], tw[2, i], tw[3, i] := w0, w1, w2, w3;
  }

  /**
   * One step of the loop over the twist text: the curve named at position i and the
   * position after its name.
   */
  method ReadCurve(genus: int, twists: string, i: nat) returns (r: Result<(Curve, nat)>)
    requires i < |twists|
    ensures r.Err? ==> CurvesOf(genus, twists[i..]) == Err(r.msg)
    ensures r.Ok? ==> i < r.value.1 <= |twists| && InRange(genus, r.value.0)
    ensures r.Ok? ==> CurvesOf(genus, twists[i..]) == Prepend([r.value.0], CurvesOf(genus, twists[r.value.1..]))
  {
    ghost var rest := twists[i..];
    var c := twists[i];
    var j := (c as int - 1) % 32;
    if j > 3 {
      return Err(BadLabel);
    }
    var e := DigitsFrom(twists, i + 1);
    assert DigitsEnd(rest, 1) == e - i by {
      DigitsEndShift(twists, i, 1);
    }
    var k := ParseInt(twists[i + 1..e]);
    assert twists[i + 1..e] == rest[1..e - i];
    if k.None? {
      return Err(R.BADNUMBER);
    }
    if k.value >= genus {
      return Err(BadIndex);
    }
    if k.value < 0 {
      return Err(D.OutOfRange);
    }
    assert rest[e - i..] == twists[e..];
    CurvesOfStep(genus, rest, Curve(c < 'a', j, k.value), e - i);
    return Ok((Curve(c < 'a', j, k.value), e));
  }

  /** The end of the run of characters no greater than '9' that starts at i. */
  method DigitsFrom(s: string, i: nat) returns (e: nat)
    requires i <= |s|
    ensures e == DigitsEnd(s, i)
  {
    e := i;
    while e < |s| && s[e] <= '9'
      invariant i <= e <= |s| && DigitsEnd(s, i) == DigitsEnd(s, e)
    {
      e := e + 1;
    }
  }

  /** The scan on a suffix ends where the scan on the whole text does. */
  lemma {:induction false} DigitsEndShift(s: string, i: nat, d: nat)
    requires i + d <= |s|
    ensures DigitsEnd(s[i..], d) == DigitsEnd(s, i + d) - i
    decreases |s| - i - d
  {
    if i + d < |s| && s[i + d] <= '9' {
      DigitsEndShift(s, i, d + 1);
    }
  }

  /** tw[0][i] .. tw[3][i], built letter by letter. */
  method HandleLoops(genus: int, i: int) returns (w0: P.Path, w1: P.Path, w2: P.Path, w3: P.Path)
    requires 0 <= i < genus
    ensures w0 == StdLoop(genus, 0, i) && w1 == StdLoop(genus, 1, i)
    ensures w2 == StdLoop(genus, 2, i) && w3 == StdLoop(genus, 3, i)
  {
    w0 := [Letter(2 * i + 1, false)];
    w1 := FamilyB(genus, i);
    w2 := [Letter(2 * i + 1, false)];
    if i < genus - 1 {
      w2 := w2 + [Letter(2 * i + 2, false), Letter(2 * i + 3, true), Letter(2 * i + 2, true)];
    }
    w3 := [Letter(2 * i, false)];
  }

  /** tw[1][i]: b_i, then a_j B_j A_j b_j for every later handle j. */
  method FamilyB(genus: int, i: int) returns (w: P.Path)
    requires 0 <= i < genus
    ensures w == StdLoop(genus, 1, i)
  {
    w := [Letter(2 * i + 1, false)];
    var j := i + 1;
    while j < genus
      invariant i + 1 <= j <= genus && w == [Letter(2 * i + 1, false)] + Crossings(i + 1, j)
    {
      w := w + [Letter(2 * j, false), Letter(2 * j + 1, true), Letter(2 * j, true), Letter(2 * j + 1, false)];
      j := j + 1;
    }
  }

  // ---- what the construction promises ----

  /** Within 15 bits, indexToChar gives the plain letter. */
  lemma LetterInRange(ind: int, inv: bool)
    requires 0 <= ind <= MAXINDEX
    ensures Letter(ind, inv) == Sym(ind, inv)
  {
    IndexToCharInRange(ind, inv);
  }

  /** The boundary word of n handles uses the edges below 2n, each letter once. */
  lemma {:induction false} StdBoundaryDistinct(n: nat)
    requires 2 * n <= MAXINDEX + 1
    ensures P.LettersBelow(StdBoundary(n), 2 * n) && B.Distinct(StdBoundary(n))
  {
    if n > 0 {
      StdBoundaryDistinct(n - 1);
      var pre, h := StdBoundary(n - 1), Handle(n - 1);
      HandleInRange(n - 1);
      var bd := pre + h;
      forall i, j | 0 <= i < j < |bd| ensures bd[i] != bd[j] {
        if j >= |pre| && i < |pre| {
          assert bd[i] == pre[i] && bd[i].index < 2 * n - 2;
        }
      }
    }
  }

  /** Every letter of the boundary word has its inverse in it. */
  lemma {:induction false} StdBoundaryInverses(n: nat)
    requires 2 * n <= MAXINDEX + 1
    ensures B.InversesOccur(StdBoundary(n))
  {
    if n > 0 {
      StdBoundaryInverses(n - 1);
      var pre, h := StdBoundary(n - 1), Handle(n - 1);
      HandleInRange(n - 1);
      var bd := pre + h;
      forall x | x in bd ensures Inv(x) in bd {
        if x in pre {
          assert Inv(x) in pre;
        } else {
          assert x in h;
        }
      }
    }
  }

  /** The boundary word is freely reduced and runs from a0 to B_(n-1). */
  lemma {:induction false} StdBoundaryReduced(n: nat)
    requires 2 * n <= MAXINDEX + 1
    ensures P.Reduced(StdBoundary(n))
    ensures n > 0 ==> StdBoundary(n)[0] == Sym(0, false) && StdBoundary(n)[4 * n - 1] == Sym(2 * n - 1, true)
  {
    if n > 0 {
      StdBoundaryReduced(n - 1);
      StdBoundaryDistinct(n - 1);
      var pre, h := StdBoundary(n - 1), Handle(n - 1);
      HandleInRange(n - 1);
      var bd := pre + h;
      forall i | 0 <= i < |bd| - 1 ensures bd[i + 1] != Inv(bd[i]) {
        if i + 1 < |pre| {
          assert bd[i] == pre[i] && bd[i + 1] == pre[i + 1];
        } else if i + 1 == |pre| {
          assert bd[i] == pre[i] && bd[i].index < 2 * n - 2;
        }
      }
    }
  }

  /** The letters of handle h, within 15 bits. */
  lemma HandleInRange(h: nat)
    requires 2 * h + 1 <= MAXINDEX
    ensures Handle(h) == [Sym(2 * h, false), Sym(2 * h + 1, false), Sym(2 * h, true), Sym(2 * h + 1, true)]
  {
    LetterInRange(2 * h, false);
    LetterInRange(2 * h, true);
    LetterInRange(2 * h + 1, false);
    LetterInRange(2 * h + 1, true);
  }

  lemma FourfoldEven(n: nat)
    ensures (4 * n) % 2 == 0
  {
  }

  /**
   * Up to genus 4095 the boundary word is a strict boundary word, the rose of the
   * identity accepts it, and its printed form reads back as the word itself.
   */
  lemma StdBoundaryStrict(genus: int)
    requires 1 <= genus && 8 * genus <= MAXINDEX
    ensures B.IsStrictBoundary(StdBoundary(genus))
    ensures GM.BoundaryRose(StdBoundary(genus)).Ok?
    ensures R.ReadPath(PathToString(StdBoundary(genus))) == Ok(StdBoundary(genus))
  {
    var bd := StdBoundary(genus);
    StdBoundaryDistinct(genus);
    StdBoundaryInverses(genus);
    StdBoundaryReduced(genus);
    assert bd[|bd| - 1] != Inv(bd[0]);
    assert P.CyclicallyReduced(bd);
    FourfoldEven(genus);
    B.ReducedBoundary(bd);
    GM.BoundaryRoseIdentity(bd, []);
    PathStringRoundTrip(bd);
  }

  /** The name of a curve in the twist text: the family letter, capital when backwards, then the handle. */
  function CurveName(c: Curve): string
    requires 0 <= c.family < 4 && 0 <= c.index
  {
    [((if c.inv then 'A' else 'a') as int + c.family) as char] + NatToString(c.index)
  }

  function WriteCurves(cs: seq<Curve>): string
    requires forall n :: 0 <= n < |cs| ==> 0 <= cs[n].family < 4 && 0 <= cs[n].index
  {
    if cs == [] then [] else CurveName(cs[0]) + WriteCurves(cs[1..])
  }

  /** The scan stops at the first character above '9' after a run of digits. */
  lemma {:induction false} DigitsEndAt(s: string, d: nat, m: nat)
    requires d <= m <= |s| && (m < |s| ==> s[m] > '9')
    requires forall n :: d <= n < m ==> s[n] <= '9'
    ensures DigitsEnd(s, d) == m
    decreases m - d
  {
    if d < m {
      DigitsEndAt(s, d + 1, m);
    }
  }

  /** Reading the names of curves in range gives the curves back. */
  lemma {:induction false} CurvesRoundTrip(genus: int, cs: seq<Curve>)
    requires genus <= INT_MAX && AllInRange(genus, cs)
    ensures CurvesOf(genus, WriteCurves(cs)) == Ok(cs)
    decreases |cs|
  {
    if cs != [] {
      var c := cs[0];
      assert InRange(genus, c);
      var rest := WriteCurves(cs[1..]);
      assert WriteCurves(cs) == CurveName(c) + rest;
      if rest != [] {
        assert InRange(genus, cs[1]);
        assert rest[0] == CurveName(cs[1])[0];
      }
      NameRead(genus, c, rest);
      assert AllInRange(genus, cs[1..]) by {
        forall n | 0 <= n < |cs[1..]| ensures InRange(genus, cs[1..][n]) {
          assert cs[1..][n] == cs[n + 1];
        }
      }
      CurvesRoundTrip(genus, cs[1..]);
      assert [c] + cs[1..] == cs;
    }
  }

  /** A curve's name followed by the next name (or nothing) reads as that curve. */
  lemma NameRead(genus: int, c: Curve, rest: string)
    requires genus <= INT_MAX && InRange(genus, c) && (rest != [] ==> rest[0] > '9')
    ensures CurveAt(genus, CurveName(c) + rest) == Ok((c, |CurveName(c)|))
    ensures (CurveName(c) + rest)[|CurveName(c)|..] == rest
  {
    var name := CurveName(c);
    var s := name + rest;
    var digits := NatToString(c.index);
    assert name[1..] == digits;
    DigitsEndAt(s, 1, |name|);
    assert s[1..|name|] == digits;
    assert IntToString(c.index) == digits;
    ParseIntToString(c.index);
    assert (s[0] as int - 1) % 32 == c.family;
  }

  /**
   * The pairs of the marking are distinct, and they are exactly the (family, handle)
   * pairs of the curves named.
   */
  lemma {:induction false} UsesDistinct(cs: seq<Curve>)
    ensures forall a, b :: 0 <= a < b < |Uses(cs)| ==> Uses(cs)[a] != Uses(cs)[b]
    ensures forall n :: 0 <= n < |cs| ==> (cs[n].family, cs[n].index) in Uses(cs)
    ensures forall p :: p in Uses(cs) ==> exists n :: 0 <= n < |cs| && p == (cs[n].family, cs[n].index)
  {
    if cs != [] {
      var pre := cs[..|cs| - 1];
      UsesDistinct(pre);
      forall n | 0 <= n < |cs| ensures (cs[n].family, cs[n].index) in Uses(cs) {
        if n < |pre| {
          assert cs[n] == pre[n];
        }
      }
      forall p | p in Uses(cs) ensures exists n :: 0 <= n < |cs| && p == (cs[n].family, cs[n].index) {
        if p in Uses(pre) {
          var n :| 0 <= n < |pre| && p == (pre[n].family, pre[n].index);
          assert cs[n] == pre[n];
        } else {
          assert p == (cs[|cs| - 1].family, cs[|cs| - 1].index);
        }
      }
    }
  }

  /** Distinct (family, handle) pairs get distinct labels, so the marking labels are distinct. */
  lemma CurveLabelInjective(j: int, k: int, j': int, k': int)
    requires 0 <= j < 4 && 0 <= k && 0 <= j' < 4 && 0 <= k'
    requires CurveLabel(j, k) == CurveLabel(j', k')
    ensures j == j' && k == k'
  {
    LetterInRange(j, false);
    LetterInRange(j', false);
    var a, b := CurveLabel(j, k), CurveLabel(j', k');
    assert a[0] == b[0];
    assert a[1..] == NatToString(k) && b[1..] == NatToString(k');
    DigitsOfNatToString(k);
    DigitsOfNatToString(k');
  }
}
