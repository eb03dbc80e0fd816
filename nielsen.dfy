/**
 * The well-ordering of words used by Nielsen reduction (lessThan, after
 * Lyndon and Schupp, Combinatorial Group Theory, chapter I.2) and the four
 * Nielsen moves that invertRose applies to the images of a rose.
 */
module Nielsen {
  import opened Wrappers
  import opened Letters
  import P = Paths
  import G = Graphs

  /**
   * String.compareTo on the chars of two words: the difference of the first chars
   * that differ, or else the difference of the lengths.
   */
  function CompareTo(a: P.Path, b: P.Path): (r: int)
    ensures r == 0 <==> a == b
    decreases |a|
  {
    if a == [] || b == [] then |a| - |b|
    else if Encode(a[0]) != Encode(b[0]) then Encode(a[0]) - Encode(b[0])
    else
      DecodeEncode(a[0]);
      DecodeEncode(b[0]);
      assert a == [a[0]] + a[1..] && b == [b[0]] + b[1..];
      CompareTo(a[1..], b[1..])
  }

  /** Exchanging the words negates the comparison. */
  lemma {:induction false} CompareAntisymmetric(a: P.Path, b: P.Path)
    ensures CompareTo(b, a) == -CompareTo(a, b)
    decreases |a|
  {
    if a != [] && b != [] && Encode(a[0]) == Encode(b[0]) {
      CompareAntisymmetric(a[1..], b[1..]);
    }
  }

  /** The comparison is transitive. */
  lemma {:induction false} CompareTransitive(a: P.Path, b: P.Path, c: P.Path)
    requires CompareTo(a, b) < 0 && CompareTo(b, c) < 0
    ensures CompareTo(a, c) < 0
    decreases |a|
  {
    if a != [] && b != [] && c != [] && Encode(a[0]) == Encode(b[0]) && Encode(b[0]) == Encode(c[0]) {
      CompareTransitive(a[1..], b[1..], c[1..]);
    }
  }

  /** leftHalf: the first half of a word, with the middle letter when the length is odd. */
  function LeftHalf(s: P.Path): (h: P.Path)
    ensures |h| == (|s| + 1) / 2 && h == s[..|h|]
  {
    s[..(|s| + 1) / 2]
  }

  /** The smaller and the larger of the left halves of a word and of its inverse. */
  function MinMax(a: P.Path): (m: (P.Path, P.Path))
    ensures CompareTo(m.0, m.1) <= 0
    ensures {m.0, m.1} == {LeftHalf(a), LeftHalf(P.Reverse(a))}
  {
    var la := LeftHalf(a);
    var lA := LeftHalf(P.Reverse(a));
    CompareAntisymmetric(la, lA);
    if CompareTo(la, lA) < 0 then (la, lA) else (lA, la)
  }

  /**
   * lessThan: shorter words come first; among words of one length, the smaller left
   * half (of the word or its inverse) decides, then the larger one.
   */
  function LessThan(a: P.Path, b: P.Path): (r: bool)
    ensures |a| < |b| ==> r
    ensures r ==> |a| <= |b|
  {
    if |a| > |b| then false
    else if |a| < |b| then true
    else
      var (mina, maxa) := MinMax(a);
      var (minb, maxb) := MinMax(b);
      if CompareTo(mina, minb) > 0 then false
      else if CompareTo(mina, minb) < 0 then true
      else CompareTo(maxa, maxb) < 0
  }

  /** A word and its inverse have the same pair of halves. */
  lemma MinMaxInverse(a: P.Path)
    ensures MinMax(P.Reverse(a)) == MinMax(a)
  {
    P.ReverseReverse(a);
    CompareAntisymmetric(LeftHalf(a), LeftHalf(P.Reverse(a)));
  }

  /** The order does not tell a word from its inverse. */
  lemma LessThanInverse(a: P.Path, b: P.Path)
    ensures LessThan(P.Reverse(a), b) == LessThan(a, b)
    ensures LessThan(a, P.Reverse(b)) == LessThan(a, b)
  {
    MinMaxInverse(a);
    MinMaxInverse(b);
  }

  /** The order is strict: never both ways, so never reflexive. */
  lemma LessThanAsymmetric(a: P.Path, b: P.Path)
    ensures LessThan(a, b) ==> !LessThan(b, a)
  {
    CompareAntisymmetric(MinMax(a).0, MinMax(b).0);
    CompareAntisymmetric(MinMax(a).1, MinMax(b).1);
  }

  /** The order is transitive. */
  lemma LessThanTransitive(a: P.Path, b: P.Path, c: P.Path)
    requires LessThan(a, b) && LessThan(b, c)
    ensures LessThan(a, c)
  {
    if |a| == |b| == |c| {
      var (mina, maxa) := MinMax(a);
      var (minb, maxb) := MinMax(b);
      var (minc, maxc) := MinMax(c);
      if CompareTo(mina, minb) < 0 && CompareTo(minb, minc) < 0 {
        CompareTransitive(mina, minb, minc);
      } else if CompareTo(mina, minb) == 0 && CompareTo(minb, minc) == 0 {
        CompareTransitive(maxa, maxb, maxc);
      }
    }
  }

  /** Two words are tied exactly when they have one length and one pair of halves. */
  lemma LessThanTies(a: P.Path, b: P.Path)
    ensures !LessThan(a, b) && !LessThan(b, a) <==> |a| == |b| && MinMax(a) == MinMax(b)
  {
    CompareAntisymmetric(MinMax(a).0, MinMax(b).0);
    CompareAntisymmetric(MinMax(a).1, MinMax(b).1);
  }

  // ---- Nielsen moves ----

  /** The four moves invertRose tries, in its order: x y, x y^-1, x^-1 y^-1, x^-1 y. */
  datatype Move = Product | ProductInv | InvInv | InvProduct

  /** The word of a move before tightening. */
  function Raw(m: Move, x: P.Path, y: P.Path): P.Path
  {
    match m
    case Product => x + y
    case ProductInv => x + P.Reverse(y)
    case InvInv => P.Reverse(x) + P.Reverse(y)
    case InvProduct => P.Reverse(x) + y
  }

  /** The tightened word a move makes of x and y. */
  function Combine(m: Move, x: P.Path, y: P.Path): (r: P.Path)
    ensures P.Reduced(r)
  {
    P.TightenReduced(Raw(m, x, y));
    P.Tighten(Raw(m, x, y))
  }

  /** The tightened image of an inverse word. */
  lemma MapReverse(g: G.Graph, u: P.Path)
    requires G.Valid(g) && P.LettersBelow(u, G.Capacity(g))
    ensures P.LettersBelow(P.Reverse(u), G.Capacity(g))
    ensures P.Tighten(G.Unfold(g, P.Reverse(u))) == P.Reverse(P.Tighten(G.Unfold(g, u)))
  {
    G.UnfoldReverse(g, u);
    P.TightenReverse(G.Unfold(g, u));
  }

  /**
   * A move commutes with the map: combining the tightened images of u and v gives
   * the tightened image of the combination of u and v. This is what keeps the
   * images of the rose and the images of its candidate inverse in step.
   */
  lemma CombineMaps(g: G.Graph, m: Move, u: P.Path, v: P.Path)
    requires G.Valid(g) && P.LettersBelow(u, G.Capacity(g)) && P.LettersBelow(v, G.Capacity(g))
    ensures P.LettersBelow(Combine(m, u, v), G.Capacity(g))
    ensures Combine(m, P.Tighten(G.Unfold(g, u)), P.Tighten(G.Unfold(g, v))) ==
      P.Tighten(G.Unfold(g, Combine(m, u, v)))
  {
    var n := G.Capacity(g);
    MapReverse(g, u);
    MapReverse(g, v);
    var u' := if m == InvInv || m == InvProduct then P.Reverse(u) else u;
    var v' := if m == ProductInv || m == InvInv then P.Reverse(v) else v;
    assert Raw(m, u, v) == u' + v';
    G.UnfoldProduct(g, u', v');
    P.TightenLettersBelow(u' + v', n);
  }

  /** A move sees only the tightened forms of its words. */
  lemma CombineTightened(m: Move, x: P.Path, y: P.Path)
    ensures Combine(m, P.Tighten(x), P.Tighten(y)) == Combine(m, x, y)
  {
    P.TightenReverse(x);
    P.TightenReverse(y);
    var x' := if m == InvInv || m == InvProduct then P.Reverse(x) else x;
    var y' := if m == ProductInv || m == InvInv then P.Reverse(y) else y;
    assert Raw(m, x, y) == x' + y';
    assert Raw(m, P.Tighten(x), P.Tighten(y)) == P.Tighten(x') + P.Tighten(y');
    P.TightenPrefix(x', P.Tighten(y'));
    P.TightenSuffix(x', y');
  }

  // ---- a rank that the order strictly lowers ----

  /** Every char code is below K. */
  const K: nat := 0x1_0000

  function Pow(e: nat): (r: nat)
    ensures r >= 1
  {
    if e == 0 then 1 else K * Pow(e - 1)
  }

  /** The codes of a word read as a number in base K, first char most significant. */
  function Num(w: P.Path): nat
  {
    if w == [] then 0 else Encode(w[0]) * Pow(|w| - 1) + Num(w[1..])
  }

  lemma MulLe(a: nat, b: nat, c: nat)
    requires a <= b
    ensures a * c <= b * c
  {
  }

  lemma MulSucc(c: nat, p: nat)
    ensures (c + 1) * p == c * p + p
  {
  }

  lemma {:induction false} NumBound(w: P.Path)
    ensures Num(w) < Pow(|w|)
    decreases |w|
  {
    if w != [] {
      var c, p := Encode(w[0]), Pow(|w| - 1);
      NumBound(w[1..]);
      assert Num(w) == c * p + Num(w[1..]);
      MulSucc(c, p);
      MulLe(c + 1, K, p);
      assert Pow(|w|) == K * p;
    }
  }

  /** Among words of one length, compareTo and the numbers agree. */
  lemma {:induction false} NumCompare(x: P.Path, y: P.Path)
    requires |x| == |y| && CompareTo(x, y) < 0
    ensures Num(x) < Num(y)
    decreases |x|
  {
    var cx, cy, p := Encode(x[0]), Encode(y[0]), Pow(|x| - 1);
    assert Num(x) == cx * p + Num(x[1..]) && Num(y) == cy * p + Num(y[1..]);
    if cx != cy {
      NumBound(x[1..]);
      MulSucc(cx, p);
      MulLe(cx + 1, cy, p);
    } else {
      NumCompare(x[1..], y[1..]);
    }
  }

  /** Comparing two words after equally long first parts. */
  lemma {:induction false} CompareAppend(x1: P.Path, x2: P.Path, y1: P.Path, y2: P.Path)
    requires |x1| == |y1|
    ensures CompareTo(x1, y1) < 0 ==> CompareTo(x1 + x2, y1 + y2) < 0
    ensures x1 == y1 ==> CompareTo(x1 + x2, y1 + y2) == CompareTo(x2, y2)
    decreases |x1|
  {
    if x1 != [] {
      assert (x1 + x2)[0] == x1[0] && (y1 + y2)[0] == y1[0];
      assert (x1 + x2)[1..] == x1[1..] + x2 && (y1 + y2)[1..] == y1[1..] + y2;
      CompareAppend(x1[1..], x2, y1[1..], y2);
    } else {
      assert x1 + x2 == x2 && y1 + y2 == y2;
    }
  }

  /** The number of ranks taken by the words shorter than n. */
  function Base(n: nat): nat
  {
    if n == 0 then 0 else Base(n - 1) + Pow(2 * ((n - 1 + 1) / 2))
  }

  lemma {:induction false} BaseMonotone(m: nat, n: nat)
    requires m <= n
    ensures Base(m) <= Base(n)
    decreases n - m
  {
    if m < n {
      BaseMonotone(m, n - 1);
    }
  }

  /** Words are ranked by length, then by the pair of halves lessThan compares. */
  function Rank(a: P.Path): nat
  {
    var (mina, maxa) := MinMax(a);
    Base(|a|) + Num(mina + maxa)
  }

  /** The ranks of the words of one length fill the band from Base(|a|) up to Base(|a| + 1). */
  lemma RankBand(a: P.Path)
    ensures Base(|a|) <= Rank(a) < Base(|a| + 1)
  {
    RankSplit(a);
    HalvesBound(a);
    BaseStep(|a|);
  }

  /** The band of length n + 1 starts Pow(2 * ((n + 1) / 2)) above the band of length n. */
  lemma BaseStep(n: nat)
    ensures Base(n + 1) == Base(n) + Pow(2 * ((n + 1) / 2))
  {
  }

  lemma RankSplit(a: P.Path)
    ensures Rank(a) == Base(|a|) + Num(MinMax(a).0 + MinMax(a).1)
  {
  }

  /** The number of the two halves is below K to the power of their length. */
  lemma HalvesBound(a: P.Path)
    ensures Num(MinMax(a).0 + MinMax(a).1) < Pow(2 * ((|a| + 1) / 2))
  {
    var w := MinMax(a).0 + MinMax(a).1;
    MinMaxLength(a);
    assert |w| == 2 * ((|a| + 1) / 2);
    NumBound(w);
  }

  /** Both halves compared by lessThan have the length of the left half of the word. */
  lemma MinMaxLength(a: P.Path)
    ensures |MinMax(a).0| == |MinMax(a).1| == (|a| + 1) / 2
  {
    assert |P.Reverse(a)| == |a|;
  }

  /** lessThan strictly lowers the rank, so it admits no infinite descent. */
  lemma LessThanRank(a: P.Path, b: P.Path)
    requires LessThan(a, b)
    ensures Rank(a) < Rank(b)
  {
    RankBand(a);
    RankBand(b);
    if |a| < |b| {
      BaseMonotone(|a| + 1, |b|);
    } else {
      var (mina, maxa) := MinMax(a);
      var (minb, maxb) := MinMax(b);
      CompareAppend(mina, maxa, minb, maxb);
      NumCompare(mina + maxa, minb + maxb);
    }
  }

  // ---- the state of invertRose ----

  /** No move makes x smaller using y: the condition in which a sweep leaves x alone. */
  predicate Stuck(x: P.Path, y: P.Path)
  {
    !LessThan(Combine(Product, x, y), x) && !LessThan(Combine(ProductInv, x, y), x) &&
    !LessThan(Combine(InvInv, x, y), x) && !LessThan(Combine(InvProduct, x, y), x)
  }

  /** No move makes f[i] smaller using any other of the first j words. */
  predicate StuckRow(f: seq<P.Path>, i: nat, j: nat)
    requires i < |f| && j <= |f|
  {
    forall k :: 0 <= k < j && k != i ==> Stuck(f[i], f[k])
  }

  lemma StuckRowStep(f: seq<P.Path>, i: nat, j: nat)
    requires i < |f| && j < |f| && StuckRow(f, i, j) && (j != i ==> Stuck(f[i], f[j]))
    ensures StuckRow(f, i, j + 1)
  {
  }

  /** No move applies to any two of the first n words. */
  predicate NoMoves(f: seq<P.Path>, n: nat)
    requires n <= |f|
  {
    forall i :: 0 <= i < n ==> StuckRow(f, i, n)
  }

  /** A letter followed by its inverse tightens away. */
  lemma CancelPair(s: Sym)
    ensures P.Tighten([s, Inv(s)]) == []
  {

    assert P.Push([], s) == [s];
    assert P.Push([s], Inv(s)) == [];
    assert [s, Inv(s)][1..] == [Inv(s)];
    assert P.Reduce([], [s, Inv(s)]) == P.Reduce([s], [Inv(s)]);
    assert P.Reduce([s], [Inv(s)]) == P.Reduce([], []);
  }

  /** Two one-letter words no move can shorten lie on different edges. */
  lemma StuckLetters(x: P.Path, y: P.Path)
    requires |x| == 1 && |y| == 1 && Stuck(x, y)
    ensures x[0].index != y[0].index
  {
    if x[0].index == y[0].index {
      var s := x[0];
      assert P.Reverse(y) == [Inv(y[0])];
      if y[0] == s {
        assert Raw(ProductInv, x, y) == [s, Inv(s)];
        CancelPair(s);
      } else {
        assert y[0] == Inv(s);
        assert Raw(Product, x, y) == [s, Inv(s)];
        CancelPair(s);
      }
    }
  }

  /** A move keeps words on the first n edges on the first n edges. */
  lemma CombineLetters(m: Move, x: P.Path, y: P.Path, n: int)
    requires P.LettersBelow(x, n) && P.LettersBelow(y, n)
    ensures P.LettersBelow(Combine(m, x, y), n)
  {
    P.ReverseLettersBelow(x, n);
    P.ReverseLettersBelow(y, n);
    P.TightenLettersBelow(Raw(m, x, y), n);
  }

  /**
   * The invariant of invertRose: for each of the first n edges, the word f[i] on the
   * edges of the rose and the image under phi of the word hs[i] tighten alike, and
   * both stay on the edges of phi.
   */
  predicate Related(phi: G.Graph, f: seq<P.Path>, hs: seq<P.Path>, n: nat)
  {
    G.Valid(phi) && n <= |f| && n <= |hs| && forall i :: 0 <= i < n ==> RelatedAt(phi, f, hs, i)
  }

  /** Position i of Related. */
  predicate RelatedAt(phi: G.Graph, f: seq<P.Path>, hs: seq<P.Path>, i: nat)
    requires G.Valid(phi) && i < |f| && i < |hs|
  {
    P.LettersBelow(f[i], phi.edges) && P.LettersBelow(hs[i], phi.edges) && phi.edges <= G.Capacity(phi) &&
    P.Tighten(f[i]) == P.Tighten(G.Unfold(phi, hs[i]))
  }

  /** The first n numbers added up. */
  function Sum(rs: seq<nat>, n: nat): nat
    requires n <= |rs|
  {
    if n == 0 then 0 else Sum(rs, n - 1) + rs[n - 1]
  }

  /** Lowering one of the first n numbers lowers their sum. */
  lemma {:induction false} SumUpdate(rs: seq<nat>, i: nat, r: nat, n: nat)
    requires i < n <= |rs| && r < rs[i]
    ensures Sum(rs[i := r], n) < Sum(rs, n)
  {
    if i < n - 1 {
      SumUpdate(rs, i, r, n - 1);
    } else {
      SumSame(rs, rs[i := r], n - 1);
    }
  }

  lemma {:induction false} SumSame(rs: seq<nat>, rs': seq<nat>, n: nat)
    requires n <= |rs| && n <= |rs'| && forall i :: 0 <= i < n ==> rs[i] == rs'[i]
    ensures Sum(rs, n) == Sum(rs', n)
  {
    if n > 0 {
      SumSame(rs, rs', n - 1);
    }
  }

  /** The rank of each word. */
  function Ranks(f: seq<P.Path>): (rs: seq<nat>)
    ensures |rs| == |f| && forall i :: 0 <= i < |f| ==> rs[i] == Rank(f[i])
  {
    seq(|f|, i requires 0 <= i < |f| => Rank(f[i]))
  }

  /** Replacing one of the first n words by a word of lower rank lowers the sum of their ranks. */
  lemma RankSumUpdate(f: seq<P.Path>, i: nat, w: P.Path, n: nat)
    requires i < n <= |f| && Rank(w) < Rank(f[i])
    ensures Sum(Ranks(f[i := w]), n) < Sum(Ranks(f), n)
  {
    assert Ranks(f[i := w]) == Ranks(f)[i := Rank(w)];
    SumUpdate(Ranks(f), i, Rank(w), n);
  }

  /** A move that makes image i smaller keeps the maps related and lowers the sum of the ranks. */
  lemma MoveDecreases(phi: G.Graph, f: seq<P.Path>, hs: seq<P.Path>, n: nat, m: Move, i: nat, j: nat,
                      f': seq<P.Path>, hs': seq<P.Path>)
    requires Related(phi, f, hs, n) && i < n && j < n && LessThan(Combine(m, f[i], f[j]), f[i])
    requires f' == f[i := Combine(m, f[i], f[j])] && hs' == hs[i := Combine(m, hs[i], hs[j])]
    ensures Related(phi, f', hs', n) && Sum(Ranks(f'), n) < Sum(Ranks(f), n)
  {
    LessThanRank(Combine(m, f[i], f[j]), f[i]);
    RankSumUpdate(f, i, Combine(m, f[i], f[j]), n);
    MoveRelated(phi, f, hs, n, m, i, j);
  }

  /** A move made on both the images and the candidate inverse keeps them related. */
  lemma MoveRelated(phi: G.Graph, f: seq<P.Path>, hs: seq<P.Path>, n: nat, m: Move, i: nat, j: nat)
    requires Related(phi, f, hs, n) && i < n && j < n
    ensures Related(phi, f[i := Combine(m, f[i], f[j])], hs[i := Combine(m, hs[i], hs[j])], n)
  {
    var c, d := Combine(m, f[i], f[j]), Combine(m, hs[i], hs[j]);
    assert RelatedAt(phi, f, hs, i) && RelatedAt(phi, f, hs, j);
    CombineMaps(phi, m, hs[i], hs[j]);
    CombineTightened(m, f[i], f[j]);
    CombineLetters(m, f[i], f[j], phi.edges);
    CombineLetters(m, hs[i], hs[j], phi.edges);
    P.TightenOfReduced(c);
    assert P.Tighten(c) == P.Tighten(G.Unfold(phi, d));
    var f', hs' := f[i := c], hs[i := d];
    forall k | 0 <= k < n
      ensures RelatedAt(phi, f', hs', k)
    {
      if k != i {
        assert RelatedAt(phi, f, hs, k);
      }
    }
  }

  /** Exchanging two entries of both keeps them related. */
  lemma SwapRelated(phi: G.Graph, f: seq<P.Path>, hs: seq<P.Path>, n: nat, i: nat, j: nat)
    requires Related(phi, f, hs, n) && i < n && j < n
    ensures Related(phi, f[i := f[j]][j := f[i]], hs[i := hs[j]][j := hs[i]], n)
  {
    var f', hs' := f[i := f[j]][j := f[i]], hs[i := hs[j]][j := hs[i]];
    forall k | 0 <= k < n
      ensures RelatedAt(phi, f', hs', k)
    {
      var k' := if k == i then j else if k == j then i else k;
      assert RelatedAt(phi, f, hs, k') && f'[k] == f[k'] && hs'[k] == hs[k'];
    }
  }

  /** Inverting an entry of both keeps them related. */
  lemma ReverseRelated(phi: G.Graph, f: seq<P.Path>, hs: seq<P.Path>, n: nat, i: nat)
    requires Related(phi, f, hs, n) && i < n
    ensures Related(phi, f[i := P.Reverse(f[i])], hs[i := P.Reverse(hs[i])], n)
  {
    assert RelatedAt(phi, f, hs, i);
    MapReverse(phi, hs[i]);
    P.TightenReverse(f[i]);
    P.ReverseLettersBelow(f[i], phi.edges);
    P.ReverseLettersBelow(hs[i], phi.edges);
    var f', hs' := f[i := P.Reverse(f[i])], hs[i := P.Reverse(hs[i])];
    forall k | 0 <= k < n
      ensures RelatedAt(phi, f', hs', k)
    {
      assert RelatedAt(phi, f, hs, k);
    }
  }

  /** At the start the images are related to the identity on the rose. */
  lemma StartRelated(phi: G.Graph, hs: seq<P.Path>)
    requires G.WellFormed(phi) && phi.edges <= |hs|
    requires forall i :: 0 <= i < phi.edges ==> hs[i] == [Sym(i, false)]
    ensures Related(phi, phi.im, hs, phi.edges)
  {
    forall i | 0 <= i < phi.edges
      ensures RelatedAt(phi, phi.im, hs, i)
    {
      assert hs[i][1..] == [];
      assert G.Unfold(phi, hs[i]) == phi.im[i];
    }
  }

  /** When no move applies, images of single letters lie on distinct edges. */
  lemma NoMovesDistinct(f: seq<P.Path>, n: nat)
    requires n <= |f| && NoMoves(f, n) && forall k :: 0 <= k < n ==> |f[k]| == 1
    ensures Distinct(f, n)
  {
    forall a, b | 0 <= a < n && 0 <= b < n && a != b
      ensures f[a][0].index != f[b][0].index
    {
      assert StuckRow(f, a, n);
      StuckLetters(f[a], f[b]);
    }
  }

  /** Images that are the edges themselves make the candidate an inverse of phi. */
  lemma FinishRelated(phi: G.Graph, f: seq<P.Path>, hs: seq<P.Path>, n: nat)
    requires Related(phi, f, hs, n) && n <= MAXINDEX
    requires forall k :: 0 <= k < n ==> f[k] == [Sym(k, false)]
    ensures forall k :: 0 <= k < n ==> G.MapWord(phi, hs[k]) == Some([Sym(k, false)])
  {
    forall k | 0 <= k < n
      ensures G.MapWord(phi, hs[k]) == Some([Sym(k, false)])
    {
      assert RelatedAt(phi, f, hs, k);
      P.TightenOfReduced(f[k]);
    }
  }

  /** The first n words are single letters on pairwise different edges. */
  predicate Distinct(f: seq<P.Path>, n: nat)
  {
    n <= |f| && (forall k :: 0 <= k < n ==> |f[k]| == 1) &&
    forall a, b :: 0 <= a < n && 0 <= b < n && a != b ==> f[a][0].index != f[b][0].index
  }

  /** Among single letters, the first i lie on their own edges. */
  predicate Placed(f: seq<P.Path>, i: nat)
    requires i <= |f| && forall k :: 0 <= k < i ==> |f[k]| == 1
  {
    forall k :: 0 <= k < i ==> f[k][0].index == k
  }

  /** Exchanging entry i with the later entry j on edge i places one more. */
  lemma SwapPlaced(f: seq<P.Path>, n: nat, i: nat, j: nat)
    requires i < j < n && Distinct(f, n) && Placed(f, i) && f[j][0].index == i
    ensures Distinct(f[i := f[j]][j := f[i]], n) && Placed(f[i := f[j]][j := f[i]], i + 1)
  {
    var f': seq<P.Path> := f[i := f[j]][j := f[i]];
    forall a, b | 0 <= a < n && 0 <= b < n && a != b
      ensures f'[a][0].index != f'[b][0].index
    {
      var a' := if a == i then j else if a == j then i else a;
      var b' := if b == i then j else if b == j then i else b;
      assert f'[a] == f[a'] && f'[b] == f[b'];
    }
  }

  /** When the first n - 1 of n distinct letters on the first n edges are placed, all are. */
  lemma LastPlaced(f: seq<P.Path>, n: nat)
    requires Distinct(f, n) && 0 < n && Placed(f, n - 1) && P.LettersBelow(f[n - 1], n)
    ensures Placed(f, n)
  {
    var x := f[n - 1][0].index;
    var y := f[x][0].index;
  }
}
