/**
 * The KK sequence of maps (KKSequence.java). For n >= 2 the rose with 2n - 2 petals
 * x_0 .. x_{2n-3} carries the map
 *   x_i -> x_{i+1}             for every other i,
 *   x_{n-1} -> X_0 X_n,
 *   x_{2n-3} -> X_{n-1} X_n,
 * and the surface boundary
 *   X_0 (X_{n+i} X_{i+1} for i < n-2) (x_{n+i} for i < n-2) X_{n-1} x_0 .. x_{n-1}
 * is its fixed word (X_i is x_i backwards).
 */
module KKSequences {
  import opened Wrappers
  import opened Letters
  import P = Paths
  import B = Boundary
  import G = Graphs
  import GM = GraphMaps

  /** The number of rounds of the two middle loops: n - 2, none when n < 2. */
  function Middle(n: int): nat { if n >= 2 then n - 2 else 0 }

  /** The number of rounds of the last loop: n, none when n < 0. */
  function Count(n: int): nat { if n >= 0 then n else 0 }

  /** X_{n+i} X_{i+1} for i < k. */
  function Pairs(n: int, k: nat): P.Path
  {
    seq(2 * k, j => if j % 2 == 0 then IndexToSym(j / 2 + n, true) else IndexToSym(j / 2 + 1, true))
  }

  /** x_{n+i} for i < k. */
  function Lows(n: int, k: nat): P.Path
  {
    seq(k, i => IndexToSym(i + n, false))
  }

  /** x_0 .. x_{k-1}. */
  function Ups(k: nat): P.Path
  {
    seq(k, i => IndexToSym(i, false))
  }

  /** The fixed word getMap(n) writes down, letter by letter as the source builds it. */
  function FixWord(n: int): P.Path
  {
    [IndexToSym(0, true)] + Pairs(n, Middle(n)) + Lows(n, Middle(n)) + [IndexToSym(n - 1, true)] + Ups(Count(n))
  }

  /** Every index the word uses is an edge number without wrap-around. */
  predicate InRange(n: int) { 2 <= n && 2 * n - 3 <= MAXINDEX }

  /** The image getMap(n) gives edge i; edge 2n - 3 is set last, so it wins when it is n - 1. */
  function Image(n: int, i: int): P.Path
  {
    if i == 2 * n - 3 then [IndexToSym(n - 1, true), IndexToSym(n, true)]
    else if i == n - 1 then [IndexToSym(0, true), IndexToSym(n, true)]
    else [IndexToSym(i + 1, false)]
  }

  /**
   * The map getMap(n) hands to isGoodMap: the rose identityFromFixed builds from the
   * fixed word (FixedRose), with edge i sent to Image(n, i).
   */
  predicate KKMap(h: G.Graph, n: int)
  {
    var fw := FixWord(n);
    G.Valid(h) && G.Capacity(h) == 2 * |fw| && h.edges == |fw| / 2 && h.fix == fw && !h.marked &&
    0 <= h.vertices <= |fw| &&
    (forall i :: 0 <= i < h.edges ==> h.im[i] == Image(n, i)) &&
    (forall i :: 0 <= i < h.edges ==> -1 <= h.start[i] < h.vertices && -1 <= h.end[i] < h.vertices)
  }

  // ---- the fixed word, position by position ----

  /** The edge at position p of the fixed word (n >= 2, m = n - 2). */
  function EdgeAt(n: int, p: int): int
  {
    var m := n - 2;
    if p == 0 then 0
    else if p <= 2 * m then (if p % 2 == 1 then (p - 1) / 2 + n else p / 2)
    else if p <= 3 * m then p - 2 * m - 1 + n
    else if p == 3 * m + 1 then n - 1
    else p - 3 * m - 2
  }

  /** Whether position p of the fixed word runs its edge backwards. */
  predicate BackAt(n: int, p: int)
  {
    var m := n - 2;
    p <= 2 * m || p == 3 * m + 1
  }

  /** Where the letter of edge e in direction back stands in the fixed word. */
  function PosOf(n: int, e: int, back: bool): int
  {
    if back then
      (if e == 0 then 0 else if e < n - 1 then 2 * e else if e == n - 1 then 3 * n - 5 else 2 * (e - n) + 1)
    else
      (if e >= n then e + n - 3 else 3 * n - 4 + e)
  }

  /** Within range, IndexToSym is the letter itself. */
  lemma SymInRange(ind: int, inv: bool)
    requires 0 <= ind <= MAXINDEX
    ensures IndexToSym(ind, inv) == Sym(ind, inv)
  {
    IndexToCharInRange(ind, inv);
  }

  /** The fixed word has 4n - 4 letters: two for every one of its 2n - 2 edges. */
  lemma FixLength(n: int)
    requires n >= 2
    ensures |FixWord(n)| == 4 * n - 4
  {
  }

  /** Letter p of the fixed word is edge EdgeAt(n, p), backwards exactly when BackAt(n, p). */
  lemma FixAt(n: int, p: int)
    requires InRange(n) && 0 <= p < |FixWord(n)|
    ensures FixWord(n)[p] == Sym(EdgeAt(n, p), BackAt(n, p))
  {
    var m := n - 2;
    if p == 0 {
      SymInRange(0, true);
    } else if p <= 2 * m {
      FixAtPairs(n, p);
    } else if p <= 3 * m {
      FixAtLows(n, p);
    } else if p == 3 * m + 1 {
      FixAtMiddle(n);
    } else {
      FixAtUps(n, p);
    }
  }

  /** The pairs X_{n+i} X_{i+1} stand at positions 1 .. 2n - 4. */
  lemma FixAtPairs(n: int, p: int)
    requires InRange(n) && 1 <= p <= 2 * (n - 2)
    ensures FixWord(n)[p] == Sym(EdgeAt(n, p), BackAt(n, p))
  {
    var w := FixWord(n);
    var q := Pairs(n, n - 2);
    assert w == [IndexToSym(0, true)] + q + (Lows(n, n - 2) + [IndexToSym(n - 1, true)] + Ups(n));
    var j := p - 1;
    assert w[p] == q[j];
    if j % 2 == 0 {
      assert q[j] == IndexToSym(j / 2 + n, true);
      assert p % 2 == 1 && (p - 1) / 2 == j / 2;
      SymInRange(j / 2 + n, true);
    } else {
      assert q[j] == IndexToSym(j / 2 + 1, true);
      assert p % 2 == 0 && p / 2 == j / 2 + 1;
      SymInRange(j / 2 + 1, true);
    }
  }

  /** The letters x_{n+i} stand at positions 2n - 3 .. 3n - 7. */
  lemma FixAtLows(n: int, p: int)
    requires InRange(n) && 2 * (n - 2) < p <= 3 * (n - 2)
    ensures FixWord(n)[p] == Sym(EdgeAt(n, p), BackAt(n, p))
  {
    var w := FixWord(n);
    var a := [IndexToSym(0, true)] + Pairs(n, n - 2);
    var l := Lows(n, n - 2);
    assert w == a + l + ([IndexToSym(n - 1, true)] + Ups(n));
    assert |a| == 2 * n - 3;
    assert w[p] == l[p - |a|];
    SymInRange(p - 2 * (n - 2) - 1 + n, false);
  }

  /** X_{n-1} stands at position 3n - 5. */
  lemma FixAtMiddle(n: int)
    requires InRange(n)
    ensures 3 * (n - 2) + 1 < |FixWord(n)|
    ensures FixWord(n)[3 * (n - 2) + 1] == Sym(EdgeAt(n, 3 * (n - 2) + 1), BackAt(n, 3 * (n - 2) + 1))
  {
    var w := FixWord(n);
    var c := [IndexToSym(0, true)] + Pairs(n, n - 2) + Lows(n, n - 2);
    assert w == c + [IndexToSym(n - 1, true)] + Ups(n);
    assert |c| == 3 * (n - 2) + 1;
    SymInRange(n - 1, true);
  }

  /** x_0 .. x_{n-1} stand at positions 3n - 4 .. 4n - 5. */
  lemma FixAtUps(n: int, p: int)
    requires InRange(n) && 3 * (n - 2) + 1 < p < |FixWord(n)|
    ensures FixWord(n)[p] == Sym(EdgeAt(n, p), BackAt(n, p))
  {
    var w := FixWord(n);
    var c := [IndexToSym(0, true)] + Pairs(n, n - 2) + Lows(n, n - 2) + [IndexToSym(n - 1, true)];
    assert w == c + Ups(n);
    assert |c| == 3 * (n - 2) + 2;
    assert w[p] == Ups(n)[p - |c|];
    SymInRange(p - 3 * (n - 2) - 2, false);
  }

  /** Every edge below 2n - 2 occurs in both directions, at PosOf. */
  lemma PosOfFinds(n: int, e: int, back: bool)
    requires n >= 2 && 0 <= e < 2 * n - 2
    ensures 0 <= PosOf(n, e, back) < 4 * n - 4
    ensures EdgeAt(n, PosOf(n, e, back)) == e && BackAt(n, PosOf(n, e, back)) == back
  {
  }

  /** Two positions hold different letters. */
  lemma PositionsDiffer(n: int, p: int, q: int)
    requires n >= 2 && 0 <= p < q < 4 * n - 4
    ensures EdgeAt(n, p) != EdgeAt(n, q) || BackAt(n, p) != BackAt(n, q)
  {
  }

  /** Two neighbouring positions never hold an edge and its inverse. */
  lemma NeighboursDoNotCancel(n: int, p: int)
    requires n >= 2 && 0 <= p < 4 * n - 4
    ensures p + 1 < 4 * n - 4 ==> EdgeAt(n, p) != EdgeAt(n, p + 1) || BackAt(n, p) == BackAt(n, p + 1)
    ensures p == 4 * n - 5 ==> EdgeAt(n, p) != EdgeAt(n, 0) || BackAt(n, p) == BackAt(n, 0)
  {
  }

  /**
   * For n >= 2 the fixed word is the boundary of a surface: the letters x_0 .. x_{2n-3}
   * each occur once in each direction and nothing cancels, even cyclically.
   */
  lemma FixIsBoundary(n: int)
    requires InRange(n)
    ensures |FixWord(n)| == 4 * n - 4 && P.LettersBelow(FixWord(n), 2 * n - 2)
    ensures B.Distinct(FixWord(n)) && B.InversesOccur(FixWord(n))
    ensures forall e :: 0 <= e < 2 * n - 2 ==> Sym(e, false) in FixWord(n) && Sym(e, true) in FixWord(n)
    ensures P.CyclicallyReduced(FixWord(n)) && B.IsBoundary(FixWord(n))
  {
    FixLength(n);
    var w := FixWord(n);
    forall p | 0 <= p < |w|
      ensures w[p] == Sym(EdgeAt(n, p), BackAt(n, p)) && 0 <= EdgeAt(n, p) < 2 * n - 2
    {
      FixAt(n, p);
    }
    forall p, q | 0 <= p < q < |w|
      ensures w[p] != w[q]
    {
      PositionsDiffer(n, p, q);
    }
    forall e, back | 0 <= e < 2 * n - 2
      ensures Sym(e, back) in w
    {
      PosOfFinds(n, e, back);
      assert w[PosOf(n, e, back)] == Sym(e, back);
    }
    forall x | x in w
      ensures Inv(x) in w
    {
      var p :| 0 <= p < |w| && w[p] == x;
      assert Inv(x) == Sym(EdgeAt(n, p), !BackAt(n, p));
    }
    forall p | 0 <= p < |w| - 1
      ensures w[p + 1] != Inv(w[p])
    {
      NeighboursDoNotCancel(n, p);
    }
    NeighboursDoNotCancel(n, |w| - 1);
    assert P.CyclicallyReduced(w);
    P.TightenCyclOfCyclicallyReduced(w);
    Even(|w|, 2 * n - 2);
  }

  /** Twice a number is even. */
  lemma Even(x: int, k: int)
    requires x == 2 * k
    ensures x % 2 == 0
  {
  }

  /** Below n = 2 the word is no boundary: three letters for n = 1, two that cancel below that. */
  lemma SmallNoBoundary(n: int)
    requires n < 2
    ensures !B.IsBoundary(FixWord(n))
  {
    var w := FixWord(n);
    if n <= 0 {
      var x := IndexToSym(0, true);
      assert w == [x, IndexToSym(n - 1, true)];
      if Inv(x) in w {
        assert w == [x, Inv(x)];
        TwoCancel(x);
      }
    } else {
      assert |w| == 3;
    }
  }

  /** A letter followed by its inverse tightens to nothing. */
  lemma TwoCancel(x: Sym)
    ensures P.TightenCycl([x, Inv(x)]) == []
  {
    assert P.Push([], x) == [x];
    assert P.Push([x], Inv(x)) == [];
    assert P.Tighten([x, Inv(x)]) == P.Reduce([x], [Inv(x)]);
    assert P.Reduce([x], [Inv(x)]) == P.Reduce([], []);
  }

  // ---- the source's loops ----

  /** The three loops that build the fixed word of getMap(n), one character at a time. */
  method Fix(n: int) returns (fix: P.Path)
    ensures fix == FixWord(n)
  {
    fix := [IndexToSym(0, true)];
    fix := AddPairs(fix, n);
    fix := AddLows(fix, n);
    fix := fix + [IndexToSym(n - 1, true)];
    fix := AddUps(fix, n);
  }

  /** The first loop: X_{n+i} X_{i+1} appended for i < n - 2. */
  method AddPairs(pre: P.Path, n: int) returns (fix: P.Path)
    ensures fix == pre + Pairs(n, Middle(n))
  {
    fix := pre;
    var i := 0;
    while i < n - 2
      invariant 0 <= i <= Middle(n)
      invariant fix == pre + Pairs(n, i)
    {
      fix := fix + [IndexToSym(i + n, true), IndexToSym(i + 1, true)];
      i := i + 1;
    }
  }

  /** The second loop: x_{n+i} appended for i < n - 2. */
  method AddLows(pre: P.Path, n: int) returns (fix: P.Path)
    ensures fix == pre + Lows(n, Middle(n))
  {
    fix := pre;
    var i := 0;
    while i < n - 2
      invariant 0 <= i <= Middle(n)
      invariant fix == pre + Lows(n, i)
    {
      fix := fix + [IndexToSym(i + n, false)];
      i := i + 1;
    }
  }

  /** The last loop: x_0 .. x_{n-1} appended. */
  method AddUps(pre: P.Path, n: int) returns (fix: P.Path)
    ensures fix == pre + Ups(Count(n))
  {
    fix := pre;
    var i := 0;
    while i < n
      invariant 0 <= i <= Count(n)
      invariant fix == pre + Ups(i)
    {
      fix := fix + [IndexToSym(i, false)];
      i := i + 1;
    }
  }

  /**
   * getMap(n): the rose identityFromFixed builds from the fixed word, every image set to
   * the next edge and then the two special images; a map that fails isGoodMap is
   * reported as "bad map!".
   */
  method GetMap(n: int) returns (g: GM.GraphMap, r: Outcome)
    ensures g.Valid()
    ensures n < 2 ==> r == Fail("bad boundary word: " + PathToString(FixWord(n)))
    ensures 8 * n - 8 > MAXINDEX ==> r.Fail?
    ensures InRange(n) && 8 * n - 8 > MAXINDEX ==> r == Fail("too many edges")
    ensures 2 <= n && 8 * n - 8 <= MAXINDEX ==>
      KKMap(g.State(), n) &&
      (r == Pass <==> G.IsGoodMap(g.State()) == Pass) && (r != Pass ==> r == Fail("bad map!"))
  {
    var fix := Fix(n);
    if n < 2 {
      SmallNoBoundary(n);
    } else if InRange(n) {
      FixIsBoundary(n);
    }
    g, r := GM.GraphMap.IdentityFromFixed(fix);
    if r.Fail? {
      return;
    }
    if n < 2 {
      assert false;
    }
    FixIsBoundary(n);
    r := SetImages(g, n);
  }

  /** The setImage calls and the final isGoodMap test of getMap, on the rose of the fixed word. */
  method SetImages(g: GM.GraphMap, n: int) returns (r: Outcome)
    requires InRange(n) && |FixWord(n)| == 4 * n - 4
    requires g.Valid() && GM.FixedRose(g.State(), FixWord(n))
    modifies g.im
    ensures g.Valid() && KKMap(g.State(), n)
    ensures r == Pass <==> G.IsGoodMap(g.State()) == Pass
    ensures r != Pass ==> r == Fail("bad map!")
  {
    ShiftImages(g, n);
    var ok := g.SetImage(n - 1, [IndexToSym(0, true), IndexToSym(n, true)]);
    ok := g.SetImage(2 * n - 3, [IndexToSym(n - 1, true), IndexToSym(n, true)]);
    forall i | 0 <= i < 2 * n - 2
      ensures g.im[i] == Image(n, i)
    {
    }
    assert KKMap(g.State(), n);
    r := g.IsGoodMap();
    if r.Fail? {
      r := Fail("bad map!");
    }
  }

  /** The first setImage loop of getMap: edge i is sent to edge i + 1, for i below 2n - 2. */
  method ShiftImages(g: GM.GraphMap, n: int)
    requires g.Valid() && 2 <= n && 2 * n - 2 <= g.im.Length
    modifies g.im
    ensures g.Valid()
    ensures forall i :: 0 <= i < 2 * n - 2 ==> g.im[i] == [IndexToSym(i + 1, false)]
    ensures forall i :: 2 * n - 2 <= i < g.im.Length ==> g.im[i] == old(g.im[i])
  {
    var i := 0;
    while i < 2 * n - 2
      invariant 0 <= i <= 2 * n - 2
      invariant forall j :: 0 <= j < i ==> g.im[j] == [IndexToSym(j + 1, false)]
      invariant forall j :: i <= j < g.im.Length ==> g.im[j] == old(g.im[j])
    {
      var ok := g.SetImage(i, [IndexToSym(i + 1, false)]);
      i := i + 1;
    }
  }
}
