/**
 * Tietze transformations (tietzeTrafos in GraphMap.java). A relation in which the
 * edge of some letter x occurs only once, say w = a x b, expresses x^-1 as the word
 * b a in the other edges; that word is substituted for x^-1 everywhere (in the map
 * and in every relation), and the edge is removed at the end.
 */
module Tietze {
  import opened Wrappers
  import opened Letters
  import P = Paths
  import G = Graphs
  import W = Words

  /** How many of the first k letters of w run along edge e, in either direction. */
  function EdgeCount(w: P.Path, e: int, k: nat): nat
    requires k <= |w|
  {
    if k == 0 then 0 else EdgeCount(w, e, k - 1) + if w[k - 1].index == e then 1 else 0
  }

  /** No letter of w runs along edge e. */
  predicate Avoids(w: P.Path, e: int)
  {
    forall k :: 0 <= k < |w| ==> w[k].index != e
  }

  /** The word that replaces the inverse of letter j of w: the rest of w read on from j. */
  function Rest(w: P.Path, j: nat): P.Path
    requires j < |w|
  {
    w[j + 1..] + w[..j]
  }

  /** The replacement of the inverse of letter j of w by Rest(w, j). */
  function HitAt(w: P.Path, j: nat): G.Rewrite
    requires j < |w|
  {
    G.ReplaceOf(Inv(w[j]), Rest(w, j))
  }

  /** The state of the transformations: the map, the relations, and the edges to remove. */
  datatype Scan = Scan(g: G.Graph, rels: seq<P.Path>, gone: seq<nat>)

  /**
   * The scan of relation i from letter j on: a letter whose edge occurs once in the
   * relation is a hit, its replacement is made in the map and in all relations, and
   * its edge joins the ones to remove; the scan goes on in the rewritten relation.
   */
  function ScanFrom(t: Scan, i: nat, j: nat): (r: Scan)
    requires G.Valid(t.g) && i < |t.rels|
    ensures G.Valid(r.g) && |r.rels| == |t.rels|
    ensures r.gone == t.gone || (|r.gone| == |t.gone| + 1 && r.gone[..|t.gone|] == t.gone && r.rels[i] == [])
    decreases if j <= |t.rels[i]| then |t.rels[i]| - j else 0
  {
    var w := t.rels[i];
    if j >= |w| then t
    else if EdgeCount(w, w[j].index, |w|) == 1 then
      var rw := HitAt(w, j);
      HitVanishes(w, j);
      var t' := Scan(G.RewriteAll(t.g, rw), G.ApplyFirst(rw, t.rels, |t.rels|), t.gone + [w[j].index]);
      var r := ScanFrom(t', i, j + 1);
      assert r == t';
      r
    else ScanFrom(t, i, j + 1)
  }

  /** The relations from i on, each scanned in turn. */
  function ScanAll(t: Scan, i: nat): (r: Scan)
    requires G.Valid(t.g) && i <= |t.rels|
    ensures G.Valid(r.g) && |r.rels| == |t.rels|
    ensures |t.gone| <= |r.gone| <= |t.gone| + |t.rels| - i
    decreases |t.rels| - i
  {
    if i == |t.rels| then t else ScanAll(ScanFrom(t, i, 0), i + 1)
  }

  /** The edges of gone from k on removed one after the other, by their numbers at that time. */
  function RemoveAll(g: G.Graph, gone: seq<nat>, k: nat): (r: Result<G.Graph>)
    requires G.Valid(g) && k <= |gone|
    ensures r.Ok? ==> G.Valid(r.value) && r.value.edges + |gone| - k == g.edges
    decreases |gone| - k
  {
    if k == |gone| then Ok(g)
    else match G.RemoveEdge(g, gone[k])
      case Err(m) => Err(m)
      case Ok(h) => RemoveAll(h, gone, k + 1)
  }

  /** tietzeTrafos(rel): every relation scanned, then the edges of the hits removed. */
  function Trafos(g: G.Graph, rels: seq<P.Path>): (r: Result<G.Graph>)
    requires G.Valid(g)
    ensures r.Ok? ==> G.Valid(r.value)
  {
    var t := ScanAll(Scan(g, rels, []), 0);
    RemoveAll(t.g, t.gone, 0)
  }

  // ---- what a hit does ----

  /** Counting up to k finds every occurrence of e below k. */
  lemma {:induction false} EdgeCountOnce(w: P.Path, e: int, k: nat, j: nat)
    requires j < k <= |w| && w[j].index == e && EdgeCount(w, e, k) == 1
    ensures forall m :: 0 <= m < k && m != j ==> w[m].index != e
  {
    if k - 1 > j {
      assert w[k - 1].index != e by {
        EdgeCountAtLeast(w, e, k - 1, j);
      }
      EdgeCountOnce(w, e, k - 1, j);
    } else {
      EdgeCountNone(w, e, j);
    }
  }

  /** An occurrence below k counts. */
  lemma {:induction false} EdgeCountAtLeast(w: P.Path, e: int, k: nat, j: nat)
    requires j < k <= |w| && w[j].index == e
    ensures EdgeCount(w, e, k) >= 1
  {
    if k - 1 > j {
      EdgeCountAtLeast(w, e, k - 1, j);
    }
  }

  /** A count of nothing below k means no occurrence below k. */
  lemma {:induction false} EdgeCountNone(w: P.Path, e: int, k: nat)
    requires k <= |w| && EdgeCount(w, e, k) == 0
    ensures Avoids(w[..k], e)
  {
    if k > 0 {
      EdgeCountNone(w, e, k - 1);
      assert w[..k] == w[..k - 1] + [w[k - 1]];
    }
  }

  /** A word that avoids the edge of c is left alone by the substitution. */
  lemma {:induction false} SubstituteAvoiding(w: P.Path, c: Sym, s: P.Path)
    requires Avoids(w, c.index)
    ensures P.SubstituteAll(w, c, s) == w
    decreases |w|
  {
    if w != [] {
      SubstituteAvoiding(w[1..], c, s);
      assert [w[0]] + w[1..] == w;
    }
  }

  /** A word and its inverse tighten to nothing. */
  lemma Cancels(a: P.Path)
    ensures P.Reduce([], a + P.Reverse(a)) == []
  {
    P.ReverseReverse(a);
    P.ReduceInverseCancels([], P.Reverse(a));
  }

  /**
   * A hit empties its own relation: with w = a x b and the edge of x nowhere in a or
   * b, the inverse of x becomes b a, so x becomes A B, and a A B b tightens to nothing.
   */
  lemma HitVanishes(w: P.Path, j: nat)
    requires j < |w| && EdgeCount(w, w[j].index, |w|) == 1
    ensures G.Apply(HitAt(w, j), w) == []
  {
    var a, x, b := w[..j], w[j], w[j + 1..];
    var c, s := Inv(x), Rest(w, j);
    EdgeCountOnce(w, x.index, |w|, j);
    assert Avoids(a, c.index) && Avoids(b, c.index);
    assert w == a + [x] + b;
    assert P.SubstituteAll([x], c, s) == P.Reverse(s);
    P.ReverseAppend(b, a);
    var u := a + P.Reverse(a) + (P.Reverse(b) + b);
    calc {
      P.SubstituteAll(w, c, s);
      { W.SubstituteAllAppend(a + [x], b, c, s); }
      P.SubstituteAll(a + [x], c, s) + P.SubstituteAll(b, c, s);
      { W.SubstituteAllAppend(a, [x], c, s); }
      P.SubstituteAll(a, c, s) + P.SubstituteAll([x], c, s) + P.SubstituteAll(b, c, s);
      { SubstituteAvoiding(a, c, s); SubstituteAvoiding(b, c, s); }
      a + P.Reverse(s) + b;
      a + (P.Reverse(a) + P.Reverse(b)) + b;
      { Regroup(a, P.Reverse(a), P.Reverse(b), b); }
      u;
    }
    P.ReduceAppend([], a + P.Reverse(a), P.Reverse(b) + b);
    Cancels(a);
    P.ReverseReverse(b);
    Cancels(P.Reverse(b));
  }

  lemma Regroup(p: P.Path, q: P.Path, r: P.Path, t: P.Path)
    ensures p + (q + r) + t == p + q + (r + t)
  {
  }

  /** The substitution is free of the replaced edge once its replacement is. */
  lemma {:induction false} SubstituteAvoids(w: P.Path, c: Sym, s: P.Path)
    requires Avoids(s, c.index)
    ensures Avoids(P.SubstituteAll(w, c, s), c.index)
    decreases |w|
  {
    if w != [] {
      SubstituteAvoids(w[1..], c, s);
      var x := w[0];
      if x.index == c.index {
        assert x == c || x == Inv(c);
      }
      assert Avoids(P.Reverse(s), c.index);
    }
  }

  /** Tightening only deletes letters, so a word free of an edge stays free of it. */
  lemma TightenAvoids(w: P.Path, e: int)
    requires Avoids(w, e)
    ensures Avoids(P.Tighten(w), e)
  {
    P.ReduceLetters([], w);
    var t := P.Tighten(w);
    forall k | 0 <= k < |t|
      ensures t[k].index != e
    {
      assert t[k] in multiset(t);
      assert t[k] in multiset(w);
    }
  }

  /**
   * After a hit in relation w at letter j, the edge of the letter occurs neither in
   * the images of the edges in use, nor in the fixed word, the marked loops or any
   * relation: it is a generator the map no longer needs.
   */
  lemma HitEliminates(g: G.Graph, rels: seq<P.Path>, w: P.Path, j: nat)
    requires G.Valid(g) && j < |w| && EdgeCount(w, w[j].index, |w|) == 1
    ensures var h := G.RewriteAll(g, HitAt(w, j));
      (forall i :: 0 <= i < h.edges ==> Avoids(h.im[i], w[j].index)) &&
      Avoids(h.fix, w[j].index) &&
      (h.marked ==> forall i :: 0 <= i < |h.mark| ==> Avoids(h.mark[i], w[j].index))
    ensures forall i :: 0 <= i < |rels| ==> Avoids(G.ApplyFirst(HitAt(w, j), rels, |rels|)[i], w[j].index)
  {
    var c, s := Inv(w[j]), Rest(w, j);
    EdgeCountOnce(w, w[j].index, |w|, j);
    assert Avoids(s, c.index);
    forall v: P.Path
      ensures Avoids(P.ReplaceChar(v, c, s), c.index)
    {
      SubstituteAvoids(v, c, s);
      TightenAvoids(P.SubstituteAll(v, c, s), c.index);
    }
  }
}
