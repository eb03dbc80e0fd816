/**
 * Edge paths (words in oriented edges) and the pure meaning of the word
 * operations: free reduction, cyclic reduction, inversion and the rewrites the
 * graph surgery applies to every image.
 */
module Paths {
  import opened Letters

  type Path = seq<Sym>

  /** No letter is immediately followed by its inverse. */
  predicate Reduced(p: Path)
  {
    forall i :: 0 <= i < |p| - 1 ==> p[i + 1] != Inv(p[i])
  }

  /** Reduced, and the last letter does not cancel the first one cyclically. */
  predicate CyclicallyReduced(p: Path)
  {
    Reduced(p) && (|p| > 0 ==> p[|p| - 1] != Inv(p[0]))
  }

  /** Every letter of p is an edge below n. */
  predicate LettersBelow(p: Path, n: int)
  {
    forall i :: 0 <= i < |p| ==> p[i].index < n
  }

  // ---- free reduction ----

  /** Put one letter on a reduced stack, cancelling it against the top if possible. */
  function Push(stack: Path, c: Sym): Path
  {
    if |stack| > 0 && Inv(stack[|stack| - 1]) == c then stack[..|stack| - 1] else stack + [c]
  }

  /** Push the letters of rest onto stack, left to right. */
  function Reduce(stack: Path, rest: Path): Path
    decreases |rest|
  {
    if rest == [] then stack else Reduce(Push(stack, rest[0]), rest[1..])
  }

  /** The freely reduced form of a word (tightenWord). */
  function Tighten(p: Path): Path
  {
    Reduce([], p)
  }

  lemma PushReduced(stack: Path, c: Sym)
    requires Reduced(stack)
    ensures Reduced(Push(stack, c))
  {
  }

  lemma {:induction false} ReduceReduced(stack: Path, rest: Path)
    requires Reduced(stack)
    ensures Reduced(Reduce(stack, rest))
    decreases |rest|
  {
    if rest != [] {
      PushReduced(stack, rest[0]);
      ReduceReduced(Push(stack, rest[0]), rest[1..]);
    }
  }

  /** Tightening gives a reduced word. */
  lemma TightenReduced(p: Path)
    ensures Reduced(Tighten(p))
  {
    ReduceReduced([], p);
  }

  /** Reducing an already reduced word changes nothing. */
  lemma {:induction false} ReduceOfReduced(stack: Path, rest: Path)
    requires Reduced(stack + rest)
    ensures Reduce(stack, rest) == stack + rest
    decreases |rest|
  {
    if rest != [] {
      var s := stack + rest;
      if |stack| > 0 {
        assert s[|stack|] == rest[0] && s[|stack| - 1] == stack[|stack| - 1];
      }
      assert Push(stack, rest[0]) == stack + [rest[0]];
      assert (stack + [rest[0]]) + rest[1..] == s;
      ReduceOfReduced(stack + [rest[0]], rest[1..]);
    }
  }

  /** A reduced word is its own tightening (tightenWord is idempotent). */
  lemma TightenOfReduced(p: Path)
    requires Reduced(p)
    ensures Tighten(p) == p
  {
    ReduceOfReduced([], p);
  }

  lemma TightenIdempotent(p: Path)
    ensures Tighten(Tighten(p)) == Tighten(p)
  {
    TightenReduced(p);
    TightenOfReduced(Tighten(p));
  }

  /** Each cancellation removes two letters: length never grows and keeps its parity. */
  lemma {:induction false} ReduceLength(stack: Path, rest: Path)
    ensures |Reduce(stack, rest)| <= |stack| + |rest|
    ensures (|stack| + |rest| - |Reduce(stack, rest)|) % 2 == 0
    decreases |rest|
  {
    if rest != [] {
      ReduceLength(Push(stack, rest[0]), rest[1..]);
    }
  }

  lemma TightenLength(p: Path)
    ensures |Tighten(p)| <= |p| && (|p| - |Tighten(p)|) % 2 == 0
  {
    ReduceLength([], p);
  }

  /** Reduction consumes its input left to right. */
  lemma {:induction false} ReduceAppend(stack: Path, a: Path, b: Path)
    ensures Reduce(stack, a + b) == Reduce(Reduce(stack, a), b)
    decreases |a|
  {
    if a == [] {
      assert a + b == b;
    } else {
      assert (a + b)[0] == a[0] && (a + b)[1..] == a[1..] + b;
      calc {
        Reduce(stack, a + b);
        Reduce(Push(stack, a[0]), a[1..] + b);
        { ReduceAppend(Push(stack, a[0]), a[1..], b); }
        Reduce(Reduce(Push(stack, a[0]), a[1..]), b);
      }
    }
  }

  /** Tightening a prefix first does not change the tightened word. */
  lemma TightenPrefix(a: Path, b: Path)
    ensures Tighten(Tighten(a) + b) == Tighten(a + b)
  {
    TightenReduced(a);
    calc {
      Tighten(Tighten(a) + b);
      { ReduceAppend([], Tighten(a), b); }
      Reduce(Reduce([], Tighten(a)), b);
      { ReduceOfReduced([], Tighten(a)); assert [] + Tighten(a) == Tighten(a); }
      Reduce(Tighten(a), b);
      { ReduceAppend([], a, b); }
      Tighten(a + b);
    }
  }

  /** On a reduced stack a letter followed by its inverse cancels out. */
  lemma PushCancel(t: Path, c: Sym)
    requires Reduced(t)
    ensures Push(Push(t, c), Inv(c)) == t
  {
    if |t| > 0 && Inv(t[|t| - 1]) == c {
      var u := t[..|t| - 1];
      assert t == u + [t[|t| - 1]];
      if |u| > 0 {
        assert t[|u|] != Inv(t[|u| - 1]);
      }
    }
  }

  /** Reducing one more letter is one more push. */
  lemma ReduceSnoc(s: Path, y: Path, c: Sym)
    ensures Reduce(s, y + [c]) == Push(Reduce(s, y), c)
  {
    ReduceAppend(s, y, [c]);
    assert [c][1..] == [];
  }

  /** Reducing the freely reduced form of y onto a reduced stack is reducing y itself. */
  lemma {:induction false} ReduceTighten(s: Path, y: Path)
    requires Reduced(s)
    ensures Reduce(s, Tighten(y)) == Reduce(s, y)
    decreases |y|
  {
    if y != [] {
      var y', c := y[..|y| - 1], y[|y| - 1];
      assert y == y' + [c];
      ReduceTighten(s, y');
      ReduceSnoc([], y', c);
      ReduceSnoc(s, y', c);
      ReducePush(s, Tighten(y'), c);
    }
  }

  /** Reducing a word that has taken one more push is pushing after the reduction. */
  lemma ReducePush(s: Path, t: Path, c: Sym)
    requires Reduced(s)
    ensures Reduce(s, Push(t, c)) == Push(Reduce(s, t), c)
  {
    if |t| > 0 && Inv(t[|t| - 1]) == c {
      var t' := t[..|t| - 1];
      assert t == t' + [Inv(c)];
      ReduceSnoc(s, t', Inv(c));
      ReduceReduced(s, t');
      PushCancel(Reduce(s, t'), Inv(c));
    } else {
      ReduceSnoc(s, t, c);
    }
  }

  /** Tightening a suffix first does not change the tightened word. */
  lemma TightenSuffix(a: Path, b: Path)
    ensures Tighten(a + Tighten(b)) == Tighten(a + b)
  {
    ReduceAppend([], a, Tighten(b));
    ReduceAppend([], a, b);
    TightenReduced(a);
    ReduceTighten(Tighten(a), b);
  }

  /** A word followed by its inverse cancels completely from a reduced stack. */
  lemma {:induction false} ReduceInverseCancels(t: Path, x: Path)
    requires Reduced(t)
    ensures Reduce(t, Reverse(x) + x) == t
    decreases |x|
  {
    if x != [] {
      var x', a := x[..|x| - 1], x[|x| - 1];
      assert x == x' + [a];
      var m := Reverse(x') + x';
      ReverseAppend(x', [a]);
      assert Reverse([a]) == [Inv(a)];
      assert Reverse(x) + x == [Inv(a)] + (m + [a]);
      PushReduced(t, Inv(a));
      calc {
        Reduce(t, [Inv(a)] + (m + [a]));
        { ReduceAppend(t, [Inv(a)], m + [a]); assert [Inv(a)][1..] == []; }
        Reduce(Push(t, Inv(a)), m + [a]);
        { ReduceSnoc(Push(t, Inv(a)), m, a); }
        Push(Reduce(Push(t, Inv(a)), m), a);
        { ReduceInverseCancels(Push(t, Inv(a)), x'); }
        Push(Push(t, Inv(a)), a);
        { PushCancel(t, Inv(a)); }
        t;
      }
    }
  }

  /** Every prefix of a reduced word is reduced. */
  lemma ReducedPrefix(t: Path, k: nat)
    requires Reduced(t) && k <= |t|
    ensures Reduced(t[..k])
  {
    var u := t[..k];
    forall i | 0 <= i < |u| - 1 ensures u[i + 1] != Inv(u[i]) {
      assert u[i] == t[i] && u[i + 1] == t[i + 1];
    }
  }

  /** Pushing a letter onto a reduced word, seen from the other end. */
  lemma PushReverse(t: Path, c: Sym)
    requires Reduced(t)
    ensures Reduce([Inv(c)], Reverse(t)) == Reverse(Push(t, c))
  {
    if |t| > 0 && Inv(t[|t| - 1]) == c {
      var t' := t[..|t| - 1];
      assert t == t' + [Inv(c)];
      ReverseAppend(t', [Inv(c)]);
      assert Reverse([Inv(c)]) == [c];
      ReduceAppend([Inv(c)], [c], Reverse(t'));
      assert [c][1..] == [];
      assert Push([Inv(c)], c) == [];
      ReducedPrefix(t, |t| - 1);
      ReverseReduced(t');
      TightenOfReduced(Reverse(t'));
    } else {
      var u := t + [c];
      assert Reduced(u);
      ReverseReduced(u);
      ReverseAppend(t, [c]);
      assert Reverse([c]) == [Inv(c)];
      ReduceOfReduced([Inv(c)], Reverse(t));
    }
  }

  /** Tightening commutes with inversion. */
  lemma {:induction false} TightenReverse(p: Path)
    ensures Tighten(Reverse(p)) == Reverse(Tighten(p))
    decreases |p|
  {
    if p != [] {
      var p', c := p[..|p| - 1], p[|p| - 1];
      assert p == p' + [c];
      ReverseAppend(p', [c]);
      assert Reverse([c]) == [Inv(c)];
      TightenReduced(p');
      calc {
        Tighten(Reverse(p));
        Reduce([], [Inv(c)] + Reverse(p'));
        { ReduceAppend([], [Inv(c)], Reverse(p'));
          assert [Inv(c)][1..] == [] && Push([], Inv(c)) == [Inv(c)];
          assert Reduce([], [Inv(c)]) == Reduce([Inv(c)], []) == [Inv(c)]; }
        Reduce([Inv(c)], Reverse(p'));
        { ReduceTighten([Inv(c)], Reverse(p')); }
        Reduce([Inv(c)], Tighten(Reverse(p')));
        { TightenReverse(p'); }
        Reduce([Inv(c)], Reverse(Tighten(p')));
        { PushReverse(Tighten(p'), c); }
        Reverse(Push(Tighten(p'), c));
        { ReduceSnoc([], p', c); }
        Reverse(Tighten(p));
      }
    }
  }

  /** Tightening only deletes letters. */
  lemma {:induction false} ReduceLetters(stack: Path, rest: Path)
    ensures multiset(Reduce(stack, rest)) <= multiset(stack) + multiset(rest)
    decreases |rest|
  {
    if rest != [] {
      var st := Push(stack, rest[0]);
      if |stack| > 0 && Inv(stack[|stack| - 1]) == rest[0] {
        assert stack == st + [stack[|stack| - 1]];
      }
      ReduceLetters(st, rest[1..]);
      assert rest == [rest[0]] + rest[1..];
    }
  }

  lemma TightenLettersBelow(p: Path, n: int)
    requires LettersBelow(p, n)
    ensures LettersBelow(Tighten(p), n)
  {
    ReduceLetters([], p);
    var t := Tighten(p);
    forall i | 0 <= i < |t| ensures t[i].index < n {
      assert t[i] in multiset(t);
      assert t[i] in multiset(p);
    }
  }

  // ---- inversion ----

  /** reverseWord: the path run backwards. */
  function Reverse(p: Path): (r: Path)
    ensures |r| == |p|
    ensures forall i :: 0 <= i < |p| ==> r[i] == Inv(p[|p| - 1 - i])
  {
    seq(|p|, i requires 0 <= i < |p| => Inv(p[|p| - 1 - i]))
  }

  /** Running a path backwards twice gives the path. */
  lemma ReverseReverse(p: Path)
    ensures Reverse(Reverse(p)) == p
  {
  }

  lemma ReverseAppend(a: Path, b: Path)
    ensures Reverse(a + b) == Reverse(b) + Reverse(a)
  {
  }

  /** The inverse of a reduced word is reduced. */
  lemma ReverseReduced(p: Path)
    requires Reduced(p)
    ensures Reduced(Reverse(p))
  {
    var r := Reverse(p);
    forall i | 0 <= i < |r| - 1 ensures r[i + 1] != Inv(r[i]) {
      assert p[|p| - 1 - i] != Inv(p[|p| - 2 - i]);
    }
  }

  lemma ReverseLettersBelow(p: Path, n: int)
    requires LettersBelow(p, n)
    ensures LettersBelow(Reverse(p), n)
  {
  }

  // ---- cyclic reduction ----

  /** Strip letters from both ends while the last cancels the first. */
  function CyclicCore(p: Path): Path
    decreases |p|
  {
    if |p| >= 2 && p[|p| - 1] == Inv(p[0]) then CyclicCore(p[1..|p| - 1]) else p
  }

  /** tightenCycl: a shortest word in the conjugacy class. */
  function TightenCycl(p: Path): Path
  {
    CyclicCore(Tighten(p))
  }

  /**
   * A reduced word is u + core + inverse(u) with a cyclically reduced core of the
   * same parity, which is empty only when the word is.
   */
  lemma {:induction false} CyclicCoreShape(p: Path)
    requires Reduced(p)
    ensures CyclicallyReduced(CyclicCore(p))
    ensures exists u :: p == u + CyclicCore(p) + Reverse(u)
    ensures (|p| - |CyclicCore(p)|) % 2 == 0
    ensures |p| > 0 ==> |CyclicCore(p)| > 0
    decreases |p|
  {
    if |p| >= 2 && p[|p| - 1] == Inv(p[0]) {
      var m := p[1..|p| - 1];
      StripEnds(p);
      CyclicCoreShape(m);
      var v :| m == v + CyclicCore(m) + Reverse(v);
      assert CyclicCore(p) == CyclicCore(m);
      WrapEnds(p, v, CyclicCore(m));
      assert p == ([p[0]] + v) + CyclicCore(p) + Reverse([p[0]] + v);
    } else {
      assert p == [] + p + Reverse([]);
    }
  }

  /** Stripping a cancelling pair of end letters leaves a non-empty reduced word. */
  lemma StripEnds(p: Path)
    requires Reduced(p) && |p| >= 2 && p[|p| - 1] == Inv(p[0])
    ensures |p| > 2 && Reduced(p[1..|p| - 1])
  {
    var m := p[1..|p| - 1];
    forall i | 0 <= i < |m| - 1 ensures m[i + 1] != Inv(m[i]) {
      assert m[i] == p[i + 1] && m[i + 1] == p[i + 2];
    }
  }

  lemma WrapEnds(p: Path, v: Path, c: Path)
    requires |p| >= 2 && p[|p| - 1] == Inv(p[0])
    requires p[1..|p| - 1] == v + c + Reverse(v)
    ensures p == ([p[0]] + v) + c + Reverse([p[0]] + v)
  {
    ReverseAppend([p[0]], v);
    assert Reverse([p[0]]) == [p[|p| - 1]];
    assert p == [p[0]] + p[1..|p| - 1] + [p[|p| - 1]];
  }

  /** tightenCycl gives a cyclically reduced word of the parity of the input. */
  lemma TightenCyclShape(p: Path)
    ensures CyclicallyReduced(TightenCycl(p))
    ensures |TightenCycl(p)| <= |p| && (|p| - |TightenCycl(p)|) % 2 == 0
    ensures exists u :: Tighten(p) == u + TightenCycl(p) + Reverse(u)
  {
    TightenReduced(p);
    TightenLength(p);
    CyclicCoreShape(Tighten(p));
  }

  /** A cyclically reduced word is left alone by tightenCycl. */
  lemma TightenCyclOfCyclicallyReduced(p: Path)
    requires CyclicallyReduced(p)
    ensures TightenCycl(p) == p
  {
    TightenOfReduced(p);
  }

  lemma {:induction false} CyclicCoreLettersBelow(p: Path, n: int)
    requires LettersBelow(p, n)
    ensures LettersBelow(CyclicCore(p), n)
    decreases |p|
  {
    if |p| >= 2 && p[|p| - 1] == Inv(p[0]) {
      CyclicCoreLettersBelow(p[1..|p| - 1], n);
    }
  }

  lemma TightenCyclLettersBelow(p: Path, n: int)
    requires LettersBelow(p, n)
    ensures LettersBelow(TightenCycl(p), n)
  {
    TightenLettersBelow(p, n);
    CyclicCoreLettersBelow(Tighten(p), n);
  }

  // ---- rewrites of single edges ----

  /** reverseChar: every occurrence of edge e runs the other way. */
  function ReverseChar(p: Path, e: int): (r: Path)
    ensures |r| == |p|
    ensures forall i :: 0 <= i < |p| ==> r[i] == if p[i].index == e then Inv(p[i]) else p[i]
  {
    seq(|p|, i requires 0 <= i < |p| => if p[i].index == e then Inv(p[i]) else p[i])
  }

  lemma ReverseCharTwice(p: Path, e: int)
    ensures ReverseChar(ReverseChar(p, e), e) == p
  {
  }

  /** Reversing an edge keeps a reduced word reduced. */
  lemma ReverseCharReduced(p: Path, e: int)
    requires Reduced(p)
    ensures Reduced(ReverseChar(p, e))
  {
    var r := ReverseChar(p, e);
    forall i | 0 <= i < |r| - 1 ensures r[i + 1] != Inv(r[i]) {
      assert p[i + 1] != Inv(p[i]);
    }
  }

  /** removeEdge: every occurrence of edge e deleted. */
  function RemoveEdge(p: Path, e: int): Path
    decreases |p|
  {
    if p == [] then []
    else (if p[0].index == e then [] else [p[0]]) + RemoveEdge(p[1..], e)
  }

  lemma {:induction false} RemoveEdgeLetters(p: Path, e: int)
    ensures forall i :: 0 <= i < |RemoveEdge(p, e)| ==>
      RemoveEdge(p, e)[i].index != e && RemoveEdge(p, e)[i] in p
    ensures |RemoveEdge(p, e)| <= |p|
    decreases |p|
  {
    if p != [] {
      RemoveEdgeLetters(p[1..], e);
    }
  }

  /** Removing an edge that does not occur changes nothing. */
  lemma {:induction false} RemoveAbsentEdge(p: Path, e: int)
    requires forall i :: 0 <= i < |p| ==> p[i].index != e
    ensures RemoveEdge(p, e) == p
    decreases |p|
  {
    if p != [] {
      RemoveAbsentEdge(p[1..], e);
      assert [p[0]] + p[1..] == p;
    }
  }

  /** The two-letter replacement of one letter of the split edge e. */
  function SplitLetter(c: Sym, e: int, n: int): Path
  {
    if c.index == e then
      (if c.inv then [IndexToSym(n, true), c] else [c, IndexToSym(n, false)])
    else [c]
  }

  /** splitChar: edge e becomes e followed by the new edge n. */
  function SplitChar(p: Path, e: int, n: int): Path
    decreases |p|
  {
    if p == [] then [] else SplitLetter(p[0], e, n) + SplitChar(p[1..], e, n)
  }

  lemma {:induction false} SplitCharAppend(a: Path, b: Path, e: int, n: int)
    ensures SplitChar(a + b, e, n) == SplitChar(a, e, n) + SplitChar(b, e, n)
    decreases |a|
  {
    if a == [] {
      assert a + b == b;
    } else {
      assert (a + b)[0] == a[0] && (a + b)[1..] == a[1..] + b;
      SplitCharAppend(a[1..], b, e, n);
    }
  }

  /** Splitting commutes with running the path backwards. */
  lemma {:induction false} SplitCharReverse(p: Path, e: int, n: int)
    requires 0 <= n <= MAXINDEX
    ensures SplitChar(Reverse(p), e, n) == Reverse(SplitChar(p, e, n))
    decreases |p|
  {
    if p != [] {
      IndexToCharInRange(n, true);
      IndexToCharInRange(n, false);
      assert p == [p[0]] + p[1..];
      ReverseAppend([p[0]], p[1..]);
      SplitCharAppend(Reverse(p[1..]), Reverse([p[0]]), e, n);
      SplitCharReverse(p[1..], e, n);
      ReverseAppend(SplitLetter(p[0], e, n), SplitChar(p[1..], e, n));
      assert SplitChar(Reverse([p[0]]), e, n) == Reverse(SplitLetter(p[0], e, n));
    }
  }

  /** Deleting the new edge n undoes the split of e (when n is new and differs from e). */
  lemma {:induction false} SplitThenRemove(p: Path, e: int, n: int)
    requires 0 <= n <= MAXINDEX && n != e
    requires forall i :: 0 <= i < |p| ==> p[i].index != n
    ensures RemoveEdge(SplitChar(p, e, n), n) == p
    decreases |p|
  {
    if p != [] {
      IndexToCharInRange(n, true);
      IndexToCharInRange(n, false);
      RemoveEdgeAppend(SplitLetter(p[0], e, n), SplitChar(p[1..], e, n), n);
      SplitThenRemove(p[1..], e, n);
      assert [p[0]] + p[1..] == p;
    }
  }

  lemma {:induction false} RemoveEdgeAppend(a: Path, b: Path, e: int)
    ensures RemoveEdge(a + b, e) == RemoveEdge(a, e) + RemoveEdge(b, e)
    decreases |a|
  {
    if a == [] {
      assert a + b == b;
    } else {
      assert (a + b)[0] == a[0] && (a + b)[1..] == a[1..] + b;
      RemoveEdgeAppend(a[1..], b, e);
    }
  }

  /** String.replace(from, to) on a path: one letter exchanged for another everywhere. */
  function Rename(p: Path, from: Sym, to: Sym): (r: Path)
    ensures |r| == |p|
    ensures forall i :: 0 <= i < |p| ==> r[i] == if p[i] == from then to else p[i]
  {
    seq(|p|, i requires 0 <= i < |p| => if p[i] == from then to else p[i])
  }

  /** The replacement of one letter by replaceChar. */
  function Substitute(x: Sym, c: Sym, s: Path): Path
  {
    if x == c then s else if x == Inv(c) then Reverse(s) else [x]
  }

  /** Substitute every letter of w (before tightening). */
  function SubstituteAll(w: Path, c: Sym, s: Path): Path
    decreases |w|
  {
    if w == [] then [] else Substitute(w[0], c, s) + SubstituteAll(w[1..], c, s)
  }

  /** replaceChar: c becomes s and its inverse the inverse of s, then tighten. */
  function ReplaceChar(w: Path, c: Sym, s: Path): Path
  {
    Tighten(SubstituteAll(w, c, s))
  }

  /** Replacing c by itself only tightens. */
  lemma {:induction false} SubstituteIdentity(w: Path, c: Sym)
    ensures SubstituteAll(w, c, [c]) == w
    decreases |w|
  {
    if w != [] {
      SubstituteIdentity(w[1..], c);
      assert [w[0]] + w[1..] == w;
    }
  }

  lemma ReplaceCharIdentity(w: Path, c: Sym)
    ensures ReplaceChar(w, c, [c]) == Tighten(w)
  {
    SubstituteIdentity(w, c);
  }

  // ---- cyclic words ----

  /** v read from position i on, cyclically, spells u. */
  predicate RotatedBy(u: Path, v: Path, i: int)
    requires |u| == |v| && 0 < |u|
  {
    forall j :: 0 <= j < |u| ==> u[j] == v[Shift(|u|, i, j)]
  }

  /** Position i + j of a cyclic word of length n. */
  function Shift(n: int, i: int, j: int): int
    requires 0 < n
  {
    (i + j) % n
  }

  /** u and v are the same cyclic word. */
  predicate IsRotation(u: Path, v: Path)
  {
    |u| == |v| && (|u| == 0 || exists i :: 0 <= i < |u| && RotatedBy(u, v, i))
  }

  /** isCyclicallyConjugate: the cyclic reductions are rotations of each other. */
  predicate IsCyclicallyConjugate(w1: Path, w2: Path)
  {
    IsRotation(TightenCycl(w1), TightenCycl(w2))
  }

  lemma ModBelow(x: int, n: int)
    requires 0 <= x < n
    ensures x % n == x
  {
  }

  lemma ModWrap(x: int, n: int)
    requires n <= x < 2 * n
    ensures x % n == x - n
  {
    assert x == 1 * n + (x - n);
  }

  lemma RotationReflexive(u: Path)
    ensures IsRotation(u, u)
  {
    if |u| > 0 {
      forall j | 0 <= j < |u| ensures Shift(|u|, 0, j) == j {
        ModBelow(j, |u|);
      }
      assert RotatedBy(u, u, 0);
    }
  }

  lemma RotationSymmetric(u: Path, v: Path)
    requires IsRotation(u, v)
    ensures IsRotation(v, u)
  {
    if |u| > 0 {
      var n := |u|;
      var i :| 0 <= i < n && RotatedBy(u, v, i);
      var k := if i == 0 then 0 else n - i;
      forall j | 0 <= j < n ensures v[j] == u[Shift(n, k, j)] {
        var m;
        if k + j < n {
          ModBelow(k + j, n);
          m := k + j;
        } else {
          ModWrap(k + j, n);
          m := k + j - n;
        }
        assert Shift(n, i, m) == j by {
          if i + m < n { ModBelow(i + m, n); } else { ModWrap(i + m, n); }
        }
        assert u[m] == v[Shift(n, i, m)];
      }
      assert RotatedBy(v, u, k);
    }
  }

  /** Conjugacy of cyclic words is reflexive and symmetric. */
  lemma ConjugateReflexiveSymmetric(w1: Path, w2: Path)
    ensures IsCyclicallyConjugate(w1, w1)
    ensures IsCyclicallyConjugate(w1, w2) ==> IsCyclicallyConjugate(w2, w1)
  {
    RotationReflexive(TightenCycl(w1));
    if IsCyclicallyConjugate(w1, w2) {
      RotationSymmetric(TightenCycl(w1), TightenCycl(w2));
    }
  }

  /** Rotating a cyclically reduced word gives a conjugate word. */
  lemma RotationConjugate(a: Path, b: Path)
    requires CyclicallyReduced(a + b) && CyclicallyReduced(b + a)
    ensures IsCyclicallyConjugate(a + b, b + a)
  {
    TightenCyclOfCyclicallyReduced(a + b);
    TightenCyclOfCyclicallyReduced(b + a);
    SwapIsRotation(a, b);
  }

  lemma SwapIsRotation(a: Path, b: Path)
    ensures IsRotation(a + b, b + a)
  {
    var u, v := a + b, b + a;
    var n := |u|;
    if n > 0 {
      var i := if |a| == 0 then 0 else |b|;
      forall j | 0 <= j < n ensures u[j] == v[Shift(n, i, j)] {
        if |a| == 0 {
          ModBelow(j, n);
        } else if j < |a| {
          ModBelow(i + j, n);
        } else {
          ModWrap(i + j, n);
        }
      }
      assert RotatedBy(u, v, i);
    }
  }
}
