/**
 * Boundary words of surfaces (Word.java): the check isBoundary, the dual word
 * computed by dualize, and the relations read off a boundary word.
 *
 * A step of both walks goes from position i to the position just after the next
 * occurrence (cyclically) of the inverse of the letter at i.
 */
module Boundary {
  import opened Wrappers
  import opened Letters
  import P = Paths
  import Words

  /**
   * isBoundary: cyclically reduced, of even length, and the inverse of every letter
   * occurs in it. (Occurring at all is what the source checks; see the strict form.)
   */
  predicate IsBoundary(w: P.Path)
  {
    |w| == |P.TightenCycl(w)| && |w| % 2 == 0 && InversesOccur(w)
  }

  /** The inverse of every letter of w occurs in w. */
  predicate InversesOccur(w: P.Path)
  {
    forall x :: x in w ==> Inv(x) in w
  }

  /** No letter occurs twice in w. */
  predicate Distinct(w: P.Path)
  {
    forall i, j :: 0 <= i < j < |w| ==> w[i] != w[j]
  }

  /** The next position of a cyclic word of length n (j + 1 mod n). */
  function Next(j: nat, n: nat): (k: nat)
    requires j < n
    ensures k < n
  {
    if j + 1 < n then j + 1 else 0
  }

  /** The position d steps after i in a cyclic word of length n (d <= n). */
  function Ahead(i: nat, d: nat, n: nat): nat
    requires i < n && d <= n
  {
    if i + d < n then i + d else i + d - n
  }

  /** isBoundary: for each letter, scan cyclically for its inverse; fail on returning to it. */
  method IsBoundaryScan(w: P.Path) returns (b: bool)
    ensures b == IsBoundary(w)
  {
    var c := Words.TightenCycl(w);
    if |w| != |c| || |w| % 2 != 0 {
      return false;
    }
    var len := |w|;
    var i := 0;
    while i < len
      invariant 0 <= i <= len
      invariant forall k :: 0 <= k < i ==> Inv(w[k]) in w
    {
      var j := Next(i, len);
      ghost var d := 1;
      while w[j] != Inv(w[i]) && j != i
        invariant 1 <= d <= len && j == Ahead(i, d, len)
        invariant forall m :: 1 <= m < d ==> w[Ahead(i, m, len)] != Inv(w[i])
        decreases len - d
      {
        j := Next(j, len);
        d := d + 1;
      }
      if i == j {
        NotFound(w, i, d);
        return false;
      }
      i := i + 1;
    }
    return true;
  }

  /** A scan that came back to i saw every other position. */
  lemma NotFound(w: P.Path, i: nat, d: nat)
    requires i < |w| && 1 <= d <= |w| && i == Ahead(i, d, |w|)
    requires forall m :: 1 <= m < d ==> w[Ahead(i, m, |w|)] != Inv(w[i])
    ensures Inv(w[i]) !in w
  {
    var n := |w|;
    assert d == n;
    forall p | 0 <= p < n ensures w[p] != Inv(w[i]) {
      if p != i {
        var m := if p > i then p - i else p + n - i;
        assert Ahead(i, m, n) == p;
      }
    }
  }

  /** How many steps it takes from i forward to p in a cyclic word of length n. */
  function Gap(i: nat, p: nat, n: nat): (d: nat)
    requires i < n && p < n
    ensures d < n && Ahead(i, d, n) == p
  {
    if p >= i then p - i else p + n - i
  }

  /** The first position holding x, scanning cyclically from i; i when x does not occur. */
  function SeekFrom(w: P.Path, x: Sym, i: nat, d: nat): (k: nat)
    requires i < |w| && d <= |w|
    ensures k < |w|
    decreases |w| - d
  {
    if d == |w| then i
    else if w[Ahead(i, d, |w|)] == x then Ahead(i, d, |w|)
    else SeekFrom(w, x, i, d + 1)
  }

  /** The scan finds x when x occurs, and nothing earlier holds x. */
  lemma {:induction false} SeekFinds(w: P.Path, x: Sym, i: nat, d: nat, p: nat)
    requires i < |w| && p < |w| && w[p] == x && d <= Gap(i, p, |w|)
    ensures w[SeekFrom(w, x, i, d)] == x
    decreases Gap(i, p, |w|) - d
  {
    if w[Ahead(i, d, |w|)] != x {
      SeekFinds(w, x, i, d + 1, p);
    }
  }

  /** One step of the walk of dualize and relations. */
  function DualStep(w: P.Path, i: nat): (k: nat)
    requires i < |w|
    ensures k < |w|
  {
    Next(SeekFrom(w, Inv(w[i]), i, 0), |w|)
  }

  /** The position reached after k steps from 0. */
  function Orbit(w: P.Path, k: nat): (i: nat)
    requires 0 < |w|
    ensures i < |w|
  {
    if k == 0 then 0 else DualStep(w, Orbit(w, k - 1))
  }

  /** The letters at the first k positions of the walk: the dual word built so far. */
  function DualLetters(w: P.Path, k: nat): (r: P.Path)
    requires 0 < |w|
    ensures |r| == k
  {
    seq(k, j requires 0 <= j < k => w[Orbit(w, j)])
  }

  /** The first return time to 0 that is at least k and at most |w|, if any. */
  function ReturnFrom(w: P.Path, k: nat): Option<nat>
    requires 0 < |w| && 1 <= k
    decreases |w| + 1 - k
  {
    if k > |w| then None else if Orbit(w, k) == 0 then Some(k) else ReturnFrom(w, k + 1)
  }

  /**
   * What dualize does: reject a word that isBoundary rejects; fail on the empty word
   * (charAt(0)); otherwise collect letters along the walk until it returns to 0. When
   * the walk does not return within |w| steps it never does (WalkNeverReturns) and
   * the source keeps appending until memory runs out.
   */
  function DualizeSpec(w: P.Path): Result<P.Path>
  {
    if !IsBoundary(w) then Err("bad boundary word: " + PathToString(w))
    else if |w| == 0 then Err("String index out of range: 0")
    else match DualWalk(w)
      case None => Err("out of memory")
      case Some(dw) => Ok(dw)
  }

  /** The letters met by the walk from 0 until it first comes back to 0, if it does. */
  function DualWalk(w: P.Path): Option<P.Path>
    requires 0 < |w|
  {
    match ReturnFrom(w, 1)
      case None => None
      case Some(k) => Some(DualLetters(w, k))
  }

  lemma {:induction false} ReturnFromFirst(w: P.Path, k: nat, m: nat)
    requires 0 < |w| && 1 <= k <= m <= |w| && Orbit(w, m) == 0
    requires forall j :: k <= j < m ==> Orbit(w, j) != 0
    ensures ReturnFrom(w, k) == Some(m)
    decreases m - k
  {
    if k < m {
      ReturnFromFirst(w, k + 1, m);
    }
  }

  lemma {:induction false} ReturnFromNone(w: P.Path, k: nat)
    requires 0 < |w| && 1 <= k
    requires forall j :: k <= j <= |w| ==> Orbit(w, j) != 0
    ensures ReturnFrom(w, k) == None
    decreases |w| + 1 - k
  {
    if k <= |w| {
      ReturnFromNone(w, k + 1);
    }
  }

  /** The inner scan of dualize: from i (holding x's inverse) on to the next x. */
  method Seek(w: P.Path, x: Sym, i0: nat) returns (i: nat)
    requires i0 < |w| && x in w
    ensures i == SeekFrom(w, x, i0, 0) && w[i] == x
  {
    ghost var p :| 0 <= p < |w| && w[p] == x;
    i := i0;
    ghost var d := 0;
    while w[i] != x
      invariant d <= Gap(i0, p, |w|) && i == Ahead(i0, d, |w|)
      invariant SeekFrom(w, x, i0, 0) == SeekFrom(w, x, i0, d)
      decreases Gap(i0, p, |w|) - d
    {
      i := Next(i, |w|);
      d := d + 1;
    }
    SeekFinds(w, x, i0, 0, p);
  }

  /**
   * dualize as the source writes it. The source's do-while has no bound; after |w|
   * rounds without returning to 0 the walk never returns, and the model stops with
   * the error the source eventually runs into.
   */
  method Dualize(w: P.Path) returns (r: Result<P.Path>)
    ensures r == DualizeSpec(w)
  {
    var ok := IsBoundaryScan(w);
    if !ok {
      var t := Words.PathToString(w);
      return Err("bad boundary word: " + t);
    }
    if |w| == 0 {
      return Err("String index out of range: 0");
    }
    var dw := Walk(w);
    r := if dw.None? then Err("out of memory") else Ok(dw.value);
  }

  /** The do-while loop of dualize, stopped after |w| rounds. */
  method Walk(w: P.Path) returns (r: Option<P.Path>)
    requires 0 < |w| && InversesOccur(w)
    ensures r == DualWalk(w)
  {
    var len := |w|;
    var i := 0;
    var dw := [];
    var rounds := 0;
    while rounds == 0 || (i != 0 && rounds < len)
      invariant 0 <= rounds <= len
      invariant i == Orbit(w, rounds) && dw == DualLetters(w, rounds)
      invariant forall k :: 1 <= k < rounds ==> Orbit(w, k) != 0
      decreases len - rounds
    {
      var ch := w[i];
      dw := dw + [ch];
      i := Seek(w, Inv(ch), i);
      i := Next(i, len);
      rounds := rounds + 1;
    }
    if i != 0 {
      ReturnFromNone(w, 1);
      return None;
    }
    ReturnFromFirst(w, 1, rounds);
    return Some(dw);
  }

  // ---- why the cut-off is sound: pigeonhole on the walk ----

  /** n + 1 or more values below n repeat. */
  lemma {:induction false} Pigeonhole(s: seq<int>, n: nat)
    requires |s| > n >= 1
    requires forall i :: 0 <= i < |s| ==> 0 <= s[i] < n
    ensures exists a, b :: 0 <= a < b < |s| && s[a] == s[b]
    decreases n
  {
    if n == 1 {
      assert s[0] == s[1];
    } else if exists q :: 0 <= q < |s| && s[q] == n - 1 {
      var q :| 0 <= q < |s| && s[q] == n - 1;
      if exists q2 :: 0 <= q2 < |s| && q2 != q && s[q2] == n - 1 {
        var q2 :| 0 <= q2 < |s| && q2 != q && s[q2] == n - 1;
        if q < q2 { assert s[q] == s[q2]; } else { assert s[q2] == s[q]; }
      } else {
        var t := s[..q] + s[q + 1..];
        forall i | 0 <= i < |t| ensures 0 <= t[i] < n - 1 {
          if i < q { assert t[i] == s[i]; } else { assert t[i] == s[i + 1]; }
        }
        Pigeonhole(t, n - 1);
        var a, b :| 0 <= a < b < |t| && t[a] == t[b];
        var a' := if a < q then a else a + 1;
        var b' := if b < q then b else b + 1;
        assert s[a'] == t[a] && s[b'] == t[b];
      }
    } else {
      Pigeonhole(s, n - 1);
    }
  }

  /** Two equal positions of the walk stay equal afterwards. */
  lemma {:induction false} OrbitShift(w: P.Path, a: nat, b: nat, t: nat)
    requires 0 < |w| && Orbit(w, a) == Orbit(w, b)
    ensures Orbit(w, a + t) == Orbit(w, b + t)
    decreases t
  {
    if t > 0 {
      OrbitShift(w, a, b, t - 1);
    }
  }

  /** Two of the first |w| + 1 positions of the walk coincide. */
  lemma OrbitRepeats(w: P.Path) returns (a: nat, b: nat)
    requires 0 < |w|
    ensures a < b <= |w| && Orbit(w, a) == Orbit(w, b)
  {
    var s := seq(|w| + 1, j requires 0 <= j <= |w| => Orbit(w, j));
    Pigeonhole(s, |w|);
    var x, y :| 0 <= x < y < |s| && s[x] == s[y];
    a, b := x, y;
  }

  /** After a repetition at a < b, every later position recurs within (a, b]. */
  lemma {:induction false} OrbitPeriodic(w: P.Path, a: nat, b: nat, k: nat) returns (k': nat)
    requires 0 < |w| && a < b && Orbit(w, a) == Orbit(w, b) && a < k
    ensures a < k' <= b && Orbit(w, k') == Orbit(w, k)
    decreases k
  {
    if k <= b {
      k' := k;
    } else {
      OrbitShift(w, a, b, k - b);
      k' := OrbitPeriodic(w, a, b, k - (b - a));
    }
  }

  /** A walk that has not returned to 0 within |w| steps never returns. */
  lemma WalkNeverReturns(w: P.Path, k: nat)
    requires 0 < |w| && ReturnFrom(w, 1) == None && 1 <= k
    ensures Orbit(w, k) != 0
  {
    NoReturnWithin(w, 1);
    if k > |w| {
      var a, b := OrbitRepeats(w);
      var k' := OrbitPeriodic(w, a, b, k);
    }
  }

  lemma {:induction false} NoReturnWithin(w: P.Path, k: nat)
    requires 0 < |w| && 1 <= k && ReturnFrom(w, k) == None
    ensures forall j :: k <= j <= |w| ==> Orbit(w, j) != 0
    decreases |w| + 1 - k
  {
    if k <= |w| {
      NoReturnWithin(w, k + 1);
    }
  }

  // ---- the boundary words the surface code means ----

  /** A boundary word in which no letter occurs twice (so every inverse occurs exactly once). */
  predicate IsStrictBoundary(w: P.Path)
  {
    IsBoundary(w) && Distinct(w)
  }

  /** On a strict boundary word a step of the walk is one-to-one. */
  lemma DualStepInjective(w: P.Path, i: nat, j: nat)
    requires InversesOccur(w) && Distinct(w)
    requires i < |w| && j < |w| && DualStep(w, i) == DualStep(w, j)
    ensures i == j
  {
    var pi :| 0 <= pi < |w| && w[pi] == Inv(w[i]);
    var pj :| 0 <= pj < |w| && w[pj] == Inv(w[j]);
    SeekFinds(w, Inv(w[i]), i, 0, pi);
    SeekFinds(w, Inv(w[j]), j, 0, pj);
    var si, sj := SeekFrom(w, Inv(w[i]), i, 0), SeekFrom(w, Inv(w[j]), j, 0);
    assert si == sj;
    assert w[i] == Inv(w[si]) && w[j] == Inv(w[sj]);
  }

  /** Distinct positions step to distinct positions. */
  predicate StepInjective(w: P.Path)
  {
    forall i, j :: 0 <= i < |w| && 0 <= j < |w| && DualStep(w, i) == DualStep(w, j) ==> i == j
  }

  lemma StrictStepInjective(w: P.Path)
    requires InversesOccur(w) && Distinct(w)
    ensures StepInjective(w)
  {
    forall i, j | 0 <= i < |w| && 0 <= j < |w| && DualStep(w, i) == DualStep(w, j)
      ensures i == j
    {
      DualStepInjective(w, i, j);
    }
  }

  /** When steps are one-to-one, equal later positions have equal earlier ones. */
  lemma {:induction false} OrbitBack(w: P.Path, a: nat, d: nat)
    requires StepInjective(w) && 0 < |w| && Orbit(w, a) == Orbit(w, a + d)
    ensures Orbit(w, d) == 0
    decreases a
  {
    if a > 0 {
      var p, q := Orbit(w, a - 1), Orbit(w, a - 1 + d);
      assert DualStep(w, p) == DualStep(w, q);
      OrbitBack(w, a - 1, d);
    }
  }

  /** The walk on a non-empty strict boundary word comes back to its start. */
  lemma StrictBoundaryReturns(w: P.Path)
    requires InversesOccur(w) && Distinct(w) && 0 < |w|
    ensures ReturnFrom(w, 1).Some?
  {
    var a, b := OrbitRepeats(w);
    StrictStepInjective(w);
    OrbitBack(w, a, b - a);
    ReturnFromSome(w, 1, b - a);
  }

  lemma {:induction false} ReturnFromSome(w: P.Path, k: nat, m: nat)
    requires 0 < |w| && 1 <= k <= m <= |w| && Orbit(w, m) == 0
    ensures ReturnFrom(w, k).Some?
    decreases m - k
  {
    if Orbit(w, k) != 0 {
      ReturnFromSome(w, k + 1, m);
    }
  }

  /**
   * dualize with the boundary check the surface code relies on: it rejects exactly
   * the words that are not strict boundary words (and the empty word), and on every
   * other word the walk closes up, so it returns the dual word.
   */
  method DualizeChecked(w: P.Path) returns (r: Result<P.Path>)
    ensures r.Ok? <==> IsStrictBoundary(w) && 0 < |w|
    ensures r.Ok? ==> exists k :: 1 <= k <= |w| && ReturnFrom(w, 1) == Some(k) && r.value == DualLetters(w, k)
  {
    var strict := IsStrictBoundaryScan(w);
    if !strict {
      var t := Words.PathToString(w);
      return Err("bad boundary word: " + t);
    }
    if |w| == 0 {
      return Err("String index out of range: 0");
    }
    StrictBoundaryReturns(w);
    r := Dualize(w);
    ReturnFromBound(w, 1);
  }

  lemma {:induction false} ReturnFromBound(w: P.Path, k: nat)
    requires 0 < |w| && 1 <= k
    ensures ReturnFrom(w, k).Some? ==> k <= ReturnFrom(w, k).value <= |w|
    decreases |w| + 1 - k
  {
    if k <= |w| && Orbit(w, k) != 0 {
      ReturnFromBound(w, k + 1);
    }
  }

  /** The strict check: isBoundary, then no letter twice. */
  method IsStrictBoundaryScan(w: P.Path) returns (b: bool)
    ensures b == IsStrictBoundary(w)
  {
    b := IsBoundaryScan(w);
    if b {
      b := DistinctScan(w);
    }
  }

  /** Compare every pair of positions. */
  method DistinctScan(w: P.Path) returns (b: bool)
    ensures b == Distinct(w)
  {
    var i := 0;
    while i < |w|
      invariant 0 <= i <= |w|
      invariant forall x, y :: 0 <= x < y < |w| && x < i ==> w[x] != w[y]
    {
      var j := i + 1;
      while j < |w|
        invariant i < j <= |w|
        invariant forall y :: i < y < j ==> w[i] != w[y]
      {
        if w[i] == w[j] {
          return false;
        }
        j := j + 1;
      }
      i := i + 1;
    }
    return true;
  }

  // ---- the word that isBoundary lets through ----

  /** a b a c A B C C: cyclically reduced, even, every inverse present, but a occurs twice. */
  function LooseWord(): P.Path
  {
    var a, b, c := Sym(0, false), Sym(1, false), Sym(2, false);
    [a, b, a, c, Inv(a), Inv(b), Inv(c), Inv(c)]
  }

  /**
   * isBoundary accepts LooseWord, yet the walk of dualize goes 0, 5, 2, 5, 2, ...
   * and never comes back to 0: the source's loop never ends.
   */
  lemma LooseWordNeverCloses(k: nat)
    requires 1 <= k
    ensures IsBoundary(LooseWord()) && !IsStrictBoundary(LooseWord())
    ensures Orbit(LooseWord(), k) == if k % 2 == 1 then 5 else 2
    ensures DualizeSpec(LooseWord()) == Err("out of memory")
  {
    var w := LooseWord();
    LooseWordIsBoundary();
    assert w[0] == w[2];
    LooseWordSteps();
    assert Orbit(w, 1) == 5;
    TwoCycle(w, 5, 2, k);
    forall j | 1 <= j
      ensures Orbit(w, j) != 0
    {
      TwoCycle(w, 5, 2, j);
    }
    ReturnFromNone(w, 1);
  }

  lemma LooseWordIsBoundary()
    ensures IsBoundary(LooseWord())
  {
    LooseWordReduced();
    LooseWordInverses();
    ReducedBoundary(LooseWord());
  }

  /** A cyclically reduced word of even length in which every inverse occurs is a boundary word. */
  lemma ReducedBoundary(w: P.Path)
    requires P.CyclicallyReduced(w) && |w| % 2 == 0 && InversesOccur(w)
    ensures IsBoundary(w)
  {
    P.TightenCyclOfCyclicallyReduced(w);
  }

  lemma LooseWordReduced()
    ensures P.CyclicallyReduced(LooseWord())
  {
    var w := LooseWord();
    forall i | 0 <= i < |w| - 1 ensures w[i + 1] != Inv(w[i]) {
      assert w[i + 1].index != w[i].index || w[i + 1].inv == w[i].inv;
    }
  }

  lemma LooseWordInverses()
    ensures InversesOccur(LooseWord())
  {
    var w := LooseWord();
    forall x | x in w ensures Inv(x) in w {
      var k :| 0 <= k < |w| && w[k] == x;
      var m := [4, 5, 4, 6, 0, 1, 3, 3][k];
      assert Inv(w[k]) == w[m];
    }
  }

  lemma LooseWordSteps()
    ensures DualStep(LooseWord(), 0) == 5
    ensures DualStep(LooseWord(), 5) == 2
    ensures DualStep(LooseWord(), 2) == 5
  {
    var w := LooseWord();
    var A, b := Inv(w[0]), Inv(w[5]);
    assert SeekFrom(w, A, 0, 0) == SeekFrom(w, A, 0, 1) == SeekFrom(w, A, 0, 2)
      == SeekFrom(w, A, 0, 3) == SeekFrom(w, A, 0, 4) == 4;
    assert SeekFrom(w, b, 5, 0) == SeekFrom(w, b, 5, 1) == SeekFrom(w, b, 5, 2)
      == SeekFrom(w, b, 5, 3) == SeekFrom(w, b, 5, 4) == 1;
    assert SeekFrom(w, A, 2, 0) == SeekFrom(w, A, 2, 1) == SeekFrom(w, A, 2, 2) == 4;
  }

  /** A walk that steps p to q and q back to p alternates between them from step 1 on. */
  lemma {:induction false} TwoCycle(w: P.Path, p: nat, q: nat, k: nat)
    requires 0 < |w| && p < |w| && q < |w| && 1 <= k
    requires Orbit(w, 1) == p && DualStep(w, p) == q && DualStep(w, q) == p
    ensures Orbit(w, k) == if k % 2 == 1 then p else q
  {
    if k > 1 {
      TwoCycle(w, p, q, k - 1);
    }
  }

  // ---- relations ----

  /** The letters of a list of words, one word after the other. */
  function Concat(rels: seq<P.Path>): P.Path
  {
    if rels == [] then [] else rels[0] + Concat(rels[1..])
  }

  /** The letters at the visited positions below k. */
  function Picked(bd: P.Path, visited: seq<bool>, k: nat): multiset<Sym>
    requires k <= |visited| <= |bd|
  {
    if k == 0 then multiset{} else
      Picked(bd, visited, k - 1) + if visited[k - 1] then multiset{bd[k - 1]} else multiset{}
  }

  /** How many positions below k are not yet visited. */
  function Unvisited(visited: seq<bool>, k: nat): nat
    requires k <= |visited|
  {
    if k == 0 then 0 else Unvisited(visited, k - 1) + if visited[k - 1] then 0 else 1
  }

  /** Visiting a new position adds its letter... */
  lemma {:induction false} VisitPicked(bd: P.Path, visited: seq<bool>, i: nat, k: nat)
    requires k <= |visited| <= |bd| && i < |visited| && !visited[i]
    ensures Picked(bd, visited[i := true], k)
      == Picked(bd, visited, k) + if i < k then multiset{bd[i]} else multiset{}
  {
    if k > 0 {
      VisitPicked(bd, visited, i, k - 1);
      var v := visited[i := true];
      if i == k - 1 {
        assert v[k - 1] && !visited[k - 1];
      } else {
        assert v[k - 1] == visited[k - 1];
      }
    }
  }

  /** ...and leaves one unvisited position fewer. */
  lemma {:induction false} VisitUnvisited(visited: seq<bool>, i: nat, k: nat)
    requires k <= |visited| && i < |visited| && !visited[i]
    ensures Unvisited(visited[i := true], k) + (if i < k then 1 else 0) == Unvisited(visited, k)
  {
    if k > 0 {
      VisitUnvisited(visited, i, k - 1);
      var v := visited[i := true];
      if i == k - 1 {
        assert v[k - 1] && !visited[k - 1];
      } else {
        assert v[k - 1] == visited[k - 1];
      }
    }
  }

  lemma {:induction false} AllVisited(bd: P.Path, visited: seq<bool>, k: nat)
    requires k <= |visited| == |bd| && forall j :: 0 <= j < |visited| ==> visited[j]
    ensures Picked(bd, visited, k) == multiset(bd[..k])
  {
    if k > 0 {
      AllVisited(bd, visited, k - 1);
      assert bd[..k] == bd[..k - 1] + [bd[k - 1]];
    }
  }

  lemma {:induction false} NoneVisited(bd: P.Path, visited: seq<bool>, k: nat)
    requires k <= |visited| <= |bd| && forall j :: 0 <= j < |visited| ==> !visited[j]
    ensures Picked(bd, visited, k) == multiset{}
  {
    if k > 0 {
      NoneVisited(bd, visited, k - 1);
    }
  }

  /**
   * The walk of relations as a function: from position i, each unvisited position is
   * visited and its letter taken, and the walk moves on by DualStep; it stops at the
   * first visited position. The result is the relation and the new visited marks.
   */
  function TraceFrom(bd: P.Path, v: seq<bool>, i: nat): (r: (P.Path, seq<bool>))
    requires |v| == |bd| && i < |bd|
    ensures |r.1| == |bd|
    decreases Unvisited(v, |bd|)
  {
    if v[i] then ([], v)
    else
      VisitUnvisited(v, i, |bd|);
      var t := TraceFrom(bd, v[i := true], DualStep(bd, i));
      ([bd[i]] + t.0, t.1)
  }

  /** The relations started at the unvisited positions from j on, in order, and the final marks. */
  function RelationsFrom(bd: P.Path, v: seq<bool>, j: nat): (r: (seq<P.Path>, seq<bool>))
    requires |v| == |bd| && j <= |bd|
    ensures |r.1| == |bd|
    decreases |bd| - j
  {
    if j == |bd| then ([], v)
    else if v[j] then RelationsFrom(bd, v, j + 1)
    else
      var t := TraceFrom(bd, v, j);
      var u := RelationsFrom(bd, t.1, j + 1);
      ([t.0] + u.0, u.1)
  }

  /** relations(bd): one walk from each position not yet visited, nothing visited at first. */
  function RelationsOf(bd: P.Path): seq<P.Path>
  {
    RelationsFrom(bd, seq(|bd|, _ => false), 0).0
  }

  /** A walk marks its starting position and keeps every earlier mark. */
  lemma {:induction false} TraceKeeps(bd: P.Path, v: seq<bool>, i: nat)
    requires |v| == |bd| && i < |bd|
    ensures TraceFrom(bd, v, i).1[i]
    ensures forall k :: 0 <= k < |bd| && v[k] ==> TraceFrom(bd, v, i).1[k]
    decreases Unvisited(v, |bd|)
  {
    if !v[i] {
      VisitUnvisited(v, i, |bd|);
      TraceKeeps(bd, v[i := true], DualStep(bd, i));
    }
  }

  /** A walk from an unvisited position is non-empty and adds to the marks exactly its letters. */
  lemma {:induction false} TraceTakes(bd: P.Path, v: seq<bool>, i: nat)
    requires |v| == |bd| && i < |bd|
    ensures Picked(bd, TraceFrom(bd, v, i).1, |bd|) == Picked(bd, v, |bd|) + multiset(TraceFrom(bd, v, i).0)
    ensures !v[i] ==> |TraceFrom(bd, v, i).0| > 0
    decreases Unvisited(v, |bd|)
  {
    if !v[i] {
      var v' := v[i := true];
      var t := TraceFrom(bd, v', DualStep(bd, i));
      VisitPicked(bd, v, i, |bd|);
      VisitUnvisited(v, i, |bd|);
      TraceTakes(bd, v', DualStep(bd, i));
      assert multiset([bd[i]] + t.0) == multiset{bd[i]} + multiset(t.0);
    }
  }

  /** The walks from j on visit every position from j on and keep every earlier mark. */
  lemma {:induction false} RelationsKeep(bd: P.Path, v: seq<bool>, j: nat)
    requires |v| == |bd| && j <= |bd|
    ensures forall k :: j <= k < |bd| ==> RelationsFrom(bd, v, j).1[k]
    ensures forall k :: 0 <= k < |bd| && v[k] ==> RelationsFrom(bd, v, j).1[k]
    decreases |bd| - j
  {
    if j < |bd| {
      if v[j] {
        RelationsKeep(bd, v, j + 1);
      } else {
        TraceKeeps(bd, v, j);
        RelationsKeep(bd, TraceFrom(bd, v, j).1, j + 1);
      }
    }
  }

  /** The relations from j on are non-empty and add to the marks exactly their letters. */
  lemma {:induction false} RelationsTake(bd: P.Path, v: seq<bool>, j: nat)
    requires |v| == |bd| && j <= |bd|
    ensures Picked(bd, RelationsFrom(bd, v, j).1, |bd|) == Picked(bd, v, |bd|) + multiset(Concat(RelationsFrom(bd, v, j).0))
    ensures forall k :: 0 <= k < |RelationsFrom(bd, v, j).0| ==> |RelationsFrom(bd, v, j).0[k]| > 0
    decreases |bd| - j
  {
    if j < |bd| {
      if v[j] {
        RelationsTake(bd, v, j + 1);
      } else {
        var t := TraceFrom(bd, v, j);
        TraceTakes(bd, v, j);
        RelationsTake(bd, t.1, j + 1);
        var u := RelationsFrom(bd, t.1, j + 1);
        assert ([t.0] + u.0)[1..] == u.0;
      }
    }
  }

  /**
   * relations uses every position of the boundary word exactly once: the relations
   * are non-empty and together hold the letters of bd, each as often as bd does.
   */
  lemma RelationsCover(bd: P.Path)
    ensures multiset(Concat(RelationsOf(bd))) == multiset(bd)
    ensures forall k :: 0 <= k < |RelationsOf(bd)| ==> |RelationsOf(bd)[k]| > 0
  {
    var v := seq(|bd|, _ => false);
    RelationsKeep(bd, v, 0);
    RelationsTake(bd, v, 0);
    NoneVisited(bd, v, |bd|);
    var r := RelationsFrom(bd, v, 0);
    AllVisited(bd, r.1, |bd|);
    assert bd[..|bd|] == bd;
  }

  /** At most one relation starts at each position from j on. */
  lemma {:induction false} RelationsAtMost(bd: P.Path, v: seq<bool>, j: nat)
    requires |v| == |bd| && j <= |bd|
    ensures |RelationsFrom(bd, v, j).0| <= |bd| - j
    decreases |bd| - j
  {
    if j < |bd| {
      if v[j] {
        RelationsAtMost(bd, v, j + 1);
      } else {
        RelationsAtMost(bd, TraceFrom(bd, v, j).1, j + 1);
      }
    }
  }

  /**
   * relations finds at most one relation per letter of the boundary word and, for a
   * non-empty word, at least one: the first is the walk from position 0, which starts
   * with the first letter of bd and goes on at DualStep(bd, 0).
   */
  lemma RelationsCount(bd: P.Path)
    ensures |RelationsOf(bd)| <= |bd|
    ensures |bd| > 0 ==> var none := seq(|bd|, _ => false);
      |RelationsOf(bd)| >= 1 &&
      RelationsOf(bd)[0] == TraceFrom(bd, none, 0).0 &&
      RelationsOf(bd)[0] == [bd[0]] + TraceFrom(bd, none[0 := true], DualStep(bd, 0)).0
  {
    var none := seq(|bd|, _ => false);
    RelationsAtMost(bd, none, 0);
  }

  /**
   * relations: each walk of the boundary word from an unvisited position until it
   * meets a visited one is a relation. The source needs every inverse to occur (its
   * inner scan runs forever otherwise).
   */
  method Relations(bd: P.Path) returns (rels: seq<P.Path>)
    requires InversesOccur(bd)
    ensures rels == RelationsOf(bd)
    ensures forall k :: 0 <= k < |rels| ==> |rels[k]| > 0
    ensures multiset(Concat(rels)) == multiset(bd)
  {
    var visited := new bool[|bd|](_ => false);
    rels := [];
    var j := 0;
    assert visited[..] == seq(|bd|, _ => false);
    assert [] + RelationsFrom(bd, visited[..], 0).0 == RelationsOf(bd);
    while j < |bd|
      invariant 0 <= j <= |bd| && visited.Length == |bd|
      invariant RelationsOf(bd) == rels + RelationsFrom(bd, visited[..], j).0
    {
      rels := RelationAt(bd, visited, j, rels);
      j := j + 1;
    }
    assert rels + [] == rels;
    RelationsCover(bd);
  }

  /** One round of the outer loop of relations: start a relation at j unless j was visited. */
  method RelationAt(bd: P.Path, visited: array<bool>, j: nat, rels: seq<P.Path>) returns (rels': seq<P.Path>)
    requires visited.Length == |bd| && InversesOccur(bd) && j < |bd|
    modifies visited
    ensures rels + RelationsFrom(bd, old(visited[..]), j).0 == rels' + RelationsFrom(bd, visited[..], j + 1).0
  {
    RelationsOn(bd, visited[..], j, rels);
    rels' := rels;
    if !visited[j] {
      var rel := Trace(bd, visited, j);
      rels' := rels + [rel];
    }
  }

  /** One step of RelationsFrom: position j starts a relation unless it was visited. */
  lemma RelationsOn(bd: P.Path, v: seq<bool>, j: nat, rels: seq<P.Path>)
    requires |v| == |bd| && j < |bd|
    ensures v[j] ==> rels + RelationsFrom(bd, v, j).0 == rels + RelationsFrom(bd, v, j + 1).0
    ensures !v[j] ==> var t := TraceFrom(bd, v, j);
      rels + RelationsFrom(bd, v, j).0 == (rels + [t.0]) + RelationsFrom(bd, t.1, j + 1).0
  {
    if !v[j] {
      var t := TraceFrom(bd, v, j);
      var u := RelationsFrom(bd, t.1, j + 1);
      assert rels + ([t.0] + u.0) == (rels + [t.0]) + u.0;
    }
  }

  /** One relation: walk from the unvisited position j until a visited position is met. */
  method Trace(bd: P.Path, visited: array<bool>, j: nat) returns (rel: P.Path)
    requires visited.Length == |bd| && InversesOccur(bd) && j < |bd|
    modifies visited
    ensures (rel, visited[..]) == TraceFrom(bd, old(visited[..]), j)
  {
    rel := [];
    var i := j;
    ghost var start := visited[..];
    assert [] + TraceFrom(bd, start, j).0 == TraceFrom(bd, start, j).0;
    while !visited[i]
      invariant 0 <= i < |bd|
      invariant TraceFrom(bd, start, j).0 == rel + TraceFrom(bd, visited[..], i).0
      invariant TraceFrom(bd, start, j).1 == TraceFrom(bd, visited[..], i).1
      decreases Unvisited(visited[..], |bd|)
    {
      var c := bd[i];
      ghost var before := visited[..];
      VisitUnvisited(before, i, |bd|);
      TraceOn(bd, before, i, TraceFrom(bd, start, j).0, rel);
      visited[i] := true;
      assert visited[..] == before[i := true];
      rel := rel + [c];
      i := Seek(bd, Inv(c), i);
      i := Next(i, |bd|);
    }
    assert TraceFrom(bd, visited[..], i) == ([], visited[..]);
    assert rel + [] == rel;
  }

  /** One step of TraceFrom: the letter at i joins the relation, and the walk goes on. */
  lemma TraceOn(bd: P.Path, v: seq<bool>, i: nat, whole: P.Path, rel: P.Path)
    requires |v| == |bd| && i < |bd| && !v[i] && whole == rel + TraceFrom(bd, v, i).0
    ensures whole == (rel + [bd[i]]) + TraceFrom(bd, v[i := true], DualStep(bd, i)).0
    ensures TraceFrom(bd, v, i).1 == TraceFrom(bd, v[i := true], DualStep(bd, i)).1
  {
    var t := TraceFrom(bd, v[i := true], DualStep(bd, i));
    assert rel + ([bd[i]] + t.0) == (rel + [bd[i]]) + t.0;
  }
}
