/**
 * The forest test of TrainTrack.java (explore, findConnectedComp, notEmpty and
 * isForest): a set of edges is drawn as a symmetric adjacency matrix over the
 * vertices they touch; a depth-first walk from the first untouched vertex marks a
 * connected component and writes each of its vertices' valence into a vector; the
 * component is then removed and tested, a connected graph having a cycle exactly when
 * its valences add up to at least twice its number of vertices.
 *
 * The source never clears the valence vector between components, so from the second
 * component on it tests the running totals rather than the component itself. Forest
 * below takes a flag: with it off, the test as written; with it on, each component
 * tested on its own.
 */
module Forests {
  import opened IntMatrices
  import opened IntVectors
  import G = Graphs
  import GM = GraphMaps

  // ---- values: the walk ----

  /** The adjacency matrix of a subgraph: square, counts as entries, symmetric. */
  predicate Adjacency(ad: Mat, n: nat)
  {
    Square(ad, n) && Nonneg(ad) && forall i, j :: 0 <= i < n && 0 <= j < n ==> ad[i][j] == ad[j][i]
  }

  /** No entry is negative. */
  predicate NonnegVec(x: seq<int>)
  {
    forall i :: 0 <= i < |x| ==> x[i] >= 0
  }

  /** The number of zero entries among the first k. */
  function Zeros(x: seq<int>, k: nat): (c: nat)
    requires k <= |x|
    ensures c <= k
  {
    if k == 0 then 0 else Zeros(x, k - 1) + (if x[k - 1] == 0 then 1 else 0)
  }

  /** Writing a nonzero value removes a zero if there was one. */
  lemma {:induction false} ZerosSet(x: seq<int>, i: nat, c: int, k: nat)
    requires i < |x| && k <= |x| && c != 0
    ensures Zeros(x[i := c], k) == Zeros(x, k) - (if i < k && x[i] == 0 then 1 else 0)
  {
    if k > 0 {
      ZerosSet(x, i, c, k - 1);
    }
  }

  /** Every nonzero entry of x other than the one at skip is unchanged in y. */
  predicate Keeps(x: seq<int>, y: seq<int>, skip: int)
  {
    |x| == |y| && forall i :: 0 <= i < |x| && i != skip && x[i] != 0 ==> y[i] == x[i]
  }

  /** Keeping the nonzero entries never adds a zero. */
  lemma {:induction false} ZerosKeep(x: seq<int>, y: seq<int>, k: nat)
    requires Keeps(x, y, -1) && k <= |x|
    ensures Zeros(y, k) <= Zeros(x, k)
  {
    if k > 0 {
      ZerosKeep(x, y, k - 1);
    }
  }

  /**
   * explore(val, ad, subvt, vt): nothing when val[vt] is set; otherwise each vertex i of
   * subvt adjacent to vt, in order, adds its entry of ad to val[vt] and is explored in
   * turn. The walk only sets entries that were zero, so it ends.
   */
  function Explored(ad: Mat, subvt: seq<bool>, val: seq<int>, vt: nat): (r: seq<int>)
    requires Square(ad, |val|) && Nonneg(ad) && |subvt| == |val| && vt < |val| && NonnegVec(val)
    ensures NonnegVec(r) && Keeps(val, r, -1) && Zeros(r, |r|) <= Zeros(val, |val|)
    decreases Zeros(val, |val|), 1, 0
  {
    if val[vt] != 0 then val else ExploredFrom(ad, subvt, val, vt, 0)
  }

  /** The loop of explore over the vertices from i on. */
  function ExploredFrom(ad: Mat, subvt: seq<bool>, val: seq<int>, vt: nat, i: nat): (r: seq<int>)
    requires Square(ad, |val|) && Nonneg(ad) && |subvt| == |val| && vt < |val| && i <= |val| && NonnegVec(val)
    ensures NonnegVec(r) && Keeps(val, r, vt) && r[vt] >= val[vt] && Zeros(r, |r|) <= Zeros(val, |val|)
    decreases Zeros(val, |val|) + (if val[vt] == 0 then 0 else 1), 0, |val| - i
  {
    if i == |val| then val
    else if subvt[i] && ad[i][vt] != 0 then
      var v1 := val[vt := val[vt] + ad[i][vt]];
      ZerosSet(val, vt, val[vt] + ad[i][vt], |val|);
      var v2 := Explored(ad, subvt, v1, i);
      ExploredFrom(ad, subvt, v2, vt, i + 1)
    else
      ExploredFrom(ad, subvt, val, vt, i + 1)
  }

  /** The loop of explore past a neighbour: its count added to vt, then the walk from it. */
  lemma ExploredFromNext(ad: Mat, subvt: seq<bool>, val: seq<int>, vt: nat, i: nat)
    requires Square(ad, |val|) && Nonneg(ad) && |subvt| == |val| && vt < |val| && i < |val| && NonnegVec(val)
    requires subvt[i] && ad[i][vt] != 0
    ensures ExploredFrom(ad, subvt, val, vt, i) ==
      ExploredFrom(ad, subvt, Explored(ad, subvt, val[vt := val[vt] + ad[i][vt]], i), vt, i + 1)
  {
  }

  /** The valence of x in the subgraph on subvt, counted over the first k vertices. */
  function Valence(ad: Mat, subvt: seq<bool>, x: nat, k: nat): int
    requires Square(ad, |subvt|) && x < |subvt| && k <= |subvt|
  {
    if k == 0 then 0 else Valence(ad, subvt, x, k - 1) + (if subvt[k - 1] then ad[k - 1][x] else 0)
  }

  /** A valence is at least the count of one neighbour. */
  lemma {:induction false} ValenceAtLeast(ad: Mat, subvt: seq<bool>, x: nat, y: nat, k: nat)
    requires Square(ad, |subvt|) && Nonneg(ad) && x < |subvt| && k <= |subvt|
    ensures Valence(ad, subvt, x, k) >= 0
    ensures y < k && subvt[y] ==> Valence(ad, subvt, x, k) >= ad[y][x]
  {
    if k > 0 {
      ValenceAtLeast(ad, subvt, x, y, k - 1);
    }
  }

  /** A positive valence has a neighbour behind it. */
  lemma {:induction false} ValenceWitness(ad: Mat, subvt: seq<bool>, x: nat, k: nat) returns (y: nat)
    requires Square(ad, |subvt|) && Nonneg(ad) && x < |subvt| && k <= |subvt| && Valence(ad, subvt, x, k) > 0
    ensures y < k && subvt[y] && ad[y][x] > 0
  {
    if subvt[k - 1] && ad[k - 1][x] > 0 {
      y := k - 1;
    } else {
      y := ValenceWitness(ad, subvt, x, k - 1);
    }
  }

  /** Every neighbour of x on subvt is set in b. */
  predicate Reached(ad: Mat, subvt: seq<bool>, b: seq<int>, x: nat)
    requires Square(ad, |b|) && |subvt| == |b| && x < |b|
  {
    forall y :: 0 <= y < |b| && subvt[y] && ad[y][x] != 0 ==> b[y] != 0
  }

  /** Every neighbour of x on subvt below k is set in b. */
  predicate ReachedBelow(ad: Mat, subvt: seq<bool>, b: seq<int>, x: nat, k: nat)
    requires Square(ad, |b|) && |subvt| == |b| && x < |b| && k <= |b|
  {
    forall y :: 0 <= y < k && subvt[y] && ad[y][x] != 0 ==> b[y] != 0
  }

  /**
   * A vertex x set between a and b lies on subvt, holds its valence, and has all its
   * neighbours set.
   */
  predicate Settled(ad: Mat, subvt: seq<bool>, a: seq<int>, b: seq<int>, x: nat)
    requires Square(ad, |a|) && |subvt| == |a| == |b| && x < |a|
  {
    a[x] == 0 && b[x] != 0 ==> subvt[x] && b[x] == Valence(ad, subvt, x, |a|) && Reached(ad, subvt, b, x)
  }

  /** Every vertex other than skip is settled between a and b. */
  predicate AllSettled(ad: Mat, subvt: seq<bool>, a: seq<int>, b: seq<int>, skip: int)
    requires Square(ad, |a|) && |subvt| == |a| == |b|
  {
    forall x :: 0 <= x < |a| && x != skip ==> Settled(ad, subvt, a, b, x)
  }

  /** Settled vertices stay settled through a later walk that keeps the set entries. */
  lemma SettledTrans(ad: Mat, subvt: seq<bool>, a: seq<int>, b: seq<int>, c: seq<int>, skip: int, x: nat)
    requires Square(ad, |a|) && |subvt| == |a| == |b| == |c| && x < |a| && Keeps(b, c, skip) && x != skip
    requires forall y :: 0 <= y < |b| && b[y] != 0 ==> c[y] != 0
    requires Settled(ad, subvt, a, b, x) && Settled(ad, subvt, b, c, x)
    ensures Settled(ad, subvt, a, c, x)
  {
    if a[x] == 0 && c[x] != 0 && b[x] != 0 {
      assert Reached(ad, subvt, b, x);
    }
  }

  /**
   * explore from a vertex of subvt with a neighbour sets it, and every vertex it sets
   * lies on subvt, holds its valence and has all its neighbours set: the walk marks a
   * whole connected component and computes its valences.
   */
  lemma ExploreSpec(ad: Mat, subvt: seq<bool>, val: seq<int>, vt: nat)
    requires Adjacency(ad, |val|) && |subvt| == |val| && vt < |val| && NonnegVec(val) && subvt[vt]
    ensures var r := Explored(ad, subvt, val, vt);
      (Valence(ad, subvt, vt, |val|) > 0 ==> r[vt] != 0) && AllSettled(ad, subvt, val, r, -1)
    decreases Zeros(val, |val|), 1, 0
  {
    if val[vt] == 0 {
      ExploreFromSpec(ad, subvt, val, vt, 0);
      var r := ExploredFrom(ad, subvt, val, vt, 0);
      assert Settled(ad, subvt, val, r, vt);
    }
  }

  /** The loop of explore: vt ends with its valence and all its neighbours set. */
  lemma ExploreFromSpec(ad: Mat, subvt: seq<bool>, val: seq<int>, vt: nat, i: nat)
    requires Adjacency(ad, |val|) && |subvt| == |val| && vt < |val| && i <= |val| && NonnegVec(val) && subvt[vt]
    requires val[vt] == Valence(ad, subvt, vt, i) && ReachedBelow(ad, subvt, val, vt, i)
    ensures var r := ExploredFrom(ad, subvt, val, vt, i);
      r[vt] == Valence(ad, subvt, vt, |val|) && Reached(ad, subvt, r, vt) && AllSettled(ad, subvt, val, r, vt)
    decreases Zeros(val, |val|) + (if val[vt] == 0 then 0 else 1), 0, |val| - i
  {
    if i == |val| {
    } else if subvt[i] && ad[i][vt] != 0 {
      var v1 := val[vt := val[vt] + ad[i][vt]];
      ZerosSet(val, vt, val[vt] + ad[i][vt], |val|);
      ExploreSpec(ad, subvt, v1, i);
      var v2 := Explored(ad, subvt, v1, i);
      ValenceAtLeast(ad, subvt, i, vt, |val|);
      assert v2[i] != 0;
      assert v2[vt] == Valence(ad, subvt, vt, i + 1);
      assert ReachedBelow(ad, subvt, v2, vt, i + 1);
      ExploreFromSpec(ad, subvt, v2, vt, i + 1);
      var r := ExploredFrom(ad, subvt, v2, vt, i + 1);
      forall x | 0 <= x < |val| && x != vt
        ensures Settled(ad, subvt, val, r, x)
      {
        assert Settled(ad, subvt, v1, v2, x);
        SettledTrans(ad, subvt, val, v2, r, vt, x);
      }
    } else {
      ExploreFromSpec(ad, subvt, val, vt, i + 1);
    }
  }

  // ---- values: the rounds of isForest ----

  /** The first marked position from k on, or |b| when there is none. */
  function FirstFrom(b: seq<bool>, k: nat): (i: nat)
    requires k <= |b|
    ensures k <= i <= |b| && (i < |b| ==> b[i]) && forall j :: k <= j < i ==> !b[j]
    decreases |b| - k
  {
    if k == |b| || b[k] then k else FirstFrom(b, k + 1)
  }

  /** The number of marked positions among the first k. */
  function Trues(b: seq<bool>, k: nat): (c: nat)
    requires k <= |b|
  {
    if k == 0 then 0 else Trues(b, k - 1) + (if b[k - 1] then 1 else 0)
  }

  /** Unmarking a position leaves fewer marks. */
  lemma {:induction false} TruesLess(a: seq<bool>, b: seq<bool>, x: nat, k: nat)
    requires |a| == |b| && k <= |a| && x < |a| && a[x] && !b[x]
    requires forall i :: 0 <= i < |a| && b[i] ==> a[i]
    ensures Trues(b, k) <= Trues(a, k) && (x < k ==> Trues(b, k) < Trues(a, k))
  {
    if k > 0 {
      TruesLess(a, b, x, k - 1);
    }
  }

  /** The vertices of subvt left after those the walk set are removed. */
  function Cleared(subvt: seq<bool>, v: seq<int>): (s: seq<bool>)
    requires |subvt| == |v|
    ensures |s| == |subvt|
  {
    seq(|subvt|, i requires 0 <= i < |subvt| => subvt[i] && v[i] == 0)
  }

  /** Between rounds: the vertices left are unset and each has a neighbour among them. */
  predicate Exploring(ad: Mat, subvt: seq<bool>, val: seq<int>)
    requires Square(ad, |val|) && |subvt| == |val|
  {
    forall x :: 0 <= x < |val| && subvt[x] ==> val[x] == 0 && Valence(ad, subvt, x, |val|) > 0
  }

  /** One round removes its first vertex and keeps the vertices left ready for the next. */
  lemma RoundStep(ad: Mat, subvt: seq<bool>, val: seq<int>, vt: nat)
    requires Adjacency(ad, |val|) && |subvt| == |val| && NonnegVec(val) && Exploring(ad, subvt, val)
    requires vt < |val| && subvt[vt]
    ensures var v := Explored(ad, subvt, val, vt); var s := Cleared(subvt, v);
      Exploring(ad, s, v) && Trues(s, |s|) < Trues(subvt, |subvt|)
  {
    var v := Explored(ad, subvt, val, vt);
    var s := Cleared(subvt, v);
    ExploreSpec(ad, subvt, val, vt);
    TruesLess(subvt, s, vt, |s|);
    forall x | 0 <= x < |val| && s[x]
      ensures Valence(ad, s, x, |val|) > 0
    {
      var y := ValenceWitness(ad, subvt, x, |val|);
      assert Settled(ad, subvt, val, v, y);
      assert s[y];
      ValenceAtLeast(ad, s, x, y, |val|);
    }
  }

  /**
   * The loop of isForest from the vertices left in subvt, with the valence vector val
   * and the totals prevS and prevC of the previous round: each round explores from the
   * first vertex left, removes the vertices set, and fails on the sum S and count C of
   * nonzero entries of the vector; as written when S >= 2C, corrected when the
   * component's own share, S - prevS >= 2 (C - prevC).
   */
  function Rounds(ad: Mat, subvt: seq<bool>, val: seq<int>, prevS: int, prevC: int, corrected: bool): bool
    requires Adjacency(ad, |val|) && |subvt| == |val| && NonnegVec(val) && Exploring(ad, subvt, val)
    decreases Trues(subvt, |subvt|)
  {
    var vt := FirstFrom(subvt, 0);
    if vt == |subvt| then true
    else
      var v := Explored(ad, subvt, val, vt);
      var s := Cleared(subvt, v);
      var S := Total(v, |v|);
      var C := RowCount(v, |v|);
      if (if corrected then S - prevS >= 2 * (C - prevC) else S >= 2 * C) then false
      else
        RoundStep(ad, subvt, val, vt);
        Rounds(ad, s, v, S, C, corrected)
  }

  /** Rounds, one round unfolded: a failing test ends it, a passing one leaves the rest. */
  lemma RoundsNext(ad: Mat, subvt: seq<bool>, val: seq<int>, prevS: int, prevC: int, corrected: bool, v: seq<int>, S: int, C: int)
    requires Adjacency(ad, |val|) && |subvt| == |val| && NonnegVec(val) && Exploring(ad, subvt, val)
    requires FirstFrom(subvt, 0) < |val| && v == Explored(ad, subvt, val, FirstFrom(subvt, 0))
    requires S == Total(v, |v|) && C == RowCount(v, |v|)
    ensures (if corrected then S - prevS >= 2 * (C - prevC) else S >= 2 * C) ==> !Rounds(ad, subvt, val, prevS, prevC, corrected)
    ensures !(if corrected then S - prevS >= 2 * (C - prevC) else S >= 2 * C) ==>
      var s := Cleared(subvt, v);
      NonnegVec(v) && Exploring(ad, s, v) && Trues(s, |s|) < Trues(subvt, |subvt|) &&
      Rounds(ad, subvt, val, prevS, prevC, corrected) == Rounds(ad, s, v, S, C, corrected)
  {
    RoundStep(ad, subvt, val, FirstFrom(subvt, 0));
  }

  /** The valences of the vertices set between a and b, among the first k. */
  function ComponentValences(ad: Mat, subvt: seq<bool>, a: seq<int>, b: seq<int>, k: nat): int
    requires Square(ad, |a|) && |subvt| == |a| == |b| && k <= |a|
  {
    if k == 0 then 0
    else (ComponentValences(ad, subvt, a, b, k - 1) +
          if a[k - 1] == 0 && b[k - 1] != 0 then Valence(ad, subvt, k - 1, |a|) else 0)
  }

  /** The number of vertices set between a and b, among the first k. */
  function ComponentSize(a: seq<int>, b: seq<int>, k: nat): nat
    requires |a| == |b| && k <= |a|
  {
    if k == 0 then 0 else ComponentSize(a, b, k - 1) + (if a[k - 1] == 0 && b[k - 1] != 0 then 1 else 0)
  }

  /**
   * What a walk adds to the two totals of isForest: the sum grows by the valences of
   * the vertices it set, the count of nonzero entries by their number.
   */
  lemma {:induction false} RoundTotals(ad: Mat, subvt: seq<bool>, a: seq<int>, b: seq<int>, k: nat)
    requires Square(ad, |a|) && |subvt| == |a| && k <= |a| && Keeps(a, b, -1) && AllSettled(ad, subvt, a, b, -1)
    ensures Total(b, k) - Total(a, k) == ComponentValences(ad, subvt, a, b, k)
    ensures RowCount(b, k) - RowCount(a, k) == ComponentSize(a, b, k)
  {
    if k > 0 {
      RoundTotals(ad, subvt, a, b, k - 1);
      assert Settled(ad, subvt, a, b, k - 1);
    }
  }

  /**
   * The test isForest is meant to make: each connected component, in the order the
   * rounds find them, fails when the valences of its vertices add up to at least twice
   * their number, that is when it has at least as many edges as vertices.
   */
  function ByComponent(ad: Mat, subvt: seq<bool>, val: seq<int>): bool
    requires Adjacency(ad, |val|) && |subvt| == |val| && NonnegVec(val) && Exploring(ad, subvt, val)
    decreases Trues(subvt, |subvt|)
  {
    var vt := FirstFrom(subvt, 0);
    if vt == |subvt| then true
    else
      var v := Explored(ad, subvt, val, vt);
      if ComponentValences(ad, subvt, val, v, |v|) >= 2 * ComponentSize(val, v, |v|) then false
      else
        RoundStep(ad, subvt, val, vt);
        ByComponent(ad, Cleared(subvt, v), v)
  }

  /** The corrected rounds, started from the totals of the vector, test each component on its own. */
  lemma {:induction false} CorrectedByComponent(ad: Mat, subvt: seq<bool>, val: seq<int>)
    requires Adjacency(ad, |val|) && |subvt| == |val| && NonnegVec(val) && Exploring(ad, subvt, val)
    ensures Rounds(ad, subvt, val, Total(val, |val|), RowCount(val, |val|), true) == ByComponent(ad, subvt, val)
    decreases Trues(subvt, |subvt|)
  {
    var vt := FirstFrom(subvt, 0);
    if vt < |subvt| {
      var v := Explored(ad, subvt, val, vt);
      ExploreSpec(ad, subvt, val, vt);
      RoundTotals(ad, subvt, val, v, |v|);
      RoundStep(ad, subvt, val, vt);
      CorrectedByComponent(ad, Cleared(subvt, v), v);
    }
  }

  /**
   * Whatever the corrected rounds accept, the rounds as written accept too: the totals
   * of the components passed so far stay below twice their counts, so the running test
   * is the weaker one.
   */
  lemma {:induction false} CorrectedPassesAsWritten(ad: Mat, subvt: seq<bool>, val: seq<int>, prevS: int, prevC: int)
    requires Adjacency(ad, |val|) && |subvt| == |val| && NonnegVec(val) && Exploring(ad, subvt, val)
    requires prevS <= 2 * prevC
    ensures Rounds(ad, subvt, val, prevS, prevC, true) ==> Rounds(ad, subvt, val, prevS, prevC, false)
    decreases Trues(subvt, |subvt|)
  {
    var vt := FirstFrom(subvt, 0);
    if vt < |subvt| {
      var v := Explored(ad, subvt, val, vt);
      RoundStep(ad, subvt, val, vt);
      var S, C := Total(v, |v|), RowCount(v, |v|);
      if S - prevS < 2 * (C - prevC) {
        CorrectedPassesAsWritten(ad, Cleared(subvt, v), v, S, C);
      }
    }
  }

  // ---- the subgraph of a map ----

  /** What isForest reads of a map and a set of edges: endpoints that are vertices. */
  predicate ForestInput(g: G.Graph, s: seq<bool>)
  {
    G.Valid(g) && G.EndpointsOK(g) && |s| == g.edges && 0 <= g.vertices
  }

  /** Whether vertex x is an endpoint of one of the first k marked edges. */
  function Touched(g: G.Graph, s: seq<bool>, x: int, k: nat): bool
    requires ForestInput(g, s) && k <= g.edges
  {
    k > 0 && (Touched(g, s, x, k - 1) || (s[k - 1] && (g.start[k - 1] == x || g.end[k - 1] == x)))
  }

  /** The ends of the first k marked edges that run from x to y, counted from both sides. */
  function EdgeCount(g: G.Graph, s: seq<bool>, x: int, y: int, k: nat): nat
    requires ForestInput(g, s) && k <= g.edges
  {
    if k == 0 then 0
    else (EdgeCount(g, s, x, y, k - 1) +
          if !s[k - 1] then 0
          else (if g.start[k - 1] == x && g.end[k - 1] == y then 1 else 0) +
               (if g.end[k - 1] == x && g.start[k - 1] == y then 1 else 0))
  }

  /** subvt of isForest: the vertices touched by a marked edge. */
  function SubVertices(g: G.Graph, s: seq<bool>): (b: seq<bool>)
    requires ForestInput(g, s)
    ensures |b| == g.vertices
  {
    seq(g.vertices, x => Touched(g, s, x, g.edges))
  }

  /** adj of isForest: the adjacency matrix of the marked edges, a loop counted twice. */
  function AdjacencyOf(g: G.Graph, s: seq<bool>): (ad: Mat)
    requires ForestInput(g, s)
    ensures Square(ad, g.vertices)
  {
    seq(g.vertices, x => seq(g.vertices, y => EdgeCount(g, s, x, y, g.edges)))
  }

  /** The two counts of a pair of vertices agree. */
  lemma {:induction false} EdgeCountSymmetric(g: G.Graph, s: seq<bool>, x: int, y: int, k: nat)
    requires ForestInput(g, s) && k <= g.edges
    ensures EdgeCount(g, s, x, y, k) == EdgeCount(g, s, y, x, k)
  {
    if k > 0 {
      EdgeCountSymmetric(g, s, x, y, k - 1);
    }
  }

  /** A marked edge from x to y makes the count of (y, x) positive. */
  lemma {:induction false} EdgeCountAtLeast(g: G.Graph, s: seq<bool>, i: nat, k: nat)
    requires ForestInput(g, s) && i < k <= g.edges && s[i]
    ensures EdgeCount(g, s, g.end[i], g.start[i], k) > 0
  {
    if i < k - 1 {
      EdgeCountAtLeast(g, s, i, k - 1);
    }
  }

  /** A touched vertex is an endpoint of a marked edge. */
  lemma {:induction false} TouchedWitness(g: G.Graph, s: seq<bool>, x: int, k: nat) returns (i: nat)
    requires ForestInput(g, s) && k <= g.edges && Touched(g, s, x, k)
    ensures i < k && s[i] && (g.start[i] == x || g.end[i] == x)
  {
    if s[k - 1] && (g.start[k - 1] == x || g.end[k - 1] == x) {
      i := k - 1;
    } else {
      i := TouchedWitness(g, s, x, k - 1);
    }
  }

  /** Both endpoints of a marked edge are touched. */
  lemma {:induction false} TouchedEnds(g: G.Graph, s: seq<bool>, i: nat, k: nat)
    requires ForestInput(g, s) && i < k <= g.edges && s[i]
    ensures Touched(g, s, g.start[i], k) && Touched(g, s, g.end[i], k)
  {
    if i < k - 1 {
      TouchedEnds(g, s, i, k - 1);
    }
  }

  /**
   * The input of the loop of isForest: a symmetric adjacency matrix, every touched
   * vertex has a neighbour, and the valence vector is zero.
   */
  lemma ForestStart(g: G.Graph, s: seq<bool>)
    requires ForestInput(g, s)
    ensures Adjacency(AdjacencyOf(g, s), g.vertices)
    ensures Exploring(AdjacencyOf(g, s), SubVertices(g, s), seq(g.vertices, _ => 0))
  {
    var ad, subvt := AdjacencyOf(g, s), SubVertices(g, s);
    forall x, y | 0 <= x < g.vertices && 0 <= y < g.vertices
      ensures ad[x][y] == ad[y][x]
    {
      EdgeCountSymmetric(g, s, x, y, g.edges);
    }
    forall x | 0 <= x < g.vertices && subvt[x]
      ensures Valence(ad, subvt, x, g.vertices) > 0
    {
      var i := TouchedWitness(g, s, x, g.edges);
      TouchedEnds(g, s, i, g.edges);
      EdgeCountAtLeast(g, s, i, g.edges);
      var y := if g.start[i] == x then g.end[i] else g.start[i];
      EdgeCountSymmetric(g, s, x, y, g.edges);
      ValenceAtLeast(ad, subvt, x, y, g.vertices);
    }
  }

  /**
   * isForest(s) as a value: the rounds over the touched vertices of the marked edges,
   * from a zero valence vector; as written, or with each component tested on its own.
   */
  function Forest(g: G.Graph, s: seq<bool>, corrected: bool): bool
    requires ForestInput(g, s)
  {
    ForestStart(g, s);
    Rounds(AdjacencyOf(g, s), SubVertices(g, s), seq(g.vertices, _ => 0), 0, 0, corrected)
  }

  /** Every connected component of the marked edges has fewer edges than vertices. */
  function ComponentsPass(g: G.Graph, s: seq<bool>): bool
    requires ForestInput(g, s)
  {
    ForestStart(g, s);
    ByComponent(AdjacencyOf(g, s), SubVertices(g, s), seq(g.vertices, _ => 0))
  }

  /**
   * What the corrected test means: the marked edges pass exactly when every connected
   * component they form has fewer edges than vertices; and whatever passes it passes the
   * test as written.
   */
  lemma ForestMeans(g: G.Graph, s: seq<bool>)
    requires ForestInput(g, s)
    ensures Forest(g, s, true) == ComponentsPass(g, s)
    ensures Forest(g, s, true) ==> Forest(g, s, false)
  {
    var z := seq(g.vertices, _ => 0);
    ForestStart(g, s);
    ZeroTotals(z, g.vertices);
    CorrectedByComponent(AdjacencyOf(g, s), SubVertices(g, s), z);
    CorrectedPassesAsWritten(AdjacencyOf(g, s), SubVertices(g, s), z, 0, 0);
  }

  /** A zero vector sums to zero and has no nonzero entry. */
  lemma {:induction false} ZeroTotals(z: seq<int>, k: nat)
    requires k <= |z| && forall i :: 0 <= i < |z| ==> z[i] == 0
    ensures Total(z, k) == 0 && RowCount(z, k) == 0
  {
    if k > 0 {
      ZeroTotals(z, k - 1);
    }
  }

  // ---- the cumulative test ----

  /** Three vertices, an edge from 0 to 1 and a loop at 2. */
  const TreeAndLoop := G.Graph(2, 3, [[], []], [0, 2], [1, 2], [], false, [], [], "")

  /** The adjacency matrix of TreeAndLoop with both edges marked. */
  const TreeAndLoopAdjacency: Mat := [[0, 1, 0], [1, 0, 0], [0, 0, 2]]

  /** The input of the loop of isForest on TreeAndLoop with both edges marked. */
  lemma TreeAndLoopStart()
    ensures ForestInput(TreeAndLoop, [true, true])
    ensures AdjacencyOf(TreeAndLoop, [true, true]) == TreeAndLoopAdjacency
    ensures SubVertices(TreeAndLoop, [true, true]) == [true, true, true]
    ensures seq(TreeAndLoop.vertices, _ => 0) == [0, 0, 0]
  {
    var g, s := TreeAndLoop, [true, true];
    assert ForestInput(g, s);
    var ad := AdjacencyOf(g, s);
    assert EdgeCount(g, s, 0, 1, 1) == 1 && EdgeCount(g, s, 1, 0, 1) == 1 && EdgeCount(g, s, 2, 2, 1) == 0;
    assert ad[0] == [0, 1, 0] && ad[1] == [1, 0, 0] && ad[2] == [0, 0, 2];
  }

  /** Inside the first round on TreeAndLoop: the walk from vertex 0 reaches vertex 1. */
  lemma TreeAndLoopSecondVertex()
    ensures Explored(TreeAndLoopAdjacency, [true, true, true], [1, 0, 0], 1) == [1, 1, 0]
  {
    var ad, subvt := TreeAndLoopAdjacency, [true, true, true];
    assert Explored(ad, subvt, [1, 1, 0], 0) == [1, 1, 0];
    assert [1, 0, 0][1 := 0 + ad[0][1]] == [1, 1, 0];
    assert ExploredFrom(ad, subvt, [1, 1, 0], 1, 3) == [1, 1, 0];
    assert ExploredFrom(ad, subvt, [1, 1, 0], 1, 1) == [1, 1, 0];
    assert ExploredFrom(ad, subvt, [1, 0, 0], 1, 0) == [1, 1, 0];
  }

  /** Inside the first round on TreeAndLoop: the loop of the walk from vertex 0, from vertex 1 on. */
  lemma TreeAndLoopFirstNeighbour()
    ensures ExploredFrom(TreeAndLoopAdjacency, [true, true, true], [0, 0, 0], 0, 1) == [1, 1, 0]
  {
    var ad, subvt := TreeAndLoopAdjacency, [true, true, true];
    TreeAndLoopSecondVertex();
    assert ExploredFrom(ad, subvt, [1, 1, 0], 0, 2) == [1, 1, 0];
    assert [0, 0, 0][0 := 0 + ad[1][0]] == [1, 0, 0];
  }

  /** The first round on TreeAndLoop sets the edge's two ends to valence 1. */
  lemma TreeAndLoopFirstRound()
    ensures Explored(TreeAndLoopAdjacency, [true, true, true], [0, 0, 0], 0) == [1, 1, 0]
  {
    TreeAndLoopFirstNeighbour();
    assert ExploredFrom(TreeAndLoopAdjacency, [true, true, true], [0, 0, 0], 0, 0) == [1, 1, 0];
  }

  /** The second round on TreeAndLoop sets the loop's vertex to valence 2. */
  lemma TreeAndLoopSecondRound()
    ensures Explored(TreeAndLoopAdjacency, [false, false, true], [1, 1, 0], 2) == [1, 1, 2]
  {
    var ad, subvt := TreeAndLoopAdjacency, [false, false, true];
    assert Explored(ad, subvt, [1, 1, 2], 2) == [1, 1, 2];
    assert [1, 1, 0][2 := 0 + ad[2][2]] == [1, 1, 2];
    assert ExploredFrom(ad, subvt, [1, 1, 2], 2, 3) == [1, 1, 2];
    assert ExploredFrom(ad, subvt, [1, 1, 0], 2, 2) == [1, 1, 2];
    assert ExploredFrom(ad, subvt, [1, 1, 0], 2, 0) == [1, 1, 2];
  }

  /**
   * isForest as written accepts the edge and the loop of TreeAndLoop: the tree
   * component gives totals 2 and 2, the loop then raises them to 4 and 3, and 4 < 6.
   * The corrected test sees the loop's own totals 2 and 1 and rejects it.
   */
  lemma CumulativeTestAcceptsLoop()
    ensures ForestInput(TreeAndLoop, [true, true]) && TreeAndLoop.start[1] == TreeAndLoop.end[1]
    ensures Forest(TreeAndLoop, [true, true], false)
    ensures !Forest(TreeAndLoop, [true, true], true)
  {
    TreeAndLoopStart();
    TreeAndLoopFirstRound();
    TreeAndLoopSecondRound();
    var ad, subvt, z: seq<int> := TreeAndLoopAdjacency, [true, true, true], [0, 0, 0];
    ForestStart(TreeAndLoop, [true, true]);
    assert FirstFrom(subvt, 0) == 0;
    var v: seq<int> := [1, 1, 0];
    var t := Cleared(subvt, v);
    assert t == [false, false, true];
    assert Total(v, 3) == 2 && RowCount(v, 3) == 2;
    RoundStep(ad, subvt, z, 0);
    assert FirstFrom(t, 0) == 2;
    var w: seq<int> := [1, 1, 2];
    assert Total(w, 3) == 4 && RowCount(w, 3) == 3;
    var u := Cleared(t, w);
    assert u == [false, false, false];
    RoundStep(ad, t, v, 2);
    assert FirstFrom(u, 0) == 3;
    assert Rounds(ad, u, w, 4, 3, false);
    assert Rounds(ad, t, v, 2, 2, false);
    assert !Rounds(ad, t, v, 2, 2, true);
  }

  // ---- the methods ----

  /** explore(val, ad, subvt, vt) on the vector and the matrix of the source. */
  method Explore(val: IntVector, ad: IntMatrix, subvt: array<bool>, vt: nat)
    requires val.Valid() && ad.Valid() && ad.n == val.n && subvt.Length == val.n && vt < val.n
    requires Nonneg(ad.Entries()) && NonnegVec(val.Contents())
    modifies val.v
    ensures val.Contents() == Explored(ad.Entries(), subvt[..], old(val.Contents()), vt)
  {
    ad.RowsAt(ad.n);
    Walk(val, ad, subvt, vt, ad.Entries(), subvt[..]);
  }

  /** The objects of explore agree with the values m and sub it is specified on. */
  ghost predicate Walking(val: IntVector, ad: IntMatrix, subvt: array<bool>, m: Mat, sub: seq<bool>)
    reads val, ad, ad.a, subvt
  {
    val.Valid() && ad.Valid() && ad.n == val.n && subvt.Length == val.n && sub == subvt[..] &&
    Square(m, val.n) && Nonneg(m) && forall i, j :: 0 <= i < val.n && 0 <= j < val.n ==> ad.a[i, j] == m[i][j]
  }

  /** explore itself, on the matrix m and the marks sub. */
  method Walk(val: IntVector, ad: IntMatrix, subvt: array<bool>, vt: nat, ghost m: Mat, ghost sub: seq<bool>)
    requires Walking(val, ad, subvt, m, sub) && vt < val.n && NonnegVec(val.v[..])
    modifies val.v
    ensures val.v[..] == Explored(m, sub, old(val.v[..]), vt)
    decreases Zeros(val.v[..], val.n), 2
  {
    if val.v[vt] == 0 {
      ghost var v0 := val.v[..];
      var i := 0;
      while i < val.n
        invariant 0 <= i <= val.n && NonnegVec(val.v[..])
        invariant ExploredFrom(m, sub, v0, vt, 0) == ExploredFrom(m, sub, val.v[..], vt, i)
        invariant Zeros(val.v[..], val.n) + (if val.v[vt] == 0 then 0 else 1) <= Zeros(v0, val.n)
      {
        Visit(val, ad, subvt, vt, i, m, sub);
        i := i + 1;
      }
    }
  }

  /** One pass of the loop of explore: a neighbour i of vt on subvt adds its count to val[vt] and is explored. */
  method Visit(val: IntVector, ad: IntMatrix, subvt: array<bool>, vt: nat, i: nat, ghost m: Mat, ghost sub: seq<bool>)
    requires Walking(val, ad, subvt, m, sub) && vt < val.n && i < val.n && NonnegVec(val.v[..])
    modifies val.v
    ensures NonnegVec(val.v[..])
    ensures ExploredFrom(m, sub, old(val.v[..]), vt, i) == ExploredFrom(m, sub, val.v[..], vt, i + 1)
    ensures Zeros(val.v[..], val.n) + (if val.v[vt] == 0 then 0 else 1) <=
      old(Zeros(val.v[..], val.n) + if val.v[vt] == 0 then 0 else 1)
    decreases Zeros(val.v[..], val.n) + (if val.v[vt] == 0 then 0 else 1), 1
  {
    if subvt[i] && ad.a[i, vt] != 0 {
      Descend(val, ad, subvt, vt, i, m, sub);
      ExploredFromNext(m, sub, old(val.v[..]), vt, i);
    }
  }

  /** The neighbour case of Visit: the count added to val[vt], then the walk from i. */
  method Descend(val: IntVector, ad: IntMatrix, subvt: array<bool>, vt: nat, i: nat, ghost m: Mat, ghost sub: seq<bool>)
    requires Walking(val, ad, subvt, m, sub) && vt < val.n && i < val.n && NonnegVec(val.v[..])
    requires sub[i] && m[i][vt] != 0
    modifies val.v
    ensures NonnegVec(val.v[..]) && val.v[vt] != 0
    ensures val.v[..] == Explored(m, sub, old(val.v[..][vt := val.v[vt] + m[i][vt]]), i)
    ensures Zeros(val.v[..], val.n) + 1 <= old(Zeros(val.v[..], val.n) + if val.v[vt] == 0 then 0 else 1)
    decreases Zeros(val.v[..], val.n) + (if val.v[vt] == 0 then 0 else 1), 0
  {
    ghost var pre := val.v[..];
    ghost var v1 := pre[vt := pre[vt] + m[i][vt]];
    ZerosSet(pre, vt, pre[vt] + m[i][vt], val.n);
    val.v[vt] := val.v[vt] + ad.a[i, vt];
    assert val.v[..] == v1;
    Walk(val, ad, subvt, i, m, sub);
  }

  /** findConnectedComp: explore from the first vertex left, which the caller makes sure exists. */
  method FindConnectedComp(val: IntVector, ad: IntMatrix, subvt: array<bool>)
    requires val.Valid() && ad.Valid() && ad.n == val.n && subvt.Length == val.n
    requires Nonneg(ad.Entries()) && NonnegVec(val.Contents()) && FirstFrom(subvt[..], 0) < val.n
    modifies val.v
    ensures val.Contents() == Explored(ad.Entries(), subvt[..], old(val.Contents()), FirstFrom(subvt[..], 0))
  {
    var i := 0;
    while !subvt[i]
      invariant i <= FirstFrom(subvt[..], 0)
      decreases FirstFrom(subvt[..], 0) - i
    {
      i := i + 1;
    }
    Explore(val, ad, subvt, i);
  }

  /** notEmpty(v): whether some entry is marked. */
  method NotEmpty(v: array<bool>) returns (b: bool)
    ensures b == (exists i :: 0 <= i < v.Length && v[i])
    ensures b == (FirstFrom(v[..], 0) < v.Length)
  {
    var i := 0;
    while i < v.Length
      invariant 0 <= i <= v.Length && forall j :: 0 <= j < i ==> !v[j]
    {
      if v[i] {
        return true;
      }
      i := i + 1;
    }
    return false;
  }

  /**
   * isForest(s): the touched vertices and the adjacency matrix of the marked edges,
   * then the rounds; as written, or with each component tested on its own.
   */
  method IsForest(g: GM.GraphMap, s: array<bool>, corrected: bool) returns (b: bool)
    requires g.Valid() && ForestInput(g.State(), s[..])
    ensures b == Forest(g.State(), s[..], corrected)
  {
    ghost var st := g.State();
    var adj, subvt, conval := Prepare(g, s);
    ForestStart(st, s[..]);
    b := Components(adj, subvt, conval, corrected);
  }

  /** The set-up of isForest: the adjacency matrix, the touched vertices and a zero vector. */
  method Prepare(g: GM.GraphMap, s: array<bool>) returns (adj: IntMatrix, subvt: array<bool>, conval: IntVector)
    requires g.Valid() && ForestInput(g.State(), s[..])
    ensures fresh(subvt) && fresh(conval.v) && adj.Valid() && conval.Valid()
    ensures adj.n == conval.n == subvt.Length == g.vertices
    ensures adj.Entries() == AdjacencyOf(g.State(), s[..]) && subvt[..] == SubVertices(g.State(), s[..])
    ensures conval.Contents() == seq(g.vertices, _ => 0)
  {
    var nv := g.vertices;
    subvt := Touch(g, s);
    adj := new IntMatrix(nv);
    Fill(g, s, adj);
    conval := new IntVector(nv);
  }

  /** The loop of isForest: a round per connected component until no vertex is left or one fails. */
  method Components(adj: IntMatrix, subvt: array<bool>, conval: IntVector, corrected: bool) returns (b: bool)
    requires adj.Valid() && conval.Valid() && adj.n == conval.n && subvt.Length == conval.n
    requires Adjacency(adj.Entries(), conval.n) && NonnegVec(conval.Contents())
    requires Exploring(adj.Entries(), subvt[..], conval.Contents())
    modifies subvt, conval.v
    ensures b == Rounds(old(adj.Entries()), old(subvt[..]), old(conval.Contents()), 0, 0, corrected)
  {
    ghost var ad := adj.Entries();
    ghost var goal := Rounds(ad, subvt[..], conval.Contents(), 0, 0, corrected);
    var prevS: int, prevC: int := 0, 0;
    while true
      invariant NonnegVec(conval.Contents()) && Exploring(ad, subvt[..], conval.Contents())
      invariant Rounds(ad, subvt[..], conval.Contents(), prevS, prevC, corrected) == goal
      decreases Trues(subvt[..], subvt.Length)
    {
      var ne := NotEmpty(subvt);
      if !ne {
        return true;
      }
      ghost var sub0, val0 := subvt[..], conval.Contents();
      var sum, cnt := Round(adj, subvt, conval);
      RoundsNext(ad, sub0, val0, prevS, prevC, corrected, conval.Contents(), sum, cnt);
      if (if corrected then sum - prevS >= 2 * (cnt - prevC) else sum >= 2 * cnt) {
        return false;
      }
      prevS, prevC := sum, cnt;
    }
  }

  /**
   * One round of isForest: the component of the first vertex left explored, its
   * vertices taken off subvt, and the sum and the count of nonzero entries of the vector.
   */
  method Round(adj: IntMatrix, subvt: array<bool>, conval: IntVector) returns (sum: int, cnt: nat)
    requires adj.Valid() && conval.Valid() && adj.n == conval.n && subvt.Length == conval.n
    requires Nonneg(adj.Entries()) && NonnegVec(conval.Contents()) && FirstFrom(subvt[..], 0) < conval.n
    modifies subvt, conval.v
    ensures conval.Contents() == Explored(adj.Entries(), old(subvt[..]), old(conval.Contents()), FirstFrom(old(subvt[..]), 0))
    ensures subvt[..] == Cleared(old(subvt[..]), conval.Contents())
    ensures sum == Total(conval.Contents(), conval.n) && cnt == RowCount(conval.Contents(), conval.n)
  {
    FindConnectedComp(conval, adj, subvt);
    Clear(subvt, conval);
    sum := conval.SumOfEntries();
    cnt := conval.CountVectorEntries();
  }

  /** subvt of isForest: the endpoints of the marked edges. */
  method Touch(g: GM.GraphMap, s: array<bool>) returns (subvt: array<bool>)
    requires g.Valid() && ForestInput(g.State(), s[..])
    ensures fresh(subvt) && subvt[..] == SubVertices(g.State(), s[..])
  {
    ghost var st := g.State();
    var nv := g.vertices;
    subvt := new bool[nv];
    var i := 0;
    while i < nv
      invariant 0 <= i <= nv && forall x :: 0 <= x < i ==> !subvt[x]
    {
      subvt[i] := false;
      i := i + 1;
    }
    i := 0;
    while i < g.edges
      invariant 0 <= i <= g.edges && forall x :: 0 <= x < nv ==> subvt[x] == Touched(st, s[..], x, i)
    {
      if s[i] {
        subvt[g.start[i]] := true;
        subvt[g.end[i]] := true;
      }
      i := i + 1;
    }
  }

  /** The marks of isForest taken off the vertices the walk set. */
  method Clear(subvt: array<bool>, val: IntVector)
    requires val.Valid() && subvt.Length == val.n
    modifies subvt
    ensures subvt[..] == Cleared(old(subvt[..]), val.Contents())
  {
    var i := 0;
    while i < subvt.Length
      invariant 0 <= i <= subvt.Length
      invariant forall x :: 0 <= x < subvt.Length ==> subvt[x] == (old(subvt[x]) && (x >= i || val.v[x] == 0))
    {
      if val.v[i] != 0 {
        subvt[i] := false;
      }
      i := i + 1;
    }
  }

  /** The adjacency matrix of isForest: each marked edge counted at (start, end) and at (end, start). */
  method Fill(g: GM.GraphMap, s: array<bool>, adj: IntMatrix)
    requires g.Valid() && ForestInput(g.State(), s[..])
    requires adj.Valid() && adj.n == g.vertices && adj.Entries() == Zero(adj.n)
    modifies adj.a
    ensures adj.Entries() == AdjacencyOf(g.State(), s[..])
  {
    ghost var st := g.State();
    var nv := adj.n;
    adj.RowsAt(nv);
    assert forall x, y :: 0 <= x < nv && 0 <= y < nv ==> adj.a[x, y] == Zero(nv)[x][y];
    var i := 0;
    while i < g.edges
      invariant 0 <= i <= g.edges
      invariant forall x, y :: 0 <= x < nv && 0 <= y < nv ==> adj.a[x, y] == EdgeCount(st, s[..], x, y, i)
    {
      if s[i] {
        var a, e := g.start[i], g.end[i];
        adj.a[a, e] := adj.a[a, e] + 1;
        adj.a[e, a] := adj.a[e, a] + 1;
      }
      i := i + 1;
    }
    adj.RowsAt(nv);
    assert forall x :: 0 <= x < nv ==> adj.Entries()[x] == AdjacencyOf(st, s[..])[x];
  }
}
