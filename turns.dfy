/**
 * Illegal turns of a train track (TrainTrack.java): a turn (a, b) is illegal when the
 * lock-step iterates of the derivative map mapd send a and b to the same letter.
 * isIllegalRec walks the iterates and marks every visited pair in a table of (2E)^2
 * entries, so the walk ends; findIllegalTurn scans the turns inside the images for
 * the one that becomes degenerate soonest.
 */
module Turns {
  import opened Wrappers
  import opened Letters
  import P = Paths
  import G = Graphs
  import GM = GraphMaps

  /** charToCoord: a forward letter at its index, a backward one E further. */
  function CharToCoord(g: G.Graph, c: Sym): int
  {
    if c.inv then g.edges + c.index else c.index
  }

  /** On letters of edges in use, charToCoord is a bijection onto 0..2E-1. */
  lemma CoordInjective(g: G.Graph, a: Sym, b: Sym)
    requires a.index < g.edges && b.index < g.edges
    ensures 0 <= CharToCoord(g, a) < 2 * g.edges
    ensures CharToCoord(g, a) == CharToCoord(g, b) <==> a == b
  {
  }

  /** The coordinate pairs of a (2E) x (2E) table. */
  function Pairs(n: nat): set<(int, int)>
  {
    set i, j | 0 <= i < n && 0 <= j < n :: (i, j)
  }

  /** The k-th iterate of mapd, failing once some step fails. */
  function Iter(g: G.Graph, c: Sym, k: nat): Result<Sym>
    requires G.Valid(g)
    decreases k
  {
    if k == 0 then Ok(c)
    else match G.Mapd(g, c)
      case Ok(c') => Iter(g, c', k - 1)
      case Err(m) => Err(m)
  }

  /**
   * isIllegalRec: the depth at which the iterates of a and b coincide, counted from
   * depth; 0 once a pair repeats, a coordinate falls outside the table, or mapd fails.
   * Every visited pair is marked in both orders.
   */
  function IllegalRec(g: G.Graph, legal: set<(int, int)>, a: Sym, b: Sym, depth: int): int
    requires G.Valid(g)
    decreases |Pairs(2 * g.edges) - legal|
  {
    if a == b then depth
    else
      var ca, cb := CharToCoord(g, a), CharToCoord(g, b);
      if !(0 <= ca < 2 * g.edges && 0 <= cb < 2 * g.edges) then 0
      else if (ca, cb) in legal then 0
      else
        var legal' := legal + {(ca, cb), (cb, ca)};
        Shrinks(Pairs(2 * g.edges), legal, legal', (ca, cb));
        match (G.Mapd(g, a), G.Mapd(g, b))
        case (Ok(a'), Ok(b')) => IllegalRec(g, legal', a', b', depth + 1)
        case _ => 0
  }

  /** Marking a pair of the table that was not marked leaves fewer unmarked pairs. */
  lemma Shrinks(all: set<(int, int)>, legal: set<(int, int)>, legal': set<(int, int)>, x: (int, int))
    requires x in all && x !in legal && legal + {x} <= legal'
    ensures |all - legal'| < |all - legal|
  {
    var rest := (all - legal) - {x};
    assert all - legal == rest + {x};
    SubsetCard(all - legal', rest);
  }

  lemma {:induction false} SubsetCard<T>(a: set<T>, b: set<T>)
    requires a <= b
    ensures |a| <= |b|
    decreases |b|
  {
    if a != {} {
      var x :| x in a;
      SubsetCard(a - {x}, b - {x});
    }
  }

  /** isIllegal(a, b): the walk from a fresh table, starting at depth 1. */
  function Illegal(g: G.Graph, a: Sym, b: Sym): int
    requires G.Valid(g)
  {
    IllegalRec(g, {}, a, b, 1)
  }

  /**
   * A nonzero result is the first depth at which the iterates coincide: the iterates
   * of a and b agree after d - depth steps and differ (or fail) before.
   */
  lemma {:induction false} IllegalRecMeans(g: G.Graph, legal: set<(int, int)>, a: Sym, b: Sym, depth: int)
    requires G.Valid(g) && depth >= 1
    ensures var d := IllegalRec(g, legal, a, b, depth);
      d != 0 ==> d >= depth && Iter(g, a, d - depth).Ok? && Iter(g, a, d - depth) == Iter(g, b, d - depth) &&
                 forall k :: 0 <= k < d - depth ==> Iter(g, a, k) != Iter(g, b, k) || Iter(g, a, k).Err?
    decreases |Pairs(2 * g.edges) - legal|
  {
    if a != b {
      var ca, cb := CharToCoord(g, a), CharToCoord(g, b);
      if 0 <= ca < 2 * g.edges && 0 <= cb < 2 * g.edges && (ca, cb) !in legal {
        var legal' := legal + {(ca, cb), (cb, ca)};
        Shrinks(Pairs(2 * g.edges), legal, legal', (ca, cb));
        if G.Mapd(g, a).Ok? && G.Mapd(g, b).Ok? {
          var a', b' := G.Mapd(g, a).value, G.Mapd(g, b).value;
          IllegalRecMeans(g, legal', a', b', depth + 1);
          var d := IllegalRec(g, legal', a', b', depth + 1);
          assert d == IllegalRec(g, legal, a, b, depth);
          if d != 0 {
            var n := d - depth - 1;
            IterStep(g, a, a', n);
            IterStep(g, b, b', n);
            forall k | 0 <= k < d - depth ensures Iter(g, a, k) != Iter(g, b, k) || Iter(g, a, k).Err? {
              if k > 0 {
                IterStep(g, a, a', k - 1);
                IterStep(g, b, b', k - 1);
              }
            }
          }
        }
      }
    }
  }

  /** One step of mapd, then k more. */
  lemma IterStep(g: G.Graph, c: Sym, c': Sym, k: nat)
    requires G.Valid(g) && G.Mapd(g, c) == Ok(c')
    ensures Iter(g, c, k + 1) == Iter(g, c', k)
  {
  }

  /** A nonzero result never exceeds the starting depth plus the number of unmarked pairs. */
  lemma {:induction false} IllegalRecBound(g: G.Graph, legal: set<(int, int)>, a: Sym, b: Sym, depth: int)
    requires G.Valid(g)
    ensures var d := IllegalRec(g, legal, a, b, depth);
      d == 0 || depth <= d <= depth + |Pairs(2 * g.edges) - legal|
    decreases |Pairs(2 * g.edges) - legal|
  {
    if a != b {
      var ca, cb := CharToCoord(g, a), CharToCoord(g, b);
      if 0 <= ca < 2 * g.edges && 0 <= cb < 2 * g.edges && (ca, cb) !in legal {
        var legal' := legal + {(ca, cb), (cb, ca)};
        Shrinks(Pairs(2 * g.edges), legal, legal', (ca, cb));
        if G.Mapd(g, a).Ok? && G.Mapd(g, b).Ok? {
          IllegalRecBound(g, legal', G.Mapd(g, a).value, G.Mapd(g, b).value, depth + 1);
        }
      }
    }
  }

  /** The pairs (r, j) for j below k. */
  function Row(r: int, k: nat): set<(int, int)>
  {
    set j | 0 <= j < k :: (r, j)
  }

  lemma {:induction false} RowCard(r: int, k: nat)
    ensures |Row(r, k)| == k
  {
    if k > 0 {
      RowCard(r, k - 1);
      assert Row(r, k) == Row(r, k - 1) + {(r, k - 1)};
    }
  }

  /** The pairs with first coordinate below m and second below n. */
  function Block(m: nat, n: nat): set<(int, int)>
  {
    set i, j | 0 <= i < m && 0 <= j < n :: (i, j)
  }

  lemma {:induction false} BlockCard(m: nat, n: nat)
    ensures |Block(m, n)| == m * n
    decreases m, 1
  {
    if m > 0 {
      BlockCardStep(m, n);
    }
  }

  lemma {:induction false} BlockCardStep(m: nat, n: nat)
    requires m > 0
    ensures |Block(m, n)| == m * n
    decreases m, 0
  {
    BlockCard(m - 1, n);
    RowCard(m - 1, n);
    BlockSplit(m, n);
    assert (m - 1) * n + n == m * n;
  }

  /** A block is the block one row shorter and its last row, the two disjoint. */
  lemma BlockSplit(m: nat, n: nat)
    requires m > 0
    ensures Block(m, n) == Block(m - 1, n) + Row(m - 1, n)
    ensures Block(m - 1, n) !! Row(m - 1, n)
  {
  }

  /** The table of isIllegal has (2E)^2 entries. */
  lemma PairsCard(n: nat)
    ensures |Pairs(n)| == n * n
  {
    BlockCard(n, n);
    assert Pairs(n) == Block(n, n);
  }

  /**
   * isIllegal returns 1 for a turn of one letter twice, and otherwise either 0 or a
   * depth of at most 4E^2 + 1, which lies below the threshold 8E^2 of findIllegalTurn.
   */
  lemma IllegalBound(g: G.Graph, a: Sym, b: Sym)
    requires G.Valid(g)
    ensures a == b ==> Illegal(g, a, b) == 1
    ensures Illegal(g, a, b) == 0 || 1 <= Illegal(g, a, b) <= 4 * g.edges * g.edges + 1
    ensures g.edges > 0 ==> Illegal(g, a, b) < 8 * g.edges * g.edges
  {
    var e := g.edges;
    IllegalRecBound(g, {}, a, b, 1);
    PairsCard(2 * e);
    assert Pairs(2 * e) - {} == Pairs(2 * e);
    Quadruple(e);
  }

  /** (2e)^2 == 4e^2, and 4e^2 + 1 < 8e^2 for e >= 1. */
  lemma Quadruple(e: nat)
    ensures (2 * e) * (2 * e) == 4 * e * e
    ensures e > 0 ==> 4 * e * e + 1 < 8 * e * e
  {
    var sq := e * e;
    assert (2 * e) * (2 * e) == 4 * sq;
    if e > 0 {
      assert sq >= e;
    }
  }

  /** The pairs marked in the table. */
  ghost function Marked(legal: array2<bool>): set<(int, int)>
    reads legal
  {
    set i, j | 0 <= i < legal.Length0 && 0 <= j < legal.Length1 && legal[i, j] :: (i, j)
  }

  /** isIllegalRec on the table the source marks. */
  method IsIllegalRec(g: GM.GraphMap, legal: array2<bool>, a: Sym, b: Sym, depth: int) returns (d: int)
    requires g.Valid() && legal.Length0 == 2 * g.edges && legal.Length1 == 2 * g.edges
    modifies legal
    ensures d == IllegalRec(g.State(), old(Marked(legal)), a, b, depth)
    decreases |Pairs(2 * g.edges) - Marked(legal)|
  {
    if a == b {
      return depth;
    }
    var ca, cb := CharToCoord(g.State(), a), CharToCoord(g.State(), b);
    if !(0 <= ca < 2 * g.edges && 0 <= cb < 2 * g.edges) {
      return 0;
    }
    if legal[ca, cb] {
      return 0;
    }
    ghost var before := Marked(legal);
    Mark(legal, ca, cb);
    Shrinks(Pairs(2 * g.edges), before, Marked(legal), (ca, cb));
    var ma, mb := G.Mapd(g.State(), a), G.Mapd(g.State(), b);
    if ma.Err? || mb.Err? {
      return 0;
    }
    d := IsIllegalRec(g, legal, ma.value, mb.value, depth + 1);
  }

  /** The marking step of isIllegalRec: the turn recorded in both orders. */
  method Mark(legal: array2<bool>, ca: int, cb: int)
    requires 0 <= ca < legal.Length0 && 0 <= cb < legal.Length1 && 0 <= cb < legal.Length0 && 0 <= ca < legal.Length1
    modifies legal
    ensures Marked(legal) == old(Marked(legal)) + {(ca, cb), (cb, ca)}
  {
    legal[ca, cb] := true;
    legal[cb, ca] := true;
  }

  /** isIllegal: a fresh table of (2E)^2 unmarked entries, then the walk from depth 1. */
  method IsIllegal(g: GM.GraphMap, a: Sym, b: Sym) returns (d: int)
    requires g.Valid()
    ensures d == Illegal(g.State(), a, b)
  {
    var n := 2 * g.edges;
    var legal := new bool[n, n];
    var i := 0;
    while i < n
      invariant 0 <= i <= n && forall r, q :: 0 <= r < i && 0 <= q < n ==> !legal[r, q]
    {
      var j := 0;
      while j < n
        invariant 0 <= j <= n && forall r, q :: 0 <= r < n && 0 <= q < n && (r < i || (r == i && q < j)) ==> !legal[r, q]
      {
        legal[i, j] := false;
        j := j + 1;
      }
      i := i + 1;
    }
    assert Marked(legal) == {};
    d := IsIllegalRec(g, legal, a, b, 1);
  }

  // ---- findIllegalTurn ----

  /** Java's int: a value taken modulo 2^32 into -2^31..2^31-1. */
  function Int32(x: int): int
  {
    (x + 0x8000_0000) % 0x1_0000_0000 - 0x8000_0000
  }

  /** The starting bound of findIllegalTurn, 8E^2 computed in int arithmetic. */
  function Threshold(g: G.Graph): int
  {
    Int32(8 * g.edges * g.edges)
  }

  /** A turn position: the letters j and j + 1 of the image of edge i. */
  predicate IsTurn(g: G.Graph, i: int, j: int)
    requires G.Valid(g)
  {
    0 <= i < g.edges && 0 <= j && j + 1 < |g.im[i]|
  }

  /** The value isIllegal gives the turn (inverse of im[i][j], im[i][j+1]). */
  function Depth(g: G.Graph, i: int, j: int): int
    requires G.Valid(g) && IsTurn(g, i, j)
  {
    Illegal(g, Inv(g.im[i][j]), g.im[i][j + 1])
  }

  /** A turn whose depth counts for findIllegalTurn. */
  predicate Counts(g: G.Graph, i: int, j: int)
    requires G.Valid(g)
  {
    IsTurn(g, i, j) && 0 < Depth(g, i, j) < Threshold(g)
  }

  /** Position (i, j) comes strictly before (k, l) in the scan. */
  predicate Before(i: int, j: int, k: int, l: int)
  {
    i < k || (i == k && j < l)
  }

  /** The answer of findIllegalTurn is the best turn: least depth, then earliest in the scan. */
  ghost predicate Best(g: G.Graph, i: int, j: int)
    requires G.Valid(g)
  {
    Counts(g, i, j) &&
    forall k, l :: Counts(g, k, l) ==> Depth(g, i, j) < Depth(g, k, l) || (Depth(g, i, j) == Depth(g, k, l) && !Before(k, l, i, j))
  }

  /** The state of the scan after the positions before (i, j). */
  ghost predicate Scanning(g: G.Graph, i: int, j: int, r: Option<(int, int)>, dd: int)
    requires G.Valid(g)
  {
    (r.None? ==> dd == Threshold(g) && forall k, l :: Counts(g, k, l) ==> !Before(k, l, i, j)) &&
    (r.Some? ==>
       Counts(g, r.value.0, r.value.1) && Before(r.value.0, r.value.1, i, j) &&
       dd == Depth(g, r.value.0, r.value.1) &&
       forall k, l :: Counts(g, k, l) && Before(k, l, i, j) ==>
         dd < Depth(g, k, l) || (dd == Depth(g, k, l) && !Before(k, l, r.value.0, r.value.1)))
  }

  /** One turn of the scan: kept when its depth is positive and below the best so far. */
  method ScanTurn(g: GM.GraphMap, i: nat, j: nat, r: Option<(int, int)>, dd: int) returns (r': Option<(int, int)>, dd': int)
    requires g.Valid() && IsTurn(g.State(), i, j) && Scanning(g.State(), i, j, r, dd)
    ensures Scanning(g.State(), i, j + 1, r', dd')
  {
    ghost var s := g.State();
    var d1 := IsIllegal(g, Inv(g.im[i][j]), g.im[i][j + 1]);
    assert d1 == Depth(s, i, j);
    ScanStep(s, i, j, r, dd);
    r', dd' := r, dd;
    if 0 < d1 < dd {
      r', dd' := Some((i, j)), d1;
    }
  }

  /** Scanning one more turn keeps the scan state. */
  lemma ScanStep(s: G.Graph, i: int, j: int, r: Option<(int, int)>, dd: int)
    requires G.Valid(s) && IsTurn(s, i, j) && Scanning(s, i, j, r, dd)
    ensures var d1 := Depth(s, i, j);
      Scanning(s, i, j + 1, if 0 < d1 < dd then Some((i, j)) else r, if 0 < d1 < dd then d1 else dd)
  {
    var d1 := Depth(s, i, j);
    assert r.Some? ==> dd < Threshold(s);
    assert Counts(s, i, j) <==> 0 < d1 < Threshold(s);
    forall k, l | Counts(s, k, l) && Before(k, l, i, j + 1) && !Before(k, l, i, j) ensures k == i && l == j {
    }
  }

  /** The scan of the turns inside the image of edge i, from the state after the earlier images. */
  method ScanImage(g: GM.GraphMap, i: nat, r: Option<(int, int)>, dd: int) returns (r': Option<(int, int)>, dd': int)
    requires g.Valid() && i < g.edges && Scanning(g.State(), i, 0, r, dd)
    ensures Scanning(g.State(), i + 1, 0, r', dd')
  {
    ghost var s := g.State();
    r', dd' := r, dd;
    var w := g.im[i];
    var j := 0;
    while j < |w| - 1
      invariant 0 <= j <= if |w| > 0 then |w| - 1 else 0
      invariant Scanning(s, i, j, r', dd')
    {
      r', dd' := ScanTurn(g, i, j, r', dd');
      j := j + 1;
    }
    forall k, l | Counts(s, k, l) && Before(k, l, i + 1, 0) ensures Before(k, l, i, j) {
    }
  }

  /**
   * findIllegalTurn: the best turn (least depth below the threshold, then earliest),
   * or None when no turn counts. The source reports it in res[0] and res[1].
   */
  method FindIllegalTurn(g: GM.GraphMap) returns (r: Option<(int, int)>)
    requires g.Valid()
    ensures r.None? <==> forall k, l :: !Counts(g.State(), k, l)
    ensures r.Some? ==> Best(g.State(), r.value.0, r.value.1)
  {
    ghost var s := g.State();
    var dd := Int32(8 * g.edges * g.edges);
    r := None;
    var i := 0;
    while i < g.edges
      invariant 0 <= i <= g.edges && Scanning(s, i, 0, r, dd)
    {
      r, dd := ScanImage(g, i, r, dd);
      i := i + 1;
    }
    forall k, l | Counts(s, k, l) ensures Before(k, l, g.edges, 0) {
    }
  }

  /** isTrainTrack: no turn counts. */
  method IsTrainTrack(g: GM.GraphMap) returns (b: bool)
    requires g.Valid()
    ensures b <==> forall k, l :: !Counts(g.State(), k, l)
  {
    var r := FindIllegalTurn(g);
    b := r.None?;
  }

  /**
   * Below 16384 edges the threshold is 8E^2 itself, and then a turn counts exactly
   * when isIllegal gives it a positive depth: findIllegalTurn misses no illegal turn.
   */
  lemma CountsMeans(g: G.Graph, i: int, j: int)
    requires G.Valid(g) && g.edges < 16384 && IsTurn(g, i, j)
    ensures Threshold(g) == 8 * g.edges * g.edges
    ensures Counts(g, i, j) <==> Depth(g, i, j) > 0
  {
    SmallThreshold(g.edges);
    IllegalBound(g, Inv(g.im[i][j]), g.im[i][j + 1]);
  }

  /** Below 16384 the product 8e^2 fits in an int. */
  lemma SmallThreshold(e: nat)
    requires e < 16384
    ensures Int32(8 * e * e) == 8 * e * e
  {
    var sq := e * e;
    MulLeft(e, e, 16383);
    MulLeft(16383, e, 16383);
    assert sq <= e * 16383 <= 16383 * 16383;
    assert 8 * e * e == 8 * sq < 0x8000_0000;
  }

  lemma MulLeft(a: nat, b: nat, c: nat)
    requires b <= c
    ensures a * b <= a * c
  {
    assert a * c == a * b + a * (c - b);
  }
}
