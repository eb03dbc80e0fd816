/**
 * Dehn twists (DehnTwist.java): a surface is given by a boundary word, and a twist
 * along a loop changes the image of every edge the loop crosses. The twist is read
 * off the boundary: for each turn of the loop, the shorter arc of the boundary
 * between the two darts of the turn lists the edges crossed, and each of them gets
 * a copy of the loop (or of its inverse) added at the end where the arc meets it.
 */
module DehnTwists {
  import opened Wrappers
  import opened Letters
  import P = Paths
  import G = Graphs
  import GM = GraphMaps
  import Numerals
  import W = Words
  import R = Reading
  import B = Boundary
  import TZ = Tietze

  const BRA := '['
  const KET := ']'
  const INV := '~'
  const OutOfRange := "array index out of range"

  // ---- the input syntax ----

  /** The character normalize writes for c: brackets for parentheses, '~' for '-'. */
  function NormalChar(c: char): (d: char)
    ensures d != '(' && d != ')' && d != '-'
    ensures c != '(' && c != ')' && c != '-' ==> d == c
  {
    if c == '(' then BRA else if c == ')' then KET else if c == '-' then INV else c
  }

  /** normalize: '(' becomes '[', ')' becomes ']', '-' becomes '~'; nothing else changes. */
  function Normalize(s: string): (r: string)
    ensures |r| == |s|
    ensures forall i :: 0 <= i < |s| ==> r[i] != '(' && r[i] != ')' && r[i] != '-'
    ensures forall i :: 0 <= i < |s| && s[i] != '(' && s[i] != ')' && s[i] != '-' ==> r[i] == s[i]
  {
    seq(|s|, i requires 0 <= i < |s| => NormalChar(s[i]))
  }

  /** Normalizing twice is normalizing once. */
  lemma NormalizeIdempotent(s: string)
    ensures Normalize(Normalize(s)) == Normalize(s)
  {
  }

  /** xor of two booleans. */
  function Xor(a: bool, b: bool): (r: bool)
    ensures r == (a != b)
  {
    if a && b then false else if a || b then true else false
  }

  // ---- admissible twists ----

  /** The row of the turn table for letter c of a map with n edges: forward letters first, then inverse ones. */
  function Coord(n: nat, c: Sym): nat
  {
    c.index + if c.inv then n else 0
  }

  /** The i-th cyclic turn of the loop tw: the inverse of letter i, then letter i + 1. */
  function TurnAt(tw: P.Path, i: nat): (t: (Sym, Sym))
    requires i < |tw|
  {
    (Inv(tw[i]), tw[(i + 1) % |tw|])
  }

  /** The table cells of turn i. */
  function CellAt(n: nat, tw: P.Path, i: nat): (int, int)
    requires i < |tw|
  {
    (Coord(n, TurnAt(tw, i).0), Coord(n, TurnAt(tw, i).1))
  }

  /** Two cells name the same unordered pair. */
  predicate SameCell(p: (int, int), q: (int, int))
  {
    p == q || (p.1, p.0) == q
  }

  /** The cells of turn i lie in the 2n x 2n table. */
  predicate CellInRange(n: nat, tw: P.Path, i: nat)
    requires i < |tw|
  {
    CellAt(n, tw, i).0 < 2 * n && CellAt(n, tw, i).1 < 2 * n
  }

  /** Cell c names one of the first i turns. */
  predicate Seen(n: nat, tw: P.Path, i: nat, c: (int, int))
    requires i <= |tw|
  {
    exists m :: 0 <= m < i && SameCell(CellAt(n, tw, m), c)
  }

  /** Turn j repeats an earlier turn. */
  predicate Repeats(n: nat, tw: P.Path, j: nat)
    requires j < |tw|
  {
    Seen(n, tw, j, CellAt(n, tw, j))
  }

  /** A twist checkTwist accepts: every turn fits the table and no turn repeats an earlier one. */
  predicate Admissible(n: nat, tw: P.Path)
  {
    forall j :: 0 <= j < |tw| ==> CellInRange(n, tw, j) && !Repeats(n, tw, j)
  }

  /** One more turn seen. */
  lemma SeenNext(n: nat, tw: P.Path, i: nat)
    requires i < |tw|
    ensures forall c :: Seen(n, tw, i + 1, c) <==> Seen(n, tw, i, c) || SameCell(CellAt(n, tw, i), c)
  {
    forall c ensures Seen(n, tw, i + 1, c) <==> Seen(n, tw, i, c) || SameCell(CellAt(n, tw, i), c) {
      if Seen(n, tw, i + 1, c) {
        var m :| 0 <= m < i + 1 && SameCell(CellAt(n, tw, m), c);
        if m < i {
          assert Seen(n, tw, i, c);
        }
      }
    }
  }

  /** On letters of the n edges, a cell names its turn: two turns share a cell exactly when they are equal. */
  lemma CellsNameTurns(n: nat, tw: P.Path, i: nat, j: nat)
    requires i < |tw| && j < |tw| && P.LettersBelow(tw, n)
    ensures CellAt(n, tw, i) == CellAt(n, tw, j) <==> TurnAt(tw, i) == TurnAt(tw, j)
  {
    var a, b := TurnAt(tw, i), TurnAt(tw, j);
    assert tw[i].index < n && tw[(i + 1) % |tw|].index < n;
    assert tw[j].index < n && tw[(j + 1) % |tw|].index < n;
    if CellAt(n, tw, i) == CellAt(n, tw, j) {
      assert a.0.inv == b.0.inv && a.0.index == b.0.index;
      assert a.1.inv == b.1.inv && a.1.index == b.1.index;
    }
  }

  /** Cells of letters of the n edges lie in the table. */
  lemma CellsFit(n: nat, tw: P.Path, i: nat)
    requires i < |tw| && P.LettersBelow(tw, n)
    ensures CellInRange(n, tw, i)
  {
    assert tw[i].index < n && tw[(i + 1) % |tw|].index < n;
  }

  /** The message of a repeated turn: the turn's two labels. */
  function TurnString(tw: P.Path, j: nat): string
    requires j < |tw|
  {
    PathToString([TurnAt(tw, j).0, TurnAt(tw, j).1])
  }

  /** The verdict of checkTwist from turn i on: the first turn past the table or repeating an earlier one decides. */
  function CheckFrom(n: nat, tw: P.Path, i: nat): (r: Outcome)
    requires i <= |tw|
    decreases |tw| - i
  {
    if i == |tw| then Pass
    else if !CellInRange(n, tw, i) then Fail(OutOfRange)
    else if Repeats(n, tw, i) then Fail(TurnString(tw, i))
    else CheckFrom(n, tw, i + 1)
  }

  /** The verdict passes exactly on admissible twists, and a failure names an offending turn. */
  lemma {:induction false} CheckFromMeans(n: nat, tw: P.Path, i: nat)
    requires i <= |tw|
    ensures CheckFrom(n, tw, i).Pass? <==> forall j :: i <= j < |tw| ==> CellInRange(n, tw, j) && !Repeats(n, tw, j)
    ensures CheckFrom(n, tw, i).Fail? ==>
      (CheckFrom(n, tw, i).msg == OutOfRange && exists j :: i <= j < |tw| && !CellInRange(n, tw, j)) ||
      (exists j :: i <= j < |tw| && Repeats(n, tw, j) && CheckFrom(n, tw, i).msg == TurnString(tw, j))
    decreases |tw| - i
  {
    if i < |tw| && CellInRange(n, tw, i) && !Repeats(n, tw, i) {
      CheckFromMeans(n, tw, i + 1);
    }
  }

  /** checkTwist passes exactly on admissible twists, and otherwise names a turn past the table or a repeated turn. */
  lemma CheckAdmissible(n: nat, tw: P.Path)
    ensures CheckFrom(n, tw, 0).Pass? <==> Admissible(n, tw)
    ensures CheckFrom(n, tw, 0).Fail? ==>
      (CheckFrom(n, tw, 0).msg == OutOfRange && exists j :: 0 <= j < |tw| && !CellInRange(n, tw, j)) ||
      (exists j :: 0 <= j < |tw| && Repeats(n, tw, j) && CheckFrom(n, tw, 0).msg == TurnString(tw, j))
  {
    CheckFromMeans(n, tw, 0);
  }

  /**
   * checkTwist(n, tw): every cyclic turn of tw is marked, in both orders, in a
   * 2n x 2n table; a turn found marked already throws with its labels, and a letter
   * past the table throws an index error.
   */
  method CheckTwist(n: nat, tw: P.Path) returns (r: Outcome)
    ensures r == CheckFrom(n, tw, 0)
  {
    var flag := new bool[2 * n, 2 * n]((_, _) => false);
    var i := 0;
    while i < |tw|
      invariant 0 <= i <= |tw|
      invariant forall a, b :: 0 <= a < 2 * n && 0 <= b < 2 * n ==> (flag[a, b] <==> Seen(n, tw, i, (a, b)))
      invariant CheckFrom(n, tw, i) == CheckFrom(n, tw, 0)
    {
      var t1 := Inv(tw[i]);
      var t2 := tw[(i + 1) % |tw|];
      var k := t1.index + if t1.inv then n else 0;
      var l := t2.index + if t2.inv then n else 0;
      assert (k, l) == CellAt(n, tw, i);
      if k >= 2 * n || l >= 2 * n {
        assert !CellInRange(n, tw, i);
        return Fail(OutOfRange);
      }
      if flag[k, l] {
        assert Repeats(n, tw, i);
        return Fail(PathToString([t1, t2]));
      }
      Mark(flag, k, l);
      SeenNext(n, tw, i);
      i := i + 1;
    }
    r := Pass;
  }

  /** A turn marked in both orders. */
  method Mark(flag: array2<bool>, k: int, l: int)
    requires 0 <= k < flag.Length0 && 0 <= l < flag.Length1 && flag.Length0 == flag.Length1
    modifies flag
    ensures forall a, b :: 0 <= a < flag.Length0 && 0 <= b < flag.Length1 ==>
      flag[a, b] == (old(flag[a, b]) || SameCell((k, l), (a, b)))
  {
    flag[k, l] := true;
    flag[l, k] := true;
  }

  // ---- arcs of the boundary ----

  /** The first place of c in bd. */
  function First(bd: P.Path, c: Sym): (i: nat)
    requires c in bd
    ensures i < |bd| && bd[i] == c && c !in bd[..i]
  {
    if bd[0] == c then 0 else assert c in bd[1..]; 1 + First(bd[1..], c)
  }

  /** The forward cyclic distance from place i to place j among n places. */
  function Fwd(i: nat, j: nat, n: nat): (d: nat)
    requires i < n && j < n
    ensures d < n && (d == 0 <==> i == j)
  {
    if i <= j then j - i else j + n - i
  }

  /** The place after i in direction d among n places. */
  function Step(i: nat, d: int, n: nat): (k: nat)
    requires i < n
    ensures k < n
  {
    if d == 1 then (if i + 1 == n then 0 else i + 1) else (if i == 0 then n - 1 else i - 1)
  }

  /** The distance from i to j walking in direction d. */
  function Dist(i: nat, j: nat, d: int, n: nat): nat
    requires i < n && j < n
  {
    if d == 1 then Fwd(i, j, n) else Fwd(j, i, n)
  }

  /** A step towards j, from a place other than j, brings the walk one place closer. */
  lemma StepCloser(i: nat, j: nat, d: int, n: nat)
    requires i < n && j < n && i != j && (d == 1 || d == -1)
    ensures Dist(Step(i, d, n), j, d, n) == Dist(i, j, d, n) - 1
  {
  }

  /** Java's remainders on the non-negative sums the walk uses: up to 2n, x % n takes off n at most twice. */
  lemma ModOnce(x: int, n: nat)
    requires 0 <= x <= 2 * n && 0 < n
    ensures x % n == if x < n then x else if x < 2 * n then x - n else 0
  {
    if x == 2 * n {
      assert x == 2 * n + 0;
    } else if x >= n {
      assert x == 1 * n + (x - n);
    }
  }

  /** (j - i + n) % n is the forward distance, and (i + d + n) % n the next place. */
  lemma JavaArithmetic(i: nat, j: nat, d: int, n: nat)
    requires i < n && j < n && (d == 1 || d == -1)
    ensures (j - i + n) % n == Fwd(i, j, n)
    ensures (i + d + n) % n == Step(i, d, n)
  {
    ModOnce(j - i + n, n);
    ModOnce(i + d + n, n);
  }

  /** The letters of bd met walking from place i in direction d up to (not including) place j. */
  function ArcFrom(bd: P.Path, i: nat, j: nat, d: int): (a: P.Path)
    requires i < |bd| && j < |bd| && (d == 1 || d == -1)
    ensures |a| == Dist(i, j, d, |bd|)
    decreases Dist(i, j, d, |bd|)
  {
    if i == j then []
    else
      StepCloser(i, j, d, |bd|);
      [bd[i]] + ArcFrom(bd, Step(i, d, |bd|), j, d)
  }

  /** Walking forwards, the arc is the cyclic segment of bd from i. */
  lemma {:induction false} ForwardArc(bd: P.Path, i: nat, j: nat)
    requires i < |bd| && j < |bd|
    ensures ArcFrom(bd, i, j, 1) == (bd + bd)[i .. i + Fwd(i, j, |bd|)]
    decreases Fwd(i, j, |bd|)
  {
    if i != j {
      StepCloser(i, j, 1, |bd|);
      var k := Step(i, 1, |bd|);
      ForwardArc(bd, k, j);
      var f := Fwd(i, j, |bd|);
      if k == 0 {
        assert i == |bd| - 1;
        var s, t := (bd + bd)[i .. i + f], [bd[i]] + (bd + bd)[k .. k + f - 1];
        assert |s| == |t|;
        forall m | 0 <= m < |s| ensures s[m] == t[m] {
          if m > 0 {
            assert s[m] == bd[m - 1];
          }
        }
        assert s == t;
      } else {
        assert k == i + 1;
        assert (bd + bd)[i .. i + f] == [bd[i]] + (bd + bd)[k .. k + f - 1];
      }
    }
  }

  /** The span of a turn on the boundary: the letters crossed, the length and the direction. */
  datatype Span = Span(inter: P.Path, len: nat, dir: int)

  /**
   * The shorter way round the boundary from the dart of start to the dart of end:
   * forwards when the forward distance is no longer than the backward one; an arc
   * starts one place on from a forward start letter (going forwards) or one place
   * back from an inverse one (going backwards), and likewise for the end.
   */
  function SpanOf(bd: P.Path, start: Sym, end: Sym): (s: Span)
    requires start in bd && end in bd
    ensures s.dir == 1 || s.dir == -1
    ensures s.len == 1 + if Fwd(First(bd, start), First(bd, end), |bd|) <= Fwd(First(bd, end), First(bd, start), |bd|)
      then Fwd(First(bd, start), First(bd, end), |bd|) else Fwd(First(bd, end), First(bd, start), |bd|)
  {
    var e := Ends(|bd|, First(bd, start), First(bd, end), start.inv, end.inv);
    Span(ArcFrom(bd, e.0, e.1, e.3), e.2, e.3)
  }

  /** The ends of the arc, its length and its direction, for darts at places i and j. */
  function Ends(n: nat, i: nat, j: nat, sinv: bool, einv: bool): (e: (nat, nat, nat, int))
    requires i < n && j < n
    ensures e.0 < n && e.1 < n && (e.3 == 1 || e.3 == -1)
  {
    if Fwd(i, j, n) <= Fwd(j, i, n) then
      ((if !sinv then Step(i, 1, n) else i), (if !einv then Step(j, 1, n) else j), Fwd(i, j, n) + 1, 1)
    else
      ((if sinv then Step(i, -1, n) else i), (if einv then Step(j, -1, n) else j), Fwd(j, i, n) + 1, -1)
  }

  /** An arc never goes all the way round: it crosses fewer letters than the boundary has. */
  lemma SpanShorter(bd: P.Path, start: Sym, end: Sym)
    requires start in bd && end in bd
    ensures |SpanOf(bd, start, end).inter| < |bd|
    ensures SpanOf(bd, start, end).len <= |bd| / 2 + 1
  {
  }

  /** The message of the index error when a scan runs off the end of a string of length n. */
  function IndexPast(n: nat): string
  {
    "string index out of range: " + Numerals.IntToString(n)
  }

  /** The first place of c in bd, scanning from the start; the scan throws when c does not occur. */
  method Locate(bd: P.Path, c: Sym) returns (r: Result<nat>)
    ensures r.Ok? <==> c in bd
    ensures r.Err? ==> r.msg == IndexPast(|bd|)
    ensures r.Ok? ==> r.value == First(bd, c)
  {
    var i := 0;
    while i < |bd| && bd[i] != c
      invariant 0 <= i <= |bd| && c !in bd[..i]
    {
      assert bd[..i + 1] == bd[..i] + [bd[i]];
      i := i + 1;
    }
    if i == |bd| {
      assert bd[..i] == bd;
      return Err(IndexPast(|bd|));
    }
    r := Ok(i);
  }

  /** findintersections(bd, start, end, res): the span of the turn, throwing when a letter is not on the boundary. */
  method FindIntersections(bd: P.Path, start: Sym, end: Sym) returns (r: Result<Span>)
    ensures r.Ok? <==> start in bd && end in bd
    ensures r.Ok? ==> r.value == SpanOf(bd, start, end)
    ensures r.Err? ==> r.msg == IndexPast(|bd|)
  {
    var li := Locate(bd, start);
    if li.Err? {
      return Err(li.msg);
    }
    var lj := Locate(bd, end);
    if lj.Err? {
      return Err(lj.msg);
    }
    var i, j, len, dir := Orient(|bd|, li.value, lj.value, start.inv, end.inv);
    var inter := Walk(bd, i, j, dir);
    r := Ok(Span(inter, len, dir));
  }

  /** The choice of direction in findintersections, with Java's remainders. */
  method Orient(n: nat, i0: nat, j0: nat, sinv: bool, einv: bool) returns (i: nat, j: nat, len: nat, dir: int)
    requires i0 < n && j0 < n
    ensures (i, j, len, dir) == Ends(n, i0, j0, sinv, einv)
  {
    i, j := i0, j0;
    ModOnce(j - i + n, n);
    ModOnce(i - j + n, n);
    if (j - i + n) % n <= (i - j + n) % n {
      len, dir := (j - i + n) % n + 1, 1;
      ModOnce(i + 1, n);
      ModOnce(j + 1, n);
      if !sinv {
        i := (i + 1) % n;
      }
      if !einv {
        j := (j + 1) % n;
      }
    } else {
      len, dir := (i - j + n) % n + 1, -1;
      ModOnce(i - 1 + n, n);
      ModOnce(j - 1 + n, n);
      if sinv {
        i := (i - 1 + n) % n;
      }
      if einv {
        j := (j - 1 + n) % n;
      }
    }
  }

  /** The letters of bd met stepping cyclically by d from i until j is reached. */
  method Walk(bd: P.Path, i0: nat, j: nat, d: int) returns (inter: P.Path)
    requires i0 < |bd| && j < |bd| && (d == 1 || d == -1)
    ensures inter == ArcFrom(bd, i0, j, d)
  {
    var n := |bd|;
    var i := i0;
    inter := [];
    while i != j
      invariant 0 <= i < n && inter + ArcFrom(bd, i, j, d) == ArcFrom(bd, i0, j, d)
      decreases Dist(i, j, d, n)
    {
      StepCloser(i, j, d, n);
      JavaArithmetic(i, j, d, n);
      inter := inter + [bd[i]];
      i := (i + d + n) % n;
    }
  }

  // ---- the arcs of a twist ----

  /** The cyclic conjugate of tw starting at letter i. */
  function Rotation(tw: P.Path, i: nat): (c: P.Path)
    requires i < |tw|
    ensures |c| == |tw| && P.RotatedBy(c, tw, i) && c[0] == tw[i]
  {
    P.ModBelow(i, |tw|);
    seq(|tw|, j requires 0 <= j < |tw| => tw[(i + j) % |tw|])
  }

  /** The rotation of the twist word starting at position i. */
  method RotationOf(tw: P.Path, i: nat) returns (c: P.Path)
    requires i < |tw|
    ensures c == Rotation(tw, i)
  {
    c := [];
    var j := 0;
    while j < |tw|
      invariant 0 <= j <= |tw| && c == Rotation(tw, i)[..j]
    {
      c := c + [tw[(i + j) % |tw|]];
      j := j + 1;
    }
  }

  /** The place before i on a cyclic word of length n. */
  function Prev(i: nat, n: nat): (k: nat)
    requires i < n
    ensures k < n
  {
    if i == 0 then n - 1 else i - 1
  }

  /**
   * The inverse of the conjugate at i starts with the inverse of the letter before i:
   * the arc of conjugate i belongs to the turn before it.
   */
  lemma RotationTurn(tw: P.Path, i: nat)
    requires i < |tw|
    ensures P.Reverse(Rotation(tw, i))[0] == TurnAt(tw, Prev(i, |tw|)).0
    ensures Rotation(tw, i)[0] == TurnAt(tw, Prev(i, |tw|)).1
  {
    var n := |tw|;
    var k := Prev(i, n);
    ModOnce(i + n - 1, n);
    ModOnce(k + 1, n);
  }

  /** What twist records for conjugate i: the arc of the turn, the conjugate and its inverse. */
  datatype Crossing = Crossing(span: Span, ctw: P.Path, ctwi: P.Path)

  /** The crossing of conjugate i, or None when a letter of its turn is not on the boundary. */
  function CrossingOf(bd: P.Path, tw: P.Path, i: nat): (r: Option<Crossing>)
    requires i < |tw|
    ensures r.Some? <==> TurnAt(tw, Prev(i, |tw|)).0 in bd && TurnAt(tw, Prev(i, |tw|)).1 in bd
    ensures r.Some? ==>
      r.value.span == SpanOf(bd, TurnAt(tw, Prev(i, |tw|)).0, TurnAt(tw, Prev(i, |tw|)).1) &&
      |r.value.ctw| == |tw| && r.value.ctwi == P.Reverse(r.value.ctw)
  {
    RotationTurn(tw, i);
    var c := Rotation(tw, i);
    var ci := P.Reverse(c);
    if ci[0] in bd && c[0] in bd then Some(Crossing(SpanOf(bd, ci[0], c[0]), c, ci)) else None
  }

  /** Every turn of tw has both letters on the boundary. */
  predicate OnBoundary(bd: P.Path, tw: P.Path)
  {
    forall i :: 0 <= i < |tw| ==> CrossingOf(bd, tw, i).Some?
  }

  /** The crossings of all conjugates, in the order of tw. */
  function Crossings(bd: P.Path, tw: P.Path): (xs: seq<Crossing>)
    requires OnBoundary(bd, tw)
    ensures |xs| == |tw|
  {
    seq(|tw|, i requires 0 <= i < |tw| => CrossingOf(bd, tw, i).value)
  }

  /** The first loop of twist: the conjugates, their inverses and their arcs, throwing when a letter is not on the boundary. */
  method FindCrossings(bd: P.Path, tw: P.Path) returns (r: Result<seq<Crossing>>)
    ensures r.Ok? <==> OnBoundary(bd, tw)
    ensures r.Ok? ==> r.value == Crossings(bd, tw)
    ensures r.Err? ==> r.msg == IndexPast(|bd|)
  {
    var xs := [];
    var i := 0;
    while i < |tw|
      invariant 0 <= i <= |tw| && |xs| == i
      invariant forall k :: 0 <= k < i ==> CrossingOf(bd, tw, k).Some? && xs[k] == CrossingOf(bd, tw, k).value
    {
      var c := RotationOf(tw, i);
      var ci := W.ReverseWord(c);
      RotationTurn(tw, i);
      var sp := FindIntersections(bd, ci[0], c[0]);
      if sp.Err? {
        assert CrossingOf(bd, tw, i).None?;
        return Err(sp.msg);
      }
      xs := xs + [Crossing(sp.value, c, ci)];
      i := i + 1;
    }
    r := Ok(xs);
  }

  /** The arc lengths l[] of the crossings. */
  function Lengths(xs: seq<Crossing>): (l: seq<int>)
    ensures |l| == |xs|
  {
    seq(|xs|, i requires 0 <= i < |xs| => xs[i].span.len)
  }

  // ---- the exchange sort of ind[] ----

  /** The entries of ks are positions below n. */
  predicate Positions(ks: seq<int>, n: nat)
  {
    forall k :: 0 <= k < |ks| ==> 0 <= ks[k] < n
  }

  /** The entries ind[i] and ind[j] exchanged when l puts them out of order. */
  function SwapIf(l: seq<int>, ind: seq<int>, i: nat, j: nat): (r: seq<int>)
    requires i < j < |ind| && Positions(ind, |l|)
    ensures |r| == |ind| && Positions(r, |l|)
  {
    if l[ind[i]] > l[ind[j]] then ind[i := ind[j]][j := ind[i]] else ind
  }

  /** The inner loop from j on: ind[i] compared with ind[j], ind[j + 1], ... */
  function Sweep(l: seq<int>, ind: seq<int>, i: nat, j: nat): (r: seq<int>)
    requires i < j <= |ind| && Positions(ind, |l|)
    ensures |r| == |ind| && Positions(r, |l|)
    decreases |ind| - j
  {
    if j == |ind| then ind else Sweep(l, SwapIf(l, ind, i, j), i, j + 1)
  }

  /** The outer loop from i on. */
  function Sweeps(l: seq<int>, ind: seq<int>, i: nat): (r: seq<int>)
    requires i <= |ind| && Positions(ind, |l|)
    ensures |r| == |ind| && Positions(r, |l|)
    decreases |ind| - i
  {
    if i + 1 >= |ind| then ind else Sweeps(l, Sweep(l, ind, i, i + 1), i + 1)
  }

  /** The places 0, 1, ..., n - 1. */
  function Range(n: nat): (r: seq<int>)
    ensures |r| == n && forall k :: 0 <= k < n ==> r[k] == k
  {
    seq(n, k => k)
  }

  /** The order in which twist adds the crossings: ind[] after the exchange sort. */
  function ExchangeSort(l: seq<int>): (r: seq<int>)
    ensures |r| == |l| && Positions(r, |l|)
  {
    Sweeps(l, Range(|l|), 0)
  }

  /** The entries from i on sorted by l. */
  predicate SortedFrom(l: seq<int>, ind: seq<int>, i: nat)
    requires Positions(ind, |l|)
  {
    forall a, b :: i <= a < b < |ind| ==> l[ind[a]] <= l[ind[b]]
  }

  /** The sort key of place a of ind: the length of the arc it names. */
  function Key(l: seq<int>, ind: seq<int>, a: int): int
    requires Positions(ind, |l|) && 0 <= a < |ind|
  {
    l[ind[a]]
  }

  /** The first i entries sorted by l, and each no greater than any later entry. */
  predicate Settled(l: seq<int>, ind: seq<int>, i: nat)
    requires Positions(ind, |l|) && i <= |ind|
  {
    forall a, b :: 0 <= a < b < |ind| && a < i ==> Key(l, ind, a) <= Key(l, ind, b)
  }

  /** ind[i] is no greater than the entries after it up to (not including) j. */
  predicate MinUpTo(l: seq<int>, ind: seq<int>, i: nat, j: nat)
    requires Positions(ind, |l|) && i < |ind| && j <= |ind|
  {
    forall k :: i < k < j ==> Key(l, ind, i) <= Key(l, ind, k)
  }

  /** One comparison of the inner loop keeps the entries. */
  lemma SwapIfKeeps(l: seq<int>, ind: seq<int>, i: nat, j: nat)
    requires i < j < |ind| && Positions(ind, |l|)
    ensures multiset(SwapIf(l, ind, i, j)) == multiset(ind)
  {
  }

  /** One comparison of the inner loop keeps the settled prefix and the minimum found so far. */
  lemma SwapIfStep(l: seq<int>, ind: seq<int>, i: nat, j: nat)
    requires i < j < |ind| && Positions(ind, |l|) && Settled(l, ind, i) && MinUpTo(l, ind, i, j)
    ensures Settled(l, SwapIf(l, ind, i, j), i) && MinUpTo(l, SwapIf(l, ind, i, j), i, j + 1)
  {
    var s := SwapIf(l, ind, i, j);
    forall a, b | 0 <= a < b < |s| && a < i
      ensures Key(l, s, a) <= Key(l, s, b)
    {
      assert Key(l, ind, a) <= Key(l, ind, b);
      assert Key(l, ind, a) <= Key(l, ind, i) && Key(l, ind, a) <= Key(l, ind, j);
    }
    forall k | i < k < j + 1
      ensures Key(l, s, i) <= Key(l, s, k)
    {
      if k < j {
        assert Key(l, ind, i) <= Key(l, ind, k);
      }
    }
  }

  /** A sweep keeps the entries. */
  lemma {:induction false} SweepKeeps(l: seq<int>, ind: seq<int>, i: nat, j: nat)
    requires i < j <= |ind| && Positions(ind, |l|)
    ensures multiset(Sweep(l, ind, i, j)) == multiset(ind)
    decreases |ind| - j
  {
    if j < |ind| {
      var s := SwapIf(l, ind, i, j);
      SwapIfKeeps(l, ind, i, j);
      SweepKeeps(l, s, i, j + 1);
      assert Sweep(l, ind, i, j) == Sweep(l, s, i, j + 1);
    }
  }

  /** A sweep keeps the settled prefix, and leaves at i an entry no greater than any after it. */
  lemma {:induction false} SweepMin(l: seq<int>, ind: seq<int>, i: nat, j: nat)
    requires i < j <= |ind| && Positions(ind, |l|) && Settled(l, ind, i) && MinUpTo(l, ind, i, j)
    ensures Settled(l, Sweep(l, ind, i, j), i + 1)
    decreases |ind| - j, 1
  {
    if j < |ind| {
      SwapIfStep(l, ind, i, j);
      SweepMinStep(l, ind, i, j);
    } else {
      MinSettles(l, ind, i);
    }
  }

  /** After one comparison, the rest of the sweep. */
  lemma {:induction false} SweepMinStep(l: seq<int>, ind: seq<int>, i: nat, j: nat)
    requires i < j < |ind| && Positions(ind, |l|)
    requires Settled(l, SwapIf(l, ind, i, j), i) && MinUpTo(l, SwapIf(l, ind, i, j), i, j + 1)
    ensures Settled(l, Sweep(l, ind, i, j), i + 1)
    decreases |ind| - j, 0
  {
    SweepUnfold(l, ind, i, j);
    SweepMin(l, SwapIf(l, ind, i, j), i, j + 1);
  }

  lemma SweepUnfold(l: seq<int>, ind: seq<int>, i: nat, j: nat)
    requires i < j < |ind| && Positions(ind, |l|)
    ensures Sweep(l, ind, i, j) == Sweep(l, SwapIf(l, ind, i, j), i, j + 1)
  {
  }

  /** A settled prefix followed by a minimum of the rest is one entry longer. */
  lemma MinSettles(l: seq<int>, ind: seq<int>, i: nat)
    requires i < |ind| && Positions(ind, |l|) && Settled(l, ind, i) && MinUpTo(l, ind, i, |ind|)
    ensures Settled(l, ind, i + 1)
  {
    forall a, b | 0 <= a < b < |ind| && a < i + 1
      ensures Key(l, ind, a) <= Key(l, ind, b)
    {
      if a == i {
        assert i < b < |ind|;
      }
    }
  }

  /** A prefix settled up to the last entry is the whole sequence sorted. */
  lemma SettledSorted(l: seq<int>, ind: seq<int>, i: nat)
    requires i <= |ind| <= i + 1 && Positions(ind, |l|) && Settled(l, ind, i)
    ensures SortedFrom(l, ind, 0)
  {
    forall a, b | 0 <= a < b < |ind|
      ensures l[ind[a]] <= l[ind[b]]
    {
      assert a < i && Key(l, ind, a) <= Key(l, ind, b);
    }
  }

  /** The outer loop from a settled prefix sorts the whole of ind. */
  lemma {:induction false} SweepsSort(l: seq<int>, ind: seq<int>, i: nat)
    requires i <= |ind| && Positions(ind, |l|) && Settled(l, ind, i)
    ensures SortedFrom(l, Sweeps(l, ind, i), 0)
    decreases |ind| - i, 1
  {
    if i + 1 < |ind| {
      SweepsSortStep(l, ind, i);
    } else {
      assert Sweeps(l, ind, i) == ind;
      SettledSorted(l, ind, i);
    }
  }

  /** One pass of the outer loop settles one more entry; the rest of the loop sorts what remains. */
  lemma {:induction false} SweepsSortStep(l: seq<int>, ind: seq<int>, i: nat)
    requires i + 1 < |ind| && Positions(ind, |l|) && Settled(l, ind, i)
    ensures SortedFrom(l, Sweeps(l, ind, i), 0)
    decreases |ind| - i, 0
  {
    var s := Sweep(l, ind, i, i + 1);
    SweepMin(l, ind, i, i + 1);
    SweepsSort(l, s, i + 1);
    assert Sweeps(l, ind, i) == Sweeps(l, s, i + 1);
  }

  lemma SweepsUnfold(l: seq<int>, ind: seq<int>, i: nat)
    requires i + 1 < |ind| && Positions(ind, |l|)
    ensures Sweeps(l, ind, i) == Sweeps(l, Sweep(l, ind, i, i + 1), i + 1)
  {
  }

  /** The outer loop keeps the entries. */
  lemma {:induction false} SweepsKeep(l: seq<int>, ind: seq<int>, i: nat)
    requires i <= |ind| && Positions(ind, |l|)
    ensures multiset(Sweeps(l, ind, i)) == multiset(ind)
    decreases |ind| - i
  {
    if i + 1 < |ind| {
      var s := Sweep(l, ind, i, i + 1);
      calc {
        multiset(Sweeps(l, ind, i));
        { SweepsUnfold(l, ind, i); }
        multiset(Sweeps(l, s, i + 1));
        { SweepsKeep(l, s, i + 1); }
        multiset(s);
        { SweepKeeps(l, ind, i, i + 1); }
        multiset(ind);
      }
    } else {
      assert Sweeps(l, ind, i) == ind;
    }
  }

  /** ind[] after the sort lists every crossing once, in order of arc length. */
  lemma ExchangeSortSorts(l: seq<int>)
    ensures multiset(ExchangeSort(l)) == multiset(Range(|l|))
    ensures SortedFrom(l, ExchangeSort(l), 0)
  {
    SweepsSort(l, Range(|l|), 0);
    SweepsKeep(l, Range(|l|), 0);
  }

  /** The nested loops of the sort on ind[], which starts as 0, 1, ..., tlen - 1. */
  method SortByLength(l: seq<int>) returns (ind: seq<int>)
    ensures ind == ExchangeSort(l)
    ensures multiset(ind) == multiset(Range(|l|)) && SortedFrom(l, ind, 0)
  {
    var a := new int[|l|](k => k);
    assert a[..] == Range(|l|);
    var i := 0;
    while i + 1 < |l|
      invariant 0 <= i <= |l| == a.Length
      invariant Positions(a[..], |l|) && Sweeps(l, a[..], i) == ExchangeSort(l)
    {
      SweepArray(l, a, i);
      i := i + 1;
    }
    ind := a[..];
    ExchangeSortSorts(l);
  }

  /** The inner pass of the selection sort: every later index whose key is smaller is exchanged into place i. */
  method SweepArray(l: seq<int>, a: array<int>, i: nat)
    requires i + 1 < a.Length == |l| && Positions(a[..], |l|)
    modifies a
    ensures a[..] == Sweep(l, old(a[..]), i, i + 1)
  {
    var j := i + 1;
    while j < |l|
      invariant i < j <= |l| && Positions(a[..], |l|)
      invariant Sweep(l, a[..], i, j) == Sweep(l, old(a[..]), i, i + 1)
    {
      ghost var before := a[..];
      SwapStep(l, a, i, j);
      assert Sweep(l, before, i, j) == Sweep(l, a[..], i, j + 1);
      j := j + 1;
    }
    assert Sweep(l, a[..], i, j) == a[..];
  }

  /** One comparison of the inner loop: a[i] and a[j] exchanged when l puts them out of order. */
  method SwapStep(l: seq<int>, a: array<int>, i: nat, j: nat)
    requires i < j < a.Length && Positions(a[..], |l|)
    modifies a
    ensures a[..] == SwapIf(l, old(a[..]), i, j)
  {
    if l[a[i]] > l[a[j]] {
      var h := a[i];
      a[i] := a[j];
      a[j] := h;
    }
  }

  // ---- the images ----

  /** The message of getIm past the edges in use. */
  const TooLarge := "index too large"

  /**
   * The image of an edge after the twist crosses it at letter c of an arc: an inverse
   * letter gets a loop appended, a forward one a loop prepended; the loop is the
   * conjugate or its inverse according to the direction of the arc and the sign.
   */
  function Bend(im: P.Path, c: Sym, x: Crossing, inv: bool): (r: P.Path)
    ensures |im| <= |r|
    ensures c.inv ==> r[..|im|] == im
    ensures !c.inv ==> r[|r| - |im|..] == im
  {
    if c.inv then im + (if Xor(inv, x.span.dir > 0) then x.ctw else x.ctwi)
    else (if Xor(inv, x.span.dir > 0) then x.ctwi else x.ctw) + im
  }

  /** The images after the letters of the arc of x from j on; getIm throws on a letter past the edges in use. */
  function BendFrom(ims: seq<P.Path>, edges: nat, x: Crossing, inv: bool, j: nat): (r: Result<seq<P.Path>>)
    requires edges <= |ims| && j <= |x.span.inter|
    ensures r.Ok? ==> |r.value| == |ims|
    ensures r.Err? ==> r.msg == TooLarge
    decreases |x.span.inter| - j
  {
    if j == |x.span.inter| then Ok(ims)
    else
      var c := x.span.inter[j];
      if c.index >= edges then Err(TooLarge)
      else BendFrom(ims[c.index := Bend(ims[c.index], c, x, inv)], edges, x, inv, j + 1)
  }

  /** The images after the crossings xs from i on, in order. */
  function BendAll(ims: seq<P.Path>, edges: nat, xs: seq<Crossing>, inv: bool, i: nat): (r: Result<seq<P.Path>>)
    requires edges <= |ims| && i <= |xs|
    ensures r.Ok? ==> |r.value| == |ims|
    ensures r.Err? ==> r.msg == TooLarge
    decreases |xs| - i
  {
    if i == |xs| then Ok(ims)
    else match BendFrom(ims, edges, xs[i], inv, 0)
      case Err(m) => Err(m)
      case Ok(ims') => BendAll(ims', edges, xs, inv, i + 1)
  }

  /** The crossings in the order of ind. */
  function Ordered(xs: seq<Crossing>, ind: seq<int>): (ys: seq<Crossing>)
    requires Positions(ind, |xs|)
    ensures |ys| == |ind|
  {
    seq(|ind|, k requires 0 <= k < |ind| => xs[ind[k]])
  }

  /** The letters of p from j on that are edge e. */
  function Occurrences(p: P.Path, e: int, j: nat): nat
    requires j <= |p|
    decreases |p| - j
  {
    if j == |p| then 0 else (if p[j].index == e then 1 else 0) + Occurrences(p, e, j + 1)
  }

  /** The letters of the arcs of xs from i on that are edge e: how often the twist crosses e. */
  function Crossed(xs: seq<Crossing>, e: int, i: nat): nat
    requires i <= |xs|
    decreases |xs| - i
  {
    if i == |xs| then 0 else Occurrences(xs[i].span.inter, e, 0) + Crossed(xs, e, i + 1)
  }

  /** Every crossing carries loops of length m. */
  predicate LoopsOfLength(xs: seq<Crossing>, m: nat)
  {
    forall i :: 0 <= i < |xs| ==> |xs[i].ctw| == m && |xs[i].ctwi| == m
  }

  /** Every arc of xs crosses only edges in use. */
  predicate ArcsBelow(xs: seq<Crossing>, edges: nat)
  {
    forall i :: 0 <= i < |xs| ==> P.LettersBelow(xs[i].span.inter, edges)
  }

  /** One arc: it succeeds exactly when its letters are edges in use. */
  lemma {:induction false} BendFromOk(ims: seq<P.Path>, edges: nat, x: Crossing, inv: bool, j: nat)
    requires edges <= |ims| && j <= |x.span.inter|
    ensures BendFrom(ims, edges, x, inv, j).Ok? <==> forall k :: j <= k < |x.span.inter| ==> x.span.inter[k].index < edges
    decreases |x.span.inter| - j, 1
  {
    if j < |x.span.inter| {
      BendFromOkStep(ims, edges, x, inv, j);
    }
  }

  lemma {:induction false} BendFromOkStep(ims: seq<P.Path>, edges: nat, x: Crossing, inv: bool, j: nat)
    requires edges <= |ims| && j < |x.span.inter|
    ensures BendFrom(ims, edges, x, inv, j).Ok? <==> forall k :: j <= k < |x.span.inter| ==> x.span.inter[k].index < edges
    decreases |x.span.inter| - j, 0
  {
    var cs := x.span.inter;
    if cs[j].index < edges {
      var ims' := BendOne(ims, edges, x, inv, j);
      BendFromOk(ims', edges, x, inv, j + 1);
      assert (forall k :: j <= k < |cs| ==> cs[k].index < edges) <==> (forall k :: j + 1 <= k < |cs| ==> cs[k].index < edges);
    } else {
      assert BendFrom(ims, edges, x, inv, j).Err?;
      assert !(j <= j < |cs| ==> cs[j].index < edges);
    }
  }

  /** The images after the letter at j of the arc of x, when it is an edge in use. */
  lemma BendOne(ims: seq<P.Path>, edges: nat, x: Crossing, inv: bool, j: nat) returns (ims': seq<P.Path>)
    requires edges <= |ims| && j < |x.span.inter| && x.span.inter[j].index < edges
    ensures |ims'| == |ims| && BendFrom(ims, edges, x, inv, j) == BendFrom(ims', edges, x, inv, j + 1)
  {
    var c := x.span.inter[j];
    ims' := ims[c.index := Bend(ims[c.index], c, x, inv)];
  }

  /** The lengths after a successful pass over the arc of x: a loop more per crossing. */
  lemma {:induction false} BendFromGrows(ims: seq<P.Path>, edges: nat, x: Crossing, inv: bool, j: nat, m: nat)
    requires edges <= |ims| && j <= |x.span.inter| && |x.ctw| == m && |x.ctwi| == m
    requires BendFrom(ims, edges, x, inv, j).Ok?
    ensures forall e :: 0 <= e < |ims| ==>
      |BendFrom(ims, edges, x, inv, j).value[e]| == |ims[e]| + m * Occurrences(x.span.inter, e, j)
    decreases |x.span.inter| - j, 1
  {
    if j < |x.span.inter| {
      BendFromStep(ims, edges, x, inv, j, m);
    }
  }

  lemma {:induction false} BendFromStep(ims: seq<P.Path>, edges: nat, x: Crossing, inv: bool, j: nat, m: nat)
    requires edges <= |ims| && j < |x.span.inter| && |x.ctw| == m && |x.ctwi| == m
    requires BendFrom(ims, edges, x, inv, j).Ok?
    ensures forall e :: 0 <= e < |ims| ==>
      |BendFrom(ims, edges, x, inv, j).value[e]| == |ims[e]| + m * Occurrences(x.span.inter, e, j)
    decreases |x.span.inter| - j, 0
  {
    var c := x.span.inter[j];
    var ims' := ims[c.index := Bend(ims[c.index], c, x, inv)];
    var r := BendFrom(ims, edges, x, inv, j);
    assert c.index < edges && r == BendFrom(ims', edges, x, inv, j + 1);
    BendFromGrows(ims', edges, x, inv, j + 1, m);
    forall e | 0 <= e < |ims| ensures |r.value[e]| == |ims[e]| + m * Occurrences(x.span.inter, e, j) {
      var o := Occurrences(x.span.inter, e, j + 1);
      if e == c.index {
        assert |ims'[e]| == |ims[e]| + m;
        Distributes(m, 1, o);
      } else {
        assert ims'[e] == ims[e];
      }
    }
  }

  /** The whole twist before tightening succeeds exactly when every arc crosses only edges in use. */
  lemma {:induction false} BendAllOk(ims: seq<P.Path>, edges: nat, xs: seq<Crossing>, inv: bool, i: nat)
    requires edges <= |ims| && i <= |xs|
    ensures BendAll(ims, edges, xs, inv, i).Ok? <==> ArcsBelow(xs[i..], edges)
    decreases |xs| - i
  {
    if i < |xs| {
      BendFromOk(ims, edges, xs[i], inv, 0);
      assert xs[i..] == [xs[i]] + xs[i + 1..];
      if BendFrom(ims, edges, xs[i], inv, 0).Ok? {
        BendAllOk(BendFrom(ims, edges, xs[i], inv, 0).value, edges, xs, inv, i + 1);
      } else {
        assert xs[i..][0] == xs[i];
      }
    }
  }

  /**
   * After the whole twist before tightening, the image of each edge has grown by one
   * loop of length m for every crossing of that edge (so an edge no arc crosses keeps
   * its length).
   */
  lemma {:induction false} BendAllGrows(ims: seq<P.Path>, edges: nat, xs: seq<Crossing>, inv: bool, i: nat, m: nat)
    requires edges <= |ims| && i <= |xs| && LoopsOfLength(xs, m)
    requires BendAll(ims, edges, xs, inv, i).Ok?
    ensures forall e :: 0 <= e < |ims| ==>
      |BendAll(ims, edges, xs, inv, i).value[e]| == |ims[e]| + m * Crossed(xs, e, i)
    decreases |xs| - i, 1
  {
    if i < |xs| {
      BendAllStep(ims, edges, xs, inv, i, m);
    }
  }

  lemma {:induction false} BendAllStep(ims: seq<P.Path>, edges: nat, xs: seq<Crossing>, inv: bool, i: nat, m: nat)
    requires edges <= |ims| && i < |xs| && LoopsOfLength(xs, m)
    requires BendAll(ims, edges, xs, inv, i).Ok?
    ensures forall e :: 0 <= e < |ims| ==>
      |BendAll(ims, edges, xs, inv, i).value[e]| == |ims[e]| + m * Crossed(xs, e, i)
    decreases |xs| - i, 0
  {
    var b := BendFrom(ims, edges, xs[i], inv, 0);
    var r := BendAll(ims, edges, xs, inv, i);
    assert b.Ok? && r == BendAll(b.value, edges, xs, inv, i + 1);
    BendFromGrows(ims, edges, xs[i], inv, 0, m);
    BendAllGrows(b.value, edges, xs, inv, i + 1, m);
    forall e | 0 <= e < |ims| ensures |r.value[e]| == |ims[e]| + m * Crossed(xs, e, i) {
      var o, o' := Occurrences(xs[i].span.inter, e, 0), Crossed(xs, e, i + 1);
      Distributes(m, o, o');
    }
  }

  /** Multiplication distributes over addition. */
  lemma Distributes(m: nat, a: nat, b: nat)
    ensures m * (a + b) == m * a + m * b
  {
  }

  /** An edge no arc crosses keeps its image. */
  lemma {:induction false} BendAllKeeps(ims: seq<P.Path>, edges: nat, xs: seq<Crossing>, inv: bool, i: nat, e: nat)
    requires edges <= |ims| && i <= |xs| && e < |ims| && Crossed(xs, e, i) == 0
    requires BendAll(ims, edges, xs, inv, i).Ok?
    ensures BendAll(ims, edges, xs, inv, i).value[e] == ims[e]
    decreases |xs| - i
  {
    if i < |xs| {
      BendFromKeeps(ims, edges, xs[i], inv, 0, e);
      BendAllKeeps(BendFrom(ims, edges, xs[i], inv, 0).value, edges, xs, inv, i + 1, e);
    }
  }

  /** An edge the arc does not cross keeps its image. */
  lemma {:induction false} BendFromKeeps(ims: seq<P.Path>, edges: nat, x: Crossing, inv: bool, j: nat, e: nat)
    requires edges <= |ims| && j <= |x.span.inter| && e < |ims| && Occurrences(x.span.inter, e, j) == 0
    requires BendFrom(ims, edges, x, inv, j).Ok?
    ensures BendFrom(ims, edges, x, inv, j).value[e] == ims[e]
    decreases |x.span.inter| - j
  {
    if j < |x.span.inter| {
      var c := x.span.inter[j];
      BendFromKeeps(ims[c.index := Bend(ims[c.index], c, x, inv)], edges, x, inv, j + 1, e);
    }
  }

  /** The inner loop of the image computation: the letters of one arc. */
  method BendArc(g: GM.GraphMap, x: Crossing, inv: bool) returns (r: Outcome)
    requires g.Valid()
    modifies g.im
    ensures r.Pass? <==> BendFrom(old(g.im[..]), g.edges, x, inv, 0).Ok?
    ensures r.Pass? ==> g.im[..] == BendFrom(old(g.im[..]), g.edges, x, inv, 0).value
    ensures r.Fail? ==> r.msg == TooLarge
  {
    var j := 0;
    while j < |x.span.inter|
      invariant 0 <= j <= |x.span.inter| && g.im.Length == old(g.im.Length)
      invariant BendFrom(g.im[..], g.edges, x, inv, j) == BendFrom(old(g.im[..]), g.edges, x, inv, 0)
    {
      var c := x.span.inter[j];
      var e := c.index;
      if e >= g.edges {
        return Fail(TooLarge);
      }
      var w;
      if c.inv {
        if Xor(inv, x.span.dir > 0) {
          w := g.im[e] + x.ctw;
        } else {
          w := g.im[e] + x.ctwi;
        }
      } else {
        if Xor(inv, x.span.dir > 0) {
          w := x.ctwi + g.im[e];
        } else {
          w := x.ctw + g.im[e];
        }
      }
      g.im[e] := w;
      j := j + 1;
    }
    r := Pass;
  }

  /** The outer loop of the image computation: the arcs in the order of ind. */
  method BendImages(g: GM.GraphMap, xs: seq<Crossing>, ind: seq<int>, inv: bool) returns (r: Outcome)
    requires g.Valid() && Positions(ind, |xs|)
    modifies g.im
    ensures r.Pass? <==> BendAll(old(g.im[..]), g.edges, Ordered(xs, ind), inv, 0).Ok?
    ensures r.Pass? ==> g.im[..] == BendAll(old(g.im[..]), g.edges, Ordered(xs, ind), inv, 0).value
    ensures r.Fail? ==> r.msg == TooLarge
  {
    ghost var ys := Ordered(xs, ind);
    ghost var goal := BendAll(old(g.im[..]), g.edges, ys, inv, 0);
    var i := 0;
    while i < |ind|
      invariant 0 <= i <= |ind| && g.im.Length == old(g.im.Length)
      invariant BendAll(g.im[..], g.edges, ys, inv, i) == goal
    {
      ghost var before := g.im[..];
      assert ys[i] == xs[ind[i]];
      r := BendArc(g, xs[ind[i]], inv);
      if r.Fail? {
        assert goal == BendAll(before, g.edges, ys, inv, i) == Err(TooLarge);
        return;
      }
      i := i + 1;
    }
    r := Pass;
  }

  // ---- twist(g, bd, twist, inv) ----

  /**
   * What twist(g, bd, tw, inv) makes of the map s: the twist is checked, the arcs of
   * its turns found, sorted by length, each edge crossed gets the loop added, and the
   * map is tightened.
   */
  function TwistSpec(s: G.Graph, bd: P.Path, tw: P.Path, inv: bool): (r: Result<G.Graph>)
    requires G.Valid(s)
  {
    match CheckFrom(s.edges, tw, 0)
    case Fail(m) => Err(m)
    case Pass =>
      if !OnBoundary(bd, tw) then Err(IndexPast(|bd|))
      else Bent(s, Crossings(bd, tw), inv)
  }

  /** The crossings xs applied to the map s in the order of the sort, then tightened. */
  function Bent(s: G.Graph, xs: seq<Crossing>, inv: bool): (r: Result<G.Graph>)
    requires G.Valid(s)
  {
    match BentImages(s, xs, inv)
    case Err(m) => Err(m)
    case Ok(ims) => Ok(G.Tightened(s.(im := ims)))
  }

  /** The images of s with the crossings xs bent in, in the order of the sort, before tightening. */
  function BentImages(s: G.Graph, xs: seq<Crossing>, inv: bool): Result<seq<P.Path>>
    requires G.Valid(s)
  {
    BendAll(s.im, s.edges, Ordered(xs, ExchangeSort(Lengths(xs))), inv, 0)
  }

  /** The crossings of tw all carry loops of the length of tw. */
  lemma CrossingLoops(bd: P.Path, tw: P.Path)
    requires OnBoundary(bd, tw)
    ensures LoopsOfLength(Crossings(bd, tw), |tw|)
  {
  }

  /** Reordering the crossings does not change how often an edge is crossed. */
  lemma {:induction false} CrossedOrdered(xs: seq<Crossing>, ind: seq<int>, e: int)
    requires Positions(ind, |xs|) && multiset(ind) == multiset(Range(|xs|))
    ensures Crossed(Ordered(xs, ind), e, 0) == Crossed(xs, e, 0)
  {
    CrossedPermutation(xs, ind, e, 0);
    CrossedInOrder(xs, e, 0);
    assert ind[0..] == ind && Range(|xs|)[0..] == Range(|xs|);
    SumOverMultiset(xs, ind, Range(|xs|), e);
  }

  /** The count of crossings from i on is the sum over the positions from i on. */
  lemma {:induction false} CrossedInOrder(xs: seq<Crossing>, e: int, i: nat)
    requires i <= |xs|
    ensures Crossed(xs, e, i) == SumOver(xs, Range(|xs|)[i..], e)
    decreases |xs| - i
  {
    if i < |xs| {
      CrossedInOrder(xs, e, i + 1);
      assert Range(|xs|)[i..][1..] == Range(|xs|)[i + 1..];
    }
  }

  /** A sum over a concatenation is the sum of the sums. */
  lemma {:induction false} SumOverAppend(xs: seq<Crossing>, a: seq<int>, b: seq<int>, e: int)
    requires Positions(a, |xs|)
    requires Positions(b, |xs|)
    ensures SumOver(xs, a + b, e) == SumOver(xs, a, e) + SumOver(xs, b, e)
  {
    if a == [] {
      assert a + b == b;
    } else {
      SumOverAppend(xs, a[1..], b, e);
      assert (a + b)[0] == a[0] && (a + b)[1..] == a[1..] + b;
    }
  }

  /** A rearrangement of positions below n lists positions below n. */
  lemma PositionsPermuted(ks: seq<int>, ks': seq<int>, n: nat)
    requires Positions(ks, n) && multiset(ks) == multiset(ks')
    ensures Positions(ks', n)
  {
    forall k | 0 <= k < |ks'| ensures 0 <= ks'[k] < n {
      assert ks'[k] in multiset(ks);
    }
  }

  /** The sum over positions depends only on which positions are listed, not their order. */
  lemma {:induction false} SumOverMultiset(xs: seq<Crossing>, ks: seq<int>, ks': seq<int>, e: int)
    requires Positions(ks, |xs|)
    requires multiset(ks) == multiset(ks')
    ensures Positions(ks', |xs|)
    ensures SumOver(xs, ks, e) == SumOver(xs, ks', e)
    decreases |ks|
  {
    PositionsPermuted(ks, ks', |xs|);
    if ks == [] {
      assert |ks'| == |multiset(ks')| == 0;
    } else {
      var x := ks[0];
      assert x in multiset(ks');
      var p :| 0 <= p < |ks'| && ks'[p] == x;
      var rest := ks'[..p] + ks'[p + 1..];
      RemoveAt(ks', p);
      assert ks == [x] + ks[1..];
      assert multiset(ks[1..]) == multiset(ks) - multiset{x};
      SumOverMultiset(xs, ks[1..], rest, e);
      SumOverRemove(xs, ks', p, e);
    }
  }

  /** Taking out the entry at p takes one copy of it out of the multiset. */
  lemma RemoveAt(ks: seq<int>, p: nat)
    requires p < |ks|
    ensures multiset(ks[..p] + ks[p + 1..]) == multiset(ks) - multiset{ks[p]}
  {
    assert ks == ks[..p] + [ks[p]] + ks[p + 1..];
  }

  /** The sum over ks is the entry at p plus the sum over the rest. */
  lemma SumOverRemove(xs: seq<Crossing>, ks: seq<int>, p: nat, e: int)
    requires p < |ks| && Positions(ks, |xs|)
    ensures SumOver(xs, ks, e) == Occurrences(xs[ks[p]].span.inter, e, 0) + SumOver(xs, ks[..p] + ks[p + 1..], e)
  {
    var x := ks[p];
    SumOverAppend(xs, ks[..p], [x] + ks[p + 1..], e);
    assert ks[..p] + ([x] + ks[p + 1..]) == ks;
    SumOverAppend(xs, ks[..p], ks[p + 1..], e);
    assert ([x] + ks[p + 1..])[1..] == ks[p + 1..];
  }

  /** The count of crossings from i on, summed through the positions that ind lists. */
  lemma {:induction false} CrossedPermutation(xs: seq<Crossing>, ind: seq<int>, e: int, i: nat)
    requires Positions(ind, |xs|) && i <= |ind|
    ensures Crossed(Ordered(xs, ind), e, i) == SumOver(xs, ind[i..], e)
    decreases |ind| - i
  {
    if i < |ind| {
      CrossedPermutation(xs, ind, e, i + 1);
      assert ind[i..] == [ind[i]] + ind[i + 1..];
    }
  }

  /** The crossings of the positions in ks, summed. */
  function SumOver(xs: seq<Crossing>, ks: seq<int>, e: int): nat
    requires Positions(ks, |xs|)
  {
    if ks == [] then 0 else Occurrences(xs[ks[0]].span.inter, e, 0) + SumOver(xs, ks[1..], e)
  }

  /**
   * twist succeeds exactly when the twist is admissible, every turn is on the boundary
   * and the arcs cross edges in use. (TwistGrows and TwistKeeps say what it then does.)
   */
  lemma TwistOk(s: G.Graph, bd: P.Path, tw: P.Path, inv: bool)
    requires G.Valid(s)
    ensures TwistSpec(s, bd, tw, inv).Ok? <==>
      Admissible(s.edges, tw) && OnBoundary(bd, tw) && ArcsBelow(Crossings(bd, tw), s.edges)
  {
    CheckAdmissible(s.edges, tw);
    if CheckFrom(s.edges, tw, 0).Pass? && OnBoundary(bd, tw) {
      var xs := Crossings(bd, tw);
      var ind := ExchangeSort(Lengths(xs));
      ExchangeSortSorts(Lengths(xs));
      CrossingLoops(bd, tw);
      var ys := Ordered(xs, ind);
      assert LoopsOfLength(ys, |tw|);
      BendAllOk(s.im, s.edges, ys, inv, 0);
      assert ys[0..] == ys;
      OrderedArcs(xs, ind, s.edges);
      assert ArcsBelow(xs[0..], s.edges) == ArcsBelow(xs, s.edges) by {
        assert xs[0..] == xs;
      }
    }
  }

  /** A successful twist is the tightening of the bent images. */
  lemma TwistBent(s: G.Graph, bd: P.Path, tw: P.Path, inv: bool)
    requires G.Valid(s) && TwistSpec(s, bd, tw, inv).Ok?
    ensures OnBoundary(bd, tw) && BentImages(s, Crossings(bd, tw), inv).Ok?
    ensures TwistSpec(s, bd, tw, inv).value == G.Tightened(s.(im := BentImages(s, Crossings(bd, tw), inv).value))
  {
  }

  /** Bending in the arcs makes the image of e grow by the length of tw for each arc that crosses e. */
  lemma TwistGrows(s: G.Graph, bd: P.Path, tw: P.Path, inv: bool, e: nat)
    requires G.Valid(s) && OnBoundary(bd, tw) && BentImages(s, Crossings(bd, tw), inv).Ok? && e < s.edges
    ensures |BentImages(s, Crossings(bd, tw), inv).value[e]| == |s.im[e]| + |tw| * Crossed(Crossings(bd, tw), e, 0)
  {
    var xs := Crossings(bd, tw);
    var ind := ExchangeSort(Lengths(xs));
    ExchangeSortSorts(Lengths(xs));
    CrossingLoops(bd, tw);
    var ys := Ordered(xs, ind);
    assert LoopsOfLength(ys, |tw|);
    BendAllGrows(s.im, s.edges, ys, inv, 0, |tw|);
    CrossedOrdered(xs, ind, e);
  }

  /** An edge that no arc crosses only gets tightened. */
  lemma TwistKeeps(s: G.Graph, bd: P.Path, tw: P.Path, inv: bool, e: nat)
    requires G.Valid(s) && TwistSpec(s, bd, tw, inv).Ok?
    requires e < s.edges && Crossed(Crossings(bd, tw), e, 0) == 0
    ensures TwistSpec(s, bd, tw, inv).value.im[e] == P.Tighten(s.im[e])
  {
    var xs := Crossings(bd, tw);
    var ind := ExchangeSort(Lengths(xs));
    ExchangeSortSorts(Lengths(xs));
    CrossedOrdered(xs, ind, e);
    BendAllKeeps(s.im, s.edges, Ordered(xs, ind), inv, 0, e);
  }

  /** Reordering the crossings by a permutation keeps the question whether all arcs cross edges in use. */
  lemma OrderedArcs(xs: seq<Crossing>, ind: seq<int>, edges: nat)
    requires Positions(ind, |xs|) && multiset(ind) == multiset(Range(|xs|))
    ensures ArcsBelow(Ordered(xs, ind), edges) <==> ArcsBelow(xs, edges)
  {
    var ys := Ordered(xs, ind);
    if ArcsBelow(ys, edges) {
      forall i | 0 <= i < |xs| ensures P.LettersBelow(xs[i].span.inter, edges) {
        assert Range(|xs|)[i] == i;
        assert i in multiset(ind);
        var k :| 0 <= k < |ind| && ind[k] == i;
        assert ys[k] == xs[i];
      }
    }
  }

  /**
   * twist(g, bd, tw, inv): checkTwist, the arcs of the conjugates, the exchange sort
   * by arc length, the loops added to the images in that order, and tighten. A throw
   * leaves the images partly changed; the callers then discard the map.
   */
  method Twist(g: GM.GraphMap, bd: P.Path, tw: P.Path, inv: bool) returns (r: Outcome)
    requires g.Valid()
    modifies g, g.im
    ensures g.Valid() && g.im == old(g.im) && g.start == old(g.start) && g.end == old(g.end)
    ensures r.Pass? <==> TwistSpec(old(g.State()), bd, tw, inv).Ok?
    ensures r.Pass? ==> g.State() == TwistSpec(old(g.State()), bd, tw, inv).value
    ensures r.Fail? ==> r.msg == TwistSpec(old(g.State()), bd, tw, inv).msg
  {
    ghost var s := g.State();
    r := CheckTwist(g.edges, tw);
    if r.Fail? {
      return;
    }
    var xs := FindCrossings(bd, tw);
    if xs.Err? {
      return Fail(xs.msg);
    }
    r := ApplyCrossings(g, xs.value, inv);
  }

  /** The sort, the images and tighten: the second half of twist. */
  method ApplyCrossings(g: GM.GraphMap, xs: seq<Crossing>, inv: bool) returns (r: Outcome)
    requires g.Valid()
    modifies g, g.im
    ensures g.Valid() && g.im == old(g.im) && g.start == old(g.start) && g.end == old(g.end)
    ensures r.Pass? <==> Bent(old(g.State()), xs, inv).Ok?
    ensures r.Pass? ==> g.State() == Bent(old(g.State()), xs, inv).value
    ensures r.Fail? ==> r.msg == Bent(old(g.State()), xs, inv).msg
  {
    ghost var s := g.State();
    var ind := SortByLength(Lengths(xs));
    r := BendImages(g, xs, ind, inv);
    if r.Fail? {
      return;
    }
    ghost var ims := g.im[..];
    assert g.State() == s.(im := ims);
    var _ := g.Tighten();
  }

  // ---- twist(bd, twists, lab) ----

  /** The first place from i on that is not the sign '~', or the end. */
  function SignEnd(t: string, i: nat): (k: nat)
    requires i <= |t|
    ensures i <= k <= |t| && (k < |t| ==> t[k] != INV)
    ensures forall m :: i <= m < k ==> t[m] == INV
    decreases |t| - i
  {
    if i < |t| && t[i] == INV then SignEnd(t, i + 1) else i
  }

  /** The first ']' from i on, or the end. */
  function KetFrom(t: string, i: nat): (k: nat)
    requires i <= |t|
    ensures i <= k <= |t| && (k < |t| ==> t[k] == KET)
    ensures forall m :: i <= m < k ==> t[m] != KET
    decreases |t| - i
  {
    if i < |t| && t[i] != KET then KetFrom(t, i + 1) else i
  }

  /** One twist of the sequence: its sign, its text, and the place of its last character. */
  datatype Item = Item(inv: bool, text: string, last: nat)

  /**
   * The twist starting at place i: signs '~' (an odd number of them inverts it), then
   * either a bracketed loop or a single label character. Running off the end, before
   * the loop or before its ']', is an index error.
   */
  function ItemAt(t: string, i: nat): (r: Result<Item>)
    requires i <= |t|
    ensures r.Ok? ==> i <= r.value.last < |t|
    ensures r.Err? ==> r.msg == IndexPast(|t|)
  {
    var k := SignEnd(t, i);
    if k == |t| then Err(IndexPast(|t|))
    else if t[k] == BRA then
      var m := KetFrom(t, k + 1);
      if m == |t| then Err(IndexPast(|t|)) else Ok(Item((k - i) % 2 == 1, t[k + 1..m], m))
    else Ok(Item((k - i) % 2 == 1, [t[k]], k))
  }

  /** n signs '~'. */
  function Signs(n: nat): (s: string)
    ensures |s| == n && forall m :: 0 <= m < n ==> s[m] == INV
  {
    seq(n, _ => INV)
  }

  /** A written twist reads back: n signs and a bracketed loop without ']' give the loop, inverted when n is odd. */
  lemma ItemOfBracketed(n: nat, text: string, rest: string)
    requires KET !in text
    ensures ItemAt(Signs(n) + [BRA] + text + [KET] + rest, 0) == Ok(Item(n % 2 == 1, text, n + |text| + 1))
  {
    var pre, post := Signs(n) + [BRA], [KET] + rest;
    var t := pre + text + post;
    assert t == Signs(n) + [BRA] + text + [KET] + rest;
    assert |pre| == n + 1 && t[..n + 1] == pre && t[n + 1..] == text + post;
    assert t[n] == BRA;
    assert SignEnd(t, 0) == n by {
      assert forall m :: 0 <= m < n ==> t[m] == pre[m];
      SignEndIs(t, 0, n);
    }
    assert t[n + 1..n + |text| + 1] == text;
    assert KetFrom(t, n + 1) == n + |text| + 1 by {
      assert t[n + |text| + 1] == KET;
      forall m | n + 1 <= m < n + |text| + 1
        ensures t[m] != KET
      {
        assert t[m] == text[m - n - 1];
      }
      KetFromIs(t, n + 1, n + |text| + 1);
    }
  }

  /** A written single-letter twist reads back: n signs and a character other than '~' and '['. */
  lemma ItemOfLetter(n: nat, c: char, rest: string)
    requires c != INV && c != BRA
    ensures ItemAt(Signs(n) + [c] + rest, 0) == Ok(Item(n % 2 == 1, [c], n))
  {
    var t := Signs(n) + [c] + rest;
    assert t[n] == c;
    SignEndIs(t, 0, n);
  }

  /** SignEnd stops at the first place that is not a sign. */
  lemma {:induction false} SignEndIs(t: string, i: nat, k: nat)
    requires i <= k < |t| && t[k] != INV && forall m :: i <= m < k ==> t[m] == INV
    ensures SignEnd(t, i) == k
    decreases k - i
  {
    if i < k {
      SignEndIs(t, i + 1, k);
    }
  }

  /** KetFrom stops at the first ']'. */
  lemma {:induction false} KetFromIs(t: string, i: nat, k: nat)
    requires i <= k < |t| && t[k] == KET && forall m :: i <= m < k ==> t[m] != KET
    ensures KetFrom(t, i) == k
    decreases k - i
  {
    if i < k {
      KetFromIs(t, i + 1, k);
    }
  }

  /**
   * The scan of one twist: each leading inverse sign flips the direction,
   * then the bracketed loop up to ']' or the single character.
   */
  method ReadItem(t: string, i0: nat) returns (r: Result<Item>)
    requires i0 < |t|
    ensures r == ItemAt(t, i0)
  {
    var i, inv := ReadSigns(t, i0);
    if i == |t| {
      return Err(IndexPast(|t|));
    }
    if t[i] == BRA {
      var j := i + 1;
      i := ReadToKet(t, j);
      if i == |t| {
        return Err(IndexPast(|t|));
      }
      r := Ok(Item(inv, t[j..i], i));
    } else {
      r := Ok(Item(inv, [t[i]], i));
    }
  }

  /** The leading inverse signs of a twist: their number's parity gives the direction. */
  method ReadSigns(t: string, i0: nat) returns (i: nat, inv: bool)
    requires i0 <= |t|
    ensures i == SignEnd(t, i0) && inv == ((i - i0) % 2 == 1)
  {
    i, inv := i0, false;
    while i < |t| && t[i] == INV
      invariant i0 <= i <= |t| && SignEnd(t, i) == SignEnd(t, i0)
      invariant inv == ((i - i0) % 2 == 1)
    {
      i := i + 1;
      inv := !inv;
    }
  }

  /** The scan to the closing bracket of a twist. */
  method ReadToKet(t: string, j: nat) returns (i: nat)
    requires j <= |t|
    ensures i == KetFrom(t, j)
  {
    i := j;
    while i < |t| && t[i] != KET
      invariant j <= i <= |t| && KetFrom(t, i) == KetFrom(t, j)
    {
      i := i + 1;
    }
  }

  /** The loops of the marking and their labels. */
  datatype Marking = Marking(loops: seq<P.Path>, labels: seq<string>)

  /** A loop not in the marking yet is added, labelled C followed by its number. */
  function Marked(m: Marking, tw: P.Path): (r: Marking)
    ensures tw in r.loops && m.loops <= r.loops
    ensures (tw in m.loops ==> r == m)
    ensures |r.labels| - |m.labels| == |r.loops| - |m.loops|
  {
    if tw in m.loops then m
    else Marking(m.loops + [tw], m.labels + ["C" + Numerals.IntToString(|m.loops|)])
  }

  /** The loop of a twist's text: read, then freely and cyclically reduced. */
  function LoopOf(text: string): (r: Result<P.Path>)
    ensures r.Ok? ==> P.CyclicallyReduced(r.value)
  {
    match R.ReadPath(text)
    case Err(m) => Err(m)
    case Ok(p) => P.TightenCyclShape(P.Tighten(p)); Ok(P.TightenCycl(P.Tighten(p)))
  }

  /**
   * One twist applied to g: the loop must be a loop of g's graph; the twist of the
   * rose along it must pass checkTwist and isGoodMap; then g is composed with it.
   */
  function ApplyTwist(g: G.Graph, rose: G.Graph, bd: P.Path, tw: P.Path, inv: bool): (r: Result<G.Graph>)
    requires G.Valid(g) && G.Valid(rose)
    ensures r.Ok? ==> G.Valid(r.value)
  {
    if !G.IsGoodLoop(g, tw) then Err("bad loop: " + PathToString(tw)) else TwistCompose(g, rose, bd, tw, inv)
  }

  /** The rose twisted along tw, checked with isGoodMap, composed after g. */
  function TwistCompose(g: G.Graph, rose: G.Graph, bd: P.Path, tw: P.Path, inv: bool): (r: Result<G.Graph>)
    requires G.Valid(g) && G.Valid(rose)
    ensures r.Ok? ==> G.Valid(r.value)
  {
    match TwistSpec(rose, bd, tw, inv)
    case Err(m) => Err("bad twist: " + PathToString(tw) + "\nturn " + m + " occurs twice")
    case Ok(gg) =>
      if G.IsGoodMap(gg).Fail? then Err("bad twist: " + PathToString(tw)) else G.Compose(g, gg)
  }

  /** The twists of t from place i on applied to g in turn, collecting the marking. */
  function TwistsFrom(t: string, i: nat, g: G.Graph, m: Marking, rose: G.Graph, bd: P.Path): (r: Result<(G.Graph, Marking)>)
    requires i <= |t| + 1 && G.Valid(g) && G.Valid(rose)
    ensures r.Ok? ==> G.Valid(r.value.0)
    decreases |t| + 1 - i
  {
    if i >= |t| then Ok((g, m))
    else match ItemAt(t, i)
      case Err(e) => Err(e)
      case Ok(it) =>
        match LoopOf(it.text)
        case Err(e) => Err(e)
        case Ok(tw) =>
          match ApplyTwist(g, rose, bd, tw, it.inv)
          case Err(e) => Err(e)
          case Ok(g') => TwistsFrom(t, it.last + 1, g', Marked(m, tw), rose, bd)
  }

  /** The message of the last check. */
  const Unexpected := "exception. please save your input and email it to brinkman@math.utah.edu"

  /**
   * twist(bd, twists, lab): the rose of the boundary word bd, labelled lab, composed
   * with the twist along each loop of the normalized sequence twists, marked with the
   * distinct loops, and checked with isGoodMap.
   */
  function BoundaryTwists(bd: string, twists: string, lab: string): (r: Result<G.Graph>)
    ensures r.Ok? ==> G.Valid(r.value) && G.IsGoodMap(r.value) == Pass
  {
    match R.ReadPath(bd)
    case Err(e) => Err(e)
    case Ok(bdp) =>
      match GM.BoundaryRose(bdp)
      case Err(e) => Err(e)
      case Ok(rose) =>
        match TwistsFrom(Normalize(twists), 0, rose.(name := lab), Marking([], []), rose, bdp)
        case Err(e) => Err(e)
        case Ok(gm) =>
          var h := gm.0.(marked := true, mark := gm.1.loops, marklabel := gm.1.labels);
          match Eliminate(h, bdp)
          case Err(e) => Err(e)
          case Ok(h') => if G.IsGoodMap(h').Fail? then Err(Unexpected) else Ok(h')
  }

  /**
   * eliminateGenerators(g, bd): the relations of the boundary word other than the first
   * (the one that reads the fixed word) drive the Tietze transformations of g; with a
   * single relation g is left as it is.
   */
  function Eliminate(g: G.Graph, bd: P.Path): (r: Result<G.Graph>)
    requires G.Valid(g)
    ensures r.Ok? ==> G.Valid(r.value)
  {
    var rels := B.RelationsOf(bd);
    if |rels| > 1 then TZ.Trafos(g, rels[1..]) else Ok(g)
  }

  /** eliminateGenerators: the relations of bd, all but the first handed to tietzeTrafos. */
  method EliminateGenerators(g: GM.GraphMap, bd: P.Path) returns (r: Outcome)
    requires g.Valid() && B.InversesOccur(bd)
    modifies g, g.im, g.start, g.end
    ensures g.Valid()
    ensures r.Pass? <==> Eliminate(old(g.State()), bd).Ok?
    ensures r.Pass? ==> g.State() == Eliminate(old(g.State()), bd).value
    ensures r.Fail? ==> r.msg == Eliminate(old(g.State()), bd).msg
  {
    var rels := B.Relations(bd);
    if |rels| > 1 {
      var rel := new P.Path[|rels| - 1](k => if 0 <= k && k + 1 < |rels| then rels[k + 1] else []);
      assert rel[..] == rels[1..];
      r := g.TietzeTrafos(rel);
    } else {
      r := Pass;
    }
  }

  /** A boundary word the rose accepts has the inverse of each of its letters. */
  lemma RoseInverses(bd: P.Path)
    requires GM.BoundaryRose(bd).Ok?
    ensures B.InversesOccur(bd)
  {
    assert B.DualizeSpec(bd).Ok?;
  }

  /** twist(bd, twists, lab, false): the public twist with respect to a boundary word. */
  method BoundaryTwist(bd: string, twists: string, lab: string) returns (g: GM.GraphMap, r: Outcome)
    ensures fresh(g) && g.Valid()
    ensures r.Pass? <==> BoundaryTwists(bd, twists, lab).Ok?
    ensures r.Pass? ==> g.State() == BoundaryTwists(bd, twists, lab).value
    ensures r.Fail? ==> r.msg == BoundaryTwists(bd, twists, lab).msg
  {
    var t := Normalize(twists);
    var bdp := W.StringToPath(bd);
    if bdp.None? {
      g := new GM.GraphMap();
      return g, Fail(R.BADNUMBER);
    }
    g, r := GM.GraphMap.IdentityFromBoundary(bdp.value);
    if r.Fail? {
      return;
    }
    ghost var rose := g.State();
    g.SetLabel(lab);
    ghost var goal := TwistsFrom(t, 0, g.State(), Marking([], []), rose, bdp.value);
    var ma: seq<P.Path>, ml: seq<string> := [], [];
    var i := 0;
    while i < |t|
      invariant i <= |t| + 1 && g.Valid() && r == Pass
      invariant fresh(g.im) && fresh(g.start) && fresh(g.end)
      invariant TwistsFrom(t, i, g.State(), Marking(ma, ml), rose, bdp.value) == goal
      decreases |t| - i
    {
      i, ma, ml, r := TwistAt(g, t, i, ma, ml, bdp.value, rose);
      if r.Fail? {
        return;
      }
    }
    g.SetMarking(ma, ml);
    RoseInverses(bdp.value);
    r := EliminateGenerators(g, bdp.value);
    if r.Fail? {
      return;
    }
    var good := g.IsGoodMap();
    if good.Fail? {
      return g, Fail(Unexpected);
    }
  }

  /** One pass of twist's loop: read the loop at place i, compose g with its twist and mark it. */
  method TwistAt(g: GM.GraphMap, t: string, i: nat, ma: seq<P.Path>, ml: seq<string>, bd: P.Path, ghost rose: G.Graph)
    returns (next: nat, ma': seq<P.Path>, ml': seq<string>, r: Outcome)
    requires i < |t| && g.Valid() && GM.BoundaryRose(bd) == Ok(rose) && G.Valid(rose)
    modifies g
    ensures g.Valid()
    ensures (g.im == old(g.im) && g.start == old(g.start) && g.end == old(g.end)) || (fresh(g.im) && fresh(g.start) && fresh(g.end))
    ensures r.Pass? ==> i < next <= |t| + 1
    ensures r.Pass? ==> (TwistsFrom(t, next, g.State(), Marking(ma', ml'), rose, bd) ==
      TwistsFrom(t, i, old(g.State()), Marking(ma, ml), rose, bd))
    ensures r.Fail? ==> TwistsFrom(t, i, old(g.State()), Marking(ma, ml), rose, bd) == Err(r.msg)
  {
    ma', ml', next := ma, ml, i;
    var it := ReadItem(t, i);
    if it.Err? {
      return next, ma', ml', Fail(it.msg);
    }
    var p := W.StringToPath(it.value.text);
    if p.None? {
      return next, ma', ml', Fail(R.BADNUMBER);
    }
    var tw := W.TightenWord(p.value);
    tw := W.TightenCycl(tw);
    var ok := g.IsGoodLoop(tw);
    if !ok {
      var s := W.PathToString(tw);
      return next, ma', ml', Fail("bad loop: " + s);
    }
    var seen := InMarking(ma, tw);
    if !seen {
      ml' := ml + ["C" + Numerals.IntToString(|ma|)];
      ma' := ma + [tw];
    }
    r := ApplyOne(g, bd, tw, it.value.inv, rose);
    next := it.value.last + 1;
  }

  /** Whether the twisted word equals one of the loops of the marking. */
  method InMarking(ma: seq<P.Path>, tw: P.Path) returns (flag: bool)
    ensures flag <==> tw in ma
  {
    flag := false;
    var k := 0;
    while k < |ma|
      invariant 0 <= k <= |ma| && (flag <==> tw in ma[..k])
    {
      assert ma[..k + 1] == ma[..k] + [ma[k]];
      flag := flag || tw == ma[k];
      k := k + 1;
    }
    assert ma[..k] == ma;
  }

  /** One twist of the loop: a fresh rose, twisted along tw, checked, and composed after g. */
  method ApplyOne(g: GM.GraphMap, bd: P.Path, tw: P.Path, inv: bool, ghost rose: G.Graph) returns (r: Outcome)
    requires g.Valid() && GM.BoundaryRose(bd) == Ok(rose)
    modifies g
    ensures g.Valid()
    ensures (g.im == old(g.im) && g.start == old(g.start) && g.end == old(g.end)) || (fresh(g.im) && fresh(g.start) && fresh(g.end))
    ensures r.Pass? <==> TwistCompose(old(g.State()), rose, bd, tw, inv).Ok?
    ensures r.Pass? ==> g.State() == TwistCompose(old(g.State()), rose, bd, tw, inv).value
    ensures r.Fail? ==> r.msg == TwistCompose(old(g.State()), rose, bd, tw, inv).msg
  {
    var gg, made := GM.GraphMap.IdentityFromBoundary(bd);
    assert made.Pass? && gg.State() == rose;
    r := Twist(gg, bd, tw, inv);
    if r.Fail? {
      var s := W.PathToString(tw);
      return Fail("bad twist: " + s + "\nturn " + r.msg + " occurs twice");
    }
    var good := gg.IsGoodMap();
    if good.Fail? {
      var s := W.PathToString(tw);
      return Fail("bad twist: " + s);
    }
    r := g.Compose(gg);
  }
}
