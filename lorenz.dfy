/**
 * Lorenz knots (LorenzKnot.java). A Lorenz knot is given by a vector r^s: indices
 * r[0] < r[1] < ... and positive exponents s[i]. Its fibre surface is cut into rows
 * of cells; row i holds one cell for every unit of exponent whose index is at least
 * i + 2, and the cells are numbered 1, 2, ... from the top row down. A walk around
 * the rows lists the boundary of the surface as a signed word in the cells; the
 * monodromy is a product of Dehn twists about neighbouring cells of each row.
 */
module LorenzKnots {
  import opened Wrappers
  import opened Letters
  import opened Numerals
  import P = Paths
  import W = Words
  import D = DehnTwists
  import G = Graphs
  import GM = GraphMaps
  import FT = FixedTwists

  const LengthsDiffer := "array lengths differ"
  const EmptyArrays := "empty arrays"
  const BadEntry := "bad index or exponent"
  const OneComponent := "more than one boundary component"
  const OutOfRange := "array index out of range"
  /** The walk is given a number of steps; running out of them is reported with this. */
  const NoClose := "the boundary walk did not close"

  /* ---------- the vector r^s ---------- */

  /** The index before entry i, with 0 before the first. */
  function Prev(r: seq<int>, i: nat): int
    requires i < |r|
  {
    if i == 0 then 0 else r[i - 1]
  }

  /** Entry i is acceptable: its index above the previous one and its exponent positive. */
  predicate GoodEntry(r: seq<int>, s: seq<int>, i: nat)
    requires i < |r| && i < |s|
  {
    Prev(r, i) < r[i] && 0 < s[i]
  }

  /** The vectors the constructor accepts. */
  predicate Admissible(r: seq<int>, s: seq<int>)
  {
    |r| == |s| && 0 < |r| && forall i :: 0 <= i < |r| ==> GoodEntry(r, s, i)
  }

  /** The constructor's checks, in its order. */
  function Check(r: seq<int>, s: seq<int>): (o: Outcome)
    ensures o.Pass? <==> Admissible(r, s)
  {
    if |r| != |s| then Fail(LengthsDiffer)
    else if |r| == 0 then Fail(EmptyArrays)
    else if exists i :: 0 <= i < |r| && !GoodEntry(r, s, i) then Fail(BadEntry)
    else Pass
  }

  /** The indices of an admissible vector increase strictly and are positive. */
  lemma {:induction false} IndicesIncrease(r: seq<int>, s: seq<int>, i: nat, j: nat)
    requires Admissible(r, s) && i < j < |r|
    ensures 0 < r[i] < r[j]
    decreases j - i
  {
    assert GoodEntry(r, s, j);
    if i + 1 < j {
      IndicesIncrease(r, s, i, j - 1);
    } else {
      assert GoodEntry(r, s, i);
      if i > 0 {
        assert GoodEntry(r, s, i - 1);
      }
      FirstIndexPositive(r, s, i);
    }
  }

  lemma {:induction false} FirstIndexPositive(r: seq<int>, s: seq<int>, i: nat)
    requires Admissible(r, s) && i < |r|
    ensures 0 < r[i]
    decreases i
  {
    assert GoodEntry(r, s, i);
    if i > 0 {
      FirstIndexPositive(r, s, i - 1);
    }
  }

  /* ---------- rows of cells ---------- */

  /** The exponents of an admissible vector are positive. */
  lemma ExponentsPositive(r: seq<int>, s: seq<int>)
    requires Admissible(r, s)
    ensures forall k :: 0 <= k < |s| ==> 0 < s[k]
  {
    forall k | 0 <= k < |s| ensures 0 < s[k] {
      assert GoodEntry(r, s, k);
    }
  }

  /** The exponents, from entry m on, of the entries whose index is at least t. */
  function Weight(r: seq<int>, s: seq<int>, t: int, m: nat): (w: int)
    requires |r| == |s| && m <= |r|
    ensures (forall k :: m <= k < |s| ==> 0 <= s[k]) ==> 0 <= w
    decreases |r| - m
  {
    if m == |r| then 0 else (if r[m] >= t then s[m] else 0) + Weight(r, s, t, m + 1)
  }

  /** The sum of the exponents from entry m on. */
  function Tail(s: seq<int>, m: nat): int
    requires m <= |s|
    decreases |s| - m
  {
    if m == |s| then 0 else s[m] + Tail(s, m + 1)
  }

  /** The number of rows: one less than the last index. */
  function Rows(r: seq<int>): int
    requires 0 < |r|
  {
    r[|r| - 1] - 1
  }

  /** The number of cells in row i. */
  function RowLen(r: seq<int>, s: seq<int>, i: int): (n: nat)
    requires Admissible(r, s)
  {
    ExponentsPositive(r, s);
    Weight(r, s, i + 2, 0)
  }

  /** The number of cells in the rows above row i. */
  function Below(r: seq<int>, s: seq<int>, i: int): (n: nat)
    requires Admissible(r, s)
    decreases Rows(r) - i
  {
    if i + 1 >= Rows(r) then 0 else RowLen(r, s, i + 1) + Below(r, s, i + 1)
  }

  /** Row i: its cells numbered consecutively after those of the rows above it. */
  function Row(r: seq<int>, s: seq<int>, i: int): (row: seq<int>)
    requires Admissible(r, s)
  {
    seq(RowLen(r, s, i), k => Below(r, s, i) + k + 1)
  }

  /** All rows, the bottom one first. */
  function EdgeRows(r: seq<int>, s: seq<int>): (rows: seq<seq<int>>)
    requires Admissible(r, s)
    ensures |rows| == Rows(r) && forall i :: 0 <= i < |rows| ==> rows[i] == Row(r, s, i)
  {
    FirstIndexPositive(r, s, |r| - 1);
    seq(Rows(r), i => Row(r, s, i))
  }

  /** The number of cells. */
  function EdgeCount(r: seq<int>, s: seq<int>): nat
    requires Admissible(r, s)
  {
    Below(r, s, -1)
  }

  /** Entries from m to j have index below t: they add nothing to the weight. */
  lemma {:induction false} WeightSkips(r: seq<int>, s: seq<int>, t: int, m: nat, j: int)
    requires |r| == |s| && m <= j + 1 <= |r|
    requires forall k :: m <= k <= j ==> r[k] < t
    ensures Weight(r, s, t, m) == Weight(r, s, t, j + 1)
    decreases j + 1 - m
  {
    if m < j + 1 {
      WeightSkips(r, s, t, m + 1, j);
    }
  }

  /** Entries from m on all have index at least t: the weight is their whole exponent. */
  lemma {:induction false} WeightAll(r: seq<int>, s: seq<int>, t: int, m: nat)
    requires |r| == |s| && m <= |r|
    requires forall k :: m <= k < |r| ==> r[k] >= t
    ensures Weight(r, s, t, m) == Tail(s, m)
    decreases |r| - m
  {
    if m < |r| {
      WeightAll(r, s, t, m + 1);
    }
  }

  /** A larger threshold gives a smaller weight. */
  lemma {:induction false} WeightMonotone(r: seq<int>, s: seq<int>, t: int, u: int, m: nat)
    requires |r| == |s| && m <= |r| && t <= u
    requires forall k :: m <= k < |s| ==> 0 <= s[k]
    ensures Weight(r, s, u, m) <= Weight(r, s, t, m)
    decreases |r| - m
  {
    if m < |r| {
      WeightMonotone(r, s, t, u, m + 1);
    }
  }

  /** Lower rows are never shorter than higher ones, and every row holds a cell. */
  lemma RowsShrinkUpwards(r: seq<int>, s: seq<int>, i: int, j: int)
    requires Admissible(r, s) && 0 <= i <= j < Rows(r)
    ensures RowLen(r, s, j) <= RowLen(r, s, i)
    ensures 0 < RowLen(r, s, j)
  {
    ExponentsPositive(r, s);
    WeightMonotone(r, s, i + 2, j + 2, 0);
    var last := |r| - 1;
    WeightMonotone(r, s, j + 2, r[last], 0);
    WeightLast(r, s, 0);
  }

  /** The weight at the last index counts at least the last exponent. */
  lemma {:induction false} WeightLast(r: seq<int>, s: seq<int>, m: nat)
    requires Admissible(r, s) && m < |r|
    ensures s[|s| - 1] <= Weight(r, s, r[|r| - 1], m)
    decreases |r| - m
  {
    ExponentsPositive(r, s);
    if m + 1 < |r| {
      WeightLast(r, s, m + 1);
    }
  }

  /** The cells of a row and of the rows above it together are those above the row below. */
  lemma BelowStep(r: seq<int>, s: seq<int>, i: int)
    requires Admissible(r, s) && -1 <= i < Rows(r) - 1
    ensures Below(r, s, i) == RowLen(r, s, i + 1) + Below(r, s, i + 1)
  {
  }

  /** Counting the cells above a row never grows as the row rises. */
  lemma {:induction false} BelowMonotone(r: seq<int>, s: seq<int>, i: int, j: int)
    requires Admissible(r, s) && i <= j
    ensures Below(r, s, j) <= Below(r, s, i)
    decreases j - i
  {
    if i < j {
      BelowMonotone(r, s, i + 1, j);
    }
  }

  /**
   * The numbering of the cells: every cell carries a number from 1 to EdgeCount,
   * a cell of a lower row a larger number than one of a higher row, and within a
   * row the numbers increase from left to right; so no two cells share a number.
   */
  lemma CellNumbers(r: seq<int>, s: seq<int>, i: int, k: int, j: int, m: int)
    requires Admissible(r, s) && 0 <= i <= j < Rows(r)
    requires 0 <= k < RowLen(r, s, i) && 0 <= m < RowLen(r, s, j)
    ensures 1 <= Row(r, s, i)[k] <= EdgeCount(r, s)
    ensures (i, k) != (j, m) ==> Row(r, s, i)[k] != Row(r, s, j)[m]
    ensures i < j ==> Row(r, s, j)[m] < Row(r, s, i)[k]
  {
    BelowMonotone(r, s, -1, i - 1);
    BelowStep(r, s, i - 1);
    if i < j {
      BelowMonotone(r, s, i, j - 1);
      BelowStep(r, s, j - 1);
    }
  }

  /** Every number from 1 to the cells above row i is the number of a cell above it. */
  lemma {:induction false} Locate(r: seq<int>, s: seq<int>, i: int, e: int) returns (j: int, m: int)
    requires Admissible(r, s) && -1 <= i && 0 < e <= Below(r, s, i)
    ensures i < j < Rows(r) && 0 <= m < RowLen(r, s, j) && Row(r, s, j)[m] == e
    decreases Rows(r) - i
  {
    if e > Below(r, s, i + 1) {
      j, m := i + 1, e - Below(r, s, i + 1) - 1;
    } else {
      j, m := Locate(r, s, i + 1, e);
    }
  }

  /* ---------- the boundary walk ---------- */

  /** The walk's position (i, j) and its direction (di, dj). */
  datatype Cursor = Cursor(i: int, j: int, di: int, dj: int)

  const Start := Cursor(0, 0, 1, 0)

  /** One step of the walk: the new cursor, and the signed cell it reads, if it lands on one. */
  function Advance(edges: seq<seq<int>>, c: Cursor): (r: Result<(Cursor, Option<int>)>)
  {
    var i, j := c.i + c.di, c.j + c.dj;
    if i < 0 then Ok((Cursor(i, j, 1, 0), None))
    else if i >= |edges| || j >= |edges[i]| then Ok((Cursor(i, j, -1, -1), None))
    else
      var j' := if j < 0 then j + |edges[i]| else j;
      if j' < 0 then Err(OutOfRange)
      else Ok((Cursor(i, j', c.di, c.dj), Some(c.di * edges[i][j'])))
  }

  /** The walk is back at its start, going up. */
  predicate Home(c: Cursor)
  {
    c.i == 0 && c.j == 0 && c.di == 1
  }

  /**
   * initBoundary from cursor c with the cells acc read so far into a loop of cap
   * entries, within fuel steps: the loop once the walk is home and every entry is
   * written; a shorter loop means the boundary has several components, and a
   * longer one overflows the array.
   */
  function WalkFrom(edges: seq<seq<int>>, c: Cursor, acc: seq<int>, cap: nat, fuel: nat): (r: Result<seq<int>>)
    requires |acc| <= cap
    ensures r.Ok? ==> |r.value| == cap && r.value[..|acc|] == acc
    decreases fuel
  {
    if fuel == 0 then Err(NoClose)
    else match Advance(edges, c)
      case Err(e) => Err(e)
      case Ok(step) =>
        var c', cell := step.0, step.1;
        if cell.Some? && |acc| == cap then Err(OutOfRange)
        else
          var acc' := if cell.Some? then acc + [cell.value] else acc;
          if Home(c') then (if |acc'| < cap then Err(OneComponent) else Ok(acc'))
          else
            var r := WalkFrom(edges, c', acc', cap, fuel - 1);
            assert r.Ok? ==> r.value[..|acc|] == r.value[..|acc'|][..|acc|];
            r
  }

  /** The numbers of the cells lie between 1 and n. */
  predicate CellsWithin(edges: seq<seq<int>>, n: int)
  {
    forall i, j :: 0 <= i < |edges| && 0 <= j < |edges[i]| ==> 1 <= edges[i][j] <= n
  }

  /** Every entry is a cell number up to n or its negative. */
  predicate SignedWithin(xs: seq<int>, n: int)
  {
    forall k :: 0 <= k < |xs| ==> xs[k] != 0 && -n <= xs[k] <= n
  }

  /** The walk reads cells, upwards as themselves and downwards as their inverses. */
  lemma {:induction false} WalkSigned(edges: seq<seq<int>>, c: Cursor, acc: seq<int>, cap: nat, fuel: nat, n: int)
    requires |acc| <= cap && CellsWithin(edges, n) && SignedWithin(acc, n)
    requires c.di == 1 || c.di == -1
    ensures WalkFrom(edges, c, acc, cap, fuel).Ok? ==> SignedWithin(WalkFrom(edges, c, acc, cap, fuel).value, n)
    decreases fuel
  {
    if fuel > 0 && Advance(edges, c).Ok? {
      var step := Advance(edges, c).value;
      var c', cell := step.0, step.1;
      if !(cell.Some? && |acc| == cap) {
        var acc' := if cell.Some? then acc + [cell.value] else acc;
        if !Home(c') {
          WalkSigned(edges, c', acc', cap, fuel - 1, n);
        }
      }
    }
  }

  /**
   * With no rows every step lands outside the rows: below them the walk turns up,
   * elsewhere it turns down, so it is never at row 0 going up and never comes home.
   */
  lemma {:induction false} NoRowsNoClose(c: Cursor, cap: nat, fuel: nat)
    ensures WalkFrom([], c, [], cap, fuel) == Err(NoClose)
    decreases fuel
  {
    if fuel > 0 {
      var c' := Advance([], c).value.0;
      assert !Home(c');
      NoRowsNoClose(c', cap, fuel - 1);
    }
  }

  /* ---------- the knot ---------- */

  /** What the constructor builds: the rows and the boundary loop, or the exception. */
  function Build(r: seq<int>, s: seq<int>, fuel: nat): (res: Result<(seq<seq<int>>, seq<int>)>)
    ensures res.Ok? ==> Admissible(r, s) && res.value.0 == EdgeRows(r, s)
    ensures res.Ok? ==> |res.value.1| == 2 * EdgeCount(r, s)
  {
    match Check(r, s)
    case Fail(m) => Err(m)
    case Pass =>
      var rows := EdgeRows(r, s);
      match WalkFrom(rows, Start, [], 2 * EdgeCount(r, s), fuel)
      case Err(m) => Err(m)
      case Ok(loop) => Ok((rows, loop))
  }

  /** For an acceptable vector, the constructor's outcome is that of its walk. */
  lemma BuildWalk(r: seq<int>, s: seq<int>, fuel: nat)
    requires Admissible(r, s)
    ensures Build(r, s, fuel).Ok? <==> WalkFrom(EdgeRows(r, s), Start, [], 2 * EdgeCount(r, s), fuel).Ok?
    ensures Build(r, s, fuel).Ok? ==>
      Build(r, s, fuel).value == (EdgeRows(r, s), WalkFrom(EdgeRows(r, s), Start, [], 2 * EdgeCount(r, s), fuel).value)
    ensures Build(r, s, fuel).Err? ==> Build(r, s, fuel).msg == WalkFrom(EdgeRows(r, s), Start, [], 2 * EdgeCount(r, s), fuel).msg
  {
  }

  /** A knot the constructor accepts has a boundary loop of signed cell numbers, two per cell. */
  lemma BuildLoop(r: seq<int>, s: seq<int>, fuel: nat)
    requires Build(r, s, fuel).Ok?
    ensures SignedWithin(Build(r, s, fuel).value.1, EdgeCount(r, s))
    ensures |Build(r, s, fuel).value.1| == 2 * EdgeCount(r, s)
  {
    var rows := EdgeRows(r, s);
    forall i, j | 0 <= i < |rows| && 0 <= j < |rows[i]| ensures 1 <= rows[i][j] <= EdgeCount(r, s) {
      assert rows[i] == Row(r, s, i);
      CellNumbers(r, s, i, j, i, j);
    }
    WalkSigned(rows, Start, [], 2 * EdgeCount(r, s), fuel, EdgeCount(r, s));
  }

  /**
   * r = [1] passes the constructor's checks but has no rows: the walk of
   * initBoundary never returns home, whatever number of steps it is given.
   */
  lemma SingleUnitIndexNeverCloses(x: int, fuel: nat)
    requires 0 < x
    ensures Admissible([1], [x]) && EdgeRows([1], [x]) == []
    ensures Build([1], [x], fuel) == Err(NoClose)
  {
    assert GoodEntry([1], [x], 0);
    NoRowsNoClose(Start, 2 * EdgeCount([1], [x]), fuel);
  }

  /** getLabel: a positive number is the edge before it, a negative one that edge inverted. */
  function Label(e: int): (lab: string)
    ensures 0 < |lab| && D.KET !in lab
  {
    if e > 0 then IndexToLabel(e - 1, false)
    else if e < 0 then IndexToLabel(-e - 1, true)
    // indexToLabel(-1, true) is the character before 'A'
    else "@"
  }

  /** The letter a nonzero cell number stands for. */
  function CellSym(e: int): Sym
    requires e != 0 && -e - 1 <= MAXINDEX && e - 1 <= MAXINDEX
  {
    if e > 0 then Sym(e - 1, false) else Sym(-e - 1, true)
  }

  /** The label of a nonzero cell number reads back as its letter. */
  lemma LabelReads(e: int)
    requires e != 0 && -e - 1 <= MAXINDEX && e - 1 <= MAXINDEX
    ensures Label(e) == SymToLabel(CellSym(e))
    ensures LabelToSym(Label(e)) == Some(CellSym(e))
  {
    if e > 0 {
      assert Label(e) == IndexToLabel(e - 1, false);
    } else {
      assert Label(e) == IndexToLabel(-e - 1, true);
    }
    LabelRoundTrip(CellSym(e));
  }

  /** The text getFixedWord produces: the labels of the entries in order. */
  function FixedWord(loop: seq<int>): string
  {
    if loop == [] then [] else FixedWord(loop[..|loop| - 1]) + Label(loop[|loop| - 1])
  }

  /** The path of a signed loop. */
  function LoopPath(loop: seq<int>, n: int): (p: P.Path)
    requires SignedWithin(loop, n) && n <= MAXINDEX + 1
    ensures |p| == |loop|
  {
    seq(|loop|, k requires 0 <= k < |loop| => CellSym(loop[k]))
  }

  /** The fixed word is the text of the loop's path. */
  lemma {:induction false} FixedWordText(loop: seq<int>, n: int)
    requires SignedWithin(loop, n) && n <= MAXINDEX + 1
    ensures FixedWord(loop) == PathToString(LoopPath(loop, n))
    decreases |loop|
  {
    if loop != [] {
      var front := loop[..|loop| - 1];
      var e := loop[|loop| - 1];
      var c := CellSym(e);
      FixedWordText(front, n);
      assert LoopPath(loop, n) == LoopPath(front, n) + [c];
      W.PathToStringAppend(LoopPath(front, n), [c]);
      LabelReads(e);
      assert PathToString([c]) == SymToLabel(c) + PathToString([c][1..]);
    }
  }

  /** So the fixed word reads back as the loop's path. */
  lemma FixedWordReads(loop: seq<int>, n: int)
    requires SignedWithin(loop, n) && n <= MAXINDEX + 1
    ensures StringToPath(FixedWord(loop)) == Some(LoopPath(loop, n))
  {
    FixedWordText(loop, n);
    PathStringRoundTrip(LoopPath(loop, n));
  }

  /** The fixed word of a knot with few enough cells reads as a loop of two letters per cell, all among its edges. */
  lemma FixedWordOfKnot(r: seq<int>, s: seq<int>, fuel: nat)
    requires Build(r, s, fuel).Ok? && EdgeCount(r, s) <= MAXINDEX + 1
    ensures StringToPath(FixedWord(Build(r, s, fuel).value.1)).Some?
    ensures |StringToPath(FixedWord(Build(r, s, fuel).value.1)).value| == 2 * EdgeCount(r, s)
    ensures P.LettersBelow(StringToPath(FixedWord(Build(r, s, fuel).value.1)).value, EdgeCount(r, s))
  {
    var loop := Build(r, s, fuel).value.1;
    BuildLoop(r, s, fuel);
    FixedWordReads(loop, EdgeCount(r, s));
  }

  /**
   * The fixed word of a knot holds no dot, so getMonodromy always twists with the tree
   * spanningTree finds.
   */
  lemma MonodromyTree(r: seq<int>, s: seq<int>, fuel: nat, auto: P.Path)
    requires Build(r, s, fuel).Ok? && EdgeCount(r, s) <= MAXINDEX + 1
    ensures var fx := FixedWord(Build(r, s, fuel).value.1);
      StringToPath(fx).Some? && FT.SplitFixed(fx) == Ok((StringToPath(fx).value, []))
    ensures var fx := FixedWord(Build(r, s, fuel).value.1);
      FT.SetupOf(fx, auto).Ok? ==> FT.SetupOf(fx, auto).value.tree == auto
  {
    var loop := Build(r, s, fuel).value.1;
    BuildLoop(r, s, fuel);
    FixedWordText(loop, EdgeCount(r, s));
    FixedWordReads(loop, EdgeCount(r, s));
    FT.SplitFixedText(LoopPath(loop, EdgeCount(r, s)), []);
  }

  /** The loop text of the twist about cells j and j + 1 of a row: the first, then the second backwards. */
  function PairLoop(row: seq<int>, j: nat): (x: string)
    requires j + 1 < |row|
    ensures D.KET !in x
  {
    Label(row[j]) + Label(-row[j + 1])
  }

  /** The twist loops of a row from position m on, the rightmost pair first. */
  function RowLoops(row: seq<int>, m: nat): (ls: seq<string>)
    ensures |ls| == if m + 1 < |row| then |row| - 1 - m else 0
    ensures forall k :: 0 <= k < |ls| ==> D.KET !in ls[k]
    decreases |row| - m
  {
    if m + 1 >= |row| then [] else RowLoops(row, m + 1) + [PairLoop(row, m)]
  }

  /** The twist loops of the rows up to i, the bottom row first. */
  function Loops(rows: seq<seq<int>>): (ls: seq<string>)
    ensures forall k :: 0 <= k < |ls| ==> D.KET !in ls[k]
  {
    if rows == [] then [] else Loops(rows[..|rows| - 1]) + RowLoops(rows[|rows| - 1], 0)
  }

  /** Each loop between brackets. */
  function Bracketed(ls: seq<string>): string
  {
    if ls == [] then [] else [D.BRA] + ls[0] + [D.KET] + Bracketed(ls[1..])
  }

  /** One more loop goes at the end. */
  lemma {:induction false} BracketedSnoc(ls: seq<string>, x: string)
    ensures Bracketed(ls + [x]) == Bracketed(ls) + [D.BRA] + x + [D.KET]
    decreases |ls|
  {
    if ls == [] {
      assert Bracketed([x]) == [D.BRA] + x + [D.KET] + Bracketed([]);
    } else {
      assert (ls + [x])[0] == ls[0] && (ls + [x])[1..] == ls[1..] + [x];
      BracketedSnoc(ls[1..], x);
    }
  }

  /** Reading twists from place i to the end of the text, as the twist readers do. */
  function ItemsFrom(t: string, i: nat): Result<seq<(bool, string)>>
    requires i <= |t|
    decreases |t| - i
  {
    if i == |t| then Ok([])
    else match D.ItemAt(t, i)
      case Err(m) => Err(m)
      case Ok(it) =>
        match ItemsFrom(t, it.last + 1)
        case Err(m) => Err(m)
        case Ok(rest) => Ok([(it.inv, it.text)] + rest)
  }

  /** Loops read as twists, none inverted. */
  function Plain(ls: seq<string>): (items: seq<(bool, string)>)
    ensures |items| == |ls| && forall k :: 0 <= k < |ls| ==> items[k] == (false, ls[k])
  {
    if ls == [] then [] else [(false, ls[0])] + Plain(ls[1..])
  }

  /** The text x stands in t from place p on. */
  predicate Placed(t: string, p: nat, x: string)
  {
    p + |x| <= |t| && forall k :: 0 <= k < |x| ==> t[p + k] == x[k]
  }

  /** A bracketed loop at place p reads as that loop, not inverted, ending at its ']'. */
  lemma ItemOfPlaced(t: string, p: nat, text: string)
    requires D.KET !in text && Placed(t, p, [D.BRA] + text + [D.KET])
    ensures D.ItemAt(t, p) == Ok(D.Item(false, text, p + |text| + 1))
  {
    var x := [D.BRA] + text + [D.KET];
    assert t[p] == x[0] == D.BRA;
    D.SignEndIs(t, p, p);
    var m := p + |text| + 1;
    assert t[m] == x[|text| + 1] == D.KET;
    forall k | p + 1 <= k < m ensures t[k] != D.KET {
      assert t[k] == x[k - p] == text[k - p - 1];
    }
    D.KetFromIs(t, p + 1, m);
    assert t[p + 1..m] == text by {
      forall k | 0 <= k < |text| ensures t[p + 1..m][k] == text[k] {
        assert t[p + 1 + k] == x[k + 1];
      }
    }
  }

  /** The bracketed loops, filling t from place p to its end, read back in order and none inverted. */
  lemma {:induction false} BracketedReads(t: string, p: nat, ls: seq<string>)
    requires forall k :: 0 <= k < |ls| ==> D.KET !in ls[k]
    requires Placed(t, p, Bracketed(ls)) && p + |Bracketed(ls)| == |t|
    ensures ItemsFrom(t, p) == Ok(Plain(ls))
    decreases |ls|
  {
    if ls != [] {
      var x := [D.BRA] + ls[0] + [D.KET];
      var b := Bracketed(ls[1..]);
      assert Bracketed(ls) == x + b;
      assert Placed(t, p, x) by {
        forall k | 0 <= k < |x| ensures t[p + k] == x[k] {
          assert (x + b)[k] == x[k];
        }
      }
      ItemOfPlaced(t, p, ls[0]);
      var q := p + |x|;
      assert Placed(t, q, b) by {
        forall k | 0 <= k < |b| ensures t[q + k] == b[k] {
          assert (x + b)[|x| + k] == b[k];
        }
      }
      BracketedReads(t, q, ls[1..]);
      assert ItemsFrom(t, p) == Ok([(false, ls[0])] + Plain(ls[1..]));
    }
  }

  /** The twist text of rows reads back as their twist loops, in order and none inverted. */
  lemma TwistsRead(rows: seq<seq<int>>)
    ensures ItemsFrom(Bracketed(Loops(rows)), 0) == Ok(Plain(Loops(rows)))
  {
    var ls := Loops(rows);
    var t := Bracketed(ls);
    assert Placed(t, 0, t) by {
      forall k | 0 <= k < |t| ensures t[0 + k] == t[k] {
      }
    }
    BracketedReads(Bracketed(ls), 0, ls);
  }

  /** Each twist loop is the first cell of a pair followed by the second one backwards. */
  lemma PairLoopReads(row: seq<int>, j: nat)
    requires j + 1 < |row| && 0 < row[j] <= MAXINDEX + 1 && 0 < row[j + 1] <= MAXINDEX + 1
    ensures StringToPath(PairLoop(row, j)) == Some([CellSym(row[j]), CellSym(-row[j + 1])])
  {
    var p := [CellSym(row[j]), CellSym(-row[j + 1])];
    LabelReads(row[j]);
    LabelReads(-row[j + 1]);
    assert PathToString(p[1..]) == SymToLabel(p[1]) + PathToString([]);
    assert PathToString(p) == SymToLabel(p[0]) + PathToString(p[1..]);
    assert PathToString(p) == PairLoop(row, j);
    PathStringRoundTrip(p);
  }

  /** One twist for each pair of neighbouring cells in a row. */
  lemma {:induction false} LoopsCount(r: seq<int>, s: seq<int>, n: nat)
    requires Admissible(r, s) && n <= Rows(r)
    ensures |Loops(EdgeRows(r, s)[..n])| == EdgeCount(r, s) - Below(r, s, n - 1) - n
    decreases n
  {
    var rows := EdgeRows(r, s);
    if n > 0 {
      LoopsCount(r, s, n - 1);
      assert rows[..n][..n - 1] == rows[..n - 1];
      RowsShrinkUpwards(r, s, n - 1, n - 1);
      BelowStep(r, s, n - 2);
    }
  }

  /** getTwists yields as many twists as there are cells, less one per row. */
  lemma TwistCount(r: seq<int>, s: seq<int>)
    requires Admissible(r, s)
    ensures |Loops(EdgeRows(r, s))| == EdgeCount(r, s) - Rows(r)
  {
    FirstIndexPositive(r, s, |r| - 1);
    LoopsCount(r, s, Rows(r));
    assert EdgeRows(r, s)[..Rows(r)] == EdgeRows(r, s);
  }

  /* ---------- the name ---------- */

  /** One factor r^s of the vector. */
  function Factor(r: seq<int>, s: seq<int>, i: nat): string
    requires i < |r| && i < |s|
  {
    IntToString(r[i]) + "^" + IntToString(s[i])
  }

  /** The first n factors, separated by sep. */
  function Factors(r: seq<int>, s: seq<int>, sep: char, n: nat): string
    requires n <= |r| && n <= |s|
  {
    if n == 0 then []
    else if n == 1 then Factor(r, s, 0)
    else Factors(r, s, sep, n - 1) + [sep] + Factor(r, s, n - 1)
  }

  const NamePrefix := "LorenzKnot_"

  /** toString: the prefix, then the factors separated by dots. */
  function Name(r: seq<int>, s: seq<int>): string
    requires |r| == |s|
  {
    NamePrefix + Factors(r, s, '.', |r|)
  }

  /* ---------- the knot as an object ---------- */

  class LorenzKnot {
    var r: seq<int>
    var s: seq<int>
    var edges: array<seq<int>>
    var fixedLoop: array<int>
    var edgeCount: int
    /** The number of steps the boundary walk was given. */
    ghost var steps: nat

    /** What the constructor leaves: the numbered rows and the closed boundary loop. */
    ghost predicate Valid()
      reads this, edges, fixedLoop
    {
      Build(r, s, steps) == Ok((edges[..], fixedLoop[..])) && edgeCount == EdgeCount(r, s)
    }

    /** The fields before initEdges runs. */
    constructor Init(r: seq<int>, s: seq<int>)
      ensures this.r == r && this.s == s && edgeCount == 0
    {
      this.r := r;
      this.s := s;
      edges := new seq<int>[0];
      fixedLoop := new int[0];
      edgeCount := 0;
    }

    /**
     * The LorenzKnot constructor on (r, s): the checks of the vector, then initEdges and initBoundary,
     * the walk given fuel steps. The knot, or no knot and the exception's message.
     */
    static method Create(r: seq<int>, s: seq<int>, fuel: nat) returns (k: LorenzKnot?, res: Outcome)
      ensures res.Pass? <==> Build(r, s, fuel).Ok?
      ensures res.Fail? ==> k == null && res.msg == Build(r, s, fuel).msg
      ensures res.Pass? ==> k != null && fresh(k) && k.Valid() && k.r == r && k.s == s && k.steps == fuel
    {
      k := null;
      res := CheckArgs(r, s);
      if res.Fail? {
        return;
      }
      var knot := new LorenzKnot.Init(r, s);
      knot.InitEdges();
      res := knot.InitBoundary(fuel);
      if res.Pass? {
        k := knot;
      }
    }

    /** The constructor's loop over the entries, with prev the index before. */
    static method CheckArgs(r: seq<int>, s: seq<int>) returns (res: Outcome)
      ensures res == Check(r, s)
    {
      if |r| != |s| {
        return Fail(LengthsDiffer);
      }
      if |r| == 0 {
        return Fail(EmptyArrays);
      }
      var prev := 0;
      var i := 0;
      while i < |r|
        invariant 0 <= i <= |r| && prev == (if i == 0 then 0 else r[i - 1])
        invariant forall m :: 0 <= m < i ==> GoodEntry(r, s, m)
      {
        if r[i] <= prev || s[i] <= 0 {
          assert !GoodEntry(r, s, i);
          return Fail(BadEntry);
        }
        prev := r[i];
        i := i + 1;
      }
      return Pass;
    }

    /** initEdges: the rows from the top down, each numbered on from the rows above. */
    method InitEdges()
      requires Admissible(r, s) && edgeCount == 0
      modifies this`edges, this`edgeCount
      ensures fresh(edges)
      ensures edges[..] == EdgeRows(r, s) && edgeCount == EdgeCount(r, s)
    {
      FirstIndexPositive(r, s, |r| - 1);
      var j := |r| - 1;
      var i := r[j] - 1;
      var n := s[j];
      j := j - 1;
      edges := new seq<int>[i];
      i := i - 1;
      forall m | 0 <= m <= j ensures r[m] <= i + 2 {
        IndicesIncrease(r, s, m, |r| - 1);
      }
      while i >= 0
        invariant -1 <= i < edges.Length == Rows(r) && -1 <= j < |r| - 1
        invariant fresh(edges)
        invariant n == Tail(s, j + 1)
        invariant forall m :: j < m < |r| ==> r[m] >= i + 2
        invariant forall m :: 0 <= m <= j ==> r[m] <= i + 2
        invariant forall m :: i < m < edges.Length ==> edges[m] == Row(r, s, m)
        invariant edgeCount == Below(r, s, i)
      {
        var moved := j >= 0 && i + 2 == r[j];
        if moved {
          n := n + s[j];
          j := j - 1;
        }
        RowLenIs(r, s, i, j, moved);
        var row := NumberRow(n);
        edges[i] := row;
        BelowStep(r, s, i - 1);
        i := i - 1;
      }
    }

    /** The inner loop of initEdges: n cells numbered on from edgeCount. */
    method NumberRow(n: nat) returns (row: seq<int>)
      modifies this`edgeCount
      ensures edgeCount == old(edgeCount) + n
      ensures |row| == n && forall x :: 0 <= x < n ==> row[x] == old(edgeCount) + x + 1
    {
      row := [];
      var k := 0;
      while k < n
        invariant 0 <= k <= n && edgeCount == old(edgeCount) + k
        invariant |row| == k && forall x :: 0 <= x < k ==> row[x] == old(edgeCount) + x + 1
      {
        edgeCount := edgeCount + 1;
        row := row + [edgeCount];
        k := k + 1;
      }
    }

    /** initBoundary: the walk around the rows, at most fuel steps long. */
    method InitBoundary(fuel: nat) returns (res: Outcome)
      requires Admissible(r, s) && edges[..] == EdgeRows(r, s) && edgeCount == EdgeCount(r, s)
      modifies this`fixedLoop, this`steps
      ensures res.Pass? <==> Build(r, s, fuel).Ok?
      ensures res.Fail? ==> res.msg == Build(r, s, fuel).msg
      ensures res.Pass? ==> Valid() && steps == fuel
    {
      fixedLoop := new int[2 * edgeCount];
      steps := fuel;
      res := Walk(edges, fixedLoop, fuel);
      BuildWalk(r, s, fuel);
    }

    /** The do-while loop of initBoundary, writing the cells it reads into loop. */
    static method Walk(edges: array<seq<int>>, loop: array<int>, fuel: nat) returns (res: Outcome)
      modifies loop
      ensures res.Pass? <==> WalkFrom(edges[..], Start, [], loop.Length, fuel).Ok?
      ensures res.Fail? ==> res.msg == WalkFrom(edges[..], Start, [], loop.Length, fuel).msg
      ensures res.Pass? ==> loop[..] == WalkFrom(edges[..], Start, [], loop.Length, fuel).value
    {
      ghost var goal := WalkFrom(edges[..], Start, [], loop.Length, fuel);
      var k := 0;
      var i, j := 0, 0;
      var di, dj := 1, 0;
      var left := fuel;
      while true
        invariant 0 <= k <= loop.Length
        invariant WalkFrom(edges[..], Cursor(i, j, di, dj), loop[..k], loop.Length, left) == goal
        decreases left
      {
        if left == 0 {
          return Fail(NoClose);
        }
        ghost var acc := loop[..k];
        ghost var c := Cursor(i, j, di, dj);
        i := i + di;
        j := j + dj;
        if i < 0 {
          di, dj := 1, 0;
        } else if i >= edges.Length || j >= |edges[i]| {
          di, dj := -1, -1;
        } else {
          if j < 0 {
            j := j + |edges[i]|;
          }
          if j < 0 || k == loop.Length {
            return Fail(OutOfRange);
          }
          loop[k] := di * edges[i][j];
          k := k + 1;
          assert loop[..k] == acc + [di * edges[i][j]];
        }
        assert Advance(edges[..], c).Ok? && Advance(edges[..], c).value.0 == Cursor(i, j, di, dj);
        if i == 0 && j == 0 && di == 1 {
          assert goal == if k < loop.Length then Err(OneComponent) else Ok(loop[..k]);
          break;
        }
        left := left - 1;
      }
      if k < loop.Length {
        return Fail(OneComponent);
      }
      assert loop[..] == loop[..k];
      return Pass;
    }

    /** getFixedWord: the labels of the boundary loop. */
    method GetFixedWord() returns (w: string)
      requires Valid()
      ensures w == FixedWord(fixedLoop[..])
    {
      w := "";
      var i := 0;
      while i < fixedLoop.Length
        invariant 0 <= i <= fixedLoop.Length && w == FixedWord(fixedLoop[..i])
      {
        assert fixedLoop[..i + 1][..i] == fixedLoop[..i];
        w := w + Label(fixedLoop[i]);
        i := i + 1;
      }
      assert fixedLoop[..i] == fixedLoop[..];
    }

    /** getTwists: for each row, bottom first, the twists about its neighbouring cells from the right. */
    method GetTwists() returns (t: string)
      requires Valid()
      ensures t == Bracketed(Loops(edges[..]))
    {
      t := "";
      var i := 0;
      while i < edges.Length
        invariant 0 <= i <= edges.Length && t == Bracketed(Loops(edges[..i]))
      {
        t := RowTwists(t, edges[i], Loops(edges[..i]));
        assert edges[..i + 1][..i] == edges[..i];
        i := i + 1;
      }
      assert edges[..i] == edges[..];
    }

    /** One pair of a row appended to the loops and to their bracketed text. */
    static lemma RowLoopStep(ls: seq<string>, row: seq<int>, j: nat, done: seq<string>, x: string)
      requires j + 1 < |row| && done == ls + RowLoops(row, j + 1) && x == Label(row[j]) + Label(-row[j + 1])
      ensures done + [x] == ls + RowLoops(row, j)
      ensures Bracketed(done + [x]) == Bracketed(done) + [D.BRA] + x + [D.KET]
    {
      assert RowLoops(row, j) == RowLoops(row, j + 1) + [x];
      BracketedSnoc(done, x);
    }

    /** The inner loop of getTwists: the pairs of one row appended, the rightmost first. */
    static method RowTwists(t0: string, row: seq<int>, ghost ls: seq<string>) returns (t: string)
      requires t0 == Bracketed(ls)
      ensures t == Bracketed(ls + RowLoops(row, 0))
    {
      t := t0;
      ghost var done := ls;
      var j := |row| - 2;
      while j >= 0
        invariant -2 <= j <= |row| - 2 && (j == -2 ==> |row| == 0)
        invariant j >= -1 ==> done == ls + RowLoops(row, j + 1)
        invariant j == -2 ==> done == ls
        invariant t == Bracketed(done)
      {
        var x := Label(row[j]) + Label(-row[j + 1]);
        RowLoopStep(ls, row, j, done, x);
        t := t + [D.BRA] + x + [D.KET];
        done := done + [x];
        j := j - 1;
      }
      if j == -2 {
        assert ls + RowLoops(row, 0) == ls;
      }
    }

    /**
     * getMonodromy: twistWithFixedWord of the fixed word, the twists and the name of
     * the knot; auto stands for the tree spanningTree finds.
     */
    method GetMonodromy(auto: P.Path)
      returns (g: GM.GraphMap, res: Outcome, ghost evaluated: bool, ghost flags: seq<bool>, ghost table: seq<seq<P.Path>>)
      requires Valid()
      ensures fresh(g) && g.Valid()
      ensures FT.TwistedBy(FixedWord(fixedLoop[..]), Bracketed(Loops(edges[..])), Name(r, s), auto, g.State(), res,
                           evaluated, flags, table)
    {
      var fx := GetFixedWord();
      var tw := GetTwists();
      var lab := ToString();
      g, res, evaluated, flags, table := FT.TwistWithFixedWord(fx, tw, lab, auto);
    }

    /** toString: "LorenzKnot_", then each factor r^s, with a dot after all but the last. */
    method ToString() returns (text: string)
      requires |r| == |s|
      ensures text == Name(r, s)
    {
      text := NamePrefix;
      var i := 0;
      while i < |r|
        invariant 0 <= i <= |r|
        invariant text == NamePrefix + Factors(r, s, '.', i) + (if 0 < i < |r| then ['.'] else [])
      {
        var piece := IntToString(r[i]) + "^" + IntToString(s[i]);
        var dot := if i < |r| - 1 then ['.'] else [];
        FactorsStep(text, NamePrefix, r, s, '.', i, piece, dot);
        text := text + piece + dot;
        i := i + 1;
      }
    }
  }

  /** One more factor, with its separator unless it is the last, extends the text of the factors. */
  lemma FactorsStep(text: string, prefix: string, r: seq<int>, s: seq<int>, sep: char, i: nat, f: string, d: string)
    requires i < |r| == |s| && f == Factor(r, s, i) && d == (if i < |r| - 1 then [sep] else [])
    requires text == prefix + Factors(r, s, sep, i) + (if 0 < i then [sep] else [])
    ensures text + f + d == prefix + Factors(r, s, sep, i + 1) + d
  {
    if i == 0 {
      assert Factors(r, s, sep, i + 1) == f;
      assert text == prefix;
    } else {
      var g := Factors(r, s, sep, i);
      assert Factors(r, s, sep, i + 1) == g + [sep] + f;
      Concat(prefix, g, [sep], f, d);
    }
  }

  lemma Concat(a: string, b: string, c: string, e: string, d: string)
    ensures a + b + c + e + d == a + (b + c + e) + d
  {
  }

  /** Where the pointer j has passed the entries of index i + 2 and above, row i counts their exponents. */
  lemma RowLenIs(r: seq<int>, s: seq<int>, i: int, j: int, moved: bool)
    requires Admissible(r, s) && -1 <= j < |r|
    requires forall m :: j < m < |r| ==> r[m] >= i + 2
    requires forall m :: 0 <= m <= j ==> r[m] <= i + 2
    requires moved ==> j + 1 < |r| && r[j + 1] == i + 2
    requires !moved ==> j < 0 || r[j] != i + 2
    ensures RowLen(r, s, i) == Tail(s, j + 1)
    ensures forall m :: 0 <= m <= j ==> r[m] < i + 2
  {
    forall m | 0 <= m <= j ensures r[m] < i + 2 {
      if moved {
        IndicesIncrease(r, s, m, j + 1);
      } else if m < j {
        IndicesIncrease(r, s, m, j);
      }
    }
    WeightSkips(r, s, i + 2, 0, j);
    WeightAll(r, s, i + 2, j + 1);
  }
}
