/**
 * IntMatrix.java: square matrices of whole numbers, stored in a `double[][]` of
 * which the upper-left n x n window is in use; the product and sum of two of them,
 * the number of nonzero entries, the irreducibility test of the train track
 * algorithm and the text of a polynomial.
 *
 * The entries are modelled as unbounded integers: the source's doubles hold the
 * whole numbers the algorithm produces exactly only up to 2^53 in absolute value,
 * and rounding beyond that is not modelled. The mathematics is stated on values
 * (Mat, a sequence of rows); the class keeps its entries in a two-dimensional array
 * like the source.
 */
module IntMatrices {
  import opened Wrappers
  import opened Numerals

  type Mat = seq<seq<int>>

  /** A square matrix of dimension n. */
  predicate Square(m: Mat, n: nat)
  {
    |m| == n && forall i :: 0 <= i < n ==> |m[i]| == n
  }

  /** No entry is negative. */
  predicate Nonneg(m: Mat)
  {
    forall i, j :: 0 <= i < |m| && 0 <= j < |m[i]| ==> m[i][j] >= 0
  }

  /** The zero matrix of dimension n. */
  function Zero(n: nat): (z: Mat)
    ensures Square(z, n) && Nonneg(z)
    ensures forall i, j :: 0 <= i < n && 0 <= j < n ==> z[i][j] == 0
  {
    seq(n, i => seq(n, j => 0))
  }

  /** The identity matrix of dimension n. */
  function Identity(n: nat): (e: Mat)
    ensures Square(e, n) && Nonneg(e)
    ensures forall i, j :: 0 <= i < n && 0 <= j < n ==> e[i][j] == (if i == j then 1 else 0)
  {
    seq(n, i => seq(n, j => if i == j then 1 else 0))
  }

  /** The first k terms of the scalar product of row i of a and column j of b. */
  function Dot(a: Mat, b: Mat, n: nat, i: nat, j: nat, k: nat): int
    requires Square(a, n) && Square(b, n) && i < n && j < n && k <= n
  {
    if k == 0 then 0 else Dot(a, b, n, i, j, k - 1) + a[i][k - 1] * b[k - 1][j]
  }

  /** The matrix product. */
  function Product(a: Mat, b: Mat, n: nat): (c: Mat)
    requires Square(a, n) && Square(b, n)
    ensures Square(c, n)
  {
    seq(n, i requires 0 <= i < n => seq(n, j requires 0 <= j < n => Dot(a, b, n, i, j, n)))
  }

  /** The entrywise sum. */
  function Plus(a: Mat, b: Mat, n: nat): (c: Mat)
    requires Square(a, n) && Square(b, n)
    ensures Square(c, n)
  {
    seq(n, i requires 0 <= i < n => seq(n, j requires 0 <= j < n => a[i][j] + b[i][j]))
  }

  /** The number of nonzero entries among the first k of a row. */
  function RowCount(r: seq<int>, k: nat): (c: nat)
    requires k <= |r|
    ensures c <= k
  {
    if k == 0 then 0 else RowCount(r, k - 1) + (if r[k - 1] != 0 then 1 else 0)
  }

  /** The number of nonzero entries in the first k rows. */
  function Count(m: Mat, n: nat, k: nat): (c: nat)
    requires Square(m, n) && k <= n
    ensures c <= k * n
  {
    if k == 0 then 0 else Count(m, n, k - 1) + RowCount(m[k - 1], n)
  }

  // ---- counting ----

  /** A row's count reaches its length exactly when no entry is zero. */
  lemma {:induction false} RowCountFull(r: seq<int>, k: nat)
    requires k <= |r|
    ensures RowCount(r, k) == k <==> forall j :: 0 <= j < k ==> r[j] != 0
  {
    if k > 0 {
      RowCountFull(r, k - 1);
    }
  }

  /** n*n nonzero entries means every entry is nonzero. */
  lemma {:induction false} CountFull(m: Mat, n: nat, k: nat)
    requires Square(m, n) && k <= n
    ensures Count(m, n, k) == k * n <==> forall i, j :: 0 <= i < k && 0 <= j < n ==> m[i][j] != 0
    decreases k, 1
  {
    if k > 0 {
      CountFullStep(m, n, k);
    }
  }

  lemma {:induction false} CountFullStep(m: Mat, n: nat, k: nat)
    requires Square(m, n) && 0 < k <= n
    ensures Count(m, n, k) == k * n <==> forall i, j :: 0 <= i < k && 0 <= j < n ==> m[i][j] != 0
    decreases k, 0
  {
    CountFull(m, n, k - 1);
    RowCountFull(m[k - 1], n);
    var c, r := Count(m, n, k - 1), RowCount(m[k - 1], n);
    assert Count(m, n, k) == c + r;
    RowsTimes(k, n);
    if c + r == k * n {
      assert c == (k - 1) * n && r == n;
    }
    if forall i, j :: 0 <= i < k && 0 <= j < n ==> m[i][j] != 0 {
      var last := m[k - 1];
      assert forall j :: 0 <= j < n ==> last[j] != 0;
    }
  }

  /** k rows of n are k - 1 rows of n and one more. */
  lemma RowsTimes(k: nat, n: nat)
    requires k > 0
    ensures k * n == (k - 1) * n + n
  {
  }

  /** Adding a row with nonnegative entries to one never clears an entry. */
  lemma {:induction false} RowCountMono(r: seq<int>, s: seq<int>, k: nat)
    requires k <= |r| == |s|
    requires forall j :: 0 <= j < k ==> r[j] >= 0 && s[j] >= 0
    ensures RowCount(r, k) <= RowCount(seq(|r|, j requires 0 <= j < |r| => r[j] + s[j]), k)
  {
    if k > 0 {
      RowCountMono(r, s, k - 1);
    }
  }

  /** Adding a nonnegative matrix to a nonnegative one never lowers the count of nonzero entries. */
  lemma {:induction false} CountMono(a: Mat, b: Mat, n: nat, k: nat)
    requires Square(a, n) && Square(b, n) && Nonneg(a) && Nonneg(b) && k <= n
    ensures Count(a, n, k) <= Count(Plus(a, b, n), n, k)
  {
    if k > 0 {
      CountMono(a, b, n, k - 1);
      var r, s := a[k - 1], b[k - 1];
      assert Plus(a, b, n)[k - 1] == seq(|r|, j requires 0 <= j < |r| => r[j] + s[j]);
      RowCountMono(r, s, n);
    }
  }

  // ---- products ----

  lemma {:induction false} DotNonneg(a: Mat, b: Mat, n: nat, i: nat, j: nat, k: nat)
    requires Square(a, n) && Square(b, n) && Nonneg(a) && Nonneg(b) && i < n && j < n && k <= n
    ensures Dot(a, b, n, i, j, k) >= 0
  {
    if k > 0 {
      DotNonneg(a, b, n, i, j, k - 1);
      assert a[i][k - 1] >= 0 && b[k - 1][j] >= 0;
    }
  }

  /** Products and sums of nonnegative matrices are nonnegative. */
  lemma ProductPlusNonneg(a: Mat, b: Mat, n: nat)
    requires Square(a, n) && Square(b, n) && Nonneg(a) && Nonneg(b)
    ensures Nonneg(Product(a, b, n)) && Nonneg(Plus(a, b, n))
  {
    forall i, j | 0 <= i < n && 0 <= j < n ensures Product(a, b, n)[i][j] >= 0 {
      DotNonneg(a, b, n, i, j, n);
    }
  }

  lemma {:induction false} DotIdentity(a: Mat, n: nat, i: nat, j: nat, k: nat)
    requires Square(a, n) && i < n && j < n && k <= n
    ensures Dot(a, Identity(n), n, i, j, k) == if j < k then a[i][j] else 0
  {
    if k > 0 {
      DotIdentity(a, n, i, j, k - 1);
    }
  }

  /** The identity is a right unit of the product. */
  lemma ProductIdentity(a: Mat, n: nat)
    requires Square(a, n)
    ensures Product(a, Identity(n), n) == a
  {
    var p := Product(a, Identity(n), n);
    forall i | 0 <= i < n ensures p[i] == a[i] {
      forall j | 0 <= j < n ensures p[i][j] == a[i][j] {
        DotIdentity(a, n, i, j, n);
      }
    }
  }

  /** The sum is commutative and has the zero matrix as its unit. */
  lemma PlusLaws(a: Mat, b: Mat, n: nat)
    requires Square(a, n) && Square(b, n)
    ensures Plus(a, b, n) == Plus(b, a, n)
    ensures Plus(a, Zero(n), n) == a
  {
    assert forall i :: 0 <= i < n ==> Plus(a, b, n)[i] == Plus(b, a, n)[i];
    assert forall i :: 0 <= i < n ==> Plus(a, Zero(n), n)[i] == a[i];
  }

  // ---- irreducibility ----

  /**
   * The loop of isIrreducible from the powers iter and the partial sum accu, prev being
   * the count of nonzero entries before the last step: the partial sum at which the count
   * stops growing. It terminates because the count is monotone and at most n*n.
   */
  function Settle(m: Mat, iter: Mat, accu: Mat, prev: nat, n: nat): (r: Mat)
    requires Square(m, n) && Square(iter, n) && Square(accu, n)
    requires Nonneg(m) && Nonneg(iter) && Nonneg(accu) && prev <= Count(accu, n, n)
    ensures Square(r, n)
    decreases n * n - prev
  {
    var cnt := Count(accu, n, n);
    if prev == cnt then accu
    else
      var iter' := Product(iter, m, n);
      ProductPlusNonneg(iter, m, n);
      ProductPlusNonneg(accu, iter', n);
      CountMono(accu, iter', n, n);
      Settle(m, iter', Plus(accu, iter', n), cnt, n)
  }

  /** isIrreducible: every entry of M + M^2 + ... (up to where the count settles) is nonzero. */
  predicate Irreducible(m: Mat, n: nat)
    requires Square(m, n) && Nonneg(m)
  {
    Count(Settle(m, m, m, 0, n), n, n) == n * n
  }

  /** A scalar multiple of the identity. */
  function Scaled(c: int, n: nat): (d: Mat)
    ensures Square(d, n)
  {
    seq(n, i => seq(n, j => if i == j then c else 0))
  }

  lemma {:induction false} DiagonalRowCount(c: int, n: nat, i: nat, k: nat)
    requires c > 0 && i < n && k <= n
    ensures RowCount(Scaled(c, n)[i], k) == if i < k then 1 else 0
  {
    if k > 0 {
      DiagonalRowCount(c, n, i, k - 1);
    }
  }

  lemma {:induction false} DiagonalCount(c: int, n: nat, k: nat)
    requires c > 0 && k <= n
    ensures Count(Scaled(c, n), n, k) == k
  {
    if k > 0 {
      DiagonalCount(c, n, k - 1);
      DiagonalRowCount(c, n, k - 1, n);
    }
  }

  lemma SettleIdentity(n: nat, c: nat, prev: nat)
    requires c > 0 && prev <= n
    ensures Count(Scaled(c, n), n, n) == n
    ensures Settle(Identity(n), Identity(n), Scaled(c, n), prev, n) == Scaled(c, n) ||
            Settle(Identity(n), Identity(n), Scaled(c, n), prev, n) == Scaled(c + 1, n)
  {
    DiagonalCount(c, n, n);
    var e := Identity(n);
    assert Scaled(1, n) == e;
    if prev != n {
      ProductIdentity(e, n);
      var d := Plus(Scaled(c, n), e, n);
      assert forall i :: 0 <= i < n ==> d[i] == Scaled(c + 1, n)[i];
      assert d == Scaled(c + 1, n);
      DiagonalCount(c + 1, n, n);
      assert Settle(e, e, Scaled(c, n), prev, n) == Settle(e, e, d, n, n);
    }
  }

  /** The identity matrix passes the test only in dimension 0 and 1. */
  lemma IdentityIrreducible(n: nat)
    ensures Irreducible(Identity(n), n) <==> n <= 1
  {
    var e := Identity(n);
    assert Scaled(1, n) == e;
    SettleIdentity(n, 1, 0);
    DiagonalCount(1, n, n);
    DiagonalCount(2, n, n);
    if n >= 2 {
      assert n < n * n;
    }
  }

  // ---- polynomials ----

  /** The separator before a term: none before the first, else the sign of its coefficient. */
  function Sign(later: bool, a: int): string
  {
    if later then (if a > 0 then "+" else "-") else ""
  }

  /** The coefficient written after the separator: its absolute value after a '-' separator. */
  function Shown(later: bool, a: int): int
  {
    if later && a < 0 then -a else a
  }

  /** The coefficient before x: nothing for 1, a bare minus for -1. */
  function Coef(b: int): string
  {
    if b == -1 then "-" else if b != 1 then IntToString(b) else ""
  }

  /** The power of x: none for degree 1. */
  function Power(d: nat): string
  {
    if d > 1 then "^" + IntToString(d) else ""
  }

  /** A term after its separator: coefficient, x and power, or the bare constant of degree 0. */
  function Body(b: int, d: nat): string
  {
    if d > 0 then Coef(b) + "x" + Power(d) else IntToString(b)
  }

  /** The text of one coefficient a of degree d appended to s, as the loop of polyString writes it. */
  function Term(s: string, a: int, d: nat): string
  {
    if a == 0 then s
    else s + Sign(|s| > 0, a) + Body(Shown(|s| > 0, a), d)
  }

  /** polyString after the first k coefficients (highest degree first). */
  function PolyPrefix(p: seq<int>, k: nat): string
    requires k <= |p|
  {
    if k == 0 then "" else Term(PolyPrefix(p, k - 1), p[k - 1], |p| - k)
  }

  /** polyString */
  function Poly(p: seq<int>): string { PolyPrefix(p, |p|) }

  /** The number of nonzero coefficients of positive degree among the first k. */
  function XTerms(p: seq<int>, k: nat): nat
    requires k <= |p|
  {
    if k == 0 then 0 else XTerms(p, k - 1) + XOf(p[k - 1], |p| - k)
  }

  /** One x for a nonzero coefficient of positive degree, none otherwise. */
  function XOf(a: int, d: nat): nat
  {
    if a != 0 && d > 0 then 1 else 0
  }

  lemma NoXInNumber(n: int)
    ensures XCount(IntToString(n)) == 0
  {
    var s := IntToString(n);
    if n < 0 {
      assert s == "-" + NatToString(-n);
    }
    XCountNone(s);
  }

  /** The number of x's in a text. */
  function XCount(s: string): nat
  {
    multiset(s)['x']
  }

  /** The x's of two texts add up. */
  lemma XCountAppend(s: string, t: string)
    ensures XCount(s + t) == XCount(s) + XCount(t)
  {
    assert multiset(s + t) == multiset(s) + multiset(t);
  }

  /** A text without an x counts none. */
  lemma XCountNone(s: string)
    requires forall i :: 0 <= i < |s| ==> s[i] != 'x'
    ensures XCount(s) == 0
  {
    assert 'x' !in s;
  }

  /** A term's body has an x exactly when its degree is positive, and is never empty. */
  lemma BodyShape(b: int, d: nat)
    ensures |Body(b, d)| > 0
    ensures XCount(Body(b, d)) == if d > 0 then 1 else 0
  {
    NoXInNumber(b);
    if d > 0 {
      var c, pw := Coef(b), Power(d);
      assert XCount(c) == 0 by {
        if b == -1 { XCountNone(c); }
      }
      assert XCount(pw) == 0 by {
        if d > 1 {
          NoXInNumber(d);
          XCountAppend("^", IntToString(d));
          XCountNone("^");
        } else {
          assert pw == "";
        }
      }
      XCountAppend(c, "x");
      XCountAppend(c + "x", pw);
      assert XCount("x") == 1 by {
        assert "x"[..0] == "";
      }
    }
  }

  /** A nonzero coefficient writes something, with one 'x' exactly when its degree is positive. */
  lemma TermShape(s: string, a: int, d: nat)
    ensures a == 0 ==> Term(s, a, d) == s
    ensures a != 0 ==> |Term(s, a, d)| > |s| && Term(s, a, d)[..|s|] == s
    ensures XCount(Term(s, a, d)) == XCount(s) + (if a != 0 && d > 0 then 1 else 0)
  {
    if a != 0 {
      var sg, bd := Sign(|s| > 0, a), Body(Shown(|s| > 0, a), d);
      BodyShape(Shown(|s| > 0, a), d);
      XCountNone(sg);
      XCountAppend(s, sg);
      XCountAppend(s + sg, bd);
      assert Term(s, a, d) == s + sg + bd;
      assert (s + sg + bd)[..|s|] == s;
    }
  }

  /**
   * polyString skips zero coefficients: it is empty exactly for an all-zero array, and it
   * writes one x for every nonzero coefficient of positive degree.
   */
  lemma PolyPrefixShape(p: seq<int>, k: nat)
    requires k <= |p|
    ensures PolyPrefix(p, k) == "" <==> forall i :: 0 <= i < k ==> p[i] == 0
    ensures XCount(PolyPrefix(p, k)) == XTerms(p, k)
  {
    PolyPrefixEmpty(p, k);
    PolyPrefixXs(p, k);
  }

  lemma {:induction false} PolyPrefixEmpty(p: seq<int>, k: nat)
    requires k <= |p|
    ensures |PolyPrefix(p, k)| == 0 <==> forall i :: 0 <= i < k ==> p[i] == 0
  {
    if k > 0 {
      PolyPrefixEmpty(p, k - 1);
      TermShape(PolyPrefix(p, k - 1), p[k - 1], |p| - k);
    }
  }

  lemma {:induction false} PolyPrefixXs(p: seq<int>, k: nat)
    requires k <= |p|
    ensures XCount(PolyPrefix(p, k)) == XTerms(p, k)
  {
    if k > 0 {
      var s := PolyPrefix(p, k - 1);
      assert PolyPrefix(p, k) == Term(s, p[k - 1], |p| - k);
      PolyPrefixXs(p, k - 1);
      TermXs(s, p[k - 1], |p| - k);
    }
  }

  /** A term adds an x exactly when its coefficient is nonzero and its degree positive. */
  lemma TermXs(s: string, a: int, d: nat)
    ensures XCount(Term(s, a, d)) == XCount(s) + XOf(a, d)
  {
    TermShape(s, a, d);
  }

  /** A worked example: signs between terms, no coefficient 1 before x, zero terms skipped. */
  lemma PolyExample()
    ensures Poly([1, -2, 0, 3]) == "x^3-2x^2+3"
  {
    var p := [1, -2, 0, 3];
    assert IntToString(3) == "3" && IntToString(2) == "2";
    assert PolyPrefix(p, 1) == Term("", 1, 3) == "x^3";
    assert PolyPrefix(p, 2) == Term("x^3", -2, 2) == "x^3-2x^2";
    assert PolyPrefix(p, 3) == "x^3-2x^2";
    assert PolyPrefix(p, 4) == Term("x^3-2x^2", 3, 0) == "x^3-2x^2+3";
  }

  // ---- the class ----

  class IntMatrix {
    var a: array2<int>
    var n: nat

    /** The window in use lies inside the array. */
    predicate Valid()
      reads this
    {
      n <= a.Length0 && n <= a.Length1
    }

    /** The entries of the window in use. */
    function Entries(): (m: Mat)
      requires Valid()
      reads this, a
      ensures Square(m, n)
    {
      Rows(n)
    }

    /** The first k rows of the window. */
    function Rows(k: nat): (m: seq<seq<int>>)
      requires Valid() && k <= n
      reads this, a
      ensures |m| == k
      ensures forall i :: 0 <= i < k ==> |m[i]| == n
    {
      if k == 0 then [] else Rows(k - 1) + [Cells(k - 1, n)]
    }

    /** The entries are those of the array. */
    lemma {:induction false} RowsAt(k: nat)
      requires Valid() && k <= n
      ensures forall i, j :: 0 <= i < k && 0 <= j < n ==> Rows(k)[i][j] == a[i, j]
    {
      if k > 0 {
        RowsAt(k - 1);
      }
    }

    /** The first k entries of row i. */
    function Cells(i: nat, k: nat): (r: seq<int>)
      requires Valid() && i < n && k <= n
      reads this, a
      ensures |r| == k && forall j :: 0 <= j < k ==> r[j] == a[i, j]
    {
      if k == 0 then [] else Cells(i, k - 1) + [a[i, k - 1]]
    }

    /** IntMatrix(sz): the zero matrix of dimension sz. */
    constructor (sz: nat)
      ensures Valid() && n == sz && Entries() == Zero(sz) && fresh(a)
    {
      a := new int[sz, sz]((i, j) => 0);
      n := sz;
      new;
      RowsAt(n);
      assert forall i :: 0 <= i < n ==> Entries()[i] == Zero(n)[i];
    }

    /** IntMatrix(b): a copy of the window of b in a fresh array. */
    constructor Copy(b: IntMatrix)
      requires b.Valid()
      ensures Valid() && n == b.n && Entries() == b.Entries() && fresh(a)
    {
      var m := b.n;
      var c := new int[m, m]((i, j) => 0);
      var i := 0;
      while i < m
        invariant 0 <= i <= m
        invariant forall p, q :: 0 <= p < i && 0 <= q < m ==> c[p, q] == b.a[p, q]
      {
        var j := 0;
        while j < m
          invariant 0 <= j <= m
          invariant forall p, q :: 0 <= p < i && 0 <= q < m ==> c[p, q] == b.a[p, q]
          invariant forall q :: 0 <= q < j ==> c[i, q] == b.a[i, q]
        {
          c[i, j] := b.a[i, j];
          j := j + 1;
        }
        i := i + 1;
      }
      a := c;
      n := m;
      new;
      RowsAt(n);
      b.RowsAt(n);
      assert forall i :: 0 <= i < n ==> Entries()[i] == b.Entries()[i];
    }

    /** countMatrixEntries: the number of nonzero entries in the window, between 0 and n*n. */
    method CountMatrixEntries() returns (c: nat)
      requires Valid()
      ensures c == Count(Entries(), n, n) && c <= n * n
    {
      ghost var m := Entries();
      RowsAt(n);
      c := 0;
      var i := 0;
      while i < n
        invariant 0 <= i <= n && c == Count(m, n, i)
      {
        var j := 0;
        var r := 0;
        while j < n
          invariant 0 <= j <= n && r == RowCount(m[i], j)
        {
          if a[i, j] != 0 {
            r := r + 1;
          }
          j := j + 1;
        }
        c := c + r;
        i := i + 1;
      }
    }

    /**
     * isIrreducible: M + M^2 + ... is summed until its number of nonzero entries stops
     * growing; the answer is whether every entry is then nonzero.
     */
    method IsIrreducible() returns (b: bool)
      requires Valid() && Nonneg(Entries())
      ensures b == Irreducible(Entries(), n)
    {
      ghost var m := Entries();
      ghost var goal := Settle(m, m, m, 0, n);
      var iter, accu, cnt := Start(this);
      var prev := 0;
      while prev != cnt
        invariant Entries() == m
        invariant Settling(m, iter, accu, prev, cnt, goal)
        decreases n * n - prev
      {
        iter, accu, prev, cnt := Round(this, iter, accu, prev, cnt, m, goal);
      }
      b := cnt == n * n;
    }
  }

  /** The state of the loop of isIrreducible: the powers and partial sums so far, heading for goal. */
  ghost predicate Settling(m: Mat, iter: IntMatrix, accu: IntMatrix, prev: nat, cnt: nat, goal: Mat)
    reads iter, iter.a, accu, accu.a
  {
    iter.Valid() && accu.Valid() && iter.n == |m| && accu.n == |m| &&
    Settles(m, iter.Entries(), accu.Entries(), prev, cnt, goal)
  }

  /** The same on values: iter and accu are nonnegative, cnt counts accu and Settle reaches goal. */
  ghost predicate Settles(m: Mat, iter: Mat, accu: Mat, prev: nat, cnt: nat, goal: Mat)
  {
    var n := |m|;
    Square(m, n) && Nonneg(m) && Square(iter, n) && Square(accu, n) &&
    Nonneg(iter) && Nonneg(accu) &&
    prev <= cnt == Count(accu, n, n) &&
    Settle(m, iter, accu, prev, n) == goal
  }

  /** One round on values keeps the loop state. */
  lemma SettlesStep(m: Mat, iter: Mat, accu: Mat, prev: nat, cnt: nat, goal: Mat, n: nat)
    requires Settles(m, iter, accu, prev, cnt, goal) && prev != cnt && n == |m|
    ensures Settles(m, Product(iter, m, n), Plus(accu, Product(iter, m, n), n), cnt,
                    Count(Plus(accu, Product(iter, m, n), n), n, n), goal)
    ensures prev < cnt
  {
    SettleStep(m, iter, accu, prev, n);
  }

  /** The start of isIrreducible: the first power and the first partial sum are copies of m. */
  method Start(m: IntMatrix) returns (iter: IntMatrix, accu: IntMatrix, cnt: nat)
    requires m.Valid() && Nonneg(m.Entries())
    ensures Settling(m.Entries(), iter, accu, 0, cnt, Settle(m.Entries(), m.Entries(), m.Entries(), 0, m.n))
  {
    ghost var e := m.Entries();
    iter := new IntMatrix.Copy(m);
    accu := new IntMatrix.Copy(m);
    assert iter.Entries() == e && accu.Entries() == e;
    cnt := accu.CountMatrixEntries();
    assert iter.Entries() == e && accu.Entries() == e;
  }

  /** One round of the loop of isIrreducible. */
  method Round(x: IntMatrix, iter: IntMatrix, accu: IntMatrix, prev: nat, cnt: nat, ghost m: Mat, ghost goal: Mat)
    returns (iter': IntMatrix, accu': IntMatrix, prev': nat, cnt': nat)
    requires x.Valid() && x.Entries() == m && prev != cnt
    requires Settling(m, iter, accu, prev, cnt, goal)
    ensures Settling(m, iter', accu', prev', cnt', goal) && prev < prev' == cnt
  {
    var n := x.n;
    ghost var pi, pa := iter.Entries(), accu.Entries();
    prev' := cnt;
    iter', accu' := Step(x, iter, accu);
    cnt' := accu'.CountMatrixEntries();
    SettlesStep(m, pi, pa, prev, cnt, goal, n);
  }

  /** One round of the loop of isIrreducible on values: nonnegativity, the count and the result are kept. */
  lemma SettleStep(m: Mat, iter: Mat, accu: Mat, prev: nat, n: nat)
    requires Square(m, n) && Square(iter, n) && Square(accu, n)
    requires Nonneg(m) && Nonneg(iter) && Nonneg(accu) && prev < Count(accu, n, n)
    ensures Nonneg(Product(iter, m, n)) && Nonneg(Plus(accu, Product(iter, m, n), n))
    ensures Count(accu, n, n) <= Count(Plus(accu, Product(iter, m, n), n), n, n)
    ensures Settle(m, iter, accu, prev, n) ==
            Settle(m, Product(iter, m, n), Plus(accu, Product(iter, m, n), n), Count(accu, n, n), n)
  {
    ProductPlusNonneg(iter, m, n);
    ProductPlusNonneg(accu, Product(iter, m, n), n);
    CountMono(accu, Product(iter, m, n), n, n);
  }

  /** One round of isIrreducible: the next power and the partial sum with it added, in fresh matrices. */
  method Step(m: IntMatrix, iter: IntMatrix, accu: IntMatrix) returns (iter': IntMatrix, accu': IntMatrix)
    requires m.Valid() && iter.Valid() && accu.Valid() && iter.n == m.n && accu.n == m.n
    ensures iter'.Valid() && accu'.Valid() && iter'.n == m.n && accu'.n == m.n
    ensures iter'.Entries() == Product(iter.Entries(), m.Entries(), m.n)
    ensures accu'.Entries() == Plus(accu.Entries(), iter'.Entries(), m.n)
  {
    var r := Mult(iter, m);
    iter' := r.value;
    r := Add(accu, iter');
    accu' := r.value;
  }

  /** The first k terms of the scalar product of row i of x and column j of y, read from the arrays. */
  method DotOf(x: IntMatrix, y: IntMatrix, i: nat, j: nat) returns (s: int)
    requires x.Valid() && y.Valid() && x.n == y.n && i < x.n && j < x.n
    ensures s == Dot(x.Entries(), y.Entries(), x.n, i, j, x.n)
  {
    ghost var mx, my := x.Entries(), y.Entries();
    x.RowsAt(x.n);
    y.RowsAt(y.n);
    s := 0;
    var k := 0;
    while k < x.n
      invariant 0 <= k <= x.n && s == Dot(mx, my, x.n, i, j, k)
    {
      s := s + x.a[i, k] * y.a[k, j];
      k := k + 1;
    }
  }

  /** mult(x, y): "different dimensions" unless x.n == y.n, otherwise the product in a fresh matrix. */
  method Mult(x: IntMatrix, y: IntMatrix) returns (r: Result<IntMatrix>)
    requires x.Valid() && y.Valid()
    ensures x.n != y.n ==> r == Err("different dimensions")
    ensures x.n == y.n ==> r.Ok? && fresh(r.value) && r.value.Valid() && r.value.n == x.n &&
                           r.value.Entries() == Product(x.Entries(), y.Entries(), x.n)
  {
    if x.n != y.n {
      return Err("different dimensions");
    }
    var n := x.n;
    ghost var p := Product(x.Entries(), y.Entries(), n);
    var t := new IntMatrix(n);
    var c := t.a;
    var i := 0;
    while i < n
      invariant 0 <= i <= n && t.Valid() && t.n == n && t.a == c && fresh(t) && fresh(c)
      invariant forall u, v :: 0 <= u < i && 0 <= v < n ==> c[u, v] == p[u][v]
    {
      ProductRow(x, y, c, i);
      i := i + 1;
    }
    t.RowsAt(n);
    assert forall u :: 0 <= u < n ==> t.Entries()[u] == p[u];
    r := Ok(t);
  }

  /** Row i of the product of x and y, written into row i of c. */
  method ProductRow(x: IntMatrix, y: IntMatrix, c: array2<int>, i: nat)
    requires x.Valid() && y.Valid() && x.n == y.n && i < x.n
    requires x.n <= c.Length0 && x.n <= c.Length1 && c != x.a && c != y.a
    modifies c
    ensures forall v :: 0 <= v < x.n ==> c[i, v] == Product(x.Entries(), y.Entries(), x.n)[i][v]
    ensures forall u, v :: 0 <= u < c.Length0 && 0 <= v < c.Length1 && u != i ==> c[u, v] == old(c[u, v])
  {
    var j := 0;
    while j < x.n
      invariant 0 <= j <= x.n
      invariant forall v :: 0 <= v < j ==> c[i, v] == Product(x.Entries(), y.Entries(), x.n)[i][v]
      invariant forall u, v :: 0 <= u < c.Length0 && 0 <= v < c.Length1 && u != i ==> c[u, v] == old(c[u, v])
    {
      var s := DotOf(x, y, i, j);
      c[i, j] := s;
      j := j + 1;
    }
  }

  /** add(x, y): "different dimensions" unless x.n == y.n, otherwise the entrywise sum in a fresh matrix. */
  method Add(x: IntMatrix, y: IntMatrix) returns (r: Result<IntMatrix>)
    requires x.Valid() && y.Valid()
    ensures x.n != y.n ==> r == Err("different dimensions")
    ensures x.n == y.n ==> r.Ok? && fresh(r.value) && r.value.Valid() && r.value.n == x.n &&
                           r.value.Entries() == Plus(x.Entries(), y.Entries(), x.n)
  {
    if x.n != y.n {
      return Err("different dimensions");
    }
    var n := x.n;
    ghost var p := Plus(x.Entries(), y.Entries(), n);
    x.RowsAt(n);
    y.RowsAt(n);
    var t := new IntMatrix(n);
    var c := t.a;
    var i := 0;
    while i < n
      invariant 0 <= i <= n && t.Valid() && t.n == n && t.a == c && fresh(t) && fresh(c)
      invariant forall u, v :: 0 <= u < i && 0 <= v < n ==> c[u, v] == p[u][v]
    {
      AddRow(x, y, c, i, p);
      i := i + 1;
    }
    t.RowsAt(n);
    assert forall u :: 0 <= u < n ==> t.Entries()[u] == p[u];
    r := Ok(t);
  }

  /** One row of add: row i of c becomes row i of the sum, the other rows are kept. */
  method AddRow(x: IntMatrix, y: IntMatrix, c: array2<int>, i: nat, ghost p: Mat)
    requires x.Valid() && y.Valid() && x.n == y.n && i < x.n
    requires x.n <= c.Length0 && x.n <= c.Length1 && c != x.a && c != y.a
    requires Square(p, x.n) && forall v :: 0 <= v < x.n ==> p[i][v] == x.a[i, v] + y.a[i, v]
    modifies c
    ensures forall u, v :: 0 <= u < c.Length0 && 0 <= v < c.Length1 && u != i ==> c[u, v] == old(c[u, v])
    ensures forall v :: 0 <= v < x.n ==> c[i, v] == p[i][v]
  {
    var n := x.n;
    var j := 0;
    while j < n
      invariant 0 <= j <= n
      invariant forall u, v :: 0 <= u < c.Length0 && 0 <= v < c.Length1 && u != i ==> c[u, v] == old(c[u, v])
      invariant forall v :: 0 <= v < j ==> c[i, v] == p[i][v]
    {
      c[i, j] := x.a[i, j] + y.a[i, j];
      j := j + 1;
    }
  }

  /** One pass of the loop of polyString: the text of coefficient a of degree d appended to s. */
  method AppendTerm(s: string, a: int, d: nat) returns (t: string)
    ensures t == Term(s, a, d)
  {
    t := s;
    if a == 0 {
      return;
    }
    var b := a;
    if |t| > 0 {
      if b > 0 {
        t := t + "+";
      } else {
        t := t + "-";
        b := -b;
      }
    }
    assert t == s + Sign(|s| > 0, a) && b == Shown(|s| > 0, a);
    var u := TermBody(b, d);
    t := t + u;
  }

  /** The rest of a term after its separator: coefficient, x and power, or the bare constant. */
  method TermBody(b: int, d: nat) returns (u: string)
    ensures u == Body(b, d)
  {
    if d > 0 {
      var c := "";
      if b == -1 {
        c := "-";
      } else if b != 1 {
        c := IntToString(b);
      }
      var pw := "";
      if d > 1 {
        pw := "^" + IntToString(d);
      }
      u := c + "x" + pw;
    } else {
      u := IntToString(b);
    }
  }

  /** polyString(p): the polynomial with coefficients p, highest degree first. */
  method PolyString(p: seq<int>) returns (s: string)
    ensures s == Poly(p)
  {
    s := "";
    var i := 0;
    while i < |p|
      invariant 0 <= i <= |p| && s == PolyPrefix(p, i)
    {
      s := AppendTerm(s, p[i], |p| - (i + 1));
      assert s == PolyPrefix(p, i + 1);
      i := i + 1;
    }
  }
}
