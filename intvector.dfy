/**
 * IntVector.java: integer vectors, the product of an IntMatrix with a vector, the
 * entrywise sum, the number of nonzero entries and the sum of the entries.
 *
 * As for matrices, the arithmetic is stated on values (seq<int>) and the class keeps
 * its entries in an array like the source.
 */
module IntVectors {
  import opened Wrappers
  import opened IntMatrices

  /** The first k terms of the scalar product of r and x. */
  function RowDot(r: seq<int>, x: seq<int>, k: nat): int
    requires k <= |r| && k <= |x|
  {
    if k == 0 then 0 else RowDot(r, x, k - 1) + r[k - 1] * x[k - 1]
  }

  /** m times x, for a square m of dimension |x|. */
  function Apply(m: Mat, x: seq<int>): (y: seq<int>)
    requires Square(m, |x|)
    ensures |y| == |x|
  {
    seq(|x|, i requires 0 <= i < |x| => RowDot(m[i], x, |x|))
  }

  /** The entrywise sum of two vectors of one length. */
  function VPlus(x: seq<int>, y: seq<int>): (z: seq<int>)
    requires |x| == |y|
    ensures |z| == |x|
  {
    seq(|x|, i requires 0 <= i < |x| => x[i] + y[i])
  }

  /** The sum of the first k entries. */
  function Total(x: seq<int>, k: nat): int
    requires k <= |x|
  {
    if k == 0 then 0 else Total(x, k - 1) + x[k - 1]
  }

  /** The scalar product with a unit vector picks one entry. */
  lemma {:induction false} RowDotUnit(x: seq<int>, i: nat, k: nat)
    requires i < |x| && k <= |x|
    ensures RowDot(Identity(|x|)[i], x, k) == if i < k then x[i] else 0
  {
    if k > 0 {
      RowDotUnit(x, i, k - 1);
    }
  }

  /** The identity matrix fixes every vector. */
  lemma ApplyIdentity(x: seq<int>)
    ensures Apply(Identity(|x|), x) == x
  {
    forall i | 0 <= i < |x| ensures Apply(Identity(|x|), x)[i] == x[i] {
      RowDotUnit(x, i, |x|);
    }
  }

  /** The scalar product is additive in its second factor. */
  lemma {:induction false} RowDotPlus(r: seq<int>, x: seq<int>, y: seq<int>, k: nat)
    requires |x| == |y| && k <= |r| && k <= |x|
    ensures RowDot(r, VPlus(x, y), k) == RowDot(r, x, k) + RowDot(r, y, k)
  {
    if k > 0 {
      RowDotPlus(r, x, y, k - 1);
      var a, b, c := r[k - 1], x[k - 1], y[k - 1];
      assert VPlus(x, y)[k - 1] == b + c;
      assert a * (b + c) == a * b + a * c;
    }
  }

  /** The product with a matrix is linear: m(x + y) == mx + my. */
  lemma ApplyPlus(m: Mat, x: seq<int>, y: seq<int>)
    requires |x| == |y| && Square(m, |x|)
    ensures Apply(m, VPlus(x, y)) == VPlus(Apply(m, x), Apply(m, y))
  {
    forall i | 0 <= i < |x| ensures Apply(m, VPlus(x, y))[i] == VPlus(Apply(m, x), Apply(m, y))[i] {
      RowDotPlus(m[i], x, y, |x|);
    }
  }

  /** The sum of the entries is additive. */
  lemma {:induction false} TotalPlus(x: seq<int>, y: seq<int>, k: nat)
    requires |x| == |y| && k <= |x|
    ensures Total(VPlus(x, y), k) == Total(x, k) + Total(y, k)
  {
    if k > 0 {
      TotalPlus(x, y, k - 1);
    }
  }

  /** No entry is counted exactly when every entry is zero. */
  lemma {:induction false} RowCountZero(r: seq<int>, k: nat)
    requires k <= |r|
    ensures RowCount(r, k) == 0 <==> forall j :: 0 <= j < k ==> r[j] == 0
  {
    if k > 0 {
      RowCountZero(r, k - 1);
    }
  }

  class IntVector {
    var v: array<int>
    var n: nat

    /** The number of entries in use is the length of the array. */
    predicate Valid()
      reads this
    {
      n == v.Length
    }

    /** The entries. */
    function Contents(): (x: seq<int>)
      requires Valid()
      reads this, v
      ensures |x| == n
    {
      v[..]
    }

    /** IntVector(sz): the zero vector with sz entries. */
    constructor (sz: nat)
      ensures Valid() && n == sz && fresh(v)
      ensures forall i :: 0 <= i < sz ==> v[i] == 0 && Contents()[i] == 0
    {
      v := new int[sz](i => 0);
      n := sz;
    }

    /** IntVector(b): a copy of b in a fresh array. */
    constructor Copy(b: IntVector)
      requires b.Valid()
      ensures Valid() && n == b.n && Contents() == b.Contents() && fresh(v)
    {
      n := b.n;
      var c := new int[b.n];
      var i := 0;
      while i < b.n
        invariant 0 <= i <= b.n
        invariant forall j :: 0 <= j < i ==> c[j] == b.v[j]
      {
        c[i] := b.v[i];
        i := i + 1;
      }
      v := c;
    }

    /** countVectorEntries: the number of nonzero entries. */
    method CountVectorEntries() returns (c: nat)
      requires Valid()
      ensures c == RowCount(Contents(), n) && c <= n
    {
      c := 0;
      var i := 0;
      while i < n
        invariant 0 <= i <= n && c == RowCount(v[..], i)
      {
        if v[i] != 0 {
          c := c + 1;
        }
        i := i + 1;
      }
    }

    /** sumOfEntries: the sum of the entries. */
    method SumOfEntries() returns (s: int)
      requires Valid()
      ensures s == Total(Contents(), n)
    {
      s := 0;
      var i := 0;
      while i < n
        invariant 0 <= i <= n && s == Total(v[..], i)
      {
        s := s + v[i];
        i := i + 1;
      }
    }
  }

  /** Entry i of the product m x, accumulated into c[i] from zero as the source does. */
  method ProductEntry(m: IntMatrix, x: IntVector, c: array<int>, i: nat)
    requires m.Valid() && x.Valid() && m.n == x.n && i < x.n && c.Length == x.n && c != x.v
    requires c[i] == 0
    modifies c
    ensures c[i] == Apply(m.Entries(), x.Contents())[i]
    ensures forall k :: 0 <= k < c.Length && k != i ==> c[k] == old(c[k])
  {
    ghost var mm := m.Entries();
    m.RowsAt(m.n);
    var j := 0;
    while j < m.n
      invariant 0 <= j <= m.n && c[i] == RowDot(mm[i], x.v[..], j)
      invariant forall k :: 0 <= k < c.Length && k != i ==> c[k] == old(c[k])
    {
      c[i] := c[i] + m.a[i, j] * x.v[j];
      j := j + 1;
    }
  }

  /** product(m, x): "different dimensions" unless m.n == x.n, otherwise m x in a fresh vector. */
  method Product(m: IntMatrix, x: IntVector) returns (r: Result<IntVector>)
    requires m.Valid() && x.Valid()
    ensures m.n != x.n ==> r == Err("different dimensions")
    ensures m.n == x.n ==> r.Ok? && fresh(r.value) && r.value.Valid() &&
                           r.value.Contents() == Apply(m.Entries(), x.Contents())
  {
    if m.n != x.n {
      return Err("different dimensions");
    }
    ghost var y := Apply(m.Entries(), x.Contents());
    var p := new IntVector(x.n);
    var c := p.v;
    var i := 0;
    while i < m.n
      invariant 0 <= i <= m.n && p.Valid() && p.n == x.n && p.v == c && fresh(p) && fresh(c)
      invariant forall k :: 0 <= k < i ==> c[k] == y[k]
      invariant forall k :: i <= k < c.Length ==> c[k] == 0
    {
      ProductEntry(m, x, c, i);
      i := i + 1;
    }
    r := Ok(p);
  }

  /** sum(a, b): "different dimensions" unless a.n == b.n, otherwise the entrywise sum in a fresh vector. */
  method Sum(a: IntVector, b: IntVector) returns (r: Result<IntVector>)
    requires a.Valid() && b.Valid()
    ensures a.n != b.n ==> r == Err("different dimensions")
    ensures a.n == b.n ==> r.Ok? && fresh(r.value) && r.value.Valid() &&
                           r.value.Contents() == VPlus(a.Contents(), b.Contents())
  {
    if a.n != b.n {
      return Err("different dimensions");
    }
    var s := new IntVector(b.n);
    var c := s.v;
    var i := 0;
    while i < a.n
      invariant 0 <= i <= a.n && s.Valid() && s.n == b.n && s.v == c && fresh(s) && fresh(c)
      invariant forall k :: 0 <= k < i ==> c[k] == a.v[k] + b.v[k]
    {
      c[i] := a.v[i] + b.v[i];
      i := i + 1;
    }
    r := Ok(s);
  }
}
