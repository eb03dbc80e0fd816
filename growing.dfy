/**
 * The two helper buffers of TrainTrack.java, GrowingCharArray and GrowingBoolArray:
 * an array that doubles past the largest index written so far, and a count of the
 * positions in use (one past the largest index written). The contents are the
 * entries below the count; the entries beyond it keep the default value of the
 * array, which is what a write past the count leaves in the gap.
 */
module Growing {
  import opened Wrappers
  import opened Letters
  import opened Numerals

  /** The default of a Java char, the letter with code 0. */
  const BLANK := Sym(0, false)

  /** The contents after writing c at position i: the gap up to i filled with blank. */
  function Put<T>(s: seq<T>, i: nat, c: T, blank: T): (r: seq<T>)
    ensures |r| == if i < |s| then |s| else i + 1
    ensures r[i] == c
    ensures forall j :: 0 <= j < |r| && j != i ==> r[j] == if j < |s| then s[j] else blank
  {
    if i < |s| then s[i := c] else s + seq(i - |s|, _ => blank) + [c]
  }

  /** Writing twice at one position keeps the second value. */
  lemma PutPut<T>(s: seq<T>, i: nat, c: T, d: T, blank: T)
    ensures Put(Put(s, i, c, blank), i, d, blank) == Put(s, i, d, blank)
  {
    var a, b := Put(Put(s, i, c, blank), i, d, blank), Put(s, i, d, blank);
    assert |a| == |b|;
    forall j | 0 <= j < |a| ensures a[j] == b[j] {
    }
  }

  /** Writes at two different positions commute. */
  lemma PutCommutes<T>(s: seq<T>, i: nat, c: T, k: nat, d: T, blank: T)
    requires i != k
    ensures Put(Put(s, i, c, blank), k, d, blank) == Put(Put(s, k, d, blank), i, c, blank)
  {
    var a, b := Put(Put(s, i, c, blank), k, d, blank), Put(Put(s, k, d, blank), i, c, blank);
    assert |a| == |b|;
    forall j | 0 <= j < |a| ensures a[j] == b[j] {
    }
  }

  /** getValue of a GrowingBoolArray: false past the count. */
  function BoolAt(s: seq<bool>, i: nat): bool
  {
    i < |s| && s[i]
  }

  /** Seen through getValue, a GrowingBoolArray is a total map: a write changes one position only. */
  lemma BoolAtPut(s: seq<bool>, i: nat, c: bool, j: nat)
    ensures BoolAt(Put(s, i, c, false), j) == if j == i then c else BoolAt(s, j)
  {
  }

  /** The error of both constructors for a size below one. */
  function TooSmall(n: int): string
  {
    "number of entries too small: " + IntToString(n)
  }

  class GrowingCharArray {
    var v: array<Sym>
    var cnt: nat

    /** At least one slot, the count inside the array, and blanks past the count. */
    ghost predicate Valid()
      reads this, v
    {
      1 <= v.Length && cnt <= v.Length && forall k :: cnt <= k < v.Length ==> v[k] == BLANK
    }

    /** The entries in use. */
    function Contents(): (s: seq<Sym>)
      requires cnt <= v.Length
      reads this, v
      ensures |s| == cnt
    {
      v[..cnt]
    }

    /** GrowingCharArray(n) for n >= 1: n slots, none in use. */
    constructor (n: nat)
      requires n >= 1
      ensures Valid() && Contents() == [] && v.Length == n && fresh(v)
    {
      v := new Sym[n](_ => BLANK);
      cnt := 0;
    }

    /** setValue(i, c): the array doubled to 2i when i lies past it, the count raised to i + 1 when below. */
    method SetValue(i: nat, c: Sym)
      requires Valid()
      modifies this, v
      ensures Valid() && Contents() == Put(old(Contents()), i, c, BLANK)
      ensures v == old(v) || fresh(v)
    {
      ghost var s := Contents();
      if i >= v.Length {
        Double(i);
      }
      assert v[..cnt] == s;
      if i >= cnt {
        cnt := i + 1;
      }
      v[i] := c;
      ghost var p := Put(s, i, c, BLANK);
      assert forall k :: 0 <= k < cnt ==> v[..cnt][k] == p[k];
    }

    /** The growing step of setValue: the entries copied into a fresh array of 2i slots. */
    method Double(i: nat)
      requires Valid() && i >= v.Length
      modifies this
      ensures Valid() && i < v.Length && cnt == old(cnt) && Contents() == old(Contents()) && fresh(v)
    {
      var w := new Sym[2 * i](_ => BLANK);
      var j := 0;
      while j < v.Length
        invariant 0 <= j <= v.Length < w.Length == 2 * i && v == old(v) && cnt == old(cnt)
        invariant forall k :: 0 <= k < w.Length ==> w[k] == if k < j then v[k] else BLANK
      {
        w[j] := v[j];
        j := j + 1;
      }
      assert w[..cnt] == v[..cnt];
      v := w;
    }

    /** getValue(i): the entry at i, an error at or past the count. */
    method GetValue(i: nat) returns (r: Result<Sym>)
      requires Valid()
      ensures i < |Contents()| ==> r == Ok(Contents()[i])
      ensures i >= |Contents()| ==> r == Err("GrowingCharArray.getValue: index too large: " + IntToString(i))
    {
      if i >= cnt {
        return Err("GrowingCharArray.getValue: index too large: " + IntToString(i));
      }
      r := Ok(v[i]);
    }

    /** size(): the number of entries in use. */
    method Size() returns (n: nat)
      requires Valid()
      ensures n == |Contents()|
    {
      n := cnt;
    }
  }

  /** The GrowingCharArray constructor: a capacity below one is refused. */
  method NewCharArray(n: int) returns (r: Result<GrowingCharArray>)
    ensures n < 1 ==> r == Err(TooSmall(n))
    ensures n >= 1 ==> r.Ok? && fresh(r.value) && fresh(r.value.v) && r.value.Valid() && r.value.Contents() == []
  {
    if n < 1 {
      return Err(TooSmall(n));
    }
    var a := new GrowingCharArray(n);
    r := Ok(a);
  }

  class GrowingBoolArray {
    var v: array<bool>
    var cnt: nat

    /** At least one slot, the count inside the array, and false past the count. */
    ghost predicate Valid()
      reads this, v
    {
      1 <= v.Length && cnt <= v.Length && forall k :: cnt <= k < v.Length ==> !v[k]
    }

    /** The entries in use. */
    function Contents(): (s: seq<bool>)
      requires cnt <= v.Length
      reads this, v
      ensures |s| == cnt
    {
      v[..cnt]
    }

    /** GrowingBoolArray(n) for n >= 1: n slots cleared, none in use. */
    constructor (n: nat)
      requires n >= 1
      ensures Valid() && Contents() == [] && v.Length == n && fresh(v)
    {
      var w := new bool[n];
      var i := 0;
      while i < n
        invariant 0 <= i <= n && forall k :: 0 <= k < i ==> !w[k]
      {
        w[i] := false;
        i := i + 1;
      }
      v := w;
      cnt := 0;
    }

    /** setValue(i, c): the array doubled to 2i when i lies past it, the count raised to i + 1 when below. */
    method SetValue(i: nat, c: bool)
      requires Valid()
      modifies this, v
      ensures Valid() && Contents() == Put(old(Contents()), i, c, false)
      ensures v == old(v) || fresh(v)
    {
      ghost var s := Contents();
      if i >= v.Length {
        Double(i);
      }
      assert v[..cnt] == s;
      if i >= cnt {
        cnt := i + 1;
      }
      v[i] := c;
      ghost var p := Put(s, i, c, false);
      assert forall k :: 0 <= k < cnt ==> v[..cnt][k] == p[k];
    }

    /** The growing step of setValue: a fresh array of 2i slots cleared, then the entries copied. */
    method Double(i: nat)
      requires Valid() && i >= v.Length
      modifies this
      ensures Valid() && i < v.Length && cnt == old(cnt) && Contents() == old(Contents()) && fresh(v)
    {
      var w := new bool[2 * i];
      var j := 0;
      while j < w.Length
        invariant 0 <= j <= w.Length == 2 * i && v == old(v) && cnt == old(cnt)
        invariant forall k :: 0 <= k < j ==> !w[k]
      {
        w[j] := false;
        j := j + 1;
      }
      j := 0;
      while j < v.Length
        invariant 0 <= j <= v.Length < w.Length == 2 * i && v == old(v) && cnt == old(cnt)
        invariant forall k :: 0 <= k < w.Length ==> w[k] == (k < j && v[k])
      {
        w[j] := v[j];
        j := j + 1;
      }
      assert w[..cnt] == v[..cnt];
      v := w;
    }

    /** getValue(i): the entry at i, false at or past the count. */
    method GetValue(i: nat) returns (b: bool)
      requires Valid()
      ensures b == BoolAt(Contents(), i)
    {
      if i >= cnt {
        return false;
      }
      b := v[i];
    }

    /** size(): the number of entries in use. */
    method Size() returns (n: nat)
      requires Valid()
      ensures n == |Contents()|
    {
      n := cnt;
    }
  }

  /** The GrowingBoolArray constructor: a capacity below one is refused. */
  method NewBoolArray(n: int) returns (r: Result<GrowingBoolArray>)
    ensures n < 1 ==> r == Err(TooSmall(n))
    ensures n >= 1 ==> r.Ok? && fresh(r.value) && fresh(r.value.v) && r.value.Valid() && r.value.Contents() == []
  {
    if n < 1 {
      return Err(TooSmall(n));
    }
    var a := new GrowingBoolArray(n);
    r := Ok(a);
  }
}
