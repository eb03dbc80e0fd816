/**
 * The string algorithms of Word.java as the source runs them: scans over a
 * StringBuilder, each proved to compute the word operation of the Paths module
 * that specifies it; and the boundary-word walks (isBoundary, dualize, relations).
 */
module Words {
  import opened Wrappers
  import opened Letters
  import P = Paths

  /** How far the stack part of the buffer reaches while tightening. */
  function StackEnd(sb: P.Path, j: nat): nat
  {
    if j < |sb| then j + 1 else |sb|
  }

  /** tightenWord: delete cancelling pairs, stepping back after each deletion. */
  method TightenWord(s: P.Path) returns (r: P.Path)
    ensures r == P.Tighten(s)
    ensures P.Reduced(r)
  {
    var sb := s;
    var j := 0;
    if sb != [] {
      assert P.Push([], sb[0]) == sb[..1];
    }
    while j + 1 < |sb|
      invariant j < |sb| || (j == 0 && sb == [])
      invariant P.Reduced(sb[..StackEnd(sb, j)])
      invariant P.Reduce(sb[..StackEnd(sb, j)], sb[StackEnd(sb, j)..]) == P.Tighten(s)
      decreases 2 * |sb| - j
    {
      if sb[j + 1] == Inv(sb[j]) {
        CancelStep(sb, j);
        sb := sb[..j] + sb[j + 2..];
        if j > 0 {
          j := j - 1;
        }
      } else {
        AdvanceStep(sb, j);
        j := j + 1;
      }
    }
    assert sb[..StackEnd(sb, j)] == sb;
    r := sb;
  }

  /** Deleting a cancelling pair at j and stepping back keeps the tightened word. */
  lemma CancelStep(sb: P.Path, j: nat)
    requires j + 1 < |sb| && sb[j + 1] == Inv(sb[j]) && P.Reduced(sb[..j + 1])
    ensures var nb := sb[..j] + sb[j + 2..];
      var nj := if j > 0 then j - 1 else 0;
      (nj < |nb| || (nj == 0 && nb == [])) &&
      P.Reduced(nb[..StackEnd(nb, nj)]) &&
      P.Reduce(nb[..StackEnd(nb, nj)], nb[StackEnd(nb, nj)..]) == P.Reduce(sb[..j + 1], sb[j + 1..])
  {
    var nb := sb[..j] + sb[j + 2..];
    var nj := if j > 0 then j - 1 else 0;
    assert P.Push(sb[..j + 1], sb[j + 1]) == sb[..j];
    assert sb[j + 1..][1..] == sb[j + 2..];
    assert P.Reduce(sb[..j + 1], sb[j + 1..]) == P.Reduce(sb[..j], sb[j + 2..]);
    assert nb[..j] == sb[..j] && nb[j..] == sb[j + 2..];
    if j > 0 {
      assert nb[..StackEnd(nb, nj)] == sb[..j];
      assert nb[StackEnd(nb, nj)..] == sb[j + 2..];
    } else if nb != [] {
      assert P.Push([], nb[0]) == nb[..1];
      assert nb[1..] == nb[StackEnd(nb, nj)..];
    }
  }

  /** Moving past a non-cancelling pair keeps the tightened word. */
  lemma AdvanceStep(sb: P.Path, j: nat)
    requires j + 1 < |sb| && sb[j + 1] != Inv(sb[j]) && P.Reduced(sb[..j + 1])
    ensures P.Reduced(sb[..j + 2])
    ensures P.Reduce(sb[..j + 2], sb[j + 2..]) == P.Reduce(sb[..j + 1], sb[j + 1..])
  {
    assert P.Push(sb[..j + 1], sb[j + 1]) == sb[..j + 2];
    assert sb[j + 1..][1..] == sb[j + 2..];
    var t := sb[..j + 2];
    forall i | 0 <= i < |t| - 1 ensures t[i + 1] != Inv(t[i]) {
      if i < j {
        assert sb[..j + 1][i + 1] == t[i + 1];
      }
    }
  }

  /** tightenCycl: tighten, then strip cancelling end letters; never empties a word. */
  method TightenCycl(s: P.Path) returns (r: P.Path)
    ensures r == P.TightenCycl(s)
    ensures P.CyclicallyReduced(r)
  {
    var sb := TightenWord(s);
    if |sb| > 0 {
      while Inverse(Encode(sb[0])) == Encode(sb[|sb| - 1])
        invariant 0 < |sb| && P.Reduced(sb)
        invariant P.CyclicCore(sb) == P.TightenCycl(s)
        decreases |sb|
      {
        InverseOfEncoded(sb[0], sb[|sb| - 1]);
        P.StripEnds(sb);
        ghost var was := sb;
        sb := sb[1..];
        sb := sb[..|sb| - 1];
        assert sb == was[1..|was| - 1];
      }
      InverseOfEncoded(sb[0], sb[|sb| - 1]);
    }
    P.CyclicCoreShape(sb);
    r := sb;
  }

  /** Comparing chars with inverse() is comparing letters with Inv. */
  lemma InverseOfEncoded(a: Sym, b: Sym)
    ensures (Inverse(Encode(a)) == Encode(b)) == (b == Inv(a))
  {
    DecodeEncode(a);
    DecodeEncode(b);
    InverseFlips(Encode(a));
    if Inverse(Encode(a)) == Encode(b) {
      assert Decode(Inverse(Encode(a))) == Decode(Encode(b));
    }
    if b == Inv(a) {
      EncodeDecode(Inverse(Encode(a)));
      assert Encode(Decode(Inverse(Encode(a)))) == Encode(b);
    }
  }

  /** reverseWord: append the inverses of the letters from last to first. */
  method ReverseWord(s: P.Path) returns (r: P.Path)
    ensures r == P.Reverse(s)
  {
    var rev := [];
    var i := |s| - 1;
    while i >= 0
      invariant -1 <= i < |s|
      invariant |rev| == |s| - 1 - i
      invariant forall k :: 0 <= k < |rev| ==> rev[k] == Inv(s[|s| - 1 - k])
    {
      rev := rev + [Inv(s[i])];
      i := i - 1;
    }
    r := rev;
  }

  /** reverseChar: flip each letter of edge e in place. */
  method ReverseChar(s: P.Path, e: int) returns (r: P.Path)
    ensures r == P.ReverseChar(s, e)
  {
    var sb := s;
    var j := 0;
    while j < |sb|
      invariant 0 <= j <= |sb| == |s|
      invariant forall k :: 0 <= k < j ==> sb[k] == if s[k].index == e then Inv(s[k]) else s[k]
      invariant forall k :: j <= k < |sb| ==> sb[k] == s[k]
    {
      if sb[j].index == e {
        sb := sb[j := Inv(sb[j])];
      }
      j := j + 1;
    }
    r := sb;
  }

  /** removeEdge: delete each letter of edge e, staying in place after a deletion. */
  method RemoveEdge(w: P.Path, e: int) returns (r: P.Path)
    ensures r == P.RemoveEdge(w, e)
  {
    var sb := w;
    var i := 0;
    ghost var k := 0;
    while i < |sb|
      invariant 0 <= k <= |w| && 0 <= i <= |sb|
      invariant sb[..i] == P.RemoveEdge(w[..k], e)
      invariant sb[i..] == w[k..]
      decreases |sb| - i
    {
      RemoveEdgeStep(w, k, e);
      ghost var was := sb;
      if sb[i].index == e {
        sb := sb[..i] + sb[i + 1..];
        assert sb[..i] == was[..i] && sb[i..] == was[i + 1..];
      } else {
        i := i + 1;
        assert sb[..i] == was[..i - 1] + [was[i - 1]];
      }
      k := k + 1;
    }
    assert w[..k] == w;
    assert sb[..i] == sb;
    r := sb;
  }

  lemma RemoveEdgeStep(w: P.Path, k: nat, e: int)
    requires k < |w|
    ensures P.RemoveEdge(w[..k + 1], e) ==
      P.RemoveEdge(w[..k], e) + (if w[k].index == e then [] else [w[k]])
  {
    P.RemoveEdgeAppend(w[..k], [w[k]], e);
    assert w[..k + 1] == w[..k] + [w[k]];
  }

  /** splitChar: insert the new edge n after e (before a backward e) and skip it. */
  method SplitChar(s: P.Path, e: int, n: int) returns (r: P.Path)
    ensures r == P.SplitChar(s, e, n)
  {
    var sb := s;
    var j := 0;
    ghost var k := 0;
    while j < |sb|
      invariant 0 <= k <= |s| && 0 <= j <= |sb|
      invariant sb[..j] == P.SplitChar(s[..k], e, n)
      invariant sb[j..] == s[k..]
      decreases |s| - k
    {
      SplitCharStep(s, k, e, n);
      SuffixStep(sb, j, s, k);
      if sb[j].index == e {
        if sb[j].inv {
          InsertBefore(sb, j, IndexToSym(n, true));
          sb := sb[..j] + [IndexToSym(n, true)] + sb[j..];
        } else {
          InsertAfter(sb, j, IndexToSym(n, false));
          sb := sb[..j + 1] + [IndexToSym(n, false)] + sb[j + 1..];
        }
        j := j + 1;
      } else {
        assert sb[..j + 1] == sb[..j] + [sb[j]];
      }
      j := j + 1;
      k := k + 1;
    }
    assert s[..k] == s;
    assert sb[..j] == sb;
    r := sb;
  }

  /** The unread suffix starts with the letter being read. */
  lemma SuffixStep(sb: P.Path, j: nat, s: P.Path, k: nat)
    requires j < |sb| && k <= |s| && sb[j..] == s[k..]
    ensures k < |s| && sb[j] == s[k] && sb[j + 1..] == s[k + 1..]
  {
    assert sb[j..][0] == sb[j];
    assert sb[j + 1..] == sb[j..][1..];
  }

  /** Inserting x before position j. */
  lemma InsertBefore(sb: P.Path, j: nat, x: Sym)
    requires j < |sb|
    ensures var t := sb[..j] + [x] + sb[j..];
      t[..j + 2] == sb[..j] + [x, sb[j]] && t[j + 2..] == sb[j + 1..]
  {
    var t := sb[..j] + [x] + sb[j..];
    assert t[..j + 2] == sb[..j] + [x, sb[j]];
  }

  /** Inserting x after position j. */
  lemma InsertAfter(sb: P.Path, j: nat, x: Sym)
    requires j < |sb|
    ensures var t := sb[..j + 1] + [x] + sb[j + 1..];
      t[..j + 2] == sb[..j] + [sb[j], x] && t[j + 2..] == sb[j + 1..]
  {
    var t := sb[..j + 1] + [x] + sb[j + 1..];
    assert t[..j + 2] == sb[..j] + [sb[j], x];
  }

  lemma SplitCharStep(s: P.Path, k: nat, e: int, n: int)
    requires k < |s|
    ensures P.SplitChar(s[..k + 1], e, n) == P.SplitChar(s[..k], e, n) + P.SplitLetter(s[k], e, n)
  {
    P.SplitCharAppend(s[..k], [s[k]], e, n);
    assert s[..k + 1] == s[..k] + [s[k]];
  }

  lemma {:induction false} SubstituteAllAppend(a: P.Path, b: P.Path, c: Sym, s: P.Path)
    ensures P.SubstituteAll(a + b, c, s) == P.SubstituteAll(a, c, s) + P.SubstituteAll(b, c, s)
    decreases |a|
  {
    if a == [] {
      assert a + b == b;
    } else {
      assert (a + b)[0] == a[0] && (a + b)[1..] == a[1..] + b;
      SubstituteAllAppend(a[1..], b, c, s);
    }
  }

  /** replaceChar: substitute s for c and its inverse for c's inverse, then tighten. */
  method ReplaceChar(w: P.Path, c: Sym, s: P.Path) returns (r: P.Path)
    ensures r == P.ReplaceChar(w, c, s)
  {
    var si := ReverseWord(s);
    var res := [];
    var i := 0;
    while i < |w|
      invariant 0 <= i <= |w|
      invariant res == P.SubstituteAll(w[..i], c, s)
    {
      SubstituteAllAppend(w[..i], [w[i]], c, s);
      assert w[..i + 1] == w[..i] + [w[i]];
      if c == w[i] {
        res := res + s;
      } else if Inv(c) == w[i] {
        res := res + si;
      } else {
        res := res + [w[i]];
      }
      i := i + 1;
    }
    assert w[..i] == w;
    r := TightenWord(res);
  }

  lemma {:induction false} PathToStringAppend(a: P.Path, b: P.Path)
    ensures Letters.PathToString(a + b) == Letters.PathToString(a) + Letters.PathToString(b)
    decreases |a|
  {
    if a == [] {
      assert a + b == b;
    } else {
      assert (a + b)[0] == a[0] && (a + b)[1..] == a[1..] + b;
      PathToStringAppend(a[1..], b);
    }
  }

  /** pathToString: append the label of each letter. */
  method PathToString(path: P.Path) returns (res: string)
    ensures res == Letters.PathToString(path)
  {
    res := "";
    var i := 0;
    while i < |path|
      invariant 0 <= i <= |path|
      invariant res == Letters.PathToString(path[..i])
    {
      PathToStringAppend(path[..i], [path[i]]);
      assert path[..i + 1] == path[..i] + [path[i]];
      res := res + SymToLabel(path[i]);
      i := i + 1;
    }
    assert path[..i] == path;
  }

  /** stringToPath: cut the text at each character above '9' and read the labels. */
  method StringToPath(s: string) returns (r: Option<P.Path>)
    ensures r == Letters.StringToPath(s)
  {
    var res := [];
    var i := 0;
    assert s[0..] == s;
    if Letters.StringToPath(s).Some? {
      assert [] + Letters.StringToPath(s).value == Letters.StringToPath(s).value;
    }
    while i < |s|
      invariant 0 <= i <= |s|
      invariant Letters.StringToPath(s) == Prefixed(res, Letters.StringToPath(s[i..]))
      decreases |s| - i
    {
      var j := i + 1;
      while j < |s| && s[j] <= '9'
        invariant i + 1 <= j <= |s|
        invariant forall m :: i + 1 <= m < j ==> s[m] <= '9'
      {
        j := j + 1;
      }
      LabelStep(s, i, j);
      var lab := s[i..j];
      match LabelToSym(lab)
      case None =>
        return None;
      case Some(c) =>
        PrefixedAppend(res, c, Letters.StringToPath(s[j..]));
        res := res + [c];
        i := j;
    }
    assert s[i..] == [];
    assert res + [] == res;
    r := Some(res);
  }

  /** A path read so far, in front of the rest (None once a label failed). */
  function Prefixed(res: P.Path, rest: Option<P.Path>): Option<P.Path>
  {
    match rest
    case None => None
    case Some(q) => Some(res + q)
  }

  lemma PrefixedAppend(res: P.Path, c: Sym, rest: Option<P.Path>)
    ensures Prefixed(res, Prefixed([c], rest)) == Prefixed(res + [c], rest)
  {
    if rest.Some? {
      assert res + ([c] + rest.value) == (res + [c]) + rest.value;
    }
  }

  lemma LabelStep(s: string, i: nat, j: nat)
    requires i + 1 <= j <= |s|
    requires forall m :: i + 1 <= m < j ==> s[m] <= '9'
    requires j < |s| ==> s[j] > '9'
    ensures Letters.StringToPath(s[i..]) ==
      match LabelToSym(s[i..j])
      case None => None
      case Some(c) => Prefixed([c], Letters.StringToPath(s[j..]))
  {
    var t := s[i..];
    LabelEndUnique(t, 1, j - i);
    assert t[..j - i] == s[i..j] && t[j - i..] == s[j..];
  }

  /** isCyclicallyConjugate: compare the cyclic reductions at every rotation. */
  method IsCyclicallyConjugate(w1: P.Path, w2: P.Path) returns (b: bool)
    ensures b == P.IsCyclicallyConjugate(w1, w2)
  {
    var u := TightenCycl(w1);
    var v := TightenCycl(w2);
    if |u| != |v| {
      return false;
    }
    var len := |u|;
    if len == 0 {
      return true;
    }
    var i := 0;
    while i < len
      invariant 0 <= i <= len
      invariant forall k :: 0 <= k < i ==> !P.RotatedBy(u, v, k)
    {
      var j := 0;
      while j < len && u[j] == v[P.Shift(len, i, j)]
        invariant 0 <= j <= len
        invariant forall m :: 0 <= m < j ==> u[m] == v[P.Shift(len, i, m)]
      {
        j := j + 1;
      }
      if j >= len {
        assert P.RotatedBy(u, v, i);
        return true;
      }
      assert !P.RotatedBy(u, v, i) by {
        assert u[j] != v[P.Shift(len, i, j)];
      }
      i := i + 1;
    }
    assert !P.IsRotation(u, v);
    return false;
  }
}
