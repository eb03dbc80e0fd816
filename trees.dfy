/**
 * The bookkeeping of evaluateTree (GraphMap.java) as values: which edges a spanning
 * tree word names, the flags the method leaves behind and the count it compares with
 * the number of vertices.
 */
module Trees {
  import opened Letters
  import P = Paths

  /** The edges a word names. */
  function Named(tr: P.Path): set<int>
  {
    set i | 0 <= i < |tr| :: tr[i].index
  }

  /** The edges whose flag is set. */
  function Flagged(flags: seq<bool>): set<int>
  {
    set k | 0 <= k < |flags| && flags[k]
  }

  /** The first n flags cleared, the rest kept. */
  function Cleared(flags: seq<bool>, n: int): (r: seq<bool>)
    ensures |r| == |flags|
    ensures forall k :: 0 <= k < |r| ==> (r[k] <==> n <= k && flags[k])
  {
    seq(|flags|, k requires 0 <= k < |flags| => if k < n then false else flags[k])
  }

  /**
   * Flagging the letters of tr one after the other: the final flags and how many
   * flags went from unset to set on the way.
   */
  function Marks(flags: seq<bool>, tr: P.Path): (r: (seq<bool>, nat))
    requires P.LettersBelow(tr, |flags|)
    ensures |r.0| == |flags|
    decreases |tr|
  {
    if tr == [] then (flags, 0)
    else
      var k := tr[0].index;
      var m := Marks(flags[k := true], tr[1..]);
      (m.0, if flags[k] then m.1 else m.1 + 1)
  }

  lemma NamedCons(tr: P.Path)
    requires tr != []
    ensures Named(tr) == {tr[0].index} + Named(tr[1..])
  {
    var rest := tr[1..];
    forall x | x in Named(tr) ensures x in {tr[0].index} + Named(rest) {
      var i :| 0 <= i < |tr| && tr[i].index == x;
      if i > 0 {
        assert rest[i - 1].index == x;
      }
    }
    forall x | x in Named(rest) ensures x in Named(tr) {
      var i :| 0 <= i < |rest| && rest[i].index == x;
      assert tr[i + 1].index == x;
    }
  }

  lemma FlaggedSet(flags: seq<bool>, k: nat)
    requires k < |flags|
    ensures Flagged(flags[k := true]) == Flagged(flags) + {k}
  {
  }

  /** Marking sets exactly the named flags, and counts the named edges not flagged before. */
  lemma {:induction false} MarksCount(flags: seq<bool>, tr: P.Path)
    requires P.LettersBelow(tr, |flags|)
    ensures Flagged(Marks(flags, tr).0) == Flagged(flags) + Named(tr)
    ensures Marks(flags, tr).1 == |Named(tr) - Flagged(flags)|
    decreases |tr|
  {
    if tr != [] {
      var k, rest := tr[0].index, tr[1..];
      var f' := flags[k := true];
      MarksCount(f', rest);
      NamedCons(tr);
      FlaggedSet(flags, k);
      NewCount(Named(rest), Flagged(flags), k);
    }
  }

  /** Naming k once more adds one new edge exactly when k was not flagged. */
  lemma NewCount(a: set<int>, b: set<int>, k: int)
    ensures |({k} + a) - b| == if k in b then |a - (b + {k})| else |a - (b + {k})| + 1
  {
    if k in b {
      assert ({k} + a) - b == a - (b + {k});
    } else {
      assert ({k} + a) - b == (a - (b + {k})) + {k};
    }
  }

  /**
   * When every named edge is in use (below n), the count after clearing the first n
   * flags is the number of distinct edges tr names, and the flags below n mark exactly them.
   */
  lemma TreeCount(flags: seq<bool>, n: nat, tr: P.Path)
    requires n <= |flags| && P.LettersBelow(tr, n)
    ensures Marks(Cleared(flags, n), tr).1 == |Named(tr)|
    ensures forall k :: 0 <= k < n ==> (Marks(Cleared(flags, n), tr).0[k] <==> k in Named(tr))
  {
    var c := Cleared(flags, n);
    MarksCount(c, tr);
    assert Named(tr) - Flagged(c) == Named(tr);
    forall k | 0 <= k < n ensures Marks(c, tr).0[k] <==> k in Named(tr) {
      assert Marks(c, tr).0[k] <==> k in Flagged(Marks(c, tr).0);
    }
  }

  /** Every letter of p is an edge whose flag is set. */
  predicate LettersIn(p: P.Path, flags: seq<bool>)
  {
    forall i :: 0 <= i < |p| ==> p[i].index < |flags| && flags[p[i].index]
  }

  /** Tightening and reversing keep a path inside the flagged edges. */
  lemma TightenLettersIn(p: P.Path, flags: seq<bool>)
    requires LettersIn(p, flags)
    ensures LettersIn(P.Tighten(p), flags) && LettersIn(P.Reverse(p), flags)
  {
    P.ReduceLetters([], p);
    var t := P.Tighten(p);
    forall i | 0 <= i < |t| ensures t[i].index < |flags| && flags[t[i].index] {
      assert t[i] in multiset(t);
      assert t[i] in multiset(p);
    }
    var r := P.Reverse(p);
    forall i | 0 <= i < |r| ensures r[i].index < |flags| && flags[r[i].index] {
      assert r[i].index == p[|p| - 1 - i].index;
    }
  }
}
