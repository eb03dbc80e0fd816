/**
 * Invariant subgraphs of a train track (TrainTrack.java, iterate and genInvSub): the
 * smallest set of edges that contains a given edge and every edge in the image of
 * each of its members, found by a depth-first walk that marks edges in a boolean
 * array.
 */
module InvariantSubgraphs {
  import opened Letters
  import P = Paths
  import G = Graphs
  import GM = GraphMaps
  import H = Homotopies

  /** The marked positions. */
  ghost function Members(a: seq<bool>): set<int>
  {
    set i | 0 <= i < |a| && a[i]
  }

  /** An invariant subgraph: edges in use, containing every edge in the image of a member. */
  ghost predicate Closed(g: G.Graph, t: set<int>)
    requires G.Valid(g)
  {
    forall x :: x in t ==> 0 <= x < g.edges && forall k :: 0 <= k < |g.im[x]| ==> g.im[x][k].index in t
  }

  /** The smallest invariant subgraph containing ed, as flags: the edges lying in every one. */
  ghost function Closure(g: G.Graph, ed: int): (s: seq<bool>)
    requires G.Valid(g)
    ensures |s| == g.edges
  {
    seq(g.edges, x => forall t :: Closed(g, t) && ed in t ==> x in t)
  }

  /** The number of unmarked positions among the first k. */
  function Falses(a: seq<bool>, k: nat): nat
    requires k <= |a|
  {
    if k == 0 then 0 else Falses(a, k - 1) + (if a[k - 1] then 0 else 1)
  }

  /** Marking more positions leaves fewer unmarked ones. */
  lemma {:induction false} FalsesMono(a: seq<bool>, b: seq<bool>, k: nat)
    requires |a| == |b| && k <= |a| && forall i :: 0 <= i < |a| && a[i] ==> b[i]
    ensures Falses(b, k) <= Falses(a, k)
  {
    if k > 0 {
      FalsesMono(a, b, k - 1);
    }
  }

  /** Marking an unmarked position leaves one unmarked position fewer. */
  lemma {:induction false} FalsesMark(a: seq<bool>, e: nat, k: nat)
    requires e < |a| && !a[e] && k <= |a|
    ensures Falses(a[e := true], k) == Falses(a, k) - (if e < k then 1 else 0)
  {
    if k > 0 {
      FalsesMark(a, e, k - 1);
    }
  }

  /**
   * iterate(subgr, ed): when ed is unmarked, mark it and walk the edges of its image.
   * Marks are only added; every edge it marks has its whole image marked; and every
   * edge it marks lies in any invariant subgraph containing ed.
   */
  method Iterate(g: GM.GraphMap, subgr: array<bool>, ed: nat)
    requires g.Valid() && H.ImagesWithin(g.State()) && subgr.Length == g.edges && ed < g.edges
    modifies subgr
    ensures subgr[ed] && forall x :: 0 <= x < subgr.Length && old(subgr[x]) ==> subgr[x]
    ensures forall x :: 0 <= x < subgr.Length && subgr[x] && !old(subgr[x]) ==>
      forall k :: 0 <= k < |g.im[x]| ==> subgr[g.im[x][k].index]
    ensures forall t :: Closed(g.State(), t) && ed in t ==>
      forall x :: 0 <= x < subgr.Length && subgr[x] && !old(subgr[x]) ==> x in t
    ensures Falses(subgr[..], subgr.Length) <= old(Falses(subgr[..], subgr.Length))
    decreases Falses(subgr[..], subgr.Length)
  {
    if subgr[ed] {
      return;
    }
    ghost var s := g.State();
    ghost var f0 := Falses(subgr[..], subgr.Length);
    FalsesMark(subgr[..], ed, subgr.Length);
    subgr[ed] := true;
    assert subgr[..] == old(subgr[..])[ed := true];
    var w := g.im[ed];
    var i := 0;
    while i < |w|
      invariant 0 <= i <= |w| && subgr[ed] && Falses(subgr[..], subgr.Length) < f0
      invariant forall x :: 0 <= x < subgr.Length && old(subgr[x]) ==> subgr[x]
      invariant forall k :: 0 <= k < i ==> subgr[w[k].index]
      invariant forall x :: 0 <= x < subgr.Length && subgr[x] && !old(subgr[x]) && x != ed ==>
        forall k :: 0 <= k < |g.im[x]| ==> subgr[g.im[x][k].index]
      invariant forall t :: Closed(s, t) && ed in t ==>
        forall x :: 0 <= x < subgr.Length && subgr[x] && !old(subgr[x]) ==> x in t
    {
      Iterate(g, subgr, w[i].index);
      i := i + 1;
    }
  }

  /**
   * genInvSub(subgr, ed): the marks cleared, then the walk from ed. The marked edges
   * form the smallest invariant subgraph containing ed.
   */
  method GenInvSub(g: GM.GraphMap, subgr: array<bool>, ed: nat)
    requires g.Valid() && H.ImagesWithin(g.State()) && subgr.Length == g.edges && ed < g.edges
    modifies subgr
    ensures ed in Members(subgr[..]) && Closed(g.State(), Members(subgr[..]))
    ensures forall t :: Closed(g.State(), t) && ed in t ==> Members(subgr[..]) <= t
    ensures subgr[..] == Closure(g.State(), ed)
  {
    var i := 0;
    while i < g.edges
      invariant 0 <= i <= g.edges && forall x :: 0 <= x < i ==> !subgr[x]
    {
      subgr[i] := false;
      i := i + 1;
    }
    Iterate(g, subgr, ed);
    ghost var m := Members(subgr[..]);
    forall x | x in m ensures 0 <= x < g.edges && forall k :: 0 <= k < |g.im[x]| ==> g.im[x][k].index in m {
      forall k | 0 <= k < |g.im[x]| ensures g.im[x][k].index in m {
        assert P.LettersBelow(g.im[x], g.edges);
      }
    }
    forall x | 0 <= x < g.edges ensures subgr[x] == Closure(g.State(), ed)[x] {
      assert x in m ==> subgr[x];
    }
  }
}
