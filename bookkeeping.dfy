/**
 * The bookkeeping of split-and-fold in TrainTrack.java. A GrowingCharArray of
 * letters points at the edges of the turns being climbed down; when an edge is
 * split, moved or turned round, updateInv, updateAll and reverseList rewrite the
 * pointers, and splitList splits the flagged edges whose images are too long.
 */
module Bookkeeping {
  import opened Wrappers
  import opened Letters
  import P = Paths
  import G = Graphs
  import GM = GraphMaps
  import opened Growing

  // ---- updateInv ----

  /** A pointer after updateInv(_, o, nw): a backward letter of o becomes the backward letter of nw. */
  function InvMoved(c: Sym, o: int, nw: int): Sym
  {
    if c.index == o && c.inv then IndexToSym(nw, true) else c
  }

  /** All the pointers after updateInv. */
  function UpdatedInv(s: seq<Sym>, o: int, nw: int): (r: seq<Sym>)
    ensures |r| == |s|
  {
    seq(|s|, k requires 0 <= k < |s| => InvMoved(s[k], o, nw))
  }

  /**
   * After edge o is split into o followed by the new edge nw, every pointer names
   * the first letter of what its letter became: a backward o now begins with the
   * backward new edge, every other letter begins with itself.
   */
  lemma UpdatedInvFollowsSplit(s: seq<Sym>, o: int, nw: int)
    ensures forall k :: 0 <= k < |s| ==> UpdatedInv(s, o, nw)[k] == P.SplitLetter(s[k], o, nw)[0]
  {
  }

  /** updateInv(al, o, nw): the loop over the pointers in use. */
  method UpdateInv(al: GrowingCharArray, o: int, nw: int)
    requires al.Valid()
    modifies al, al.v
    ensures al.Valid() && al.Contents() == UpdatedInv(old(al.Contents()), o, nw)
    ensures al.v == old(al.v) || fresh(al.v)
  {
    ghost var s := al.Contents();
    var i := 0;
    while i < al.cnt
      invariant al.Valid() && 0 <= i <= al.cnt == |s|
      invariant al.v == old(al.v) || fresh(al.v)
      invariant forall k :: 0 <= k < |s| ==> al.Contents()[k] == if k < i then InvMoved(s[k], o, nw) else s[k]
    {
      var c := al.GetValue(i);
      if c.value.index == o && c.value.inv {
        al.SetValue(i, IndexToSym(nw, true));
      }
      i := i + 1;
    }
    assert al.Contents() == UpdatedInv(s, o, nw);
  }

  // ---- updateAll ----

  /** A pointer after updateAll(_, o, nw): a letter of o becomes the letter of nw in the same direction. */
  function Moved(c: Sym, o: int, nw: int): Sym
  {
    if c.index == o then IndexToSym(nw, c.inv) else c
  }

  /** All the pointers after updateAll. */
  function UpdatedAll(s: seq<Sym>, o: int, nw: int): (r: seq<Sym>)
    ensures |r| == |s|
  {
    seq(|s|, k requires 0 <= k < |s| => Moved(s[k], o, nw))
  }

  /** For indices in range, updateAll is the renaming of edge o to nw that a fold makes in the images. */
  lemma UpdatedAllRenames(s: seq<Sym>, o: Index, nw: Index)
    ensures UpdatedAll(s, o, nw) == G.RenameEdge(s, o, nw)
  {
    IndexToCharInRange(nw, false);
    IndexToCharInRange(nw, true);
  }

  /** Moving the pointers of o to a free index nw and back restores them. */
  lemma UpdatedAllBack(s: seq<Sym>, o: Index, nw: Index)
    requires forall k :: 0 <= k < |s| ==> s[k].index != nw
    ensures UpdatedAll(UpdatedAll(s, o, nw), nw, o) == s
  {
    IndexToCharInRange(nw, false);
    IndexToCharInRange(nw, true);
    IndexToCharInRange(o, false);
    IndexToCharInRange(o, true);
    var t := UpdatedAll(UpdatedAll(s, o, nw), nw, o);
    forall k | 0 <= k < |s| ensures t[k] == s[k] {
      if s[k].index == o {
        assert UpdatedAll(s, o, nw)[k] == Sym(nw, s[k].inv);
      }
    }
  }

  /** updateAll(al, o, nw): the loop over the pointers in use. */
  method UpdateAll(al: GrowingCharArray, o: int, nw: int)
    requires al.Valid()
    modifies al, al.v
    ensures al.Valid() && al.Contents() == UpdatedAll(old(al.Contents()), o, nw)
    ensures al.v == old(al.v) || fresh(al.v)
  {
    ghost var s := al.Contents();
    var i := 0;
    while i < al.cnt
      invariant al.Valid() && 0 <= i <= al.cnt == |s|
      invariant al.v == old(al.v) || fresh(al.v)
      invariant forall k :: 0 <= k < |s| ==> al.Contents()[k] == if k < i then Moved(s[k], o, nw) else s[k]
    {
      var c := al.GetValue(i);
      if c.value.index == o {
        al.SetValue(i, IndexToSym(nw, c.value.inv));
      }
      i := i + 1;
    }
    assert al.Contents() == UpdatedAll(s, o, nw);
  }

  // ---- reverseList ----

  /**
   * reverseList(al, ed): every pointer to ed flipped, which is reverseChar on the
   * pointers (so doing it twice restores them, Paths.ReverseCharTwice).
   */
  method ReverseList(al: GrowingCharArray, ed: int)
    requires al.Valid()
    modifies al, al.v
    ensures al.Valid() && al.Contents() == P.ReverseChar(old(al.Contents()), ed)
    ensures al.v == old(al.v) || fresh(al.v)
  {
    ghost var s := al.Contents();
    var i := 0;
    while i < al.cnt
      invariant al.Valid() && 0 <= i <= al.cnt == |s|
      invariant al.v == old(al.v) || fresh(al.v)
      invariant forall k :: 0 <= k < |s| ==> al.Contents()[k] == if k < i && s[k].index == ed then Inv(s[k]) else s[k]
    {
      var c := al.GetValue(i);
      if c.value.index == ed {
        al.SetValue(i, Inv(c.value));
      }
      i := i + 1;
    }
    assert al.Contents() == P.ReverseChar(s, ed);
  }

  // ---- splitList ----

  /**
   * splitList from edge i on: each edge flagged in fld whose image is longer than
   * len has its backward pointers moved to the new edge and is split after len
   * letters; len becomes the length the image of the split edge then has. The
   * loop runs to the edge count of the moment, so the new edges are visited too.
   * A failed split (no room for another edge) ends it with the error.
   */
  function SplitListFrom(g: G.Graph, fld: seq<bool>, len: nat, al: seq<Sym>, i: nat): (r: Result<(G.Graph, nat, seq<Sym>)>)
    requires G.Valid(g) && i <= g.edges
    decreases g.edges - i + (if i < |fld| then |fld| - i else 0)
  {
    if i == g.edges then Ok((g, len, al))
    else if BoolAt(fld, i) && |g.im[i]| > len then
      match G.SplitEdge(g, i, len)
      case Err(m) => Err(m)
      case Ok(h) =>
        G.SplitEdgeGrows(g, i, len);
        SplitListFrom(h, fld, |h.im[i]|, UpdatedInv(al, i, g.edges), i + 1)
    else SplitListFrom(g, fld, len, al, i + 1)
  }

  /** splitList(fld, len, al) over the whole map. */
  function SplitList(g: G.Graph, fld: seq<bool>, len: nat, al: seq<Sym>): Result<(G.Graph, nat, seq<Sym>)>
    requires G.Valid(g)
  {
    SplitListFrom(g, fld, len, al, 0)
  }

  /** Splitting never shortens a word: the letters of e only gain a letter. */
  lemma {:induction false} SplitCharLonger(p: P.Path, e: int, n: int)
    ensures |P.SplitChar(p, e, n)| >= |p|
    decreases |p|
  {
    if p != [] {
      SplitCharLonger(p[1..], e, n);
    }
  }

  /** What splitList promises of its result (h, len', al') from g, len and al. */
  predicate SplitListGood(g: G.Graph, len: nat, al: seq<Sym>, r: (G.Graph, nat, seq<Sym>))
  {
    G.WellFormed(r.0) && r.0.edges >= g.edges && r.0.edges - g.edges == r.0.vertices - g.vertices &&
    r.1 >= len && |r.2| == |al|
  }

  /**
   * splitList keeps a map well-formed, adds as many vertices as edges (so the
   * Euler characteristic is unchanged), never lowers len, and keeps the number of
   * pointers.
   */
  lemma {:induction false} SplitListFromSpec(g: G.Graph, fld: seq<bool>, len: nat, al: seq<Sym>, i: nat)
    requires G.WellFormed(g) && i <= g.edges
    ensures SplitListFrom(g, fld, len, al, i).Ok? ==> SplitListGood(g, len, al, SplitListFrom(g, fld, len, al, i).value)
    decreases g.edges - i + (if i < |fld| then |fld| - i else 0), 1
  {
    if i < g.edges {
      if BoolAt(fld, i) && |g.im[i]| > len {
        SplitListStep(g, fld, len, al, i);
      } else {
        SplitListFromSpec(g, fld, len, al, i + 1);
      }
    }
  }

  /**
   * splitList leaves everything as it was exactly when no edge from i on is both
   * flagged and longer than len; otherwise it splits at least one edge (or fails).
   */
  lemma {:induction false} SplitListIdle(g: G.Graph, fld: seq<bool>, len: nat, al: seq<Sym>, i: nat)
    requires G.WellFormed(g) && i <= g.edges
    ensures SplitListFrom(g, fld, len, al, i) == Ok((g, len, al)) <==>
      forall k :: i <= k < g.edges ==> !(BoolAt(fld, k) && |g.im[k]| > len)
    decreases g.edges - i
  {
    if i < g.edges {
      if BoolAt(fld, i) && |g.im[i]| > len {
        var sp := G.SplitEdge(g, i, len);
        if sp.Ok? {
          var h := sp.value;
          SplitFacts(g, i, len);
          SplitListFromSpec(h, fld, |h.im[i]|, UpdatedInv(al, i, g.edges), i + 1);
        }
      } else {
        SplitListIdle(g, fld, len, al, i + 1);
      }
    }
  }

  /** The pass of splitList that splits edge i. */
  lemma {:induction false} SplitListStep(g: G.Graph, fld: seq<bool>, len: nat, al: seq<Sym>, i: nat)
    requires G.WellFormed(g) && i < g.edges && BoolAt(fld, i) && |g.im[i]| > len
    ensures SplitListFrom(g, fld, len, al, i).Ok? ==> SplitListGood(g, len, al, SplitListFrom(g, fld, len, al, i).value)
    decreases g.edges - i + (if i < |fld| then |fld| - i else 0), 0
  {
    var sp := G.SplitEdge(g, i, len);
    if sp.Ok? {
      var h := sp.value;
      SplitFacts(g, i, len);
      SplitListFromSpec(h, fld, |h.im[i]|, UpdatedInv(al, i, g.edges), i + 1);
      assert SplitListFrom(g, fld, len, al, i) == SplitListFrom(h, fld, |h.im[i]|, UpdatedInv(al, i, g.edges), i + 1);
    }
  }

  // The effect of splitList, split by split: which edges it splits, where, and
  // what the others become.

  /** Every entry of log is an edge from i on that is flagged in fld. */
  predicate FlaggedFrom(log: seq<nat>, fld: seq<bool>, i: nat)
  {
    forall j :: 0 <= j < |log| ==> i <= log[j] && BoolAt(fld, log[j])
  }

  /** No edge comes twice in log, and they come in increasing order. */
  predicate Increasing(log: seq<nat>)
  {
    forall j1, j2 :: 0 <= j1 < j2 < |log| ==> log[j1] < log[j2]
  }

  /** A flagged edge i put before a log of later flagged edges keeps the log in order. */
  lemma OrderCons(fld: seq<bool>, i: nat, rest: seq<nat>)
    requires BoolAt(fld, i) && FlaggedFrom(rest, fld, i + 1) && Increasing(rest)
    ensures FlaggedFrom([i] + rest, fld, i) && Increasing([i] + rest)
  {
    var log := [i] + rest;
    forall j | 0 < j < |log| ensures log[j] == rest[j - 1] && i < log[j] && BoolAt(fld, log[j]) {
      assert i + 1 <= rest[j - 1];
    }
  }

  /**
   * The edges splitList splits from edge i on, in the order it splits them:
   * flagged edges from i on, each at most once, in increasing order.
   */
  function SplitLog(g: G.Graph, fld: seq<bool>, len: nat, i: nat): (log: seq<nat>)
    requires G.Valid(g) && i <= g.edges
    ensures FlaggedFrom(log, fld, i) && Increasing(log)
    decreases g.edges - i + (if i < |fld| then |fld| - i else 0)
  {
    if i == g.edges then []
    else if BoolAt(fld, i) && |g.im[i]| > len then
      match G.SplitEdge(g, i, len)
      case Err(_) => []
      case Ok(h) =>
        G.SplitEdgeGrows(g, i, len);
        var rest := SplitLog(h, fld, |h.im[i]|, i + 1);
        OrderCons(fld, i, rest);
        [i] + rest
    else SplitLog(g, fld, len, i + 1)
  }

  /**
   * The splits of log made one after the other: each edge is split after the
   * running len letters, len becomes the length that edge's image is left with,
   * and its backward pointers move to the new edge.
   */
  function Replay(g: G.Graph, len: nat, al: seq<Sym>, log: seq<nat>): (r: Result<(G.Graph, nat, seq<Sym>)>)
    requires G.Valid(g)
    ensures r.Ok? ==> G.Valid(r.value.0) && r.value.0.edges == g.edges + |log| && r.value.0.vertices == g.vertices + |log|
    decreases |log|
  {
    if log == [] then Ok((g, len, al))
    else
      match G.SplitEdge(g, log[0], len)
      case Err(m) => Err(m)
      case Ok(h) =>
        G.SplitEdgeSpec(g, log[0], len);
        G.SplitEdgeGrows(g, log[0], len);
        Replay(h, |h.im[log[0]]|, UpdatedInv(al, log[0], g.edges), log[1..])
  }

  /** The entries of log met before edge k is reached. */
  function Before(log: seq<nat>, k: nat): seq<nat>
    decreases |log|
  {
    if log == [] || log[0] >= k then [] else [log[0]] + Before(log[1..], k)
  }

  /** A word after the splits of log, the new edges being numbered from n on. */
  function SplitAll(p: P.Path, log: seq<nat>, n: nat): P.Path
    decreases |log|
  {
    if log == [] then p else SplitAll(P.SplitChar(p, log[0], n), log[1..], n + 1)
  }

  /** splitList makes exactly the splits of its log, in order, and nothing else. */
  lemma {:induction false} SplitListReplays(g: G.Graph, fld: seq<bool>, len: nat, al: seq<Sym>, i: nat)
    requires G.Valid(g) && i <= g.edges
    ensures SplitListFrom(g, fld, len, al, i).Ok? ==>
      Replay(g, len, al, SplitLog(g, fld, len, i)) == SplitListFrom(g, fld, len, al, i)
    decreases g.edges - i + (if i < |fld| then |fld| - i else 0)
  {
    if i < g.edges {
      if BoolAt(fld, i) && |g.im[i]| > len {
        var sp := G.SplitEdge(g, i, len);
        if sp.Ok? {
          var h := sp.value;
          G.SplitEdgeGrows(g, i, len);
          SplitListReplays(h, fld, |h.im[i]|, UpdatedInv(al, i, g.edges), i + 1);
          var rest := SplitLog(h, fld, |h.im[i]|, i + 1);
          assert ([i] + rest)[1..] == rest;
        }
      } else {
        SplitListReplays(g, fld, len, al, i + 1);
      }
    }
  }

  /**
   * The rule splitList follows: an edge k from i on that the loop reaches (k is
   * below the edge count of that moment) is split exactly when it is flagged and
   * its image at that moment is longer than the running len.
   */
  lemma {:induction false} SplitLogTurns(g: G.Graph, fld: seq<bool>, len: nat, al: seq<Sym>, i: nat, k: nat)
    requires G.Valid(g) && i <= g.edges && i <= k
    requires SplitListFrom(g, fld, len, al, i).Ok?
    ensures Turn(g, fld, len, al, SplitLog(g, fld, len, i), k)
    decreases g.edges - i + (if i < |fld| then |fld| - i else 0)
  {
    if i < g.edges {
      var log := SplitLog(g, fld, len, i);
      if BoolAt(fld, i) && |g.im[i]| > len {
        var h := G.SplitEdge(g, i, len).value;
        G.SplitEdgeGrows(g, i, len);
        var al' := UpdatedInv(al, i, g.edges);
        var rest := SplitLog(h, fld, |h.im[i]|, i + 1);
        assert log == [i] + rest;
        if k > i {
          assert SplitListFrom(g, fld, len, al, i) == SplitListFrom(h, fld, |h.im[i]|, al', i + 1);
          SplitLogTurns(h, fld, |h.im[i]|, al', i + 1, k);
          TurnShift(g, fld, len, al, i, rest, k);
        } else {
          TurnHere(g, fld, len, al, log, k);
        }
      } else {
        assert log == SplitLog(g, fld, len, i + 1);
        assert SplitListFrom(g, fld, len, al, i) == SplitListFrom(g, fld, len, al, i + 1);
        if k > i {
          SplitLogTurns(g, fld, len, al, i + 1, k);
        } else {
          TurnHere(g, fld, len, al, log, k);
        }
      }
    }
  }

  /**
   * What splitList does, split by split: the result is the splits of its log made
   * in order; the log names flagged edges from i on, in increasing order; an edge
   * the loop reaches is split exactly when it is flagged and its image is then
   * longer than the running len; each split adds one edge and one vertex; and
   * every edge it does not split keeps its ends while its image, like the fixed
   * word, only has the letters of the split edges split.
   */
  lemma SplitListMeans(g: G.Graph, fld: seq<bool>, len: nat, al: seq<Sym>, i: nat)
    requires G.Valid(g) && i <= g.edges
    ensures SplitListFrom(g, fld, len, al, i).Ok? ==>
      var log := SplitLog(g, fld, len, i);
      var r := SplitListFrom(g, fld, len, al, i).value;
      Replay(g, len, al, log) == Ok(r) &&
      FlaggedFrom(log, fld, i) && Increasing(log) &&
      (forall k :: i <= k ==> Turn(g, fld, len, al, log, k)) &&
      r.0.edges == g.edges + |log| && r.0.vertices == g.vertices + |log| &&
      r.0.fix == SplitAll(g.fix, log, g.edges) &&
      (forall k :: 0 <= k < g.edges && k !in log ==>
        r.0.start[k] == g.start[k] && r.0.end[k] == g.end[k] && r.0.im[k] == SplitAll(g.im[k], log, g.edges))
  {
    if SplitListFrom(g, fld, len, al, i).Ok? {
      var log := SplitLog(g, fld, len, i);
      SplitListReplays(g, fld, len, al, i);
      forall k | i <= k ensures Turn(g, fld, len, al, log, k) {
        SplitLogTurns(g, fld, len, al, i, k);
      }
      ReplayFrame(g, len, al, log);
    }
  }

  /** The rule of splitList at the moment edge k is reached, for the splits of log. */
  ghost predicate Turn(g: G.Graph, fld: seq<bool>, len: nat, al: seq<Sym>, log: seq<nat>, k: nat)
    requires G.Valid(g)
  {
    Replay(g, len, al, Before(log, k)).Ok? &&
    var s := Replay(g, len, al, Before(log, k)).value;
    k < s.0.edges ==> (k in log <==> BoolAt(fld, k) && |s.0.im[k]| > s.1)
  }

  /** The rule at edge k when nothing was split before it: k is split just when it is flagged and longer than len. */
  lemma TurnHere(g: G.Graph, fld: seq<bool>, len: nat, al: seq<Sym>, log: seq<nat>, k: nat)
    requires G.Valid(g) && k < g.edges
    requires log == [] || log[0] >= k
    requires k in log <==> BoolAt(fld, k) && |g.im[k]| > len
    ensures Turn(g, fld, len, al, log, k)
  {
    assert Before(log, k) == [];
  }

  /** The rule at edge k > i carries over from the graph after the split of i to the one before it. */
  lemma TurnShift(g: G.Graph, fld: seq<bool>, len: nat, al: seq<Sym>, i: nat, rest: seq<nat>, k: nat)
    requires G.Valid(g) && i < g.edges && i < k && G.SplitEdge(g, i, len).Ok?
    requires var h := G.SplitEdge(g, i, len).value;
      G.Valid(h) && i < h.edges && Turn(h, fld, |h.im[i]|, UpdatedInv(al, i, g.edges), rest, k)
    ensures Turn(g, fld, len, al, [i] + rest, k)
  {
    assert Before([i] + rest, k) == [i] + Before(rest, k);
    ReplayCons(g, len, al, i, Before(rest, k));
  }

  /** Replaying a log that begins with e is splitting e and replaying the rest. */
  lemma ReplayCons(g: G.Graph, len: nat, al: seq<Sym>, e: nat, log: seq<nat>)
    requires G.Valid(g) && G.SplitEdge(g, e, len).Ok? && e < g.edges
    ensures var h := G.SplitEdge(g, e, len).value;
      G.Valid(h) && e < h.edges &&
      Replay(g, len, al, [e] + log) == Replay(h, |h.im[e]|, UpdatedInv(al, e, g.edges), log)
  {
    G.SplitEdgeGrows(g, e, len);
    assert ([e] + log)[1..] == log;
  }

  /**
   * What the splits of a log leave of the rest: the fixed word, and every edge the
   * log does not name, keep their letters except that those of the split edges
   * are split; such an edge keeps its ends.
   */
  lemma {:induction false} ReplayFrame(g: G.Graph, len: nat, al: seq<Sym>, log: seq<nat>)
    requires G.Valid(g) && Replay(g, len, al, log).Ok?
    ensures var r := Replay(g, len, al, log).value.0;
      r.fix == SplitAll(g.fix, log, g.edges) &&
      forall k :: 0 <= k < g.edges && k !in log ==>
        r.start[k] == g.start[k] && r.end[k] == g.end[k] && r.im[k] == SplitAll(g.im[k], log, g.edges)
  {
    forall k | 0 <= k < g.edges && k !in log
      ensures var r := Replay(g, len, al, log).value.0;
        r.start[k] == g.start[k] && r.end[k] == g.end[k] && r.im[k] == SplitAll(g.im[k], log, g.edges)
    {
      ReplayKeeps(g, len, al, log, k);
    }
    ReplayFix(g, len, al, log);
  }

  /** The splits of a log leave an edge they do not name with its ends and its letters, split. */
  lemma {:induction false} ReplayKeeps(g: G.Graph, len: nat, al: seq<Sym>, log: seq<nat>, k: nat)
    requires G.Valid(g) && Replay(g, len, al, log).Ok? && k < g.edges && k !in log
    ensures var r := Replay(g, len, al, log).value.0;
      r.start[k] == g.start[k] && r.end[k] == g.end[k] && r.im[k] == SplitAll(g.im[k], log, g.edges)
    decreases |log|
  {
    if log != [] {
      var h := G.SplitEdge(g, log[0], len).value;
      G.SplitEdgeSpec(g, log[0], len);
      G.SplitEdgeGrows(g, log[0], len);
      assert k != log[0] && k !in log[1..];
      ReplayKeeps(h, |h.im[log[0]]|, UpdatedInv(al, log[0], g.edges), log[1..], k);
    }
  }

  /** The splits of a log split the letters of the fixed word. */
  lemma {:induction false} ReplayFix(g: G.Graph, len: nat, al: seq<Sym>, log: seq<nat>)
    requires G.Valid(g) && Replay(g, len, al, log).Ok?
    ensures Replay(g, len, al, log).value.0.fix == SplitAll(g.fix, log, g.edges)
    decreases |log|
  {
    if log != [] {
      var h := G.SplitEdge(g, log[0], len).value;
      ReplayNext(g, len, al, log);
      ReplayFix(h, |h.im[log[0]]|, UpdatedInv(al, log[0], g.edges), log[1..]);
    }
  }

  /** The first split of a log splits the fixed word, and the rest are replayed from there. */
  lemma ReplayNext(g: G.Graph, len: nat, al: seq<Sym>, log: seq<nat>)
    requires G.Valid(g) && log != [] && Replay(g, len, al, log).Ok?
    ensures G.SplitEdge(g, log[0], len).Ok?
    ensures var h := G.SplitEdge(g, log[0], len).value;
      G.Valid(h) && h.edges == g.edges + 1 && h.fix == P.SplitChar(g.fix, log[0], g.edges) &&
      Replay(g, len, al, log) == Replay(h, |h.im[log[0]]|, UpdatedInv(al, log[0], g.edges), log[1..])
  {
    G.SplitEdgeSpec(g, log[0], len);
    G.SplitEdgeGrows(g, log[0], len);
  }

  /** Splitting edge i after len letters: one more edge and vertex, still well-formed, and edge i keeps at least len letters. */
  lemma SplitFacts(g: G.Graph, i: nat, len: nat)
    requires G.WellFormed(g) && i < g.edges && G.SplitEdge(g, i, len).Ok?
    ensures G.WellFormed(G.SplitEdge(g, i, len).value)
    ensures G.SplitEdge(g, i, len).value.edges == g.edges + 1
    ensures G.SplitEdge(g, i, len).value.vertices == g.vertices + 1
    ensures |G.SplitEdge(g, i, len).value.im[i]| >= len
  {
    var h := G.SplitEdge(g, i, len).value;
    G.SplitEdgeSpec(g, i, len);
    G.SplitEdgeWellFormed(g, i, len);
    assert |h.im[i]| == |P.SplitChar(g.im[i][..len], i, g.edges)| by {
      assert h.im[i] == P.SplitChar(g.im[i][..len], i, g.edges);
    }
    SplitCharLonger(g.im[i][..len], i, g.edges);
  }

  /**
   * splitList(fld, len, al) on a train track: Ok with the final len, the map and the
   * pointers as `SplitList` says; the error of the split that failed.
   */
  method SplitListRun(g: GM.GraphMap, fld: GrowingBoolArray, len: nat, al: GrowingCharArray) returns (r: Result<nat>)
    requires g.Valid() && fld.Valid() && al.Valid()
    modifies g, g.im, g.start, g.end, al, al.v
    ensures g.Valid() && al.Valid()
    ensures match SplitList(old(g.State()), old(fld.Contents()), len, old(al.Contents()))
      case Ok((h, l, s)) => r == Ok(l) && g.State() == h && al.Contents() == s
      case Err(m) => r == Err(m)
  {
    ghost var goal := SplitList(g.State(), fld.Contents(), len, al.Contents());
    var l: nat := len;
    var i := 0;
    while i < g.edges
      invariant g.Valid() && al.Valid()
      invariant al.v == old(al.v) || fresh(al.v)
      invariant g.im == old(g.im) || fresh(g.im)
      invariant g.start == old(g.start) || fresh(g.start)
      invariant g.end == old(g.end) || fresh(g.end)
      invariant i <= g.edges && SplitListFrom(g.State(), fld.Contents(), l, al.Contents(), i) == goal
      decreases g.edges - i + (if i < fld.cnt then fld.cnt - i else 0)
    {
      var res := Visit(g, fld, l, al, i);
      if res.Err? {
        return res;
      }
      l := res.value;
      i := i + 1;
    }
    r := Ok(l);
  }

  /** Edge i in the loop of splitList: split when flagged and longer than len. */
  method Visit(g: GM.GraphMap, fld: GrowingBoolArray, len: nat, al: GrowingCharArray, i: nat) returns (r: Result<nat>)
    requires g.Valid() && al.Valid() && fld.Valid() && i < g.edges
    modifies g, g.im, g.start, g.end, al, al.v
    ensures g.Valid() && al.Valid()
    ensures al.v == old(al.v) || fresh(al.v)
    ensures g.im == old(g.im) || fresh(g.im)
    ensures g.start == old(g.start) || fresh(g.start)
    ensures g.end == old(g.end) || fresh(g.end)
    ensures r.Err? ==> SplitListFrom(old(g.State()), fld.Contents(), len, old(al.Contents()), i) == Err(r.msg)
    ensures r.Ok? ==> g.edges == old(g.edges) || (g.edges == old(g.edges) + 1 && i < fld.cnt)
    ensures r.Ok? ==> i < g.edges
    ensures r.Ok? ==>
      SplitListFrom(old(g.State()), fld.Contents(), len, old(al.Contents()), i) ==
      SplitListFrom(g.State(), fld.Contents(), r.value, al.Contents(), i + 1)
  {
    var f := fld.GetValue(i);
    if f && |g.im[i]| > len {
      r := SplitAt(g, i, len, al);
    } else {
      r := Ok(len);
    }
  }

  /** One split of splitList: the backward pointers of ed moved to the new edge, ed split after len letters. */
  method SplitAt(g: GM.GraphMap, ed: nat, len: nat, al: GrowingCharArray) returns (r: Result<nat>)
    requires g.Valid() && al.Valid() && ed < g.edges && |g.im[ed]| > len
    modifies g, g.im, g.start, g.end, al, al.v
    ensures g.Valid() && al.Valid()
    ensures al.v == old(al.v) || fresh(al.v)
    ensures g.im == old(g.im) || fresh(g.im)
    ensures g.start == old(g.start) || fresh(g.start)
    ensures g.end == old(g.end) || fresh(g.end)
    ensures match G.SplitEdge(old(g.State()), ed, len)
      case Ok(h) => h.edges == old(g.edges) + 1 && r == Ok(|h.im[ed]|) && g.State() == h &&
        al.Contents() == UpdatedInv(old(al.Contents()), ed, old(g.edges))
      case Err(m) => r == Err(m)
  {
    UpdateInv(al, ed, g.edges);
    ghost var s := g.State();
    var o := g.SplitEdge(ed, len);
    G.SplitEdgeSpec(s, ed, len);
    if o.Fail? {
      return Err(o.msg);
    }
    r := Ok(|g.im[ed]|);
  }
}
