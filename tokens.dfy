/**
 * EnhancedTokenizer.java: a StreamTokenizer that is only asked for the next word or
 * the next number. The text is taken as its sequence of tokens; the tokenizer object
 * keeps the position of the next unread token.
 */
module Tokens {
  import opened Wrappers

  /** A token: a number, a word, the dummy character '_' (the empty word), or any other character. */
  datatype Token = Number(n: int) | Word(s: string) | Dummy | Other(c: char)

  /** A token nextString returns. */
  predicate IsWordLike(t: Token) { t.Word? || t.Dummy? }

  /** Where nextString stops looking: the first word or dummy at or after pos, or the end. */
  function WordAt(toks: seq<Token>, pos: nat): (k: nat)
    requires pos <= |toks|
    ensures pos <= k <= |toks|
    ensures k < |toks| ==> IsWordLike(toks[k])
    ensures forall m :: pos <= m < k ==> !IsWordLike(toks[m])
    decreases |toks| - pos
  {
    if pos == |toks| || IsWordLike(toks[pos]) then pos else WordAt(toks, pos + 1)
  }

  /** Where nextInt stops looking: the first number at or after pos, or the end. */
  function NumberAt(toks: seq<Token>, pos: nat): (k: nat)
    requires pos <= |toks|
    ensures pos <= k <= |toks|
    ensures k < |toks| ==> toks[k].Number?
    ensures forall m :: pos <= m < k ==> !toks[m].Number?
    decreases |toks| - pos
  {
    if pos == |toks| || toks[pos].Number? then pos else NumberAt(toks, pos + 1)
  }

  /** nextString from pos: the next word ("" for the dummy) and the position after it; None at the end. */
  function NextWord(toks: seq<Token>, pos: nat): (r: (Option<string>, nat))
    requires pos <= |toks|
    ensures pos <= r.1 <= |toks|
    ensures r.0.Some? <==> r.1 > pos && IsWordLike(toks[r.1 - 1])
  {
    var k := WordAt(toks, pos);
    if k == |toks| then (None, k)
    else (Some(if toks[k].Dummy? then "" else toks[k].s), k + 1)
  }

  /** nextInt from pos: the next number and the position after it; -1 at the end. */
  function NextNumber(toks: seq<Token>, pos: nat): (r: (int, nat))
    requires pos <= |toks|
    ensures pos <= r.1 <= |toks|
    ensures r.1 > pos && toks[r.1 - 1].Number? ==> r.0 == toks[r.1 - 1].n
    ensures !(r.1 > pos && toks[r.1 - 1].Number?) ==> r.1 == |toks| && r.0 == -1
  {
    var k := NumberAt(toks, pos);
    if k == |toks| then (-1, k) else (toks[k].n, k + 1)
  }

  /** The tokens xs stand at position pos of toks. */
  predicate At(toks: seq<Token>, pos: nat, xs: seq<Token>)
  {
    pos + |xs| <= |toks| && toks[pos..pos + |xs|] == xs
  }

  lemma AtSplit(toks: seq<Token>, pos: nat, a: seq<Token>, b: seq<Token>)
    requires At(toks, pos, a + b)
    ensures At(toks, pos, a) && At(toks, pos + |a|, b)
  {
    assert toks[pos..pos + |a|] == (a + b)[..|a|];
    assert toks[pos + |a|..pos + |a| + |b|] == (a + b)[|a|..];
  }

  /** nextString passes over tokens that are neither words nor the dummy. */
  lemma {:induction false} WordAtSkips(toks: seq<Token>, pos: nat, k: nat)
    requires pos <= k < |toks| && IsWordLike(toks[k])
    requires forall m :: pos <= m < k ==> !IsWordLike(toks[m])
    ensures WordAt(toks, pos) == k
    decreases k - pos
  {
    if pos < k {
      WordAtSkips(toks, pos + 1, k);
    }
  }

  /** nextInt passes over tokens that are not numbers. */
  lemma {:induction false} NumberAtSkips(toks: seq<Token>, pos: nat, k: nat)
    requires pos <= k < |toks| && toks[k].Number?
    requires forall m :: pos <= m < k ==> !toks[m].Number?
    ensures NumberAt(toks, pos) == k
    decreases k - pos
  {
    if pos < k {
      NumberAtSkips(toks, pos + 1, k);
    }
  }

  /** Past the last word nextString finds nothing. */
  lemma {:induction false} WordAtEnd(toks: seq<Token>, pos: nat)
    requires pos <= |toks|
    requires forall m :: pos <= m < |toks| ==> !IsWordLike(toks[m])
    ensures NextWord(toks, pos).0 == None
    decreases |toks| - pos
  {
    if pos < |toks| {
      WordAtEnd(toks, pos + 1);
    }
  }

  class Tokenizer {
    const toks: seq<Token>
    var pos: nat

    predicate Valid()
      reads this
    {
      pos <= |toks|
    }

    /** A tokenizer at the start of the text. */
    constructor (text: seq<Token>)
      ensures Valid() && toks == text && pos == 0
    {
      toks := text;
      pos := 0;
    }

    /** nextString: skip everything but words and the dummy; null (None) at the end. */
    method NextString() returns (s: Option<string>)
      requires Valid()
      modifies this
      ensures Valid() && (s, pos) == NextWord(toks, old(pos))
    {
      while pos < |toks| && !IsWordLike(toks[pos])
        invariant Valid() && WordAt(toks, pos) == WordAt(toks, old(pos))
        decreases |toks| - pos
      {
        pos := pos + 1;
      }
      if pos == |toks| {
        return None;
      }
      s := Some(if toks[pos].Dummy? then "" else toks[pos].s);
      pos := pos + 1;
    }

    /** nextInt: skip everything but numbers; -1 at the end. */
    method NextInt() returns (n: int)
      requires Valid()
      modifies this
      ensures Valid() && (n, pos) == NextNumber(toks, old(pos))
    {
      while pos < |toks| && !toks[pos].Number?
        invariant Valid() && NumberAt(toks, pos) == NumberAt(toks, old(pos))
        decreases |toks| - pos
      {
        pos := pos + 1;
      }
      if pos == |toks| {
        return -1;
      }
      n := toks[pos].n;
      pos := pos + 1;
    }
  }
}
