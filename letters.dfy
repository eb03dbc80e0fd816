/**
 * Oriented edges ("letters") and their 16-bit char encoding: the low 15 bits
 * hold the edge index, the high bit says that the edge is traversed backwards.
 * Also the text labels a..z, z0, z1, ... and A..Z, Z0, Z1, ... of letters.
 */
module Letters {
  import opened Wrappers
  import opened Numerals

  const MAXINDEX := 32767
  const INVMASK := 0x8000
  const LOWMASK := 0x7FFF
  const PLAINLIM := 26

  type Index = i: int | 0 <= i <= MAXINDEX

  /** An oriented edge: edge `index`, traversed backwards when `inv`. */
  datatype Sym = Sym(index: Index, inv: bool)

  /** The same edge traversed the other way. */
  function Inv(s: Sym): (r: Sym)
    ensures r.index == s.index && r.inv != s.inv
  {
    Sym(s.index, !s.inv)
  }

  // ---- the char level: a Java char is a 16-bit value ----

  /** A Java char: an unsigned 16-bit value. */
  type Char16 = c: int | 0 <= c < 0x1_0000

  /** isInverse: bit 15 (INVMASK) is set. */
  function IsInverse(c: Char16): bool { c >= INVMASK }

  /** charToIndex: the low 15 bits (c & LOWMASK). */
  function CharToIndex(c: Char16): Index { c % INVMASK }

  /** inverse: bit 15 flipped (c ^ INVMASK). */
  function Inverse(c: Char16): Char16 { if c >= INVMASK then c - INVMASK else c + INVMASK }

  /** Java's (char) cast of an int: its value modulo 2^16. */
  function CharCast(x: int): Char16 { x % 0x1_0000 }

  /** indexToChar: the cast of ind, plus INVMASK for a backward letter. */
  function IndexToChar(ind: int, inv: bool): Char16
  {
    CharCast(if inv then ind + INVMASK else ind)
  }

  /** The letter a char stands for. */
  function Decode(c: Char16): (s: Sym)
    ensures s.index == CharToIndex(c) && s.inv == IsInverse(c)
  {
    Sym(CharToIndex(c), IsInverse(c))
  }

  /** The char of a letter. */
  function Encode(s: Sym): Char16 { IndexToChar(s.index, s.inv) }

  /** indexToChar seen as a letter; an index outside 0..MAXINDEX wraps around. */
  function IndexToSym(ind: int, inv: bool): Sym { Decode(IndexToChar(ind, inv)) }

  /** Within range, indexToChar is inverted by charToIndex and isInverse. */
  lemma IndexToCharInRange(ind: int, inv: bool)
    requires 0 <= ind <= MAXINDEX
    ensures CharToIndex(IndexToChar(ind, inv)) == ind
    ensures IsInverse(IndexToChar(ind, inv)) == inv
    ensures IndexToSym(ind, inv) == Sym(ind, inv)
  {
  }

  /** Every char is the encoding of exactly one letter. */
  lemma EncodeDecode(c: Char16)
    ensures Encode(Decode(c)) == c
  {
  }

  lemma DecodeEncode(s: Sym)
    ensures Decode(Encode(s)) == s
  {
    IndexToCharInRange(s.index, s.inv);
  }

  /** Flipping the high bit inverts the letter; doing it twice restores the char. */
  lemma InverseFlips(c: Char16)
    ensures Decode(Inverse(c)) == Inv(Decode(c))
    ensures Inverse(Inverse(c)) == c
    ensures Inverse(c) != c
  {
  }

  // ---- text labels ----

  /** indexToLabel: a..z for the first 26 edges, then z0, z1, ...; upper case when backwards. */
  function IndexToLabel(ind: nat, inv: bool): (lab: string)
    ensures 0 < |lab| && lab[0] > '9' && AllDigits(lab[1..])
    ensures (lab[0] < 'a') == inv
  {
    if ind < PLAINLIM then [((if inv then 'A' else 'a') as int + ind) as char]
    else [if inv then 'Z' else 'z'] + NatToString(ind - PLAINLIM)
  }

  /** charToLabel */
  function SymToLabel(s: Sym): string { IndexToLabel(s.index, s.inv) }

  /**
   * labelToChar: the first character gives the orientation (upper case is backwards)
   * and, through its low five bits, the index; after z or Z a number is added.
   * None where Integer.parseInt throws.
   */
  function LabelToSym(lab: string): Option<Sym>
  {
    if |lab| == 0 then None
    else
      var c := lab[0];
      var inv := c < 'a';
      var ind := (c as int - 1) % 32;
      if ind >= PLAINLIM - 1 && |lab| > 1 then
        match ParseInt(lab[1..])
        case None => None
        case Some(k) => Some(IndexToSym(ind + k + 1, inv))
      else Some(IndexToSym(ind, inv))
  }

  /** Reading the label of a letter gives the letter back. */
  lemma LabelRoundTrip(s: Sym)
    ensures LabelToSym(SymToLabel(s)) == Some(s)
  {
    if s.index < PLAINLIM {
      ShortLabelRoundTrip(s);
    } else {
      LongLabelRoundTrip(s);
    }
  }

  lemma ShortLabelRoundTrip(s: Sym)
    requires s.index < PLAINLIM
    ensures LabelToSym(SymToLabel(s)) == Some(s)
  {
    var lab := SymToLabel(s);
    var base := if s.inv then 64 else 96;
    assert lab[0] as int - 1 == base + s.index;
    assert (base + s.index) % 32 == s.index;
    IndexToCharInRange(s.index, s.inv);
  }

  lemma LongLabelRoundTrip(s: Sym)
    requires s.index >= PLAINLIM
    ensures LabelToSym(SymToLabel(s)) == Some(s)
  {
    var lab := SymToLabel(s);
    var base := if s.inv then 'Z' as int - 1 else 'z' as int - 1;
    assert lab[0] as int - 1 == base;
    assert base % 32 == PLAINLIM - 1;
    ParseIntToString(s.index - PLAINLIM);
    assert lab[1..] == NatToString(s.index - PLAINLIM);
    IndexToCharInRange(PLAINLIM - 1 + (s.index - PLAINLIM) + 1, s.inv);
  }

  /** Distinct letters have distinct labels. */
  lemma LabelsDistinct(s: Sym, t: Sym)
    requires s != t
    ensures SymToLabel(s) != SymToLabel(t)
  {
    LabelRoundTrip(s);
    LabelRoundTrip(t);
  }

  // ---- paths as text ----

  /** pathToString: the labels of the letters, one after the other. */
  function PathToString(p: seq<Sym>): string
    decreases |p|
  {
    if p == [] then [] else SymToLabel(p[0]) + PathToString(p[1..])
  }

  /** The end of the label that starts at i: the first later character above '9'. */
  function LabelEnd(s: string, j: nat): (k: nat)
    requires j <= |s|
    ensures j <= k <= |s|
    ensures k < |s| ==> s[k] > '9'
    ensures forall m :: j <= m < k ==> s[m] <= '9'
    decreases |s| - j
  {
    if j < |s| && s[j] <= '9' then LabelEnd(s, j + 1) else j
  }

  /**
   * stringToPath: cut the text into labels (a character followed by everything up
   * to the next character above '9') and read each. None where labelToChar throws.
   */
  function StringToPath(s: string): Option<seq<Sym>>
    decreases |s|
  {
    if s == [] then Some([])
    else
      var j := LabelEnd(s, 1);
      match LabelToSym(s[..j])
      case None => None
      case Some(c) =>
        match StringToPath(s[j..])
        case None => None
        case Some(rest) => Some([c] + rest)
  }

  lemma {:induction false} PathToStringStart(p: seq<Sym>)
    ensures |PathToString(p)| > 0 ==> PathToString(p)[0] > '9'
  {
  }

  /** Printing a path and reading the text back gives the path. */
  lemma {:induction false} PathStringRoundTrip(p: seq<Sym>)
    ensures StringToPath(PathToString(p)) == Some(p)
    decreases |p|
  {
    if p != [] {
      var lab := SymToLabel(p[0]);
      var rest := PathToString(p[1..]);
      var s := PathToString(p);
      assert s == lab + rest;
      PathToStringStart(p[1..]);
      LabelEndOfLabel(lab, rest);
      assert s[..|lab|] == lab && s[|lab|..] == rest;
      LabelRoundTrip(p[0]);
      PathStringRoundTrip(p[1..]);
      assert [p[0]] + p[1..] == p;
    }
  }

  lemma LabelEndOfLabel(lab: string, rest: string)
    requires 0 < |lab| && AllDigits(lab[1..])
    requires |rest| > 0 ==> rest[0] > '9'
    ensures LabelEnd(lab + rest, 1) == |lab|
  {
    var s := lab + rest;
    forall m | 1 <= m < |lab| ensures s[m] <= '9' {
      assert s[m] == lab[1..][m - 1];
    }
    LabelEndUnique(s, 1, |lab|);
  }

  lemma {:induction false} LabelEndUnique(s: string, j: nat, k: nat)
    requires j <= k <= |s|
    requires forall m :: j <= m < k ==> s[m] <= '9'
    requires k < |s| ==> s[k] > '9'
    ensures LabelEnd(s, j) == k
    decreases k - j
  {
    if j < k {
      LabelEndUnique(s, j + 1, k);
    }
  }
}
