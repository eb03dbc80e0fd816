/**
 * One line of the Lorenz-knot table (LorenzData.java): a name, the vector r^s as
 * factors separated by '.', a braid index and a census entry, separated by commas
 * or blanks; and the line the table prints for an analysed knot.
 */
module LorenzTable {
  import opened Wrappers
  import opened Numerals
  import R = Reading
  import L = LorenzKnots

  /** java.util.StringTokenizer.nextToken past the last token. */
  const NoToken := "no such element"

  /* ---------- java.util.StringTokenizer ---------- */

  /** The end of the run of delimiters from place i. */
  function SkipDelims(t: string, delims: set<char>, i: nat): (k: nat)
    requires i <= |t|
    ensures i <= k <= |t| && (k < |t| ==> t[k] !in delims)
    decreases |t| - i
  {
    if i < |t| && t[i] in delims then SkipDelims(t, delims, i + 1) else i
  }

  /** The end of the token starting at place i. */
  function TokenEnd(t: string, delims: set<char>, i: nat): (k: nat)
    requires i <= |t|
    ensures i <= k <= |t| && (k < |t| ==> t[k] in delims)
    decreases |t| - i
  {
    if i < |t| && t[i] !in delims then TokenEnd(t, delims, i + 1) else i
  }

  /** A token: not empty, and free of delimiters. */
  predicate IsToken(w: string, delims: set<char>)
  {
    0 < |w| && forall m :: 0 <= m < |w| ==> w[m] !in delims
  }

  predicate AllTokens(ws: seq<string>, delims: set<char>)
  {
    forall k :: 0 <= k < |ws| ==> IsToken(ws[k], delims)
  }

  lemma TokensTail(ws: seq<string>, delims: set<char>)
    requires 0 < |ws| && AllTokens(ws, delims)
    ensures IsToken(ws[0], delims) && AllTokens(ws[1..], delims)
  {
    forall k | 0 <= k < |ws| - 1 ensures IsToken(ws[1..][k], delims) {
      assert ws[1..][k] == ws[k + 1];
    }
  }

  /** The tokens from place i on: the maximal runs of characters that are not delimiters. */
  function Tokens(t: string, delims: set<char>, i: nat): (ts: seq<string>)
    requires i <= |t|
    decreases |t| - i
  {
    var k := SkipDelims(t, delims, i);
    if k == |t| then []
    else
      var e := TokenEnd(t, delims, k);
      [t[k..e]] + Tokens(t, delims, e)
  }

  /** Words with one delimiter between each two of them. */
  function Join(ws: seq<string>, c: char): string
  {
    if ws == [] then []
    else if |ws| == 1 then ws[0]
    else ws[0] + [c] + Join(ws[1..], c)
  }

  /** One more word at the end. */
  lemma {:induction false} JoinSnoc(ws: seq<string>, w: string, c: char)
    requires ws != []
    ensures Join(ws + [w], c) == Join(ws, c) + [c] + w
    decreases |ws|
  {
    assert (ws + [w])[0] == ws[0] && (ws + [w])[1..] == ws[1..] + [w];
    if |ws| > 1 {
      JoinSnoc(ws[1..], w, c);
    }
  }

  /** SkipDelims stops at the first place that is not a delimiter. */
  lemma {:induction false} SkipDelimsIs(t: string, delims: set<char>, i: nat, k: nat)
    requires i <= k <= |t| && (k < |t| ==> t[k] !in delims)
    requires forall m :: i <= m < k ==> t[m] in delims
    ensures SkipDelims(t, delims, i) == k
    decreases k - i
  {
    if i < k {
      SkipDelimsIs(t, delims, i + 1, k);
    }
  }

  /** TokenEnd stops at the first delimiter. */
  lemma {:induction false} TokenEndIs(t: string, delims: set<char>, i: nat, k: nat)
    requires i <= k <= |t| && (k < |t| ==> t[k] in delims)
    requires forall m :: i <= m < k ==> t[m] !in delims
    ensures TokenEnd(t, delims, i) == k
    decreases k - i
  {
    if i < k {
      TokenEndIs(t, delims, i + 1, k);
    }
  }

  /** A token w standing at place i, followed by a delimiter or the end, is the next token read. */
  lemma FirstToken(t: string, delims: set<char>, i: nat, w: string)
    requires IsToken(w, delims) && i + |w| <= |t| && t[i..i + |w|] == w
    requires i + |w| < |t| ==> t[i + |w|] in delims
    ensures SkipDelims(t, delims, i) == i && TokenEnd(t, delims, i) == i + |w|
  {
    assert t[i] == w[0];
    SkipDelimsIs(t, delims, i, i);
    forall m | i <= m < i + |w| ensures t[m] !in delims {
      assert t[m] == w[m - i];
    }
    TokenEndIs(t, delims, i, i + |w|);
  }

  /** A delimiter at place e is skipped. */
  lemma SkipOne(t: string, delims: set<char>, e: nat)
    requires e < |t| && t[e] in delims
    ensures Tokens(t, delims, e) == Tokens(t, delims, e + 1)
  {
    assert SkipDelims(t, delims, e) == SkipDelims(t, delims, e + 1);
  }

  /**
   * Joining tokens with a delimiter and splitting the text again gives the tokens:
   * here for the text that stands in t from place i to its end.
   */
  lemma {:induction false} TokensOfJoin(t: string, i: nat, ws: seq<string>, c: char, delims: set<char>)
    requires c in delims && AllTokens(ws, delims)
    requires i <= |t| && t[i..] == Join(ws, c)
    ensures Tokens(t, delims, i) == ws
    decreases |ws|
  {
    if ws == [] {
      SkipDelimsIs(t, delims, i, i);
    } else if |ws| == 1 {
      TokensOfOne(t, i, ws[0], delims);
    } else {
      var e := i + |ws[0]|;
      TokensTail(ws, delims);
      JoinAround(t, i, e, ws, c);
      TokensOfJoin(t, e + 1, ws[1..], c, delims);
      TokensOfMany(t, i, e, ws, c, delims);
    }
  }

  lemma JoinAround(t: string, i: nat, e: nat, ws: seq<string>, c: char)
    requires 1 < |ws| && i <= |t| && t[i..] == Join(ws, c) && e == i + |ws[0]|
    ensures e < |t| && t[i..e] == ws[0] && t[e] == c && t[e + 1..] == Join(ws[1..], c)
  {
    Around(t, i, ws[0], c, Join(ws[1..], c));
  }

  lemma TokensOfOne(t: string, i: nat, w: string, delims: set<char>)
    requires IsToken(w, delims) && i <= |t| && t[i..] == w
    ensures Tokens(t, delims, i) == [w]
  {
    Whole(t, i, w);
    TokensAt(t, delims, i, w);
    SkipDelimsIs(t, delims, i + |w|, i + |w|);
  }

  lemma TokensOfMany(t: string, i: nat, e: nat, ws: seq<string>, c: char, delims: set<char>)
    requires 1 < |ws| && c in delims && IsToken(ws[0], delims) && e == i + |ws[0]|
    requires e < |t| && t[i..e] == ws[0] && t[e] == c
    requires Tokens(t, delims, e + 1) == ws[1..]
    ensures Tokens(t, delims, i) == ws
  {
    TokensAt(t, delims, i, ws[0]);
    SkipOne(t, delims, e);
    ConsTail(Tokens(t, delims, i), Tokens(t, delims, e), ws);
  }

  /** A token w standing at place i, followed by a delimiter or the end, is read first. */
  lemma TokensAt(t: string, delims: set<char>, i: nat, w: string)
    requires IsToken(w, delims) && i + |w| <= |t| && t[i..i + |w|] == w
    requires i + |w| < |t| ==> t[i + |w|] in delims
    ensures Tokens(t, delims, i) == [w] + Tokens(t, delims, i + |w|)
  {
    FirstToken(t, delims, i, w);
  }

  /** A list that is the head of xs before the tail of xs is xs. */
  lemma ConsTail<T>(a: seq<T>, b: seq<T>, xs: seq<T>)
    requires xs != [] && a == [xs[0]] + b && b == xs[1..]
    ensures a == xs
  {
  }

  /** The text from place i on is w. */
  lemma Whole<T>(t: seq<T>, i: nat, w: seq<T>)
    requires i <= |t| && t[i..] == w
    ensures i + |w| == |t| && t[i..i + |w|] == w
  {
  }

  /** The text from place i on is a, then c, then b. */
  lemma Around<T>(t: seq<T>, i: nat, a: seq<T>, c: T, b: seq<T>)
    requires i <= |t| && t[i..] == a + [c] + b
    ensures i + |a| < |t| && t[i..i + |a|] == a && t[i + |a|] == c && t[i + |a| + 1..] == b
  {
    assert t[i..][..|a|] == a;
    assert t[i..][|a| + 1..] == b;
  }

  /* ---------- the vector ---------- */

  /** One factor "r^s", or "r" with exponent 1; only the first two pieces count. */
  function ReadFactor(f: string): (res: Result<(int, int)>)
  {
    var ps := Tokens(f, {'^'}, 0);
    if |ps| == 0 then Err(NoToken)
    else match ParseInt(ps[0])
      case None => Err(R.BADNUMBER)
      case Some(a) =>
        if |ps| == 1 then Ok((a, 1))
        else match ParseInt(ps[1])
          case None => Err(R.BADNUMBER)
          case Some(b) => Ok((a, b))
  }

  /** The factors in order, the first failure winning. */
  function ReadFactors(fs: seq<string>): (res: Result<(seq<int>, seq<int>)>)
    ensures res.Ok? ==> |res.value.0| == |fs| == |res.value.1|
  {
    if fs == [] then Ok(([], []))
    else match ReadFactors(fs[..|fs| - 1])
      case Err(m) => Err(m)
      case Ok(rs) =>
        match ReadFactor(fs[|fs| - 1])
        case Err(m) => Err(m)
        case Ok(f) => Ok((rs.0 + [f.0], rs.1 + [f.1]))
  }

  /** The fields of a line. */
  datatype Entry = Entry(name: string, r: seq<int>, s: seq<int>, braidIndex: int, censusEntry: string)

  const FieldDelims: set<char> := {',', ' '}

  /**
   * readKnot: the first four tokens are the name, the vector, the braid index and
   * the census entry, in that order of reading; then the '.'-separated factors of
   * the vector.
   */
  function ParseLine(line: string): (res: Result<Entry>)
    ensures res.Ok? ==> |res.value.r| == |res.value.s|
  {
    var ts := Tokens(line, FieldDelims, 0);
    if |ts| < 3 then Err(NoToken)
    else match ParseInt(ts[2])
      case None => Err(R.BADNUMBER)
      case Some(bi) =>
        if |ts| < 4 then Err(NoToken)
        else match ReadFactors(Tokens(ts[1], {'.'}, 0))
          case Err(m) => Err(m)
          case Ok(rs) => Ok(Entry(ts[0], rs.0, rs.1, bi, ts[3]))
  }

  /** A factor without '^' has exponent 1. */
  lemma BareFactor(a: int)
    requires INT_MIN <= a <= INT_MAX
    ensures ReadFactor(IntToString(a)) == Ok((a, 1))
  {
    var t := IntToString(a);
    NumeralToken(a, {'^'});
    TokensOfJoin(t, 0, [t], '^', {'^'});
    ParseIntToString(a);
  }

  /** A numeral holds no delimiter of these tables. */
  lemma NumeralToken(a: int, delims: set<char>)
    requires forall c :: c in delims ==> c != '-' && !IsDigit(c)
    ensures IsToken(IntToString(a), delims)
  {
    var t := IntToString(a);
    if a < 0 {
      assert t == "-" + NatToString(-a);
      forall m | 0 <= m < |t| ensures t[m] !in delims {
        if m > 0 {
          assert t[m] == NatToString(-a)[m - 1];
        }
      }
    }
  }

  /** A written factor reads back. */
  lemma FactorReads(r: seq<int>, s: seq<int>, i: nat)
    requires i < |r| && i < |s| && INT_MIN <= r[i] <= INT_MAX && INT_MIN <= s[i] <= INT_MAX
    ensures ReadFactor(L.Factor(r, s, i)) == Ok((r[i], s[i]))
  {
    var a, b := IntToString(r[i]), IntToString(s[i]);
    NumeralToken(r[i], {'^'});
    NumeralToken(s[i], {'^'});
    assert L.Factor(r, s, i) == Join([a, b], '^');
    TokensOfJoin(L.Factor(r, s, i), 0, [a, b], '^', {'^'});
    ParseIntToString(r[i]);
    ParseIntToString(s[i]);
  }

  /** The factors of a vector as a list. */
  function FactorList(r: seq<int>, s: seq<int>, n: nat): (fs: seq<string>)
    requires n <= |r| && n <= |s|
    ensures |fs| == n
  {
    seq(n, k requires 0 <= k < n => L.Factor(r, s, k))
  }

  /** The list of one factor more. */
  lemma FactorListSnoc(r: seq<int>, s: seq<int>, n: nat)
    requires 0 < n <= |r| && n <= |s|
    ensures FactorList(r, s, n) == FactorList(r, s, n - 1) + [L.Factor(r, s, n - 1)]
  {
    var front := FactorList(r, s, n - 1);
    forall k | 0 <= k < n ensures FactorList(r, s, n)[k] == (front + [L.Factor(r, s, n - 1)])[k] {
      IndexSnoc(front, L.Factor(r, s, n - 1), k);
    }
  }

  /** The text of the factors is the list joined by the separator. */
  lemma {:induction false} FactorsJoined(r: seq<int>, s: seq<int>, sep: char, n: nat)
    requires n <= |r| && n <= |s|
    ensures L.Factors(r, s, sep, n) == Join(FactorList(r, s, n), sep)
    decreases n
  {
    if n > 1 {
      FactorsJoined(r, s, sep, n - 1);
      FactorListSnoc(r, s, n);
      JoinSnoc(FactorList(r, s, n - 1), L.Factor(r, s, n - 1), sep);
    } else if n == 1 {
      assert FactorList(r, s, 1) == [L.Factor(r, s, 0)];
    }
  }

  /** Reading a list of written factors gives the vector back. */
  lemma {:induction false} FactorListReads(r: seq<int>, s: seq<int>, n: nat)
    requires n <= |r| && n <= |s|
    requires forall k :: 0 <= k < n ==> INT_MIN <= r[k] <= INT_MAX && INT_MIN <= s[k] <= INT_MAX
    ensures ReadFactors(FactorList(r, s, n)) == Ok((r[..n], s[..n]))
    decreases n
  {
    if n > 0 {
      FactorListReads(r, s, n - 1);
      FactorListSnoc(r, s, n);
      FactorReads(r, s, n - 1);
      ReadFactorsSnoc(FactorList(r, s, n - 1), L.Factor(r, s, n - 1), r[..n - 1], s[..n - 1], r[n - 1], s[n - 1]);
      PrefixSnoc(r, n);
      PrefixSnoc(s, n);
    }
  }

  /** Reading one more factor. */
  lemma ReadFactorsSnoc(fs: seq<string>, f: string, a: seq<int>, b: seq<int>, x: int, y: int)
    requires ReadFactors(fs) == Ok((a, b)) && ReadFactor(f) == Ok((x, y))
    ensures ReadFactors(fs + [f]) == Ok((a + [x], b + [y]))
  {
    SnocFront(fs, f);
  }

  /** Reading one factor more of a list. */
  lemma ReadPrefixStep(fs: seq<string>, i: nat, a: seq<int>, b: seq<int>, x: int, y: int)
    requires i < |fs| && ReadFactors(fs[..i]) == Ok((a, b)) && ReadFactor(fs[i]) == Ok((x, y))
    ensures ReadFactors(fs[..i + 1]) == Ok((a + [x], b + [y]))
  {
    ReadFactorsSnoc(fs[..i], fs[i], a, b, x, y);
    PrefixSnoc(fs, i + 1);
  }

  lemma IndexSnoc<T>(xs: seq<T>, x: T, k: nat)
    requires k <= |xs|
    ensures (xs + [x])[k] == if k < |xs| then xs[k] else x
  {
  }

  lemma SnocFront<T>(xs: seq<T>, x: T)
    ensures (xs + [x])[..|xs|] == xs
  {
  }

  lemma PrefixOfPrefix<T>(xs: seq<T>, i: nat, j: nat)
    requires i < j <= |xs|
    ensures xs[..j][..i] == xs[..i] && xs[..j][i] == xs[i]
  {
  }

  lemma PrefixSnoc<T>(xs: seq<T>, n: nat)
    requires 0 < n <= |xs|
    ensures xs[..n - 1] + [xs[n - 1]] == xs[..n]
  {
  }

  /** 32-bit entries. */
  predicate Int32s(xs: seq<int>)
  {
    forall k :: 0 <= k < |xs| ==> INT_MIN <= xs[k] <= INT_MAX
  }

  /** A vector written with a separator that no numeral holds reads back through that separator. */
  lemma VectorReads(r: seq<int>, s: seq<int>, sep: char)
    requires |r| == |s| && Int32s(r) && Int32s(s) && sep != '-' && sep != '^' && !IsDigit(sep)
    ensures Tokens(L.Factors(r, s, sep, |r|), {sep}, 0) == FactorList(r, s, |r|)
    ensures ReadFactors(Tokens(L.Factors(r, s, sep, |r|), {sep}, 0)) == Ok((r, s))
  {
    var fs := FactorList(r, s, |r|);
    AllFactorTokens(r, s, |r|, {sep});
    FactorsJoined(r, s, sep, |r|);
    TokensOfJoin(L.Factors(r, s, sep, |r|), 0, fs, sep, {sep});
    FactorListReads(r, s, |r|);
    assert r[..|r|] == r && s[..|s|] == s;
  }

  /** No delimiter can occur in a factor. */
  predicate Separators(delims: set<char>)
  {
    forall c :: c in delims ==> c != '-' && c != '^' && !IsDigit(c)
  }

  /** A factor holds no delimiter other than a digit, '-' or '^'. */
  lemma FactorToken(r: seq<int>, s: seq<int>, k: nat, delims: set<char>)
    requires k < |r| && k < |s| && Separators(delims)
    ensures IsToken(L.Factor(r, s, k), delims)
  {
    NumeralToken(r[k], delims);
    NumeralToken(s[k], delims);
  }

  /** The line of a knot: its fields separated by blanks. */
  function Line(e: Entry): string
    requires |e.r| == |e.s|
  {
    Join([e.name, L.Factors(e.r, e.s, '.', |e.r|), IntToString(e.braidIndex), e.censusEntry], ' ')
  }

  /**
   * A line written from a knot's fields reads back as those fields: the name and the
   * census entry single tokens, the vector not empty, the numbers 32-bit.
   */
  lemma LineReads(e: Entry)
    requires IsToken(e.name, FieldDelims) && IsToken(e.censusEntry, FieldDelims)
    requires 0 < |e.r| == |e.s| && Int32s(e.r) && Int32s(e.s) && INT_MIN <= e.braidIndex <= INT_MAX
    ensures ParseLine(Line(e)) == Ok(e)
  {
    var v := L.Factors(e.r, e.s, '.', |e.r|);
    var ws := [e.name, v, IntToString(e.braidIndex), e.censusEntry];
    VectorToken(e.r, e.s);
    NumeralToken(e.braidIndex, FieldDelims);
    TokensOfJoin(Line(e), 0, ws, ' ', FieldDelims);
    ParseIntToString(e.braidIndex);
    VectorReads(e.r, e.s, '.');
  }

  /** A written vector is a single field. */
  lemma VectorToken(r: seq<int>, s: seq<int>)
    requires 0 < |r| == |s|
    ensures IsToken(L.Factors(r, s, '.', |r|), FieldDelims)
  {
    var fs := FactorList(r, s, |r|);
    FieldSeparators();
    AllFactorTokens(r, s, |r|, FieldDelims);
    FactorsJoined(r, s, '.', |r|);
    JoinToken(fs, '.', FieldDelims);
  }

  /** The field delimiters are neither digits, signs, carets nor dots. */
  lemma FieldSeparators()
    ensures Separators(FieldDelims) && '.' !in FieldDelims
  {
    forall c | c in FieldDelims ensures c != '-' && c != '^' && !IsDigit(c) && c != '.' {
      assert c == ',' || c == ' ';
    }
  }

  /** Every factor is a token. */
  lemma AllFactorTokens(r: seq<int>, s: seq<int>, n: nat, delims: set<char>)
    requires n <= |r| && n <= |s| && Separators(delims)
    ensures AllTokens(FactorList(r, s, n), delims)
  {
    forall k | 0 <= k < n ensures IsToken(FactorList(r, s, n)[k], delims) {
      FactorToken(r, s, k, delims);
    }
  }

  /** Tokens joined by a character that is not a delimiter make one token. */
  lemma {:induction false} JoinToken(ws: seq<string>, c: char, delims: set<char>)
    requires 0 < |ws| && c !in delims && AllTokens(ws, delims)
    ensures IsToken(Join(ws, c), delims)
    decreases |ws|
  {
    if |ws| > 1 {
      TokensTail(ws, delims);
      JoinToken(ws[1..], c, delims);
      var a, b := ws[0], Join(ws[1..], c);
      assert Join(ws, c) == a + [c] + b;
      forall m | 0 <= m < |a + [c] + b| ensures (a + [c] + b)[m] !in delims {
        if m < |a| {
          assert (a + [c] + b)[m] == a[m];
        } else if m > |a| {
          assert (a + [c] + b)[m] == b[m - |a| - 1];
        }
      }
    }
  }

  /** A failing factor ends the reading of the vector with its message. */
  lemma {:induction false} ReadFactorsFail(fs: seq<string>, i: nat, m: string)
    requires i < |fs| && ReadFactors(fs[..i]).Ok? && ReadFactor(fs[i]) == Err(m)
    ensures ReadFactors(fs) == Err(m)
    decreases |fs|
  {
    if |fs| > i + 1 {
      var front := fs[..|fs| - 1];
      PrefixOfPrefix(fs, i, |fs| - 1);
      ReadFactorsFail(front, i, m);
    }
  }

  /* ---------- the table line ---------- */

  /** Whether the manifold matched its census entry. */
  datatype Match = Yes | No | Unknown

  /**
   * toString: the name, the vector with its factors separated by '_', the braid index
   * and the genus; the growth rate when positive, and the volume with the census
   * comparison when positive. The two real numbers come already formatted.
   */
  function Description(name: string, r: seq<int>, s: seq<int>, braidIndex: int, genus: int,
                       growthRate: real, lambdaText: string, volume: real, volumeText: string,
                       m: Match, censusEntry: string): string
    requires |r| == |s|
  {
    Head(name) + L.Factors(r, s, '_', |r|) + Trailer(braidIndex, genus, growthRate, lambdaText, volume, volumeText, m, censusEntry)
  }

  function Head(name: string): string
  {
    "name " + name + ", vector "
  }

  /** What follows the vector. */
  function Trailer(braidIndex: int, genus: int, growthRate: real, lambdaText: string,
                   volume: real, volumeText: string, m: Match, censusEntry: string): string
  {
    Numbers(braidIndex, genus) + LambdaPart(growthRate, lambdaText) + VolumePart(volume, volumeText, m, censusEntry)
  }

  function Numbers(braidIndex: int, genus: int): string
  {
    ", bi " + IntToString(braidIndex) + ", genus " + IntToString(genus)
  }

  function LambdaPart(growthRate: real, lambdaText: string): string
  {
    if growthRate > 0.0 then ", lambda " + lambdaText else ""
  }

  function VolumePart(volume: real, volumeText: string, m: Match, censusEntry: string): string
  {
    if volume > 0.0 then ", volume " + volumeText + (if m == Yes then ", match " else ", nomatch ") + censusEntry else ""
  }

  /**
   * The vector in a description reads back: behind the head, up to the braid index,
   * stand the factors, and splitting them at '_' gives r and s again.
   */
  lemma DescriptionVector(name: string, r: seq<int>, s: seq<int>, braidIndex: int, genus: int,
                          growthRate: real, lambdaText: string, volume: real, volumeText: string,
                          m: Match, censusEntry: string)
    requires |r| == |s| && Int32s(r) && Int32s(s)
    ensures var d := Description(name, r, s, braidIndex, genus, growthRate, lambdaText, volume, volumeText, m, censusEntry);
            var k := |Head(name)|;
            var v := L.Factors(r, s, '_', |r|);
            k + |v| <= |d| && d[..k] == Head(name) && ReadFactors(Tokens(d[k..k + |v|], {'_'}, 0)) == Ok((r, s))
  {
    var v := L.Factors(r, s, '_', |r|);
    Middle(Head(name), v, Trailer(braidIndex, genus, growthRate, lambdaText, volume, volumeText, m, censusEntry));
    VectorReads(r, s, '_');
  }

  lemma Append3(a: string, b: string, c: string, d: string)
    ensures a + b + c + d == a + (b + c + d)
  {
  }

  lemma Middle(a: string, b: string, c: string)
    ensures (a + b + c)[..|a|] == a && (a + b + c)[|a|..|a| + |b|] == b
  {
  }

  /** An entry of the table, with what the analysis and SnapPea found. */
  class LorenzData {
    var name: string
    var censusEntry: string
    var r: array<int>
    var s: array<int>
    var braidIndex: int
    var genus: int
    var growthRate: real
    var volume: real
    var matched: Match

    /** The fields a line of the table sets. */
    function Fields(): Entry
      reads this, r, s
    {
      Entry(name, r[..], s[..], braidIndex, censusEntry)
    }

    /** A new entry: nothing analysed yet. */
    constructor Init(e: Entry)
      requires |e.r| == |e.s|
      ensures fresh(r) && fresh(s) && Fields() == e
      ensures genus == 0 && growthRate == 0.0 && volume == 0.0 && matched == Unknown
    {
      name := e.name;
      censusEntry := e.censusEntry;
      braidIndex := e.braidIndex;
      r := new int[|e.r|](k requires 0 <= k < |e.r| => e.r[k]);
      s := new int[|e.s|](k requires 0 <= k < |e.s| => e.s[k]);
      genus := 0;
      growthRate := 0.0;
      volume := 0.0;
      matched := Unknown;
    }

    /**
     * readKnot: the fields of a line, then the factors of the vector one by one into
     * the two arrays; or the message of the first exception.
     */
    static method ReadKnot(line: string) returns (lk: LorenzData?, res: Outcome)
      ensures res.Pass? <==> ParseLine(line).Ok?
      ensures res.Fail? ==> lk == null && res.msg == ParseLine(line).msg
      ensures res.Pass? ==> lk != null && fresh(lk) && fresh(lk.r) && fresh(lk.s)
      ensures res.Pass? ==> lk.Fields() == ParseLine(line).value && lk.r.Length == lk.s.Length
      ensures res.Pass? ==> lk.genus == 0 && lk.growthRate == 0.0 && lk.volume == 0.0 && lk.matched == Unknown
    {
      lk := null;
      var ts := Tokens(line, FieldDelims, 0);
      if |ts| < 3 {
        return null, Fail(NoToken);
      }
      var bi := ParseInt(ts[2]);
      if bi.None? {
        return null, Fail(R.BADNUMBER);
      }
      if |ts| < 4 {
        return null, Fail(NoToken);
      }
      var ra, sa, vec := ReadVector(Tokens(ts[1], {'.'}, 0));
      if vec.Fail? {
        return null, vec;
      }
      lk := new LorenzData.Init(Entry(ts[0], ra[..], sa[..], bi.value, ts[3]));
      res := Pass;
    }

    /** The loop of readKnot over the factors of the vector. */
    static method ReadVector(fs: seq<string>) returns (ra: array<int>, sa: array<int>, res: Outcome)
      ensures res.Pass? <==> ReadFactors(fs).Ok?
      ensures res.Fail? ==> res.msg == ReadFactors(fs).msg
      ensures res.Pass? ==> ReadFactors(fs).value == (ra[..], sa[..])
    {
      ra := new int[|fs|];
      sa := new int[|fs|];
      var i := 0;
      while i < |fs|
        invariant 0 <= i <= |fs| && ra.Length == sa.Length == |fs| && ra != sa
        invariant ReadFactors(fs[..i]) == Ok((ra[..i], sa[..i]))
      {
        var a, b, one := ReadOne(fs[i]);
        if one.Fail? {
          ReadFactorsFail(fs, i, one.msg);
          return ra, sa, one;
        }
        ReadPrefixStep(fs, i, ra[..i], sa[..i], a, b);
        StoreFactor(ra, sa, i, a, b);
        i := i + 1;
      }
      assert fs[..i] == fs;
      assert ra[..i] == ra[..] && sa[..i] == sa[..];
      res := Pass;
    }

    /** Factor i stored: its index in ra, its exponent in sa. */
    static method StoreFactor(ra: array<int>, sa: array<int>, i: nat, a: int, b: int)
      requires i < ra.Length && i < sa.Length && ra != sa
      modifies ra, sa
      ensures ra[..i + 1] == old(ra[..i]) + [a] && sa[..i + 1] == old(sa[..i]) + [b]
    {
      ra[i] := a;
      sa[i] := b;
    }

    /** One factor of the vector: its index, and its exponent or 1. */
    static method ReadOne(f: string) returns (a: int, b: int, res: Outcome)
      ensures res.Pass? <==> ReadFactor(f).Ok?
      ensures res.Fail? ==> res.msg == ReadFactor(f).msg
      ensures res.Pass? ==> ReadFactor(f).value == (a, b)
    {
      var ps := Tokens(f, {'^'}, 0);
      if |ps| == 0 {
        return 0, 0, Fail(NoToken);
      }
      var x := ParseInt(ps[0]);
      if x.None? {
        return 0, 0, Fail(R.BADNUMBER);
      }
      a := x.value;
      b := 1;
      if |ps| > 1 {
        var y := ParseInt(ps[1]);
        if y.None? {
          return 0, 0, Fail(R.BADNUMBER);
        }
        b := y.value;
      }
      res := Pass;
    }

    /** readFile, over the lines of the file: an entry per line, or the first exception. */
    static method ReadFile(lines: seq<string>) returns (list: seq<LorenzData>, res: Outcome)
      ensures res.Pass? <==> ParseLines(lines).Ok?
      ensures res.Fail? ==> res.msg == ParseLines(lines).msg
      ensures res.Pass? ==> |list| == |lines|
      ensures res.Pass? ==> forall k :: 0 <= k < |list| ==> fresh(list[k]) && list[k].Fields() == ParseLines(lines).value[k]
    {
      list := [];
      ghost var es: seq<Entry> := [];
      var i := 0;
      while i < |lines|
        invariant 0 <= i <= |lines| && |list| == |es| == i
        invariant ParseLines(lines[..i]) == Ok(es)
        invariant forall k :: 0 <= k < i ==> fresh(list[k]) && list[k].Fields() == es[k]
      {
        var lk, one := ReadLine(lines, i, es);
        if one.Fail? {
          return list, one;
        }
        ghost var e := lk.Fields();
        list := list + [lk];
        es := es + [e];
        i := i + 1;
      }
      assert lines[..i] == lines;
      assert ParseLines(lines) == Ok(es);
      res := Pass;
    }

    /** One pass of readFile's loop: line i read, or the exception that ends the reading. */
    static method ReadLine(lines: seq<string>, i: nat, ghost es: seq<Entry>) returns (lk: LorenzData?, one: Outcome)
      requires i < |lines| && ParseLines(lines[..i]) == Ok(es)
      ensures one.Fail? ==> ParseLines(lines) == Err(one.msg)
      ensures one.Pass? ==> lk != null && fresh(lk) && ParseLines(lines[..i + 1]) == Ok(es + [lk.Fields()])
    {
      lk, one := ReadKnot(lines[i]);
      if one.Fail? {
        ParseLinesFail(lines, i, one.msg);
        return;
      }
      ParseLinesStep(lines, i, es, lk.Fields());
    }

    /** toString, with the growth rate and the volume as their formatted text. */
    method ToString(lambdaText: string, volumeText: string) returns (text: string)
      requires r.Length == s.Length
      ensures text == Description(name, r[..], s[..], braidIndex, genus, growthRate, lambdaText, volume, volumeText, matched, censusEntry)
    {
      text := Head(name);
      var rs, ss := r[..], s[..];
      var i := 0;
      while i < r.Length
        invariant 0 <= i <= r.Length
        invariant text == Head(name) + L.Factors(rs, ss, '_', i) + (if 0 < i < r.Length then ['_'] else [])
      {
        var piece := IntToString(r[i]) + "^" + IntToString(s[i]);
        var bar := if i < r.Length - 1 then ['_'] else [];
        L.FactorsStep(text, Head(name), rs, ss, '_', i, piece, bar);
        text := text + piece + bar;
        i := i + 1;
      }
      assert text == Head(name) + L.Factors(rs, ss, '_', r.Length);
      var numbers := Numbers(braidIndex, genus);
      var lambda := "";
      if growthRate > 0.0 {
        lambda := ", lambda " + lambdaText;
      }
      var vol := "";
      if volume > 0.0 {
        var word := if matched == Yes then ", match " else ", nomatch ";
        vol := ", volume " + volumeText + word + censusEntry;
      }
      assert lambda == LambdaPart(growthRate, lambdaText);
      assert vol == VolumePart(volume, volumeText, matched, censusEntry);
      Append3(text, numbers, lambda, vol);
      text := text + numbers + lambda + vol;
    }
  }

  /** readFile: one entry per line, the first exception ending the reading. */
  function ParseLines(lines: seq<string>): (res: Result<seq<Entry>>)
    ensures res.Ok? ==> |res.value| == |lines|
  {
    if lines == [] then Ok([])
    else match ParseLines(lines[..|lines| - 1])
      case Err(m) => Err(m)
      case Ok(es) =>
        match ParseLine(lines[|lines| - 1])
        case Err(m) => Err(m)
        case Ok(e) => Ok(es + [e])
  }

  /** Each entry read is the reading of its own line. */
  lemma {:induction false} ParseLinesEach(lines: seq<string>, k: nat)
    requires k < |lines| && ParseLines(lines).Ok?
    ensures ParseLine(lines[k]) == Ok(ParseLines(lines).value[k])
    decreases |lines|
  {
    var front := lines[..|lines| - 1];
    if k < |lines| - 1 {
      ParseLinesEach(front, k);
      assert front[k] == lines[k];
    }
  }

  /** Reading one line more. */
  lemma ParseLinesStep(lines: seq<string>, i: nat, es: seq<Entry>, e: Entry)
    requires i < |lines| && ParseLines(lines[..i]) == Ok(es) && ParseLine(lines[i]) == Ok(e)
    ensures ParseLines(lines[..i + 1]) == Ok(es + [e])
  {
    ParseLinesSnoc(lines[..i], lines[i], es, e);
    PrefixSnoc(lines, i + 1);
  }

  /** A line that fails ends the reading of the file with its message. */
  lemma {:induction false} ParseLinesFail(lines: seq<string>, i: nat, m: string)
    requires i < |lines| && ParseLines(lines[..i]).Ok? && ParseLine(lines[i]) == Err(m)
    ensures ParseLines(lines) == Err(m)
    decreases |lines|
  {
    if |lines| > i + 1 {
      var front := lines[..|lines| - 1];
      PrefixOfPrefix(lines, i, |lines| - 1);
      ParseLinesFail(front, i, m);
    }
  }

  /** Entries whose fields fit a line. */
  predicate Writable(e: Entry)
  {
    IsToken(e.name, FieldDelims) && IsToken(e.censusEntry, FieldDelims)
    && 0 < |e.r| == |e.s| && Int32s(e.r) && Int32s(e.s) && INT_MIN <= e.braidIndex <= INT_MAX
  }

  predicate AllWritable(es: seq<Entry>)
  {
    forall k :: 0 <= k < |es| ==> Writable(es[k])
  }

  lemma WritableFront(es: seq<Entry>)
    requires es != [] && AllWritable(es)
    ensures AllWritable(es[..|es| - 1]) && Writable(es[|es| - 1])
  {
    var front := es[..|es| - 1];
    forall k | 0 <= k < |front| ensures Writable(front[k]) {
      assert front[k] == es[k];
    }
  }

  /** The lines of a table of entries. */
  function Table(es: seq<Entry>): (lines: seq<string>)
    requires AllWritable(es)
    ensures |lines| == |es|
  {
    if es == [] then []
    else
      WritableFront(es);
      Table(es[..|es| - 1]) + [Line(es[|es| - 1])]
  }

  /** Reading a line appended to a file. */
  lemma ParseLinesSnoc(lines: seq<string>, l: string, es: seq<Entry>, e: Entry)
    requires ParseLines(lines) == Ok(es) && ParseLine(l) == Ok(e)
    ensures ParseLines(lines + [l]) == Ok(es + [e])
  {
    SnocFront(lines, l);
  }

  /** A table written from entries reads back as those entries. */
  lemma {:induction false} TableReads(es: seq<Entry>)
    requires AllWritable(es)
    ensures ParseLines(Table(es)) == Ok(es)
    decreases |es|
  {
    if es != [] {
      var front := es[..|es| - 1];
      var e := es[|es| - 1];
      WritableFront(es);
      TableReads(front);
      TableStep(front, e);
      TableSnoc(es);
      SnocLast(es);
    }
  }

  lemma SnocLast<T>(xs: seq<T>)
    requires xs != []
    ensures xs[..|xs| - 1] + [xs[|xs| - 1]] == xs
  {
  }

  lemma TableSnoc(es: seq<Entry>)
    requires es != [] && AllWritable(es)
    ensures AllWritable(es[..|es| - 1]) && Table(es) == Table(es[..|es| - 1]) + [Line(es[|es| - 1])]
  {
    WritableFront(es);
  }

  lemma TableStep(front: seq<Entry>, e: Entry)
    requires AllWritable(front) && Writable(e) && ParseLines(Table(front)) == Ok(front)
    ensures ParseLines(Table(front) + [Line(e)]) == Ok(front + [e])
  {
    LineReads(e);
    ParseLinesSnoc(Table(front), Line(e), front, e);
  }
}
