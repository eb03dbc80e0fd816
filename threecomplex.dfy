/**
 * ThreeComplex.java: a simplicial 3-complex read as tetrahedra and gluings. A
 * triangle is identified by its norm, the concatenation of its three labels in
 * String.compareTo order, so the gluing table is a map keyed by norms. Each entry
 * records the tetrahedra holding the face (tet1/face1 for the first, tet2/face2
 * for the latest) and, after a "G" record, the two glued triangles.
 */
module ThreeComplexes {
  import opened Wrappers
  import opened Tokens
  import opened Numerals

  const TETRAHEDRON := "T"
  const GLUING := "G"
  /** A record cut short by the end of the input: the Triangle constructor compares a null label. */
  const NullLabel := "null pointer"
  /** An index past a Vector or an array (ArrayIndexOutOfBoundsException). */
  const OutOfRange := "array index out of range"

  // ---- String.compareTo ----

  /** a.compareTo(b) < 0: the first differing character decides, and a proper prefix comes first. */
  predicate Less(a: string, b: string)
    decreases |a|
  {
    if |a| == 0 then |b| > 0
    else if |b| == 0 then false
    else if a[0] != b[0] then a[0] < b[0]
    else Less(a[1..], b[1..])
  }

  lemma {:induction false} LessIrreflexive(a: string)
    ensures !Less(a, a)
    decreases |a|
  {
    if |a| > 0 {
      LessIrreflexive(a[1..]);
    }
  }

  lemma {:induction false} LessAsymmetric(a: string, b: string)
    ensures !(Less(a, b) && Less(b, a))
    decreases |a|
  {
    if |a| > 0 && |b| > 0 && a[0] == b[0] {
      LessAsymmetric(a[1..], b[1..]);
    }
  }

  lemma {:induction false} LessTransitive(a: string, b: string, c: string)
    requires Less(a, b) && Less(b, c)
    ensures Less(a, c)
    decreases |a|
  {
    if |a| > 0 && a[0] == b[0] && b[0] == c[0] {
      LessTransitive(a[1..], b[1..], c[1..]);
    }
  }

  lemma {:induction false} LessTotal(a: string, b: string)
    requires a != b
    ensures Less(a, b) || Less(b, a)
    decreases |a|
  {
    if |a| > 0 && |b| > 0 && a[0] == b[0] {
      assert a == [a[0]] + a[1..] && b == [b[0]] + b[1..];
      LessTotal(a[1..], b[1..]);
    }
  }

  /** Every fact about the order of three labels that the norm needs. */
  lemma OrderFacts(x: string, y: string, z: string)
    ensures !Less(x, x) && !Less(y, y) && !Less(z, z)
    ensures !(Less(x, y) && Less(y, x)) && !(Less(y, z) && Less(z, y)) && !(Less(x, z) && Less(z, x))
    ensures x != y ==> Less(x, y) || Less(y, x)
    ensures y != z ==> Less(y, z) || Less(z, y)
    ensures x != z ==> Less(x, z) || Less(z, x)
    ensures Less(x, y) && Less(y, z) ==> Less(x, z)
    ensures Less(x, z) && Less(z, y) ==> Less(x, y)
    ensures Less(y, x) && Less(x, z) ==> Less(y, z)
    ensures Less(y, z) && Less(z, x) ==> Less(y, x)
    ensures Less(z, x) && Less(x, y) ==> Less(z, y)
    ensures Less(z, y) && Less(y, x) ==> Less(z, x)
  {
    LessIrreflexive(x); LessIrreflexive(y); LessIrreflexive(z);
    LessAsymmetric(x, y); LessAsymmetric(y, z); LessAsymmetric(x, z);
    if x != y { LessTotal(x, y); }
    if y != z { LessTotal(y, z); }
    if x != z { LessTotal(x, z); }
    if Less(x, y) && Less(y, z) { LessTransitive(x, y, z); }
    if Less(x, z) && Less(z, y) { LessTransitive(x, z, y); }
    if Less(y, x) && Less(x, z) { LessTransitive(y, x, z); }
    if Less(y, z) && Less(z, x) { LessTransitive(y, z, x); }
    if Less(z, x) && Less(x, y) { LessTransitive(z, x, y); }
    if Less(z, y) && Less(y, x) { LessTransitive(z, y, x); }
  }

  // ---- Triangle ----

  /** The norm of the Triangle constructor: the first of six strict orderings that holds, or "". */
  function Norm(v1: string, v2: string, v3: string): string
  {
    if Less(v1, v2) && Less(v2, v3) then v1 + v2 + v3
    else if Less(v1, v3) && Less(v3, v2) then v1 + v3 + v2
    else if Less(v2, v1) && Less(v1, v3) then v2 + v1 + v3
    else if Less(v2, v3) && Less(v3, v1) then v2 + v3 + v1
    else if Less(v3, v1) && Less(v1, v2) then v3 + v1 + v2
    else if Less(v3, v2) && Less(v2, v1) then v3 + v2 + v1
    else ""
  }

  predicate Distinct3(v1: string, v2: string, v3: string)
  {
    v1 != v2 && v2 != v3 && v1 != v3
  }

  /** Three distinct labels: the norm is their concatenation in increasing order. */
  lemma NormSorts(v1: string, v2: string, v3: string) returns (x: string, y: string, z: string)
    requires Distinct3(v1, v2, v3)
    ensures multiset{x, y, z} == multiset{v1, v2, v3}
    ensures Less(x, y) && Less(y, z)
    ensures Norm(v1, v2, v3) == x + y + z
  {
    OrderFacts(v1, v2, v3);
    if Less(v1, v2) && Less(v2, v3) { x, y, z := v1, v2, v3; }
    else if Less(v1, v3) && Less(v3, v2) { x, y, z := v1, v3, v2; }
    else if Less(v2, v1) && Less(v1, v3) { x, y, z := v2, v1, v3; }
    else if Less(v2, v3) && Less(v3, v1) { x, y, z := v2, v3, v1; }
    else if Less(v3, v1) && Less(v1, v2) { x, y, z := v3, v1, v2; }
    else { x, y, z := v3, v2, v1; }
  }

  /** The norm is empty exactly when two labels coincide. */
  lemma NormEmpty(v1: string, v2: string, v3: string)
    ensures Norm(v1, v2, v3) == "" <==> !Distinct3(v1, v2, v3)
  {
    OrderFacts(v1, v2, v3);
    if Distinct3(v1, v2, v3) {
      var x, y, z := NormSorts(v1, v2, v3);
      // at most one of three distinct labels is empty
      assert |x| > 0 || |y| > 0;
    }
  }

  /** Exchanging two labels keeps the norm, so every order of the labels has one norm. */
  lemma NormSymmetric(v1: string, v2: string, v3: string)
    ensures Norm(v2, v1, v3) == Norm(v1, v2, v3)
    ensures Norm(v1, v3, v2) == Norm(v1, v2, v3)
  {
    OrderFacts(v1, v2, v3);
  }

  datatype Triangle = Triangle(v: seq<string>, norm: string)

  /** The Triangle constructor on three vertices. */
  function MakeTriangle(v1: string, v2: string, v3: string): Triangle
  {
    Triangle([v1, v2, v3], Norm(v1, v2, v3))
  }

  /** Triangle.equals: the norms are equal. */
  predicate SameTriangle(t1: Triangle, t2: Triangle)
  {
    t1.norm == t2.norm
  }

  /** The same labels in any of the six orders make an equal triangle. */
  lemma EqualsIgnoresOrder(v1: string, v2: string, v3: string)
    ensures SameTriangle(MakeTriangle(v1, v2, v3), MakeTriangle(v1, v3, v2))
    ensures SameTriangle(MakeTriangle(v1, v2, v3), MakeTriangle(v2, v1, v3))
    ensures SameTriangle(MakeTriangle(v1, v2, v3), MakeTriangle(v2, v3, v1))
    ensures SameTriangle(MakeTriangle(v1, v2, v3), MakeTriangle(v3, v1, v2))
    ensures SameTriangle(MakeTriangle(v1, v2, v3), MakeTriangle(v3, v2, v1))
  {
    NormSymmetric(v1, v2, v3);
    NormSymmetric(v2, v1, v3);
    NormSymmetric(v3, v1, v2);
  }

  /** The 32-bit unsigned value of s.hashCode(): s[0]*31^(n-1) + ... + s[n-1], wrapped. */
  function HashBits(s: string): (h: nat)
    ensures h < 0x1_0000_0000
  {
    if |s| == 0 then 0 else (31 * HashBits(s[..|s| - 1]) + s[|s| - 1] as int) % 0x1_0000_0000
  }

  /** Triangle.hashCode: String.hashCode of the norm, as a signed int. */
  function HashCode(t: Triangle): (hc: int)
    ensures INT_MIN <= hc <= INT_MAX
  {
    var h := HashBits(t.norm);
    if h <= INT_MAX then h else h - 0x1_0000_0000
  }

  /** hashCode agrees with equals. */
  lemma HashAgreesWithEquals(t1: Triangle, t2: Triangle)
    requires SameTriangle(t1, t2)
    ensures HashCode(t1) == HashCode(t2)
  {
  }

  // ---- Tetrahedron ----

  datatype Tetrahedron = Tetrahedron(v: seq<string>, faces: seq<Triangle>)

  /** The labels of v without the one at position i. */
  function Omit(v: seq<string>, i: nat): seq<string>
    requires i < |v|
  {
    v[..i] + v[i + 1..]
  }

  /** The Tetrahedron constructor on four vertices: face i leaves out vertex i. */
  function MakeTetrahedron(v1: string, v2: string, v3: string, v4: string): (t: Tetrahedron)
    ensures Shaped(t)
    ensures forall i :: 0 <= i < 4 ==> t.faces[i].v == Omit(t.v, i)
  {
    var v := [v1, v2, v3, v4];
    assert Omit(v, 0) == [v2, v3, v4] && Omit(v, 1) == [v1, v3, v4];
    assert Omit(v, 2) == [v1, v2, v4] && Omit(v, 3) == [v1, v2, v3];
    Tetrahedron(v, [MakeTriangle(v2, v3, v4), MakeTriangle(v1, v3, v4),
                    MakeTriangle(v1, v2, v4), MakeTriangle(v1, v2, v3)])
  }

  /** The labels without position i and the label at i make up all the labels. */
  lemma OmitMultiset(v: seq<string>, i: nat)
    requires i < |v|
    ensures multiset(Omit(v, i)) + multiset{v[i]} == multiset(v)
  {
    assert v == v[..i] + [v[i]] + v[i + 1..];
  }

  /** Four labels and four faces of three labels each. */
  predicate Shaped(t: Tetrahedron)
  {
    |t.v| == 4 && |t.faces| == 4 && forall i :: 0 <= i < 4 ==> |t.faces[i].v| == 3
  }

  predicate AllShaped(tets: seq<Tetrahedron>)
  {
    forall i :: 0 <= i < |tets| ==> Shaped(tets[i])
  }

  /** String form of a tetrahedron, as its toString writes it. */
  function TetString(t: Tetrahedron): string
    requires |t.v| == 4
  {
    "// tetrahedron " + t.v[0] + " " + t.v[1] + " " + t.v[2] + " " + t.v[3] + " "
  }

  // ---- The gluing table ----

  /** GluingData; an unset triangle is None (null). */
  datatype Gluing = Gluing(tet1: int, face1: int, tet2: int, face2: int, tr1: Option<Triangle>, tr2: Option<Triangle>)

  /** The faces among the first k of tetrahedron i whose norm is key, as (tetrahedron, face) pairs. */
  function FaceHits(t: Tetrahedron, i: nat, key: string, k: nat): seq<(nat, nat)>
    requires k <= |t.faces|
  {
    if k == 0 then []
    else FaceHits(t, i, key, k - 1) + (if t.faces[k - 1].norm == key then [(i, k - 1)] else [])
  }

  /** Every face of the tetrahedra whose norm is key, in the order the faces were added. */
  function Holders(tets: seq<Tetrahedron>, key: string): seq<(nat, nat)>
    requires AllShaped(tets)
  {
    if |tets| == 0 then []
    else
      assert AllShaped(tets[..|tets| - 1]);
      Holders(tets[..|tets| - 1], key) + FaceHits(tets[|tets| - 1], |tets| - 1, key, |tets[|tets| - 1].faces|)
  }

  /** The tetrahedron fields of an entry whose face has the holders h: the first and the latest. */
  predicate Records(gl: Gluing, h: seq<(nat, nat)>)
  {
    (|h| == 0 ==> gl.tet1 == -1) &&
    (|h| >= 1 ==> gl.tet1 == h[0].0 && gl.face1 == h[0].1) &&
    (|h| <= 1 ==> gl.tet2 == -1) &&
    (|h| >= 2 ==> gl.tet2 == h[|h| - 1].0 && gl.face2 == h[|h| - 1].1)
  }

  /** The table records the holders of every face, and every glued entry names two triangles. */
  ghost predicate TableRecords(tets: seq<Tetrahedron>, gls: map<string, Gluing>)
  {
    AllShaped(tets) &&
    (forall key {:trigger Records(gls[key], Holders(tets, key))} :: key in gls ==> Records(gls[key], Holders(tets, key))) &&
    (forall key :: key !in gls ==> Holders(tets, key) == []) &&
    (forall key :: key in gls && gls[key].tr2.Some? ==>
       gls[key].tr1.Some? && |gls[key].tr1.value.v| == 3 && |gls[key].tr2.value.v| == 3)
  }

  /** The other side of every gluing has an entry too. */
  predicate Closed(gls: map<string, Gluing>)
  {
    forall key :: key in gls && gls[key].tr2.Some? ==> gls[key].tr2.value.norm in gls
  }

  /** A complex whose table records every face of its tetrahedra and both sides of every gluing. */
  ghost predicate Consistent(tets: seq<Tetrahedron>, gls: map<string, Gluing>)
  {
    TableRecords(tets, gls) && Closed(gls)
  }

  /** addTriangle: the first holder of a face fills tet1/face1, a later one tet2/face2. */
  function AddFace(gls: map<string, Gluing>, key: string, i0: nat, face: nat): map<string, Gluing>
  {
    if key in gls then
      var gl := gls[key];
      gls[key := if gl.tet1 < 0 then gl.(tet1 := i0, face1 := face) else gl.(tet2 := i0, face2 := face)]
    else gls[key := Gluing(i0, face, -1, 0, None, None)]
  }

  /** The first k faces of tetrahedron t, number i0, added in order. */
  function Register(gls: map<string, Gluing>, t: Tetrahedron, i0: nat, k: nat): map<string, Gluing>
    requires k <= |t.faces|
  {
    if k == 0 then gls else AddFace(Register(gls, t, i0, k - 1), t.faces[k - 1].norm, i0, k - 1)
  }

  /** addGluing for one side: the entry of a now names a and b. */
  function Glue(gls: map<string, Gluing>, a: Triangle, b: Triangle): map<string, Gluing>
  {
    if a.norm in gls then gls[a.norm := gls[a.norm].(tr1 := Some(a), tr2 := Some(b))]
    else gls[a.norm := Gluing(-1, 0, -1, 0, Some(a), Some(b))]
  }

  /** addGluing(t1, t2): both sides, t2's last. */
  function GlueBoth(gls: map<string, Gluing>, t1: Triangle, t2: Triangle): (r: map<string, Gluing>)
  {
    Glue(Glue(gls, t1, t2), t2, t1)
  }

  lemma HoldersAppend(tets: seq<Tetrahedron>, t: Tetrahedron, key: string)
    requires AllShaped(tets)
    requires Shaped(t)
    ensures Holders(tets + [t], key) == Holders(tets, key) + FaceHits(t, |tets|, key, |t.faces|)
  {
    assert (tets + [t])[..|tets|] == tets;
  }

  /** One more holder of key: the entry records it as the first or as the latest. */
  lemma AddFaceRecords(gls: map<string, Gluing>, key: string, i0: nat, face: nat, h: seq<(nat, nat)>)
    requires key in gls ==> Records(gls[key], h)
    requires key !in gls ==> h == []
    ensures key in AddFace(gls, key, i0, face)
    ensures Records(AddFace(gls, key, i0, face)[key], h + [(i0, face)])
  {
  }

  /** Registering a face leaves the triangles of every entry alone and adds only its key. */
  lemma AddFaceKeeps(gls: map<string, Gluing>, key: string, i0: nat, face: nat)
    ensures AddFace(gls, key, i0, face).Keys == gls.Keys + {key}
    ensures forall k :: k in gls ==> AddFace(gls, key, i0, face)[k].tr1 == gls[k].tr1
    ensures forall k :: k in gls ==> AddFace(gls, key, i0, face)[k].tr2 == gls[k].tr2
    ensures forall k :: k in gls && k != key ==> AddFace(gls, key, i0, face)[k] == gls[k]
  {
  }

  /** The step of the face loop of addTetrahedron keeps the table recording the holders so far. */
  lemma RegisterStep(tets: seq<Tetrahedron>, gls: map<string, Gluing>, t: Tetrahedron, k: nat)
    requires AllShaped(tets) && Shaped(t) && k < 4
    requires forall key :: key in Register(gls, t, |tets|, k) ==>
               Records(Register(gls, t, |tets|, k)[key], Holders(tets, key) + FaceHits(t, |tets|, key, k))
    requires forall key :: key !in Register(gls, t, |tets|, k) ==> Holders(tets, key) + FaceHits(t, |tets|, key, k) == []
    ensures forall key :: key in Register(gls, t, |tets|, k + 1) ==>
              Records(Register(gls, t, |tets|, k + 1)[key], Holders(tets, key) + FaceHits(t, |tets|, key, k + 1))
    ensures forall key :: key !in Register(gls, t, |tets|, k + 1) ==> Holders(tets, key) + FaceHits(t, |tets|, key, k + 1) == []
  {
    var g := Register(gls, t, |tets|, k);
    var g' := Register(gls, t, |tets|, k + 1);
    var nk := t.faces[k].norm;
    AddFaceKeeps(g, nk, |tets|, k);
    assert g' == AddFace(g, nk, |tets|, k);
    forall key | key in g'
      ensures Records(g'[key], Holders(tets, key) + FaceHits(t, |tets|, key, k + 1))
    {
      if key == nk {
        AddFaceRecords(g, nk, |tets|, k, Holders(tets, nk) + FaceHits(t, |tets|, nk, k));
        assert FaceHits(t, |tets|, nk, k + 1) == FaceHits(t, |tets|, nk, k) + [(|tets|, k)];
        assert Holders(tets, key) + FaceHits(t, |tets|, key, k + 1) ==
               (Holders(tets, nk) + FaceHits(t, |tets|, nk, k)) + [(|tets|, k)];
      } else {
        assert FaceHits(t, |tets|, key, k + 1) == FaceHits(t, |tets|, key, k);
        assert g'[key] == g[key];
      }
    }
    forall key | key !in g'
      ensures Holders(tets, key) + FaceHits(t, |tets|, key, k + 1) == []
    {
      assert key != nk && key !in g;
      assert FaceHits(t, |tets|, key, k + 1) == FaceHits(t, |tets|, key, k);
    }
  }

  /** Registering the first k faces keeps the triangles of every entry and adds only face keys. */
  lemma {:induction false} RegisterKeepsTriangles(gls: map<string, Gluing>, t: Tetrahedron, i0: nat, k: nat)
    requires k <= |t.faces|
    ensures gls.Keys <= Register(gls, t, i0, k).Keys
    ensures forall key :: key in gls ==> Register(gls, t, i0, k)[key].tr1 == gls[key].tr1
    ensures forall key :: key in gls ==> Register(gls, t, i0, k)[key].tr2 == gls[key].tr2
    ensures forall key :: key in Register(gls, t, i0, k) && key !in gls ==>
              Register(gls, t, i0, k)[key].tr2 == None
  {
    if k > 0 {
      RegisterKeepsTriangles(gls, t, i0, k - 1);
      AddFaceKeeps(Register(gls, t, i0, k - 1), t.faces[k - 1].norm, i0, k - 1);
    }
  }

  /** After the first k faces of t the table records the holders among the old tetrahedra and those faces. */
  lemma {:induction false} RegisterLoop(tets: seq<Tetrahedron>, gls: map<string, Gluing>, t: Tetrahedron, k: nat)
    requires Consistent(tets, gls) && Shaped(t) && k <= 4
    ensures forall key :: key in Register(gls, t, |tets|, k) ==>
              Records(Register(gls, t, |tets|, k)[key], Holders(tets, key) + FaceHits(t, |tets|, key, k))
    ensures forall key :: key !in Register(gls, t, |tets|, k) ==> Holders(tets, key) + FaceHits(t, |tets|, key, k) == []
  {
    if k == 0 {
      forall key
        ensures Holders(tets, key) + FaceHits(t, |tets|, key, 0) == Holders(tets, key)
        ensures key in gls ==> Records(gls[key], Holders(tets, key))
      {
      }
    } else {
      RegisterLoop(tets, gls, t, k - 1);
      RegisterStep(tets, gls, t, k - 1);
    }
  }

  /** addTetrahedron keeps the table consistent with the holders of every face. */
  lemma RegisterConsistent(tets: seq<Tetrahedron>, gls: map<string, Gluing>, t: Tetrahedron)
    requires Consistent(tets, gls) && Shaped(t)
    ensures Consistent(tets + [t], Register(gls, t, |tets|, |t.faces|))
  {
    RegisterLoop(tets, gls, t, |t.faces|);
    forall key
      ensures Holders(tets + [t], key) == Holders(tets, key) + FaceHits(t, |tets|, key, |t.faces|)
    {
      HoldersAppend(tets, t, key);
    }
    RegisterKeepsTriangles(gls, t, |tets|, |t.faces|);
    assert AllShaped(tets + [t]) by {
      assert forall i :: 0 <= i < |tets| ==> (tets + [t])[i] == tets[i];
    }
  }

  /** One side of addGluing: only the triangles of the entry change, or a new entry holds no face. */
  lemma GlueRecords(tets: seq<Tetrahedron>, gls: map<string, Gluing>, a: Triangle, b: Triangle)
    requires TableRecords(tets, gls) && |a.v| == 3 && |b.v| == 3
    ensures TableRecords(tets, Glue(gls, a, b))
    ensures Glue(gls, a, b).Keys == gls.Keys + {a.norm}
  {
    var g := Glue(gls, a, b);
    forall key | key in g
      ensures Records(g[key], Holders(tets, key))
    {
      if key != a.norm {
        assert g[key] == gls[key];
      }
      if key in gls {
        assert Records(gls[key], Holders(tets, key));
      }
    }
  }

  /** addGluing keeps the tetrahedron fields of every entry and names both sides. */
  lemma GlueBothConsistent(tets: seq<Tetrahedron>, gls: map<string, Gluing>, t1: Triangle, t2: Triangle)
    requires Consistent(tets, gls) && |t1.v| == 3 && |t2.v| == 3
    ensures Consistent(tets, GlueBoth(gls, t1, t2))
  {
    GlueRecords(tets, gls, t1, t2);
    GlueRecords(tets, Glue(gls, t1, t2), t2, t1);
    GlueBothNames(gls, t1, t2);
  }

  /** The table after addGluing: each side's entry names it and the other side, t2's entry last. */
  lemma GlueBothNames(gls: map<string, Gluing>, t1: Triangle, t2: Triangle)
    ensures GlueBoth(gls, t1, t2).Keys == gls.Keys + {t1.norm, t2.norm}
    ensures GlueBoth(gls, t1, t2)[t2.norm].tr1 == Some(t2) && GlueBoth(gls, t1, t2)[t2.norm].tr2 == Some(t1)
    ensures t1.norm != t2.norm ==>
              GlueBoth(gls, t1, t2)[t1.norm].tr1 == Some(t1) && GlueBoth(gls, t1, t2)[t1.norm].tr2 == Some(t2)
    ensures forall key :: key in gls ==>
              GlueBoth(gls, t1, t2)[key].tet1 == gls[key].tet1 && GlueBoth(gls, t1, t2)[key].tet2 == gls[key].tet2
    ensures forall key :: key in gls && key != t1.norm && key != t2.norm ==> GlueBoth(gls, t1, t2)[key] == gls[key]
  {
  }

  /** Gluing two different triangles is symmetric: addGluing(t1, t2) and addGluing(t2, t1) leave one table. */
  lemma GlueBothSymmetric(gls: map<string, Gluing>, t1: Triangle, t2: Triangle)
    requires t1.norm != t2.norm
    ensures GlueBoth(gls, t1, t2) == GlueBoth(gls, t2, t1)
  {
  }

  // ---- Reading ----

  /** The next k strings from pos; None when the input ends first. */
  function Strings(toks: seq<Token>, pos: nat, k: nat): (r: Option<(seq<string>, nat)>)
    requires pos <= |toks|
    ensures r.Some? ==> |r.value.0| == k && pos <= r.value.1 <= |toks|
    decreases k
  {
    if k == 0 then Some(([], pos))
    else
      var (w, p) := NextWord(toks, pos);
      if w.None? then None
      else
        match Strings(toks, p, k - 1)
        case None => None
        case Some((ws, q)) => Some(([w.value] + ws, q))
  }

  /** The state after the records of toks from pos, and the outcome of readTriangulation. */
  function Interpret(toks: seq<Token>, pos: nat, tets: seq<Tetrahedron>, gls: map<string, Gluing>)
    : (r: (Outcome, seq<Tetrahedron>, map<string, Gluing>))
    requires pos <= |toks| && AllShaped(tets)
    ensures |tets| <= |r.1| && AllShaped(r.1)
    decreases |toks| - pos
  {
    var (w, p) := NextWord(toks, pos);
    if w.None? then (Pass, tets, gls)
    else if w.value == TETRAHEDRON then
      match Strings(toks, p, 4)
      case None => (Fail(NullLabel), tets, gls)
      case Some((a, q)) =>
        var t := MakeTetrahedron(a[0], a[1], a[2], a[3]);
        Interpret(toks, q, tets + [t], Register(gls, t, |tets|, |t.faces|))
    else if w.value == GLUING then
      match Strings(toks, p, 6)
      case None => (Fail(NullLabel), tets, gls)
      case Some((a, q)) =>
        Interpret(toks, q, tets, GlueBoth(gls, MakeTriangle(a[0], a[1], a[2]), MakeTriangle(a[3], a[4], a[5])))
    else (Fail(w.value + ": wrong key word"), tets, gls)
  }

  /** Reading keeps the table consistent, however the input ends. */
  lemma {:induction false} InterpretConsistent(toks: seq<Token>, pos: nat, tets: seq<Tetrahedron>, gls: map<string, Gluing>)
    requires pos <= |toks| && Consistent(tets, gls)
    ensures Consistent(Interpret(toks, pos, tets, gls).1, Interpret(toks, pos, tets, gls).2)
    decreases |toks| - pos
  {
    var (w, p) := NextWord(toks, pos);
    if w.Some? && w.value == TETRAHEDRON {
      match Strings(toks, p, 4)
      case None =>
      case Some((a, q)) =>
        var t := MakeTetrahedron(a[0], a[1], a[2], a[3]);
        RegisterConsistent(tets, gls, t);
        InterpretConsistent(toks, q, tets + [t], Register(gls, t, |tets|, |t.faces|));
    } else if w.Some? && w.value == GLUING {
      match Strings(toks, p, 6)
      case None =>
      case Some((a, q)) =>
        var t1, t2 := MakeTriangle(a[0], a[1], a[2]), MakeTriangle(a[3], a[4], a[5]);
        GlueBothConsistent(tets, gls, t1, t2);
        InterpretConsistent(toks, q, tets, GlueBoth(gls, t1, t2));
    }
  }

  /** A first word other than T and G stops reading at once with "wrong key word". */
  lemma WrongKeyWord(toks: seq<Token>, pos: nat, tets: seq<Tetrahedron>, gls: map<string, Gluing>)
    requires pos <= |toks| && AllShaped(tets)
    requires NextWord(toks, pos).0.Some?
    requires NextWord(toks, pos).0.value != TETRAHEDRON && NextWord(toks, pos).0.value != GLUING
    ensures Interpret(toks, pos, tets, gls) == (Fail(NextWord(toks, pos).0.value + ": wrong key word"), tets, gls)
  {
  }

  /** Reading ends with Pass exactly when every record is complete and starts with T or G. */
  lemma {:induction false} InterpretFails(toks: seq<Token>, pos: nat, tets: seq<Tetrahedron>, gls: map<string, Gluing>)
    requires pos <= |toks| && AllShaped(tets)
    ensures Interpret(toks, pos, tets, gls).0 == Pass <==> WellFormedFrom(toks, pos)
    decreases |toks| - pos
  {
    var (w, p) := NextWord(toks, pos);
    if w.Some? && w.value == TETRAHEDRON {
      match Strings(toks, p, 4)
      case None =>
      case Some((a, q)) =>
        var t := MakeTetrahedron(a[0], a[1], a[2], a[3]);
        InterpretFails(toks, q, tets + [t], Register(gls, t, |tets|, |t.faces|));
    } else if w.Some? && w.value == GLUING {
      match Strings(toks, p, 6)
      case None =>
      case Some((a, q)) =>
        InterpretFails(toks, q, tets, GlueBoth(gls, MakeTriangle(a[0], a[1], a[2]), MakeTriangle(a[3], a[4], a[5])));
    }
  }

  /** The input from pos is a sequence of complete T and G records. */
  predicate WellFormedFrom(toks: seq<Token>, pos: nat)
    requires pos <= |toks|
    decreases |toks| - pos
  {
    var n := NextWord(toks, pos);
    n.0.None? ||
    (n.0.value == TETRAHEDRON && Strings(toks, n.1, 4).Some? && WellFormedFrom(toks, Strings(toks, n.1, 4).value.1)) ||
    (n.0.value == GLUING && Strings(toks, n.1, 6).Some? && WellFormedFrom(toks, Strings(toks, n.1, 6).value.1))
  }

  // ---- Neighbours ----

  /** The first position of x in v, or |v| when x is not there. */
  function Find(v: seq<string>, x: string): (r: nat)
    ensures r <= |v| && (r < |v| ==> v[r] == x) && forall j :: 0 <= j < r ==> v[j] != x
  {
    if |v| == 0 then 0 else if v[0] == x then 0 else 1 + Find(v[1..], x)
  }

  /** Some label of t2 other than position nf equals label r of t1. */
  predicate Matches(v1: seq<string>, v2: seq<string>, r: nat, nf: int)
    requires r < |v1|
  {
    exists s :: 0 <= s < |v2| && s != nf && v1[r] == v2[s]
  }

  /** The holders of a face that two tetrahedron faces share: the one other than (tet, face). */
  predicate TwoHolders(h: seq<(nat, nat)>, tet: nat, face: nat, nb: nat, nf: nat)
  {
    (nb, nf) != (tet, face) && (h == [(tet, face), (nb, nf)] || h == [(nb, nf), (tet, face)])
  }

  lemma {:induction false} FaceHitsBounded(t: Tetrahedron, i: nat, key: string, k: nat)
    requires k <= |t.faces|
    ensures forall j :: 0 <= j < |FaceHits(t, i, key, k)| ==>
              FaceHits(t, i, key, k)[j].0 == i && FaceHits(t, i, key, k)[j].1 < k &&
              t.faces[FaceHits(t, i, key, k)[j].1].norm == key
  {
    if k > 0 {
      FaceHitsBounded(t, i, key, k - 1);
    }
  }

  /** Every holder of key is a face of one of the tetrahedra whose norm is key. */
  lemma {:induction false} HoldersBounded(tets: seq<Tetrahedron>, key: string)
    requires AllShaped(tets)
    ensures forall j :: 0 <= j < |Holders(tets, key)| ==>
              Holders(tets, key)[j].0 < |tets| && Holders(tets, key)[j].1 < 4 &&
              tets[Holders(tets, key)[j].0].faces[Holders(tets, key)[j].1].norm == key
  {
    if |tets| > 0 {
      var pre := tets[..|tets| - 1];
      HoldersBounded(pre, key);
      FaceHitsBounded(tets[|tets| - 1], |tets| - 1, key, |tets[|tets| - 1].faces|);
      assert forall j :: 0 <= j < |pre| ==> pre[j] == tets[j];
    }
  }

  /** The first holder an entry records is a face of one of the tetrahedra. */
  lemma FirstHolder(tets: seq<Tetrahedron>, gls: map<string, Gluing>, key: string)
    requires TableRecords(tets, gls) && key in gls
    ensures gls[key].tet1 >= 0 ==> gls[key].tet1 < |tets| && 0 <= gls[key].face1 < 4
  {
    assert Records(gls[key], Holders(tets, key));
    HoldersBounded(tets, key);
  }

  /** Face f of tetrahedron i holds its own norm. */
  lemma {:induction false} HolderOfOwnFace(tets: seq<Tetrahedron>, i: nat, f: nat)
    requires AllShaped(tets)
    requires i < |tets| && f < 4
    ensures (i, f) in Holders(tets, tets[i].faces[f].norm)
  {
    var pre := tets[..|tets| - 1];
    assert forall j :: 0 <= j < |pre| ==> pre[j] == tets[j];
    if i < |tets| - 1 {
      HolderOfOwnFace(pre, i, f);
    } else {
      FaceHitsContain(tets[i], i, f, |tets[i].faces|);
    }
  }

  lemma {:induction false} FaceHitsContain(t: Tetrahedron, i: nat, f: nat, k: nat)
    requires f < k <= |t.faces|
    ensures (i, f) in FaceHits(t, i, t.faces[f].norm, k)
  {
    if f < k - 1 {
      FaceHitsContain(t, i, f, k - 1);
    }
  }

  class ThreeComplex {
    var tetrahedra: seq<Tetrahedron>
    var gluings: map<string, Gluing>
    var name: string

    ghost predicate Valid()
      reads this
    {
      Consistent(tetrahedra, gluings)
    }

    /** An empty complex named "no_name". */
    constructor ()
      ensures Valid() && tetrahedra == [] && gluings == map[] && name == "no_name"
    {
      tetrahedra := [];
      gluings := map[];
      name := "no_name";
    }

    /** setLabel */
    method SetLabel(s: string)
      modifies this
      ensures name == s && tetrahedra == old(tetrahedra) && gluings == old(gluings)
    {
      name := s;
    }

    /** addTriangle: record face `face` of tetrahedron number i0. */
    method AddTriangle(tet: Tetrahedron, i0: nat, face: nat)
      requires face < |tet.faces|
      modifies this
      ensures gluings == AddFace(old(gluings), tet.faces[face].norm, i0, face)
      ensures tetrahedra == old(tetrahedra) && name == old(name)
    {
      var key := tet.faces[face].norm;
      if key in gluings {
        var gl := gluings[key];
        if gl.tet1 < 0 {
          gl := gl.(tet1 := i0, face1 := face);
        } else {
          gl := gl.(tet2 := i0, face2 := face);
        }
        gluings := gluings[key := gl];
      } else {
        gluings := gluings[key := Gluing(i0, face, -1, 0, None, None)];
      }
    }

    /** addTetrahedron: append the tetrahedron and register its four faces. */
    method AddTetrahedron(s1: string, s2: string, s3: string, s4: string)
      requires Valid()
      modifies this
      ensures Valid()
      ensures tetrahedra == old(tetrahedra) + [MakeTetrahedron(s1, s2, s3, s4)]
      ensures gluings == Register(old(gluings), MakeTetrahedron(s1, s2, s3, s4), |old(tetrahedra)|, |MakeTetrahedron(s1, s2, s3, s4).faces|)
      ensures name == old(name)
    {
      var tet := MakeTetrahedron(s1, s2, s3, s4);
      var i0 := |tetrahedra|;
      RegisterConsistent(tetrahedra, gluings, tet);
      tetrahedra := tetrahedra + [tet];
      for face := 0 to 4
        invariant tetrahedra == old(tetrahedra) + [tet] && name == old(name)
        invariant gluings == Register(old(gluings), tet, i0, face)
      {
        AddTriangle(tet, i0, face);
      }
    }

    /** addGluing(t1, t2): the entry of each triangle names it and the other one. */
    method AddGluing(t1: Triangle, t2: Triangle)
      requires Valid() && |t1.v| == 3 && |t2.v| == 3
      modifies this
      ensures Valid()
      ensures gluings == GlueBoth(old(gluings), t1, t2)
      ensures tetrahedra == old(tetrahedra) && name == old(name)
    {
      GlueBothConsistent(tetrahedra, gluings, t1, t2);
      if t1.norm in gluings {
        gluings := gluings[t1.norm := gluings[t1.norm].(tr1 := Some(t1), tr2 := Some(t2))];
      } else {
        gluings := gluings[t1.norm := Gluing(-1, 0, -1, 0, Some(t1), Some(t2))];
      }
      if t2.norm in gluings {
        gluings := gluings[t2.norm := gluings[t2.norm].(tr1 := Some(t2), tr2 := Some(t1))];
      } else {
        gluings := gluings[t2.norm := Gluing(-1, 0, -1, 0, Some(t2), Some(t1))];
      }
    }

    /** addGluing(a1, a2, a3, b1, b2, b3): a1 is glued to b1, a2 to b2, a3 to b3. */
    method AddGluingLabels(a1: string, a2: string, a3: string, b1: string, b2: string, b3: string)
      requires Valid()
      modifies this
      ensures Valid()
      ensures gluings == GlueBoth(old(gluings), MakeTriangle(a1, a2, a3), MakeTriangle(b1, b2, b3))
      ensures tetrahedra == old(tetrahedra) && name == old(name)
    {
      AddGluing(MakeTriangle(a1, a2, a3), MakeTriangle(b1, b2, b3));
    }

    /**
     * readTriangulation over a token stream: records until the end of the input. A
     * record cut short fails before it changes anything; the records before it stay.
     */
    method ReadTriangulation(text: seq<Token>) returns (r: Outcome)
      requires Valid()
      modifies this
      ensures Valid()
      ensures (r, tetrahedra, gluings) == Interpret(text, 0, old(tetrahedra), old(gluings))
      ensures name == old(name)
    {
      var st := new Tokenizer(text);
      while true
        invariant st.Valid() && st.toks == text && Valid() && name == old(name)
        invariant Interpret(text, st.pos, tetrahedra, gluings) == Interpret(text, 0, old(tetrahedra), old(gluings))
        decreases |text| - st.pos
      {
        var s := st.NextString();
        if s.None? {
          return Pass;
        }
        if s.value == TETRAHEDRON {
          var a := ReadStrings(st, 4);
          if a.None? {
            return Fail(NullLabel);
          }
          AddTetrahedron(a.value[0], a.value[1], a.value[2], a.value[3]);
        } else if s.value == GLUING {
          var a := ReadStrings(st, 6);
          if a.None? {
            return Fail(NullLabel);
          }
          AddGluing(MakeTriangle(a.value[0], a.value[1], a.value[2]), MakeTriangle(a.value[3], a.value[4], a.value[5]));
        } else {
          return Fail(s.value + ": wrong key word");
        }
      }
    }

    /** k calls of nextString; None when one of them meets the end. */
    static method ReadStrings(st: Tokenizer, k: nat) returns (a: Option<seq<string>>)
      requires st.Valid()
      modifies st
      ensures st.Valid()
      ensures a.None? <==> Strings(st.toks, old(st.pos), k).None?
      ensures a.Some? ==> (a.value, st.pos) == Strings(st.toks, old(st.pos), k).value
    {
      var ws: seq<string> := [];
      var i := 0;
      PrefixedNothing(Strings(st.toks, st.pos, k));
      while i < k
        invariant 0 <= i <= k && st.Valid() && |ws| == i
        invariant Strings(st.toks, old(st.pos), k) == Prefixed(ws, Strings(st.toks, st.pos, k - i))
      {
        StringsStep(st.toks, st.pos, k - i, ws);
        var w := st.NextString();
        if w.None? {
          return None;
        }
        ws := ws + [w.value];
        i := i + 1;
      }
      StringsDone(st.toks, st.pos, ws);
      return Some(ws);
    }

    /**
     * findNeighbor: the tetrahedron glued to face `face` of tetrahedron `tet`, with
     * perm[face] set to the matching face of the neighbour and the other entries of
     * perm to the positions of the matching labels; -1 when the face has no entry.
     */
    method FindNeighbor(tet: nat, face: nat, perm: array<int>) returns (r: Result<int>)
      requires Valid() && tet < |tetrahedra| && face < 4 && perm.Length == 4
      modifies perm
      ensures tetrahedra[tet].faces[face].norm !in gluings ==> r == Ok(-1) && perm[..] == old(perm[..])
      ensures r.Ok? && r.value >= 0 ==> r.value < |tetrahedra| && 0 <= perm[face] < 4
      ensures Glued(gluings, tetrahedra[tet].faces[face].norm) ==> r.Ok? && r.value >= 0
      ensures forall nb: nat, nf: nat :: TwoHolders(Holders(tetrahedra, tetrahedra[tet].faces[face].norm), tet, face, nb, nf) ==>
                r == Ok(nb) && perm[face] == nf &&
                forall q :: 0 <= q < 4 && q != face && Matches(tetrahedra[tet].v, tetrahedra[nb].v, q, nf) ==>
                  perm[q] != nf && 0 <= perm[q] < 4 && tetrahedra[tet].v[q] == tetrahedra[nb].v[perm[q]]
      ensures r.Err? && tetrahedra[tet].faces[face].norm in gluings ==>
                var gl := gluings[tetrahedra[tet].faces[face].norm];
                gl.tet2 < 0 &&
                (gl.tr2.None? <==> r.msg == TetString(tetrahedra[tet]) + " has no neighbor")
      ensures var key := tetrahedra[tet].faces[face].norm;
              key in gluings && gluings[key].tet2 < 0 && gluings[key].tr2.Some? ==>
                FromRecord(tet, face, old(perm[..]), r, perm[..])
    {
      var t1 := tetrahedra[tet];
      var key := t1.faces[face].norm;
      if key !in gluings {
        return Ok(-1);
      }
      var gl := gluings[key];
      assert Records(gl, Holders(tetrahedra, key));
      HoldersBounded(tetrahedra, key);
      HolderOfOwnFace(tetrahedra, tet, face);
      if gl.tet2 >= 0 {
        var nb, nf;
        if gl.tet2 == tet && gl.face2 == face {
          nb, nf := gl.tet1, gl.face1;
        } else {
          nb, nf := gl.tet2, gl.face2;
        }
        var t2 := tetrahedra[nb];
        perm[face] := nf;
        MatchLabels(t1.v, t2.v, face, nf, perm);
        return Ok(nb);
      } else {
        if gl.tr2.None? {
          return Err(TetString(t1) + " has no neighbor");
        }
        r := NeighborFromRecord(tet, face, perm);
      }
    }

    /**
     * What the second branch of findNeighbor answers, for a face whose entry knows only
     * the glued triangle: the first holder of the other triangle, with perm following the
     * labels of the two triangles; the index error when that holder or a label is missing.
     */
    ghost predicate FromRecord(tet: nat, face: nat, before: seq<int>, r: Result<int>, perm: seq<int>)
      reads this
      requires Valid() && tet < |tetrahedra| && face < 4 && |before| == 4 && |perm| == 4
      requires var key := tetrahedra[tet].faces[face].norm;
               key in gluings && gluings[key].tet2 < 0 && gluings[key].tr2.Some?
    {
      var gl := gluings[tetrahedra[tet].faces[face].norm];
      var gl2 := gluings[gl.tr2.value.norm];
      var a, b := gl.tr1.value.v, gl.tr2.value.v;
      if gl2.tet1 < 0 || |tetrahedra| <= gl2.tet1 then r == Err(OutOfRange)
      else if !(forall i :: 0 <= i < 3 ==> a[i] in tetrahedra[tet].v && b[i] in tetrahedra[gl2.tet1].v) then r == Err(OutOfRange)
      else r == Ok(gl2.tet1) && Followed(tetrahedra[tet].v, tetrahedra[gl2.tet1].v, a, b, face, gl2.face1, before, perm)
    }

    /** The second branch of findNeighbor: the neighbour found through the glued triangle. */
    method NeighborFromRecord(tet: nat, face: nat, perm: array<int>) returns (r: Result<int>)
      requires Valid() && tet < |tetrahedra| && face < 4 && perm.Length == 4
      requires var key := tetrahedra[tet].faces[face].norm;
               key in gluings && gluings[key].tet2 < 0 && gluings[key].tr2.Some?
      modifies perm
      ensures FromRecord(tet, face, old(perm[..]), r, perm[..])
      ensures r.Err? ==> r == Err(OutOfRange)
      ensures r.Ok? ==> 0 <= r.value < |tetrahedra| && 0 <= perm[face] < 4
    {
      var t1 := tetrahedra[tet];
      var gl := gluings[t1.faces[face].norm];
      var gl2 := gluings[gl.tr2.value.norm];
      var nb, nf := gl2.tet1, gl2.face1;
      if nb < 0 {
        return Err(OutOfRange);
      }
      FirstHolder(tetrahedra, gluings, gl.tr2.value.norm);
      var t2 := tetrahedra[nb];
      var ok := SetAndFollow(t1.v, t2.v, gl.tr1.value.v, gl.tr2.value.v, face, nf, perm);
      if !ok {
        return Err(OutOfRange);
      }
      return Ok(nb);
    }

    /** The neighbour check of toSnapPea for face j of tetrahedron i: the neighbour and perm after findNeighbor. */
    method SnapPeaFace(i: nat, j: nat, gl: array<int>) returns (r: Result<(int, seq<int>)>)
      requires Valid() && i < |tetrahedra| && j < 4 && gl.Length == 4
      modifies gl
      ensures r.Ok? ==> FaceOk(tetrahedra, gluings, i, j, r.value.0, r.value.1)
      ensures Glued(gluings, tetrahedra[i].faces[j].norm) ==> r.Ok?
      ensures tetrahedra[i].faces[j].norm !in gluings ==>
                r == Err("tetrahedron " + IntToString(i) + ", face " + IntToString(j) + " has no neighbor")
    {
      if Paired(tetrahedra, i, j) {
        PairedTwo(tetrahedra, i, j);
      }
      var ti := FindNeighbor(i, j, gl);
      if ti.Err? {
        return Err(ti.msg);
      }
      if ti.value < 0 {
        return Err("tetrahedron " + IntToString(i) + ", face " + IntToString(j) + " has no neighbor");
      }
      return Ok((ti.value, gl[..]));
    }

    /** The neighbour check of toSnapPea for tetrahedron i: the four neighbours and perm after each face. */
    method SnapPeaRow(i: nat, gl: array<int>) returns (r: Result<SnapRow>)
      requires Valid() && i < |tetrahedra| && gl.Length == 4
      modifies gl
      ensures r.Ok? ==> RowOk(tetrahedra, gluings, i, r.value)
      ensures (forall j :: 0 <= j < 4 ==> Glued(gluings, tetrahedra[i].faces[j].norm)) ==> r.Ok?
      ensures forall j :: 0 <= j < 4 && tetrahedra[i].faces[j].norm !in gluings ==> r.Err?
    {
      var nbs: seq<int> := [];
      var perms: seq<seq<int>> := [];
      for j := 0 to 4
        invariant |nbs| == j && |perms| == j
        invariant forall k :: 0 <= k < j ==> FaceOk(tetrahedra, gluings, i, k, nbs[k], perms[k])
        invariant forall k :: 0 <= k < j ==> tetrahedra[i].faces[k].norm in gluings
      {
        var f := SnapPeaFace(i, j, gl);
        if f.Err? {
          r := Err(f.msg);
          return;
        }
        nbs := nbs + [f.value.0];
        perms := perms + [f.value.1];
      }
      return Ok(SnapRow(nbs, perms));
    }

    /**
     * The neighbour check of toSnapPea: the table of every tetrahedron, or the first
     * face without a neighbour. One perm array serves every face, so an entry that
     * findNeighbor does not set keeps the value of an earlier face.
     */
    method SnapPeaTable() returns (r: Result<seq<SnapRow>>)
      requires Valid()
      ensures r.Ok? ==> |r.value| == |tetrahedra| && forall i :: 0 <= i < |tetrahedra| ==> RowOk(tetrahedra, gluings, i, r.value[i])
      ensures AllGlued(tetrahedra, gluings) ==> r.Ok?
      ensures AllPaired(tetrahedra) ==> r.Ok?
      ensures forall i, j :: 0 <= i < |tetrahedra| && 0 <= j < 4 && tetrahedra[i].faces[j].norm !in gluings ==> r.Err?
    {
      if AllPaired(tetrahedra) {
        PairedGlued(tetrahedra, gluings);
      }
      var gl := new int[4];
      var rows: seq<SnapRow> := [];
      for i := 0 to |tetrahedra|
        invariant |rows| == i
        invariant forall k :: 0 <= k < i ==> RowOk(tetrahedra, gluings, k, rows[k])
      {
        var row := SnapPeaRow(i, gl);
        if row.Err? {
          assert !AllGlued(tetrahedra, gluings) by {
            assert |tetrahedra[i].faces| == 4;
          }
          return Err(row.msg);
        }
        rows := rows + [row.value];
      }
      forall i, j | 0 <= i < |tetrahedra| && 0 <= j < 4
        ensures tetrahedra[i].faces[j].norm in gluings
      {
        assert FaceOk(tetrahedra, gluings, i, j, rows[i].neighbors[j], rows[i].perms[j]);
      }
      return Ok(rows);
    }

    /**
     * The label loop of findNeighbor when both holders are known: for every r other
     * than face, perm[r] is the last s other than nf whose label matches.
     */
    static method MatchLabels(v1: seq<string>, v2: seq<string>, face: nat, nf: int, perm: array<int>)
      requires |v1| == 4 && |v2| == 4 && face < 4 && perm.Length == 4
      modifies perm
      ensures perm[face] == old(perm[face])
      ensures forall q :: 0 <= q < 4 && q != face && Matches(v1, v2, q, nf) ==>
                perm[q] != nf && 0 <= perm[q] < 4 && v1[q] == v2[perm[q]]
      ensures forall q :: 0 <= q < 4 && q != face && !Matches(v1, v2, q, nf) ==> perm[q] == old(perm[q])
    {
      for q := 0 to 4
        invariant perm[face] == old(perm[face])
        invariant forall j :: 0 <= j < q && j != face && Matches(v1, v2, j, nf) ==>
                    perm[j] != nf && 0 <= perm[j] < 4 && v1[j] == v2[perm[j]]
        invariant forall j :: 0 <= j < 4 && (q <= j || j == face || !Matches(v1, v2, j, nf)) ==> perm[j] == old(perm[j])
      {
        if q != face {
          for s := 0 to 4
            invariant perm[face] == old(perm[face])
            invariant forall j :: 0 <= j < q && j != face && Matches(v1, v2, j, nf) ==>
                        perm[j] != nf && 0 <= perm[j] < 4 && v1[j] == v2[perm[j]]
            invariant forall j :: 0 <= j < 4 && j != q && (q < j || j == face || !Matches(v1, v2, j, nf)) ==>
                        perm[j] == old(perm[j])
            invariant (exists x :: 0 <= x < s && x != nf && v1[q] == v2[x]) ==>
                        perm[q] != nf && 0 <= perm[q] < 4 && v1[q] == v2[perm[q]]
            invariant !(exists x :: 0 <= x < s && x != nf && v1[q] == v2[x]) ==> perm[q] == old(perm[q])
          {
            if s != nf && v1[q] == v2[s] {
              perm[q] := s;
            }
          }
        }
      }
    }

    /**
     * The label loop of findNeighbor from the glued triangles: label i of tr1 sits at
     * position r of v1, label i of tr2 at position s of v2, and perm[r] becomes s;
     * false when a label is missing (the search runs past the four labels).
     */
    static method FollowLabels(v1: seq<string>, v2: seq<string>, a: seq<string>, b: seq<string>, perm: array<int>)
      returns (ok: bool)
      requires |v1| == 4 && |v2| == 4 && |a| == 3 && |b| == 3 && perm.Length == 4
      modifies perm
      ensures ok <==> forall i :: 0 <= i < 3 ==> a[i] in v1 && b[i] in v2
      ensures ok && Distinct3(a[0], a[1], a[2]) ==>
                perm[Find(v1, a[0])] == Find(v2, b[0]) && perm[Find(v1, a[1])] == Find(v2, b[1]) &&
                perm[Find(v1, a[2])] == Find(v2, b[2])
      ensures ok ==> forall q :: 0 <= q < 4 && (forall j :: 0 <= j < 3 ==> v1[q] != a[j]) ==> perm[q] == old(perm[q])
      ensures ok ==> forall q :: 0 <= q < 4 ==> perm[q] == old(perm[q]) || 0 <= perm[q] < 4
    {
      for i := 0 to 3
        invariant forall j :: 0 <= j < i ==> a[j] in v1 && b[j] in v2
        invariant Distinct3(a[0], a[1], a[2]) && i > 0 ==> perm[Find(v1, a[0])] == Find(v2, b[0])
        invariant Distinct3(a[0], a[1], a[2]) && i > 1 ==> perm[Find(v1, a[1])] == Find(v2, b[1])
        invariant Distinct3(a[0], a[1], a[2]) && i > 2 ==> perm[Find(v1, a[2])] == Find(v2, b[2])
        invariant forall q :: 0 <= q < 4 && (forall j :: 0 <= j < i ==> v1[q] != a[j]) ==> perm[q] == old(perm[q])
        invariant forall q :: 0 <= q < 4 ==> perm[q] == old(perm[q]) || 0 <= perm[q] < 4
      {
        ok := FollowLabel(v1, v2, a[i], b[i], perm);
        if !ok {
          return false;
        }
      }
      return true;
    }

    /** perm[face] := nf, then the label loop of the glued triangles a and b. */
    static method SetAndFollow(v1: seq<string>, v2: seq<string>, a: seq<string>, b: seq<string>, face: nat, nf: int,
                               perm: array<int>) returns (ok: bool)
      requires |v1| == 4 && |v2| == 4 && |a| == 3 && |b| == 3 && perm.Length == 4 && face < 4 && 0 <= nf < 4
      modifies perm
      ensures ok <==> forall i :: 0 <= i < 3 ==> a[i] in v1 && b[i] in v2
      ensures ok ==> Followed(v1, v2, a, b, face, nf, old(perm[..]), perm[..]) && 0 <= perm[face] < 4
    {
      perm[face] := nf;
      ghost var mid := perm[..];
      assert mid == old(perm[..])[face := nf];
      ok := FollowLabels(v1, v2, a, b, perm);
    }

    /** One label of the glued triangles: perm at its position in v1 becomes its partner's position in v2. */
    static method FollowLabel(v1: seq<string>, v2: seq<string>, x: string, y: string, perm: array<int>)
      returns (ok: bool)
      requires |v1| == 4 && |v2| == 4 && perm.Length == 4
      modifies perm
      ensures ok <==> x in v1 && y in v2
      ensures ok ==> perm[Find(v1, x)] == Find(v2, y) < 4
      ensures forall q :: 0 <= q < 4 && (!ok || q != Find(v1, x)) ==> perm[q] == old(perm[q])
    {
      var r := Find(v1, x);
      var s := Find(v2, y);
      if r == 4 || s == 4 {
        return false;
      }
      perm[r] := s;
      return true;
    }
  }

  /**
   * perm after the second branch of findNeighbor: perm[face] is set to nf first; then, for
   * each label i of the triangle a, perm at its position in v1 becomes the position of label
   * i of the triangle b in v2. A position of v1 that holds no label of a keeps its entry.
   */
  predicate Followed(v1: seq<string>, v2: seq<string>, a: seq<string>, b: seq<string>, face: nat, nf: int,
                     before: seq<int>, perm: seq<int>)
    requires |v1| == 4 && |a| == 3 && |b| == 3 && |before| == 4 && |perm| == 4 && face < 4
    requires forall i :: 0 <= i < 3 ==> a[i] in v1
  {
    (Distinct3(a[0], a[1], a[2]) ==> forall i :: 0 <= i < 3 ==> perm[Find(v1, a[i])] == Find(v2, b[i])) &&
    forall q :: 0 <= q < 4 && (forall j :: 0 <= j < 3 ==> v1[q] != a[j]) ==> perm[q] == if q == face then nf else before[q]
  }

  /** What toSnapPea writes for one tetrahedron: its four neighbours and, for each face, the perm array after findNeighbor. */
  datatype SnapRow = SnapRow(neighbors: seq<int>, perms: seq<seq<int>>)

  /** Face k of tetrahedron i has an entry, a neighbour nb among the tetrahedra, and p names a face of nb at k. */
  predicate FaceOk(tets: seq<Tetrahedron>, gls: map<string, Gluing>, i: nat, k: nat, nb: int, p: seq<int>)
  {
    i < |tets| && k < 4 && |tets[i].faces| == 4 &&
    tets[i].faces[k].norm in gls && 0 <= nb < |tets| && |p| == 4 && 0 <= p[k] < 4
  }

  /** The entry of key knows two holders: findNeighbor takes its first branch. */
  predicate Glued(gls: map<string, Gluing>, key: string)
  {
    key in gls && gls[key].tet2 >= 0
  }

  /** Every face of every tetrahedron has an entry that knows two holders. */
  predicate AllGlued(tets: seq<Tetrahedron>, gls: map<string, Gluing>)
  {
    forall i, j :: 0 <= i < |tets| && 0 <= j < |tets[i].faces| ==> Glued(gls, tets[i].faces[j].norm)
  }

  /** A face held twice has an entry that records both holders. */
  lemma PairedGlued(tets: seq<Tetrahedron>, gls: map<string, Gluing>)
    requires Consistent(tets, gls) && AllPaired(tets)
    ensures AllGlued(tets, gls)
  {
    forall i, j | 0 <= i < |tets| && 0 <= j < |tets[i].faces|
      ensures Glued(gls, tets[i].faces[j].norm)
    {
      assert Paired(tets, i, j);
      var key := tets[i].faces[j].norm;
      assert Holders(tets, key) != [];
      assert key in gls;
      assert Records(gls[key], Holders(tets, key));
    }
  }

  /** A paired face has its partner as neighbour and the partner's face at perm[k]. */
  ghost predicate FacePaired(tets: seq<Tetrahedron>, i: nat, k: nat, nb: int, p: seq<int>)
  {
    Paired(tets, i, k) ==> nb == Partner(tets, i, k).0 && |p| == 4 && p[k] == Partner(tets, i, k).1
  }

  /** The row of tetrahedron i: every face has an entry and a neighbour. */
  predicate RowOk(tets: seq<Tetrahedron>, gls: map<string, Gluing>, i: nat, row: SnapRow)
  {
    |row.neighbors| == 4 && |row.perms| == 4 &&
    forall j :: 0 <= j < 4 ==> FaceOk(tets, gls, i, j, row.neighbors[j], row.perms[j])
  }

  /** Face j of tetrahedron i is held by exactly two faces of the complex. */
  ghost predicate Paired(tets: seq<Tetrahedron>, i: nat, j: nat)
  {
    AllShaped(tets) && i < |tets| && j < 4 &&
    var h := Holders(tets, tets[i].faces[j].norm);
    |h| == 2 && h[0] != h[1]
  }

  /** Every face of every tetrahedron is held exactly twice: each face has one neighbour. */
  ghost predicate AllPaired(tets: seq<Tetrahedron>)
  {
    forall i, j :: 0 <= i < |tets| && 0 <= j < 4 ==> Paired(tets, i, j)
  }

  /** The other holder of a paired face. */
  ghost function Partner(tets: seq<Tetrahedron>, i: nat, j: nat): (nat, nat)
    requires Paired(tets, i, j)
  {
    var h := Holders(tets, tets[i].faces[j].norm);
    if h[0] == (i, j) then h[1] else h[0]
  }

  lemma PairedTwo(tets: seq<Tetrahedron>, i: nat, j: nat)
    requires Paired(tets, i, j)
    ensures TwoHolders(Holders(tets, tets[i].faces[j].norm), i, j, Partner(tets, i, j).0, Partner(tets, i, j).1)
  {
    HolderOfOwnFace(tets, i, j);
  }

  /** Strings from pos: the words read so far, ws, followed by the rest. */
  function Prefixed(ws: seq<string>, r: Option<(seq<string>, nat)>): Option<(seq<string>, nat)>
  {
    match r
    case None => None
    case Some((xs, q)) => Some((ws + xs, q))
  }

  lemma PrefixedNothing(r: Option<(seq<string>, nat)>)
    ensures Prefixed([], r) == r
  {
    match r
    case None =>
    case Some((xs, q)) => assert [] + xs == xs;
  }

  /** One more nextString: its word joins the words read, or the record is cut short. */
  lemma StringsStep(toks: seq<Token>, pos: nat, k: nat, ws: seq<string>)
    requires pos <= |toks| && k > 0
    ensures NextWord(toks, pos).0.None? ==> Strings(toks, pos, k) == None
    ensures NextWord(toks, pos).0.Some? ==>
              Prefixed(ws, Strings(toks, pos, k)) ==
              Prefixed(ws + [NextWord(toks, pos).0.value], Strings(toks, NextWord(toks, pos).1, k - 1))
  {
    var (w, p) := NextWord(toks, pos);
    if w.Some? {
      match Strings(toks, p, k - 1)
      case None =>
      case Some((xs, q)) =>
        assert ws + ([w.value] + xs) == (ws + [w.value]) + xs;
    }
  }

  lemma StringsDone(toks: seq<Token>, pos: nat, ws: seq<string>)
    requires pos <= |toks|
    ensures Prefixed(ws, Strings(toks, pos, 0)) == Some((ws, pos))
  {
    assert ws + [] == ws;
  }
}
