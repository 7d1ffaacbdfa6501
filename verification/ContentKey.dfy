/** The content key that decides which extracted facts are the same. */
module ContentKey {
  import opened Common
  import opened JsonText

  /** An extracted fact: `relation` is its predicate, a literal object its serialised text. */
  datatype Fact = Fact(
    subject: Text, relation: Text, objectIri: Option<Text>, objectLit: Option<Text>, aperture: Option<nat>)

  const UNIT_SEPARATOR: byte := 0x1F

  /** What the key compares: an IRI hides a literal. */
  datatype Effective = Iri(iri: Text) | Literal(text: Text) | Neither

  function EffectiveObject(f: Fact): Effective {
    match (f.objectIri, f.objectLit)
    case (Some(i), _) => Iri(i)
    case (None, Some(l)) => Literal(l)
    case (None, None) => Neither
  }

  function ObjectBytes(o: Effective): Text {
    match o
    case Iri(i) => [0x49] + i
    case Literal(l) => [0x4C] + l
    case Neither => [0x2D]
  }

  /** The bytes fed to SHA-256, whose digest stands for them. */
  function KeyOf(f: Fact): Text {
    f.subject + ([UNIT_SEPARATOR] + (f.relation + ([UNIT_SEPARATOR] + ObjectBytes(EffectiveObject(f)))))
  }

  /** Equal subject, predicate and object; an IRI is the object whatever literal stands beside it. */
  predicate SameTriple(f: Fact, g: Fact) {
    && f.subject == g.subject && f.relation == g.relation
    && if f.objectIri.Some? || g.objectIri.Some? then f.objectIri == g.objectIri else f.objectLit == g.objectLit
  }

  lemma SameObject(f: Fact, g: Fact)
    ensures SameTriple(f, g) <==>
              f.subject == g.subject && f.relation == g.relation && EffectiveObject(f) == EffectiveObject(g)
  {
  }

  predicate SeparatorFree(t: Text) { 0x1F !in t }

  lemma SeparatorAfter(b: Text, y: Text, i: nat)
    requires SeparatorFree(b) && i < |b + y| && (b + y)[i] == UNIT_SEPARATOR
    ensures |b| <= i
  {
    assert forall k :: 0 <= k < |b| ==> (b + y)[k] == b[k] && b[k] in b;
  }

  /** A separator-free text before the first separator can be read back. */
  lemma FirstField(a: Text, x: Text, b: Text, y: Text)
    requires a + ([UNIT_SEPARATOR] + x) == b + ([UNIT_SEPARATOR] + y)
    requires SeparatorFree(a) && SeparatorFree(b)
    ensures a == b && x == y
  {
    var s, t := a + ([UNIT_SEPARATOR] + x), b + ([UNIT_SEPARATOR] + y);
    assert s[|a|] == UNIT_SEPARATOR && t[|b|] == UNIT_SEPARATOR;
    SeparatorAfter(b, [UNIT_SEPARATOR] + y, |a|);
    SeparatorAfter(a, [UNIT_SEPARATOR] + x, |b|);
    assert s[..|a|] == a && t[..|b|] == b;
    assert s[|a| + 1..] == x && t[|b| + 1..] == y;
  }

  lemma ObjectBytesInjective(o: Effective, q: Effective)
    requires ObjectBytes(o) == ObjectBytes(q)
    ensures o == q
  {
    assert ObjectBytes(o)[0] == ObjectBytes(q)[0];
    assert ObjectBytes(o)[1..] == ObjectBytes(q)[1..];
  }

  /** On facts whose subject and predicate hold no separator, equal keys mean equal triples and back. */
  lemma KeyIsInjective(f: Fact, g: Fact)
    requires SeparatorFree(f.subject) && SeparatorFree(f.relation)
    requires SeparatorFree(g.subject) && SeparatorFree(g.relation)
    ensures KeyOf(f) == KeyOf(g) <==> SameTriple(f, g)
  {
    hide ObjectBytes; hide EffectiveObject; hide SeparatorFree; hide SameTriple;
    SameObject(f, g);
    if KeyOf(f) == KeyOf(g) {
      var o, q := ObjectBytes(EffectiveObject(f)), ObjectBytes(EffectiveObject(g));
      FirstField(f.subject, f.relation + ([UNIT_SEPARATOR] + o), g.subject, g.relation + ([UNIT_SEPARATOR] + q));
      FirstField(f.relation, o, g.relation, q);
      ObjectBytesInjective(EffectiveObject(f), EffectiveObject(g));
    }
  }

  // ---- When a key stands for one triple only ----

  /** Which texts are those of literals: whatever the serialiser writes. */
  type Literals = Text -> bool

  /** The effective object of the fact is a literal only with a literal's text. */
  predicate HasLiteral(f: Fact, literals: Literals) {
    EffectiveObject(f).Literal? ==> literals(EffectiveObject(f).text)
  }

  /** Bytes that some object is written as. */
  predicate AreObjectBytes(t: Text, literals: Literals) {
    t == [0x2D] || (t != [] && (t[0] == 0x49 || (t[0] == 0x4C && literals(t[1..]))))
  }

  /** The object of a fact, after a separator, ends in the bytes of another object. */
  predicate SplitsObject(o: Text, i: nat, literals: Literals) {
    i < |o| && o[i] == UNIT_SEPARATOR && AreObjectBytes(o[i + 1..], literals)
  }

  /** The hashed bytes of the fact can be read in one way only. */
  predicate Unambiguous(f: Fact, literals: Literals) {
    && SeparatorFree(f.subject) && SeparatorFree(f.relation)
    && forall i :: 0 <= i < |ObjectBytes(EffectiveObject(f))| ==>
         !SplitsObject(ObjectBytes(EffectiveObject(f)), i, literals)
  }

  /** No other triple has the fact's key. */
  ghost predicate StandsAlone(f: Fact, literals: Literals) {
    forall g :: HasLiteral(g, literals) && KeyOf(g) == KeyOf(f) ==> SameTriple(f, g)
  }

  function WithObject(subject: Text, relation: Text, t: Text, literals: Literals): (g: Fact)
    requires AreObjectBytes(t, literals)
    ensures g.subject == subject && g.relation == relation && ObjectBytes(EffectiveObject(g)) == t
    ensures HasLiteral(g, literals)
  {
    if t == [0x2D] then Fact(subject, relation, None, None, None)
    else
      assert t == [t[0]] + t[1..];
      if t[0] == 0x49 then Fact(subject, relation, Some(t[1..]), None, None)
      else Fact(subject, relation, None, Some(t[1..]), None)
  }

  lemma ObjectBytesAreSuch(f: Fact, literals: Literals)
    requires HasLiteral(f, literals)
    ensures AreObjectBytes(ObjectBytes(EffectiveObject(f)), literals)
  {
    var o := EffectiveObject(f);
    assert o.Literal? ==> ObjectBytes(o)[1..] == o.text;
  }

  lemma MoveLeft(a: Text, b: Text, c: Text, o: Text, u: Text)
    ensures a + (u + ((b + u + c) + (u + o))) == (a + u + b) + (u + (c + (u + o)))
  {
  }

  lemma MoveRight(a: Text, b: Text, c: Text, o: Text, u: Text)
    ensures (a + u + b) + (u + (c + (u + o))) == a + (u + ((b + u + c) + (u + o)))
  {
    MoveLeft(a, b, c, o, u);
  }

  lemma MoveEnd(s: Text, p: Text, a: Text, b: Text, u: Text)
    ensures s + (u + ((p + u + a) + (u + b))) == s + (u + (p + (u + (a + u + b))))
  {
    assert (p + u + a) + (u + b) == p + (u + (a + u + b));
  }

  /** Every fact with a separator in its subject or predicate shares its key with a fact of another subject. */
  lemma SeparatorCollision(f: Fact, literals: Literals) returns (g: Fact)
    requires HasLiteral(f, literals)
    requires !SeparatorFree(f.subject) || !SeparatorFree(f.relation)
    ensures HasLiteral(g, literals) && KeyOf(g) == KeyOf(f) && g.subject != f.subject
  {
    var u, o := [UNIT_SEPARATOR], ObjectBytes(EffectiveObject(f));
    ObjectBytesAreSuch(f, literals);
    if !SeparatorFree(f.subject) {
      var i :| 0 <= i < |f.subject| && f.subject[i] == UNIT_SEPARATOR;
      var a, b := f.subject[..i], f.subject[i + 1..];
      assert f.subject == a + u + b;
      g := WithObject(a, b + u + f.relation, o, literals);
      MoveLeft(a, b, f.relation, o, u);
    } else {
      var i :| 0 <= i < |f.relation| && f.relation[i] == UNIT_SEPARATOR;
      var a, b := f.relation[..i], f.relation[i + 1..];
      assert f.relation == a + u + b;
      g := WithObject(f.subject + u + a, b, o, literals);
      MoveRight(f.subject, a, b, o, u);
    }
  }

  /** A separator in the object that bytes of an object follow does the same for the predicate. */
  lemma ObjectCollision(f: Fact, i: nat, literals: Literals) returns (g: Fact)
    requires SplitsObject(ObjectBytes(EffectiveObject(f)), i, literals)
    ensures HasLiteral(g, literals) && KeyOf(g) == KeyOf(f) && g.relation != f.relation
  {
    var u, o := [UNIT_SEPARATOR], ObjectBytes(EffectiveObject(f));
    var a, b := o[..i], o[i + 1..];
    assert o == a + u + b;
    g := WithObject(f.subject, f.relation + u + a, b, literals);
    MoveEnd(f.subject, f.relation, a, b, u);
  }

  /** Where the second delimiter of a fact stands in its key, and what surrounds it. */
  lemma KeyParts(f: Fact) returns (n: nat)
    ensures n == |f.subject| + 1 + |f.relation| && n < |KeyOf(f)|
    ensures KeyOf(f)[..n] == f.subject + ([UNIT_SEPARATOR] + f.relation) && KeyOf(f)[n] == UNIT_SEPARATOR
    ensures KeyOf(f)[n + 1..] == ObjectBytes(EffectiveObject(f))
    ensures KeyOf(f)[|f.subject|] == UNIT_SEPARATOR
  {
    hide ObjectBytes; hide EffectiveObject;
    n := |f.subject| + 1 + |f.relation|;
    var head, o := f.subject + ([UNIT_SEPARATOR] + f.relation), ObjectBytes(EffectiveObject(f));
    assert KeyOf(f) == head + ([UNIT_SEPARATOR] + o);
  }

  /** Two separator-free fields: the delimiter between them is the only separator. */
  lemma OnlyDelimiter(a: Text, b: Text, i: nat)
    requires SeparatorFree(a) && SeparatorFree(b) && i < |a| + 1 + |b|
    requires (a + ([UNIT_SEPARATOR] + b))[i] == UNIT_SEPARATOR
    ensures i == |a|
  {
    var t := a + ([UNIT_SEPARATOR] + b);
    assert forall k :: 0 <= k < |a| ==> t[k] == a[k] && a[k] in a;
    assert forall k :: |a| < k < |t| ==> t[k] == b[k - |a| - 1] && b[k - |a| - 1] in b;
  }

  lemma NotSplit(f: Fact, i: nat, literals: Literals)
    requires Unambiguous(f, literals)
    ensures !SplitsObject(ObjectBytes(EffectiveObject(f)), i, literals)
  {
  }

  lemma UnambiguousIsUnique(f: Fact, g: Fact, literals: Literals)
    requires HasLiteral(g, literals) && Unambiguous(f, literals) && KeyOf(g) == KeyOf(f)
    ensures SameTriple(f, g)
  {
    hide KeyOf; hide ObjectBytes; hide EffectiveObject; hide SeparatorFree; hide AreObjectBytes; hide HasLiteral;
    hide SameTriple;
    SameObject(f, g);
    var key := KeyOf(f);
    var n := KeyParts(f);
    var m := KeyParts(g);
    var o := ObjectBytes(EffectiveObject(f));
    ObjectBytesAreSuch(g, literals);
    if m > n {
      assert key[n + 1..][m - n - 1] == key[m] && key[n + 1..][m - n..] == key[m + 1..];
      NotSplit(f, m - n - 1, literals);
      assert false;
    }
    assert key[..n][|g.subject|] == key[|g.subject|];
    OnlyDelimiter(f.subject, f.relation, |g.subject|);
    if m < n {
      assert key[..n][m] == key[m];
      OnlyDelimiter(f.subject, f.relation, m);
      assert false;
    }
    ObjectBytesInjective(EffectiveObject(f), EffectiveObject(g));
    assert key[..n][..|f.subject|] == f.subject && key[..n][|f.subject| + 1..] == f.relation;
    assert key[..n][..|f.subject|] == g.subject && key[..n][|f.subject| + 1..] == g.relation;
  }

  /** Whatever the texts of literals are: a fact stands alone if and only if its bytes are unambiguous. */
  lemma KeyIsUnique(f: Fact, literals: Literals)
    requires HasLiteral(f, literals)
    ensures StandsAlone(f, literals) <==> Unambiguous(f, literals)
  {
    hide KeyOf; hide Unambiguous; hide ObjectBytes; hide EffectiveObject; hide HasLiteral;
    if Unambiguous(f, literals) {
      forall g | HasLiteral(g, literals) && KeyOf(g) == KeyOf(f) ensures SameTriple(f, g) {
        UnambiguousIsUnique(f, g, literals);
      }
    } else {
      var g := Collision(f, literals);
    }
  }

  lemma Collision(f: Fact, literals: Literals) returns (g: Fact)
    requires HasLiteral(f, literals) && !Unambiguous(f, literals)
    ensures HasLiteral(g, literals) && KeyOf(g) == KeyOf(f) && !SameTriple(f, g)
  {
    hide KeyOf; hide ObjectBytes; hide EffectiveObject; hide SeparatorFree; hide SplitsObject; hide HasLiteral;
    if !SeparatorFree(f.subject) || !SeparatorFree(f.relation) {
      g := SeparatorCollision(f, literals);
    } else {
      var o := ObjectBytes(EffectiveObject(f));
      var i :| 0 <= i < |o| && SplitsObject(o, i, literals);
      g := ObjectCollision(f, i, literals);
    }
  }

  /** So when the object holds no separator, it is those of the other two fields that matter. */
  lemma SeparatorsDecide(f: Fact, literals: Literals)
    requires HasLiteral(f, literals) && SeparatorFree(ObjectBytes(EffectiveObject(f)))
    ensures StandsAlone(f, literals) <==> SeparatorFree(f.subject) && SeparatorFree(f.relation)
  {
    hide KeyOf; hide ObjectBytes; hide EffectiveObject; hide AreObjectBytes; hide StandsAlone; hide HasLiteral;
    KeyIsUnique(f, literals);
    var o := ObjectBytes(EffectiveObject(f));
    assert forall i :: 0 <= i < |o| ==> o[i] != UNIT_SEPARATOR;
  }

  // ---- Literals are JSON texts ----

  lemma FreeConcat(a: Text, b: Text)
    requires SeparatorFree(a) && SeparatorFree(b)
    ensures SeparatorFree(a + b)
  {
  }

  lemma SpacesFree(t: Text)
    requires Spaces(t)
    ensures SeparatorFree(t)
  {
  }

  lemma {:induction false} UnitsFree(us: seq<Unit>)
    requires ValidUnits(us)
    ensures SeparatorFree(ShowUnits(us)) && SeparatorFree(ShowString(us))
  {
    if us != [] {
      UnitsFree(us[1..]);
      UnitFree(us[0]);
      FreeConcat(ShowUnit(us[0]), ShowUnits(us[1..]));
    }
    FreeConcat([QUOTE], ShowUnits(us));
    FreeConcat([QUOTE] + ShowUnits(us), [QUOTE]);
  }

  lemma UnitFree(u: Unit)
    requires ValidUnit(u)
    ensures SeparatorFree(ShowUnit(u))
  {
    if u.Unicode? { assert forall i :: 0 <= i < |u.hex| ==> IsHex(u.hex[i]); }
  }

  /** A printed JSON value holds no separator: control characters are escaped in strings and no white space. */
  lemma {:induction false} ValueFree(v: Value)
    requires ValidValue(v)
    ensures SeparatorFree(ShowValue(v))
    decreases v
  {
    match v
    case Scalar(text) =>
    case Str(units) => UnitsFree(units);
    case Arr(lead, elems) =>
      SpacesFree(lead);
      ElemsFree(elems);
      FreeConcat([BRACKET], lead);
      FreeConcat([BRACKET] + lead, ShowElems(elems));
      FreeConcat([BRACKET] + lead + ShowElems(elems), [UNBRACKET]);
    case Obj(lead, members) =>
      SpacesFree(lead);
      MembersFree(members);
      FreeConcat(lead, ShowMembers(members));
      FreeConcat([OPEN], lead + ShowMembers(members));
      FreeConcat([OPEN] + (lead + ShowMembers(members)), [CLOSE]);
  }

  lemma SeparatorTextFree(more: bool, gap: Text)
    requires Spaces(gap)
    ensures SeparatorFree(Separator(more, gap))
  {
    SpacesFree(gap);
    FreeConcat([COMMA], gap);
  }

  lemma {:induction false} ElemsFree(es: Elems)
    requires ValidElems(es)
    ensures SeparatorFree(ShowElems(es))
    decreases es
  {
    match es
    case NoElems =>
    case Elem(v, after, gap, rest) =>
      var sep := Separator(rest.Elem?, gap);
      ValueFree(v);
      SpacesFree(after);
      SeparatorTextFree(rest.Elem?, gap);
      ElemsFree(rest);
      FreeConcat(ShowValue(v), after);
      FreeConcat(ShowValue(v) + after, sep);
      FreeConcat(ShowValue(v) + after + sep, ShowElems(rest));
  }

  lemma {:induction false} MembersFree(ms: Members)
    requires ValidMembers(ms)
    ensures SeparatorFree(ShowMembers(ms))
    decreases ms
  {
    match ms
    case NoMembers =>
    case Member(key, colonGap, valueGap, v, after, gap, rest) =>
      var sep := Separator(rest.Member?, gap);
      var name := ShowString(key) + colonGap + [COLON] + valueGap;
      UnitsFree(key);
      SpacesFree(colonGap);
      SpacesFree(valueGap);
      FreeConcat(ShowString(key), colonGap);
      FreeConcat(ShowString(key) + colonGap, [COLON]);
      FreeConcat(ShowString(key) + colonGap + [COLON], valueGap);
      ValueFree(v);
      SpacesFree(after);
      SeparatorTextFree(rest.Member?, gap);
      MembersFree(rest);
      FreeConcat(name, ShowValue(v));
      FreeConcat(name + ShowValue(v), after);
      FreeConcat(name + ShowValue(v) + after, sep);
      FreeConcat(name + ShowValue(v) + after + sep, ShowMembers(rest));
  }

  /** Every text of a literal is that of some JSON value. */
  ghost predicate AreJson(literals: Literals) {
    forall t :: literals(t) ==> exists v :: ValidValue(v) && t == ShowValue(v)
  }

  /** For a fact with a literal, or without object, the separators of its other fields decide. */
  lemma LiteralsAreSafe(f: Fact, literals: Literals)
    requires AreJson(literals) && HasLiteral(f, literals) && !EffectiveObject(f).Iri?
    ensures StandsAlone(f, literals) <==> SeparatorFree(f.subject) && SeparatorFree(f.relation)
  {
    hide KeyOf; hide StandsAlone; hide ShowValue;
    var o := EffectiveObject(f);
    if o.Literal? {
      var v :| ValidValue(v) && o.text == ShowValue(v);
      ValueFree(v);
      FreeConcat([0x4C], o.text);
    }
    SeparatorsDecide(f, literals);
  }
}
