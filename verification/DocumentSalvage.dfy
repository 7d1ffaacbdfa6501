/**
  The salvage of JSON documents: objects whose first member is the facts array,
  printed with any white space and escapes, and cut anywhere.
 */
module DocumentSalvage {
  import opened Common
  import opened JsonText
  import opened Salvage
  import opened Truncation

  // ---- Documents ----

  /** `facts`, written without escapes. */
  function FactsUnits(): seq<Unit> {
    [Plain('f' as int as byte), Plain('a' as int as byte), Plain('c' as int as byte), Plain('t' as int as byte),
     Plain('s' as int as byte)]
  }

  predicate AllObjects(es: Elems) {
    es.Elem? ==> es.value.Obj? && AllObjects(es.rest)
  }

  predicate IsFactsDocument(v: Value) {
    && v.Obj? && ValidValue(v) && v.members.Member? && v.members.key == FactsUnits()
    && v.members.value.Arr? && AllObjects(v.members.value.elems)
  }

  lemma DocumentIsValid(v: Value)
    requires IsFactsDocument(v)
    ensures var m := v.members;
            && Spaces(v.lead) && Spaces(m.colonGap) && Spaces(m.valueGap) && Spaces(m.value.lead)
            && ValidElems(m.value.elems) && AllObjects(m.value.elems)
  {
    assert ValidMembers(v.members);
    assert ValidValue(v.members.value);
  }

  function Facts(v: Value): Elems
    requires IsFactsDocument(v)
  {
    v.members.value.elems
  }

  function Elements(es: Elems): seq<Value> {
    match es
    case NoElems => []
    case Elem(v, _, _, rest) => [v] + Elements(rest)
  }

  /** What is printed of the elements before element m. */
  function Before(es: Elems, m: nat): Text
    requires m <= |Elements(es)|
  {
    if m == 0 then []
    else ShowValue(es.value) + es.after + Separator(es.rest.Elem?, es.gap) + Before(es.rest, m - 1)
  }

  /** The document up to its first element. */
  function Opening(v: Value): Text
    requires IsFactsDocument(v)
  {
    [OPEN] + v.lead + ShowString(v.members.key) + v.members.colonGap + [COLON] + v.members.valueGap
    + [BRACKET] + v.members.value.lead
  }

  /** The document up to the end of element m. */
  function UpTo(v: Value, m: nat): Text
    requires IsFactsDocument(v) && m < |Elements(Facts(v))|
  {
    Opening(v) + Before(Facts(v), m) + ShowValue(Elements(Facts(v))[m])
  }

  function Texts(vs: seq<Value>): (r: seq<Text>)
    ensures |r| == |vs| && forall i :: 0 <= i < |vs| ==> r[i] == ShowValue(vs[i])
  {
    seq(|vs|, i requires 0 <= i < |vs| => ShowValue(vs[i]))
  }

  // ---- A document is a response ----

  function EntriesOf(es: Elems): seq<Entry> {
    match es
    case NoElems => []
    case Elem(v, after, gap, rest) => [Entry(v, after + Separator(rest.Elem?, gap))] + EntriesOf(rest)
  }

  lemma SeparatorsPrinted(after: Text, gap: Text, more: bool)
    requires Spaces(after) && Spaces(gap)
    ensures Separators(after + Separator(more, gap))
  {
    forall i | 0 <= i < |after + Separator(more, gap)|
      ensures (after + Separator(more, gap))[i] in {0x20, 0x09, 0x0A, 0x0C, 0x0D, 0x2C}
    {
      if i < |after| {
        assert IsSpace(after[i]);
      } else if i > |after| {
        assert IsSpace(gap[i - |after| - 1]);
      }
    }
  }

  lemma {:induction false} EntriesPrinted(es: Elems)
    requires ValidElems(es) && AllObjects(es)
    ensures ValidEntries(EntriesOf(es)) && ShowEntries(EntriesOf(es)) == ShowElems(es)
    ensures |EntriesOf(es)| == |Elements(es)|
    ensures forall i :: 0 <= i < |Elements(es)| ==> EntriesOf(es)[i].obj == Elements(es)[i]
    decreases es
  {
    match es
    case NoElems =>
    case Elem(v, after, gap, rest) =>
      EntriesPrinted(rest);
      SeparatorsPrinted(after, gap, rest.Elem?);
      var e := Entry(v, after + Separator(rest.Elem?, gap));
      assert ([e] + EntriesOf(rest))[1..] == EntriesOf(rest);
      assert ShowEntry(e) == ShowValue(v) + after + Separator(rest.Elem?, gap);
  }

  lemma {:induction false} BeforeIsPrinted(es: Elems, m: nat)
    requires m <= |Elements(es)| && |EntriesOf(es)| == |Elements(es)|
    ensures Before(es, m) == ShowEntries(EntriesOf(es)[..m])
    decreases es
  {
    if m > 0 {
      var entries := EntriesOf(es);
      SameLength(es.rest);
      BeforeIsPrinted(es.rest, m - 1);
      assert entries[1..] == EntriesOf(es.rest);
      ShowEntriesTake(entries, m);
      assert ShowEntry(entries[0]) == ShowValue(es.value) + es.after + Separator(es.rest.Elem?, es.gap);
    }
  }

  lemma {:induction false} SameLength(es: Elems)
    ensures |EntriesOf(es)| == |Elements(es)|
    decreases es
  {
    if es.Elem? { SameLength(es.rest); }
  }

  function AsResponse(v: Value): Response
    requires IsFactsDocument(v)
  {
    var m := v.members;
    Response(v.lead, m.colonGap, m.valueGap, m.value.lead, EntriesOf(m.value.elems),
             [UNBRACKET] + (m.after + Separator(m.rest.Member?, m.gap) + ShowMembers(m.rest) + [CLOSE]))
  }

  lemma FactsKeyShown()
    ensures ShowString(FactsUnits()) == FACTS_KEY
  {
    var us := FactsUnits();
    assert us[1..][1..] == us[2..] && us[2..][1..] == us[3..] && us[3..][1..] == us[4..] && us[4..][1..] == [];
    assert ShowUnits(us[4..]) == [us[4].b];
    assert ShowUnits(us[3..]) == [us[3].b, us[4].b];
    assert ShowUnits(us[2..]) == [us[2].b, us[3].b, us[4].b];
    assert ShowUnits(us[1..]) == [us[1].b, us[2].b, us[3].b, us[4].b];
  }

  lemma DocumentParts(v: Value)
    requires IsFactsDocument(v)
    ensures var r := AsResponse(v);
            && Head(r) + r.lead == Opening(v)
            && ShowValue(v) == Opening(v) + ShowElems(Facts(v)) + r.tail
  {
    hide ShowElems; hide ShowMembers; hide ShowUnits; hide Separator; hide ShowString;
    FactsKeyShown();
    var m := v.members;
    var arr := m.value;
    assert ShowValue(arr) == [BRACKET] + arr.lead + ShowElems(arr.elems) + [UNBRACKET];
    var name := ShowString(m.key) + m.colonGap + [COLON] + m.valueGap;
    var sep, more := Separator(m.rest.Member?, m.gap), ShowMembers(m.rest);
    MembersShown(m);
    Regroup([OPEN], v.lead, ShowString(m.key), m.colonGap, [COLON], m.valueGap, [BRACKET], arr.lead);
    Unfold([OPEN], v.lead, name, [BRACKET] + arr.lead, ShowElems(arr.elems),
           [UNBRACKET], m.after + sep + more, [CLOSE]);
    assert name + ShowValue(arr) + m.after + sep + more
        == name + (([BRACKET] + arr.lead) + ShowElems(arr.elems) + [UNBRACKET]) + (m.after + sep + more);
  }

  lemma MembersShown(m: Members)
    requires m.Member?
    ensures ShowMembers(m)
         == (ShowString(m.key) + m.colonGap + [COLON] + m.valueGap) + ShowValue(m.value) + m.after
            + Separator(m.rest.Member?, m.gap) + ShowMembers(m.rest)
  {
  }

  lemma Regroup(a: Text, b: Text, c: Text, d: Text, e: Text, f: Text, g: Text, h: Text)
    ensures a + b + (c + d + e + f) + (g + h) == a + b + c + d + e + f + g + h
  {
  }

  lemma Unfold(a: Text, b: Text, name: Text, br: Text, es: Text, un: Text, more: Text, c: Text)
    ensures a + (b + (name + (br + es + un) + more)) + c == (a + b + name + br) + es + (un + (more + c))
  {
    assert b + (name + (br + es + un) + more) == (b + name + br) + es + un + more;
    assert a + ((b + name + br) + es + un + more) == (a + b + name + br) + es + un + more;
  }

  lemma DocumentIsResponse(v: Value)
    requires IsFactsDocument(v)
    ensures ValidResponse(AsResponse(v)) && ShowResponse(AsResponse(v)) == ShowValue(v)
    ensures |Head(AsResponse(v))| + |AsResponse(v).lead| == |Opening(v)|
  {
    hide ShowValue; hide ShowElems; hide ShowEntries; hide Head; hide Opening;
    var r := AsResponse(v);
    DocumentIsValid(v);
    EntriesPrinted(Facts(v));
    DocumentParts(v);
    SeparatorsPrinted(r.lead, [], false);
    assert r.lead + Separator(false, []) == r.lead;
  }

  // ---- The round trip ----

  lemma UpToIsPrinted(v: Value, m: nat)
    requires IsFactsDocument(v) && m < |Elements(Facts(v))|
    ensures UpTo(v, m) <= ShowValue(v)
    ensures m < |AsResponse(v).entries| && EndOf(AsResponse(v), m) == |UpTo(v, m)|
  {
    hide ShowValue; hide ShowElems; hide Opening; hide Head; hide ShowEntries; hide Before; hide ShowResponse;
    hide IsFactsDocument; hide EntriesOf; hide ValidResponse;
    var es := Facts(v);
    var entries := EntriesOf(es);
    DocumentIsValid(v);
    EntriesPrinted(es);
    BeforeIsPrinted(es, m);
    DocumentParts(v);
    DocumentIsResponse(v);
    ShowEntriesSplit(entries, m);
    var rest := entries[m].after + ShowEntries(entries[m + 1..]);
    assert ShowElems(es) == Before(es, m) + ShowValue(Elements(es)[m]) + rest;
    IsPrefix(Opening(v), Before(es, m), ShowValue(Elements(es)[m]), rest, AsResponse(v).tail);
  }

  lemma IsPrefix(a: Text, b: Text, c: Text, d: Text, e: Text)
    ensures a + b + c <= a + (b + c + d) + e && |a + b + c| == |a| + |b| + |c|
  {
    assert a + (b + c + d) + e == (a + b + c) + (d + e);
  }

  lemma {:induction false} ShowEntriesSplit(es: seq<Entry>, m: nat)
    requires m < |es|
    ensures ShowEntries(es) == ShowEntries(es[..m]) + ShowValue(es[m].obj) + (es[m].after + ShowEntries(es[m + 1..]))
  {
    hide ShowValue;
    if m == 0 {
      assert es[..0] == [];
    } else {
      ShowEntriesSplit(es[1..], m - 1);
      ShowEntriesTake(es, m);
      assert es[1..][m - 1 + 1..] == es[m + 1..];
      var head := ShowEntry(es[0]);
      assert head + (ShowEntries(es[1..][..m - 1]) + ShowValue(es[m].obj) + (es[m].after + ShowEntries(es[m + 1..])))
          == head + ShowEntries(es[1..][..m - 1]) + ShowValue(es[m].obj) + (es[m].after + ShowEntries(es[m + 1..]));
    }
  }

  /**
    For every JSON document whose first member is an array of objects named facts,
    and every cut: the scanner salvages exactly the objects whose text ends by the
    cut, in order, up to the first one the parser refuses.
   */
  lemma DocumentRoundTrip<F>(v: Value, k: nat, parse: Text -> Option<F>) returns (n: nat)
    requires IsFactsDocument(v) && k <= |ShowValue(v)|
    ensures n <= |Elements(Facts(v))|
    ensures forall m :: 0 <= m < |Elements(Facts(v))| ==>
              UpTo(v, m) <= ShowValue(v) && (m < n <==> |UpTo(v, m)| <= k)
    ensures Recover(ShowValue(v)[..k], parse) == ParseWhile(parse, Texts(Elements(Facts(v)))[..n])
  {
    hide ShowValue; hide Recover; hide ParseWhile; hide UpTo; hide EndOf; hide Complete; hide ValidResponse;
    hide AsResponse;
    hide IsFactsDocument;
    var r := AsResponse(v);
    DocumentIsResponse(v);
    SameTexts(v);
    TruncationRoundTrip(r, k, parse);
    n := Complete(r, k);
    forall m | 0 <= m < |Elements(Facts(v))|
      ensures UpTo(v, m) <= ShowValue(v) && (m < n <==> |UpTo(v, m)| <= k)
    {
      UpToIsPrinted(v, m);
    }
  }

  lemma SameTexts(v: Value)
    requires IsFactsDocument(v)
    ensures ObjectTexts(AsResponse(v).entries) == Texts(Elements(Facts(v)))
    ensures |AsResponse(v).entries| == |Elements(Facts(v))|
  {
    hide ShowValue; hide ShowEntries; hide ShowElems;
    DocumentIsValid(v);
    EntriesPrinted(Facts(v));
  }

  // ---- In characters ----

  function OneMember(key: byte, digit: byte): Value {
    Obj([], Member([Plain(key)], [], [], Scalar([digit]), [], [], NoMembers))
  }

  /** `{"facts":[{"a":1},{"b":2}]}` */
  function Example(): Value {
    Obj([], Member(FactsUnits(), [], [],
                   Arr([], Elem(OneMember(0x61, 0x31), [], [], Elem(OneMember(0x62, 0x32), [], [], NoElems))),
                   [], [], NoMembers))
  }

  lemma OneMemberShown(key: byte, digit: byte)
    ensures ShowValue(OneMember(key, digit)) == [OPEN, QUOTE, key, QUOTE, COLON, digit, CLOSE]
  {
    assert [Plain(key)][1..] == [];
    assert ShowUnits([Plain(key)]) == [key];
    var m := OneMember(key, digit).members;
    MembersShown(m);
    assert ShowMembers(m.rest) == [];
    assert ShowMembers(m) == [QUOTE, key, QUOTE, COLON, digit];
    assert OneMember(key, digit).lead + ShowMembers(m) == ShowMembers(m);
  }

  lemma ExampleIsValid()
    ensures IsFactsDocument(Example()) && Elements(Facts(Example())) == [OneMember(0x61, 0x31), OneMember(0x62, 0x32)]
  {
    var v := Example();
    assert ValidValue(OneMember(0x61, 0x31)) && ValidValue(OneMember(0x62, 0x32));
    assert ValidElems(Elem(OneMember(0x62, 0x32), [], [], NoElems));
    assert ValidValue(v.members.value);
    assert ValidMembers(v.members);
    assert Elements(Facts(v).rest) == [OneMember(0x62, 0x32)];
  }

  lemma AsciiConcat(a: string, b: string)
    ensures Ascii(a + b) == Ascii(a) + Ascii(b)
  {
  }

  lemma ExampleOpening()
    requires IsFactsDocument(Example())
    ensures Opening(Example()) == Ascii("{\"facts\":[")
    ensures Before(Facts(Example()), 0) == []
    ensures Before(Facts(Example()), 1) == ShowValue(OneMember(0x61, 0x31)) + [COMMA]
  {
    hide ShowValue; hide IsFactsDocument;
    FactsKeyShown();
    assert Before(Facts(Example()).rest, 0) == [];
  }

  lemma ExampleText()
    ensures IsFactsDocument(Example()) && |Elements(Facts(Example()))| == 2
    ensures UpTo(Example(), 0) == Ascii("{\"facts\":[" + "{\"a\":1}")
    ensures UpTo(Example(), 1) == Ascii("{\"facts\":[" + "{\"a\":1}" + "," + "{\"b\":2}")
  {
    hide ShowValue; hide IsFactsDocument; hide Elements; hide Opening; hide Before; hide Example; hide Ascii;
    var v := Example();
    ExampleIsValid();
    ExampleOpening();
    ExampleObjects();
    CommaText();
    AsciiConcat("{\"facts\":[", "{\"a\":1}");
    AsciiConcat("{\"facts\":[" + "{\"a\":1}", ",");
    AsciiConcat("{\"facts\":[" + "{\"a\":1}" + ",", "{\"b\":2}");
    JoinThree(Opening(v), ShowValue(OneMember(0x61, 0x31)), [COMMA], ShowValue(OneMember(0x62, 0x32)));
  }

  lemma JoinThree(a: Text, b: Text, c: Text, d: Text)
    ensures a + [] + b == a + b && a + (b + c) + d == a + b + c + d
  {
  }

  lemma CommaText()
    ensures Ascii(",") == [COMMA]
  {
  }

  lemma ExampleObjects()
    ensures ShowValue(OneMember(0x61, 0x31)) == Ascii("{\"a\":1}")
    ensures ShowValue(OneMember(0x62, 0x32)) == Ascii("{\"b\":2}")
  {
    hide ShowValue;
    OneMemberShown(0x61, 0x31);
    OneMemberShown(0x62, 0x32);
  }

  /** A cut response, in characters: two complete objects are salvaged, and one when the second lacks its brace. */
  lemma ExampleSalvage()
    ensures Recover(Ascii("{\"facts\":[" + "{\"a\":1}" + "," + "{\"b\":2}"), (t: Text) => Some(t))
         == [Ascii("{\"a\":1}"), Ascii("{\"b\":2}")]
    ensures Recover(Ascii("{\"facts\":[" + "{\"a\":1}" + "," + "{\"b\":2"), (t: Text) => Some(t))
         == [Ascii("{\"a\":1}")]
  {
    hide ShowValue; hide Recover; hide UpTo; hide IsFactsDocument; hide ParseWhile; hide Elements; hide Ascii;
    hide Example;
    var v := Example();
    var whole: Text -> Option<Text> := (t: Text) => Some(t);
    ExampleIsValid();
    ExampleText();
    ExampleObjects();
    var texts := Texts(Elements(Facts(v)));
    assert texts[0] == Ascii("{\"a\":1}") && texts[1] == Ascii("{\"b\":2}");
    var both, one := UpTo(v, 1), Ascii("{\"facts\":[" + "{\"a\":1}" + "," + "{\"b\":2");
    UpToIsPrinted(v, 0);
    UpToIsPrinted(v, 1);
    var n := DocumentRoundTrip(v, |both|, whole);
    assert n == 2 && ShowValue(v)[..|both|] == both && texts[..2] == [texts[0], texts[1]];
    ParseAll(whole, texts[..2], texts[..2]);
    ExampleCut();
    var m := DocumentRoundTrip(v, |one|, whole);
    assert m == 1 && texts[..1] == [texts[0]];
    assert ShowValue(v)[..|one|] == both[..|one|];
    ParseAll(whole, texts[..1], texts[..1]);
  }

  lemma ExampleCut()
    ensures var head := "{\"facts\":[" + "{\"a\":1}" + ",";
            var one, both := head + "{\"b\":2", head + "{\"b\":2}";
            && |one| == |Ascii(one)| < |both| == |Ascii(both)|
            && Ascii(both)[..|one|] == Ascii(one)
  {
    var head := "{\"facts\":[" + "{\"a\":1}" + ",";
    assert "{\"b\":2}" == "{\"b\":2" + "}";
    assert head + "{\"b\":2}" == (head + "{\"b\":2") + "}";
    AsciiConcat(head + "{\"b\":2", "}");
  }
}
