/** The salvage scanner inverts the JSON printer on every prefix of a printed response. */
module Truncation {
  import opened Common
  import opened JsonText
  import opened Salvage
  import opened SalvageCuts

  // ---- Walking over printed values ----

  /** The state after walking all of t, if no byte of t closes the object. */
  function Through(w: Walk, t: Text): Option<Walk>
    decreases |t|
  {
    if t == [] then Some(w)
    else if Closes(w, t[0]) then None
    else Through(Next(w, t[0]), t[1..])
  }

  predicate IsBrace(b: byte) { b == OPEN || b == CLOSE }

  /** Walking t, no brace is met inside a string. */
  predicate Quiet(w: Walk, t: Text)
    decreases |t|
  {
    t == [] || ((w.inString ==> !IsBrace(t[0])) && Quiet(Next(w, t[0]), t[1..]))
  }

  /** t leads from w to w2; if `calm`, without a brace inside a string. */
  predicate Leads(w: Walk, t: Text, w2: Walk, calm: bool) {
    Through(w, t) == Some(w2) && (calm ==> Quiet(w, t))
  }

  /** t is balanced when met at nesting depth d outside strings. */
  predicate Level(t: Text, d: int, calm: bool) {
    Leads(At(d), t, At(d), calm)
  }

  lemma {:induction false} LeadsConcat(w: Walk, a: Text, w1: Walk, b: Text, w2: Walk, calm: bool)
    requires Leads(w, a, w1, calm) && Leads(w1, b, w2, calm)
    ensures Leads(w, a + b, w2, calm)
    decreases |a|
  {
    if a == [] {
      assert a + b == b;
    } else {
      assert (a + b)[1..] == a[1..] + b;
      LeadsConcat(Next(w, a[0]), a[1..], w1, b, w2, calm);
    }
  }

  lemma LeadsByte(w: Walk, c: byte, calm: bool)
    requires !Closes(w, c) && (w.inString && calm ==> !IsBrace(c))
    ensures Leads(w, [c], Next(w, c), calm)
  {
    assert [c][1..] == [];
  }

  lemma {:induction false} LevelPlain(t: Text, d: int, calm: bool)
    requires forall i :: 0 <= i < |t| ==> t[i] != QUOTE && !IsBrace(t[i])
    ensures Level(t, d, calm)
  {
    if t != [] { LevelPlain(t[1..], d, calm); }
  }

  lemma LevelConcat(a: Text, b: Text, d: int, calm: bool)
    requires Level(a, d, calm) && Level(b, d, calm)
    ensures Level(a + b, d, calm)
  {
    LeadsConcat(At(d), a, At(d), b, At(d), calm);
  }

  function InString(d: int): Walk { Walk(d, true, false) }

  lemma {:induction false} HexLeads(hex: Text, d: int, calm: bool)
    requires forall i :: 0 <= i < |hex| ==> IsHex(hex[i])
    ensures Leads(InString(d), hex, InString(d), calm)
  {
    if hex != [] { HexLeads(hex[1..], d, calm); }
  }

  lemma UnitLeads(u: Unit, d: int, calm: bool)
    requires ValidUnit(u) && (calm ==> u != Plain(OPEN) && u != Plain(CLOSE))
    ensures Leads(InString(d), ShowUnit(u), InString(d), calm)
  {
    var s := InString(d);
    var e := s.(escape := true);
    match u
    case Plain(b) =>
      LeadsByte(s, b, calm);
    case Escaped(b) =>
      LeadsByte(s, BACKSLASH, calm);
      LeadsByte(e, b, calm);
      LeadsConcat(s, [BACKSLASH], e, [b], s, calm);
    case Unicode(hex) =>
      LeadsByte(s, BACKSLASH, calm);
      LeadsByte(e, 0x75, calm);
      LeadsConcat(s, [BACKSLASH], e, [0x75], s, calm);
      HexLeads(hex, d, calm);
      LeadsConcat(s, [BACKSLASH] + [0x75], s, hex, s, calm);
  }

  lemma {:induction false} UnitsLead(us: seq<Unit>, d: int, calm: bool)
    requires ValidUnits(us) && (calm ==> BraceFreeUnits(us))
    ensures Leads(InString(d), ShowUnits(us), InString(d), calm)
  {
    if us != [] {
      var s := InString(d);
      UnitLeads(us[0], d, calm);
      UnitsLead(us[1..], d, calm);
      LeadsConcat(s, ShowUnit(us[0]), s, ShowUnits(us[1..]), s, calm);
    }
  }

  lemma StringLevel(us: seq<Unit>, d: int, calm: bool)
    requires ValidUnits(us) && (calm ==> BraceFreeUnits(us))
    ensures Level(ShowString(us), d, calm)
  {
    UnitsLead(us, d, calm);
    LeadsByte(At(d), QUOTE, calm);
    LeadsByte(InString(d), QUOTE, calm);
    LeadsConcat(At(d), [QUOTE], InString(d), ShowUnits(us), InString(d), calm);
    LeadsConcat(At(d), [QUOTE] + ShowUnits(us), InString(d), [QUOTE], At(d), calm);
  }

  lemma {:induction false} ValueLevel(v: Value, d: int, calm: bool)
    requires d >= 1 && ValidValue(v) && (calm ==> BraceFree(v))
    ensures Level(ShowValue(v), d, calm)
    decreases v, 1
  {
    match v
    case Scalar(text) => LevelPlain(text, d, calm);
    case Str(units) => StringLevel(units, d, calm);
    case Arr(lead, elems) =>
      ElemsLevel(elems, d, calm);
      LevelPlain([BRACKET], d, calm);
      LevelPlain(lead, d, calm);
      LevelPlain([UNBRACKET], d, calm);
      LevelConcat([BRACKET], lead, d, calm);
      LevelConcat([BRACKET] + lead, ShowElems(elems), d, calm);
      LevelConcat([BRACKET] + lead + ShowElems(elems), [UNBRACKET], d, calm);
    case Obj(lead, members) =>
      BodyLevel(lead, members, d + 1, calm);
      var body := lead + ShowMembers(members);
      LeadsByte(At(d), OPEN, calm);
      LeadsByte(At(d + 1), CLOSE, calm);
      LeadsConcat(At(d), [OPEN], At(d + 1), body, At(d + 1), calm);
      LeadsConcat(At(d), [OPEN] + body, At(d + 1), [CLOSE], At(d), calm);
  }

  lemma {:induction false} BodyLevel(lead: Text, members: Members, d: int, calm: bool)
    requires d >= 1 && Spaces(lead) && ValidMembers(members) && (calm ==> BraceFreeMembers(members))
    ensures Level(lead + ShowMembers(members), d, calm)
    decreases members, 1
  {
    MembersLevel(members, d, calm);
    LevelPlain(lead, d, calm);
    LevelConcat(lead, ShowMembers(members), d, calm);
  }

  lemma {:induction false} ElemsLevel(es: Elems, d: int, calm: bool)
    requires d >= 1 && ValidElems(es) && (calm ==> BraceFreeElems(es))
    ensures Level(ShowElems(es), d, calm)
    decreases es, 0
  {
    match es
    case NoElems =>
    case Elem(v, after, gap, rest) =>
      var sep := Separator(rest.Elem?, gap);
      ValueLevel(v, d, calm);
      ElemsLevel(rest, d, calm);
      LevelPlain(after, d, calm);
      LevelPlain(sep, d, calm);
      LevelConcat(ShowValue(v), after, d, calm);
      LevelConcat(ShowValue(v) + after, sep, d, calm);
      LevelConcat(ShowValue(v) + after + sep, ShowElems(rest), d, calm);
  }

  lemma {:induction false} MembersLevel(ms: Members, d: int, calm: bool)
    requires d >= 1 && ValidMembers(ms) && (calm ==> BraceFreeMembers(ms))
    ensures Level(ShowMembers(ms), d, calm)
    decreases ms, 0
  {
    match ms
    case NoMembers =>
    case Member(key, colonGap, valueGap, v, after, gap, rest) =>
      var name := ShowString(key) + colonGap + [COLON] + valueGap;
      NameLevel(key, colonGap, valueGap, d, calm);
      var sep := Separator(rest.Member?, gap);
      ValueLevel(v, d, calm);
      MembersLevel(rest, d, calm);
      LevelPlain(after, d, calm);
      LevelPlain(sep, d, calm);
      LevelConcat(name, ShowValue(v), d, calm);
      LevelConcat(name + ShowValue(v), after, d, calm);
      LevelConcat(name + ShowValue(v) + after, sep, d, calm);
      LevelConcat(name + ShowValue(v) + after + sep, ShowMembers(rest), d, calm);
  }

  lemma NameLevel(key: seq<Unit>, colonGap: Text, valueGap: Text, d: int, calm: bool)
    requires ValidUnits(key) && (calm ==> BraceFreeUnits(key)) && Spaces(colonGap) && Spaces(valueGap)
    ensures Level(ShowString(key) + colonGap + [COLON] + valueGap, d, calm)
  {
    StringLevel(key, d, calm);
    LevelPlain(colonGap, d, calm);
    LevelPlain([COLON], d, calm);
    LevelPlain(valueGap, d, calm);
    LevelConcat(ShowString(key), colonGap, d, calm);
    LevelConcat(ShowString(key) + colonGap, [COLON], d, calm);
    LevelConcat(ShowString(key) + colonGap + [COLON], valueGap, d, calm);
  }

  // ---- One printed object inside a text ----

  lemma OccursTail(s: Text, t: Text, i: nat)
    requires t != [] && Occurs(s, t, i)
    ensures s[i] == t[0] && Occurs(s, t[1..], i + 1)
  {
    assert t[0] == s[i + 0];
    assert forall d :: 0 <= d < |t| - 1 ==> t[1..][d] == t[d + 1];
  }

  lemma OccursParts(s: Text, a: Text, b: Text, i: nat)
    ensures Occurs(s, a + b, i) <==> Occurs(s, a, i) && Occurs(s, b, i + |a|)
  {
    var t := a + b;
    if Occurs(s, t, i) {
      assert forall d :: 0 <= d < |a| ==> a[d] == t[d];
      assert forall d :: 0 <= d < |b| ==> b[d] == t[|a| + d];
    }
  }

  lemma OccursSelf(s: Text)
    ensures Occurs(s, s, 0)
  {
  }

  lemma OccursSlice(s: Text, t: Text, i: nat)
    requires Occurs(s, t, i)
    ensures s[i..i + |t|] == t
  {
  }

  lemma {:induction false} EndThrough(s: Text, i: nat, w: Walk, t: Text, w2: Walk)
    requires Occurs(s, t, i) && Through(w, t) == Some(w2)
    ensures ObjectEnd(s, i, w) == ObjectEnd(s, i + |t|, w2)
    decreases |t|
  {
    if t != [] {
      OccursTail(s, t, i);
      EndThrough(s, i + 1, Next(w, s[i]), t[1..], w2);
    }
  }

  predicate ValidObject(v: Value) { v.Obj? && ValidValue(v) }

  /** What a printed object is made of: its opening brace, a level body, its closing brace. */
  lemma ObjectParts(s: Text, i: nat, v: Value) returns (body: Text)
    requires v.Obj? && Occurs(s, ShowValue(v), i)
    ensures body == v.lead + ShowMembers(v.members) && |ShowValue(v)| == |body| + 2
    ensures s[i] == OPEN && Occurs(s, body, i + 1) && s[i + 1 + |body|] == CLOSE
  {
    body := v.lead + ShowMembers(v.members);
    assert ShowValue(v) == [OPEN] + body + [CLOSE];
    OccursParts(s, [OPEN] + body, [CLOSE], i);
    OccursParts(s, [OPEN], body, i);
    OccursTail(s, [OPEN], i);
    OccursTail(s, [CLOSE], i + 1 + |body|);
  }

  lemma PrintedObjectEnds(s: Text, i: nat, v: Value)
    requires ValidObject(v) && Occurs(s, ShowValue(v), i)
    ensures s[i] == OPEN && ObjectEnd(s, i, At(0)) == Some(i + |ShowValue(v)|)
  {
    var body := ObjectParts(s, i, v);
    BodyLevel(v.lead, v.members, 1, false);
    EndThrough(s, i + 1, At(1), body, At(1));
  }

  lemma FirstPrintedObject(s: Text, i: nat, v: Value)
    requires ValidObject(v) && Occurs(s, ShowValue(v), i)
    ensures FirstObject(s, i) == Some(Extent(i, i + |ShowValue(v)|))
    ensures s[i..i + |ShowValue(v)|] == ShowValue(v)
  {
    hide ShowValue; hide ObjectEnd;
    PrintedObjectEnds(s, i, v);
    OccursSlice(s, ShowValue(v), i);
    assert !IsSeparator(OPEN);
  }

  // ---- Printed responses ----

  /** An object of the facts array and the separators written after it. */
  datatype Entry = Entry(obj: Value, after: Text)

  /** `{ "facts" : [ ... tail`, with any whitespace, separators and tail. */
  datatype Response = Response(
    gap0: Text, gap1: Text, gap2: Text, lead: Text, entries: seq<Entry>, tail: Text)

  /** White space and commas. */
  predicate Separators(t: Text) {
    forall i :: 0 <= i < |t| ==> t[i] in {0x20, 0x09, 0x0A, 0x0C, 0x0D, 0x2C}
  }

  predicate ValidEntries(es: seq<Entry>) {
    forall i :: 0 <= i < |es| ==> ValidObject(es[i].obj) && Separators(es[i].after)
  }

  predicate ValidResponse(r: Response) {
    && Spaces(r.gap0) && Spaces(r.gap1) && Spaces(r.gap2)
    && Separators(r.lead) && ValidEntries(r.entries)
    && (r.tail != [] ==> r.tail[0] == UNBRACKET)
  }

  function ShowEntry(e: Entry): Text { ShowValue(e.obj) + e.after }

  function ShowEntries(es: seq<Entry>): Text {
    if es == [] then [] else ShowEntry(es[0]) + ShowEntries(es[1..])
  }

  function Head(r: Response): Text {
    [OPEN] + r.gap0 + FACTS_KEY + r.gap1 + [COLON] + r.gap2 + [BRACKET]
  }

  function ShowResponse(r: Response): Text {
    Head(r) + r.lead + ShowEntries(r.entries) + r.tail
  }

  /** Where the printed text of entry i ends in the printed response. */
  function EndOf(r: Response, i: nat): nat
    requires i < |r.entries|
  {
    EntryEnd(|Head(r)| + |r.lead|, r.entries, i)
  }

  function ObjectTexts(es: seq<Entry>): (r: seq<Text>)
    ensures |r| == |es| && forall i :: 0 <= i < |es| ==> r[i] == ShowValue(es[i].obj)
  {
    seq(|es|, i requires 0 <= i < |es| => ShowValue(es[i].obj))
  }

  lemma {:induction false} SkipAll(s: Text, i: nat, t: Text)
    requires Occurs(s, t, i) && Separators(t)
    ensures SkipSeparators(s, i) == SkipSeparators(s, i + |t|)
    decreases |t|
  {
    if t != [] {
      OccursTail(s, t, i);
      SkipAll(s, i + 1, t[1..]);
    }
  }

  lemma SkipIsIdempotent(s: Text, i: nat, j: nat)
    requires i <= |s| && j <= |s| && SkipSeparators(s, i) == SkipSeparators(s, j)
    ensures FirstObject(s, i) == FirstObject(s, j) && Objects(s, i) == Objects(s, j)
  {
  }

  /** The printed entries es stand at i in s, and an array end or nothing follows them. */
  predicate EntriesAt(s: Text, i: nat, es: seq<Entry>) {
    var j := i + |ShowEntries(es)|;
    Occurs(s, ShowEntries(es), i) && (j < |s| ==> s[j] == UNBRACKET)
  }

  lemma FirstEntryAt(s: Text, i: nat, es: seq<Entry>) returns (hi: nat, next: nat)
    requires es != [] && EntriesAt(s, i, es)
    ensures hi == i + |ShowValue(es[0].obj)| && Occurs(s, ShowValue(es[0].obj), i)
    ensures next == hi + |es[0].after| && Occurs(s, es[0].after, hi)
    ensures EntriesAt(s, next, es[1..]) && next + |ShowEntries(es[1..])| == i + |ShowEntries(es)|
    ensures next == i + |ShowEntry(es[0])| && next <= |s|
  {
    var a, b, c := ShowValue(es[0].obj), es[0].after, ShowEntries(es[1..]);
    assert ShowEntries(es) == (a + b) + c;
    hi := i + |a|;
    next := hi + |b|;
    OccursParts(s, a + b, c, i);
    OccursParts(s, a, b, i);
  }

  lemma ShowEntriesTake(es: seq<Entry>, m: nat)
    requires 0 < m <= |es|
    ensures ShowEntries(es[..m]) == ShowEntry(es[0]) + ShowEntries(es[1..][..m - 1])
  {
    assert es[..m][1..] == es[1..][..m - 1];
  }

  /** Where object m of the entries ends, when they are printed from i on. */
  function EntryEnd(i: nat, es: seq<Entry>, m: nat): nat
    requires m < |es|
  {
    i + |ShowEntries(es[..m])| + |ShowValue(es[m].obj)|
  }

  lemma EntryEndRest(i: nat, es: seq<Entry>, m: nat)
    requires 0 < m < |es|
    ensures EntryEnd(i, es, m) == EntryEnd(i + |ShowEntry(es[0])|, es[1..], m - 1)
  {
    hide ShowValue;
    ShowEntriesTake(es, m);
  }

  /** The first n objects of es, printed from i on, are those that end by k. */
  predicate EndBy(i: nat, es: seq<Entry>, k: nat, n: nat) {
    n <= |es| && forall m :: 0 <= m < |es| ==> (m < n <==> EntryEnd(i, es, m) <= k)
  }

  lemma EndByFirst(i: nat, es: seq<Entry>, k: nat, n: nat)
    requires es != [] && n <= |es| - 1
    requires i + |ShowValue(es[0].obj)| <= k ==> EndBy(i + |ShowEntry(es[0])|, es[1..], k, n)
    ensures EndBy(i, es, k, if i + |ShowValue(es[0].obj)| <= k then n + 1 else 0)
  {
    hide ShowValue;
    forall m | 0 < m < |es| ensures EntryEnd(i, es, m) == EntryEnd(i + |ShowEntry(es[0])|, es[1..], m - 1) {
      EntryEndRest(i, es, m);
    }
  }

  lemma NoObject(s: Text, i: nat)
    requires i == |s| || (i < |s| && s[i] == UNBRACKET)
    ensures FirstObject(s, i).None?
  {
  }

  /** Scanning printed entries yields their texts, each ending where it was printed. */
  lemma {:induction false} PrintedEntries(s: Text, i: nat, es: seq<Entry>, k: nat)
    requires ValidEntries(es) && EntriesAt(s, i, es)
    ensures Objects(s, i) == ObjectTexts(es)
    ensures EndBy(i, es, k, Survivors(s, k, i))
    decreases |es|
  {
    hide ObjectEnd; hide SkipSeparators; hide FirstObject; hide ShowValue; hide ShowEntries; hide EndBy; hide EntriesAt;
    hide Objects; hide Survivors; hide ObjectTexts; hide Separators;
    assert i <= |s| by { AtSomePlace(s, i, es); }
    ObjectsUnfold(s, i, k);
    if es == [] {
      assert i == |s| || (i < |s| && s[i] == UNBRACKET) by { AtEnd(s, i); }
      NoObject(s, i);
      NoneEnd(i, k);
      ObjectTextsNone();
    } else {
      var rest := es[1..];
      var hi, next := FirstEntryAt(s, i, es);
      FirstPrintedObject(s, i, es[0].obj);
      SkipAll(s, hi, es[0].after);
      SkipIsIdempotent(s, hi, next);
      PrintedEntries(s, next, rest, k);
      SurvivorsSkip(s, k, hi, next);
      ObjectTextsUnfold(es);
      assert Survivors(s, k, hi) <= |rest| by { EndByBound(next, rest, k, Survivors(s, k, next)); }
      EndByFirst(i, es, k, Survivors(s, k, hi));
    }
  }

  lemma ObjectTextsNone()
    ensures ObjectTexts([]) == []
  {
  }

  lemma ObjectTextsUnfold(es: seq<Entry>)
    requires es != []
    ensures ObjectTexts(es) == [ShowValue(es[0].obj)] + ObjectTexts(es[1..])
  {
  }

  lemma AtSomePlace(s: Text, i: nat, es: seq<Entry>)
    requires EntriesAt(s, i, es)
    ensures i <= |s|
  {
  }

  lemma AtEnd(s: Text, i: nat)
    requires EntriesAt(s, i, [])
    ensures i == |s| || (i < |s| && s[i] == UNBRACKET)
  {
  }

  lemma NoneEnd(i: nat, k: nat)
    ensures EndBy(i, [], k, 0)
  {
  }

  lemma EndByBound(i: nat, es: seq<Entry>, k: nat, n: nat)
    requires EndBy(i, es, k, n)
    ensures n <= |es|
  {
  }

  lemma SurvivorsSkip(s: Text, k: nat, i: nat, j: nat)
    requires i <= |s| && j <= |s| && FirstObject(s, i) == FirstObject(s, j)
    ensures Survivors(s, k, i) == Survivors(s, k, j)
  {
  }

  // ---- Finding the array of a printed response ----

  lemma NoKeyBefore(r: Response, s: Text, j: nat)
    requires ValidResponse(r) && Occurs(s, [OPEN] + r.gap0, 0) && j <= |r.gap0|
    ensures !Occurs(s, FACTS_KEY, j)
  {
    assert ([OPEN] + r.gap0)[j] == s[j];
    assert FACTS_KEY[0] == QUOTE;
  }

  /** Between the key and the array there is no bracket. */
  function Middle(r: Response): Text { FACTS_KEY + r.gap1 + [COLON] + r.gap2 }

  lemma NoBracketBefore(r: Response, s: Text, i: nat, j: nat)
    requires ValidResponse(r) && Occurs(s, Middle(r), i) && i <= j < i + |Middle(r)|
    ensures !Occurs(s, [BRACKET], j)
  {
    assert Middle(r)[j - i] == s[j];
    assert [BRACKET][0] == BRACKET;
  }

  lemma FindIs(t: Text, pat: Text, from: nat, i: nat)
    requires from <= i && Occurs(t, pat, i) && forall j :: from <= j < i ==> !Occurs(t, pat, j)
    ensures Find(t, pat, from) == Some(i)
  {
    FindIsFirst(t, pat, from);
    assert Occurs(t, pat, i);
  }

  /** The parts of a printed response stand where the scanner looks for them. */
  lemma Layout(r: Response, s: Text)
    requires ValidResponse(r) && s == ShowResponse(r)
    ensures Occurs(s, [OPEN] + r.gap0, 0) && Occurs(s, Middle(r), 1 + |r.gap0|)
    ensures Occurs(s, FACTS_KEY, 1 + |r.gap0|) && Occurs(s, [BRACKET], |Head(r)| - 1)
    ensures |Head(r)| == 2 + |r.gap0| + |Middle(r)|
    ensures Occurs(s, r.lead, |Head(r)|) && EntriesAt(s, |Head(r)| + |r.lead|, r.entries)
    ensures Occurs(s, r.tail, |Head(r)| + |r.lead| + |ShowEntries(r.entries)|)
    ensures |s| == |Head(r)| + |r.lead| + |ShowEntries(r.entries)| + |r.tail|
  {
    hide ShowEntries; hide ShowValue; hide Occurs; hide EntriesAt;
    var h, e := Head(r), ShowEntries(r.entries);
    var a, m := [OPEN] + r.gap0, Middle(r);
    assert h == a + m + [BRACKET];
    assert m == FACTS_KEY + (r.gap1 + [COLON] + r.gap2);
    assert Occurs(s, s, 0) by { OccursSelf(s); }
    OccursParts(s, h + r.lead + e, r.tail, 0);
    OccursParts(s, h + r.lead, e, 0);
    OccursParts(s, h, r.lead, 0);
    OccursParts(s, a + m, [BRACKET], 0);
    OccursParts(s, a, m, 0);
    OccursParts(s, FACTS_KEY, r.gap1 + [COLON] + r.gap2, |a|);
    if r.tail != [] { OccursTail(s, r.tail, |h| + |r.lead| + |e|); }
    EntriesThere(s, |h| + |r.lead|, r.entries);
  }

  lemma EntriesThere(s: Text, i: nat, es: seq<Entry>)
    requires var j := i + |ShowEntries(es)|; Occurs(s, ShowEntries(es), i) && (j < |s| ==> s[j] == UNBRACKET)
    ensures EntriesAt(s, i, es)
  {
  }

  lemma PrintedArrayStart(r: Response)
    requires ValidResponse(r)
    ensures ArrayStart(ShowResponse(r)) == Some(|Head(r)|)
  {
    var s := ShowResponse(r);
    Layout(r, s);
    LaidOutArrayStart(r, s);
  }

  lemma LaidOutArrayStart(r: Response, s: Text)
    requires ValidResponse(r)
    requires Occurs(s, [OPEN] + r.gap0, 0) && Occurs(s, Middle(r), 1 + |r.gap0|)
    requires Occurs(s, FACTS_KEY, 1 + |r.gap0|) && Occurs(s, [BRACKET], |Head(r)| - 1)
    requires |Head(r)| == 2 + |r.gap0| + |Middle(r)|
    ensures ArrayStart(s) == Some(|Head(r)|)
  {
    var i := 1 + |r.gap0|;
    var j := |Head(r)| - 1;
    forall x | 0 <= x < i ensures !Occurs(s, FACTS_KEY, x) { NoKeyBefore(r, s, x); }
    FindIs(s, FACTS_KEY, 0, i);
    forall x | i <= x < j ensures !Occurs(s, [BRACKET], x) { NoBracketBefore(r, s, i, x); }
    FindIs(s, [BRACKET], i, j);
  }

  // ---- The round trip ----

  /** How many entries of the response are printed completely in its first k bytes. */
  function Complete(r: Response, k: nat): nat
    requires ValidResponse(r)
  {
    PrintedArrayStart(r);
    Survivors(ShowResponse(r), k, |Head(r)|)
  }

  lemma PrintedObjects(r: Response, k: nat)
    requires ValidResponse(r)
    ensures Objects(ShowResponse(r), |Head(r)|) == ObjectTexts(r.entries)
    ensures Complete(r, k) <= |r.entries|
    ensures forall i :: 0 <= i < |r.entries| ==> (i < Complete(r, k) <==> EndOf(r, i) <= k)
  {
    hide ShowResponse; hide ShowEntries; hide ShowValue; hide ObjectEnd; hide SkipSeparators; hide FirstObject;
    hide Occurs;
    var s := ShowResponse(r);
    var h := |Head(r)|;
    var i := h + |r.lead|;
    Layout(r, s);
    SkipAll(s, h, r.lead);
    SkipIsIdempotent(s, h, i);
    SurvivorsSkip(s, k, h, i);
    PrintedEntries(s, i, r.entries, k);
  }

  /**
    Cut a printed response anywhere: the scanner returns the facts of exactly the
    objects whose text ends at or before the cut, in order, up to the first one
    the parser refuses.
   */
  lemma TruncationRoundTrip<F>(r: Response, k: nat, parse: Text -> Option<F>)
    requires ValidResponse(r) && k <= |ShowResponse(r)|
    ensures Complete(r, k) <= |r.entries|
    ensures forall i :: 0 <= i < |r.entries| ==> (i < Complete(r, k) <==> EndOf(r, i) <= k)
    ensures Recover(ShowResponse(r)[..k], parse) == ParseWhile(parse, ObjectTexts(r.entries)[..Complete(r, k)])
  {
    var s := ShowResponse(r);
    PrintedArrayStart(r);
    PrintedObjects(r, k);
    RecoverCut(s, k, parse);
    if k < |Head(r)| && r.entries != [] {
      assert EndOf(r, 0) > k;
    }
  }

  lemma {:induction false} ParseAll<F>(parse: Text -> Option<F>, texts: seq<Text>, facts: seq<F>)
    requires |texts| == |facts| && forall i :: 0 <= i < |texts| ==> parse(texts[i]) == Some(facts[i])
    ensures ParseWhile(parse, texts) == facts
  {
    if texts != [] { ParseAll(parse, texts[1..], facts[1..]); }
  }

  /** When every object is a fact, the salvage is exactly the facts that were completed. */
  lemma SalvagedFacts<F>(r: Response, facts: seq<F>, k: nat, parse: Text -> Option<F>)
    requires ValidResponse(r) && k <= |ShowResponse(r)| && |facts| == |r.entries|
    requires forall i :: 0 <= i < |facts| ==> parse(ShowValue(r.entries[i].obj)) == Some(facts[i])
    ensures Complete(r, k) <= |facts| && Recover(ShowResponse(r)[..k], parse) == facts[..Complete(r, k)]
  {
    TruncationRoundTrip(r, k, parse);
    ParseAll(parse, ObjectTexts(r.entries)[..Complete(r, k)], facts[..Complete(r, k)]);
  }
}
