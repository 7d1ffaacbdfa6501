/**
  The second salvage scanner, in the Python worker. It counts braces without
  regard to strings, skips objects that do not parse instead of stopping, and
  reads past the end of the array.
 */
module PythonSalvage {
  import opened Common
  import opened JsonText
  import opened Salvage
  import opened SalvageCuts
  import opened Truncation

  /** The texts the scanner hands to the parser, from s[i] on with `depth` and `buf` as they are. */
  function Buffers(s: Text, i: nat, depth: int, buf: Text): seq<Text>
    decreases |s| - i
  {
    if i >= |s| then []
    else
      var d := if s[i] == OPEN then depth + 1 else depth;
      var b := if d > 0 then buf + [s[i]] else buf;
      if s[i] == CLOSE && d == 1 && b != [] then [b] + Buffers(s, i + 1, 0, [])
      else Buffers(s, i + 1, if s[i] == CLOSE then d - 1 else d, b)
  }

  function Accepted<F>(parse: Text -> Option<F>, texts: seq<Text>): seq<F> {
    if texts == [] then []
    else (match parse(texts[0]) case None => [] case Some(f) => [f]) + Accepted(parse, texts[1..])
  }

  /** The texts found after the `[` of the facts array. */
  function PythonObjects(s: Text): seq<Text> {
    match ArrayStart(s)
    case None => []
    case Some(p) => Buffers(s, p, 0, [])
  }

  /** Every one of them that the parser takes. */
  function PythonRecover<F>(s: Text, parse: Text -> Option<F>): seq<F> {
    Accepted(parse, PythonObjects(s))
  }

  lemma AcceptedMore<F>(parse: Text -> Option<F>, facts: seq<F>, texts: seq<Text>, all: seq<F>)
    requires texts != [] && facts + Accepted(parse, texts) == all
    ensures (match parse(texts[0]) case None => facts case Some(f) => facts + [f]) + Accepted(parse, texts[1..]) == all
  {
  }

  method SalvageElements<F>(s: Text, parse: Text -> Option<F>) returns (facts: seq<F>)
    ensures facts == PythonRecover(s, parse)
  {
    facts := [];
    var start := ArrayStart(s);
    if start.None? { return; }
    var depth := 0;
    var buf: Text := [];
    ghost var all := PythonRecover(s, parse);
    ghost var rest := Buffers(s, start.value, depth, buf);
    for i := start.value to |s|
      invariant rest == Buffers(s, i, depth, buf)
      invariant facts + Accepted(parse, rest) == all
    {
      var ch := s[i];
      if ch == OPEN {
        depth := depth + 1;
      }
      if depth > 0 {
        buf := buf + [ch];
      }
      if ch == CLOSE {
        depth := depth - 1;
        if depth == 0 && buf != [] {
          assert rest == [buf] + Buffers(s, i + 1, 0, []);
          AcceptedMore(parse, facts, rest, all);
          var parsed := parse(buf);
          if parsed.Some? {
            facts := facts + [parsed.value];
          }
          buf := [];
          rest := rest[1..];
        }
      }
    }
  }

  // ---- Counting braces ----

  function Step(c: byte): int { if c == OPEN then 1 else if c == CLOSE then -1 else 0 }

  /** Opening minus closing braces in s[i..j], strings and all. */
  function Delta(s: Text, i: nat, j: nat): int
    requires i <= j <= |s|
  {
    if i == j then 0 else Delta(s, i, j - 1) + Step(s[j - 1])
  }

  lemma {:induction false} DeltaSplit(s: Text, i: nat, m: nat, j: nat)
    requires i <= m <= j <= |s|
    ensures Delta(s, i, j) == Delta(s, i, m) + Delta(s, m, j)
    decreases j
  {
    if m < j { DeltaSplit(s, i, m, j - 1); }
  }

  lemma {:induction false} DeltaIn(s: Text, t: Text, i: nat, j: nat)
    requires Occurs(s, t, i) && j <= |t|
    ensures Delta(s, i, i + j) == Delta(t, 0, j)
    decreases j
  {
    if j > 0 {
      DeltaIn(s, t, i, j - 1);
      assert t[j - 1] == s[i + (j - 1)];
    }
  }

  /** The braces of the text balance at its end and not before. */
  predicate Counted(v: Text) {
    Delta(v, 0, |v|) == 0 && forall j :: 0 < j < |v| ==> Delta(v, 0, j) >= 1
  }

  /** From depth d at i on, no closing brace brings the count to 0. */
  predicate NeverCloses(s: Text, i: nat, d: int) {
    forall j :: i < j <= |s| && s[j - 1] == CLOSE ==> d + Delta(s, i, j) != 0
  }

  lemma DeltaFirst(s: Text, i: nat, j: nat)
    requires i < j <= |s|
    ensures Delta(s, i, j) == Step(s[i]) + Delta(s, i + 1, j)
  {
    DeltaSplit(s, i, i + 1, j);
    assert Delta(s, i, i) == 0;
  }

  lemma NeverClosesStep(s: Text, i: nat, d: int)
    requires i < |s|
    ensures NeverCloses(s, i, d) <==> !(s[i] == CLOSE && d == 1) && NeverCloses(s, i + 1, d + Step(s[i]))
  {
    hide Delta;
    assert Delta(s, i, i + 1) == Step(s[i]) by { DeltaFirst(s, i, i + 1); DeltaNone(s, i + 1); }
    if NeverCloses(s, i, d) {
      var n := i + 1;
      forall j | n < j <= |s| && s[j - 1] == CLOSE ensures d + Step(s[i]) + Delta(s, n, j) != 0 { DeltaFirst(s, i, j); }
    }
    if !(s[i] == CLOSE && d == 1) && NeverCloses(s, i + 1, d + Step(s[i])) {
      forall j | i < j <= |s| && s[j - 1] == CLOSE ensures d + Delta(s, i, j) != 0 {
        if j > i + 1 { DeltaFirst(s, i, j); }
      }
    }
  }

  lemma DeltaNone(s: Text, i: nat)
    requires i <= |s|
    ensures Delta(s, i, i) == 0
  {
  }

  /** No buffer is filled from i on if and only if no closing brace brings the count to 0. */
  lemma {:induction false} NoBuffers(s: Text, i: nat, d: int, buf: Text)
    requires i <= |s| && (buf == [] <==> d <= 0)
    ensures Buffers(s, i, d, buf) == [] <==> NeverCloses(s, i, d)
    decreases |s| - i
  {
    if i < |s| {
      NeverClosesStep(s, i, d);
      if !(s[i] == CLOSE && d == 1) {
        var e := d + Step(s[i]);
        NoBuffers(s, i + 1, e, if e > 0 || d > 0 then buf + [s[i]] else buf);
      }
    }
  }

  /** With a buffer open, the next text found ends where the count first comes to 0. */
  lemma {:induction false} FirstBuffer(s: Text, i: nat, d: int, buf: Text) returns (b: nat)
    requires i <= |s| && d >= 1 && buf != []
    ensures Buffers(s, i, d, buf) == [] ==> forall j :: i < j <= |s| ==> d + Delta(s, i, j) >= 1
    ensures Buffers(s, i, d, buf) != [] ==>
              && i < b <= |s| && d + Delta(s, i, b) == 0
              && (forall j :: i < j < b ==> d + Delta(s, i, j) >= 1)
              && Buffers(s, i, d, buf) == [buf + s[i..b]] + Buffers(s, b, 0, [])
    decreases |s| - i
  {
    hide Delta; hide Buffers;
    BuffersUnfold(s, i, d, buf);
    b := i;
    if i < |s| {
      forall j | i < j <= |s| ensures Delta(s, i, j) == Step(s[i]) + Delta(s, i + 1, j) { DeltaFirst(s, i, j); }
      DeltaNone(s, i + 1);
      if s[i] == CLOSE && d == 1 {
        b := i + 1;
        assert s[i..b] == [s[i]];
      } else {
        b := FirstBuffer(s, i + 1, d + Step(s[i]), buf + [s[i]]);
        if i + 1 < b <= |s| { assert buf + [s[i]] + s[i + 1..b] == buf + s[i..b]; }
      }
    }
  }

  lemma BuffersUnfold(s: Text, i: nat, d: int, buf: Text)
    requires d >= 1 && buf != []
    ensures Buffers(s, i, d, buf)
         == if i >= |s| then []
            else if s[i] == CLOSE && d == 1 then [buf + [s[i]]] + Buffers(s, i + 1, 0, [])
            else Buffers(s, i + 1, d + Step(s[i]), buf + [s[i]])
  {
  }

  lemma DeltaAfterOpen(s: Text, i: nat, v: Text, n: nat)
    requires v != [] && v[0] == OPEN && Occurs(s, v, i) && n == i + 1
    ensures forall x :: i < x <= i + |v| ==> Delta(v, 0, x - i) == 1 + Delta(s, n, x)
  {
    hide Delta;
    OccursTail(s, v, i);
    forall x | i < x <= i + |v| ensures Delta(v, 0, x - i) == 1 + Delta(s, n, x) {
      DeltaIn(s, v, i, x - i);
      DeltaFirst(s, i, x);
    }
  }

  /** A text that opens with a brace and whose braces count out is the next one found. */
  lemma CountedIsFound(s: Text, i: nat, v: Text)
    requires v != [] && v[0] == OPEN && Occurs(s, v, i) && Counted(v)
    ensures Buffers(s, i, 0, []) == [v] + Buffers(s, i + |v|, 0, [])
  {
    hide Delta; hide Buffers;
    OccursTail(s, v, i);
    OpenBuffer(s, i);
    var b := FirstBuffer(s, i + 1, 1, [OPEN]);
    var n := i + 1;
    DeltaAfterOpen(s, i, v, n);
    DeltaNone(s, i + 1);
    forall x | i < x < i + |v| ensures 1 + Delta(s, n, x) >= 1 { assert Delta(v, 0, x - i) >= 1; }
    assert 1 + Delta(s, i + 1, i + |v|) == 0 by { assert Delta(v, 0, i + |v| - i) == 0; }
    assert b == i + |v|;
    OccursSlice(s, v, i);
    assert [OPEN] + s[i + 1..b] == s[i..b];
  }

  /** And a printed text that is found counts out. */
  lemma FoundIsCounted(s: Text, i: nat, v: Text)
    requires v != [] && v[0] == OPEN && Occurs(s, v, i)
    requires Buffers(s, i, 0, []) != [] && Buffers(s, i, 0, [])[0] == v
    ensures Counted(v)
  {
    hide Delta; hide Buffers;
    OccursTail(s, v, i);
    OpenBuffer(s, i);
    var b := FirstBuffer(s, i + 1, 1, [OPEN]);
    assert |[OPEN] + s[i + 1..b]| == |v|;
    var n := i + 1;
    DeltaAfterOpen(s, i, v, n);
    DeltaNone(s, i + 1);
    forall j | 0 < j < |v| ensures Delta(v, 0, j) >= 1 { assert Delta(v, 0, i + j - i) == 1 + Delta(s, i + 1, i + j); }
    assert Delta(v, 0, b - i) == 0;
  }

  lemma OpenBuffer(s: Text, i: nat)
    requires i < |s| && s[i] == OPEN
    ensures Buffers(s, i, 0, []) == Buffers(s, i + 1, 1, [OPEN])
  {
    assert [] + [OPEN] == [OPEN];
  }

  lemma {:induction false} SeparatorsNoBuffer(s: Text, i: nat, t: Text)
    requires Occurs(s, t, i) && Separators(t)
    ensures Buffers(s, i, 0, []) == Buffers(s, i + |t|, 0, [])
    decreases |t|
  {
    if t != [] {
      OccursTail(s, t, i);
      SeparatorsNoBuffer(s, i + 1, t[1..]);
    }
  }

  // ---- When the texts found are those printed ----

  predicate AllCounted(es: seq<Entry>, n: nat)
    requires n <= |es|
  {
    forall m :: 0 <= m < n ==> Counted(ShowValue(es[m].obj))
  }

  /** Where the rest begins after the first n objects of es, when sep and then es are printed from i on. */
  function RestStart(i: nat, sep: Text, es: seq<Entry>, n: nat): nat
    requires n <= |es|
  {
    if n == 0 then i else EntryEnd(i + |sep|, es, n - 1)
  }

  lemma RestStartMore(i: nat, sep: Text, es: seq<Entry>, n: nat)
    requires 0 < n <= |es|
    ensures var hi := i + |sep| + |ShowValue(es[0].obj)|;
            RestStart(i, sep, es, n) == RestStart(hi, es[0].after, es[1..], n - 1)
  {
    hide ShowValue;
    if n > 1 { EntryEndRest(i + |sep|, es, n - 1); }
  }

  lemma AllCountedMore(es: seq<Entry>, n: nat)
    requires 0 < n <= |es|
    ensures AllCounted(es, n) <==> Counted(ShowValue(es[0].obj)) && AllCounted(es[1..], n - 1)
  {
    hide ShowValue; hide Counted;
    assert forall m :: 0 < m < n ==> es[m] == es[1..][m - 1];
  }

  lemma TextsTake(es: seq<Entry>, n: nat)
    requires 0 < n <= |es|
    ensures ObjectTexts(es)[..n] == [ShowValue(es[0].obj)] + ObjectTexts(es[1..])[..n - 1]
  {
  }

  /** Sep and es are printed at i in s: the first of es, the separators after it, the rest. */
  predicate PrintedAt(s: Text, i: nat, sep: Text, es: seq<Entry>) {
    Separators(sep) && ValidEntries(es) && Occurs(s, sep, i) && EntriesAt(s, i + |sep|, es)
  }

  lemma SurvivorsPrinted(s: Text, i: nat, sep: Text, es: seq<Entry>, k: nat)
    requires PrintedAt(s, i, sep, es) && i <= k <= |s|
    ensures Survivors(s, k, i) <= |es|
    ensures es == [] ==> Survivors(s, k, i) == 0
    ensures es != [] ==>
              var hi := i + |sep| + |ShowValue(es[0].obj)|;
              && Occurs(s, ShowValue(es[0].obj), i + |sep|) && PrintedAt(s, hi, es[0].after, es[1..])
              && Survivors(s, k, i) == if hi <= k then 1 + Survivors(s, k, hi) else 0
  {
    hide ShowValue; hide FirstObject; hide ObjectTexts; hide ShowEntries; hide EntriesAt;
    var p := i + |sep|;
    SkipAll(s, i, sep);
    assert p <= |s| by { AtSomePlace(s, p, es); }
    SkipIsIdempotent(s, i, p);
    SurvivorsSkip(s, k, i, p);
    PrintedEntries(s, p, es, k);
    EndByBound(p, es, k, Survivors(s, k, p));
    if es == [] {
      AtEnd(s, p);
      NoObject(s, p);
    } else {
      var hi, next := FirstEntryAt(s, p, es);
      FirstPrintedObject(s, p, es[0].obj);
    }
  }

  /** What the brace counter needs of a response: complete objects count out, and the rest never does. */
  predicate CountsFrom(s: Text, i: nat, sep: Text, es: seq<Entry>, n: nat, k: nat)
    requires k <= |s|
  {
    n <= |es| && AllCounted(es, n) && NeverCloses(s[..k], RestStart(i, sep, es, n), 0)
  }

  lemma {:induction false} BuffersExact(s: Text, i: nat, sep: Text, es: seq<Entry>, k: nat)
    requires PrintedAt(s, i, sep, es) && i <= k <= |s|
    ensures Survivors(s, k, i) <= |es|
    ensures Buffers(s[..k], i, 0, []) == ObjectTexts(es)[..Survivors(s, k, i)]
       <==> CountsFrom(s, i, sep, es, Survivors(s, k, i), k)
    decreases |es|
  {
    hide ShowValue; hide ObjectTexts; hide Buffers; hide Counted; hide NeverCloses; hide AllCounted; hide PrintedAt;
    hide RestStart; hide Survivors;
    SurvivorsPrinted(s, i, sep, es, k);
    var n := Survivors(s, k, i);
    if n == 0 {
      NoBuffers(s[..k], i, 0, []);
      NothingComplete(i, sep, es);
    } else {
      var v := ShowValue(es[0].obj);
      var p := i + |sep|;
      var hi := p + |v|;
      BuffersExact(s, hi, es[0].after, es[1..], k);
      FirstObjectBuffers(s, i, sep, es, k);
      TextsTake(es, n);
      RestStartMore(i, sep, es, n);
      AllCountedMore(es, n);
    }
  }

  lemma NothingComplete(i: nat, sep: Text, es: seq<Entry>)
    ensures AllCounted(es, 0) && RestStart(i, sep, es, 0) == i && ObjectTexts(es)[..0] == []
  {
  }

  lemma FirstObjectBuffers(s: Text, i: nat, sep: Text, es: seq<Entry>, k: nat)
    requires es != [] && PrintedAt(s, i, sep, es) && i + |sep| + |ShowValue(es[0].obj)| <= k <= |s|
    ensures var v := ShowValue(es[0].obj);
            && (Counted(v) ==> Buffers(s[..k], i, 0, []) == [v] + Buffers(s[..k], i + |sep| + |v|, 0, []))
            && (!Counted(v) ==> Buffers(s[..k], i, 0, []) == [] || Buffers(s[..k], i, 0, [])[0] != v)
  {
    hide ShowValue; hide Buffers; hide Counted; hide ShowEntries;
    var v, p := ShowValue(es[0].obj), i + |sep|;
    var hi, next := FirstEntryAt(s, p, es);
    PrintedObjectEnds(s, p, es[0].obj);
    assert v != [] && v[0] == OPEN by { ObjectOpens(es[0].obj); }
    OccursCut(s, k, sep, i);
    OccursCut(s, k, v, p);
    SeparatorsNoBuffer(s[..k], i, sep);
    if Counted(v) {
      CountedIsFound(s[..k], p, v);
    } else if Buffers(s[..k], p, 0, []) != [] && Buffers(s[..k], p, 0, [])[0] == v {
      FoundIsCounted(s[..k], p, v);
    }
  }

  lemma ObjectOpens(v: Value)
    requires v.Obj?
    ensures |ShowValue(v)| >= 2 && ShowValue(v)[0] == OPEN
  {
  }

  /** On the first k bytes of a response, counting braces finds what walking with strings finds. */
  predicate CountsAgree(r: Response, k: nat)
    requires ValidResponse(r) && k <= |ShowResponse(r)|
  {
    |Head(r)| <= k ==> CountsFrom(ShowResponse(r), |Head(r)|, r.lead, r.entries, Complete(r, k), k)
  }

  /**
    The worker finds exactly the complete objects if and only if, with braces in
    strings counted too, each of them balances at its end and not before, and
    what follows them up to the cut never balances at a closing brace.
   */
  lemma PythonObjectsExact(r: Response, k: nat)
    requires ValidResponse(r) && k <= |ShowResponse(r)|
    ensures Complete(r, k) <= |r.entries|
    ensures PythonObjects(ShowResponse(r)[..k]) == ObjectTexts(r.entries)[..Complete(r, k)] <==> CountsAgree(r, k)
  {
    hide Buffers; hide Survivors; hide ShowResponse; hide ShowEntries; hide CountsFrom; hide ObjectTexts;
    hide ArrayStart;
    hide EntriesAt;
    var s := ShowResponse(r);
    PrintedArrayStart(r);
    PrintedObjects(r, k);
    ArrayStartCut(s, k);
    Layout(r, s);
    if |Head(r)| <= k {
      BuffersExact(s, |Head(r)|, r.lead, r.entries, k);
    } else {
      NoneSurvive(s, |Head(r)|, k);
      assert ObjectTexts(r.entries)[..0] == [];
    }
  }

  lemma NoneSurvive(s: Text, i: nat, k: nat)
    requires k <= i <= |s|
    ensures Survivors(s, k, i) == 0
  {
  }

  // ---- Strings without braces ----

  predicate BraceFreeEntries(es: seq<Entry>) {
    forall i :: 0 <= i < |es| ==> BraceFree(es[i].obj)
  }

  predicate NoOpenFrom(s: Text, i: nat) {
    forall j :: i <= j < |s| ==> s[j] != OPEN
  }

  /** While the walk is quiet, counting braces and walking with strings keep the same depth. */
  lemma {:induction false} QuietDelta(w: Walk, t: Text, w2: Walk, j: nat)
    requires w.depth >= 1 && Leads(w, t, w2, true) && j <= |t|
    ensures w.depth + Delta(t, 0, j) >= 1 && (j == |t| ==> w.depth + Delta(t, 0, j) == w2.depth)
    decreases |t|
  {
    if j > 0 {
      QuietDelta(Next(w, t[0]), t[1..], w2, j - 1);
      DeltaFirst(t, 0, j);
      assert Occurs(t, t[1..], 1);
      DeltaIn(t, t[1..], 1, j - 1);
    }
  }

  lemma BraceFreeCounts(v: Value)
    requires ValidObject(v) && BraceFree(v)
    ensures Counted(ShowValue(v))
  {
    hide Delta; hide ShowValue;
    var t := ShowValue(v);
    OccursSelf(t);
    var body := ObjectParts(t, 0, v);
    BodyLevel(v.lead, v.members, 1, true);
    forall j | 0 < j < |t| ensures Delta(t, 0, j) >= 1 {
      QuietDelta(At(1), body, At(1), j - 1);
      DeltaIn(t, body, 1, j - 1);
      DeltaFirst(t, 0, j);
    }
    QuietDelta(At(1), body, At(1), |body|);
    DeltaIn(t, body, 1, |body|);
    DeltaFirst(t, 0, |t| - 1);
    DeltaLast(t);
  }

  lemma DeltaLast(t: Text)
    requires t != []
    ensures Delta(t, 0, |t|) == Delta(t, 0, |t| - 1) + Step(t[|t| - 1])
  {
  }

  lemma {:induction false} NoOpenFalls(s: Text, i: nat, j: nat)
    requires i <= j <= |s| && forall x :: i <= x < j ==> s[x] != OPEN
    ensures Delta(s, i, j) <= 0 && (i < j && s[j - 1] == CLOSE ==> Delta(s, i, j) < 0)
    decreases j
  {
    if i < j { NoOpenFalls(s, i, j - 1); }
  }

  /** Separators and a brace-free object cut short never balance at a closing brace. */
  lemma CutObjectNeverCloses(s: Text, i: nat, sep: Text, v: Value, k: nat)
    requires Separators(sep) && Occurs(s, sep, i) && ValidObject(v) && BraceFree(v)
    requires Occurs(s, ShowValue(v), i + |sep|)
    requires i <= k < i + |sep| + |ShowValue(v)| && k <= |s|
    ensures NeverCloses(s[..k], i, 0)
  {
    hide Delta; hide ShowValue;
    var t, p, c := ShowValue(v), i + |sep|, s[..k];
    BraceFreeCounts(v);
    forall x | i <= x < p ensures s[x] != CLOSE { assert sep[x - i] == s[i + (x - i)]; }
    forall j | i < j <= k && c[j - 1] == CLOSE ensures Delta(c, i, j) != 0 {
      assert s[j - 1] == CLOSE && j > p;
      OccursCut(s, k, sep, i);
      SeparatorsDelta(c, i, sep);
      DeltaSplit(c, i, p, j);
      assert Occurs(c, t[..j - p], p) by { OccursTake(s, t, p, k, j - p); }
      DeltaIn(c, t[..j - p], p, j - p);
      assert Occurs(t, t[..j - p], 0);
      DeltaIn(t, t[..j - p], 0, j - p);
    }
  }

  lemma OccursTake(s: Text, t: Text, p: nat, k: nat, n: nat)
    requires Occurs(s, t, p) && n <= |t| && p + n <= k <= |s|
    ensures Occurs(s[..k], t[..n], p)
  {
  }

  lemma {:induction false} SeparatorsDelta(s: Text, i: nat, t: Text)
    requires Occurs(s, t, i) && Separators(t)
    ensures Delta(s, i, i + |t|) == 0
    decreases |t|
  {
    if t != [] {
      OccursTail(s, t, i);
      SeparatorsDelta(s, i + 1, t[1..]);
      DeltaFirst(s, i, i + |t|);
    }
  }

  lemma NoOpenNeverCloses(s: Text, i: nat)
    requires i <= |s| && NoOpenFrom(s, i)
    ensures NeverCloses(s, i, 0)
  {
    hide Delta;
    forall j | i < j <= |s| && s[j - 1] == CLOSE ensures Delta(s, i, j) != 0 { NoOpenFalls(s, i, j); }
  }

  lemma SeparatorsNoOpen(s: Text, i: nat, sep: Text, k: nat)
    requires Separators(sep) && Occurs(s, sep, i) && NoOpenFrom(s, i + |sep|) && i <= k <= |s|
    ensures NoOpenFrom(s[..k], i)
  {
    forall x | i <= x < k ensures s[..k][x] != OPEN {
      if x < i + |sep| { assert sep[x - i] == s[i + (x - i)]; }
    }
  }

  lemma {:induction false} BraceFreeCountsFrom(s: Text, i: nat, sep: Text, es: seq<Entry>, k: nat)
    requires PrintedAt(s, i, sep, es) && i <= k <= |s| && BraceFreeEntries(es)
    requires NoOpenFrom(s, i + |sep| + |ShowEntries(es)|)
    ensures CountsFrom(s, i, sep, es, Survivors(s, k, i), k)
    decreases |es|
  {
    hide ShowValue; hide Counted; hide NeverCloses; hide AllCounted; hide RestStart; hide Survivors; hide EntriesAt;
    SurvivorsPrinted(s, i, sep, es, k);
    var n := Survivors(s, k, i);
    if n == 0 {
      NothingComplete(i, sep, es);
      if es == [] {
        SeparatorsNoOpen(s, i, sep, k);
        NoOpenNeverCloses(s[..k], i);
      } else {
        CutObjectNeverCloses(s, i, sep, es[0].obj, k);
      }
    } else {
      var hi := i + |sep| + |ShowValue(es[0].obj)|;
      assert NoOpenFrom(s, hi + |es[0].after| + |ShowEntries(es[1..])|);
      BraceFreeCountsFrom(s, hi, es[0].after, es[1..], k);
      BraceFreeCounts(es[0].obj);
      RestStartMore(i, sep, es, n);
      AllCountedMore(es, n);
    }
  }

  /** Every cut of a printed response without braces in strings, and without an object after the array, counts out. */
  lemma BraceFreeAgrees(r: Response, k: nat)
    requires ValidResponse(r) && k <= |ShowResponse(r)| && BraceFreeEntries(r.entries) && NoOpenFrom(r.tail, 0)
    ensures CountsAgree(r, k)
  {
    hide CountsFrom; hide ShowResponse; hide ShowEntries; hide Survivors; hide EntriesAt; hide BraceFreeEntries;
    var s := ShowResponse(r);
    PrintedArrayStart(r);
    Layout(r, s);
    TailNoOpen(r, s);
    if |Head(r)| <= k { BraceFreeCountsFrom(s, |Head(r)|, r.lead, r.entries, k); }
  }

  lemma TailNoOpen(r: Response, s: Text)
    requires var j := |Head(r)| + |r.lead| + |ShowEntries(r.entries)|; Occurs(s, r.tail, j) && |s| == j + |r.tail|
    requires NoOpenFrom(r.tail, 0)
    ensures NoOpenFrom(s, |Head(r)| + |r.lead| + |ShowEntries(r.entries)|)
  {
    var j := |Head(r)| + |r.lead| + |ShowEntries(r.entries)|;
    assert forall x :: j <= x < |s| ==> r.tail[x - j] == s[x];
  }

  // ---- Agreement with the other scanner ----

  /** Where the counts agree, the worker keeps every complete object that parses. */
  lemma PythonTruncation<F>(r: Response, k: nat, parse: Text -> Option<F>)
    requires ValidResponse(r) && k <= |ShowResponse(r)| && CountsAgree(r, k)
    ensures Complete(r, k) <= |r.entries|
    ensures PythonRecover(ShowResponse(r)[..k], parse) == Accepted(parse, ObjectTexts(r.entries)[..Complete(r, k)])
  {
    hide CountsAgree; hide PythonObjects; hide ShowResponse; hide Complete; hide Accepted;
    PythonObjectsExact(r, k);
  }

  /** No text that parses comes after one that does not. */
  predicate RefusalsLast<F>(parse: Text -> Option<F>, texts: seq<Text>) {
    forall i, j :: 0 <= i < j < |texts| && parse(texts[j]).Some? ==> parse(texts[i]).Some?
  }

  lemma {:induction false} AcceptedLength<F>(parse: Text -> Option<F>, texts: seq<Text>)
    ensures |Accepted(parse, texts)| == 0 <==> forall j :: 0 <= j < |texts| ==> parse(texts[j]).None?
  {
    if texts != [] {
      AcceptedLength(parse, texts[1..]);
      assert forall j :: 1 <= j < |texts| ==> texts[j] == texts[1..][j - 1];
    }
  }

  lemma {:induction false} StopOrSkip<F>(parse: Text -> Option<F>, texts: seq<Text>)
    ensures Accepted(parse, texts) == ParseWhile(parse, texts) <==> RefusalsLast(parse, texts)
  {
    if texts != [] {
      var rest := texts[1..];
      StopOrSkip(parse, rest);
      AcceptedLength(parse, rest);
      assert forall j :: 1 <= j < |texts| ==> texts[j] == rest[j - 1];
      match parse(texts[0])
      case None =>
      case Some(f) =>
        assert Accepted(parse, texts)[1..] == Accepted(parse, rest);
        assert ParseWhile(parse, texts)[1..] == ParseWhile(parse, rest);
    }
  }

  /**
    On every cut of a printed response where the counts agree, the two scanners
    return the same facts exactly when no complete object that parses follows one
    that does not.
   */
  lemma ScannersAgree<F>(r: Response, k: nat, parse: Text -> Option<F>)
    requires ValidResponse(r) && k <= |ShowResponse(r)| && CountsAgree(r, k)
    ensures Complete(r, k) <= |r.entries|
    ensures PythonRecover(ShowResponse(r)[..k], parse) == Recover(ShowResponse(r)[..k], parse)
       <==> RefusalsLast(parse, ObjectTexts(r.entries)[..Complete(r, k)])
  {
    hide CountsAgree; hide PythonRecover; hide Recover; hide ShowResponse; hide Complete; hide Accepted;
    hide ParseWhile;
    hide RefusalsLast; hide ObjectTexts;
    PythonTruncation(r, k, parse);
    TruncationRoundTrip(r, k, parse);
    StopOrSkip(parse, ObjectTexts(r.entries)[..Complete(r, k)]);
  }

  lemma {:induction false} AcceptAll<F>(parse: Text -> Option<F>, texts: seq<Text>, facts: seq<F>)
    requires |texts| == |facts| && forall i :: 0 <= i < |texts| ==> parse(texts[i]) == Some(facts[i])
    ensures Accepted(parse, texts) == facts
  {
    if texts != [] { AcceptAll(parse, texts[1..], facts[1..]); }
  }

  /** On this cut the scanners agree under a parser. */
  ghost predicate Agree(r: Response, k: nat, parse: Text -> Option<Text>)
    requires ValidResponse(r) && k <= |ShowResponse(r)|
  {
    PythonRecover(ShowResponse(r)[..k], parse) == Recover(ShowResponse(r)[..k], parse)
  }

  /**
    The scanners agree under every parser that refuses no object before one it takes
    if and only if the counts agree.
   */
  lemma ScannersAgreeExactly(r: Response, k: nat)
    requires ValidResponse(r) && k <= |ShowResponse(r)|
    ensures Complete(r, k) <= |r.entries|
    ensures (forall parse: Text -> Option<Text> ::
              RefusalsLast(parse, ObjectTexts(r.entries)[..Complete(r, k)]) ==> Agree(r, k, parse))
       <==> CountsAgree(r, k)
  {
    hide CountsAgree; hide PythonObjects; hide Recover; hide ShowResponse; hide Complete; hide Accepted;
    hide ParseWhile;
    hide ObjectTexts; hide ValidResponse;
    PythonObjectsExact(r, k);
    var texts := ObjectTexts(r.entries)[..Complete(r, k)];
    if CountsAgree(r, k) {
      forall parse: Text -> Option<Text> | RefusalsLast(parse, texts)
        ensures Agree(r, k, parse)
      {
        ScannersAgree(r, k, parse);
      }
    } else {
      var s := ShowResponse(r)[..k];
      var whole: Text -> Option<Text> := (t: Text) => Some(t);
      TruncationRoundTrip(r, k, whole);
      ParseAll(whole, texts, texts);
      AcceptAll(whole, PythonObjects(s), PythonObjects(s));
      assert RefusalsLast(whole, texts) && !Agree(r, k, whole);
    }
  }

  // ---- A brace in a string ----

  /** `{"a":"}"}` */
  function BracedObject(): Value {
    Obj([], Member([Plain(0x61)], [], [], Str([Plain(CLOSE)]), [], [], NoMembers))
  }

  /** A response cut before its last brace. */
  function BracedResponse(): Response {
    Response([], [], [], [], [Entry(BracedObject(), [])], [UNBRACKET])
  }

  lemma BracedText()
    ensures ShowValue(BracedObject()) == [OPEN, QUOTE, 0x61, QUOTE, COLON, QUOTE, CLOSE, QUOTE, CLOSE]
    ensures ShowResponse(BracedResponse()) == Head(BracedResponse()) + ShowValue(BracedObject()) + [UNBRACKET]
  {
    var r := BracedResponse();
    assert [Plain(0x61)][1..] == [];
    assert [Plain(CLOSE)][1..] == [];
    assert r.entries[1..] == [];
    assert ShowEntries(r.entries) == ShowValue(BracedObject());
  }

  lemma BracedLayout(r: Response, s: Text)
    requires r == BracedResponse() && s == ShowResponse(r)
    ensures var h := |Head(r)|;
            |s| == h + 10 && Occurs(s, ShowValue(BracedObject()), h) && s[h + 9] == UNBRACKET && s[0] == OPEN
  {
    hide ShowEntries; hide ShowValue; hide ShowResponse;
    BracedText();
    var h, v := Head(r), ShowValue(BracedObject());
    assert s == h + v + [UNBRACKET];
    OccursSelf(s);
    OccursParts(s, h + v, [UNBRACKET], 0);
    OccursParts(s, h, v, 0);
  }

  /** The brace in the string ends the count early. */
  lemma BracedCounts(t: Text)
    requires t == [OPEN, QUOTE, 0x61, QUOTE, COLON, QUOTE, CLOSE]
    ensures Counted(t)
  {
    assert Delta(t, 0, 1) == 1;
    assert Delta(t, 0, 2) == 1;
    assert Delta(t, 0, 3) == 1;
    assert Delta(t, 0, 4) == 1;
    assert Delta(t, 0, 5) == 1;
    assert Delta(t, 0, 6) == 1;
  }

  lemma BracedBuffers(s: Text, h: nat)
    requires |s| == h + 10 && Occurs(s, ShowValue(BracedObject()), h) && s[h + 9] == UNBRACKET
    ensures Buffers(s, h, 0, []) == [ShowValue(BracedObject())[..7]]
  {
    hide Buffers; hide Delta;
    BracedText();
    var v := ShowValue(BracedObject());
    var t := v[..7];
    assert v == t + v[7..];
    OccursParts(s, t, v[7..], h);
    BracedCounts(t);
    CountedIsFound(s, h, t);
    assert v[7] == s[h + 7] && v[8] == s[h + 8];
    NoOpenNeverCloses(s, h + 7);
    NoBuffers(s, h + 7, 0, []);
  }

  lemma BracedRecovered(r: Response, parse: Text -> Option<int>)
    requires r == BracedResponse()
    requires parse(ShowValue(BracedObject())) == Some(0)
    ensures ValidResponse(r) && Recover(ShowResponse(r), parse) == [0]
  {
    var s := ShowResponse(r);
    assert ValidObject(BracedObject());
    assert s[..|s|] == s;
    TruncationRoundTrip(r, |s|, parse);
    BracedText();
    assert r.entries[..0] == [];
    assert EndOf(r, 0) <= |s|;
    assert ObjectTexts(r.entries)[..1] == [ShowValue(BracedObject())];
    ParseAll(parse, [ShowValue(BracedObject())], [0]);
  }

  /**
    A response that was cut, and so is no JSON as a whole: it opens with a brace and does
    not end with one. The brace in a string makes the worker lose a fact that is complete
    in it and that the extractor keeps.
   */
  lemma BraceInStringLosesFact(parse: Text -> Option<int>)
    requires forall t :: parse(t) == if t == ShowValue(BracedObject()) then Some(0) else None
    ensures ValidResponse(BracedResponse())
    ensures var s := ShowResponse(BracedResponse());
            && s != [] && s[0] == OPEN && s[|s| - 1] == UNBRACKET
            && Recover(s, parse) == [0] && PythonRecover(s, parse) == []
  {
    hide Buffers; hide ShowResponse; hide Recover;
    var r := BracedResponse();
    BracedRecovered(r, parse);
    PrintedArrayStart(r);
    BracedLayout(r, ShowResponse(r));
    BracedBuffers(ShowResponse(r), |Head(r)|);
    var lost := ShowValue(BracedObject())[..7];
    assert lost != ShowValue(BracedObject()) by { BracedText(); }
    assert [lost][1..] == [];
  }
}
