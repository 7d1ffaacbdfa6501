/** Stripping a markdown code fence around a response, and why it never costs a fact. */
module Fence {
  import opened Common
  import opened JsonText
  import opened Salvage
  import opened SalvageCuts

  const TICK: byte := 0x60

  /** Three backticks. */
  const FENCE: Text := [TICK, TICK, TICK]

  /** `json` */
  const JSON: Text := [0x6A, 0x73, 0x6F, 0x6E]

  /** A byte that neither opens nor closes anything the salvage scanner looks at. */
  predicate IsInert(b: byte) {
    b != QUOTE && b != OPEN && b != CLOSE && b != BRACKET
  }

  predicate Inert(t: Text) { forall i :: 0 <= i < |t| ==> IsInert(t[i]) }

  // ---- String::trim: Unicode white space in UTF-8 ----

  predicate IsSpaceChar(c: Text) {
    || (|c| == 1 && (0x09 <= c[0] <= 0x0D || c[0] == 0x20))
    || (|c| == 2 && c[0] == 0xC2 && (c[1] == 0x85 || c[1] == 0xA0))
    || (|c| == 3 && c[0] == 0xE1 && c[1] == 0x9A && c[2] == 0x80)
    || (|c| == 3 && c[0] == 0xE2 && c[1] == 0x80 && (0x80 <= c[2] <= 0x8A || c[2] in {0xA8, 0xA9, 0xAF}))
    || (|c| == 3 && c[0] == 0xE2 && c[1] == 0x81 && c[2] == 0x9F)
    || (|c| == 3 && c[0] == 0xE3 && c[1] == 0x80 && c[2] == 0x80)
  }

  /** Bytes of the white space character s starts with, 0 if with none. */
  function LeadingSpace(s: Text): (n: nat)
    ensures n <= |s| && forall i :: 0 <= i < n ==> IsInert(s[i])
  {
    if |s| >= 1 && IsSpaceChar(s[..1]) then 1
    else if |s| >= 2 && IsSpaceChar(s[..2]) then 2
    else if |s| >= 3 && IsSpaceChar(s[..3]) then 3
    else 0
  }

  /** Bytes of the white space character s ends with, 0 if with none. */
  function TrailingSpace(s: Text): (n: nat)
    ensures n <= |s| && forall i :: |s| - n <= i < |s| ==> IsInert(s[i])
  {
    var k := |s|;
    if k >= 1 && IsSpaceChar(s[k - 1..]) then 1
    else if k >= 2 && IsSpaceChar(s[k - 2..]) then 2
    else if k >= 3 && IsSpaceChar(s[k - 3..]) then 3
    else 0
  }

  function TrimStart(s: Text): Text
    decreases |s|
  {
    var n := LeadingSpace(s);
    if n > 0 then TrimStart(s[n..]) else s
  }

  function TrimEnd(s: Text): Text
    decreases |s|
  {
    var n := TrailingSpace(s);
    if n > 0 then TrimEnd(s[..|s| - n]) else s
  }

  function Trim(s: Text): Text { TrimEnd(TrimStart(s)) }

  function StripPrefix(s: Text, p: Text): Option<Text> {
    if p <= s then Some(s[|p|..]) else None
  }

  function TrimEndFences(s: Text): Text
    decreases |s|
  {
    var n := |s|;
    if n >= 3 && s[n - 3..] == FENCE then TrimEndFences(s[..n - 3]) else s
  }

  /** Without an opening fence, with or without its language. */
  function Unfenced(s: Text): Text {
    match StripPrefix(s, FENCE + JSON)
    case Some(rest) => rest
    case None =>
      match StripPrefix(s, FENCE)
      case Some(rest) => rest
      case None => s
  }

  function StripMarkdownCodeFence(s: Text): Text {
    Trim(TrimEndFences(Trim(Unfenced(Trim(s)))))
  }

  // ---- Stripping and salvage ----

  lemma InertTail(s: Text, k: nat, j: nat)
    requires k <= |s| && Inert(s[k..]) && j < |s| && !IsInert(s[j])
    ensures j < k
  {
    assert forall x :: k <= x < |s| ==> s[x] == s[k..][x - k];
  }

  lemma {:induction false} ObjectEndShift(s: Text, n: nat, i: nat, w: Walk)
    requires n <= |s| && i <= |s| - n
    ensures ObjectEnd(s, n + i, w) == Plus(n, ObjectEnd(s[n..], i, w))
    decreases |s| - n - i
  {
    if n + i < |s| && !Closes(w, s[n + i]) {
      ObjectEndShift(s, n, i + 1, Next(w, s[n + i]));
    }
  }

  lemma {:induction false} SkipShift(s: Text, n: nat, i: nat)
    requires n <= |s| && i <= |s| - n
    ensures SkipSeparators(s, n + i) == n + SkipSeparators(s[n..], i)
    decreases |s| - n - i
  {
    if n + i < |s| && IsSeparator(s[n + i]) { SkipShift(s, n, i + 1); }
  }

  lemma FirstObjectShift(s: Text, n: nat, i: nat)
    requires n <= |s| && i <= |s| - n
    ensures FirstObject(s, n + i)
         == match FirstObject(s[n..], i) case None => None case Some(x) => Some(Extent(n + x.lo, n + x.hi))
  {
    hide SkipSeparators; hide ObjectEnd;
    SkipShift(s, n, i);
    ObjectEndShift(s, n, SkipSeparators(s[n..], i), At(0));
  }

  lemma SliceShift(s: Text, n: nat, a: nat, b: nat)
    requires a <= b && n + b <= |s|
    ensures s[n..][a..b] == s[n + a..n + b]
  {
  }

  lemma {:induction false} ObjectsShift(s: Text, n: nat, i: nat)
    requires n <= |s| && i <= |s| - n
    ensures Objects(s, n + i) == Objects(s[n..], i)
    decreases |s| - n - i
  {
    hide FirstObject; hide Objects;
    FirstObjectShift(s, n, i);
    ObjectsUnfold(s, n + i, 0);
    ObjectsUnfold(s[n..], i, 0);
    var x := FirstObject(s[n..], i);
    if x.Some? {
      SliceShift(s, n, x.value.lo, x.value.hi);
      ObjectsShift(s, n, x.value.hi);
    }
  }

  lemma {:induction false} FindPastInert(s: Text, n: nat, pat: Text, i: nat)
    requires i <= n <= |s| && Inert(s[..n]) && pat != [] && !IsInert(pat[0])
    ensures Find(s, pat, i) == Find(s, pat, n)
    decreases n - i
  {
    if i < n {
      assert IsInert(s[i]) by { assert s[i] == s[..n][i]; }
      assert !Occurs(s, pat, i) by { assert pat[0] != s[i + 0]; }
      FindPastInert(s, n, pat, i + 1);
      if i + |pat| > |s| { assert Find(s, pat, n).None?; }
    }
  }

  lemma ArrayStartShift(s: Text, n: nat)
    requires n <= |s| && Inert(s[..n])
    ensures ArrayStart(s) == Plus(n, ArrayStart(s[n..]))
  {
    hide Find;
    FindPastInert(s, n, FACTS_KEY, 0);
    FindShift(s, n, FACTS_KEY, 0);
    var k := Find(s[n..], FACTS_KEY, 0);
    if k.Some? { FindShift(s, n, [BRACKET], k.value); }
  }

  lemma DropInert<F>(s: Text, n: nat, parse: Text -> Option<F>)
    requires n <= |s| && Inert(s[..n])
    ensures Recover(s[n..], parse) == Recover(s, parse)
  {
    hide ArrayStart; hide Objects; hide ParseWhile; hide Inert; hide Recover;
    ArrayStartShift(s, n);
    RecoverUnfolds(s, parse);
    RecoverUnfolds(s[n..], parse);
    var p := ArrayStart(s[n..]);
    if p.Some? { ObjectsShift(s, n, p.value); }
  }

  lemma {:induction false} AllSurvive(s: Text, k: nat, i: nat)
    requires i <= |s| && k <= |s| && Inert(s[k..])
    ensures Survivors(s, k, i) == |Objects(s, i)|
    decreases |s| - i
  {
    var x := FirstObject(s, i);
    if x.Some? {
      InertTail(s, k, x.value.hi - 1);
      AllSurvive(s, k, x.value.hi);
    }
  }

  lemma TakeInert<F>(s: Text, k: nat, parse: Text -> Option<F>)
    requires k <= |s| && Inert(s[k..])
    ensures Recover(s[..k], parse) == Recover(s, parse)
  {
    hide ArrayStart; hide Objects; hide ParseWhile; hide Survivors; hide Recover; hide Inert;
    RecoverUnfolds(s, parse);
    RecoverCut(s, k, parse);
    var p := ArrayStart(s);
    if p.Some? {
      InertTail(s, k, p.value - 1);
      AllSurvive(s, k, p.value);
    }
  }

  lemma {:induction false} TrimStartKeeps<F>(s: Text, parse: Text -> Option<F>)
    ensures Recover(TrimStart(s), parse) == Recover(s, parse)
    decreases |s|
  {
    hide Recover; hide IsInert; hide LeadingSpace; hide TrailingSpace;
    var n := LeadingSpace(s);
    if n > 0 {
      DropInert(s, n, parse);
      TrimStartKeeps(s[n..], parse);
    }
  }

  lemma {:induction false} TrimEndKeeps<F>(s: Text, parse: Text -> Option<F>)
    ensures Recover(TrimEnd(s), parse) == Recover(s, parse)
    decreases |s|
  {
    hide Recover; hide IsInert; hide LeadingSpace; hide TrailingSpace;
    var n := TrailingSpace(s);
    if n > 0 {
      TakeInert(s, |s| - n, parse);
      TrimEndKeeps(s[..|s| - n], parse);
    }
  }

  lemma TrimKeeps<F>(s: Text, parse: Text -> Option<F>)
    ensures Recover(Trim(s), parse) == Recover(s, parse)
  {
    hide Recover; hide TrimStart; hide TrimEnd;
    TrimStartKeeps(s, parse);
    TrimEndKeeps(TrimStart(s), parse);
  }

  lemma {:induction false} TrimEndFencesKeeps<F>(s: Text, parse: Text -> Option<F>)
    ensures Recover(TrimEndFences(s), parse) == Recover(s, parse)
    decreases |s|
  {
    hide Recover;
    var n := |s|;
    if n >= 3 && s[n - 3..] == FENCE {
      TakeInert(s, n - 3, parse);
      TrimEndFencesKeeps(s[..n - 3], parse);
    }
  }

  lemma PrefixKeeps<F>(s: Text, p: Text, parse: Text -> Option<F>)
    requires Inert(p)
    ensures var r := StripPrefix(s, p); r.Some? ==> Recover(r.value, parse) == Recover(s, parse)
  {
    hide Recover;
    if p <= s {
      assert s[..|p|] == p;
      DropInert(s, |p|, parse);
    }
  }

  /** On every input, fenced or not, salvaging after the fence is stripped gives what salvaging before would. */
  lemma StrippingKeepsFacts<F>(s: Text, parse: Text -> Option<F>)
    ensures Recover(StripMarkdownCodeFence(s), parse) == Recover(s, parse)
  {
    hide Recover; hide Trim; hide TrimEndFences; hide StripPrefix;
    var trimmed := Trim(s);
    TrimKeeps(s, parse);
    PrefixKeeps(trimmed, FENCE + JSON, parse);
    PrefixKeeps(trimmed, FENCE, parse);
    var body := Unfenced(trimmed);
    TrimKeeps(body, parse);
    TrimEndFencesKeeps(Trim(body), parse);
    TrimKeeps(TrimEndFences(Trim(body)), parse);
  }

  // ---- What is stripped ----

  /** The characters with the Unicode property White_Space. */
  predicate IsWhiteSpace(code: nat) {
    || 9 <= code <= 13 || code == 32 || code == 0x85 || code == 0xA0 || code == 0x1680 || 0x2000 <= code <= 0x200A
    || code == 0x2028 || code == 0x2029 || code == 0x202F || code == 0x205F || code == 0x3000
  }

  /** A character of up to three bytes in UTF-8 (section 3 of RFC 3629). */
  function Encode(code: nat): Text
    requires code < 0x10000
  {
    if code < 0x80 then [code as byte]
    else if code < 0x800 then [(0xC0 + code / 64) as byte, (0x80 + code % 64) as byte]
    else [(0xE0 + code / 4096) as byte, (0x80 + code / 64 % 64) as byte, (0x80 + code % 64) as byte]
  }

  /** An encoded character is UTF-8 and has no boundary inside. */
  lemma EncodedIsCharacter(code: nat)
    requires code < 0x10000
    ensures Utf8(Encode(code))
    ensures forall i :: 0 < i < |Encode(code)| ==> !IsCharBoundary(Encode(code), i)
  {
    assert Encode(code)[|Encode(code)|..] == [];
  }

  /** The characters trimmed are exactly those. */
  lemma SpacesAreUnicode(c: Text)
    ensures IsSpaceChar(c) <==> exists code :: code < 0x10000 && IsWhiteSpace(code) && c == Encode(code)
  {
    forall code | code < 0x10000 && IsWhiteSpace(code) ensures IsSpaceChar(Encode(code)) { EncodedSpace(code); }
    if IsSpaceChar(c) { var code := DecodedSpace(c); }
  }

  lemma EncodedSpace(code: nat)
    requires code < 0x10000 && IsWhiteSpace(code)
    ensures IsSpaceChar(Encode(code))
  {
    if 0x2000 <= code <= 0x200A { assert code / 4096 == 2 && code / 64 == 128; }
  }

  lemma DecodedSpace(c: Text) returns (code: nat)
    requires IsSpaceChar(c)
    ensures code < 0x10000 && IsWhiteSpace(code) && c == Encode(code)
  {
    if |c| == 1 { code := c[0] as nat; }
    else if |c| == 2 { code := c[1] as nat; }
    else if c[0] == 0xE1 { code := 0x1680; }
    else if c[0] == 0xE3 { code := 0x3000; }
    else if c[1] == 0x81 { code := 0x205F; }
    else { code := 0x2000 + (c[2] as int - 0x80); }
  }

  predicate AllSpaces(ws: seq<Text>) { forall i :: 0 <= i < |ws| ==> IsSpaceChar(ws[i]) }

  function Join(ws: seq<Text>): Text {
    if ws == [] then [] else Join(ws[..|ws| - 1]) + ws[|ws| - 1]
  }

  /** No white space character stands at either end. */
  predicate Trimmed(t: Text) {
    && (forall n :: 0 <= n <= |t| ==> !IsSpaceChar(t[..n]))
    && (forall n :: 0 <= n <= |t| ==> !IsSpaceChar(t[n..]))
  }

  lemma LeadingOf(c: Text, t: Text)
    requires IsSpaceChar(c)
    ensures LeadingSpace(c + t) == |c| && (c + t)[|c|..] == t
  {
    assert (c + t)[..|c|] == c;
    assert |c| > 1 ==> (c + t)[..1] == [c[0]];
    assert |c| > 2 ==> (c + t)[..2] == c[..2];
  }

  lemma TrailingOf(t: Text, c: Text)
    requires IsSpaceChar(c)
    ensures TrailingSpace(t + c) == |c| && (t + c)[..|t|] == t
  {
    var s, k := t + c, |t + c|;
    assert s[k - |c|..] == c;
    assert s[k - 1..] == [c[|c| - 1]];
    assert |c| > 2 ==> s[k - 2..] == c[1..];
  }

  lemma Associate(t: Text, u: Text, v: Text)
    ensures t + u + v == t + (u + v)
  {
  }

  lemma {:induction false} JoinFirst(ws: seq<Text>)
    requires ws != []
    ensures Join(ws) == ws[0] + Join(ws[1..])
  {
    var n := |ws| - 1;
    if n == 0 {
      assert ws[..0] == [] && ws[1..] == [];
    } else {
      var mid := ws[1..][..n - 1];
      assert ws[..n][1..] == mid && ws[..n][0] == ws[0];
      JoinFirst(ws[..n]);
      Associate(ws[0], Join(mid), ws[n]);
    }
  }

  lemma {:induction false} TrimStartSkips(ws: seq<Text>, t: Text)
    requires AllSpaces(ws)
    ensures TrimStart(Join(ws) + t) == TrimStart(t)
  {
    if ws == [] {
      assert Join(ws) + t == t;
    } else {
      JoinFirst(ws);
      assert Join(ws) + t == ws[0] + (Join(ws[1..]) + t);
      LeadingOf(ws[0], Join(ws[1..]) + t);
      TrimStartSkips(ws[1..], t);
    }
  }

  lemma {:induction false} TrimEndSkips(s: Text, t: Text, ws: seq<Text>)
    requires AllSpaces(ws) && s == t + Join(ws)
    ensures TrimEnd(s) == TrimEnd(t)
    decreases |ws|
  {
    if ws == [] {
      assert t + Join(ws) == t;
    } else {
      var n := |ws| - 1;
      var r := t + Join(ws[..n]);
      assert s == r + ws[n];
      TrailingOf(r, ws[n]);
      TrimEndSkips(r, t, ws[..n]);
    }
  }

  lemma TrimmedEnds(t: Text)
    requires Trimmed(t)
    ensures LeadingSpace(t) == 0 && TrailingSpace(t) == 0
  {
  }

  /** A longer text that starts or ends as a trimmed one does not start or end with white space either. */
  lemma TrimmedStart(b: Text, rest: Text)
    requires b != [] && Trimmed(b) && (rest == [] || !IsSecond(rest[0]))
    ensures LeadingSpace(b + rest) == 0
  {
    var s := b + rest;
    assert s[..1] == b[..1];
    if |s| >= 2 { assert |b| >= 2 ==> s[..2] == b[..2]; }
    if |s| >= 3 { assert |b| >= 3 ==> s[..3] == b[..3]; }
  }

  /** A byte that continues a white space character. */
  predicate IsSecond(b: byte) { 0x80 <= b < 0xC0 }

  /** White space around a trimmed text is what trimming removes. */
  lemma TrimRemoves(before: seq<Text>, t: Text, after: seq<Text>)
    requires AllSpaces(before) && AllSpaces(after) && LeadingSpace(t + Join(after)) == 0 && TrailingSpace(t) == 0
    ensures Trim(Join(before) + (t + Join(after))) == t
  {
    hide *;
    TrimStartSkips(before, t + Join(after));
    NothingLeading(t + Join(after));
    TrimEndSkips(t + Join(after), t, after);
    NothingTrailing(t);
    TrimIs(Join(before) + (t + Join(after)));
  }

  lemma NothingLeading(t: Text)
    requires LeadingSpace(t) == 0
    ensures TrimStart(t) == t
  {
  }

  lemma NothingTrailing(t: Text)
    requires TrailingSpace(t) == 0
    ensures TrimEnd(t) == t
  {
  }

  lemma TrimIs(s: Text)
    ensures Trim(s) == TrimEnd(TrimStart(s))
  {
  }

  lemma SpaceStarts(ws: seq<Text>)
    requires AllSpaces(ws) && ws != []
    ensures Join(ws) != [] && !IsSecond(Join(ws)[0])
  {
    JoinFirst(ws);
  }

  lemma BeforeSpace(b: Text, ws: seq<Text>, rest: Text)
    requires b != [] && Trimmed(b) && AllSpaces(ws) && (rest == [] || !IsSecond(rest[0]))
    ensures LeadingSpace(b + Join(ws) + rest) == 0
  {
    if ws != [] { SpaceStarts(ws); } else { assert Join(ws) == []; }
    assert b + Join(ws) + rest == b + (Join(ws) + rest);
    TrimmedStart(b, Join(ws) + rest);
  }

  // ---- The fence and what it holds ----

  function Fences(n: nat): Text { if n == 0 then [] else Fences(n - 1) + Ascii("```") }

  lemma {:induction false} FencesOff(t: Text, n: nat)
    ensures TrimEndFences(t + Fences(n)) == TrimEndFences(t)
  {
    if n == 0 {
      assert t + Fences(n) == t;
    } else {
      var s := t + Fences(n - 1);
      assert Ascii("```") == FENCE;
      assert t + Fences(n) == s + FENCE;
      assert (s + FENCE)[|s|..] == FENCE && (s + FENCE)[..|s|] == s;
      FencesOff(t, n - 1);
    }
  }

  lemma FenceEnds(s: Text, t: Text, n: nat)
    requires n > 0 && s == t + Fences(n)
    ensures TrailingSpace(s) == 0 && Fences(n) != [] && Fences(n)[0] == 0x60 && !IsSecond(Fences(n)[0])
  {
    hide Fences; hide TrailingSpace;
    FencesAreTicks(n);
    assert s[|s| - 1] == 0x60;
    EndsWithTick(s);
  }

  lemma EndsWithTick(s: Text)
    requires s != [] && s[|s| - 1] == 0x60
    ensures TrailingSpace(s) == 0
  {
  }

  lemma {:induction false} FencesAreTicks(n: nat)
    ensures |Fences(n)| == 3 * n && forall i :: 0 <= i < |Fences(n)| ==> Fences(n)[i] == 0x60
  {
    if n > 0 { FencesAreTicks(n - 1); }
  }

  predicate EndsWithFence(t: Text) { |t| >= 3 && t[|t| - 3..] == Ascii("```") }

  lemma NoFenceAfterSpace(b: Text, ws: seq<Text>)
    requires AllSpaces(ws) && !EndsWithFence(b)
    ensures TrimEndFences(b + Join(ws)) == b + Join(ws)
  {
    assert Ascii("```") == FENCE;
    if ws == [] {
      assert b + Join(ws) == b;
    } else {
      var s := b + Join(ws);
      var c := ws[|ws| - 1];
      assert s[|s| - 1] == c[|c| - 1] != 0x60;
    }
  }

  /**
    White space, a fence with or without its language, white space, a text, white
    space, closing fences and white space: what is left is the text, when it has no
    white space around it, ends in no fence and, after a fence without language,
    does not begin with that word.
   */
  lemma FencedTextComesBack(s: Text, w1: seq<Text>, named: bool, w2: seq<Text>, b: Text, w3: seq<Text>, n: nat,
                            w4: seq<Text>)
    requires AllSpaces(w1) && AllSpaces(w2) && AllSpaces(w3) && AllSpaces(w4) && n > 0
    requires b != [] && Trimmed(b) && !EndsWithFence(b)
    requires var opening := Ascii(if named then "```json" else "```");
             var inner := Join(w2) + b + Join(w3) + Fences(n);
             s == Join(w1) + (opening + inner + Join(w4)) && (!named ==> !(Ascii("json") <= inner))
    ensures StripMarkdownCodeFence(s) == b
  {
    hide *;
    var opening := Ascii(if named then "```json" else "```");
    var inner := Join(w2) + b + Join(w3) + Fences(n);
    OpeningTick(named);
    FencedIsTrimmed(w1, opening, Join(w2) + b + Join(w3), n, w4);
    OpeningOff(named, inner);
    InnerTrims(w2, b, w3, n);
    FencesOff(b + Join(w3), n);
    NoFenceAfterSpace(b, w3);
    BodyTrims(b, w3);
    StripSteps(s, opening + inner, inner, b + Join(w3) + Fences(n), b + Join(w3), b);
  }

  lemma OpeningTick(named: bool)
    ensures var opening := Ascii(if named then "```json" else "```"); opening != [] && opening[0] == 0x60
  {
  }

  lemma StripSteps(s: Text, x: Text, inner: Text, y: Text, z: Text, b: Text)
    requires Trim(s) == x && Unfenced(x) == inner && Trim(inner) == y && TrimEndFences(y) == z && Trim(z) == b
    ensures StripMarkdownCodeFence(s) == b
  {
  }

  lemma FencedIsTrimmed(w1: seq<Text>, opening: Text, mid: Text, n: nat, w4: seq<Text>)
    requires AllSpaces(w1) && AllSpaces(w4) && n > 0 && opening != [] && opening[0] == 0x60
    ensures Trim(Join(w1) + (opening + (mid + Fences(n)) + Join(w4))) == opening + (mid + Fences(n))
  {
    hide *;
    var x := opening + (mid + Fences(n));
    FenceEnds(opening + mid + Fences(n), opening + mid, n);
    Associate(opening, mid, Fences(n));
    StartsWithTick(x + Join(w4));
    TrimRemoves(w1, x, w4);
  }

  lemma StartsWithTick(t: Text)
    requires t != [] && t[0] == 0x60
    ensures LeadingSpace(t) == 0
  {
  }

  lemma OpeningOff(named: bool, inner: Text)
    requires !named ==> !(Ascii("json") <= inner)
    ensures Unfenced(Ascii(if named then "```json" else "```") + inner) == inner
  {
    assert Ascii("```json") == FENCE + JSON && Ascii("```") == FENCE && Ascii("json") == JSON;
    if named {
      assert ((FENCE + JSON) + inner)[|FENCE + JSON|..] == inner;
    } else {
      var s := FENCE + inner;
      assert s[3..] == inner;
      PrefixAfter(FENCE, JSON, inner);
    }
  }

  lemma PrefixAfter(p: Text, q: Text, t: Text)
    ensures p + q <= p + t <==> q <= t
  {
    assert (p + t)[|p|..] == t;
    assert (p + q)[|p|..] == q;
    if p + q <= p + t { assert q == t[..|q|] by { assert (p + t)[..|p + q|][|p|..] == t[..|q|]; } }
  }

  lemma PrefixPart(p: Text, q: Text, t: Text)
    ensures p + q <= t ==> p <= t
  {
    if p + q <= t { assert p == (p + q)[..|p|] == t[..|p|]; }
  }

  lemma InnerTrims(w2: seq<Text>, b: Text, w3: seq<Text>, n: nat)
    requires AllSpaces(w2) && AllSpaces(w3) && b != [] && Trimmed(b) && n > 0
    ensures Trim(Join(w2) + b + Join(w3) + Fences(n)) == b + Join(w3) + Fences(n)
  {
    hide *;
    FenceEnds(b + Join(w3) + Fences(n), b + Join(w3), n);
    BeforeSpace(b, w3, Fences(n));
    NoSpaces();
    Regroup(Join(w2), b, Join(w3), Fences(n));
    TrimRemoves(w2, b + Join(w3) + Fences(n), []);
  }

  lemma Regroup(t: Text, u: Text, v: Text, w: Text)
    ensures t + (u + v + w + []) == t + u + v + w && u + v + w + [] == u + v + w
  {
  }

  lemma NoSpaces()
    ensures AllSpaces([]) && Join([]) == []
  {
  }

  lemma BodyTrims(b: Text, w3: seq<Text>)
    requires AllSpaces(w3) && b != [] && Trimmed(b)
    ensures Trim(b + Join(w3)) == b
  {
    hide *;
    BeforeSpace(b, w3, []);
    TrimmedEnds(b);
    NoSpaces();
    assert b + Join(w3) + [] == b + Join(w3) && [] + (b + Join(w3)) == b + Join(w3);
    TrimRemoves([], b, w3);
  }

  /** A text without fences comes back without the white space around it. */
  lemma PlainTextComesBack(s: Text, w1: seq<Text>, b: Text, w4: seq<Text>)
    requires AllSpaces(w1) && AllSpaces(w4) && b != [] && Trimmed(b) && !(Ascii("```") <= b) && !EndsWithFence(b)
    requires s == Join(w1) + (b + Join(w4))
    ensures StripMarkdownCodeFence(s) == b
  {
    hide *;
    BeforeSpace(b, w4, []);
    assert b + Join(w4) + [] == b + Join(w4);
    TrimmedEnds(b);
    TrimRemoves(w1, b, w4);
    NoSpaces();
    assert b + Join([]) == b;
    NoFenceAfterSpace(b, []);
    BodyTrims(b, []);
    NoOpening(b);
    StripSteps(s, b, b, b, b, b);
  }

  lemma NoOpening(b: Text)
    requires !(Ascii("```") <= b)
    ensures Unfenced(b) == b
  {
    assert Ascii("```") == FENCE;
    PrefixPart(FENCE, JSON, b);
  }
}
