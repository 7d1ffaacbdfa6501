/**
  The salvage scanner of the extractor: it peels complete objects off the
  `facts` array of a response that was cut at an arbitrary byte.
 */
module Salvage {
  import opened Common
  import opened JsonText

  // ---- Walking through one object ----

  /** The scanner's three variables. */
  datatype Walk = Walk(depth: int, inString: bool, escape: bool)

  function At(depth: int): Walk { Walk(depth, false, false) }

  function Next(w: Walk, c: byte): Walk {
    if w.inString then
      if w.escape then w.(escape := false)
      else if c == BACKSLASH then w.(escape := true)
      else if c == QUOTE then w.(inString := false)
      else w
    else if c == QUOTE then w.(inString := true)
    else if c == OPEN then w.(depth := w.depth + 1)
    else if c == CLOSE then w.(depth := w.depth - 1)
    else w
  }

  /** c is the brace that closes the object being walked. */
  predicate Closes(w: Walk, c: byte) {
    !w.inString && c == CLOSE && w.depth == 1
  }

  /** Index just past the brace that closes the object, walking on from i. */
  function ObjectEnd(raw: Text, i: nat, w: Walk): (r: Option<nat>)
    ensures r.Some? ==> i < r.value <= |raw| && raw[r.value - 1] == CLOSE
    decreases |raw| - i
  {
    if i >= |raw| then None
    else if Closes(w, raw[i]) then Some(i + 1)
    else ObjectEnd(raw, i + 1, Next(w, raw[i]))
  }

  /** ASCII white space or a comma. */
  predicate IsSeparator(b: byte) {
    b == 0x20 || b == 0x09 || b == 0x0A || b == 0x0C || b == 0x0D || b == COMMA
  }

  function SkipSeparators(raw: Text, i: nat): (r: nat)
    requires i <= |raw|
    ensures i <= r <= |raw| && (r < |raw| ==> !IsSeparator(raw[r]))
    decreases |raw| - i
  {
    if i < |raw| && IsSeparator(raw[i]) then SkipSeparators(raw, i + 1) else i
  }

  /** The object at i after separators, if a complete one is there. */
  datatype Extent = Extent(lo: nat, hi: nat)

  function FirstObject(raw: Text, i: nat): (r: Option<Extent>)
    requires i <= |raw|
    ensures r.Some? ==> i <= r.value.lo < r.value.hi <= |raw|
    ensures r.Some? ==> raw[r.value.lo] == OPEN && raw[r.value.hi - 1] == CLOSE
  {
    var lo := SkipSeparators(raw, i);
    if lo < |raw| && raw[lo] == OPEN then
      match ObjectEnd(raw, lo, At(0))
      case None => None
      case Some(hi) => Some(Extent(lo, hi))
    else None
  }

  /** The texts of the complete objects met from i on, whether or not they parse. */
  function Objects(raw: Text, i: nat): seq<Text>
    requires i <= |raw|
    decreases |raw| - i
  {
    match FirstObject(raw, i)
    case None => []
    case Some(x) => [raw[x.lo..x.hi]] + Objects(raw, x.hi)
  }

  /** Parse texts until the first one that is refused. */
  function ParseWhile<F>(parse: Text -> Option<F>, texts: seq<Text>): (r: seq<F>)
    ensures |r| <= |texts|
    ensures forall i :: 0 <= i < |r| ==> parse(texts[i]) == Some(r[i])
    ensures |r| < |texts| ==> parse(texts[|r|]).None?
  {
    if texts == [] then []
    else
      match parse(texts[0])
      case None => []
      case Some(f) => [f] + ParseWhile(parse, texts[1..])
  }

  // ---- Finding the array ----

  /** `"facts"` with its quotes. */
  const FACTS_KEY: Text := [QUOTE, 0x66, 0x61, 0x63, 0x74, 0x73, QUOTE]

  /** pat stands in t at i. */
  predicate Occurs(t: Text, pat: Text, i: nat) {
    i + |pat| <= |t| && forall d :: 0 <= d < |pat| ==> pat[d] == t[i + d]
  }

  /** Index of the first occurrence of pat in t at or after `from`. */
  function Find(t: Text, pat: Text, from: nat): (r: Option<nat>)
    ensures r.Some? ==> from <= r.value && Occurs(t, pat, r.value)
    decreases |t| - from
  {
    if from + |pat| > |t| then None
    else if Occurs(t, pat, from) then Some(from)
    else if from == |t| then None
    else Find(t, pat, from + 1)
  }

  lemma {:induction false} FindIsFirst(t: Text, pat: Text, from: nat)
    ensures var r := Find(t, pat, from); forall j :: from <= j && (r.Some? ==> j < r.value) ==> !Occurs(t, pat, j)
    decreases |t| - from
  {
    if from + |pat| <= |t| && !Occurs(t, pat, from) && from < |t| { FindIsFirst(t, pat, from + 1); }
  }

  function Plus(n: nat, r: Option<nat>): Option<nat> {
    match r
    case None => None
    case Some(m) => Some(n + m)
  }

  lemma OccursShift(s: Text, n: nat, pat: Text, i: nat)
    requires n <= |s|
    ensures Occurs(s[n..], pat, i) <==> Occurs(s, pat, n + i)
  {
  }

  lemma {:induction false} FindShift(s: Text, n: nat, pat: Text, i: nat)
    requires n <= |s|
    ensures Find(s, pat, n + i) == Plus(n, Find(s[n..], pat, i))
    decreases |s| - n - i
  {
    OccursShift(s, n, pat, i);
    if n + i + |pat| <= |s| && !Occurs(s, pat, n + i) && n + i < |s| { FindShift(s, n, pat, i + 1); }
  }

  /**
    Position just after the `[` that opens the facts array: the first one at or
    after the first occurrence of the key.
   */
  function ArrayStart(t: Text): (r: Option<nat>)
    ensures r.Some? ==> 0 < r.value <= |t| && t[r.value - 1] == BRACKET
  {
    match Find(t, FACTS_KEY, 0)
    case None => None
    case Some(i) =>
      match Find(t, [BRACKET], i)
      case None => None
      case Some(j) => assert [BRACKET][0] == t[j]; Some(j + 1)
  }

  /** The key stands at i and not before. */
  predicate KeyFirstAt(t: Text, i: nat) {
    Occurs(t, FACTS_KEY, i) && forall j :: 0 <= j < i ==> !Occurs(t, FACTS_KEY, j)
  }

  lemma BracketOccurs(t: Text, i: nat)
    ensures Occurs(t, [BRACKET], i) <==> i < |t| && t[i] == 0x5B
  {
    if Occurs(t, [BRACKET], i) { assert [BRACKET][0] == t[i + 0]; }
  }

  /** Byte for byte: there is no bracket from the first key on, or the position follows the first there is. */
  lemma ArrayStartIs(t: Text)
    ensures ArrayStart(t).None? <==>
              forall i, j :: 0 <= i <= j < |t| && KeyFirstAt(t, i) ==> t[j] != 0x5B
    ensures ArrayStart(t).Some? ==>
              exists i :: 0 <= i < ArrayStart(t).value && KeyFirstAt(t, i)
                       && forall j :: i <= j < ArrayStart(t).value - 1 ==> t[j] != 0x5B
  {
    hide Occurs;
    FindIsFirst(t, FACTS_KEY, 0);
    var k := Find(t, FACTS_KEY, 0);
    if k.Some? {
      assert KeyFirstAt(t, k.value);
      FindIsFirst(t, [BRACKET], k.value);
      forall j: nat ensures Occurs(t, [BRACKET], j) <==> j < |t| && t[j] == 0x5B { BracketOccurs(t, j); }
      assert forall i :: 0 <= i < |t| && KeyFirstAt(t, i) ==> i == k.value;
    }
  }

  /** What the scanner makes of any input. */
  function Recover<F>(t: Text, parse: Text -> Option<F>): seq<F> {
    match ArrayStart(t)
    case None => []
    case Some(p) => ParseWhile(parse, Objects(t, p))
  }

  /** What is done at each byte: a separator is passed over, a `{` starts an object, and anything else ends the scan. */
  lemma ScanByBytes(raw: Text, i: nat)
    requires i < |raw|
    ensures raw[i] in {0x20, 0x09, 0x0A, 0x0C, 0x0D, 0x2C} ==> Objects(raw, i) == Objects(raw, i + 1)
    ensures raw[i] !in {0x20, 0x09, 0x0A, 0x0C, 0x0D, 0x2C, 0x7B} ==> Objects(raw, i) == []
    ensures raw[i] == 0x7B ==>
              match ObjectEnd(raw, i, At(0))
              case None => Objects(raw, i) == []
              case Some(e) => Objects(raw, i) == [raw[i..e]] + Objects(raw, e)
  {
  }

  // ---- UTF-8 ----

  predicate IsContinuation(b: byte) { 0x80 <= b < 0xC0 }

  /** Bytes of the character a lead byte starts (section 3 of RFC 3629). */
  function CharLength(b: byte): nat {
    if b < 0x80 then 1 else if b < 0xE0 then 2 else if b < 0xF0 then 3 else 4
  }

  /** The byte pattern of section 3 of RFC 3629; overlong forms and surrogates are not excluded. */
  predicate Utf8(t: Text) {
    t == [] ||
    var n := CharLength(t[0]);
    && (t[0] < 0x80 || 0xC0 <= t[0] < 0xF8)
    && n <= |t|
    && (forall i :: 1 <= i < n ==> IsContinuation(t[i]))
    && Utf8(t[n..])
  }

  /** A position at which a string slice may start or end. */
  predicate IsCharBoundary(t: Text, i: int) {
    0 <= i <= |t| && (i < |t| ==> !IsContinuation(t[i]))
  }

  /** `&t[a..b]`: a slice that is not on character boundaries has no value. */
  function Slice(t: Text, a: nat, b: nat): Text
    requires a <= b && IsCharBoundary(t, a) && IsCharBoundary(t, b)
  {
    t[a..b]
  }

  /** In UTF-8 the byte after a one-byte character never continues another. */
  lemma {:induction false} AfterAsciiIsBoundary(t: Text, i: nat)
    requires Utf8(t) && i < |t| && t[i] < 0x80
    ensures IsCharBoundary(t, i) && IsCharBoundary(t, i + 1)
    decreases |t|
  {
    var n := CharLength(t[0]);
    if i == 0 {
      assert t[1..] != [] ==> t[1] == t[1..][0];
    } else {
      assert i >= n;
      assert t[n..][i - n] == t[i];
      AfterAsciiIsBoundary(t[n..], i - n);
      if i + 1 < |t| { assert t[n..][i + 1 - n] == t[i + 1]; }
    }
  }

  /** A prefix of UTF-8 text ends on a character boundary if and only if it is UTF-8 itself. */
  lemma {:induction false} BoundaryIsWhole(t: Text, i: nat)
    requires Utf8(t) && i <= |t|
    ensures IsCharBoundary(t, i) <==> Utf8(t[..i])
    decreases |t|
  {
    if t != [] && i > 0 {
      var n := CharLength(t[0]);
      var head := t[..i];
      assert head[0] == t[0];
      if i >= n {
        BoundaryIsWhole(t[n..], i - n);
        assert head[n..] == t[n..][..i - n];
        assert i < |t| ==> t[i] == t[n..][i - n];
      }
    }
  }

  // ---- The preview of a response that yields nothing ----

  const PREVIEW: nat := 400

  /** The preview that is logged has a value if and only if it holds whole characters only. */
  lemma PreviewIsSliceable(t: Text)
    requires Utf8(t)
    ensures IsCharBoundary(t, if |t| <= PREVIEW then |t| else PREVIEW) <==> |t| <= 400 || Utf8(t[..400])
  {
    hide Utf8;
    if |t| > PREVIEW { BoundaryIsWhole(t, PREVIEW); }
  }

  lemma {:induction false} AsciiThen(n: nat, rest: Text)
    requires Utf8(rest)
    ensures Utf8(seq(n, _ => 0x61) + rest)
    decreases n
  {
    var t := seq(n, _ => 0x61) + rest;
    if n == 0 {
      assert t == rest;
    } else {
      AsciiThen(n - 1, rest);
      assert t[1..] == seq(n - 1, _ => 0x61) + rest;
    }
  }

  lemma StartsWithFirst(t: Text, pat: Text, i: nat)
    requires Occurs(t, pat, i) && pat != []
    ensures i < |t| && t[i] == pat[0]
  {
    assert pat[0] == t[i + 0];
  }

  /** A two-byte character across the limit: nothing is salvaged, and the preview cannot be taken. */
  lemma PreviewCanFail<F>(parse: Text -> Option<F>) returns (t: Text)
    ensures Utf8(t) && Recover(t, parse) == [] && |t| > 400 && !IsCharBoundary(t, 400)
  {
    var e: Text := [0xC3, 0xA9];
    assert e[2..] == [];
    AsciiThen(PREVIEW - 1, e);
    t := seq(PREVIEW - 1, _ => 0x61) + e;
    var key := Find(t, FACTS_KEY, 0);
    if key.Some? {
      StartsWithFirst(t, FACTS_KEY, key.value);
      assert false;
    }
  }

  // ---- The scanner ----

  lemma SkipStep(raw: Text, i: nat)
    requires i < |raw| && IsSeparator(raw[i])
    ensures FirstObject(raw, i) == FirstObject(raw, i + 1)
  {
  }

  lemma FirstObjectHere(raw: Text, i: nat)
    requires i <= |raw| && (i < |raw| ==> !IsSeparator(raw[i]))
    ensures FirstObject(raw, i)
         == if i < |raw| && raw[i] == OPEN then
              match ObjectEnd(raw, i, At(0)) case None => None case Some(hi) => Some(Extent(i, hi))
            else None
  {
  }

  lemma ParseStep<F>(raw: Text, i: nat, parse: Text -> Option<F>)
    requires i <= |raw|
    ensures ParseWhile(parse, Objects(raw, i))
         == match FirstObject(raw, i)
            case None => []
            case Some(x) =>
              match parse(raw[x.lo..x.hi])
              case None => []
              case Some(f) => [f] + ParseWhile(parse, Objects(raw, x.hi))
  {
    var x := FirstObject(raw, i);
    if x.Some? {
      assert Objects(raw, i)[1..] == Objects(raw, x.value.hi);
    }
  }

  /** The inner loop: from the `{` at `start` to just past the brace that closes it. */
  method WalkObject(raw: Text, start: nat) returns (end: nat, closed: bool)
    requires start < |raw| && raw[start] == OPEN
    ensures ObjectEnd(raw, start, At(0)) == if closed then Some(end) else None
  {
    var i := start;
    var depth, inString, escape := 0, false, false;
    while i < |raw|
      invariant start <= i <= |raw|
      invariant if i == start then depth == 0 && !inString else depth >= 1
      invariant ObjectEnd(raw, start, At(0)) == ObjectEnd(raw, i, Walk(depth, inString, escape))
    {
      var c := raw[i];
      if inString {
        if escape {
          escape := false;
        } else if c == BACKSLASH {
          escape := true;
        } else if c == QUOTE {
          inString := false;
        }
      } else if c == QUOTE {
        inString := true;
      } else if c == OPEN {
        depth := depth + 1;
      } else if c == CLOSE {
        depth := depth - 1;
        if depth == 0 {
          i := i + 1;
          break;
        }
      }
      i := i + 1;
    }
    return i, depth == 0;
  }

  /** The bracket is searched in the slice that starts at the key. */
  method FindArray(raw: Text) returns (start: Option<nat>)
    requires Utf8(raw)
    ensures start == ArrayStart(raw)
  {
    hide Utf8; hide Find;
    var key := Find(raw, FACTS_KEY, 0);
    if key.None? {
      return None;
    }
    var i := key.value;
    assert raw[i + 0] == FACTS_KEY[0] == QUOTE;
    AfterAsciiIsBoundary(raw, i);
    var j := Find(Slice(raw, i, |raw|), [BRACKET], 0);
    assert raw[i..|raw|] == raw[i..];
    FindShift(raw, i, [BRACKET], 0);
    start := if j.Some? then Some(i + j.value + 1) else None;
  }

  /** Skip separators and walk the object that starts there, if one does and is complete. */
  method NextObject(raw: Text, start: nat) returns (x: Option<Extent>)
    requires start <= |raw|
    ensures x == FirstObject(raw, start)
  {
    hide FirstObject; hide IsSeparator; hide ObjectEnd;
    var i := start;
    while i < |raw| && IsSeparator(raw[i])
      invariant start <= i <= |raw|
      invariant FirstObject(raw, i) == FirstObject(raw, start)
    {
      SkipStep(raw, i);
      i := i + 1;
    }
    FirstObjectHere(raw, i);
    if i >= |raw| || raw[i] != OPEN {
      return None;
    }
    var end, closed := WalkObject(raw, i);
    x := if closed then Some(Extent(i, end)) else None;
  }

  /** The slice of a complete object lies on character boundaries. */
  lemma ObjectIsSliceable(raw: Text, lo: nat, hi: nat)
    requires Utf8(raw) && lo < hi <= |raw| && raw[lo] == OPEN && raw[hi - 1] == CLOSE
    ensures IsCharBoundary(raw, lo) && IsCharBoundary(raw, hi)
  {
    hide Utf8;
    AfterAsciiIsBoundary(raw, lo);
    AfterAsciiIsBoundary(raw, hi - 1);
  }

  lemma RecoverUnfolds<F>(t: Text, parse: Text -> Option<F>)
    ensures Recover(t, parse)
         == match ArrayStart(t) case None => [] case Some(p) => ParseWhile(parse, Objects(t, p))
  {
  }

  method RecoverTruncatedFacts<F>(raw: Text, parse: Text -> Option<F>) returns (out: seq<F>)
    requires Utf8(raw)
    ensures out == Recover(raw, parse)
  {
    hide ArrayStart; hide Objects; hide ParseWhile; hide FirstObject; hide Utf8; hide Joins; hide Recover;
    hide IsCharBoundary;
    out := [];
    RecoverUnfolds(raw, parse);
    var arrayStart := FindArray(raw);
    if arrayStart.None? { return; }
    var i := arrayStart.value;
    ghost var all := Recover(raw, parse);
    ghost var rest := all;
    JoinsStart(all);
    while i < |raw|
      invariant arrayStart.value <= i <= |raw|
      invariant rest == ParseWhile(parse, Objects(raw, i))
      invariant Joins(out, rest, all)
    {
      ParseStep(raw, i, parse);
      var x := NextObject(raw, i);
      if x.None? {
        JoinsEnd(out, all);
        return;
      }
      var objStart := x.value.lo;
      i := x.value.hi;
      ObjectIsSliceable(raw, objStart, i);
      match parse(Slice(raw, objStart, i))
      case None =>
        JoinsEnd(out, all);
        return;
      case Some(f) =>
        JoinsMove(out, rest, all);
        out, rest := out + [f], rest[1..];
    }
    ParseStep(raw, i, parse);
    NothingAtEnd(raw);
    JoinsEnd(out, all);
  }

  lemma NothingAtEnd(raw: Text)
    ensures FirstObject(raw, |raw|).None?
  {
  }

  // ---- In characters ----

  /** The bytes of an ASCII text. */
  function Ascii(s: string): Text {
    seq(|s|, i requires 0 <= i < |s| => (s[i] as int % 256) as byte)
  }

  /** The delimiters of JSON, in characters. */
  lemma Delimiters()
    ensures [OPEN, CLOSE, BRACKET, UNBRACKET, COLON, COMMA, QUOTE, BACKSLASH] == Ascii("{}[]:,\"\\")
  {
  }
}
