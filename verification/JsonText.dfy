/**
  Bytes, and the JSON texts of RFC 8259 as concrete syntax: a value keeps the
  whitespace and the escapes it is written with, so printing covers every
  spelling of a document and not one canonical form.
 */
module JsonText {
  newtype byte = x: int | 0 <= x < 256

  type Text = seq<byte>

  const QUOTE: byte := 0x22
  const BACKSLASH: byte := 0x5C
  const OPEN: byte := 0x7B     // {
  const CLOSE: byte := 0x7D    // }
  const BRACKET: byte := 0x5B  // [
  const UNBRACKET: byte := 0x5D
  const COMMA: byte := 0x2C
  const COLON: byte := 0x3A

  /** One unit of string content (section 7 of RFC 8259). */
  datatype Unit = Plain(b: byte) | Escaped(b: byte) | Unicode(hex: Text)

  datatype Value =
    | Scalar(text: Text)
    | Str(units: seq<Unit>)
    | Arr(lead: Text, elems: Elems)
    | Obj(lead: Text, members: Members)

  datatype Elems = NoElems | Elem(value: Value, after: Text, gap: Text, rest: Elems)

  datatype Members =
    | NoMembers
    | Member(key: seq<Unit>, colonGap: Text, valueGap: Text, value: Value, after: Text, gap: Text, rest: Members)

  // ---- Well-formedness ----

  predicate IsSpace(b: byte) {
    b == 0x20 || b == 0x09 || b == 0x0A || b == 0x0D
  }

  predicate Spaces(t: Text) {
    forall i :: 0 <= i < |t| ==> IsSpace(t[i])
  }

  predicate IsHex(b: byte) {
    0x30 <= b <= 0x39 || 0x41 <= b <= 0x46 || 0x61 <= b <= 0x66
  }

  predicate ValidUnit(u: Unit) {
    match u
    case Plain(b) => b >= 0x20 && b != QUOTE && b != BACKSLASH
    case Escaped(b) => b in [QUOTE, BACKSLASH, 0x2F, 0x62, 0x66, 0x6E, 0x72, 0x74]
    case Unicode(hex) => |hex| == 4 && forall i :: 0 <= i < 4 ==> IsHex(hex[i])
  }

  predicate ValidUnits(us: seq<Unit>) {
    forall i :: 0 <= i < |us| ==> ValidUnit(us[i])
  }

  /** Letters, digits, `+`, `-` and `.`: a superset of the literal names and of every number. */
  predicate IsScalarByte(b: byte) {
    0x30 <= b <= 0x39 || 0x41 <= b <= 0x5A || 0x61 <= b <= 0x7A || b == 0x2B || b == 0x2D || b == 0x2E
  }

  predicate ValidValue(v: Value) {
    match v
    case Scalar(text) => text != [] && forall i :: 0 <= i < |text| ==> IsScalarByte(text[i])
    case Str(units) => ValidUnits(units)
    case Arr(lead, elems) => Spaces(lead) && ValidElems(elems)
    case Obj(lead, members) => Spaces(lead) && ValidMembers(members)
  }

  predicate ValidElems(es: Elems) {
    match es
    case NoElems => true
    case Elem(v, after, gap, rest) => ValidValue(v) && Spaces(after) && Spaces(gap) && ValidElems(rest)
  }

  predicate ValidMembers(ms: Members) {
    match ms
    case NoMembers => true
    case Member(key, colonGap, valueGap, v, after, gap, rest) =>
      && ValidUnits(key) && Spaces(colonGap) && Spaces(valueGap)
      && ValidValue(v) && Spaces(after) && Spaces(gap) && ValidMembers(rest)
  }

  // ---- Brace-free strings ----

  predicate BraceFreeUnits(us: seq<Unit>) {
    forall i :: 0 <= i < |us| ==> us[i] != Plain(OPEN) && us[i] != Plain(CLOSE)
  }

  predicate BraceFree(v: Value) {
    match v
    case Scalar(_) => true
    case Str(units) => BraceFreeUnits(units)
    case Arr(_, elems) => BraceFreeElems(elems)
    case Obj(_, members) => BraceFreeMembers(members)
  }

  predicate BraceFreeElems(es: Elems) {
    es.Elem? ==> BraceFree(es.value) && BraceFreeElems(es.rest)
  }

  predicate BraceFreeMembers(ms: Members) {
    ms.Member? ==> BraceFreeUnits(ms.key) && BraceFree(ms.value) && BraceFreeMembers(ms.rest)
  }

  // ---- Printing ----

  function ShowUnit(u: Unit): Text {
    match u
    case Plain(b) => [b]
    case Escaped(b) => [BACKSLASH, b]
    case Unicode(hex) => [BACKSLASH, 0x75] + hex
  }

  function ShowUnits(us: seq<Unit>): Text {
    if us == [] then [] else ShowUnit(us[0]) + ShowUnits(us[1..])
  }

  function ShowString(us: seq<Unit>): Text {
    [QUOTE] + ShowUnits(us) + [QUOTE]
  }

  function ShowValue(v: Value): Text {
    match v
    case Scalar(text) => text
    case Str(units) => ShowString(units)
    case Arr(lead, elems) => [BRACKET] + lead + ShowElems(elems) + [UNBRACKET]
    case Obj(lead, members) => [OPEN] + (lead + ShowMembers(members)) + [CLOSE]
  }

  function ShowElems(es: Elems): Text {
    match es
    case NoElems => []
    case Elem(v, after, gap, rest) => ShowValue(v) + after + Separator(rest.Elem?, gap) + ShowElems(rest)
  }

  function ShowMembers(ms: Members): Text {
    match ms
    case NoMembers => []
    case Member(key, colonGap, valueGap, v, after, gap, rest) =>
      ShowString(key) + colonGap + [COLON] + valueGap + ShowValue(v) + after
      + Separator(rest.Member?, gap) + ShowMembers(rest)
  }

  function Separator(more: bool, gap: Text): Text {
    if more then [COMMA] + gap else []
  }
}
