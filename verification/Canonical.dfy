/**
 Model of the signing pre-image: `python/src/wcm/_canonicalize.py`, floats excluded.

 A Python `str` is a sequence of code points and may hold lone surrogates; a `dict` is its
 members in insertion order. `Normalize` says what the serializer keeps (null members dropped,
 keys sorted) and `Emit` how it is spelled; the loops themselves are in `CanonicalCode`.
 Whether a string is NFC is decided by the Unicode tables, which are a parameter here.
 */
module Canonical {
  import opened Wrappers

  type Text = seq<nat>

  datatype Value =
    | Null
    | Bool(flag: bool)
    | Int(number: int)
    | Str(text: Text)
    | Arr(items: Items)
    | Obj(members: Members)

  datatype Items = Done | Item(first: Value, more: Items)

  datatype Members = End | Member(key: Text, value: Value, rest: Members)

  const MAX_DEPTH: nat := 64

  const QUOTE: nat := 0x22
  const COMMA: nat := 0x2C
  const MINUS: nat := 0x2D
  const ZERO: nat := 0x30
  const COLON: nat := 0x3A
  const OPEN_ARRAY: nat := 0x5B
  const BACKSLASH: nat := 0x5C
  const CLOSE_ARRAY: nat := 0x5D
  const LOWER_A: nat := 0x61
  const LOWER_U: nat := 0x75
  const OPEN_OBJECT: nat := 0x7B
  const CLOSE_OBJECT: nat := 0x7D

  const NULL_WORD: Text := [0x6E, 0x75, 0x6C, 0x6C]
  const TRUE_WORD: Text := [0x74, 0x72, 0x75, 0x65]
  const FALSE_WORD: Text := [0x66, 0x61, 0x6C, 0x73, 0x65]

  // ------------------------------------------------------------------ spelling scalars

  function HexDigit(d: nat): (c: nat)
    requires d < 16
  {
    if d < 10 then ZERO + d else LOWER_A + d - 10
  }

  /** The letter after the backslash of a two-character escape, or None. */
  function ShortEscape(c: nat): (letter: Option<nat>) {
    if c == QUOTE then Some(QUOTE)
    else if c == BACKSLASH then Some(BACKSLASH)
    else if c == 0x08 then Some(0x62)
    else if c == 0x0C then Some(0x66)
    else if c == 0x0A then Some(0x6E)
    else if c == 0x0D then Some(0x72)
    else if c == 0x09 then Some(0x74)
    else None
  }

  predicate LongEscape(c: nat) {
    c <= 0x1F || 0x7F <= c <= 0x9F || c == 0x2028 || c == 0x2029
  }

  function Escape(c: nat): (e: Text) {
    if ShortEscape(c).Some? then [BACKSLASH, ShortEscape(c).value]
    else if LongEscape(c) then
      [BACKSLASH, LOWER_U, HexDigit(c / 4096), HexDigit(c / 256 % 16), HexDigit(c / 16 % 16), HexDigit(c % 16)]
    else [c]
  }

  function EscapeAll(s: Text): (e: Text) {
    if s == [] then [] else Escape(s[0]) + EscapeAll(s[1..])
  }

  function Quote(s: Text): (q: Text) {
    [QUOTE] + EscapeAll(s) + [QUOTE]
  }

  function Digits(n: nat): (d: Text)
    ensures |d| > 0
  {
    if n < 10 then [ZERO + n] else Digits(n / 10) + [ZERO + n % 10]
  }

  function Decimal(n: int): (d: Text) {
    if n < 0 then [MINUS] + Digits(-n) else Digits(n)
  }

  // ------------------------------------------------------------------ key order

  /** The UTF-16 code units of one code point. */
  function Units(c: nat): (u: seq<nat>)
    ensures |u| > 0
  {
    if c < 0x10000 then [c] else [0xD800 + (c - 0x10000) / 0x400, 0xDC00 + (c - 0x10000) % 0x400]
  }

  function Utf16(s: Text): (u: seq<nat>) {
    if s == [] then [] else Units(s[0]) + Utf16(s[1..])
  }

  /** The big-endian bytes of a sequence of code units. */
  function BigEndian(u: seq<nat>): (b: seq<nat>) {
    if u == [] then [] else [u[0] / 256, u[0] % 256] + BigEndian(u[1..])
  }

  function SortKey(s: Text): (b: seq<nat>) {
    BigEndian(Utf16(s))
  }

  /** Lexicographic order; a proper prefix comes first. */
  predicate LexLess(a: seq<nat>, b: seq<nat>) {
    if b == [] then false
    else if a == [] then true
    else a[0] < b[0] || (a[0] == b[0] && LexLess(a[1..], b[1..]))
  }

  predicate KeyLess(a: Text, b: Text) {
    LexLess(SortKey(a), SortKey(b))
  }

  // ------------------------------------------------------------------ what is kept, and in which order

  function Insert(k: Text, v: Value, ms: Members): (r: Members) {
    if ms.End? || KeyLess(k, ms.key) then Member(k, v, ms)
    else Member(ms.key, ms.value, Insert(k, v, ms.rest))
  }

  function SortMembers(ms: Members): (r: Members) {
    if ms.End? then End else Insert(ms.key, ms.value, SortMembers(ms.rest))
  }

  function Normalize(v: Value, excludeNone: bool): (r: Value) {
    match v
    case Arr(items) => Arr(NormalizeItems(items, excludeNone))
    case Obj(members) => Obj(SortMembers(NormalizeMembers(members, excludeNone)))
    case _ => v
  }

  function NormalizeItems(items: Items, excludeNone: bool): (r: Items) {
    match items
    case Done => Done
    case Item(first, more) => Item(Normalize(first, excludeNone), NormalizeItems(more, excludeNone))
  }

  function NormalizeMembers(ms: Members, excludeNone: bool): (r: Members) {
    match ms
    case End => End
    case Member(k, v, rest) =>
      if excludeNone && v.Null? then NormalizeMembers(rest, excludeNone)
      else Member(k, Normalize(v, excludeNone), NormalizeMembers(rest, excludeNone))
  }

  // ------------------------------------------------------------------ spelling values

  function Emit(v: Value): (t: Text) {
    match v
    case Null => NULL_WORD
    case Bool(b) => if b then TRUE_WORD else FALSE_WORD
    case Int(n) => Decimal(n)
    case Str(s) => Quote(s)
    case Arr(items) => [OPEN_ARRAY] + EmitItems(items) + [CLOSE_ARRAY]
    case Obj(members) => [OPEN_OBJECT] + EmitMembers(members) + [CLOSE_OBJECT]
  }

  function EmitItems(items: Items): (t: Text) {
    match items
    case Done => []
    case Item(v, Done) => Emit(v)
    case Item(v, more) => Emit(v) + [COMMA] + EmitItems(more)
  }

  function EmitMembers(ms: Members): (t: Text) {
    match ms
    case End => []
    case Member(k, v, End) => Quote(k) + [COLON] + Emit(v)
    case Member(k, v, rest) => Quote(k) + [COLON] + Emit(v) + [COMMA] + EmitMembers(rest)
  }

  // ------------------------------------------------------------------ what is refused

  predicate Surrogate(c: nat) {
    0xD800 <= c <= 0xDFFF
  }

  /** A code point UTF-8 and UTF-16 can encode. */
  predicate Scalar(c: nat) {
    c <= 0x10FFFF && !Surrogate(c)
  }

  predicate ScalarText(s: Text) {
    forall i :: 0 <= i < |s| ==> Scalar(s[i])
  }

  function Max(a: nat, b: nat): (m: nat) {
    if a < b then b else a
  }

  /** Levels of nesting below a value, not counting null members that are dropped. */
  function Height(v: Value, excludeNone: bool): (h: nat) {
    match v
    case Arr(items) => ItemsHeight(items, excludeNone)
    case Obj(members) => MembersHeight(members, excludeNone)
    case _ => 0
  }

  function ItemsHeight(items: Items, excludeNone: bool): (h: nat) {
    match items
    case Done => 0
    case Item(v, more) => Max(1 + Height(v, excludeNone), ItemsHeight(more, excludeNone))
  }

  function MembersHeight(ms: Members, excludeNone: bool): (h: nat) {
    match ms
    case End => 0
    case Member(_, v, rest) =>
      if excludeNone && v.Null? then MembersHeight(rest, excludeNone)
      else Max(1 + Height(v, excludeNone), MembersHeight(rest, excludeNone))
  }

  /** Every kept string is NFC and every key, kept or not, can be encoded for sorting. */
  predicate TextsAccepted(v: Value, excludeNone: bool, nfc: Text -> bool) {
    match v
    case Str(s) => nfc(s)
    case Arr(items) => ItemTextsAccepted(items, excludeNone, nfc)
    case Obj(members) => MemberTextsAccepted(members, excludeNone, nfc)
    case _ => true
  }

  predicate ItemTextsAccepted(items: Items, excludeNone: bool, nfc: Text -> bool) {
    match items
    case Done => true
    case Item(v, more) => TextsAccepted(v, excludeNone, nfc) && ItemTextsAccepted(more, excludeNone, nfc)
  }

  predicate MemberTextsAccepted(ms: Members, excludeNone: bool, nfc: Text -> bool) {
    match ms
    case End => true
    case Member(k, v, rest) =>
      && ScalarText(k)
      && ((excludeNone && v.Null?) || (nfc(k) && TextsAccepted(v, excludeNone, nfc)))
      && MemberTextsAccepted(rest, excludeNone, nfc)
  }

  // ------------------------------------------------------------------ UTF-8

  function Utf8Char(c: nat): (b: seq<nat>) {
    if c < 0x80 then [c]
    else if c < 0x800 then [0xC0 + c / 0x40, 0x80 + c % 0x40]
    else if c < 0x10000 then [0xE0 + c / 0x1000, 0x80 + c / 0x40 % 0x40, 0x80 + c % 0x40]
    else [0xF0 + c / 0x40000, 0x80 + c / 0x1000 % 0x40, 0x80 + c / 0x40 % 0x40, 0x80 + c % 0x40]
  }

  function Utf8(s: Text): (b: seq<nat>) {
    if s == [] then [] else Utf8Char(s[0]) + Utf8(s[1..])
  }

  /** The bytes that are signed, or None where the source raises ValueError. */
  function Canonicalize(v: Value, excludeNone: bool, nfc: Text -> bool): (bytes: Option<seq<nat>>) {
    var text := Emit(Normalize(v, excludeNone));
    if Height(v, excludeNone) <= MAX_DEPTH && TextsAccepted(v, excludeNone, nfc) && ScalarText(text)
    then Some(Utf8(text)) else None
  }
}
