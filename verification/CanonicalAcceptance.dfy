/**
 What `python/src/wcm/_canonicalize.py:31-163` refuses, said of the value, and what its bytes say to decoders that
 share nothing with it.
 */
module CanonicalAcceptance {
  import opened Wrappers
  import opened Canonical
  import opened CanonicalOrder
  import opened CanonicalTheorems
  import CanonicalReader

  // ------------------------------------------------------------------ what lies inside a value

  /** `w` lies `d` levels inside `v`, not counting null members that are dropped. */
  predicate Within(v: Value, w: Value, d: nat, x: bool) {
    || (d == 0 && v == w)
    || (d > 0 && v.Arr? && WithinItems(v.items, w, d - 1, x))
    || (d > 0 && v.Obj? && WithinMembers(v.members, w, d - 1, x))
  }

  predicate WithinItems(items: Items, w: Value, d: nat, x: bool) {
    items.Item? && (Within(items.first, w, d, x) || WithinItems(items.more, w, d, x))
  }

  predicate WithinMembers(ms: Members, w: Value, d: nat, x: bool) {
    ms.Member? && ((!(x && ms.value.Null?) && Within(ms.value, w, d, x)) || WithinMembers(ms.rest, w, d, x))
  }

  /** No lone surrogate, and nothing past the last code point. */
  predicate Encodable(s: Text) {
    forall i :: 0 <= i < |s| ==> s[i] < 0xD800 || 0xE000 <= s[i] < 0x110000
  }

  /** Every key can be encoded, and the keys that are kept are NFC. */
  predicate KeysFine(ms: Members, x: bool, nfc: Text -> bool) {
    ms.Member? ==>
      Encodable(ms.key) && (!(x && ms.value.Null?) ==> nfc(ms.key)) && KeysFine(ms.rest, x, nfc)
  }

  /** The value itself, whatever is in it, gives no reason to refuse. */
  predicate Fine(w: Value, x: bool, nfc: Text -> bool) {
    match w
    case Str(s) => nfc(s) && Encodable(s)
    case Obj(ms) => KeysFine(ms, x, nfc)
    case _ => true
  }

  // ------------------------------------------------------------------ depth

  lemma {:induction false} WithinHeight(v: Value, w: Value, d: nat, x: bool)
    requires Within(v, w, d, x)
    ensures d <= Height(v, x)
    decreases v
  {
    if d > 0 && v.Arr? && WithinItems(v.items, w, d - 1, x) {
      WithinItemsHeight(v.items, w, d - 1, x);
    } else if d > 0 {
      WithinMembersHeight(v.members, w, d - 1, x);
    }
  }

  lemma {:induction false} WithinItemsHeight(items: Items, w: Value, d: nat, x: bool)
    requires WithinItems(items, w, d, x)
    ensures d < ItemsHeight(items, x)
    decreases items
  {
    if Within(items.first, w, d, x) {
      WithinHeight(items.first, w, d, x);
    } else {
      WithinItemsHeight(items.more, w, d, x);
    }
  }

  lemma {:induction false} WithinMembersHeight(ms: Members, w: Value, d: nat, x: bool)
    requires WithinMembers(ms, w, d, x)
    ensures d < MembersHeight(ms, x)
    decreases ms
  {
    if !(x && ms.value.Null?) && Within(ms.value, w, d, x) {
      WithinHeight(ms.value, w, d, x);
    } else {
      WithinMembersHeight(ms.rest, w, d, x);
    }
  }

  /** Something lies as deep as the measure of nesting says. */
  lemma {:induction false} Deepest(v: Value, d: nat, x: bool) returns (w: Value)
    requires d <= Height(v, x)
    ensures Within(v, w, d, x)
    decreases v
  {
    if d == 0 {
      w := v;
    } else if v.Arr? {
      w := DeepestItem(v.items, d - 1, x);
    } else {
      w := DeepestMember(v.members, d - 1, x);
    }
  }

  lemma {:induction false} DeepestItem(items: Items, d: nat, x: bool) returns (w: Value)
    requires d < ItemsHeight(items, x)
    ensures WithinItems(items, w, d, x)
    decreases items
  {
    if d <= Height(items.first, x) {
      w := Deepest(items.first, d, x);
    } else {
      w := DeepestItem(items.more, d, x);
    }
  }

  lemma {:induction false} DeepestMember(ms: Members, d: nat, x: bool) returns (w: Value)
    requires d < MembersHeight(ms, x)
    ensures WithinMembers(ms, w, d, x)
    decreases ms
  {
    if !(x && ms.value.Null?) && d <= Height(ms.value, x) {
      w := Deepest(ms.value, d, x);
    } else {
      w := DeepestMember(ms.rest, d, x);
    }
  }

  // ------------------------------------------------------------------ texts

  /** Every string that is kept can be encoded. */
  predicate ScalarStrings(v: Value, x: bool) {
    match v
    case Str(s) => ScalarText(s)
    case Arr(items) => ScalarItemStrings(items, x)
    case Obj(ms) => ScalarMemberStrings(ms, x)
    case _ => true
  }

  predicate ScalarItemStrings(items: Items, x: bool) {
    items.Item? ==> ScalarStrings(items.first, x) && ScalarItemStrings(items.more, x)
  }

  predicate ScalarMemberStrings(ms: Members, x: bool) {
    ms.Member? ==> ((x && ms.value.Null?) || ScalarStrings(ms.value, x)) && ScalarMemberStrings(ms.rest, x)
  }

  lemma {:induction false} KeysAreFine(ms: Members, x: bool, nfc: Text -> bool)
    requires MemberTextsAccepted(ms, x, nfc)
    ensures KeysFine(ms, x, nfc)
  {
    if ms.Member? {
      KeysAreFine(ms.rest, x, nfc);
    }
  }

  lemma {:induction false} AcceptedIsFine(v: Value, w: Value, d: nat, x: bool, nfc: Text -> bool)
    requires TextsAccepted(v, x, nfc) && ScalarStrings(v, x) && Within(v, w, d, x)
    ensures Fine(w, x, nfc)
    decreases v
  {
    if d > 0 && v.Arr? && WithinItems(v.items, w, d - 1, x) {
      AcceptedItemsAreFine(v.items, w, d - 1, x, nfc);
    } else if d > 0 && v.Obj? {
      AcceptedMembersAreFine(v.members, w, d - 1, x, nfc);
    } else if v.Obj? {
      KeysAreFine(v.members, x, nfc);
    }
  }

  lemma {:induction false} AcceptedItemsAreFine(items: Items, w: Value, d: nat, x: bool, nfc: Text -> bool)
    requires ItemTextsAccepted(items, x, nfc) && ScalarItemStrings(items, x) && WithinItems(items, w, d, x)
    ensures Fine(w, x, nfc)
    decreases items
  {
    if Within(items.first, w, d, x) {
      AcceptedIsFine(items.first, w, d, x, nfc);
    } else {
      AcceptedItemsAreFine(items.more, w, d, x, nfc);
    }
  }

  lemma {:induction false} AcceptedMembersAreFine(ms: Members, w: Value, d: nat, x: bool, nfc: Text -> bool)
    requires MemberTextsAccepted(ms, x, nfc) && ScalarMemberStrings(ms, x) && WithinMembers(ms, w, d, x)
    ensures Fine(w, x, nfc)
    decreases ms
  {
    if !(x && ms.value.Null?) && Within(ms.value, w, d, x) {
      AcceptedIsFine(ms.value, w, d, x, nfc);
    } else {
      AcceptedMembersAreFine(ms.rest, w, d, x, nfc);
    }
  }

  /** A value refused for its texts holds one that gives the reason. */
  lemma {:induction false} Offender(v: Value, x: bool, nfc: Text -> bool) returns (w: Value, d: nat)
    requires !(TextsAccepted(v, x, nfc) && ScalarStrings(v, x))
    ensures Within(v, w, d, x) && !Fine(w, x, nfc)
    decreases v
  {
    if v.Arr? {
      w, d := ItemOffender(v.items, x, nfc);
      d := d + 1;
    } else if v.Obj? && KeysFine(v.members, x, nfc) {
      w, d := MemberOffender(v.members, x, nfc);
      d := d + 1;
    } else {
      w, d := v, 0;
    }
  }

  lemma {:induction false} ItemOffender(items: Items, x: bool, nfc: Text -> bool) returns (w: Value, d: nat)
    requires !(ItemTextsAccepted(items, x, nfc) && ScalarItemStrings(items, x))
    ensures WithinItems(items, w, d, x) && !Fine(w, x, nfc)
    decreases items
  {
    if !(TextsAccepted(items.first, x, nfc) && ScalarStrings(items.first, x)) {
      w, d := Offender(items.first, x, nfc);
    } else {
      w, d := ItemOffender(items.more, x, nfc);
    }
  }

  lemma {:induction false} MemberOffender(ms: Members, x: bool, nfc: Text -> bool) returns (w: Value, d: nat)
    requires KeysFine(ms, x, nfc) && !(MemberTextsAccepted(ms, x, nfc) && ScalarMemberStrings(ms, x))
    ensures WithinMembers(ms, w, d, x) && !Fine(w, x, nfc)
    decreases ms
  {
    if !(x && ms.value.Null?) && !(TextsAccepted(ms.value, x, nfc) && ScalarStrings(ms.value, x)) {
      w, d := Offender(ms.value, x, nfc);
    } else {
      w, d := MemberOffender(ms.rest, x, nfc);
    }
  }

  // ------------------------------------------------------------------ the text that is encoded

  /** Every string and every key can be encoded. */
  predicate ScalarInside(v: Value) {
    match v
    case Str(s) => ScalarText(s)
    case Arr(items) => ScalarItemsInside(items)
    case Obj(ms) => ScalarMembersInside(ms)
    case _ => true
  }

  predicate ScalarItemsInside(items: Items) {
    items.Item? ==> ScalarInside(items.first) && ScalarItemsInside(items.more)
  }

  predicate ScalarMembersInside(ms: Members) {
    ms.Member? ==> ScalarText(ms.key) && ScalarInside(ms.value) && ScalarMembersInside(ms.rest)
  }

  lemma {:induction false} ScalarConcat(a: Text, b: Text)
    ensures ScalarText(a + b) <==> ScalarText(a) && ScalarText(b)
  {
    if ScalarText(a + b) {
      assert forall i :: 0 <= i < |a| ==> (a + b)[i] == a[i];
      assert forall i :: 0 <= i < |b| ==> (a + b)[|a| + i] == b[i];
    }
  }

  lemma {:induction false} ScalarEscape(s: Text)
    ensures ScalarText(EscapeAll(s)) <==> ScalarText(s)
  {
    hide Escape;
    if s != [] {
      ScalarEscape(s[1..]);
      ScalarEscapeOne(s[0]);
      ScalarConcat(Escape(s[0]), EscapeAll(s[1..]));
      ScalarConcat([s[0]], s[1..]);
      assert s == [s[0]] + s[1..];
    }
  }

  lemma {:induction false} ScalarEscapeOne(c: nat)
    ensures ScalarText(Escape(c)) <==> ScalarText([c])
  {
    if ShortEscape(c).None? && !LongEscape(c) {
      assert Escape(c) == [c];
    } else {
      assert Scalar(c);
    }
  }

  lemma {:induction false} ScalarQuote(s: Text)
    ensures ScalarText(Quote(s)) <==> ScalarText(s)
  {
    hide EscapeAll;
    ScalarEscape(s);
    ScalarConcat([QUOTE], EscapeAll(s));
    ScalarConcat([QUOTE] + EscapeAll(s), [QUOTE]);
  }

  lemma {:induction false} ScalarDigits(n: nat)
    ensures ScalarText(Digits(n))
  {
    if n >= 10 {
      ScalarDigits(n / 10);
      ScalarConcat(Digits(n / 10), [ZERO + n % 10]);
    }
  }

  lemma {:induction false} ScalarEmit(v: Value)
    ensures ScalarText(Emit(v)) <==> ScalarInside(v)
    decreases v
  {
    hide ScalarText, Digits, Quote, EmitItems, EmitMembers;
    match v
    case Null => PlainText(NULL_WORD);
    case Bool(b) => PlainText(if b then TRUE_WORD else FALSE_WORD);
    case Int(n) =>
      ScalarDigits(if n < 0 then -n else n);
      if n < 0 {
        PlainText([MINUS]);
        ScalarConcat([MINUS], Digits(-n));
      }
    case Str(s) => ScalarQuote(s);
    case Arr(items) =>
      ScalarEmitItems(items);
      ScalarWrapped(OPEN_ARRAY, EmitItems(items), CLOSE_ARRAY);
    case Obj(ms) =>
      ScalarEmitMembers(ms);
      ScalarWrapped(OPEN_OBJECT, EmitMembers(ms), CLOSE_OBJECT);
  }

  lemma {:induction false} PlainText(t: Text)
    requires forall i :: 0 <= i < |t| ==> t[i] < 0x80
    ensures ScalarText(t)
  {
  }

  lemma {:induction false} ScalarWrapped(open: nat, body: Text, close: nat)
    requires open < 0x80 && close < 0x80
    ensures ScalarText([open] + body + [close]) <==> ScalarText(body)
  {
    ScalarConcat([open], body);
    ScalarConcat([open] + body, [close]);
  }

  lemma {:induction false} ScalarEmitItems(items: Items)
    ensures ScalarText(EmitItems(items)) <==> ScalarItemsInside(items)
    decreases items
  {
    hide ScalarText, Emit;
    if items.Done? {
      PlainText([]);
    } else {
      ScalarEmit(items.first);
      if items.more.Item? {
        ScalarEmitItems(items.more);
        PlainText([COMMA]);
        ScalarConcat(Emit(items.first), [COMMA]);
        ScalarConcat(Emit(items.first) + [COMMA], EmitItems(items.more));
      }
    }
  }

  lemma {:induction false} ScalarEmitMembers(ms: Members)
    ensures ScalarText(EmitMembers(ms)) <==> ScalarMembersInside(ms)
    decreases ms
  {
    hide ScalarText, Emit, Quote;
    if ms.End? {
      PlainText([]);
    } else {
      ScalarQuote(ms.key);
      ScalarEmit(ms.value);
      PlainText([COLON]);
      var first := Quote(ms.key) + [COLON] + Emit(ms.value);
      ScalarConcat(Quote(ms.key), [COLON]);
      ScalarConcat(Quote(ms.key) + [COLON], Emit(ms.value));
      if ms.rest.Member? {
        ScalarEmitMembers(ms.rest);
        PlainText([COMMA]);
        ScalarConcat(first, [COMMA]);
        ScalarConcat(first + [COMMA], EmitMembers(ms.rest));
      }
    }
  }

  lemma {:induction false} ScalarInsert(k: Text, v: Value, ms: Members)
    ensures ScalarMembersInside(Insert(k, v, ms)) <==> ScalarMembersInside(Member(k, v, ms))
  {
    hide ScalarText, ScalarInside, KeyLess;
    if ms.Member? {
      ScalarInsert(k, v, ms.rest);
    }
  }

  lemma {:induction false} ScalarSort(ms: Members)
    ensures ScalarMembersInside(SortMembers(ms)) <==> ScalarMembersInside(ms)
  {
    hide ScalarText, ScalarInside;
    if ms.Member? {
      ScalarSort(ms.rest);
      ScalarInsert(ms.key, ms.value, SortMembers(ms.rest));
    }
  }

  lemma {:induction false} ScalarNormalize(v: Value, x: bool, nfc: Text -> bool)
    requires TextsAccepted(v, x, nfc)
    ensures ScalarInside(Normalize(v, x)) <==> ScalarStrings(v, x)
    decreases v
  {
    if v.Arr? {
      ScalarNormalizeItems(v.items, x, nfc);
    } else if v.Obj? {
      ScalarNormalizeMembers(v.members, x, nfc);
      ScalarSort(NormalizeMembers(v.members, x));
    }
  }

  lemma {:induction false} ScalarNormalizeItems(items: Items, x: bool, nfc: Text -> bool)
    requires ItemTextsAccepted(items, x, nfc)
    ensures ScalarItemsInside(NormalizeItems(items, x)) <==> ScalarItemStrings(items, x)
    decreases items
  {
    if items.Item? {
      ScalarNormalize(items.first, x, nfc);
      ScalarNormalizeItems(items.more, x, nfc);
    }
  }

  lemma {:induction false} ScalarNormalizeMembers(ms: Members, x: bool, nfc: Text -> bool)
    requires MemberTextsAccepted(ms, x, nfc)
    ensures ScalarMembersInside(NormalizeMembers(ms, x)) <==> ScalarMemberStrings(ms, x)
    decreases ms
  {
    if ms.Member? {
      if !(x && ms.value.Null?) {
        ScalarNormalize(ms.value, x, nfc);
      }
      ScalarNormalizeMembers(ms.rest, x, nfc);
    }
  }

  // ------------------------------------------------------------------ acceptance

  ghost predicate NothingAt(v: Value, d: nat, x: bool) {
    forall w :: !Within(v, w, d, x)
  }

  ghost predicate AllFine(v: Value, x: bool, nfc: Text -> bool) {
    forall w, d: nat :: Within(v, w, d, x) ==> Fine(w, x, nfc)
  }

  lemma {:induction false} FineAt(v: Value, w: Value, d: nat, x: bool, nfc: Text -> bool)
    requires AllFine(v, x, nfc) && Within(v, w, d, x)
    ensures Fine(w, x, nfc)
  {
  }

  lemma {:induction false} DepthExact(v: Value, x: bool)
    ensures Height(v, x) < 65 <==> NothingAt(v, 65, x)
  {
    hide Within, Height;
    if Height(v, x) >= 65 {
      var w := Deepest(v, 65, x);
      assert Within(v, w, 65, x);
    }
    forall w | Within(v, w, 65, x)
      ensures Height(v, x) >= 65
    {
      WithinHeight(v, w, 65, x);
    }
  }

  lemma {:induction false} FineExact(v: Value, x: bool, nfc: Text -> bool)
    ensures TextsAccepted(v, x, nfc) && ScalarStrings(v, x) <==> AllFine(v, x, nfc)
  {
    hide Within, Fine, TextsAccepted, ScalarStrings;
    if TextsAccepted(v, x, nfc) && ScalarStrings(v, x) {
      forall w, d: nat | Within(v, w, d, x)
        ensures Fine(w, x, nfc)
      {
        AcceptedIsFine(v, w, d, x, nfc);
      }
    } else {
      var w, d := Offender(v, x, nfc);
      if AllFine(v, x, nfc) {
        FineAt(v, w, d, x, nfc);
      }
    }
  }

  lemma {:induction false} CanonicalizeWhen(v: Value, x: bool, nfc: Text -> bool)
    ensures Canonicalize(v, x, nfc).Some? <==>
      Height(v, x) < 65 && TextsAccepted(v, x, nfc) && ScalarStrings(v, x)
  {
    hide Emit, Normalize, TextsAccepted, ScalarStrings, Height, ScalarText, ScalarInside;
    if TextsAccepted(v, x, nfc) {
      ScalarNormalize(v, x, nfc);
      ScalarEmit(Normalize(v, x));
    }
  }

  /**
   A value is signed exactly when nothing lies more than 64 levels inside it and, wherever it is
   kept, every string is NFC and can be encoded, every key that is kept is NFC, and every key at
   all can be encoded.
   */
  lemma {:induction false} AcceptedExactly(v: Value, x: bool, nfc: Text -> bool)
    ensures Canonicalize(v, x, nfc).Some? <==>
      NothingAt(v, 65, x) && AllFine(v, x, nfc)
  {
    hide NothingAt, AllFine, TextsAccepted, ScalarStrings, Height, Canonicalize;
    DepthExact(v, x);
    FineExact(v, x, nfc);
    CanonicalizeWhen(v, x, nfc);
  }

  // ------------------------------------------------------------------ the bytes

  /** The bytes decoded as UTF-8 and read as JSON. */
  function ReadBytes(b: seq<nat>): (v: Option<Value>) {
    var t := DecodeUtf8(b);
    if t.Some? then CanonicalReader.Read(t.value) else None
  }

  /** The signed bytes are UTF-8 of JSON text for the value without its dropped nulls and with its keys in order. */
  lemma {:induction false} SignedBytesRead(v: Value, x: bool, nfc: Text -> bool)
    requires Canonicalize(v, x, nfc).Some?
    ensures ReadBytes(Canonicalize(v, x, nfc).value) == Some(Normalize(v, x))
  {
    hide Emit, Normalize, DecodeUtf8, Utf8, CanonicalReader.Read;
    DecodeBack(Emit(Normalize(v, x)));
    CanonicalReader.RoundTrip(Normalize(v, x));
  }
}
