/**
 The serializer as the source runs it (`python/src/wcm/_canonicalize.py:76-163`): strings and
 dictionaries are built piece by piece in a buffer, keys are sorted before their values are
 visited, and a refusal anywhere is a refusal of the whole (None, for the raised ValueError).
 Each loop is proved against `Emit`, `Normalize` and the conditions under which
 `Canonicalize` yields bytes.
 */
module CanonicalCode {
  import opened Wrappers
  import opened Canonical
  import opened CanonicalTheorems

  // ------------------------------------------------------------------ strings

  lemma {:induction false} EscapeAllSnoc(s: Text, i: nat)
    requires i < |s|
    ensures EscapeAll(s[..i + 1]) == EscapeAll(s[..i]) + Escape(s[i])
  {
    EscapeAllConcat(s[..i], [s[i]]);
    assert s[..i + 1] == s[..i] + [s[i]];
    assert EscapeAll([s[i]]) == Escape(s[i]) + EscapeAll([]);
  }

  lemma {:induction false} EscapeAllConcat(a: Text, b: Text)
    ensures EscapeAll(a + b) == EscapeAll(a) + EscapeAll(b)
  {
    if a == [] {
      assert a + b == b;
    } else {
      assert (a + b)[1..] == a[1..] + b;
      EscapeAllConcat(a[1..], b);
    }
  }

  method EscapeChar(cp: nat) returns (piece: Text)
    ensures piece == Escape(cp)
  {
    if cp == QUOTE {
      piece := [BACKSLASH, QUOTE];
    } else if cp == BACKSLASH {
      piece := [BACKSLASH, BACKSLASH];
    } else if cp == 0x08 {
      piece := [BACKSLASH, 0x62];
    } else if cp == 0x0C {
      piece := [BACKSLASH, 0x66];
    } else if cp == 0x0A {
      piece := [BACKSLASH, 0x6E];
    } else if cp == 0x0D {
      piece := [BACKSLASH, 0x72];
    } else if cp == 0x09 {
      piece := [BACKSLASH, 0x74];
    } else if cp <= 0x1F || 0x7F <= cp <= 0x9F || cp == 0x2028 || cp == 0x2029 {
      piece := [BACKSLASH, LOWER_U,
                HexDigit(cp / 4096), HexDigit(cp / 256 % 16), HexDigit(cp / 16 % 16), HexDigit(cp % 16)];
    } else {
      piece := [cp];
    }
  }

  method QuoteText(s: Text, nfc: Text -> bool) returns (r: Option<Text>)
    ensures r == if nfc(s) then Some(Quote(s)) else None
  {
    if !nfc(s) {
      return None;
    }
    var buf: Text := [QUOTE];
    for i := 0 to |s|
      invariant buf == [QUOTE] + EscapeAll(s[..i])
    {
      EscapeAllSnoc(s, i);
      var piece := EscapeChar(s[i]);
      buf := buf + piece;
    }
    assert s[..|s|] == s;
    return Some(buf + [QUOTE]);
  }

  // ------------------------------------------------------------------ joining

  /** `",".join(parts)` */
  function Join(parts: seq<Text>): (t: Text) {
    if |parts| == 0 then []
    else if |parts| == 1 then parts[0]
    else parts[0] + [COMMA] + Join(parts[1..])
  }

  function ItemParts(items: Items): (parts: seq<Text>) {
    if items.Done? then [] else [Emit(items.first)] + ItemParts(items.more)
  }

  function MemberParts(ms: Members): (parts: seq<Text>) {
    if ms.End? then [] else [Quote(ms.key) + [COLON] + Emit(ms.value)] + MemberParts(ms.rest)
  }

  lemma {:induction false} JoinItems(items: Items)
    ensures Join(ItemParts(items)) == EmitItems(items)
  {
    if items.Item? {
      JoinItems(items.more);
      assert ItemParts(items)[1..] == ItemParts(items.more);
    }
  }

  lemma {:induction false} JoinMembers(ms: Members)
    ensures Join(MemberParts(ms)) == EmitMembers(ms)
  {
    if ms.Member? {
      JoinMembers(ms.rest);
      assert MemberParts(ms)[1..] == MemberParts(ms.rest);
    }
  }

  // ------------------------------------------------------------------ sorting first or normalizing first

  lemma {:induction false} NormalizeAbove(k: Text, ms: Members, x: bool)
    requires AllAbove(k, ms)
    ensures AllAbove(k, NormalizeMembers(ms, x))
  {
    if ms.Member? {
      NormalizeAbove(k, ms.rest, x);
    }
  }

  lemma {:induction false} InsertBelow(k: Text, v: Value, ms: Members)
    requires AllAbove(k, ms)
    ensures Insert(k, v, ms) == Member(k, v, ms)
  {
  }

  lemma {:induction false} NormalizeInsert(k: Text, v: Value, ms: Members, x: bool)
    requires Sorted(ms)
    ensures NormalizeMembers(Insert(k, v, ms), x) ==
      if x && v.Null? then NormalizeMembers(ms, x) else Insert(k, Normalize(v, x), NormalizeMembers(ms, x))
  {
    if ms.Member? {
      if KeyLess(k, ms.key) {
        AllAboveTransitive(k, ms.key, ms.rest);
        NormalizeAbove(k, ms, x);
        InsertBelow(k, Normalize(v, x), NormalizeMembers(ms, x));
      } else {
        NormalizeInsert(k, v, ms.rest, x);
      }
    }
  }

  lemma {:induction false} NormalizeSort(ms: Members, x: bool)
    requires DistinctScalarKeys(ms)
    ensures NormalizeMembers(SortMembers(ms), x) == SortMembers(NormalizeMembers(ms, x))
  {
    if ms.Member? {
      NormalizeSort(ms.rest, x);
      SortSorted(ms.rest);
      NormalizeInsert(ms.key, ms.value, SortMembers(ms.rest), x);
    }
  }

  // ------------------------------------------------------------------ values

  /** What is known after part of an array was written: `cur` is still to come. */
  ghost predicate ItemsLeft(items: Items, cur: Items, parts: seq<Text>, x: bool, nfc: Text -> bool, limit: int) {
    && parts + ItemParts(NormalizeItems(cur, x)) == ItemParts(NormalizeItems(items, x))
    && (ItemsHeight(items, x) <= limit <==> ItemsHeight(cur, x) <= limit)
    && (ItemTextsAccepted(items, x, nfc) <==> ItemTextsAccepted(cur, x, nfc))
  }

  lemma {:induction false} ItemsLeftStep(items: Items, cur: Items, parts: seq<Text>, x: bool, nfc: Text -> bool,
                                         limit: int)
    requires cur.Item? && ItemsLeft(items, cur, parts, x, nfc, limit)
    ensures 1 + Height(cur.first, x) <= limit && TextsAccepted(cur.first, x, nfc) ==>
      ItemsLeft(items, cur.more, parts + [Emit(Normalize(cur.first, x))], x, nfc, limit)
    ensures !(1 + Height(cur.first, x) <= limit && TextsAccepted(cur.first, x, nfc)) ==>
      !(ItemsHeight(items, x) <= limit && ItemTextsAccepted(items, x, nfc))
  {
    hide Emit, Normalize, Height, TextsAccepted;
    var part := Emit(Normalize(cur.first, x));
    assert parts + ([part] + ItemParts(NormalizeItems(cur.more, x)))
        == parts + [part] + ItemParts(NormalizeItems(cur.more, x));
  }

  /** The same for the sorted members of a dictionary. */
  ghost predicate MembersLeft(ms: Members, cur: Members, parts: seq<Text>, x: bool, nfc: Text -> bool, limit: int) {
    && parts + MemberParts(NormalizeMembers(cur, x)) == MemberParts(SortMembers(NormalizeMembers(ms, x)))
    && (MembersHeight(ms, x) <= limit <==> MembersHeight(cur, x) <= limit)
    && (MemberTextsAccepted(ms, x, nfc) <==> MemberTextsAccepted(cur, x, nfc))
  }

  predicate MemberAccepted(k: Text, v: Value, x: bool, nfc: Text -> bool, limit: int) {
    nfc(k) && 1 + Height(v, x) <= limit && TextsAccepted(v, x, nfc)
  }

  lemma {:induction false} MembersLeftKept(ms: Members, cur: Members, parts: seq<Text>, x: bool, nfc: Text -> bool,
                                           limit: int)
    requires cur.Member? && ScalarKeys(cur) && MembersLeft(ms, cur, parts, x, nfc, limit)
    requires !(x && cur.value.Null?)
    ensures MemberAccepted(cur.key, cur.value, x, nfc, limit) ==>
      MembersLeft(ms, cur.rest, parts + [Quote(cur.key) + [COLON] + Emit(Normalize(cur.value, x))], x, nfc, limit)
    ensures !MemberAccepted(cur.key, cur.value, x, nfc, limit) ==>
      !(MembersHeight(ms, x) <= limit && MemberTextsAccepted(ms, x, nfc))
  {
    hide Emit, Normalize, Height, TextsAccepted, SortMembers, Quote;
    var part := Quote(cur.key) + [COLON] + Emit(Normalize(cur.value, x));
    assert parts + ([part] + MemberParts(NormalizeMembers(cur.rest, x)))
        == parts + [part] + MemberParts(NormalizeMembers(cur.rest, x));
  }

  lemma {:induction false} MembersLeftDropped(ms: Members, cur: Members, parts: seq<Text>, x: bool, nfc: Text -> bool,
                                              limit: int)
    requires cur.Member? && ScalarKeys(cur) && MembersLeft(ms, cur, parts, x, nfc, limit)
    requires x && cur.value.Null?
    ensures MembersLeft(ms, cur.rest, parts, x, nfc, limit)
  {
  }

  method Serialize(v: Value, x: bool, nfc: Text -> bool, depth: nat) returns (r: Option<Text>)
    requires DistinctDicts(v)
    ensures r == if depth + Height(v, x) <= MAX_DEPTH && TextsAccepted(v, x, nfc)
                 then Some(Emit(Normalize(v, x))) else None
    decreases Weight(v), 0
  {
    if depth > MAX_DEPTH {
      return None;
    }
    match v {
      case Null => return Some(NULL_WORD);
      case Bool(b) => return Some(if b then TRUE_WORD else FALSE_WORD);
      case Int(n) => return Some(Decimal(n));
      case Str(s) =>
        r := QuoteText(s, nfc);
      case Arr(items) =>
        r := SerializeItems(items, x, nfc, depth + 1);
      case Obj(members) =>
        r := SerializeDict(members, x, nfc, depth + 1);
    }
  }

  method SerializeItems(items: Items, x: bool, nfc: Text -> bool, depth: nat) returns (r: Option<Text>)
    requires DistinctItemDicts(items) && 0 < depth <= MAX_DEPTH + 1
    ensures r == if ItemsHeight(items, x) <= MAX_DEPTH + 1 - depth && ItemTextsAccepted(items, x, nfc)
                 then Some([OPEN_ARRAY] + EmitItems(NormalizeItems(items, x)) + [CLOSE_ARRAY]) else None
    decreases ItemsWeight(items), 1
  {
    var parts: seq<Text> := [];
    var cur := items;
    ghost var limit := MAX_DEPTH + 1 - depth;
    assert [] + ItemParts(NormalizeItems(items, x)) == ItemParts(NormalizeItems(items, x));
    while cur.Item?
      invariant DistinctItemDicts(cur) && ItemsWeight(cur) <= ItemsWeight(items)
      invariant ItemsLeft(items, cur, parts, x, nfc, limit)
      decreases cur
    {
      hide ItemsLeft, Emit, Normalize, Height, TextsAccepted, ItemsHeight, ItemTextsAccepted, EmitItems, NormalizeItems;
      ItemsLeftStep(items, cur, parts, x, nfc, limit);
      var part := Serialize(cur.first, x, nfc, depth);
      if part.None? {
        return None;
      }
      parts := parts + [part.value];
      cur := cur.more;
    }
    JoinItems(NormalizeItems(items, x));
    assert parts == ItemParts(NormalizeItems(items, x));
    return Some([OPEN_ARRAY] + Join(parts) + [CLOSE_ARRAY]);
  }

  method SerializeDict(ms: Members, x: bool, nfc: Text -> bool, depth: nat) returns (r: Option<Text>)
    requires DistinctKeys(ms) && DistinctMemberDicts(ms) && 0 < depth <= MAX_DEPTH + 1
    ensures r == if MembersHeight(ms, x) <= MAX_DEPTH + 1 - depth && MemberTextsAccepted(ms, x, nfc)
                 then Some([OPEN_OBJECT] + EmitMembers(SortMembers(NormalizeMembers(ms, x))) + [CLOSE_OBJECT])
                 else None
    decreases MembersWeight(ms), 1
  {
    if !ScalarKeys(ms) {
      if MemberTextsAccepted(ms, x, nfc) {
        AcceptedAreScalar(ms, x, nfc);
      }
      return None;
    }
    ghost var limit := MAX_DEPTH + 1 - depth;
    var parts: seq<Text> := [];
    var cur := SortMembers(ms);
    SortedForWriting(ms, x, nfc, limit);
    while cur.Member?
      invariant DistinctMemberDicts(cur) && MembersWeight(cur) <= MembersWeight(ms) && ScalarKeys(cur)
      invariant MembersLeft(ms, cur, parts, x, nfc, limit)
      decreases cur
    {
      hide MembersLeft, Emit, Normalize, Height, TextsAccepted, MembersHeight, MemberTextsAccepted, EmitMembers,
           NormalizeMembers, SortMembers;
      if x && cur.value.Null? {
        MembersLeftDropped(ms, cur, parts, x, nfc, limit);
      } else {
        MembersLeftKept(ms, cur, parts, x, nfc, limit);
        var key := QuoteText(cur.key, nfc);
        if key.None? {
          return None;
        }
        var value := Serialize(cur.value, x, nfc, depth);
        if value.None? {
          return None;
        }
        parts := parts + [key.value + [COLON] + value.value];
      }
      cur := cur.rest;
    }
    JoinMembers(SortMembers(NormalizeMembers(ms, x)));
    assert parts == MemberParts(SortMembers(NormalizeMembers(ms, x)));
    return Some([OPEN_OBJECT] + Join(parts) + [CLOSE_OBJECT]);
  }

  lemma {:induction false} SortedForWriting(ms: Members, x: bool, nfc: Text -> bool, limit: int)
    requires DistinctKeys(ms) && DistinctMemberDicts(ms) && ScalarKeys(ms)
    ensures var cur := SortMembers(ms);
      && DistinctMemberDicts(cur) && MembersWeight(cur) == MembersWeight(ms) && ScalarKeys(cur)
      && MembersLeft(ms, cur, [], x, nfc, limit)
  {
    SortSorted(ms);
    NormalizeSort(ms, x);
    SortMeasures(ms, x, nfc);
    var kept := NormalizeMembers(SortMembers(ms), x);
    assert [] + MemberParts(kept) == MemberParts(kept);
  }

  method CanonicalBytes(v: Value, x: bool, nfc: Text -> bool) returns (bytes: Option<seq<nat>>)
    requires DistinctDicts(v)
    ensures bytes == Canonicalize(v, x, nfc)
  {
    var text := Serialize(v, x, nfc, 0);
    if text.None? || !ScalarText(text.value) {
      return None;
    }
    return Some(Utf8(text.value));
  }
}
