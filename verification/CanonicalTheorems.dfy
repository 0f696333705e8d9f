/**
 What the canonicalizer promises its callers: two values share their signed bytes exactly when
 they are the same JSON value, regardless of the order in which dictionaries were filled.
 */
module CanonicalTheorems {
  import opened Canonical
  import opened CanonicalOrder
  import CanonicalReader

  // ------------------------------------------------------------------ dictionaries

  predicate HasKey(ms: Members, k: Text) {
    ms.Member? && (ms.key == k || HasKey(ms.rest, k))
  }

  function Weight(v: Value): (w: nat)
    ensures w > 0
  {
    match v
    case Arr(items) => 1 + ItemsWeight(items)
    case Obj(members) => 1 + MembersWeight(members)
    case _ => 1
  }

  function ItemsWeight(items: Items): (w: nat) {
    match items
    case Done => 0
    case Item(v, more) => Weight(v) + ItemsWeight(more)
  }

  function MembersWeight(ms: Members): (w: nat) {
    match ms
    case End => 0
    case Member(_, v, rest) => Weight(v) + MembersWeight(rest)
  }

  function Get(ms: Members, k: Text): (v: Value)
    requires HasKey(ms, k)
    ensures Weight(v) <= MembersWeight(ms)
  {
    if ms.key == k then ms.value else Get(ms.rest, k)
  }

  predicate DistinctKeys(ms: Members) {
    ms.Member? ==> !HasKey(ms.rest, ms.key) && DistinctKeys(ms.rest)
  }

  predicate ScalarKeys(ms: Members) {
    ms.Member? ==> ScalarText(ms.key) && ScalarKeys(ms.rest)
  }

  predicate DistinctScalarKeys(ms: Members) {
    DistinctKeys(ms) && ScalarKeys(ms)
  }

  /** Every dictionary inside has distinct keys, as every Python dict does. */
  predicate DistinctDicts(v: Value) {
    match v
    case Arr(items) => DistinctItemDicts(items)
    case Obj(members) => DistinctKeys(members) && DistinctMemberDicts(members)
    case _ => true
  }

  predicate DistinctItemDicts(items: Items) {
    match items
    case Done => true
    case Item(v, more) => DistinctDicts(v) && DistinctItemDicts(more)
  }

  predicate DistinctMemberDicts(ms: Members) {
    match ms
    case End => true
    case Member(_, v, rest) => DistinctDicts(v) && DistinctMemberDicts(rest)
  }

  /** Every dictionary inside has encodable keys. */
  predicate ScalarDicts(v: Value) {
    match v
    case Arr(items) => ScalarItemDicts(items)
    case Obj(members) => ScalarKeys(members) && ScalarMemberDicts(members)
    case _ => true
  }

  predicate ScalarItemDicts(items: Items) {
    match items
    case Done => true
    case Item(v, more) => ScalarDicts(v) && ScalarItemDicts(more)
  }

  predicate ScalarMemberDicts(ms: Members) {
    match ms
    case End => true
    case Member(_, v, rest) => ScalarDicts(v) && ScalarMemberDicts(rest)
  }

  predicate Dicts(v: Value) {
    DistinctDicts(v) && ScalarDicts(v)
  }

  predicate ItemDicts(items: Items) {
    DistinctItemDicts(items) && ScalarItemDicts(items)
  }

  predicate MemberDicts(ms: Members) {
    DistinctMemberDicts(ms) && ScalarMemberDicts(ms)
  }

  /** The member survives canonicalization. */
  predicate Kept(ms: Members, k: Text, excludeNone: bool) {
    HasKey(ms, k) && !(excludeNone && Get(ms, k).Null?)
  }

  /** The same JSON value: dictionaries are compared by content, and dropped nulls do not count. */
  ghost predicate Same(v: Value, w: Value, x: bool)
    decreases Weight(v), 0
  {
    match v
    case Arr(items) => w.Arr? && SameItems(items, w.items, x)
    case Obj(ms) =>
      && w.Obj?
      && (forall k :: Kept(ms, k, x) <==> Kept(w.members, k, x))
      && (forall k | Kept(ms, k, x) && Kept(w.members, k, x) :: Same(Get(ms, k), Get(w.members, k), x))
    case _ => v == w
  }

  ghost predicate SameItems(a: Items, b: Items, x: bool)
    decreases ItemsWeight(a), 1
  {
    match a
    case Done => b.Done?
    case Item(v, more) => b.Item? && Same(v, b.first, x) && SameItems(more, b.more, x)
  }

  // ------------------------------------------------------------------ sorting

  ghost predicate AllAbove(k: Text, ms: Members) {
    ms.Member? ==> KeyLess(k, ms.key) && AllAbove(k, ms.rest)
  }

  ghost predicate Sorted(ms: Members) {
    ms.Member? ==> AllAbove(ms.key, ms.rest) && Sorted(ms.rest)
  }

  lemma {:induction false} AllAboveTransitive(j: Text, k: Text, ms: Members)
    requires KeyLess(j, k) && AllAbove(k, ms)
    ensures AllAbove(j, ms)
  {
    if ms.Member? {
      KeyTransitive(j, k, ms.key);
      AllAboveTransitive(j, k, ms.rest);
    }
  }

  lemma {:induction false} AboveHasKey(j: Text, ms: Members, k: Text)
    requires AllAbove(j, ms) && HasKey(ms, k)
    ensures KeyLess(j, k)
  {
    if ms.key != k {
      AboveHasKey(j, ms.rest, k);
    }
  }

  lemma {:induction false} HasScalarKey(ms: Members, k: Text)
    requires ScalarKeys(ms) && HasKey(ms, k)
    ensures ScalarText(k)
  {
    if ms.key != k {
      HasScalarKey(ms.rest, k);
    }
  }

  lemma {:induction false} InsertHas(k: Text, v: Value, ms: Members, j: Text)
    ensures HasKey(Insert(k, v, ms), j) <==> j == k || HasKey(ms, j)
    ensures !HasKey(ms, k) && HasKey(Insert(k, v, ms), j) ==>
      Get(Insert(k, v, ms), j) == if j == k then v else Get(ms, j)
  {
    if ms.Member? {
      InsertHas(k, v, ms.rest, j);
    }
  }

  lemma {:induction false} InsertAbove(j: Text, k: Text, v: Value, ms: Members)
    requires KeyLess(j, k) && AllAbove(j, ms)
    ensures AllAbove(j, Insert(k, v, ms))
  {
    if ms.Member? {
      InsertAbove(j, k, v, ms.rest);
    }
  }

  lemma {:induction false} InsertSorted(k: Text, v: Value, ms: Members)
    requires Sorted(ms) && ScalarKeys(ms) && ScalarText(k) && !HasKey(ms, k)
    ensures Sorted(Insert(k, v, ms)) && ScalarKeys(Insert(k, v, ms))
  {
    if ms.Member? {
      KeyTotal(k, ms.key);
      if KeyLess(k, ms.key) {
        AllAboveTransitive(k, ms.key, ms.rest);
      } else {
        InsertSorted(k, v, ms.rest);
        InsertAbove(ms.key, k, v, ms.rest);
      }
    }
  }

  lemma {:induction false} SortHas(ms: Members, j: Text)
    requires DistinctScalarKeys(ms)
    ensures HasKey(SortMembers(ms), j) <==> HasKey(ms, j)
    ensures HasKey(ms, j) ==> Get(SortMembers(ms), j) == Get(ms, j)
  {
    if ms.Member? {
      SortHas(ms.rest, j);
      SortHas(ms.rest, ms.key);
      InsertHas(ms.key, ms.value, SortMembers(ms.rest), j);
    }
  }

  lemma {:induction false} SortSorted(ms: Members)
    requires DistinctScalarKeys(ms)
    ensures Sorted(SortMembers(ms)) && ScalarKeys(SortMembers(ms))
  {
    if ms.Member? {
      SortSorted(ms.rest);
      SortHas(ms.rest, ms.key);
      InsertSorted(ms.key, ms.value, SortMembers(ms.rest));
    }
  }

  ghost predicate SameContent(a: Members, b: Members) {
    && (forall k :: HasKey(a, k) <==> HasKey(b, k))
    && (forall k | HasKey(a, k) && HasKey(b, k) :: Get(a, k) == Get(b, k))
  }

  lemma {:induction false} SortedHead(a: Members, b: Members)
    requires Sorted(a) && Sorted(b) && ScalarKeys(a) && ScalarKeys(b) && SameContent(a, b)
    requires a.Member? && b.Member?
    ensures a.key == b.key && a.value == b.value
  {
    assert HasKey(a, a.key) && HasKey(b, b.key);
    KeyTotal(a.key, b.key);
    if a.key != b.key {
      AboveHasKey(a.key, a.rest, b.key);
      AboveHasKey(b.key, b.rest, a.key);
    }
    assert Get(a, a.key) == Get(b, a.key);
  }

  lemma {:induction false} SortedTail(a: Members, b: Members)
    requires Sorted(a) && Sorted(b) && ScalarKeys(a) && ScalarKeys(b) && SameContent(a, b)
    requires a.Member? && b.Member? && a.key == b.key
    ensures SameContent(a.rest, b.rest)
  {
    KeyTotal(a.key, a.key);
    forall k
      ensures HasKey(a.rest, k) <==> HasKey(b.rest, k)
      ensures HasKey(a.rest, k) && HasKey(b.rest, k) ==> Get(a.rest, k) == Get(b.rest, k)
    {
      assert HasKey(a, k) <==> HasKey(b, k);
      if HasKey(a.rest, a.key) {
        AboveHasKey(a.key, a.rest, a.key);
      }
      if HasKey(b.rest, a.key) {
        AboveHasKey(a.key, b.rest, a.key);
      }
      if HasKey(a.rest, k) && HasKey(b.rest, k) {
        assert Get(a, k) == Get(b, k);
      }
    }
  }

  /** A sorted dictionary is determined by its content. */
  lemma {:induction false} SortedUnique(a: Members, b: Members)
    requires Sorted(a) && Sorted(b) && ScalarKeys(a) && ScalarKeys(b) && SameContent(a, b)
    ensures a == b
  {
    if a.Member? && b.Member? {
      SortedHead(a, b);
      SortedTail(a, b);
      SortedUnique(a.rest, b.rest);
    } else if a.Member? {
      assert HasKey(a, a.key);
    } else if b.Member? {
      assert HasKey(b, b.key);
    }
  }

  // ------------------------------------------------------------------ normalizing

  lemma {:induction false} NormalizeHas(ms: Members, x: bool, k: Text)
    requires DistinctScalarKeys(ms)
    ensures HasKey(NormalizeMembers(ms, x), k) <==> Kept(ms, k, x)
    ensures Kept(ms, k, x) ==> Get(NormalizeMembers(ms, x), k) == Normalize(Get(ms, k), x)
  {
    if ms.Member? {
      NormalizeHas(ms.rest, x, k);
    }
  }

  lemma {:induction false} NormalizeDistinct(ms: Members, x: bool)
    requires DistinctScalarKeys(ms)
    ensures DistinctScalarKeys(NormalizeMembers(ms, x))
  {
    if ms.Member? {
      NormalizeDistinct(ms.rest, x);
      NormalizeHas(ms.rest, x, ms.key);
    }
  }

  lemma {:induction false} NormalizedObject(ms: Members, x: bool, k: Text)
    requires DistinctScalarKeys(ms)
    ensures var r := SortMembers(NormalizeMembers(ms, x));
      && (HasKey(r, k) <==> Kept(ms, k, x))
      && (Kept(ms, k, x) ==> Get(r, k) == Normalize(Get(ms, k), x))
  {
    NormalizeHas(ms, x, k);
    NormalizeDistinct(ms, x);
    SortHas(NormalizeMembers(ms, x), k);
  }

  lemma {:induction false} GetDicts(ms: Members, k: Text)
    requires MemberDicts(ms) && HasKey(ms, k)
    ensures Dicts(Get(ms, k))
  {
    if ms.key != k {
      GetDicts(ms.rest, k);
    }
  }

  /** Normal forms are equal exactly for the same JSON value. */
  lemma {:induction false} NormalizeExact(v: Value, w: Value, x: bool)
    requires Dicts(v) && Dicts(w)
    ensures Normalize(v, x) == Normalize(w, x) <==> Same(v, w, x)
    decreases Weight(v), 0
  {
    if v.Arr? && w.Arr? {
      NormalizeItemsExact(v.items, w.items, x);
    } else if v.Obj? && w.Obj? {
      NormalizeObjectExact(v.members, w.members, x);
    }
  }

  lemma {:induction false} NormalizeItemsExact(a: Items, b: Items, x: bool)
    requires ItemDicts(a) && ItemDicts(b)
    ensures NormalizeItems(a, x) == NormalizeItems(b, x) <==> SameItems(a, b, x)
    decreases ItemsWeight(a), 1
  {
    if a.Item? && b.Item? {
      NormalizeExact(a.first, b.first, x);
      NormalizeItemsExact(a.more, b.more, x);
    }
  }

  lemma {:induction false} NormalizeObjectExact(a: Members, b: Members, x: bool)
    requires DistinctScalarKeys(a) && DistinctScalarKeys(b) && MemberDicts(a) && MemberDicts(b)
    ensures SortMembers(NormalizeMembers(a, x)) == SortMembers(NormalizeMembers(b, x))
       <==> Same(Obj(a), Obj(b), x)
    decreases MembersWeight(a), 2
  {
    var r, s := SortMembers(NormalizeMembers(a, x)), SortMembers(NormalizeMembers(b, x));
    forall k
      ensures HasKey(r, k) <==> Kept(a, k, x)
      ensures HasKey(s, k) <==> Kept(b, k, x)
      ensures HasKey(r, k) && HasKey(s, k) ==> (Get(r, k) == Get(s, k) <==> Same(Get(a, k), Get(b, k), x))
    {
      NormalizedMemberExact(a, b, x, k);
    }
    if Same(Obj(a), Obj(b), x) {
      NormalizeDistinct(a, x);
      NormalizeDistinct(b, x);
      SortSorted(NormalizeMembers(a, x));
      SortSorted(NormalizeMembers(b, x));
      SortedUnique(r, s);
    }
  }

  lemma {:induction false} NormalizedMemberExact(a: Members, b: Members, x: bool, k: Text)
    requires DistinctScalarKeys(a) && DistinctScalarKeys(b) && MemberDicts(a) && MemberDicts(b)
    ensures var r, s := SortMembers(NormalizeMembers(a, x)), SortMembers(NormalizeMembers(b, x));
      && (HasKey(r, k) <==> Kept(a, k, x))
      && (HasKey(s, k) <==> Kept(b, k, x))
      && (HasKey(r, k) && HasKey(s, k) ==> (Get(r, k) == Get(s, k) <==> Same(Get(a, k), Get(b, k), x)))
    decreases MembersWeight(a), 1
  {
    NormalizedObject(a, x, k);
    NormalizedObject(b, x, k);
    if Kept(a, k, x) && Kept(b, k, x) {
      GetDicts(a, k);
      GetDicts(b, k);
      NormalizeExact(Get(a, k), Get(b, k), x);
    }
  }

  // ------------------------------------------------------------------ the signed bytes

  lemma {:induction false} AcceptedKeys(v: Value, x: bool, nfc: Text -> bool)
    requires TextsAccepted(v, x, nfc) && DistinctDicts(v)
    ensures Dicts(v)
  {
    match v
    case Arr(items) => AcceptedItemKeys(items, x, nfc);
    case Obj(members) => AcceptedMemberKeys(members, x, nfc);
    case _ =>
  }

  lemma {:induction false} AcceptedItemKeys(items: Items, x: bool, nfc: Text -> bool)
    requires ItemTextsAccepted(items, x, nfc) && DistinctItemDicts(items)
    ensures ItemDicts(items)
  {
    if items.Item? {
      AcceptedKeys(items.first, x, nfc);
      AcceptedItemKeys(items.more, x, nfc);
    }
  }

  lemma {:induction false} AcceptedMemberKeys(ms: Members, x: bool, nfc: Text -> bool)
    requires MemberTextsAccepted(ms, x, nfc) && DistinctKeys(ms) && DistinctMemberDicts(ms)
    ensures DistinctScalarKeys(ms) && MemberDicts(ms)
  {
    if ms.Member? {
      if !(x && ms.value.Null?) {
        AcceptedKeys(ms.value, x, nfc);
      }
      AcceptedMemberKeys(ms.rest, x, nfc);
    }
  }

  /**
   Equal bytes exactly for the same JSON value: what is signed determines the value up to
   dropped null members, and filling a dictionary in another order changes nothing.
   */
  lemma {:induction false} SignedBytesExact(v: Value, w: Value, x: bool, nfc: Text -> bool)
    requires DistinctDicts(v) && DistinctDicts(w)
    requires Canonicalize(v, x, nfc).Some? && Canonicalize(w, x, nfc).Some?
    ensures Canonicalize(v, x, nfc) == Canonicalize(w, x, nfc) <==> Same(v, w, x)
  {
    hide Emit, Normalize, Utf8, ScalarText, Same, TextsAccepted, Dicts, CanonicalReader.Read;
    AcceptedKeys(v, x, nfc);
    AcceptedKeys(w, x, nfc);
    NormalizeExact(v, w, x);
    var a, b := Emit(Normalize(v, x)), Emit(Normalize(w, x));
    if Utf8(a) == Utf8(b) {
      Utf8Injective(a, b);
      CanonicalReader.RoundTrip(Normalize(v, x));
      CanonicalReader.RoundTrip(Normalize(w, x));
    }
  }

  // ------------------------------------------------------------------ insertion order

  lemma {:induction false} InsertMeasures(k: Text, v: Value, ms: Members, x: bool, nfc: Text -> bool)
    ensures MembersWeight(Insert(k, v, ms)) == Weight(v) + MembersWeight(ms)
    ensures MembersHeight(Insert(k, v, ms), x) == MembersHeight(Member(k, v, ms), x)
    ensures MemberTextsAccepted(Insert(k, v, ms), x, nfc) <==> MemberTextsAccepted(Member(k, v, ms), x, nfc)
    ensures DistinctMemberDicts(Insert(k, v, ms)) <==> DistinctMemberDicts(Member(k, v, ms))
  {
    if ms.Member? {
      InsertMeasures(k, v, ms.rest, x, nfc);
    }
  }

  lemma {:induction false} SortMeasures(ms: Members, x: bool, nfc: Text -> bool)
    ensures MembersWeight(SortMembers(ms)) == MembersWeight(ms)
    ensures MembersHeight(SortMembers(ms), x) == MembersHeight(ms, x)
    ensures MemberTextsAccepted(SortMembers(ms), x, nfc) <==> MemberTextsAccepted(ms, x, nfc)
    ensures DistinctMemberDicts(SortMembers(ms)) <==> DistinctMemberDicts(ms)
  {
    if ms.Member? {
      SortMeasures(ms.rest, x, nfc);
      InsertMeasures(ms.key, ms.value, SortMembers(ms.rest), x, nfc);
    }
  }

  lemma {:induction false} AcceptedAreScalar(ms: Members, x: bool, nfc: Text -> bool)
    requires MemberTextsAccepted(ms, x, nfc)
    ensures ScalarKeys(ms)
  {
    if ms.Member? {
      AcceptedAreScalar(ms.rest, x, nfc);
    }
  }

  lemma {:induction false} ScalarByKeys(ms: Members)
    requires forall k :: HasKey(ms, k) ==> ScalarText(k)
    ensures ScalarKeys(ms)
  {
    if ms.Member? {
      assert HasKey(ms, ms.key);
      forall k | HasKey(ms.rest, k)
        ensures ScalarText(k)
      {
        assert HasKey(ms, k);
      }
      ScalarByKeys(ms.rest);
    }
  }

  /** Acceptance and nesting do not depend on the order either. */
  lemma {:induction false} OrderMeasures(ms: Members, ns: Members, x: bool, nfc: Text -> bool)
    requires DistinctKeys(ms) && DistinctKeys(ns) && SameContent(ms, ns) && MemberTextsAccepted(ms, x, nfc)
    ensures MemberTextsAccepted(ns, x, nfc) && MembersHeight(ns, x) == MembersHeight(ms, x)
  {
    hide MemberTextsAccepted, MembersHeight, KeyLess, ScalarText, HasKey, Get;
    AcceptedAreScalar(ms, x, nfc);
    forall k | HasKey(ns, k)
      ensures ScalarText(k)
    {
      HasScalarKey(ms, k);
    }
    ScalarByKeys(ns);
    var a, b := SortMembers(ms), SortMembers(ns);
    SortSorted(ms);
    SortSorted(ns);
    forall k
      ensures HasKey(a, k) <==> HasKey(b, k)
      ensures HasKey(a, k) && HasKey(b, k) ==> Get(a, k) == Get(b, k)
    {
      SortHas(ms, k);
      SortHas(ns, k);
    }
    SortedUnique(a, b);
    SortMeasures(ms, x, nfc);
    SortMeasures(ns, x, nfc);
  }

  /** Dictionaries with the same content, filled in any order, are refused alike and signed alike. */
  lemma {:induction false} InsertionOrderIrrelevant(ms: Members, ns: Members, x: bool, nfc: Text -> bool)
    requires DistinctDicts(Obj(ms)) && DistinctDicts(Obj(ns)) && SameContent(ms, ns)
    ensures Canonicalize(Obj(ms), x, nfc) == Canonicalize(Obj(ns), x, nfc)
  {
    hide Emit, Normalize, ScalarText, Utf8, Get, HasKey;
    if MemberTextsAccepted(ms, x, nfc) {
      OrderMeasures(ms, ns, x, nfc);
      AcceptedKeys(Obj(ms), x, nfc);
      AcceptedKeys(Obj(ns), x, nfc);
      SameByContent(ms, ns, x);
      NormalizeExact(Obj(ms), Obj(ns), x);
    } else if MemberTextsAccepted(ns, x, nfc) {
      OrderMeasures(ns, ms, x, nfc);
    }
  }

  lemma {:induction false} SameByContent(ms: Members, ns: Members, x: bool)
    requires SameContent(ms, ns)
    ensures Same(Obj(ms), Obj(ns), x)
  {
    forall k
      ensures Kept(ms, k, x) <==> Kept(ns, k, x)
      ensures Kept(ms, k, x) && Kept(ns, k, x) ==> Same(Get(ms, k), Get(ns, k), x)
    {
      if Kept(ms, k, x) && Kept(ns, k, x) {
        SameReflexive(Get(ms, k), x);
      }
    }
  }

  lemma {:induction false} SameReflexive(v: Value, x: bool)
    ensures Same(v, v, x)
    decreases Weight(v), 0
  {
    if v.Arr? {
      SameItemsReflexive(v.items, x);
    } else if v.Obj? {
      forall k | Kept(v.members, k, x)
        ensures Same(Get(v.members, k), Get(v.members, k), x)
      {
        SameReflexive(Get(v.members, k), x);
      }
    }
  }

  lemma {:induction false} SameItemsReflexive(items: Items, x: bool)
    ensures SameItems(items, items, x)
    decreases ItemsWeight(items), 1
  {
    if items.Item? {
      SameReflexive(items.first, x);
      SameItemsReflexive(items.more, x);
    }
  }
}
