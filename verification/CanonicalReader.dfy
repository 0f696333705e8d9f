/**
 A reader for the canonical text of `python/src/wcm/_canonicalize.py`, and the proof that it
 recovers every value that was spelled. The source has no reader: this one follows the grammar of
 RFC 8259 in its own code points and shares none of the writer's, so the text not only determines
 the value, it is JSON for it.
 */
module CanonicalReader {
  import opened Wrappers
  import opened Canonical

  // ------------------------------------------------------------------ reading

  /** A decimal digit. */
  predicate IsDigit(c: nat) {
    0x30 <= c <= 0x39
  }

  /** A lower-case hexadecimal digit; None for anything else. */
  function HexValue(c: nat): (d: Option<nat>) {
    if 0x61 <= c <= 0x66 then Some(c - 0x57) else if 0x30 <= c <= 0x39 then Some(c - 0x30) else None
  }

  /** Four of them. */
  function HexNumber(t: Text): (n: Option<nat>)
    requires |t| == 4
  {
    var a, b, c, d := HexValue(t[0]), HexValue(t[1]), HexValue(t[2]), HexValue(t[3]);
    if a.None? || b.None? || c.None? || d.None? then None
    else Some(((a.value * 16 + b.value) * 16 + c.value) * 16 + d.value)
  }

  /** Section 7 of RFC 8259: what the letter after a backslash stands for. */
  function FromLetter(letter: nat): (c: Option<nat>) {
    match letter
    case 0x22 => Some(0x22)    // quotation mark
    case 0x5C => Some(0x5C)    // reverse solidus
    case 0x62 => Some(0x08)    // b, backspace
    case 0x66 => Some(0x0C)    // f, form feed
    case 0x6E => Some(0x0A)    // n, line feed
    case 0x72 => Some(0x0D)    // r, carriage return
    case 0x74 => Some(0x09)    // t, tab
    case _ => None
  }

  /** The characters up to the closing quote, and what follows it. Control characters must be escaped. */
  function ReadBody(t: Text): (r: Option<(Text, Text)>)
    ensures r.Some? ==> |r.value.1| < |t|
  {
    if t == [] then None
    else if t[0] == 0x22 then Some(([], t[1..]))
    else if t[0] < 0x20 then None
    else if t[0] != 0x5C then Prepend(Some(t[0]), ReadBody(t[1..]))
    else if |t| < 2 then None
    else if t[1] != 0x75 then Prepend(FromLetter(t[1]), ReadBody(t[2..]))
    else if |t| < 6 then None
    else Prepend(HexNumber(t[2..6]), ReadBody(t[6..]))
  }

  function Prepend(c: Option<nat>, r: Option<(Text, Text)>): (p: Option<(Text, Text)>) {
    if c.Some? && r.Some? then Some(([c.value] + r.value.0, r.value.1)) else None
  }

  function ReadString(t: Text): (r: Option<(Text, Text)>)
    ensures r.Some? ==> |r.value.1| < |t|
  {
    if t != [] && t[0] == 0x22 then ReadBody(t[1..]) else None
  }

  /** The leading digits of a text, and the rest. */
  function TakeDigits(t: Text): (r: (Text, Text))
    ensures |r.1| <= |t|
    ensures t != [] && IsDigit(t[0]) ==> |r.1| < |t|
  {
    if t == [] || !IsDigit(t[0]) then ([], t)
    else ([t[0]] + TakeDigits(t[1..]).0, TakeDigits(t[1..]).1)
  }

  function NumberOf(digits: Text): (n: nat) {
    if digits == [] then 0
    else
      var last := |digits| - 1;
      NumberOf(digits[..last]) * 10 + if IsDigit(digits[last]) then digits[last] - 0x30 else 0
  }

  /** Section 6 of RFC 8259, integers only: no leading zero, and no negative zero. */
  function ReadNatural(t: Text, zero: bool): (r: Option<(nat, Text)>)
    ensures r.Some? ==> |r.value.1| < |t|
  {
    if t == [] || !IsDigit(t[0]) then None
    else if t[0] == 0x30 then if zero then Some((0, t[1..])) else None
    else Some((NumberOf(TakeDigits(t).0), TakeDigits(t).1))
  }

  function ReadWord(t: Text, word: Text, v: Value): (r: Option<(Value, Text)>)
    requires word != []
    ensures r.Some? ==> |r.value.1| < |t|
  {
    if word <= t then Some((v, t[|word|..])) else None
  }

  /** Section 3 of RFC 8259, without white space and fractions. */
  function ReadValue(t: Text): (r: Option<(Value, Text)>)
    ensures r.Some? ==> |r.value.1| < |t|
    decreases |t|, 0
  {
    if t == [] then None
    else if t[0] == 0x6E then ReadWord(t, [0x6E, 0x75, 0x6C, 0x6C], Null)
    else if t[0] == 0x74 then ReadWord(t, [0x74, 0x72, 0x75, 0x65], Bool(true))
    else if t[0] == 0x66 then ReadWord(t, [0x66, 0x61, 0x6C, 0x73, 0x65], Bool(false))
    else if t[0] == 0x22 then
      var s := ReadString(t);
      if s.Some? then Some((Str(s.value.0), s.value.1)) else None
    else if t[0] == 0x2D then
      var n := ReadNatural(t[1..], false);
      if n.Some? then Some((Int(0 - n.value.0), n.value.1)) else None
    else if IsDigit(t[0]) then
      var n := ReadNatural(t, true);
      if n.Some? then Some((Int(n.value.0), n.value.1)) else None
    else if t[0] == 0x5B then
      if |t| >= 2 && t[1] == 0x5D then Some((Arr(Done), t[2..]))
      else
        var items := ReadItems(t[1..]);
        if items.Some? then Some((Arr(items.value.0), items.value.1)) else None
    else if t[0] == 0x7B then
      if |t| >= 2 && t[1] == 0x7D then Some((Obj(End), t[2..]))
      else
        var ms := ReadMembers(t[1..]);
        if ms.Some? then Some((Obj(ms.value.0), ms.value.1)) else None
    else None
  }

  /** One or more values, separated by commas, up to the closing bracket. */
  function ReadItems(t: Text): (r: Option<(Items, Text)>)
    ensures r.Some? ==> |r.value.1| < |t|
    decreases |t|, 1
  {
    var first := ReadValue(t);
    if first.None? then None
    else
      var (v, after) := first.value;
      if after == [] then None
      else if after[0] == 0x5D then Some((Item(v, Done), after[1..]))
      else if after[0] != 0x2C then None
      else
        var more := ReadItems(after[1..]);
        if more.Some? then Some((Item(v, more.value.0), more.value.1)) else None
  }

  /** One or more members, a string, a colon and a value each, up to the closing brace. */
  function ReadMembers(t: Text): (r: Option<(Members, Text)>)
    ensures r.Some? ==> |r.value.1| < |t|
    decreases |t|, 1
  {
    var key := ReadString(t);
    if key.None? || key.value.1 == [] || key.value.1[0] != 0x3A then None
    else
      var (k, afterKey) := key.value;
      var first := ReadValue(afterKey[1..]);
      if first.None? then None
      else
        var (v, after) := first.value;
        if after == [] then None
        else if after[0] == 0x7D then Some((Member(k, v, End), after[1..]))
        else if after[0] != 0x2C then None
        else
          var more := ReadMembers(after[1..]);
          if more.Some? then Some((Member(k, v, more.value.0), more.value.1)) else None
  }

  function Read(t: Text): (v: Option<Value>) {
    var r := ReadValue(t);
    if r.Some? && r.value.1 == [] then Some(r.value.0) else None
  }

  // ------------------------------------------------------------------ spelling in front of a rest

  function EscapeOnto(s: Text, rest: Text): (t: Text) {
    if s == [] then rest else Escape(s[0]) + EscapeOnto(s[1..], rest)
  }

  function QuoteOnto(s: Text, rest: Text): (t: Text) {
    [QUOTE] + EscapeOnto(s, [QUOTE] + rest)
  }

  function EmitOnto(v: Value, rest: Text): (t: Text) {
    match v
    case Null => NULL_WORD + rest
    case Bool(b) => (if b then TRUE_WORD else FALSE_WORD) + rest
    case Int(n) => Decimal(n) + rest
    case Str(s) => QuoteOnto(s, rest)
    case Arr(items) => [OPEN_ARRAY] + ItemsOnto(items, [CLOSE_ARRAY] + rest)
    case Obj(members) => [OPEN_OBJECT] + MembersOnto(members, [CLOSE_OBJECT] + rest)
  }

  function ItemsOnto(items: Items, rest: Text): (t: Text) {
    match items
    case Done => rest
    case Item(v, more) => EmitOnto(v, if more.Done? then rest else [COMMA] + ItemsOnto(more, rest))
  }

  function MembersOnto(ms: Members, rest: Text): (t: Text) {
    match ms
    case End => rest
    case Member(k, v, more) =>
      QuoteOnto(k, [COLON] + EmitOnto(v, if more.End? then rest else [COMMA] + MembersOnto(more, rest)))
  }

  lemma {:induction false} Assoc(a: Text, b: Text, c: Text)
    ensures (a + b) + c == a + (b + c)
  {
  }

  lemma {:induction false} EscapeOntoIs(s: Text, rest: Text)
    ensures EscapeOnto(s, rest) == EscapeAll(s) + rest
  {
    hide Escape;
    if s == [] {
      assert [] + rest == rest;
    } else {
      EscapeOntoIs(s[1..], rest);
      Assoc(Escape(s[0]), EscapeAll(s[1..]), rest);
    }
  }

  lemma {:induction false} QuoteOntoIs(s: Text, rest: Text)
    ensures QuoteOnto(s, rest) == Quote(s) + rest
  {
    hide EscapeAll, EscapeOnto;
    EscapeOntoIs(s, [QUOTE] + rest);
    Wrap(QUOTE, EscapeAll(s), QUOTE, rest);
  }

  lemma {:induction false} Wrap(open: nat, body: Text, close: nat, rest: Text)
    ensures [open] + (body + ([close] + rest)) == [open] + body + [close] + rest
  {
    Assoc([open] + body, [close], rest);
    Assoc([open], body, [close] + rest);
  }

  lemma {:induction false} Chain(a: Text, b: Text, c: Text, d: Text)
    ensures a + (b + (c + d)) == a + b + c + d
  {
    Assoc(a + b, c, d);
    Assoc(a, b, c + d);
  }

  lemma {:induction false} EmitOntoIs(v: Value, rest: Text)
    ensures EmitOnto(v, rest) == Emit(v) + rest
    decreases v
  {
    hide Emit, EmitOnto, EmitItems, ItemsOnto, EmitMembers, MembersOnto;
    match v
    case Arr(items) =>
      ItemsOntoIs(items, [CLOSE_ARRAY] + rest);
      ArrayOntoIs(items, rest);
    case Obj(members) =>
      MembersOntoIs(members, [CLOSE_OBJECT] + rest);
      ObjectOntoIs(members, rest);
    case _ => ScalarOntoIs(v, rest);
  }

  lemma {:induction false} ScalarOntoIs(v: Value, rest: Text)
    requires !v.Arr? && !v.Obj?
    ensures EmitOnto(v, rest) == Emit(v) + rest
  {
    hide Quote, QuoteOnto, Decimal, EmitItems, ItemsOnto, EmitMembers, MembersOnto;
    if v.Str? {
      QuoteOntoIs(v.text, rest);
    }
  }

  lemma {:induction false} ArrayOntoIs(items: Items, rest: Text)
    requires ItemsOnto(items, [CLOSE_ARRAY] + rest) == EmitItems(items) + ([CLOSE_ARRAY] + rest)
    ensures EmitOnto(Arr(items), rest) == Emit(Arr(items)) + rest
  {
    hide EmitItems, ItemsOnto, EmitMembers, MembersOnto, Quote, QuoteOnto, Decimal;
    Wrap(OPEN_ARRAY, EmitItems(items), CLOSE_ARRAY, rest);
  }

  lemma {:induction false} ObjectOntoIs(members: Members, rest: Text)
    requires MembersOnto(members, [CLOSE_OBJECT] + rest) == EmitMembers(members) + ([CLOSE_OBJECT] + rest)
    ensures EmitOnto(Obj(members), rest) == Emit(Obj(members)) + rest
  {
    hide EmitItems, ItemsOnto, EmitMembers, MembersOnto, Quote, QuoteOnto, Decimal;
    Wrap(OPEN_OBJECT, EmitMembers(members), CLOSE_OBJECT, rest);
  }

  lemma {:induction false} ItemsOntoIs(items: Items, rest: Text)
    ensures ItemsOnto(items, rest) == EmitItems(items) + rest
    decreases items
  {
    hide Emit, EmitOnto;
    match items
    case Done => assert [] + rest == rest;
    case Item(v, more) =>
      if more.Done? {
        EmitOntoIs(v, rest);
      } else {
        ItemsOntoIs(more, rest);
        EmitOntoIs(v, [COMMA] + ItemsOnto(more, rest));
        Chain(Emit(v), [COMMA], EmitItems(more), rest);
      }
  }

  lemma {:induction false} MembersOntoIs(ms: Members, rest: Text)
    ensures MembersOnto(ms, rest) == EmitMembers(ms) + rest
    decreases ms
  {
    hide Emit, EmitOnto, Quote, QuoteOnto;
    match ms
    case End => assert [] + rest == rest;
    case Member(k, v, more) =>
      if more.End? {
        EmitOntoIs(v, rest);
        QuoteOntoIs(k, [COLON] + EmitOnto(v, rest));
        Chain(Quote(k), [COLON], Emit(v), rest);
      } else {
        MembersOntoIs(more, rest);
        var tail := [COMMA] + MembersOnto(more, rest);
        EmitOntoIs(v, tail);
        QuoteOntoIs(k, [COLON] + EmitOnto(v, tail));
        Chain(Quote(k), [COLON], Emit(v), tail);
        Chain(Quote(k) + [COLON] + Emit(v), [COMMA], EmitMembers(more), rest);
        Assoc([COMMA], EmitMembers(more), rest);
      }
  }

  // ------------------------------------------------------------------ reading back

  lemma {:induction false} HexRoundTrip(d: nat)
    requires d < 16
    ensures HexValue(HexDigit(d)) == Some(d)
  {
  }

  lemma {:induction false} Nibbles(c: nat)
    requires c < 0x10000
    ensures c / 4096 < 16
    ensures ((c / 4096 * 16 + c / 256 % 16) * 16 + c / 16 % 16) * 16 + c % 16 == c
  {
    assert c / 256 / 16 == c / 4096;
    assert c / 16 / 16 == c / 256;
  }

  lemma {:induction false} HexNumberBack(c: nat)
    requires c < 0x10000
    ensures c / 4096 < 16
    ensures HexNumber([HexDigit(c / 4096), HexDigit(c / 256 % 16), HexDigit(c / 16 % 16), HexDigit(c % 16)]) == Some(c)
  {
    hide HexValue, HexDigit;
    Nibbles(c);
    HexRoundTrip(c / 4096);
    HexRoundTrip(c / 256 % 16);
    HexRoundTrip(c / 16 % 16);
    HexRoundTrip(c % 16);
  }

  /** One escaped character in front of any text is read as that character. */
  lemma {:induction false} ReadEscape(c: nat, rest: Text)
    ensures ReadBody(Escape(c) + rest) == Prepend(Some(c), ReadBody(rest))
  {
    hide HexNumber, HexDigit, HexValue;
    var e := Escape(c);
    var t := e + rest;
    if ShortEscape(c).Some? {
      assert t[2..] == rest && t[0] == 0x5C && t[1] == ShortEscape(c).value;
    } else if LongEscape(c) {
      HexNumberBack(c);
      assert t[2..6] == e[2..6] && t[6..] == rest && t[0] == 0x5C && t[1] == 0x75;
      assert e[2..6] == [HexDigit(c / 4096), HexDigit(c / 256 % 16), HexDigit(c / 16 % 16), HexDigit(c % 16)];
    } else {
      assert t[1..] == rest && t[0] == c;
    }
  }

  lemma {:induction false} ReadBodyBack(s: Text, rest: Text)
    ensures ReadBody(EscapeOnto(s, [QUOTE] + rest)) == Some((s, rest))
  {
    if s == [] {
      assert ([QUOTE] + rest)[1..] == rest;
    } else {
      ReadBodyBack(s[1..], rest);
      ReadEscape(s[0], EscapeOnto(s[1..], [QUOTE] + rest));
      assert [s[0]] + s[1..] == s;
    }
  }

  lemma {:induction false} ReadStringBack(s: Text, rest: Text)
    ensures ReadString(QuoteOnto(s, rest)) == Some((s, rest))
  {
    var body := EscapeOnto(s, [QUOTE] + rest);
    assert ([QUOTE] + body)[1..] == body;
    ReadBodyBack(s, rest);
  }

  ghost predicate AllDigits(d: Text) {
    forall i :: 0 <= i < |d| ==> IsDigit(d[i])
  }

  /** What may follow a number: anything but another digit. */
  predicate Fence(rest: Text) {
    rest == [] || !IsDigit(rest[0])
  }

  lemma {:induction false} TakeDigitsBack(d: Text, rest: Text)
    requires AllDigits(d) && Fence(rest)
    ensures TakeDigits(d + rest) == (d, rest)
  {
    if d == [] {
      assert d + rest == rest;
    } else {
      assert (d + rest)[1..] == d[1..] + rest;
      TakeDigitsBack(d[1..], rest);
      assert [d[0]] + d[1..] == d;
    }
  }

  lemma {:induction false} DigitsBack(n: nat)
    ensures AllDigits(Digits(n)) && NumberOf(Digits(n)) == n
    ensures Digits(n)[0] == 0x30 <==> n == 0
    ensures n == 0 ==> Digits(n) == [0x30]
  {
    if n >= 10 {
      DigitsBack(n / 10);
      var high := Digits(n / 10);
      assert Digits(n)[..|high|] == high && Digits(n)[|high|] == 0x30 + n % 10;
    } else {
      assert Digits(n)[..0] == [];
    }
  }

  lemma {:induction false} ReadNaturalBack(n: nat, zero: bool, rest: Text)
    requires Fence(rest) && (n == 0 ==> zero)
    ensures ReadNatural(Digits(n) + rest, zero) == Some((n, rest))
  {
    hide Digits, NumberOf, TakeDigits;
    DigitsBack(n);
    TakeDigitsBack(Digits(n), rest);
    assert (Digits(n) + rest)[0] == Digits(n)[0];
    if n == 0 {
      assert ([0x30] + rest)[1..] == rest;
    }
  }

  lemma {:induction false} ReadIntBack(n: int, rest: Text)
    requires Fence(rest)
    ensures ReadValue(Decimal(n) + rest) == Some((Int(n), rest))
  {
    hide Digits, ReadNatural, ReadItems, ReadMembers, ReadWord, ReadString;
    if n < 0 {
      var t := Decimal(n) + rest;
      ReadNaturalBack(-n, false, rest);
      assert t[0] == 0x2D && t[1..] == Digits(-n) + rest;
    } else {
      DigitsBack(n);
      ReadNaturalBack(n, true, rest);
      assert (Digits(n) + rest)[0] == Digits(n)[0];
    }
  }

  lemma {:induction false} ReadWordBack(word: Text, v: Value, rest: Text)
    requires word != []
    ensures ReadWord(word + rest, word, v) == Some((v, rest))
  {
    assert (word + rest)[|word|..] == rest;
  }

  /** No value starts with a closing bracket. */
  lemma {:induction false} EmitStarts(v: Value, rest: Text)
    ensures var t := EmitOnto(v, rest); t != [] && t[0] != CLOSE_ARRAY && t[0] != CLOSE_OBJECT
  {
    if v.Int? {
      DigitsBack(if v.number < 0 then -v.number else v.number);
    }
  }

  /** The reader undoes the spelling of every value, whatever non-digit follows it. */
  lemma {:induction false} ReadBack(v: Value, rest: Text)
    requires Fence(rest)
    ensures ReadValue(EmitOnto(v, rest)) == Some((v, rest))
    decreases v, 0
  {
    match v
    case Null => ReadWordBack(NULL_WORD, v, rest);
    case Bool(b) => ReadWordBack(if b then TRUE_WORD else FALSE_WORD, v, rest);
    case Int(n) => ReadIntBack(n, rest);
    case Str(s) => ReadStringBack(s, rest);
    case Arr(items) => ReadArrayBack(items, rest);
    case Obj(members) => ReadObjectBack(members, rest);
  }

  lemma {:induction false} ReadArrayBack(items: Items, rest: Text)
    ensures ReadValue([OPEN_ARRAY] + ItemsOnto(items, [CLOSE_ARRAY] + rest)) == Some((Arr(items), rest))
    decreases items, 1
  {
    var body := ItemsOnto(items, [CLOSE_ARRAY] + rest);
    var t := [OPEN_ARRAY] + body;
    assert t[1..] == body;
    if items.Done? {
      assert t[2..] == rest;
    } else {
      EmitStarts(items.first, if items.more.Done? then [CLOSE_ARRAY] + rest
                              else [COMMA] + ItemsOnto(items.more, [CLOSE_ARRAY] + rest));
      ReadItemsBack(items, rest);
    }
  }

  lemma {:induction false} ReadItemsBack(items: Items, rest: Text)
    requires items.Item?
    ensures ReadItems(ItemsOnto(items, [CLOSE_ARRAY] + rest)) == Some((items, rest))
    decreases items, 0
  {
    if items.more.Done? {
      ReadBack(items.first, [CLOSE_ARRAY] + rest);
      assert ([CLOSE_ARRAY] + rest)[1..] == rest;
    } else {
      var tail := ItemsOnto(items.more, [CLOSE_ARRAY] + rest);
      ReadBack(items.first, [COMMA] + tail);
      assert ([COMMA] + tail)[1..] == tail;
      ReadItemsBack(items.more, rest);
    }
  }

  lemma {:induction false} ReadObjectBack(ms: Members, rest: Text)
    ensures ReadValue([OPEN_OBJECT] + MembersOnto(ms, [CLOSE_OBJECT] + rest)) == Some((Obj(ms), rest))
    decreases ms, 1
  {
    hide EmitOnto, ReadString, NumberOf, TakeDigits, ReadWord;
    var body := MembersOnto(ms, [CLOSE_OBJECT] + rest);
    var t := [OPEN_OBJECT] + body;
    assert t[1..] == body;
    if ms.End? {
      assert t[2..] == rest;
    } else {
      ReadMembersBack(ms, rest);
    }
  }

  lemma {:induction false} ReadMembersBack(ms: Members, rest: Text)
    requires ms.Member?
    ensures ReadMembers(MembersOnto(ms, [CLOSE_OBJECT] + rest)) == Some((ms, rest))
    decreases ms, 0
  {
    var after := if ms.rest.End? then [CLOSE_OBJECT] + rest
                 else [COMMA] + MembersOnto(ms.rest, [CLOSE_OBJECT] + rest);
    ReadStringBack(ms.key, [COLON] + EmitOnto(ms.value, after));
    assert ([COLON] + EmitOnto(ms.value, after))[1..] == EmitOnto(ms.value, after);
    ReadBack(ms.value, after);
    if ms.rest.End? {
      assert after[1..] == rest;
    } else {
      assert after[1..] == MembersOnto(ms.rest, [CLOSE_OBJECT] + rest);
      ReadMembersBack(ms.rest, rest);
    }
  }

  /** Reading the spelling of a value gives that value. */
  lemma {:induction false} RoundTrip(v: Value)
    ensures Read(Emit(v)) == Some(v)
  {
    EmitOntoIs(v, []);
    assert Emit(v) + [] == Emit(v);
    ReadBack(v, []);
  }
}
