/**
 Encodings and key order of `python/src/wcm/_canonicalize.py:107-112`: UTF-8 and UTF-16 lose
 nothing, and comparing big-endian UTF-16 bytes is comparing UTF-16 code units, the order
 section 3.2.3 of RFC 8785 asks for.
 */
module CanonicalOrder {
  import opened Wrappers
  import opened Canonical

  // ------------------------------------------------------------------ UTF-8

  lemma {:induction false} Split3(c: nat)
    ensures c / 0x1000 * 0x1000 + c / 0x40 % 0x40 * 0x40 + c % 0x40 == c
  {
    assert c / 0x40 / 0x40 == c / 0x1000;
  }

  lemma {:induction false} Split4(c: nat)
    ensures c / 0x40000 * 0x40000 + c / 0x1000 % 0x40 * 0x1000 + c / 0x40 % 0x40 * 0x40 + c % 0x40 == c
  {
    Split3(c);
    assert c / 0x1000 / 0x40 == c / 0x40000;
  }

  /** The encoding of one code point is a prefix of no other. */
  lemma {:induction false} Utf8CharUnique(c: nat, d: nat, x: seq<nat>, y: seq<nat>)
    requires c <= 0x10FFFF && d <= 0x10FFFF
    requires Utf8Char(c) + x == Utf8Char(d) + y
    ensures c == d && x == y
  {
    var t := Utf8Char(c) + x;
    var u := Utf8Char(d) + y;
    assert t[0] == Utf8Char(c)[0] && u[0] == Utf8Char(d)[0];
    assert |Utf8Char(c)| == |Utf8Char(d)|;
    var n := |Utf8Char(c)|;
    assert t[..n] == Utf8Char(c) && u[..n] == Utf8Char(d);
    assert t[n..] == x && u[n..] == y;
    SameUtf8Char(c, d);
  }

  lemma {:induction false} SameUtf8Char(c: nat, d: nat)
    requires c <= 0x10FFFF && d <= 0x10FFFF && Utf8Char(c) == Utf8Char(d)
    ensures c == d
  {
    var a, b := Utf8Char(c), Utf8Char(d);
    assert a[0] == b[0];
    if |a| == 2 {
      assert a[1] == b[1];
    } else if |a| == 3 {
      assert a[1] == b[1] && a[2] == b[2];
      Split3(c);
      Split3(d);
    } else if |a| == 4 {
      assert a[1] == b[1] && a[2] == b[2] && a[3] == b[3];
      Split4(c);
      Split4(d);
    }
  }

  lemma {:induction false} Utf8Injective(a: Text, b: Text)
    requires ScalarText(a) && ScalarText(b) && Utf8(a) == Utf8(b)
    ensures a == b
  {
    if a != [] && b != [] {
      Utf8CharUnique(a[0], b[0], Utf8(a[1..]), Utf8(b[1..]));
      Utf8Injective(a[1..], b[1..]);
      assert a == [a[0]] + a[1..] && b == [b[0]] + b[1..];
    }
  }

  /** Section 3 of RFC 3629: the first character of some bytes, and how many bytes it takes. */
  function DecodeOne(b: seq<nat>): (r: Option<(nat, nat)>)
    ensures r.Some? ==> 0 < r.value.1 <= |b|
  {
    if b == [] then None
    else if b[0] < 0x80 then Some((b[0], 1))
    else if 0xC0 <= b[0] < 0xE0 && |b| >= 2 && Tail(b[1]) then
      AtLeast(0x80, (b[0] - 0xC0) * 64 + (b[1] - 0x80), 2)
    else if 0xE0 <= b[0] < 0xF0 && |b| >= 3 && Tail(b[1]) && Tail(b[2]) then
      AtLeast(0x800, (b[0] - 0xE0) * 4096 + (b[1] - 0x80) * 64 + (b[2] - 0x80), 3)
    else if 0xF0 <= b[0] < 0xF8 && |b| >= 4 && Tail(b[1]) && Tail(b[2]) && Tail(b[3]) then
      AtLeast(0x10000, (b[0] - 0xF0) * 262144 + (b[1] - 0x80) * 4096 + (b[2] - 0x80) * 64 + (b[3] - 0x80), 4)
    else None
  }

  predicate Tail(b: nat) {
    0x80 <= b < 0xC0
  }

  /** No overlong form, no surrogate, nothing past U+10FFFF. */
  function AtLeast(low: nat, c: nat, length: nat): (r: Option<(nat, nat)>)
    ensures r.Some? ==> r.value.1 == length
  {
    if low <= c <= 0x10FFFF && !(0xD800 <= c <= 0xDFFF) then Some((c, length)) else None
  }

  function DecodeUtf8(b: seq<nat>): (s: Option<Text>) {
    if b == [] then Some([])
    else
      var first := DecodeOne(b);
      if first.None? then None
      else
        var rest := DecodeUtf8(b[first.value.1..]);
        if rest.None? then None else Some([first.value.0] + rest.value)
  }

  lemma {:induction false} DecodeOneBack(c: nat, rest: seq<nat>)
    requires Scalar(c)
    ensures DecodeOne(Utf8Char(c) + rest) == Some((c, |Utf8Char(c)|))
  {
    var e := Utf8Char(c);
    var t := e + rest;
    assert t[0] == e[0];
    if c >= 0x80 {
      assert t[1] == e[1];
    }
    if c >= 0x800 {
      assert t[2] == e[2];
      Split3(c);
    }
    if c >= 0x10000 {
      assert t[3] == e[3];
      Split4(c);
    }
  }

  /** What is encoded is what is decoded. */
  lemma {:induction false} DecodeBack(s: Text)
    requires ScalarText(s)
    ensures DecodeUtf8(Utf8(s)) == Some(s)
  {
    hide DecodeOne, Utf8Char;
    if s != [] {
      DecodeOneBack(s[0], Utf8(s[1..]));
      DecodeBack(s[1..]);
      var e := Utf8Char(s[0]);
      assert (e + Utf8(s[1..]))[|e|..] == Utf8(s[1..]);
      assert s == [s[0]] + s[1..];
    }
  }

  // ------------------------------------------------------------------ UTF-16

  lemma {:induction false} UnitsUnique(c: nat, d: nat, x: seq<nat>, y: seq<nat>)
    requires Scalar(c) && Scalar(d) && Units(c) + x == Units(d) + y
    ensures c == d && x == y
  {
    var t, u := Units(c) + x, Units(d) + y;
    assert t[0] == Units(c)[0] && u[0] == Units(d)[0];
    assert |Units(c)| == |Units(d)|;
    var n := |Units(c)|;
    assert t[..n] == Units(c) && u[..n] == Units(d);
    assert t[n..] == x && u[n..] == y;
    if n == 2 {
      assert Units(c)[1] == Units(d)[1];
    }
  }

  lemma {:induction false} Utf16Injective(a: Text, b: Text)
    requires ScalarText(a) && ScalarText(b) && Utf16(a) == Utf16(b)
    ensures a == b
  {
    if a != [] && b != [] {
      UnitsUnique(a[0], b[0], Utf16(a[1..]), Utf16(b[1..]));
      Utf16Injective(a[1..], b[1..]);
      assert a == [a[0]] + a[1..] && b == [b[0]] + b[1..];
    }
  }

  /** Comparing the bytes of the sort key is comparing code units. */
  lemma {:induction false} BigEndianOrder(a: seq<nat>, b: seq<nat>)
    ensures LexLess(BigEndian(a), BigEndian(b)) <==> LexLess(a, b)
  {
    if a != [] && b != [] {
      BigEndianOrder(a[1..], b[1..]);
      var x, y := BigEndian(a), BigEndian(b);
      assert x[1..][1..] == BigEndian(a[1..]) && y[1..][1..] == BigEndian(b[1..]);
      assert x[1..][0] == a[0] % 256 && y[1..][0] == b[0] % 256;
    }
  }

  /** The key order is UTF-16 code-unit order. */
  lemma {:induction false} KeyOrderIsUnitOrder(a: Text, b: Text)
    ensures KeyLess(a, b) <==> LexLess(Utf16(a), Utf16(b))
  {
    BigEndianOrder(Utf16(a), Utf16(b));
  }

  // ------------------------------------------------------------------ a strict total order

  lemma {:induction false} LexTotal(a: seq<nat>, b: seq<nat>)
    ensures a == b || LexLess(a, b) || LexLess(b, a)
    ensures !(LexLess(a, b) && LexLess(b, a))
    ensures a == b ==> !LexLess(a, b)
  {
    if a != [] && b != [] {
      LexTotal(a[1..], b[1..]);
      assert a == [a[0]] + a[1..] && b == [b[0]] + b[1..];
    }
  }

  lemma {:induction false} LexTransitive(a: seq<nat>, b: seq<nat>, c: seq<nat>)
    requires LexLess(a, b) && LexLess(b, c)
    ensures LexLess(a, c)
  {
    if a != [] && b != [] && c != [] && a[0] == b[0] == c[0] {
      LexTransitive(a[1..], b[1..], c[1..]);
    }
  }

  lemma {:induction false} KeyTotal(a: Text, b: Text)
    requires ScalarText(a) && ScalarText(b)
    ensures a == b || KeyLess(a, b) || KeyLess(b, a)
    ensures !(KeyLess(a, b) && KeyLess(b, a))
    ensures a == b ==> !KeyLess(a, b)
  {
    KeyOrderIsUnitOrder(a, b);
    KeyOrderIsUnitOrder(b, a);
    LexTotal(Utf16(a), Utf16(b));
    if Utf16(a) == Utf16(b) {
      Utf16Injective(a, b);
    }
  }

  lemma {:induction false} KeyTransitive(a: Text, b: Text, c: Text)
    requires KeyLess(a, b) && KeyLess(b, c)
    ensures KeyLess(a, c)
  {
    LexTransitive(SortKey(a), SortKey(b), SortKey(c));
  }

  // ------------------------------------------------------------------ against code-point order

  /** Where two code points compare differently as code points and as code units. */
  predicate Crossed(c: nat, d: nat) {
    (0xE000 <= c < 0x10000 <= d) || (0xE000 <= d < 0x10000 <= c)
  }

  /** The first place two texts differ holds a crossed pair. */
  predicate CrossedAtDifference(a: Text, b: Text) {
    a != [] && b != [] &&
    if a[0] == b[0] then CrossedAtDifference(a[1..], b[1..]) else Crossed(a[0], b[0])
  }

  /**
   Sorting keys "by Unicode code point", as the module's description puts it, is what the code
   does exactly for pairs whose first difference does not cross the surrogate gap.
   */
  lemma {:induction false} CodePointOrderExact(a: Text, b: Text)
    requires ScalarText(a) && ScalarText(b) && a != b
    ensures (KeyLess(a, b) <==> LexLess(a, b)) <==> !CrossedAtDifference(a, b)
  {
    KeyOrderIsUnitOrder(a, b);
    if a == [] {
      assert |Utf16(b)| > 0;
    } else if b == [] {
      assert |Utf16(a)| > 0;
    } else if a[0] == b[0] {
      assert a == [a[0]] + a[1..] && b == [b[0]] + b[1..];
      KeyOrderIsUnitOrder(a[1..], b[1..]);
      CodePointOrderExact(a[1..], b[1..]);
    }
  }

  /** The two orders do differ: U+1F600 comes before U+FFFD. */
  lemma {:induction false} CodePointOrderDiffers()
    ensures KeyLess([0x1F600], [0xFFFD]) && LexLess([0xFFFD], [0x1F600])
  {
    var a, b: Text := [0x1F600], [0xFFFD];
    assert a != b by { assert a[0] != b[0]; }
    CodePointOrderExact(a, b);
    CodePointOrderExact(b, a);
    KeyTotal(a, b);
  }
}
