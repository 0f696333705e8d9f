/**
 The spelling of strings against section 3.2.2.2 of RFC 8785. `python/src/wcm/_canonicalize.py:127-163` says its output
 for NFC text is exactly that spelling; it escapes 35 characters more.
 */
module CanonicalSpelling {
  import opened Canonical

  /** A hexadecimal digit in lower case. */
  function LowerHex(d: nat): (c: nat)
    requires d < 16
  {
    if d < 10 then 0x30 + d else 0x57 + d
  }

  /** A character's spelling in the standard: short escapes, hexadecimal for the other controls, or itself. */
  function StandardEscape(c: nat): (e: Text) {
    match c
    case 0x08 => [0x5C, 0x62]
    case 0x09 => [0x5C, 0x74]
    case 0x0A => [0x5C, 0x6E]
    case 0x0C => [0x5C, 0x66]
    case 0x0D => [0x5C, 0x72]
    case 0x22 => [0x5C, 0x22]
    case 0x5C => [0x5C, 0x5C]
    case _ => if c < 0x20 then [0x5C, 0x75, 0x30, 0x30, LowerHex(c / 16), LowerHex(c % 16)] else [c]
  }

  function StandardEscapeAll(s: Text): (e: Text) {
    if s == [] then [] else StandardEscape(s[0]) + StandardEscapeAll(s[1..])
  }

  function StandardQuote(s: Text): (q: Text) {
    [0x22] + StandardEscapeAll(s) + [0x22]
  }

  /** Delete, the C1 controls and the two ECMAScript line terminators. */
  predicate Extra(c: nat) {
    0x7F <= c <= 0x9F || c == 0x2028 || c == 0x2029
  }

  predicate HasExtra(s: Text) {
    exists i :: 0 <= i < |s| && Extra(s[i])
  }

  /** The extra escapes are hexadecimal ones. */
  function HexEscape(c: nat): (e: Text)
    requires c < 0x10000
  {
    [0x5C, 0x75, LowerHex(c / 4096), LowerHex(c / 256 % 16), LowerHex(c / 16 % 16), LowerHex(c % 16)]
  }

  lemma {:induction false} EscapeExact(c: nat)
    ensures Escape(c) == StandardEscape(c) <==> !Extra(c)
    ensures Extra(c) ==> Escape(c) == HexEscape(c)
    ensures |Escape(c)| == |StandardEscape(c)| + if Extra(c) then 5 else 0
  {
    if c <= 0x1F {
      assert c / 4096 == 0 && c / 256 % 16 == 0 && c / 16 % 16 == c / 16;
    }
  }

  /** Every extra escape makes the text longer, so nothing evens it out. */
  lemma {:induction false} EscapeAllExact(s: Text)
    ensures |EscapeAll(s)| >= |StandardEscapeAll(s)|
    ensures HasExtra(s) ==> |EscapeAll(s)| > |StandardEscapeAll(s)|
    ensures !HasExtra(s) ==> EscapeAll(s) == StandardEscapeAll(s)
  {
    hide Escape, StandardEscape, Extra;
    if s != [] {
      EscapeExact(s[0]);
      EscapeAllExact(s[1..]);
      assert HasExtra(s[1..]) ==> HasExtra(s);
      assert HasExtra(s) ==> Extra(s[0]) || HasExtra(s[1..]) by {
        if HasExtra(s) {
          var i :| 0 <= i < |s| && Extra(s[i]);
          assert i > 0 ==> s[1..][i - 1] == s[i];
        }
      }
    }
  }

  /** The code spells a string as the standard does exactly when none of the 35 characters is in it. */
  lemma {:induction false} QuoteStandardExact(s: Text)
    ensures Quote(s) == StandardQuote(s) <==> !HasExtra(s)
  {
    hide EscapeAll, StandardEscapeAll, HasExtra;
    EscapeAllExact(s);
    var a, b := EscapeAll(s), StandardEscapeAll(s);
    if Quote(s) == StandardQuote(s) {
      assert |[0x22] + a + [0x22]| == |a| + 2 && |[0x22] + b + [0x22]| == |b| + 2;
    }
  }

  /** The shortest such string: a single delete character, which is NFC. */
  lemma {:induction false} DeleteIsEscaped()
    ensures Quote([0x7F]) == [0x22, 0x5C, 0x75, 0x30, 0x30, 0x37, 0x66, 0x22]
    ensures StandardQuote([0x7F]) == [0x22, 0x7F, 0x22]
  {
    var s: Text := [0x7F];
    assert s[1..] == [];
    assert EscapeAll(s) == Escape(0x7F) + [] && StandardEscapeAll(s) == StandardEscape(0x7F) + [];
  }
}
