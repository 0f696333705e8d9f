/**
 Model of the newc archive writer, `python/src/wcm/boot_bundle.py:35-47`, with a reader for the
 format that shows what an archive says. Bytes are numbers.

 A member is a magic number and thirteen fields of eight hexadecimal digits, its name with a NUL,
 padding, its data and padding again. Each writer here takes what comes after it (`RecordOnto`,
 `BodyOnto`, `FieldsOnto`), so that a step of the reader takes off just what the same step of the
 writer put on, and the round trip goes field by field. The loop of the source, which pads by the
 length written so far, is proved to append the same records.
 */
module Cpio {
  import opened Wrappers
  import Canonical

  type Bytes = seq<nat>

  datatype Entry = Entry(name: Bytes, mode: nat, data: Bytes)

  const MAGIC: Bytes := [0x30, 0x37, 0x30, 0x37, 0x30, 0x31]
  const TRAILER_NAME: Bytes := [0x54, 0x52, 0x41, 0x49, 0x4C, 0x45, 0x52, 0x21, 0x21, 0x21]
  const TRAILER: Entry := Entry(TRAILER_NAME, 0, [])
  const FIELD_LIMIT: nat := 0x1_0000_0000

  // ------------------------------------------------------------------ what is written

  /** `f"{v:0{width}x}"`: at least `width` digits, more if the number needs them. */
  function Hex(v: nat, width: nat): (t: Bytes)
    decreases v + width
  {
    if width == 0 && v == 0 then []
    else Hex(v / 16, if width == 0 then 0 else width - 1) + [Canonical.HexDigit(v % 16)]
  }

  function FieldsOnto(vs: seq<nat>, rest: Bytes): (t: Bytes) {
    if vs == [] then rest else Hex(vs[0], 8) + FieldsOnto(vs[1..], rest)
  }

  function Fields(inode: nat, e: Entry): (vs: seq<nat>)
    ensures |vs| == 13
  {
    [inode, e.mode, 0, 0, 1, 0, |e.data|, 0, 0, 0, 0, |e.name| + 1, 0]
  }

  function Zeros(n: nat): (z: Bytes)
    ensures |z| == n
  {
    if n == 0 then [] else [0] + Zeros(n - 1)
  }

  /** Bytes missing to the next multiple of four: `-n % 4`. */
  function Pad(n: nat): (p: nat)
    ensures p < 4 && (n + p) % 4 == 0
  {
    (0 - n) % 4
  }

  function HeaderLength(inode: nat, e: Entry): (n: nat) {
    |MAGIC| + |FieldsOnto(Fields(inode, e), [])|
  }

  /** One member in front of the rest of the archive: header, name, data, each padded. */
  function RecordOnto(inode: nat, e: Entry, rest: Bytes): (t: Bytes) {
    MAGIC + FieldsOnto(Fields(inode, e), BodyOnto(HeaderLength(inode, e), e, rest))
  }

  function BodyOnto(header: nat, e: Entry, rest: Bytes): (t: Bytes) {
    e.name + ([0] + (Zeros(Pad(header + |e.name| + 1)) + (e.data + (Zeros(Pad(|e.data|)) + rest))))
  }

  function ArchiveFrom(es: seq<Entry>, inode: nat): (t: Bytes) {
    if es == [] then RecordOnto(inode, TRAILER, [])
    else RecordOnto(inode, es[0], ArchiveFrom(es[1..], inode + 1))
  }

  /** The archive of members already in order. */
  function Archive(es: seq<Entry>): (t: Bytes) {
    ArchiveFrom(es, 1)
  }

  // ------------------------------------------------------------------ reading

  /** The value of one digit, `0` to `9` or `a` to `f`. */
  function Digit(c: nat): (d: Option<nat>) {
    if 0x30 <= c <= 0x39 then Some(c - 0x30)
    else if 0x61 <= c <= 0x66 then Some(c - 0x61 + 10)
    else None
  }

  function Unhex(t: Bytes): (v: Option<nat>) {
    if t == [] then Some(0)
    else
      var high, d := Unhex(t[..|t| - 1]), Digit(t[|t| - 1]);
      if high.None? || d.None? then None else Some(high.value * 16 + d.value)
  }

  function ReadFields(t: Bytes, n: nat): (r: Option<(seq<nat>, Bytes)>)
    ensures r.Some? ==> |r.value.0| == n && |r.value.1| <= |t|
    decreases n
  {
    if n == 0 then Some(([], t))
    else if |t| < 8 then None
    else
      var v, more := Unhex(t[..8]), ReadFields(t[8..], n - 1);
      if v.None? || more.None? then None else Some(([v.value] + more.value.0, more.value.1))
  }

  /** The first `n` bytes and the rest. */
  function Take(t: Bytes, n: nat): (r: Option<(Bytes, Bytes)>)
    ensures r.Some? ==> |r.value.1| <= |t|
  {
    if |t| < n then None else Some((t[..n], t[n..]))
  }

  /** What stands after the NULs that fill up the word in which `n` bytes end. */
  function SkipFill(t: Bytes, n: nat): (r: Option<Bytes>)
    ensures r.Some? ==> |r.value| <= |t|
  {
    if n % 4 == 0 then Some(t)
    else if t == [] || t[0] != 0 then None
    else SkipFill(t[1..], n + 1)
  }

  /**
   One member: its inode number, what it is, and the archive after it. The owner, the times and
   the devices are zero, there is one link, and no checksum.
   */
  function ReadRecord(t: Bytes): (r: Option<(nat, Entry, Bytes)>)
    ensures r.Some? ==> |r.value.2| < |t|
  {
    var magic := Take(t, 6);
    if magic.None? || magic.value.0 != [0x30, 0x37, 0x30, 0x37, 0x30, 0x31] then None
    else
      var fields := ReadFields(magic.value.1, 13);
      if fields.None? then None
      else
        var vs := fields.value.0;
        if vs[2..6] != [0, 0, 1, 0] || vs[7..11] != [0, 0, 0, 0] || vs[11] == 0 || vs[12] != 0 then None
        else
          var body := ReadBody(fields.value.1, vs[11], vs[6]);
          if body.None? then None
          else Some((vs[0], Entry(body.value.0, vs[1], body.value.1), body.value.2))
  }

  /** After a header of 110 bytes: the name of `nameSize` bytes with its NUL, the data of `size` bytes, and what
      follows, each filled up to whole words. */
  function ReadBody(t: Bytes, nameSize: nat, size: nat): (r: Option<(Bytes, Bytes, Bytes)>)
    requires nameSize > 0
    ensures r.Some? ==> |r.value.2| <= |t|
  {
    var name := Take(t, nameSize - 1);
    if name.None? then None
    else
      var nul := Take(name.value.1, 1);
      if nul.None? || nul.value.0 != [0] then None
      else
        var filled := SkipFill(nul.value.1, 110 + nameSize);
        if filled.None? then None
        else
          var data := Take(filled.value, size);
          if data.None? then None
          else
            var end := SkipFill(data.value.1, size);
            if end.None? then None else Some((name.value.0, data.value.0, end.value))
  }

  /** All members up to the trailer `TRAILER!!!`, which is empty and the last thing there, with their inode numbers. */
  function ReadArchive(t: Bytes): (r: Option<seq<(nat, Entry)>>)
    decreases |t|
  {
    var first := ReadRecord(t);
    if first.None? then None
    else
      var (inode, e, after) := first.value;
      if e.name == [0x54, 0x52, 0x41, 0x49, 0x4C, 0x45, 0x52, 0x21, 0x21, 0x21]
      then if e.mode == 0 && e.data == [] && after == [] then Some([]) else None
      else
        var more := ReadArchive(after);
        if more.None? then None else Some([(inode, e)] + more.value)
  }

  // ------------------------------------------------------------------ hexadecimal fields

  ghost function Pow16(w: nat): (p: nat)
    ensures p > 0
  {
    if w == 0 then 1 else 16 * Pow16(w - 1)
  }

  lemma {:induction false} HexLength(v: nat, w: nat)
    requires v < Pow16(w)
    ensures |Hex(v, w)| == w
    decreases w
  {
    if w > 0 {
      HexLength(v / 16, w - 1);
    }
  }

  lemma {:induction false} UnhexHex(v: nat, w: nat)
    ensures Unhex(Hex(v, w)) == Some(v)
    decreases v + w
  {
    if !(w == 0 && v == 0) {
      var high := Hex(v / 16, if w == 0 then 0 else w - 1);
      UnhexHex(v / 16, if w == 0 then 0 else w - 1);
      assert Hex(v, w)[..|Hex(v, w)| - 1] == high;
    }
  }

  lemma {:induction false} FieldBack(v: nat)
    requires v < FIELD_LIMIT
    ensures |Hex(v, 8)| == 8 && Unhex(Hex(v, 8)) == Some(v)
  {
    assert Pow16(4) == 0x1_0000;
    assert Pow16(8) == 16 * (16 * (16 * (16 * Pow16(4))));
    HexLength(v, 8);
    UnhexHex(v, 8);
  }

  ghost predicate FieldsFit(vs: seq<nat>) {
    forall i :: 0 <= i < |vs| ==> vs[i] < FIELD_LIMIT
  }

  lemma {:induction false} ReadFieldsBack(vs: seq<nat>, rest: Bytes)
    requires FieldsFit(vs)
    ensures ReadFields(FieldsOnto(vs, rest), |vs|) == Some((vs, rest))
  {
    if vs != [] {
      FieldBack(vs[0]);
      ReadFieldsBack(vs[1..], rest);
      assert [vs[0]] + vs[1..] == vs;
    }
  }

  lemma {:induction false} FieldsLength(vs: seq<nat>)
    requires FieldsFit(vs)
    ensures |FieldsOnto(vs, [])| == 8 * |vs|
  {
    if vs != [] {
      FieldBack(vs[0]);
      FieldsLength(vs[1..]);
    }
  }

  // ------------------------------------------------------------------ reading back

  /** Every header field of the member fits its eight digits. */
  predicate Fits(inode: nat, e: Entry) {
    inode < FIELD_LIMIT && e.mode < FIELD_LIMIT && |e.data| < FIELD_LIMIT && |e.name| + 1 < FIELD_LIMIT
  }

  lemma {:induction false} SkipFillBack(n: nat, rest: Bytes)
    ensures SkipFill(Zeros(Pad(n)) + rest, n) == Some(rest)
    decreases Pad(n)
  {
    if Pad(n) == 0 {
      assert [] + rest == rest;
    } else {
      var t := Zeros(Pad(n)) + rest;
      SkipFillBack(n + 1, rest);
      assert Pad(n + 1) == Pad(n) - 1;
      assert t[1..] == Zeros(Pad(n + 1)) + rest;
    }
  }

  lemma {:induction false} ReadBodyBack(e: Entry, rest: Bytes)
    ensures ReadBody(BodyOnto(110, e, rest), |e.name| + 1, |e.data|) == Some((e.name, e.data, rest))
  {
    hide Zeros, Pad, SkipFill;
    var end := Zeros(Pad(|e.data|)) + rest;
    var data := e.data + end;
    var pad := Zeros(Pad(110 + |e.name| + 1)) + data;
    SkipFillBack(|e.data|, rest);
    SkipFillBack(110 + |e.name| + 1, data);
  }

  lemma {:induction false} ReadRecordBack(inode: nat, e: Entry, rest: Bytes)
    requires Fits(inode, e)
    ensures ReadRecord(RecordOnto(inode, e, rest)) == Some((inode, e, rest))
  {
    hide FieldsOnto, BodyOnto, ReadBody, ReadFields, SkipFill;
    var vs := Fields(inode, e);
    assert FieldsFit(vs);
    FieldsLength(vs);
    var body := BodyOnto(HeaderLength(inode, e), e, rest);
    ReadFieldsBack(vs, body);
    assert HeaderLength(inode, e) == 110;
    ReadBodyBack(e, rest);
  }

  /** Members numbered from `inode`. */
  function Numbered(es: seq<Entry>, inode: nat): (r: seq<(nat, Entry)>) {
    if es == [] then [] else [(inode, es[0])] + Numbered(es[1..], inode + 1)
  }

  ghost predicate AllFit(es: seq<Entry>, inode: nat) {
    && inode + |es| < FIELD_LIMIT
    && forall i :: 0 <= i < |es| ==> Fits(0, es[i]) && es[i].name != TRAILER_NAME
  }

  lemma {:induction false} ReadArchiveBack(es: seq<Entry>, inode: nat)
    requires AllFit(es, inode)
    ensures ReadArchive(ArchiveFrom(es, inode)) == Some(Numbered(es, inode))
  {
    hide RecordOnto, ReadRecord;
    if es == [] {
      ReadRecordBack(inode, TRAILER, []);
    } else {
      assert Fits(0, es[0]) && es[0].name != TRAILER_NAME;
      ReadRecordBack(inode, es[0], ArchiveFrom(es[1..], inode + 1));
      ReadArchiveBack(es[1..], inode + 1);
    }
  }

  /** Reading an archive gives exactly its members, in order and numbered from one. */
  lemma {:induction false} RoundTrip(es: seq<Entry>)
    requires AllFit(es, 1)
    ensures ReadArchive(Archive(es)) == Some(Numbered(es, 1))
  {
    ReadArchiveBack(es, 1);
  }

  // ------------------------------------------------------------------ alignment

  lemma {:induction false} FieldsOntoIs(vs: seq<nat>, rest: Bytes)
    ensures FieldsOnto(vs, rest) == FieldsOnto(vs, []) + rest
  {
    if vs == [] {
      assert [] + rest == rest;
    } else {
      FieldsOntoIs(vs[1..], rest);
      Assoc(Hex(vs[0], 8), FieldsOnto(vs[1..], []), rest);
    }
  }

  lemma {:induction false} Assoc(a: Bytes, b: Bytes, c: Bytes)
    ensures (a + b) + c == a + (b + c)
  {
  }

  /** The bytes of one member. */
  function Record(inode: nat, e: Entry): (t: Bytes) {
    RecordOnto(inode, e, [])
  }

  lemma {:induction false} BodyOntoIs(header: nat, e: Entry, rest: Bytes)
    ensures BodyOnto(header, e, rest) == BodyOnto(header, e, []) + rest
  {
    hide Zeros, Pad;
    var z, y := Zeros(Pad(header + |e.name| + 1)), Zeros(Pad(|e.data|));
    assert y + [] == y;
    Assoc(e.data, y, rest);
    Assoc(z, e.data + y, rest);
    Assoc([0], z + (e.data + y), rest);
    Assoc(e.name, [0] + (z + (e.data + y)), rest);
  }

  lemma {:induction false} RecordOntoIs(inode: nat, e: Entry, rest: Bytes)
    ensures RecordOnto(inode, e, rest) == Record(inode, e) + rest
  {
    hide FieldsOnto, BodyOnto, Fields, HeaderLength;
    var vs, h := Fields(inode, e), HeaderLength(inode, e);
    BodyOntoIs(h, e, rest);
    FieldsOntoIs(vs, BodyOnto(h, e, []) + rest);
    FieldsOntoIs(vs, BodyOnto(h, e, []));
    Assoc(FieldsOnto(vs, []), BodyOnto(h, e, []), rest);
    Assoc(MAGIC, FieldsOnto(vs, []) + BodyOnto(h, e, []), rest);
  }

  lemma {:induction false} BodyLength(header: nat, e: Entry)
    ensures |BodyOnto(header, e, [])| ==
      |e.name| + 1 + Pad(header + |e.name| + 1) + |e.data| + Pad(|e.data|)
  {
  }

  /** Every member fills whole words, so every header starts on one. */
  lemma {:induction false} RecordAligned(inode: nat, e: Entry)
    ensures |Record(inode, e)| % 4 == 0
  {
    hide FieldsOnto, BodyOnto, Pad;
    var h := HeaderLength(inode, e);
    FieldsOntoIs(Fields(inode, e), BodyOnto(h, e, []));
    BodyLength(h, e);
    var a, b := h + |e.name| + 1 + Pad(h + |e.name| + 1), |e.data| + Pad(|e.data|);
    assert |Record(inode, e)| == a + b;
    assert a % 4 == 0 && b % 4 == 0;
  }

  // ------------------------------------------------------------------ the writer's loop

  /** What is still to be written when `i` members were. */
  function Remaining(es: seq<Entry>, i: nat): (t: Bytes)
    requires i <= |es| + 1
  {
    if i <= |es| then ArchiveFrom(es[i..], i + 1) else []
  }

  lemma {:induction false} RemainingStep(es: seq<Entry>, i: nat)
    requires i <= |es|
    ensures Remaining(es, i) == Record(i + 1, if i < |es| then es[i] else TRAILER) + Remaining(es, i + 1)
  {
    hide RecordOnto;
    if i < |es| {
      assert es[i..][1..] == es[i + 1..];
      RecordOntoIs(i + 1, es[i], ArchiveFrom(es[i + 1..], i + 2));
    } else {
      RecordOntoIs(i + 1, TRAILER, []);
    }
  }

  method WriteArchive(es: seq<Entry>) returns (output: Bytes)
    ensures output == Archive(es)
  {
    output := [];
    assert es[0..] == es && [] + Archive(es) == Archive(es);
    for i := 0 to |es| + 1
      invariant |output| % 4 == 0
      invariant Archive(es) == output + Remaining(es, i)
    {
      hide Record, Remaining, Archive;
      var e := if i < |es| then es[i] else TRAILER;
      RemainingStep(es, i);
      Assoc(output, Record(i + 1, e), Remaining(es, i + 1));
      output := WriteRecord(output, i + 1, e);
    }
    assert output + [] == output;
  }

  method WriteRecord(before: Bytes, inode: nat, e: Entry) returns (output: Bytes)
    requires |before| % 4 == 0
    ensures output == before + Record(inode, e) && |output| % 4 == 0
  {
    hide Zeros;
    var vs := Fields(inode, e);
    output := before + (MAGIC + FieldsOnto(vs, []));
    output := output + (e.name + [0]);
    var pad := Pad(|output|);
    output := output + Zeros(pad);
    var end := Pad(|output| + |e.data|);
    output := output + e.data;
    output := output + Zeros(end);
    RecordPieces(before, inode, e, pad, end);
    RecordAligned(inode, e);
  }

  lemma {:induction false} PadShift(a: nat, b: nat)
    requires a % 4 == 0
    ensures Pad(a + b) == Pad(b)
  {
  }

  lemma {:induction false} RecordPieces(before: Bytes, inode: nat, e: Entry, pad: nat, end: nat)
    requires |before| % 4 == 0
    requires pad == Pad(|before| + HeaderLength(inode, e) + |e.name| + 1)
    requires end == Pad(|before| + HeaderLength(inode, e) + |e.name| + 1 + pad + |e.data|)
    ensures before + (MAGIC + FieldsOnto(Fields(inode, e), [])) + (e.name + [0]) + Zeros(pad) + e.data + Zeros(end)
         == before + Record(inode, e)
  {
    hide FieldsOnto, Zeros, Pad, Fields;
    var f, h := FieldsOnto(Fields(inode, e), []), HeaderLength(inode, e);
    PadShift(|before|, h + |e.name| + 1);
    PadShift(|before| + (h + |e.name| + 1 + pad), |e.data|);
    FieldsOntoIs(Fields(inode, e), BodyOnto(h, e, []));
    var z, y := Zeros(pad), Zeros(end);
    assert y + [] == y;
  }

}
