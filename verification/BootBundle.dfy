/**
 Model of initramfs assembly, `python/src/wcm/boot_bundle.py:50-103`: the path, parent, size and
 permission policy, and the archive it writes.

 The tar reader and the ELF test of the loader are inputs: a runtime is its size and its items
 in order. Python's dict is its keys in insertion order and its values.
 */
module BootBundle {
  import opened Wrappers
  import opened Bits
  import opened Canonical
  import opened CanonicalOrder
  import opened Cpio

  type Name = seq<nat>

  datatype File = File(mode: nat, data: Bytes)

  datatype Kind = Directory | Regular | Special

  /** `stream` is None when the tar reader yields no file object. */
  datatype Item = Item(name: Name, kind: Kind, mode: nat, size: int, hasPaxHeaders: bool, stream: Option<Bytes>)

  datatype Dict = Dict(order: seq<Name>, files: map<Name, File>)

  const MAX_BUNDLE: nat := 0x2000_0000
  const MAX_FILES: nat := 30000

  const SLASH: nat := 0x2F
  const DOT: nat := 0x2E
  const DEV: Name := [0x64, 0x65, 0x76]
  const RUN: Name := [0x72, 0x75, 0x6E]
  const PROC: Name := [0x70, 0x72, 0x6F, 0x63]
  const SYS: Name := [0x73, 0x79, 0x73]
  const TMP: Name := [0x74, 0x6D, 0x70]
  const INIT: Name := [0x69, 0x6E, 0x69, 0x74]
  const RUNTIME: Name := [0x72, 0x75, 0x6E, 0x74, 0x69, 0x6D, 0x65]
  const UNDER_RUNTIME: Name := RUNTIME + [SLASH]

  /** usr/local/bin/python3 */
  const PYTHON: Name := [0x75, 0x73, 0x72, 0x2F, 0x6C, 0x6F, 0x63, 0x61, 0x6C, 0x2F, 0x62, 0x69, 0x6E, 0x2F,
                         0x70, 0x79, 0x74, 0x68, 0x6F, 0x6E, 0x33]

  const DIRECTORY_MODE: nat := 0x416D    // S_IFDIR | 0o555
  const EXECUTABLE_MODE: nat := 0x816D   // S_IFREG | 0o555
  const READABLE_MODE: nat := 0x8124     // S_IFREG | 0o444
  const FORBIDDEN_BITS: nat := 0xE12     // 0o7022
  const EXECUTE_BITS: nat := 0x49        // 0o111

  const EMPTY_DIRECTORY: File := File(DIRECTORY_MODE, [])

  predicate IsDirectory(f: File) {
    f.mode / 0x1000 % 16 == 4
  }

  // ------------------------------------------------------------------ names

  predicate PlainChar(c: nat) {
    0x41 <= c <= 0x5A || 0x61 <= c <= 0x7A || 0x30 <= c <= 0x39 || c in {0x5F, 0x2B, DOT, 0x2C, 0x40, SLASH, 0x2D}
  }

  function FirstPart(name: Name): (p: Name)
    ensures p <= name && SLASH !in p
    ensures |p| < |name| ==> name[|p|] == SLASH
  {
    if name == [] || name[0] == SLASH then [] else [name[0]] + FirstPart(name[1..])
  }

  /** `name.split("/")` */
  function Parts(name: Name): (ps: seq<Name>)
    ensures ps != [] && ps[0] == FirstPart(name)
    decreases |name|
  {
    var p := FirstPart(name);
    if |p| == |name| then [p] else [p] + Parts(name[|p| + 1..])
  }

  predicate SafeName(name: Name) {
    && name != [] && (forall i :: 0 <= i < |name| ==> PlainChar(name[i]))
    && (forall i :: 0 <= i < |Parts(name)| ==> Parts(name)[i] !in {[], [DOT], [DOT, DOT]})
    && FirstPart(name) !in {DEV, RUN, PROC, SYS, TMP}
  }

  // ------------------------------------------------------------------ the policy on items

  function NamesOf(items: seq<Item>): (s: set<Name>) {
    set i | 0 <= i < |items| :: items[i].name
  }

  function Sizes(items: seq<Item>): (n: int) {
    if items == [] then 0 else Sizes(items[..|items| - 1]) + items[|items| - 1].size
  }

  /** Characters in the names of a runtime that its tar spells out member by member; only a pax header can name more
      than one. A tar file is longer than these names. */
  function NameChars(items: seq<Item>): (n: nat) {
    if items == [] then 0
    else
      NameChars(items[..|items| - 1])
      + if items[|items| - 1].hasPaxHeaders then 0 else |items[|items| - 1].name|
  }

  predicate ItemAccepted(item: Item, before: seq<Item>, loaderSize: nat) {
    && SafeName(item.name) && item.name !in NamesOf(before)
    && |before| + 1 <= MAX_FILES && BitAnd(item.mode, FORBIDDEN_BITS) == 0
    && !item.kind.Special? && !item.hasPaxHeaders
    && loaderSize + Sizes(before) + item.size <= MAX_BUNDLE && item.size >= 0
    && (item.kind.Directory? ==> item.size == 0)
    && (item.kind.Regular? ==> item.stream.Some? && |item.stream.value| == item.size)
  }

  predicate ItemsAccepted(items: seq<Item>, loaderSize: nat) {
    forall i :: 0 <= i < |items| ==> ItemAccepted(items[i], items[..i], loaderSize)
  }

  function FileOf(item: Item): (f: File)
    requires item.kind.Regular? ==> item.stream.Some?
  {
    if !item.kind.Regular? then EMPTY_DIRECTORY
    else File(if BitAnd(item.mode, EXECUTE_BITS) != 0 then EXECUTABLE_MODE else READABLE_MODE, item.stream.value)
  }

  // ------------------------------------------------------------------ collecting

  ghost predicate DictValid(d: Dict) {
    && (forall n :: n in d.order <==> n in d.files)
    && (forall i, j :: 0 <= i < j < |d.order| ==> d.order[i] != d.order[j])
  }

  function Put(d: Dict, n: Name, f: File): (r: Dict)
    requires DictValid(d)
    ensures DictValid(r)
  {
    Dict(if n in d.files then d.order else d.order + [n], d.files[n := f])
  }

  const START_NAMES: seq<Name> :=
    [DEV, SYS, RUNTIME, UNDER_RUNTIME + DEV, UNDER_RUNTIME + RUN, INIT]

  function Start(loader: Bytes): (d: Dict) {
    Dict(START_NAMES,
         map[DEV := EMPTY_DIRECTORY, SYS := EMPTY_DIRECTORY, RUNTIME := EMPTY_DIRECTORY,
             UNDER_RUNTIME + DEV := EMPTY_DIRECTORY, UNDER_RUNTIME + RUN := EMPTY_DIRECTORY,
             INIT := File(EXECUTABLE_MODE, loader)])
  }

  lemma {:induction false} StartValid(loader: Bytes)
    ensures DictValid(Start(loader))
  {
    var o := START_NAMES;
    assert o[0] == DEV && o[1] == SYS && o[2] == RUNTIME && o[5] == INIT;
    assert o[3] == UNDER_RUNTIME + DEV && o[4] == UNDER_RUNTIME + RUN;
    assert o[0][0] == 0x64 && o[1][0] == 0x73 && o[2][0] == 0x72 && o[5][0] == 0x69;
    assert |o[0]| == 3 && |o[1]| == 3 && |o[2]| == 7 && |o[3]| == 11 && |o[4]| == 11 && |o[5]| == 4;
    assert o[3][8] == 0x64 && o[4][8] == 0x72;
  }

  function Gather(loader: Bytes, items: seq<Item>): (d: Dict)
    requires forall i :: 0 <= i < |items| && items[i].kind.Regular? ==> items[i].stream.Some?
    ensures DictValid(d)
  {
    StartValid(loader);
    if items == [] then Start(loader)
    else
      var n := |items| - 1;
      Put(Gather(loader, items[..n]), UNDER_RUNTIME + items[n].name, FileOf(items[n]))
  }

  // ------------------------------------------------------------------ parents

  /** `q` is a proper ancestor of `p`: the text before one of its slashes. */
  predicate IsAncestor(q: Name, p: Name) {
    |q| < |p| && p[|q|] == SLASH && p[..|q|] == q
  }

  ghost predicate ClosedAt(files: map<Name, File>, p: Name) {
    forall i :: 0 <= i < |p| && p[i] == SLASH ==> p[..i] in files && IsDirectory(files[p[..i]])
  }

  /** Every ancestor of every path is there, as a directory. */
  ghost predicate AncestorsPresent(files: map<Name, File>) {
    forall p :: p in files ==> ClosedAt(files, p)
  }

  /** What closing adds: empty directories that are ancestors of collected paths, and nothing else. */
  ghost predicate Extends(d: Dict, files: map<Name, File>) {
    && (forall p :: p in d.files ==> p in files && files[p] == d.files[p])
    && (forall q :: q in files && q !in d.files ==>
          files[q] == EMPTY_DIRECTORY && exists p :: p in d.files && IsAncestor(q, p))
  }

  function TotalLength(names: seq<Name>): (n: nat) {
    if names == [] then 0 else TotalLength(names[..|names| - 1]) + |names[|names| - 1]|
  }

  lemma {:induction false} AddDirectory(d: Dict, files: map<Name, File>, p: Name, i: nat)
    requires Extends(d, files) && p in d.files && i < |p| && p[i] == SLASH && p[..i] !in files
    requires forall q :: q in files && q !in d.files ==> ClosedAt(files, q)
    requires forall k :: 0 <= k < i && p[k] == SLASH ==> p[..k] in files && IsDirectory(files[p[..k]])
    ensures var more := files[p[..i] := EMPTY_DIRECTORY];
      && Extends(d, more)
      && (forall q :: q in more && q !in d.files ==> ClosedAt(more, q))
      && |more| == |files| + 1
  {
    var q := p[..i];
    var more := files[q := EMPTY_DIRECTORY];
    assert IsAncestor(q, p);
    assert more.Keys == files.Keys + {q};
    forall k | 0 <= k < |q| && q[k] == SLASH
      ensures q[..k] in more && IsDirectory(more[q[..k]])
    {
      assert q[..k] == p[..k];
    }
    forall r | r in more && r !in d.files
      ensures ClosedAt(more, r)
    {
      if r != q {
        assert ClosedAt(files, r);
      }
    }
  }

  /** The ancestors of `p` before position `i` are in place, and nothing that was closed was opened. */
  ghost predicate Closing(d: Dict, before: map<Name, File>, files: map<Name, File>, p: Name, i: nat)
    requires i <= |p|
  {
    && Extends(d, files) && |files| <= |before| + i
    && (forall q :: q in files && q !in d.files ==> ClosedAt(files, q))
    && (forall q :: ClosedAt(before, q) ==> ClosedAt(files, q))
    && (forall k :: 0 <= k < i && p[k] == SLASH ==> p[..k] in files && IsDirectory(files[p[..k]]))
  }

  lemma {:induction false} ClosingAdd(d: Dict, before: map<Name, File>, files: map<Name, File>, p: Name, i: nat)
    requires p in d.files && i < |p| && Closing(d, before, files, p, i) && p[i] == SLASH && p[..i] !in files
    ensures Closing(d, before, files[p[..i] := EMPTY_DIRECTORY], p, i + 1)
  {
    hide Extends;
    AddDirectory(d, files, p, i);
    assert forall q :: ClosedAt(files, q) ==> ClosedAt(files[p[..i] := EMPTY_DIRECTORY], q);
  }

  /** No collected file stands in the place of an ancestor of `p`. */
  ghost predicate FreeAbove(d: Dict, p: Name) {
    forall i :: 0 <= i < |p| && p[i] == SLASH && p[..i] in d.files ==> IsDirectory(d.files[p[..i]])
  }

  lemma {:induction false} ClosedIsFree(d: Dict, files: map<Name, File>, p: Name)
    requires Extends(d, files) && ClosedAt(files, p)
    ensures FreeAbove(d, p)
  {
  }

  /** The ancestors of one path, from the top down; false where the source raises. */
  method CloseOne(d: Dict, before: map<Name, File>, p: Name) returns (ok: bool, files: map<Name, File>)
    requires p in d.files && Closing(d, before, before, p, 0)
    ensures ok ==> Closing(d, before, files, p, |p|) && ClosedAt(files, p)
    ensures ok <==> FreeAbove(d, p)
  {
    files := before;
    for i := 0 to |p|
      invariant Closing(d, before, files, p, i)
    {
      hide Extends, ClosedAt;
      if p[i] == SLASH {
        var parent := p[..i];
        if parent in files {
          if !IsDirectory(files[parent]) {
            return false, files;
          }
        } else {
          ClosingAdd(d, before, files, p, i);
          files := files[parent := EMPTY_DIRECTORY];
        }
      }
    }
    ClosedIsFree(d, files, p);
    ok := true;
  }

  lemma {:induction false} TotalLengthSnoc(names: seq<Name>, i: nat)
    requires i < |names|
    ensures TotalLength(names[..i + 1]) == TotalLength(names[..i]) + |names[i]|
  {
    assert names[..i + 1][..i] == names[..i];
  }

  /** The first `n` collected paths are closed, and nothing was added that is not. */
  ghost predicate ClosingAll(d: Dict, files: map<Name, File>, n: nat)
    requires n <= |d.order|
  {
    && Extends(d, files) && |files| <= |d.order| + TotalLength(d.order[..n])
    && (forall q :: q in files && q !in d.files ==> ClosedAt(files, q))
    && (forall j :: 0 <= j < n ==> ClosedAt(files, d.order[j]) && FreeAbove(d, d.order[j]))
  }

  lemma {:induction false} ClosingAllStart(d: Dict)
    requires DictValid(d)
    ensures ClosingAll(d, d.files, 0)
  {
    OrderSize(d);
  }

  lemma {:induction false} ClosingOneMore(d: Dict, before: map<Name, File>, files: map<Name, File>, n: nat)
    requires n < |d.order| && ClosingAll(d, before, n)
    requires Closing(d, before, files, d.order[n], |d.order[n]|)
    requires ClosedAt(files, d.order[n]) && FreeAbove(d, d.order[n])
    ensures ClosingAll(d, files, n + 1)
  {
    hide Extends, ClosedAt, FreeAbove;
    TotalLengthSnoc(d.order, n);
  }

  /** Adds every missing ancestor; false where the source raises because one is a file. */
  method CloseAll(d: Dict) returns (ok: bool, files: map<Name, File>)
    requires DictValid(d)
    ensures ok <==> forall p :: p in d.files ==> FreeAbove(d, p)
    ensures ok ==> Extends(d, files) && AncestorsPresent(files) && |files| <= |d.order| + TotalLength(d.order)
  {
    hide Extends, ClosedAt, FreeAbove, TotalLength, AncestorsPresent;
    files := d.files;
    ClosingAllStart(d);
    for n := 0 to |d.order|
      invariant ClosingAll(d, files, n)
    {
      var good, more := CloseOne(d, files, d.order[n]);
      if !good {
        return false, files;
      }
      ClosingOneMore(d, files, more, n);
      files := more;
    }
    assert d.order[..|d.order|] == d.order;
    AllClosed(d, files);
    ok := true;
  }

  lemma {:induction false} AllClosed(d: Dict, files: map<Name, File>)
    requires DictValid(d)
    requires forall q :: q in files && q !in d.files ==> ClosedAt(files, q)
    requires forall j :: 0 <= j < |d.order| ==> ClosedAt(files, d.order[j]) && FreeAbove(d, d.order[j])
    ensures AncestorsPresent(files) && forall p :: p in d.files ==> FreeAbove(d, p)
  {
    hide ClosedAt, FreeAbove;
    forall p | p in d.files
      ensures ClosedAt(files, p) && FreeAbove(d, p)
    {
      assert p in d.order;
      var j :| 0 <= j < |d.order| && d.order[j] == p;
    }
  }

  lemma {:induction false} OrderSize(d: Dict)
    requires DictValid(d)
    ensures |d.files| == |d.order|
  {
    DistinctSize(d.order);
    assert d.files.Keys == set n | n in d.order;
  }

  lemma {:induction false} DistinctSize(s: seq<Name>)
    requires forall i, j :: 0 <= i < j < |s| ==> s[i] != s[j]
    ensures |set n | n in s| == |s|
  {
    if s == [] {
      assert (set n | n in s) == {};
    } else {
      var last := |s| - 1;
      DistinctSize(s[..last]);
      assert (set n | n in s) == (set n | n in s[..last]) + {s[last]};
      assert s[last] !in s[..last];
    }
  }

  // ------------------------------------------------------------------ what the names look like

  lemma {:induction false} FirstPartOf(a: Name, rest: Name)
    requires SLASH !in a
    ensures FirstPart(a + [SLASH] + rest) == a
  {
    if a != [] {
      assert (a + [SLASH] + rest)[1..] == a[1..] + [SLASH] + rest;
      FirstPartOf(a[1..], rest);
      assert [a[0]] + a[1..] == a;
    }
  }

  predicate KnownName(p: Name) {
    p in START_NAMES || (UNDER_RUNTIME <= p && SafeName(p[|UNDER_RUNTIME|..]))
  }

  /** Nothing lies below the two directories the loader mounts over. */
  predicate BelowMount(p: Name) {
    UNDER_RUNTIME + DEV + [SLASH] <= p || UNDER_RUNTIME + RUN + [SLASH] <= p
  }

  lemma {:induction false} NotBelow(p: Name)
    requires KnownName(p)
    ensures !BelowMount(p)
  {
    hide SafeName;
    if p in START_NAMES {
    } else {
      var name := p[|UNDER_RUNTIME|..];
      NotBelowPart(p, name, DEV);
      NotBelowPart(p, name, RUN);
    }
  }

  lemma {:induction false} NotBelowPart(p: Name, name: Name, part: Name)
    requires p == UNDER_RUNTIME + name && SafeName(name) && SLASH !in part && part in {DEV, RUN}
    ensures !(UNDER_RUNTIME + part + [SLASH] <= p)
  {
    if UNDER_RUNTIME + part + [SLASH] <= p {
      var k := |part| + 1;
      assert name[..k] == part + [SLASH] by {
        assert p[|UNDER_RUNTIME|..|UNDER_RUNTIME| + k] == name[..k];
        assert (UNDER_RUNTIME + part + [SLASH])[|UNDER_RUNTIME|..] == part + [SLASH];
      }
      assert name == part + [SLASH] + name[k..];
      FirstPartOf(part, name[k..]);
    }
  }

  /** What is known of a collected file, and of everything closing adds. */
  predicate Sound(n: Name, f: File) {
    && 0 < |n| <= 8 + MAX_BUNDLE && n[0] != 0x54 && n[0] != SLASH && !BelowMount(n)
    && f.mode in {DIRECTORY_MODE, EXECUTABLE_MODE, READABLE_MODE} && |f.data| <= MAX_BUNDLE
  }

  lemma {:induction false} ItemSound(item: Item, before: seq<Item>, loaderSize: nat)
    requires ItemAccepted(item, before, loaderSize) && |item.name| <= MAX_BUNDLE && 0 <= Sizes(before)
    ensures Sound(UNDER_RUNTIME + item.name, FileOf(item))
  {
    hide SafeName;
    var p := UNDER_RUNTIME + item.name;
    assert p[|UNDER_RUNTIME|..] == item.name && p[0] == 0x72;
    NotBelow(p);
  }

  lemma {:induction false} StartSound(loader: Bytes, n: Name)
    requires |loader| <= MAX_BUNDLE && n in Start(loader).files
    ensures Sound(n, Start(loader).files[n])
  {
    StartValid(loader);
    NotBelow(n);
  }

  lemma {:induction false} PrefixAccepted(items: seq<Item>, loaderSize: nat, n: nat)
    requires ItemsAccepted(items, loaderSize) && n <= |items|
    ensures ItemsAccepted(items[..n], loaderSize)
  {
    hide ItemAccepted;
    forall i | 0 <= i < n
      ensures ItemAccepted(items[..n][i], items[..n][..i], loaderSize)
    {
      assert items[..n][..i] == items[..i];
      assert ItemAccepted(items[i], items[..i], loaderSize);
    }
  }

  lemma {:induction false} SizesNonnegative(items: seq<Item>, loaderSize: nat)
    requires ItemsAccepted(items, loaderSize)
    ensures 0 <= Sizes(items)
  {
    if items != [] {
      PrefixAccepted(items, loaderSize, |items| - 1);
      SizesNonnegative(items[..|items| - 1], loaderSize);
      assert ItemAccepted(items[|items| - 1], items[..|items| - 1], loaderSize);
    }
  }

  lemma {:induction false} NameCharsLast(items: seq<Item>, loaderSize: nat)
    requires items != [] && ItemAccepted(items[|items| - 1], items[..|items| - 1], loaderSize)
    ensures NameChars(items) == NameChars(items[..|items| - 1]) + |items[|items| - 1].name|
  {
  }

  ghost predicate Streamed(items: seq<Item>) {
    forall i :: 0 <= i < |items| && items[i].kind.Regular? ==> items[i].stream.Some?
  }

  ghost predicate AllSound(files: map<Name, File>) {
    forall n :: n in files ==> Sound(n, files[n])
  }

  /** Everything collected is sound, and there is little of it. */
  lemma {:induction false} GatherSound(loader: Bytes, items: seq<Item>)
    requires |loader| <= MAX_BUNDLE && ItemsAccepted(items, |loader|) && NameChars(items) <= MAX_BUNDLE
    requires Streamed(items)
    ensures var d := Gather(loader, items);
      AllSound(d.files) && |d.order| <= 6 + |items|
      && TotalLength(d.order) <= 72 + 8 * |items| + NameChars(items)
  {
    hide Sound, SafeName, ItemAccepted, Start;
    if items == [] {
      forall n | n in Start(loader).files
        ensures Sound(n, Start(loader).files[n])
      {
        StartSound(loader, n);
      }
      StartTotal(loader);
    } else {
      var n := |items| - 1;
      PrefixAccepted(items, |loader|, n);
      GatherSound(loader, items[..n]);
      SizesNonnegative(items[..n], |loader|);
      assert ItemAccepted(items[n], items[..n], |loader|);
      NameCharsLast(items, |loader|);
      ItemSound(items[n], items[..n], |loader|);
    }
  }

  lemma {:induction false} StartTotal(loader: Bytes)
    ensures |Start(loader).order| == 6 && TotalLength(Start(loader).order) <= 72
  {
    hide Start;
    assert Start(loader).order == START_NAMES by { StartOrder(loader); }
    ShortTotal(START_NAMES, 12);
  }

  lemma {:induction false} StartOrder(loader: Bytes)
    ensures Start(loader).order == START_NAMES
  {
  }

  lemma {:induction false} ShortTotal(names: seq<Name>, w: nat)
    requires forall n :: n in names ==> |n| <= w
    ensures TotalLength(names) <= |names| * w
  {
    if names != [] {
      var n := |names| - 1;
      ShortTotal(names[..n], w);
      assert names[n] in names && (n + 1) * w == n * w + w;
    }
  }

  lemma {:induction false} AncestorSound(q: Name, p: Name, f: File)
    requires IsAncestor(q, p) && Sound(p, f)
    ensures Sound(q, EMPTY_DIRECTORY)
  {
    assert q <= p;
  }

  lemma {:induction false} ClosedSound(d: Dict, files: map<Name, File>)
    requires AllSound(d.files) && Extends(d, files)
    ensures AllSound(files)
  {
    hide Sound, IsAncestor;
    forall q | q in files
      ensures Sound(q, files[q])
    {
      if q !in d.files {
        var p :| p in d.files && IsAncestor(q, p);
        AncestorSound(q, p, d.files[p]);
      }
    }
  }

  // ------------------------------------------------------------------ collecting and sorting

  lemma {:induction false} AcceptedSnoc(items: seq<Item>, loaderSize: nat, n: nat)
    requires n < |items| && ItemsAccepted(items[..n], loaderSize)
    ensures ItemsAccepted(items[..n + 1], loaderSize) <==> ItemAccepted(items[n], items[..n], loaderSize)
  {
    hide ItemAccepted;
    var longer := items[..n + 1];
    assert longer[..n] == items[..n] && longer[n] == items[n];
    if ItemAccepted(items[n], items[..n], loaderSize) {
      forall i | 0 <= i < n + 1
        ensures ItemAccepted(longer[i], longer[..i], loaderSize)
      {
        if i < n {
          assert longer[i] == items[..n][i] && longer[..i] == items[..n][..i];
        }
      }
    }
  }

  lemma {:induction false} CollectStep(items: seq<Item>, loader: Bytes, n: nat)
    requires n < |items| && Streamed(items[..n]) && (items[n].kind.Regular? ==> items[n].stream.Some?)
    ensures Streamed(items[..n + 1])
    ensures Gather(loader, items[..n + 1]) ==
      Put(Gather(loader, items[..n]), UNDER_RUNTIME + items[n].name, FileOf(items[n]))
    ensures NamesOf(items[..n + 1]) == NamesOf(items[..n]) + {items[n].name}
    ensures Sizes(items[..n + 1]) == Sizes(items[..n]) + items[n].size
  {
    var longer := items[..n + 1];
    assert longer[..n] == items[..n] && longer[n] == items[n];
    assert NamesOf(longer) == NamesOf(items[..n]) + {items[n].name} by {
      assert forall i :: 0 <= i < n ==> longer[i] == items[..n][i];
    }
  }

  method Collect(items: seq<Item>, loader: Bytes) returns (ok: bool, d: Dict)
    ensures ok <==> ItemsAccepted(items, |loader|)
    ensures ok ==> Streamed(items) && d == Gather(loader, items)
  {
    StartValid(loader);
    d := Start(loader);
    var seen: set<Name> := {};
    var total: int := |loader|;
    for n := 0 to |items|
      invariant ItemsAccepted(items[..n], |loader|) && Streamed(items[..n]) && d == Gather(loader, items[..n])
      invariant seen == NamesOf(items[..n]) && |seen| == n && total == |loader| + Sizes(items[..n])
    {
      hide SafeName, Gather, ItemsAccepted, Streamed, NamesOf, Sizes, Start;
      var item := items[n];
      var taken := CheckItem(item, items[..n], |loader|, seen, total);
      AcceptedSnoc(items, |loader|, n);
      if !taken {
        return false, d;
      }
      CollectStep(items, loader, n);
      seen := seen + {item.name};
      total := total + item.size;
      d := Put(d, UNDER_RUNTIME + item.name, FileOf(item));
    }
    assert items[..|items|] == items;
    ok := true;
  }

  /** The source's checks on one item, in their order. */
  method CheckItem(item: Item, before: seq<Item>, loaderSize: nat, seen: set<Name>, total: int) returns (ok: bool)
    requires seen == NamesOf(before) && |seen| == |before| && total == loaderSize + Sizes(before)
    ensures ok <==> ItemAccepted(item, before, loaderSize)
  {
    if !SafeName(item.name) || item.name in seen {
      return false;
    }
    if |seen + {item.name}| > MAX_FILES || BitAnd(item.mode, FORBIDDEN_BITS) != 0 {
      return false;
    }
    if item.kind.Special? || item.hasPaxHeaders {
      return false;
    }
    if total + item.size > MAX_BUNDLE || item.size < 0 || (item.kind.Directory? && item.size != 0) {
      return false;
    }
    if item.kind.Regular? {
      if item.stream.None? {
        return false;
      }
      if |item.stream.value| != item.size {
        return false;
      }
    }
    return true;
  }

  ghost predicate SortedByName(es: seq<Entry>) {
    forall i, j :: 0 <= i < j < |es| ==> LexLess(es[i].name, es[j].name)
  }

  /** The entries of a dict, in the order of their names. */
  ghost predicate Lists(files: map<Name, File>, es: seq<Entry>) {
    && SortedByName(es)
    && (forall i :: 0 <= i < |es| ==> es[i].name in files && files[es[i].name] == File(es[i].mode, es[i].data))
    && (forall n :: n in files ==> exists i :: 0 <= i < |es| && es[i].name == n)
  }

  lemma {:induction false} SmallestExists(s: set<Name>) returns (m: Name)
    requires s != {}
    ensures m in s && forall x :: x in s && x != m ==> LexLess(m, x)
    decreases |s|
  {
    m :| m in s;
    var rest := s - {m};
    if rest != {} {
      var k := SmallestExists(rest);
      LexTotal(m, k);
      if LexLess(k, m) {
        m := k;
      } else {
        forall x | x in s && x != m
          ensures LexLess(m, x)
        {
          if x != k {
            LexTransitive(m, k, x);
          }
        }
      }
    }
  }

  /** `es` lists everything but `rest`, all of which comes later. */
  ghost predicate ListsBut(files: map<Name, File>, es: seq<Entry>, rest: set<Name>) {
    && SortedByName(es)
    && (forall i :: 0 <= i < |es| ==> es[i].name in files && files[es[i].name] == File(es[i].mode, es[i].data))
    && (forall n :: n in files && n !in rest ==> exists i :: 0 <= i < |es| && es[i].name == n)
    && (forall i, n :: 0 <= i < |es| && n in rest ==> LexLess(es[i].name, n))
  }

  lemma {:induction false} ListNext(files: map<Name, File>, es: seq<Entry>, rest: set<Name>, m: Name)
    requires ListsBut(files, es, rest) && m in rest && m in files
    requires forall x :: x in rest && x != m ==> LexLess(m, x)
    ensures ListsBut(files, es + [Entry(m, files[m].mode, files[m].data)], rest - {m})
  {
    hide LexLess;
    var longer := es + [Entry(m, files[m].mode, files[m].data)];
    assert longer[|es|].name == m;
    forall n | n in files && n !in rest - {m}
      ensures exists i :: 0 <= i < |longer| && longer[i].name == n
    {
      if n != m {
        var i :| 0 <= i < |es| && es[i].name == n;
        assert longer[i].name == n;
      }
    }
  }

  method SortEntries(files: map<Name, File>) returns (es: seq<Entry>)
    ensures Lists(files, es) && |es| == |files|
  {
    es := [];
    var rest := files.Keys;
    while rest != {}
      invariant rest <= files.Keys && |es| + |rest| == |files|
      invariant ListsBut(files, es, rest)
      decreases |rest|
    {
      hide LexLess, ListsBut;
      ghost var k := SmallestExists(rest);
      var m :| m in rest && forall x :: x in rest && x != m ==> LexLess(m, x);
      ListNext(files, es, rest, m);
      es := es + [Entry(m, files[m].mode, files[m].data)];
      rest := rest - {m};
    }
  }

  // ------------------------------------------------------------------ what an archive of sound members promises

  /** Every ancestor of a member is there, is a directory and comes first. */
  ghost predicate AncestorsLead(es: seq<Entry>) {
    forall i, k :: 0 <= i < |es| && 0 <= k < |es[i].name| && es[i].name[k] == SLASH ==>
      exists j :: 0 <= j < i && es[j].name == es[i].name[..k] && IsDirectory(File(es[j].mode, es[j].data))
  }

  ghost predicate MountsEmpty(es: seq<Entry>) {
    forall i :: 0 <= i < |es| ==> !BelowMount(es[i].name)
  }

  lemma {:induction false} PrefixLess(q: Name, p: Name)
    requires q < p
    ensures LexLess(q, p)
  {
    if q != [] {
      PrefixLess(q[1..], p[1..]);
    }
  }

  lemma {:induction false} AncestorAt(files: map<Name, File>, es: seq<Entry>, i: nat, k: nat) returns (j: nat)
    requires Lists(files, es) && AncestorsPresent(files)
    requires i < |es| && k < |es[i].name| && es[i].name[k] == SLASH
    ensures j < i && es[j].name == es[i].name[..k] && IsDirectory(File(es[j].mode, es[j].data))
  {
    var p := es[i].name;
    assert ClosedAt(files, p);
    assert p[..k] in files;
    j :| 0 <= j < |es| && es[j].name == p[..k];
    PrefixLess(p[..k], p);
    if j > i {
      LexTotal(p, p[..k]);
    }
  }

  /**
   In every accepted bundle each ancestor of a member is itself a member, is a directory and
   comes before it, and nothing lies below the mount points runtime/dev and runtime/run.
   */
  lemma {:induction false} AncestorsFirst(files: map<Name, File>, es: seq<Entry>)
    requires Lists(files, es) && AncestorsPresent(files) && AllSound(files)
    ensures AncestorsLead(es) && MountsEmpty(es)
  {
    hide Sound, BelowMount, IsDirectory;
    forall i, k | 0 <= i < |es| && 0 <= k < |es[i].name| && es[i].name[k] == SLASH
      ensures exists j :: 0 <= j < i && es[j].name == es[i].name[..k] && IsDirectory(File(es[j].mode, es[j].data))
    {
      var j := AncestorAt(files, es, i, k);
    }
    forall i | 0 <= i < |es|
      ensures !BelowMount(es[i].name)
    {
      assert Sound(es[i].name, files[es[i].name]);
      SoundNotBelow(es[i].name, files[es[i].name]);
    }
  }

  lemma {:induction false} SoundNotBelow(n: Name, f: File)
    requires Sound(n, f)
    ensures !BelowMount(n)
  {
  }

  // ------------------------------------------------------------------ the bundle

  /** Everything the source checks before it writes. */
  ghost predicate Acceptable(runtimeSize: nat, loader: Bytes, loaderStatic: bool, items: seq<Item>) {
    && runtimeSize > 0 && runtimeSize + |loader| <= MAX_BUNDLE && loaderStatic
    && ItemsAccepted(items, |loader|) && Streamed(items)
    && var d := Gather(loader, items);
      && (forall p :: p in d.files ==> FreeAbove(d, p))
      && (UNDER_RUNTIME + PYTHON) in d.files
      && BitAnd(d.files[UNDER_RUNTIME + PYTHON].mode, EXECUTE_BITS) != 0
      && d.files[UNDER_RUNTIME + PYTHON].data != []
  }

  /** What an accepted bundle holds, listed in the order of the archive. */
  ghost predicate BundleHolds(loader: Bytes, items: seq<Item>, es: seq<Entry>)
    requires Streamed(items)
  {
    exists files ::
      && Lists(files, es) && Extends(Gather(loader, items), files)
      && AncestorsPresent(files) && AllSound(files)
  }

  /**
   Assembles the archive, or None where the source raises. An accepted archive reads back as
   the collected files and the directories above them, in order, and nothing else.
   */
  method BuildInitramfs(runtimeSize: nat, loader: Bytes, loaderStatic: bool, items: seq<Item>)
    returns (bundle: Option<Bytes>, ghost listing: seq<Entry>)
    requires NameChars(items) <= runtimeSize
    ensures bundle.Some? <==> Acceptable(runtimeSize, loader, loaderStatic, items)
    ensures bundle.Some? ==> Streamed(items) && BundleHolds(loader, items, listing)
    ensures bundle.Some? ==> AncestorsLead(listing) && MountsEmpty(listing)
    ensures bundle.Some? ==> bundle.value == Archive(listing)
    ensures bundle.Some? ==> ReadArchive(bundle.value) == Some(Numbered(listing, 1))
  {
    hide Gather, Extends, AncestorsPresent, AllSound, Lists, Streamed, FreeAbove, ItemsAccepted, AllFit,
         Archive, ReadArchive, Numbered, NameChars, TotalLength, BitAnd, AncestorsLead, MountsEmpty;
    listing := [];
    if runtimeSize == 0 || runtimeSize + |loader| > MAX_BUNDLE || !loaderStatic {
      return None, listing;
    }
    var ok, d := Collect(items, loader);
    if !ok {
      return None, listing;
    }
    var free, files := CloseAll(d);
    if !free {
      return None, listing;
    }
    var python := UNDER_RUNTIME + PYTHON;
    InterpreterOriginal(d, files, python);
    if python !in files || BitAnd(files[python].mode, EXECUTE_BITS) == 0 || files[python].data == [] {
      return None, listing;
    }
    GatherSound(loader, items);
    ClosedSound(d, files);
    var es := SortEntries(files);
    listing := es;
    FitsArchive(loader, items, d, files, es);
    AncestorsFirst(files, es);
    RoundTrip(es);
    var bytes := WriteArchive(es);
    return Some(bytes), listing;
  }

  /** Closing never adds the interpreter: what it adds has no data. */
  lemma {:induction false} InterpreterOriginal(d: Dict, files: map<Name, File>, n: Name)
    requires Extends(d, files)
    ensures n in files && files[n].data != [] <==> n in d.files && d.files[n].data != []
    ensures n in d.files ==> n in files && files[n] == d.files[n]
  {
  }

  lemma {:induction false} FewItems(items: seq<Item>, loaderSize: nat)
    requires ItemsAccepted(items, loaderSize)
    ensures |items| <= MAX_FILES
  {
    hide SafeName;
    if items != [] {
      assert ItemAccepted(items[|items| - 1], items[..|items| - 1], loaderSize);
    }
  }

  lemma {:induction false} FitsArchive(loader: Bytes, items: seq<Item>, d: Dict, files: map<Name, File>, es: seq<Entry>)
    requires ItemsAccepted(items, |loader|) && NameChars(items) <= MAX_BUNDLE && Lists(files, es) && AllSound(files)
    requires |es| == |files| <= |d.order| + TotalLength(d.order)
    requires |d.order| <= 6 + |items| && TotalLength(d.order) <= 72 + 8 * |items| + NameChars(items)
    ensures AllFit(es, 1)
  {
    FewItems(items, |loader|);
    forall i | 0 <= i < |es|
      ensures Fits(0, es[i]) && es[i].name != TRAILER_NAME
    {
      assert Sound(es[i].name, files[es[i].name]);
    }
  }
}
