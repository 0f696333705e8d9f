/**
 What `python/src/wcm/boot_bundle.py:50-103` accepts and what its archive holds, said of the items
 themselves.

 Names are spelled as texts, parts are found by their slashes, permission bits are tested one by
 one, and sizes are added from the front: nothing here goes through `Parts`, `FirstPart`,
 `BitAnd`, `Sizes` or `Gather` of the model, so the lemmas decide what those may be.
 */
module BootPolicy {
  import opened Bits
  import opened CanonicalOrder
  import opened Cpio
  import opened BootBundle

  /** The code points of a text. */
  function Text(s: string): (t: Name)
    ensures |t| == |s| && forall i :: 0 <= i < |s| ==> t[i] == s[i] as nat
  {
    seq(|s|, i requires 0 <= i < |s| => s[i] as nat)
  }

  // ------------------------------------------------------------------ names

  /** `part` stands between two slashes of the name, or between one and an end. */
  predicate PartAt(name: Name, i: nat, j: nat, part: Name) {
    && i <= j <= |name| && name[i..j] == part
    && (i == 0 || name[i - 1] == '/' as nat) && (j == |name| || name[j] == '/' as nat)
  }

  ghost predicate HasPart(name: Name, part: Name) {
    exists i: nat, j: nat :: PartAt(name, i, j, part)
  }

  /** The name lies at or below this directory. */
  predicate Within(name: Name, top: Name) {
    top <= name && (|name| == |top| || name[|top|] == '/' as nat)
  }

  ghost predicate NameChar(c: nat) {
    || 'A' as nat <= c <= 'Z' as nat || 'a' as nat <= c <= 'z' as nat || '0' as nat <= c <= '9' as nat
    || exists i :: 0 <= i < 7 && c == "_+.,@/-"[i] as nat
  }

  /** Plain characters, no empty, `.` or `..` part, and outside the five reserved directories. */
  ghost predicate PolicyName(name: Name) {
    && name != [] && (forall i :: 0 <= i < |name| ==> NameChar(name[i]))
    && !HasPart(name, []) && !HasPart(name, Text(".")) && !HasPart(name, Text(".."))
    && !Within(name, Text("dev")) && !Within(name, Text("run")) && !Within(name, Text("proc"))
    && !Within(name, Text("sys")) && !Within(name, Text("tmp"))
  }

  lemma {:induction false} Spelled()
    ensures SLASH == '/' as nat && Text(".") == [DOT] && Text("..") == [DOT, DOT]
    ensures Text("dev") == DEV && Text("run") == RUN && Text("proc") == PROC && Text("sys") == SYS
    ensures Text("tmp") == TMP && Text("init") == INIT && Text("runtime") == RUNTIME
    ensures Text("runtime/") == UNDER_RUNTIME
    ensures Text("runtime/dev") == UNDER_RUNTIME + DEV && Text("runtime/run") == UNDER_RUNTIME + RUN
    ensures Text("usr/local/bin/python3") == PYTHON
  {
  }

  lemma {:induction false} CharExact(c: nat)
    ensures PlainChar(c) <==> NameChar(c)
  {
    var s := "_+.,@/-";
    assert s[0] == '_' && s[1] == '+' && s[2] == '.' && s[3] == ',' && s[4] == '@' && s[5] == '/' && s[6] == '-';
  }

  /** The first part is what comes before the first slash. */
  lemma {:induction false} FirstIs(name: Name, top: Name)
    requires SLASH !in top && top <= name && (|name| == |top| || name[|top|] == SLASH)
    ensures FirstPart(name) == top
  {
    if top != [] {
      assert top[0] in top && name[0] == top[0];
      FirstIs(name[1..], top[1..]);
      assert [top[0]] + top[1..] == top;
    }
  }

  lemma {:induction false} FirstBefore(name: Name, k: nat)
    requires k < |name| && name[k] == SLASH
    ensures |FirstPart(name)| <= k
  {
    if name[0] != SLASH {
      FirstBefore(name[1..], k - 1);
    }
  }

  lemma {:induction false} WithinExact(name: Name, top: Name)
    requires SLASH !in top
    ensures Within(name, top) <==> FirstPart(name) == top
  {
    if Within(name, top) {
      FirstIs(name, top);
    }
  }

  lemma {:induction false} PartsHas(name: Name, part: Name)
    requires SLASH !in part
    ensures part in Parts(name) <==> HasPart(name, part)
    decreases |name|
  {
    hide HasPart;
    var p := FirstPart(name);
    FirstPartHas(name);
    if HasPart(name, part) {
      PartCases(name, part);
    }
    if |p| < |name| {
      PartsHas(name[|p| + 1..], part);
      if HasPart(name[|p| + 1..], part) {
        LaterPart(name, |p| + 1, part);
      }
      assert Parts(name) == [p] + Parts(name[|p| + 1..]);
    }
  }

  lemma {:induction false} FirstPartHas(name: Name)
    ensures HasPart(name, FirstPart(name))
  {
    assert PartAt(name, 0, |FirstPart(name)|, FirstPart(name));
  }

  lemma {:induction false} LaterPart(name: Name, n: nat, part: Name)
    requires 0 < n <= |name| && name[n - 1] == SLASH && HasPart(name[n..], part)
    ensures HasPart(name, part)
  {
    var rest := name[n..];
    var i: nat, j: nat :| PartAt(rest, i, j, part);
    var a, b := name[i + n..j + n], rest[i..j];
    assert |a| == |b| && forall k :: 0 <= k < |a| ==> a[k] == b[k];
    assert a == b;
    assert PartAt(name, i + n, j + n, part);
  }

  lemma {:induction false} PartIsLater(name: Name, n: nat, i: nat, j: nat, part: Name)
    requires 0 < n <= i && PartAt(name, i, j, part)
    ensures HasPart(name[n..], part)
  {
    var rest := name[n..];
    var a, b := rest[i - n..j - n], name[i..j];
    assert |a| == |b| && forall k :: 0 <= k < |a| ==> a[k] == b[k];
    assert a == b;
    assert PartAt(rest, i - n, j - n, part);
  }

  lemma {:induction false} PartCases(name: Name, part: Name)
    requires SLASH !in part && HasPart(name, part)
    ensures var n := |FirstPart(name)| + 1; part == FirstPart(name) || (n <= |name| && HasPart(name[n..], part))
  {
    var i: nat, j: nat :| PartAt(name, i, j, part);
    hide FirstPart, HasPart;
    if i == 0 {
      FirstIs(name, part);
    } else {
      FirstBefore(name, i - 1);
      PartIsLater(name, |FirstPart(name)| + 1, i, j, part);
    }
  }

  lemma {:induction false} NameExact(name: Name)
    ensures SafeName(name) <==> PolicyName(name)
  {
    Spelled();
    forall c {
      CharExact(c);
    }
    PartsHas(name, []);
    PartsHas(name, [DOT]);
    PartsHas(name, [DOT, DOT]);
    WithinExact(name, DEV);
    WithinExact(name, RUN);
    WithinExact(name, PROC);
    WithinExact(name, SYS);
    WithinExact(name, TMP);
    hide PlainChar, NameChar, HasPart, Within, FirstPart, Parts;
    assert (forall i :: 0 <= i < |Parts(name)| ==> Parts(name)[i] !in {[], [DOT], [DOT, DOT]}) <==>
      [] !in Parts(name) && [DOT] !in Parts(name) && [DOT, DOT] !in Parts(name);
  }

  // ------------------------------------------------------------------ permission bits

  function Bit(m: nat, value: nat): (b: bool)
    requires value > 0
  {
    m / value % 2 == 1
  }

  /** Not writable by group or others, no set-user, set-group or sticky bit. */
  predicate PlainMode(m: nat) {
    !Bit(m, 2) && !Bit(m, 16) && !Bit(m, 512) && !Bit(m, 1024) && !Bit(m, 2048)
  }

  /** Executable by somebody. */
  predicate Executable(m: nat) {
    Bit(m, 1) || Bit(m, 8) || Bit(m, 64)
  }

  lemma {:induction false} AndZero(a: nat, b: nat)
    ensures BitAnd(a, b) == 0 <==>
      !(a % 2 == 1 && b % 2 == 1) && BitAnd(a / 2, b / 2) == 0
  {
  }

  lemma {:induction false} PlainExact(m: nat)
    ensures BitAnd(m, FORBIDDEN_BITS) == 0 <==> PlainMode(m)
  {
    hide BitAnd;
    Halves(m, 0xE12);
    Halves(m / 16, 0xE1);
    Halves(m / 256, 0xE);
    AndNothing(m / 4096);
    assert m / 16 / 16 == m / 256 && m / 256 / 16 == m / 4096;
    assert m / 256 / 2 == m / 512 && m / 256 / 4 == m / 1024 && m / 256 / 8 == m / 2048;
  }

  lemma {:induction false} ExecutableExact(m: nat)
    ensures BitAnd(m, EXECUTE_BITS) == 0 <==> !Executable(m)
  {
    hide BitAnd;
    Halves(m, 0x49);
    Halves(m / 16, 0x4);
    AndNothing(m / 256);
    assert m / 16 / 16 == m / 256 && m / 16 / 4 == m / 64;
  }

  lemma {:induction false} AndNothing(m: nat)
    ensures BitAnd(m, 0) == 0
  {
  }

  lemma {:induction false} ModeExact(m: nat)
    ensures BitAnd(m, FORBIDDEN_BITS) == 0 <==> PlainMode(m)
    ensures BitAnd(m, EXECUTE_BITS) == 0 <==> !Executable(m)
  {
    PlainExact(m);
    ExecutableExact(m);
  }

  /** Four bits at a time. */
  lemma {:induction false} Halves(m: nat, b: nat)
    ensures BitAnd(m, b) == 0 <==>
      && !(m % 2 == 1 && b % 2 == 1) && !(m / 2 % 2 == 1 && b / 2 % 2 == 1)
      && !(m / 4 % 2 == 1 && b / 4 % 2 == 1) && !(m / 8 % 2 == 1 && b / 8 % 2 == 1)
      && BitAnd(m / 16, b / 16) == 0
  {
    AndZero(m, b);
    AndZero(m / 2, b / 2);
    AndZero(m / 4, b / 4);
    AndZero(m / 8, b / 8);
    assert m / 2 / 2 == m / 4 && b / 2 / 2 == b / 4 && m / 4 / 2 == m / 8 && b / 4 / 2 == b / 8;
    assert m / 8 / 2 == m / 16 && b / 8 / 2 == b / 16;
  }

  // ------------------------------------------------------------------ items

  /** A plain file, read in full, or an empty directory. */
  ghost predicate PolicyItem(item: Item) {
    && PolicyName(item.name) && PlainMode(item.mode) && !item.hasPaxHeaders
    && match item.kind
       case Directory => item.size == 0
       case Regular => item.stream.Some? && |item.stream.value| == item.size
       case Special => false
  }

  function TotalSize(items: seq<Item>): (n: int) {
    if items == [] then 0 else items[0].size + TotalSize(items[1..])
  }

  ghost predicate NamesDiffer(items: seq<Item>) {
    forall i, j :: 0 <= i < j < |items| ==> items[i].name != items[j].name
  }

  ghost predicate PolicyItems(items: seq<Item>, loaderSize: nat) {
    && (forall i :: 0 <= i < |items| ==> PolicyItem(items[i]))
    && NamesDiffer(items) && |items| <= 30000
    && (items != [] ==> loaderSize + TotalSize(items) <= 512 * 1024 * 1024)
  }

  lemma {:induction false} TotalSnoc(items: seq<Item>, item: Item)
    ensures TotalSize(items + [item]) == TotalSize(items) + item.size
  {
    if items == [] {
      assert [item][1..] == [];
    } else {
      TotalSnoc(items[1..], item);
      assert (items + [item])[1..] == items[1..] + [item];
    }
  }

  lemma {:induction false} SizesAreTotal(items: seq<Item>)
    ensures Sizes(items) == TotalSize(items)
  {
    if items != [] {
      var n := |items| - 1;
      SizesAreTotal(items[..n]);
      TotalSnoc(items[..n], items[n]);
      assert items == items[..n] + [items[n]];
    }
  }

  lemma {:induction false} ItemExact(item: Item, before: seq<Item>, loaderSize: nat)
    ensures ItemAccepted(item, before, loaderSize) <==>
      && PolicyItem(item) && item.name !in NamesOf(before)
      && |before| + 1 <= 30000 && loaderSize + Sizes(before) + item.size <= 512 * 1024 * 1024
  {
    NameExact(item.name);
    ModeExact(item.mode);
    hide SafeName, PolicyName, BitAnd, Sizes, PlainMode;
  }

  lemma {:induction false} TotalNonnegative(items: seq<Item>)
    requires forall i :: 0 <= i < |items| ==> PolicyItem(items[i])
    ensures TotalSize(items) >= 0
  {
    if items != [] {
      assert PolicyItem(items[0]);
      TotalNonnegative(items[1..]);
    }
  }

  lemma {:induction false} ItemsExact(items: seq<Item>, loaderSize: nat)
    ensures ItemsAccepted(items, loaderSize) <==> PolicyItems(items, loaderSize)
  {
    hide ItemAccepted, PolicyItem;
    if items != [] {
      var n := |items| - 1;
      var (few, last) := (items[..n], items[n]);
      assert items == few + [last] && items[..n + 1] == items;
      ItemsExact(few, loaderSize);
      ItemExact(last, few, loaderSize);
      SizesAreTotal(few);
      TotalSnoc(few, last);
      if ItemsAccepted(items, loaderSize) {
        PrefixAccepted(items, loaderSize, n);
        assert ItemAccepted(items[n], items[..n], loaderSize);
      } else if PolicyItems(items, loaderSize) {
        assert forall i :: 0 <= i < n ==> PolicyItem(few[i]);
        assert PolicyItem(items[n]);
        LastIsSized(last);
        TotalNonnegative(few);
        AcceptedSnoc(items, loaderSize, n);
      }
    }
  }

  lemma {:induction false} LastIsSized(item: Item)
    requires PolicyItem(item)
    ensures item.size >= 0
  {
  }

  // ------------------------------------------------------------------ what is collected

  const DIRECTORY_555: nat := 0x4000 + 5 * 64 + 5 * 8 + 5
  const FILE_555: nat := 0x8000 + 5 * 64 + 5 * 8 + 5
  const FILE_444: nat := 0x8000 + 4 * 64 + 4 * 8 + 4

  /** A directory, or a read-only file with its data that stays executable if it was. */
  predicate ItemBecomes(item: Item, f: File) {
    if item.kind.Regular?
    then
      && item.stream.Some? && f.data == item.stream.value
      && f.mode == if Executable(item.mode) then FILE_555 else FILE_444
    else f == File(DIRECTORY_555, [])
  }

  /** The loader as `init`, the five directories it needs, and each item below `runtime/`. */
  ghost predicate Collected(loader: Bytes, items: seq<Item>, p: Name, f: File) {
    || (p == Text("init") && f == File(FILE_555, loader))
    || (p in {Text("dev"), Text("sys"), Text("runtime"), Text("runtime/dev"), Text("runtime/run")}
        && f == File(DIRECTORY_555, []))
    || exists i :: 0 <= i < |items| && p == Text("runtime/") + items[i].name && ItemBecomes(items[i], f)
  }

  lemma {:induction false} BecomesExact(item: Item, f: File)
    requires item.kind.Regular? ==> item.stream.Some?
    ensures ItemBecomes(item, f) <==> f == FileOf(item)
  {
    ModeExact(item.mode);
    hide BitAnd, Executable;
    if item.kind.Regular? && ItemBecomes(item, f) {
      assert f == File(f.mode, f.data);
    }
  }

  lemma {:induction false} StartHas(loader: Bytes, p: Name, f: File)
    ensures p in Start(loader).files && Start(loader).files[p] == f <==> Collected(loader, [], p, f)
  {
    Spelled();
    StartValid(loader);
    var o := START_NAMES;
    assert o[0] == DEV && o[1] == SYS && o[2] == RUNTIME && o[5] == INIT;
    assert o[3] == UNDER_RUNTIME + DEV && o[4] == UNDER_RUNTIME + RUN;
    assert |INIT| == 4 && |DEV| == 3 && |SYS| == 3 && |RUNTIME| == 7;
    hide Text;
  }

  lemma {:induction false} NotStart(name: Name)
    requires PolicyName(name)
    ensures var p := UNDER_RUNTIME + name;
      p !in {Text("init"), Text("dev"), Text("sys"), Text("runtime"), Text("runtime/dev"), Text("runtime/run")}
  {
    Spelled();
    var p := UNDER_RUNTIME + name;
    assert |p| > 8 && p[8..] == name;
    assert (UNDER_RUNTIME + DEV)[8..] == DEV && (UNDER_RUNTIME + RUN)[8..] == RUN;
    hide Text, HasPart, NameChar;
  }

  lemma {:induction false} GatherHas(loader: Bytes, items: seq<Item>, p: Name, f: File)
    requires Streamed(items) && NamesDiffer(items) && forall i :: 0 <= i < |items| ==> PolicyItem(items[i])
    ensures p in Gather(loader, items).files && Gather(loader, items).files[p] == f <==>
      Collected(loader, items, p, f)
  {
    hide Start, Text, PolicyName;
    if items == [] {
      StartHas(loader, p, f);
    } else {
      var n := |items| - 1;
      var few := items[..n];
      GatherHas(loader, few, p, f);
      assert PolicyItem(items[n]);
      NotStart(items[n].name);
      BecomesExact(items[n], f);
      Spelled();
      CollectedSnoc(loader, items, n, p, f);
    }
  }

  lemma {:induction false} CollectedSnoc(loader: Bytes, items: seq<Item>, n: nat, p: Name, f: File)
    requires |items| == n + 1 && NamesDiffer(items)
    requires Text("runtime/") + items[n].name !in
      {Text("init"), Text("dev"), Text("sys"), Text("runtime"), Text("runtime/dev"), Text("runtime/run")}
    ensures Collected(loader, items, p, f) <==>
      if p == Text("runtime/") + items[n].name then ItemBecomes(items[n], f) else Collected(loader, items[..n], p, f)
  {
    hide Text, ItemBecomes;
    var u := Text("runtime/");
    if p == u + items[n].name {
      forall i | 0 <= i < n
        ensures p != u + items[i].name
      {
        assert (u + items[i].name)[|u|..] == items[i].name && p[|u|..] == items[n].name;
      }
      assert ItemBecomes(items[n], f) ==> 0 <= n < |items| && p == u + items[n].name && ItemBecomes(items[n], f);
    } else {
      var few := items[..n];
      assert forall i :: 0 <= i < n ==> few[i] == items[i];
      if i :| 0 <= i < |items| && p == u + items[i].name && ItemBecomes(items[i], f) {
        assert few[i] == items[i];
      }
      if i :| 0 <= i < |few| && p == u + few[i].name && ItemBecomes(few[i], f) {
        assert few[i] == items[i];
      }
    }
  }

  // ------------------------------------------------------------------ what is accepted

  /** No regular file stands where another item needs a directory. */
  ghost predicate NoFileAbove(items: seq<Item>) {
    forall i, j :: 0 <= i < |items| && 0 <= j < |items| && items[i].kind.Regular? ==>
      !(|items[i].name| < |items[j].name| && Within(items[j].name, items[i].name))
  }

  /** The entry point: a regular file at its fixed place, executable and not empty. */
  ghost predicate IsEntryPoint(item: Item) {
    && item.name == Text("usr/local/bin/python3")
    && item.kind.Regular? && Executable(item.mode) && item.size > 0
  }

  /** What is assembled, said of the inputs. */
  ghost predicate Assembled(runtimeSize: nat, loader: Bytes, loaderStatic: bool, items: seq<Item>) {
    && 0 < runtimeSize && runtimeSize + |loader| <= 512 * 1024 * 1024 && loaderStatic
    && PolicyItems(items, |loader|)
    && NoFileAbove(items)
    && exists i :: 0 <= i < |items| && IsEntryPoint(items[i])
  }

  lemma {:induction false} StreamedItems(items: seq<Item>)
    requires forall i :: 0 <= i < |items| ==> PolicyItem(items[i])
    ensures Streamed(items)
  {
    forall i | 0 <= i < |items| && items[i].kind.Regular?
      ensures items[i].stream.Some?
    {
      assert PolicyItem(items[i]);
    }
  }

  /** Only the loader and regular items are files. */
  lemma {:induction false} DirectoryOrItem(loader: Bytes, items: seq<Item>, p: Name, f: File)
    requires Collected(loader, items, p, f)
    ensures if IsDirectory(f) then f == File(DIRECTORY_555, [])
      else || (p == Text("init") && f == File(FILE_555, loader))
           || exists i ::
                0 <= i < |items| && items[i].kind.Regular? && p == Text("runtime/") + items[i].name
                && ItemBecomes(items[i], f)
  {
    hide Text, Executable;
  }

  /** Where an item goes. */
  function PathOf(item: Item): (p: Name) {
    Text("runtime/") + item.name
  }

  lemma {:induction false} FileAbove(loader: Bytes, items: seq<Item>, i: nat, j: nat)
    requires Streamed(items) && NamesDiffer(items) && forall k :: 0 <= k < |items| ==> PolicyItem(items[k])
    requires i < |items| && j < |items| && items[i].kind.Regular?
    requires |items[i].name| < |items[j].name| && Within(items[j].name, items[i].name)
    ensures var d := Gather(loader, items); PathOf(items[j]) in d.files && !FreeAbove(d, PathOf(items[j]))
  {
    hide PolicyItem, Gather, Executable;
    Spelled();
    var (d, p, q) := (Gather(loader, items), PathOf(items[j]), PathOf(items[i]));
    ItemCollected(loader, items, i);
    ItemCollected(loader, items, j);
    assert p[..|q|] == q && p[|q|] == SLASH;
    assert !IsDirectory(FileOf(items[i]));
  }

  lemma {:induction false} ItemCollected(loader: Bytes, items: seq<Item>, i: nat)
    requires Streamed(items) && NamesDiffer(items) && forall k :: 0 <= k < |items| ==> PolicyItem(items[k])
    requires i < |items|
    ensures var d := Gather(loader, items); PathOf(items[i]) in d.files && d.files[PathOf(items[i])] == FileOf(items[i])
  {
    hide Gather, PolicyItem, ItemBecomes;
    BecomesExact(items[i], FileOf(items[i]));
    assert Collected(loader, items, PathOf(items[i]), FileOf(items[i]));
    GatherHas(loader, items, PathOf(items[i]), FileOf(items[i]));
  }

  /** A collected path below another: an item's, and what lies above it is `runtime` or below that. */
  lemma {:induction false} BelowIsItem(loader: Bytes, items: seq<Item>, p: Name, f: File, k: nat)
    requires Collected(loader, items, p, f) && k < |p| && p[k] == SLASH
    ensures p[..k] == Text("runtime") || exists j :: 0 <= j < |items| && p == PathOf(items[j])
    ensures p[..k] != Text("init")
  {
    hide ItemBecomes;
    Spelled();
    hide Text;
    assert SLASH !in DEV && SLASH !in SYS && SLASH !in RUNTIME && SLASH !in INIT && SLASH !in RUN;
    assert p[k] in p;
    assert k >= 8 ==> p[8..][k - 8] == p[k] && p[8..][k - 8] in p[8..];
    assert p == UNDER_RUNTIME + DEV ==> p[8..] == DEV;
    assert p == UNDER_RUNTIME + RUN ==> p[8..] == RUN;
    if p !in {DEV, SYS, RUNTIME, INIT} {
      assert p[..8] == UNDER_RUNTIME && p[0] == 0x72;
      if k < 8 {
        assert p[k] == UNDER_RUNTIME[k];
        assert k == 7 && p[..7] == RUNTIME;
      }
    }
  }

  ghost predicate AllFree(d: Dict) {
    forall p :: p in d.files ==> FreeAbove(d, p)
  }

  /** Closing is possible exactly when no file stands above an item. */
  lemma {:induction false} FreeExact(loader: Bytes, items: seq<Item>)
    requires Streamed(items) && NamesDiffer(items) && forall k :: 0 <= k < |items| ==> PolicyItem(items[k])
    ensures AllFree(Gather(loader, items)) <==> NoFileAbove(items)
  {
    var d := Gather(loader, items);
    hide Gather, PolicyItem, Within, FreeAbove;
    if AllFree(d) {
      forall i, j | 0 <= i < |items| && 0 <= j < |items| && items[i].kind.Regular?
        ensures !(|items[i].name| < |items[j].name| && Within(items[j].name, items[i].name))
      {
        if |items[i].name| < |items[j].name| && Within(items[j].name, items[i].name) {
          FileAbove(loader, items, i, j);
        }
      }
    }
    if NoFileAbove(items) {
      forall p | p in d.files
        ensures FreeAbove(d, p)
      {
        FreeAt(loader, items, p);
      }
    }
  }

  lemma {:induction false} FreeAt(loader: Bytes, items: seq<Item>, p: Name)
    requires Streamed(items) && NamesDiffer(items) && forall k :: 0 <= k < |items| ==> PolicyItem(items[k])
    requires NoFileAbove(items) && p in Gather(loader, items).files
    ensures FreeAbove(Gather(loader, items), p)
  {
    var d := Gather(loader, items);
    hide Gather, PolicyItem, Collected, IsDirectory, Within;
    forall k | 0 <= k < |p| && p[k] == SLASH && p[..k] in d.files
      ensures IsDirectory(d.files[p[..k]])
    {
      if !IsDirectory(d.files[p[..k]]) {
        var q := p[..k];
        GatherHas(loader, items, p, d.files[p]);
        GatherHas(loader, items, q, d.files[q]);
        BelowIsItem(loader, items, p, d.files[p], k);
        DirectoryOrItem(loader, items, q, d.files[q]);
        NotTheRuntime(loader, items, q);
        var i :| 0 <= i < |items| && items[i].kind.Regular? && q == PathOf(items[i]);
        var j :| 0 <= j < |items| && p == PathOf(items[j]);
        Above(items[i].name, items[j].name, p, k);
      }
    }
  }

  lemma {:induction false} Above(q: Name, p: Name, path: Name, k: nat)
    requires k < |path| && path == Text("runtime/") + p && path[k] == SLASH && path[..k] == Text("runtime/") + q
    ensures |q| < |p| && Within(p, q)
  {
    hide Text;
    var u := |Text("runtime/")|;
    assert |q| == k - u && path[k] == p[k - u];
    assert p[..|q|] == q by {
      assert path[..k][u..] == q && path[u..k] == p[..k - u];
    }
  }

  lemma {:induction false} NotTheRuntime(loader: Bytes, items: seq<Item>, q: Name)
    ensures q == Text("runtime") ==> forall i :: 0 <= i < |items| ==> q != PathOf(items[i])
  {
    assert |Text("runtime")| == 7 && |Text("runtime/")| == 8;
  }

  /** The entry point as the code looks for it among what was collected. */
  ghost predicate HasInterpreter(d: Dict) {
    var p := UNDER_RUNTIME + PYTHON;
    p in d.files && BitAnd(d.files[p].mode, EXECUTE_BITS) != 0 && d.files[p].data != []
  }

  lemma {:induction false} InterpreterExact(loader: Bytes, items: seq<Item>)
    requires Streamed(items) && NamesDiffer(items) && forall k :: 0 <= k < |items| ==> PolicyItem(items[k])
    ensures HasInterpreter(Gather(loader, items)) <==> exists i :: 0 <= i < |items| && IsEntryPoint(items[i])
  {
    var d := Gather(loader, items);
    var p := UNDER_RUNTIME + PYTHON;
    Spelled();
    hide Gather, PolicyItem, Collected, Text, IsEntryPoint, BitAnd;
    if p in d.files {
      GatherHas(loader, items, p, d.files[p]);
      PythonIsItem(loader, items, d.files[p]);
      var i :| 0 <= i < |items| && p == PathOf(items[i]);
      assert items[i].name == p[8..] == PYTHON;
      ItemCollected(loader, items, i);
      assert PolicyItem(items[i]);
      EntryExact(items[i]);
      forall k | 0 <= k < |items| && IsEntryPoint(items[k])
        ensures k == i
      {
        assert items[k].name == PYTHON by { EntryNamed(items[k]); }
      }
    }
    if i :| 0 <= i < |items| && IsEntryPoint(items[i]) {
      EntryNamed(items[i]);
      ItemCollected(loader, items, i);
    }
  }

  lemma {:induction false} EntryNamed(item: Item)
    requires IsEntryPoint(item)
    ensures item.name == PYTHON && PathOf(item) == UNDER_RUNTIME + PYTHON
  {
    Spelled();
  }

  lemma {:induction false} PythonIsItem(loader: Bytes, items: seq<Item>, f: File)
    requires Collected(loader, items, UNDER_RUNTIME + PYTHON, f)
    ensures exists i :: 0 <= i < |items| && UNDER_RUNTIME + PYTHON == PathOf(items[i])
  {
    Spelled();
    hide Text, ItemBecomes;
    assert |UNDER_RUNTIME + PYTHON| == 29;
  }

  lemma {:induction false} EntryExact(item: Item)
    requires PolicyItem(item) && item.name == PYTHON
    ensures IsEntryPoint(item) <==> BitAnd(FileOf(item).mode, EXECUTE_BITS) != 0 && FileOf(item).data != []
  {
    Spelled();
    ModeExact(item.mode);
    ModeExact(FileOf(item).mode);
    hide BitAnd, PolicyName, Text;
    assert Executable(0x816D) && !Executable(0x8124) by { ModeBits(); }
  }

  lemma {:induction false} ModeBits()
    ensures Executable(0x816D) && !Executable(0x8124)
  {
  }

  /**
   The whole policy, decided of the inputs: sizes, plain names, modes, kinds, no file above an
   item, and the entry point in its place.
   */
  lemma {:induction false} AssembledExactly(runtimeSize: nat, loader: Bytes, loaderStatic: bool, items: seq<Item>)
    ensures Acceptable(runtimeSize, loader, loaderStatic, items) <==>
      Assembled(runtimeSize, loader, loaderStatic, items)
  {
    hide ItemsAccepted, PolicyItem, Gather, NamesDiffer, FreeAbove, NoFileAbove, IsEntryPoint;
    ItemsExact(items, |loader|);
    if PolicyItems(items, |loader|) {
      StreamedItems(items);
      FreeExact(loader, items);
      InterpreterExact(loader, items);
    }
  }

  // ------------------------------------------------------------------ what the archive holds

  /** Some item lies below this path. */
  ghost predicate AboveAnItem(items: seq<Item>, p: Name) {
    exists i, k :: 0 <= i < |items| && IsAbove(items[i], p, k)
  }

  predicate IsAbove(item: Item, p: Name, k: nat) {
    k < |PathOf(item)| && PathOf(item)[k] == '/' as nat && p == PathOf(item)[..k]
  }

  /** What a bundle is to hold: the collected files, and a directory above each of them. */
  ghost predicate Held(loader: Bytes, items: seq<Item>, p: Name, f: File) {
    Collected(loader, items, p, f) || (f == File(DIRECTORY_555, []) && AboveAnItem(items, p))
  }

  lemma {:induction false} AboveKnown(loader: Bytes, items: seq<Item>, q: Name, p: Name, f: File)
    requires Collected(loader, items, p, f) && IsAncestor(q, p)
    ensures Collected(loader, items, q, File(DIRECTORY_555, [])) || AboveAnItem(items, q)
  {
    BelowIsItem(loader, items, p, f, |q|);
    if j :| 0 <= j < |items| && p == PathOf(items[j]) {
      assert IsAbove(items[j], q, |q|);
    } else {
      assert q == Text("runtime");
    }
  }

  /** What closing ends with is what the bundle is to hold, path by path. */
  lemma {:induction false} HeldExactly(loader: Bytes, items: seq<Item>, files: map<Name, File>, p: Name, f: File)
    requires Streamed(items) && NamesDiffer(items) && forall k :: 0 <= k < |items| ==> PolicyItem(items[k])
    requires Extends(Gather(loader, items), files) && AncestorsPresent(files)
    ensures p in files && files[p] == f <==> Held(loader, items, p, f)
  {
    var d := Gather(loader, items);
    hide Gather, PolicyItem, Collected, AboveAnItem;
    GatherHas(loader, items, p, f);
    if p in files && files[p] == f && p !in d.files {
      var q :| q in d.files && IsAncestor(p, q);
      GatherHas(loader, items, q, d.files[q]);
      AboveKnown(loader, items, p, q, d.files[q]);
      GatherHas(loader, items, p, File(DIRECTORY_555, []));
    }
    if f == File(DIRECTORY_555, []) && AboveAnItem(items, p) {
      AbovePresent(loader, items, files, p);
    }
  }

  lemma {:induction false} AbovePresent(loader: Bytes, items: seq<Item>, files: map<Name, File>, p: Name)
    requires Streamed(items) && NamesDiffer(items) && forall k :: 0 <= k < |items| ==> PolicyItem(items[k])
    requires Extends(Gather(loader, items), files) && AncestorsPresent(files) && AboveAnItem(items, p)
    ensures p in files && files[p] == File(DIRECTORY_555, [])
  {
    var d := Gather(loader, items);
    hide Gather, PolicyItem, Collected, IsDirectory;
    var i, k :| 0 <= i < |items| && IsAbove(items[i], p, k);
    ItemCollected(loader, items, i);
    assert ClosedAt(files, PathOf(items[i]));
    if p in d.files {
      GatherHas(loader, items, p, d.files[p]);
      DirectoryOrItem(loader, items, p, d.files[p]);
    }
  }

  /**
   An accepted bundle holds the loader as `init`, the five directories, every item below
   `runtime/` with its data and its executability, a directory above each of them, and nothing
   else; each once, in the order of the names.
   */
  lemma {:induction false} ArchiveHolds(runtimeSize: nat, loader: Bytes, loaderStatic: bool, items: seq<Item>,
                                        es: seq<Entry>, e: Entry)
    requires Acceptable(runtimeSize, loader, loaderStatic, items) && BundleHolds(loader, items, es)
    ensures SortedByName(es)
    ensures e in es <==> Held(loader, items, e.name, File(e.mode, e.data))
  {
    ItemsExact(items, |loader|);
    assert PolicyItems(items, |loader|) && Streamed(items);
    hide Acceptable, ItemsAccepted, PolicyItem, Gather, Held, AllSound, SortedByName, NoFileAbove;
    var files :|
      && Lists(files, es) && Extends(Gather(loader, items), files)
      && AncestorsPresent(files) && AllSound(files);
    HeldExactly(loader, items, files, e.name, File(e.mode, e.data));
    if e.name in files && files[e.name] == File(e.mode, e.data) {
      var i :| 0 <= i < |es| && es[i].name == e.name;
      assert es[i] == e;
    }
    if e in es {
      var i :| 0 <= i < |es| && es[i] == e;
    }
  }
}
