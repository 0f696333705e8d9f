/**
 Model of the protected-memory sweep: `python/src/wcm/memory_sweep.py`, and the broker's check of
 its transcript, `python/src/wcm/kbs.py:526-568`.
 */
module MemorySweep {
  import opened Wrappers
  import opened Modular

  /*
   Memory is a buffer of frames and a map from declared pages to frames; the in-process range of
   the source is the identity map, an aliasing attack any other. Page values, which the source
   derives with HMAC, and the two 128-bit draws of each order are inputs. Signatures are symbolic.
  */

  type Bytes = seq<bv8>

  // ------------------------------------------------------------------ frames of a buffer

  lemma {:induction false} FrameBounds(f: nat, g: nat, n: nat, size: nat)
    requires f < g < n
    ensures f * size + size <= g * size && g * size + size <= n * size
  {
    assert (f + 1) * size <= g * size;
    assert (g + 1) * size <= n * size;
  }

  lemma {:induction false} LastFrame(f: nat, n: nat, size: nat)
    requires f < n
    ensures f * size + size <= n * size
  {
    assert (f + 1) * size <= n * size;
  }

  /** Different frames do not overlap. */
  lemma {:induction false} FramesApart(f: nat, g: nat, n: nat, size: nat)
    requires f < n && g < n && f != g
    ensures f * size + size <= n * size
    ensures f * size + size <= g * size || g * size + size <= f * size
  {
    LastFrame(f, n, size);
    if f < g {
      FrameBounds(f, g, n, size);
    } else {
      FrameBounds(g, f, n, size);
    }
  }

  /** `buffer[start : start + len(value)] = value` */
  method CopyInto(buffer: array<bv8>, start: nat, value: Bytes)
    requires start + |value| <= buffer.Length
    modifies buffer
    ensures buffer[start..start + |value|] == value
    ensures forall k :: 0 <= k < buffer.Length && !(start <= k < start + |value|) ==> buffer[k] == old(buffer[k])
  {
    for i := 0 to |value|
      invariant forall j :: 0 <= j < i ==> buffer[start + j] == value[j]
      invariant forall k :: 0 <= k < buffer.Length && !(start <= k < start + |value|) ==> buffer[k] == old(buffer[k])
    {
      buffer[start + i] := value[i];
    }
  }

  class ProtectedMemory {
    const pageSize: nat
    const frameCount: nat
    const frames: seq<nat>    // the frame behind each declared page
    const buffer: array<bv8>

    ghost predicate Valid() {
      && pageSize > 0
      && buffer.Length == frameCount * pageSize
      && forall i :: 0 <= i < |frames| ==> frames[i] < frameCount
    }

    /** The contents of a frame. */
    ghost function Frame(f: nat): (b: Bytes)
      requires Valid() && f < frameCount
      reads buffer
      ensures |b| == pageSize
    {
      LastFrame(f, frameCount, pageSize);
      buffer[f * pageSize..f * pageSize + pageSize]
    }

    constructor (pageSize: nat, frameCount: nat, frames: seq<nat>)
      requires pageSize > 0 && forall i :: 0 <= i < |frames| ==> frames[i] < frameCount
      ensures Valid() && fresh(buffer)
      ensures this.pageSize == pageSize && this.frameCount == frameCount && this.frames == frames
    {
      this.pageSize, this.frameCount, this.frames := pageSize, frameCount, frames;
      buffer := new bv8[frameCount * pageSize];
    }

    /** False where the source raises ValueError. */
    method WritePage(index: int, value: Bytes) returns (ok: bool)
      requires Valid()
      modifies buffer
      ensures ok <==> |value| == pageSize && 0 <= index < |frames|
      ensures ok ==> Frame(frames[index]) == value
      ensures forall f: nat :: f < frameCount && !(ok && f == frames[index]) ==> Frame(f) == old(Frame(f))
    {
      if |value| != pageSize || !(0 <= index < |frames|) {
        return false;
      }
      var frame := frames[index];
      LastFrame(frame, frameCount, pageSize);
      CopyInto(buffer, frame * pageSize, value);
      forall f: nat | f < frameCount && f != frame
        ensures Frame(f) == old(Frame(f))
      {
        FramesApart(f, frame, frameCount, pageSize);
      }
      return true;
    }

    /** None where the source raises ValueError. */
    method ReadPage(index: int) returns (value: Option<Bytes>)
      requires Valid()
      ensures value == if 0 <= index < |frames| then Some(Frame(frames[index])) else None
    {
      if !(0 <= index < |frames|) {
        return None;
      }
      var start := frames[index] * pageSize;
      LastFrame(frames[index], frameCount, pageSize);
      return Some(buffer[start..start + pageSize]);
    }
  }

  // ------------------------------------------------------------------ what a sweep finds

  ghost predicate AliasFree(frames: seq<nat>) {
    forall i, j :: 0 <= i < j < |frames| ==> frames[i] != frames[j]
  }

  /** Two pages share a frame although they were given different values. */
  ghost predicate Collides(frames: seq<nat>, values: seq<Bytes>)
    requires |values| == |frames|
  {
    exists i, j :: 0 <= i < |frames| && 0 <= j < |frames| && frames[i] == frames[j] && values[i] != values[j]
  }

  ghost predicate PagesDiffer(values: seq<Bytes>) {
    forall i, j :: 0 <= i < j < |values| ==> values[i] != values[j]
  }

  /** With pairwise different page values, a collision is exactly an alias. */
  lemma {:induction false} CollisionIsAlias(frames: seq<nat>, values: seq<Bytes>)
    requires |values| == |frames| && PagesDiffer(values)
    ensures Collides(frames, values) <==> !AliasFree(frames)
  {
    if !AliasFree(frames) {
      var i, j :| 0 <= i < j < |frames| && frames[i] == frames[j];
      assert values[i] != values[j];
    }
  }

  /** The last page written into each frame, for the pages written so far. */
  ghost predicate WrittenBy(m: ProtectedMemory, values: seq<Bytes>, last: map<nat, nat>)
    requires m.Valid() && |values| == |m.frames|
    reads m.buffer
  {
    forall f :: f in last ==>
      f < m.frameCount && last[f] < |m.frames| && m.frames[last[f]] == f && m.Frame(f) == values[last[f]]
  }

  method WriteAll(m: ProtectedMemory, order: seq<nat>, values: seq<Bytes>) returns (ghost last: map<nat, nat>)
    requires m.Valid() && |values| == |m.frames| && IsPermutation(order, |m.frames|)
    requires forall i :: 0 <= i < |values| ==> |values[i]| == m.pageSize
    modifies m.buffer
    ensures WrittenBy(m, values, last)
    ensures forall i :: 0 <= i < |m.frames| ==> m.frames[i] in last
  {
    last := map[];
    for k := 0 to |order|
      invariant WrittenBy(m, values, last)
      invariant forall i :: 0 <= i < k ==> m.frames[order[i]] in last
    {
      var index := order[k];
      var _ := m.WritePage(index, values[index]);
      last := last[m.frames[index] := index];
    }
    forall i | 0 <= i < |m.frames|
      ensures m.frames[i] in last
    {
      assert i in order;
    }
  }

  /** Whether some page reads back another value than it was given. */
  ghost predicate Mismatch(m: ProtectedMemory, values: seq<Bytes>)
    requires m.Valid() && |values| == |m.frames|
    reads m.buffer
  {
    exists i :: 0 <= i < |m.frames| && m.Frame(m.frames[i]) != values[i]
  }

  method ReadAll(m: ProtectedMemory, order: seq<nat>, values: seq<Bytes>)
    returns (aliasing: bool, readback: seq<(nat, Bytes)>)
    requires m.Valid() && |values| == |m.frames| && IsPermutation(order, |m.frames|)
    ensures aliasing <==> Mismatch(m, values)
    ensures |readback| == |order|
    ensures forall k :: 0 <= k < |order| ==> readback[k] == (order[k], m.Frame(m.frames[order[k]]))
  {
    aliasing := false;
    readback := [];
    for k := 0 to |order|
      invariant aliasing <==> exists i :: 0 <= i < k && m.Frame(m.frames[order[i]]) != values[order[i]]
      invariant |readback| == k
      invariant forall i :: 0 <= i < k ==> readback[i] == (order[i], m.Frame(m.frames[order[i]]))
    {
      var index := order[k];
      var actual := m.ReadPage(index);
      if actual.value != values[index] {
        aliasing := true;
      }
      readback := readback + [(index, actual.value)];
    }
    MismatchByOrder(m, order, values);
  }

  lemma {:induction false} MismatchByOrder(m: ProtectedMemory, order: seq<nat>, values: seq<Bytes>)
    requires m.Valid() && |values| == |m.frames| && IsPermutation(order, |m.frames|)
    ensures Mismatch(m, values) <==>
      exists i :: 0 <= i < |order| && m.Frame(m.frames[order[i]]) != values[order[i]]
  {
    if Mismatch(m, values) {
      var p :| 0 <= p < |m.frames| && m.Frame(m.frames[p]) != values[p];
      assert p in order;
      var i :| 0 <= i < |order| && order[i] == p;
      assert m.Frame(m.frames[order[i]]) != values[order[i]];
    }
  }

  /** After every page was written, some page misreads exactly when two pages with different values share a frame. */
  lemma {:induction false} MismatchIsCollision(m: ProtectedMemory, values: seq<Bytes>, last: map<nat, nat>)
    requires m.Valid() && |values| == |m.frames| && WrittenBy(m, values, last)
    requires forall i :: 0 <= i < |m.frames| ==> m.frames[i] in last
    ensures Mismatch(m, values) <==> Collides(m.frames, values)
  {
    if Mismatch(m, values) {
      var i :| 0 <= i < |m.frames| && m.Frame(m.frames[i]) != values[i];
      var w := last[m.frames[i]];
      assert m.frames[w] == m.frames[i] && values[w] != values[i];
    }
    if Collides(m.frames, values) {
      var i, j :| 0 <= i < |m.frames| && 0 <= j < |m.frames| && m.frames[i] == m.frames[j] && values[i] != values[j];
      assert m.Frame(m.frames[i]) != values[i] || m.Frame(m.frames[j]) != values[j];
    }
  }

  // ------------------------------------------------------------------ the signed transcript

  const ALGORITHM: string := "wcm-full-range-v1"

  datatype Payload = Payload(
    nonce: nat, algorithm: string, rangeStart: int, rangeLength: int, pageSize: int, pagesWritten: int,
    pagesRead: int, aliasing: bool, readback: seq<(nat, Bytes)>, publicKey: nat)

  /** A signature is by whom and over what; None is the empty string. */
  datatype Signature = Signature(key: nat, over: Payload)

  datatype Fingerprint = Fingerprint(payload: Payload, signature: Option<Signature>)

  function Sign(key: nat, p: Payload): (f: Fingerprint) {
    Fingerprint(p, Some(Signature(key, p)))
  }

  /** The draws behind the two orders. */
  datatype Draws = Draws(writeStart: nat, writeStep: nat, readStart: nat, readStep: nat)

  /** None where the source raises ValueError. */
  method RunMemorySweep(m: ProtectedMemory, nonce: nat, key: nat, secretLength: nat, rangeStart: int,
                        draws: Draws, values: seq<Bytes>)
    returns (result: Option<Fingerprint>)
    requires m.Valid() && |values| == |m.frames|
    requires forall i :: 0 <= i < |values| ==> |values[i]| == m.pageSize
    modifies m.buffer
    ensures result.Some? <==> secretLength >= 32 && |m.frames| > 0 && rangeStart >= 0
    ensures result.Some? ==>
      var readback := result.value.payload.readback;
      var count := |m.frames|;
      && result.value == Sign(key, Payload(nonce, ALGORITHM, rangeStart, count * m.pageSize, m.pageSize, count, count,
                                           result.value.payload.aliasing, readback, key))
      && (result.value.payload.aliasing <==> Collides(m.frames, values))
      && |readback| == count && (forall p :: 0 <= p < count ==> (p, m.Frame(m.frames[p])) in readback)
  {
    if secretLength < 32 || |m.frames| <= 0 || rangeStart < 0 {
      return None;
    }
    var count := |m.frames|;
    var writeOrder := Order(count, draws.writeStart, draws.writeStep);
    var readOrder := Order(count, draws.readStart, draws.readStep);
    ghost var last := WriteAll(m, writeOrder, values);
    var aliasing, readback := ReadAll(m, readOrder, values);
    MismatchIsCollision(m, values, last);
    forall p | 0 <= p < count
      ensures (p, m.Frame(m.frames[p])) in readback
    {
      assert p in readOrder;
      var k :| 0 <= k < count && readOrder[k] == p;
      assert readback[k] == (p, m.Frame(m.frames[p]));
    }
    return Some(Sign(key, Payload(nonce, ALGORITHM, rangeStart, count * m.pageSize, m.pageSize, count, count,
                                  aliasing, readback, key)));
  }

  // ------------------------------------------------------------------ the broker's check

  predicate VerifySweep(f: Fingerprint, expectedKey: nat) {
    var p := f.payload;
    && p.algorithm == ALGORITHM
    && p.rangeStart >= 0 && p.rangeLength > 0 && p.pageSize > 0
    && p.rangeLength % p.pageSize == 0
    && p.pagesWritten == p.rangeLength / p.pageSize
    && p.pagesRead == p.pagesWritten
    && p.publicKey == expectedKey && f.signature.Some?
    && f.signature.value == Signature(p.publicKey, p)
  }

  predicate CheckFingerprint(required: bool, f: Option<Fingerprint>, nonce: nat, pinnedKey: Option<nat>, legacy: bool) {
    if !required then true
    else if f.None? then false
    else if f.value.payload.nonce != nonce then false
    else if f.value.payload.aliasing then false
    else if pinnedKey.None? then legacy
    else VerifySweep(f.value, pinnedKey.value)
  }

  /** The transcript itself: the whole range once written and once read, signed by the pinned key over all of it. */
  ghost predicate SignedSweep(f: Fingerprint, key: nat) {
    var p := f.payload;
    && p.algorithm == "wcm-full-range-v1"
    && p.rangeStart >= 0 && p.pageSize > 0
    && p.pagesWritten > 0 && p.rangeLength == p.pagesWritten * p.pageSize
    && p.pagesRead == p.pagesWritten
    && p.publicKey == key
    && f.signature == Some(Signature(key, p))
  }

  /** What the broker accepts: a sweep for this very challenge that found no aliasing, signed where a key is pinned. */
  ghost predicate SweepPasses(required: bool, f: Option<Fingerprint>, nonce: nat, pinnedKey: Option<nat>,
                              legacy: bool) {
    required ==>
      && f.Some? && f.value.payload.nonce == nonce && !f.value.payload.aliasing
      && match pinnedKey
         case None => legacy
         case Some(key) => SignedSweep(f.value, key)
  }

  lemma {:induction false} FingerprintExact(required: bool, f: Option<Fingerprint>, nonce: nat, pinnedKey: Option<nat>,
                                            legacy: bool)
    ensures CheckFingerprint(required, f, nonce, pinnedKey, legacy) <==>
      SweepPasses(required, f, nonce, pinnedKey, legacy)
  {
    if f.Some? && pinnedKey.Some? {
      var p := f.value.payload;
      if p.pageSize > 0 && p.pagesWritten > 0 {
        WholePages(p.pagesWritten, p.pageSize);
      }
      if p.pageSize > 0 && p.rangeLength > 0 && p.rangeLength % p.pageSize == 0 {
        assert p.rangeLength == p.rangeLength / p.pageSize * p.pageSize;
        if p.rangeLength / p.pageSize <= 0 {
          assert false;
        }
      }
    }
  }

  lemma {:induction false} WholePages(count: nat, size: nat)
    requires count > 0 && size > 0
    ensures count * size > 0 && (count * size) % size == 0 && (count * size) / size == count
  {
    ModUnique(0, count, size);
    assert count * size == size * count;
  }

  /**
   A transcript signed by the pinned key for the current nonce passes the broker's check
   exactly when no two pages with different values share a frame.
   */
  lemma {:induction false} TranscriptDecides(f: Fingerprint, key: nat, nonce: nat, rangeStart: int, count: nat,
                                             size: nat, legacy: bool)
    requires count > 0 && size > 0 && rangeStart >= 0
    requires f == Sign(key, Payload(nonce, ALGORITHM, rangeStart, count * size, size, count, count,
                                    f.payload.aliasing, f.payload.readback, key))
    ensures CheckFingerprint(true, Some(f), nonce, Some(key), legacy) <==> !f.payload.aliasing
  {
    WholePages(count, size);
  }

  /**
   Sweep and check together: the broker accepts exactly when no two pages with different values
   share a frame; with pairwise different page values, that is alias-free memory.
   */
  method SweepAndCheck(m: ProtectedMemory, nonce: nat, key: nat, secretLength: nat, rangeStart: int, draws: Draws,
                       values: seq<Bytes>)
    returns (accepted: bool)
    requires m.Valid() && |values| == |m.frames| > 0 && secretLength >= 32 && rangeStart >= 0
    requires forall i :: 0 <= i < |values| ==> |values[i]| == m.pageSize
    modifies m.buffer
    ensures accepted <==> !Collides(m.frames, values)
    ensures PagesDiffer(values) ==> (accepted <==> AliasFree(m.frames))
  {
    var f := RunMemorySweep(m, nonce, key, secretLength, rangeStart, draws, values);
    TranscriptDecides(f.value, key, nonce, rangeStart, |m.frames|, m.pageSize, false);
    if PagesDiffer(values) {
      CollisionIsAlias(m.frames, values);
    }
    accepted := CheckFingerprint(true, f, nonce, Some(key), false);
  }
}
