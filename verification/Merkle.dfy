/** Model of the RFC 9162 transparency-log tree: `python/src/wcm/_merkle.py`. */
module Merkle {
  import opened Bits
  import opened Wrappers

  /*
   Hashing is symbolic: a digest records what was hashed, so equal digests have equal
   pre-images and the 0x00 (leaf) and 0x01 (node) domains never meet. `Opaque` digests stand
   for the fixed-length strings a proof may carry that are the hash of nothing known.

   The generators recurse from the root on the split point, exactly as the source does. The
   verifiers are the source's bit-shifting loops; `Fold` and `FoldPair` say what those loops
   compute, one tree level at a time.
  */

  type Bytes = seq<bv8>

  datatype Digest =
    | Empty
    | Leaf(preimage: Bytes)
    | Node(left: Digest, right: Digest)
    | Opaque(id: nat)

  datatype InclusionProof = InclusionProof(
    leafIndex: int, treeSize: int, leafHash: Digest, auditPath: seq<Digest>)

  // ------------------------------------------------------------------ split point

  ghost function Pow2(e: nat): (p: nat)
    ensures p >= 1
  {
    if e == 0 then 1 else 2 * Pow2(e - 1)
  }

  ghost predicate IsPow2(n: int) {
    exists e: nat :: n == Pow2(e)
  }

  /** The last value below `n` when `k` is doubled again and again. */
  function Double(k: nat, n: nat): (r: nat)
    requires 0 < k < n
    ensures k <= r < n <= 2 * r
    decreases n - k
  {
    if n <= 2 * k then k else Double(2 * k, n)
  }

  /** The largest power of two strictly below `n`; see `SplitCharacterized`. */
  function Split(n: nat): (k: nat)
    requires n >= 2
    ensures 0 < k < n <= 2 * k
  {
    Double(1, n)
  }

  lemma {:induction false} Pow2Monotone(a: nat, b: nat)
    requires a < b
    ensures 2 * Pow2(a) <= Pow2(b)
  {
    if a + 1 < b {
      Pow2Monotone(a, b - 1);
    }
  }

  lemma {:induction false} DoubleIsPow2(e: nat, n: nat)
    requires Pow2(e) < n
    ensures IsPow2(Double(Pow2(e), n))
    decreases n - Pow2(e)
  {
    if 2 * Pow2(e) < n {
      assert Pow2(e + 1) == 2 * Pow2(e);
      DoubleIsPow2(e + 1, n);
    }
  }

  /** Exactly one number is a power of two below `n` whose double reaches `n`. */
  lemma {:induction false} SplitCharacterized(n: nat, k: nat)
    requires n >= 2
    ensures k == Split(n) <==> IsPow2(k) && k < n <= 2 * k
  {
    assert Pow2(0) == 1;
    DoubleIsPow2(0, n);
    if IsPow2(k) && k < n <= 2 * k {
      var a: nat :| k == Pow2(a);
      var b: nat :| Split(n) == Pow2(b);
      if a < b {
        Pow2Monotone(a, b);
      } else if b < a {
        Pow2Monotone(b, a);
      }
    }
  }

  method SplitPoint(n: nat) returns (r: nat)
    ensures n < 2 ==> r == 0
    ensures n >= 2 ==> r == Split(n)
  {
    var k := 1;
    ghost var e: nat := 0;
    while k < n
      invariant k == Pow2(e)
      invariant e > 0 ==> Pow2(e - 1) < n
    {
      k := k * 2;
      e := e + 1;
    }
    r := k / 2;
    if n >= 2 {
      assert r == Pow2(e - 1);
      SplitCharacterized(n, r);
    }
  }

  // ------------------------------------------------------------------ generators

  /** The RFC 9162 Merkle tree hash of a non-empty list of leaf hashes. */
  function Mth(hashes: seq<Digest>): (root: Digest)
    requires |hashes| > 0
    decreases |hashes|
  {
    if |hashes| == 1 then hashes[0]
    else
      var k := Split(|hashes|);
      Node(Mth(hashes[..k]), Mth(hashes[k..]))
  }

  function Root(hashes: seq<Digest>): (root: Digest) {
    if hashes == [] then Empty else Mth(hashes)
  }

  function AuditPath(hashes: seq<Digest>, index: nat): (path: seq<Digest>)
    requires index < |hashes|
    decreases |hashes|
  {
    if |hashes| == 1 then []
    else
      var k := Split(|hashes|);
      if index < k then AuditPath(hashes[..k], index) + [Mth(hashes[k..])]
      else AuditPath(hashes[k..], index - k) + [Mth(hashes[..k])]
  }

  function Subproof(m: nat, hashes: seq<Digest>, b: bool): (proof: seq<Digest>)
    requires 0 < m <= |hashes|
    decreases |hashes|
  {
    if m == |hashes| then if b then [] else [Mth(hashes)]
    else
      var k := Split(|hashes|);
      if m <= k then Subproof(m, hashes[..k], b) + [Mth(hashes[k..])]
      else Subproof(m - k, hashes[k..], false) + [Mth(hashes[..k])]
  }

  function ConsistencyProof(hashes: seq<Digest>, firstSize: nat): (proof: seq<Digest>)
    requires 0 < firstSize <= |hashes|
  {
    if firstSize == |hashes| then [] else Subproof(firstSize, hashes, true)
  }

  // ------------------------------------------------------------------ what the verifiers compute

  /**
   Climb from node `fn` of a level whose last node is `sn`. A last node without a sibling is
   carried up unchanged and uses no path term.
   */
  function Fold(fn: nat, sn: nat, r: Digest, path: seq<Digest>): (root: Option<Digest>)
    requires fn <= sn
    decreases sn
  {
    if sn == 0 then if path == [] then Some(r) else None
    else if fn == sn && fn % 2 == 0 then Fold(fn / 2, sn / 2, r, path)
    else if path == [] then None
    else if fn % 2 == 1 then Fold(fn / 2, sn / 2, Node(path[0], r), path[1..])
    else Fold(fn / 2, sn / 2, Node(r, path[0]), path[1..])
  }

  /** The same climb for a prefix tree ending at `fn` (hash `fr`) inside a longer tree (hash `sr`). */
  function FoldPair(fn: nat, sn: nat, fr: Digest, sr: Digest, terms: seq<Digest>)
    : (roots: Option<(Digest, Digest)>)
    requires fn <= sn
    decreases sn
  {
    if sn == 0 then if terms == [] then Some((fr, sr)) else None
    else if fn == sn && fn % 2 == 0 then FoldPair(fn / 2, sn / 2, fr, sr, terms)
    else if terms == [] then None
    else if fn % 2 == 1 then
      FoldPair(fn / 2, sn / 2, Node(terms[0], fr), Node(terms[0], sr), terms[1..])
    else FoldPair(fn / 2, sn / 2, fr, Node(sr, terms[0]), terms[1..])
  }

  function RootFromProof(leafHash: Digest, index: int, treeSize: int, path: seq<Digest>)
    : (root: Option<Digest>)
  {
    if 0 <= index < treeSize then Fold(index, treeSize - 1, leafHash, path) else None
  }

  function StripOnes(fn: nat, sn: nat): (stripped: (nat, nat))
    requires fn <= sn
    ensures stripped.0 <= stripped.1 && stripped.0 % 2 == 0
    ensures fn < sn ==> stripped.0 < stripped.1
  {
    if fn % 2 == 1 then StripOnes(fn / 2, sn / 2) else (fn, sn)
  }

  predicate AcceptsConsistency(firstRoot: Digest, secondRoot: Digest, firstSize: nat, secondSize: nat,
                               proof: seq<Digest>)
  {
    if firstSize > secondSize then false
    else if firstSize == secondSize then proof == [] && firstRoot == secondRoot
    else if firstSize == 0 then proof == []
    else
      var terms := if BitAnd(firstSize, firstSize - 1) == 0 then [firstRoot] + proof else proof;
      var (fn, sn) := StripOnes(firstSize - 1, secondSize - 1);
      terms != [] && FoldPair(fn, sn, terms[0], terms[0], terms[1..]) == Some((firstRoot, secondRoot))
  }

  // ------------------------------------------------------------------ the verifier loops

  /** Returns None where the source returns the empty byte string. */
  method ComputeRootFromProof(leafHash: Digest, index: int, treeSize: int, auditPath: seq<Digest>)
    returns (root: Option<Digest>)
    ensures root == RootFromProof(leafHash, index, treeSize, auditPath)
  {
    if !(0 <= index < treeSize) {
      return None;
    }
    var fn, sn, r: Digest := index, treeSize - 1, leafHash;
    for i := 0 to |auditPath|
      invariant 0 <= fn <= sn
      invariant Fold(index, treeSize - 1, leafHash, auditPath) == Fold(fn, sn, r, auditPath[i..])
    {
      if sn == 0 {
        return None;
      }
      var step := auditPath[i];
      ghost var rest := auditPath[i..];
      assert rest[0] == step && rest[1..] == auditPath[i + 1..];
      if fn % 2 == 1 || fn == sn {
        ghost var below := r;
        r := Node(step, r);
        if fn % 2 == 0 {
          while fn % 2 == 0 && fn != 0
            invariant 0 < fn == sn
            invariant Fold(index, treeSize - 1, leafHash, auditPath) == Fold(fn, sn, below, rest)
          {
            fn := fn / 2;
            sn := sn / 2;
          }
        }
      } else {
        r := Node(r, step);
      }
      fn := fn / 2;
      sn := sn / 2;
    }
    FoldStuck(fn, sn, r);
    if sn != 0 {
      return None;
    }
    return Some(r);
  }

  /** A path that ends below the root folds to nothing. */
  lemma {:induction false} FoldStuck(fn: nat, sn: nat, r: Digest)
    requires fn <= sn
    ensures Fold(fn, sn, r, []) == if sn == 0 then Some(r) else None
  {
    if sn != 0 && fn == sn && fn % 2 == 0 {
      FoldStuck(fn / 2, sn / 2, r);
    }
  }

  lemma {:induction false} FoldPairStuck(fn: nat, sn: nat, fr: Digest, sr: Digest)
    requires fn <= sn
    ensures FoldPair(fn, sn, fr, sr, []) == if sn == 0 then Some((fr, sr)) else None
  {
    if sn != 0 && fn == sn && fn % 2 == 0 {
      FoldPairStuck(fn / 2, sn / 2, fr, sr);
    }
  }

  /** `roots` is None when the source returns (None, None, -1). */
  method FoldConsistencyTerms(terms: seq<Digest>, fn0: nat, sn0: nat)
    returns (roots: Option<(Digest, Digest)>, last: int)
    requires terms != [] && fn0 <= sn0
    ensures (if roots.Some? && last == 0 then roots else None)
         == FoldPair(fn0, sn0, terms[0], terms[0], terms[1..])
  {
    var fn, sn := fn0, sn0;
    var fr, sr := terms[0], terms[0];
    for i := 1 to |terms|
      invariant 0 <= fn <= sn
      invariant FoldPair(fn0, sn0, terms[0], terms[0], terms[1..]) == FoldPair(fn, sn, fr, sr, terms[i..])
    {
      if sn == 0 {
        return None, -1;
      }
      var c := terms[i];
      ghost var rest := terms[i..];
      assert rest[0] == c && rest[1..] == terms[i + 1..];
      if fn % 2 == 1 || fn == sn {
        ghost var belowFirst, belowSecond := fr, sr;
        fr := Node(c, fr);
        sr := Node(c, sr);
        while fn % 2 == 0 && fn != 0
          invariant 0 < fn <= sn && (fn == sn || fn % 2 == 1)
          invariant FoldPair(fn0, sn0, terms[0], terms[0], terms[1..])
                 == FoldPair(fn, sn, belowFirst, belowSecond, rest)
        {
          fn := fn / 2;
          sn := sn / 2;
        }
      } else {
        sr := Node(sr, c);
      }
      fn := fn / 2;
      sn := sn / 2;
    }
    FoldPairStuck(fn, sn, fr, sr);
    return Some((fr, sr)), sn;
  }

  method VerifyConsistency(firstRoot: Digest, secondRoot: Digest, firstSize: nat, secondSize: nat,
                           proof: seq<Digest>)
    returns (ok: bool)
    ensures ok == AcceptsConsistency(firstRoot, secondRoot, firstSize, secondSize, proof)
  {
    if firstSize > secondSize {
      return false;
    }
    if firstSize == secondSize {
      return proof == [] && firstRoot == secondRoot;
    }
    if firstSize == 0 {
      return proof == [];
    }
    var terms := proof;
    if BitAnd(firstSize, firstSize - 1) == 0 {
      terms := [firstRoot] + terms;
    }
    if terms == [] {
      return false;
    }
    var fn, sn := firstSize - 1, secondSize - 1;
    while fn % 2 == 1
      invariant 0 <= fn < sn
      invariant StripOnes(firstSize - 1, secondSize - 1) == StripOnes(fn, sn)
      decreases fn
    {
      fn := fn / 2;
      sn := sn / 2;
    }
    var roots, last := FoldConsistencyTerms(terms, fn, sn);
    return roots.Some? && roots.value.0 == firstRoot && roots.value.1 == secondRoot && last == 0;
  }

  // ------------------------------------------------------------------ the log itself

  class MerkleTree {
    var leafHashes: seq<Digest>

    constructor ()
      ensures leafHashes == []
    {
      leafHashes := [];
    }

    method AddLeaf(preimage: Bytes) returns (leafHash: Digest)
      modifies this
      ensures leafHash == Leaf(preimage)
      ensures leafHashes == old(leafHashes) + [Leaf(preimage)]
    {
      leafHash := Leaf(preimage);
      leafHashes := leafHashes + [leafHash];
    }

    /** None where the source raises IndexError. */
    method ProveInclusion(leafIndex: int) returns (proof: Option<InclusionProof>)
      ensures proof.Some? <==> 0 <= leafIndex < |leafHashes|
      ensures proof.Some? ==> proof.value == InclusionProof(
        leafIndex, |leafHashes|, leafHashes[leafIndex], AuditPath(leafHashes, leafIndex))
    {
      if leafIndex < 0 || leafIndex >= |leafHashes| {
        return None;
      }
      return Some(InclusionProof(
        leafIndex, |leafHashes|, leafHashes[leafIndex], AuditPath(leafHashes, leafIndex)));
    }

    method VerifyInclusion(proof: InclusionProof) returns (ok: bool)
      ensures ok <==> RootFromProof(proof.leafHash, proof.leafIndex, proof.treeSize, proof.auditPath)
                      == Some(Root(leafHashes))
    {
      var computed := ComputeRootFromProof(proof.leafHash, proof.leafIndex, proof.treeSize, proof.auditPath);
      return computed == Some(Root(leafHashes));
    }

    /** None where the source raises ValueError. */
    method ProveConsistency(firstSize: int) returns (proof: Option<seq<Digest>>)
      ensures proof.Some? <==> 0 < firstSize <= |leafHashes|
      ensures proof.Some? ==> proof.value == ConsistencyProof(leafHashes, firstSize)
    {
      if !(0 < firstSize <= |leafHashes|) {
        return None;
      }
      return Some(ConsistencyProof(leafHashes, firstSize));
    }
  }
}
