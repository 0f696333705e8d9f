/**
 `MerkleTree.verify_inclusion` (`python/src/wcm/_merkle.py:87-91`) climbs the tree of the size
 the proof claims, not of the log's own size. This module says exactly when an accepted proof
 is nevertheless about the leaf at the index it names.
 */
module MerklePositions {
  import opened Wrappers
  import opened Merkle
  import opened MerkleTheorems

  /** The turns of the climb from node `fn`: true where the node is a right child. */
  function Turns(fn: nat, sn: nat): (turns: seq<bool>)
    requires fn <= sn
    decreases sn
  {
    if sn == 0 then []
    else if fn == sn && fn % 2 == 0 then Turns(fn / 2, sn / 2)
    else [fn % 2 == 1] + Turns(fn / 2, sn / 2)
  }

  function Join(right: bool, r: Digest, sibling: Digest): (d: Digest) {
    if right then Node(sibling, r) else Node(r, sibling)
  }

  function Rebuild(turns: seq<bool>, r: Digest, path: seq<Digest>): (root: Digest)
    requires |turns| == |path|
  {
    if turns == [] then r
    else Rebuild(turns[1..], Join(turns[0], r, path[0]), path[1..])
  }

  /** A climb depends on the index and the claimed size only through its turns. */
  lemma {:induction false} FoldByTurns(fn: nat, sn: nat, r: Digest, path: seq<Digest>)
    requires fn <= sn
    ensures Fold(fn, sn, r, path) ==
      if |path| == |Turns(fn, sn)| then Some(Rebuild(Turns(fn, sn), r, path)) else None
    decreases sn
  {
    if sn > 0 {
      if fn == sn && fn % 2 == 0 {
        FoldByTurns(fn / 2, sn / 2, r, path);
      } else if path != [] {
        FoldByTurns(fn / 2, sn / 2, Join(fn % 2 == 1, r, path[0]), path[1..]);
        assert Turns(fn, sn)[1..] == Turns(fn / 2, sn / 2);
      }
    }
  }

  /** The last turn is the one below the root. */
  lemma {:induction false} RebuildLast(turns: seq<bool>, r: Digest, path: seq<Digest>)
    requires |turns| == |path| > 0
    ensures var n := |turns| - 1;
      Rebuild(turns, r, path) == Join(turns[n], Rebuild(turns[..n], r, path[..n]), path[n])
  {
    var n := |turns| - 1;
    if n > 0 {
      RebuildLast(turns[1..], Join(turns[0], r, path[0]), path[1..]);
      assert turns[1..][..n - 1] == turns[..n][1..];
      assert path[1..][..n - 1] == path[..n][1..];
    }
  }

  /** How often a leaf hash occurs in a root. */
  function Count(d: Digest, leaf: Digest): (n: nat) {
    if d.Node? then Count(d.left, leaf) + Count(d.right, leaf) else if d == leaf then 1 else 0
  }

  lemma {:induction false} CountInRoot(h: seq<Digest>, leaf: Digest)
    requires |h| > 0 && AllLeaves(h)
    ensures Count(Mth(h), leaf) == multiset(h)[leaf]
    decreases |h|
  {
    if |h| == 1 {
      assert h == [h[0]] && h[0] in h;
    } else {
      var k := Split(|h|);
      assert h == h[..k] + h[k..];
      CountInRoot(h[..k], leaf);
      CountInRoot(h[k..], leaf);
    }
  }

  lemma {:induction false} CountRebuild(turns: seq<bool>, leaf: Digest, path: seq<Digest>)
    requires |turns| == |path| && leaf.Leaf?
    ensures Count(Rebuild(turns, leaf, path), leaf) >= 1
  {
    if turns != [] {
      var n := |turns| - 1;
      RebuildLast(turns, leaf, path);
      CountRebuild(turns[..n], leaf, path[..n]);
    }
  }

  /** A leaf that occurs once in a root is reached by one sequence of turns only. */
  lemma {:induction false} TurnsUnique(t1: seq<bool>, p1: seq<Digest>, t2: seq<bool>, p2: seq<Digest>, leaf: Digest)
    requires |t1| == |p1| && |t2| == |p2| && leaf.Leaf?
    requires Rebuild(t1, leaf, p1) == Rebuild(t2, leaf, p2)
    requires Count(Rebuild(t1, leaf, p1), leaf) == 1
    ensures t1 == t2
    decreases |t1|
  {
    if t1 != [] {
      RebuildLast(t1, leaf, p1);
    }
    if t2 != [] {
      RebuildLast(t2, leaf, p2);
    }
    if t1 != [] && t2 != [] {
      var m, n := |t1| - 1, |t2| - 1;
      CountRebuild(t1[..m], leaf, p1[..m]);
      CountRebuild(t2[..n], leaf, p2[..n]);
      TurnsUnique(t1[..m], p1[..m], t2[..n], p2[..n], leaf);
      assert t1 == t1[..m] + [t1[m]] && t2 == t2[..n] + [t2[n]];
    }
  }

  ghost predicate Distinct(h: seq<Digest>) {
    forall d :: multiset(h)[d] <= 1
  }

  /** The index turns in a tree of the claimed size as it does in the log's own. */
  predicate SameTurns(index: nat, claimedSize: nat, size: nat)
    requires index < claimedSize
  {
    index < size && Turns(index, claimedSize - 1) == Turns(index, size - 1)
  }

  /** The same turns are enough in every log, repeated leaves or not. */
  lemma {:induction false} SameTurnsSuffice(h: seq<Digest>, leafHash: Digest, index: nat, claimedSize: nat,
                                            path: seq<Digest>)
    requires RootFromProof(leafHash, index, claimedSize, path) == Some(Root(h))
    requires SameTurns(index, claimedSize, |h|)
    ensures leafHash == h[index] && path == AuditPath(h, index)
  {
    hide Fold, Turns, Rebuild, Mth, AuditPath;
    FoldByTurns(index, claimedSize - 1, leafHash, path);
    FoldByTurns(index, |h| - 1, leafHash, path);
    InclusionExact(h, leafHash, index, path);
  }

  /**
   Position: in a log of distinct leaves an accepted proof, for any index and any claimed size,
   names the index of its leaf exactly when that index has the same turns in the claimed tree as
   in the log's own. A caller can compare the two before it calls; equal sizes always pass.
   */
  lemma {:induction false} PositionExact(h: seq<Digest>, leafHash: Digest, index: nat, claimedSize: nat,
                                         path: seq<Digest>)
    requires AllLeaves(h) && Distinct(h)
    requires RootFromProof(leafHash, index, claimedSize, path) == Some(Root(h))
    ensures index < |h| && leafHash == h[index] <==> SameTurns(index, claimedSize, |h|)
  {
    hide Fold, Turns, Rebuild, Mth, AuditPath, Count;
    if SameTurns(index, claimedSize, |h|) {
      SameTurnsSuffice(h, leafHash, index, claimedSize, path);
    }
    if index < |h| && leafHash == h[index] {
      var t1, t2 := Turns(index, claimedSize - 1), Turns(index, |h| - 1);
      FoldByTurns(index, claimedSize - 1, leafHash, path);
      var own := AuditPath(h, index);
      InclusionExact(h, leafHash, index, own);
      FoldByTurns(index, |h| - 1, leafHash, own);
      CountInRoot(h, leafHash);
      TurnsUnique(t1, path, t2, own, leafHash);
    }
  }

  /** The claim alone moves a leaf past the end of the log: the second of two leaves is accepted as "leaf 2 of 3". */
  lemma {:induction false} ClaimedSizeMatters(p: Bytes, q: Bytes)
    ensures var h := [Leaf(p), Leaf(q)];
      && RootFromProof(Leaf(q), 2, 3, [Leaf(p)]) == Some(Root(h))
      && !(2 < |h|)
  {
    var h := [Leaf(p), Leaf(q)];
    assert h[..1] == [Leaf(p)] && h[1..] == [Leaf(q)];
    assert Split(|h|) == 1 && Mth(h) == Node(Mth(h[..1]), Mth(h[1..]));
    assert Mth([Leaf(p)]) == Leaf(p) && Mth([Leaf(q)]) == Leaf(q);
    assert Fold(1, 1, Leaf(q), [Leaf(p)]) == Fold(0, 0, Node(Leaf(p), Leaf(q)), []);
  }

  /** And inside the log: the last of three leaves is accepted as "leaf 1 of 2", which it is not when the two differ. */
  lemma {:induction false} ClaimedSizeMovesInside(p: Bytes, q: Bytes, r: Bytes)
    ensures var h := [Leaf(p), Leaf(q), Leaf(r)];
      && RootFromProof(Leaf(r), 1, 2, [Node(Leaf(p), Leaf(q))]) == Some(Root(h))
      && !SameTurns(1, 2, 3)
      && (q != r ==> h[1] != Leaf(r))
  {
    var h := [Leaf(p), Leaf(q), Leaf(r)];
    assert h[..2] == [Leaf(p), Leaf(q)] && h[2..] == [Leaf(r)];
    assert Split(|h|) == 2 && Mth(h) == Node(Mth(h[..2]), Mth(h[2..]));
    var g := [Leaf(p), Leaf(q)];
    assert g[..1] == [Leaf(p)] && g[1..] == [Leaf(q)];
    assert Split(|g|) == 1 && Mth(g) == Node(Mth(g[..1]), Mth(g[1..]));
    assert Mth([Leaf(p)]) == Leaf(p) && Mth([Leaf(q)]) == Leaf(q) && Mth([Leaf(r)]) == Leaf(r);
    assert Fold(1, 1, Leaf(r), [Node(Leaf(p), Leaf(q))]) == Fold(0, 0, Node(Node(Leaf(p), Leaf(q)), Leaf(r)), []);
    assert Turns(1, 1) == [true] + Turns(0, 0) && Turns(1, 2) == [true] + Turns(0, 1);
    assert Turns(0, 0) == [] && |Turns(0, 1)| > 0;
  }
}
