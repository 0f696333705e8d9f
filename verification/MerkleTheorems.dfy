/**
 What the transparency log promises: the recursive generators and the bit-shifting verifiers
 of `python/src/wcm/_merkle.py` describe the same tree, and nothing else is accepted.
 */
module MerkleTheorems {
  import opened Bits
  import opened Wrappers
  import opened Merkle
  import opened MerkleLevels

  // ------------------------------------------------------------------ inclusion

  /** Climbing from tip `fn` reaches the root of `t` only from that tip's hash and by its path. */
  ghost predicate ClimbsExactly(t: Tree, fn: nat, sn: nat, r: Digest, path: seq<Digest>)
    requires Size(t) == sn + 1 && fn <= sn
  {
    Fold(fn, sn, r, path) == Some(Hash(t)) <==> r == At(t, fn) && path == Path(t, fn)
  }

  lemma {:induction false} ClimbLone(t: Tree, j: nat, r: Digest, path: seq<Digest>)
    requires Balanced(t) && Size(t) == 2 * j + 1 && j > 0
    requires Size(Lift(t)) == j + 1 && ClimbsExactly(Lift(t), j, j, r, path)
    ensures ClimbsExactly(t, 2 * j, 2 * j, r, path)
  {
    hide At, Path, Hash, Lift, Size, Balanced;
    LiftHash(t);
    LiftAt(t, j);
    PathLift(t, 2 * j, j);
  }

  /** One turn of the climb from an odd node, and from an even node with a sibling. */
  lemma {:induction false} FoldUp(j: nat, sn: nat, k: nat, odd: bool, r: Digest, path: seq<Digest>)
    requires j <= k && 2 * k <= sn <= 2 * k + 1 && 2 * j + 1 <= sn && path != []
    ensures Fold(if odd then 2 * j + 1 else 2 * j, sn, r, path) ==
      Fold(j, k, if odd then Node(path[0], r) else Node(r, path[0]), path[1..])
  {
    assert sn / 2 == k && (2 * j + 1) / 2 == j && (2 * j) / 2 == j;
  }

  lemma {:induction false} ClimbOdd(t: Tree, j: nat, k: nat, r: Digest, path: seq<Digest>)
    requires Balanced(t) && 2 * j + 1 < Size(t) && path != []
    requires Size(Lift(t)) == k + 1 && j <= k && ClimbsExactly(Lift(t), j, k, Node(path[0], r), path[1..])
    ensures ClimbsExactly(t, 2 * j + 1, Size(t) - 1, r, path)
  {
    hide At, Path, Hash, Lift, Size, Balanced, Fold;
    LiftBalanced(t);
    LiftHash(t);
    LiftAt(t, j);
    FoldUp(j, Size(t) - 1, k, true, r, path);
    PathLift(t, 2 * j + 1, j);
    HeadAndTail(path, Sibling(t, 2 * j + 1), Path(Lift(t), j));
  }

  lemma {:induction false} ClimbEven(t: Tree, j: nat, k: nat, r: Digest, path: seq<Digest>)
    requires Balanced(t) && 2 * j + 1 < Size(t) && path != []
    requires Size(Lift(t)) == k + 1 && j <= k && ClimbsExactly(Lift(t), j, k, Node(r, path[0]), path[1..])
    ensures ClimbsExactly(t, 2 * j, Size(t) - 1, r, path)
  {
    hide At, Path, Hash, Lift, Size, Balanced, Fold;
    LiftBalanced(t);
    LiftHash(t);
    LiftAt(t, j);
    FoldUp(j, Size(t) - 1, k, false, r, path);
    PathLift(t, 2 * j, j);
    HeadAndTail(path, Sibling(t, 2 * j), Path(Lift(t), j));
  }

  lemma {:induction false} ClimbTip(t: Tree, r: Digest, path: seq<Digest>)
    requires Size(t) == 1
    ensures ClimbsExactly(t, 0, 0, r, path)
  {
    assert t.Tip?;
  }

  lemma {:induction false} ClimbStuck(t: Tree, fn: nat, sn: nat, r: Digest)
    requires Balanced(t) && Size(t) == sn + 1 && fn <= sn && (fn % 2 == 1 || fn < sn)
    ensures ClimbsExactly(t, fn, sn, r, [])
  {
    PathLift(t, fn, fn / 2);
  }

  lemma {:induction false} ClimbExact(t: Tree, fn: nat, sn: nat, r: Digest, path: seq<Digest>)
    requires Balanced(t) && Size(t) == sn + 1 && fn <= sn
    ensures ClimbsExactly(t, fn, sn, r, path)
    decreases sn
  {
    hide Path, Hash, At, Lift, Balanced;
    if sn > 0 {
      LiftBalanced(t);
      var j, k := fn / 2, Size(Lift(t)) - 1;
      if fn == sn && fn % 2 == 0 {
        ClimbExact(Lift(t), j, k, r, path);
        ClimbLone(t, j, r, path);
      } else if path == [] {
        ClimbStuck(t, fn, sn, r);
      } else if fn % 2 == 1 {
        ClimbExact(Lift(t), j, k, Node(path[0], r), path[1..]);
        ClimbOdd(t, j, k, r, path);
      } else {
        ClimbExact(Lift(t), j, k, Node(r, path[0]), path[1..]);
        ClimbEven(t, j, k, r, path);
      }
    } else {
      ClimbTip(t, r, path);
    }
  }

  lemma {:induction false} HeadAndTail(s: seq<Digest>, head: seq<Digest>, tail: seq<Digest>)
    requires s != [] && |head| == 1
    ensures s == head + tail <==> s[0] == head[0] && s[1..] == tail
  {
    assert s == [s[0]] + s[1..];
    assert (head + tail)[1..] == tail;
  }

  /**
   Inclusion proofs are complete and sound at the log's own size: of all hashes, indices and
   paths, the verifier accepts exactly the leaf at that index with the generated path.
   */
  lemma {:induction false} InclusionExact(h: seq<Digest>, leafHash: Digest, index: int, path: seq<Digest>)
    ensures RootFromProof(leafHash, index, |h|, path) == Some(Root(h))
       <==> 0 <= index < |h| && leafHash == h[index] && path == AuditPath(h, index)
  {
    hide Shape, At, Path, Hash, Mth, AuditPath, Fold, Balanced, Split;
    if 0 <= index < |h| {
      ShapeBalanced(h);
      ShapeHash(h);
      ShapeAt(h, index);
      ShapePath(h, index);
      ClimbExact(Shape(h), index, |h| - 1, leafHash, path);
    }
  }

  lemma {:induction false} PathLength(t: Tree, i: nat, e: nat)
    requires Balanced(t) && i < Size(t) <= Pow2(e)
    ensures |Path(t, i)| <= e
    decreases e
  {
    if Size(t) >= 2 {
      LiftBalanced(t);
      PathLift(t, i, i / 2);
      PathLength(Lift(t), i / 2, e - 1);
    }
  }

  /** A path never holds more than ceil(log2 n) hashes. */
  lemma {:induction false} AuditPathLength(h: seq<Digest>, i: nat, e: nat)
    requires i < |h| <= Pow2(e)
    ensures |AuditPath(h, i)| <= e
  {
    ShapeBalanced(h);
    ShapePath(h, i);
    PathLength(Shape(h), i, e);
  }

  /** Every hash a root is built from, itself included. */
  function Parts(d: Digest): (parts: set<Digest>)
    ensures d in parts
  {
    match d
    case Node(left, right) => {d} + Parts(left) + Parts(right)
    case _ => {d}
  }

  lemma {:induction false} FoldKeepsParts(fn: nat, sn: nat, r: Digest, path: seq<Digest>)
    requires fn <= sn && Fold(fn, sn, r, path).Some?
    ensures Parts(r) <= Parts(Fold(fn, sn, r, path).value)
    decreases sn
  {
    if sn > 0 {
      if fn == sn && fn % 2 == 0 {
        FoldKeepsParts(fn / 2, sn / 2, r, path);
      } else {
        var up := if fn % 2 == 1 then Node(path[0], r) else Node(r, path[0]);
        FoldKeepsParts(fn / 2, sn / 2, up, path[1..]);
      }
    }
  }

  ghost predicate AllLeaves(h: seq<Digest>) {
    forall d :: d in h ==> d.Leaf?
  }

  lemma {:induction false} LeafPartsOfRoot(h: seq<Digest>, d: Digest)
    requires |h| > 0 && AllLeaves(h) && d.Leaf? && d in Parts(Mth(h))
    ensures d in h
    decreases |h|
  {
    if |h| > 1 {
      var k := Split(|h|);
      if d in Parts(Mth(h[..k])) {
        LeafPartsOfRoot(h[..k], d);
      } else {
        LeafPartsOfRoot(h[k..], d);
      }
    }
  }

  /**
   Domain separation: whatever index, size and path a proof claims, a hash made from a leaf
   pre-image is accepted only if that leaf was added to the log.
   */
  lemma {:induction false} InclusionSoundAnySize(h: seq<Digest>, preimage: Bytes, index: int, claimedSize: int,
                                                 path: seq<Digest>)
    requires AllLeaves(h)
    requires RootFromProof(Leaf(preimage), index, claimedSize, path) == Some(Root(h))
    ensures Leaf(preimage) in h
  {
    FoldKeepsParts(index, claimedSize - 1, Leaf(preimage), path);
    if h != [] {
      LeafPartsOfRoot(h, Leaf(preimage));
    }
  }

  // ------------------------------------------------------------------ consistency

  lemma {:induction false} BitAndSelf(a: nat)
    ensures BitAnd(a, a) == a
  {
    if a > 0 {
      BitAndSelf(a / 2);
    }
  }

  /** The source's power-of-two test says that stripping the trailing ones of m - 1 leaves zero. */
  lemma {:induction false} PowerOfTwoTest(m: nat, sn: nat)
    requires 0 < m <= sn + 1
    ensures BitAnd(m, m - 1) == 0 <==> StripOnes(m - 1, sn).0 == 0
  {
    if m % 2 == 0 {
      PowerOfTwoTest(m / 2, sn / 2);
    } else {
      BitAndSelf(m / 2);
    }
  }

  /** The prefix tree `a` ends in `fr` at tip `fn`, `b` holds `sr` there, and they agree before it. */
  ghost predicate Agree(a: Tree, b: Tree, fn: nat, fr: Digest, sr: Digest)
    requires Size(a) == fn + 1 <= Size(b)
  {
    At(a, fn) == fr && At(b, fn) == sr && Same(a, b, fn)
  }

  lemma {:induction false} AgreeLiftLone(a: Tree, b: Tree, j: nat, fr: Digest, sr: Digest)
    requires Balanced(a) && Balanced(b) && Size(a) == Size(b) == 2 * j + 1
    requires Size(Lift(a)) == Size(Lift(b)) == j + 1
    ensures Agree(a, b, 2 * j, fr, sr) <==> Agree(Lift(a), Lift(b), j, fr, sr)
  {
    hide At, Lift, Balanced, Size, Same;
    SameLift(a, b, 2 * j, j);
    LiftAt(a, j);
    LiftAt(b, j);
  }

  lemma {:induction false} AgreeLiftEven(a: Tree, b: Tree, j: nat, fr: Digest, sr: Digest, c: Digest)
    requires Balanced(a) && Balanced(b) && Size(a) == 2 * j + 1 < Size(b)
    requires Size(Lift(a)) == j + 1 <= Size(Lift(b))
    ensures Agree(a, b, 2 * j, fr, sr) && c == At(b, 2 * j + 1) <==>
            Agree(Lift(a), Lift(b), j, fr, Node(sr, c))
  {
    hide At, Lift, Balanced, Size, Same;
    SameLift(a, b, 2 * j, j);
    LiftAt(a, j);
    LiftAt(b, j);
  }

  lemma {:induction false} AgreeLiftOdd(a: Tree, b: Tree, j: nat, fr: Digest, sr: Digest, c: Digest)
    requires Balanced(a) && Balanced(b) && Size(a) == 2 * j + 2 <= Size(b)
    requires Size(Lift(a)) == j + 1 <= Size(Lift(b))
    ensures Agree(a, b, 2 * j + 1, fr, sr) && c == At(b, 2 * j) <==>
            Agree(Lift(a), Lift(b), j, Node(c, fr), Node(c, sr))
  {
    hide At, Lift, Balanced, Size, Same;
    SameLift(a, b, 2 * j + 1, j);
    LiftAt(a, j);
    LiftAt(b, j);
  }

  /** The pair climb reaches both roots only from hashes at which the trees agree, by that tip's path. */
  ghost predicate PairClimbsExactly(a: Tree, b: Tree, fn: nat, sn: nat, fr: Digest, sr: Digest, terms: seq<Digest>)
    requires Size(a) == fn + 1 <= Size(b) == sn + 1
  {
    FoldPair(fn, sn, fr, sr, terms) == Some((Hash(a), Hash(b)))
    <==> Agree(a, b, fn, fr, sr) && terms == Path(b, fn)
  }

  lemma {:induction false} PairLone(a: Tree, b: Tree, j: nat, fr: Digest, sr: Digest, terms: seq<Digest>)
    requires Balanced(a) && Balanced(b) && Size(a) == Size(b) == 2 * j + 1 && j > 0
    requires Size(Lift(a)) == Size(Lift(b)) == j + 1
    requires PairClimbsExactly(Lift(a), Lift(b), j, j, fr, sr, terms)
    ensures PairClimbsExactly(a, b, 2 * j, 2 * j, fr, sr, terms)
  {
    hide At, Path, Hash, Lift, Size, Balanced, Same, Agree;
    AgreeLiftLone(a, b, j, fr, sr);
    LiftHash(a);
    LiftHash(b);
    PathLift(b, 2 * j, j);
  }

  lemma {:induction false} PairOdd(a: Tree, b: Tree, j: nat, k: nat, fr: Digest, sr: Digest, terms: seq<Digest>)
    requires Balanced(a) && Balanced(b) && Size(a) == 2 * j + 2 <= Size(b) && terms != []
    requires Size(Lift(a)) == j + 1 <= Size(Lift(b)) == k + 1
    requires PairClimbsExactly(Lift(a), Lift(b), j, k, Node(terms[0], fr), Node(terms[0], sr), terms[1..])
    ensures PairClimbsExactly(a, b, 2 * j + 1, Size(b) - 1, fr, sr, terms)
  {
    hide At, Path, Hash, Lift, Size, Balanced, Same, Agree;
    AgreeLiftOdd(a, b, j, fr, sr, terms[0]);
    LiftBalanced(b);
    LiftHash(a);
    LiftHash(b);
    PathLift(b, 2 * j + 1, j);
    HeadAndTail(terms, Sibling(b, 2 * j + 1), Path(Lift(b), j));
  }

  lemma {:induction false} PairEven(a: Tree, b: Tree, j: nat, k: nat, fr: Digest, sr: Digest, terms: seq<Digest>)
    requires Balanced(a) && Balanced(b) && Size(a) == 2 * j + 1 < Size(b) && terms != []
    requires Size(Lift(a)) == j + 1 <= Size(Lift(b)) == k + 1
    requires PairClimbsExactly(Lift(a), Lift(b), j, k, fr, Node(sr, terms[0]), terms[1..])
    ensures PairClimbsExactly(a, b, 2 * j, Size(b) - 1, fr, sr, terms)
  {
    hide At, Path, Hash, Lift, Size, Balanced, Same, Agree;
    AgreeLiftEven(a, b, j, fr, sr, terms[0]);
    LiftBalanced(b);
    LiftHash(a);
    LiftHash(b);
    PathLift(b, 2 * j, j);
    HeadAndTail(terms, Sibling(b, 2 * j), Path(Lift(b), j));
  }

  lemma {:induction false} PairTip(a: Tree, b: Tree, fr: Digest, sr: Digest, terms: seq<Digest>)
    requires Size(a) == Size(b) == 1
    ensures PairClimbsExactly(a, b, 0, 0, fr, sr, terms)
  {
    assert a.Tip? && b.Tip?;
  }

  lemma {:induction false} PairStuck(a: Tree, b: Tree, fn: nat, sn: nat, fr: Digest, sr: Digest)
    requires Balanced(b) && Size(a) == fn + 1 <= Size(b) == sn + 1 && (fn % 2 == 1 || fn < sn)
    ensures PairClimbsExactly(a, b, fn, sn, fr, sr, [])
  {
    PathLift(b, fn, fn / 2);
  }

  lemma {:induction false} PairClimbExact(a: Tree, b: Tree, fn: nat, sn: nat,
                                          fr: Digest, sr: Digest, terms: seq<Digest>)
    requires Balanced(a) && Balanced(b) && Size(a) == fn + 1 <= Size(b) == sn + 1
    ensures PairClimbsExactly(a, b, fn, sn, fr, sr, terms)
    decreases sn
  {
    hide Path, Hash, At, Lift, Balanced, Same, Agree;
    if sn > 0 {
      LiftBalanced(a);
      LiftBalanced(b);
      var j, k := fn / 2, Size(Lift(b)) - 1;
      if fn == sn && fn % 2 == 0 {
        PairClimbExact(Lift(a), Lift(b), j, k, fr, sr, terms);
        PairLone(a, b, j, fr, sr, terms);
      } else if terms == [] {
        PairStuck(a, b, fn, sn, fr, sr);
      } else if fn % 2 == 1 {
        PairClimbExact(Lift(a), Lift(b), j, k, Node(terms[0], fr), Node(terms[0], sr), terms[1..]);
        PairOdd(a, b, j, k, fr, sr, terms);
      } else {
        PairClimbExact(Lift(a), Lift(b), j, k, fr, Node(sr, terms[0]), terms[1..]);
        PairEven(a, b, j, k, fr, sr, terms);
      }
    } else {
      PairTip(a, b, fr, sr, terms);
    }
  }

  /** What a stripped climb from `terms` has to be to reach the roots of `a` and `b`. */
  ghost predicate Extends(a: Tree, b: Tree, zero: bool, terms: seq<Digest>)
    requires Size(a) < Size(b)
  {
    Same(a, b, Size(a)) && terms == (if zero then [Hash(a)] else []) + Sub(Size(a), b, true)
  }

  lemma {:induction false} StrippedOdd(a: Tree, b: Tree, terms: seq<Digest>, j: nat)
    requires Balanced(a) && Balanced(b) && Size(a) == 2 * j + 1 < Size(b) && terms != []
    ensures FoldPair(2 * j, Size(b) - 1, terms[0], terms[0], terms[1..]) == Some((Hash(a), Hash(b)))
       <==> Extends(a, b, j == 0, terms)
  {
    var fn := 2 * j;
    PairClimbExact(a, b, fn, Size(b) - 1, terms[0], terms[0], terms[1..]);
    assert Agree(a, b, fn, terms[0], terms[0]) <==> Same(a, b, fn + 1) && terms[0] == At(a, fn);
    assert Extends(a, b, j == 0, terms) <==> Same(a, b, fn + 1) && terms == [At(a, fn)] + Path(b, fn) by {
      if Same(a, b, fn + 1) {
        assert At(a, fn) == At(b, fn);
        SubOdd(b, fn + 1, j, true);
        assert j == 0 ==> a.Tip?;
        assert [] + Path(b, fn) == Path(b, fn);
        assert [] + ([At(a, fn)] + Path(b, fn)) == [At(a, fn)] + Path(b, fn);
      }
    }
    HeadAndTail(terms, [At(a, fn)], Path(b, fn));
  }

  lemma {:induction false} ExtendsLift(a: Tree, b: Tree, zero: bool, terms: seq<Digest>, j: nat)
    requires Balanced(a) && Balanced(b) && Size(a) == 2 * j < Size(b) && j > 0
    ensures Balanced(Lift(a)) && Balanced(Lift(b))
    ensures Size(Lift(a)) == j < Size(Lift(b)) && Size(b) <= 2 * Size(Lift(b)) <= Size(b) + 1
    ensures Extends(a, b, zero, terms) <==> Extends(Lift(a), Lift(b), zero, terms)
  {
    LiftBalanced(a);
    LiftBalanced(b);
    LiftHash(a);
    SubLift(b, 2 * j, j, true);
    SameLift(a, b, 2 * j, j);
  }

  lemma {:induction false} StripOnesEven(fn: nat, sn: nat)
    requires fn <= sn && fn % 2 == 0
    ensures StripOnes(fn, sn) == (fn, sn)
  {
  }

  lemma {:induction false} StripLift(j: nat, n: nat, c: nat)
    requires 0 < 2 * j < n <= 2 * c <= n + 1
    ensures StripOnes(2 * j - 1, n - 1) == StripOnes(j - 1, c - 1)
  {
    assert (2 * j - 1) % 2 == 1 && (2 * j - 1) / 2 == j - 1;
    assert (n - 1) / 2 == c - 1;
  }

  ghost predicate ReachesBoth(a: Tree, b: Tree, at: (nat, nat), terms: seq<Digest>)
    requires at.0 <= at.1 && terms != []
  {
    FoldPair(at.0, at.1, terms[0], terms[0], terms[1..]) == Some((Hash(a), Hash(b)))
  }

  /** The pair climb after the trailing ones of the first size's last index are stripped. */
  lemma {:induction false} StrippedExact(a: Tree, b: Tree, at: (nat, nat), terms: seq<Digest>)
    requires Balanced(a) && Balanced(b) && Size(a) < Size(b) && terms != []
    requires at == StripOnes(Size(a) - 1, Size(b) - 1)
    ensures ReachesBoth(a, b, at, terms) <==> Extends(a, b, at.0 == 0, terms)
    decreases Size(a)
  {
    hide At, Path, Hash, Lift, Balanced, Same, Agree, Extends, Sub;
    hide Hash, Lift, Balanced, Extends, FoldPair, Size, StripOnes;
    var j := Size(a) / 2;
    if Size(a) % 2 == 1 {
      StripOnesEven(2 * j, Size(b) - 1);
      StrippedOdd(a, b, terms, j);
    } else {
      ExtendsLift(a, b, at.0 == 0, terms, j);
      StripLift(j, Size(b), Size(Lift(b)));
      StrippedExact(Lift(a), Lift(b), at, terms);
      LiftHash(a);
      LiftHash(b);
    }
  }

  /** Trees with the same tips stand for lists one of which is a prefix of the other. */
  lemma {:induction false} SameIsPrefix(a: seq<Digest>, b: seq<Digest>)
    requires 0 < |a| <= |b|
    ensures Same(Shape(a), Shape(b), |a|) <==> a <= b
  {
    forall i: nat | i < |a|
      ensures At(Shape(a), i) == a[i] && At(Shape(b), i) == b[i]
    {
      ShapeAt(a, i);
      ShapeAt(b, i);
    }
    if Same(Shape(a), Shape(b), |a|) {
      forall i: nat | i < |a|
        ensures a[i] == b[i]
      {
        assert At(Shape(a), i) == At(Shape(b), i);
      }
    }
  }

  /**
   Consistency proofs are complete and sound: for the roots of any two logs, exactly one proof is
   accepted when the first is a positional prefix of the second, the generated one, and none
   otherwise. An empty first log, for which no proof is generated, goes with the empty one.
   */
  lemma {:induction false} ConsistencyExact(a: seq<Digest>, b: seq<Digest>, proof: seq<Digest>)
    ensures AcceptsConsistency(Root(a), Root(b), |a|, |b|, proof)
       <==> a <= b && proof == if a == [] then [] else ConsistencyProof(b, |a|)
  {
    hide FoldPair, StripOnes, Subproof, BitAnd, Mth;
    if a == [] {
      assert a <= b;
    } else if |a| == |b| {
      assert a <= b <==> a == b;
      if Mth(a) == Mth(b) {
        MthInjective(a, b);
      }
    } else if |a| < |b| {
      ConsistencyGrown(a, b, proof);
    }
  }

  lemma {:induction false} ConsistencyGrown(a: seq<Digest>, b: seq<Digest>, proof: seq<Digest>)
    requires 0 < |a| < |b|
    ensures AcceptsConsistency(Mth(a), Mth(b), |a|, |b|, proof) <==> a <= b && proof == ConsistencyProof(b, |a|)
  {
    hide FoldPair, StripOnes, Subproof, BitAnd, Mth;
    PowerOfTwoTest(|a|, |b| - 1);
    SubproofNonempty(b, |a|);
    var at := StripOnes(|a| - 1, |b| - 1);
    if at.0 == 0 || proof != [] {
      GrownExact(a, b, proof, at);
    }
  }

  lemma {:induction false} GrownExact(a: seq<Digest>, b: seq<Digest>, proof: seq<Digest>, at: (nat, nat))
    requires 0 < |a| < |b| && at == StripOnes(|a| - 1, |b| - 1) && (at.0 == 0 || proof != [])
    ensures var terms := if at.0 == 0 then [Mth(a)] + proof else proof;
      FoldPair(at.0, at.1, terms[0], terms[0], terms[1..]) == Some((Mth(a), Mth(b)))
      <==> a <= b && proof == Subproof(|a|, b, true)
  {
    hide At, Path, Hash, Lift, Balanced, Same, Agree, Extends, Sub, Shape, Mth, Subproof, StripOnes;
    var terms := if at.0 == 0 then [Mth(a)] + proof else proof;
    ShapeBalanced(a);
    ShapeBalanced(b);
    StrippedExact(Shape(a), Shape(b), at, terms);
    ShapeHash(a);
    ShapeHash(b);
    ExtendsMeans(a, b, at.0 == 0, proof);
  }

  lemma {:induction false} ExtendsMeans(a: seq<Digest>, b: seq<Digest>, zero: bool, proof: seq<Digest>)
    requires 0 < |a| < |b|
    ensures Extends(Shape(a), Shape(b), zero, (if zero then [Mth(a)] + proof else proof))
       <==> a <= b && proof == Subproof(|a|, b, true)
  {
    ShapeHash(a);
    ShapeSub(b, |a|, true);
    SameIsPrefix(a, b);
    var s := Subproof(|a|, b, true);
    assert [] + s == s;
    assert ([Mth(a)] + proof)[1..] == proof && ([Mth(a)] + s)[1..] == s;
  }

  lemma {:induction false} SubproofNonempty(h: seq<Digest>, m: nat)
    requires 0 < m < |h|
    ensures Subproof(m, h, true) != []
  {
  }

  /** The root and the size determine the leaves. */
  lemma {:induction false} MthInjective(a: seq<Digest>, b: seq<Digest>)
    requires |a| == |b| > 0 && Mth(a) == Mth(b)
    ensures a == b
    decreases |a|
  {
    if |a| > 1 {
      var k := Split(|a|);
      MthInjective(a[..k], b[..k]);
      MthInjective(a[k..], b[k..]);
      assert a == a[..k] + a[k..] && b == b[..k] + b[k..];
    }
  }

  // ------------------------------------------------------------------ the standard's own words

  /** Section 2.1.1 of RFC 9162, with its own split: the hash of a list is made of the hashes of its two parts. */
  lemma {:induction false} MthStandard(h: seq<Digest>, k: nat)
    requires IsPow2(k) && k < |h| <= 2 * k
    ensures Root([]) == Empty && Root([h[0]]) == h[0]
    ensures Root(h) == Node(Root(h[..k]), Root(h[k..]))
  {
    SplitCharacterized(|h|, k);
  }

  /** Section 2.1.3.1: the path of a leaf, in its own part and then past the other one. */
  lemma {:induction false} PathStandard(h: seq<Digest>, k: nat, m: nat)
    requires IsPow2(k) && k < |h| <= 2 * k && m < |h|
    ensures AuditPath([h[m]], 0) == []
    ensures AuditPath(h, m) ==
      if m < k then AuditPath(h[..k], m) + [Root(h[k..])] else AuditPath(h[k..], m - k) + [Root(h[..k])]
  {
    SplitCharacterized(|h|, k);
  }

  /** Section 2.1.4.1: the subproof of a prefix, and the proof that starts it. */
  lemma {:induction false} SubproofStandard(h: seq<Digest>, k: nat, m: nat, b: bool)
    requires IsPow2(k) && k < |h| <= 2 * k && 0 < m < |h|
    ensures Subproof(|h|, h, b) == if b then [] else [Root(h)]
    ensures Subproof(m, h, b) ==
      if m <= k then Subproof(m, h[..k], b) + [Root(h[k..])] else Subproof(m - k, h[k..], false) + [Root(h[..k])]
    ensures ConsistencyProof(h, m) == Subproof(m, h, true)
  {
    SplitCharacterized(|h|, k);
  }
}
