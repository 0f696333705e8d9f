/**
 The tree behind a list of leaf hashes, and what one level of it contributes.

 The generators of `python/src/wcm/_merkle.py` recurse from the root of this tree; its
 verifiers climb it from the bottom, one level a round. `Lift` removes the bottom level: it
 joins sibling tips and carries a last lone tip up. The root hash stays the same, and audit
 paths and consistency proofs lose at most their first hash.
 */
module MerkleLevels {
  import opened Merkle

  datatype Tree = Tip(hash: Digest) | Fork(left: Tree, right: Tree)

  function Size(t: Tree): (n: nat)
    ensures n > 0
  {
    match t
    case Tip(_) => 1
    case Fork(l, r) => Size(l) + Size(r)
  }

  function Hash(t: Tree): (d: Digest) {
    match t
    case Tip(d) => d
    case Fork(l, r) => Node(Hash(l), Hash(r))
  }

  /** The hash of tip `i`. */
  function At(t: Tree, i: nat): (d: Digest)
    requires i < Size(t)
  {
    match t
    case Tip(d) => d
    case Fork(l, r) => if i < Size(l) then At(l, i) else At(r, i - Size(l))
  }

  function Path(t: Tree, i: nat): (path: seq<Digest>)
    requires i < Size(t)
  {
    match t
    case Tip(_) => []
    case Fork(l, r) =>
      if i < Size(l) then Path(l, i) + [Hash(r)] else Path(r, i - Size(l)) + [Hash(l)]
  }

  function Sub(m: nat, t: Tree, b: bool): (proof: seq<Digest>)
    requires 0 < m <= Size(t)
  {
    if m == Size(t) then if b then [] else [Hash(t)]
    else
      if m <= Size(t.left) then Sub(m, t.left, b) + [Hash(t.right)]
      else Sub(m - Size(t.left), t.right, false) + [Hash(t.left)]
  }

  /** Every fork is cut at the split point of its size. */
  predicate Balanced(t: Tree) {
    t.Fork? ==> Size(t.left) == Split(Size(t)) && Balanced(t.left) && Balanced(t.right)
  }

  // ------------------------------------------------------------------ lists and trees

  function Shape(h: seq<Digest>): (t: Tree)
    requires |h| > 0
    ensures Size(t) == |h|
    decreases |h|
  {
    if |h| == 1 then Tip(h[0])
    else Fork(Shape(h[..Split(|h|)]), Shape(h[Split(|h|)..]))
  }

  lemma {:induction false} ShapeBalanced(h: seq<Digest>)
    requires |h| > 0
    ensures Balanced(Shape(h))
    decreases |h|
  {
    if |h| > 1 {
      ShapeBalanced(h[..Split(|h|)]);
      ShapeBalanced(h[Split(|h|)..]);
    }
  }

  lemma {:induction false} ShapeHash(h: seq<Digest>)
    requires |h| > 0
    ensures Hash(Shape(h)) == Mth(h)
    decreases |h|
  {
    if |h| > 1 {
      ShapeHash(h[..Split(|h|)]);
      ShapeHash(h[Split(|h|)..]);
    }
  }

  lemma {:induction false} ShapeAt(h: seq<Digest>, i: nat)
    requires i < |h|
    ensures At(Shape(h), i) == h[i]
    decreases |h|
  {
    if |h| > 1 {
      var k := Split(|h|);
      if i < k {
        ShapeAt(h[..k], i);
      } else {
        ShapeAt(h[k..], i - k);
      }
    }
  }

  lemma {:induction false} ShapePath(h: seq<Digest>, i: nat)
    requires i < |h|
    ensures Path(Shape(h), i) == AuditPath(h, i)
    decreases |h|
  {
    hide Double, Split, Hash, Mth, At;
    if |h| > 1 {
      var k := Split(|h|);
      if i < k {
        ShapePath(h[..k], i);
        ShapeHash(h[k..]);
      } else {
        ShapePath(h[k..], i - k);
        ShapeHash(h[..k]);
      }
    }
  }

  lemma {:induction false} ShapeSub(h: seq<Digest>, m: nat, b: bool)
    requires 0 < m <= |h|
    ensures Sub(m, Shape(h), b) == Subproof(m, h, b)
    decreases |h|
  {
    hide Double;
    if m == |h| {
      ShapeHash(h);
    } else {
      var k := Split(|h|);
      if m <= k {
        ShapeSub(h[..k], m, b);
        ShapeHash(h[k..]);
      } else {
        ShapeSub(h[k..], m - k, false);
        ShapeHash(h[..k]);
      }
    }
  }

  // ------------------------------------------------------------------ one level up

  function Lift(t: Tree): (above: Tree) {
    match t
    case Tip(_) => t
    case Fork(Tip(a), Tip(b)) => Tip(Node(a, b))
    case Fork(l, r) => Fork(Lift(l), Lift(r))
  }

  lemma {:induction false} DoubleOfHalf(k: nat, n: nat, c: nat)
    requires 0 < k < c && n <= 2 * c <= n + 1
    ensures 2 * k < n && Double(2 * k, n) == 2 * Double(k, c)
    decreases n - k
  {
    if 4 * k < n {
      DoubleOfHalf(2 * k, n, c);
    }
  }

  /** Half of a list's split point is the split point of half the list, rounded up. */
  lemma {:induction false} SplitOfHalf(n: nat, c: nat)
    requires n >= 3 && n <= 2 * c <= n + 1
    ensures c >= 2 && Split(n) == 2 * Split(c)
  {
    DoubleOfHalf(1, n, c);
  }

  /** Both subtrees of a tree of three or more tips; the left one has an even size. */
  predicate Tall(t: Tree) {
    && t.Fork? && Balanced(t) && Balanced(t.left) && Balanced(t.right)
    && Size(t) == Size(t.left) + Size(t.right) > 2
    && Size(t.left) == 2 * Size(Lift(t.left))
    && Lift(t) == Fork(Lift(t.left), Lift(t.right))
    && Size(Lift(t)) == Size(Lift(t.left)) + Size(Lift(t.right))
  }

  lemma {:induction false} LiftHash(t: Tree)
    ensures Hash(Lift(t)) == Hash(t)
  {
    match t
    case Tip(_) =>
    case Fork(Tip(_), Tip(_)) =>
    case Fork(l, r) =>
      LiftHash(l);
      LiftHash(r);
  }

  lemma {:induction false} LiftFork(t: Tree)
    requires t.Fork? && Size(t) > 2
    ensures Lift(t) == Fork(Lift(t.left), Lift(t.right))
  {
  }

  lemma {:induction false} LiftBalanced(t: Tree)
    requires Balanced(t)
    ensures Balanced(Lift(t))
    ensures Size(t) <= 2 * Size(Lift(t)) <= Size(t) + 1
    ensures Size(t) > 2 ==> Tall(t)
  {
    if Size(t) > 2 {
      var l, r := t.left, t.right;
      LiftBalanced(l);
      LiftBalanced(r);
      LiftFork(t);
      var c := HalfUp(Size(t));
      assert Size(l) == 2 * Size(Lift(l));
      assert Size(Lift(t)) == c;
    }
  }

  lemma {:induction false} HalfUp(n: nat) returns (c: nat)
    requires n > 2
    ensures n <= 2 * c <= n + 1
    ensures c >= 2 && Split(n) == 2 * Split(c)
  {
    c := (n + 1) / 2;
    SplitOfHalf(n, c);
  }

  /** What `Lift` joins: tip `j` above is made of tips 2j and 2j+1, or is a lone last tip. */
  lemma {:induction false} LiftAt(t: Tree, j: nat)
    requires Balanced(t) && j < Size(Lift(t))
    ensures 2 * j < Size(t)
    ensures At(Lift(t), j) ==
      if 2 * j + 1 < Size(t) then Node(At(t, 2 * j), At(t, 2 * j + 1)) else At(t, 2 * j)
  {
    hide Split, Size;
    LiftBalanced(t);
    if Size(t) > 2 {
      var k := Size(Lift(t.left));
      if j < k {
        LiftAt(t.left, j);
      } else {
        LiftAt(t.right, j - k);
      }
    }
  }

  function Sibling(t: Tree, i: nat): (s: seq<Digest>)
    requires i < Size(t)
  {
    if i % 2 == 1 then [At(t, i - 1)] else if i + 1 < Size(t) then [At(t, i + 1)] else []
  }

  lemma {:induction false} Parity(i: int, k: int)
    ensures (i - 2 * k) % 2 == i % 2
  {
  }

  lemma {:induction false} SiblingOfHalf(t: Tree, i: nat, k: nat)
    requires t.Fork? && Size(t) == Size(t.left) + Size(t.right)
    requires Size(t.left) == 2 * k && i < Size(t)
    ensures Sibling(t, i) == if i < Size(t.left) then Sibling(t.left, i) else Sibling(t.right, i - Size(t.left))
  {
    hide Size;
    Parity(i, k);
  }

  lemma {:induction false} PathOfPair(a: Digest, b: Digest, i: nat)
    requires i < 2
    ensures var t := Fork(Tip(a), Tip(b)); Path(t, i) == [if i == 0 then b else a] == Sibling(t, i)
  {
    var t := Fork(Tip(a), Tip(b));
    assert Path(Tip(a), 0) == [] && Path(Tip(b), 0) == [];
    assert At(t, 0) == a && At(t, 1) == b;
  }

  lemma {:induction false} PathLiftSmall(t: Tree, i: nat)
    requires i < Size(t) <= 2
    ensures Size(Lift(t)) == 1 && Path(t, i) == Sibling(t, i) + Path(Lift(t), 0)
  {
    if t.Fork? {
      PathOfPair(t.left.hash, t.right.hash, i);
    }
  }

  /** An audit path is the sibling at this level, if any, then the audit path one level up. */
  lemma {:induction false} PathLift(t: Tree, i: nat, j: nat)
    requires Balanced(t) && i < Size(t) && 2 * j <= i <= 2 * j + 1
    ensures j < Size(Lift(t))
    ensures Path(t, i) == Sibling(t, i) + Path(Lift(t), j)
  {
    hide At, Size, Hash, Sibling, Split;
    LiftBalanced(t);
    if Size(t) > 2 {
      LiftBalanced(t.left);
      LiftBalanced(t.right);
      var k := Size(Lift(t.left));
      SiblingOfHalf(t, i, k);
      LiftHash(t.left);
      LiftHash(t.right);
      if j < k {
        PathLift(t.left, i, j);
      } else {
        PathLift(t.right, i - 2 * k, j - k);
      }
    } else {
      PathLiftSmall(t, i);
    }
  }

  /** Halving an even first size moves the whole consistency proof one level up. */
  lemma {:induction false} SubLift(t: Tree, m: nat, j: nat, b: bool)
    requires Balanced(t) && 0 < m <= Size(t) && m == 2 * j
    ensures j <= Size(Lift(t))
    ensures Sub(m, t, b) == Sub(j, Lift(t), b)
  {
    hide Size, Hash, Split;
    LiftBalanced(t);
    if m == Size(t) {
      LiftHash(t);
    } else {
      var k := Size(Lift(t.left));
      if j <= k {
        LiftHash(t.right);
        SubLift(t.left, m, j, b);
      } else {
        LiftHash(t.left);
        SubLift(t.right, m - 2 * k, j - k, false);
      }
    }
  }

  lemma {:induction false} SubOddSmall(t: Tree, b: bool)
    requires Size(t) == 2
    ensures Sub(1, t, b) == (if b then [] else [At(t, 0)]) + Path(t, 0)
  {
    assert t.left.Tip? && t.right.Tip?;
  }

  /** For an odd first size the proof is that node's hash followed by that node's audit path. */
  lemma {:induction false} SubOdd(t: Tree, m: nat, j: nat, b: bool)
    requires Balanced(t) && 0 < m < Size(t) && m == 2 * j + 1
    ensures Sub(m, t, b) == (if b && m == 1 then [] else [At(t, m - 1)]) + Path(t, m - 1)
  {
    hide Size, Hash, Split;
    if Size(t) > 2 {
      LiftBalanced(t);
      var k := Size(Lift(t.left));
      if j < k {
        SubOdd(t.left, m, j, b);
      } else {
        SubOdd(t.right, m - 2 * k, j - k, false);
      }
    } else {
      SubOddSmall(t, b);
    }
  }

  // ------------------------------------------------------------------ two trees side by side

  /** The trees have the same first `n` tips. */
  ghost predicate Same(a: Tree, b: Tree, n: nat)
    requires n <= Size(a) && n <= Size(b)
  {
    forall i: nat :: i < n ==> At(a, i) == At(b, i)
  }

  lemma {:induction false} SameAbove(a: Tree, b: Tree, n: nat, j: nat)
    requires Balanced(a) && Balanced(b) && n <= Size(a) && n <= Size(b)
    requires 2 * j <= n && j <= Size(Lift(a)) && j <= Size(Lift(b))
    requires Same(a, b, n)
    ensures Same(Lift(a), Lift(b), j)
  {
    hide At, Lift, Balanced, Size;
    forall i: nat | i < j
      ensures At(Lift(a), i) == At(Lift(b), i)
    {
      LiftAt(a, i);
      LiftAt(b, i);
      assert 2 * i < n && 2 * i + 1 < n;
    }
  }

  lemma {:induction false} SamePair(a: Tree, b: Tree, k: nat)
    requires Balanced(a) && Balanced(b) && 2 * k + 1 < Size(a) && 2 * k + 1 < Size(b)
    requires k < Size(Lift(a)) && k < Size(Lift(b)) && At(Lift(a), k) == At(Lift(b), k)
    ensures At(a, 2 * k) == At(b, 2 * k) && At(a, 2 * k + 1) == At(b, 2 * k + 1)
  {
    hide At, Lift, Balanced, Size;
    LiftAt(a, k);
    LiftAt(b, k);
  }

  lemma {:induction false} SameBelow(a: Tree, b: Tree, j: nat)
    requires Balanced(a) && Balanced(b) && 2 * j <= Size(a) && 2 * j <= Size(b)
    requires j <= Size(Lift(a)) && j <= Size(Lift(b))
    requires Same(Lift(a), Lift(b), j)
    ensures Same(a, b, 2 * j)
  {
    hide At, Lift, Balanced, Size;
    forall i: nat | i < 2 * j
      ensures At(a, i) == At(b, i)
    {
      SamePair(a, b, i / 2);
      assert i == 2 * (i / 2) || i == 2 * (i / 2) + 1;
    }
  }

  /** Trees agree below `n` exactly when the levels above do, and on the tip `Lift` did not pair off. */
  lemma {:induction false} SameLift(a: Tree, b: Tree, n: nat, j: nat)
    requires Balanced(a) && Balanced(b) && n <= Size(a) && n <= Size(b)
    requires 2 * j <= n <= 2 * j + 1
    ensures j <= Size(Lift(a)) && j <= Size(Lift(b))
    ensures Same(a, b, n) <==> Same(Lift(a), Lift(b), j) && (n == 2 * j + 1 ==> At(a, n - 1) == At(b, n - 1))
  {
    hide At, Lift, Balanced, Size;
    LiftBalanced(a);
    LiftBalanced(b);
    if Same(a, b, n) {
      SameAbove(a, b, n, j);
    }
    if Same(Lift(a), Lift(b), j) {
      SameBelow(a, b, j);
    }
  }
}
