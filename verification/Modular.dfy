/** Greatest common divisors and the affine permutations of `python/src/wcm/memory_sweep.py:80-88`. */
module Modular {

  /** `math.gcd` on natural numbers. */
  function Gcd(a: nat, b: nat): (g: nat)
    decreases b
  {
    if b == 0 then a else Gcd(b, a % b)
  }

  ghost predicate Divides(d: int, n: int) {
    exists q :: n == q * d
  }

  lemma {:induction false} Bezout(a: nat, b: nat) returns (x: int, y: int)
    ensures a * x + b * y == Gcd(a, b)
    decreases b
  {
    if b == 0 {
      x, y := 1, 0;
    } else {
      var u, v := Bezout(b, a % b);
      x, y := v, u - a / b * v;
      BezoutStep(a, b, a / b, a % b, u, v);
    }
  }

  lemma {:induction false} BezoutStep(a: int, b: int, q: int, m: int, u: int, v: int)
    requires a == b * q + m
    ensures a * v + b * (u - q * v) == b * u + m * v
  {
    assert a * v == b * q * v + m * v;
    assert b * (u - q * v) == b * u - b * (q * v);
    assert b * q * v == b * (q * v);
  }

  lemma {:induction false} DividesSum(d: int, m: int, n: int, q: int)
    requires Divides(d, m) && Divides(d, n)
    ensures Divides(d, m * q + n)
  {
    var i :| m == i * d;
    var j :| n == j * d;
    assert m * q + n == (i * q + j) * d;
  }

  /** Any common divisor divides the greatest one, which is itself a common divisor. */
  lemma {:induction false} GcdGreatest(a: nat, b: nat, d: int)
    ensures Divides(Gcd(a, b), a) && Divides(Gcd(a, b), b)
    ensures Divides(d, a) && Divides(d, b) ==> Divides(d, Gcd(a, b))
    decreases b
  {
    if b == 0 {
      assert a == 1 * a && 0 == 0 * a;
    } else {
      var m, q := a % b, a / b;
      GcdGreatest(b, m, d);
      DividesSum(Gcd(b, m), b, m, q);
      assert a == b * q + m;
      if Divides(d, a) && Divides(d, b) {
        DividesSum(d, b, a, -q);
        assert m == b * -q + a;
      }
    }
  }

  lemma {:induction false} GcdOne(n: nat)
    requires n > 0
    ensures Gcd(1, n) == 1
  {
    if n == 1 {
      assert Gcd(1, 1) == Gcd(1, 0);
    } else {
      assert Gcd(1, n) == Gcd(n, 1) == Gcd(1, 0);
    }
  }

  /** A positive number below `n` is no multiple of `n`. */
  lemma {:induction false} NoSmallMultiple(d: int, n: int, k: int)
    requires 0 < d < n
    ensures d != n * k
  {
    if k >= 1 {
      assert n * k >= n;
    } else {
      assert n * k <= 0;
    }
  }

  lemma {:induction false} ModUnique(p: int, k: int, n: int)
    requires 0 <= p < n
    ensures (p + n * k) % n == p
  {
    var v := p + n * k;
    var q, r := v / n, v % n;
    assert v == n * q + r;
    assert p - r == n * (q - k);
    if p > r {
      NoSmallMultiple(p - r, n, q - k);
    } else if p < r {
      assert r - p == n * (k - q);
      NoSmallMultiple(r - p, n, k - q);
    }
  }

  lemma {:induction false} Regroup(a: int, b: int, c: int)
    ensures a * b * c == a * (b * c) == a * c * b
  {
  }

  /** If n divides d * step and step is invertible modulo n, then n divides d. */
  lemma {:induction false} CancelStep(d: int, step: int, n: int, x: int, y: int, k: int)
    requires step * x + n * y == 1 && d * step == n * k
    ensures d == n * (k * x + d * y)
  {
    assert d == d * (step * x) + d * (n * y);
    assert d * (step * x) == n * (k * x) by { Regroup(d, step, x); Regroup(n, k, x); }
    assert d * (n * y) == n * (d * y) by { Regroup(d, n, y); Regroup(n, d, y); }
  }

  lemma {:induction false} OffsetAlgebra(d: int, step: int, n: int, x: int, y: int, q: int, offset: int)
    requires step * x + n * y == 1 && offset == d * x - n * q
    ensures offset * step == d + n * (- (d * y) - q * step)
  {
    assert offset * step == d * x * step - n * q * step;
    assert d * x * step == d * (step * x) by { Regroup(d, x, step); Regroup(d, step, x); }
    assert d * (step * x) == d - d * (n * y);
    assert d * (n * y) == n * (d * y) by { Regroup(d, n, y); Regroup(n, d, y); }
    assert n * q * step == n * (q * step) by { Regroup(n, q, step); }
  }

  function At(start: nat, step: nat, count: nat, offset: nat): (page: nat)
    requires count > 0
    ensures page < count
  {
    (start + offset * step) % count
  }

  lemma {:induction false} SameRemainder(u: int, v: int, n: int) returns (k: int)
    requires n > 0 && u % n == v % n
    ensures v - u == n * k
  {
    k := v / n - u / n;
    assert u == n * (u / n) + u % n && v == n * (v / n) + v % n;
  }

  lemma {:induction false} Distribute(start: int, a: int, b: int, step: int)
    ensures start + b * step - (start + a * step) == (b - a) * step
  {
  }

  /** With a step coprime to the count, different offsets give different pages. */
  lemma {:induction false} OffsetsDiffer(start: nat, step: nat, count: nat, a: nat, b: nat)
    requires count > 0 && Gcd(step, count) == 1 && a < b < count
    ensures At(start, step, count, a) != At(start, step, count, b)
  {
    if At(start, step, count, a) == At(start, step, count, b) {
      var x, y := Bezout(step, count);
      var k := SameRemainder(start + a * step, start + b * step, count);
      Distribute(start, a, b, step);
      CancelStep(b - a, step, count, x, y, k);
      NoSmallMultiple(b - a, count, k * x + (b - a) * y);
    }
  }

  /** And every page is reached. */
  lemma {:induction false} OffsetOf(start: nat, step: nat, count: nat, page: nat) returns (offset: nat)
    requires count > 0 && Gcd(step, count) == 1 && page < count
    ensures offset < count && At(start, step, count, offset) == page
  {
    var x, y := Bezout(step, count);
    var d := page - start;
    offset := (d * x) % count;
    OffsetAlgebra(d, step, count, x, y, d * x / count, offset);
    ModUnique(page, - (d * y) - d * x / count * step, count);
  }

  /** A sequence that visits every index below its length exactly once. */
  ghost predicate IsPermutation(s: seq<nat>, count: nat) {
    && |s| == count
    && (forall i :: 0 <= i < |s| ==> s[i] < count)
    && (forall i, j :: 0 <= i < j < |s| ==> s[i] != s[j])
    && (forall p: nat :: p < count ==> p in s)
  }

  /** Dafny's counterpart of `x or 1`. */
  function OrOne(x: nat): (y: nat)
    ensures y > 0
  {
    if x == 0 then 1 else x
  }

  lemma {:induction false} Wrap(n: nat, count: nat)
    requires 0 < n <= count
    ensures n % count == if n == count then 0 else n
  {
  }

  /** The first step coprime to the count, from the drawn one upwards, around the count if need be. */
  method CoprimeStep(count: nat, stepMaterial: nat) returns (step: nat)
    requires count > 0
    ensures Gcd(step, count) == 1
  {
    step := OrOne(stepMaterial % count);
    GcdOne(count);
    while Gcd(step, count) != 1
      invariant 0 < step && (step < count || step == 1)
      decreases if step == 1 then 0 else count - step
    {
      hide Gcd;
      Wrap(step + 1, count);
      step := OrOne((step + 1) % count);
    }
  }

  /** The order in which pages are visited, from 128 bits of start and 128 bits of step. */
  method Order(count: nat, startMaterial: nat, stepMaterial: nat) returns (order: seq<nat>)
    requires count > 0
    ensures IsPermutation(order, count)
  {
    var start := startMaterial % count;
    var step := CoprimeStep(count, stepMaterial);
    order := [];
    for offset := 0 to count
      invariant |order| == offset
      invariant forall i :: 0 <= i < offset ==> order[i] == At(start, step, count, i)
    {
      hide At;
      order := order + [At(start, step, count, offset)];
    }
    VisitsAll(order, start, step, count);
  }

  lemma {:induction false} VisitsAll(order: seq<nat>, start: nat, step: nat, count: nat)
    requires count > 0 && Gcd(step, count) == 1 && |order| == count
    requires forall i :: 0 <= i < count ==> order[i] == At(start, step, count, i)
    ensures IsPermutation(order, count)
  {
    forall i, j | 0 <= i < j < count
      ensures order[i] != order[j]
    {
      OffsetsDiffer(start, step, count, i, j);
    }
    forall p: nat | p < count
      ensures p in order
    {
      var o := OffsetOf(start, step, count, p);
      assert order[o] == p;
    }
  }
}
