/** The triangular probe of a table of 2^bit buckets. */
module Probe {
  import opened Words
  import opened Bits

  /** `x & (2^k - 1)` is the residue. */
  lemma {:induction false} AndMask(x: nat, k: nat)
    ensures Combine(And, x, Pow2(k) - 1) == x % Pow2(k)
    decreases k
  {
    if k == 0 {
      AndZero(x);
    } else {
      AndMask(x / 2, k - 1);
      AndStep(x, Pow2(k - 1), Pow2(k));
    }
  }

  lemma AndStep(x: nat, p: nat, d: nat)
    requires p > 0 && d == 2 * p && Combine(And, x / 2, p - 1) == x / 2 % p
    ensures Combine(And, x, d - 1) == x % d
  {
    HalveResidue(x, p, d);
    assert (d - 1) / 2 == p - 1 && (d - 1) % 2 == 1;
  }

  lemma HalveResidue(x: nat, p: nat, d: nat)
    requires p > 0 && d == 2 * p
    ensures x % d == 2 * (x / 2 % p) + x % 2
  {
    var q, r := x / 2 / p, x / 2 % p;
    assert x / 2 == p * q + r;
    MulAssoc(2, p, q);
    DivModUnique(x, d, q, 2 * r + x % 2);
  }

  lemma {:induction false} AndZero(x: nat)
    ensures Combine(And, x, 0) == 0
  {
    if x > 0 { AndZero(x / 2); }
  }

  lemma {:induction false} AndAtMost(x: nat, mask: nat)
    ensures Combine(And, x, mask) <= mask
    decreases x + mask
  {
    if x > 0 || mask > 0 { AndAtMost(x / 2, mask / 2); }
  }

  /** The `n`th bucket of the probe, in wrapping 32-bit arithmetic. */
  function ProbeAt(code: u32, n: nat, bit: nat): (b: nat)
    ensures b < Pow2(bit)
  {
    var square := (n * n % BASE + n) % BASE;
    AndAtMost((code as int + square / 2) % BASE, Pow2(bit) - 1);
    Combine(And, (code as int + square / 2) % BASE, Pow2(bit) - 1)
  }

  function Triangle(n: nat): nat
  {
    if n == 0 then 0 else n + Triangle(n - 1)
  }

  lemma {:induction false} TriangleProduct(n: nat)
    ensures 2 * Triangle(n) == n * n + n
  {
    if n > 0 {
      TriangleProduct(n - 1);
      assert n * n == (n - 1) * (n - 1) + 2 * n - 1;
    }
  }

  /** A residue does not see a reduction by a multiple `q` of its modulus. */
  lemma ResidueOfSum(x: int, y: int, p: nat, c: nat, q: nat)
    requires p > 0 && q > 0 && p * c == q
    ensures (x + y % q) % p == (x + y) % p
  {
    var m, t, rest := y / q, (x + y % q) / p, (x + y % q) % p;
    assert y == q * m + y % q;
    MulAssoc(p, c, m);
    assert x + y % q == p * t + rest;
    Distribute(p, c * m, t);
    DivModUnique(x + y, p, c * m + t, rest);
  }

  lemma WordResidue(x: int, y: int, bit: nat)
    requires bit <= 31
    ensures (x + y % BASE) % Pow2(bit) == (x + y) % Pow2(bit)
    ensures (x + y % 0x8000_0000) % Pow2(bit) == (x + y) % Pow2(bit)
  {
    Pow2Values();
    Pow2Add(bit, 32 - bit);
    Pow2Add(bit, 31 - bit);
    ResidueOfSum(x, y, Pow2(bit), Pow2(32 - bit), BASE);
    ResidueOfSum(x, y, Pow2(bit), Pow2(31 - bit), 0x8000_0000);
  }

  /** The wrap at 2^32 before the halving loses nothing while there are at most 2^31 buckets. */
  lemma ProbeIsTriangular(code: u32, n: nat, bit: nat)
    requires bit <= 31
    ensures ProbeAt(code, n, bit) == (code as int + Triangle(n)) % Pow2(bit)
  {
    HalvedSquare(n);
    AndMask((code as int + (n * n % BASE + n) % BASE / 2) % BASE, bit);
    WordResidue(0, code as int + Triangle(n) % 0x8000_0000, bit);
    WordResidue(code as int, Triangle(n), bit);
  }

  lemma HalvedSquare(n: nat)
    ensures (n * n % BASE + n) % BASE / 2 == Triangle(n) % 0x8000_0000
  {
    TriangleProduct(n);
    WrappedSum(n * n, n);
    HalvedWrap(Triangle(n));
  }

  lemma WrappedSum(x: int, y: int)
    ensures (x % BASE + y) % BASE == (x + y) % BASE
  {
    ResidueOfSum(y, x, BASE, 1, BASE);
  }

  lemma HalvedWrap(t: nat)
    ensures 2 * t % BASE / 2 == t % 0x8000_0000
  {
    assert t == 0x8000_0000 * (t / 0x8000_0000) + t % 0x8000_0000;
    DivModUnique(2 * t, BASE, t / 0x8000_0000, 2 * (t % 0x8000_0000));
  }

  // ---------------------------------------------------------------- the probe is a permutation

  /** Divisible by 2^k: halving leaves no remainder `k` times. */
  predicate HalvesEvenly(n: nat, k: nat)
  {
    k == 0 || (n % 2 == 0 && HalvesEvenly(n / 2, k - 1))
  }

  lemma {:induction false} MultipleHalvesEvenly(n: nat, k: nat)
    requires n % Pow2(k) == 0
    ensures HalvesEvenly(n, k)
    decreases k
  {
    if k > 0 {
      HalveResidue(n, Pow2(k - 1), Pow2(k));
      MultipleHalvesEvenly(n / 2, k - 1);
    }
  }

  lemma {:induction false} SmallDoesNotHalveEvenly(n: nat, k: nat)
    requires 0 < n < Pow2(k)
    ensures !HalvesEvenly(n, k)
    decreases k
  {
    if k > 0 && n >= 2 { SmallDoesNotHalveEvenly(n / 2, k - 1); }
  }

  /** An odd factor has no part in a divisibility by a power of two. */
  lemma {:induction false} OddFactor(x: nat, y: nat, n: nat, k: nat)
    requires y % 2 == 1 && n == x * y && HalvesEvenly(n, k)
    ensures HalvesEvenly(x, k)
    decreases k
  {
    if k > 0 {
      HalfOfProduct(x, y, n);
      OddFactor(x / 2, y, n / 2, k - 1);
    }
  }

  lemma HalfOfProduct(x: nat, y: nat, n: nat)
    requires y % 2 == 1 && n == x * y && n % 2 == 0
    ensures x % 2 == 0 && n / 2 == x / 2 * y
  {
    if x % 2 == 1 {
      OddProduct(x / 2, y / 2);
      assert false;
    }
    MulAssoc(2, x / 2, y);
  }

  lemma OddProduct(a: int, b: int)
    ensures (2 * a + 1) * (2 * b + 1) == 2 * (2 * (a * b) + a + b) + 1
  {
  }

  /** Twice the difference of two triangles is a product of two small numbers, one of them odd. */
  lemma TriangleFactors(a: nat, b: nat) returns (x: nat, y: nat)
    requires b < a
    ensures x > 0 && y > 0 && x + y == 2 * a + 1
    ensures 2 * (Triangle(a) - Triangle(b)) == x * y == y * x
  {
    x, y := a - b, a + b + 1;
    TriangleProduct(a);
    TriangleProduct(b);
    SquareDifference(a, b);
  }

  lemma SquareDifference(a: int, b: int)
    ensures (a * a + a) - (b * b + b) == (a - b) * (a + b + 1)
  {
  }

  lemma OddFactorSmall(x: nat, y: nat, n: nat, k: nat)
    requires y % 2 == 1 && n == x * y && 0 < x < Pow2(k)
    ensures !HalvesEvenly(n, k)
  {
    SmallDoesNotHalveEvenly(x, k);
    if HalvesEvenly(n, k) { OddFactor(x, y, n, k); }
  }

  lemma {:induction false} TriangleGrows(a: nat, b: nat)
    requires b < a
    ensures Triangle(b) < Triangle(a)
  {
    if b < a - 1 { TriangleGrows(a - 1, b); }
  }

  lemma NotHalved(x: nat, y: nat, n: nat, k: nat)
    requires n == x * y == y * x && (x + y) % 2 == 1 && 0 < x < Pow2(k) && 0 < y < Pow2(k)
    ensures !HalvesEvenly(n, k)
  {
    if y % 2 == 1 { OddFactorSmall(x, y, n, k); } else { OddFactorSmall(y, x, n, k); }
  }

  lemma Undouble(t: nat, n: nat, k: nat)
    requires n == 2 * t && !HalvesEvenly(n, k + 1)
    ensures !HalvesEvenly(t, k)
  {
  }

  lemma TrianglesDiffer(a: nat, b: nat, k: nat, t: int)
    requires b < a < Pow2(k) && t == Triangle(a) - Triangle(b)
    ensures t > 0 && !HalvesEvenly(t, k)
  {
    TriangleGrows(a, b);
    var x, y := TriangleFactors(a, b);
    NotHalved(x, y, 2 * t, k + 1);
    Undouble(t, 2 * t, k);
  }

  lemma SameResidue(x: int, y: int, k: nat)
    requires y <= x && x % Pow2(k) == y % Pow2(k)
    ensures HalvesEvenly(x - y, k)
  {
    ResidueDifference(x, y, Pow2(k));
    MultipleHalvesEvenly(x - y, k);
  }

  lemma ResidueDifference(x: int, y: int, p: nat)
    requires p > 0 && x % p == y % p
    ensures (x - y) % p == 0
  {
    assert x == p * (x / p) + x % p && y == p * (y / p) + y % p;
    Distribute(p, x / p, y / p);
    DivModUnique(x - y, p, x / p - y / p, 0);
  }

  /** No bucket is visited twice in one round. */
  lemma ProbeInjective(code: u32, a: nat, b: nat, bit: nat)
    requires bit <= 31 && b < a < Pow2(bit)
    ensures ProbeAt(code, a, bit) != ProbeAt(code, b, bit)
  {
    ProbeIsTriangular(code, a, bit);
    ProbeIsTriangular(code, b, bit);
    TrianglesDiffer(a, b, bit, Triangle(a) - Triangle(b));
    if ProbeAt(code, a, bit) == ProbeAt(code, b, bit) {
      SameResidue(code as int + Triangle(a), code as int + Triangle(b), bit);
      assert false;
    }
  }

  ghost function Visited(code: u32, n: nat, bit: nat): set<nat>
  {
    if n == 0 then {} else Visited(code, n - 1, bit) + {ProbeAt(code, n - 1, bit)}
  }

  ghost function Below(n: nat): set<nat>
  {
    if n == 0 then {} else Below(n - 1) + {n - 1}
  }

  lemma {:induction false} BelowSize(n: nat)
    ensures |Below(n)| == n && forall i: nat :: i in Below(n) <==> i < n
  {
    if n > 0 {
      BelowSize(n - 1);
    }
  }

  lemma {:induction false} VisitedFrom(code: u32, n: nat, bit: nat)
    ensures forall b :: b in Visited(code, n, bit) ==>
      b < Pow2(bit) && exists i :: 0 <= i < n && ProbeAt(code, i, bit) == b
  {
    if n > 0 {
      VisitedFrom(code, n - 1, bit);
    }
  }

  lemma {:induction false} VisitedSize(code: u32, n: nat, bit: nat)
    requires bit <= 31 && n <= Pow2(bit)
    ensures |Visited(code, n, bit)| == n
  {
    if n > 0 {
      VisitedSize(code, n - 1, bit);
      VisitedFrom(code, n - 1, bit);
      if ProbeAt(code, n - 1, bit) in Visited(code, n - 1, bit) {
        var i :| 0 <= i < n - 1 && ProbeAt(code, i, bit) == ProbeAt(code, n - 1, bit);
        ProbeInjective(code, n - 1, i, bit);
      }
    }
  }

  lemma SubsetOfSameSize(a: set<nat>, b: set<nat>)
    requires a <= b && |a| == |b|
    ensures a == b
  {
    assert b == a + (b - a);
    assert |b| == |a| + |b - a|;
  }

  /** Every bucket is visited in one round: with `ProbeInjective`, exactly once. */
  lemma ProbeSurjective(code: u32, b: nat, bit: nat) returns (n: nat)
    requires bit <= 31 && b < Pow2(bit)
    ensures n < Pow2(bit) && ProbeAt(code, n, bit) == b
  {
    var size := Pow2(bit);
    var all := Visited(code, size, bit);
    VisitedSize(code, size, bit);
    VisitedFrom(code, size, bit);
    BelowSize(size);
    SubsetOfSameSize(all, Below(size));
    assert b in all;
    n :| 0 <= n < size && ProbeAt(code, n, bit) == b;
  }

  // ---------------------------------------------------------------- the Set's form

  /** The bucket the Set's loop is at after `n` steps, each one longer than the last. */
  function StepProbe(code: u32, n: nat, bit: nat): nat
  {
    if n == 0 then Combine(And, code as int, Pow2(bit) - 1)
    else Combine(And, (StepProbe(code, n - 1, bit) + n) % BASE, Pow2(bit) - 1)
  }

  lemma MaskedSum(x: nat, bit: nat)
    requires bit <= 31
    ensures Combine(And, x % BASE, Pow2(bit) - 1) == x % Pow2(bit)
  {
    AndMask(x % BASE, bit);
    WordResidue(0, x, bit);
  }

  lemma NextResidue(x: int, n: int, p: nat)
    requires p > 0
    ensures (x % p + n) % p == (x + n) % p
  {
    ResidueOfSum(n, x, p, 1, p);
  }

  lemma NextStep(x: int, prev: nat, n: nat, bit: nat)
    requires bit <= 31 && prev == x % Pow2(bit)
    ensures Combine(And, (prev + n) % BASE, Pow2(bit) - 1) == (x + n) % Pow2(bit)
  {
    MaskedSum(prev + n, bit);
    NextResidue(x, n, Pow2(bit));
  }

  /** Both forms visit the same buckets in the same order. */
  lemma StepProbeAgrees(code: u32, n: nat, bit: nat)
    requires bit <= 31
    ensures StepProbe(code, n, bit) == ProbeAt(code, n, bit)
  {
    StepProbeIsTriangular(code, n, bit);
    ProbeIsTriangular(code, n, bit);
  }

  lemma {:induction false} StepProbeIsTriangular(code: u32, n: nat, bit: nat)
    requires bit <= 31
    ensures StepProbe(code, n, bit) == (code as int + Triangle(n)) % Pow2(bit)
  {
    hide Combine, Pow2;
    if n == 0 {
      AndMask(code as int, bit);
    } else {
      StepProbeIsTriangular(code, n - 1, bit);
      NextStep(code as int + Triangle(n - 1), StepProbe(code, n - 1, bit), n, bit);
    }
  }
}
