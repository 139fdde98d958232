/** Machine words of the interpreter, and powers of integers. */
module Words {
  /** One more than the largest limb: the base of the limb representation. */
  const BASE := 0x1_0000_0000

  newtype u8 = x: int | 0 <= x < 0x100
  newtype u32 = x: int | 0 <= x < 0x1_0000_0000
  newtype u64 = x: int | 0 <= x < 0x1_0000_0000_0000_0000
  newtype i64 = x: int | -0x8000_0000_0000_0000 <= x < 0x8000_0000_0000_0000

  datatype Option<+T> = None | Some(value: T)

  datatype Ordering = Less | Equal | Greater

  function Pow(b: int, e: nat): int
  {
    if e == 0 then 1 else b * Pow(b, e - 1)
  }

  function Pow2(k: nat): nat
    ensures Pow2(k) > 0
  {
    if k == 0 then 1 else 2 * Pow2(k - 1)
  }

  /** `x` moved up by `k` limbs: x * BASE^k. */
  function Scale(k: nat, x: int): int
  {
    if k == 0 then x else BASE * Scale(k - 1, x)
  }

  lemma {:induction false} ScaleAdd(k: nat, x: int, y: int)
    ensures Scale(k, x + y) == Scale(k, x) + Scale(k, y)
  {
    if k > 0 { ScaleAdd(k - 1, x, y); }
  }

  lemma ScaleSub(k: nat, x: int, y: int)
    ensures Scale(k, x - y) == Scale(k, x) - Scale(k, y)
  {
    ScaleAdd(k, x - y, y);
  }

  lemma {:induction false} ScaleUp(k: nat, x: int)
    ensures Scale(k, BASE * x) == Scale(k + 1, x)
  {
    if k > 0 { ScaleUp(k - 1, x); }
  }

  lemma {:induction false} ScaleScale(i: nat, j: nat, x: int)
    ensures Scale(i, Scale(j, x)) == Scale(i + j, x)
  {
    if i > 0 { ScaleScale(i - 1, j, x); }
  }

  lemma {:induction false} ScaleMul(k: nat, c: int, x: int)
    ensures Scale(k, c * x) == c * Scale(k, x)
  {
    if k > 0 {
      ScaleMul(k - 1, c, x);
      MulSwap(c, BASE, Scale(k - 1, x));
    }
  }

  lemma {:induction false} ScaleMono(k: nat, x: int, y: int)
    ensures x <= y ==> Scale(k, x) <= Scale(k, y)
    ensures x < y ==> Scale(k, x) < Scale(k, y)
    ensures Scale(k, 0) == 0
  {
    if k > 0 { ScaleMono(k - 1, x, y); }
  }

  lemma {:induction false} ScaleGrows(i: nat, j: nat, x: int)
    requires i <= j && 0 <= x
    ensures 0 <= Scale(i, x) <= Scale(j, x)
  {
    if i < j {
      ScaleGrows(i, j - 1, x);
    } else {
      ScaleMono(i, 0, x);
    }
  }

  lemma {:induction false} Pow2Add(i: nat, j: nat)
    ensures Pow2(i + j) == Pow2(i) * Pow2(j)
  {
    if i > 0 {
      Pow2Add(i - 1, j);
      MulAssoc(2, Pow2(i - 1), Pow2(j));
    }
  }

  lemma {:induction false} PowAdd(b: int, i: nat, j: nat)
    ensures Pow(b, i + j) == Pow(b, i) * Pow(b, j)
  {
    if i > 0 {
      PowAdd(b, i - 1, j);
      MulAssoc(b, Pow(b, i - 1), Pow(b, j));
    }
  }

  lemma Pow2Values()
    ensures Pow2(5) == 32 && Pow2(8) == 0x100 && Pow2(16) == 0x1_0000
    ensures Pow2(31) == 0x8000_0000 && Pow2(32) == BASE
  {
    assert Pow2(4) == 16;
    Pow2Add(4, 4);
    Pow2Add(8, 8);
    Pow2Add(16, 16);
    assert Pow2(32) == 2 * Pow2(31);
  }

  lemma {:induction false} Pow2Monotone(i: nat, j: nat)
    requires i <= j
    ensures Pow2(i) <= Pow2(j)
  {
    if i < j {
      Pow2Monotone(i, j - 1);
    }
  }

  lemma {:induction false} ScalePow2(k: nat, i: nat)
    ensures Scale(k, Pow2(i)) == Pow2(i + 32 * k)
  {
    if k > 0 {
      ScalePow2(k - 1, i);
      Pow2Add(32, i + 32 * (k - 1));
      Pow2Values();
    }
  }

  lemma MulAssoc(a: int, b: int, c: int)
    ensures a * (b * c) == (a * b) * c
  {
  }

  lemma MulSwap(a: int, b: int, c: int)
    ensures a * (b * c) == b * (a * c)
  {
  }

  lemma Distribute(a: int, b: int, c: int)
    ensures a * (b + c) == a * b + a * c
    ensures (b + c) * a == b * a + c * a
    ensures a * (b - c) == a * b - a * c
    ensures (b - c) * a == b * a - c * a
  {
  }

  lemma MulMono(a: int, x: int, y: int)
    requires 0 <= a && x <= y
    ensures a * x <= a * y && x * a <= y * a
  {
  }

  lemma MulBounds(x: int, y: int, m: int)
    requires 0 <= x <= m && 0 <= y <= m
    ensures 0 <= x * y <= m * m
  {
    MulMono(x, y, m);
    MulMono(m, x, m);
  }

  lemma MulStrict(x: int, m: int, y: int, n: int)
    requires 0 <= x < m && 0 <= y < n
    ensures 0 <= x * y < m * n
  {
    MulMono(x, y, n);
    MulMono(n, x + 1, m);
  }

  /** Quotient and remainder are the only pair with these two properties. */
  lemma DivModUnique(n: int, d: int, q: int, r: int)
    requires d > 0 && 0 <= r < d && n == d * q + r
    ensures n / d == q && n % d == r
  {
    var q', r' := n / d, n % d;
    assert n == d * q' + r';
    if q < q' { MulMono(d, q + 1, q'); }
    if q' < q { MulMono(d, q' + 1, q); }
  }

  /** The quotient by a positive divisor is below `c` when the number is below `d * c`. */
  lemma QuotientBelow(x: nat, d: nat, c: nat)
    requires d > 0 && x < d * c
    ensures 0 <= x / d < c
  {
    assert x == d * (x / d) + x % d;
    if x / d >= c { MulMono(d, c, x / d); }
    if x / d < 0 { MulMono(d, x / d, -1); }
  }
}
