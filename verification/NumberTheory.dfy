/** Powers, modular powers, square roots and greatest common divisors. */
module NumberTheory {
  import opened Words
  import opened Limbs
  import opened Bits
  import opened LimbBits
  import opened BigInts

  // ---------------------------------------------------------------- powers

  lemma PowSquare(b: int, e: nat)
    ensures Pow(b * b, e) == Pow(b, 2 * e)
    decreases e
  {
    if e > 0 {
      PowSquare(b, e - 1);
      assert Pow(b, 2 * e) == b * (b * Pow(b, 2 * (e - 1)));
      MulAssoc(b, b, Pow(b, 2 * (e - 1)));
    }
  }

  /** One round of square and multiply. */
  lemma PowHalve(result: int, b: int, e: nat)
    requires e > 0
    ensures (if e % 2 == 1 then result * b else result) * Pow(b * b, e / 2) == result * Pow(b, e)
  {
    PowSquare(b, e / 2);
    if e % 2 == 1 {
      assert Pow(b, e) == b * Pow(b, 2 * (e / 2));
      MulAssoc(result, b, Pow(b, 2 * (e / 2)));
    }
  }

  method Power(x: BigInt, e: u64) returns (result: BigInt)
    requires x.Canonical()
    ensures result.Canonical() && result.Int() == Pow(x.Int(), e as int)
  {
    result := FromI64(1);
    var base, rest := x, e;
    while rest > 0
      invariant result.Canonical() && base.Canonical()
      invariant result.Int() * Pow(base.Int(), rest as int) == Pow(x.Int(), e as int)
      decreases rest
    {
      PowHalve(result.Int(), base.Int(), rest as int);
      if rest % 2 == 1 {
        result := Mul(result, base);
      }
      rest := rest / 2;
      if rest > 0 {
        base := Mul(base, base);
      }
    }
  }

  // ---------------------------------------------------------------- modular powers

  function AbsInt(x: int): nat
  {
    if x < 0 then -x else x
  }

  /** The remainder of truncated division. */
  function TruncRem(a: int, m: int): int
    requires m != 0
  {
    Signed(a < 0, AbsInt(a) % AbsInt(m))
  }

  lemma TruncRemOf(a: int, m: int, q: int, r: int)
    requires m != 0 && IsTruncDivMod(a, m, q, r)
    ensures r == TruncRem(a, m)
  {
    var k := TruncRemDivides(a, m);
    TruncDivModUnique(a, m, q, r, k, TruncRem(a, m));
  }

  lemma TruncRemDivides(a: int, m: int) returns (k: int)
    requires m != 0
    ensures IsTruncDivMod(a, m, k, TruncRem(a, m))
  {
    var n, d := AbsInt(a), AbsInt(m);
    QuotientAndRest(n, d);
    k := Signed((a < 0) != (m < 0), n / d);
    assert a == Signed(a < 0, n) && m == Signed(m < 0, d);
    SignedTruncDivMod(a < 0, n, m < 0, d, n / d, n % d);
  }

  lemma QuotientAndRest(n: nat, d: nat)
    requires d > 0
    ensures n == d * (n / d) + n % d && 0 <= n % d < d
  {
  }

  lemma SignedTruncDivMod(s: bool, n: nat, t: bool, d: nat, k: int, rem: nat)
    requires n == d * k + rem && rem < d && (s ==> n > 0)
    ensures IsTruncDivMod(Signed(s, n), Signed(t, d), Signed(s != t, k), Signed(s, rem))
  {
    SignedProduct(t, d, s != t, k);
  }

  lemma ModProduct(a: nat, b: nat, d: nat)
    requires d > 0
    ensures ((a % d) * (b % d)) % d == (a * b) % d
  {
    var q, r, s, t := a / d, a % d, b / d, b % d;
    MulMono(r, 0, t);
    ProductParts(a, b, d, q, r, s, t);
    ModOfSum(a * b, d, q * b + r * s, r * t);
  }

  lemma ProductParts(a: int, b: int, d: int, q: int, r: int, s: int, t: int)
    requires a == d * q + r && b == d * s + t
    ensures a * b == d * (q * b + r * s) + r * t
  {
    Distribute(b, d * q, r);
    MulAssoc(d, q, b);
    Distribute(r, d * s, t);
    MulSwap(r, d, s);
    Distribute(d, q * b, r * s);
  }

  lemma ModOfSum(n: int, d: nat, k: int, p: nat)
    requires d > 0 && n == d * k + p
    ensures n % d == p % d
  {
    var e, f := p / d, p % d;
    assert p == d * e + f;
    Distribute(d, k, e);
    DivModUnique(n, d, k + e, f);
  }

  lemma TruncRemSigned(s: bool, n: nat, m: int)
    requires m != 0
    ensures TruncRem(Signed(s, n), m) == Signed(s, n % AbsInt(m))
  {
    if n == 0 { DivModUnique(0, AbsInt(m), 0, 0); }
  }

  /** Reducing the factors first does not change the truncated remainder of a product,
      whatever their signs and even where a reduced factor is zero. */
  lemma TruncRemProduct(a: int, b: int, m: int)
    requires m != 0
    ensures TruncRem(TruncRem(a, m) * TruncRem(b, m), m) == TruncRem(a * b, m)
  {
    var d, na, nb, s := AbsInt(m), AbsInt(a), AbsInt(b), (a < 0) != (b < 0);
    assert a == Signed(a < 0, na) && b == Signed(b < 0, nb);
    SignedProduct(a < 0, na, b < 0, nb);
    SignedProduct(a < 0, na % d, b < 0, nb % d);
    MulMono(na, 0, nb);
    MulMono(na % d, 0, nb % d);
    ModProduct(na, nb, d);
    TruncRemSigned(s, na * nb, m);
    TruncRemSigned(s, (na % d) * (nb % d), m);
  }

  method RemTrunc(x: BigInt, m: BigInt) returns (r: BigInt)
    requires x.Canonical() && m.Canonical() && !m.IsZero()
    ensures m.Int() != 0 && r.Canonical() && r.Int() == TruncRem(x.Int(), m.Int())
  {
    ZeroMagnitude(m);
    var q;
    q, r := DivModTrunc(x, m);
    TruncRemOf(x.Int(), m.Int(), q.Int(), r.Int());
  }

  method MulRem(x: BigInt, y: BigInt, m: BigInt, ghost a: int, ghost b: int) returns (r: BigInt)
    requires x.Canonical() && y.Canonical() && m.Canonical() && !m.IsZero() && m.Int() != 0
    requires x.Int() == TruncRem(a, m.Int()) && y.Int() == TruncRem(b, m.Int())
    ensures r.Canonical() && r.Int() == TruncRem(a * b, m.Int())
  {
    var p := Mul(x, y);
    r := RemTrunc(p, m);
    TruncRemProduct(a, b, m.Int());
  }

  /** The factor the loop has used up after `i` bits of the exponent. */
  lemma PowBits(x: int, e: nat, i: nat)
    ensures Pow(x, e % Pow2(i + 1))
         == if Bit(e, i) == 1 then Pow(x, e % Pow2(i)) * Pow(x, Pow2(i)) else Pow(x, e % Pow2(i))
    ensures Pow(x, Pow2(i + 1)) == Pow(x, Pow2(i)) * Pow(x, Pow2(i))
  {
    LowBitsStep(e, i);
    PowAdd(x, e % Pow2(i), Pow2(i));
    PowAdd(x, Pow2(i), Pow2(i));
  }

  lemma UnitRemainders(m: int)
    requires m != 0
    ensures AbsInt(m) == 1 ==> forall a :: TruncRem(a, m) == 0
    ensures AbsInt(m) > 1 ==> TruncRem(1, m) == 1
  {
  }

  lemma UnitMagnitude(m: BigInt)
    requires m.Canonical() && !m.IsZero()
    ensures m.mag == [1] <==> AbsInt(m.Int()) == 1
    ensures AbsInt(m.Int()) >= 1
  {
    ZeroMagnitude(m);
    if AbsInt(m.Int()) == 1 { ValInjective(m.mag, [1]); }
    assert Val([1]) == 1;
  }

  /** Square and multiply, reducing at each step; the bits of the exponent from the lowest. */
  method PowM(x: BigInt, e: BigInt, m: BigInt) returns (result: BigInt)
    requires x.Canonical() && e.Canonical() && m.Canonical() && !m.IsZero()
    ensures m.Int() != 0
    ensures result.Canonical() && result.Int() == TruncRem(Pow(x.Int(), Val(e.mag)), m.Int())
  {
    UnitMagnitude(m);
    UnitRemainders(m.Int());
    if m.mag == [1] { return ZERO; }
    result := FromI64(1);
    var base := RemTrunc(x, m);
    var bits := BitLength(e);
    ghost var n, v, d := x.Int(), Val(e.mag), m.Int();
    assert Pow(n, Pow2(0)) == n * Pow(n, 0) == n;
    assert v % Pow2(0) == 0;
    for i := 0 to bits
      invariant result.Canonical() && base.Canonical()
      invariant result.Int() == TruncRem(Pow(n, v % Pow2(i)), d)
      invariant i == 0 || i < bits ==> base.Int() == TruncRem(Pow(n, Pow2(i)), d)
    {
      PowBits(n, v, i);
      ExponentBit(e, bits, i);
      if Shr32(e.mag[i / 32], i % 32) % 2 == 1 {
        result := MulRem(result, base, m, Pow(n, v % Pow2(i)), Pow(n, Pow2(i)));
      }
      if i + 1 < bits {
        base := MulRem(base, base, m, Pow(n, Pow2(i)), Pow(n, Pow2(i)));
      }
    }
    if bits > 0 { DivModUnique(v, Pow2(bits), 0, v); }
  }

  lemma ExponentBit(e: BigInt, bits: nat, i: nat)
    requires i < bits && Pow2(bits - 1) <= Val(e.mag)
    ensures i / 32 < |e.mag| && Shr32(e.mag[i / 32], i % 32) as int % 2 == Bit(Val(e.mag), i)
  {
    if |e.mag| <= i / 32 {
      ValBound(e.mag);
      ScaleAsPow2(|e.mag|, 1);
      Pow2Monotone(32 * |e.mag|, bits - 1);
      assert false;
    }
    BitOfLimb(e.mag, i);
    BitIsQuotient(e.mag[i / 32] as int, i % 32);
  }
}
