/** Integers of any size: a sign and a trimmed magnitude. */
module BigInts {
  import opened Words
  import opened Limbs
  import opened Bits
  import opened Magnitude
  import KnuthD

  function Signed(neg: bool, v: int): int
  {
    if neg then -v else v
  }

  datatype BigInt = BigInt(neg: bool, mag: seq<u32>)
  {
    /** No zero limb at the top, and zero is not negative. */
    predicate Canonical()
    {
      Trimmed(mag) && (neg ==> |mag| > 0)
    }

    ghost function Int(): int
    {
      Signed(neg, Val(mag))
    }

    predicate IsZero()
    {
      |mag| == 0
    }
  }

  const ZERO := BigInt(false, [])

  lemma ZeroMagnitude(x: BigInt)
    requires x.Canonical()
    ensures x.IsZero() <==> x.Int() == 0
    ensures x.neg <==> x.Int() < 0
    ensures x.Int() == 0 <==> x == ZERO
  {
    if |x.mag| > 0 {
      TrimmedBound(x.mag);
      ScaleGrows(0, |x.mag| - 1, 1);
    }
  }

  /** Canonical forms are equal exactly when the integers are. */
  lemma EqualityIsIntegerEquality(x: BigInt, y: BigInt)
    requires x.Canonical() && y.Canonical()
    ensures x == y <==> x.Int() == y.Int()
  {
    ZeroMagnitude(x);
    ZeroMagnitude(y);
    if x.Int() == y.Int() {
      ValInjective(x.mag, y.mag);
    }
  }

  method Make(neg: bool, mag: seq<u32>) returns (r: BigInt)
    ensures r.Canonical() && r.Int() == Signed(neg, Val(mag))
  {
    var m := Trim(mag);
    r := BigInt(neg && |m| > 0, m);
  }

  method FromSignU64(neg: bool, u: u64) returns (r: BigInt)
    ensures r.Canonical() && r.Int() == Signed(neg, u as int)
  {
    var lo, hi := (u as int % BASE) as u32, (u / 0x1_0000_0000) as u32;
    TwoLimbValue(lo, hi);
    r := Make(neg, [lo, hi]);
  }

  lemma TwoLimbValue(lo: u32, hi: u32)
    ensures Val([lo, hi]) == lo as int + BASE * hi as int
  {
    assert [lo, hi][1..] == [hi];
    assert Val([hi]) == hi as int;
  }

  method FromI64(v: i64) returns (r: BigInt)
    ensures r.Canonical() && r.Int() == v as int
  {
    r := FromSignU64(v < 0, (if v < 0 then -(v as int) else v as int) as u64);
  }

  method FromU64(v: u64) returns (r: BigInt)
    ensures r.Canonical() && r.Int() == v as int
  {
    r := FromSignU64(false, v);
  }

  /** The value of a magnitude of at most two limbs. */
  method LowWord(mag: seq<u32>) returns (u: u64)
    requires |mag| <= 2
    ensures u as int == Val(mag)
  {
    if |mag| == 0 { return 0; }
    if |mag| == 1 {
      JoinValue(0, mag[0]);
      assert mag == [mag[0]];
      return Join(0, mag[0]);
    }
    JoinValue(mag[1], mag[0]);
    TwoLimbValue(mag[0], mag[1]);
    assert mag == [mag[0], mag[1]];
    return Join(mag[1], mag[0]);
  }

  lemma ThreeLimbsTooLarge(mag: seq<u32>)
    requires Trimmed(mag) && |mag| > 2
    ensures Val(mag) >= BASE * BASE
  {
    TrimmedBound(mag);
    ScaleGrows(2, |mag| - 1, 1);
    assert Scale(2, 1) == BASE * Scale(1, 1) == BASE * BASE;
  }

  /** The value as a 64-bit integer, exactly when it is one. */
  method ToI64(x: BigInt) returns (r: Option<i64>)
    requires x.Canonical()
    ensures r.Some? <==> -0x8000_0000_0000_0000 <= x.Int() < 0x8000_0000_0000_0000
    ensures r.Some? ==> r.value as int == x.Int()
  {
    if |x.mag| == 0 { return Some(0); }
    if |x.mag| > 2 {
      ThreeLimbsTooLarge(x.mag);
      return None;
    }
    var u := LowWord(x.mag);
    var limit: u64 := 0x7FFF_FFFF_FFFF_FFFF + if x.neg then 1 else 0;
    if u > limit { return None; }
    if x.neg {
      return Some(if u == 0x8000_0000_0000_0000 then -0x8000_0000_0000_0000 else -(u as i64));
    }
    return Some(u as i64);
  }

  method ToU64(x: BigInt) returns (r: Option<u64>)
    requires x.Canonical()
    ensures r.Some? <==> 0 <= x.Int() < BASE * BASE
    ensures r.Some? ==> r.value as int == x.Int()
  {
    ZeroMagnitude(x);
    if x.neg { return None; }
    if |x.mag| > 2 {
      ThreeLimbsTooLarge(x.mag);
      return None;
    }
    var u := LowWord(x.mag);
    return Some(u);
  }

  function Sign(x: BigInt): int
  {
    if |x.mag| == 0 then 0 else if x.neg then -1 else 1
  }

  method Cmp(x: BigInt, y: BigInt) returns (o: Ordering)
    requires x.Canonical() && y.Canonical()
    ensures o == Compare(x.Int(), y.Int())
  {
    ZeroMagnitude(x);
    ZeroMagnitude(y);
    if Sign(x) != Sign(y) {
      return Compare(Sign(x), Sign(y));
    }
    o := UCmp(x.mag, y.mag);
    if Sign(x) < 0 {
      o := match o case Less => Greater case Equal => Equal case Greater => Less;
    }
  }

  method Neg(x: BigInt) returns (r: BigInt)
    ensures r.Canonical() && r.Int() == -x.Int()
  {
    r := Make(!x.neg, x.mag);
  }

  function Abs(x: BigInt): BigInt
  {
    BigInt(false, x.mag)
  }

  method Add(x: BigInt, y: BigInt) returns (r: BigInt)
    requires x.Canonical() && y.Canonical()
    ensures r.Canonical() && r.Int() == x.Int() + y.Int()
  {
    if x.neg == y.neg {
      var m := UAdd(x.mag, y.mag);
      r := Make(x.neg, m);
    } else {
      var o := UCmp(x.mag, y.mag);
      match o
      case Equal => r := ZERO;
      case Greater =>
        var m := USub(x.mag, y.mag);
        r := Make(x.neg, m);
      case Less =>
        var m := USub(y.mag, x.mag);
        r := Make(y.neg, m);
    }
  }

  method Sub(x: BigInt, y: BigInt) returns (r: BigInt)
    requires x.Canonical() && y.Canonical()
    ensures r.Canonical() && r.Int() == x.Int() - y.Int()
  {
    var n := Neg(y);
    r := Add(x, n);
  }

  method Mul(x: BigInt, y: BigInt) returns (r: BigInt)
    ensures r.Canonical() && r.Int() == x.Int() * y.Int()
  {
    var m := UMul(x.mag, y.mag);
    r := Make(x.neg != y.neg, m);
    SignedProduct(x.neg, Val(x.mag), y.neg, Val(y.mag));
  }

  lemma SignedProduct(s: bool, x: int, t: bool, y: int)
    ensures Signed(s, x) * Signed(t, y) == Signed(s != t, x * y)
  {
  }

  /** Division toward zero: the remainder has the sign of the dividend. */
  ghost predicate IsTruncDivMod(a: int, b: int, q: int, r: int)
  {
    && a == b * q + r
    && (if r < 0 then -r else r) < (if b < 0 then -b else b)
    && (r != 0 ==> (r < 0 <==> a < 0))
  }

  /** Division toward negative infinity: the remainder has the sign of the divisor. */
  ghost predicate IsFloorDivMod(a: int, b: int, q: int, r: int)
  {
    && a == b * q + r
    && (b > 0 ==> 0 <= r < b)
    && (b < 0 ==> b < r <= 0)
    && b != 0
  }

  /** Each kind of division has one answer. */
  lemma TruncDivModUnique(a: int, b: int, q: int, r: int, q': int, r': int)
    requires IsTruncDivMod(a, b, q, r) && IsTruncDivMod(a, b, q', r')
    ensures q == q' && r == r'
  {
    MultipleOfDivisor(b, q - q', r' - r) by { Distribute(b, q, q'); }
  }

  lemma FloorDivModUnique(a: int, b: int, q: int, r: int, q': int, r': int)
    requires IsFloorDivMod(a, b, q, r) && IsFloorDivMod(a, b, q', r')
    ensures q == q' && r == r'
  {
    MultipleOfDivisor(b, q - q', r' - r) by { Distribute(b, q, q'); }
  }

  /** A multiple of `b` nearer to zero than `b` is zero. */
  lemma MultipleOfDivisor(b: int, k: int, d: int)
    requires b != 0 && d == b * k
    requires if b < 0 then b < d < -b else -b < d < b
    ensures k == 0 && d == 0
  {
    if k > 0 {
      if b > 0 { MulMono(b, 1, k); } else { MulMono(-b, 1, k); }
    } else if k < 0 {
      if b > 0 { MulMono(b, k, -1); } else { MulMono(-b, k, -1); }
    }
  }

  method DivModTrunc(x: BigInt, y: BigInt) returns (q: BigInt, r: BigInt)
    requires x.Canonical() && y.Canonical() && !y.IsZero()
    ensures q.Canonical() && r.Canonical()
    ensures IsTruncDivMod(x.Int(), y.Int(), q.Int(), r.Int())
  {
    ZeroMagnitude(x);
    var qm, rm := KnuthD.UDivMod(x.mag, y.mag);
    q := Make(x.neg != y.neg, qm);
    r := Make(x.neg, rm);
    SignedProduct(y.neg, Val(y.mag), x.neg != y.neg, Val(qm));
  }

  method DivModFloor(x: BigInt, y: BigInt) returns (q: BigInt, r: BigInt)
    requires x.Canonical() && y.Canonical() && !y.IsZero()
    ensures q.Canonical() && r.Canonical()
    ensures IsFloorDivMod(x.Int(), y.Int(), q.Int(), r.Int())
  {
    ZeroMagnitude(x);
    ZeroMagnitude(y);
    q, r := DivModTrunc(x, y);
    ZeroMagnitude(r);
    if !r.IsZero() && x.neg != y.neg {
      Distribute(y.Int(), q.Int(), 1);
      var one := FromI64(1);
      q := Sub(q, one);
      r := Add(r, y);
    }
  }

  method Shl(x: BigInt, n: nat) returns (r: BigInt)
    ensures r.Canonical() && r.Int() == x.Int() * Pow2(n)
  {
    var m := UShl(x.mag, n / 32, n % 32);
    r := Make(x.neg, m);
    ShiftedValue(n, Val(x.mag));
    SignedProduct(x.neg, Val(x.mag), false, Pow2(n));
  }

  lemma ShiftFactor(n: nat)
    ensures Scale(n / 32, Pow2(n % 32)) == Pow2(n)
  {
    ScalePow2(n / 32, n % 32);
    assert n % 32 + 32 * (n / 32) == n;
  }

  lemma ShiftedValue(n: nat, v: int)
    ensures Scale(n / 32, Pow2(n % 32) * v) == v * Pow2(n)
  {
    ShiftFactor(n);
    ScaleMul(n / 32, v, Pow2(n % 32));
  }

  /** An arithmetic shift: division by a power of two, rounding down. */
  method Shr(x: BigInt, n: nat) returns (r: BigInt)
    requires x.Canonical()
    ensures r.Canonical() && r.Int() == x.Int() / Pow2(n)
  {
    var m := UShr(x.mag, n / 32, n % 32);
    ShiftFactor(n);
    r := Make(x.neg, m);
    if x.neg {
      var inexact := ShiftedOutBits(x, m, n);
      NegatedQuotient(Val(x.mag), Pow2(n), Val(m), Val(m) * Pow2(n));
      if inexact {
        var one := FromI64(1);
        r := Sub(r, one);
      }
    }
  }

  /** Whether shifting `m`, what is left of `x`, back up gives something else. */
  method ShiftedOutBits(x: BigInt, m: seq<u32>, n: nat) returns (inexact: bool)
    requires x.Canonical()
    ensures inexact <==> Val(m) * Pow2(n) != Val(x.mag)
  {
    hide Val, Pow2;
    var v := Make(false, m);
    var back := Shl(v, n);
    ZeroMagnitude(back);
    SignedProduct(false, Val(m), false, Pow2(n));
    var o := UCmp(back.mag, x.mag);
    inexact := o != Equal;
  }

  /** The quotient of a negative number: one lower unless the division is exact. */
  lemma NegatedQuotient(v: int, p: int, q: int, back: int)
    requires p > 0 && q == v / p && back == q * p
    ensures -v / p == -q - if back == v then 0 else 1
  {
    var m := v % p;
    assert v == p * q + m;
    if m == 0 {
      DivModUnique(-v, p, -q, 0);
    } else {
      Distribute(p, -q, 1);
      DivModUnique(-v, p, -q - 1, p - m);
    }
  }

  method BitLength(x: BigInt) returns (n: nat)
    requires x.Canonical()
    ensures x.IsZero() ==> n == 0
    ensures !x.IsZero() ==> n > 0 && Pow2(n - 1) <= Val(x.mag) < Pow2(n)
  {
    if |x.mag| == 0 { return 0; }
    var k := |x.mag| - 1;
    var z := LeadingZeros(x.mag[k]);
    n := k * 32 + (32 - z);
    TopBit(x.mag, z);
  }

  lemma TopBit(mag: seq<u32>, z: nat)
    requires |mag| > 0 && z < 32 && 0x8000_0000 <= Pow2(z) * mag[|mag| - 1] as int < BASE
    ensures var n := (|mag| - 1) * 32 + (32 - z); Pow2(n - 1) <= Val(mag) < Pow2(n)
  {
    var k, top := |mag| - 1, mag[|mag| - 1] as int;
    KnuthD.TopLimbRange(mag);
    TopBitOfWord(top, z);
    ScaledTopBit(k, 31 - z, top);
  }

  lemma ScaledTopBit(k: nat, i: nat, top: int)
    requires Pow2(i) <= top < Pow2(i + 1)
    ensures Pow2(i + 32 * k) <= Scale(k, top)
    ensures Scale(k, top + 1) <= Pow2(i + 1 + 32 * k)
  {
    ScaleMono(k, Pow2(i), top);
    ScaleMono(k, top + 1, Pow2(i + 1));
    ScalePow2(k, i);
    ScalePow2(k, i + 1);
  }
}
