/** `&`, `|`, `^` and `~` on sign and magnitude numbers, as on infinite two's complement. */
module BitOps {
  import opened Words
  import opened Limbs
  import opened Bits
  import opened LimbBits
  import opened Magnitude
  import opened BigInts

  /** `r` is the bitwise operation on the infinite two's complement forms. */
  ghost predicate IsBitwise(op: BitOp, x: int, y: int, r: int)
  {
    forall i: nat :: Bit(r, i) == OnBits(op, Bit(x, i), Bit(y, i))
  }

  ghost predicate SameBits(x: int, y: int)
  {
    forall i: nat :: Bit(x, i) == Bit(y, i)
  }

  /** An integer is determined by its bits, so the operation has one result. */
  lemma {:induction false} BitsDetermine(x: int, y: int)
    requires SameBits(x, y)
    ensures x == y
    decreases if x < 0 then -x else x, if y < 0 then -y else y
  {
    assert x % 2 == Bit(x, 0) == Bit(y, 0) == y % 2;
    forall i: nat ensures Bit(x / 2, i) == Bit(y / 2, i) {
      assert Bit(x, i + 1) == Bit(y, i + 1);
    }
    if (x != 0 && x != -1) || (y != 0 && y != -1) {
      BitsDetermine(x / 2, y / 2);
    }
  }

  /** From bit `k` on, a number of magnitude at most 2^k has only its sign. */
  lemma {:induction false} SignBits(x: int, k: nat, i: nat)
    requires 0 - Pow2(k) <= x < Pow2(k) && k <= i
    ensures Bit(x, i) == if x < 0 then 1 else 0
    decreases i
  {
    if k == 0 {
      ConstantBits(x, i);
    } else {
      SignBits(x / 2, k - 1, i - 1);
    }
  }

  lemma {:induction false} ConstantBits(x: int, i: nat)
    requires x == 0 || x == -1
    ensures Bit(x, i) == -x
    decreases i
  {
    if i > 0 { ConstantBits(x, i - 1); }
  }

  lemma {:induction false} BitOfCombine(op: BitOp, x: nat, y: nat, i: nat)
    ensures Bit(Combine(op, x, y), i) == OnBits(op, Bit(x, i), Bit(y, i))
    decreases i
  {
    if x == 0 && y == 0 {
      ConstantBits(0, i);
    } else if i > 0 {
      BitOfCombine(op, x / 2, y / 2, i - 1);
    }
  }

  function CombineLimb(op: BitOp, x: u32, y: u32): u32
  {
    Pow2Values();
    CombineBound(op, x as int, y as int, 32);
    Combine(op, x as int, y as int) as u32
  }

  /** `k` bits that are all `s`. */
  function AllBits(s: bool, k: nat): nat
  {
    if s then Pow2(k) - 1 else 0
  }

  function BitOfBool(s: bool): nat
  {
    if s then 1 else 0
  }

  /** Words that are all zeros or all ones combine to one of the two. */
  lemma {:induction false} CombineConstant(op: BitOp, s: bool, t: bool, k: nat)
    ensures Combine(op, AllBits(s, k), AllBits(t, k)) == AllBits(OnBits(op, BitOfBool(s), BitOfBool(t)) == 1, k)
    decreases k
  {
    if k > 0 {
      CombineConstant(op, s, t, k - 1);
    }
  }

  // ---------------------------------------------------------------- two's complement limbs

  /** One limb of a negation: the complement plus a carry that lives on while limbs are zero. */
  function TwoComp(v: u32, c: bool): (u32, bool)
  {
    var t := ((BASE - 1 - v as int + if c then 1 else 0) % BASE) as u32;
    (t, t == 0 && c)
  }

  lemma TwoCompStep(i: nat, v: u32, c: bool)
    ensures var (t, c') := TwoComp(v, c);
      Scale(i, t as int) + Scale(i, v as int) == Scale(i + 1, if c' then 0 else 1) - Scale(i, if c then 0 else 1)
  {
    var (t, c') := TwoComp(v, c);
    ScaleMono(i, 0, 0);
    ScaleMono(i + 1, 0, 0);
    ScaleUp(i, 1);
    ScaleAdd(i, t as int, v as int);
    if !c { ScaleSub(i, BASE, 1); }
  }

  /** Negation modulo the weight above the limbs. */
  method Complement(v: seq<u32>) returns (z: seq<u32>)
    ensures |z| == |v|
    ensures Val(z) + Val(v) == if Val(v) == 0 then 0 else Scale(|v|, 1)
  {
    z := v;
    var carry := true;
    for i := 0 to |v|
      invariant |z| == |v| && z[i..] == v[i..]
      invariant Val(z[..i]) + Val(v[..i]) == Scale(i, if carry then 0 else 1)
      invariant carry ==> Val(v[..i]) == 0
      invariant !carry ==> Val(v[..i]) > 0
    {
      assert z[i] == v[i] by { assert z[i..][0] == v[i..][0]; }
      var (t, c) := TwoComp(z[i], carry);
      TwoCompStep(i, v[i], carry);
      ValSnoc(z[..i], t);
      ValTake(v, i);
      ScaleMono(i, 0, v[i] as int);
      assert z[i := t][..i + 1] == z[..i] + [t];
      assert z[i := t][i + 1..] == v[i..][1..] && v[i + 1..] == v[i..][1..];
      z := z[i := t];
      carry := c;
    }
    assert z[..|v|] == z && v[..|v|] == v;
    ScaleMono(|v|, 0, 0);
  }

  /** `v` stands for `x` modulo the weight above its limbs. */
  ghost predicate Represents(v: seq<u32>, x: int)
  {
    exists high: int :: x == Val(v) + Scale(|v|, high)
  }

  /** The value as `n` two's complement limbs. */
  method Twos(x: BigInt, n: nat) returns (v: seq<u32>)
    requires x.Canonical() && |x.mag| < n
    ensures |v| == n && Represents(v, x.Int())
    ensures v[n - 1] as int == if x.neg then BASE - 1 else 0
  {
    var padded := x.mag + seq(n - |x.mag|, _ => 0);
    ValConcat(x.mag, seq(n - |x.mag|, _ => 0));
    ValZeros(seq(n - |x.mag|, _ => 0));
    ScaleMono(|x.mag|, 0, 0);
    ScaleMono(n, 0, 0);
    assert Val(padded) == Val(x.mag);
    if !x.neg {
      assert x.Int() == Val(padded) + Scale(n, 0);
      return padded;
    }
    v := Complement(padded);
    ZeroMagnitude(x);
    ScaleSub(n, 0, 1);
    assert x.Int() == Val(v) + Scale(n, -1);
    TopOfComplement(v, padded);
  }

  lemma TopOfComplement(z: seq<u32>, v: seq<u32>)
    requires |z| == |v| > 0 && v[|v| - 1] == 0 && Val(v) > 0
    requires Val(z) + Val(v) == Scale(|v|, 1)
    ensures z[|z| - 1] as int == BASE - 1
  {
    var k, top := |v| - 1, z[|v| - 1] as int;
    ValTake(v, k);
    ValTake(z, k);
    assert v[..k + 1] == v && z[..k + 1] == z;
    ScaleMono(k, 0, 0);
    ValBound(v[..k]);
    ValBound(z[..k]);
    ScaleUp(k, 1);
    ScaleAdd(k, top, 2);
    ScaleAdd(k, 1, 1);
    ScaleMono(k, top + 2, BASE);
  }

  lemma RepresentedBits(v: seq<u32>, x: int, i: nat)
    requires Represents(v, x) && i < 32 * |v|
    ensures Bit(x, i) == Bit(Val(v), i) == Bit(v[i / 32] as int, i % 32)
  {
    var high: int :| x == Val(v) + Scale(|v|, high);
    ScaleAsPow2(|v|, high);
    BitLow(Val(v), 32 * |v|, high, i);
    BitOfLimb(v, i);
  }

  // ---------------------------------------------------------------- the operations

  /** Both operands as two's complement one limb wider than the longer one. */
  method BitOperation(x: BigInt, y: BigInt, op: BitOp) returns (r: BigInt)
    requires x.Canonical() && y.Canonical()
    ensures r.Canonical() && IsBitwise(op, x.Int(), y.Int(), r.Int())
  {
    var n := (if |x.mag| > |y.mag| then |x.mag| else |y.mag|) + 1;
    var a := Twos(x, n);
    var b := Twos(y, n);
    var z := seq(n, i requires 0 <= i < n => CombineLimb(op, a[i], b[i]));
    TopLimb(op, x.neg, y.neg, a[n - 1], b[n - 1]);
    var neg := z[n - 1] != 0;
    ghost var w := Val(z);
    ValBound(z);
    ScaleMono(n, 0, 0);
    ScaleSub(n, 0, 1);
    var m := z;
    if neg {
      m := Complement(z);
      NonZeroLimb(z, n - 1);
    }
    ghost var result := w + Scale(n, if neg then -1 else 0);
    assert Signed(neg, Val(m)) == result;
    assert Represents(z, result);
    OperationBits(op, x, y, a, b, z, result, neg);
    r := Make(neg, m);
  }

  lemma NonZeroLimb(z: seq<u32>, i: nat)
    requires i < |z| && z[i] != 0
    ensures Val(z) > 0
  {
    if Val(z) == 0 { ZeroLimbs(z); }
  }

  lemma TopLimb(op: BitOp, s: bool, t: bool, a: u32, b: u32)
    requires a as int == if s then BASE - 1 else 0
    requires b as int == if t then BASE - 1 else 0
    ensures CombineLimb(op, a, b) != 0 <==> OnBits(op, BitOfBool(s), BitOfBool(t)) == 1
  {
    Pow2Values();
    CombineConstant(op, s, t, 32);
  }

  lemma OperationBits(op: BitOp, x: BigInt, y: BigInt, a: seq<u32>, b: seq<u32>, z: seq<u32>, r: int, neg: bool)
    requires x.Canonical() && y.Canonical()
    requires |x.mag| < |z| && |y.mag| < |z| && |a| == |b| == |z|
    requires Represents(a, x.Int()) && Represents(b, y.Int()) && Represents(z, r)
    requires forall i :: 0 <= i < |z| ==> z[i] == CombineLimb(op, a[i], b[i])
    requires neg <==> OnBits(op, BitOfBool(x.neg), BitOfBool(y.neg)) == 1
    requires if neg then -Scale(|z|, 1) <= r < 0 else 0 <= r < Scale(|z|, 1)
    ensures IsBitwise(op, x.Int(), y.Int(), r)
  {
    var k := 32 * |z|;
    forall i: nat ensures Bit(r, i) == OnBits(op, Bit(x.Int(), i), Bit(y.Int(), i)) {
      if i < k {
        RepresentedBits(z, r, i);
        RepresentedBits(a, x.Int(), i);
        RepresentedBits(b, y.Int(), i);
        BitOfCombine(op, a[i / 32] as int, b[i / 32] as int, i % 32);
      } else {
        SignOfBigInt(x, |z|, i);
        SignOfBigInt(y, |z|, i);
        ScaleAsPow2(|z|, 1);
        SignBits(r, k, i);
      }
    }
  }

  lemma SignOfBigInt(x: BigInt, n: nat, i: nat)
    requires x.Canonical() && |x.mag| <= n && 32 * n <= i
    ensures Bit(x.Int(), i) == if x.neg then 1 else 0
  {
    ZeroMagnitude(x);
    ValBound(x.mag);
    ScaleGrows(|x.mag|, n, 1);
    ScaleAsPow2(n, 1);
    SignBits(x.Int(), 32 * n, i);
  }

  /** Two magnitudes combined limb by limb, the shorter one padded with zeros. */
  method CombineMagnitudes(x: BigInt, y: BigInt, op: BitOp, n: nat) returns (r: BigInt)
    requires !x.neg && !y.neg
    requires n == (if |x.mag| > |y.mag| then |x.mag| else |y.mag|)
          || (op == And && n == (if |x.mag| < |y.mag| then |x.mag| else |y.mag|))
    ensures r.Canonical() && IsBitwise(op, x.Int(), y.Int(), r.Int())
  {
    var z := seq(n, i requires 0 <= i < n => CombineLimb(op, LimbAt(x.mag, i), LimbAt(y.mag, i)));
    r := Make(false, z);
    forall i: nat ensures Bit(Val(z), i) == OnBits(op, Bit(Val(x.mag), i), Bit(Val(y.mag), i)) {
      BitOfLimb(z, i);
      BitOfLimb(x.mag, i);
      BitOfLimb(y.mag, i);
      ConstantBits(0, i % 32);
      BitOfCombine(op, LimbAt(x.mag, i / 32) as int, LimbAt(y.mag, i / 32) as int, i % 32);
    }
  }

  lemma WithZero(x: int)
    ensures IsBitwise(And, 0, x, 0) && IsBitwise(And, x, 0, 0)
    ensures IsBitwise(Or, 0, x, x) && IsBitwise(Or, x, 0, x)
    ensures IsBitwise(Xor, 0, x, x) && IsBitwise(Xor, x, 0, x)
  {
    forall i: nat ensures Bit(0, i) == 0 {
      ConstantBits(0, i);
    }
  }

  /** The three operations on single bits, in arithmetic. */
  lemma OnBitsInArithmetic(a: int, b: int)
    requires 0 <= a <= 1 && 0 <= b <= 1
    ensures OnBits(And, a, b) == a * b
    ensures OnBits(Or, a, b) == a + b - a * b
    ensures OnBits(Xor, a, b) == (a + b) % 2
  {
  }

  lemma BitwiseInArithmetic(op: BitOp, x: int, y: int, r: int)
    requires IsBitwise(op, x, y, r)
    ensures op == And ==> forall i: nat :: Bit(r, i) == Bit(x, i) * Bit(y, i)
    ensures op == Or ==> forall i: nat :: Bit(r, i) == Bit(x, i) + Bit(y, i) - Bit(x, i) * Bit(y, i)
    ensures op == Xor ==> forall i: nat :: Bit(r, i) == (Bit(x, i) + Bit(y, i)) % 2
  {
    forall i: nat
      ensures Bit(r, i) == OnBits(op, Bit(x, i), Bit(y, i))
      ensures OnBits(And, Bit(x, i), Bit(y, i)) == Bit(x, i) * Bit(y, i)
      ensures OnBits(Or, Bit(x, i), Bit(y, i)) == Bit(x, i) + Bit(y, i) - Bit(x, i) * Bit(y, i)
      ensures OnBits(Xor, Bit(x, i), Bit(y, i)) == (Bit(x, i) + Bit(y, i)) % 2
    {
      OnBitsInArithmetic(Bit(x, i), Bit(y, i));
    }
  }

  method BitAnd(x: BigInt, y: BigInt) returns (r: BigInt)
    requires x.Canonical() && y.Canonical()
    ensures r.Canonical() && IsBitwise(And, x.Int(), y.Int(), r.Int())
    ensures forall i: nat :: Bit(r.Int(), i) == Bit(x.Int(), i) * Bit(y.Int(), i)
  {
    if x.IsZero() || y.IsZero() {
      WithZero(x.Int());
      WithZero(y.Int());
      r := ZERO;
    } else if !x.neg && !y.neg {
      r := CombineMagnitudes(x, y, And, if |x.mag| < |y.mag| then |x.mag| else |y.mag|);
    } else {
      r := BitOperation(x, y, And);
    }
    BitwiseInArithmetic(And, x.Int(), y.Int(), r.Int());
  }

  method BitOr(x: BigInt, y: BigInt) returns (r: BigInt)
    requires x.Canonical() && y.Canonical()
    ensures r.Canonical() && IsBitwise(Or, x.Int(), y.Int(), r.Int())
    ensures forall i: nat ::
      Bit(r.Int(), i) == Bit(x.Int(), i) + Bit(y.Int(), i) - Bit(x.Int(), i) * Bit(y.Int(), i)
  {
    WithZero(x.Int());
    WithZero(y.Int());
    if x.IsZero() {
      r := y;
    } else if y.IsZero() {
      r := x;
    } else if !x.neg && !y.neg {
      r := CombineMagnitudes(x, y, Or, if |x.mag| > |y.mag| then |x.mag| else |y.mag|);
    } else {
      r := BitOperation(x, y, Or);
    }
    BitwiseInArithmetic(Or, x.Int(), y.Int(), r.Int());
  }

  method BitXor(x: BigInt, y: BigInt) returns (r: BigInt)
    requires x.Canonical() && y.Canonical()
    ensures r.Canonical() && IsBitwise(Xor, x.Int(), y.Int(), r.Int())
    ensures forall i: nat :: Bit(r.Int(), i) == (Bit(x.Int(), i) + Bit(y.Int(), i)) % 2
  {
    WithZero(x.Int());
    WithZero(y.Int());
    if x.IsZero() {
      r := y;
    } else if y.IsZero() {
      r := x;
    } else if !x.neg && !y.neg {
      r := CombineMagnitudes(x, y, Xor, if |x.mag| > |y.mag| then |x.mag| else |y.mag|);
    } else {
      r := BitOperation(x, y, Xor);
    }
    BitwiseInArithmetic(Xor, x.Int(), y.Int(), r.Int());
  }

  /** `~x` is `-x - 1`, which flips every bit. */
  method BitNot(x: BigInt) returns (r: BigInt)
    requires x.Canonical()
    ensures r.Canonical() && r.Int() == -x.Int() - 1
    ensures forall i: nat :: Bit(r.Int(), i) == 1 - Bit(x.Int(), i)
  {
    var n := Neg(x);
    var one := FromI64(1);
    r := Sub(n, one);
    forall i: nat ensures Bit(-x.Int() - 1, i) == 1 - Bit(x.Int(), i) {
      FlippedBit(x.Int(), i);
    }
  }

  lemma {:induction false} FlippedBit(x: int, i: nat)
    ensures Bit(-x - 1, i) == 1 - Bit(x, i)
    decreases i
  {
    assert (-x - 1) / 2 == -(x / 2) - 1;
    if i > 0 { FlippedBit(x / 2, i - 1); }
  }
}
