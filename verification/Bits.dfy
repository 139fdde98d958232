/** Bits of integers and of words. */
module Bits {
  import opened Words

  datatype BitOp = And | Or | Xor

  /** Bit `i` of the infinite two's complement form of `x`: halving rounds down. */
  function Bit(x: int, i: nat): (b: int)
    ensures 0 <= b <= 1
    decreases i
  {
    if i == 0 then x % 2 else Bit(x / 2, i - 1)
  }

  /** The bit as a quotient: floor(x / 2^i) mod 2. */
  lemma {:induction false} BitIsQuotient(x: int, i: nat)
    ensures Bit(x, i) == x / Pow2(i) % 2
    decreases i
  {
    if i > 0 {
      BitIsQuotient(x / 2, i - 1);
      QuotientInSteps(x, Pow2(i - 1));
    }
  }

  lemma QuotientInSteps(x: int, p: nat)
    requires p > 0
    ensures x / 2 / p == x / (2 * p)
  {
    var q, r := x / 2 / p, x / 2 % p;
    assert x / 2 == p * q + r;
    DivModUnique(x, 2 * p, q, 2 * r + x % 2);
  }

  /** The operation on two single bits. */
  function OnBits(op: BitOp, a: int, b: int): nat
    requires 0 <= a <= 1 && 0 <= b <= 1
  {
    match op
    case And => if a == 1 && b == 1 then 1 else 0
    case Or => if a == 1 || b == 1 then 1 else 0
    case Xor => if a != b then 1 else 0
  }

  /** The operation on two words, bit by bit. */
  function Combine(op: BitOp, x: nat, y: nat): nat
    decreases x + y
  {
    if x == 0 && y == 0 then 0
    else OnBits(op, x % 2, y % 2) + 2 * Combine(op, x / 2, y / 2)
  }

  lemma {:induction false} CombineBound(op: BitOp, x: nat, y: nat, k: nat)
    requires x < Pow2(k) && y < Pow2(k)
    ensures Combine(op, x, y) < Pow2(k)
    decreases k
  {
    if k > 0 {
      CombineBound(op, x / 2, y / 2, k - 1);
    }
  }

  /** An `|` of words without a common bit is a sum. */
  lemma {:induction false} OrDisjoint(x: nat, y: nat, k: nat)
    requires y < Pow2(k)
    ensures Combine(Or, Pow2(k) * x, y) == Pow2(k) * x + y
    decreases k
  {
    if k == 0 {
      OrZero(x);
    } else {
      var p := Pow2(k - 1);
      assert Pow2(k) * x == 2 * (p * x);
      OrDisjoint(x, y / 2, k - 1);
    }
  }

  lemma {:induction false} OrZero(x: nat)
    ensures Combine(Or, x, 0) == x
  {
    if x > 0 {
      OrZero(x / 2);
    }
  }

  function Or32(x: u32, y: u32): u32
  {
    Pow2Values();
    CombineBound(Or, x as int, y as int, 32);
    Combine(Or, x as int, y as int) as u32
  }

  /** `x << k` on a limb: the bits shifted past the top are lost. */
  function Shl32(x: u32, k: nat): u32
  {
    (x as int * Pow2(k) % BASE) as u32
  }

  function Shr32(x: u32, k: nat): u32
  {
    DivAtMost(x as int, Pow2(k));
    (x as int / Pow2(k)) as u32
  }

  lemma DivAtMost(x: nat, d: nat)
    requires d > 0
    ensures 0 <= x / d <= x
  {
    MulMono(x + 1, 1, d);
    QuotientBelow(x, d, x + 1);
  }

  /** Multiplying by `p` modulo `p * c`: the part of `x` above `c` goes out at the top. */
  lemma ShiftSplits(x: nat, p: nat, c: nat)
    requires p > 0 && c > 0
    ensures p * c > 0 && 0 <= x % c < c && 0 <= p * (x % c) && p * (x % c) + p <= p * c
    ensures x * p == p * c * (x / c) + p * (x % c)
    ensures x * p % (p * c) == p * (x % c)
  {
    var hi, rest := x / c, x % c;
    assert x == c * hi + rest;
    assert x * p == p * c * hi + p * rest by {
      assert (c * hi + rest) * p == (c * hi) * p + rest * p;
      assert (c * hi) * p == p * c * hi;
    }
    MulMono(p, 1, c);
    MulMono(p, rest + 1, c);
    MulMono(p, 0, rest);
    DivModUnique(x * p, p * c, hi, p * rest);
  }

  lemma HalvesOfLimb(k: nat)
    requires k <= 32
    ensures Pow2(k) * Pow2(32 - k) == BASE
  {
    Pow2Add(k, 32 - k);
    Pow2Values();
  }

  /** Shifting one limb left by `k` with a carry coming in from below: the limb written
      and the bits carried out are the two halves of one sum. */
  lemma ShiftLeftStep(x: u32, k: nat, carry: u32)
    requires 0 < k < 32 && carry as int < Pow2(k)
    ensures x as int * Pow2(k) + carry as int
         == Or32(Shl32(x, k), carry) as int + BASE * Shr32(x, 32 - k) as int
    ensures Shr32(x, 32 - k) as int < Pow2(k)
  {
    var p, c := Pow2(k), Pow2(32 - k);
    HalvesOfLimb(k);
    ShiftSplits(x as int, p, c);
    var rest: nat := x as int % c;
    assert Or32(Shl32(x, k), carry) as int == p * rest + carry as int by {
      OrDisjoint(rest, carry as int, k);
    }
    assert p * c == c * p;
    QuotientBelow(x as int, c, p);
  }

  /** Shifting one limb right by `k` with the low bits of the limb above coming in. */
  lemma ShiftRightStep(x: u32, k: nat, above: u32)
    requires 0 < k < 32
    ensures Or32(Shr32(x, k), Shl32(above, 32 - k)) as int
         == x as int / Pow2(k) + Pow2(32 - k) * (above as int % Pow2(k))
  {
    var p, c := Pow2(k), Pow2(32 - k);
    HalvesOfLimb(k);
    assert c * p == p * c;
    ShiftSplits(above as int, c, p);
    QuotientBelow(x as int, p, c);
    var rest, low: nat := above as int % p, x as int / p;
    OrDisjoint(rest, low, 32 - k);
    OrCommutes(low, c * rest);
  }

  lemma {:induction false} OrCommutes(x: nat, y: nat)
    ensures Combine(Or, x, y) == Combine(Or, y, x)
    decreases x + y
  {
    if x > 0 || y > 0 {
      OrCommutes(x / 2, y / 2);
    }
  }

  /** `u32::leading_zeros`. */
  function LeadingZeros(x: u32): (k: nat)
    ensures k <= 32 && (x > 0 ==> k < 32 && 0x8000_0000 <= Pow2(k) * x as int < BASE)
    decreases BASE - x as int
  {
    if x == 0 then 32
    else if x >= 0x8000_0000 then 0
    else
      var k := LeadingZeros(2 * x);
      assert Pow2(k + 1) * x as int == Pow2(k) * (2 * x) as int;
      Pow2Bound(k, (2 * x) as int);
      1 + k
  }

  lemma Pow2Bound(k: nat, x: int)
    requires x >= 2 && Pow2(k) * x < BASE
    ensures k < 31
  {
    if k >= 31 {
      Pow2Monotone(31, k);
      Pow2Values();
      MulMono(Pow2(k), 2, x);
    }
  }

  lemma TopBitOfWord(x: nat, z: nat)
    requires z < 32 && 0x8000_0000 <= Pow2(z) * x < BASE
    ensures Pow2(31 - z) <= x < Pow2(32 - z)
  {
    HalvesOfLimb(z);
    Pow2Add(z, 31 - z);
    Pow2Values();
    if x < Pow2(31 - z) { MulMono(Pow2(z), x + 1, Pow2(31 - z)); Distribute(Pow2(z), x, 1); }
    if x >= Pow2(32 - z) { MulMono(Pow2(z), Pow2(32 - z), x); }
  }

  /** The double word `(hi << 32) | lo`. */
  function Join(hi: u32, lo: u32): u64
  {
    Pow2Values();
    OrDisjoint(hi as int, lo as int, 32);
    Combine(Or, BASE * hi as int, lo as int) as u64
  }

  lemma JoinValue(hi: u32, lo: u32)
    ensures Join(hi, lo) as int == BASE * hi as int + lo as int
  {
    Pow2Values();
    OrDisjoint(hi as int, lo as int, 32);
  }
}
