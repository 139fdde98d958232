/** The bits of a magnitude are the bits of its limbs. */
module LimbBits {
  import opened Words
  import opened Limbs
  import opened Bits

  lemma HalveSum(low: int, h: int)
    ensures (low + 2 * h) / 2 == low / 2 + h && (low + 2 * h) % 2 == low % 2
  {
  }

  /** A multiple of 2^k above adds nothing to the bits below. */
  lemma {:induction false} BitLow(low: int, k: nat, high: int, i: nat)
    requires i < k
    ensures Bit(low + Pow2(k) * high, i) == Bit(low, i)
    decreases i
  {
    var h := Pow2(k - 1) * high;
    MulAssoc(2, Pow2(k - 1), high);
    HalveSum(low, h);
    if i > 0 {
      BitLow(low / 2, k - 1, high, i - 1);
    }
  }

  /** What lies below 2^k adds nothing to the bits from k on. */
  lemma {:induction false} BitHigh(low: int, k: nat, high: int, i: nat)
    requires 0 <= low < Pow2(k)
    ensures Bit(low + Pow2(k) * high, k + i) == Bit(high, i)
    decreases k
  {
    if k > 0 {
      var h := Pow2(k - 1) * high;
      MulAssoc(2, Pow2(k - 1), high);
      HalveSum(low, h);
      BitHigh(low / 2, k - 1, high, i);
    }
  }

  lemma {:induction false} ScaleAsPow2(k: nat, x: int)
    ensures Scale(k, x) == Pow2(32 * k) * x
  {
    ScaleMul(k, x, 1);
    ScalePow2(k, 0);
  }

  /** Bit `i` is in limb `i / 32`; past the limbs there are zeros. */
  lemma BitOfLimb(a: seq<u32>, i: nat)
    ensures Bit(Val(a), i) == if i / 32 < |a| then Bit(a[i / 32] as int, i % 32) else 0
  {
    var k, j := i / 32, i % 32;
    if k < |a| {
      BitsAbove(a, k, j);
      LowestLimb(a[k..], j);
    } else {
      BitPastTop(a, i);
    }
  }

  lemma BitsAbove(a: seq<u32>, k: nat, j: nat)
    requires k <= |a|
    ensures Bit(Val(a), 32 * k + j) == Bit(Val(a[k..]), j)
  {
    ValSplit(a, k);
    ValBound(a[..k]);
    ScaleAsPow2(k, 1);
    ScaleAsPow2(k, Val(a[k..]));
    BitHigh(Val(a[..k]), 32 * k, Val(a[k..]), j);
  }

  lemma LowestLimb(a: seq<u32>, j: nat)
    requires |a| > 0 && j < 32
    ensures Bit(Val(a), j) == Bit(a[0] as int, j)
  {
    Pow2Values();
    BitLow(a[0] as int, 32, Val(a[1..]), j);
  }

  lemma BitPastTop(a: seq<u32>, i: nat)
    requires |a| <= i / 32
    ensures Bit(Val(a), i) == 0
  {
    ValBound(a);
    ScaleAsPow2(|a|, 1);
    Pow2Monotone(32 * |a|, i);
    DivModUnique(Val(a), Pow2(i), 0, Val(a));
    BitIsQuotient(Val(a), i);
  }

  /** The low `i + 1` bits are the low `i` and bit `i`. */
  lemma LowBitsStep(x: nat, i: nat)
    ensures x % Pow2(i + 1) == x % Pow2(i) + Pow2(i) * Bit(x, i)
  {
    BitIsQuotient(x, i);
    var p := Pow2(i);
    var q := x / p;
    assert x == p * q + x % p;
    assert q == 2 * (q / 2) + q % 2;
    assert p * q == 2 * p * (q / 2) + p * (q % 2) by {
      Distribute(p, 2 * (q / 2), q % 2);
      MulSwap(p, 2, q / 2);
      MulAssoc(2, p, q / 2);
    }
    MulMono(p, q % 2, 1);
    DivModUnique(x, 2 * p, q / 2, x % p + p * (q % 2));
  }
}
