/** The magnitude helpers: loops over limbs with word-sized carries and borrows. */
module Magnitude {
  import opened Words
  import opened Limbs
  import opened Bits

  function Compare(x: int, y: int): Ordering
  {
    if x < y then Less else if x == y then Equal else Greater
  }

  method Trim(v: seq<u32>) returns (r: seq<u32>)
    ensures Trimmed(r) && Val(r) == Val(v) && r <= v
    ensures forall i :: |r| <= i < |v| ==> v[i] == 0
  {
    r := v;
    while |r| > 0 && r[|r| - 1] == 0
      invariant r <= v && Val(r) == Val(v)
      invariant forall i :: |r| <= i < |v| ==> v[i] == 0
    {
      var shorter := r[..|r| - 1];
      ValSnoc(shorter, 0);
      ScaleMono(|shorter|, 0, 0);
      assert shorter + [0] == r;
      r := shorter;
    }
  }

  method UCmp(a: seq<u32>, b: seq<u32>) returns (o: Ordering)
    requires Trimmed(a) && Trimmed(b)
    ensures o == Compare(Val(a), Val(b))
  {
    if |a| != |b| {
      if |a| < |b| { LongerIsLarger(a, b); } else { LongerIsLarger(b, a); }
      return if |a| < |b| then Less else Greater;
    }
    var i := |a|;
    while i > 0
      invariant 0 <= i <= |a| && a[i..] == b[i..]
    {
      i := i - 1;
      if a[i] != b[i] {
        if a[i] < b[i] { HighLimbDecides(a, b, i); } else { HighLimbDecides(b, a, i); }
        return if a[i] < b[i] then Less else Greater;
      }
      assert a[i..] == [a[i]] + a[i + 1..] && b[i..] == [b[i]] + b[i + 1..];
    }
    assert a == a[0..] && b == b[0..];
    return Equal;
  }

  /** One limb of a sum: the low half stays at limb `i`, the high half moves up. */
  lemma CarryStep(i: nat, t: int, lo: int, hi: int)
    requires t == lo + BASE * hi
    ensures Scale(i, t) == Scale(i, lo) + Scale(i + 1, hi)
  {
    ScaleAdd(i, lo, BASE * hi);
    ScaleUp(i, hi);
  }

  function LimbAt(a: seq<u32>, i: nat): u32
  {
    if i < |a| then a[i] else 0
  }

  /** The value of the first `i` limbs, with zeros past the end. */
  ghost function ValLow(a: seq<u32>, i: nat): nat
  {
    Val(a[..if i < |a| then i else |a|])
  }

  lemma ValLowStep(a: seq<u32>, i: nat)
    ensures ValLow(a, i + 1) == ValLow(a, i) + Scale(i, LimbAt(a, i) as int)
  {
    if i < |a| { ValTake(a, i); }
    ScaleMono(i, 0, 0);
  }

  lemma ValLowAll(a: seq<u32>, i: nat)
    requires |a| <= i
    ensures ValLow(a, i) == Val(a)
  {
    assert a[..|a|] == a;
  }

  method UAdd(a: seq<u32>, b: seq<u32>) returns (out: seq<u32>)
    ensures Val(out) == Val(a) + Val(b)
    ensures Trimmed(a) && Trimmed(b) ==> Trimmed(out)
  {
    var long, short := if |a| >= |b| then a else b, if |a| >= |b| then b else a;
    out := [];
    var carry: u64 := 0;
    for i := 0 to |long|
      invariant |out| == i && carry <= 1 && (i > 0 && carry == 0 ==> out[i - 1] >= long[i - 1])
      invariant Val(out) + Scale(i, carry as int) == ValLow(long, i) + ValLow(short, i)
    {
      var s := long[i] as u64 + (if i < |short| then short[i] as u64 else 0) + carry;
      var lo := (s as int % BASE) as u32;
      SumStep(i, s as int, lo as int, s as int / BASE, long[i] as int, LimbAt(short, i) as int, carry as int);
      ValLowStep(long, i);
      ValLowStep(short, i);
      ValSnoc(out, lo);
      out := out + [lo];
      carry := s / 0x1_0000_0000;
    }
    ValLowAll(long, |long|);
    ValLowAll(short, |long|);
    ScaleMono(|long|, 0, 0);
    if carry != 0 {
      ValSnoc(out, carry as u32);
      out := out + [carry as u32];
    }
  }

  lemma SumStep(i: nat, t: int, lo: int, hi: int, x: int, y: int, c: int)
    requires t == lo + BASE * hi == x + y + c
    ensures Scale(i, lo) + Scale(i + 1, hi) == Scale(i, x) + Scale(i, y) + Scale(i, c)
  {
    CarryStep(i, t, lo, hi);
    ScaleAdd(i, x + y, c);
    ScaleAdd(i, x, y);
  }

  method USub(a: seq<u32>, b: seq<u32>) returns (out: seq<u32>)
    requires Val(a) >= Val(b)
    ensures Val(out) == Val(a) - Val(b) && Trimmed(out)
  {
    out := [];
    var borrow: i64 := 0;
    for i := 0 to |a|
      invariant |out| == i && 0 <= borrow <= 1
      invariant Val(out) - Scale(i, borrow as int) == ValLow(a, i) - ValLow(b, i)
    {
      var t := a[i] as i64 - (if i < |b| then b[i] as i64 else 0) - borrow;
      var lo := (t as int % BASE) as u32;
      DifferenceStep(i, t as int, lo as int, t as int / BASE, a[i] as int, LimbAt(b, i) as int, borrow as int);
      ValLowStep(a, i);
      ValLowStep(b, i);
      ValSnoc(out, lo);
      out := out + [lo];
      borrow := if t < 0 then 1 else 0;
    }
    ValLowAll(a, |a|);
    LowOfSmaller(a, b);
    ValBound(out);
    ScaleMono(|a|, 0, 0);
    assert borrow == 0;
    out := Trim(out);
  }

  lemma DifferenceStep(i: nat, t: int, lo: int, hi: int, x: int, y: int, c: int)
    requires t == lo + BASE * hi == x - y - c
    ensures Scale(i, lo) - Scale(i + 1, -hi) == Scale(i, x) - Scale(i, y) - Scale(i, c)
  {
    CarryStep(i, t, lo, hi);
    ScaleSub(i, x - y, c);
    ScaleSub(i, x, y);
    ScaleSub(i + 1, 0, hi);
    ScaleMono(i + 1, 0, 0);
  }

  lemma LowOfSmaller(a: seq<u32>, b: seq<u32>)
    requires Val(b) <= Val(a)
    ensures ValLow(b, |a|) == Val(b)
  {
    if |a| < |b| {
      ValBound(a);
      ValSmall(b, |a|);
    } else {
      ValLowAll(b, |a|);
    }
  }

  lemma ProductFits(x: u32, y: u32)
    ensures 0 <= x as int * y as int <= (BASE - 1) * (BASE - 1)
  {
    MulBounds(x as int, y as int, BASE - 1);
  }

  /** A limb vector with a carry still to be added at limb `k`. */
  ghost function WithCarry(v: seq<u32>, k: nat, carry: u64): nat
  {
    ScaleGrows(k, k, carry as int);
    Val(v) + Scale(k, carry as int)
  }

  /** Adds `x * b` at limb `i` of `out`, the carry out of limb `i + |b|` given back. */
  method AddProducts(out: array<u32>, x: u32, b: seq<u32>, i: nat) returns (carry: u64)
    requires i + |b| <= out.Length
    modifies out
    ensures carry < 0x1_0000_0000
    ensures WithCarry(out[..], i + |b|, carry) == old(Val(out[..])) + Scale(i, x as int * Val(b))
  {
    ghost var start := Val(out[..]);
    carry := 0;
    ScaleMono(i, 0, 0);
    for j := 0 to |b|
      invariant carry < 0x1_0000_0000
      invariant WithCarry(out[..], i + j, carry) == start + Scale(i, x as int * Val(b[..j]))
    {
      ProductFits(x, b[j]);
      ghost var before, c := out[..], carry;
      var t := x as u64 * b[j] as u64 + out[i + j] as u64 + carry;
      out[i + j] := (t as int % BASE) as u32;
      carry := t / 0x1_0000_0000;
      assert out[..] == before[i + j := out[i + j]];
      RowStep(before, out[i + j], i, j, x, b, c, carry);
    }
    assert b[..|b|] == b;
  }

  lemma RowStep(before: seq<u32>, lo: u32, i: nat, j: nat, x: u32, b: seq<u32>, carry: u64, carry': u64)
    requires i + j < |before| && j < |b|
    requires x as int * b[j] as int + before[i + j] as int + carry as int == lo as int + BASE * carry' as int
    ensures WithCarry(before[i + j := lo], i + j + 1, carry') - Scale(i, x as int * Val(b[..j + 1]))
         == WithCarry(before, i + j, carry) - Scale(i, x as int * Val(b[..j]))
  {
    var t := x as int * b[j] as int;
    ValUpdate(before, i + j, lo);
    SumStep(i + j, t + before[i + j] as int + carry as int, lo as int, carry' as int, t, before[i + j] as int,
      carry as int);
    ValTake(b, j);
    ScaledTerm(i, j, x as int, Val(b[..j]), b[j] as int);
  }

  lemma ScaledTerm(i: nat, j: nat, x: int, v: int, y: int)
    ensures Scale(i, x * (v + Scale(j, y))) == Scale(i, x * v) + Scale(i + j, x * y)
  {
    ScaleMul(j, x, y);
    assert x * (v + Scale(j, y)) == x * v + Scale(j, x * y);
    ScaleAdd(i, x * v, Scale(j, x * y));
    ScaleScale(i, j, x * y);
  }

  /** Lets a carry run up from limb `from`; it stops below the end when the total fits. */
  method Propagate(out: array<u32>, from: nat, carryIn: u64)
    requires carryIn < 0x1_0000_0000 && from <= out.Length
    requires WithCarry(out[..], from, carryIn) < Scale(out.Length, 1)
    modifies out
    ensures Val(out[..]) == old(WithCarry(out[..], from, carryIn))
  {
    var k, carry := from, carryIn;
    while carry != 0
      invariant carry < 0x1_0000_0000 && k <= out.Length + 1
      invariant WithCarry(out[..], k, carry) == old(WithCarry(out[..], from, carryIn))
      decreases out.Length + 1 - k
    {
      CarryInside(out[..], k, carry);
      ghost var before, c := out[..], carry;
      var t := out[k] as u64 + carry;
      out[k] := (t as int % BASE) as u32;
      carry := t / 0x1_0000_0000;
      assert out[..] == before[k := out[k]];
      ValUpdate(before, k, out[k]);
      SumStep(k, t as int, out[k] as int, carry as int, before[k] as int, c as int, 0);
      ScaleMono(k, 0, 0);
      k := k + 1;
    }
    ScaleMono(k, 0, 0);
  }

  lemma CarryInside(v: seq<u32>, k: nat, carry: u64)
    requires carry != 0 && WithCarry(v, k, carry) < Scale(|v|, 1)
    ensures k < |v|
  {
    if k >= |v| {
      ScaleGrows(|v|, k, 1);
      ScaleMono(k, 1, carry as int);
    }
  }

  method UMul(a: seq<u32>, b: seq<u32>) returns (r: seq<u32>)
    ensures Val(r) == Val(a) * Val(b) && Trimmed(r)
  {
    if |a| == 0 || |b| == 0 { return []; }
    var out := new u32[|a| + |b|](_ => 0);
    ValZeros(out[..]);
    for i := 0 to |a|
      invariant Val(out[..]) == Val(a[..i]) * Val(b)
    {
      var x := a[i];
      RowValue(a, b, i);
      if x == 0 { continue; }
      ProductBound(a, b, i + 1);
      var carry := AddProducts(out, x, b, i);
      Propagate(out, i + |b|, carry);
    }
    assert a[..|a|] == a;
    r := Trim(out[..]);
  }

  lemma RowValue(a: seq<u32>, b: seq<u32>, i: nat)
    requires i < |a|
    ensures Val(a[..i + 1]) * Val(b) == Val(a[..i]) * Val(b) + Scale(i, a[i] as int * Val(b))
    ensures a[i] == 0 ==> Scale(i, a[i] as int * Val(b)) == 0
  {
    ValTake(a, i);
    Distribute(Val(b), Val(a[..i]), Scale(i, a[i] as int));
    ScaleMul(i, Val(b), a[i] as int);
    ScaleMono(i, 0, 0);
  }

  lemma ProductBound(a: seq<u32>, b: seq<u32>, i: nat)
    requires i <= |a|
    ensures Val(a[..i]) * Val(b) < Scale(|a| + |b|, 1)
  {
    ValBound(a[..i]);
    ValBound(b);
    ScaleGrows(i, |a|, 1);
    MulStrict(Val(a[..i]), Scale(|a|, 1), Val(b), Scale(|b|, 1));
    ScaleMul(|b|, Scale(|a|, 1), 1);
    ScaleScale(|b|, |a|, 1);
  }

  /** Multiplies each limb in place; what is left over the top is given back. */
  method MulLimbs(a: seq<u32>, d: u32, add: u32) returns (out: seq<u32>, carry: u64)
    ensures |out| == |a| && carry < 0x1_0000_0000
    ensures WithCarry(out, |a|, carry) == d as int * Val(a) + add as int
  {
    out := a;
    carry := add as u64;
    for i := 0 to |a|
      invariant |out| == |a| && carry < 0x1_0000_0000 && out[i..] == a[i..]
      invariant WithCarry(out[..i], i, carry) == d as int * Val(a[..i]) + add as int
    {
      ProductFits(a[i], d);
      assert out[i] == a[i] by { assert out[i..][0] == a[i..][0]; }
      ghost var done, c := out[..i], carry;
      var t := out[i] as u64 * d as u64 + carry;
      out := out[i := (t as int % BASE) as u32];
      carry := t / 0x1_0000_0000;
      SmallStep(a, done, i, d, c, out[i], carry);
      assert out[..i + 1] == done + [out[i]];
      assert out[i + 1..] == a[i..][1..] && a[i + 1..] == a[i..][1..];
    }
    assert out[..|a|] == out && a[..|a|] == a;
  }

  /** `a * d + add` on the limb vector `a`. */
  method UMulSmall(a: seq<u32>, d: u32, add: u32) returns (out: seq<u32>)
    ensures Val(out) == d as int * Val(a) + add as int && Trimmed(out)
  {
    var carry;
    out, carry := MulLimbs(a, d, add);
    PushCarry(out, carry);
    ghost var total := Val(if carry == 0 then out else out + [carry as u32]);
    while carry != 0
      invariant carry < 0x1_0000_0000
      invariant Val(if carry == 0 then out else out + [carry as u32]) == total
      decreases carry
    {
      out := out + [carry as u32];
      carry := carry / 0x1_0000_0000;
    }
    out := Trim(out);
  }

  lemma PushCarry(out: seq<u32>, carry: u64)
    requires carry < 0x1_0000_0000
    ensures Val(if carry == 0 then out else out + [carry as u32]) == WithCarry(out, |out|, carry)
  {
    ScaleMono(|out|, 0, 0);
    ValSnoc(out, carry as u32);
  }

  lemma SmallStep(a: seq<u32>, done: seq<u32>, i: nat, d: u32, carry: u64, lo: u32, carry': u64)
    requires i < |a| && |done| == i
    requires a[i] as int * d as int + carry as int == lo as int + BASE * carry' as int
    ensures WithCarry(done + [lo], i + 1, carry') - d as int * Val(a[..i + 1])
         == WithCarry(done, i, carry) - d as int * Val(a[..i])
  {
    var t := d as int * a[i] as int;
    ValSnoc(done, lo);
    ValTake(a, i);
    SumStep(i, t + carry as int, lo as int, carry' as int, t, carry as int, 0);
    ScaleMono(i, 0, 0);
    ScaledTerm(0, i, d as int, Val(a[..i]), a[i] as int);
  }

  /** Divides the limb vector by one limb: what it becomes, and the remainder. */
  method UDivSmall(a: seq<u32>, d: u32) returns (q: seq<u32>, rem: u32)
    requires d > 0
    ensures Trimmed(q) && rem < d && Val(a) == d as int * Val(q) + rem as int
  {
    q := a;
    var r: u64 := 0;
    var i := |a|;
    while i > 0
      invariant 0 <= i <= |a| == |q| && r < d as u64 && q[..i] == a[..i]
      invariant Val(a[i..]) == d as int * Val(q[i..]) + r as int
    {
      i := i - 1;
      assert q[i] == a[i] by { assert q[..i + 1][i] == a[..i + 1][i]; }
      JoinValue(r as u32, q[i]);
      var cur := Join(r as u32, q[i]);
      QuotientBelow(cur as int, d as int, BASE);
      var digit := (cur / d as u64) as u32;
      DigitStep(a[i] as int, Val(a[i + 1..]), Val(q[i + 1..]), d as int, r as int);
      assert q[i := digit][i..] == [digit] + q[i + 1..];
      assert a[i..][1..] == a[i + 1..];
      assert q[..i] == q[..i + 1][..i] && a[..i] == a[..i + 1][..i];
      q := q[i := digit];
      r := cur % d as u64;
    }
    assert a == a[0..] && q == q[0..];
    q := Trim(q);
    rem := r as u32;
  }

  lemma DigitStep(x: int, above: int, q: int, d: int, r: int)
    requires d > 0 && above == d * q + r
    ensures x + BASE * above == d * ((BASE * r + x) / d + BASE * q) + (BASE * r + x) % d
  {
    var cur := BASE * r + x;
    assert cur == d * (cur / d) + cur % d;
    Distribute(d, cur / d, BASE * q);
    MulSwap(d, BASE, q);
  }

  /** Appends the limbs of `a` shifted left by `bits` to `low`; the bits shifted out of
      the top limb are given back. */
  method ShiftUp(low: seq<u32>, a: seq<u32>, bits: nat) returns (out: seq<u32>, carry: u32)
    requires 0 < bits < 32
    ensures |out| == |low| + |a| && carry as int < Pow2(bits)
    ensures WithCarry(out, |out|, carry as u64) == Val(low) + Scale(|low|, Pow2(bits) * Val(a))
  {
    out, carry := low, 0;
    ScaleMono(|low|, 0, 0);
    for i := 0 to |a|
      invariant |out| == |low| + i && carry as int < Pow2(bits)
      invariant WithCarry(out, |low| + i, carry as u64) == Val(low) + Scale(|low|, Pow2(bits) * Val(a[..i]))
    {
      ShiftLeftStep(a[i], bits, carry);
      var lo := Or32(Shl32(a[i], bits), carry);
      ShiftUpStep(out, a, |low|, i, Pow2(bits), carry, lo, Shr32(a[i], 32 - bits));
      out := out + [lo];
      carry := Shr32(a[i], 32 - bits);
    }
    assert a[..|a|] == a;
  }

  method UShl(a: seq<u32>, limbs: nat, bits: nat) returns (out: seq<u32>)
    requires bits < 32
    ensures Val(out) == Scale(limbs, Pow2(bits) * Val(a)) && Trimmed(out)
  {
    ScaleMono(limbs, 0, 0);
    if |a| == 0 { return []; }
    out := seq(limbs, _ => 0);
    ValZeros(out);
    if bits == 0 {
      ValConcat(out, a);
      out := out + a;
    } else {
      var carry;
      out, carry := ShiftUp(out, a, bits);
      PushCarry(out, carry as u64);
      if carry != 0 {
        out := out + [carry];
      }
    }
    out := Trim(out);
  }

  lemma ShiftUpStep(out: seq<u32>, a: seq<u32>, limbs: nat, i: nat, p: int, carry: u32, lo: u32, carry': u32)
    requires i < |a| && |out| == limbs + i
    requires a[i] as int * p + carry as int == lo as int + BASE * carry' as int
    ensures WithCarry(out + [lo], limbs + i + 1, carry' as u64) - Scale(limbs, p * Val(a[..i + 1]))
         == WithCarry(out, limbs + i, carry as u64) - Scale(limbs, p * Val(a[..i]))
  {
    var k, t := limbs + i, p * a[i] as int;
    ValSnoc(out, lo);
    ValTake(a, i);
    SumStep(k, t + carry as int, lo as int, carry' as int, t, carry as int, 0);
    ScaleMono(k, 0, 0);
    ScaledTerm(limbs, i, p, Val(a[..i]), a[i] as int);
  }

  method UShr(a: seq<u32>, limbs: nat, bits: nat) returns (out: seq<u32>)
    requires bits < 32
    ensures Scale(limbs, Pow2(bits)) > 0
    ensures Val(out) == Val(a) / Scale(limbs, Pow2(bits)) && Trimmed(out)
  {
    if limbs >= |a| {
      ShiftedOut(a, limbs, Pow2(bits));
      return [];
    }
    var src := a[limbs..];
    DropLimbs(a, limbs, Pow2(bits));
    if bits == 0 {
      out := src;
    } else {
      out := ShiftDown(src, bits);
    }
    out := Trim(out);
  }

  lemma ShiftedOut(a: seq<u32>, limbs: nat, p: nat)
    requires limbs >= |a| && p > 0
    ensures Scale(limbs, p) > 0 && Val(a) / Scale(limbs, p) == 0
  {
    ValBound(a);
    ScaleGrows(|a|, limbs, 1);
    ScaleMono(limbs, 1, p);
    DivModUnique(Val(a), Scale(limbs, p), 0, Val(a));
  }

  lemma DropLimbs(a: seq<u32>, limbs: nat, p: nat)
    requires limbs <= |a| && p > 0
    ensures Scale(limbs, p) > 0 && Val(a) / Scale(limbs, p) == Val(a[limbs..]) / p
  {
    ValSplit(a, limbs);
    ValBound(a[..limbs]);
    NestedDiv(limbs, p, Val(a[..limbs]), Val(a[limbs..]));
  }

  /** Dropping whole limbs first and dividing the rest rounds down as dividing once does. */
  lemma NestedDiv(k: nat, p: nat, low: nat, s: nat)
    requires p > 0 && low < Scale(k, 1)
    ensures Scale(k, p) > 0 && (low + Scale(k, s)) / Scale(k, p) == s / p
  {
    var q, r := s / p, s % p;
    ScaleMono(k, 0, p);
    ScaleMono(k, r + 1, p);
    ScaleMono(k, 0, r);
    ScaleAdd(k, r, 1);
    ScaledQuotient(k, p, s);
    DivModUnique(low + Scale(k, s), Scale(k, p), q, low + Scale(k, r));
  }

  lemma ScaledQuotient(k: nat, p: nat, s: nat)
    requires p > 0
    ensures Scale(k, s) == Scale(k, p) * (s / p) + Scale(k, s % p)
  {
    assert s == (s / p) * p + s % p;
    ScaleAdd(k, (s / p) * p, s % p);
    ScaleMul(k, s / p, p);
  }

  /** After `i` limbs: what was written is the quotient of the low limbs, but for the low
      bits of limb `i`, already taken, and of limb 0, dropped. */
  ghost predicate ShiftedSoFar(src: seq<u32>, out: seq<u32>, i: nat, p: int)
    requires |src| > 0 && p > 0 && i <= |src|
  {
    p * Val(out) + src[0] as int % p == Val(src[..i]) + Scale(i, LimbAt(src, i) as int % p)
  }

  /** The inner loop of a right shift: each limb takes the low bits of the one above. */
  method ShiftDown(src: seq<u32>, bits: nat) returns (out: seq<u32>)
    requires 0 < bits < 32 && |src| > 0
    ensures Val(out) == Val(src) / Pow2(bits) && |out| == |src|
  {
    out := [];
    for i := 0 to |src|
      invariant |out| == i && ShiftedSoFar(src, out, i, Pow2(bits))
    {
      var hi := if i + 1 < |src| then Shl32(src[i + 1], 32 - bits) else 0;
      assert Shl32(0, 32 - bits) == 0;
      var limb := Or32(Shr32(src[i], bits), hi);
      ShiftDownStep(out, src, i, bits, limb);
      out := out + [limb];
    }
    ShiftDownDone(src, out, Pow2(bits));
  }

  lemma ShiftDownDone(src: seq<u32>, out: seq<u32>, p: int)
    requires |src| > 0 && p > 0 && ShiftedSoFar(src, out, |src|, p)
    ensures Val(out) == Val(src) / p
  {
    assert src[..|src|] == src;
    DivModUnique(0, p, 0, 0);
    ScaleMono(|src|, 0, 0);
    DivModUnique(Val(src), p, Val(out), src[0] as int % p);
  }

  lemma ShiftDownStep(out: seq<u32>, src: seq<u32>, i: nat, bits: nat, limb: u32)
    requires 0 < bits < 32 && |out| == i < |src| && ShiftedSoFar(src, out, i, Pow2(bits))
    requires limb == Or32(Shr32(src[i], bits), Shl32(LimbAt(src, i + 1), 32 - bits))
    ensures ShiftedSoFar(src, out + [limb], i + 1, Pow2(bits))
  {
    ShiftRightStep(src[i], bits, LimbAt(src, i + 1));
    HalvesOfLimb(bits);
    ValSnoc(out, limb);
    ValTake(src, i);
    ScaledShift(i, Pow2(bits), Pow2(32 - bits), src[i] as int, LimbAt(src, i + 1) as int % Pow2(bits), limb as int,
      Val(out));
  }

  lemma ScaledShift(i: nat, p: int, c: int, x: int, rest: int, limb: int, v: int)
    requires p > 0 && p * c == BASE && limb == x / p + c * rest
    ensures p * (v + Scale(i, limb)) == p * v + Scale(i, x) - Scale(i, x % p) + Scale(i + 1, rest)
  {
    assert p * limb == p * (x / p) + p * c * rest;
    assert x == p * (x / p) + x % p;
    assert p * (v + Scale(i, limb)) == p * v + p * Scale(i, limb);
    ScaleMul(i, p, limb);
    CarryStep(i, p * limb, x - x % p, rest);
    ScaleSub(i, x, x % p);
  }
}
