/** Division of magnitudes: Algorithm D of section 4.3.1 of The Art of Computer Programming. */
module KnuthD {
  import opened Words
  import opened Limbs
  import opened Bits
  import opened Magnitude

  /** The dividend window `w` and the divisor `v` of one step, by their top limbs:
      `t` is the weight of the lowest limb kept, and what lies below it is less than `t`. */
  datatype Step = Step(t: nat, w: nat, v: nat, u2: int, u1: int, u0: int, v1: int, v2: int)
  {
    ghost predicate Valid()
    {
      && t > 0 && 0 <= u2 < BASE && 0 <= u1 < BASE && 0 <= u0 < BASE && 0 <= v2 < BASE && 0x8000_0000 <= v1 < BASE
      && t * Top3() <= w < t * Top3() + t
      && t * Divisor2() <= v < t * Divisor2() + t
      && w < BASE * v
    }

    ghost function Top2(): int { BASE * u2 + u1 }

    ghost function Top3(): int { BASE * Top2() + u0 }

    ghost function Divisor2(): int { BASE * v1 + v2 }

    /** The estimate `qhat` with its remainder is not below the true digit. */
    ghost predicate Estimate(qhat: int, rhat: int)
    {
      0 <= qhat && 0 <= rhat && qhat * v1 + rhat == Top2() && w < (qhat + 1) * v
    }

    /** The estimate is the true digit or one more, and fits in a limb. */
    ghost predicate Accepted(qhat: int)
    {
      0 <= qhat < BASE && (qhat - 1) * v <= w < (qhat + 1) * v
    }
  }

  lemma TopLimbSmall(c: Step)
    requires c.Valid()
    ensures c.u2 <= c.v1
  {
    var bound := BASE * (c.Divisor2() + 1);
    assert c.t * bound == BASE * (c.t * c.Divisor2() + c.t) by {
      MulSwap(c.t, BASE, c.Divisor2() + 1);
      Distribute(c.t, c.Divisor2(), 1);
    }
    if c.Top3() >= bound { MulMono(c.t, bound, c.Top3()); }
  }

  /** A digit whose product with two divisor limbs exceeds three dividend limbs is too large. */
  lemma DigitTooLarge(t: nat, w: nat, v: nat, top: int, d: int, qhat: nat)
    requires t * top <= w < t * top + t && t * d <= v && t > 0
    requires qhat * d > top
    ensures w < qhat * v
  {
    MulMono(qhat, t * d, v);
    MulSwap(qhat, t, d);
    MulMono(t, top + 1, qhat * d);
    Distribute(t, top, 1);
  }

  /** A digit below the base that passes the test is at most one too large. */
  lemma DigitAlmostRight(t: nat, w: nat, v: nat, top: int, d: int, qhat: nat)
    requires t * top <= w && t * d <= v < t * d + t && t * BASE <= v
    requires qhat < BASE && qhat * d <= top
    ensures (qhat - 1) * v <= w
  {
    MulMono(qhat, v, t * d + t);
    Distribute(qhat, t * d, t);
    MulSwap(qhat, t, d);
    MulMono(t, qhat * d, top);
    MulMono(t, qhat, BASE);
    Distribute(v, qhat, 1);
  }

  lemma TwoLimbProduct(q: int, v1: int, v2: int)
    ensures q * (BASE * v1 + v2) == BASE * (q * v1) + q * v2
  {
    Distribute(q, BASE * v1, v2);
    MulSwap(q, BASE, v1);
  }

  lemma FirstEstimate(c: Step)
    requires c.Valid()
    ensures c.Top2() / c.v1 <= BASE + 1 && c.Estimate(c.Top2() / c.v1, c.Top2() % c.v1)
  {
    TopLimbSmall(c);
    var q, r := c.Top2() / c.v1, c.Top2() % c.v1;
    QuotientBelow(c.Top2(), c.v1, BASE + 2);
    assert c.Top2() == c.v1 * q + r;
    Distribute(c.v1, q, 1);
    TwoLimbProduct(q + 1, c.v1, c.v2);
    MulMono(q + 1, 0, c.v2);
    DigitTooLarge(c.t, c.w, c.v, c.Top3(), c.Divisor2(), q + 1);
  }

  lemma LowerEstimate(c: Step, qhat: int, rhat: int)
    requires c.Valid() && c.Estimate(qhat, rhat)
    requires qhat >= BASE || qhat * c.v2 > BASE * rhat + c.u0
    ensures qhat > 0 && c.Estimate(qhat - 1, rhat + c.v1)
  {
    Distribute(c.v1, qhat, 1);
    if qhat >= BASE {
      MulMono(c.v, BASE, qhat);
    } else {
      TwoLimbProduct(qhat, c.v1, c.v2);
      DigitTooLarge(c.t, c.w, c.v, c.Top3(), c.Divisor2(), qhat);
    }
  }

  lemma AcceptEstimate(c: Step, qhat: int, rhat: int)
    requires c.Valid() && c.Estimate(qhat, rhat)
    requires qhat < BASE && qhat * c.v2 <= BASE * rhat + c.u0
    ensures c.Accepted(qhat)
  {
    TwoLimbProduct(qhat, c.v1, c.v2);
    MulMono(c.t, BASE, c.Divisor2());
    DigitAlmostRight(c.t, c.w, c.v, c.Top3(), c.Divisor2(), qhat);
  }

  /** Once the remainder no longer fits in a limb the test cannot fail any more. */
  lemma AcceptLargeRemainder(c: Step, qhat: int, rhat: int)
    requires c.Valid() && c.Estimate(qhat, rhat) && rhat >= BASE
    ensures c.Accepted(qhat)
  {
    TopLimbSmall(c);
    if qhat >= BASE { MulMono(c.v1, BASE, qhat); }
    MulBounds(qhat, c.v2, BASE - 1);
    AcceptEstimate(c, qhat, rhat);
  }

  /** The digit estimate from three limbs of the window and two of the divisor. */
  method EstimateDigit(u2: u32, u1: u32, u0: u32, v1: u32, v2: u32, ghost c: Step) returns (qhat: u64)
    requires c.Valid()
    requires u2 as int == c.u2 && u1 as int == c.u1 && u0 as int == c.u0 && v1 as int == c.v1 && v2 as int == c.v2
    ensures c.Accepted(qhat as int)
  {
    JoinValue(u2, u1);
    FirstEstimate(c);
    qhat := Join(u2, u1) / v1 as u64;
    var rhat := Join(u2, u1) % v1 as u64;
    while true
      invariant qhat <= 0x1_0000_0001 && rhat < 0x1_0000_0000
      invariant c.Estimate(qhat as int, rhat as int)
      decreases qhat
    {
      JoinValue(rhat as u32, u0);
      if qhat < 0x1_0000_0000 { ProductFits(qhat as u32, v2); }
      if qhat >= 0x1_0000_0000 || qhat * v2 as u64 > Join(rhat as u32, u0) {
        LowerEstimate(c, qhat as int, rhat as int);
        qhat := qhat - 1;
        rhat := rhat + v1 as u64;
        if rhat < 0x1_0000_0000 { continue; }
        AcceptLargeRemainder(c, qhat as int, rhat as int);
      } else {
        AcceptEstimate(c, qhat as int, rhat as int);
      }
      break;
    }
  }

  /** A divisor as the algorithm uses it: at least two limbs, the top bit set. */
  ghost predicate Normalized(bn: seq<u32>)
  {
    |bn| >= 2 && bn[|bn| - 1] >= 0x8000_0000
  }

  ghost function StepOf(win: seq<u32>, bn: seq<u32>): Step
    requires Normalized(bn) && |win| == |bn| + 1
  {
    var n := |bn|;
    ScaleGrows(n - 2, n - 2, 1);
    Step(Scale(n - 2, 1), Val(win), Val(bn), win[n] as int, win[n - 1] as int, win[n - 2] as int, bn[n - 1] as int,
      bn[n - 2] as int)
  }

  lemma TopLimbs(a: seq<u32>, k: nat, top: int)
    requires k <= |a| && top == Val(a[k..])
    ensures Scale(k, 1) * top <= Val(a) < Scale(k, 1) * top + Scale(k, 1)
  {
    ValSplit(a, k);
    ValBound(a[..k]);
    ScaleMul(k, top, 1);
  }

  lemma TwoLimbs(a: seq<u32>)
    requires |a| >= 2
    ensures var k := |a| - 2; Val(a[k..]) == BASE * a[k + 1] as int + a[k] as int
  {
    var k := |a| - 2;
    assert a[k..] == [a[k]] + [a[k + 1]];
    ValSnoc([a[k]], a[k + 1]);
    assert Val([a[k]]) == a[k] as int;
  }

  lemma ThreeLimbs(a: seq<u32>)
    requires |a| >= 3
    ensures var k := |a| - 3; Val(a[k..]) == BASE * (BASE * a[k + 2] as int + a[k + 1] as int) + a[k] as int
  {
    var k := |a| - 3;
    TwoLimbs(a);
    assert a[k..][1..] == a[k + 1..];
  }

  lemma StepOfValid(win: seq<u32>, bn: seq<u32>)
    requires Normalized(bn) && |win| == |bn| + 1 && Val(win) < BASE * Val(bn)
    ensures StepOf(win, bn).Valid()
  {
    var c := StepOf(win, bn);
    ThreeLimbs(win);
    TwoLimbs(bn);
    TopLimbs(win, |bn| - 2, c.Top3());
    TopLimbs(bn, |bn| - 2, c.Divisor2());
    ScaleMono(|bn| - 2, 0, 1);
  }

  /** The limbs of `an` from `j` on that a step with an `n`-limb divisor works on. */
  ghost function Window(an: array<u32>, j: nat, n: nat): seq<u32>
    requires j + n < an.Length
    reads an
  {
    an[j..j + n + 1]
  }

  twostate predicate OnlyWindow(an: array<u32>, j: nat, n: nat)
    requires j + n < an.Length
    reads an
  {
    an[..j] == old(an[..j]) && an[j + n + 1..] == old(an[j + n + 1..])
  }

  /** Subtracts `qhat * bn` from the window, modulo the weight above it; whether the true
      difference is negative. */
  method MulSubtract(an: array<u32>, j: nat, bn: seq<u32>, qhat: u64) returns (negative: bool)
    requires j + |bn| < an.Length && qhat < 0x1_0000_0000
    modifies an
    ensures OnlyWindow(an, j, |bn|)
    ensures Val(Window(an, j, |bn|))
         == old(Val(Window(an, j, |bn|))) - qhat as int * Val(bn) + if negative then Scale(|bn| + 1, 1) else 0
  {
    ghost var n, start := |bn|, Window(an, j, |bn|);
    var borrow: i64 := 0;
    var carry: u64 := 0;
    for i := 0 to |bn|
      invariant 0 <= borrow <= 1 && carry < 0x1_0000_0000
      invariant OnlyWindow(an, j, n)
      invariant Subtracted(start, Window(an, j, n), bn, i, qhat, carry as int, borrow as int)
    {
      ProductFits(qhat as u32, bn[i]);
      ghost var before, c, d := Window(an, j, n), carry as int, borrow as int;
      var p := qhat * bn[i] as u64 + carry;
      carry := p / 0x1_0000_0000;
      var t := an[i + j] as i64 - (p as int % BASE) as i64 - borrow;
      an[i + j] := (t as int % BASE) as u32;
      borrow := if t < 0 then 1 else 0;
      assert Window(an, j, n) == before[i := an[i + j]];
      SubtractStep(start, before, bn, i, qhat, c, d, p as int, t as int);
    }
    ghost var before := Window(an, j, n);
    var t := an[j + |bn|] as i64 - carry as i64 - borrow;
    an[j + |bn|] := (t as int % BASE) as u32;
    negative := t < 0;
    assert Window(an, j, n) == before[n := an[j + n]];
    SubtractTop(start, before, bn, qhat, carry as int, borrow as int, t as int);
  }

  ghost predicate Subtracted(start: seq<u32>, now: seq<u32>, bn: seq<u32>, i: nat, qhat: u64, carry: int, borrow: int)
    requires i <= |bn|
  {
    Val(now) - Scale(i, carry) - Scale(i, borrow) == Val(start) - qhat as int * Val(bn[..i])
  }

  lemma SubtractStep(start: seq<u32>, before: seq<u32>, bn: seq<u32>, i: nat, qhat: u64, carry: int, borrow: int,
                     p: int, t: int)
    requires i < |bn| < |before| && Subtracted(start, before, bn, i, qhat, carry, borrow)
    requires p == qhat as int * bn[i] as int + carry && t == before[i] as int - p % BASE - borrow
    requires -BASE <= t < BASE
    ensures Subtracted(start, before[i := (t % BASE) as u32], bn, i + 1, qhat, p / BASE, if t < 0 then 1 else 0)
  {
    ValUpdate(before, i, (t % BASE) as u32);
    ValTake(bn, i);
    ScaledTerm(0, i, qhat as int, Val(bn[..i]), bn[i] as int);
    BorrowStep(i, before[i] as int, p, borrow, t);
    ScaleAdd(i, qhat as int * bn[i] as int, carry);
  }

  /** One limb of a difference: what the carry and the borrow into the next limb stand for. */
  lemma BorrowStep(i: nat, x: int, p: int, borrow: int, t: int)
    requires t == x - p % BASE - borrow && -BASE <= t < BASE
    ensures Scale(i, t % BASE) - Scale(i, x) - Scale(i + 1, p / BASE) - Scale(i + 1, if t < 0 then 1 else 0)
         == -Scale(i, p) - Scale(i, borrow)
  {
    var borrow' := if t < 0 then 1 else 0;
    CarryStep(i, p, p % BASE, p / BASE);
    DifferenceStep(i, t, t % BASE, -borrow', x, p % BASE, borrow);
  }

  lemma SubtractTop(start: seq<u32>, before: seq<u32>, bn: seq<u32>, qhat: u64, carry: int, borrow: int, t: int)
    requires |before| == |bn| + 1 && Subtracted(start, before, bn, |bn|, qhat, carry, borrow)
    requires t == before[|bn|] as int - carry - borrow && -BASE <= t < BASE
    ensures Val(before[|bn| := (t % BASE) as u32])
         == Val(start) - qhat as int * Val(bn) + if t < 0 then Scale(|bn| + 1, 1) else 0
  {
    var n := |bn|;
    assert bn[..n] == bn;
    ValUpdate(before, n, (t % BASE) as u32);
    DifferenceStep(n, t, t % BASE, if t < 0 then -1 else 0, before[n] as int, carry, borrow);
    ScaleMono(n + 1, 0, 0);
  }

  lemma NothingAdded(v: seq<u32>, bn: seq<u32>)
    ensures WithCarry(v, 0, 0) == Val(v) + Val(bn[..0])
  {
    ScaleMono(0, 0, 0);
  }

  /** Adds the divisor to the window; the carry out of its top limb is lost. */
  method AddBack(an: array<u32>, j: nat, bn: seq<u32>) returns (ghost lost: bool)
    requires j + |bn| < an.Length
    modifies an
    ensures OnlyWindow(an, j, |bn|)
    ensures Val(Window(an, j, |bn|)) == old(Val(Window(an, j, |bn|))) + Val(bn) - if lost then Scale(|bn| + 1, 1) else 0
  {
    hide Val, Scale;
    ghost var n, start := |bn|, Window(an, j, |bn|);
    var carry: u64 := 0;
    NothingAdded(start, bn);
    for i := 0 to |bn|
      invariant carry <= 1
      invariant OnlyWindow(an, j, n)
      invariant WithCarry(Window(an, j, n), i, carry) == Val(start) + Val(bn[..i])
    {
      ghost var before, c := Window(an, j, n), carry as int;
      var s := an[i + j] as u64 + bn[i] as u64 + carry;
      an[i + j] := (s as int % BASE) as u32;
      carry := s / 0x1_0000_0000;
      assert Window(an, j, n) == before[i := an[i + j]];
      ValUpdate(before, i, an[i + j]);
      ValTake(bn, i);
      SumStep(i, s as int, an[i + j] as int, carry as int, before[i] as int, bn[i] as int, c);
    }
    assert bn[..n] == bn;
    ghost var before := Window(an, j, n);
    var s := an[j + |bn|] as u64 + carry;
    an[j + |bn|] := (s as int % BASE) as u32;
    lost := s as int >= BASE;
    assert Window(an, j, n) == before[n := an[j + n]];
    ValUpdate(before, n, an[j + n]);
    SumStep(n, s as int, an[j + n] as int, s as int / BASE, before[n] as int, carry as int, 0);
    ScaleMono(n, 0, 0);
    ScaleMono(n + 1, 0, 0);
  }

  /** Subtracting an accepted estimate: a difference that is not negative is the remainder;
      a negative one becomes it when the divisor is added back, and a carry is lost then. */
  lemma Corrected(w: int, v: int, qhat: int, unit: int, negative: bool, after: int)
    requires (qhat - 1) * v <= w < (qhat + 1) * v && 0 <= w < unit && 0 <= v < unit && 0 <= qhat
    requires after == w - qhat * v + (if negative then unit else 0) && 0 <= after < unit
    ensures !negative ==> w == qhat * v + after && after < v
    ensures negative ==> 0 < qhat && w == (qhat - 1) * v + (after + v - unit) && 0 <= after + v - unit < v
  {
    Distribute(v, qhat, 1);
  }

  method EstimateWindow(an: array<u32>, j: nat, bn: seq<u32>) returns (qhat: u64)
    requires Normalized(bn) && j + |bn| < an.Length
    requires Val(Window(an, j, |bn|)) < BASE * Val(bn)
    ensures qhat < 0x1_0000_0000
    ensures (qhat as int - 1) * Val(bn) <= Val(Window(an, j, |bn|)) < (qhat as int + 1) * Val(bn)
  {
    var n := |bn|;
    StepOfValid(Window(an, j, n), bn);
    qhat := EstimateDigit(an[j + n], an[j + n - 1], an[j + n - 2], bn[n - 1], bn[n - 2], StepOf(Window(an, j, n), bn));
  }

  /** One digit: the window is replaced by its remainder modulo the divisor. */
  method DivideStep(an: array<u32>, j: nat, bn: seq<u32>) returns (digit: u32)
    requires Normalized(bn) && j + |bn| < an.Length
    requires Val(Window(an, j, |bn|)) < BASE * Val(bn)
    modifies an
    ensures OnlyWindow(an, j, |bn|)
    ensures old(Val(Window(an, j, |bn|))) == digit as int * Val(bn) + Val(Window(an, j, |bn|))
    ensures Val(Window(an, j, |bn|)) < Val(bn)
  {
    ghost var w, v, unit := Val(Window(an, j, |bn|)), Val(bn), Scale(|bn| + 1, 1);
    var n := |bn|;
    ValBound(Window(an, j, n));
    ValBound(bn);
    ScaleGrows(n, n + 1, 1);
    var qhat := EstimateWindow(an, j, bn);
    var negative := MulSubtract(an, j, bn, qhat);
    ValBound(Window(an, j, n));
    Corrected(w, v, qhat as int, unit, negative, Val(Window(an, j, n)));
    if negative {
      qhat := qhat - 1;
      ghost var lost := AddBack(an, j, bn);
      ValBound(Window(an, j, n));
    }
    digit := qhat as u32;
  }

  /** What the digits found so far say: `j` of them are still to come. */
  ghost predicate Progress(total: nat, an: seq<u32>, q: seq<u32>, bn: seq<u32>, j: nat)
  {
    total == Val(an) + Val(bn) * Val(q) && Val(an) < Scale(j, Val(bn))
  }

  lemma WindowSmall(an: seq<u32>, bn: seq<u32>, j: nat)
    requires j + |bn| + 1 <= |an| && Val(an) < Scale(j + 1, Val(bn))
    ensures var win := an[j..j + |bn| + 1];
      Val(win) < BASE * Val(bn) && Val(an) == Val(an[..j]) + Scale(j, Val(win)) && Val(an[j + |bn| + 1..]) == 0
  {
    var n := |bn|;
    ValSplit(an, j);
    ScaleUp(j, Val(bn));
    ScaleMono(j, BASE * Val(bn), Val(an[j..]));
    assert Val(an[j..]) < BASE * Val(bn);
    ValBound(bn);
    ValSplit(an[j..], n + 1);
    assert an[j..][..n + 1] == an[j..j + n + 1] && an[j..][n + 1..] == an[j + n + 1..];
    ScaleMono(n + 1, 1, Val(an[j + n + 1..]));
  }

  lemma StepProgress(total: nat, before: seq<u32>, after: seq<u32>, q: seq<u32>, bn: seq<u32>, j: nat, digit: u32)
    requires Progress(total, before, q, bn, j + 1) && |before| == |after| && j + |bn| + 1 <= |after|
    requires j < |q| && q[j] == 0
    requires after[..j] == before[..j] && after[j + |bn| + 1..] == before[j + |bn| + 1..]
    requires var n := |bn| + 1;
      Val(before[j..j + n]) == digit as int * Val(bn) + Val(after[j..j + n]) && Val(after[j..j + n]) < Val(bn)
    ensures Progress(total, after, q[j := digit], bn, j)
  {
    var v, rem := Val(bn), Val(after[j..j + |bn| + 1]);
    WindowSmall(before, bn, j);
    WindowReplaced(after, bn, j);
    ValUpdate(q, j, digit);
    ScaleMono(j, 0, 0);
    ValBound(after[..j]);
    StepAlgebra(j, v, Val(q), Val(q[j := digit]), digit as int, rem, Val(before[j..j + |bn| + 1]));
    RemainderFits(j, Val(after[..j]), rem, v);
  }

  lemma WindowReplaced(after: seq<u32>, bn: seq<u32>, j: nat)
    requires j + |bn| + 1 <= |after| && Val(after[j + |bn| + 1..]) == 0
    ensures Val(after) == Val(after[..j]) + Scale(j, Val(after[j..j + |bn| + 1]))
  {
    var n := |bn| + 1;
    ValSplit(after, j);
    ValSplit(after[j..], n);
    assert after[j..][..n] == after[j..j + n] && after[j..][n..] == after[j + n..];
    ScaleMono(n, 0, 0);
  }

  lemma StepAlgebra(j: nat, v: int, q: int, q': int, digit: int, rem: int, w: int)
    requires w == digit * v + rem && q' == q + Scale(j, digit)
    ensures Scale(j, w) + v * q == Scale(j, rem) + v * q'
  {
    ScaleAdd(j, v * digit, rem);
    ScaleMul(j, v, digit);
    Distribute(v, q, Scale(j, digit));
  }

  lemma RemainderFits(j: nat, low: int, rem: int, v: int)
    requires low < Scale(j, 1) && rem < v
    ensures low + Scale(j, rem) < Scale(j, v)
  {
    ScaleAdd(j, rem, 1);
    ScaleMono(j, rem + 1, v);
  }

  /** Truncated quotient and remainder of two magnitudes. */
  method UDivMod(a: seq<u32>, b: seq<u32>) returns (q: seq<u32>, r: seq<u32>)
    requires Trimmed(a) && Trimmed(b) && |b| > 0
    ensures Val(b) > 0 && Val(a) == Val(b) * Val(q) + Val(r) && Val(r) < Val(b)
    ensures Trimmed(q) && Trimmed(r)
  {
    TrimmedBound(b);
    ScaleGrows(0, |b| - 1, 1);
    var order := UCmp(a, b);
    if order == Less {
      assert Val(b) * Val([]) == 0;
      return [], a;
    }
    if |b| == 1 {
      var rem;
      q, rem := UDivSmall(a, b[0]);
      assert b == [b[0]] && Val([rem]) == rem as int;
      r := Trim([rem]);
      return;
    }
    if |a| < |b| { LongerIsLarger(a, b); }
    q, r := LongDivide(a, b);
  }

  /** The case of a divisor of several limbs. */
  method LongDivide(a: seq<u32>, b: seq<u32>) returns (q: seq<u32>, r: seq<u32>)
    requires 2 <= |b| <= |a| && Trimmed(b)
    ensures Val(a) == Val(b) * Val(q) + Val(r) && Val(r) < Val(b)
    ensures Trimmed(q) && Trimmed(r)
  {
    var n := |b|;
    var s := LeadingZeros(b[n - 1]);
    var bn := NormalizeDivisor(b, s);
    var an := ExtendDividend(a, s);
    var digits := new u32[|a| - n + 1](_ => 0);
    DividendSmall(a, bn, s);
    DivideLimbs(an, digits, bn, Pow2(s) * Val(a));
    LowLimbs(an[..], bn);
    r := an[..n];
    assert an[..][..n] == an[..n];
    Unscale(Pow2(s), Val(a), Val(b), Val(bn), Val(digits[..]), Val(r));
    q := Trim(digits[..]);
    r := Denormalize(r, s);
  }

  method Denormalize(v: seq<u32>, s: nat) returns (r: seq<u32>)
    requires s < 32
    ensures Val(r) == Val(v) / Pow2(s) && Trimmed(r)
  {
    r := v;
    if s > 0 {
      r := UShr(r, 0, s);
    }
    r := Trim(r);
  }

  lemma DividendSmall(a: seq<u32>, bn: seq<u32>, s: nat)
    requires Normalized(bn) && |bn| <= |a| && s < 32
    ensures Pow2(s) * Val(a) < Scale(|a| - |bn| + 1, Val(bn))
  {
    ShiftedBound(a, s);
    var n, half := |bn|, 0x8000_0000;
    TopLimbRange(bn);
    ScaleMono(n - 1, half, bn[n - 1] as int);
    ScaleMono(|a| - n + 1, Scale(n - 1, half), Val(bn));
    ScaleScale(|a| - n + 1, n - 1, half);
  }

  lemma ShiftedBound(a: seq<u32>, s: nat)
    requires s < 32
    ensures Pow2(s) * Val(a) < Scale(|a|, 0x8000_0000)
  {
    var p, unit := Pow2(s), Scale(|a|, 1);
    ValBound(a);
    Pow2Monotone(s, 31);
    Pow2Values();
    ScaleMul(|a|, 0x8000_0000, 1);
    MulMono(unit, p, 0x8000_0000);
    MulMono(p, Val(a) + 1, unit);
    Distribute(p, Val(a), 1);
  }

  /** What the top limb says of the value. */
  lemma TopLimbRange(a: seq<u32>)
    requires |a| > 0
    ensures Scale(|a| - 1, a[|a| - 1] as int) <= Val(a) < Scale(|a| - 1, a[|a| - 1] as int + 1)
  {
    var k := |a| - 1;
    ValTake(a, k);
    assert a[..k + 1] == a;
    ValBound(a[..k]);
    ScaleAdd(k, a[k] as int, 1);
  }

  lemma LowLimbs(an: seq<u32>, bn: seq<u32>)
    requires |bn| <= |an| && Val(an) < Val(bn)
    ensures Val(an[..|bn|]) == Val(an)
  {
    ValBound(bn);
    ValSmall(an, |bn|);
  }

  lemma Unscale(p: nat, a: nat, b: nat, v: nat, q: nat, r: nat)
    requires p > 0 && v == p * b && p * a == r + v * q && r < v
    ensures r / p < b && a == b * q + r / p
  {
    MulAssoc(p, b, q);
    Distribute(p, a, b * q);
    DivModUnique(r, p, a - b * q, 0);
    QuotientBelow(r, p, b);
  }

  method NormalizeDivisor(b: seq<u32>, s: nat) returns (bn: seq<u32>)
    requires |b| >= 2 && b[|b| - 1] > 0 && s == LeadingZeros(b[|b| - 1])
    ensures |bn| == |b| && Val(bn) == Pow2(s) * Val(b) && Normalized(bn)
  {
    var n := |b|;
    if s == 0 { return b; }
    var carry;
    bn, carry := ShiftUp([], b, s);
    ShiftedTop(b, bn, s, carry);
  }

  /** Shifting by the leading zeros of the top limb loses nothing and sets its top bit. */
  lemma ShiftedTop(b: seq<u32>, bn: seq<u32>, s: nat, carry: u32)
    requires |b| == |bn| > 0 && b[|b| - 1] > 0 && s == LeadingZeros(b[|b| - 1])
    requires WithCarry(bn, |bn|, carry as u64) == Pow2(s) * Val(b)
    ensures carry == 0 && Val(bn) == Pow2(s) * Val(b) && bn[|bn| - 1] >= 0x8000_0000
  {
    var k, p, top, topn := |b| - 1, Pow2(s), b[|b| - 1] as int, bn[|b| - 1] as int;
    TopLimbRange(b);
    TopLimbRange(bn);
    ScaledRange(k, p, top, Val(b), Pow2(s) * Val(b));
    TopBelow(p, top, s);
    ScaleMono(k, p * top + p, BASE);
    ScaleUp(k, 1);
    ScaleMono(k + 1, 1, carry as int);
    ScaleMono(k + 1, 0, carry as int);
    assert carry == 0;
    ScaleMono(k, topn + 1, p * top);
  }

  lemma ScaledRange(k: nat, p: nat, top: int, b: nat, v: nat)
    requires p > 0 && v == p * b && Scale(k, top) <= b < Scale(k, top + 1)
    ensures Scale(k, p * top) <= v < Scale(k, p * top + p)
  {
    MulMono(p, Scale(k, top), b);
    MulMono(p, b + 1, Scale(k, top + 1));
    ScaleMul(k, p, top);
    ScaleMul(k, p, top + 1);
    Distribute(p, top, 1);
    Distribute(p, b, 1);
  }

  lemma TopBelow(p: nat, top: int, s: nat)
    requires s <= 32 && p == Pow2(s) && p * top < BASE
    ensures p * top + p <= BASE
  {
    HalvesOfLimb(s);
    if top >= Pow2(32 - s) { MulMono(p, Pow2(32 - s), top); }
    MulMono(p, top + 1, Pow2(32 - s));
    Distribute(p, top, 1);
  }

  /** The dividend shifted as the divisor, with one more limb. */
  method ExtendDividend(a: seq<u32>, s: nat) returns (an: array<u32>)
    requires s < 32
    ensures fresh(an) && an.Length == |a| + 1 && Val(an[..]) == Pow2(s) * Val(a)
  {
    var limbs := a + [0];
    ScaleMono(|a|, 0, 0);
    ValSnoc(a, 0);
    if s > 0 {
      var shifted, carry := ShiftUp([], a, s);
      ValSnoc(shifted, carry);
      limbs := shifted + [carry];
    }
    an := new u32[|a| + 1](i requires 0 <= i < |limbs| => limbs[i]);
    assert an[..] == limbs;
  }

  /** The main loop: digits from the top limb down. */
  method DivideLimbs(an: array<u32>, q: array<u32>, bn: seq<u32>, ghost total: nat)
    requires Normalized(bn) && an != q && an.Length == q.Length + |bn|
    requires Val(an[..]) == total && (forall k :: 0 <= k < q.Length ==> q[k] == 0)
    requires Val(an[..]) < Scale(q.Length, Val(bn))
    modifies an, q
    ensures total == Val(an[..]) + Val(bn) * Val(q[..]) && Val(an[..]) < Val(bn)
  {
    ValZeros(q[..]);
    hide Val, Scale;
    var j: nat := q.Length;
    while j > 0
      invariant j <= q.Length
      invariant forall k :: 0 <= k < j ==> q[k] == 0
      invariant Progress(total, an[..], q[..], bn, j)
    {
      j := j - 1;
      ghost var before, digits := an[..], q[..];
      WindowSmall(an[..], bn, j);
      var digit := DivideStep(an, j, bn);
      q[j] := digit;
      assert q[..] == digits[j := digit];
      assert an[..][j..j + |bn| + 1] == Window(an, j, |bn|);
      StepProgress(total, before, an[..], digits, bn, j, digit);
    }
  }
}
