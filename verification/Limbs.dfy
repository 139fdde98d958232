/** Little-endian limb sequences and the natural numbers they stand for. */
module Limbs {
  import opened Words

  ghost function Val(a: seq<u32>): nat
  {
    if |a| == 0 then 0 else a[0] as int + BASE * Val(a[1..])
  }

  predicate Trimmed(a: seq<u32>)
  {
    |a| > 0 ==> a[|a| - 1] != 0
  }

  lemma {:induction false} ValConcat(a: seq<u32>, b: seq<u32>)
    ensures Val(a + b) == Val(a) + Scale(|a|, Val(b))
  {
    if |a| == 0 {
      assert a + b == b;
    } else {
      assert (a + b)[1..] == a[1..] + b;
      ValConcat(a[1..], b);
    }
  }

  lemma ValSnoc(a: seq<u32>, x: u32)
    ensures Val(a + [x]) == Val(a) + Scale(|a|, x as int)
  {
    ValConcat(a, [x]);
    assert Val([x]) == x as int;
  }

  lemma ValSplit(a: seq<u32>, i: nat)
    requires i <= |a|
    ensures Val(a) == Val(a[..i]) + Scale(i, Val(a[i..]))
  {
    assert a == a[..i] + a[i..];
    ValConcat(a[..i], a[i..]);
  }

  /** One more limb of a prefix. */
  lemma ValTake(a: seq<u32>, i: nat)
    requires i < |a|
    ensures Val(a[..i + 1]) == Val(a[..i]) + Scale(i, a[i] as int)
  {
    assert a[..i + 1] == a[..i] + [a[i]];
    ValSnoc(a[..i], a[i]);
  }

  lemma {:induction false} ValBound(a: seq<u32>)
    ensures Val(a) < Scale(|a|, 1)
  {
    if |a| > 0 {
      ValBound(a[1..]);
    }
  }

  /** Changing one limb changes the value by the difference at that weight. */
  lemma {:induction false} ValUpdate(a: seq<u32>, i: nat, x: u32)
    requires i < |a|
    ensures Val(a[i := x]) == Val(a) + Scale(i, x as int) - Scale(i, a[i] as int)
  {
    if i == 0 {
      assert a[0 := x][1..] == a[1..];
    } else {
      assert a[i := x][1..] == a[1..][i - 1 := x];
      ValUpdate(a[1..], i - 1, x);
    }
  }

  lemma {:induction false} ValZeros(a: seq<u32>)
    requires forall i :: 0 <= i < |a| ==> a[i] == 0
    ensures Val(a) == 0
  {
    if |a| > 0 {
      ValZeros(a[1..]);
    }
  }

  /** A value below the weight of limb `k` has only zero limbs from `k` on. */
  lemma ValSmall(a: seq<u32>, k: nat)
    requires k <= |a| && Val(a) < Scale(k, 1)
    ensures forall i :: k <= i < |a| ==> a[i] == 0
    ensures Val(a[..k]) == Val(a)
  {
    ValSplit(a, k);
    ScaleMono(k, 1, Val(a[k..]));
    ZeroLimbs(a[k..]);
    forall i | k <= i < |a| ensures a[i] == 0 {
      assert a[i] == a[k..][i - k];
    }
  }

  lemma {:induction false} ZeroLimbs(a: seq<u32>)
    requires Val(a) == 0
    ensures forall i :: 0 <= i < |a| ==> a[i] == 0
  {
    if |a| > 0 {
      ZeroLimbs(a[1..]);
      forall i | 0 < i < |a| ensures a[i] == 0 {
        assert a[i] == a[1..][i - 1];
      }
    }
  }

  /** A trimmed number is at least the weight of its top limb. */
  lemma TrimmedBound(a: seq<u32>)
    requires Trimmed(a) && |a| > 0
    ensures Val(a) >= Scale(|a| - 1, 1)
  {
    var n := |a| - 1;
    ValSplit(a, n);
    assert a[n..] == [a[n]];
    assert Val(a[n..]) == a[n] as int;
    ScaleMono(n, 1, a[n] as int);
  }

  /** Trimmed sequences are a canonical form: one for each number. */
  lemma {:induction false} ValInjective(a: seq<u32>, b: seq<u32>)
    requires Trimmed(a) && Trimmed(b) && Val(a) == Val(b)
    ensures a == b
  {
    if |a| < |b| {
      LongerIsLarger(a, b);
    } else if |b| < |a| {
      LongerIsLarger(b, a);
    } else if |a| > 0 {
      DivModUnique(Val(a), BASE, Val(a[1..]), a[0] as int);
      DivModUnique(Val(b), BASE, Val(b[1..]), b[0] as int);
      ValInjective(a[1..], b[1..]);
      assert a == [a[0]] + a[1..] && b == [b[0]] + b[1..];
    }
  }

  /** Comparing numbers of different length. */
  lemma LongerIsLarger(a: seq<u32>, b: seq<u32>)
    requires Trimmed(b) && |a| < |b|
    ensures Val(a) < Val(b)
  {
    ValBound(a);
    TrimmedBound(b);
    ScaleGrows(|a|, |b| - 1, 1);
  }

  /** Comparing numbers of equal length by the highest limb that differs. */
  lemma HighLimbDecides(a: seq<u32>, b: seq<u32>, i: nat)
    requires |a| == |b| && i < |a| && a[i + 1..] == b[i + 1..] && a[i] < b[i]
    ensures Val(a) < Val(b)
  {
    hide Val, Scale;
    ValSplit(a, i + 1);
    ValSplit(b, i + 1);
    ValTake(a, i);
    ValTake(b, i);
    ValBound(a[..i]);
    ScaleMono(i, a[i] as int + 1, b[i] as int);
    ScaleAdd(i, a[i] as int, 1);
  }
}
