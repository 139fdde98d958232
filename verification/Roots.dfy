/** Integer square roots by Newton's method, and greatest common divisors. */
module Roots {
  import opened Words
  import opened Limbs
  import opened BigInts
  import opened NumberTheory

  // ---------------------------------------------------------------- square roots

  ghost predicate IsRoot(n: int, r: int)
  {
    0 <= r && r * r <= n < (r + 1) * (r + 1)
  }

  lemma RootUnique(n: int, r: int, s: int)
    requires IsRoot(n, r) && IsRoot(n, s)
    ensures r == s
  {
    if r < s { MulBounds(r + 1, r + 1, s); }
    if s < r { MulBounds(s + 1, s + 1, r); }
  }

  lemma SquareOfSum(a: int, b: int)
    ensures 4 * (a * b) <= (a + b) * (a + b)
  {
    assert (a - b) * (a - b) >= 0 by {
      if a >= b { MulMono(a - b, 0, a - b); } else { MulMono(b - a, 0, b - a); }
    }
  }

  /** The Newton iterate from any positive point is not below the root. */
  lemma NewtonAboveRoot(n: nat, x: nat, y: int)
    requires x > 0 && y == (x + n / x) / 2
    ensures n < (y + 1) * (y + 1) && 0 <= y && (n > 0 ==> 0 < y)
  {
    var q := n / x;
    QuotientAndRest(n, x);
    if q < 0 { MulMono(x, q, -1); }
    Distribute(x, q, 1);
    SquareOfSum(x, q + 1);
    var s := 2 * y + 2;
    MulBounds(x + q + 1, x + q + 1, s);
    assert s * s == 4 * ((y + 1) * (y + 1));
  }

  /** Where the iterate does not decrease the point is not above the root. */
  lemma NewtonStops(n: nat, x: nat, y: int)
    requires x > 0 && y == (x + n / x) / 2 && y >= x
    ensures x * x <= n
  {
    QuotientAndRest(n, x);
    MulMono(x, x, n / x);
  }

  /** The sum of the next iterate fits in a word. */
  lemma NewtonFits(n: nat, x: nat, limit: int)
    requires limit >= 4 && 2 <= n < 2 * limit && 1 <= x && 2 * x <= n + 1 && n < (x + 1) * (x + 1)
    ensures 0 <= n / x && x + n / x < 2 * limit
  {
    QuotientBelow(n, x, n + 1) by { MulMono(n + 1, 1, x); }
    if x == 1 {
      assert n < 4;
      DivModUnique(n, 1, n, 0);
    } else {
      MulMono(n / 2 + 1, 2, x);
      QuotientBelow(n, x, n / 2 + 1);
    }
  }

  method ISqrtU64(n: u64) returns (x: u64)
    ensures IsRoot(n as int, x as int)
  {
    if n < 2 { return n; }
    x := n;
    var y: u64 := x / 2 + x % 2;
    MulMono(y as int + 1, 2, y as int + 1);
    MulMono(n as int, 1, n as int);
    while y < x
      invariant 1 <= y && n as int < (y as int + 1) * (y as int + 1)
      invariant y < x ==> 2 * y as int <= n as int + 1
      invariant x <= y ==> x as int * x as int <= n as int
      invariant n as int < (x as int + 1) * (x as int + 1)
      decreases x
    {
      x := y;
      NewtonFits(n as int, x as int, 0x8000_0000_0000_0000);
      y := (x + n / x) / 2;
      NewtonAboveRoot(n as int, x as int, y as int);
      if y >= x { NewtonStops(n as int, x as int, y as int); }
    }
  }

  method DivFloor(x: BigInt, y: BigInt) returns (q: BigInt)
    requires x.Canonical() && y.Canonical() && y.Int() > 0
    ensures q.Canonical() && q.Int() == x.Int() / y.Int()
  {
    ZeroMagnitude(y);
    var r;
    q, r := DivModFloor(x, y);
    DivModUnique(x.Int(), y.Int(), q.Int(), r.Int());
  }

  method Sqrt(n: BigInt) returns (x: BigInt)
    requires n.Canonical() && !n.neg
    ensures x.Canonical() && IsRoot(n.Int(), x.Int())
  {
    if |n.mag| <= 2 {
      var u := LowWord(n.mag);
      var r := ISqrtU64(u);
      x := FromU64(r);
      return;
    }
    x := StartAboveRoot(n);
    while true
      invariant x.Canonical() && 0 < x.Int() && n.Int() < (x.Int() + 1) * (x.Int() + 1)
      decreases x.Int()
    {
      var q := DivFloor(n, x);
      var sum := Add(x, q);
      var next := Shr(sum, 1);
      assert Pow2(1) == 2;
      var o := Cmp(next, x);
      NewtonAboveRoot(n.Int(), x.Int(), next.Int());
      if o != Less {
        NewtonStops(n.Int(), x.Int(), next.Int());
        return;
      }
      ThreeLimbsTooLarge(n.mag);
      x := next;
    }
  }

  /** A power of two above the root: half the bits, rounded up. */
  method StartAboveRoot(n: BigInt) returns (x: BigInt)
    requires n.Canonical() && !n.neg && !n.IsZero()
    ensures x.Canonical() && 0 < x.Int() && n.Int() < (x.Int() + 1) * (x.Int() + 1)
  {
    var one := FromI64(1);
    var bits := BitLength(n);
    var half := (bits + 1) / 2;
    x := Shl(one, half);
    Pow2Add(half, half);
    Pow2Monotone(bits, half + half);
    MulBounds(Pow2(half), Pow2(half), Pow2(half) + 1);
  }

  // ---------------------------------------------------------------- divisors

  ghost predicate IsMultiple(k: int, d: int, n: int)
  {
    n == k * d
  }

  ghost predicate Divides(d: int, n: int)
  {
    exists k :: IsMultiple(k, d, n)
  }

  /** The greatest common divisor in the order of divisibility: 0 for two zeros. */
  ghost predicate IsGcd(g: int, a: int, b: int)
  {
    && 0 <= g && Divides(g, a) && Divides(g, b)
    && forall d :: Divides(d, a) && Divides(d, b) ==> Divides(d, g)
  }

  ghost predicate IsLcm(l: int, a: int, b: int)
  {
    && 0 <= l && Divides(a, l) && Divides(b, l)
    && forall m :: Divides(a, m) && Divides(b, m) ==> Divides(l, m)
  }

  lemma DividesCombination(d: int, a: int, b: int, u: int, v: int)
    requires Divides(d, a) && Divides(d, b)
    ensures Divides(d, u * a + v * b)
  {
    var k :| IsMultiple(k, d, a);
    var l :| IsMultiple(l, d, b);
    MulAssoc(u, k, d);
    MulAssoc(v, l, d);
    Distribute(d, u * k, v * l);
    assert IsMultiple(u * k + v * l, d, u * a + v * b);
  }

  lemma DividesNegated(d: int, n: int)
    ensures Divides(d, -n) <==> Divides(d, n)
    ensures Divides(-d, n) <==> Divides(d, n)
  {
    if Divides(d, n) {
      var k :| IsMultiple(k, d, n);
      assert IsMultiple(-k, d, -n) && IsMultiple(-k, -d, n);
    }
    if Divides(d, -n) {
      var k :| IsMultiple(k, d, -n);
      assert IsMultiple(-k, d, n);
    }
    if Divides(-d, n) {
      var k :| IsMultiple(k, -d, n);
      assert IsMultiple(-k, d, n);
    }
  }

  /** A combination of `a` and `b` that divides both is their greatest common divisor. */
  lemma BezoutGivesGcd(g: int, a: int, b: int, u: int, v: int)
    requires 0 <= g && Divides(g, a) && Divides(g, b) && g == u * a + v * b
    ensures IsGcd(g, a, b)
  {
    forall d | Divides(d, a) && Divides(d, b) ensures Divides(d, g) {
      DividesCombination(d, a, b, u, v);
    }
  }

  lemma RemainderCombination(a: int, b: int, q: int, r: int, x: int, y: int, u: int, v: int, s: int, t: int)
    requires a == b * q + r && a == u * x + v * y && b == s * x + t * y
    ensures r == (u - s * q) * x + (v - t * q) * y
  {
    assert b * q == (s * q) * x + (t * q) * y by {
      Distribute(q, s * x, t * y);
      MulAssoc(q, s, x);
      MulAssoc(q, t, y);
    }
    Distribute(x, u, s * q);
    Distribute(y, v, t * q);
  }

  /** Euclid's algorithm on the magnitudes; `u` and `v` are the Bezout coefficients. */
  method Gcd(x: BigInt, y: BigInt) returns (a: BigInt, ghost u: int, ghost v: int)
    requires x.Canonical() && y.Canonical()
    ensures a.Canonical() && IsGcd(a.Int(), x.Int(), y.Int())
    ensures a.Int() == u * Val(x.mag) + v * Val(y.mag)
  {
    ghost var m, n := Val(x.mag), Val(y.mag);
    a := Abs(x);
    var b := Abs(y);
    u, v := 1, 0;
    ghost var s, t := 0, 1;
    DividesItself();
    while !b.IsZero()
      invariant a.Canonical() && b.Canonical() && !a.neg && !b.neg
      invariant a.Int() == u * m + v * n && b.Int() == s * m + t * n
      invariant forall d :: Divides(d, a.Int()) && Divides(d, b.Int()) ==> Divides(d, m) && Divides(d, n)
      decreases b.Int()
    {
      var q, r := DivModTrunc(a, b);
      RemainderCombination(a.Int(), b.Int(), q.Int(), r.Int(), m, n, u, v, s, t);
      CommonDivisorsKept(a.Int(), b.Int(), q.Int(), r.Int());
      ZeroMagnitude(r);
      u, v, s, t := s, t, u - s * q.Int(), v - t * q.Int();
      a := b;
      b := r;
    }
    assert Val(b.mag) == 0;
    DividesItself();
    BezoutGivesGcd(a.Int(), m, n, u, v);
    GcdOfMagnitudes(a.Int(), x, y);
  }

  lemma DividesItself()
    ensures forall d :: Divides(d, d) && Divides(d, 0)
  {
    forall d ensures Divides(d, d) && Divides(d, 0) {
      assert IsMultiple(1, d, d) && IsMultiple(0, d, 0);
    }
  }

  lemma CommonDivisorsKept(a: int, b: int, q: int, r: int)
    requires a == b * q + r
    ensures forall d :: Divides(d, b) && Divides(d, r) ==> Divides(d, a)
  {
    forall d | Divides(d, b) && Divides(d, r) ensures Divides(d, a) {
      DividesCombination(d, b, r, q, 1);
    }
  }

  lemma GcdOfMagnitudes(g: int, x: BigInt, y: BigInt)
    requires IsGcd(g, Val(x.mag), Val(y.mag))
    ensures IsGcd(g, x.Int(), y.Int())
  {
    forall d ensures Divides(d, x.Int()) <==> Divides(d, Val(x.mag)) {
      DividesNegated(d, Val(x.mag));
    }
    forall d ensures Divides(d, y.Int()) <==> Divides(d, Val(y.mag)) {
      DividesNegated(d, Val(y.mag));
    }
  }

  /** `a / g * b` for positive `a` and `b` with greatest common divisor `g = u a + v b`. */
  lemma LcmFromGcd(a: int, b: int, g: int, u: int, v: int)
    requires a > 0 && b > 0 && g > 0 && IsGcd(g, a, b) && g == u * a + v * b
    ensures IsLcm(a / g * b, a, b)
  {
    var k :| IsMultiple(k, g, a);
    var j :| IsMultiple(j, g, b);
    DivModUnique(a, g, k, 0);
    var l := k * b;
    if k < 0 { MulMono(g, k, 0); }
    MulMono(k, 0, b);
    assert IsMultiple(k, b, l);
    assert l == j * a by { MulSwap(k, j, g); }
    assert IsMultiple(j, a, l);
    forall m | Divides(a, m) && Divides(b, m) ensures Divides(l, m) {
      var s :| IsMultiple(s, a, m);
      var t :| IsMultiple(t, b, m);
      CommonMultiple(a, b, g, u, v, k, m, s, t);
    }
  }

  lemma CommonMultiple(a: int, b: int, g: int, u: int, v: int, k: int, m: int, s: int, t: int)
    requires g > 0 && a == k * g && g == u * a + v * b && m == s * a && m == t * b
    ensures Divides(k * b, m)
  {
    // m g = u a m + v b m = (u t + v s) a b = (u t + v s) k b g
    var c := u * t + v * s;
    assert m * g == c * (a * b) by {
      Distribute(m, u * a, v * b);
      assert m * (u * a) == (u * t) * (a * b);
      assert m * (v * b) == (v * s) * (a * b);
      Distribute(a * b, u * t, v * s);
    }
    assert a * b == (k * b) * g;
    assert m * g == (c * (k * b)) * g by { MulAssoc(c, k * b, g); }
    var p := c * (k * b);
    if m < p { MulMono(g, m + 1, p); Distribute(g, m, 1); }
    if m > p { MulMono(g, p + 1, m); Distribute(g, p, 1); }
    assert IsMultiple(c, k * b, m);
  }

  method Lcm(x: BigInt, y: BigInt) returns (l: BigInt)
    requires x.Canonical() && y.Canonical()
    ensures l.Canonical() && IsLcm(l.Int(), x.Int(), y.Int())
    ensures l.Int() == 0 <==> x.Int() == 0 || y.Int() == 0
  {
    ZeroMagnitude(x);
    ZeroMagnitude(y);
    if x.IsZero() || y.IsZero() {
      LcmWithZero(x.Int(), y.Int());
      return ZERO;
    }
    var g;
    ghost var u, v;
    g, u, v := Gcd(x, y);
    GcdPositive(g.Int(), x.Int(), y.Int());
    var q := DivFloor(Abs(x), g);
    l := Mul(q, Abs(y));
    LcmSigned(x, y, g.Int(), u, v);
  }

  lemma LcmWithZero(a: int, b: int)
    requires a == 0 || b == 0
    ensures IsLcm(0, a, b)
  {
    DividesItself();
    forall m | Divides(a, m) && Divides(b, m) ensures Divides(0, m) {
      var s :| IsMultiple(s, if a == 0 then a else b, m);
    }
  }

  lemma GcdPositive(g: int, a: int, b: int)
    requires IsGcd(g, a, b) && a != 0
    ensures g > 0
  {
    if g == 0 {
      var k :| IsMultiple(k, g, a);
      assert false;
    }
  }

  lemma LcmSigned(x: BigInt, y: BigInt, g: int, u: int, v: int)
    requires x.Canonical() && y.Canonical() && x.Int() != 0 && y.Int() != 0
    requires g > 0 && IsGcd(g, x.Int(), y.Int()) && g == u * Val(x.mag) + v * Val(y.mag)
    ensures IsLcm(Val(x.mag) / g * Val(y.mag), x.Int(), y.Int()) && Val(x.mag) / g * Val(y.mag) > 0
  {
    var a, b := Val(x.mag), Val(y.mag);
    forall d ensures (Divides(d, x.Int()) <==> Divides(d, a)) && (Divides(d, y.Int()) <==> Divides(d, b)) {
      DividesNegated(d, a);
      DividesNegated(d, b);
    }
    forall m ensures (Divides(x.Int(), m) <==> Divides(a, m)) && (Divides(y.Int(), m) <==> Divides(b, m)) {
      DividesNegated(a, m);
      DividesNegated(b, m);
    }
    LcmFromGcd(a, b, g, u, v);
    var k :| IsMultiple(k, g, a);
    DivModUnique(a, g, k, 0);
    if k <= 0 { MulMono(g, k, 0); }
    MulMono(b, 1, k);
  }
}
