/** Printing and parsing in a base from 2 to 36, a chunk of digits per limb operation. */
module Radix {
  import opened Words
  import opened Limbs
  import opened Magnitude
  import opened BigInts

  const MINUS: u8 := 45
  const PLUS: u8 := 43
  const UNDERSCORE: u8 := 95
  const LIMB_MAX := 0xFFFF_FFFF

  // ---------------------------------------------------------------- what the texts mean

  function DigitVal(c: u8): Option<u32>
  {
    if 48 <= c <= 57 then Some((c - 48) as u32)
    else if 97 <= c <= 122 then Some((c - 97) as u32 + 10)
    else if 65 <= c <= 90 then Some((c - 65) as u32 + 10)
    else None
  }

  function DigitChar(d: int): u8
    requires 0 <= d < 36
  {
    if d < 10 then (48 + d) as u8 else (97 + (d - 10)) as u8
  }

  /** The value read so far is `acc`; underscores are skipped. */
  function Horner(s: seq<u8>, base: int, acc: int): Option<int>
  {
    if |s| == 0 then Some(acc)
    else if s[0] == UNDERSCORE then Horner(s[1..], base, acc)
    else
      match DigitVal(s[0])
      case None => None
      case Some(d) => if d as int >= base then None else Horner(s[1..], base, acc * base + d as int)
  }

  ghost predicate HasDigit(s: seq<u8>)
  {
    exists i :: 0 <= i < |s| && s[i] != UNDERSCORE
  }

  function Body(s: seq<u8>): seq<u8>
  {
    if |s| > 0 && (s[0] == MINUS || s[0] == PLUS) then s[1..] else s
  }

  /** The integer a text denotes. */
  ghost function Parse(s: seq<u8>, base: int): Option<int>
  {
    if !HasDigit(Body(s)) then None
    else
      match Horner(Body(s), base, 0)
      case None => None
      case Some(n) => Some(Signed(|s| > 0 && s[0] == MINUS, n))
  }

  /** The digits of a positive number, none for zero. */
  function Digits(n: nat, base: int): seq<u8>
    requires 2 <= base <= 36
  {
    if n == 0 then []
    else
      Smaller(n, base);
      Digits(n / base, base) + [DigitChar(n % base)]
  }

  lemma Smaller(n: nat, base: int)
    requires n > 0 && base >= 2
    ensures 0 <= n / base < n
  {
    MulMono(n, 2, base);
    QuotientBelow(n, base, n);
  }

  /** The text of an integer. */
  function Render(x: int, base: int): seq<u8>
    requires 2 <= base <= 36
  {
    if x == 0 then [DigitChar(0)]
    else if x < 0 then [MINUS] + Digits(-x, base)
    else Digits(x, base)
  }

  lemma HornerDigit(d: int, rest: seq<u8>, base: int, acc: int)
    requires 2 <= base <= 36 && 0 <= d < base
    ensures Horner([DigitChar(d)] + rest, base, acc) == Horner(rest, base, acc * base + d)
  {
    var s := [DigitChar(d)] + rest;
    assert s[1..] == rest && s[0] != UNDERSCORE && DigitVal(s[0]) == Some(d as u32);
  }

  lemma {:induction false} HornerOfDigits(n: nat, base: int, rest: seq<u8>)
    requires 2 <= base <= 36
    ensures Horner(Digits(n, base) + rest, base, 0) == Horner(rest, base, n)
    decreases n
  {
    if n == 0 {
      assert Digits(n, base) + rest == rest;
    } else {
      Smaller(n, base);
      var m, d := n / base, n % base;
      assert n == base * m + d;
      var last := [DigitChar(d)];
      assert Digits(n, base) + rest == Digits(m, base) + (last + rest);
      HornerOfDigits(m, base, last + rest);
      HornerDigit(d, rest, base, m);
    }
  }

  lemma {:induction false} DigitsShape(n: nat, base: int)
    requires 2 <= base <= 36 && n > 0
    ensures |Digits(n, base)| > 0
    ensures forall i :: 0 <= i < |Digits(n, base)| ==> Digits(n, base)[i] !in {MINUS, PLUS, UNDERSCORE}
    decreases n
  {
    Smaller(n, base);
    if n / base > 0 { DigitsShape(n / base, base); }
  }

  /** A digit is one of 0 to 9 or of a to z, in that order. */
  predicate IsDigit(c: u8)
  {
    48 <= c <= 57 || 97 <= c <= 122
  }

  /** The text of a positive number: digits and lower-case letters, no zero in front. */
  lemma {:induction false} DigitsAreDigits(n: nat, base: int)
    requires 2 <= base <= 36
    ensures forall i :: 0 <= i < |Digits(n, base)| ==> IsDigit(Digits(n, base)[i])
    ensures n > 0 ==> |Digits(n, base)| > 0 && Digits(n, base)[0] != 48
    decreases n
  {
    if n > 0 {
      Smaller(n, base);
      DigitsAreDigits(n / base, base);
      if n / base == 0 {
        assert n == base * (n / base) + n % base;
      }
    }
  }

  /** The shape of a text: "0" for zero, else a minus sign where it is negative and digits without
      a zero in front. */
  lemma RenderShape(x: int, base: int)
    requires 2 <= base <= 36
    ensures var text := Render(x, base);
      && (x == 0 ==> text == [48])
      && (x != 0 ==> text != [] && (text[0] == 45 <==> x < 0))
      && (x != 0 ==> var digits := if x < 0 then text[1..] else text;
           digits != [] && digits[0] != 48 && forall i :: 0 <= i < |digits| ==> IsDigit(digits[i]))
  {
    if x != 0 {
      DigitsAreDigits(if x < 0 then -x else x, base);
    }
  }

  /** What is read as a digit: 0 to 9, and a letter in either case for the same value. */
  lemma DigitValReads(c: u8, d: u32)
    ensures DigitVal(c) == Some(d) <==>
      d < 36 && (c == DigitChar(d as int) || (DigitChar(d as int) >= 97 && c == DigitChar(d as int) - 32))
    ensures d < 36 ==>
      IsDigit(DigitChar(d as int)) && DigitChar(d as int) as int == if d < 10 then 48 + d as int else 87 + d as int
  {
  }

  lemma {:induction false} HornerSkips(s: seq<u8>, rest: seq<u8>, base: int, acc: int)
    ensures Horner(s + [95] + rest, base, acc) == Horner(s + rest, base, acc)
    decreases s
  {
    if |s| == 0 {
      assert (s + [95] + rest)[1..] == rest && s + rest == rest;
    } else {
      assert (s + [95] + rest)[1..] == s[1..] + [95] + rest && (s + rest)[1..] == s[1..] + rest;
      match DigitVal(s[0])
      case None => HornerSkips(s[1..], rest, base, acc);
      case Some(d) => HornerSkips(s[1..], rest, base, if s[0] == 95 then acc else acc * base + d as int);
    }
  }

  lemma DigitGiven(s: seq<u8>, i: nat)
    requires i < |s| && s[i] != 95
    ensures HasDigit(s)
  {
  }

  /** An underscore anywhere after the sign changes nothing. */
  lemma UnderscoreIgnored(a: seq<u8>, b: seq<u8>, base: int)
    requires |a| > 0 && a[0] != 45 && a[0] != 43
    ensures Parse(a + [95] + b, base) == Parse(a + b, base)
    ensures Parse([45] + a + [95] + b, base) == Parse([45] + a + b, base)
  {
    var s, t := a + [95] + b, a + b;
    HornerSkips(a, b, base, 0);
    SameDigits(a, b);
    assert Body(s) == s && Body(t) == t;
    assert ([45] + s)[1..] == s && ([45] + t)[1..] == t;
    assert [45] + a + [95] + b == [45] + s && [45] + a + b == [45] + t;
  }

  lemma SameDigits(a: seq<u8>, b: seq<u8>)
    ensures HasDigit(a + [95] + b) <==> HasDigit(a + b)
  {
    var s, t := a + [95] + b, a + b;
    if HasDigit(s) {
      var i :| 0 <= i < |s| && s[i] != 95;
      DigitGiven(t, if i < |a| then i else i - 1);
    }
    if HasDigit(t) {
      var i :| 0 <= i < |t| && t[i] != 95;
      DigitGiven(s, if i < |a| then i else i + 1);
    }
  }

  /** A plus sign in front of a number without a sign changes nothing, a minus sign negates. */
  lemma SignInFront(s: seq<u8>, base: int)
    requires |s| > 0 && s[0] != 45 && s[0] != 43
    ensures Parse([43] + s, base) == Parse(s, base)
    ensures Parse([45] + s, base) ==
      match Parse(s, base) { case None => None case Some(n) => Some(-n) }
  {
    assert ([43] + s)[1..] == s && ([45] + s)[1..] == s;
  }

  /** Parsing a printed integer gives it back. */
  lemma ParseRender(x: int, base: int)
    requires 2 <= base <= 36
    ensures Parse(Render(x, base), base) == Some(x)
  {
    if x == 0 {
      var zero := [DigitChar(0)];
      assert Body(zero) == zero && zero[0] != UNDERSCORE && zero == zero + [];
      HornerDigit(0, [], base, 0);
    } else {
      var n := if x < 0 then -x else x;
      var text, digits := Render(x, base), Digits(n, base);
      DigitsShape(n, base);
      assert Body(text) == digits;
      assert digits[0] != UNDERSCORE;
      HornerOfDigits(n, base, []);
      assert digits + [] == digits;
    }
  }

  // ---------------------------------------------------------------- chunks

  lemma {:induction false} PowPositive(base: int, k: nat)
    requires base >= 2
    ensures Pow(base, k) >= 1
    ensures k > 0 ==> Pow(base, k) >= base
  {
    if k > 0 {
      PowPositive(base, k - 1);
      MulMono(base, 1, Pow(base, k - 1));
    }
  }

  lemma {:induction false} PowMonotone(base: int, i: nat, j: nat)
    requires base >= 2 && i <= j
    ensures Pow(base, i) <= Pow(base, j)
  {
    if i < j {
      PowMonotone(base, i, j - 1);
      PowPositive(base, j - 1);
      MulMono(Pow(base, j - 1), 1, base);
    }
  }

  /** The largest power of the base that fits in a limb. */
  method BaseChunk(base: u32) returns (chunk: u32, k: nat)
    requires 2 <= base <= 36
    ensures k >= 1 && chunk as int == Pow(base as int, k)
    ensures Pow(base as int, k + 1) > LIMB_MAX
  {
    var p := base as u64;
    k := 1;
    assert Pow(base as int, 1) == base as int * Pow(base as int, 0);
    while p * base as u64 <= 0xFFFF_FFFF
      invariant k >= 1 && 2 <= p <= 0xFFFF_FFFF && p as int == Pow(base as int, k)
      invariant p as int * base as int <= 0xFFFF_FFFF * 36
      decreases 0x1_0000_0000 - p as int
    {
      MulMono(p as int, 2, base as int);
      p := p * base as u64;
      k := k + 1;
      MulMono(p as int, base as int, 36);
    }
    chunk := p as u32;
  }

  // ---------------------------------------------------------------- parsing

  /** The number read so far: full chunks in `mag`, `n` more digits in `acc`. */
  ghost function ReadSoFar(mag: seq<u32>, base: u32, n: nat, acc: u32): int
  {
    Val(mag) * Pow(base as int, n) + acc as int
  }

  lemma NextDigit(mag: seq<u32>, base: u32, k: nat, n: nat, acc: u32, d: u32)
    requires 2 <= base && n < k && Pow(base as int, k) <= LIMB_MAX
    requires acc as int < Pow(base as int, n) && d < base
    ensures 0 <= acc as int * base as int
    ensures acc as int * base as int + d as int < Pow(base as int, n + 1) <= LIMB_MAX
    ensures ReadSoFar(mag, base, n + 1, (acc as int * base as int + d as int) as u32)
         == ReadSoFar(mag, base, n, acc) * base as int + d as int
  {
    var p, b := Pow(base as int, n), base as int;
    PowMonotone(b, n + 1, k);
    MulMono(b, acc as int + 1, p);
    Distribute(b, acc as int, 1);
    MulMono(b, 0, acc as int);
    Distribute(b, Val(mag) * p, acc as int);
    MulSwap(b, Val(mag), p);
  }

  lemma ChunkRead(mag: seq<u32>, base: u32, n: nat, acc: u32, m: u32, mag': seq<u32>)
    requires m as int == Pow(base as int, n) && Val(mag') == m as int * Val(mag) + acc as int
    ensures ReadSoFar(mag', base, 0, 0) == ReadSoFar(mag, base, n, acc) == Val(mag')
  {
    assert Pow(base as int, 0) == 1;
    assert Val(mag) * Pow(base as int, n) == m as int * Val(mag);
  }

  lemma NothingRead(base: u32)
    ensures ReadSoFar([], base, 0, 0) == 0 && Pow(base as int, 0) == 1 && !HasDigit([])
  {
  }

  lemma WholeChunks(mag: seq<u32>, base: u32, acc: u32)
    requires acc as int < Pow(base as int, 0)
    ensures ReadSoFar(mag, base, 0, acc) == Val(mag)
  {
  }

  method SmallPower(base: u32, n: nat, ghost k: nat) returns (m: u32)
    requires 2 <= base && 0 < n < k && Pow(base as int, k) <= LIMB_MAX
    ensures m as int == Pow(base as int, n)
  {
    m := base;
    assert Pow(base as int, 1) == base as int * Pow(base as int, 0);
    for i := 1 to n
      invariant m as int == Pow(base as int, i)
    {
      PowMonotone(base as int, i + 1, k);
      PowPositive(base as int, i + 1);
      m := m * base;
    }
  }

  method FromStr(s: seq<u8>, base: u32) returns (r: Option<BigInt>)
    requires 2 <= base <= 36
    ensures r.Some? <==> Parse(s, base as int).Some?
    ensures r.Some? ==> r.value.Canonical() && Some(r.value.Int()) == Parse(s, base as int)
  {
    hide ReadSoFar, Pow, HasDigit, Val;
    NothingRead(base);
    var neg := |s| > 0 && s[0] == MINUS;
    var i := if |s| > 0 && (s[0] == MINUS || s[0] == PLUS) then 1 else 0;
    ghost var body, start := Body(s), i;
    assert s[start..start] == [];
    var chunk, k := BaseChunk(base);
    var mag: seq<u32> := [];
    var acc: u32 := 0;
    var n: nat := 0;
    var any := false;
    ghost var value := 0;
    while i < |s|
      invariant start <= i <= |s| && n < k && acc as int < Pow(base as int, n)
      invariant value == ReadSoFar(mag, base, n, acc)
      invariant Horner(body, base as int, 0) == Horner(s[i..], base as int, value)
      invariant any <==> HasDigit(s[start..i])
    {
      var c := s[i];
      assert s[i..][1..] == s[i + 1..] && s[i..][0] == c;
      OneMore(s[start..i], c);
      assert s[start..i + 1] == s[start..i] + [c];
      i := i + 1;
      if c == UNDERSCORE { continue; }
      var v := DigitVal(c);
      if v.None? || v.value >= base { return None; }
      any := true;
      NextDigit(mag, base, k, n, acc, v.value);
      acc := acc * base + v.value;
      n := n + 1;
      value := value * base as int + v.value as int;
      if n == k {
        ghost var before, a := mag, acc;
        mag := UMulSmall(mag, chunk, acc);
        ChunkRead(before, base, n, a, chunk, mag);
        acc := 0;
        n := 0;
      }
    }
    assert s[start..|s|] == body && s[|s|..] == [];
    if !any { return None; }
    if n > 0 {
      var m := SmallPower(base, n, k);
      ghost var before := mag;
      mag := UMulSmall(mag, m, acc);
      ChunkRead(before, base, n, acc, m, mag);
    } else {
      WholeChunks(mag, base, acc);
    }
    assert value == Val(mag);
    var x := Make(neg, mag);
    r := Some(x);
  }

  lemma OneMore(s: seq<u8>, c: u8)
    ensures HasDigit(s + [c]) <==> HasDigit(s) || c != UNDERSCORE
  {
    var t := s + [c];
    if HasDigit(t) && c == UNDERSCORE {
      var j :| 0 <= j < |t| && t[j] != UNDERSCORE;
      assert s[j] != UNDERSCORE;
    }
    if HasDigit(s) {
      var j :| 0 <= j < |s| && s[j] != UNDERSCORE;
      assert t[j] != UNDERSCORE;
    }
    assert t[|s|] == c;
  }

  // ---------------------------------------------------------------- printing

  function Reverse(s: seq<u8>): (r: seq<u8>)
    ensures |r| == |s|
  {
    if |s| == 0 then [] else Reverse(s[1..]) + [s[0]]
  }

  lemma {:induction false} ReverseSnoc(s: seq<u8>, c: u8)
    ensures Reverse(s + [c]) == [c] + Reverse(s)
  {
    if |s| == 0 {
      assert (s + [c])[1..] == [];
    } else {
      assert (s + [c])[1..] == s[1..] + [c];
      ReverseSnoc(s[1..], c);
    }
  }

  lemma DigitsSnoc(m: nat, d: nat, base: int, n: nat)
    requires 2 <= base <= 36 && d < base && (m > 0 || d > 0) && n == base * m + d
    ensures Digits(n, base) == Digits(m, base) + [DigitChar(d)]
  {
    DivModUnique(n, base, m, d);
    if m > 0 { MulMono(m, 1, base); }
  }

  lemma DigitOut(base: int, q: nat, p: nat, r: nat)
    requires 2 <= base <= 36 && p >= 1 && (q > 0 || r > 0) && r < base * p
    ensures 0 <= r / base < p && 0 <= q * p && 0 <= q * (base * p)
    ensures Digits(q * (base * p) + r, base) == Digits(q * p + r / base, base) + [DigitChar(r % base)]
  {
    QuotientBelow(r, base, p);
    MulMono(p, 0, q);
    if q > 0 { MulMono(p, 1, q); }
    MulSwap(q, base, p);
    SplitDigit(r, base);
    MulMono(base, 0, q * p);
    DigitJoined(base, q * p, q * (base * p), r, r / base, r % base);
  }

  lemma SplitDigit(r: nat, base: nat)
    requires base > 0
    ensures r == base * (r / base) + r % base && 0 <= r / base && 0 <= r % base < base
  {
  }

  lemma DigitJoined(base: int, t: nat, w: nat, r: nat, d: nat, e: nat)
    requires 2 <= base <= 36 && w == base * t && r == base * d + e && e < base && (t > 0 || r > 0)
    ensures Digits(w + r, base) == Digits(t + d, base) + [DigitChar(e)]
  {
    Distribute(base, t, d);
    if d == 0 { assert base * d == 0; }
    DigitsSnoc(t + d, e, base, w + r);
  }

  /** What the digits printed so far and the number still to print say together. */
  ghost predicate Printed(text: seq<u8>, base: int, n: int, out: seq<u8>)
    requires 2 <= base <= 36
  {
    n >= 0 && text == Digits(n, base) + Reverse(out)
  }

  lemma PrintDigit(text: seq<u8>, base: int, n: int, m: int, d: int, out: seq<u8>)
    requires 2 <= base <= 36 && Printed(text, base, n, out) && m >= 0 && 0 <= d < base
    requires Digits(n, base) == Digits(m, base) + [DigitChar(d)]
    ensures Printed(text, base, m, out + [DigitChar(d)])
  {
    ReverseSnoc(out, DigitChar(d));
  }

  /** The number still to print: `r` of a chunk with `j` digits to go, and all above it. */
  function Remaining(q: nat, base: int, j: nat, r: nat): int
  {
    q * Pow(base, j) + r
  }

  lemma NextOut(text: seq<u8>, base: int, q: nat, j: nat, r: nat, out: seq<u8>)
    requires 2 <= base <= 36 && j > 0 && r < Pow(base, j) && (q > 0 || r > 0)
    requires Printed(text, base, Remaining(q, base, j, r), out)
    ensures 0 <= r / base < Pow(base, j - 1) && 0 <= r % base < base
    ensures Printed(text, base, Remaining(q, base, j - 1, r / base), out + [DigitChar(r % base)])
  {
    PowPositive(base, j - 1);
    DigitOut(base, q, Pow(base, j - 1), r);
    PrintDigit(text, base, Remaining(q, base, j, r), Remaining(q, base, j - 1, r / base), r % base, out);
  }

  lemma AllOut(q: nat, base: int, r: nat)
    requires r < Pow(base, 0)
    ensures Remaining(q, base, 0, r) == q
  {
  }

  lemma NothingOut(q: nat, base: int, j: nat)
    requires q == 0
    ensures Remaining(q, base, j, 0) == q
  {
  }

  /** Prints the digits of one chunk, lowest first; the last one without leading zeros. */
  method ChunkDigits(out: seq<u8>, rem: u32, base: u32, k: nat, last: bool, ghost q: nat, ghost text: seq<u8>)
    returns (out': seq<u8>)
    requires 2 <= base <= 36 && rem as int < Pow(base as int, k) && (last <==> q == 0)
    requires Printed(text, base as int, Remaining(q, base as int, k, rem as int), out)
    ensures Printed(text, base as int, q, out')
  {
    hide *;
    out' := out;
    var r := rem;
    var j := k;
    while j > 0
      invariant 0 <= j <= k && r as int < Pow(base as int, j)
      invariant Printed(text, base as int, Remaining(q, base as int, j, r as int), out')
    {
      if last && r == 0 {
        NothingOut(q, base as int, j);
        return;
      }
      NextOut(text, base as int, q, j, r as int, out');
      var d := r % base;
      r := r / base;
      out' := out' + [DigitChar(d as int)];
      j := j - 1;
    }
    AllOut(q, base as int, r as int);
  }

  method ToStringRadix(x: BigInt, base: u32) returns (text: seq<u8>)
    requires 2 <= base <= 36 && x.Canonical()
    ensures text == Render(x.Int(), base as int)
  {
    ZeroMagnitude(x);
    if x.IsZero() { return [DigitChar(0)]; }
    var chunk, k := BaseChunk(base);
    PowPositive(base as int, k);
    var t := x.mag;
    var out: seq<u8> := [];
    ghost var digits := Digits(Val(x.mag), base as int);
    assert digits + Reverse([]) == digits;
    while |t| > 0
      invariant Trimmed(t) && Printed(digits, base as int, Val(t), out)
      decreases Val(t)
    {
      PositiveValue(t);
      ghost var before := Val(t);
      var r;
      t, r := UDivSmall(t, chunk);
      assert chunk as int * Val(t) == Val(t) * Pow(base as int, k);
      MulMono(Val(t), 2, chunk as int);
      PositiveValue(t);
      out := ChunkDigits(out, r, base, k, |t| == 0, Val(t), digits);
    }
    assert Reverse(out) == digits;
    if x.neg {
      ReverseSnoc(out, MINUS);
      out := out + [MINUS];
    }
    text := Reverse(out);
  }

  lemma PositiveValue(t: seq<u32>)
    requires Trimmed(t)
    ensures |t| > 0 <==> Val(t) > 0
  {
    if |t| > 0 {
      TrimmedBound(t);
      ScaleGrows(0, |t| - 1, 1);
    }
  }

  /** What is printed is parsed back to the same number, sign and limbs alike. */
  method PrintThenParse(x: BigInt, base: u32) returns (r: Option<BigInt>)
    requires 2 <= base <= 36 && x.Canonical()
    ensures r == Some(x)
  {
    var text := ToStringRadix(x, base);
    r := FromStr(text, base);
    ParseRender(x.Int(), base as int);
    EqualityIsIntegerEquality(x, r.value);
  }
}
