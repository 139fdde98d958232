/** The constants and the sizing rules of a Hash. */
module HashSizes {
  import opened Words
  import opened Bits

  /** Entries up to which a Hash has no index. */
  const AR_MAX_SIZE: nat := 16
  const AR_DEFAULT_CAPA: nat := 4
  const IB_INIT_BIT: nat := 5
  const EA_N_RESERVED_INDICES: nat := 2
  const EA_MAX_INCREASE: nat := 0xFFFF
  const EA_MAX_CAPA: nat := 0x8000_0000 - 2

  /** Three quarters of the largest table: at this many entries a wider one is asked for. */
  const TABLE_LIMIT: nat := 0x6000_0000

  function EaNextCapaFor(size: nat, max: nat): nat
  {
    if size < AR_DEFAULT_CAPA then AR_DEFAULT_CAPA
    else
      var capa := size * 6 / 5 + 6;
      var capped := if capa - size > EA_MAX_INCREASE then size + EA_MAX_INCREASE else capa;
      if capped <= max then capped else max
  }

  /** `ib_upper_bound_for`. */
  function UpperBound(capa: nat): nat
  {
    Combine(Or, capa / 4, capa / 2)
  }

  /** Three quarters of a power of two. */
  lemma UpperBoundOfTable(bit: nat)
    requires bit >= 2
    ensures UpperBound(Pow2(bit)) == 3 * Pow2(bit - 2)
  {
    OrDisjoint(1, Pow2(bit - 2), bit - 1);
    OrCommutes(Pow2(bit - 2), Pow2(bit - 1));
  }

  /** A capacity grows past the size unless the limit is reached. */
  lemma NextCapaGrows(size: nat, max: nat)
    requires size <= max
    ensures size <= EaNextCapaFor(size, max)
    ensures size < max ==> size < EaNextCapaFor(size, max)
    ensures AR_DEFAULT_CAPA <= max ==> EaNextCapaFor(size, max) <= max
    ensures EaNextCapaFor(size, max) <= max || EaNextCapaFor(size, max) == AR_DEFAULT_CAPA
  {
  }

  /** The numbers of a table of 2^bit buckets. */
  lemma TableNumbers(bit: nat)
    requires 5 <= bit <= 31
    ensures Pow2(bit - 2) >= 8 && Pow2(bit) == 4 * Pow2(bit - 2) && UpperBound(Pow2(bit)) == 3 * Pow2(bit - 2)
    ensures Pow2(bit) <= EA_MAX_CAPA + 2
    ensures 3 * Pow2(bit - 2) < TABLE_LIMIT ==> bit < 31
    ensures Pow2(bit - 1) == 2 * Pow2(bit - 2)
  {
    UpperBoundOfTable(bit);
    Pow2Monotone(3, bit - 2);
    Pow2Monotone(bit, 31);
    Pow2Values();
    TableLimit();
    assert Pow2(3) == 8;
  }

  /** A table of twice the buckets has room for what filled one. */
  lemma WiderHolds(bit: nat, size: nat)
    requires 5 <= bit <= 31 && size <= 3 * Pow2(bit - 2)
    ensures size < 3 * Pow2(bit - 1) && (bit < 31 ==> size < TABLE_LIMIT)
  {
    TableNumbers(bit);
    if bit < 31 {
      Pow2Monotone(bit - 2, 28);
      TableLimit();
    }
  }

  /** How far a 32-bit number is shifted: by the low five bits of the width. */
  function MaskBits(bit: nat): nat
  {
    bit % 32
  }

  /** `ib_bit_for`: the width of the index for `size` entries. */
  function IbBitFor(size: u32): nat
  {
    var e := 32 - LeadingZeros(size);
    var bit := if e < 31 then e else 31;
    if bit != 31 && UpperBound(Pow2(bit)) < size as int then bit + 1 else bit
  }

  /** The power of two above the size. */
  lemma NextPower(size: u32)
    requires AR_MAX_SIZE < size as int <= EA_MAX_CAPA
    ensures var e := 32 - LeadingZeros(size); 5 <= e <= 31 && size as int < Pow2(e)
  {
    var z := LeadingZeros(size);
    TopBitOfWord(size as int, z);
    PowerBetween(size as int, 32 - z);
  }

  lemma PowerBetween(n: nat, e: nat)
    requires 0 < e && AR_MAX_SIZE < n <= EA_MAX_CAPA && Pow2(e - 1) <= n < Pow2(e)
    ensures 5 <= e <= 31
  {
    Pow2Values();
    assert Pow2(4) == 16;
    if e < 5 { Pow2Monotone(e, 4); }
    if e > 31 { Pow2Monotone(31, e - 1); }
  }

  lemma WidthFits(size: nat, e: nat, bit: nat)
    requires 5 <= e <= 31 && size < Pow2(e)
    requires bit == if e != 31 && UpperBound(Pow2(e)) < size then e + 1 else e
    ensures 5 <= bit <= 31 && (size <= TABLE_LIMIT ==> size <= 3 * Pow2(bit - 2))
  {
    UpperBoundOfTable(e);
    if e == 31 { TableLimit(); }
  }

  lemma IbBitForFits(size: u32)
    requires AR_MAX_SIZE < size as int <= EA_MAX_CAPA
    ensures 5 <= IbBitFor(size) <= 31
    ensures size as int <= TABLE_LIMIT ==> size as int <= 3 * Pow2(IbBitFor(size) - 2)
  {
    NextPower(size);
    WidthFits(size as int, 32 - LeadingZeros(size), IbBitFor(size));
  }

  /** A fifth more and six, at most 65535 more, and never past the limit: the next capacity. */
  lemma NextCapaIs(size: nat, max: nat)
    requires size >= 4
    ensures EaNextCapaFor(size, max) <= max
    ensures EaNextCapaFor(size, max) <= size + size / 5 + 6 && EaNextCapaFor(size, max) <= size + 65535
    ensures EaNextCapaFor(size, max) in {max, size + size / 5 + 6, size + 65535}
    ensures forall small: nat :: small < 4 ==> EaNextCapaFor(small, max) == 4
  {
  }

  /** No narrower index would hold so many entries. */
  lemma IbBitForLeast(size: u32, bit: nat)
    requires AR_MAX_SIZE < size as int <= EA_MAX_CAPA && 2 <= bit < IbBitFor(size)
    ensures size as int > 3 * Pow2(bit - 2)
  {
    var e := 32 - LeadingZeros(size);
    NextPower(size);
    TopBitOfWord(size as int, LeadingZeros(size));
    Narrower(size as int, e, IbBitFor(size), bit);
  }

  lemma Narrower(size: nat, e: nat, wide: nat, bit: nat)
    requires 5 <= e && Pow2(e - 1) <= size && 2 <= bit < wide
    requires wide == e || (wide == e + 1 && UpperBound(Pow2(e)) < size)
    ensures size > 3 * Pow2(bit - 2)
  {
    if bit == e {
      UpperBoundOfTable(e);
    } else {
      Pow2Monotone(bit - 2, e - 3);
      assert Pow2(e - 1) == 2 * Pow2(e - 2) && Pow2(e - 2) == 2 * Pow2(e - 3);
      Pow2Monotone(0, e - 3);
    }
  }

  lemma TableLimit()
    ensures 3 * Pow2(29) == TABLE_LIMIT
  {
    Pow2Values();
    assert Pow2(31) == 2 * Pow2(30);
  }
}
