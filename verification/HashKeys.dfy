/** The keys a Hash compares and hashes without calling back: Integer, Symbol, Float, String. */
module HashKeys {
  import opened Words
  import opened Bits

  datatype Key = IntKey(value: i64) | SymKey(sym: u32) | FloatKey(bits: u64) | StrKey(bytes: seq<u8>)

  const SIGN_BIT: u64 := 0x8000_0000_0000_0000

  // ---------------------------------------------------------------- floats by their bits

  predicate IsNaN(f: u64)
  {
    f % SIGN_BIT > 0x7FF0_0000_0000_0000
  }

  predicate IsZeroFloat(f: u64)
  {
    f % SIGN_BIT == 0
  }

  /** `==` of floats: a NaN equals nothing, the two zeros equal each other. */
  predicate FloatEquals(f: u64, g: u64)
  {
    !IsNaN(f) && !IsNaN(g) && (f == g || (IsZeroFloat(f) && IsZeroFloat(g)))
  }

  // ---------------------------------------------------------------- equality and code

  /** `native_eql`: the key asked about and a stored one. */
  predicate Eql(key: Key, stored: Key)
  {
    match key
    case FloatKey(x) => stored.FloatKey? && (FloatEquals(x, stored.bits) || (IsNaN(x) && x == stored.bits))
    case StrKey(_) => stored == key
    case _ => key == stored
  }

  function Times(x: nat, c: nat): nat
  {
    x * c % BASE
  }

  /** The final mix of a hash code. */
  function Mix(code: nat): nat
  {
    var h := Times(Combine(Xor, code, code / 0x1_0000), 0x45d9f3b);
    Combine(Xor, h, h / 0x1_0000)
  }

  /** FNV-1a over bytes. */
  function ByteHash(h: nat, bytes: seq<u8>): nat
    decreases bytes
  {
    if |bytes| == 0 then h else ByteHash(Times(Combine(Xor, h, bytes[0] as nat), 0x0100_0193), bytes[1..])
  }

  /** The `k` low bytes of a word, lowest first. */
  function LowBytes(x: nat, k: nat): seq<u8>
  {
    if k == 0 then [] else [(x % 0x100) as u8] + LowBytes(x / 0x100, k - 1)
  }

  function RawCode(key: Key): nat
  {
    match key
    case IntKey(i) => i as int % BASE
    case SymKey(s) => s as nat
    case FloatKey(f) => ByteHash(0x811c_9dc5, LowBytes(if IsZeroFloat(f) then 0 else f as nat, 8))
    case StrKey(b) => ByteHash(0x811c_9dc5, b)
  }

  function Word(x: nat): u32
  {
    (x % BASE) as u32
  }

  /** `native_code`. */
  function Code(key: Key): u32
  {
    Word(Mix(RawCode(key)))
  }

  /** One representative for each class of equal keys. */
  function Canon(key: Key): Key
  {
    if key.FloatKey? && IsZeroFloat(key.bits) then FloatKey(0) else key
  }

  /** Equality is that of the payload, but for the two zeros among the floats, and keys of two
      kinds are never equal. A NaN is equal to its own bits alone. */
  lemma EqlByPayload(i: i64, j: i64, s: u32, t: u32, x: u64, y: u64, b: seq<u8>, c: seq<u8>)
    ensures Eql(IntKey(i), IntKey(j)) <==> i == j
    ensures Eql(SymKey(s), SymKey(t)) <==> s == t
    ensures Eql(StrKey(b), StrKey(c)) <==> b == c
    ensures Eql(FloatKey(x), FloatKey(y)) <==>
      x == y || (x % 0x8000_0000_0000_0000 == 0 && y % 0x8000_0000_0000_0000 == 0)
    ensures !Eql(IntKey(i), SymKey(s)) && !Eql(IntKey(i), FloatKey(x)) && !Eql(IntKey(i), StrKey(b))
    ensures !Eql(SymKey(s), FloatKey(x)) && !Eql(SymKey(s), StrKey(b)) && !Eql(FloatKey(x), StrKey(b))
  {
  }

  /** Equality on floats by the rules of IEEE 754 comparison, with a NaN by its bits. */
  lemma FloatEqlIsEquals(x: u64, y: u64)
    ensures Eql(FloatKey(x), FloatKey(y)) <==> FloatEquals(x, y) || (IsNaN(x) && x == y)
    ensures FloatEquals(x, x) <==> !IsNaN(x)
    ensures IsNaN(x) <==> x / 0x10_0000_0000_0000 % 0x800 == 0x7FF && x % 0x10_0000_0000_0000 != 0
  {
  }

  lemma EqlIsSameCanon(a: Key, b: Key)
    ensures Eql(a, b) <==> Canon(a) == Canon(b)
  {
  }

  lemma EqlEquivalence(a: Key, b: Key, c: Key)
    ensures Eql(a, a)
    ensures Eql(a, b) ==> Eql(b, a)
    ensures Eql(a, b) && Eql(b, c) ==> Eql(a, c)
  {
  }

  /** What the index relies on: equal keys have equal codes. */
  lemma EqlSameCode(a: Key, b: Key)
    requires Eql(a, b)
    ensures Code(a) == Code(b)
  {
  }
}
