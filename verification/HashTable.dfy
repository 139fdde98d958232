/** The Hash: entries in insertion order, with an index past sixteen of them. */
module HashTable {
  import opened Words
  import opened HashKeys
  import opened HashIndex
  import opened HashSizes
  import opened EntryArray

  function Keys<V>(es: seq<(Key, V)>): (keys: seq<Key>)
    ensures |keys| == |es| && forall i :: 0 <= i < |es| ==> keys[i] == es[i].0
  {
    seq(|es|, i requires 0 <= i < |es| => es[i].0)
  }

  // ---------------------------------------------------------------- what the operations mean

  /** Storing in an association list: an equal key keeps its place, a new one goes last. */
  function Put<V>(es: seq<(Key, V)>, key: Key, val: V): seq<(Key, V)>
  {
    match IndexOf(Keys(es), key)
    case Some(p) => es[p := (es[p].0, val)]
    case None => es + [(key, val)]
  }

  /** A store into a table with a mask of no bits: only the first entry is ever met. */
  function PastLimit<V>(es: seq<(Key, V)>, key: Key, val: V): seq<(Key, V)>
    requires |es| > 0
  {
    if Eql(key, es[0].0) then es[0 := (es[0].0, val)] else es
  }

  /** The first entry has the key, or the entry that has it holds the value already. */
  ghost predicate NothingLost<V>(es: seq<(Key, V)>, key: Key, val: V)
  {
    match IndexOf(Keys(es), key)
    case None => false
    case Some(p) => p == 0 || es[p].1 == val
  }

  /** A search that only ever meets the first entry finds what the linear search finds. */
  predicate FirstOrNone(keys: seq<Key>, asked: Key)
    requires |keys| > 0
  {
    Eql(asked, keys[0]) || IndexOf(keys, asked) == None
  }

  lemma PastLimitIsPut<V>(es: seq<(Key, V)>, key: Key, val: V)
    requires |es| > 0
    ensures PastLimit(es, key, val) == Put(es, key, val) <==> NothingLost(es, key, val)
  {
    IndexOfFirst(Keys(es), key);
    var r := IndexOf(Keys(es), key);
    if r.Some? && r.value > 0 {
      var p := r.value;
      assert Put(es, key, val)[p] == (es[p].0, val);
      if es[p].1 == val { assert Put(es, key, val) == es; }
    }
  }

  function RemoveAt<V>(es: seq<(Key, V)>, p: nat): seq<(Key, V)>
    requires p < |es|
  {
    es[..p] + es[p + 1..]
  }

  function Without<V>(es: seq<(Key, V)>, key: Key): seq<(Key, V)>
  {
    match IndexOf(Keys(es), key)
    case Some(p) => RemoveAt(es, p)
    case None => es
  }

  lemma KeysOfPush<V>(es: seq<(Key, V)>, e: (Key, V))
    ensures Keys(es + [e]) == Keys(es) + [e.0]
  {
  }

  lemma KeysOfUpdate<V>(es: seq<(Key, V)>, p: nat, val: V)
    requires p < |es|
    ensures Keys(es[p := (es[p].0, val)]) == Keys(es)
  {
  }

  lemma KeysOfRemoval<V>(es: seq<(Key, V)>, p: nat)
    requires p < |es|
    ensures Keys(RemoveAt(es, p)) == Keys(es)[..p] + Keys(es)[p + 1..]
  {
  }

  lemma PushKeepsDistinct(keys: seq<Key>, key: Key)
    requires NoDuplicates(keys) && IndexOf(keys, key) == None
    ensures NoDuplicates(keys + [key])
  {
    var keys' := keys + [key];
    IndexOfFirst(keys, key);
    forall i, j | 0 <= i < j < |keys'| ensures !Eql(keys'[i], keys'[j]) {
      if j == |keys| {
        EqlEquivalence(keys[i], key, key);
        assert !Eql(key, keys[i]);
      }
    }
  }

  lemma RemovalKeepsDistinct(keys: seq<Key>, p: nat)
    requires NoDuplicates(keys) && p < |keys|
    ensures NoDuplicates(keys[..p] + keys[p + 1..])
  {
  }

  lemma PushDistinct<V>(es: seq<(Key, V)>, e: (Key, V))
    requires NoDuplicates(Keys(es)) && IndexOf(Keys(es), e.0) == None
    ensures NoDuplicates(Keys(es + [e])) && Put(es, e.0, e.1) == es + [e]
  {
    KeysOfPush(es, e);
    PushKeepsDistinct(Keys(es), e.0);
  }

  /** The next entry's position, in the bucket its probe ends at. */
  lemma PushIndexed<V>(es: seq<(Key, V)>, e: (Key, V), ib: seq<nat>, bit: nat, b: nat)
    requires IndexOk(Keys(es), ib, bit) && |es| < DELETED && bit <= 31 && Used(ib) < |ib|
    requires b < |ib| && PlaceFrom(Path(e.0, bit), ib, 0, |es|) == ib[b := |es|]
    ensures IndexOk(Keys(es + [e]), ib[b := |es|], bit) && Used(ib[b := |es|]) == Used(ib) + 1
  {
    KeysOfPush(es, e);
    PlaceNext(Keys(es), e.0, ib, bit);
  }

  lemma RemovalDistinct<V>(es: seq<(Key, V)>, p: nat)
    requires NoDuplicates(Keys(es)) && p < |es|
    ensures NoDuplicates(Keys(RemoveAt(es, p)))
  {
    KeysOfRemoval(es, p);
    RemovalKeepsDistinct(Keys(es), p);
  }

  lemma RemovedSize<V>(es: seq<(Key, V)>, p: nat)
    requires p < |es|
    ensures |RemoveAt(es, p)| == |es| - 1
  {
  }

  lemma RemovalIndexed<V>(es: seq<(Key, V)>, p: nat, ib: seq<nat>, bit: nat)
    requires IndexOk(Keys(es), ib, bit) && p < |es|
    ensures IndexOk(Keys(RemoveAt(es, p)), Renumbered(ib, p), bit) && Used(Renumbered(ib, p)) == Used(ib)
  {
    KeysOfRemoval(es, p);
    RemoveKeeps(Keys(es), ib, bit, p);
  }

  lemma IndexSize(keys: seq<Key>, ib: seq<nat>, bit: nat)
    requires IndexOk(keys, ib, bit)
    ensures |ib| == Pow2(bit)
  {
  }

  lemma BucketCount(bit: nat)
    requires 5 <= bit <= 31
    ensures Pow2(bit) - 2 <= DELETED
  {
    TableNumbers(bit);
  }

  lemma OneBucket(bit: nat)
    requires bit == 32
    ensures Pow2(MaskBits(bit)) == 1 && Pow2(bit) > 0
  {
  }

  /** A rebuild's step: the index of the first `p` entries becomes that of one more. */
  lemma PlacePosition(keys: seq<Key>, p: nat, ib: seq<nat>, bit: nat)
    requires p < |keys| && IndexOk(keys[..p], ib, bit) && Used(ib) == p < Pow2(bit) && p < DELETED && bit <= 31
    ensures var r := PlaceFrom(PathOfCode(Code(keys[p]), bit), ib, 0, p);
      IndexOk(keys[..p + 1], r, bit) && Used(r) == p + 1
  {
    hide Used, IndexOk, PlaceFrom, PathOfCode, Code;
    IndexSize(keys[..p], ib, bit);
    PlaceNext(keys[..p], keys[p], ib, bit);
    assert keys[..p + 1] == keys[..p] + [keys[p]];
  }

  // ---------------------------------------------------------------- the table

  datatype Room = Fits | Rebuild(bit: nat) | ToAr

  /** How a probe ends: at a matching entry, at an empty bucket, or after every bucket. */
  datatype Probed = Holds(p: nat) | Vacant(b: nat) | Exhausted

  method ProbeBuckets<V>(entries: seq<(Key, V)>, ib: seq<nat>, bit: nat, key: Key) returns (r: Probed)
    requires NoDuplicates(Keys(entries)) && IndexOk(Keys(entries), ib, bit) && bit <= 31
    ensures r.Holds? ==> IndexOf(Keys(entries), key) == Some(r.p)
    ensures !r.Holds? ==> IndexOf(Keys(entries), key) == None
    ensures r.Vacant? ==> r.b < |ib| && PlaceFrom(Path(key, bit), ib, 0, |entries|) == ib[r.b := |entries|]
    ensures r.Exhausted? ==> Used(ib) == |ib|
  {
    ghost var n;
    r, n := WalkBuckets(entries, ib, bit, key, Code(key));
    match r
    case Holds(p) =>
      OnlyMatch(Keys(entries), key, p);
    case Vacant(b) =>
      ProbeMiss(Keys(entries), key, ib, bit, n);
      PlaceFromAt(Path(key, bit), ib, 0, |entries|, n);
    case Exhausted =>
      ProbeMiss(Keys(entries), key, ib, bit, n);
      AllFilled(key, ib, bit);
  }

  /** The loop over the buckets of one probe. */
  method WalkBuckets<V>(entries: seq<(Key, V)>, ib: seq<nat>, bit: nat, key: Key, code: u32)
    returns (r: Probed, ghost n: nat)
    requires |ib| == Pow2(bit) && |entries| <= DELETED
    requires forall b :: 0 <= b < |ib| ==> ib[b] == EMPTY || ib[b] == DELETED || ib[b] < |entries|
    ensures n <= Pow2(bit) && NotMet(Keys(entries), key, PathOfCode(code, bit), ib, n)
    ensures r.Holds? ==> r.p < |entries| && Eql(key, entries[r.p].0)
    ensures r.Vacant? ==> n < Pow2(bit) && PathOfCode(code, bit)[n] == r.b && ib[r.b] == EMPTY
    ensures r.Exhausted? ==> n == Pow2(bit)
  {
    ghost var keys, path := Keys(entries), PathOfCode(code, bit);
    for i := 0 to Pow2(bit)
      invariant NotMet(keys, key, path, ib, i)
    {
      n := i;
      var b := Bucket(code, i, bit);
      var v := ib[b];
      if v == EMPTY { return Vacant(b), n; }
      if v != DELETED && Eql(key, entries[v].0) { return Holds(v), n; }
      NotMetStep(keys, key, path, ib, i);
    }
    return Exhausted, Pow2(bit);
  }

  lemma AllFilled(key: Key, ib: seq<nat>, bit: nat)
    requires |ib| == Pow2(bit) && bit <= 31 && FilledUpTo(Path(key, bit), ib, Pow2(bit))
    ensures Used(ib) == |ib|
  {
    if Used(ib) < |ib| {
      var n := FirstEmpty(key, ib, bit);
    }
  }

  class HashData<V> {
    /** The live entries in insertion order, and each one's slot in the reference's array. */
    var entries: seq<(Key, V)>
    var slots: seq<nat>
    var nUsed: nat
    var eaCapa: nat
    /** log2 of the bucket count, 0 without an index. */
    var ibBit: nat
    var ib: seq<nat>
    /** The reference's entry array, holes included. */
    ghost var ea: seq<Option<(Key, V)>>

    /** The entries and slots are those of the array with holes. */
    ghost predicate InStep()
      reads this
    {
      Live(ea) == entries && Spots(ea) == slots && |slots| == |entries| <= |ea| == nUsed
    }

    /** What holds whatever the keys are equal to, as before a rehash. */
    ghost predicate Shape()
      reads this
    {
      && InStep()
      && nUsed <= eaCapa <= EA_MAX_CAPA
      && (ibBit == 0 ==> ib == [] && eaCapa <= AR_MAX_SIZE)
      && (ibBit != 0 ==> 5 <= ibBit <= 31 && nUsed <= Pow2(ibBit) - 2 && |entries| <= 3 * Pow2(ibBit - 2))
    }

    /** Distinct keys, and the index right for them. */
    ghost predicate Valid()
      reads this
    {
      && Shape()
      && NoDuplicates(Keys(entries))
      && (ibBit != 0 ==> IndexOk(Keys(entries), ib, ibBit) && Used(ib) == nUsed)
    }

    constructor (capa: nat)
      ensures Valid() && entries == [] && (ibBit != 0 <==> capa > 16)
      ensures eaCapa == if capa < 0x7FFF_FFFE then capa else 0x7FFF_FFFE
    {
      entries, slots, nUsed, ea := [], [], 0, [];
      var size := if capa < EA_MAX_CAPA then capa else EA_MAX_CAPA;
      eaCapa := size;
      ibBit := 0;
      ib := [];
      new;
      if size > AR_MAX_SIZE {
        IbBitForFits(size as u32);
        Pow2Monotone(5, IbBitFor(size as u32));
        Pow2Values();
        HtReset(IbBitFor(size as u32));
        EmptyIndexOk(ib, ibBit);
      }
    }

    // -------------------------------------------------------------- primitives

    method SetValueAt(p: nat, val: V)
      requires p < |entries|
      modifies `entries, `ea
      ensures entries == old(entries)[p := (old(entries)[p].0, val)]
      ensures old(InStep()) ==> InStep() && p < |slots| && slots[p] < |old(ea)|
      ensures old(InStep()) ==> ea == old(ea)[slots[p] := Some(entries[p])]
    {
      ghost var e := (entries[p].0, val);
      SpotsInRange(ea);
      if InStep() {
        Overwrite(ea, p, e);
        ea := ea[slots[p] := Some(e)];
      }
      entries := entries[p := (entries[p].0, val)];
    }

    /** `ea_compress`: the holes are given back. */
    method Compress()
      requires |slots| == |entries|
      modifies `slots, `nUsed, `ea
      ensures InStep() && nUsed == |entries| == |slots| && ea == Packed(entries)
    {
      for i := 0 to |slots|
        modifies `slots
        invariant |slots| == |entries|
        invariant forall j :: 0 <= j < i ==> slots[j] == j
      {
        slots := slots[i := i];
      }
      nUsed := |entries|;
      ea := Packed(entries);
      PackedLive(entries);
      assert slots == Count(|entries|);
    }

    method AdjustEa(size: nat, max: nat)
      modifies `eaCapa
      ensures eaCapa == EaNextCapaFor(size, max)
    {
      eaCapa := EaNextCapaFor(size, max);
    }

    method HtReset(bit: nat)
      modifies `ibBit, `ib
      ensures ibBit == bit && |ib| == Pow2(bit) && forall b :: 0 <= b < |ib| ==> ib[b] == EMPTY
    {
      ibBit := bit;
      ib := seq(Pow2(bit), _ => EMPTY);
    }

    /** Position `p` into the first empty bucket of the probe from `code`. */
    method Place(code: u32, p: nat)
      requires |ib| == Pow2(ibBit)
      modifies `ib
      ensures ib == PlaceFrom(PathOfCode(code, ibBit), old(ib), 0, p)
    {
      ghost var path := PathOfCode(code, ibBit);
      for n := 0 to Pow2(ibBit)
        invariant ib == old(ib) && PlaceFrom(path, ib, n, p) == PlaceFrom(path, ib, 0, p)
      {
        var b := Bucket(code, n, ibBit);
        if ib[b] == EMPTY {
          ib := ib[b := p];
          return;
        }
      }
    }

    /** `ht_to_ar`. */
    method ToArray()
      requires |slots| == |entries|
      modifies this
      ensures entries == old(entries) && InStep() && nUsed == |entries| && ea == Packed(entries)
      ensures eaCapa == EaNextCapaFor(|entries|, AR_MAX_SIZE) && ibBit == 0 && ib == []
    {
      Compress();
      eaCapa := EaNextCapaFor(|entries|, AR_MAX_SIZE);
      ibBit := 0;
      ib := [];
    }

    /** Room for one more entry without an index; whether there has to be an index instead. */
    method ArMakeRoom() returns (full: bool)
      requires Valid() && ibBit == 0
      modifies `slots, `nUsed, `eaCapa, `ea
      ensures Valid()
      ensures full <==> |entries| == old(nUsed) == old(eaCapa) == 16
      ensures full || old(nUsed) != old(eaCapa) ==> unchanged(this)
      ensures !full ==> nUsed < eaCapa
      ensures !full && old(nUsed) == old(eaCapa) ==> ea == Packed(entries) && nUsed == |entries|
      ensures !full && old(nUsed) == old(eaCapa) ==>
        eaCapa == EaNextCapaFor(|entries|, if |entries| == old(nUsed) || old(eaCapa) > 16 then 16 else old(eaCapa))
    {
      var size := |entries|;
      if eaCapa == nUsed {
        if size == nUsed {
          FullIsPacked(ea);
          if size == AR_MAX_SIZE { return true; }
          AdjustEa(size, AR_MAX_SIZE);
        } else {
          Compress();
          AdjustEa(size, if eaCapa < AR_MAX_SIZE then eaCapa else AR_MAX_SIZE);
        }
      }
      return false;
    }

    /** Appends an entry at the end of the array. */
    method ArPush(key: Key, val: V)
      requires InStep()
      modifies `entries, `slots, `nUsed, `ea
      ensures InStep() && entries == old(entries) + [(key, val)] && nUsed == old(nUsed) + 1
      ensures ea == old(ea) + [Some((key, val))]
    {
      Append(ea, (key, val));
      entries := entries + [(key, val)];
      slots := slots + [nUsed];
      nUsed := nUsed + 1;
      ea := ea + [Some((key, val))];
    }

    /** The index is as wide as a 32-bit width can say, and full: a store asks for a wider one. */
    predicate AtLimit()
      reads this
    {
      ibBit == 31 && |entries| >= TABLE_LIMIT
    }

    /** Only the widest table can hold so many entries. */
    lemma LimitIsSize()
      requires Valid()
      ensures AtLimit() <==> |entries| >= TABLE_LIMIT
    {
      hide Live, Spots, Path;
      TableLimit();
      if 5 <= ibBit < 31 { WiderHolds(ibBit, |entries|); }
    }

    /** Whether one more entry fits in the index, or what has to be done first. A width past 31
        is asked for at the limit and nowhere else. */
    method HtMakeRoom() returns (room: Room)
      requires Valid() && ibBit != 0
      modifies `slots, `nUsed, `eaCapa, `ea
      ensures Shape() && |entries| <= nUsed && NoDuplicates(Keys(entries))
      ensures room.Rebuild? && room.bit > 31 <==> old(AtLimit())
      ensures old(AtLimit()) ==> room == Rebuild(32)
      ensures room.Fits? ==> Valid() && nUsed < Pow2(ibBit) - 2 && |entries| < 3 * Pow2(ibBit - 2)
      ensures room.Fits? ==> unchanged(`slots, `nUsed, `eaCapa, `ea)
      ensures room.Rebuild? ==> nUsed == |entries| && ea == Packed(entries)
      ensures room.Rebuild? ==> 5 <= room.bit && |entries| < 3 * Pow2(room.bit - 2)
      ensures |slots| == |entries|
      ensures room.ToAr? ==> |entries| <= 16 && |entries| < nUsed && nUsed == old(nUsed)
      ensures eaCapa == if room == Rebuild(ibBit) then EaNextCapaFor(|entries|, old(eaCapa)) else old(eaCapa)
      ensures room == Rebuild(ibBit + 1) <==> |entries| >= 3 * Pow2(ibBit - 2)
      ensures |entries| < 3 * Pow2(ibBit - 2) && |entries| == old(nUsed) ==> room.Fits?
      ensures |entries| < 3 * Pow2(ibBit - 2) && |entries| < old(nUsed) ==>
        if old(nUsed) + 2 >= Pow2(ibBit) then room == Rebuild(ibBit)
        else if old(nUsed) < old(eaCapa) then room.Fits?
        else if |entries| <= 16 then room.ToAr?
        else room == if EaNextCapaFor(|entries|, EA_MAX_CAPA) <= old(eaCapa) then Rebuild(ibBit) else Fits
    {
      hide Live, Spots, IndexOk, NoDuplicates, Keys, EaNextCapaFor, Pow2, UpperBound, Packed, Used;
      var size := |entries|;
      var bit := ibBit;
      var capa := Pow2(bit);
      TableNumbers(bit);
      TableLimit();
      if size == nUsed { FullIsPacked(ea); }
      if UpperBound(capa) <= size {
        if size != nUsed { Compress(); }
        WiderHolds(bit, size);
        return Rebuild(bit + 1);
      }
      if size != nUsed {
        var compress := false;
        if capa - EA_N_RESERVED_INDICES <= nUsed {
          compress := true;
        } else if eaCapa == nUsed {
          if size <= AR_MAX_SIZE { return ToAr; }
          compress := EaNextCapaFor(size, EA_MAX_CAPA) <= eaCapa;
        }
        if compress {
          NextCapaGrows(size, eaCapa);
          Compress();
          AdjustEa(size, eaCapa);
          return Rebuild(bit);
        }
      }
      return Fits;
    }

    /** Appends an entry and writes its position into bucket `b`. */
    method HtPush(b: nat, key: Key, val: V)
      requires InStep() && nUsed <= eaCapa <= EA_MAX_CAPA && nUsed < EA_MAX_CAPA && b < |ib|
      modifies `entries, `slots, `nUsed, `eaCapa, `ib, `ea
      ensures InStep() && entries == old(entries) + [(key, val)] && nUsed == old(nUsed) + 1
      ensures nUsed <= eaCapa <= EA_MAX_CAPA
      ensures eaCapa == if old(nUsed) < old(eaCapa) then old(eaCapa) else EaNextCapaFor(old(nUsed), EA_MAX_CAPA)
      ensures ib == old(ib)[b := |old(entries)|]
      ensures ea == old(ea) + [Some((key, val))]
    {
      if nUsed == eaCapa { AdjustEa(nUsed, EA_MAX_CAPA); }
      ib := ib[b := |entries|];
      ArPush(key, val);
    }

    /** Takes entry `p` out: its slot becomes a hole, its bucket a deleted one. */
    method RemoveEntry(p: nat) returns (e: (Key, V))
      requires p < |entries| == |slots|
      modifies `entries, `slots, `ib, `ea
      ensures e == old(entries)[p] && entries == RemoveAt(old(entries), p)
      ensures slots == old(slots)[..p] + old(slots)[p + 1..]
      ensures ib == if ibBit != 0 then Renumbered(old(ib), p) else old(ib)
      ensures old(InStep()) ==> InStep() && old(slots)[p] < |old(ea)| && ea == old(ea)[old(slots)[p] := None]
    {
      e := entries[p];
      SpotsInRange(ea);
      if InStep() {
        Punch(ea, p);
        ea := ea[slots[p] := None];
      }
      entries := RemoveAt(entries, p);
      slots := slots[..p] + slots[p + 1..];
      if ibBit != 0 {
        for b := 0 to |ib|
          modifies `ib
          invariant |ib| == old(|ib|)
          invariant forall c :: 0 <= c < b ==> ib[c] == AfterRemoval(old(ib)[c], p)
          invariant forall c :: b <= c < |ib| ==> ib[c] == old(ib)[c]
        {
          if ib[b] == p {
            ib := ib[b := DELETED];
          } else if ib[b] != EMPTY && ib[b] != DELETED && ib[b] > p {
            ib := ib[b := ib[b] - 1];
          }
        }
      }
    }

    // -------------------------------------------------------------- searches

    /** The index a store at the limit leaves: of width 32, with the first entry alone in the one
        bucket a probe sees. */
    ghost predicate OneLeft()
      reads this
    {
      ibBit == 32 && |ib| == Pow2(32) && ib[0] == 0 && |entries| > 0
    }

    /** The search, by the index where there is one: what the linear search finds, or past the
        limit the first entry or nothing. */
    method Find(key: Key) returns (r: Option<nat>)
      requires Valid() || OneLeft()
      ensures Valid() ==> r == IndexOf(Keys(entries), key)
      ensures OneLeft() ==> r == if Eql(key, entries[0].0) then Some(0) else None
      ensures OneLeft() ==> (r == IndexOf(Keys(entries), key) <==> FirstOrNone(Keys(entries), key))
    {
      if ibBit > 31 {
        r := FindPastLimit(key);
        return;
      }
      if ibBit == 0 {
        return IndexOf(Keys(entries), key);
      }
      var r' := ProbeBuckets(entries, ib, ibBit, key);
      return if r'.Holds? then Some(r'.p) else None;
    }

    /** The loop of the search over a mask of no bits: one bucket. */
    method FindPastLimit(key: Key) returns (r: Option<nat>)
      requires OneLeft()
      ensures r == if Eql(key, entries[0].0) then Some(0) else None
    {
      hide Pow2, Code, Eql, PathOfCode, MaskBits;
      OneBucket(ibBit);
      for n := 0 to Pow2(MaskBits(ibBit))
        invariant n > 0 ==> !Eql(key, entries[0].0)
      {
        var b := Bucket(Code(key), n, MaskBits(ibBit));
        var v := ib[b];
        if v == EMPTY { return None; }
        if v != DELETED && Eql(key, entries[v].0) { return Some(v); }
      }
      return None;
    }

    // -------------------------------------------------------------- operations

    /** A fresh index of the given width over packed entries. */
    method HRebuild(bit: nat)
      requires InStep() && nUsed == |entries| <= eaCapa <= EA_MAX_CAPA && NoDuplicates(Keys(entries))
      requires 5 <= bit <= 31 && |entries| <= 3 * Pow2(bit - 2) && |entries| <= Pow2(bit) - 2
      modifies `ibBit, `ib, `nUsed
      ensures Valid() && ibBit == bit && nUsed == old(nUsed)
    {
      hide Live, Spots, Path, IndexOk, NoDuplicates, Keys, Pow2, Used;
      BucketCount(bit);
      HtReset(bit);
      nUsed := |entries|;
      PlaceAll();
    }

    /** The codes of the entries placed, one after the other, in an empty index. */
    method PlaceAll()
      requires |ib| == Pow2(ibBit) && (forall b :: 0 <= b < |ib| ==> ib[b] == EMPTY)
      requires ibBit <= 31 && |entries| < Pow2(ibBit) && |entries| <= DELETED
      modifies `ib
      ensures IndexOk(Keys(entries), ib, ibBit) && Used(ib) == |entries|
    {
      ghost var keys := Keys(entries);
      assert keys[..0] == [] && keys[..|entries|] == keys;
      hide IndexOk, Used, PlaceFrom, PathOfCode, Pow2, Code;
      EmptyIndexOk(ib, ibBit);
      for p := 0 to |entries|
        modifies `ib
        invariant IndexOk(keys[..p], ib, ibBit) && Used(ib) == p
      {
        IndexSize(keys[..p], ib, ibBit);
        PlacePosition(keys, p, ib, ibBit);
        Place(Code(entries[p].0), p);
      }
    }

    /** Stores `val` under `key`. The widest table, full, is the one that is not right afterwards:
        its index is left with the first entry alone, and of the stores it takes only one under
        the first key, where one of a value that is there already changes nothing. */
    method HSet(key: Key, val: V)
      requires Valid()
      modifies this
      ensures Valid() <==> !old(AtLimit())
      ensures old(AtLimit()) ==> OneLeft() && old(entries) != [] && entries == PastLimit(old(entries), key, val)
      ensures entries == Put(old(entries), key, val) <==> !old(AtLimit()) || NothingLost(old(entries), key, val)
      ensures old(ibBit) == 0 && ibBit != 0 ==> |old(entries)| == 16
      ensures !old(AtLimit()) && |entries| > 16 ==> ibBit != 0
      decreases nUsed - |entries|, 1
    {
      hide Live, Spots, Path;
      if ibBit == 0 {
        var f := Find(key);
        if f.Some? {
          KeysOfUpdate(entries, f.value, val);
          SetValueAt(f.value, val);
          return;
        }
        var full := ArMakeRoom();
        if full {
          FullIsPacked(ea);
          TableNumbers(IB_INIT_BIT);
          HRebuild(IB_INIT_BIT);
          HtSet(key, val);
          return;
        }
        PushDistinct(entries, (key, val));
        ArPush(key, val);
        return;
      }
      HtSet(key, val);
    }

    method HtSet(key: Key, val: V)
      requires Valid() && ibBit != 0
      modifies this
      ensures Valid() <==> !old(AtLimit())
      ensures old(AtLimit()) ==> OneLeft() && old(entries) != [] && entries == PastLimit(old(entries), key, val)
      ensures entries == Put(old(entries), key, val) <==> !old(AtLimit()) || NothingLost(old(entries), key, val)
      decreases nUsed - |entries|, 0
    {
      hide Live, Spots, Path, NothingLost, Put, PastLimit, NoDuplicates, IndexOk, Used, Keys, EaNextCapaFor, Pow2,
        Packed;
      var room := HtMakeRoom();
      if room.ToAr? {
        NextCapaGrows(|entries|, AR_MAX_SIZE);
        ToArray();
        HSet(key, val);
      } else if room.Rebuild? && room.bit > 31 {
        PastLimitIsPut(entries, key, val);
        SetPastLimit(room.bit, key, val);
      } else {
        if room.Rebuild? {
          TableNumbers(room.bit);
          HRebuild(room.bit);
        }
        HtStore(key, val);
      }
    }

    /** A rebuild and a store at width 32. The mask is `(1 << 32) - 1` in 32 bits, which shifts
        by nothing: every probe sees bucket 0 alone, and only the first entry is placed. */
    method SetPastLimit(bit: nat, key: Key, val: V)
      requires bit == 32 && |slots| == |entries| > 0
      modifies this
      ensures OneLeft() && entries == PastLimit(old(entries), key, val)
    {
      hide Live, Spots, Path, Pow2, Code, Eql, PathOfCode, MaskBits;
      HtReset(bit);
      nUsed := |entries|;
      OneBucket(bit);
      for p := 0 to |entries|
        modifies `ib
        invariant |ib| == Pow2(bit) && ib[0] == if p == 0 then EMPTY else 0
      {
        var b := Bucket(Code(entries[p].0), 0, MaskBits(bit));
        if ib[b] == EMPTY { ib := ib[b := p]; }
      }
      var b := Bucket(Code(key), 0, MaskBits(bit));
      if Eql(key, entries[ib[b]].0) { SetValueAt(ib[b], val); }
    }

    /** The probe of a store: there is a matching entry or an empty bucket, so no store is lost. */
    method HtStore(key: Key, val: V)
      requires Valid() && ibBit != 0 && nUsed < Pow2(ibBit) - 2 && |entries| < 3 * Pow2(ibBit - 2)
      modifies this
      ensures Valid() && entries == Put(old(entries), key, val)
    {
      hide Live, Spots, Path, PlaceFrom, EaNextCapaFor, Pow2;
      var r := ProbeBuckets(entries, ib, ibBit, key);
      if r.Holds? {
        KeysOfUpdate(entries, r.p, val);
        SetValueAt(r.p, val);
      } else {
        assert r.Vacant?;
        StoreNew(r.b, key, val);
      }
    }

    /** A new key, in the bucket its probe ended at. */
    method StoreNew(b: nat, key: Key, val: V)
      requires Valid() && ibBit != 0 && nUsed < Pow2(ibBit) - 2 && |entries| < 3 * Pow2(ibBit - 2)
      requires IndexOf(Keys(entries), key) == None
      requires b < |ib| && PlaceFrom(Path(key, ibBit), ib, 0, |entries|) == ib[b := |entries|]
      modifies this
      ensures Valid() && entries == old(entries) + [(key, val)]
    {
      hide Live, Spots, Path;
      TableNumbers(ibBit);
      PushDistinct(entries, (key, val));
      PushIndexed(entries, (key, val), ib, ibBit, b);
      HtPush(b, key, val);
    }

    /** The value the key had. */
    method HDelete(key: Key) returns (r: Option<V>)
      requires Valid()
      modifies `entries, `slots, `ib, `ea
      ensures Valid() && entries == Without(old(entries), key)
      ensures r.Some? <==> IndexOf(Keys(old(entries)), key).Some?
      ensures r.Some? ==> r.value == old(entries)[IndexOf(Keys(old(entries)), key).value].1
    {
      var f := Find(key);
      if f.None? { return None; }
      var e := TakeOut(f.value);
      return Some(e.1);
    }

    /** Takes the first entry. */
    method HShift() returns (r: Option<(Key, V)>)
      requires Valid()
      modifies `entries, `slots, `ib, `ea
      ensures Valid()
      ensures old(entries) == [] ==> r == None && entries == []
      ensures old(entries) != [] ==> r == Some(old(entries)[0]) && entries == old(entries)[1..]
    {
      if |entries| == 0 { return None; }
      var e := TakeOut(0);
      return Some(e);
    }

    method TakeOut(p: nat) returns (e: (Key, V))
      requires Valid() && p < |entries|
      modifies `entries, `slots, `ib, `ea
      ensures Valid() && e == old(entries)[p] && entries == RemoveAt(old(entries), p)
    {
      hide Live, Spots, IndexOk, NoDuplicates, Keys, Pow2, Used, RemoveAt, Renumbered;
      RemovalDistinct(entries, p);
      RemovedSize(entries, p);
      if ibBit != 0 { RemovalIndexed(entries, p, ib, ibBit); }
      e := RemoveEntry(p);
    }

    method Clear()
      modifies this
      ensures Valid() && entries == [] && ibBit == 0 && nUsed == eaCapa == 0 && ea == Packed(entries)
    {
      entries, slots, nUsed, eaCapa, ibBit, ib, ea := [], [], 0, 0, 0, [], [];
    }

    /** The position after slot `after`, or the first one: a step of a walk over the entries. */
    method HNext(after: Option<nat>) returns (r: Option<nat>)
      requires InStep()
      ensures r.None? ==> forall i :: (if after.Some? then after.value < i else 0 <= i) && i < |ea| ==> ea[i].None?
      ensures r.Some? ==> r.value < |entries| == |slots|
      ensures r.Some? ==>
        var i := slots[r.value];
        i < |ea| && ea[i] == Some(entries[r.value]) && (after.Some? ==> after.value < i)
        && forall j :: (if after.Some? then after.value < j else 0 <= j) && j < i ==> ea[j].None?
    {
      var p := if after.Some? then After(slots, after.value) else 0;
      if after.Some? { NextLive(ea, after.value); } else { FirstLive(ea); }
      return if p < |entries| then Some(p) else None;
    }

    /** Every entry stored again in order: a later duplicate gives its value to the first. */
    method HRehash()
      requires Shape()
      modifies this
      ensures Valid() && entries == Dedup(old(entries))
      ensures ibBit == 0 <==> |entries| <= 16
      ensures nUsed == |entries| && ea == Packed(entries)
    {
      hide Live, Spots, Path;
      if |entries| == 0 {
        Clear();
        return;
      }
      if ibBit != 0 && |entries| <= AR_MAX_SIZE { ToArray(); }
      var ht, capa := ibBit != 0, eaCapa;
      ghost var orig := entries;
      BeginRehash(ht);
      MoveAll(ht);
      DedupSize(orig);
      FinishRehash(ht, capa);
    }

    /** An empty index for the size, or none. */
    method BeginRehash(ht: bool)
      requires InStep() && (ht ==> ibBit != 0 && AR_MAX_SIZE < |entries|) && (!ht ==> ibBit == 0 && ib == [])
      requires ht ==> 5 <= ibBit <= 31 && |entries| <= 3 * Pow2(ibBit - 2)
      modifies `ibBit, `ib, `nUsed
      ensures Rehashing(ht, 0)
    {
      hide Live, Spots, IndexOk, NoDuplicates, Pow2, Used, IbBitFor, Sliding;
      SlotsSlide();
      NothingStored();
      if ht {
        RehashWidth(ibBit, |entries|);
        HtReset(IbBitFor(|entries| as u32));
        nUsed := 0;
        EmptyIndexOk(ib, ibBit);
        NoMarks(ib);
      }
    }

    lemma SlotsSlide()
      requires InStep()
      ensures |slots| == |entries| && Sliding(slots, 0)
    {
      SpotsOfLive(ea);
      SlidingStart(slots);
    }

    lemma NothingStored()
      ensures Keys(entries[..0]) == [] && NoDuplicates(Keys(entries[..0]))
    {
      assert entries[..0] == [];
    }

    /** The end of a rehash: no hole, and the form by the number of entries left. */
    method FinishRehash(ht: bool, capa: nat)
      requires Rehashing(ht, |entries|) && eaCapa == capa <= EA_MAX_CAPA && |entries| <= capa
      requires !ht ==> capa <= AR_MAX_SIZE
      modifies this
      ensures Valid() && entries == old(entries)
      ensures ibBit == 0 <==> |entries| <= AR_MAX_SIZE
      ensures eaCapa == EaNextCapaFor(|entries|, if ht && |entries| <= 16 then 16 else capa)
      ensures nUsed == |entries| && ea == Packed(entries)
    {
      hide Live, Spots, Path;
      nUsed := |entries|;
      ea := Packed(entries);
      PackedLive(entries);
      SlidingEnd(slots);
      assert entries[..|entries|] == entries;
      NextCapaGrows(|entries|, if ht && |entries| <= AR_MAX_SIZE then AR_MAX_SIZE else capa);
      if ht && |entries| <= AR_MAX_SIZE {
        ToArray();
      } else {
        if ht { TableNumbers(ibBit); }
        AdjustEa(|entries|, capa);
      }
    }

    /** The state of a rehash with the first `w` entries stored again. */
    ghost predicate Rehashing(ht: bool, w: nat)
      reads this
    {
      && w <= |entries| == |slots|
      && NoDuplicates(Keys(entries[..w]))
      && Sliding(slots, w)
      && (if ht then
            && 5 <= ibBit <= 31 && |entries| <= 3 * Pow2(ibBit - 2)
            && IndexOk(Keys(entries[..w]), ib, ibBit) && Used(ib) == w
            && (forall b :: 0 <= b < |ib| ==> ib[b] != DELETED)
          else ibBit == 0 && ib == [])
    }

    method MoveAll(ht: bool)
      requires Rehashing(ht, 0)
      modifies `entries, `slots, `ib, `ea
      ensures Rehashing(ht, |entries|) && entries == Dedup(old(entries))
    {
      var w: nat, left := 0, |entries|;
      ghost var orig, done := entries, 0;
      assert entries[..0] == [] && orig[..0] == [];
      while left > 0
        invariant done + left == |orig| && w + left == |entries|
        invariant Rehashing(ht, w)
        invariant entries[..w] == Dedup(orig[..done]) && entries[w..] == orig[done..]
      {
        left := left - 1;
        assert entries[w] == orig[done] by { assert entries[w..][0] == orig[done..][0]; }
        assert orig[..done + 1][..done] == orig[..done];
        assert entries[w..][1..] == entries[w + 1..] && orig[done..][1..] == orig[done + 1..];
        w := MoveOne(ht, w);
        done := done + 1;
      }
      assert entries[..w] == entries && orig[..done] == orig;
    }

    /** Entry `w` stored again: onto an equal one before it, or in its place after them. */
    method MoveOne(ht: bool, w: nat) returns (w': nat)
      requires w < |entries| && Rehashing(ht, w)
      modifies `entries, `slots, `ib, `ea
      ensures Rehashing(ht, w')
      ensures entries[..w'] == Put(old(entries)[..w], old(entries)[w].0, old(entries)[w].1)
      ensures entries[w'..] == old(entries)[w + 1..]
    {
      var key, slot := entries[w].0, slots[w];
      ghost var before, first := entries, entries[..w];
      var dup: Probed;
      if ht {
        // a deleted bucket would end this probe too; there is none
        TableNumbers(ibBit);
        dup := ProbeBuckets(entries[..w], ib, ibBit, key);
      } else {
        var f := IndexOf(Keys(entries[..w]), key);
        dup := if f.Some? then Holds(f.value) else Vacant(0);
      }
      // the entry being moved is still in its slot: nothing is called back
      SlotIndexUnique(slots, w);
      assert SlotIndex(slots, slot) == Some(w);
      if dup.Holds? {
        MoveOnto(ht, w, dup.p);
        w' := w;
      } else {
        MoveIntoPlace(ht, w, if dup.Vacant? then dup.b else 0);
        w' := w + 1;
      }
    }

    method MoveOnto(ht: bool, w: nat, p: nat)
      requires p < w < |entries| && Rehashing(ht, w)
      requires IndexOf(Keys(entries[..w]), entries[w].0) == Some(p)
      modifies `entries, `slots, `ib, `ea
      ensures Rehashing(ht, w)
      ensures entries[..w] == Put(old(entries)[..w], old(entries)[w].0, old(entries)[w].1)
      ensures entries[w..] == old(entries)[w + 1..]
    {
      hide Live, Spots, IndexOk, NoDuplicates, Pow2, Used, Sliding, Put, RemoveAt, Renumbered, Keys;
      MovedOnto(entries, w, p);
      if ht {
        BucketsBelow(Keys(entries[..w]), ib, ibBit, w);
        NothingToRenumber(ib, w);
      }
      SetValueAt(p, entries[w].1);
      SlidingDrop(slots, w);
      var e := RemoveEntry(w);
    }

    method MoveIntoPlace(ht: bool, w: nat, b: nat)
      requires w < |entries| && Rehashing(ht, w)
      requires IndexOf(Keys(entries[..w]), entries[w].0) == None
      requires ht ==> b < |ib| && PlaceFrom(Path(entries[w].0, ibBit), ib, 0, w) == ib[b := w]
      modifies `slots, `ib
      ensures Rehashing(ht, w + 1)
      ensures entries[..w + 1] == Put(old(entries)[..w], old(entries)[w].0, old(entries)[w].1)
    {
      hide Live, Spots, Path;
      ghost var first := entries[..w];
      assert entries[..w + 1] == first + [entries[w]];
      PushDistinct(first, entries[w]);
      SlidingPlace(slots, w);
      slots := slots[w := w];
      if ht {
        TableNumbers(ibBit);
        PushIndexed(first, entries[w], ib, ibBit, b);
        ib := ib[b := w];
      }
    }
  }

  // ---------------------------------------------------------------- rehash

  /** What a rehash makes of entries whose keys may have become equal. */
  function Dedup<V>(es: seq<(Key, V)>): seq<(Key, V)>
  {
    if |es| == 0 then []
    else Put(Dedup(es[..|es| - 1]), es[|es| - 1].0, es[|es| - 1].1)
  }

  lemma {:induction false} DedupSize<V>(es: seq<(Key, V)>)
    ensures |Dedup(es)| <= |es| && (|es| > 0 ==> |Dedup(es)| > 0)
  {
    if |es| > 0 { DedupSize(es[..|es| - 1]); }
  }

  lemma RehashWidth(bit: nat, len: nat)
    requires 5 <= bit <= 31 && AR_MAX_SIZE < len <= 3 * Pow2(bit - 2)
    ensures len <= TABLE_LIMIT && len < BASE && 5 <= IbBitFor(len as u32) <= 31
    ensures len <= 3 * Pow2(IbBitFor(len as u32) - 2)
  {
    Pow2Monotone(bit - 2, 29);
    TableLimit();
    IbBitForFits(len as u32);
  }

  /** The slots of a rehash: the first `w` entries moved together, the others still at theirs. */
  ghost predicate Sliding(slots: seq<nat>, w: nat)
  {
    Ascending(slots) && forall j :: 0 <= j < |slots| ==> slots[j] >= j && (j < w ==> slots[j] == j)
  }

  lemma {:induction false} SlidingStart(slots: seq<nat>)
    requires Ascending(slots)
    ensures Sliding(slots, 0)
  {
    if |slots| > 0 {
      var short := slots[..|slots| - 1];
      SlidingStart(short);
      if |short| > 0 { assert slots[|short| - 1] == short[|short| - 1]; }
    }
  }

  lemma SlidingPlace(slots: seq<nat>, w: nat)
    requires Sliding(slots, w) && w < |slots|
    ensures Sliding(slots[w := w], w + 1)
  {
  }

  lemma SlidingDrop(slots: seq<nat>, w: nat)
    requires Sliding(slots, w) && w < |slots|
    ensures Sliding(slots[..w] + slots[w + 1..], w)
  {
    var slots' := slots[..w] + slots[w + 1..];
    forall j | w <= j < |slots'| ensures slots'[j] >= j {
      assert slots'[j] == slots[j + 1];
    }
  }

  lemma SlidingEnd(slots: seq<nat>)
    requires Sliding(slots, |slots|)
    ensures slots == Count(|slots|)
  {
  }

  /** The position of a slot, found by binary search in the source. */
  function SlotIndex(slots: seq<nat>, slot: nat): Option<nat>
  {
    if |slots| == 0 then None
    else if slots[|slots| - 1] == slot then Some(|slots| - 1)
    else SlotIndex(slots[..|slots| - 1], slot)
  }

  lemma {:induction false} SlotIndexUnique(slots: seq<nat>, p: nat)
    requires Ascending(slots) && p < |slots|
    ensures SlotIndex(slots, slots[p]) == Some(p)
  {
    if p < |slots| - 1 { SlotIndexUnique(slots[..|slots| - 1], p); }
  }

  /** A later duplicate gives its value to the entry at `p` and goes. */
  lemma MovedOnto<V>(es: seq<(Key, V)>, w: nat, p: nat)
    requires p < w < |es| && IndexOf(Keys(es[..w]), es[w].0) == Some(p)
    ensures var r := RemoveAt(es[p := (es[p].0, es[w].1)], w);
      && |r| == |es| - 1 && r[..w] == Put(es[..w], es[w].0, es[w].1) && r[w..] == es[w + 1..]
      && Keys(r[..w]) == Keys(es[..w])
  {
    var r, first := RemoveAt(es[p := (es[p].0, es[w].1)], w), es[..w];
    KeysOfUpdate(first, p, es[w].1);
    assert r[..w] == first[p := (first[p].0, es[w].1)];
    assert r[w..] == es[w + 1..];
  }

  lemma BucketsBelow(keys: seq<Key>, ib: seq<nat>, bit: nat, w: nat)
    requires IndexOk(keys, ib, bit) && |keys| == w && forall b :: 0 <= b < |ib| ==> ib[b] != DELETED
    requires 5 <= bit <= 31 && w < 3 * Pow2(bit - 2)
    ensures w < DELETED && forall b :: 0 <= b < |ib| ==> ib[b] == EMPTY || ib[b] < w
  {
    TableNumbers(bit);
  }

  lemma NoMarks(ib: seq<nat>)
    requires forall b :: 0 <= b < |ib| ==> ib[b] == EMPTY
    ensures forall b :: 0 <= b < |ib| ==> ib[b] != DELETED
  {
  }

  lemma NothingToRenumber(ib: seq<nat>, w: nat)
    requires w < DELETED && forall b :: 0 <= b < |ib| ==> ib[b] == EMPTY || ib[b] < w
    ensures Renumbered(ib, w) == ib
  {
  }
}
