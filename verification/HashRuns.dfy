/** What runs of Hash operations come to: an association list, and a map on classes of keys. */
module HashRuns {
  import opened Words
  import opened HashKeys
  import opened HashIndex
  import opened HashSizes
  import opened HashTable

  // ---------------------------------------------------------------- one operation undoes another

  lemma {:induction false} IndexOfAppended(keys: seq<Key>, key: Key, last: Key)
    ensures IndexOf(keys + [last], key) ==
      if IndexOf(keys, key).Some? then IndexOf(keys, key) else if Eql(key, last) then Some(|keys|) else None
  {
    if |keys| > 0 {
      assert (keys + [last])[1..] == keys[1..] + [last];
      IndexOfAppended(keys[1..], key, last);
    }
  }

  /** Deleting a key that was new when it was stored gives the old list back. */
  lemma DeleteUndoesStore<V>(es: seq<(Key, V)>, key: Key, val: V)
    requires IndexOf(Keys(es), key) == None
    ensures Without(Put(es, key, val), key) == es
  {
    EqlEquivalence(key, key, key);
    KeysOfPush(es, (key, val));
    IndexOfAppended(Keys(es), key, key);
  }

  lemma {:induction false} EqlIndexOf(keys: seq<Key>, a: Key, b: Key)
    requires Eql(a, b)
    ensures IndexOf(keys, a) == IndexOf(keys, b)
  {
    if |keys| > 0 {
      EqlIsSameCanon(a, b);
      EqlIsSameCanon(a, keys[0]);
      EqlIsSameCanon(b, keys[0]);
      EqlIndexOf(keys[1..], a, b);
    }
  }

  // ---------------------------------------------------------------- the list as a map

  /** The list as a map from one representative of each class of keys. */
  function Meaning<V>(es: seq<(Key, V)>): map<Key, V>
  {
    if |es| == 0 then map[]
    else Meaning(es[..|es| - 1])[Canon(es[|es| - 1].0) := es[|es| - 1].1]
  }

  lemma {:induction false} MeaningKeys<V>(es: seq<(Key, V)>, key: Key)
    ensures Canon(key) in Meaning(es) <==> IndexOf(Keys(es), key).Some?
  {
    if |es| > 0 {
      var short, last := es[..|es| - 1], es[|es| - 1];
      assert Keys(es) == Keys(short) + [last.0];
      MeaningKeys(short, key);
      IndexOfAppended(Keys(short), key, last.0);
      EqlIsSameCanon(key, last.0);
    }
  }

  /** A lookup in the list is a lookup in the map. */
  lemma {:induction false} LookupMeaning<V>(es: seq<(Key, V)>, key: Key)
    requires NoDuplicates(Keys(es))
    ensures var r := IndexOf(Keys(es), key);
      && (r.Some? <==> Canon(key) in Meaning(es))
      && (r.Some? ==> Meaning(es)[Canon(key)] == es[r.value].1)
  {
    MeaningKeys(es, key);
    if |es| > 0 {
      var short, last := es[..|es| - 1], es[|es| - 1];
      assert Keys(es) == Keys(short) + [last.0];
      assert NoDuplicates(Keys(short)) by { PrefixDistinct(Keys(es), |short|); }
      LookupMeaning(short, key);
      IndexOfAppended(Keys(short), key, last.0);
      EqlIsSameCanon(key, last.0);
      if Eql(key, last.0) {
        EqlIndexOf(Keys(short), key, last.0);
        LastIsNew(Keys(short), last.0);
      }
    }
  }

  lemma PrefixDistinct(keys: seq<Key>, n: nat)
    requires NoDuplicates(keys) && n <= |keys|
    ensures NoDuplicates(keys[..n])
  {
    forall i, j | 0 <= i < j < n ensures !Eql(keys[..n][i], keys[..n][j]) {
      assert !Eql(keys[i], keys[j]);
    }
  }

  lemma LastIsNew(keys: seq<Key>, last: Key)
    requires NoDuplicates(keys + [last])
    ensures IndexOf(keys, last) == None
  {
    IndexOfFirst(keys, last);
    var r := IndexOf(keys, last);
    if r.Some? {
      var all := keys + [last];
      assert !Eql(all[r.value], all[|keys|]);
      EqlEquivalence(last, keys[r.value], last);
    }
  }

  lemma {:induction false} MeaningOfUpdate<V>(es: seq<(Key, V)>, p: nat, val: V)
    requires NoDuplicates(Keys(es)) && p < |es|
    ensures Meaning(es[p := (es[p].0, val)]) == Meaning(es)[Canon(es[p].0) := val]
  {
    var short, last := es[..|es| - 1], es[|es| - 1];
    var es' := es[p := (es[p].0, val)];
    if p == |short| {
      assert es'[..|es| - 1] == short;
    } else {
      assert es'[..|es| - 1] == short[p := (short[p].0, val)];
      PrefixDistinct(Keys(es), |short|);
      assert Keys(es)[..|short|] == Keys(short);
      MeaningOfUpdate(short, p, val);
      assert !Eql(Keys(es)[p], Keys(es)[|short|]);
      EqlIsSameCanon(es[p].0, last.0);
    }
  }

  /** A store is a map update. */
  lemma PutMeaning<V>(es: seq<(Key, V)>, key: Key, val: V)
    requires NoDuplicates(Keys(es))
    ensures Meaning(Put(es, key, val)) == Meaning(es)[Canon(key) := val]
  {
    var r := IndexOf(Keys(es), key);
    if r.Some? {
      IndexOfFirst(Keys(es), key);
      EqlIsSameCanon(key, es[r.value].0);
      MeaningOfUpdate(es, r.value, val);
    } else {
      assert (es + [(key, val)])[..|es|] == es;
    }
  }

  lemma {:induction false} MeaningOfRemoval<V>(es: seq<(Key, V)>, p: nat)
    requires NoDuplicates(Keys(es)) && p < |es|
    ensures Meaning(RemoveAt(es, p)) == Meaning(es) - {Canon(es[p].0)}
  {
    var short, last := es[..|es| - 1], es[|es| - 1];
    DistinctParts(es);
    if p == |short| {
      assert RemoveAt(es, p) == short;
      MeaningKeys(short, last.0);
      RemoveAdded(Meaning(short), Canon(last.0), last.1);
    } else {
      assert !Eql(Keys(es)[p], Keys(es)[|short|]);
      EqlIsSameCanon(es[p].0, last.0);
      hide NoDuplicates, Eql, Canon, Keys;
      assert RemoveAt(es, p)[..|es| - 2] == RemoveAt(short, p);
      MeaningOfRemoval(short, p);
      RemoveOther(Meaning(short), Canon(es[p].0), Canon(last.0), last.1);
    }
  }

  lemma DistinctParts<V>(es: seq<(Key, V)>)
    requires NoDuplicates(Keys(es)) && |es| > 0
    ensures NoDuplicates(Keys(es[..|es| - 1])) && IndexOf(Keys(es[..|es| - 1]), es[|es| - 1].0) == None
  {
    var short, last := es[..|es| - 1], es[|es| - 1];
    PrefixDistinct(Keys(es), |short|);
    assert Keys(es)[..|short|] == Keys(short) && Keys(es) == Keys(short) + [last.0];
    LastIsNew(Keys(short), last.0);
  }

  lemma RemoveAdded<V>(m: map<Key, V>, k: Key, v: V)
    requires k !in m
    ensures m[k := v] - {k} == m
  {
  }

  lemma RemoveOther<V>(m: map<Key, V>, a: Key, b: Key, v: V)
    requires a != b
    ensures (m - {a})[b := v] == m[b := v] - {a}
  {
  }

  /** A delete is a map removal. */
  lemma WithoutMeaning<V>(es: seq<(Key, V)>, key: Key)
    requires NoDuplicates(Keys(es))
    ensures Meaning(Without(es, key)) == Meaning(es) - {Canon(key)}
  {
    var r := IndexOf(Keys(es), key);
    MeaningKeys(es, key);
    if r.Some? {
      IndexOfFirst(Keys(es), key);
      EqlIsSameCanon(key, es[r.value].0);
      MeaningOfRemoval(es, r.value);
    }
  }

  // ---------------------------------------------------------------- rehash

  /** The first key of each class, in order. */
  function FirstKeys(keys: seq<Key>): seq<Key>
  {
    if |keys| == 0 then []
    else
      var short, last := keys[..|keys| - 1], keys[|keys| - 1];
      if IndexOf(short, last).Some? then FirstKeys(short) else FirstKeys(short) + [last]
  }

  /** The value of the last entry with a key equal to `key`. */
  function LastValue<V>(es: seq<(Key, V)>, key: Key): Option<V>
  {
    if |es| == 0 then None
    else if Eql(key, es[|es| - 1].0) then Some(es[|es| - 1].1)
    else LastValue(es[..|es| - 1], key)
  }

  lemma PutKeepsDistinct<V>(es: seq<(Key, V)>, key: Key, val: V)
    requires NoDuplicates(Keys(es))
    ensures NoDuplicates(Keys(Put(es, key, val)))
  {
    var r := IndexOf(Keys(es), key);
    if r.Some? {
      KeysOfUpdate(es, r.value, val);
    } else {
      KeysOfPush(es, (key, val));
      PushKeepsDistinct(Keys(es), key);
    }
  }

  /** A class of keys is present after the rehash exactly when it was before. */
  lemma {:induction false} FirstKeysSameClasses(keys: seq<Key>, key: Key)
    ensures IndexOf(FirstKeys(keys), key).Some? <==> IndexOf(keys, key).Some?
  {
    if |keys| > 0 {
      var short, last := keys[..|keys| - 1], keys[|keys| - 1];
      assert keys == short + [last];
      FirstKeysSameClasses(short, key);
      IndexOfAppended(short, key, last);
      if IndexOf(short, last).Some? {
        if Eql(key, last) { EqlIndexOf(short, key, last); }
      } else {
        IndexOfAppended(FirstKeys(short), key, last);
      }
    }
  }

  lemma {:induction false} DedupKeys<V>(es: seq<(Key, V)>)
    ensures Keys(Dedup(es)) == FirstKeys(Keys(es)) && NoDuplicates(Keys(Dedup(es)))
  {
    if |es| > 0 {
      var short, last := es[..|es| - 1], es[|es| - 1];
      DedupKeys(short);
      PutKeepsDistinct(Dedup(short), last.0, last.1);
      assert Keys(es)[..|es| - 1] == Keys(short);
      FirstKeysSameClasses(Keys(short), last.0);
      var r := IndexOf(Keys(Dedup(short)), last.0);
      if r.Some? {
        KeysOfUpdate(Dedup(short), r.value, last.1);
      } else {
        KeysOfPush(Dedup(short), last);
      }
    }
  }

  lemma {:induction false} DedupValue<V>(es: seq<(Key, V)>, p: nat)
    requires p < |Dedup(es)|
    ensures LastValue(es, Dedup(es)[p].0) == Some(Dedup(es)[p].1)
  {
    var short, last := es[..|es| - 1], es[|es| - 1];
    var before, key := Dedup(short), Dedup(es)[p].0;
    DedupKeys(es);
    DedupKeys(short);
    PutAt(before, last.0, last.1, p);
    EqlEquivalence(last.0, last.0, last.0);
    if !Eql(key, last.0) {
      DedupValue(short, p);
    }
  }

  /** What is at a position after a store: the stored value where the key is equal,
      what was there before elsewhere. */
  lemma PutAt<V>(es: seq<(Key, V)>, key: Key, val: V, p: nat)
    requires NoDuplicates(Keys(es)) && p < |Put(es, key, val)|
    ensures if Eql(Put(es, key, val)[p].0, key) then Put(es, key, val)[p].1 == val
      else p < |es| && Put(es, key, val)[p] == es[p]
  {
    IndexOfFirst(Keys(es), key);
    if p < |es| {
      var r := IndexOf(Keys(es), key);
      EqlEquivalence(es[p].0, key, es[p].0);
      EqlEquivalence(key, es[p].0, key);
      if r.Some? {
        if Eql(es[p].0, key) { OnlyMatch(Keys(es), key, p); }
      }
    } else {
      EqlEquivalence(key, key, key);
    }
  }

  /** A rehash keeps the first key of each class, in order, with the value of its last
      duplicate. */
  lemma RehashMeaning<V>(es: seq<(Key, V)>)
    ensures Keys(Dedup(es)) == FirstKeys(Keys(es)) && NoDuplicates(Keys(Dedup(es)))
    ensures forall p :: 0 <= p < |Dedup(es)| ==> LastValue(es, Dedup(es)[p].0) == Some(Dedup(es)[p].1)
  {
    DedupKeys(es);
    forall p | 0 <= p < |Dedup(es)| ensures LastValue(es, Dedup(es)[p].0) == Some(Dedup(es)[p].1) {
      DedupValue(es, p);
    }
  }

  /** A rehash of entries that are distinct changes nothing. */
  lemma {:induction false} RehashOfDistinct<V>(es: seq<(Key, V)>)
    requires NoDuplicates(Keys(es))
    ensures Dedup(es) == es
  {
    if |es| > 0 {
      var short, last := es[..|es| - 1], es[|es| - 1];
      PrefixDistinct(Keys(es), |short|);
      assert Keys(es)[..|short|] == Keys(short) && Keys(es) == Keys(short) + [last.0];
      RehashOfDistinct(short);
      LastIsNew(Keys(short), last.0);
      assert es == short + [last];
    }
  }

  // ---------------------------------------------------------------- runs

  datatype Op<V> = Store(key: Key, val: V) | Delete(key: Key) | Lookup(key: Key) | Shift | Empty | Rehash

  /** The list after one operation. */
  function After<V>(es: seq<(Key, V)>, op: Op<V>): seq<(Key, V)>
  {
    match op
    case Store(key, val) => Put(es, key, val)
    case Delete(key) => Without(es, key)
    case Lookup(_) => es
    case Shift => if es == [] then [] else es[1..]
    case Empty => []
    case Rehash => Dedup(es)
  }

  function Stored<V>(es: seq<(Key, V)>, key: Key): Option<V>
  {
    match IndexOf(Keys(es), key)
    case Some(p) => Some(es[p].1)
    case None => None
  }

  /** What the operation answers: the value found, deleted or shifted out. */
  function Answer<V>(es: seq<(Key, V)>, op: Op<V>): Option<V>
  {
    match op
    case Delete(key) => Stored(es, key)
    case Lookup(key) => Stored(es, key)
    case Shift => if es == [] then None else Some(es[0].1)
    case _ => None
  }

  function RunList<V>(ops: seq<Op<V>>): seq<(Key, V)>
  {
    if |ops| == 0 then [] else After(RunList(ops[..|ops| - 1]), ops[|ops| - 1])
  }

  function Answers<V>(ops: seq<Op<V>>): (r: seq<Option<V>>)
    ensures |r| == |ops|
  {
    if |ops| == 0 then []
    else
      var before := ops[..|ops| - 1];
      Answers(before) + [Answer(RunList(before), ops[|ops| - 1])]
  }

  /** No store meets the widest table full. */
  predicate StaysSmall<V>(ops: seq<Op<V>>)
  {
    |ops| == 0 ||
    (StaysSmall(ops[..|ops| - 1]) && (ops[|ops| - 1].Store? ==> |RunList(ops[..|ops| - 1])| < TABLE_LIMIT))
  }

  method Do<V>(h: HashData<V>, op: Op<V>) returns (answer: Option<V>)
    requires h.Valid() && (op.Store? ==> |h.entries| < TABLE_LIMIT)
    modifies h
    ensures h.Valid() && h.entries == After(old(h.entries), op) && answer == Answer(old(h.entries), op)
  {
    answer := None;
    if op.Store? {
      h.HSet(op.key, op.val);
    } else if op.Delete? {
      answer := h.HDelete(op.key);
    } else if op.Lookup? {
      var f := h.Find(op.key);
      answer := if f.Some? then Some(h.entries[f.value].1) else None;
    } else if op.Shift? {
      var e := h.HShift();
      answer := if e.Some? then Some(e.value.1) else None;
    } else if op.Empty? {
      h.Clear();
    } else {
      h.HRehash();
    }
  }

  /** A Hash after any run: what it is like, and what it answered. */
  method Play<V>(ops: seq<Op<V>>, capa: nat) returns (h: HashData<V>, answers: seq<Option<V>>)
    requires StaysSmall(ops)
    ensures fresh(h) && h.Valid() && h.entries == RunList(ops) && answers == Answers(ops)
  {
    h := new HashData<V>(capa);
    answers := [];
    assert ops[..0] == [] && ops[..|ops|] == ops;
    for i := 0 to |ops|
      invariant fresh(h) && h.Valid()
      invariant h.entries == RunList(ops[..i]) && answers == Answers(ops[..i])
    {
      assert ops[..i + 1][..i] == ops[..i];
      SmallPrefix(ops, i);
      var a := Do(h, ops[i]);
      answers := answers + [a];
    }
  }

  /** Any run of a Hash, through every change of its form, is the run of the list: the same
      entries in the same order, and the same answers on the way. */
  method Run<V>(ops: seq<Op<V>>, capa: nat) returns (entries: seq<(Key, V)>, answers: seq<Option<V>>)
    requires StaysSmall(ops)
    ensures entries == RunList(ops) && answers == Answers(ops)
  {
    var h;
    h, answers := Play(ops, capa);
    entries := h.entries;
  }

  lemma {:induction false} SmallPrefix<V>(ops: seq<Op<V>>, i: nat)
    requires StaysSmall(ops) && i < |ops|
    ensures ops[i].Store? ==> |RunList(ops[..i])| < TABLE_LIMIT
  {
    if i < |ops| - 1 {
      SmallPrefix(ops[..|ops| - 1], i);
      assert ops[..|ops| - 1][..i] == ops[..i];
    }
  }

  // ---------------------------------------------------------------- the store that is lost

  /** After any run, one more store and a search. The entries are those of the list exactly below
      the limit, or where the store is under the first key or of what is there already; the
      search finds what the list holds exactly below the limit, or where it asks for the first
      key or for none that is there. */
  method RunThenStore<V>(ops: seq<Op<V>>, capa: nat, key: Key, val: V, asked: Key)
    returns (entries: seq<(Key, V)>, found: Option<nat>)
    requires StaysSmall(ops)
    ensures entries == After(RunList(ops), Store(key, val)) <==>
      |RunList(ops)| < TABLE_LIMIT || NothingLost(RunList(ops), key, val)
    ensures var keys := Keys(After(RunList(ops), Store(key, val)));
      |keys| > 0 && (found == IndexOf(keys, asked) <==> |RunList(ops)| < TABLE_LIMIT || FirstOrNone(keys, asked))
  {
    var h, answers := Play(ops, capa);
    h.LimitIsSize();
    h.HSet(key, val);
    entries := h.entries;
    found := h.Find(asked);
    if |RunList(ops)| >= TABLE_LIMIT { FirstKeyStays(RunList(ops), key, val); }
  }

  lemma FirstKeyStays<V>(es: seq<(Key, V)>, key: Key, val: V)
    requires |es| > 0
    ensures Keys(PastLimit(es, key, val)) == Keys(es) && Keys(Put(es, key, val))[0] == es[0].0
  {
    IndexOfFirst(Keys(es), key);
  }

  /** Every store at the limit, whether or not it is right in the list, leaves a key in the list
      that a search does not find: the second. */
  lemma SearchLostAtLimit<V>(ops: seq<Op<V>>, key: Key, val: V)
    requires |RunList(ops)| >= TABLE_LIMIT
    ensures var keys := Keys(After(RunList(ops), Store(key, val)));
      |keys| > 1 && IndexOf(keys, keys[1]) == Some(1) && !FirstOrNone(keys, keys[1])
  {
    var list := After(RunList(ops), Store(key, val));
    RunKeepsDistinct(ops);
    StepKeepsDistinct(RunList(ops), Store(key, val));
    EqlEquivalence(list[1].0, list[1].0, list[1].0);
    OnlyMatch(Keys(list), list[1].0, 1);
    EqlEquivalence(list[1].0, list[0].0, list[1].0);
    assert !Eql(Keys(list)[0], Keys(list)[1]);
  }

  /** The first `n` integers, each stored as a key of its own. */
  function Filling(n: nat): (ops: seq<Op<nat>>)
    requires n <= TABLE_LIMIT
    ensures |ops| == n
  {
    if n == 0 then [] else Filling(n - 1) + [Store(IntKey((n - 1) as i64), n - 1)]
  }

  function Filled(n: nat): (es: seq<(Key, nat)>)
    requires n <= TABLE_LIMIT
    ensures |es| == n && forall i :: 0 <= i < n ==> es[i] == (IntKey(i as i64), i)
  {
    if n == 0 then [] else Filled(n - 1) + [(IntKey((n - 1) as i64), n - 1)]
  }

  lemma {:induction false} FillingFills(n: nat)
    requires n <= TABLE_LIMIT
    ensures RunList(Filling(n)) == Filled(n) && StaysSmall(Filling(n))
  {
    if n > 0 {
      FillingFills(n - 1);
      assert Filling(n)[..n - 1] == Filling(n - 1);
      IndexOfFirst(Keys(Filled(n - 1)), IntKey((n - 1) as i64));
    }
  }

  /** A run that meets the limit, a store of a new key after it that is lost, and a store under
      the first key that is not and after which the second key is not found. */
  lemma StoreLostAtLimit()
    ensures var ops, key := Filling(TABLE_LIMIT), IntKey(TABLE_LIMIT as i64);
      && StaysSmall(ops) && |RunList(ops)| == TABLE_LIMIT
      && !NothingLost(RunList(ops), key, TABLE_LIMIT)
      && PastLimit(RunList(ops), key, TABLE_LIMIT) != After(RunList(ops), Store(key, TABLE_LIMIT))
      && NothingLost(RunList(ops), IntKey(0), 1)
      && Keys(After(RunList(ops), Store(IntKey(0), 1)))[1] == IntKey(1)
      && !FirstOrNone(Keys(After(RunList(ops), Store(IntKey(0), 1))), IntKey(1))
  {
    FillingFills(TABLE_LIMIT);
    IndexOfFirst(Keys(Filled(TABLE_LIMIT)), IntKey(TABLE_LIMIT as i64));
    PastLimitIsPut(Filled(TABLE_LIMIT), IntKey(TABLE_LIMIT as i64), TABLE_LIMIT);
    SearchLostAtLimit(Filling(TABLE_LIMIT), IntKey(0), 1);
  }

  /** In every reachable list the keys are distinct, so it is a map with an order. */
  lemma {:induction false} RunKeepsDistinct<V>(ops: seq<Op<V>>)
    ensures NoDuplicates(Keys(RunList(ops)))
  {
    if |ops| > 0 {
      RunKeepsDistinct(ops[..|ops| - 1]);
      StepKeepsDistinct(RunList(ops[..|ops| - 1]), ops[|ops| - 1]);
    }
  }

  lemma StepKeepsDistinct<V>(es: seq<(Key, V)>, op: Op<V>)
    requires NoDuplicates(Keys(es))
    ensures NoDuplicates(Keys(After(es, op)))
  {
    hide NoDuplicates, Eql;
    match op
    case Store(key, val) =>
      PutKeepsDistinct(es, key, val);
    case Delete(key) =>
      var r := IndexOf(Keys(es), key);
      if r.Some? { RemovalDistinct(es, r.value); }
    case Shift =>
      if es != [] {
        assert RemoveAt(es, 0) == es[1..];
        RemovalDistinct(es, 0);
      }
    case Empty =>
      NothingDistinct<V>();
    case Rehash =>
      DedupKeys(es);
    case _ =>
  }

  lemma NothingDistinct<V>()
    ensures var none: seq<(Key, V)> := []; NoDuplicates(Keys(none))
  {
  }
}
