/** The index of a Hash: buckets holding positions, and the search it stands in for. */
module HashIndex {
  import opened Words
  import opened HashKeys
  import opened Probe

  const EMPTY: nat := 0xFFFF_FFFF
  const DELETED: nat := 0xFFFF_FFFE

  // ---------------------------------------------------------------- the linear search

  /** The position of the first key equal to `key`. */
  function IndexOf(keys: seq<Key>, key: Key): (r: Option<nat>)
    ensures r.Some? ==> r.value < |keys|
  {
    if |keys| == 0 then None
    else if Eql(key, keys[0]) then Some(0)
    else
      match IndexOf(keys[1..], key)
      case None => None
      case Some(p) => Some(p + 1)
  }

  lemma {:induction false} IndexOfFirst(keys: seq<Key>, key: Key)
    ensures var r := IndexOf(keys, key);
      && (r.Some? ==> Eql(key, keys[r.value]) && forall j :: 0 <= j < r.value ==> !Eql(key, keys[j]))
      && (r.None? ==> forall j :: 0 <= j < |keys| ==> !Eql(key, keys[j]))
  {
    if |keys| > 0 && !Eql(key, keys[0]) {
      IndexOfFirst(keys[1..], key);
      forall j | 0 < j < |keys| ensures keys[j] == keys[1..][j - 1] {
      }
    }
  }

  ghost predicate NoDuplicates(keys: seq<Key>)
  {
    forall i, j {:trigger Eql(keys[i], keys[j])} :: 0 <= i < j < |keys| ==> !Eql(keys[i], keys[j])
  }

  lemma OnlyMatch(keys: seq<Key>, key: Key, p: nat)
    requires NoDuplicates(keys) && p < |keys| && Eql(key, keys[p])
    ensures IndexOf(keys, key) == Some(p)
  {
    var r := IndexOf(keys, key);
    IndexOfFirst(keys, key);
    if r.Some? && r.value != p {
      EqlEquivalence(key, keys[p], keys[r.value]);
      EqlEquivalence(keys[p], key, keys[r.value]);
      EqlEquivalence(keys[r.value], key, keys[p]);
    }
  }

  // ---------------------------------------------------------------- buckets

  /** The buckets the probe from a code visits from its `n`th on, in order. */
  function PathFrom(code: u32, bit: nat, n: nat): (path: seq<nat>)
    requires n <= Pow2(bit)
    ensures |path| == Pow2(bit) - n
    ensures forall i :: 0 <= i < |path| ==> path[i] < Pow2(bit)
    decreases Pow2(bit) - n
  {
    if n == Pow2(bit) then [] else [ProbeAt(code, n, bit)] + PathFrom(code, bit, n + 1)
  }

  function PathOfCode(code: u32, bit: nat): (path: seq<nat>)
    ensures |path| == Pow2(bit)
    ensures forall n :: 0 <= n < |path| ==> path[n] < Pow2(bit)
  {
    PathFrom(code, bit, 0)
  }

  lemma {:induction false} PathAt(code: u32, bit: nat, n: nat, i: nat)
    requires n + i < Pow2(bit)
    ensures PathFrom(code, bit, n)[i] == ProbeAt(code, n + i, bit)
    decreases i
  {
    if i > 0 { PathAt(code, bit, n + 1, i - 1); }
  }

  /** Bucket `n` of a probe, as the loops compute it. */
  method Bucket(code: u32, n: nat, bit: nat) returns (b: nat)
    requires n < Pow2(bit)
    ensures b == PathOfCode(code, bit)[n]
  {
    b := ProbeAt(code, n, bit);
    PathAt(code, bit, 0, n);
  }

  function Path(key: Key, bit: nat): (path: seq<nat>)
    ensures |path| == Pow2(bit)
    ensures forall n :: 0 <= n < |path| ==> path[n] < Pow2(bit)
  {
    PathOfCode(Code(key), bit)
  }

  lemma PathReaches(key: Key, b: nat, bit: nat) returns (n: nat)
    requires bit <= 31 && b < Pow2(bit)
    ensures n < Pow2(bit) && Path(key, bit)[n] == b
  {
    n := ProbeSurjective(Code(key), b, bit);
    PathAt(Code(key), bit, 0, n);
  }

  lemma EqlSamePath(a: Key, b: Key, bit: nat)
    requires Eql(a, b)
    ensures Path(a, bit) == Path(b, bit)
  {
    EqlSameCode(a, b);
  }

  predicate InRange(path: seq<nat>, ib: seq<nat>)
  {
    forall n :: 0 <= n < |path| ==> path[n] < |ib|
  }

  /** No empty bucket among the first `n` of a path. */
  ghost predicate FilledUpTo(path: seq<nat>, ib: seq<nat>, n: nat)
    requires n <= |path| && InRange(path, ib)
  {
    forall m :: 0 <= m < n ==> ib[path[m]] != EMPTY
  }

  /** A search along the path from its bucket `n` on meets position `p` before an empty bucket. */
  predicate Reaches(path: seq<nat>, ib: seq<nat>, n: nat, p: nat)
    requires InRange(path, ib)
    decreases |path| - n
  {
    n < |path| && (ib[path[n]] == p || (ib[path[n]] != EMPTY && Reaches(path, ib, n + 1, p)))
  }

  lemma {:induction false} ReachedAt(path: seq<nat>, ib: seq<nat>, n: nat, p: nat) returns (m: nat)
    requires InRange(path, ib) && Reaches(path, ib, n, p) && FilledUpTo(path, ib, n)
    ensures m < |path| && ib[path[m]] == p && FilledUpTo(path, ib, m)
    decreases |path| - n
  {
    m := n;
    if ib[path[n]] != p { m := ReachedAt(path, ib, n + 1, p); }
  }

  lemma {:induction false} ReachesBy(path: seq<nat>, ib: seq<nat>, n: nat, p: nat, m: nat)
    requires InRange(path, ib) && n <= m < |path| && ib[path[m]] == p && FilledUpTo(path, ib, m)
    ensures Reaches(path, ib, n, p)
    decreases m - n
  {
    if n < m { ReachesBy(path, ib, n + 1, p, m); }
  }

  /** The index is right: every entry is reached along its own path and is in one bucket
      only, and a bucket holds a position or one of the two marks. */
  ghost predicate Indexes(paths: seq<seq<nat>>, ib: seq<nat>)
  {
    && |paths| <= DELETED
    && (forall b :: 0 <= b < |ib| ==> ib[b] == EMPTY || ib[b] == DELETED || ib[b] < |paths|)
    && (forall p :: 0 <= p < |paths| ==> InRange(paths[p], ib) && Reaches(paths[p], ib, 0, p))
    && (forall b, c :: 0 <= b < c < |ib| && ib[b] < |paths| ==> ib[b] != ib[c])
  }

  function Paths(keys: seq<Key>, bit: nat): (paths: seq<seq<nat>>)
    ensures |paths| == |keys|
  {
    seq(|keys|, p requires 0 <= p < |keys| => Path(keys[p], bit))
  }

  ghost predicate IndexOk(keys: seq<Key>, ib: seq<nat>, bit: nat)
  {
    |ib| == Pow2(bit) && Indexes(Paths(keys, bit), ib)
  }

  /** Buckets that are not empty, those of deleted entries included. */
  function Used(ib: seq<nat>): (n: nat)
    ensures n <= |ib|
  {
    if |ib| == 0 then 0 else (if ib[0] == EMPTY then 0 else 1) + Used(ib[1..])
  }

  lemma {:induction false} UsedUpdate(ib: seq<nat>, b: nat, x: nat)
    requires b < |ib| && x != EMPTY
    ensures Used(ib[b := x]) == Used(ib) + if ib[b] == EMPTY then 1 else 0
  {
    if b == 0 {
      assert ib[0 := x][1..] == ib[1..];
    } else {
      assert ib[b := x][1..] == ib[1..][b - 1 := x];
      UsedUpdate(ib[1..], b - 1, x);
    }
  }

  lemma {:induction false} UsedSame(ib: seq<nat>, ib': seq<nat>)
    requires |ib| == |ib'| && forall b :: 0 <= b < |ib| ==> (ib[b] == EMPTY <==> ib'[b] == EMPTY)
    ensures Used(ib) == Used(ib')
  {
    if |ib| > 0 {
      assert ib[0] == EMPTY <==> ib'[0] == EMPTY;
      UsedSame(ib[1..], ib'[1..]);
    }
  }

  lemma {:induction false} NoneUsed(ib: seq<nat>)
    requires forall b :: 0 <= b < |ib| ==> ib[b] == EMPTY
    ensures Used(ib) == 0
  {
    if |ib| > 0 { NoneUsed(ib[1..]); }
  }

  lemma {:induction false} SomeEmpty(ib: seq<nat>) returns (b: nat)
    requires Used(ib) < |ib|
    ensures b < |ib| && ib[b] == EMPTY
  {
    if ib[0] == EMPTY {
      b := 0;
    } else {
      b := SomeEmpty(ib[1..]);
      b := b + 1;
    }
  }

  lemma {:induction false} EarliestEmpty(path: seq<nat>, ib: seq<nat>, n: nat) returns (m: nat)
    requires InRange(path, ib) && n < |path| && ib[path[n]] == EMPTY
    ensures m <= n && FilledUpTo(path, ib, m) && ib[path[m]] == EMPTY
    decreases n
  {
    m := n;
    if !FilledUpTo(path, ib, n) {
      var k :| 0 <= k < n && ib[path[k]] == EMPTY;
      m := EarliestEmpty(path, ib, k);
    }
  }

  /** A probe meets an empty bucket while the table is not full. */
  lemma FirstEmpty(key: Key, ib: seq<nat>, bit: nat) returns (n: nat)
    requires bit <= 31 && Used(ib) < |ib| == Pow2(bit)
    ensures n < Pow2(bit) && FilledUpTo(Path(key, bit), ib, n) && ib[Path(key, bit)[n]] == EMPTY
  {
    var b := SomeEmpty(ib);
    var k := PathReaches(key, b, bit);
    n := EarliestEmpty(Path(key, bit), ib, k);
  }

  // ---------------------------------------------------------------- searching

  /** What a probe knows after `n` buckets without a match. */
  ghost predicate NotMet(keys: seq<Key>, key: Key, path: seq<nat>, ib: seq<nat>, n: nat)
    requires n <= |path| && InRange(path, ib)
  {
    && FilledUpTo(path, ib, n)
    && forall m :: 0 <= m < n && ib[path[m]] < |keys| ==> !Eql(key, keys[ib[path[m]]])
  }

  lemma NotMetStep(keys: seq<Key>, key: Key, path: seq<nat>, ib: seq<nat>, n: nat)
    requires n < |path| && InRange(path, ib) && NotMet(keys, key, path, ib, n)
    requires ib[path[n]] != EMPTY && (ib[path[n]] < |keys| ==> !Eql(key, keys[ib[path[n]]]))
    ensures NotMet(keys, key, path, ib, n + 1)
  {
  }

  /** While a matching entry has not been met, the probe is not at its end. */
  lemma ProbeGoesOn(keys: seq<Key>, key: Key, ib: seq<nat>, bit: nat, n: nat, p: nat)
    requires IndexOk(keys, ib, bit) && n <= Pow2(bit) && p < |keys| && Eql(key, keys[p])
    requires NotMet(keys, key, Path(key, bit), ib, n)
    ensures n < Pow2(bit) && ib[Path(key, bit)[n]] != EMPTY
  {
    EqlSamePath(key, keys[p], bit);
    var path := Path(key, bit);
    assert Paths(keys, bit)[p] == path;
    var m := ReachedAt(path, ib, 0, p);
    assert n <= m;
  }

  /** A probe that meets an empty bucket, or every bucket, without a match has searched
      all the entries. */
  lemma ProbeMiss(keys: seq<Key>, key: Key, ib: seq<nat>, bit: nat, n: nat)
    requires IndexOk(keys, ib, bit) && n <= Pow2(bit)
    requires NotMet(keys, key, Path(key, bit), ib, n)
    requires n < Pow2(bit) ==> ib[Path(key, bit)[n]] == EMPTY
    ensures IndexOf(keys, key) == None
  {
    var r := IndexOf(keys, key);
    IndexOfFirst(keys, key);
    if r.Some? {
      ProbeGoesOn(keys, key, ib, bit, n, r.value);
    }
  }

  // ---------------------------------------------------------------- changing the index

  lemma {:induction false} ReachesAfterPlace(path: seq<nat>, ib: seq<nat>, n: nat, p: nat, b: nat, x: nat)
    requires InRange(path, ib) && Reaches(path, ib, n, p) && p != EMPTY
    requires b < |ib| && ib[b] == EMPTY && x != EMPTY
    ensures Reaches(path, ib[b := x], n, p)
    decreases |path| - n
  {
    if ib[path[n]] != p { ReachesAfterPlace(path, ib, n + 1, p, b, x); }
  }

  lemma ReachesPlaced(path: seq<nat>, ib: seq<nat>, n: nat, x: nat)
    requires InRange(path, ib) && n < |path| && FilledUpTo(path, ib, n) && x != EMPTY
    ensures Reaches(path, ib[path[n] := x], 0, x)
  {
    ReachesBy(path, ib[path[n] := x], 0, x, n);
  }

  /** The next position, put in the first empty bucket of its key's path. */
  lemma PlaceOnPath(paths: seq<seq<nat>>, path: seq<nat>, ib: seq<nat>, n: nat)
    requires Indexes(paths, ib) && |paths| < DELETED && InRange(path, ib)
    requires n < |path| && FilledUpTo(path, ib, n) && ib[path[n]] == EMPTY
    ensures Indexes(paths + [path], ib[path[n] := |paths|])
  {
    var p, ib' := |paths|, ib[path[n] := |paths|];
    forall q | 0 <= q < p + 1
      ensures InRange((paths + [path])[q], ib') && Reaches((paths + [path])[q], ib', 0, q)
    {
      if q < p {
        ReachesAfterPlace(paths[q], ib, 0, q, path[n], p);
      } else {
        ReachesPlaced(path, ib, n, p);
      }
    }
  }

  lemma PlaceKeeps(keys: seq<Key>, key: Key, ib: seq<nat>, bit: nat, n: nat)
    requires IndexOk(keys, ib, bit) && |keys| < DELETED
    requires n < Pow2(bit) && FilledUpTo(Path(key, bit), ib, n) && ib[Path(key, bit)[n]] == EMPTY
    ensures IndexOk(keys + [key], ib[Path(key, bit)[n] := |keys|], bit)
    ensures Used(ib[Path(key, bit)[n] := |keys|]) == Used(ib) + 1
  {
    UsedUpdate(ib, Path(key, bit)[n], |keys|);
    PlaceOnPath(Paths(keys, bit), Path(key, bit), ib, n);
    assert Paths(keys + [key], bit) == Paths(keys, bit) + [Path(key, bit)];
  }

  /** Position `p` put in the first empty bucket of a path, from its bucket `n` on. */
  function PlaceFrom(path: seq<nat>, ib: seq<nat>, n: nat, p: nat): (r: seq<nat>)
    requires n <= |path| && InRange(path, ib)
    ensures |r| == |ib|
    decreases |path| - n
  {
    if n == |path| then ib
    else if ib[path[n]] == EMPTY then ib[path[n] := p]
    else PlaceFrom(path, ib, n + 1, p)
  }

  lemma {:induction false} PlaceFromAt(path: seq<nat>, ib: seq<nat>, n: nat, p: nat, m: nat)
    requires n <= m < |path| && InRange(path, ib) && FilledUpTo(path, ib, m) && ib[path[m]] == EMPTY
    ensures PlaceFrom(path, ib, n, p) == ib[path[m] := p]
    decreases m - n
  {
    if n < m { PlaceFromAt(path, ib, n + 1, p, m); }
  }

  /** Placing the next entry: it always finds a bucket while the table is not full. */
  lemma PlaceNext(keys: seq<Key>, key: Key, ib: seq<nat>, bit: nat)
    requires IndexOk(keys, ib, bit) && |keys| < DELETED && bit <= 31 && Used(ib) < |ib|
    ensures var r := PlaceFrom(Path(key, bit), ib, 0, |keys|);
      IndexOk(keys + [key], r, bit) && Used(r) == Used(ib) + 1
  {
    var n := FirstEmpty(key, ib, bit);
    PlaceFromAt(Path(key, bit), ib, 0, |keys|, n);
    PlaceKeeps(keys, key, ib, bit, n);
  }

  function AfterRemoval(x: nat, p: nat): nat
  {
    if x == p then DELETED
    else if x != EMPTY && x != DELETED && x > p then x - 1
    else x
  }

  /** The buckets after entry `p` is taken out: its bucket marked, later positions one less. */
  function Renumbered(ib: seq<nat>, p: nat): (r: seq<nat>)
    ensures |r| == |ib|
  {
    seq(|ib|, b requires 0 <= b < |ib| => AfterRemoval(ib[b], p))
  }

  lemma {:induction false} ReachesAfterRemoval(path: seq<nat>, ib: seq<nat>, n: nat, q: nat, p: nat)
    requires InRange(path, ib) && Reaches(path, ib, n, q) && q != p && q < DELETED
    requires forall b :: 0 <= b < |ib| ==> ib[b] <= EMPTY
    ensures Reaches(path, Renumbered(ib, p), n, AfterRemoval(q, p))
    decreases |path| - n
  {
    if ib[path[n]] != q { ReachesAfterRemoval(path, ib, n + 1, q, p); }
  }

  lemma RemovePath(paths: seq<seq<nat>>, ib: seq<nat>, p: nat)
    requires Indexes(paths, ib) && p < |paths|
    ensures Indexes(paths[..p] + paths[p + 1..], Renumbered(ib, p))
  {
    var paths', ib' := paths[..p] + paths[p + 1..], Renumbered(ib, p);
    forall q | 0 <= q < |paths'| ensures InRange(paths'[q], ib') && Reaches(paths'[q], ib', 0, q) {
      var o := if q < p then q else q + 1;
      assert paths'[q] == paths[o];
      ReachesAfterRemoval(paths[o], ib, 0, o, p);
    }
    forall b, c | 0 <= b < c < |ib'| && ib'[b] < |paths'| ensures ib'[b] != ib'[c] {
      assert ib[b] < |paths| && ib[b] != ib[c];
    }
  }

  lemma RemoveKeeps(keys: seq<Key>, ib: seq<nat>, bit: nat, p: nat)
    requires IndexOk(keys, ib, bit) && p < |keys|
    ensures IndexOk(keys[..p] + keys[p + 1..], Renumbered(ib, p), bit)
    ensures Used(Renumbered(ib, p)) == Used(ib)
  {
    hide Indexes;
    IndexOkParts(keys, ib, bit);
    RemovePath(Paths(keys, bit), ib, p);
    PathsWithout(keys, bit, p);
    UsedSame(ib, Renumbered(ib, p));
  }

  lemma IndexOkParts(keys: seq<Key>, ib: seq<nat>, bit: nat)
    requires IndexOk(keys, ib, bit)
    ensures |keys| <= DELETED && forall b :: 0 <= b < |ib| ==> ib[b] <= EMPTY
  {
  }

  lemma PathsWithout(keys: seq<Key>, bit: nat, p: nat)
    requires p < |keys|
    ensures Paths(keys[..p] + keys[p + 1..], bit) == Paths(keys, bit)[..p] + Paths(keys, bit)[p + 1..]
  {
    hide Path;
  }

  /** An index with nothing in it. */
  lemma EmptyIndexOk(ib: seq<nat>, bit: nat)
    requires |ib| == Pow2(bit) && forall b :: 0 <= b < |ib| ==> ib[b] == EMPTY
    ensures IndexOk([], ib, bit) && Used(ib) == 0
  {
    NoneUsed(ib);
  }
}
