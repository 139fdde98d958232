/** The storage of an Array: a buffer with an offset, so that taking the first element is O(1). */
module ShiftArray {
  import opened Words
  import opened HeapObjects

  /** Room in front that is tolerated before it is reclaimed. */
  const ARY_SHIFT_SLACK: nat := 16

  function Repeat(v: Value, n: nat): (s: seq<Value>)
    ensures |s| == n && forall i :: 0 <= i < n ==> s[i] == v
  {
    seq(n, _ => v)
  }

  function Least(a: nat, b: nat): nat
  {
    if a < b then a else b
  }

  // ---------------------------------------------------------------- the plain sequence

  datatype Op =
    | Push(v: Value) | Pop | Clear | Truncate(len: nat) | Resize(len: nat, v: Value) | Extend(items: seq<Value>)
    | SplitOff(at: nat) | Shift | ShiftN(n: nat) | Unshift(items: seq<Value>) | Insert(i: nat, v: Value)
    | Remove(i: nat) | Drain(from: nat, to: nat) | Splice(from: nat, to: nat, items: seq<Value>)

  /** The operations the array does not panic on. */
  predicate Legal(s: seq<Value>, op: Op)
  {
    match op
    case SplitOff(at) => at <= |s|
    case Insert(i, _) => i <= |s|
    case Remove(i) => i < |s|
    case Drain(from, to) => from <= to && (from == 0 || to <= |s|)
    case Splice(from, to, _) => from <= to <= |s|
    case _ => true
  }

  /** The stretch of elements an operation takes out, and what it puts in their place. */
  function Edit(s: seq<Value>, op: Op): (nat, nat, seq<Value>)
  {
    match op
    case Push(v) => (|s|, |s|, [v])
    case Pop => (if |s| > 0 then |s| - 1 else 0, |s|, [])
    case Clear => (0, |s|, [])
    case Truncate(len) => (Least(len, |s|), |s|, [])
    case Resize(len, v) => (Least(len, |s|), |s|, if len > |s| then Repeat(v, len - |s|) else [])
    case Extend(items) => (|s|, |s|, items)
    case SplitOff(at) => (at, |s|, [])
    case Shift => (0, Least(1, |s|), [])
    case ShiftN(n) => (0, Least(n, |s|), [])
    case Unshift(items) => (0, 0, items)
    case Insert(i, v) => (i, i, [v])
    case Remove(i) => (i, i + 1, [])
    case Drain(from, to) => (from, Least(to, |s|), [])
    case Splice(from, to, items) => (from, to, items)
  }

  /** An operation does not panic exactly if the stretch it names is in the array; a drain that does
      not start at the front may not reach past the end. */
  lemma LegalIsInRange(s: seq<Value>, op: Op)
    ensures var (from, to, items) := Edit(s, op);
      Legal(s, op) <==> from <= to <= |s| && (op.Drain? && op.from > 0 ==> op.to <= |s|)
  {
  }

  function After(s: seq<Value>, op: Op): seq<Value>
    requires Legal(s, op)
  {
    var (from, to, items) := Edit(s, op);
    s[..from] + items + s[to..]
  }

  /** The elements an operation hands back. */
  function Answer(s: seq<Value>, op: Op): seq<Value>
    requires Legal(s, op)
  {
    var (from, to, _) := Edit(s, op);
    if op.Pop? || op.SplitOff? || op.Shift? || op.ShiftN? || op.Remove? || op.Drain? then s[from..to] else []
  }

  /** The elements an operation takes from the front by moving the offset. */
  function FromFront(s: seq<Value>, op: Op): nat
    requires Legal(s, op)
  {
    if op.Shift? || op.ShiftN? || (op.Remove? && op.i == 0) || (op.Drain? && op.from == 0) then |Answer(s, op)| else 0
  }

  /** A run; an operation the array would panic on is left out. */
  function RunSeq(ops: seq<Op>): seq<Value>
  {
    if |ops| == 0 then []
    else
      var s, op := RunSeq(ops[..|ops| - 1]), ops[|ops| - 1];
      if Legal(s, op) then After(s, op) else s
  }

  function Answers(ops: seq<Op>): (r: seq<seq<Value>>)
  {
    if |ops| == 0 then []
    else
      var s, op := RunSeq(ops[..|ops| - 1]), ops[|ops| - 1];
      Answers(ops[..|ops| - 1]) + [if Legal(s, op) then Answer(s, op) else []]
  }

  function RunFromFront(ops: seq<Op>): nat
  {
    if |ops| == 0 then 0
    else
      var s, op := RunSeq(ops[..|ops| - 1]), ops[|ops| - 1];
      RunFromFront(ops[..|ops| - 1]) + if Legal(s, op) then FromFront(s, op) else 0
  }

  lemma TakenFront(all: seq<Value>, taken: seq<Value>, rest: seq<Value>)
    requires taken + rest == all
    ensures taken == all[0..|taken|] && rest == all[..0] + all[|taken|..]
  {
  }

  // ---------------------------------------------------------------- the array

  class ArrayData {
    var buf: seq<Value>
    var start: nat
    /** Elements moved by reclaiming room, and elements taken from the front, so far. */
    ghost var moved: nat
    ghost var taken: nat

    /** What every reader sees. */
    function Elems(): seq<Value>
      requires start <= |buf|
      reads this
    {
      buf[start..]
    }

    /** The room in front is nil, so the collector never sees an element given up; and what was
        moved was paid for by elements taken from the front. */
    ghost predicate Valid()
      reads this
    {
      && start <= |buf|
      && (forall i :: 0 <= i < start ==> buf[i] == Nil)
      && moved + start <= taken
    }

    constructor ()
      ensures Valid() && Elems() == [] && moved == taken == 0
    {
      buf, start, moved, taken := [], 0, 0, 0;
    }

    function Len(): nat
      requires start <= |buf|
      reads this
    {
      |buf| - start
    }

    /** Drops the room in front once there is more of it than elements. */
    method Compact()
      requires Valid()
      modifies this
      ensures Valid() && Elems() == old(Elems()) && taken == old(taken)
      ensures start == if old(start) > |Elems()| && old(start) > 16 then 0 else old(start)
      ensures moved == old(moved) + (if start == old(start) then 0 else |Elems()|)
    {
      if start > Len() && start > ARY_SHIFT_SLACK {
        moved := moved + Len();
        buf := buf[start..];
        start := 0;
      }
    }

    method Push(v: Value)
      requires Valid()
      modifies `buf
      ensures Valid() && Elems() == old(Elems()) + [v]
    {
      buf := buf + [v];
    }

    method Pop() returns (r: Option<Value>)
      requires Valid()
      modifies `buf
      ensures Valid()
      ensures old(Elems()) == [] ==> r == None && Elems() == []
      ensures old(Elems()) != [] ==> r.Some? && Elems() + [r.value] == old(Elems())
    {
      if Len() == 0 { return None; }
      r := Some(buf[|buf| - 1]);
      buf := buf[..|buf| - 1];
    }

    method Clear()
      requires Valid()
      modifies `buf, `start
      ensures Valid() && Elems() == []
    {
      buf, start := [], 0;
    }

    method Truncate(len: nat)
      requires Valid()
      modifies `buf
      ensures Valid() && Elems() == old(Elems())[..Least(len, |old(Elems())|)]
    {
      if start + len < |buf| { buf := buf[..start + len]; }
    }

    method Resize(len: nat, v: Value)
      requires Valid()
      modifies `buf
      ensures Valid() && |Elems()| == len
      ensures forall i :: 0 <= i < len ==> Elems()[i] == if i < |old(Elems())| then old(Elems())[i] else v
    {
      buf := if start + len <= |buf| then buf[..start + len] else buf + Repeat(v, start + len - |buf|);
    }

    method ExtendFromSlice(items: seq<Value>)
      requires Valid()
      modifies `buf
      ensures Valid() && Elems() == old(Elems()) + items
    {
      buf := buf + items;
    }

    /** The elements from `at` on, taken off. */
    method SplitOff(at: nat) returns (r: seq<Value>)
      requires Valid() && at <= |Elems()|
      modifies `buf
      ensures Valid() && Elems() + r == old(Elems()) && |Elems()| == at
    {
      r := buf[start + at..];
      buf := buf[..start + at];
    }

    method Shift() returns (r: Option<Value>)
      requires Valid()
      modifies this
      ensures Valid() && moved <= taken
      ensures old(Elems()) == [] ==> r == None && Elems() == [] && taken == old(taken)
      ensures old(Elems()) != [] ==> r.Some? && [r.value] + Elems() == old(Elems()) && taken == old(taken) + 1
    {
      if Len() == 0 { return None; }
      var v := buf[start];
      buf := buf[start := Nil];
      start := start + 1;
      taken := taken + 1;
      Compact();
      return Some(v);
    }

    /** The first `n` elements, or all of them. */
    method ShiftN(n: nat) returns (r: seq<Value>)
      requires Valid()
      modifies this
      ensures Valid() && r + Elems() == old(Elems()) && |r| == Least(n, |old(Elems())|)
      ensures taken == old(taken) + |r|
    {
      var k := Least(n, Len());
      r := buf[start..start + k];
      for i := 0 to k
        modifies `buf
        invariant |buf| == old(|buf|)
        invariant forall j :: 0 <= j < start + i ==> buf[j] == Nil
        invariant buf[start + k..] == old(buf)[start + k..]
      {
        buf := buf[start + i := Nil];
      }
      start := start + k;
      taken := taken + k;
      Compact();
    }

    /** Into the room in front where it is enough, else by moving the elements. */
    method Unshift(items: seq<Value>)
      requires Valid()
      modifies `buf, `start
      ensures Valid() && Elems() == items + old(Elems())
    {
      if |items| <= start {
        start := start - |items|;
        buf := buf[..start] + items + buf[start + |items|..];
      } else {
        buf := buf[..start] + items + buf[start..];
      }
    }

    method Insert(i: nat, v: Value)
      requires Valid() && i <= |Elems()|
      modifies `buf, `start
      ensures Valid() && Elems() == old(Elems())[..i] + [v] + old(Elems())[i..]
    {
      if i == 0 && start > 0 {
        start := start - 1;
        buf := buf[start := v];
      } else {
        buf := buf[..start + i] + [v] + buf[start + i..];
      }
    }

    method Remove(i: nat) returns (r: Value)
      requires Valid() && i < |Elems()|
      modifies this
      ensures Valid() && r == old(Elems())[i] && Elems() == old(Elems())[..i] + old(Elems())[i + 1..]
      ensures taken == old(taken) + if i == 0 then 1 else 0
    {
      if i == 0 {
        var o := Shift();
        return o.value;
      }
      r := buf[start + i];
      buf := buf[..start + i] + buf[start + i + 1..];
    }

    /** The elements from `from` to `to` taken out; from the front, as many as there are. */
    method DrainRange(from: nat, to: nat) returns (r: seq<Value>)
      requires Valid() && from <= to && (from == 0 || to <= |Elems()|)
      modifies this
      ensures Valid() && r == old(Elems())[from..Least(to, |old(Elems())|)]
      ensures Elems() == old(Elems())[..from] + old(Elems())[Least(to, |old(Elems())|)..]
      ensures taken == old(taken) + if from == 0 then |r| else 0
    {
      if from == 0 {
        ghost var all := Elems();
        r := ShiftN(to);
        TakenFront(all, r, Elems());
        return;
      }
      r := buf[start + from..start + to];
      buf := buf[..start + from] + buf[start + to..];
    }

    method SpliceRange(from: nat, to: nat, items: seq<Value>)
      requires Valid() && from <= to <= |Elems()|
      modifies `buf, `start
      ensures Valid() && Elems() == old(Elems())[..from] + items + old(Elems())[to..]
    {
      if from == 0 && to == 0 {
        Unshift(items);
      } else {
        buf := buf[..start + from] + items + buf[start + to..];
      }
    }

    method Do(op: Op) returns (r: seq<Value>)
      requires Valid() && Legal(Elems(), op)
      modifies this
      ensures Valid() && Elems() == After(old(Elems()), op) && r == Answer(old(Elems()), op)
      ensures taken == old(taken) + FromFront(old(Elems()), op)
    {
      hide Elems, Valid, After, Answer, FromFront;
      if op.Shift? || op.ShiftN? || op.Remove? || op.Drain? {
        r := DoTake(op);
      } else if op.Insert? || op.Unshift? || op.Splice? {
        DoPut(op);
        r := [];
      } else {
        r := DoEnd(op);
      }
    }

    method DoTake(op: Op) returns (r: seq<Value>)
      requires Valid() && Legal(Elems(), op) && (op.Shift? || op.ShiftN? || op.Remove? || op.Drain?)
      modifies this
      ensures Valid() && Elems() == After(old(Elems()), op) && r == Answer(old(Elems()), op)
      ensures taken == old(taken) + FromFront(old(Elems()), op)
    {
      hide Elems, Valid;
      if op.Shift? {
        var o := Shift();
        r := if o.Some? then [o.value] else [];
      } else if op.ShiftN? {
        r := ShiftN(op.n);
      } else if op.Remove? {
        var v := Remove(op.i);
        r := [v];
      } else {
        r := DrainRange(op.from, op.to);
      }
    }

    method DoPut(op: Op)
      requires Valid() && Legal(Elems(), op) && (op.Insert? || op.Unshift? || op.Splice?)
      modifies this
      ensures Valid() && Elems() == After(old(Elems()), op) && Answer(old(Elems()), op) == []
      ensures taken == old(taken) && FromFront(old(Elems()), op) == 0
    {
      hide Elems, Valid;
      if op.Insert? {
        Insert(op.i, op.v);
      } else if op.Unshift? {
        Unshift(op.items);
      } else {
        SpliceRange(op.from, op.to, op.items);
      }
    }

    method DoEnd(op: Op) returns (r: seq<Value>)
      requires Valid() && Legal(Elems(), op)
      requires op.Push? || op.Pop? || op.Clear? || op.Truncate? || op.Resize? || op.Extend? || op.SplitOff?
      modifies this
      ensures Valid() && Elems() == After(old(Elems()), op) && r == Answer(old(Elems()), op)
      ensures taken == old(taken) && FromFront(old(Elems()), op) == 0
    {
      hide Elems, Valid;
      r := [];
      if op.Push? {
        Push(op.v);
      } else if op.Pop? {
        var o := Pop();
        if o.Some? { r := [o.value]; }
      } else if op.Clear? {
        Clear();
      } else if op.Truncate? {
        Truncate(op.len);
      } else if op.Resize? {
        Resize(op.len, op.v);
      } else if op.Extend? {
        ExtendFromSlice(op.items);
      } else {
        r := SplitOff(op.at);
      }
    }
  }

  /** Over any run the array is the plain sequence, and the elements moved by reclaiming room
      are no more than those taken from the front. */
  method RunArray(ops: seq<Op>) returns (elems: seq<Value>, answers: seq<seq<Value>>, ghost moved: nat)
    ensures elems == RunSeq(ops) && answers == Answers(ops)
    ensures moved <= RunFromFront(ops)
  {
    var a := new ArrayData();
    answers := [];
    assert ops[..0] == [] && ops[..|ops|] == ops;
    for i := 0 to |ops|
      invariant fresh(a) && a.Valid() && a.Elems() == RunSeq(ops[..i]) && answers == Answers(ops[..i])
      invariant a.taken == RunFromFront(ops[..i])
    {
      assert ops[..i + 1][..i] == ops[..i];
      var r := [];
      if Legal(a.Elems(), ops[i]) { r := a.Do(ops[i]); }
      answers := answers + [r];
    }
    elems, moved := a.Elems(), a.moved;
  }
}
