/** The heap: object slots, their flags and the free list; marking and the sweep. */
module MarkSweepHeap {
  import opened Words
  import opened HeapObjects
  import opened Reachability

  // ---------------------------------------------------------------- the free list

  /** The free slots, lowest index last: it is taken first. */
  function FreeSlots(flags: seq<Flags>): seq<nat>
  {
    if |flags| == 0 then []
    else (if flags[|flags| - 1].free then [|flags| - 1] else []) + FreeSlots(flags[..|flags| - 1])
  }

  /** Exactly the free slots, from the highest down. */
  lemma {:induction false} FreeSlotsAreFree(flags: seq<Flags>)
    ensures forall i :: i in FreeSlots(flags) <==> 0 <= i < |flags| && flags[i].free
    ensures forall i, j :: 0 <= i < j < |FreeSlots(flags)| ==> FreeSlots(flags)[i] > FreeSlots(flags)[j]
    ensures |FreeSlots(flags)| <= |flags|
  {
    if |flags| > 0 {
      var short := flags[..|flags| - 1];
      FreeSlotsAreFree(short);
      forall i | 0 <= i < |FreeSlots(short)| ensures FreeSlots(short)[i] < |short| {
        assert FreeSlots(short)[i] in FreeSlots(short);
      }
    }
  }

  /** Taking the last of the list takes the lowest free slot and leaves the list right. */
  lemma {:induction false} TakeLowest(flags: seq<Flags>)
    requires |FreeSlots(flags)| > 0
    ensures var free := FreeSlots(flags); var i := free[|free| - 1];
      && i < |flags| && flags[i].free && (forall j :: 0 <= j < i ==> !flags[j].free)
      && FreeSlots(flags[i := CLEAR]) == free[..|free| - 1]
  {
    var n, short := |flags| - 1, flags[..|flags| - 1];
    var free := FreeSlots(flags);
    var i := free[|free| - 1];
    if |FreeSlots(short)| == 0 {
      assert i == n;
      forall j | 0 <= j < n ensures !flags[j].free {
        FreeSlotsAreFree(short);
        assert !short[j].free;
      }
      assert flags[n := CLEAR][..n] == short;
    } else {
      TakeLowest(short);
      assert i == FreeSlots(short)[|FreeSlots(short)| - 1];
      assert flags[i := CLEAR][..n] == short[i := CLEAR];
      forall j | 0 <= j < i ensures !flags[j].free {
        assert !short[j].free;
      }
    }
  }

  lemma PushLive(flags: seq<Flags>)
    ensures FreeSlots(flags + [CLEAR]) == FreeSlots(flags)
  {
    assert (flags + [CLEAR])[..|flags|] == flags;
  }

  lemma {:induction false} NoFreeSlot(flags: seq<Flags>)
    requires FreeSlots(flags) == []
    ensures forall i :: 0 <= i < |flags| ==> !flags[i].free
  {
    FreeSlotsAreFree(flags);
    forall i | 0 <= i < |flags| ensures !flags[i].free {
      assert i !in FreeSlots(flags);
    }
  }

  /** Objects in use. */
  function InUse(flags: seq<Flags>): nat
  {
    if |flags| == 0 then 0 else InUse(flags[..|flags| - 1]) + if flags[|flags| - 1].free then 0 else 1
  }

  lemma {:induction false} LiveCountIsInUse(flags: seq<Flags>)
    ensures |flags| == |FreeSlots(flags)| + InUse(flags)
  {
    if |flags| > 0 { LiveCountIsInUse(flags[..|flags| - 1]); }
  }

  // ---------------------------------------------------------------- what a sweep makes

  function SweptFlag(f: Flags): Flags
  {
    if f.marked then CLEAR else FREE
  }

  function SweptObject(o: HeapObject, f: Flags): HeapObject
  {
    if f.marked || f.free then o else INERT
  }

  /** The table without the free slots at its end. */
  function TrimmedLength(flags: seq<Flags>): (n: nat)
    ensures n <= |flags|
    ensures n > 0 ==> !flags[n - 1].free
  {
    if |flags| > 0 && flags[|flags| - 1].free then TrimmedLength(flags[..|flags| - 1]) else |flags|
  }

  lemma {:induction false} TrimmedAreFree(flags: seq<Flags>)
    ensures forall i :: TrimmedLength(flags) <= i < |flags| ==> flags[i].free
  {
    if |flags| > 0 && flags[|flags| - 1].free {
      var short := flags[..|flags| - 1];
      TrimmedAreFree(short);
      forall i | TrimmedLength(flags) <= i < |short| ensures flags[i].free {
        assert short[i].free;
      }
    }
  }

  /** The host handles of the swept objects, one for each, lowest slot first. */
  function FreedData(objs: seq<HeapObject>, flags: seq<Flags>): seq<(u32, u64)>
    requires |objs| == |flags|
  {
    if |objs| == 0 then []
    else
      var n := |objs| - 1;
      FreedData(objs[..n], flags[..n])
      + if !flags[n].marked && !flags[n].free && objs[n].kind.Data? then [(objs[n].kind.tag, objs[n].kind.handle)]
        else []
  }

  /** Slots in use that the mark phase did not reach. */
  function Garbage(flags: seq<Flags>): nat
  {
    if |flags| == 0 then 0
    else Garbage(flags[..|flags| - 1]) + if flags[|flags| - 1].marked || flags[|flags| - 1].free then 0 else 1
  }

  lemma GarbageUpTo(objs: seq<HeapObject>, flags: seq<Flags>, i: nat)
    requires |objs| == |flags| && i < |flags|
    ensures Garbage(flags[..i + 1]) == Garbage(flags[..i]) + if flags[i].marked || flags[i].free then 0 else 1
    ensures FreedData(objs[..i + 1], flags[..i + 1]) == FreedData(objs[..i], flags[..i])
      + if !flags[i].marked && !flags[i].free && objs[i].kind.Data? then [(objs[i].kind.tag, objs[i].kind.handle)]
        else []
  {
    assert flags[..i + 1][..i] == flags[..i] && objs[..i + 1][..i] == objs[..i];
  }

  /** The first `i` slots are swept, the others as they were. */
  ghost predicate SweptUpTo(objs0: seq<HeapObject>, before: seq<Flags>, objs: seq<HeapObject>, flags: seq<Flags>,
                            i: nat)
    requires |objs| == |objs0| == |flags| == |before|
  {
    && (forall j :: 0 <= j < |flags| ==> flags[j] == if j < i then SweptFlag(before[j]) else before[j])
    && (forall j :: 0 <= j < |objs| ==> objs[j] == if j < i then SweptObject(objs0[j], before[j]) else objs0[j])
  }

  lemma SweepBegun(objs: seq<HeapObject>, flags: seq<Flags>)
    requires |objs| == |flags|
    ensures SweptUpTo(objs, flags, objs, flags, 0) && Garbage(flags[..0]) == 0 && FreedData(objs[..0], flags[..0]) == []
  {
  }

  lemma SweepNext(objs0: seq<HeapObject>, before: seq<Flags>, objs: seq<HeapObject>, flags: seq<Flags>, i: nat)
    requires i < |objs| == |objs0| == |flags| == |before| && SweptUpTo(objs0, before, objs, flags, i)
    ensures flags[i] == before[i] && objs[i] == objs0[i]
    ensures SweptUpTo(objs0, before, objs[i := SweptObject(objs[i], flags[i])], flags[i := SweptFlag(flags[i])], i + 1)
  {
    hide SweptFlag, SweptObject;
  }

  lemma SweepEnded(objs0: seq<HeapObject>, before: seq<Flags>, objs: seq<HeapObject>, flags: seq<Flags>)
    requires |objs| == |objs0| == |flags| == |before| && SweptUpTo(objs0, before, objs, flags, |objs|)
    ensures forall i :: 0 <= i < |flags| ==> flags[i] == SweptFlag(before[i])
    ensures forall i :: 0 <= i < |objs| ==> objs[i] == SweptObject(objs0[i], before[i])
    ensures before[..|flags|] == before && objs0[..|objs|] == objs0
  {
  }

  lemma FreeUpTo(flags: seq<Flags>, i: nat)
    requires 0 < i <= |flags|
    ensures flags[i - 1].free ==> FreeSlots(flags[..i]) == [i - 1] + FreeSlots(flags[..i - 1])
    ensures !flags[i - 1].free ==> FreeSlots(flags[..i]) == FreeSlots(flags[..i - 1])
    ensures flags[i - 1].free ==> TrimmedLength(flags[..i]) == TrimmedLength(flags[..i - 1])
    ensures !flags[i - 1].free ==> TrimmedLength(flags[..i]) == i
  {
    assert flags[..i][..i - 1] == flags[..i - 1];
  }

  lemma Regroup<T>(a: seq<T>, x: T, b: seq<T>)
    ensures a + ([x] + b) == a + [x] + b
  {
  }

  lemma NothingLeft(flags: seq<Flags>)
    ensures TrimmedLength(flags[..0]) == 0
  {
  }

  /** The flags a sweep leaves. */
  ghost predicate Swept(marks: seq<Flags>, flags: seq<Flags>)
  {
    && |flags| <= |marks|
    && (forall i :: 0 <= i < |flags| ==> flags[i] == SweptFlag(marks[i]))
    && (forall i :: |flags| <= i < |marks| ==> !marks[i].marked)
  }

  /** Marked objects stay in use. */
  lemma MarkedStayLive(marks: seq<Flags>, flags: seq<Flags>, ids: seq<ObjId>)
    requires Swept(marks, flags) && AllMarked(marks, ids)
    ensures AllLive(flags, ids)
  {
  }

  class Heap {
    var objs: seq<HeapObject>
    var flags: seq<Flags>
    /** Free slots, lowest index last. */
    var free: seq<nat>
    /** Tag and handle of every Data the last sweep freed. */
    var freedData: seq<(u32, u64)>

    /** Between collections: no mark is left and the free list is right. */
    ghost predicate Valid()
      reads this
    {
      && |objs| == |flags| && free == FreeSlots(flags) && freedData == []
      && forall i :: 0 <= i < |flags| ==> !flags[i].marked
    }

    predicate Live(id: ObjId)
      reads this
    {
      id < |flags| && !flags[id].free
    }

    constructor ()
      ensures Valid() && objs == []
    {
      objs, flags, free, freedData := [], [], [], [];
    }

    /** A slot that was not in use: the lowest free one, or a new one at the end. */
    method Alloc(class_: ObjId, kind: ObjKind) returns (id: ObjId)
      requires Valid()
      modifies `objs, `flags, `free
      ensures Valid() && Live(id) && objs[id] == HeapObject(class_, [], kind)
      ensures id <= old(|objs|) && (id < old(|objs|) ==> old(flags)[id].free)
      ensures forall j :: 0 <= j < id && j < old(|objs|) ==> !old(flags)[j].free
      ensures objs == if id < old(|objs|) then old(objs)[id := objs[id]] else old(objs) + [objs[id]]
      ensures flags == if id < old(|objs|) then old(flags)[id := CLEAR] else old(flags) + [CLEAR]
    {
      var o := HeapObject(class_, [], kind);
      if |free| > 0 {
        TakeLowest(flags);
        id := free[|free| - 1];
        free := free[..|free| - 1];
        flags := flags[id := CLEAR];
        objs := objs[id := o];
      } else {
        NoFreeSlot(flags);
        PushLive(flags);
        id := |objs|;
        objs := objs + [o];
        flags := flags + [CLEAR];
      }
    }

    /** `live_count`. */
    method LiveCount() returns (n: nat)
      requires Valid()
      ensures n == InUse(flags)
    {
      LiveCountIsInUse(flags);
      return |objs| - |free|;
    }

    // -------------------------------------------------------------- marking

    method MarkId(id: ObjId, work: seq<ObjId>) returns (work': seq<ObjId>)
      requires Live(id)
      modifies `flags
      ensures Marks(flags, work') == MarkOne(Marks(old(flags), work), id)
      ensures SameFree(old(flags), flags)
    {
      if flags[id].marked { return work; }
      assert !flags[id].free;
      flags := flags[id := flags[id].(marked := true)];
      return work + [id];
    }

    method MarkIds(ids: seq<ObjId>, work: seq<ObjId>) returns (work': seq<ObjId>)
      requires AllLive(flags, ids)
      modifies `flags
      ensures Marks(flags, work') == MarkAll(Marks(old(flags), work), ids)
      ensures SameFree(old(flags), flags)
    {
      work' := work;
      assert ids[0..] == ids;
      for i := 0 to |ids|
        modifies `flags
        invariant SameFree(old(flags), flags)
        invariant MarkAll(Marks(flags, work'), ids[i..]) == MarkAll(Marks(old(flags), work), ids)
      {
        assert ids[i..][0] == ids[i] && ids[i..][1..] == ids[i + 1..];
        assert ids[i] in ids;
        work' := MarkId(ids[i], work');
      }
    }

    method MarkSlots(slots: seq<Value>, work: seq<ObjId>) returns (work': seq<ObjId>)
      requires AllLive(flags, Ids(slots))
      modifies `flags
      ensures Marks(flags, work') == MarkAll(Marks(old(flags), work), Ids(slots))
      ensures SameFree(old(flags), flags)
    {
      work' := work;
      assert slots[0..] == slots;
      for i := 0 to |slots|
        modifies `flags
        invariant SameFree(old(flags), flags)
        invariant MarkAll(Marks(flags, work'), Ids(slots[i..])) == MarkAll(Marks(old(flags), work), Ids(slots))
      {
        assert slots[i..][0] == slots[i] && slots[i..][1..] == slots[i + 1..];
        IdsIff(slots, if slots[i].Obj? then slots[i].id else 0);
        if slots[i].Obj? {
          var id := slots[i].id;
          assert Ids(slots[i..]) == [id] + Ids(slots[i + 1..]);
          work' := MarkId(id, work');
        } else {
          assert Ids(slots[i..]) == Ids(slots[i + 1..]);
        }
      }
    }

    /** Blackens the grey objects until none is left. Contexts and windows reached on the way
        are handed back. The assertion against freed objects never fires. */
    method MarkDrain(work: seq<ObjId>, ctxs: seq<nat>, windows: seq<Window>,
                     ghost g: Graph, ghost start: seq<Flags>, ghost scanned: seq<bool>)
      returns (work': seq<ObjId>, ctxs': seq<nat>, windows': seq<Window>)
      requires objs == g.objs && MarkInv(g, start, Marking(Marks(flags, work), ctxs, windows, scanned))
      modifies `flags
      ensures work' == [] && MarkInv(g, start, Marking(Marks(flags, work'), ctxs', windows', scanned))
      ensures work == [] ==> ctxs' == ctxs && windows' == windows && flags == old(flags)
      ensures Unmarked(flags) <= Unmarked(old(flags)) + |work|
      ensures work != [] ==> Unmarked(flags) < Unmarked(old(flags)) + |work|
    {
      hide MarkInv, Refs, Unmarked, ContextOf, WindowOf;
      work', ctxs', windows' := work, ctxs, windows;
      while |work'| > 0
        modifies `flags
        invariant MarkInv(g, start, Marking(Marks(flags, work'), ctxs', windows', scanned))
        invariant Unmarked(flags) + |work'| <= Unmarked(old(flags)) + |work|
        invariant Unmarked(flags) + |work'| < Unmarked(old(flags)) + |work| || work' == work
        invariant work' == work || work != []
        invariant work == [] ==> ctxs' == ctxs && windows' == windows && flags == old(flags)
        decreases Unmarked(flags) + |work'|
      {
        ghost var before := Marking(Marks(flags, work'), ctxs', windows', scanned);
        DrainStep(g, start, before);
        var id := work'[|work'| - 1];
        work' := work'[..|work'| - 1];
        var o := objs[id];
        work' := MarkIds(Refs(o), work');
        if ContextOf(o).Some? { ctxs' := ctxs' + [ContextOf(o).value]; }
        if WindowOf(o).Some? { windows' := windows' + [WindowOf(o).value]; }
        assert Marking(Marks(flags, work'), ctxs', windows', scanned) == Drained(before, o);
      }
    }

    // -------------------------------------------------------------- the sweep

    /** Frees every slot the mark phase did not reach, drops the free slots at the end of the
        table, and rebuilds the free list. */
    method Sweep() returns (freed: nat)
      requires |objs| == |flags|
      modifies this
      ensures freed == Garbage(old(flags))
      ensures |objs| == |flags| && Swept(old(flags), flags) && (|flags| > 0 ==> !flags[|flags| - 1].free)
      ensures forall i :: 0 <= i < |objs| ==> objs[i] == SweptObject(old(objs)[i], old(flags)[i])
      ensures forall i :: 0 <= i < |objs| && !old(flags)[i].marked && !old(flags)[i].free ==>
        objs[i] == HeapObject(0, [], Object)
      ensures free == FreeSlots(flags)
      ensures freedData == old(freedData) + FreedData(old(objs), old(flags))
    {
      freed := SweepSlots();
      TrimmedAreFree(flags);
      hide TrimmedLength, Garbage, FreedData, FreeSlots;
      TrimTail();
      RebuildFree();
    }

    /** One slot. */
    method SweepOne(i: nat) returns (gone: nat)
      requires i < |objs| == |flags|
      modifies `objs, `flags, `freedData
      ensures flags == old(flags)[i := SweptFlag(old(flags)[i])]
      ensures objs == old(objs)[i := SweptObject(old(objs)[i], old(flags)[i])]
      ensures gone == if old(flags)[i].marked || old(flags)[i].free then 0 else 1
      ensures var o, f := old(objs)[i], old(flags)[i];
        freedData == old(freedData) + if !f.marked && !f.free && o.kind.Data? then [(o.kind.tag, o.kind.handle)] else []
    {
      var f := flags[i];
      gone := 0;
      if f.marked {
        flags := flags[i := CLEAR];
      } else if !f.free {
        if objs[i].kind.Data? { freedData := freedData + [(objs[i].kind.tag, objs[i].kind.handle)]; }
        objs := objs[i := INERT];
        flags := flags[i := FREE];
        gone := 1;
      }
    }

    method TrimTail()
      requires |objs| == |flags|
      modifies `objs, `flags
      ensures |objs| == |flags| == TrimmedLength(old(flags)) && (|flags| > 0 ==> !flags[|flags| - 1].free)
      ensures flags == old(flags)[..|flags|] && objs == old(objs)[..|objs|]
    {
      var len := |objs|;
      ghost var all := flags;
      assert all[..len] == all;
      hide TrimmedLength;
      while len > 0 && flags[len - 1].free
        modifies {}
        invariant 0 <= len <= |flags| && TrimmedLength(flags[..len]) == TrimmedLength(all)
      {
        FreeUpTo(flags, len);
        len := len - 1;
      }
      if len > 0 { FreeUpTo(flags, len); } else { NothingLeft(flags); }
      objs := objs[..len];
      flags := flags[..len];
    }

    method SweepSlots() returns (freed: nat)
      requires |objs| == |flags|
      modifies `objs, `flags, `freedData
      ensures freed == Garbage(old(flags)) && |objs| == |flags| == old(|flags|)
      ensures forall i :: 0 <= i < |flags| ==> flags[i] == SweptFlag(old(flags)[i])
      ensures forall i :: 0 <= i < |objs| ==> objs[i] == SweptObject(old(objs)[i], old(flags)[i])
      ensures freedData == old(freedData) + FreedData(old(objs), old(flags))
    {
      ghost var before := flags;
      ghost var objs0 := objs;
      freed := 0;
      SweepBegun(objs0, before);
      hide Garbage, FreedData, FreeSlots, SweptUpTo, SweptFlag, SweptObject;
      for i := 0 to |objs|
        modifies `objs, `flags, `freedData
        invariant |objs| == |flags| == |before|
        invariant SweptUpTo(objs0, before, objs, flags, i)
        invariant freed == Garbage(before[..i])
        invariant freedData == old(freedData) + FreedData(objs0[..i], before[..i])
      {
        GarbageUpTo(objs0, before, i);
        SweepNext(objs0, before, objs, flags, i);
        var gone := SweepOne(i);
        freed := freed + gone;
      }
      SweepEnded(objs0, before, objs, flags);
    }

    method RebuildFree()
      modifies `free
      ensures free == FreeSlots(flags)
    {
      free := [];
      var i := |flags|;
      assert flags[..i] == flags && flags[..0] == [] && FreeSlots(flags[..0]) == [];
      hide FreeSlots;
      while i > 0
        modifies `free
        invariant 0 <= i <= |flags| && free + FreeSlots(flags[..i]) == FreeSlots(flags)
      {
        FreeUpTo(flags, i);
        i := i - 1;
        if flags[i].free {
          Regroup(free, i, FreeSlots(flags[..i]));
          free := free + [i];
        }
      }
    }
  }
}
