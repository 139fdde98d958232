/** What the collector's contracts say, field by field: roots, what contexts hold, what becomes of
    objects and contexts, and reachability along paths of references. */
module CollectorMeaning {
  import opened Words
  import opened HeapObjects
  import opened Reachability
  import opened Contexts
  import opened References
  import opened Collector

  // ---------------------------------------------------------------- what a collection makes of things

  /** An object that is kept is as it was. Only an environment attached to a context that is not
      reached, and owned by a frame of it, has its window's values and is attached no more. */
  lemma KeptExact(g: Graph, x: ObjId, o: HeapObject, contexts: seq<Context>)
    ensures var k := Kept(g, x, o, contexts);
      if o.kind.Env? && o.kind.data.attached && o.kind.data.window.ctx < |contexts|
         && !Reached(g, CtxNode(o.kind.data.window.ctx))
         && exists f :: f in contexts[o.kind.data.window.ctx].ci && f.env == Some(x)
      then
        var e, w, st := o.kind.data, o.kind.data.window, contexts[o.kind.data.window.ctx].stack;
        && k.class_ == o.class_ && k.ivars == o.ivars && k.kind.Env?
        && k.kind.data == EnvData(k.kind.data.values, e.svar, e.svarFwd, e.targetClass, false, w)
        && |k.kind.data.values| ==
           (if w.base >= |st| then 0 else if w.base + w.len <= |st| then w.len else |st| - w.base)
        && forall i :: 0 <= i < |k.kind.data.values| ==> k.kind.data.values[i] == st[w.base + i]
      else k == o
  {
    hide Reached;
    if WindowOf(o).Some? && WindowOf(o).value.ctx < |contexts| {
      HasFrameExact(contexts[WindowOf(o).value.ctx].ci, x);
    }
  }

  /** A context dropped is one that is over: nothing on it, no resumer, no block. */
  lemma DroppedExact(ctx: Context)
    ensures var d := Dropped(ctx);
      && d.status == Terminated && d.stack == [] && d.ci == [] && d.fib == None && d.proc == None
      && (d != ctx ==> d.prev == None && !d.vmexec && d.pendingReg == None)
  {
  }

  /** Every Data that was in use and is not reached is reported, once for each object. */
  lemma {:induction false} LostExact(g: Graph, start: seq<Flags>, n: nat, tag: u32, handle: u64)
    requires n <= |start| == |g.objs|
    ensures multiset(Lost(g, start, n))[(tag, handle)] == |LostSlots(g, start, n, tag, handle)|
  {
    hide Lost, LostSlots, LostSlot;
    if n == 0 {
      NothingLostYet(g, start, tag, handle);
    } else {
      LostExact(g, start, n - 1, tag, handle);
      LostOneMore(g, start, n, tag, handle);
      SlotsOneMore(g, start, n, tag, handle);
    }
  }

  lemma NothingLostYet(g: Graph, start: seq<Flags>, tag: u32, handle: u64)
    requires |start| == |g.objs|
    ensures Lost(g, start, 0) == [] && LostSlots(g, start, 0, tag, handle) == {}
  {
  }

  lemma LostOneMore(g: Graph, start: seq<Flags>, n: nat, tag: u32, handle: u64)
    requires 0 < n <= |start| == |g.objs|
    ensures multiset(Lost(g, start, n))[(tag, handle)] ==
      multiset(Lost(g, start, n - 1))[(tag, handle)] + if LostSlot(g, start, n - 1, tag, handle) then 1 else 0
  {
    hide Reached;
    CountConcat(Lost(g, start, n - 1), Lost(g, start, n)[|Lost(g, start, n - 1)|..], (tag, handle));
  }

  lemma CountConcat<T>(a: seq<T>, b: seq<T>, x: T)
    ensures multiset(a + b)[x] == multiset(a)[x] + multiset(b)[x]
  {
  }

  lemma SlotsOneMore(g: Graph, start: seq<Flags>, n: nat, tag: u32, handle: u64)
    requires 0 < n <= |start| == |g.objs|
    ensures |LostSlots(g, start, n, tag, handle)| ==
      |LostSlots(g, start, n - 1, tag, handle)| + if LostSlot(g, start, n - 1, tag, handle) then 1 else 0
  {
    hide LostSlot;
    var before := LostSlots(g, start, n - 1, tag, handle);
    if LostSlot(g, start, n - 1, tag, handle) {
      assert LostSlots(g, start, n, tag, handle) == before + {n - 1};
    } else {
      assert LostSlots(g, start, n, tag, handle) == before;
    }
  }

  ghost predicate LostSlot(g: Graph, start: seq<Flags>, x: nat, tag: u32, handle: u64)
    requires x < |start| == |g.objs|
  {
    !start[x].free && !Reached(g, ObjNode(x)) && g.objs[x].kind == Data(tag, handle)
  }

  ghost function LostSlots(g: Graph, start: seq<Flags>, n: nat, tag: u32, handle: u64): set<nat>
    requires n <= |start| == |g.objs|
  {
    set x: nat | 0 <= x < n && LostSlot(g, start, x, tag, handle)
  }

  /** The tasks remembered are those reached, in their order. */
  lemma {:induction false} RememberedExact(g: Graph, queue: seq<ObjId>, more: seq<ObjId>, x: ObjId)
    ensures x in Remembered(g, queue) <==> x in queue && Reached(g, ObjNode(x))
    ensures Remembered(g, queue + more) == Remembered(g, queue) + Remembered(g, more)
    decreases |queue| + |more|
  {
    hide Reached;
    if |queue| > 0 {
      RememberedExact(g, queue[..|queue| - 1], [], x);
      assert queue == queue[..|queue| - 1] + [queue[|queue| - 1]];
    }
    if |more| > 0 {
      RememberedExact(g, queue, more[..|more| - 1], x);
      assert (queue + more)[..|queue + more| - 1] == queue + more[..|more| - 1];
    } else {
      assert queue + more == queue;
    }
  }

  // ---------------------------------------------------------------- what a collection starts from

  /** What the Vm and the scheduler name, field by field. */
  ghost predicate NamedRoot(n: Named, queues: seq<seq<ObjId>>, tasks: seq<Option<ObjId>>, y: ObjId)
  {
    || Obj(y) in n.globals || Obj(y) in n.pending || y in n.core || y in n.singles || y in n.inspectGuard
    || (exists p :: p in n.eqGuard && (p.0 == y || p.1 == y))
    || (exists p :: p in n.cmpGuard && (p.0 == Obj(y) || p.1 == Obj(y)))
    || y in n.registered || Some(y) in tasks
    || (exists q :: 0 < q < |queues| && y in queues[q])
  }

  lemma {:induction false} PairsIff(ps: seq<(ObjId, ObjId)>, y: ObjId)
    ensures y in Pairs(ps) <==> exists p :: p in ps && (p.0 == y || p.1 == y)
  {
    if |ps| > 0 {
      PairsIff(ps[1..], y);
      assert ps == [ps[0]] + ps[1..];
    }
  }

  lemma {:induction false} JoinedIff(parts: seq<seq<ObjId>>, y: ObjId)
    ensures y in Joined(parts) <==> exists i :: 0 <= i < |parts| && y in parts[i]
  {
    if |parts| > 0 {
      JoinedIff(parts[1..], y);
      if i :| 0 <= i < |parts| && y in parts[i] {
        if i > 0 { assert parts[1..][i - 1] == parts[i]; }
      }
      if i :| 0 <= i < |parts[1..]| && y in parts[1..][i] {
        assert parts[i + 1] == parts[1..][i];
      }
    }
  }

  lemma {:induction false} JoinedConcat(a: seq<seq<ObjId>>, b: seq<seq<ObjId>>)
    ensures Joined(a + b) == Joined(a) + Joined(b)
  {
    if |a| == 0 {
      assert a + b == b;
    } else {
      assert (a + b)[1..] == a[1..] + b;
      JoinedConcat(a[1..], b);
    }
  }

  lemma NamedExact(n: Named, y: ObjId)
    ensures y in Joined(Parts(n)) <==> NamedRoot(n, [], [], y)
  {
    JoinedIff(Parts(n), y);
    IdsIff(n.globals, y);
    IdsIff(n.pending, y);
    PairsIff(n.eqGuard, y);
    FlatIff(n.cmpGuard, y);
    var p := Parts(n);
    assert p[0] == Ids(n.globals) && p[1] == Ids(n.pending) && p[2] == n.core && p[3] == n.singles;
    assert p[4] == n.inspectGuard && p[5] == Pairs(n.eqGuard) && p[6] == Ids(Flat(n.cmpGuard)) && p[7] == n.registered;
  }

  /** The roots are what the Vm names, the tasks that run, and the queues but the dormant one. */
  lemma RootsExact(n: Named, queues: seq<seq<ObjId>>, tasks: seq<Option<ObjId>>, y: ObjId)
    requires |queues| > 0
    ensures y in RootsOf(n, queues, tasks) <==> NamedRoot(n, queues, tasks, y)
  {
    NamedExact(n, y);
    hide Parts, Joined;
    JoinedConcat(Parts(n) + queues[1..], [Present(tasks)]);
    JoinedConcat(Parts(n), queues[1..]);
    JoinedIff([Present(tasks)], y);
    JoinedIff(queues[1..], y);
    PresentIff(tasks, y);
    assert [Present(tasks)][0] == Present(tasks);
    if q :| 0 < q < |queues| && y in queues[q] { assert queues[1..][q - 1] == queues[q]; }
    if q :| 0 <= q < |queues[1..]| && y in queues[1..][q] { assert queues[q + 1] == queues[1..][q]; }
  }

  /** The graph a collection starts from: the objects and stacks there are, for each context its
      registers in use, frames, Fiber and block, and for roots what is named and the contexts that
      run or wait. */
  lemma SnapshotExact(vm: Vm, c: nat, y: ObjId)
    requires |vm.queues| > 0 && vm.cur < |vm.contexts|
    requires vm.contexts[vm.cur].stack == [] && vm.contexts[vm.cur].ci == []
    ensures var g := vm.Snapshot();
      && g.objs == vm.heap.objs && |g.stacks| == |g.held| == |vm.contexts|
      && (y in g.roots <==> NamedRoot(vm.named, vm.queues, vm.tasks, y))
      && (c in g.rootCtxs <==> c == vm.cur || c == ROOT || IsWaiting(vm.contexts, c))
    ensures c < |vm.contexts| ==>
      var g, ctx := vm.Snapshot(), vm.contexts[c];
      var st, ci := if c == vm.cur then vm.stack else ctx.stack, if c == vm.cur then vm.ci else ctx.ci;
      && g.stacks[c] == st
      && (y in g.held[c] <==> StackNames(st, ci, y) || ctx.fib == Some(y) || ctx.proc == Some(y))
  {
    hide NamedRoot, RootsOf, StackNames, IsWaiting, Registers;
    RootsExact(vm.named, vm.queues, vm.tasks, y);
    WaitingExact(vm.contexts, c);
    if c < |vm.contexts| {
      var ctx := vm.contexts[c];
      RegistersExact(ctx.stack, ctx.ci, y);
      RegistersExact(vm.stack, vm.ci, y);
      PresentIff([ctx.fib, ctx.proc], y);
      NothingNamed(y);
    }
  }

  lemma NothingNamed(y: ObjId)
    ensures !StackNames([], [], y)
  {
  }

  /** What the frames keep, field by field: every slot of an attached environment's window that its
      context's stack has is in use, a frame's environment is one of its own context, and the
      running context's stack and frames are in one place. */
  lemma EnvsInOrderExact(vm: Vm)
    requires |vm.heap.objs| == |vm.heap.flags|
    ensures vm.EnvsInOrder() <==>
      && vm.cur < |vm.contexts| && vm.contexts[vm.cur].stack == [] && vm.contexts[vm.cur].ci == []
      && (forall x: ObjId :: vm.heap.Live(x) && vm.heap.objs[x].kind.Env? && vm.heap.objs[x].kind.data.attached ==>
            WindowOk(vm, vm.heap.objs[x].kind.data.window))
      && (forall f :: f in vm.ci ==> FrameOk(vm.heap.objs, f, vm.cur))
      && (forall c, f :: 0 <= c < |vm.contexts| && f in vm.contexts[c].ci ==> FrameOk(vm.heap.objs, f, c))
  {
    hide LiveEnd, RegisterInUse;
    forall w: Window ensures vm.InUsePart(w) <==> WindowOk(vm, w) {
      WindowOkIs(vm, w);
    }
    hide WindowOk, WindowInUse;
    FramesOkIs(vm.heap.objs, vm.ci, vm.cur);
    forall c | 0 <= c < |vm.contexts|
      ensures FramesOwn(vm.heap.objs, vm.contexts[c].ci, c) <==>
        forall f :: f in vm.contexts[c].ci ==> FrameOk(vm.heap.objs, f, c)
    {
      FramesOkIs(vm.heap.objs, vm.contexts[c].ci, c);
    }
    hide FramesOwn, FrameOk;
  }

  ghost predicate WindowOk(vm: Vm, w: Window)
    reads vm
  {
    w.ctx < |vm.contexts| &&
    forall i: nat :: w.base <= i < w.base + w.len && i < |vm.StackOf(w.ctx)| ==> RegisterInUse(vm.FramesOf(w.ctx), i)
  }

  ghost predicate FrameOk(objs: seq<HeapObject>, f: Frame, c: nat)
  {
    f.env.Some? && f.env.value < |objs| ==>
      var o := objs[f.env.value];
      o.kind.Env? && (o.kind.data.attached ==> o.kind.data.window.ctx == c)
  }

  lemma WindowOkIs(vm: Vm, w: Window)
    ensures vm.InUsePart(w) <==> WindowOk(vm, w)
  {
    hide LiveEnd, RegisterInUse;
    if w.ctx < |vm.contexts| {
      var st, ci := vm.StackOf(w.ctx), vm.FramesOf(w.ctx);
      forall i: nat ensures i < LiveEnd(ci, |st|) <==> i < |st| && RegisterInUse(ci, i) {
        LiveEndExact(ci, |st|, i);
      }
      var last := Min(w.base + w.len, |st|);
      if last > Max(w.base, LiveEnd(ci, |st|)) {
        assert w.base <= last - 1 < w.base + w.len && last - 1 < |st| && !RegisterInUse(ci, last - 1);
      }
    }
  }

  lemma FramesOkIs(objs: seq<HeapObject>, ci: seq<Frame>, c: nat)
    ensures FramesOwn(objs, ci, c) <==> forall f :: f in ci ==> FrameOk(objs, f, c)
  {
    if FramesOwn(objs, ci, c) {
      forall f | f in ci ensures FrameOk(objs, f, c) {
        var i :| 0 <= i < |ci| && ci[i] == f;
      }
    } else {
      var i :| 0 <= i < |ci| && ci[i].env.Some? && ci[i].env.value < |objs| && !OwnEnv(objs[ci[i].env.value], c);
      assert ci[i] in ci;
    }
  }

  /** What may be stored: an object whose every field names objects in use, and whose context and
      window, if it has them, are of a context there is. */
  lemma LegalExact(vm: Vm, o: HeapObject)
    ensures vm.Legal(o) <==>
      && (forall y: ObjId :: Names(o, y) ==> vm.heap.Live(y))
      && (forall c: nat :: KeepsContext(o, c) ==> c < |vm.contexts|)
      && (o.kind.Env? && o.kind.data.attached ==> o.kind.data.window.ctx < |vm.contexts|)
  {
    hide Names, Refs;
    forall y: ObjId ensures y in Refs(o) <==> Names(o, y) {
      RefsExact(o, y);
    }
    if ContextOf(o).Some? { assert KeepsContext(o, ContextOf(o).value); }
  }

  lemma FreshWindowExact(vm: Vm, kind: ObjKind)
    ensures vm.FreshWindow(kind) <==> (kind.Env? && kind.data.attached ==> WindowOk(vm, kind.data.window))
  {
    if kind.Env? { WindowOkIs(vm, kind.data.window); }
  }

  // ---------------------------------------------------------------- the collection

  /** A collection, by paths: an object is in use afterwards exactly if a path of references led to
      it from a root, and a context is kept exactly if one led there. */
  method CollectByPaths(vm: Vm) returns (freed: seq<(u32, u64)>)
    requires vm.Valid() && vm.EnvsInOrder()
    modifies vm, vm.heap
    ensures vm.Valid() && vm.EnvsInOrder()
    ensures forall x: ObjId :: vm.heap.Live(x) <==> x < |old(vm.heap.objs)| && ByPath(old(vm.Snapshot()), ObjNode(x))
    ensures |vm.contexts| == |old(vm.contexts)|
    ensures forall c :: 0 <= c < |vm.contexts| ==>
      vm.contexts[c] == if ByPath(old(vm.Snapshot()), CtxNode(c)) then Trimmed(old(vm.contexts)[c])
                        else Dropped(old(vm.contexts)[c])
    ensures forall x: ObjId, y: ObjId :: vm.heap.Live(x) && Names(vm.heap.objs[x], y) ==> vm.heap.Live(y)
  {
    ghost var g := vm.Snapshot();
    vm.SnapshotSound();
    forall n: Node ensures Reached(g, n) <==> ByPath(g, n) {
      ReachedIsByPath(g, vm.heap.flags, n);
    }
    hide *;
    freed := vm.GcCollect();
  }
}
