/** The collection: marking from the roots through objects, contexts and stack windows,
    detaching the environments of contexts nothing reached, and the sweep. */
module Collector {
  import opened Words
  import opened HeapObjects
  import opened Reachability
  import opened Contexts
  import opened References
  import opened MarkSweepHeap

  /** What the Vm itself names, besides contexts and the scheduler. */
  datatype Named = Named(
    globals: seq<Value>, pending: seq<Value>, core: seq<ObjId>, singles: seq<ObjId>,
    inspectGuard: seq<ObjId>, eqGuard: seq<(ObjId, ObjId)>, cmpGuard: seq<(Value, Value)>,
    registered: seq<ObjId>)

  function Pairs(ps: seq<(ObjId, ObjId)>): seq<ObjId>
  {
    if |ps| == 0 then [] else [ps[0].0, ps[0].1] + Pairs(ps[1..])
  }

  function Joined(queues: seq<seq<ObjId>>): seq<ObjId>
  {
    if |queues| == 0 then [] else queues[0] + Joined(queues[1..])
  }

  lemma {:induction false} JoinedOfNone(parts: seq<seq<ObjId>>)
    requires forall i :: 0 <= i < |parts| ==> parts[i] == []
    ensures Joined(parts) == []
  {
    if |parts| > 0 { JoinedOfNone(parts[1..]); }
  }

  /** The objects named, in the order they are marked. */
  function Parts(n: Named): seq<seq<ObjId>>
  {
    [Ids(n.globals), Ids(n.pending), n.core, n.singles, n.inspectGuard, Pairs(n.eqGuard), Ids(Flat(n.cmpGuard)),
      n.registered]
  }

  function RootParts(n: Named, queues: seq<seq<ObjId>>, tasks: seq<Option<ObjId>>): seq<seq<ObjId>>
    requires |queues| > 0
  {
    Parts(n) + queues[1..] + [Present(tasks)]
  }

  function RootsOf(n: Named, queues: seq<seq<ObjId>>, tasks: seq<Option<ObjId>>): seq<ObjId>
    requires |queues| > 0
  {
    Joined(RootParts(n, queues, tasks))
  }

  /** The dormant queue is weak: what is in it is no root. */
  lemma DormantIsNoRoot(n: Named, queues: seq<seq<ObjId>>, tasks: seq<Option<ObjId>>, dormant: seq<ObjId>)
    requires |queues| > 0
    ensures RootsOf(n, queues[0 := dormant], tasks) == RootsOf(n, queues, tasks)
  {
    assert queues[0 := dormant][1..] == queues[1..];
  }

  /** An environment whose values were taken off the stack. */
  function Detached(o: HeapObject, values: seq<Value>): HeapObject
    requires o.kind.Env?
  {
    o.(kind := Env(o.kind.data.(values := values, attached := false)))
  }

  /** The environment `o` at `x` is owned by a frame of its context. */
  predicate Owned(x: ObjId, o: HeapObject, contexts: seq<Context>)
  {
    WindowOf(o).Some? && WindowOf(o).value.ctx < |contexts| && HasFrame(contexts[WindowOf(o).value.ctx].ci, x)
  }

  /** An owned environment with the values of its window. */
  function TakenOff(o: HeapObject, contexts: seq<Context>): HeapObject
    requires WindowOf(o).Some? && WindowOf(o).value.ctx < |contexts|
  {
    var w := WindowOf(o).value;
    Detached(o, Slice(contexts[w.ctx].stack, w.base, w.len))
  }

  /** A frame of context `c` may name this object as its environment. */
  predicate OwnEnv(o: HeapObject, c: nat)
  {
    o.kind.Env? && (o.kind.data.attached ==> o.kind.data.window.ctx == c)
  }

  predicate FramesOwn(objs: seq<HeapObject>, ci: seq<Frame>, c: nat)
  {
    forall i :: 0 <= i < |ci| && ci[i].env.Some? && ci[i].env.value < |objs| ==> OwnEnv(objs[ci[i].env.value], c)
  }

  /** Frames name environments of their own context. */
  ghost predicate EnvsOwned(objs: seq<HeapObject>, contexts: seq<Context>)
  {
    && (forall c :: 0 <= c < |contexts| ==> FramesOwn(objs, contexts[c].ci, c))
    && (forall c, i :: 0 <= c < |contexts| && 0 <= i < |contexts[c].ci| && contexts[c].ci[i].env.Some? ==>
          contexts[c].ci[i].env.value < |objs|)
  }

  lemma {:induction false} DetachedRefs(o: HeapObject, values: seq<Value>)
    requires o.kind.Env?
    ensures forall x :: x in Refs(Detached(o, values)) ==> x in Refs(o) || x in Ids(values)
  {
    var e := o.kind.data;
    assert KindRefs(Detached(o, values).kind) == Ids(values) + ScopeRefs(e.svar, e.svarFwd, e.targetClass);
  }

  predicate Emptied(ctx: Context)
  {
    ctx.status == Terminated && ctx.stack == [] && ctx.ci == [] && ctx.fib == None && ctx.proc == None
  }

  function Dropped(ctx: Context): Context
  {
    if Emptied(ctx) then ctx else NewContext(Terminated)
  }

  /** The entries of the dormant queue that are still reached. */
  function Retained(queue: seq<ObjId>, flags: seq<Flags>): seq<ObjId>
  {
    if |queue| == 0 then []
    else
      var x := queue[|queue| - 1];
      Retained(queue[..|queue| - 1], flags) + if x < |flags| && flags[x].marked then [x] else []
  }

  lemma {:induction false} RetainedMarked(queue: seq<ObjId>, flags: seq<Flags>)
    ensures AllMarked(flags, Retained(queue, flags))
  {
    if |queue| > 0 { RetainedMarked(queue[..|queue| - 1], flags); }
  }

  /** The contexts part of a graph. */
  ghost predicate TakenFrom(g: Graph, cur: nat, ci: seq<Frame>, contexts: seq<Context>, stack: seq<Value>)
  {
    && |g.held| == |g.stacks| == |contexts|
    && forall c :: 0 <= c < |contexts| ==>
      && g.held[c] == (if c == cur then Registers(stack, ci) else []) + CtxHeld(contexts[c])
      && g.stacks[c] == (if c == cur then stack else contexts[c].stack)
  }

  /** Trimming a context leaves its frames, and the stack of a context not scanned. */
  lemma TrimKeepsFrames(contexts: seq<Context>, before: seq<Context>, scanned: seq<bool>)
    requires PartlyTrimmed(contexts, before, scanned)
    ensures forall c :: 0 <= c < |contexts| ==>
      contexts[c].ci == before[c].ci && (!scanned[c] ==> contexts[c] == before[c])
  {
  }

  ghost predicate AfterCollection(contexts: seq<Context>, before: seq<Context>, scanned: seq<bool>)
  {
    && |contexts| == |before| == |scanned|
    && forall c :: 0 <= c < |contexts| ==> contexts[c] == if scanned[c] then Trimmed(before[c]) else Dropped(before[c])
  }

  lemma TrimThenDrop(contexts: seq<Context>, mid: seq<Context>, before: seq<Context>, scanned: seq<bool>)
    requires PartlyTrimmed(mid, before, scanned) && |contexts| == |mid|
    requires forall c :: 0 <= c < |contexts| ==> contexts[c] == if scanned[c] then mid[c] else Dropped(mid[c])
    ensures AfterCollection(contexts, before, scanned)
  {
    hide Trimmed, Dropped;
  }

  ghost predicate KeptAll(objs: seq<HeapObject>, marks: seq<Flags>, before: seq<HeapObject>, contexts: seq<Context>,
                          scanned: seq<bool>)
  {
    && |objs| == |marks| == |before|
    && forall x :: 0 <= x < |objs| ==>
      objs[x] == if marks[x].marked then KeptObject(x, before[x], contexts, scanned) else before[x]
  }

  lemma KeptByTrim(x: ObjId, o: HeapObject, contexts: seq<Context>, before: seq<Context>, scanned: seq<bool>)
    requires PartlyTrimmed(contexts, before, scanned)
    ensures KeptObject(x, o, before, scanned) ==
      if Owned(x, o, contexts) && !scanned[WindowOf(o).value.ctx] then TakenOff(o, contexts) else o
  {
    TrimKeepsFrames(contexts, before, scanned);
  }

  lemma SameLive(flags: seq<Flags>, flags': seq<Flags>, ids: seq<ObjId>)
    requires SameFree(flags, flags') && AllLive(flags, ids)
    ensures AllLive(flags', ids)
  {
  }

  lemma CtxStaysLive(flags: seq<Flags>, others: seq<ObjId>, ctx: Context)
    requires AllLive(flags, others + CtxHeld(ctx))
    ensures AllLive(flags, CtxIds(Trimmed(ctx)))
  {
    LiveConcat(flags, others, CtxHeld(ctx));
    IdsOfCut(ctx.stack, LiveEnd(ctx.ci, |ctx.stack|));
    assert CtxIds(Trimmed(ctx)) == CtxHeld(ctx);
  }

  lemma DroppedHoldsNothing(flags: seq<Flags>, ctx: Context)
    ensures AllLive(flags, CtxIds(Dropped(ctx)))
  {
    PresentOfNone([None, None]);
    assert CtxIds(Dropped(ctx)) == [];
  }

  lemma RunningStaysLive(flags: seq<Flags>, stack: seq<Value>, ci: seq<Frame>, others: seq<ObjId>)
    requires AllLive(flags, Registers(stack, ci) + others)
    ensures AllLive(flags, Ids(Cut(stack, LiveEnd(ci, |stack|)))) && AllLive(flags, FrameIds(ci))
  {
    LiveConcat(flags, Registers(stack, ci), others);
    LiveConcat(flags, Ids(stack[..LiveEnd(ci, |stack|)]), FrameIds(ci));
    IdsOfCut(stack, LiveEnd(ci, |stack|));
  }

  /** What becomes of a reached object: an environment loses its stack if nothing reaches that. */
  function KeptObject(x: ObjId, o: HeapObject, contexts: seq<Context>, scanned: seq<bool>): HeapObject
  {
    if Owned(x, o, contexts) && WindowOf(o).value.ctx < |scanned| && !scanned[WindowOf(o).value.ctx]
    then TakenOff(o, contexts) else o
  }

  /** Value `idx` of an environment, on its context's stack while it is attached. */
  function EnvRead(e: EnvData, stack: seq<Value>, idx: nat): Value
  {
    if e.attached then (if e.window.base + idx < |stack| then stack[e.window.base + idx] else Nil)
    else if idx < |e.values| then e.values[idx] else Nil
  }

  function Unscanned(scanned: seq<bool>): nat
  {
    if |scanned| == 0 then 0 else (if scanned[0] then 0 else 1) + Unscanned(scanned[1..])
  }

  lemma {:induction false} UnscannedUpdate(scanned: seq<bool>, c: nat)
    requires c < |scanned| && !scanned[c]
    ensures Unscanned(scanned[c := true]) < Unscanned(scanned)
  {
    if c == 0 {
      assert scanned[0 := true][1..] == scanned[1..];
    } else {
      assert scanned[c := true][1..] == scanned[1..][c - 1 := true];
      UnscannedUpdate(scanned[1..], c - 1);
    }
  }

  /** The marking loop starts with the roots grey. */
  lemma StartMarking(g: Graph, flags: seq<Flags>, m: Marks, scanned: seq<bool>)
    requires Sound(g, flags) && (forall x :: 0 <= x < |flags| ==> !flags[x].marked)
    requires m == MarkAll(Marks(flags, []), g.roots)
    requires |scanned| == |g.held| && forall c :: 0 <= c < |scanned| ==> !scanned[c]
    ensures MarkInv(g, flags, Marking(m, g.rootCtxs, [], scanned))
  {
    hide Reached, SoundObject, HeldWindow, WindowRefs, Black, MarkAll, Unmarked;
    MarkAllEffect(Marks(flags, []), g.roots);
    RootsReached(g);
  }

  ghost predicate MarkedInUse(flags: seq<Flags>)
  {
    forall x :: 0 <= x < |flags| && flags[x].marked ==> !flags[x].free
  }

  /** The values of a window that ends within the registers in use are among theirs. */
  lemma SliceHeld(st: seq<Value>, base: nat, len: nat, end: nat)
    requires end <= |st| && Min(base + len, |st|) <= Max(base, end)
    ensures forall x :: x in Ids(Slice(st, base, len)) ==> x in Ids(st[..end])
  {
    var to := Min(base + len, |st|);
    if base < to { IdsOfPart(st, base, to, end); }
  }

  /** At the end the running context has been scanned and nothing free is marked. */
  lemma EndOfMarking(g: Graph, flags: seq<Flags>, s: Marking, cur: nat)
    requires MarkInv(g, flags, s) && s.ctxs == [] && cur in g.rootCtxs
    ensures cur < |s.scanned| && s.scanned[cur] && SameFree(flags, s.m.flags)
    ensures MarkedInUse(s.m.flags)
  {
    hide Reached;
    assert Coming(s, cur);
  }

  ghost predicate PartlyTrimmed(contexts: seq<Context>, before: seq<Context>, scanned: seq<bool>)
  {
    && |contexts| == |before| == |scanned|
    && forall c :: 0 <= c < |contexts| ==> contexts[c] == if scanned[c] then Trimmed(before[c]) else before[c]
  }

  /** What a collection makes of an object it keeps. */
  ghost function Kept(g: Graph, x: ObjId, o: HeapObject, contexts: seq<Context>): HeapObject
  {
    if Owned(x, o, contexts) && !Reached(g, CtxNode(WindowOf(o).value.ctx)) then TakenOff(o, contexts) else o
  }

  /** The host handles of the objects not reached, one for each, lowest slot first. */
  ghost function Lost(g: Graph, start: seq<Flags>, n: nat): seq<(u32, u64)>
    requires n <= |start| == |g.objs|
  {
    if n == 0 then []
    else
      var o := g.objs[n - 1];
      Lost(g, start, n - 1)
      + if !start[n - 1].free && !Reached(g, ObjNode(n - 1)) && o.kind.Data? then [(o.kind.tag, o.kind.handle)] else []
  }

  lemma {:induction false} LostIsFreed(g: Graph, start: seq<Flags>, marks: seq<Flags>, scanned: seq<bool>,
                                       objs: seq<HeapObject>, n: nat)
    requires Exact(g, marks, scanned) && SameFree(start, marks) && |objs| == |marks| && n <= |marks|
    requires forall x :: 0 <= x < |marks| && !marks[x].marked ==> objs[x] == g.objs[x]
    ensures FreedData(objs[..n], marks[..n]) == Lost(g, start, n)
  {
    hide Reached;
    if n > 0 {
      LostIsFreed(g, start, marks, scanned, objs, n - 1);
      GarbageUpTo(objs, marks, n - 1);
    }
  }

  /** The dormant tasks that are still reached. */
  ghost function Remembered(g: Graph, queue: seq<ObjId>): seq<ObjId>
  {
    if |queue| == 0 then []
    else
      var x := queue[|queue| - 1];
      Remembered(g, queue[..|queue| - 1]) + if Reached(g, ObjNode(x)) then [x] else []
  }

  lemma {:induction false} RememberedIsRetained(g: Graph, marks: seq<Flags>, scanned: seq<bool>, queue: seq<ObjId>)
    requires Exact(g, marks, scanned) && forall x :: x in queue ==> x < |marks|
    ensures Remembered(g, queue) == Retained(queue, marks)
  {
    hide Reached;
    if |queue| > 0 {
      var short := queue[..|queue| - 1];
      assert queue[|queue| - 1] in queue;
      assert forall x :: x in short ==> x in queue;
      RememberedIsRetained(g, marks, scanned, short);
    }
  }

  lemma KeptIsKept(g: Graph, start: seq<Flags>, marks: seq<Flags>, scanned: seq<bool>, x: ObjId, contexts: seq<Context>)
    requires Sound(g, start) && Exact(g, marks, scanned) && |contexts| == |scanned| && x < |g.objs|
    ensures Kept(g, x, g.objs[x], contexts) == KeptObject(x, g.objs[x], contexts, scanned)
  {
    hide Reached;
  }

  /** The stack and the frames of a context: the running one's are the Vm's own. */
  function StackAt(c: nat, cur: nat, contexts: seq<Context>, stack: seq<Value>): seq<Value>
    requires c < |contexts|
  {
    if c == cur then stack else contexts[c].stack
  }

  function FramesAt(c: nat, cur: nat, contexts: seq<Context>, ci: seq<Frame>): seq<Frame>
    requires c < |contexts|
  {
    if c == cur then ci else contexts[c].ci
  }

  /** Value `idx` of an environment object. */
  function ReadAt(o: HeapObject, cur: nat, contexts: seq<Context>, stack: seq<Value>, idx: nat): Value
    requires o.kind.Env?
  {
    var c := o.kind.data.window.ctx;
    EnvRead(o.kind.data, if c < |contexts| then StackAt(c, cur, contexts, stack) else [], idx)
  }

  ghost function StackAfter(g: Graph, c: nat, cur: nat, ci: seq<Frame>, contexts: seq<Context>,
                            stack: seq<Value>): seq<Value>
    requires c < |contexts|
  {
    if c == cur then Cut(stack, LiveEnd(ci, |stack|))
    else if Reached(g, CtxNode(c)) then Trimmed(contexts[c]).stack
    else Dropped(contexts[c]).stack
  }

  /** The window is within the registers in use of its context, or has no slot. */
  predicate WindowInUse(w: Window, cur: nat, contexts: seq<Context>, stack: seq<Value>, ci: seq<Frame>)
  {
    w.ctx < |contexts| &&
    var st := StackAt(w.ctx, cur, contexts, stack);
    Min(w.base + w.len, |st|) <= Max(w.base, LiveEnd(FramesAt(w.ctx, cur, contexts, ci), |st|))
  }

  /** What the frames keep: an attached environment's window is in use, a frame's environment is
      one of its own context, and the running context's stack and frames are in one place. */
  predicate Orderly(objs: seq<HeapObject>, flags: seq<Flags>, cur: nat, contexts: seq<Context>, stack: seq<Value>,
                    ci: seq<Frame>)
    requires |objs| == |flags|
  {
    && (forall x :: 0 <= x < |objs| && !flags[x].free && WindowOf(objs[x]).Some? ==>
          WindowInUse(WindowOf(objs[x]).value, cur, contexts, stack, ci))
    && cur < |contexts| && contexts[cur].stack == [] && contexts[cur].ci == []
    && FramesOwn(objs, ci, cur)
    && (forall c :: 0 <= c < |contexts| ==> FramesOwn(objs, contexts[c].ci, c))
  }

  function WithContext(contexts: seq<Context>, c: nat, ctx: Context): seq<Context>
    requires c <= |contexts|
  {
    if c < |contexts| then contexts[c := ctx] else contexts + [ctx]
  }

  /** The contexts once `to` runs: the stack and frames of the one left are back in its entry. */
  function SwitchedTo(contexts: seq<Context>, from: nat, to: nat, stack: seq<Value>, ci: seq<Frame>): seq<Context>
    requires from < |contexts| && to < |contexts|
  {
    contexts[from := contexts[from].(stack := stack, ci := ci)]
            [to := contexts[to].(stack := contexts[from].stack, ci := contexts[from].ci, status := Running)]
  }

  lemma SwitchIsOrderly(objs: seq<HeapObject>, flags: seq<Flags>, from: nat, to: nat,
                        contexts: seq<Context>, stack: seq<Value>, ci: seq<Frame>)
    requires |objs| == |flags| && Orderly(objs, flags, from, contexts, stack, ci) && to < |contexts| && to != from
    ensures Orderly(objs, flags, to, SwitchedTo(contexts, from, to, stack, ci), contexts[to].stack, contexts[to].ci)
  {
    hide LiveEnd, OwnEnv;
  }

  /** One object more, in a slot that was free or at the end. */
  ghost predicate Allocated(objs: seq<HeapObject>, flags: seq<Flags>, objs': seq<HeapObject>, flags': seq<Flags>,
                            id: ObjId)
  {
    && |objs| == |flags| && |objs'| == |flags'| && |objs| <= |objs'|
    && id < |objs'| && (id < |objs| ==> flags[id].free) && !flags'[id].free
    && forall x :: 0 <= x < |objs'| && x != id ==> x < |objs| && objs'[x] == objs[x] && flags'[x] == flags[x]
  }

  /** A new object changes nothing for the frames, which name objects in use. */
  lemma NewIsOrderly(objs: seq<HeapObject>, flags: seq<Flags>, objs': seq<HeapObject>, flags': seq<Flags>, id: ObjId,
                     cur: nat, contexts: seq<Context>, stack: seq<Value>, ci: seq<Frame>)
    requires Allocated(objs, flags, objs', flags', id) && Orderly(objs, flags, cur, contexts, stack, ci)
    requires WindowOf(objs'[id]).Some? ==> WindowInUse(WindowOf(objs'[id]).value, cur, contexts, stack, ci)
    requires AllLive(flags, FrameIds(ci))
    requires forall c :: 0 <= c < |contexts| ==> AllLive(flags, FrameIds(contexts[c].ci))
    ensures Orderly(objs', flags', cur, contexts, stack, ci)
  {
    hide WindowInUse, OwnEnv;
    NewOwned(objs, flags, objs', id, ci, cur);
    forall c | 0 <= c < |contexts| ensures FramesOwn(objs', contexts[c].ci, c) {
      NewOwned(objs, flags, objs', id, contexts[c].ci, c);
    }
  }

  lemma NewOwned(objs: seq<HeapObject>, flags: seq<Flags>, objs': seq<HeapObject>, id: ObjId, ci: seq<Frame>, c: nat)
    requires |objs| == |flags| && AllLive(flags, FrameIds(ci)) && FramesOwn(objs, ci, c) && |objs| <= |objs'|
    requires id < |objs| ==> flags[id].free
    requires forall x :: 0 <= x < |objs| && x != id ==> objs'[x] == objs[x]
    ensures FramesOwn(objs', ci, c)
  {
    hide OwnEnv;
    forall i | 0 <= i < |ci| && ci[i].env.Some? ensures ci[i].env.value < |objs| && ci[i].env.value != id {
      FrameIdsHas(ci, i);
    }
  }

  /** Whether what an environment answered before a collection is what it answers after: it has its
      values with it, its context is reached, a frame of its context owns it, or it was nil. */
  ghost predicate ReadKept(g: Graph, x: ObjId, o: HeapObject, contexts: seq<Context>, before: Value)
    requires o.kind.Env?
  {
    || !o.kind.data.attached
    || Reached(g, CtxNode(o.kind.data.window.ctx))
    || Owned(x, o, contexts)
    || before == Nil
  }

  lemma EnvReadKept(g: Graph, x: ObjId, o: HeapObject, cur: nat, ci: seq<Frame>, contexts: seq<Context>,
                    stack: seq<Value>, idx: nat)
    requires o.kind.Env? && idx < o.kind.data.window.len && o.kind.data.window.ctx < |contexts|
    requires cur in g.rootCtxs
    requires o.kind.data.attached ==> WindowInUse(o.kind.data.window, cur, contexts, stack, ci)
    ensures var c, k := o.kind.data.window.ctx, Kept(g, x, o, contexts);
      k.kind.Env? &&
      var before := EnvRead(o.kind.data, StackAt(c, cur, contexts, stack), idx);
      EnvRead(k.kind.data, StackAfter(g, c, cur, ci, contexts, stack), idx) == before
      <==> ReadKept(g, x, o, contexts, before)
  {
    RootsReached(g);
    hide Reached, LiveEnd;
  }

  lemma DroppedFrames(ctx: Context, objs: seq<HeapObject>, c: nat)
    ensures FramesOwn(objs, Dropped(ctx).ci, c)
  {
  }

  /** The contexts after a collection, by what is reachable. */
  ghost predicate CtxsAfter(g: Graph, contexts: seq<Context>, contexts': seq<Context>)
  {
    |contexts'| == |contexts| && forall c :: 0 <= c < |contexts| ==>
      contexts'[c] == if Reached(g, CtxNode(c)) then Trimmed(contexts[c]) else Dropped(contexts[c])
  }

  /** Windows in use stay so: the stacks keep their length, or there is no slot left. */
  lemma WindowStaysInUse(g: Graph, w: Window, cur: nat, contexts: seq<Context>, stack: seq<Value>, ci: seq<Frame>,
                         contexts': seq<Context>)
    requires WindowInUse(w, cur, contexts, stack, ci) && CtxsAfter(g, contexts, contexts')
    ensures WindowInUse(w, cur, contexts', Cut(stack, LiveEnd(ci, |stack|)), ci)
  {
    hide Reached;
  }

  /** What a frame of a context names is still an environment of that context. */
  lemma FramesStillOwn(g: Graph, objs: seq<HeapObject>, objs': seq<HeapObject>, contexts: seq<Context>, ci: seq<Frame>,
                       c: nat)
    requires FramesOwn(objs, ci, c)
    requires forall i :: 0 <= i < |ci| && ci[i].env.Some? ==>
      var e := ci[i].env.value; e < |objs| && e < |objs'| && objs'[e] == Kept(g, e, objs[e], contexts)
    ensures FramesOwn(objs', ci, c)
  {
    hide Reached, HasFrame;
    forall i | 0 <= i < |ci| && ci[i].env.Some? ensures OwnEnv(objs'[ci[i].env.value], c) {
      assert OwnEnv(objs[ci[i].env.value], c);
    }
  }

  class Vm {
    const heap: Heap
    /** Contexts; the running one's stack and frames are `stack` and `ci`. */
    var contexts: seq<Context>
    var cur: nat
    var stack: seq<Value>
    var ci: seq<Frame>
    var named: Named
    /** The scheduler's queues, the dormant one first. */
    var queues: seq<seq<ObjId>>
    var tasks: seq<Option<ObjId>>

    constructor ()
      ensures fresh(heap) && Valid() && EnvsInOrder() && contexts == [NewContext(Created)] && cur == ROOT
      ensures Now().g.objs == [] && Now().contexts == contexts
    {
      heap := new Heap();
      contexts, cur, stack, ci := [NewContext(Created)], ROOT, [], [];
      named := Named([], [], [], [], [], [], [], []);
      queues, tasks := [[], [], [], []], [];
      new;
      NothingYet();
    }

    lemma NothingYet()
      requires heap.Valid() && heap.objs == [] && contexts == [NewContext(Created)]
      requires cur == ROOT && stack == [] && ci == []
      requires named == Named([], [], [], [], [], [], [], []) && queues == [[], [], [], []] && tasks == []
      ensures Valid() && EnvsInOrder()
    {
      JoinedOfNone(RootParts(named, queues, tasks));
      DroppedHoldsNothing(heap.flags, contexts[0]);
      assert CtxIds(contexts[0]) == CtxIds(Dropped(contexts[0]));
    }

    // -------------------------------------------------------------- the graph

    function RootIds(): seq<ObjId>
      requires |queues| > 0
      reads this
    {
      RootsOf(named, queues, tasks)
    }

    function RootCtxs(): seq<nat>
      reads this
    {
      [cur, ROOT] + WaitingCtxs(contexts)
    }

    function StackOf(c: nat): seq<Value>
      requires c < |contexts|
      reads this
    {
      StackAt(c, cur, contexts, stack)
    }

    function FramesOf(c: nat): seq<Frame>
      requires c < |contexts|
      reads this
    {
      FramesAt(c, cur, contexts, ci)
    }

    function RunningHeld(): seq<ObjId>
      reads this
    {
      Registers(stack, ci)
    }

    function Held(c: nat): seq<ObjId>
      requires c < |contexts|
      reads this
    {
      (if c == cur then RunningHeld() else []) + CtxHeld(contexts[c])
    }

    function Snapshot(): Graph
      requires |queues| > 0
      reads this, heap
    {
      Graph(heap.objs, seq(|contexts|, c requires 0 <= c < |contexts| reads this => StackOf(c)),
            seq(|contexts|, c requires 0 <= c < |contexts| reads this => Held(c)), RootIds(), RootCtxs())
    }

    // -------------------------------------------------------------- invariants

    predicate InTable(o: HeapObject)
      reads this
    {
      && (ContextOf(o).Some? ==> ContextOf(o).value < |contexts|)
      && (WindowOf(o).Some? ==> WindowOf(o).value.ctx < |contexts|)
    }

    /** Nothing anywhere names a freed slot. */
    ghost predicate NoDangling()
      requires |queues| > 0
      reads this, heap
    {
      && AllLive(heap.flags, RootIds()) && AllLive(heap.flags, queues[0])
      && AllLive(heap.flags, Ids(stack)) && AllLive(heap.flags, FrameIds(ci))
      && (forall c :: 0 <= c < |contexts| ==> AllLive(heap.flags, CtxIds(contexts[c])))
      && (forall x :: 0 <= x < |heap.flags| && x < |heap.objs| && !heap.flags[x].free ==>
            AllLive(heap.flags, Refs(heap.objs[x])) && InTable(heap.objs[x]))
    }

    ghost predicate Valid()
      reads this, heap
    {
      && heap.Valid() && |queues| > 0 && cur < |contexts|
      && NoDangling()
    }

    predicate InUsePart(w: Window)
      reads this
    {
      WindowInUse(w, cur, contexts, stack, ci)
    }

    predicate EnvsInOrder()
      requires |heap.objs| == |heap.flags|
      reads this, heap
    {
      Orderly(heap.objs, heap.flags, cur, contexts, stack, ci)
    }

    /** Value `idx` of the environment `x`. */
    function ReadEnv(x: ObjId, idx: nat): Value
      requires x < |heap.objs| && heap.objs[x].kind.Env?
      reads this, heap
    {
      ReadAt(heap.objs[x], cur, contexts, stack, idx)
    }

    lemma WindowIsHeld(w: Window)
      requires |queues| > 0 && InUsePart(w)
      ensures HeldWindow(Snapshot(), w)
    {
      hide Snapshot, Held, LiveEnd, Ids, Slice, StackAt, FramesAt;
      SnapshotAt(w.ctx);
      SliceHeld(StackOf(w.ctx), w.base, w.len, LiveEnd(FramesOf(w.ctx), |StackOf(w.ctx)|));
      HeldHasRegisters(w.ctx);
    }

    lemma SnapshotAt(c: nat)
      requires |queues| > 0 && c < |contexts|
      ensures c < |Snapshot().stacks| == |Snapshot().held|
      ensures Snapshot().stacks[c] == StackOf(c) && Snapshot().held[c] == Held(c)
    {
    }

    lemma HeldHasRegisters(c: nat)
      requires c < |contexts|
      ensures forall x :: x in Ids(StackOf(c)[..LiveEnd(FramesOf(c), |StackOf(c)|)]) ==> x in Held(c)
    {
      hide LiveEnd, Ids, FrameIds;
    }

    lemma SnapshotSound()
      requires Valid() && EnvsInOrder() && ROOT < |contexts|
      ensures Sound(Snapshot(), heap.flags)
    {
      var g := Snapshot();
      WaitingInRange(contexts);
      forall c | 0 <= c < |contexts| ensures AllLive(heap.flags, g.held[c]) {
        HeldIsLive(c);
      }
      forall x | 0 <= x < |heap.flags| && !heap.flags[x].free ensures SoundObject(g, heap.flags, heap.objs[x]) {
        var o := heap.objs[x];
        if WindowOf(o).Some? { WindowIsHeld(WindowOf(o).value); }
      }
    }

    lemma HeldIsLive(c: nat)
      requires Valid() && c < |contexts|
      ensures AllLive(heap.flags, Held(c))
    {
      assert AllLive(heap.flags, CtxIds(contexts[c]));
      RegistersLive(stack, ci);
      var ctx := contexts[c];
      LiveConcat(heap.flags, Ids(ctx.stack) + FrameIds(ctx.ci), Present([ctx.fib, ctx.proc]));
      LiveConcat(heap.flags, Ids(ctx.stack), FrameIds(ctx.ci));
      RegistersLive(ctx.stack, ctx.ci);
      LiveConcat(heap.flags, Registers(ctx.stack, ctx.ci), Present([ctx.fib, ctx.proc]));
      LiveConcat(heap.flags, if c == cur then RunningHeld() else [], CtxHeld(ctx));
    }

    lemma RegistersLive(st: seq<Value>, frames: seq<Frame>)
      requires AllLive(heap.flags, Ids(st)) && AllLive(heap.flags, FrameIds(frames))
      ensures AllLive(heap.flags, Registers(st, frames))
    {
      var end := LiveEnd(frames, |st|);
      IdsOfPart(st, 0, end, |st|);
      assert st[..|st|] == st && st[0..end] == st[..end];
      LiveConcat(heap.flags, Ids(st[..end]), FrameIds(frames));
    }

    // -------------------------------------------------------------- marking

    /** The root set: what the Vm names is marked, the contexts to scan are handed back. */
    method GcMarkRoots() returns (work: seq<ObjId>, ctxs: seq<nat>)
      requires |queues| > 0 && AllLive(heap.flags, RootIds())
      modifies heap`flags
      ensures Marks(heap.flags, work) == MarkAll(Marks(old(heap.flags), []), RootIds())
      ensures SameFree(old(heap.flags), heap.flags)
      ensures ctxs == RootCtxs()
    {
      ctxs := [cur, ROOT];
      for i := 0 to |contexts|
        invariant ctxs == [cur, ROOT] + WaitingCtxs(contexts[..i])
      {
        assert contexts[..i + 1][..i] == contexts[..i];
        if Waiting(contexts[i]) { ctxs := ctxs + [i]; }
      }
      assert contexts[..|contexts|] == contexts;
      work := MarkParts(RootParts(named, queues, tasks));
    }

    method MarkParts(parts: seq<seq<ObjId>>) returns (work: seq<ObjId>)
      requires AllLive(heap.flags, Joined(parts))
      modifies heap`flags
      ensures Marks(heap.flags, work) == MarkAll(Marks(old(heap.flags), []), Joined(parts))
      ensures SameFree(old(heap.flags), heap.flags)
    {
      work := [];
      assert parts[0..] == parts;
      for i := 0 to |parts|
        modifies heap`flags
        invariant SameFree(old(heap.flags), heap.flags) && AllLive(heap.flags, Joined(parts[i..]))
        invariant MarkAll(Marks(heap.flags, work), Joined(parts[i..]))
          == MarkAll(Marks(old(heap.flags), []), Joined(parts))
      {
        assert parts[i..][0] == parts[i] && parts[i..][1..] == parts[i + 1..];
        LiveConcat(heap.flags, parts[i], Joined(parts[i + 1..]));
        MarkAllConcat(Marks(heap.flags, work), parts[i], Joined(parts[i + 1..]));
        work := heap.MarkIds(parts[i], work);
      }
    }

    /** Marks what a context holds, and clears its slots out of use. */
    method GcMarkContext(c: nat, work: seq<ObjId>) returns (work': seq<ObjId>)
      requires c < |contexts| && AllLive(heap.flags, Held(c))
      modifies heap`flags, `stack, `contexts
      ensures Marks(heap.flags, work') == MarkAll(Marks(old(heap.flags), work), old(Held(c)))
      ensures SameFree(old(heap.flags), heap.flags)
      ensures contexts == old(contexts)[c := Trimmed(old(contexts)[c])]
      ensures stack == if c == cur then Cut(old(stack), LiveEnd(ci, |old(stack)|)) else old(stack)
    {
      var ctx := contexts[c];
      work' := work;
      if c == cur {
        LiveConcat(heap.flags, RunningHeld(), CtxHeld(ctx));
        MarkAllConcat(Marks(heap.flags, work), RunningHeld(), CtxHeld(ctx));
        work' := MarkRegisters(stack, ci, work');
        stack := Cut(stack, LiveEnd(ci, |stack|));
      }
      assert [] + CtxHeld(ctx) == CtxHeld(ctx);
      var held := Present([ctx.fib, ctx.proc]);
      LiveConcat(heap.flags, Registers(ctx.stack, ctx.ci), held);
      MarkAllConcat(Marks(heap.flags, work'), Registers(ctx.stack, ctx.ci), held);
      work' := MarkRegisters(ctx.stack, ctx.ci, work');
      contexts := contexts[c := Trimmed(ctx)];
      work' := heap.MarkIds(held, work');
    }

    method MarkRegisters(st: seq<Value>, frames: seq<Frame>, work: seq<ObjId>) returns (work': seq<ObjId>)
      requires AllLive(heap.flags, Registers(st, frames))
      modifies heap`flags
      ensures Marks(heap.flags, work') == MarkAll(Marks(old(heap.flags), work), Registers(st, frames))
      ensures SameFree(old(heap.flags), heap.flags)
    {
      var live := st[..LiveEnd(frames, |st|)];
      LiveConcat(heap.flags, Ids(live), FrameIds(frames));
      MarkAllConcat(Marks(heap.flags, work), Ids(live), FrameIds(frames));
      work' := heap.MarkSlots(live, work);
      work' := heap.MarkIds(FrameIds(frames), work');
    }

    method BeginMarking(ghost g: Graph) returns (work: seq<ObjId>, ctxs: seq<nat>, scanned: seq<bool>)
      requires heap.Valid() && |queues| > 0 && cur < |contexts|
      requires g == Snapshot() && Sound(g, heap.flags)
      modifies heap`flags
      ensures cur in g.rootCtxs && g.objs == heap.objs && |g.held| == |contexts|
      ensures MarkInv(g, old(heap.flags), Marking(Marks(heap.flags, work), ctxs, [], scanned))
      ensures |scanned| == |contexts| && Scanning(scanned, g, contexts, stack)
    {
      ghost var start := heap.flags;
      work, ctxs := GcMarkRoots();
      scanned := seq(|contexts|, _ => false);
      StartMarking(g, start, Marks(heap.flags, work), scanned);
    }

    /** The mark phase. Afterwards the marks are on exactly the objects, and the scans of
        exactly the contexts, that the roots lead to. */
    method MarkPhase(ghost g: Graph) returns (scanned: seq<bool>)
      requires heap.Valid() && |queues| > 0 && cur < |contexts|
      requires g == Snapshot() && Sound(g, heap.flags)
      modifies heap`flags, `stack, `contexts
      ensures SameFree(old(heap.flags), heap.flags) && |scanned| == |contexts| == old(|contexts|)
      ensures Exact(g, heap.flags, scanned) && MarkedInUse(heap.flags)
      ensures scanned[cur] && PartlyTrimmed(contexts, old(contexts), scanned)
      ensures stack == Cut(old(stack), LiveEnd(ci, |old(stack)|))
    {
      hide MarkInv, Scanned, Windowed, Sound, Exact, SameFree, MarkedInUse, PartlyTrimmed,
        Unmarked, Unscanned, AllLive, WindowRefs, Cut, LiveEnd, RootsOf, FreeSlots;
      ghost var start := heap.flags;
      var work, ctxs;
      work, ctxs, scanned := BeginMarking(g);
      var windows: seq<Window> := [];
      while true
        modifies heap`flags, `stack, `contexts
        invariant |scanned| == |contexts| == old(|contexts|) == |g.held|
        invariant MarkInv(g, start, Marking(Marks(heap.flags, work), ctxs, windows, scanned))
        invariant Scanning(scanned, g, old(contexts), old(stack))
        decreases Left(Marking(Marks(heap.flags, work), ctxs, windows, scanned)), Unscanned(scanned), |ctxs| + |windows|
      {
        work, ctxs, windows := heap.MarkDrain(work, ctxs, windows, g, start, scanned);
        ghost var s := Marking(Marks(heap.flags, work), ctxs, windows, scanned);
        if |ctxs| > 0 {
          ScanStep(g, start, s);
          work, scanned := ScanContext(ctxs[|ctxs| - 1], work, scanned, g, s, old(contexts), old(stack));
          ctxs := ctxs[..|ctxs| - 1];
        } else if |windows| > 0 {
          WindowStep(g, start, s);
          work := ScanWindow(windows[|windows| - 1], work, scanned, g, s, old(contexts), old(stack));
          windows := windows[..|windows| - 1];
        } else {
          MarkedIsReached(g, start, s);
          EndOfMarking(g, start, s, cur);
          break;
        }
      }
    }

    /** The state of the contexts while some of them are scanned. */
    ghost predicate Scanning(scanned: seq<bool>, g: Graph, contexts0: seq<Context>, stack0: seq<Value>)
      reads this
    {
      && cur < |contexts| && |g.stacks| == |g.held| == |contexts| && PartlyTrimmed(contexts, contexts0, scanned)
      && stack == (if scanned[cur] then Cut(stack0, LiveEnd(ci, |stack0|)) else stack0)
      && (forall c :: 0 <= c < |contexts| && !scanned[c] ==> g.held[c] == Held(c) && g.stacks[c] == StackOf(c))
    }

    method ScanContext(c: nat, work: seq<ObjId>, scanned: seq<bool>, ghost g: Graph, ghost s: Marking,
                       ghost contexts0: seq<Context>, ghost stack0: seq<Value>)
      returns (work': seq<ObjId>, scanned': seq<bool>)
      requires Scanning(scanned, g, contexts0, stack0)
      requires c < |contexts| == |scanned| == |g.held| && AllLive(heap.flags, g.held[c])
      requires s.m == Marks(heap.flags, work) && s.scanned == scanned && |s.ctxs| > 0 && c == s.ctxs[|s.ctxs| - 1]
      modifies heap`flags, `stack, `contexts
      ensures Scanning(scanned', g, contexts0, stack0) && |contexts| == old(|contexts|)
      ensures Marking(Marks(heap.flags, work'), s.ctxs[..|s.ctxs| - 1], s.windows, scanned') == Scanned(g, s)
      ensures |scanned'| == |scanned| && (scanned' == scanned || Unscanned(scanned') < Unscanned(scanned))
    {
      hide MarkAll, CtxHeld, Registers, Trimmed, Cut, LiveEnd, Unscanned, AllLive;
      work', scanned' := work, scanned;
      if !scanned[c] {
        UnscannedUpdate(scanned, c);
        scanned' := scanned[c := true];
        work' := GcMarkContext(c, work);
      }
    }

    method ScanWindow(w: Window, work: seq<ObjId>, scanned: seq<bool>, ghost g: Graph, ghost s: Marking,
                      ghost contexts0: seq<Context>, ghost stack0: seq<Value>)
      returns (work': seq<ObjId>)
      requires Scanning(scanned, g, contexts0, stack0) && w.ctx < |contexts| == |scanned|
      requires AllLive(heap.flags, WindowRefs(g, w))
      requires s.m == Marks(heap.flags, work) && s.scanned == scanned
      requires |s.windows| > 0 && w == s.windows[|s.windows| - 1]
      modifies heap`flags
      ensures Marking(Marks(heap.flags, work'), s.ctxs, s.windows[..|s.windows| - 1], scanned) == Windowed(g, s)
    {
      hide Scanning, AllLive, Ids, Slice, WindowRefs, StackAt, LiveEnd;
      work' := work;
      if !scanned[w.ctx] {
        WindowIs(w, scanned, g, contexts0, stack0);
        work' := heap.MarkSlots(Slice(StackOf(w.ctx), w.base, w.len), work);
      }
    }

    lemma WindowIs(w: Window, scanned: seq<bool>, g: Graph, contexts0: seq<Context>, stack0: seq<Value>)
      requires Scanning(scanned, g, contexts0, stack0) && w.ctx < |contexts| == |scanned| && !scanned[w.ctx]
      ensures WindowRefs(g, w) == Ids(Slice(StackOf(w.ctx), w.base, w.len))
    {
      hide LiveEnd, Cut, Held, Slice, Ids, PartlyTrimmed;
    }

    // -------------------------------------------------------------- contexts nothing reached

    /** Takes the values of the marked environments of a context's frames off its stack. */
    method DetachFrames(c: nat)
      requires c < |contexts| && |heap.objs| == |heap.flags| && FramesOwn(heap.objs, contexts[c].ci, c)
      requires forall i :: 0 <= i < |contexts[c].ci| && contexts[c].ci[i].env.Some? ==>
        contexts[c].ci[i].env.value < |heap.objs|
      modifies heap`objs
      ensures |heap.objs| == old(|heap.objs|)
      ensures forall x :: 0 <= x < |heap.objs| ==>
        var o := old(heap.objs)[x];
        heap.objs[x] == if heap.flags[x].marked && HasFrame(contexts[c].ci, x)
                           && WindowOf(o).Some? && WindowOf(o).value.ctx == c
                        then TakenOff(o, contexts) else o
    {
      var ctx := contexts[c];
      ghost var objs0 := heap.objs;
      for i := 0 to |ctx.ci|
        modifies heap`objs
        invariant |heap.objs| == |objs0|
        invariant forall x :: 0 <= x < |objs0| ==>
          var o := objs0[x];
          heap.objs[x] == if heap.flags[x].marked && HasFrame(ctx.ci[..i], x)
                             && WindowOf(o).Some? && WindowOf(o).value.ctx == c
                          then TakenOff(o, contexts) else o
      {
        assert ctx.ci[..i + 1][..i] == ctx.ci[..i];
        var f := ctx.ci[i];
        if f.env.Some? && heap.flags[f.env.value].marked {
          var e := f.env.value;
          assert OwnEnv(objs0[e], c);
          var o := heap.objs[e];
          if o.kind.data.attached {
            var w := o.kind.data.window;
            heap.objs := heap.objs[e := Detached(o, Slice(ctx.stack, w.base, w.len))];
          }
        }
      }
      assert ctx.ci[..|ctx.ci|] == ctx.ci;
    }

    /** Every context nothing reached: its environments detached, its stack and frames gone. */
    method DropContexts(scanned: seq<bool>)
      requires |scanned| == |contexts| && |heap.objs| == |heap.flags| && EnvsOwned(heap.objs, contexts)
      modifies heap`objs, `contexts
      ensures |contexts| == old(|contexts|) && |heap.objs| == old(|heap.objs|)
      ensures forall c :: 0 <= c < |contexts| ==>
        contexts[c] == if scanned[c] then old(contexts)[c] else Dropped(old(contexts)[c])
      ensures forall x :: 0 <= x < |heap.objs| ==>
        var o := old(heap.objs)[x];
        heap.objs[x] == if heap.flags[x].marked && Owned(x, o, old(contexts)) && !scanned[WindowOf(o).value.ctx]
                        then TakenOff(o, old(contexts)) else o
    {
      ghost var objs0, before := heap.objs, contexts;
      for c := 0 to |contexts|
        modifies heap`objs, `contexts
        invariant |contexts| == |before| && |heap.objs| == |objs0|
        invariant forall d :: 0 <= d < c ==> contexts[d] == if scanned[d] then before[d] else Dropped(before[d])
        invariant forall d :: c <= d < |before| ==> contexts[d] == before[d]
        invariant forall x :: 0 <= x < |objs0| ==>
          var o := objs0[x];
          heap.objs[x] == if heap.flags[x].marked && Owned(x, o, before)
                             && WindowOf(o).value.ctx < c && !scanned[WindowOf(o).value.ctx]
                          then TakenOff(o, before) else o
      {
        if !scanned[c] {
          if !Emptied(contexts[c]) {
            assert FramesOwn(objs0, before[c].ci, c);
            DetachFrames(c);
            contexts := contexts[c := NewContext(Terminated)];
          }
        }
      }
    }

    // -------------------------------------------------------------- the collection

    method RetainDormant()
      requires |queues| > 0 && AllLive(heap.flags, queues[0])
      modifies `queues
      ensures queues == old(queues)[0 := Retained(old(queues)[0], heap.flags)]
    {
      var queue, kept := queues[0], [];
      for i := 0 to |queue|
        modifies {}
        invariant kept == Retained(queue[..i], heap.flags)
      {
        assert queue[..i + 1][..i] == queue[..i];
        assert queue[i] in queue;
        if heap.flags[queue[i]].marked { kept := kept + [queue[i]]; }
      }
      assert queue[..|queue|] == queue;
      queues := queues[0 := kept];
    }

    /** The state between the marks of `g` and the sweep's end. */
    ghost predicate Collected(g: Graph, start: seq<Flags>, marks: seq<Flags>, scanned: seq<bool>,
                              contexts0: seq<Context>, stack0: seq<Value>, dormant: seq<ObjId>)
      reads this, heap
    {
      && Sound(g, start) && Exact(g, marks, scanned) && SameFree(start, marks) && Swept(marks, heap.flags)
      && MarkedInUse(marks)
      && |heap.objs| == |heap.flags| && heap.free == FreeSlots(heap.flags) && heap.freedData == []
      && (forall x :: 0 <= x < |heap.objs| && marks[x].marked ==>
        heap.objs[x] == KeptObject(x, g.objs[x], contexts0, scanned))
      && AfterCollection(contexts, contexts0, scanned) && cur < |contexts| && scanned[cur]
      && stack == Cut(stack0, LiveEnd(ci, |stack0|))
      && |queues| > 0 && queues[0] == Retained(dormant, marks) && g.roots == RootIds()
      && TakenFrom(g, cur, ci, contexts0, stack0)
    }

    lemma ContextsStayLive(g: Graph, start: seq<Flags>, marks: seq<Flags>, scanned: seq<bool>,
                           contexts0: seq<Context>, stack0: seq<Value>, dormant: seq<ObjId>)
      requires Collected(g, start, marks, scanned, contexts0, stack0, dormant)
      ensures AllLive(heap.flags, Ids(stack)) && AllLive(heap.flags, FrameIds(ci))
      ensures forall c :: 0 <= c < |contexts| ==> AllLive(heap.flags, CtxIds(contexts[c]))
    {
      KeptIsClosed(g, start, marks, scanned);
      hide Reached, LiveEnd, Cut, Sound, Closes, AllMarked, AllLive, CtxIds, CtxHeld, Registers, Trimmed;
      forall c | 0 <= c < |contexts| ensures AllLive(heap.flags, CtxIds(contexts[c])) {
        if scanned[c] {
          MarkedStayLive(marks, heap.flags, g.held[c]);
          CtxStaysLive(heap.flags, if c == cur then Registers(stack0, ci) else [], contexts0[c]);
        } else {
          DroppedHoldsNothing(heap.flags, contexts0[c]);
        }
      }
      MarkedStayLive(marks, heap.flags, g.held[cur]);
      RunningStaysLive(heap.flags, stack0, ci, CtxHeld(contexts0[cur]));
    }

    lemma ObjectStaysLive(g: Graph, start: seq<Flags>, marks: seq<Flags>, scanned: seq<bool>,
                          contexts0: seq<Context>, stack0: seq<Value>, dormant: seq<ObjId>, x: ObjId)
      requires Collected(g, start, marks, scanned, contexts0, stack0, dormant)
      requires x < |heap.flags| && !heap.flags[x].free
      ensures AllLive(heap.flags, Refs(heap.objs[x])) && InTable(heap.objs[x])
    {
      KeptIsClosed(g, start, marks, scanned);
      hide Reached, LiveEnd, Cut, Sound, Ids, KindRefs;
      var o := g.objs[x];
      assert marks[x].marked && Closes(g, marks, scanned, o);
      MarkedStayLive(marks, heap.flags, Refs(o));
      if WindowOf(o).Some? {
        var w := WindowOf(o).value;
        MarkedStayLive(marks, heap.flags, WindowRefs(g, w));
        DetachedRefs(o, Slice(contexts0[w.ctx].stack, w.base, w.len));
      }
    }

    lemma ValidAfter(g: Graph, start: seq<Flags>, marks: seq<Flags>, scanned: seq<bool>,
                     contexts0: seq<Context>, stack0: seq<Value>, dormant: seq<ObjId>)
      requires Collected(g, start, marks, scanned, contexts0, stack0, dormant)
      ensures Valid()
    {
      KeptIsClosed(g, start, marks, scanned);
      MarkedStayLive(marks, heap.flags, RootIds());
      ContextsStayLive(g, start, marks, scanned, contexts0, stack0, dormant);
      RetainedMarked(dormant, marks);
      MarkedStayLive(marks, heap.flags, queues[0]);
      forall x | 0 <= x < |heap.flags| && x < |heap.objs| && !heap.flags[x].free
        ensures AllLive(heap.flags, Refs(heap.objs[x])) && InTable(heap.objs[x])
      {
        ObjectStaysLive(g, start, marks, scanned, contexts0, stack0, dormant, x);
      }
    }

    /** The state before the sweep. */
    ghost predicate ReadyToSweep(g: Graph, start: seq<Flags>, scanned: seq<bool>,
                                 contexts0: seq<Context>, stack0: seq<Value>, queues0: seq<seq<ObjId>>)
      reads this, heap
    {
      && Sound(g, start) && Exact(g, heap.flags, scanned) && SameFree(start, heap.flags)
      && MarkedInUse(heap.flags)
      && |heap.objs| == |heap.flags| && heap.freedData == []
      && KeptAll(heap.objs, heap.flags, g.objs, contexts0, scanned)
      && AfterCollection(contexts, contexts0, scanned) && cur < |contexts| && scanned[cur]
      && stack == Cut(stack0, LiveEnd(ci, |stack0|))
      && |queues0| > 0 && queues == queues0[0 := Retained(queues0[0], heap.flags)] && g.roots == RootIds()
      && TakenFrom(g, cur, ci, contexts0, stack0)
    }

    lemma SnapshotTaken()
      requires |queues| > 0
      ensures TakenFrom(Snapshot(), cur, ci, contexts, stack)
      ensures Snapshot().roots == RootIds() && Snapshot().objs == heap.objs
    {
    }

    method DropUnreached(scanned: seq<bool>, ghost contexts0: seq<Context>)
      requires |heap.objs| == |heap.flags| && EnvsOwned(heap.objs, contexts0)
      requires PartlyTrimmed(contexts, contexts0, scanned)
      modifies heap`objs, `contexts
      ensures AfterCollection(contexts, contexts0, scanned)
      ensures |heap.objs| == old(|heap.objs|) && |contexts| == old(|contexts|)
      ensures KeptAll(heap.objs, heap.flags, old(heap.objs), contexts0, scanned)
    {
      TrimKeepsFrames(contexts, contexts0, scanned);
      ghost var mid, objs0 := contexts, heap.objs;
      hide Trimmed, Dropped, FramesOwn;
      assert EnvsOwned(heap.objs, contexts);
      DropContexts(scanned);
      TrimThenDrop(contexts, mid, contexts0, scanned);
      hide Owned, TakenOff, KeptObject, EnvsOwned, PartlyTrimmed, AfterCollection;
      forall x | 0 <= x < |heap.objs|
        ensures heap.objs[x] == if heap.flags[x].marked then KeptObject(x, objs0[x], contexts0, scanned) else objs0[x]
      {
        KeptByTrim(x, objs0[x], mid, contexts0, scanned);
      }
    }

    method MarkAndDetach(ghost g: Graph) returns (ghost scanned: seq<bool>)
      requires Valid() && EnvsInOrder() && g == Snapshot()
      modifies `contexts, `stack, `queues, heap`flags, heap`objs
      ensures ReadyToSweep(g, old(heap.flags), scanned, old(contexts), old(stack), old(queues))
    {
      hide NoDangling, EnvsInOrder, Snapshot, AllLive, RootsOf, Reached, Cut, LiveEnd, Sound, TakenFrom, Retained,
        FreeSlots, Exact, MarkedInUse, EnvsOwned, KeptAll, AfterCollection, PartlyTrimmed;
      SnapshotSound();
      SnapshotTaken();
      FrameEnvsInTable();
      QueueLive();
      var scans := MarkPhase(g);
      scanned := scans;
      SameLive(old(heap.flags), heap.flags, queues[0]);
      RetainDormant();
      DormantIsNoRoot(named, old(queues), tasks, queues[0]);
      DropUnreached(scans, old(contexts));
    }

    /** Everything up to the sweep's end, in terms of the marks. */
    method CollectMarked(ghost g: Graph)
      returns (freed: seq<(u32, u64)>, ghost marks: seq<Flags>, ghost scanned: seq<bool>, ghost objs: seq<HeapObject>)
      requires Valid() && EnvsInOrder() && g == Snapshot()
      modifies `contexts, `stack, `queues, heap
      ensures Collected(g, old(heap.flags), marks, scanned, old(contexts), old(stack), old(queues)[0])
      ensures queues == old(queues)[0 := queues[0]]
      ensures |objs| == |marks| && freed == FreedData(objs, marks)
      ensures forall x :: 0 <= x < |marks| && !marks[x].marked ==> objs[x] == g.objs[x]
    {
      hide NoDangling, EnvsInOrder, Reached, Cut, LiveEnd, Sound, TakenFrom, FreedData, FreeSlots, Garbage, Retained,
        AfterCollection, KeptObject, Exact, MarkedInUse, RootsOf;
      scanned := MarkAndDetach(g);
      marks, objs := heap.flags, heap.objs;
      var n := heap.Sweep();
      freed := heap.freedData;
      heap.freedData := [];
    }

    lemma FrameEnvsInTable()
      requires Valid() && EnvsInOrder()
      ensures EnvsOwned(heap.objs, contexts)
    {
      forall c, i | 0 <= c < |contexts| && 0 <= i < |contexts[c].ci| && contexts[c].ci[i].env.Some?
        ensures contexts[c].ci[i].env.value < |heap.objs|
      {
        FrameIdsHas(contexts[c].ci, i);
        assert contexts[c].ci[i].env.value in CtxIds(contexts[c]);
      }
    }

    /** A collection. With `g` the graph it starts from: exactly the reachable objects stay in
        use, under their ids and as they were (an environment only reachable without its
        stack gets its values), every other slot is free, the host hears of each swept Data
        once, and nothing is left naming a freed slot. */
    method GcCollect() returns (freed: seq<(u32, u64)>)
      requires Valid() && EnvsInOrder()
      modifies `contexts, `stack, `queues, heap
      ensures Valid() && EnvsInOrder()
      ensures forall x: ObjId :: heap.Live(x) <==> x < |old(heap.objs)| && Reached(old(Snapshot()), ObjNode(x))
      ensures forall x: ObjId :: heap.Live(x) ==> old(heap.Live(x))
      ensures forall x: ObjId :: heap.Live(x) ==>
        && x < |heap.objs| && x < |old(heap.objs)|
        && heap.objs[x] == Kept(old(Snapshot()), x, old(heap.objs)[x], old(contexts))
      ensures |contexts| == old(|contexts|) && forall c :: 0 <= c < |contexts| ==>
        contexts[c] == if Reached(old(Snapshot()), CtxNode(c)) then Trimmed(old(contexts)[c])
          else Dropped(old(contexts)[c])
      ensures forall x: ObjId, y: ObjId :: heap.Live(x) && Names(heap.objs[x], y) ==> heap.Live(y)
      ensures forall x: ObjId, c: nat :: heap.Live(x) && KeepsContext(heap.objs[x], c) ==>
        Reached(old(Snapshot()), CtxNode(c))
      ensures forall c: nat :: c == cur || c == ROOT || IsWaiting(old(contexts), c) ==>
        Reached(old(Snapshot()), CtxNode(c))
      ensures stack == Cut(old(stack), LiveEnd(ci, |old(stack)|))
      ensures queues == old(queues)[0 := Remembered(old(Snapshot()), old(queues)[0])]
      ensures freed == Lost(old(Snapshot()), old(heap.flags), |old(heap.flags)|)
      ensures forall x: ObjId, idx: nat :: heap.Live(x) ==>
        ReadsRight(old(Snapshot()), old(contexts), old(stack), x, idx)
    {
      hide *;
      QueueLive();
      ghost var g, start, dormant := Snapshot(), heap.flags, queues[0];
      ghost var contexts0, stack0 := contexts, stack;
      ghost var marks, scanned, objs;
      SnapshotTaken();
      BeforeCollection();
      WaitingReached();
      freed, marks, scanned, objs := CollectMarked(g);
      ValidAfter(g, start, marks, scanned, contexts0, stack0, dormant);
      SweptToReached(g, start, marks, scanned, contexts0, stack0, dormant);
      assert objs[..|marks|] == objs && marks[..|marks|] == marks;
      LostIsFreed(g, start, marks, scanned, objs, |marks|);
      RememberedIsRetained(g, marks, scanned, dormant);
      OrderAfter(g, start, contexts0, stack0);
      ReadsAfter(g, start, contexts0, stack0);
      NamesStayLive();
      ContextsKept(g, start, contexts0, stack0);
    }

    /** What an object in use names, field by field, is in use. */
    lemma NamesStayLive()
      requires Valid()
      ensures forall x: ObjId, y: ObjId :: heap.Live(x) && Names(heap.objs[x], y) ==> heap.Live(y)
    {
      hide Names, Refs, RootsOf, CtxIds;
      forall x: ObjId, y: ObjId | heap.Live(x) && Names(heap.objs[x], y) ensures heap.Live(y) {
        RefsExact(heap.objs[x], y);
        assert AllLive(heap.flags, Refs(heap.objs[x]));
      }
    }

    /** The context of a Fiber or a Task in use is reached. */
    lemma ContextsKept(g: Graph, start: seq<Flags>, contexts0: seq<Context>, stack0: seq<Value>)
      requires HeapAfter(g, start, contexts0, stack0)
      requires forall x: ObjId :: heap.Live(x) ==> x < |g.objs| && Reached(g, ObjNode(x))
      ensures forall x: ObjId, c: nat :: heap.Live(x) && KeepsContext(heap.objs[x], c) ==> Reached(g, CtxNode(c))
    {
      hide CtxsAfter, Reached, Refs, WindowRefs;
      forall x: ObjId, c: nat | heap.Live(x) && KeepsContext(heap.objs[x], c) ensures Reached(g, CtxNode(c)) {
        ObjectReaches(g, x);
      }
    }

    /** The running context, the root and every context that waits for another are roots. */
    lemma WaitingReached()
      requires |queues| > 0
      ensures forall c: nat :: c == cur || c == ROOT || IsWaiting(contexts, c) ==> Reached(Snapshot(), CtxNode(c))
    {
      RootsReached(Snapshot());
      hide Reached, IsWaiting;
      forall c: nat | c == cur || c == ROOT || IsWaiting(contexts, c) ensures c in Snapshot().rootCtxs {
        WaitingExact(contexts, c);
      }
    }

    /** A collection between two reads of an environment: it is still there exactly if it is
        reached, and then answers as before exactly as `ReadKept` says. */
    method ReadAround(x: ObjId, idx: nat) returns (before: Value, after: Option<Value>)
      requires Valid() && EnvsInOrder() && heap.Live(x) && heap.objs[x].kind.Env?
      requires idx < heap.objs[x].kind.data.window.len
      modifies `contexts, `stack, `queues, heap
      ensures Valid() && EnvsInOrder() && before == old(ReadEnv(x, idx))
      ensures after.Some? <==> Reached(old(Snapshot()), ObjNode(x))
      ensures after.Some? ==>
        (after.value == before <==> ReadKept(old(Snapshot()), x, old(heap.objs)[x], old(contexts), before))
    {
      hide Orderly, NoDangling, Reached, Owned, EnvRead, StackAt, FreeSlots;
      before := ReadEnv(x, idx);
      var freed := GcCollect();
      assert heap.Live(x) ==> ReadsRight(old(Snapshot()), old(contexts), old(stack), x, idx);
      after := if heap.Live(x) then Some(ReadEnv(x, idx)) else None;
    }

    /** What the state of the Vm is before a collection, in values. */
    lemma BeforeCollection()
      requires Valid() && EnvsInOrder()
      ensures cur in Snapshot().rootCtxs && Orderly(heap.objs, heap.flags, cur, contexts, stack, ci)
      ensures forall x: ObjId :: heap.Live(x) <==> x < |heap.flags| && !heap.flags[x].free
    {
      hide Orderly;
    }

    /** What is in use after a collection was before, and is as the collection leaves it. */
    ghost predicate HeapAfter(g: Graph, start: seq<Flags>, contexts0: seq<Context>, stack0: seq<Value>)
      reads this, heap
    {
      && |start| == |g.objs| && |heap.objs| == |heap.flags| && CtxsAfter(g, contexts0, contexts)
      && stack == Cut(stack0, LiveEnd(ci, |stack0|)) && cur in g.rootCtxs
      && (forall x: ObjId :: heap.Live(x) ==> x < |g.objs| && !start[x].free)
      && (forall x: ObjId :: heap.Live(x) ==> x < |heap.objs| && heap.objs[x] == Kept(g, x, g.objs[x], contexts0))
    }

    /** The windows and frames are still in order. */
    lemma OrderAfter(g: Graph, start: seq<Flags>, contexts0: seq<Context>, stack0: seq<Value>)
      requires Valid() && HeapAfter(g, start, contexts0, stack0) && Orderly(g.objs, start, cur, contexts0, stack0, ci)
      ensures EnvsInOrder()
    {
      hide Reached, LiveEnd, Cut, WindowInUse, HasFrame, FramesOwn, Refs, RootsOf;
      forall x | 0 <= x < |heap.objs| && !heap.flags[x].free && WindowOf(heap.objs[x]).Some?
        ensures InUsePart(WindowOf(heap.objs[x]).value)
      {
        assert heap.Live(x) && heap.objs[x] == g.objs[x];
        WindowStaysInUse(g, WindowOf(heap.objs[x]).value, cur, contexts0, stack0, ci, contexts);
      }
      FramesKept(g, start, contexts0, stack0, ci, cur);
      forall c | 0 <= c < |contexts| ensures FramesOwn(heap.objs, contexts[c].ci, c) {
        CtxFramesLive(c);
        if Reached(g, CtxNode(c)) {
          FramesKept(g, start, contexts0, stack0, contexts0[c].ci, c);
        } else {
          DroppedFrames(contexts0[c], heap.objs, c);
        }
      }
    }

    lemma CtxFramesLive(c: nat)
      requires Valid() && c < |contexts|
      ensures AllLive(heap.flags, FrameIds(contexts[c].ci))
    {
      var ctx := contexts[c];
      assert AllLive(heap.flags, CtxIds(ctx));
      LiveConcat(heap.flags, Ids(ctx.stack) + FrameIds(ctx.ci), Present([ctx.fib, ctx.proc]));
      LiveConcat(heap.flags, Ids(ctx.stack), FrameIds(ctx.ci));
    }

    lemma FramesKept(g: Graph, start: seq<Flags>, contexts0: seq<Context>, stack0: seq<Value>, frames: seq<Frame>,
                     c: nat)
      requires HeapAfter(g, start, contexts0, stack0)
      requires AllLive(heap.flags, FrameIds(frames)) && FramesOwn(g.objs, frames, c)
      ensures FramesOwn(heap.objs, frames, c)
    {
      hide Reached, LiveEnd, Cut, CtxsAfter, FramesOwn, Kept;
      forall i | 0 <= i < |frames| && frames[i].env.Some?
        ensures heap.Live(frames[i].env.value)
      {
        FrameIdsHas(frames, i);
      }
      FramesStillOwn(g, g.objs, heap.objs, contexts0, frames, c);
    }

    /** What every environment in use answers afterwards, against what it answered before. */
    lemma ReadsAfter(g: Graph, start: seq<Flags>, contexts0: seq<Context>, stack0: seq<Value>)
      requires HeapAfter(g, start, contexts0, stack0) && Orderly(g.objs, start, cur, contexts0, stack0, ci)
      ensures forall x: ObjId, idx: nat :: heap.Live(x) ==> ReadsRight(g, contexts0, stack0, x, idx)
    {
      hide ReadsRight;
      forall x: ObjId, idx: nat | heap.Live(x) ensures ReadsRight(g, contexts0, stack0, x, idx) {
        ReadAfter(g, start, contexts0, stack0, x, idx);
      }
    }

    ghost predicate ReadsRight(g: Graph, contexts0: seq<Context>, stack0: seq<Value>, x: ObjId, idx: nat)
      reads this, heap
    {
      x < |heap.objs| && x < |g.objs| &&
      (g.objs[x].kind.Env? && idx < g.objs[x].kind.data.window.len ==>
        && heap.objs[x].kind.Env?
        && (ReadEnv(x, idx) == ReadAt(g.objs[x], cur, contexts0, stack0, idx)
            <==> ReadKept(g, x, g.objs[x], contexts0, ReadAt(g.objs[x], cur, contexts0, stack0, idx))))
    }

    lemma ReadAfter(g: Graph, start: seq<Flags>, contexts0: seq<Context>, stack0: seq<Value>, x: ObjId, idx: nat)
      requires HeapAfter(g, start, contexts0, stack0)
      requires Orderly(g.objs, start, cur, contexts0, stack0, ci) && heap.Live(x)
      ensures ReadsRight(g, contexts0, stack0, x, idx)
    {
      var o := g.objs[x];
      hide Reached, LiveEnd, Cut, HasFrame;
      if o.kind.Env? && idx < o.kind.data.window.len {
        if o.kind.data.attached { assert WindowInUse(WindowOf(o).value, cur, contexts0, stack0, ci); }
        if o.kind.data.window.ctx < |contexts0| {
          EnvReadKept(g, x, o, cur, ci, contexts0, stack0, idx);
        }
      }
    }

    /** The end of a collection, in terms of what is reachable. */
    lemma SweptToReached(g: Graph, start: seq<Flags>, marks: seq<Flags>, scanned: seq<bool>,
                         contexts0: seq<Context>, stack0: seq<Value>, dormant: seq<ObjId>)
      requires Collected(g, start, marks, scanned, contexts0, stack0, dormant)
      ensures forall x: ObjId :: heap.Live(x) <==> x < |g.objs| && Reached(g, ObjNode(x))
      ensures forall x: ObjId :: heap.Live(x) ==>
        x < |heap.objs| && x < |g.objs| && heap.objs[x] == Kept(g, x, g.objs[x], contexts0)
      ensures |contexts| == |contexts0| && forall c :: 0 <= c < |contexts| ==>
        contexts[c] == if Reached(g, CtxNode(c)) then Trimmed(contexts0[c]) else Dropped(contexts0[c])
      ensures stack == Cut(stack0, LiveEnd(ci, |stack0|))
      ensures |queues| > 0 && queues[0] == Retained(dormant, marks)
      ensures Exact(g, marks, scanned) && SameFree(start, marks) && |start| == |marks| == |g.objs|
      ensures forall x: ObjId :: heap.Live(x) ==> x < |start| && !start[x].free
      ensures cur in g.rootCtxs ==> HeapAfter(g, start, contexts0, stack0)
    {
      hide Reached, Cut, LiveEnd, Trimmed, Dropped, RootsOf, FreeSlots, TakenFrom;
      forall x: ObjId | heap.Live(x)
        ensures x < |heap.objs| && x < |g.objs| && heap.objs[x] == Kept(g, x, g.objs[x], contexts0)
      {
        KeptIsKept(g, start, marks, scanned, x, contexts0);
      }
    }

    lemma QueueLive()
      requires Valid()
      ensures |queues| > 0 && AllLive(heap.flags, queues[0])
      ensures forall x :: x in queues[0] ==> x < |heap.flags|
      ensures |heap.objs| == |heap.flags|
    {
    }

    // -------------------------------------------------------------- the program between collections

    /** An object made from what is in use. */
    method New(class_: ObjId, kind: ObjKind) returns (id: ObjId)
      requires Valid() && Legal(HeapObject(class_, [], kind))
      modifies heap
      ensures Valid() && heap.Live(id) && heap.objs[id] == HeapObject(class_, [], kind)
      ensures forall x: ObjId :: old(heap.Live(x)) ==> heap.Live(x) && x != id && heap.objs[x] == old(heap.objs)[x]
      ensures Allocated(old(heap.objs), old(heap.flags), heap.objs, heap.flags, id)
      ensures old(EnvsInOrder()) && FreshWindow(kind) ==> EnvsInOrder()
    {
      hide NoDangling, Legal, Orderly, Allocated, WindowInUse, AllLive, FrameIds, FreeSlots;
      ghost var objs0, flags0 := heap.objs, heap.flags;
      FramesLive();
      id := Add(class_, kind);
      if old(EnvsInOrder()) && FreshWindow(kind) {
        NewIsOrderly(objs0, flags0, heap.objs, heap.flags, id, cur, contexts, stack, ci);
      }
    }

    method Add(class_: ObjId, kind: ObjKind) returns (id: ObjId)
      requires Valid() && Legal(HeapObject(class_, [], kind))
      modifies heap
      ensures Valid() && heap.Live(id) && heap.objs[id] == HeapObject(class_, [], kind)
      ensures forall x: ObjId :: old(heap.Live(x)) ==> heap.Live(x) && x != id && heap.objs[x] == old(heap.objs)[x]
      ensures Allocated(old(heap.objs), old(heap.flags), heap.objs, heap.flags, id)
    {
      ghost var flags0 := heap.flags;
      hide Refs, RootsOf, CtxIds, FrameIds, Ids, FreeSlots;
      id := heap.Alloc(class_, kind);
      MoreLive(flags0);
    }

    lemma FramesLive()
      requires Valid()
      ensures AllLive(heap.flags, FrameIds(ci))
      ensures forall c :: 0 <= c < |contexts| ==> AllLive(heap.flags, FrameIds(contexts[c].ci))
    {
      hide CtxIds, FrameIds, AllLive;
      forall c | 0 <= c < |contexts| ensures AllLive(heap.flags, FrameIds(contexts[c].ci)) {
        CtxFramesLive(c);
      }
    }

    /** A new attached environment has a window in use. */
    predicate FreshWindow(kind: ObjKind)
      reads this
    {
      var o := HeapObject(NO_CLASS, [], kind);
      WindowOf(o).Some? ==> InUsePart(WindowOf(o).value)
    }

    predicate Legal(o: HeapObject)
      reads this, heap
    {
      AllLive(heap.flags, Refs(o)) && InTable(o)
    }

    lemma MoreLive(flags0: seq<Flags>)
      requires |queues| > 0 && |flags0| <= |heap.flags|
      requires forall x :: 0 <= x < |flags0| && !flags0[x].free ==> !heap.flags[x].free
      ensures AllLive(flags0, RootIds()) ==> AllLive(heap.flags, RootIds())
      ensures AllLive(flags0, queues[0]) ==> AllLive(heap.flags, queues[0])
      ensures AllLive(flags0, Ids(stack)) ==> AllLive(heap.flags, Ids(stack))
      ensures AllLive(flags0, FrameIds(ci)) ==> AllLive(heap.flags, FrameIds(ci))
      ensures forall c :: 0 <= c < |contexts| && AllLive(flags0, CtxIds(contexts[c])) ==>
        AllLive(heap.flags, CtxIds(contexts[c]))
      ensures forall o :: AllLive(flags0, Refs(o)) ==> AllLive(heap.flags, Refs(o))
    {
    }

    /** Any change to an object in use that only stores references to objects in use. */
    method Write(x: ObjId, o: HeapObject)
      requires Valid() && heap.Live(x) && Legal(o)
      modifies heap`objs
      ensures Valid() && heap.objs == old(heap.objs)[x := o]
    {
      hide KindRefs, FreeSlots, RootsOf, CtxIds;
      heap.objs := heap.objs[x := o];
    }

    /** Any change to the registers and frames of the running context. */
    method SetRunning(st: seq<Value>, frames: seq<Frame>)
      requires Valid() && AllLive(heap.flags, Ids(st)) && AllLive(heap.flags, FrameIds(frames))
      modifies `stack, `ci
      ensures Valid() && stack == st && ci == frames
    {
      hide Refs, FreeSlots, RootsOf, CtxIds;
      stack, ci := st, frames;
    }

    /** Any change to a context, or a new one. */
    method SetContext(c: nat, ctx: Context)
      requires Valid() && c <= |contexts| && AllLive(heap.flags, CtxIds(ctx))
      modifies `contexts
      ensures Valid()
      ensures contexts == WithContext(old(contexts), c, ctx)
    {
      hide Refs, FreeSlots, RootsOf, CtxIds;
      contexts := WithContext(contexts, c, ctx);
    }

    /** A switch: the running context's stack and frames change places with another's. */
    method Switch(c: nat)
      requires Valid() && c < |contexts|
      modifies `contexts, `cur, `stack, `ci
      ensures Valid() && cur == c && (old(EnvsInOrder()) ==> EnvsInOrder())
      ensures c == old(cur) ==> unchanged(this)
      ensures c != old(cur) ==>
        && stack == old(contexts)[c].stack && ci == old(contexts)[c].ci
        && contexts == SwitchedTo(old(contexts), old(cur), c, old(stack), old(ci))
    {
      hide Orderly, NoDangling;
      if c == cur { return; }
      if EnvsInOrder() { SwitchIsOrderly(heap.objs, heap.flags, cur, c, contexts, stack, ci); }
      SwapStacks(c);
    }

    method SwapStacks(c: nat)
      requires Valid() && c < |contexts| && c != cur
      modifies `contexts, `cur, `stack, `ci
      ensures Valid() && cur == c && stack == old(contexts)[c].stack && ci == old(contexts)[c].ci
      ensures contexts == SwitchedTo(old(contexts), old(cur), c, old(stack), old(ci))
    {
      hide Refs, FreeSlots, RootsOf, CtxIds;
      var from, parked := cur, contexts[cur];
      SwapHolds(parked, stack, ci);
      contexts := contexts[from := parked.(stack := stack, ci := ci)];
      SwapHolds(contexts[c], parked.stack, parked.ci);
      stack, ci := contexts[c].stack, contexts[c].ci;
      contexts := contexts[c := contexts[c].(stack := parked.stack, ci := parked.ci, status := Running)];
      cur := c;
    }

    lemma SwapHolds(ctx: Context, st: seq<Value>, frames: seq<Frame>)
      requires AllLive(heap.flags, CtxIds(ctx)) && AllLive(heap.flags, Ids(st)) && AllLive(heap.flags, FrameIds(frames))
      ensures AllLive(heap.flags, CtxIds(ctx.(stack := st, ci := frames)))
      ensures AllLive(heap.flags, CtxIds(ctx.(stack := st, ci := frames, status := Running)))
      ensures AllLive(heap.flags, Ids(ctx.stack)) && AllLive(heap.flags, FrameIds(ctx.ci))
    {
      var held := Present([ctx.fib, ctx.proc]);
      LiveConcat(heap.flags, Ids(ctx.stack) + FrameIds(ctx.ci), held);
      LiveConcat(heap.flags, Ids(ctx.stack), FrameIds(ctx.ci));
      LiveConcat(heap.flags, Ids(st), FrameIds(frames));
      LiveConcat(heap.flags, Ids(st) + FrameIds(frames), held);
    }

    /** Any change to what the Vm and the scheduler name. */
    method SetNamed(n: Named, qs: seq<seq<ObjId>>, ts: seq<Option<ObjId>>)
      requires Valid() && |qs| > 0 && AllLive(heap.flags, RootsOf(n, qs, ts)) && AllLive(heap.flags, qs[0])
      modifies `named, `queues, `tasks
      ensures Valid() && named == n && queues == qs && tasks == ts
    {
      hide Refs, FreeSlots, RootsOf, CtxIds;
      named, queues, tasks := n, qs, ts;
    }

    ghost function Now(): Moment
      requires Valid()
      reads this, heap
    {
      Moment(Snapshot(), heap.flags, contexts, cur, stack, ci, named, queues, tasks)
    }

    /** What the program may do: store references to objects in use, and leave its own windows and
        frames in order. A switch of contexts and a collection are always allowed. */
    ghost predicate Allowed(step: Step)
      requires |heap.objs| == |heap.flags|
      reads this, heap
    {
      match step
      case Make(class_, kind) => Legal(HeapObject(class_, [], kind)) && FreshWindow(kind)
      case Change(x, o) =>
        heap.Live(x) && Legal(o) && Orderly(heap.objs[x := o], heap.flags, cur, contexts, stack, ci)
      case Run(st, frames) =>
        && AllLive(heap.flags, Ids(st)) && AllLive(heap.flags, FrameIds(frames))
        && Orderly(heap.objs, heap.flags, cur, contexts, st, frames)
      case Prepare(c, ctx) =>
        && c <= |contexts| && AllLive(heap.flags, CtxIds(ctx))
        && Orderly(heap.objs, heap.flags, cur, WithContext(contexts, c, ctx), stack, ci)
      case Go(c) => c < |contexts|
      case Name(n, qs, ts) =>
        |qs| > 0 && AllLive(heap.flags, RootsOf(n, qs, ts)) && AllLive(heap.flags, qs[0])
      case Collect => true
    }

    /** One step of a run: what is allowed happens, what is not is no step of the program. Only a
        collection takes objects away, those not reached. */
    method Perform(step: Step) returns (done: bool)
      requires Valid() && EnvsInOrder()
      modifies this, heap
      ensures Valid() && EnvsInOrder()
      ensures done <==> old(Allowed(step))
      ensures Happened(old(Now()), step, done, Now())
    {
      hide Orderly, NoDangling, Reached, RootsOf, CtxIds, Refs, FreeSlots, ReadsRight, Lost, Remembered, Allocated,
        CtxsAfter, Names, SwitchedTo, FreshWindow, Legal;
      done := true;
      match step
      case Make(class_, kind) =>
        if Legal(HeapObject(class_, [], kind)) && FreshWindow(kind) {
          var id := New(class_, kind);
        } else {
          done := false;
        }
      case Change(x, o) =>
        if heap.Live(x) && Legal(o) && Orderly(heap.objs[x := o], heap.flags, cur, contexts, stack, ci) {
          Write(x, o);
        } else {
          done := false;
        }
      case Run(st, frames) =>
        if AllLive(heap.flags, Ids(st)) && AllLive(heap.flags, FrameIds(frames))
           && Orderly(heap.objs, heap.flags, cur, contexts, st, frames) {
          SetRunning(st, frames);
        } else {
          done := false;
        }
      case Prepare(c, ctx) =>
        if c <= |contexts| && AllLive(heap.flags, CtxIds(ctx))
           && Orderly(heap.objs, heap.flags, cur, WithContext(contexts, c, ctx), stack, ci) {
          SetContext(c, ctx);
        } else {
          done := false;
        }
      case Go(c) =>
        if c < |contexts| { Switch(c); } else { done := false; }
      case Name(n, qs, ts) =>
        if |qs| > 0 && AllLive(heap.flags, RootsOf(n, qs, ts)) && AllLive(heap.flags, qs[0]) {
          SetNamed(n, qs, ts);
        } else {
          done := false;
        }
      case Collect =>
        CollectNow();
    }

    /** A collection, as a step of a run. */
    method CollectNow()
      requires Valid() && EnvsInOrder()
      modifies `contexts, `stack, `queues, heap
      ensures Valid() && EnvsInOrder() && Happened(old(Now()), Collect, true, Now())
    {
      hide Orderly, NoDangling, Reached, RootsOf, CtxIds, Refs, FreeSlots, ReadsRight, Lost, Remembered, CtxsAfter,
        Names;
      assert forall x: ObjId :: LiveIn(heap.flags, x) <==> heap.Live(x);
      var freed := GcCollect();
      assert forall x: ObjId :: LiveIn(heap.flags, x) <==> heap.Live(x);
      CtxsAfterIs(old(Snapshot()), old(contexts));
    }

    lemma CtxsAfterIs(g: Graph, contexts0: seq<Context>)
      requires |contexts| == |contexts0| && forall c :: 0 <= c < |contexts| ==>
        contexts[c] == if Reached(g, CtxNode(c)) then Trimmed(contexts0[c]) else Dropped(contexts0[c])
      ensures CtxsAfter(g, contexts0, contexts)
    {
    }
  }

  datatype Step =
    | Make(class_: ObjId, kind: ObjKind) | Change(x: ObjId, o: HeapObject)
    | Run(st: seq<Value>, frames: seq<Frame>) | Prepare(c: nat, ctx: Context) | Go(c: nat)
    | Name(n: Named, qs: seq<seq<ObjId>>, ts: seq<Option<ObjId>>) | Collect

  /** The state of the Vm between two steps. */
  datatype Moment = Moment(
    g: Graph, flags: seq<Flags>, contexts: seq<Context>, cur: nat, stack: seq<Value>, ci: seq<Frame>,
    named: Named, queues: seq<seq<ObjId>>, tasks: seq<Option<ObjId>>)

  predicate SameHeap(a: Moment, b: Moment)
  {
    b.g.objs == a.g.objs && b.flags == a.flags
  }

  predicate SameVm(a: Moment, b: Moment)
  {
    && b.contexts == a.contexts && b.cur == a.cur && b.stack == a.stack && b.ci == a.ci
    && b.named == a.named && b.queues == a.queues && b.tasks == a.tasks
  }

  /** What a step that is done makes of one state. */
  ghost predicate Happened(a: Moment, step: Step, done: bool, b: Moment)
  {
    if !done then b == a && !step.Collect?
    else
      match step
      case Make(class_, kind) =>
        && SameVm(a, b)
        && exists id: ObjId ::
             Allocated(a.g.objs, a.flags, b.g.objs, b.flags, id) && b.g.objs[id] == HeapObject(class_, [], kind)
      case Change(x, o) =>
        SameVm(a, b) && x < |a.g.objs| && b.flags == a.flags && b.g.objs == a.g.objs[x := o]
      case Run(st, frames) =>
        SameHeap(a, b) && SameVm(a.(stack := st, ci := frames), b)
      case Prepare(c, ctx) =>
        SameHeap(a, b) && c <= |a.contexts| && SameVm(a.(contexts := WithContext(a.contexts, c, ctx)), b)
      case Go(c) =>
        && SameHeap(a, b) && c < |a.contexts| && a.cur < |a.contexts|
        && if c == a.cur then SameVm(a, b)
           else
             var to := a.contexts[c];
             SameVm(a.(cur := c, stack := to.stack, ci := to.ci,
                       contexts := SwitchedTo(a.contexts, a.cur, c, a.stack, a.ci)), b)
      case Name(n, qs, ts) =>
        SameHeap(a, b) && SameVm(a.(named := n, queues := qs, tasks := ts), b)
      case Collect =>
        && CtxsAfter(a.g, a.contexts, b.contexts) && b.cur == a.cur && b.ci == a.ci && b.named == a.named
        && (forall x: ObjId :: LiveIn(b.flags, x) <==> x < |a.g.objs| && Reached(a.g, ObjNode(x)))
        && (forall x: ObjId :: LiveIn(b.flags, x) ==>
              && LiveIn(a.flags, x) && x < |b.g.objs| && x < |a.g.objs|
              && b.g.objs[x] == Kept(a.g, x, a.g.objs[x], a.contexts))
  }

  predicate LiveIn(flags: seq<Flags>, x: ObjId)
  {
    x < |flags| && !flags[x].free
  }

  /** The states of a run, one before each step and one at the end. */
  ghost predicate IsRun(steps: seq<Step>, done: seq<bool>, states: seq<Moment>)
  {
    && |done| == |steps| && |states| == |steps| + 1
    && states[0].g.objs == [] && states[0].contexts == [NewContext(Created)]
    && forall i :: 0 <= i < |steps| ==> Happened(states[i], steps[i], done[i], states[i + 1])
  }

  lemma RunStarts(a: Moment)
    requires a.g.objs == [] && a.contexts == [NewContext(Created)]
    ensures IsRun([], [], [a])
  {
  }

  lemma RunLonger(steps: seq<Step>, done: seq<bool>, states: seq<Moment>, step: Step, d: bool, b: Moment)
    requires IsRun(steps, done, states) && Happened(states[|steps|], step, d, b)
    ensures IsRun(steps + [step], done + [d], states + [b])
  {
    hide Happened;
  }

  /** A run of the program with collections anywhere in it. Nothing comes to name a freed slot and
      the windows stay in order, so every collection can start and the assertions of its mark
      phase hold; each step does what it is to do. */
  method RunProgram(steps: seq<Step>) returns (vm: Vm, done: seq<bool>, ghost states: seq<Moment>)
    ensures fresh(vm) && fresh(vm.heap) && vm.Valid() && vm.EnvsInOrder()
    ensures IsRun(steps, done, states) && states[|steps|] == vm.Now()
  {
    hide *;
    vm := new Vm();
    done, states := [], [vm.Now()];
    assert steps[..0] == [];
    RunStarts(vm.Now());
    vm.QueueLive();
    for i := 0 to |steps|
      invariant fresh(vm) && fresh(vm.heap) && vm.Valid()
      invariant |vm.heap.objs| == |vm.heap.flags| && vm.EnvsInOrder()
      invariant IsRun(steps[..i], done, states) && |states| == i + 1 && states[i] == vm.Now()
    {
      var d := vm.Perform(steps[i]);
      vm.QueueLive();
      RunLonger(steps[..i], done, states, steps[i], d, vm.Now());
      assert steps[..i + 1] == steps[..i] + [steps[i]];
      done, states := done + [d], states + [vm.Now()];
    }
    assert steps[..|steps|] == steps;
  }
}
