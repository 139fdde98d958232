/** The contexts of the fiber protocol: the chain of resumers and what every step keeps. */
module FiberChain {
  import opened Words
  import opened HeapObjects
  import opened Contexts

  /** What the protocol keeps of a context. `natives` counts the frames native code pushed
      above its entry frame. */
  datatype FiberCtx = FiberCtx(
    stack: seq<Value>, status: FiberState, prev: Option<nat>, proc: Option<ObjId>, vmexec: bool,
    pendingReg: Option<nat>, natives: nat)

  /** A nested run loop on the host stack: of a fiber resumed by native code in `resumer`, or
      of a call made by native code in a context. */
  datatype RunLoop = ForFiber(fiber: nat, resumer: nat) | ForCall(ctx: nat)

  datatype FiberError =
    | ResumeCurrent | ResumeTransferred | DoubleResume | DeadFiber | CrossBoundary
    | NotResumed | YieldFromRoot | TransferToResuming | InitializedTwice

  /** How a context was left: its registers, and the one the next value goes to. A context that
      waits in a nested run loop is given its value by that loop. */
  datatype Parked = Parked(stack: seq<Value>, reg: Option<nat>)

  function NewFiber(proc: Option<ObjId>): FiberCtx
  {
    FiberCtx([], Created, None, proc, false, None, 0)
  }

  function Calls(x: nat, n: nat): seq<RunLoop>
  {
    if n == 0 then [] else Calls(x, n - 1) + [ForCall(x)]
  }

  lemma {:induction false} CallsCount(x: nat, n: nat)
    ensures |Calls(x, n)| == n
  {
    if n > 0 { CallsCount(x, n - 1); }
  }

  /** The loops running in a context. */
  function LoopsIn(f: FiberCtx, x: nat): seq<RunLoop>
  {
    (if f.vmexec && f.prev.Some? then [ForFiber(x, f.prev.value)] else []) + Calls(x, f.natives)
  }

  /** The loops of a chain of contexts, the innermost last; the chain starts at the running one. */
  function LoopsOf(contexts: seq<FiberCtx>, chain: seq<nat>): seq<RunLoop>
  {
    if |chain| == 0 then []
    else LoopsOf(contexts, chain[1..]) + if chain[0] < |contexts| then LoopsIn(contexts[chain[0]], chain[0]) else []
  }

  predicate SameLoops(f: FiberCtx, f': FiberCtx)
  {
    f.vmexec == f'.vmexec && f.prev == f'.prev && f.natives == f'.natives
  }

  predicate IsParked(f: FiberCtx)
  {
    f.status == Resumed || f.status == Suspended || f.status == Transferred
  }

  /** What a context off the chain is like. */
  predicate OffChain(f: FiberCtx, p: Parked)
  {
    !f.vmexec && f.natives == 0 && f.status != Running && (IsParked(f) ==> p.reg.Some?)
  }

  /** A parked context's registers are those it was left with. */
  predicate AsLeft(f: FiberCtx, p: Parked)
  {
    IsParked(f) ==> f.stack == p.stack && (p.reg.Some? ==> f.pendingReg == p.reg)
  }

  /** A value written to the register a context waits with. */
  function Given(stack: seq<Value>, reg: Option<nat>, v: Value): seq<Value>
  {
    if reg.Some? && reg.value < |stack| then stack[reg.value := v] else stack
  }

  /** The register takes the value if the stack has it; the others stay. */
  lemma GivenExact(stack: seq<Value>, reg: Option<nat>, v: Value, i: nat)
    ensures |Given(stack, reg, v)| == |stack|
    ensures i < |stack| ==> Given(stack, reg, v)[i] == if reg == Some(i) then v else stack[i]
  {
  }

  lemma LoopsPushed(contexts: seq<FiberCtx>, chain: seq<nat>, c: nat)
    requires c < |contexts|
    ensures LoopsOf(contexts, [c] + chain) == LoopsOf(contexts, chain) + LoopsIn(contexts[c], c)
  {
    assert ([c] + chain)[1..] == chain;
  }

  lemma {:induction false} NoLoops(contexts: seq<FiberCtx>, chain: seq<nat>)
    requires forall i :: 0 <= i < |chain| ==>
      chain[i] < |contexts| && contexts[chain[i]].natives == 0 && !contexts[chain[i]].vmexec
    ensures LoopsOf(contexts, chain) == []
  {
    if |chain| > 0 { NoLoops(contexts, chain[1..]); }
  }

  /** What a context is like, on the chain or off it, running or not. */
  predicate CtxInOrder(f: FiberCtx, p: Parked, x: nat, onChain: bool, running: bool)
  {
    && (!onChain ==> OffChain(f, p))
    && (f.vmexec ==> f.prev.Some?)
    && (!running ==> AsLeft(f, p))
    && (x != ROOT && f.status == Created ==> f.proc.Some? && f.pendingReg == None && !running)
    && (x == ROOT ==> f.prev == None && (!running ==> f.status == Resumed || f.status == Transferred))
    && (running ==> f.stack == [] && (f.status == Running || (x == ROOT && f.status == Created)))
  }

  predicate ContextsInOrder(contexts: seq<FiberCtx>, cur: nat, chain: seq<nat>, left: seq<Parked>)
  {
    && |left| == |contexts| && ROOT < |contexts|
    && forall x :: 0 <= x < |contexts| ==> CtxInOrder(contexts[x], left[x], x, x in chain, x == cur)
  }

  /** The contexts from `chain[0]` along `prev`, without a cycle: every one behind the first is
      resuming, and waits in a nested run loop exactly when the one it resumed runs in one. */
  predicate Chained(contexts: seq<FiberCtx>, chain: seq<nat>, left: seq<Parked>)
  {
    && |chain| > 0 && |left| == |contexts| && chain[0] < |contexts|
    && if |chain| == 1 then contexts[chain[0]].prev == None
       else
         && contexts[chain[0]].prev == Some(chain[1]) && chain[1] < |contexts|
         && contexts[chain[1]].status == Resumed && (left[chain[1]].reg == None <==> contexts[chain[0]].vmexec)
         && chain[0] !in chain[1..] && Chained(contexts, chain[1..], left)
  }

  /** What every step keeps. */
  predicate InOrder(contexts: seq<FiberCtx>, cur: nat, loops: seq<RunLoop>, chain: seq<nat>, left: seq<Parked>)
  {
    && Chained(contexts, chain, left) && chain[0] == cur && loops == LoopsOf(contexts, chain)
    && ContextsInOrder(contexts, cur, chain, left)
  }

  lemma {:induction false} ChainedIn(contexts: seq<FiberCtx>, chain: seq<nat>, left: seq<Parked>)
    requires Chained(contexts, chain, left)
    ensures forall x :: x in chain ==> x < |contexts|
    ensures forall x :: x in chain && x != chain[0] ==> contexts[x].status == Resumed
  {
    if |chain| > 1 {
      ChainedIn(contexts, chain[1..], left);
      assert chain == [chain[0]] + chain[1..];
    }
  }

  /** Contexts that differ in nothing a chain looks at. */
  predicate SameInChain(f: FiberCtx, f': FiberCtx, p: Parked, p': Parked)
  {
    SameLoops(f, f') && f.status == f'.status && p.reg == p'.reg
  }

  lemma {:induction false} ChainedSame(contexts: seq<FiberCtx>, chain: seq<nat>, left: seq<Parked>,
                                       contexts': seq<FiberCtx>, left': seq<Parked>)
    requires Chained(contexts, chain, left) && |contexts| <= |contexts'| == |left'|
    requires SameLoops(contexts[chain[0]], contexts'[chain[0]])
    requires forall x :: x in chain && x != chain[0] && x < |contexts| ==>
      SameInChain(contexts[x], contexts'[x], left[x], left'[x])
    ensures Chained(contexts', chain, left')
    ensures LoopsOf(contexts', chain) == LoopsOf(contexts, chain)
  {
    if |chain| > 1 {
      assert chain == [chain[0]] + chain[1..];
      assert chain[1] in chain && chain[1] != chain[0];
      ChainedSame(contexts, chain[1..], left, contexts', left');
    }
  }

  lemma RunningInOrder(contexts: seq<FiberCtx>, cur: nat, loops: seq<RunLoop>, chain: seq<nat>, left: seq<Parked>)
    requires InOrder(contexts, cur, loops, chain, left)
    ensures |left| == |contexts| && cur in chain && cur < |contexts|
    ensures CtxInOrder(contexts[cur], left[cur], cur, true, true)
    ensures ROOT < |contexts|
  {
  }

  lemma NotOnChain(contexts: seq<FiberCtx>, cur: nat, loops: seq<RunLoop>, chain: seq<nat>, left: seq<Parked>, c: nat)
    requires InOrder(contexts, cur, loops, chain, left) && c < |contexts| && c != cur && contexts[c].status != Resumed
    ensures c !in chain && (c == ROOT ==> contexts[c].status == Transferred)
    ensures |left| == |contexts| && CtxInOrder(contexts[c], left[c], c, false, false)
  {
    ChainedIn(contexts, chain, left);
    hide Chained, LoopsOf;
  }

  // -------------------------------------------------------------- resume

  /** The contexts after the running one is left with `status` and `c` runs. */
  function Switched(contexts: seq<FiberCtx>, cur: nat, status: FiberState, p: Parked,
                    c: nat, prev: Option<nat>, vmexec: bool, reg: Option<nat>): seq<FiberCtx>
    requires cur < |contexts| && c < |contexts|
  {
    var reg0 := if p.reg.Some? then p.reg else contexts[cur].pendingReg;
    contexts[cur := contexts[cur].(status := status, stack := p.stack, pendingReg := reg0)]
            [c := contexts[c].(prev := prev, vmexec := vmexec, stack := [], status := Running, pendingReg := reg)]
  }

  lemma {:induction false} ResumeChain(contexts: seq<FiberCtx>, chain: seq<nat>, left: seq<Parked>,
                                       contexts': seq<FiberCtx>, left': seq<Parked>, c: nat)
    requires Chained(contexts, chain, left) && c < |contexts| == |contexts'| == |left'| && c !in chain
    requires contexts'[c].prev == Some(chain[0]) && contexts'[chain[0]].status == Resumed
    requires left'[chain[0]].reg == None <==> contexts'[c].vmexec
    requires SameLoops(contexts[chain[0]], contexts'[chain[0]])
    requires forall x :: 0 <= x < |contexts| && x != c && x != chain[0] ==>
      contexts[x] == contexts'[x] && left[x] == left'[x]
    ensures Chained(contexts', [c] + chain, left')
    ensures LoopsOf(contexts', [c] + chain) == LoopsOf(contexts, chain) + LoopsIn(contexts'[c], c)
  {
    ChainedIn(contexts, chain, left);
    ChainedSame(contexts, chain, left, contexts', left');
    LoopsPushed(contexts', chain, c);
    assert ([c] + chain)[1..] == chain;
  }

  lemma ResumeContexts(contexts: seq<FiberCtx>, cur: nat, chain: seq<nat>, left: seq<Parked>,
                       c: nat, vmexec: bool, p: Parked, reg: Option<nat>)
    requires ContextsInOrder(contexts, cur, chain, left) && cur in chain && cur < |contexts|
    requires c < |contexts| && c !in chain && c != ROOT
    ensures ContextsInOrder(Switched(contexts, cur, Resumed, p, c, Some(cur), vmexec, reg), c, [c] + chain,
      left[cur := p])
  {
    var contexts', chain' := Switched(contexts, cur, Resumed, p, c, Some(cur), vmexec, reg), [c] + chain;
    var left' := left[cur := p];
    forall x | 0 <= x < |contexts'| ensures CtxInOrder(contexts'[x], left'[x], x, x in chain', x == c) {
      assert x in chain' <==> x == c || x in chain;
      assert CtxInOrder(contexts[x], left[x], x, x in chain, x == cur);
    }
  }

  lemma ResumeKeeps(contexts: seq<FiberCtx>, cur: nat, loops: seq<RunLoop>, chain: seq<nat>, left: seq<Parked>,
                    c: nat, vmexec: bool, p: Parked, reg: Option<nat>)
    requires InOrder(contexts, cur, loops, chain, left)
    requires c < |contexts| && c !in chain && c != ROOT && (p.reg == None <==> vmexec)
    ensures cur < |contexts| && c != cur && |left| == |contexts|
    ensures InOrder(Switched(contexts, cur, Resumed, p, c, Some(cur), vmexec, reg), c,
                    (if vmexec then loops + [ForFiber(c, cur)] else loops), [c] + chain, left[cur := p])
  {
    var contexts' := Switched(contexts, cur, Resumed, p, c, Some(cur), vmexec, reg);
    assert contexts[c].natives == 0 by { assert CtxInOrder(contexts[c], left[c], c, false, false); }
    assert LoopsIn(contexts'[c], c) == if vmexec then [ForFiber(c, cur)] else [];
    ResumeContexts(contexts, cur, chain, left, c, vmexec, p, reg);
    hide LoopsOf, LoopsIn, CtxInOrder, ContextsInOrder;
    ResumeChain(contexts, chain, left, contexts', left[cur := p], c);
  }

  /** What a context that is left for good, or until it is switched to, has to be like. */
  predicate LeftOff(f: FiberCtx, p: Parked, x: nat)
  {
    OffChain(f, p) && AsLeft(f, p) && f.status != Created
    && (x == ROOT ==> f.prev == None && (f.status == Resumed || f.status == Transferred))
  }

  // -------------------------------------------------------------- leaving the chain behind

  predicate RunsAlone(f: FiberCtx)
  {
    f.prev == None && !f.vmexec && f.natives == 0 && f.stack == [] && f.status == Running
  }

  predicate NoNatives(contexts: seq<FiberCtx>, chain: seq<nat>)
  {
    forall i :: 0 <= i < |chain| ==>
      chain[i] < |contexts| && contexts[chain[i]].natives == 0 && !contexts[chain[i]].vmexec
  }

  lemma FreeOfNatives(contexts: seq<FiberCtx>, chain: seq<nat>)
    ensures NoNatives(contexts, chain) <==>
      forall x :: x in chain ==> x < |contexts| && contexts[x].natives == 0 && !contexts[x].vmexec
  {
    if !NoNatives(contexts, chain) {
      var i :| 0 <= i < |chain| &&
        !(chain[i] < |contexts| && contexts[chain[i]].natives == 0 && !contexts[chain[i]].vmexec);
      assert chain[i] in chain;
    }
  }

  lemma OneHasNone(contexts: seq<FiberCtx>, chain: seq<nat>, x: nat)
    requires NoNatives(contexts, chain) && x in chain
    ensures x < |contexts| && contexts[x].natives == 0 && !contexts[x].vmexec
  {
  }

  lemma {:induction false} BehindWaits(contexts: seq<FiberCtx>, chain: seq<nat>, left: seq<Parked>)
    requires Chained(contexts, chain, left) && NoNatives(contexts, chain)
    ensures forall x :: x in chain && x != chain[0] ==> WaitsOutside(contexts, left, x)
  {
    if |chain| > 1 {
      assert chain == [chain[0]] + chain[1..];
      assert NoNatives(contexts, chain[1..]) by {
        forall i | 0 <= i < |chain[1..]|
          ensures chain[1..][i] < |contexts| && contexts[chain[1..][i]].natives == 0 && !contexts[chain[1..][i]].vmexec
        {
          assert chain[1..][i] == chain[i + 1];
        }
      }
      assert contexts[chain[0]].vmexec == false && chain[1] == chain[1..][0];
      OneHasNone(contexts, chain, chain[1]);
      BehindWaits(contexts, chain[1..], left);
    }
  }

  /** A context behind the running one that waits outside any nested run loop. */
  predicate WaitsOutside(contexts: seq<FiberCtx>, left: seq<Parked>, x: nat)
  {
    && x < |contexts| == |left| && !contexts[x].vmexec && contexts[x].natives == 0
    && contexts[x].status == Resumed && left[x].reg.Some?
  }

  lemma JumpContexts(contexts: seq<FiberCtx>, cur: nat, chain: seq<nat>, left: seq<Parked>,
                     out: FiberCtx, p: Parked, c: nat, into: FiberCtx)
    requires ContextsInOrder(contexts, cur, chain, left)
    requires forall x :: x in chain && x != cur ==> WaitsOutside(contexts, left, x)
    requires cur < |contexts| && c < |contexts| && c != cur
    requires LeftOff(out, p, cur) && RunsAlone(into)
    ensures ContextsInOrder(contexts[cur := out][c := into], c, [c], left[cur := p])
  {
    var contexts', left' := contexts[cur := out][c := into], left[cur := p];
    forall x | 0 <= x < |contexts'| ensures CtxInOrder(contexts'[x], left'[x], x, x in [c], x == c) {
      assert CtxInOrder(contexts[x], left[x], x, x in chain, x == cur);
    }
  }

  /** A switch that leaves the whole chain, which holds no native frame: no nested loop runs. */
  lemma JumpKeeps(contexts: seq<FiberCtx>, cur: nat, loops: seq<RunLoop>, chain: seq<nat>, left: seq<Parked>,
                  out: FiberCtx, p: Parked, c: nat, into: FiberCtx)
    requires InOrder(contexts, cur, loops, chain, left) && NoNatives(contexts, chain)
    requires c < |contexts| && c != cur && LeftOff(out, p, cur) && RunsAlone(into)
    ensures loops == [] && cur < |contexts| == |left|
    ensures InOrder(contexts[cur := out][c := into], c, [], [c], left[cur := p])
  {
    NoLoops(contexts, chain);
    BehindWaits(contexts, chain, left);
    JumpContexts(contexts, cur, chain, left, out, p, c, into);
    AloneInOrder(contexts[cur := out][c := into], c, left[cur := p]);
    hide InOrder;
  }

  lemma AloneInOrder(contexts: seq<FiberCtx>, c: nat, left: seq<Parked>)
    requires c < |contexts| == |left| && RunsAlone(contexts[c]) && ContextsInOrder(contexts, c, [c], left)
    ensures InOrder(contexts, c, [], [c], left)
  {
    hide ContextsInOrder, CtxInOrder;
    assert LoopsIn(contexts[c], c) == [];
    assert LoopsOf(contexts, [c]) == [];
  }

  // -------------------------------------------------------------- back along the chain

  lemma {:induction false} BackChain(contexts: seq<FiberCtx>, chain: seq<nat>, left: seq<Parked>,
                                     contexts': seq<FiberCtx>, left': seq<Parked>)
    requires Chained(contexts, chain, left) && |chain| > 1 && |contexts| == |contexts'| == |left'|
    requires chain[1] < |contexts| && SameLoops(contexts[chain[1]], contexts'[chain[1]])
    requires forall x :: 0 <= x < |contexts| && x != chain[0] && x != chain[1] ==>
      contexts[x] == contexts'[x] && left[x] == left'[x]
    ensures Chained(contexts', chain[1..], left')
    ensures LoopsOf(contexts, chain) == LoopsOf(contexts', chain[1..]) + LoopsIn(contexts[chain[0]], chain[0])
  {
    ChainedIn(contexts, chain, left);
    assert chain == [chain[0]] + chain[1..];
    ChainedSame(contexts, chain[1..], left, contexts', left');
  }

  lemma BackContexts(contexts: seq<FiberCtx>, cur: nat, chain: seq<nat>, left: seq<Parked>,
                     out: FiberCtx, p: Parked, c: nat, into: FiberCtx)
    requires ContextsInOrder(contexts, cur, chain, left) && cur < |contexts| && |chain| > 1
    requires chain[0] == cur && chain[1] == c < |contexts| && cur !in chain[1..] && contexts[c].status == Resumed
    requires LeftOff(out, p, cur)
    requires into == contexts[c].(stack := [], status := Running, pendingReg := into.pendingReg)
    ensures ContextsInOrder(contexts[cur := out][c := into], c, chain[1..], left[cur := p])
  {
    var contexts', left' := contexts[cur := out][c := into], left[cur := p];
    assert chain == [cur] + chain[1..] && chain[1..][0] == c;
    forall x | 0 <= x < |contexts'| ensures CtxInOrder(contexts'[x], left'[x], x, x in chain[1..], x == c) {
      assert x in chain[1..] <==> x in chain && x != cur;
      assert CtxInOrder(contexts[x], left[x], x, x in chain, x == cur);
    }
  }

  /** A switch back to the context that resumed the running one: the loops left are those that
      ran when it was resumed. */
  lemma BackKeeps(contexts: seq<FiberCtx>, cur: nat, loops: seq<RunLoop>, chain: seq<nat>, left: seq<Parked>,
                  out: FiberCtx, p: Parked, c: nat, into: FiberCtx)
    requires InOrder(contexts, cur, loops, chain, left) && cur < |contexts|
    requires contexts[cur].prev == Some(c) && contexts[cur].natives == 0
    requires LeftOff(out, p, cur) && c < |contexts|
    requires into == contexts[c].(stack := [], status := Running, pendingReg := into.pendingReg)
    ensures |chain| > 1 && chain[1] == c && contexts[c].status == Resumed && c != cur && |left| == |contexts|
    ensures left[c].reg == None <==> contexts[cur].vmexec
    ensures contexts[cur].vmexec ==> |loops| > 0 && loops[|loops| - 1] == ForFiber(cur, c)
    ensures InOrder(contexts[cur := out][c := into], c,
                    if contexts[cur].vmexec then loops[..|loops| - 1] else loops, chain[1..], left[cur := p])
  {
    BackFacts(contexts, cur, loops, chain, left);
    var contexts' := contexts[cur := out][c := into];
    assert LoopsIn(contexts[cur], cur) == if contexts[cur].vmexec then [ForFiber(cur, c)] else [];
    BackContexts(contexts, cur, chain, left, out, p, c, into);
    hide LoopsOf, LoopsIn, CtxInOrder, ContextsInOrder;
    BackChain(contexts, chain, left, contexts', left[cur := p]);
  }

  lemma BackFacts(contexts: seq<FiberCtx>, cur: nat, loops: seq<RunLoop>, chain: seq<nat>, left: seq<Parked>)
    requires InOrder(contexts, cur, loops, chain, left)
    ensures cur < |contexts| == |left| && contexts[cur].stack == [] && ROOT < |contexts|
    ensures contexts[cur].prev.Some? ==>
      |chain| > 1 && chain[1] == contexts[cur].prev.value && chain[1] < |contexts| && chain[1] != cur && cur != ROOT
    ensures contexts[cur].prev.None? ==> |chain| == 1 && !contexts[cur].vmexec
  {
    RunningInOrder(contexts, cur, loops, chain, left);
    hide LoopsOf;
    if |chain| > 1 { assert chain[1] in chain[1..]; }
  }

  // -------------------------------------------------------------- entering and leaving

  /** The running context may give way to `c`. */
  ghost predicate CanEnter(contexts: seq<FiberCtx>, cur: nat, loops: seq<RunLoop>, chain: seq<nat>, left: seq<Parked>,
                           c: nat, resume: bool, vmexec: bool)
  {
    && InOrder(contexts, cur, loops, chain, left)
    && c < |contexts| == |left| && c !in chain && (resume ==> c != ROOT) && c != cur && cur < |contexts|
    && CtxInOrder(contexts[c], left[c], c, false, false) && CtxInOrder(contexts[cur], left[cur], cur, true, true)
    && ((contexts[c].status == Created && c != ROOT) || IsParked(contexts[c]))
    && (!resume ==> !vmexec && NoNatives(contexts, chain) && contexts[cur].natives == 0 && !contexts[cur].vmexec)
  }

  lemma CanEnterGives(contexts: seq<FiberCtx>, cur: nat, loops: seq<RunLoop>, chain: seq<nat>, left: seq<Parked>,
                      c: nat, resume: bool, vmexec: bool)
    requires CanEnter(contexts, cur, loops, chain, left, c, resume, vmexec)
    ensures c < |contexts| == |left| && c !in chain && c != cur && cur < |contexts|
    ensures Waits(contexts[c], left[c]) && !contexts[c].vmexec && contexts[cur].stack == []
  {
  }

  lemma EnteredKeeps(contexts: seq<FiberCtx>, cur: nat, loops: seq<RunLoop>, chain: seq<nat>, left: seq<Parked>,
                     c: nat, contexts': seq<FiberCtx>, resume: bool, vmexec: bool, p: Parked)
    requires CanEnter(contexts, cur, loops, chain, left, c, resume, vmexec)
    requires |contexts'| == |contexts| && c < |contexts| && cur < |contexts| && c != cur && (p.reg == None <==> vmexec)
    requires contexts' == Switched(contexts, cur, if resume then Resumed else Transferred, p, c,
                                   if resume then Some(cur) else None, vmexec, contexts'[c].pendingReg)
    requires !vmexec ==> contexts'[c].pendingReg == contexts[c].pendingReg
    ensures |left| == |contexts|
    ensures InOrder(contexts', c, (if vmexec then loops + [ForFiber(c, cur)] else loops),
                    (if resume then [c] + chain else [c]), left[cur := p])
    ensures Handed(contexts, cur, c, contexts', resume, vmexec)
  {
    SwitchedIsHanded(contexts, cur, p, c, resume, vmexec, contexts'[c].pendingReg);
    hide InOrder, NoNatives;
    if resume {
      ResumeKeeps(contexts, cur, loops, chain, left, c, vmexec, p, contexts'[c].pendingReg);
    } else {
      JumpKeeps(contexts, cur, loops, chain, left, contexts'[cur], p, c, contexts'[c]);
      assert contexts' == contexts[cur := contexts'[cur]][c := contexts'[c]];
    }
  }

  /** The registers a context is found with: those of a new fiber's block, or those it was
      left with, the value in the register it waits with. */
  function Found(f: FiberCtx, p: Parked, entry: seq<Value>, given: Option<Value>): seq<Value>
  {
    if f.status == Created then entry
    else if given.Some? then Given(p.stack, p.reg, given.value)
    else p.stack
  }

  /** Contexts other than these two are as they were. */
  ghost predicate KeptBut(contexts: seq<FiberCtx>, contexts': seq<FiberCtx>, a: nat, b: nat)
  {
    |contexts| == |contexts'| && forall x :: 0 <= x < |contexts| && x != a && x != b ==> contexts'[x] == contexts[x]
  }

  /** The running context's entry changed in what neither the chain nor another context looks at. */
  lemma RunningChanged(contexts: seq<FiberCtx>, cur: nat, chain: seq<nat>, left: seq<Parked>, f: FiberCtx)
    requires ContextsInOrder(contexts, cur, chain, left) && cur < |contexts| && cur in chain
    requires CtxInOrder(f, left[cur], cur, true, true)
    ensures ContextsInOrder(contexts[cur := f], cur, chain, left)
  {
    forall x | 0 <= x < |contexts| ensures CtxInOrder(contexts[cur := f][x], left[x], x, x in chain, x == cur) {
      assert CtxInOrder(contexts[x], left[x], x, x in chain, x == cur);
    }
  }

  lemma TakePending(contexts: seq<FiberCtx>, cur: nat, loops: seq<RunLoop>, chain: seq<nat>, left: seq<Parked>)
    requires InOrder(contexts, cur, loops, chain, left) && cur < |contexts|
    ensures InOrder(contexts[cur := contexts[cur].(pendingReg := None)], cur, loops, chain, left)
  {
    RunningInOrder(contexts, cur, loops, chain, left);
    var f := contexts[cur].(pendingReg := None);
    RunningChanged(contexts, cur, chain, left, f);
    hide ContextsInOrder, CtxInOrder;
    ChainedSame(contexts, chain, left, contexts[cur := f], left);
  }

  /** A context that can be switched to: new, with a block to run, or parked with a register
      for the value. */
  predicate Waits(f: FiberCtx, p: Parked)
  {
    if f.status == Created then f.proc.Some? && f.pendingReg == None
    else IsParked(f) && p.reg.Some? && f.pendingReg == p.reg && f.stack == p.stack
  }

  lemma OffChainWaits(f: FiberCtx, p: Parked, c: nat)
    requires CtxInOrder(f, p, c, false, false) && (f.status == Created || IsParked(f)) && c != ROOT
    ensures Waits(f, p)
  {
  }

  /** The contexts once `from` has given way to `c`. */
  ghost predicate Handed(contexts: seq<FiberCtx>, from: nat, c: nat, contexts': seq<FiberCtx>, resume: bool,
                         vmexec: bool)
  {
    && KeptBut(contexts, contexts', c, from) && c < |contexts| && from < |contexts|
    && contexts'[c].vmexec == vmexec && (!vmexec ==> contexts'[c].pendingReg == contexts[c].pendingReg)
    && contexts'[from].status == (if resume then Resumed else Transferred)
  }

  lemma SwitchedAt(contexts: seq<FiberCtx>, cur: nat, status: FiberState, p: Parked, c: nat, prev: Option<nat>,
                   vmexec: bool, reg: Option<nat>)
    requires cur < |contexts| && c < |contexts| && c != cur
    ensures var r := Switched(contexts, cur, status, p, c, prev, vmexec, reg);
      && |r| == |contexts| && r[c].pendingReg == reg && r[c].proc == contexts[c].proc
      && r[c := r[c].(pendingReg := None)] == Switched(contexts, cur, status, p, c, prev, vmexec, None)
  {
    var r := Switched(contexts, cur, status, p, c, prev, vmexec, reg);
    assert r[c := r[c].(pendingReg := None)] == Switched(contexts, cur, status, p, c, prev, vmexec, None);
  }

  lemma SwitchedIsHanded(contexts: seq<FiberCtx>, cur: nat, p: Parked, c: nat, resume: bool, vmexec: bool,
                         reg: Option<nat>)
    requires cur < |contexts| && c < |contexts| && c != cur && (!vmexec ==> reg == contexts[c].pendingReg)
    ensures Handed(contexts, cur, c,
      Switched(contexts, cur, if resume then Resumed else Transferred, p, c, if resume then Some(cur) else None,
               vmexec, reg), resume, vmexec)
  {
  }

  lemma ParkedWaits(f: FiberCtx, p: Parked, c: nat)
    requires CtxInOrder(f, p, c, false, false) && IsParked(f)
    ensures Waits(f, p)
  {
  }

  lemma FoundParked(f: FiberCtx, p: Parked, entry: seq<Value>)
    requires Waits(f, p) && f.status != Created
    ensures f.stack == Found(f, p, entry, None)
  {
  }

  lemma RootHasNoPrev(contexts: seq<FiberCtx>, cur: nat, loops: seq<RunLoop>, chain: seq<nat>, left: seq<Parked>)
    requires CanEnter(contexts, cur, loops, chain, left, ROOT, false, false)
    ensures contexts[ROOT].prev == None && !contexts[ROOT].vmexec
    ensures contexts[ROOT].status != Created && contexts[cur].stack == []
  {
  }

  lemma SwitchedToRoot(contexts: seq<FiberCtx>, from: nat, p: Parked, contexts': seq<FiberCtx>)
    requires from < |contexts| && ROOT < |contexts| && from != ROOT && p.reg.Some?
    requires contexts[ROOT].prev == None && !contexts[ROOT].vmexec
    requires contexts' ==
      contexts[from := contexts[from].(status := Transferred, pendingReg := p.reg, stack := p.stack)]
              [ROOT := contexts[ROOT].(stack := [], status := Running)]
    ensures contexts' == Switched(contexts, from, Transferred, p, ROOT, None, false, contexts[ROOT].pendingReg)
    ensures |contexts'| == |contexts| && contexts'[ROOT].pendingReg == contexts[ROOT].pendingReg
  {
  }

  /** Where the running context goes back to: its resumer, or the root. */
  function Resumer(chain: seq<nat>): nat
  {
    if |chain| > 1 then chain[1] else ROOT
  }

  /** A step back from `from`: to its resumer, the loops that ran there still running; the
      loop that `from` ran in, if it had its own, is the innermost. */
  ghost predicate WentBack(contexts: seq<FiberCtx>, from: nat, loops: seq<RunLoop>, chain: seq<nat>, left: seq<Parked>,
                           contexts': seq<FiberCtx>, to: nat, chain': seq<nat>, left': seq<Parked>, exits: bool)
  {
    && from < |contexts| == |left| == |contexts'| && to < |contexts| && to != from && to == Resumer(chain)
    && chain' == (if |chain| > 1 then chain[1..] else [ROOT])
    && exits == contexts[from].vmexec && (exits <==> left[to].reg == None)
    && (exits ==> |loops| > 0 && loops[|loops| - 1] == ForFiber(from, to))
    && InOrder(contexts', to, if exits && |loops| > 0 then loops[..|loops| - 1] else loops, chain', left')
    && (left[to].reg.Some? ==> contexts'[to].pendingReg == left[to].reg)
    && KeptBut(contexts, contexts', from, to)
  }

  lemma BackStep(contexts: seq<FiberCtx>, cur: nat, loops: seq<RunLoop>, chain: seq<nat>, left: seq<Parked>,
                 contexts': seq<FiberCtx>, p: Parked, to: nat)
    requires InOrder(contexts, cur, loops, chain, left) && cur < |contexts| == |left| == |contexts'|
    requires contexts[cur].prev == Some(to) && contexts[cur].natives == 0 && to < |contexts| && to != cur
    requires LeftOff(contexts'[cur], p, cur)
    requires contexts' == contexts[cur := contexts'[cur]][to := contexts[to].(stack := [], status := Running)]
    ensures |chain| > 1
    ensures WentBack(contexts, cur, loops, chain, left, contexts', to, chain[1..], left[cur := p], contexts[cur].vmexec)
    ensures contexts[to].stack == left[to].stack
  {
    AsLeftIs(contexts, cur, loops, chain, left, to);
    hide InOrder, CtxInOrder, LeftOff, AsLeft;
    BackKeeps(contexts, cur, loops, chain, left, contexts'[cur], p, to, contexts'[to]);
  }

  lemma AsLeftIs(contexts: seq<FiberCtx>, cur: nat, loops: seq<RunLoop>, chain: seq<nat>, left: seq<Parked>, x: nat)
    requires InOrder(contexts, cur, loops, chain, left) && x < |contexts| && x != cur
    ensures |left| == |contexts|
    ensures contexts[x].status == Resumed ==>
      contexts[x].stack == left[x].stack && (left[x].reg.Some? ==> contexts[x].pendingReg == left[x].reg)
  {
    assert CtxInOrder(contexts[x], left[x], x, x in chain, false);
  }

  lemma SuspendedIsLeftOff(f: FiberCtx, p: Parked, c: nat)
    requires f.natives == 0 && c != ROOT && p.reg.Some?
    ensures LeftOff(f.(status := Suspended, pendingReg := p.reg, prev := None, vmexec := false, stack := p.stack), p, c)
  {
  }

  /** The end of a fiber that was resumed. */
  lemma EndStepBack(contexts: seq<FiberCtx>, cur: nat, loops: seq<RunLoop>, chain: seq<nat>, left: seq<Parked>,
                    contexts': seq<FiberCtx>, to: nat)
    requires InOrder(contexts, cur, loops, chain, left) && cur < |contexts| == |left| == |contexts'| && cur != ROOT
    requires contexts[cur].prev == Some(to) && contexts[cur].natives == 0 && to < |contexts| && to != cur
    requires contexts'[cur] == contexts[cur].(vmexec := false, status := Terminated, prev := None, stack := [])
    requires contexts' == contexts[cur := contexts'[cur]][to := contexts[to].(stack := [], status := Running)]
    ensures |chain| > 1
    ensures WentBack(contexts, cur, loops, chain, left, contexts', to, chain[1..], left, contexts[cur].vmexec)
    ensures contexts[to].stack == left[to].stack
  {
    assert left[cur := left[cur]] == left;
    hide InOrder, WentBack;
    BackStep(contexts, cur, loops, chain, left, contexts', left[cur], to);
  }

  /** The end of a fiber that was transferred to: the root context goes on. */
  lemma EndStepRoot(contexts: seq<FiberCtx>, cur: nat, loops: seq<RunLoop>, chain: seq<nat>, left: seq<Parked>,
                    contexts': seq<FiberCtx>)
    requires InOrder(contexts, cur, loops, chain, left) && cur < |contexts| == |left| == |contexts'| && cur != ROOT
    requires contexts[cur].prev == None && contexts[cur].natives == 0
    requires contexts'[cur] == contexts[cur].(vmexec := false, status := Terminated, prev := None, stack := [])
    requires contexts' == contexts[cur := contexts'[cur]][ROOT := contexts[ROOT].(stack := [], status := Running)]
    ensures WentBack(contexts, cur, loops, chain, left, contexts', ROOT, [ROOT], left, contexts[cur].vmexec)
    ensures contexts[ROOT].stack == left[ROOT].stack && |chain| == 1
  {
    BackFacts(contexts, cur, loops, chain, left);
    assert chain == [cur];
    assert CtxInOrder(contexts[ROOT], left[ROOT], ROOT, false, false);
    assert left[cur := left[cur]] == left;
    hide InOrder;
    JumpKeeps(contexts, cur, loops, chain, left, contexts'[cur], left[cur], ROOT, contexts'[ROOT]);
  }

  lemma {:induction false} LoopsWithout(contexts: seq<FiberCtx>, chain: seq<nat>, cur: nat, f: FiberCtx)
    requires cur < |contexts| && cur !in chain
    ensures LoopsOf(contexts[cur := f], chain) == LoopsOf(contexts, chain)
  {
    if |chain| > 0 {
      assert chain == [chain[0]] + chain[1..];
      assert chain[0] in chain && forall x :: x in chain[1..] ==> x in chain;
      LoopsWithout(contexts, chain[1..], cur, f);
    }
  }

  lemma {:induction false} ChainedWithout(contexts: seq<FiberCtx>, chain: seq<nat>, left: seq<Parked>, cur: nat,
                                          f: FiberCtx)
    requires cur < |contexts| && cur !in chain && Chained(contexts, chain, left)
    ensures Chained(contexts[cur := f], chain, left)
  {
    assert chain[0] in chain;
    if |chain| > 1 {
      assert chain[1] in chain && forall x :: x in chain[1..] ==> x in chain;
      ChainedWithout(contexts, chain[1..], left, cur, f);
    }
  }

  /** A change to the native frames of the running context changes its loops alone. */
  lemma NativesChanged(contexts: seq<FiberCtx>, cur: nat, loops: seq<RunLoop>, chain: seq<nat>, left: seq<Parked>,
                       n: nat)
    requires InOrder(contexts, cur, loops, chain, left) && cur < |contexts|
    ensures |chain| > 0 && loops == LoopsOf(contexts, chain[1..]) + LoopsIn(contexts[cur], cur)
    ensures var f := contexts[cur].(natives := n);
      InOrder(contexts[cur := f], cur, LoopsOf(contexts, chain[1..]) + LoopsIn(f, cur), chain, left)
  {
    var f := contexts[cur].(natives := n);
    var contexts' := contexts[cur := f];
    RunningInOrder(contexts, cur, loops, chain, left);
    RunningChanged(contexts, cur, chain, left, f);
    hide ContextsInOrder, CtxInOrder, LoopsIn;
    if |chain| > 1 { ChainedWithout(contexts, chain[1..], left, cur, f); }
    assert cur !in chain[1..];
    LoopsWithout(contexts, chain[1..], cur, f);
    assert LoopsOf(contexts', chain) == LoopsOf(contexts', chain[1..]) + LoopsIn(f, cur);
  }

  lemma CallEntered(f: FiberCtx, x: nat)
    ensures LoopsIn(f.(natives := f.natives + 1), x) == LoopsIn(f, x) + [ForCall(x)]
  {
  }

  lemma CallKeeps(contexts: seq<FiberCtx>, cur: nat, loops: seq<RunLoop>, chain: seq<nat>, left: seq<Parked>)
    requires InOrder(contexts, cur, loops, chain, left) && cur < |contexts|
    ensures InOrder(contexts[cur := contexts[cur].(natives := contexts[cur].natives + 1)], cur, loops + [ForCall(cur)],
      chain, left)
  {
    hide InOrder, LoopsOf, LoopsIn;
    NativesChanged(contexts, cur, loops, chain, left, contexts[cur].natives + 1);
    CallEntered(contexts[cur], cur);
    Regroup(LoopsOf(contexts, chain[1..]), LoopsIn(contexts[cur], cur), ForCall(cur));
  }

  lemma Regroup<T>(a: seq<T>, b: seq<T>, x: T)
    ensures a + (b + [x]) == a + b + [x]
  {
  }

  /** The innermost loop is that of the running context's last native call. */
  lemma ReturnKeeps(contexts: seq<FiberCtx>, cur: nat, loops: seq<RunLoop>, chain: seq<nat>, left: seq<Parked>)
    requires InOrder(contexts, cur, loops, chain, left) && cur < |contexts| && contexts[cur].natives > 0
    ensures |loops| > 0 && loops == loops[..|loops| - 1] + [ForCall(cur)]
    ensures InOrder(contexts[cur := contexts[cur].(natives := contexts[cur].natives - 1)], cur, loops[..|loops| - 1],
      chain, left)
  {
    hide InOrder, LoopsOf, LoopsIn;
    NativesChanged(contexts, cur, loops, chain, left, contexts[cur].natives - 1);
    var f := contexts[cur].(natives := contexts[cur].natives - 1);
    CallEntered(f, cur);
    assert f.(natives := f.natives + 1) == contexts[cur];
    var outer := LoopsOf(contexts, chain[1..]) + LoopsIn(f, cur);
    Regroup(LoopsOf(contexts, chain[1..]), LoopsIn(f, cur), ForCall(cur));
    assert loops[..|loops| - 1] == outer;
  }

  lemma NewInOrder(contexts: seq<FiberCtx>, cur: nat, loops: seq<RunLoop>, chain: seq<nat>, left: seq<Parked>,
                   proc: ObjId)
    requires InOrder(contexts, cur, loops, chain, left)
    ensures InOrder(contexts + [NewFiber(Some(proc))], cur, loops, chain, left + [Parked([], None)])
  {
    var contexts', left' := contexts + [NewFiber(Some(proc))], left + [Parked([], None)];
    ChainedIn(contexts, chain, left);
    ChainedSame(contexts, chain, left, contexts', left');
    hide Chained, LoopsOf;
    forall x | 0 <= x < |contexts'| ensures CtxInOrder(contexts'[x], left'[x], x, x in chain, x == cur) {
      if x < |contexts| { assert CtxInOrder(contexts[x], left[x], x, x in chain, x == cur); }
    }
  }

  lemma {:induction false} ChainedAt(contexts: seq<FiberCtx>, chain: seq<nat>, left: seq<Parked>, i: nat)
    requires Chained(contexts, chain, left) && i < |chain|
    ensures chain[i] < |contexts| && contexts[chain[i]].prev == if i + 1 < |chain| then Some(chain[i + 1]) else None
    ensures chain[i] !in chain[i + 1..]
  {
    if i > 0 {
      ChainedAt(contexts, chain[1..], left, i - 1);
      assert chain[1..][i..] == chain[i + 1..];
    } else if |chain| == 1 {
      assert chain[1..] == [];
    }
  }

  /** What the invariant says of a state: no cycle behind the running context, every context
      there resuming, native resumes and native calls only there, parked registers as they were
      left, and no other context running. */
  lemma ReachableState(contexts: seq<FiberCtx>, cur: nat, loops: seq<RunLoop>, chain: seq<nat>, left: seq<Parked>)
    requires InOrder(contexts, cur, loops, chain, left)
    ensures |left| == |contexts| && |chain| > 0 && chain[0] == cur
    ensures forall i :: 0 <= i < |chain| ==> chain[i] !in chain[i + 1..]
    ensures forall i :: 0 <= i < |chain| ==>
      chain[i] < |contexts| && contexts[chain[i]].prev == if i + 1 < |chain| then Some(chain[i + 1]) else None
    ensures forall x :: x in chain && x != cur ==> x < |contexts| && contexts[x].status == Resumed
    ensures forall x :: 0 <= x < |contexts| && (contexts[x].vmexec || contexts[x].natives > 0) ==> x in chain
    ensures forall x :: 0 <= x < |contexts| && x != cur && IsParked(contexts[x]) ==> contexts[x].stack == left[x].stack
    ensures forall x :: 0 <= x < |contexts| && x != cur ==> contexts[x].status != Running
  {
    ChainedIn(contexts, chain, left);
    forall i | 0 <= i < |chain|
      ensures chain[i] !in chain[i + 1..]
      ensures chain[i] < |contexts| && contexts[chain[i]].prev == if i + 1 < |chain| then Some(chain[i + 1]) else None
    {
      ChainedAt(contexts, chain, left, i);
    }
    hide LoopsOf, Chained;
    forall x | 0 <= x < |contexts| ensures CtxInOrder(contexts[x], left[x], x, x in chain, x == cur) {
    }
  }
}
