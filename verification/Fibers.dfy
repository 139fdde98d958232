/** The fiber protocol: contexts changing hands by resume, yield, transfer and termination. */
module Fibers {
  import opened Words
  import opened HeapObjects
  import opened Contexts
  import opened FiberChain

  class Vm {
    var contexts: seq<FiberCtx>
    var cur: nat
    /** The running context's registers; its entry in `contexts` is empty. */
    var stack: seq<Value>
    /** The nested run loops on the host stack, the innermost last. */
    var loops: seq<RunLoop>
    ghost var chain: seq<nat>
    ghost var left: seq<Parked>

    ghost predicate Valid()
      reads this
    {
      InOrder(contexts, cur, loops, chain, left)
    }

    constructor ()
      ensures Valid() && contexts == [NewFiber(None)] && cur == ROOT
      ensures Now().contexts == [FiberCtx([], Created, None, None, false, None, 0)] && Now().cur == ROOT
    {
      contexts, cur, stack, loops := [NewFiber(None)], ROOT, [], [];
      chain, left := [ROOT], [Parked([], None)];
      new;
      assert LoopsIn(contexts[ROOT], ROOT) == [] && chain[1..] == [];
      assert LoopsOf(contexts, chain) == [];
    }

    // -------------------------------------------------------------- pieces

    /** Writes `v` into the register the current context is suspended in. */
    method Deliver(v: Value)
      requires cur < |contexts|
      modifies `contexts, `stack
      ensures contexts == old(contexts)[cur := old(contexts)[cur].(pendingReg := None)]
      ensures stack == Given(old(stack), old(contexts)[cur].pendingReg, v)
    {
      var reg := contexts[cur].pendingReg;
      contexts := contexts[cur := contexts[cur].(pendingReg := None)];
      if reg.Some? && reg.value < |stack| { stack := stack[reg.value := v]; }
    }

    /** Makes `to` the running context. */
    method SwitchContext(to: nat)
      requires cur < |contexts| && to < |contexts|
      modifies `contexts, `cur, `stack
      ensures cur == to
      ensures to == old(cur) ==> contexts == old(contexts) && stack == old(stack)
      ensures to != old(cur) ==> stack == old(contexts)[to].stack
      ensures to != old(cur) ==>
        contexts == old(contexts)[old(cur) := old(contexts)[old(cur)].(stack := old(stack))]
                                 [to := old(contexts)[to].(stack := old(contexts)[old(cur)].stack, status := Running)]
    {
      var from := cur;
      if from == to { return; }
      var parked := contexts[from].stack;
      contexts := contexts[from := contexts[from].(stack := stack)];
      stack := contexts[to].stack;
      contexts := contexts[to := contexts[to].(stack := parked, status := Running)];
      cur := to;
    }

    // -------------------------------------------------------------- resume

    /** Why a fiber cannot be switched to, if it cannot. */
    function Refusal(c: nat, resume: bool): Option<FiberError>
      requires c < |contexts|
      reads this
    {
      var f := contexts[c];
      if resume && c == cur then Some(ResumeCurrent)
      else if resume && f.status == Transferred then Some(ResumeTransferred)
      else if f.status == Running || f.status == Resumed then Some(DoubleResume)
      else if f.status == Terminated then Some(DeadFiber)
      else if f.natives > 0 then Some(CrossBoundary)
      else None
    }

    /** What a resume is answered: it works for a fiber off the chain that is new or has yielded, and
        each refusal has its own case. A native frame is never the reason, since a context that
        has one is on the chain. */
    lemma ResumeAnswers(c: nat)
      requires Valid() && c < |contexts|
      ensures Refusal(c, true) == None <==> c !in chain && contexts[c].status in {Created, Suspended}
      ensures Refusal(c, true) == Some(ResumeCurrent) <==> c == cur
      ensures Refusal(c, true) == Some(ResumeTransferred) <==> c != cur && contexts[c].status == Transferred
      ensures Refusal(c, true) == Some(DoubleResume) <==> c != cur && contexts[c].status == Resumed
      ensures Refusal(c, true) == Some(DeadFiber) <==> c != cur && contexts[c].status == Terminated
    {
      RunningInOrder(contexts, cur, loops, chain, left);
      ChainedIn(contexts, chain, left);
      hide Chained, LoopsOf;
      assert CtxInOrder(contexts[c], left[c], c, c in chain, c == cur);
    }

    /** `fiber_switch` up to the point where the fiber runs: in the current run loop, or with
        `vmexec` in a nested one of its own. */
    method FiberSwitch(c: nat, value: Value, entry: seq<Value>, resume: bool, vmexec: bool, retReg: nat)
      returns (refused: Option<FiberError>)
      requires Valid() && c < |contexts|
      requires !resume ==> !vmexec && c != ROOT && c != cur && NoNatives(contexts, chain)
      modifies this
      ensures Valid() && refused == old(Refusal(c, resume))
      ensures refused.Some? ==> unchanged(this)
      ensures refused == None ==> c !in old(chain) && c != old(cur) && old(cur) < |old(contexts)| == |old(left)|
      ensures refused == None ==> Waits(old(contexts)[c], old(left)[c])
      ensures refused == None ==>
        Entered(old(contexts), old(cur), old(stack), old(loops), old(chain), old(left), c, value, entry, resume, vmexec,
          retReg)
    {
      RunningInOrder(contexts, cur, loops, chain, left);
      if !resume { OneHasNone(contexts, chain, cur); }
      hide InOrder, NoNatives;
      var from := cur;
      if resume && c == from { return Some(ResumeCurrent); }
      var status := contexts[c].status;
      if status == Transferred && resume { return Some(ResumeTransferred); }
      if status == Running || status == Resumed { return Some(DoubleResume); }
      if status == Terminated { return Some(DeadFiber); }
      if contexts[c].natives > 0 { return Some(CrossBoundary); }
      NotOnChain(contexts, cur, loops, chain, left, c);
      OffChainWaits(contexts[c], left[c], c);
      EnterFiber(c, value, entry, resume, vmexec, retReg);
      return None;
    }

    /** The running context is left and `c`, which is off the chain, runs. */
    method EnterFiber(c: nat, value: Value, entry: seq<Value>, resume: bool, vmexec: bool, retReg: nat)
      requires CanEnter(contexts, cur, loops, chain, left, c, resume, vmexec)
      requires c < |contexts| == |left| && cur < |contexts|
      modifies this
      ensures Valid()
      ensures Entered(old(contexts), old(cur), old(stack), old(loops), old(chain), old(left), c, value, entry, resume,
        vmexec, retReg)
    {
      hide InOrder, Switched, Found, Handed, Waits, CanEnter;
      CanEnterGives(contexts, cur, loops, chain, left, c, resume, vmexec);
      var from, status := cur, contexts[c].status;
      ghost var p := Parked(stack, if vmexec then None else Some(retReg));
      Handover(c, resume, vmexec, retReg);
      SwitchedAt(old(contexts), from, if resume then Resumed else Transferred, p, c,
        if resume then Some(from) else None, vmexec, old(contexts)[c].pendingReg);
      SwitchedAt(old(contexts), from, if resume then Resumed else Transferred, p, c,
        if resume then Some(from) else None, vmexec, None);
      Begin(status, value, entry, vmexec, old(contexts)[c], old(left)[c]);
      loops := if vmexec then loops + [ForFiber(c, from)] else loops;
      EnteredKeeps(old(contexts), from, old(loops), chain, left, c, contexts, resume, vmexec, p);
      chain := if resume then [c] + chain else [c];
      left := left[from := p];
    }

    /** The registers of the context just switched to: of a new fiber's block, or its own with
        the value a native resume gives. */
    method Begin(status: FiberState, value: Value, entry: seq<Value>, vmexec: bool, ghost f: FiberCtx, ghost p: Parked)
      requires cur < |contexts| && Waits(f, p) && status == f.status && stack == f.stack
      requires contexts[cur].pendingReg == f.pendingReg && contexts[cur].proc == f.proc
      modifies `contexts, `stack
      ensures stack == Found(f, p, entry, if vmexec then Some(value) else None)
      ensures contexts == old(contexts)[cur := old(contexts)[cur].(pendingReg := if vmexec then None else f.pendingReg)]
    {
      if status == Created {
        assert contexts[cur].proc.Some?;
        stack := entry;
      } else if vmexec {
        Deliver(value);
      }
    }

    method Handover(c: nat, resume: bool, vmexec: bool, retReg: nat)
      requires cur < |contexts| && c < |contexts| && c != cur && contexts[cur].stack == [] && !contexts[c].vmexec
      modifies `contexts, `cur, `stack
      ensures cur == c && stack == old(contexts)[c].stack
      ensures contexts == Switched(old(contexts), old(cur), if resume then Resumed else Transferred,
                                   Parked(old(stack), if vmexec then None else Some(retReg)), c,
                                   if resume then Some(old(cur)) else None, vmexec, old(contexts)[c].pendingReg)
    {
      var from := cur;
      contexts := contexts[from := contexts[from].(status := if resume then Resumed else Transferred)];
      contexts := contexts[c := contexts[c].(prev := if resume then Some(from) else None)];
      if vmexec {
        contexts := contexts[c := contexts[c].(vmexec := true)];
      } else {
        contexts := contexts[from := contexts[from].(pendingReg := Some(retReg))];
      }
      SwitchContext(c);
    }

    /** The state once `c` runs. */
    ghost predicate Entered(contexts0: seq<FiberCtx>, from: nat, stack0: seq<Value>, loops0: seq<RunLoop>,
                            chain0: seq<nat>, left0: seq<Parked>,
                            c: nat, value: Value, entry: seq<Value>, resume: bool, vmexec: bool, retReg: nat)
      requires c < |contexts0| == |left0| && from < |contexts0|
      reads this
    {
      && cur == c && chain == (if resume then [c] + chain0 else [c])
      && loops == (if vmexec then loops0 + [ForFiber(c, from)] else loops0)
      && left == left0[from := Parked(stack0, if vmexec then None else Some(retReg))]
      && stack == Found(contexts0[c], left0[c], entry, if vmexec then Some(value) else None)
      && Handed(contexts0, from, c, contexts, resume, vmexec)
    }

    /** `Fiber#resume` called by a SEND: the value goes to the register the fiber waits with. */
    method SendResume(c: nat, value: Value, entry: seq<Value>, retReg: nat) returns (refused: Option<FiberError>)
      requires Valid() && c < |contexts|
      modifies this
      ensures Valid() && refused == old(Refusal(c, true)) && (refused.Some? ==> unchanged(this))
      ensures refused == None <==> c !in old(chain) && old(contexts)[c].status in {Created, Suspended}
      ensures refused == None ==>
        && c != old(cur) && old(cur) < |old(contexts)| == |old(left)|
        && cur == c && chain == [c] + old(chain) && loops == old(loops)
        && stack == Found(old(contexts)[c], old(left)[c], entry, Some(value))
        && left == old(left)[old(cur) := Parked(old(stack), Some(retReg))]
        && KeptBut(old(contexts), contexts, c, old(cur))
    {
      ResumeAnswers(c);
      hide InOrder;
      refused := FiberSwitch(c, value, entry, true, false, retReg);
      if refused == None { DeliverNow(value, old(contexts)[c], old(left)[c], entry); }
    }

    /** The value the call gives, once the call has changed the context. */
    method DeliverNow(value: Value, ghost f: FiberCtx, ghost p: Parked, ghost entry: seq<Value>)
      requires Valid() && cur < |contexts| && contexts[cur].pendingReg == f.pendingReg
      requires stack == Found(f, p, entry, None)
      requires Waits(f, p)
      modifies `contexts, `stack
      ensures Valid() && stack == Found(f, p, entry, Some(value))
      ensures contexts == old(contexts)[cur := old(contexts)[cur].(pendingReg := None)]
    {
      TakePending(contexts, cur, loops, chain, left);
      hide InOrder;
      Deliver(value);
    }

    /** `Fiber#resume` called by native code: the fiber runs in a nested loop. */
    method NativeResume(c: nat, value: Value, entry: seq<Value>) returns (refused: Option<FiberError>)
      requires Valid() && c < |contexts|
      modifies this
      ensures Valid() && refused == old(Refusal(c, true)) && (refused.Some? ==> unchanged(this))
      ensures refused == None <==> c !in old(chain) && old(contexts)[c].status in {Created, Suspended}
      ensures refused == None ==>
        && c != old(cur) && old(cur) < |old(contexts)| == |old(left)|
        && cur == c && chain == [c] + old(chain) && loops == old(loops) + [ForFiber(c, old(cur))]
        && stack == Found(old(contexts)[c], old(left)[c], entry, Some(value))
        && left == old(left)[old(cur) := Parked(old(stack), None)]
        && KeptBut(old(contexts), contexts, c, old(cur))
    {
      ResumeAnswers(c);
      hide InOrder;
      refused := FiberSwitch(c, value, entry, true, true, 0);
    }

    // -------------------------------------------------------------- transfer

    /** Why a transfer is refused, if it is. */
    ghost function TransferRefusal(c: nat, direct: bool): Option<FiberError>
      requires c < |contexts|
      reads this
    {
      if !direct || !NoNatives(contexts, chain) then Some(CrossBoundary)
      else if contexts[c].status == Resumed then Some(TransferToResuming)
      else if c == ROOT || c == cur then None
      else Refusal(c, false)
    }

    /** What a transfer is answered: it works from bytecode with no native frame on the chain, to
        the running context, or to one off the chain that is new or was left by a yield or a
        transfer. */
    lemma TransferAnswers(c: nat, direct: bool)
      requires Valid() && c < |contexts|
      ensures TransferRefusal(c, direct) == None <==>
        && direct && (forall x :: x in chain ==> x < |contexts| && contexts[x].natives == 0 && !contexts[x].vmexec)
        && (c == cur || (c !in chain && contexts[c].status in {Created, Suspended, Transferred}))
      ensures TransferRefusal(c, direct) == Some(DeadFiber) ==> contexts[c].status == Terminated
      ensures TransferRefusal(c, direct) == Some(TransferToResuming) ==> contexts[c].status == Resumed
      ensures TransferRefusal(c, direct) in {None, Some(CrossBoundary), Some(TransferToResuming), Some(DeadFiber)}
    {
      FreeOfNatives(contexts, chain);
      RunningInOrder(contexts, cur, loops, chain, left);
      ChainedIn(contexts, chain, left);
      hide Chained, LoopsOf;
      assert CtxInOrder(contexts[c], left[c], c, c in chain, c == cur);
      hide NoNatives;
    }

    /** A context alone on the chain without a nested loop has no native frame. */
    lemma AloneIsFree()
      requires Valid() && chain == [cur] && loops == []
      ensures NoNatives(contexts, chain)
    {
      RunningInOrder(contexts, cur, loops, chain, left);
      assert chain[1..] == [];
      CallsCount(cur, contexts[cur].natives);
    }

    /** `Fiber#transfer`: no native frame may be anywhere on the chain of resumers. */
    method FiberTransfer(c: nat, value: Value, entry: seq<Value>, direct: bool, retReg: nat)
      returns (refused: Option<FiberError>)
      requires Valid() && c < |contexts|
      modifies this
      ensures Valid() && refused == old(TransferRefusal(c, direct))
      ensures refused.Some? || c == old(cur) ==> unchanged(this)
      ensures refused == None && c != old(cur) ==>
        old(cur) < |old(contexts)| == |old(left)| && c !in old(chain) && Waits(old(contexts)[c], old(left)[c])
      ensures refused == None && c != old(cur) ==>
        Entered(old(contexts), old(cur), old(stack), old(loops), old(chain), old(left), c, value, entry, false, false,
          retReg)
    {
      if !direct { return Some(CrossBoundary); }
      var free := NativeFree();
      if !free { return Some(CrossBoundary); }
      hide InOrder, NoNatives;
      if contexts[c].status == Resumed { return Some(TransferToResuming); }
      if c == cur { return None; }
      RunningInOrder(contexts, cur, loops, chain, left);
      if c == ROOT {
        OneHasNone(contexts, chain, cur);
        NotOnChain(contexts, cur, loops, chain, left, c);
        ParkedWaits(contexts[c], left[c], c);
        TransferToRoot(value, entry, retReg);
        return None;
      }
      refused := FiberSwitch(c, value, entry, false, false, retReg);
    }

    /** Whether no native frame is on the chain from the running context. */
    method NativeFree() returns (free: bool)
      requires Valid()
      ensures free <==> NoNatives(contexts, chain)
    {
      RunningInOrder(contexts, cur, loops, chain, left);
      hide LoopsOf;
      var x := Some(cur);
      ghost var i := 0;
      while x.Some?
        invariant 0 <= i <= |chain| && (x.Some? <==> i < |chain|) && (i < |chain| ==> x == Some(chain[i]))
        invariant forall j :: 0 <= j < i ==>
          chain[j] < |contexts| && contexts[chain[j]].natives == 0 && !contexts[chain[j]].vmexec
        decreases |chain| - i
      {
        ChainedAt(contexts, chain, left, i);
        if contexts[x.value].natives > 0 || contexts[x.value].vmexec { return false; }
        if x.value == ROOT {
          assert CtxInOrder(contexts[ROOT], left[ROOT], ROOT, ROOT in chain, ROOT == cur);
          return true;
        }
        x := contexts[x.value].prev;
        i := i + 1;
      }
      return true;
    }

    /** A transfer to the root context. */
    method TransferToRoot(value: Value, entry: seq<Value>, retReg: nat)
      requires CanEnter(contexts, cur, loops, chain, left, ROOT, false, false)
      requires ROOT < |contexts| == |left| && cur < |contexts|
      modifies this
      ensures Valid()
      ensures Entered(old(contexts), old(cur), old(stack), old(loops), old(chain), old(left), ROOT, value, entry, false,
        false, retReg)
    {
      RootHasNoPrev(contexts, cur, loops, chain, left);
      CanEnterGives(contexts, cur, loops, chain, left, ROOT, false, false);
      hide InOrder, Switched, Found, Handed, Waits, CanEnter;
      var from := cur;
      ghost var p := Parked(stack, Some(retReg));
      contexts := contexts[from := contexts[from].(status := Transferred)];
      contexts := contexts[from := contexts[from].(pendingReg := Some(retReg))];
      SwitchContext(ROOT);
      SwitchedToRoot(old(contexts), from, p, contexts);
      FoundParked(old(contexts)[ROOT], old(left)[ROOT], entry);
      EnteredKeeps(old(contexts), from, loops, chain, left, ROOT, contexts, false, false, p);
      chain := [ROOT];
      left := left[from := p];
    }

    /** `Fiber#transfer` called by a SEND. */
    method SendTransfer(c: nat, value: Value, entry: seq<Value>, direct: bool, retReg: nat)
      returns (refused: Option<FiberError>)
      requires Valid() && c < |contexts|
      modifies this
      ensures Valid() && refused == old(TransferRefusal(c, direct))
      ensures refused.Some? || c == old(cur) ==> unchanged(this)
      ensures refused == None && c != old(cur) ==>
        && old(cur) < |old(contexts)| == |old(left)|
        && cur == c && chain == [c] && loops == old(loops)
        && stack == Found(old(contexts)[c], old(left)[c], entry, Some(value))
        && left == old(left)[old(cur) := Parked(old(stack), Some(retReg))]
        && KeptBut(old(contexts), contexts, c, old(cur)) && contexts[old(cur)].status == Transferred
    {
      hide InOrder, NoNatives;
      var from := cur;
      refused := FiberTransfer(c, value, entry, direct, retReg);
      if refused == None && cur != from { DeliverNow(value, old(contexts)[c], old(left)[c], entry); }
    }

    // -------------------------------------------------------------- yield

    /** Why a yield is refused, if it is. */
    function YieldRefusal(direct: bool): Option<FiberError>
      requires cur < |contexts|
      reads this
    {
      var f := contexts[cur];
      if f.prev.None? then Some(NotResumed)
      else if cur == ROOT then Some(YieldFromRoot)
      else if f.prev.value < |contexts| && contexts[f.prev.value].status == Transferred then Some(NotResumed)
      else if !direct || f.natives > 0 then Some(CrossBoundary)
      else None
    }

    /** What a yield is answered: it works from bytecode in a context that was resumed and has no
        native frame. */
    lemma YieldAnswers(direct: bool)
      requires Valid() && cur < |contexts|
      ensures YieldRefusal(direct) == None <==> |chain| > 1 && direct && contexts[cur].natives == 0
      ensures YieldRefusal(direct) == Some(NotResumed) <==> |chain| == 1
      ensures YieldRefusal(direct) in {None, Some(NotResumed), Some(CrossBoundary)}
    {
      RunningInOrder(contexts, cur, loops, chain, left);
      ChainedAt(contexts, chain, left, 0);
      if |chain| > 1 {
        ChainedIn(contexts, chain, left);
        assert chain[1] in chain;
      }
      hide LoopsOf;
    }

    /** `Fiber.yield`: back to the resumer. With `exits` the nested run loop the fiber ran in,
        the innermost one, is to end; it was started by the context now running again. */
    method FiberYield(direct: bool, retReg: nat) returns (refused: Option<FiberError>, exits: bool)
      requires Valid() && cur < |contexts| == |left|
      modifies `contexts, `cur, `stack, `chain, `left
      ensures refused == old(YieldRefusal(direct))
      ensures refused.Some? ==> unchanged(this) && !exits
      ensures refused == None ==>
        && Back(old(contexts), old(cur), old(chain), old(left), exits)
        && left == old(left)[old(cur) := Parked(old(stack), Some(retReg))]
        && contexts[old(cur)].status == Suspended
    {
      BackFacts(contexts, cur, loops, chain, left);
      hide InOrder;
      var c := cur;
      if contexts[c].prev.None? { return Some(NotResumed), false; }
      var prev := contexts[c].prev.value;
      if c == ROOT { return Some(YieldFromRoot), false; }
      if contexts[prev].status == Transferred { return Some(NotResumed), false; }
      if !direct || contexts[c].natives > 0 { return Some(CrossBoundary), false; }
      exits := LeaveYielding(prev, retReg);
      return None, exits;
    }

    method LeaveYielding(prev: nat, retReg: nat) returns (vmexec: bool)
      requires InOrder(contexts, cur, loops, chain, left)
      requires cur < |contexts| == |left| && contexts[cur].prev == Some(prev) && prev < |contexts| && prev != cur
      requires contexts[cur].natives == 0 && cur != ROOT && contexts[cur].stack == []
      modifies `contexts, `cur, `stack, `chain, `left
      ensures Back(old(contexts), old(cur), old(chain), old(left), vmexec)
      ensures left == old(left)[old(cur) := Parked(old(stack), Some(retReg))]
      ensures contexts[old(cur)].status == Suspended
    {
      hide InOrder, WentBack;
      var c := cur;
      ghost var p := Parked(stack, Some(retReg));
      vmexec := contexts[c].vmexec;
      contexts := contexts[c := contexts[c].(status := Suspended, pendingReg := Some(retReg), prev := None)];
      contexts := contexts[c := contexts[c].(vmexec := false)];
      SwitchContext(prev);
      SuspendedIsLeftOff(old(contexts)[c], p, c);
      BackStep(old(contexts), c, loops, chain, left, contexts, p, prev);
      chain := chain[1..];
      left := left[c := p];
    }

    /** The state after a step back from `from`, the innermost loop still to end if `exits`. */
    ghost predicate Back(contexts0: seq<FiberCtx>, from: nat, chain0: seq<nat>, left0: seq<Parked>, exits: bool)
      reads this
    {
      WentBack(contexts0, from, loops, chain0, left0, contexts, cur, chain, left, exits)
      && cur < |left0| && stack == left0[cur].stack
    }

    /** `Fiber.yield` called by a SEND. The value goes to the register the resumer waits with,
        or is what the nested loop of a native resume gives: that loop is the innermost one,
        and the native that started it finds its own context running. */
    method SendYield(value: Value, direct: bool, retReg: nat) returns (refused: Option<FiberError>)
      requires Valid() && cur < |contexts| == |left|
      modifies this
      ensures Valid() && refused == old(YieldRefusal(direct))
      ensures refused.Some? ==> unchanged(this)
      ensures refused == None ==> ReturnedTo(old(contexts), old(cur), old(loops), old(chain), old(left), Some(value))
      ensures refused == None ==>
        && |left| == |contexts| && old(cur) < |left|
        && left == old(left)[old(cur) := Parked(old(stack), Some(retReg))]
        && contexts[old(cur)].status == Suspended
    {
      hide InOrder;
      var from := cur;
      var exits;
      refused, exits := FiberYield(direct, retReg);
      if refused == None {
        if exits {
          EndNested(from, old(contexts), old(chain), old(left), Some(value));
        } else {
          HandValue(value, from, old(contexts), old(chain), old(left));
        }
      }
    }

    /** The innermost nested loop, that of `from`, returns to the native that started it. */
    method EndNested(from: nat, ghost contexts0: seq<FiberCtx>, ghost chain0: seq<nat>, ghost left0: seq<Parked>,
                     ghost value: Option<Value>)
      requires Back(contexts0, from, chain0, left0, true)
      modifies `loops
      ensures Valid() && ReturnedTo(contexts0, from, old(loops), chain0, left0, value)
    {
      hide InOrder;
      var loop := loops[|loops| - 1];
      assert loop == ForFiber(from, cur);
      loops := loops[..|loops| - 1];
    }

    lemma NowReturned(contexts0: seq<FiberCtx>, from: nat, chain0: seq<nat>, left0: seq<Parked>)
      requires Back(contexts0, from, chain0, left0, false)
      ensures Valid() && ReturnedTo(contexts0, from, loops, chain0, left0, None)
    {
    }

    method HandValue(value: Value, from: nat, ghost contexts0: seq<FiberCtx>, ghost chain0: seq<nat>,
                     ghost left0: seq<Parked>)
      requires Back(contexts0, from, chain0, left0, false)
      modifies `contexts, `stack
      ensures Valid() && ReturnedTo(contexts0, from, loops, chain0, left0, Some(value)) && |contexts| == old(|contexts|)
      ensures from < |contexts| && contexts[from] == old(contexts)[from]
    {
      TakePending(contexts, cur, loops, chain, left);
      hide InOrder;
      Deliver(value);
    }

    /** Back in the resumer of `from`: its registers are those it left, but for the value, which
        is delivered unless it waits for it in a nested loop; that loop has ended. */
    ghost predicate ReturnedTo(contexts0: seq<FiberCtx>, from: nat, loops0: seq<RunLoop>, chain0: seq<nat>,
                               left0: seq<Parked>, value: Option<Value>)
      reads this
    {
      && from < |contexts0| == |left0| == |contexts| && cur == Resumer(chain0) && cur < |left0| && cur != from
      && chain == (if |chain0| > 1 then chain0[1..] else [ROOT])
      && stack == (if contexts0[from].vmexec || value.None? then left0[cur].stack
                   else Given(left0[cur].stack, left0[cur].reg, value.value))
      && (if contexts0[from].vmexec
          then |loops0| > 0 && loops0[|loops0| - 1] == ForFiber(from, cur) && loops == loops0[..|loops0| - 1]
          else loops == loops0)
      && KeptBut(contexts0, contexts, from, cur)
    }

    lemma ChainStart()
      requires Valid()
      ensures |chain| > 0 && chain == [cur] + chain[1..] && cur !in chain[1..]
    {
      ChainedAt(contexts, chain, left, 0);
    }

    lemma NativeFreeHasNoLoops()
      requires Valid()
      ensures NoNatives(contexts, chain) ==> loops == []
    {
      if NoNatives(contexts, chain) { NoLoops(contexts, chain); }
    }

    /** A fiber yields and is resumed again: it finds the registers it left, with the value of the
        resume where the yield was to give its own. */
    method YieldAndResume(value: Value, retReg: nat, back: Value, at: nat) returns (done: bool)
      requires Valid() && cur < |contexts| == |left|
      modifies this
      ensures Valid() && (done <==> |old(chain)| > 1 && old(contexts)[old(cur)].natives == 0)
      ensures !done ==> unchanged(this)
      ensures done ==> cur == old(cur) && chain == old(chain) && |stack| == |old(stack)|
      ensures done ==> forall i :: 0 <= i < |stack| ==> stack[i] == if i == retReg then back else old(stack)[i]
    {
      hide InOrder, YieldRefusal, Refusal, Waits, KeptBut;
      YieldAnswers(true);
      ChainStart();
      var c := cur;
      var refused := SendYield(value, true, retReg);
      if refused.Some? { return false; }
      assert c !in chain;
      refused := SendResume(c, back, [], at);
      return true;
    }

    /** A context transfers to another and is transferred back to: it finds the registers it left,
        with the value of the second transfer. */
    method TransferAndBack(c: nat, value: Value, entry: seq<Value>, retReg: nat, back: Value, at: nat)
      returns (done: bool)
      requires Valid() && c < |contexts| && c != cur
      modifies this
      ensures Valid() && (done <==> old(TransferRefusal(c, true)) == None)
      ensures !done ==> unchanged(this)
      ensures done ==> cur == old(cur) && chain == [cur] && |stack| == |old(stack)|
      ensures done ==> forall i :: 0 <= i < |stack| ==> stack[i] == if i == retReg then back else old(stack)[i]
    {
      hide InOrder, NoNatives, TransferRefusal, Waits;
      var from := cur;
      TransferAnswers(c, true);
      FreeOfNatives(contexts, chain);
      NativeFreeHasNoLoops();
      RunningInOrder(contexts, cur, loops, chain, left);
      var refused := SendTransfer(c, value, entry, true, retReg);
      if refused.Some? { return false; }
      AloneIsFree();
      FreeOfNatives(contexts, chain);
      TransferAnswers(from, true);
      refused := SendTransfer(from, back, [], true, at);
      return true;
    }

    // -------------------------------------------------------------- the end of a fiber

    /** `fiber_terminate`: to the context that resumed the fiber, or to the root. */
    method FiberTerminate() returns (vmexec: bool)
      requires InOrder(contexts, cur, loops, chain, left) && cur < |contexts|
      requires cur != ROOT && contexts[cur].natives == 0
      modifies `contexts, `cur, `stack, `chain
      ensures Back(old(contexts), old(cur), old(chain), left, vmexec)
      ensures |contexts| == old(|contexts|) && contexts[old(cur)].status == Terminated && contexts[old(cur)].stack == []
    {
      BackFacts(contexts, cur, loops, chain, left);
      hide InOrder, WentBack;
      var c := cur;
      vmexec := contexts[c].vmexec;
      contexts := contexts[c := contexts[c].(vmexec := false)];
      contexts := contexts[c := contexts[c].(status := Terminated)];
      var prev := contexts[c].prev;
      contexts := contexts[c := contexts[c].(prev := None)];
      SwitchContext(if prev.Some? then prev.value else ROOT);
      contexts := contexts[c := contexts[c].(stack := [])];
      if prev.Some? {
        EndStepBack(old(contexts), c, loops, chain, left, contexts, cur);
        chain := chain[1..];
      } else {
        EndStepRoot(old(contexts), c, loops, chain, left, contexts);
        chain := [ROOT];
      }
    }

    /** A fiber's block returns `v`. */
    method FinishFiber(v: Value)
      requires Valid() && cur < |contexts| && cur != ROOT && contexts[cur].natives == 0
      modifies this
      ensures Valid() && left == old(left)
      ensures ReturnedTo(old(contexts), old(cur), old(loops), old(chain), old(left), Some(v))
      ensures old(cur) < |contexts| && contexts[old(cur)].status == Terminated
    {
      hide InOrder, Back, ReturnedTo;
      var from := cur;
      var exits := FiberTerminate();
      if exits {
        EndNested(from, old(contexts), old(chain), old(left), Some(v));
      } else {
        HandValue(v, from, old(contexts), old(chain), old(left));
      }
    }

    /** An exception leaves a fiber: it goes on in the context the fiber returns to, or in the
        native that resumed it; no value is delivered. */
    method FailFiber()
      requires Valid() && cur < |contexts| && cur != ROOT && contexts[cur].natives == 0
      modifies this
      ensures Valid() && left == old(left)
      ensures ReturnedTo(old(contexts), old(cur), old(loops), old(chain), old(left), None)
      ensures old(cur) < |contexts| && contexts[old(cur)].status == Terminated
    {
      hide InOrder, Back, ReturnedTo;
      var from := cur;
      var exits := FiberTerminate();
      if exits {
        EndNested(from, old(contexts), old(chain), old(left), None);
      } else {
        NowReturned(old(contexts), from, old(chain), old(left));
      }
    }

    // -------------------------------------------------------------- everything else

    /** `Fiber#initialize` of an object with the given link to a context: a new context, to
        which the object leads from now on. An object that has one keeps it. */
    method FiberInit(link: Option<nat>, proc: ObjId) returns (refused: Option<FiberError>, link': Option<nat>)
      requires Valid()
      modifies `contexts, `left
      ensures Valid() && link'.Some? && (refused == None <==> link == None)
      ensures refused.Some? ==> refused == Some(InitializedTwice) && link' == link && unchanged(this)
      ensures refused == None ==> link' == Some(|old(contexts)|) && contexts == old(contexts) + [NewFiber(Some(proc))]
      ensures refused == None ==>
        && NewFiber(Some(proc)) == FiberCtx([], Created, None, Some(proc), false, None, 0)
        && left == old(left) + [Parked([], None)]
    {
      if link.Some? { return Some(InitializedTwice), link; }
      NewInOrder(contexts, cur, loops, chain, left, proc);
      hide InOrder;
      contexts := contexts + [NewFiber(Some(proc))];
      left := left + [Parked([], None)];
      return None, Some(|contexts| - 1);
    }

    /** Native code calls a block or method of the running context: a nested loop runs it. */
    method EnterNative()
      requires Valid() && cur < |contexts|
      modifies `contexts, `loops
      ensures Valid() && loops == old(loops) + [ForCall(cur)]
      ensures contexts == old(contexts)[cur := old(contexts)[cur].(natives := old(contexts)[cur].natives + 1)]
    {
      hide InOrder;
      CallKeeps(contexts, cur, loops, chain, left);
      contexts := contexts[cur := contexts[cur].(natives := contexts[cur].natives + 1)];
      loops := loops + [ForCall(cur)];
    }

    /** That call returns: its loop is the innermost one. */
    method LeaveNative()
      requires Valid() && cur < |contexts| && contexts[cur].natives > 0
      modifies `contexts, `loops
      ensures Valid() && old(loops) == loops + [ForCall(cur)]
      ensures contexts == old(contexts)[cur := old(contexts)[cur].(natives := old(contexts)[cur].natives - 1)]
    {
      hide InOrder;
      ReturnKeeps(contexts, cur, loops, chain, left);
      assert loops[|loops| - 1] == ForCall(cur);
      contexts := contexts[cur := contexts[cur].(natives := contexts[cur].natives - 1)];
      loops := loops[..|loops| - 1];
    }

    /** The running context computes: its registers change. */
    method Compute(st: seq<Value>)
      requires Valid()
      modifies `stack
      ensures Valid() && stack == st
    {
      stack := st;
    }

    ghost function Now(): Moment
      reads this
    {
      Moment(contexts, cur, stack, loops, chain, left)
    }

    /** One step: what it is answered and what it does. Only the context that ran before it and the
        one that runs after it change. */
    method Perform(step: Step) returns (refused: Option<FiberError>)
      requires Valid()
      modifies this
      ensures Valid() && |contexts| >= old(|contexts|)
      ensures Happened(old(Now()), step, refused, Now())
      ensures forall x :: 0 <= x < old(|contexts|) && x != old(cur) && x != cur ==> contexts[x] == old(contexts)[x]
    {
      hide InOrder, Found, Given, Resumer, CanResume, CanYield, CanTransfer;
      BackFacts(contexts, cur, loops, chain, left);
      refused := None;
      if step.Resume? || step.ResumeByNative? || step.Transfer? {
        refused := PerformSwitch(step);
      } else if step.Yield? || step.Finish? || step.Fail? {
        refused := PerformBack(step);
      } else {
        match step
        case Init(link, proc) =>
          var made;
          refused, made := FiberInit(link, proc);
        case Call => EnterNative();
        case Return =>
          if contexts[cur].natives > 0 { LeaveNative(); }
        case Work(st) => Compute(st);
      }
    }

    /** A step to another context. */
    method PerformSwitch(step: Step) returns (refused: Option<FiberError>)
      requires Valid() && (step.Resume? || step.ResumeByNative? || step.Transfer?)
      modifies this
      ensures Valid() && Happened(old(Now()), step, refused, Now())
    {
      hide InOrder, NoNatives, Found, Given, Waits, Refusal, TransferRefusal;
      FreeOfNatives(contexts, chain);
      refused := None;
      if step.c < |contexts| {
        match step
        case Resume(c, value, entry, retReg) => refused := SendResume(c, value, entry, retReg);
        case ResumeByNative(c, value, entry) => refused := NativeResume(c, value, entry);
        case Transfer(c, value, entry, direct, retReg) =>
          TransferAnswers(c, direct);
              refused := SendTransfer(c, value, entry, direct, retReg);
      }
    }

    /** A step back. */
    method PerformBack(step: Step) returns (refused: Option<FiberError>)
      requires Valid() && (step.Yield? || step.Finish? || step.Fail?)
      modifies this
      ensures Valid() && Happened(old(Now()), step, refused, Now())
    {
      hide InOrder, Given, Resumer, YieldRefusal, NoNatives, Found, KeptBut;
      BackFacts(contexts, cur, loops, chain, left);
      YieldAnswers(true);
      YieldAnswers(false);
      refused := None;
      match step
      case Yield(value, direct, retReg) => refused := SendYield(value, direct, retReg);
      case Finish(v) =>
        if cur != ROOT && contexts[cur].natives == 0 { FinishFiber(v); }
      case Fail =>
        if cur != ROOT && contexts[cur].natives == 0 { FailFiber(); }
    }
  }

  datatype Step =
    | Init(link: Option<nat>, proc: ObjId) | Resume(c: nat, value: Value, entry: seq<Value>, retReg: nat)
    | ResumeByNative(c: nat, value: Value, entry: seq<Value>) | Yield(value: Value, direct: bool, retReg: nat)
    | Transfer(c: nat, value: Value, entry: seq<Value>, direct: bool, retReg: nat)
    | Finish(v: Value) | Fail | Call | Return | Work(st: seq<Value>)

  /** The state between two steps. */
  datatype Moment = Moment(
    contexts: seq<FiberCtx>, cur: nat, stack: seq<Value>, loops: seq<RunLoop>, chain: seq<nat>, left: seq<Parked>)

  /** The running context gives way to `c`, to be given its value in `reg`, or by the nested loop that
      now runs. */
  ghost predicate Gone(a: Moment, c: nat, value: Value, entry: seq<Value>, reg: Option<nat>, resume: bool, b: Moment)
  {
    && c < |a.contexts| == |a.left| && a.cur < |a.contexts| && b.cur == c
    && b.chain == (if resume then [c] + a.chain else [c])
    && b.loops == (if reg.Some? then a.loops else a.loops + [ForFiber(c, a.cur)])
    && b.stack == Found(a.contexts[c], a.left[c], entry, Some(value))
    && b.left == a.left[a.cur := Parked(a.stack, reg)]
    && KeptBut(a.contexts, b.contexts, c, a.cur)
  }

  /** The running context, now of the given status, gives way to its resumer, or to the root: that
      one has the registers it left and the value in the one it waited with, or the value from the
      nested loop that has ended. */
  ghost predicate CameBack(a: Moment, value: Option<Value>, status: FiberState, b: Moment)
  {
    var from := a.cur;
    && from < |a.contexts| == |a.left| == |b.left| == |b.contexts| && b.cur == Resumer(a.chain)
    && b.cur < |b.left| && b.cur != from
    && b.chain == (if |a.chain| > 1 then a.chain[1..] else [ROOT])
    && b.stack == (if a.contexts[from].vmexec || value.None? then a.left[b.cur].stack
                   else Given(a.left[b.cur].stack, a.left[b.cur].reg, value.value))
    && (if a.contexts[from].vmexec then a.loops == b.loops + [ForFiber(from, b.cur)] else b.loops == a.loops)
    && KeptBut(a.contexts, b.contexts, from, b.cur) && b.contexts[from].status == status
  }

  /** When a resume, a yield and a transfer work. */
  predicate CanResume(a: Moment, c: nat)
  {
    c < |a.contexts| && c !in a.chain && a.contexts[c].status in {Created, Suspended}
  }

  predicate CanYield(a: Moment, direct: bool)
  {
    direct && |a.chain| > 1 && a.cur < |a.contexts| && a.contexts[a.cur].natives == 0
  }

  predicate CanTransfer(a: Moment, c: nat, direct: bool)
  {
    && c < |a.contexts| && direct
    && (forall x :: x in a.chain ==> x < |a.contexts| && a.contexts[x].natives == 0 && !a.contexts[x].vmexec)
    && (c == a.cur || (c !in a.chain && a.contexts[c].status in {Created, Suspended, Transferred}))
  }

  /** What a step makes of one state, and what it is answered. */
  ghost predicate Happened(a: Moment, step: Step, refused: Option<FiberError>, b: Moment)
  {
    match step
    case Init(link, proc) =>
      && (refused == None <==> link == None)
      && b == if link.Some? then a
              else a.(contexts := a.contexts + [FiberCtx([], Created, None, Some(proc), false, None, 0)],
                      left := a.left + [Parked([], None)])
    case Resume(c, value, entry, retReg) =>
      && (c < |a.contexts| ==> (refused == None <==> CanResume(a, c)))
      && (if CanResume(a, c) then Gone(a, c, value, entry, Some(retReg), true, b) else b == a)
    case ResumeByNative(c, value, entry) =>
      && (c < |a.contexts| ==> (refused == None <==> CanResume(a, c)))
      && (if CanResume(a, c) then Gone(a, c, value, entry, None, true, b) else b == a)
    case Yield(value, direct, retReg) =>
      && (refused == None <==> CanYield(a, direct))
      && (if CanYield(a, direct)
          then
            && CameBack(a, Some(value), Suspended, b)
            && b.left == a.left[a.cur := Parked(a.stack, Some(retReg))]
          else b == a)
    case Transfer(c, value, entry, direct, retReg) =>
      && (c < |a.contexts| ==> (refused == None <==> CanTransfer(a, c, direct)))
      && (if CanTransfer(a, c, direct) && c != a.cur
          then
            && Gone(a, c, value, entry, Some(retReg), false, b)
            && a.cur < |b.contexts| && b.contexts[a.cur].status == Transferred
          else b == a)
    case Finish(v) =>
      if a.cur != ROOT && a.cur < |a.contexts| && a.contexts[a.cur].natives == 0
      then CameBack(a, Some(v), Terminated, b) && b.left == a.left
      else b == a
    case Fail =>
      if a.cur != ROOT && a.cur < |a.contexts| && a.contexts[a.cur].natives == 0
      then CameBack(a, None, Terminated, b) && b.left == a.left
      else b == a
    case Call =>
      && a.cur < |a.contexts|
      && var f := a.contexts[a.cur];
         b == a.(contexts := a.contexts[a.cur := f.(natives := f.natives + 1)], loops := a.loops + [ForCall(a.cur)])
    case Return =>
      && a.cur < |a.contexts|
      && var f := a.contexts[a.cur];
         if f.natives > 0
         then
           && a.loops == b.loops + [ForCall(a.cur)]
           && b == a.(contexts := a.contexts[a.cur := f.(natives := f.natives - 1)], loops := b.loops)
         else b == a
    case Work(st) => b == a.(stack := st)
  }

  /** The states of a run, one before each step and one at the end, and what the steps were answered. */
  ghost predicate IsRun(steps: seq<Step>, answers: seq<Option<FiberError>>, states: seq<Moment>)
  {
    && |answers| == |steps| && |states| == |steps| + 1
    && forall i :: 0 <= i < |steps| ==> Happened(states[i], steps[i], answers[i], states[i + 1])
  }

  lemma RunStarts(a: Moment)
    ensures IsRun([], [], [a])
  {
  }

  lemma RunLonger(steps: seq<Step>, answers: seq<Option<FiberError>>, states: seq<Moment>,
                  step: Step, refused: Option<FiberError>, b: Moment)
    requires IsRun(steps, answers, states) && Happened(states[|steps|], step, refused, b)
    ensures IsRun(steps + [step], answers + [refused], states + [b])
  {
    hide Happened;
  }

  /** Over any run the contexts stay in order, whatever the guards at native boundaries answer, and
      each step does what it is to do. */
  method RunFibers(steps: seq<Step>) returns (vm: Vm, answers: seq<Option<FiberError>>, ghost states: seq<Moment>)
    ensures fresh(vm) && vm.Valid() && IsRun(steps, answers, states) && states[|steps|] == vm.Now()
    ensures states[0].contexts == [FiberCtx([], Created, None, None, false, None, 0)] && states[0].cur == ROOT
  {
    hide *;
    vm := new Vm();
    answers, states := [], [vm.Now()];
    assert steps[..0] == [];
    RunStarts(vm.Now());
    for i := 0 to |steps|
      invariant fresh(vm) && vm.Valid()
      invariant IsRun(steps[..i], answers, states) && |states| == i + 1 && states[i] == vm.Now()
      invariant states[0].contexts == [FiberCtx([], Created, None, None, false, None, 0)] && states[0].cur == ROOT
    {
      var refused := vm.Perform(steps[i]);
      RunLonger(steps[..i], answers, states, steps[i], refused, vm.Now());
      assert steps[..i + 1] == steps[..i] + [steps[i]];
      answers, states := answers + [refused], states + [vm.Now()];
    }
    assert steps[..|steps|] == steps;
  }

  /** Over any run from a state in order, a context that runs at none of its states is as it was:
      registers, status, resumer and the register it waits with. `ran` is the running context of
      each state, the first and the last included. */
  method RunFrom(vm: Vm, steps: seq<Step>) returns (ran: seq<nat>)
    requires vm.Valid()
    modifies vm
    ensures vm.Valid() && |vm.contexts| >= old(|vm.contexts|)
    ensures |ran| == |steps| + 1 && ran[0] == old(vm.cur) && ran[|steps|] == vm.cur
    ensures forall x :: 0 <= x < old(|vm.contexts|) && x !in ran ==> vm.contexts[x] == old(vm.contexts)[x]
  {
    ran := [vm.cur];
    for i := 0 to |steps|
      invariant vm.Valid() && |vm.contexts| >= old(|vm.contexts|)
      invariant |ran| == i + 1 && ran[0] == old(vm.cur) && ran[i] == vm.cur
      invariant forall x :: 0 <= x < old(|vm.contexts|) && x !in ran ==> vm.contexts[x] == old(vm.contexts)[x]
    {
      var refused := vm.Perform(steps[i]);
      ran := ran + [vm.cur];
    }
  }
}
