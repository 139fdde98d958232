/** Execution contexts: a register stack, the frames on it, and where a fiber stands. */
module Contexts {
  import opened Words
  import opened HeapObjects

  datatype FiberState = Created | Running | Resumed | Suspended | Transferred | Terminated

  /** What a collection sees of a frame. `nregs` is that of its code. */
  datatype Frame = Frame(proc: ObjId, targetClass: ObjId, env: Option<ObjId>, base: nat, nregs: nat, n: nat, kw: bool)

  datatype Context = Context(
    stack: seq<Value>, ci: seq<Frame>, status: FiberState, prev: Option<nat>,
    fib: Option<ObjId>, proc: Option<ObjId>, vmexec: bool, pendingReg: Option<nat>)

  /** The context the program starts in. */
  const ROOT: nat := 0

  function NewContext(status: FiberState): Context
  {
    Context([], [], status, None, None, None, false, None)
  }

  function Max(a: nat, b: nat): nat
  {
    if a > b then a else b
  }

  function Min(a: nat, b: nat): nat
  {
    if a < b then a else b
  }

  /** The end of the registers in use: of the top frame's window. */
  function LiveEnd(ci: seq<Frame>, len: nat): (end: nat)
    ensures end <= len
  {
    if |ci| == 0 then len
    else
      var f := ci[|ci| - 1];
      var used := (if f.n == 15 then 1 else f.n) + (if f.kw then 1 else 0) + 2;
      Min(f.base + Max(Max(f.nregs, used), 4), len)
  }

  /** A stack with the slots past `end` set to nil. */
  function Cut(stack: seq<Value>, end: nat): (r: seq<Value>)
    requires end <= |stack|
    ensures |r| == |stack|
  {
    stack[..end] + seq(|stack| - end, _ => Nil)
  }

  lemma {:induction false} IdsOfNils(values: seq<Value>)
    requires forall i :: 0 <= i < |values| ==> values[i] == Nil
    ensures Ids(values) == []
  {
    if |values| > 0 { IdsOfNils(values[1..]); }
  }

  lemma IdsOfCut(stack: seq<Value>, end: nat)
    requires end <= |stack|
    ensures Ids(Cut(stack, end)) == Ids(stack[..end])
  {
    IdsOfConcat(stack[..end], seq(|stack| - end, _ => Nil));
    IdsOfNils(seq(|stack| - end, _ => Nil));
  }

  /** The objects frames name, in the order they are marked. */
  function FrameIds(ci: seq<Frame>): seq<ObjId>
  {
    if |ci| == 0 then []
    else [ci[0].proc, ci[0].targetClass] + Present([ci[0].env]) + FrameIds(ci[1..])
  }

  lemma {:induction false} FrameIdsHas(ci: seq<Frame>, i: nat)
    requires i < |ci|
    ensures ci[i].proc in FrameIds(ci) && ci[i].targetClass in FrameIds(ci)
    ensures ci[i].env.Some? ==> ci[i].env.value in FrameIds(ci)
  {
    if i > 0 { FrameIdsHas(ci[1..], i - 1); }
  }

  predicate HasFrame(ci: seq<Frame>, env: ObjId)
  {
    |ci| > 0 && (ci[|ci| - 1].env == Some(env) || HasFrame(ci[..|ci| - 1], env))
  }

  /** A context with the slots out of use cleared. */
  function Trimmed(ctx: Context): Context
  {
    ctx.(stack := Cut(ctx.stack, LiveEnd(ctx.ci, |ctx.stack|)))
  }

  /** What the registers in use and the frames name. */
  function Registers(stack: seq<Value>, ci: seq<Frame>): seq<ObjId>
  {
    Ids(stack[..LiveEnd(ci, |stack|)]) + FrameIds(ci)
  }

  /** What a context that is not running holds. */
  function CtxHeld(ctx: Context): seq<ObjId>
  {
    Registers(ctx.stack, ctx.ci) + Present([ctx.fib, ctx.proc])
  }

  /** All it names, slots out of use included. */
  function CtxIds(ctx: Context): seq<ObjId>
  {
    Ids(ctx.stack) + FrameIds(ctx.ci) + Present([ctx.fib, ctx.proc])
  }

  predicate Waiting(ctx: Context)
  {
    ctx.status == Running || ctx.status == Resumed || ctx.vmexec
  }

  function WaitingCtxs(contexts: seq<Context>): seq<nat>
  {
    if |contexts| == 0 then []
    else WaitingCtxs(contexts[..|contexts| - 1]) + if Waiting(contexts[|contexts| - 1]) then [|contexts| - 1] else []
  }

  lemma {:induction false} WaitingInRange(contexts: seq<Context>)
    ensures forall c :: c in WaitingCtxs(contexts) ==> c < |contexts|
  {
    if |contexts| > 0 { WaitingInRange(contexts[..|contexts| - 1]); }
  }
}
