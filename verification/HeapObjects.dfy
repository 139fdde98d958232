/** Heap objects and what they refer to. */
module HeapObjects {
  import opened Words

  type ObjId = nat

  /** The class of an object whose own class is filled in later. */
  const NO_CLASS: ObjId := 0xFFFF_FFFF

  datatype Value = Nil | Immediate(n: int) | Obj(id: ObjId)

  /** A stretch of a context's stack: where the values of an attached environment live. */
  datatype Window = Window(ctx: nat, base: nat, len: nat)

  datatype EnvData = EnvData(
    values: seq<Value>, svar: seq<Value>, svarFwd: Option<ObjId>, targetClass: Option<ObjId>,
    attached: bool, window: Window)

  datatype ClassData = ClassData(
    superclass: Option<ObjId>, iclassOf: Option<ObjId>, origin: Option<ObjId>, originOf: Option<ObjId>,
    outer: Option<ObjId>, methods: seq<Option<ObjId>>, consts: seq<Value>, cvars: seq<Value>,
    attached: Value)

  datatype ObjKind =
    | Object | String | Exception | BigInt | Regexp
    | Data(tag: u32, handle: u64)
    | Break(value: Value)
    | Array(elems: seq<Value>)
    | Hash(entries: seq<(Value, Value)>, default: Value)
    | Range(begin: Value, end: Value)
    | Proc(upper: Option<ObjId>, env: Option<ObjId>, targetClass: Option<ObjId>)
    | MatchData(source: Value, regexp: Value)
    | Env(data: EnvData)
    | Class(cls: ClassData)
    | Fiber(context: Option<nat>)
    | Task(context: Option<nat>, name: Value, result: Value, join: Option<ObjId>, queue: Option<ObjId>)

  datatype HeapObject = HeapObject(class_: ObjId, ivars: seq<Value>, kind: ObjKind)

  /** What a freed slot is given. */
  const INERT: HeapObject := HeapObject(0, [], Object)

  function Ids(values: seq<Value>): seq<ObjId>
  {
    if |values| == 0 then [] else (if values[0].Obj? then [values[0].id] else []) + Ids(values[1..])
  }

  function Present(ids: seq<Option<ObjId>>): seq<ObjId>
  {
    if |ids| == 0 then [] else (if ids[0].Some? then [ids[0].value] else []) + Present(ids[1..])
  }

  function Flat(entries: seq<(Value, Value)>): seq<Value>
  {
    if |entries| == 0 then [] else [entries[0].0, entries[0].1] + Flat(entries[1..])
  }

  /** What an environment names besides its values. */
  function ScopeRefs(svar: seq<Value>, svarFwd: Option<ObjId>, targetClass: Option<ObjId>): seq<ObjId>
  {
    Ids(svar) + Present([svarFwd, targetClass])
  }

  /** The references of a kind, in the order they are marked. */
  function KindRefs(kind: ObjKind): seq<ObjId>
  {
    match kind
    case Break(v) => Ids([v])
    case Array(elems) => Ids(elems)
    case Hash(entries, default) => Ids(Flat(entries) + [default])
    case Range(b, e) => Ids([b, e])
    case Proc(upper, env, targetClass) => Present([upper, env, targetClass])
    case MatchData(source, regexp) => Ids([source, regexp])
    case Env(e) => Ids(e.values) + ScopeRefs(e.svar, e.svarFwd, e.targetClass)
    case Class(c) =>
      Present([c.superclass, c.iclassOf, c.origin, c.originOf, c.outer])
      + Present(c.methods) + Ids(c.consts) + Ids(c.cvars) + Ids([c.attached])
    case Task(_, name, result, join, queue) => Ids([name, result]) + Present([join, queue])
    case _ => []
  }

  function Refs(o: HeapObject): seq<ObjId>
  {
    (if o.class_ != NO_CLASS then [o.class_] else []) + Ids(o.ivars) + KindRefs(o.kind)
  }

  /** The context an object keeps. */
  function ContextOf(o: HeapObject): Option<nat>
  {
    if o.kind.Fiber? || o.kind.Task? then o.kind.context else None
  }

  /** The window an attached environment keeps. */
  function WindowOf(o: HeapObject): Option<Window>
  {
    if o.kind.Env? && o.kind.data.attached then Some(o.kind.data.window) else None
  }

  lemma {:induction false} IdsOfConcat(a: seq<Value>, b: seq<Value>)
    ensures Ids(a + b) == Ids(a) + Ids(b)
  {
    if |a| == 0 {
      assert a + b == b;
    } else {
      assert (a + b)[1..] == a[1..] + b && (a + b)[0] == a[0];
      IdsOfConcat(a[1..], b);
      assert Ids(a + b) == (if a[0].Obj? then [a[0].id] else []) + Ids(a[1..] + b);
    }
  }

  lemma {:induction false} PresentOfNone(ids: seq<Option<ObjId>>)
    requires forall i :: 0 <= i < |ids| ==> ids[i] == None
    ensures Present(ids) == []
  {
    if |ids| > 0 { PresentOfNone(ids[1..]); }
  }

  lemma {:induction false} IdsOfPart(values: seq<Value>, from: nat, to: nat, end: nat)
    requires from <= to <= end <= |values|
    ensures forall x :: x in Ids(values[from..to]) ==> x in Ids(values[..end])
  {
    assert values[..end] == values[..from] + values[from..to] + values[to..end];
    IdsOfConcat(values[..from] + values[from..to], values[to..end]);
    IdsOfConcat(values[..from], values[from..to]);
  }

  lemma {:induction false} IdsIff(values: seq<Value>, id: ObjId)
    ensures id in Ids(values) <==> Obj(id) in values
  {
    if |values| > 0 {
      IdsIff(values[1..], id);
      assert values == [values[0]] + values[1..];
    }
  }
}
