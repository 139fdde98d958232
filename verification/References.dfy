/** What refers to what, field by field, and reachability along such references: the reference
    that the marked lists of the collector are held against. */
module References {
  import opened Words
  import opened HeapObjects
  import opened Contexts
  import opened Reachability

  // ---------------------------------------------------------------- one object

  /** A field of this kind of object names `y`. */
  ghost predicate KindNames(kind: ObjKind, y: ObjId)
  {
    match kind
    case Break(v) => v == Obj(y)
    case Array(elems) => Obj(y) in elems
    case Hash(entries, default) => default == Obj(y) || exists e :: e in entries && (e.0 == Obj(y) || e.1 == Obj(y))
    case Range(b, e) => b == Obj(y) || e == Obj(y)
    case Proc(upper, env, targetClass) => upper == Some(y) || env == Some(y) || targetClass == Some(y)
    case MatchData(source, regexp) => source == Obj(y) || regexp == Obj(y)
    case Env(e) => Obj(y) in e.values || Obj(y) in e.svar || e.svarFwd == Some(y) || e.targetClass == Some(y)
    case Class(c) =>
      || c.superclass == Some(y) || c.iclassOf == Some(y) || c.origin == Some(y) || c.originOf == Some(y)
      || c.outer == Some(y) || Some(y) in c.methods || Obj(y) in c.consts || Obj(y) in c.cvars || c.attached == Obj(y)
    case Task(_, name, result, join, queue) =>
      name == Obj(y) || result == Obj(y) || join == Some(y) || queue == Some(y)
    case Object => false
    case String => false
    case Exception => false
    case BigInt => false
    case Regexp => false
    case Data(_, _) => false
    case Fiber(_) => false
  }

  /** The object names `y`: as its class, unless that is still to be filled in, in an instance
      variable, or in a field of its kind. */
  ghost predicate Names(o: HeapObject, y: ObjId)
  {
    (o.class_ == y && y != 0xFFFF_FFFF) || Obj(y) in o.ivars || KindNames(o.kind, y)
  }

  lemma {:induction false} PresentIff(ids: seq<Option<ObjId>>, y: ObjId)
    ensures y in Present(ids) <==> Some(y) in ids
  {
    if |ids| > 0 {
      PresentIff(ids[1..], y);
      assert ids == [ids[0]] + ids[1..];
    }
  }

  lemma {:induction false} FlatIff(entries: seq<(Value, Value)>, y: ObjId)
    ensures y in Ids(Flat(entries)) <==> exists e :: e in entries && (e.0 == Obj(y) || e.1 == Obj(y))
  {
    if |entries| > 0 {
      FlatIff(entries[1..], y);
      IdsOfConcat([entries[0].0, entries[0].1], Flat(entries[1..]));
      IdsIff([entries[0].0, entries[0].1], y);
      assert entries == [entries[0]] + entries[1..];
    }
  }

  lemma EnvRefsExact(e: EnvData, y: ObjId)
    ensures y in KindRefs(Env(e)) <==> KindNames(Env(e), y)
  {
    IdsIff(e.values, y);
    IdsIff(e.svar, y);
    PresentIff([e.svarFwd, e.targetClass], y);
  }

  lemma ClassRefsExact(c: ClassData, y: ObjId)
    ensures y in KindRefs(Class(c)) <==> KindNames(Class(c), y)
  {
    PresentIff([c.superclass, c.iclassOf, c.origin, c.originOf, c.outer], y);
    PresentIff(c.methods, y);
    IdsIff(c.consts, y);
    IdsIff(c.cvars, y);
    IdsIff([c.attached], y);
  }

  lemma KindRefsExact(kind: ObjKind, y: ObjId)
    ensures y in KindRefs(kind) <==> KindNames(kind, y)
  {
    match kind
    case Break(v) => IdsIff([v], y);
    case Array(elems) => IdsIff(elems, y);
    case Hash(entries, default) =>
      FlatIff(entries, y);
      IdsOfConcat(Flat(entries), [default]);
      IdsIff([default], y);
    case Range(b, e) => IdsIff([b, e], y);
    case Proc(upper, env, targetClass) => PresentIff([upper, env, targetClass], y);
    case MatchData(source, regexp) => IdsIff([source, regexp], y);
    case Env(e) => EnvRefsExact(e, y);
    case Class(c) => ClassRefsExact(c, y);
    case Task(_, name, result, join, queue) =>
      IdsIff([name, result], y);
      PresentIff([join, queue], y);
    case _ =>
  }

  /** What is marked for an object is what its fields name. */
  lemma RefsExact(o: HeapObject, y: ObjId)
    ensures y in Refs(o) <==> Names(o, y)
  {
    hide KindRefs, KindNames;
    KindRefsExact(o.kind, y);
    IdsIff(o.ivars, y);
  }

  // ---------------------------------------------------------------- registers in use

  /** Register `i` belongs to the top frame: one of its code's, one of the receiver's, the
      arguments', the keywords' and the block's, or one of the first four. */
  predicate RegisterInUse(ci: seq<Frame>, i: nat)
  {
    |ci| == 0 ||
    var f := ci[|ci| - 1];
    || i < f.base + f.nregs
    || i < f.base + 4
    || i < f.base + (if f.n == 15 then 1 else f.n) + (if f.kw then 1 else 0) + 2
  }

  lemma LiveEndExact(ci: seq<Frame>, len: nat, i: nat)
    ensures i < LiveEnd(ci, len) <==> i < len && RegisterInUse(ci, i)
  {
  }

  /** A context with its slots out of use cleared is otherwise as it was. */
  lemma TrimmedExact(ctx: Context, i: nat)
    ensures Trimmed(ctx) == ctx.(stack := Trimmed(ctx).stack) && |Trimmed(ctx).stack| == |ctx.stack|
    ensures i < |ctx.stack| ==> Trimmed(ctx).stack[i] == if RegisterInUse(ctx.ci, i) then ctx.stack[i] else Nil
  {
    LiveEndExact(ctx.ci, |ctx.stack|, i);
  }

  lemma {:induction false} FrameIdsExact(ci: seq<Frame>, y: ObjId)
    ensures y in FrameIds(ci) <==>
      exists f :: f in ci && (f.proc == y || f.targetClass == y || f.env == Some(y))
  {
    if |ci| > 0 {
      FrameIdsExact(ci[1..], y);
      PresentIff([ci[0].env], y);
      assert ci == [ci[0]] + ci[1..];
    }
  }

  lemma {:induction false} HasFrameExact(ci: seq<Frame>, x: ObjId)
    ensures HasFrame(ci, x) <==> exists f :: f in ci && f.env == Some(x)
  {
    if |ci| > 0 {
      HasFrameExact(ci[..|ci| - 1], x);
      assert ci == ci[..|ci| - 1] + [ci[|ci| - 1]];
    }
  }

  /** A register in use of this stack holds `y`, or a frame names it. */
  ghost predicate StackNames(stack: seq<Value>, ci: seq<Frame>, y: ObjId)
  {
    || (exists i: nat :: i < |stack| && RegisterInUse(ci, i) && stack[i] == Obj(y))
    || (exists f :: f in ci && (f.proc == y || f.targetClass == y || f.env == Some(y)))
  }

  lemma RegistersExact(stack: seq<Value>, ci: seq<Frame>, y: ObjId)
    ensures y in Registers(stack, ci) <==> StackNames(stack, ci, y)
  {
    var live := stack[..LiveEnd(ci, |stack|)];
    IdsIff(live, y);
    FrameIdsExact(ci, y);
    hide LiveEnd, RegisterInUse;
    if Obj(y) in live {
      var i :| 0 <= i < |live| && live[i] == Obj(y);
      LiveEndExact(ci, |stack|, i);
      assert stack[i] == Obj(y);
    }
    if i: nat :| i < |stack| && RegisterInUse(ci, i) && stack[i] == Obj(y) {
      LiveEndExact(ci, |stack|, i);
      assert live[i] == Obj(y);
    }
  }

  /** A context that runs or waits for one it resumed, or was resumed by native code. */
  predicate IsWaiting(contexts: seq<Context>, c: nat)
  {
    c < |contexts| && (contexts[c].status == Running || contexts[c].status == Resumed || contexts[c].vmexec)
  }

  lemma {:induction false} WaitingExact(contexts: seq<Context>, c: nat)
    ensures c in WaitingCtxs(contexts) <==> IsWaiting(contexts, c)
  {
    if |contexts| > 0 { WaitingExact(contexts[..|contexts| - 1], c); }
  }

  // ---------------------------------------------------------------- paths

  /** Slot `i` of the window, if the stack has it, holds `y`. */
  ghost predicate WindowNames(g: Graph, w: Window, y: ObjId)
  {
    w.ctx < |g.stacks| &&
    exists i: nat :: w.base <= i < w.base + w.len && i < |g.stacks[w.ctx]| && g.stacks[w.ctx][i] == Obj(y)
  }

  lemma WindowRefsExact(g: Graph, w: Window, y: ObjId)
    ensures y in WindowRefs(g, w) <==> WindowNames(g, w, y)
  {
    if w.ctx < |g.stacks| {
      var st := g.stacks[w.ctx];
      var s := Slice(st, w.base, w.len);
      IdsIff(s, y);
      if Obj(y) in s {
        var i :| 0 <= i < |s| && s[i] == Obj(y);
        assert st[w.base + i] == Obj(y);
      }
      if i: nat :| w.base <= i < w.base + w.len && i < |st| && st[i] == Obj(y) {
        assert s[i - w.base] == Obj(y);
      }
    }
  }

  /** One step: from an object to what it names, to the context it keeps, and to what is in its
      window while it is attached; from a context to what it holds. */
  ghost predicate Leads(g: Graph, n: Node, m: Node)
  {
    match n
    case ObjNode(x) =>
      x < |g.objs| &&
      var o := g.objs[x];
      (match m
       case ObjNode(y) =>
         Names(o, y) || (o.kind.Env? && o.kind.data.attached && WindowNames(g, o.kind.data.window, y))
       case CtxNode(c) => KeepsContext(o, c))
    case CtxNode(c) =>
      m.ObjNode? && c < |g.held| && m.id in g.held[c]
  }

  /** A Fiber or a Task of this context. */
  predicate KeepsContext(o: HeapObject, c: nat)
  {
    (o.kind.Fiber? || o.kind.Task?) && o.kind.context == Some(c)
  }

  ghost predicate IsRootNode(g: Graph, n: Node)
  {
    match n
    case ObjNode(x) => x in g.roots
    case CtxNode(c) => c in g.rootCtxs
  }

  /** A path along references from a root. */
  ghost predicate IsPath(g: Graph, p: seq<Node>)
  {
    |p| > 0 && IsRootNode(g, p[0]) && forall i :: 0 < i < |p| ==> Leads(g, p[i - 1], p[i])
  }

  ghost predicate ByPath(g: Graph, n: Node)
  {
    exists p :: IsPath(g, p) && p[|p| - 1] == n
  }

  lemma LeadsFollows(g: Graph, s: set<Node>, n: Node, m: Node)
    requires Follows(g, s, n) && Leads(g, n, m)
    ensures m in s
  {
    hide Names, Refs, WindowRefs, WindowNames;
    if n.ObjNode? && m.ObjNode? {
      var o := g.objs[n.id];
      RefsExact(o, m.id);
      if WindowOf(o).Some? { WindowRefsExact(g, WindowOf(o).value, m.id); }
    }
  }

  lemma {:induction false} PathStays(g: Graph, p: seq<Node>, s: set<Node>)
    requires IsPath(g, p) && Closed(g, s)
    ensures p[|p| - 1] in s
    decreases |p|
  {
    hide Leads, Follows;
    if |p| > 1 {
      var short := p[..|p| - 1];
      PathStays(g, short, s);
      assert Leads(g, p[|p| - 2], p[|p| - 1]) && short[|short| - 1] == p[|p| - 2];
      LeadsFollows(g, s, p[|p| - 2], p[|p| - 1]);
    }
  }

  lemma PathLonger(g: Graph, n: Node, m: Node)
    requires ByPath(g, n) && Leads(g, n, m)
    ensures ByPath(g, m)
  {
    hide Leads;
    var p :| IsPath(g, p) && p[|p| - 1] == n;
    var q := p + [m];
    forall i | 0 < i < |q| ensures Leads(g, q[i - 1], q[i]) {
      if i < |p| { assert Leads(g, p[i - 1], p[i]); }
    }
    assert IsPath(g, q) && q[|q| - 1] == m;
  }

  lemma RootByPath(g: Graph, n: Node)
    requires IsRootNode(g, n)
    ensures ByPath(g, n)
  {
    assert IsPath(g, [n]) && [n][|[n]| - 1] == n;
  }

  /** The nodes with a path to them, as a set. */
  ghost function OnPaths(g: Graph, flags: seq<Flags>): set<Node>
  {
    (set x | 0 <= x < |flags| && !flags[x].free && ByPath(g, ObjNode(x)) :: ObjNode(x))
    + (set c | 0 <= c < |g.held| && ByPath(g, CtxNode(c)) :: CtxNode(c))
  }

  lemma ObjectFollows(g: Graph, flags: seq<Flags>, x: ObjId)
    requires Sound(g, flags) && ObjNode(x) in OnPaths(g, flags)
    ensures Follows(g, OnPaths(g, flags), ObjNode(x))
  {
    var o := g.objs[x];
    assert SoundObject(g, flags, o);
    hide Names, Refs, WindowRefs, WindowNames, ByPath;
    forall y | y in Refs(o) ensures ObjNode(y) in OnPaths(g, flags) {
      RefsExact(o, y);
      PathLonger(g, ObjNode(x), ObjNode(y));
    }
    if ContextOf(o).Some? { PathLonger(g, ObjNode(x), CtxNode(ContextOf(o).value)); }
    if WindowOf(o).Some? {
      var w := WindowOf(o).value;
      forall y | y in WindowRefs(g, w) ensures ObjNode(y) in OnPaths(g, flags) {
        WindowRefsExact(g, w, y);
        PathLonger(g, ObjNode(x), ObjNode(y));
      }
    }
  }

  lemma OnPathsIsClosed(g: Graph, flags: seq<Flags>)
    requires Sound(g, flags)
    ensures Closed(g, OnPaths(g, flags))
  {
    hide ByPath, Names, SoundObject;
    var s := OnPaths(g, flags);
    forall x | x in g.roots ensures ObjNode(x) in s {
      RootByPath(g, ObjNode(x));
    }
    forall c | c in g.rootCtxs ensures CtxNode(c) in s {
      RootByPath(g, CtxNode(c));
    }
    forall n | n in s ensures Follows(g, s, n) {
      match n
      case ObjNode(x) =>
        ObjectFollows(g, flags, x);
      case CtxNode(c) =>
        assert AllLive(flags, g.held[c]);
        forall y | y in g.held[c] ensures ObjNode(y) in s {
          PathLonger(g, n, ObjNode(y));
        }
    }
  }

  /** Reachable, as the collector's proofs take it, is reachable along a path of references. */
  lemma ReachedIsByPath(g: Graph, flags: seq<Flags>, n: Node)
    requires Sound(g, flags)
    ensures Reached(g, n) <==> ByPath(g, n)
  {
    if ByPath(g, n) {
      var p :| IsPath(g, p) && p[|p| - 1] == n;
      forall s | Closed(g, s) ensures n in s {
        PathStays(g, p, s);
      }
    }
    if Reached(g, n) {
      hide ByPath, IsPath;
      OnPathsIsClosed(g, flags);
      assert n in OnPaths(g, flags);
    }
  }
}
