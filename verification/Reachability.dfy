/** What a collection may keep: everything reachable from the roots, and how marking finds it. */
module Reachability {
  import opened HeapObjects

  datatype Node = ObjNode(id: ObjId) | CtxNode(ctx: nat)

  /** The heap and the contexts as a graph: for each context the stack its windows are read
      from and the objects it holds. */
  datatype Graph = Graph(
    objs: seq<HeapObject>, stacks: seq<seq<Value>>, held: seq<seq<ObjId>>,
    roots: seq<ObjId>, rootCtxs: seq<nat>)

  /** The values of a window: of a stack shorter than it, what there is. */
  function Slice(stack: seq<Value>, base: nat, len: nat): seq<Value>
  {
    var end := if base + len < |stack| then base + len else |stack|;
    if base < end then stack[base..end] else []
  }

  function WindowRefs(g: Graph, w: Window): seq<ObjId>
  {
    if w.ctx < |g.stacks| then Ids(Slice(g.stacks[w.ctx], w.base, w.len)) else []
  }

  ghost predicate HasAll(s: set<Node>, ids: seq<ObjId>)
  {
    forall x :: x in ids ==> ObjNode(x) in s
  }

  /** What a node leads to is in the set. */
  ghost predicate Follows(g: Graph, s: set<Node>, n: Node)
  {
    match n
    case ObjNode(x) =>
      x < |g.objs| ==>
        var o := g.objs[x];
        && HasAll(s, Refs(o))
        && (ContextOf(o).Some? ==> CtxNode(ContextOf(o).value) in s)
        && (WindowOf(o).Some? ==> HasAll(s, WindowRefs(g, WindowOf(o).value)))
    case CtxNode(c) =>
      c < |g.held| ==> HasAll(s, g.held[c])
  }

  ghost predicate Closed(g: Graph, s: set<Node>)
  {
    && HasAll(s, g.roots)
    && (forall c :: c in g.rootCtxs ==> CtxNode(c) in s)
    && (forall n :: n in s ==> Follows(g, s, n))
  }

  /** Reachable from the roots: in every closed set. */
  ghost predicate Reached(g: Graph, n: Node)
  {
    forall s :: Closed(g, s) ==> n in s
  }

  ghost predicate AllReached(g: Graph, ids: seq<ObjId>)
  {
    forall x :: x in ids ==> Reached(g, ObjNode(x))
  }

  lemma RootsReached(g: Graph)
    ensures AllReached(g, g.roots)
    ensures forall c :: c in g.rootCtxs ==> Reached(g, CtxNode(c))
  {
  }

  lemma ObjectReaches(g: Graph, x: ObjId)
    requires x < |g.objs| && Reached(g, ObjNode(x))
    ensures AllReached(g, Refs(g.objs[x]))
    ensures ContextOf(g.objs[x]).Some? ==> Reached(g, CtxNode(ContextOf(g.objs[x]).value))
    ensures WindowOf(g.objs[x]).Some? ==> AllReached(g, WindowRefs(g, WindowOf(g.objs[x]).value))
  {
    forall s | Closed(g, s) ensures Follows(g, s, ObjNode(x)) {
      assert ObjNode(x) in s;
    }
  }

  lemma ContextReaches(g: Graph, c: nat)
    requires c < |g.held| && Reached(g, CtxNode(c))
    ensures AllReached(g, g.held[c])
  {
    forall s | Closed(g, s) ensures Follows(g, s, CtxNode(c)) {
      assert CtxNode(c) in s;
    }
  }

  // ---------------------------------------------------------------- marks

  /** The two bits of a slot's flag byte. */
  datatype Flags = Flags(marked: bool, free: bool)

  const CLEAR: Flags := Flags(false, false)
  const FREE: Flags := Flags(false, true)

  /** The marks and the stack of grey objects. */
  datatype Marks = Marks(flags: seq<Flags>, work: seq<ObjId>)

  predicate AllLive(flags: seq<Flags>, ids: seq<ObjId>)
  {
    forall x :: x in ids ==> x < |flags| && !flags[x].free
  }

  lemma LiveConcat(flags: seq<Flags>, a: seq<ObjId>, b: seq<ObjId>)
    ensures AllLive(flags, a + b) <==> AllLive(flags, a) && AllLive(flags, b)
  {
    assert AllLive(flags, a + b) ==> forall x :: x in a ==> x in a + b;
    assert AllLive(flags, a + b) ==> forall x :: x in b ==> x in a + b;
  }

  ghost predicate AllMarked(flags: seq<Flags>, ids: seq<ObjId>)
  {
    forall x :: x in ids ==> x < |flags| && flags[x].marked
  }

  function Unmarked(flags: seq<Flags>): nat
  {
    if |flags| == 0 then 0 else (if flags[0].marked then 0 else 1) + Unmarked(flags[1..])
  }

  lemma {:induction false} UnmarkedUpdate(flags: seq<Flags>, x: nat)
    requires x < |flags| && !flags[x].marked
    ensures Unmarked(flags[x := flags[x].(marked := true)]) + 1 == Unmarked(flags)
  {
    var f := flags[x].(marked := true);
    if x == 0 {
      assert flags[0 := f][1..] == flags[1..];
    } else {
      assert flags[x := f][1..] == flags[1..][x - 1 := f];
      UnmarkedUpdate(flags[1..], x - 1);
    }
  }

  function MarkOne(m: Marks, x: ObjId): Marks
  {
    if x < |m.flags| && !m.flags[x].marked
    then Marks(m.flags[x := m.flags[x].(marked := true)], m.work + [x])
    else m
  }

  function MarkAll(m: Marks, ids: seq<ObjId>): Marks
    decreases ids
  {
    if |ids| == 0 then m else MarkAll(MarkOne(m, ids[0]), ids[1..])
  }

  /** What marking `ids` does: exactly they become marked, those that were not go on the
      stack of grey objects, and the objects still to be scanned or marked stay as many. */
  ghost predicate Marked(m: Marks, ids: seq<ObjId>, r: Marks)
  {
    && |r.flags| == |m.flags|
    && (forall x :: 0 <= x < |r.flags| ==> r.flags[x].free == m.flags[x].free)
    && (forall x :: 0 <= x < |r.flags| ==> (r.flags[x].marked <==> m.flags[x].marked || x in ids))
    && (forall x :: x in m.work ==> x in r.work)
    && (forall x :: x in r.work ==> x in m.work || (x in ids && x < |m.flags| && !m.flags[x].marked))
    && (forall x :: 0 <= x < |r.flags| && r.flags[x].marked && !m.flags[x].marked ==> x in r.work)
    && Unmarked(r.flags) + |r.work| == Unmarked(m.flags) + |m.work|
  }

  lemma {:induction false} MarkAllEffect(m: Marks, ids: seq<ObjId>)
    requires forall x :: x in ids ==> x < |m.flags|
    ensures Marked(m, ids, MarkAll(m, ids))
    decreases ids
  {
    if |ids| > 0 {
      var x, mid := ids[0], MarkOne(m, ids[0]);
      assert x in ids && forall y :: y in ids[1..] ==> y in ids;
      if !m.flags[x].marked { UnmarkedUpdate(m.flags, x); }
      assert Marked(m, [x], mid);
      MarkAllEffect(mid, ids[1..]);
      MarkedTrans(m, [x], mid, ids[1..], MarkAll(m, ids));
      assert ids == [x] + ids[1..];
    }
  }

  lemma MarkedTrans(m: Marks, ids: seq<ObjId>, mid: Marks, ids': seq<ObjId>, r: Marks)
    requires Marked(m, ids, mid) && Marked(mid, ids', r)
    ensures Marked(m, ids + ids', r)
  {
    forall x | 0 <= x < |r.flags| && r.flags[x].marked && !m.flags[x].marked ensures x in r.work {
      if mid.flags[x].marked { assert x in mid.work; }
    }
  }

  lemma {:induction false} MarkAllConcat(m: Marks, a: seq<ObjId>, b: seq<ObjId>)
    ensures MarkAll(m, a + b) == MarkAll(MarkAll(m, a), b)
    decreases a
  {
    if |a| == 0 {
      assert a + b == b;
    } else {
      assert (a + b)[1..] == a[1..] + b;
      MarkAllConcat(MarkOne(m, a[0]), a[1..], b);
    }
  }

  // ---------------------------------------------------------------- the graph a collection starts from

  /** Nothing refers to a freed slot or past the table, and what an attached environment's
      window holds its context holds. */
  ghost predicate Sound(g: Graph, flags: seq<Flags>)
  {
    && |flags| == |g.objs| && |g.stacks| == |g.held|
    && AllLive(flags, g.roots)
    && (forall c :: c in g.rootCtxs ==> c < |g.held|)
    && (forall c :: 0 <= c < |g.held| ==> AllLive(flags, g.held[c]))
    && (forall x :: 0 <= x < |flags| && !flags[x].free ==> SoundObject(g, flags, g.objs[x]))
  }

  ghost predicate SoundObject(g: Graph, flags: seq<Flags>, o: HeapObject)
  {
    && AllLive(flags, Refs(o))
    && (ContextOf(o).Some? ==> ContextOf(o).value < |g.held|)
    && (WindowOf(o).Some? ==>
        var w := WindowOf(o).value;
        w.ctx < |g.held| && HeldWindow(g, w))
  }

  ghost predicate HeldWindow(g: Graph, w: Window)
  {
    w.ctx < |g.held| && forall x :: x in WindowRefs(g, w) ==> x in g.held[w.ctx]
  }

  // ---------------------------------------------------------------- the marking loop

  /** The marks, the contexts and windows handed back, and the contexts scanned. */
  datatype Marking = Marking(m: Marks, ctxs: seq<nat>, windows: seq<Window>, scanned: seq<bool>)

  ghost predicate SameFree(flags: seq<Flags>, flags': seq<Flags>)
  {
    |flags| == |flags'| && forall x :: 0 <= x < |flags| ==> flags[x].free == flags'[x].free
  }

  /** A context is scanned or waiting to be. */
  ghost predicate Coming(s: Marking, c: nat)
  {
    c < |s.scanned| && (s.scanned[c] || c in s.ctxs)
  }

  /** Everything an object leads to is marked, or is handed back and waiting. */
  ghost predicate Black(g: Graph, s: Marking, o: HeapObject)
  {
    && AllMarked(s.m.flags, Refs(o))
    && (ContextOf(o).Some? ==> Coming(s, ContextOf(o).value))
    && (WindowOf(o).Some? ==> WindowOf(o).value in s.windows || AllMarked(s.m.flags, WindowRefs(g, WindowOf(o).value)))
  }

  /** Nothing is marked, or waits, that is not reachable. */
  ghost predicate OnlyReached(g: Graph, s: Marking)
  {
    && (forall x :: 0 <= x < |s.m.flags| && s.m.flags[x].marked ==> Reached(g, ObjNode(x)))
    && (forall c :: 0 <= c < |s.scanned| && s.scanned[c] ==> Reached(g, CtxNode(c)))
    && (forall c :: c in s.ctxs ==> c < |s.scanned| && Reached(g, CtxNode(c)))
    && (forall w :: w in s.windows ==> w.ctx < |s.scanned| && AllReached(g, WindowRefs(g, w)))
    && (forall w :: w in s.windows ==> HeldWindow(g, w))
  }

  /** What the marking loop keeps: a marked object that is not grey is black. */
  ghost predicate Tricolor(g: Graph, flags: seq<Flags>, s: Marking)
    requires |s.scanned| == |g.held| && |flags| == |g.objs|
  {
    && SameFree(flags, s.m.flags)
    && (forall x :: x in s.m.work ==> x < |s.m.flags| && s.m.flags[x].marked)
    && (forall x :: 0 <= x < |s.m.flags| && s.m.flags[x].marked && x !in s.m.work ==> Black(g, s, g.objs[x]))
    && (forall c :: 0 <= c < |s.scanned| && s.scanned[c] ==> AllMarked(s.m.flags, g.held[c]))
    && AllMarked(s.m.flags, g.roots)
    && (forall c :: c in g.rootCtxs ==> Coming(s, c))
  }

  ghost predicate MarkInv(g: Graph, flags: seq<Flags>, s: Marking)
  {
    && Sound(g, flags) && |s.scanned| == |g.held|
    && (forall x :: 0 <= x < |s.m.flags| && s.m.flags[x].marked ==> x < |flags| && !flags[x].free)
    && Tricolor(g, flags, s) && OnlyReached(g, s)
  }

  lemma StaysBlack(g: Graph, s: Marking, s': Marking, o: HeapObject)
    requires Black(g, s, o)
    requires |s'.m.flags| == |s.m.flags|
    requires forall x :: 0 <= x < |s.m.flags| && s.m.flags[x].marked ==> s'.m.flags[x].marked
    requires forall c: nat :: Coming(s, c) ==> Coming(s', c)
    requires forall w :: w in s.windows ==> w in s'.windows || AllMarked(s'.m.flags, WindowRefs(g, w))
    ensures Black(g, s', o)
  {
  }

  /** Objects still to be marked or scanned. */
  function Left(s: Marking): nat
  {
    Unmarked(s.m.flags) + |s.m.work|
  }

  /** A step from `s` to `s'` marks `ids`, forgets nothing that waits, and what leaves the
      stack of grey objects or becomes scanned is done. */
  ghost predicate Advances(g: Graph, s: Marking, work: seq<ObjId>, ids: seq<ObjId>, s': Marking)
  {
    && |s'.scanned| == |s.scanned|
    && (forall x :: x in work ==> x in s.m.work)
    && Marked(Marks(s.m.flags, work), ids, s'.m)
    && (forall c: nat :: Coming(s, c) ==> Coming(s', c))
    && (forall w :: w in s.windows ==> w in s'.windows || AllMarked(s'.m.flags, WindowRefs(g, w)))
    && (forall x :: x in s.m.work ==> x in work || (x < |g.objs| && Black(g, s', g.objs[x])))
    && (forall c :: 0 <= c < |s'.scanned| && s'.scanned[c] && !s.scanned[c] ==>
      c < |g.held| && AllMarked(s'.m.flags, g.held[c]))
  }

  lemma AdvanceTricolor(g: Graph, flags: seq<Flags>, s: Marking, work: seq<ObjId>, ids: seq<ObjId>, s': Marking)
    requires |s.scanned| == |g.held| && |flags| == |g.objs|
    requires Tricolor(g, flags, s) && Advances(g, s, work, ids, s')
    ensures Tricolor(g, flags, s')
  {
    hide Unmarked, WindowRefs;
    forall y | 0 <= y < |s'.m.flags| && s'.m.flags[y].marked && y !in s'.m.work ensures Black(g, s', g.objs[y]) {
      assert y !in work && s.m.flags[y].marked;
      if y !in s.m.work { StaysBlack(g, s, s', g.objs[y]); }
    }
    forall c | 0 <= c < |s'.scanned| && s'.scanned[c] ensures AllMarked(s'.m.flags, g.held[c]) {
      if s.scanned[c] { assert AllMarked(s.m.flags, g.held[c]); }
    }
  }

  /** What the loop has found so far is reachable, whatever list it is on. */
  lemma AdvanceReached(g: Graph, s: Marking, work: seq<ObjId>, ids: seq<ObjId>, s': Marking)
    requires OnlyReached(g, s) && |s'.scanned| == |s.scanned|
    requires Marked(Marks(s.m.flags, work), ids, s'.m) && AllReached(g, ids)
    requires forall c :: 0 <= c < |s'.scanned| && s'.scanned[c] ==> s.scanned[c] || Reached(g, CtxNode(c))
    requires forall c :: c in s'.ctxs ==> c in s.ctxs || (c < |s.scanned| && Reached(g, CtxNode(c)))
    requires forall w :: w in s'.windows ==>
      w in s.windows || (w.ctx < |s.scanned| && AllReached(g, WindowRefs(g, w)) && HeldWindow(g, w))
    ensures OnlyReached(g, s')
  {
    hide Reached, Unmarked, WindowRefs;
  }

  lemma PopParts<T>(s: seq<T>)
    requires |s| > 0
    ensures s[|s| - 1] in s
    ensures forall x :: x in s <==> x in s[..|s| - 1] || x == s[|s| - 1]
  {
    assert s == s[..|s| - 1] + [s[|s| - 1]];
  }

  /** One grey object: what it refers to is marked, its context and window handed back. */
  function Drained(s: Marking, o: HeapObject): Marking
    requires |s.m.work| > 0
  {
    Marking(MarkAll(Marks(s.m.flags, s.m.work[..|s.m.work| - 1]), Refs(o)),
            s.ctxs + (if ContextOf(o).Some? then [ContextOf(o).value] else []),
            s.windows + (if WindowOf(o).Some? then [WindowOf(o).value] else []),
            s.scanned)
  }

  /** The object taken off the stack is black once it is drained; nothing else is lost. */
  lemma DrainAdvances(g: Graph, s: Marking, x: ObjId, work: seq<ObjId>)
    requires |s.m.work| > 0 && x == s.m.work[|s.m.work| - 1] && work == s.m.work[..|s.m.work| - 1]
    requires x < |g.objs| && |s.scanned| == |g.held| && |s.m.flags| == |g.objs|
    requires forall y :: y in Refs(g.objs[x]) ==> y < |s.m.flags|
    requires ContextOf(g.objs[x]).Some? ==> ContextOf(g.objs[x]).value < |g.held|
    ensures Advances(g, s, work, Refs(g.objs[x]), Drained(s, g.objs[x]))
  {
    hide Unmarked, KindRefs, WindowRefs, Refs;
    PopParts(s.m.work);
    MarkAllEffect(Marks(s.m.flags, work), Refs(g.objs[x]));
  }

  lemma DrainStep(g: Graph, flags: seq<Flags>, s: Marking)
    requires MarkInv(g, flags, s) && |s.m.work| > 0
    ensures var x := s.m.work[|s.m.work| - 1];
      && x < |g.objs| && AllLive(s.m.flags, Refs(g.objs[x]))
      && MarkInv(g, flags, Drained(s, g.objs[x]))
      && Left(Drained(s, g.objs[x])) < Left(s)
  {
    hide Reached, Unmarked, KindRefs, WindowRefs, Refs, Black, HeldWindow, MarkAll;
    PopParts(s.m.work);
    var x, work := s.m.work[|s.m.work| - 1], s.m.work[..|s.m.work| - 1];
    var o := g.objs[x];
    var s' := Drained(s, o);
    assert SoundObject(g, flags, o);
    ObjectReaches(g, x);
    DrainAdvances(g, s, x, work);
    AdvanceTricolor(g, flags, s, work, Refs(o), s');
    AdvanceReached(g, s, work, Refs(o), s');
  }

  /** A context handed back: skipped if scanned already, else what it holds is marked. */
  function Scanned(g: Graph, s: Marking): Marking
    requires |s.ctxs| > 0 && |s.scanned| == |g.held|
  {
    var c, rest := s.ctxs[|s.ctxs| - 1], s.ctxs[..|s.ctxs| - 1];
    if c < |s.scanned| && !s.scanned[c]
      then s.(m := MarkAll(s.m, g.held[c]), ctxs := rest, scanned := s.scanned[c := true])
    else s.(ctxs := rest)
  }

  lemma ScanAdvances(g: Graph, s: Marking, c: nat, ids: seq<ObjId>)
    requires |s.ctxs| > 0 && c == s.ctxs[|s.ctxs| - 1] && c < |s.scanned| && |s.scanned| == |g.held|
    requires ids == if s.scanned[c] then [] else g.held[c]
    requires forall y :: y in ids ==> y < |s.m.flags|
    ensures Advances(g, s, s.m.work, ids, Scanned(g, s))
  {
    hide Unmarked, WindowRefs;
    PopParts(s.ctxs);
    MarkAllEffect(s.m, ids);
  }

  lemma ScanStep(g: Graph, flags: seq<Flags>, s: Marking)
    requires MarkInv(g, flags, s) && |s.ctxs| > 0
    ensures var c := s.ctxs[|s.ctxs| - 1];
      && c < |s.scanned| && AllLive(s.m.flags, g.held[c])
      && MarkInv(g, flags, Scanned(g, s)) && Left(Scanned(g, s)) == Left(s)
  {
    hide Reached, Unmarked, WindowRefs, Black, HeldWindow, MarkAll, SoundObject;
    PopParts(s.ctxs);
    var c := s.ctxs[|s.ctxs| - 1];
    var s' := Scanned(g, s);
    var ids := if s.scanned[c] then [] else g.held[c];
    ContextReaches(g, c);
    ScanAdvances(g, s, c, ids);
    AdvanceTricolor(g, flags, s, s.m.work, ids, s');
    AdvanceReached(g, s, s.m.work, ids, s');
  }

  /** A window handed back: skipped if its context is scanned, else its values are marked. */
  function Windowed(g: Graph, s: Marking): Marking
    requires |s.windows| > 0
  {
    var w, rest := s.windows[|s.windows| - 1], s.windows[..|s.windows| - 1];
    if w.ctx < |s.scanned| && !s.scanned[w.ctx] then s.(m := MarkAll(s.m, WindowRefs(g, w)), windows := rest)
    else s.(windows := rest)
  }

  lemma WindowAdvances(g: Graph, s: Marking, w: Window, ids: seq<ObjId>)
    requires |s.windows| > 0 && w == s.windows[|s.windows| - 1] && w.ctx < |s.scanned| && |s.scanned| == |g.held|
    requires ids == if s.scanned[w.ctx] then [] else WindowRefs(g, w)
    requires forall y :: y in ids ==> y < |s.m.flags|
    requires s.scanned[w.ctx] ==> AllMarked(s.m.flags, WindowRefs(g, w))
    ensures Advances(g, s, s.m.work, ids, Windowed(g, s))
  {
    hide Unmarked, WindowRefs;
    PopParts(s.windows);
    MarkAllEffect(s.m, ids);
  }

  lemma WindowStep(g: Graph, flags: seq<Flags>, s: Marking)
    requires MarkInv(g, flags, s) && |s.windows| > 0
    ensures var w := s.windows[|s.windows| - 1];
      && w.ctx < |s.scanned| && AllLive(s.m.flags, WindowRefs(g, w))
      && MarkInv(g, flags, Windowed(g, s)) && Left(Windowed(g, s)) == Left(s)
  {
    hide Reached, Unmarked, WindowRefs, Black, MarkAll, SoundObject;
    PopParts(s.windows);
    var w := s.windows[|s.windows| - 1];
    var s' := Windowed(g, s);
    assert HeldWindow(g, w) && AllLive(flags, g.held[w.ctx]);
    if s.scanned[w.ctx] { assert AllMarked(s.m.flags, g.held[w.ctx]); }
    var ids := if s.scanned[w.ctx] then [] else WindowRefs(g, w);
    WindowAdvances(g, s, w, ids);
    AdvanceTricolor(g, flags, s, s.m.work, ids, s');
    AdvanceReached(g, s, s.m.work, ids, s');
  }

  /** Marks on exactly the reachable objects, scans of exactly the reachable contexts. */
  ghost predicate Exact(g: Graph, marks: seq<Flags>, scanned: seq<bool>)
  {
    && |marks| == |g.objs| && |scanned| == |g.held|
    && (forall x :: 0 <= x < |marks| ==> (marks[x].marked <==> Reached(g, ObjNode(x))))
    && (forall c :: 0 <= c < |scanned| ==> (scanned[c] <==> Reached(g, CtxNode(c))))
  }

  /** What is marked and what is scanned, as nodes. */
  ghost function Found(s: Marking): set<Node>
  {
    (set x | 0 <= x < |s.m.flags| && s.m.flags[x].marked :: ObjNode(x))
    + (set c | 0 <= c < |s.scanned| && s.scanned[c] :: CtxNode(c))
  }

  lemma FoundIsClosed(g: Graph, flags: seq<Flags>, s: Marking)
    requires |s.scanned| == |g.held| && |flags| == |g.objs| && Tricolor(g, flags, s)
    requires s.m.work == [] && s.ctxs == [] && s.windows == []
    ensures Closed(g, Found(s))
  {
    hide Refs, WindowRefs;
    forall n | n in Found(s) ensures Follows(g, Found(s), n) {
      match n
      case ObjNode(x) =>
        assert Black(g, s, g.objs[x]);
      case CtxNode(c) =>
        assert AllMarked(s.m.flags, g.held[c]);
    }
  }

  /** When nothing waits any more, the marked objects and the scanned contexts are exactly the
      reachable ones. */
  lemma MarkedIsReached(g: Graph, flags: seq<Flags>, s: Marking)
    requires MarkInv(g, flags, s) && s.m.work == [] && s.ctxs == [] && s.windows == []
    ensures Exact(g, s.m.flags, s.scanned)
  {
    hide Closed, SoundObject, Black, AllReached;
    FoundIsClosed(g, flags, s);
  }

  lemma ReachedAreMarked(g: Graph, flags: seq<Flags>, marks: seq<Flags>, scanned: seq<bool>, ids: seq<ObjId>)
    requires Exact(g, marks, scanned) && |flags| == |marks| && AllLive(flags, ids) && AllReached(g, ids)
    ensures AllMarked(marks, ids)
  {
    hide Reached;
  }

  /** What is kept leads only to what is kept. */
  lemma KeptIsClosed(g: Graph, flags: seq<Flags>, marks: seq<Flags>, scanned: seq<bool>)
    requires Sound(g, flags) && Exact(g, marks, scanned)
    ensures AllMarked(marks, g.roots) && forall c :: c in g.rootCtxs ==> scanned[c]
    ensures forall c :: 0 <= c < |scanned| && scanned[c] ==> AllMarked(marks, g.held[c])
    ensures forall x :: 0 <= x < |marks| && marks[x].marked && !flags[x].free ==> Closes(g, marks, scanned, g.objs[x])
  {
    RootsReached(g);
    hide Reached, WindowRefs, Refs;
    ReachedAreMarked(g, flags, marks, scanned, g.roots);
    forall c | 0 <= c < |scanned| && scanned[c] ensures AllMarked(marks, g.held[c]) {
      ContextReaches(g, c);
      ReachedAreMarked(g, flags, marks, scanned, g.held[c]);
    }
    forall x | 0 <= x < |marks| && marks[x].marked && !flags[x].free ensures Closes(g, marks, scanned, g.objs[x]) {
      var o := g.objs[x];
      assert SoundObject(g, flags, o);
      ObjectReaches(g, x);
      ReachedAreMarked(g, flags, marks, scanned, Refs(o));
      if WindowOf(o).Some? {
        var w := WindowOf(o).value;
        assert HeldWindow(g, w) && AllLive(flags, g.held[w.ctx]);
        ReachedAreMarked(g, flags, marks, scanned, WindowRefs(g, w));
      }
    }
  }

  ghost predicate Closes(g: Graph, marks: seq<Flags>, scanned: seq<bool>, o: HeapObject)
  {
    && AllMarked(marks, Refs(o))
    && (ContextOf(o).Some? ==> ContextOf(o).value < |scanned| && scanned[ContextOf(o).value])
    && (WindowOf(o).Some? ==> WindowOf(o).value.ctx < |scanned| && AllMarked(marks, WindowRefs(g, WindowOf(o).value)))
  }
}
