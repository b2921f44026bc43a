/** The validator as it runs: one context object per root call, updated in place. */
module Validate {
  import opened SchemaGraph
  import opened Validator
  import opened Paths

  ghost function Names(frames: seq<Frame>): seq<Id> {
    seq(|frames|, i requires 0 <= i < |frames| => frames[i].pair.id)
  }

  lemma NamesPush(frames: seq<Frame>, f: Frame)
    ensures Names(frames + [f]) == Names(frames) + [f.pair.id]
    ensures Names(frames + [f])[..|frames|] == Names(frames)
  {
  }

  class Context {
    const w: World
    var inflight: map<Pair, nat>
    var done: set<Pair>
    var depths: map<Id, nat>
    var pathDepth: nat
    var path: seq<Id>
    ghost var c: Ctx

    /** What holds at every entry and at every exit, whatever the verdict: the fields agree with
        the context of the specification, whose counters and in-flight map agree with its path. */
    ghost predicate Valid()
      reads this
    {
      && w.Ok()
      && Coherent(w, c)
      && inflight == c.inflight
      && depths == c.depths
      && done == Elems(c.finished)
      && pathDepth == |c.frames|
      && path == Names(c.frames)
    }

    constructor (w: World)
      requires w.Ok()
      ensures Valid() && c == EMPTY && this.w == w
    {
      this.w := w;
      inflight, done, depths, pathDepth, path := map[], {}, map[], 0, [];
      c := EMPTY;
    }

    method Enter(p: Pair, viaRef: bool, depth: nat)
      requires Valid() && p in w.Pairs() && p !in inflight && depth == DepthOf(depths, p.id)
      requires viaRef ==> !w.reg[p.id].Capped(depth + 1)
      modifies this
      ensures Valid() && c == Push(old(c), p, viaRef)
    {
      hide Coherent;
      PushCoherent(w, c, p, viaRef);
      NamesPush(c.frames, Frame(p, viaRef));
      if viaRef { depths := depths[p.id := depth + 1]; }
      inflight := inflight[p := pathDepth];
      pathDepth := pathDepth + 1;
      path := path + [p.id];
      c := Push(c, p, viaRef);
    }

    method Leave(p: Pair, viaRef: bool, depth: nat, ghost before: Ctx)
      requires Valid() && Coherent(w, before) && p !in before.inflight
      requires Restored(Push(before, p, viaRef), c) && depth == DepthOf(before.depths, p.id)
      modifies this
      ensures Valid() && c == Pop(old(c), p, viaRef, depth)
    {
      hide Coherent;
      PopCoherent(w, before, p, viaRef, c);
      NamesPush(before.frames, Frame(p, viaRef));
      path := path[..|path| - 1];
      pathDepth := pathDepth - 1;
      inflight := inflight - {p};
      if viaRef { depths := depths[p.id := depth]; }
      c := Pop(c, p, viaRef, depth);
    }

    method Memoize(p: Pair)
      requires Valid()
      modifies this
      ensures Valid() && c == old(c).(finished := old(c).finished + [p])
    {
      done := done + {p};
      c := c.(finished := c.finished + [p]);
    }

    /** Enters a declaration: memo, cycle check and depth cap first, then the walk. */
    method ValidateDecl(id: Id, v: Val, viaRef: bool) returns (verdict: Verdict)
      requires Valid() && id in w.reg && InHeap(w.heap, v)
      modifies this
      ensures Valid() && Outcome(verdict, c) == ValDecl(w, old(c), id, v, viaRef)
      decreases Free(w, c), if v.Obj? then 1 else 0, if v.Obj? then 0 else w.rank[id], if v.Obj? then 0 else 1
    {
      var decl := w.reg[id];
      if v.Prim? {
        verdict := Walk(decl.body, v);
        return;
      }
      var p := Pair(v.addr, id);
      if p in done { return Accept; }
      if p in inflight {
        if decl.cyclic.Acyclic? { return Reject; }
        if decl.cyclic.UpTo? && pathDepth - inflight[p] > decl.cyclic.hops { return Reject; }
        return Accept;
      }
      var depth := DepthOf(depths, id);
      if viaRef && decl.Capped(depth + 1) { return Reject; }
      ghost var before := c;
      assert p in Free(w, c);
      Enter(p, viaRef, depth);
      verdict := Walk(decl.body, v);
      Leave(p, viaRef, depth, before);
      if verdict.Accept? { Memoize(p); }
    }

    /** Dispatches on the keywords of one schema node. */
    method Walk(s: Schema, v: Val) returns (verdict: Verdict)
      requires Valid() && InHeap(w.heap, v)
      modifies this
      ensures Valid() && Outcome(verdict, c) == ValNode(w, old(c), s, v)
      decreases Free(w, c), if v.Obj? then 1 else 0, if v.Obj? then 0 else Bound(w.rank, s), if v.Obj? then 1 else 0, s
    {
      ExpandShrinks(w.heap, s, v);
      match s
      case Ref(t) =>
        if t !in w.reg { return Raise; }
        verdict := ValidateDecl(t, v, true);
      case Embed(t) =>
        if t !in w.reg { return Raise; }
        verdict := ValidateDecl(t, v, false);
      case Node(kind, union, enums, _, _, _, properties, _) =>
        if union.AnyOf? {
          verdict := WalkUnion(s, v);
        } else if enums.Some? {
          verdict := if v.Prim? && v.prim in enums.value then Accept else Reject;
        } else {
          match kind
          case Scalar(accepts) => verdict := if v.Prim? && accepts(v.prim) then Accept else Reject;
          case Permissive => verdict := Accept;
          case ArrayKind => verdict := WalkArray(s, v);
          case ObjectKind => verdict := WalkObject(s, v);
          case Untyped =>
            if properties.NoProperties? { return Accept; }
            verdict := WalkObject(s, v);
        }
    }

    method WalkUnion(s: Schema, v: Val) returns (verdict: Verdict)
      requires Valid() && InHeap(w.heap, v) && s.Node? && s.union.AnyOf?
      modifies this
      ensures Valid() && Outcome(verdict, c) == ValNode(w, old(c), s, v)
      decreases Free(w, c), if v.Obj? then 1 else 0, if v.Obj? then 0 else Bound(w.rank, s), if v.Obj? then 1 else 0,
                s, 0
    {
      ExpandShrinks(w.heap, s, v);
      var arms := s.union.arms;
      ghost var o := ValAny(w, c, s, arms, v);
      for i := 0 to |arms|
        invariant Valid() && Free(w, c) == old(Free(w, c))
        invariant ValAny(w, c, s, arms[i..], v) == o
      {
        verdict := Walk(arms[i], v);
        if !verdict.Reject? { return; }
      }
      verdict := Reject;
    }

    method WalkArray(s: Schema, v: Val) returns (verdict: Verdict)
      requires Valid() && InHeap(w.heap, v)
      requires s.Node? && s.union.NoUnion? && s.enums.None? && s.kind.ArrayKind?
      modifies this
      ensures Valid() && Outcome(verdict, c) == ValNode(w, old(c), s, v)
      decreases Free(w, c), if v.Obj? then 1 else 0, if v.Obj? then 0 else Bound(w.rank, s), if v.Obj? then 1 else 0,
                s, 0
    {
      ExpandShrinks(w.heap, s, v);
      if v.Prim? || w.heap[v.addr].Rec? { return Reject; }
      var elems := w.heap[v.addr].elems;
      if |elems| < s.minItems { return Reject; }
      if s.maxItems.Some? && |elems| > s.maxItems.value { return Reject; }
      if s.items.Some? {
        ghost var tasks := Expand(w.heap, s, v).tasks;
        ghost var o := ValAll(w, c, s, tasks);
        for i := 0 to |elems|
          invariant Valid() && Free(w, c) == old(Free(w, c))
          invariant ValAll(w, c, s, tasks[i..]) == o
        {
          assert tasks[i] in tasks;
          verdict := Walk(s.items.value, elems[i]);
          if !verdict.Accept? { return; }
        }
      }
      verdict := Accept;
    }

    method WalkObject(s: Schema, v: Val) returns (verdict: Verdict)
      requires Valid() && InHeap(w.heap, v)
      requires s.Node? && s.union.NoUnion? && s.enums.None?
      requires s.kind.ObjectKind? || (s.kind.Untyped? && s.properties.Properties?)
      modifies this
      ensures Valid() && Outcome(verdict, c) == ValNode(w, old(c), s, v)
      decreases Free(w, c), if v.Obj? then 1 else 0, if v.Obj? then 0 else Bound(w.rank, s), if v.Obj? then 1 else 0,
                s, 1
    {
      ExpandShrinks(w.heap, s, v);
      hide ValAll, PropertyTasks, World.Ok;
      if v.Prim? { return Reject; }
      var cell := w.heap[v.addr];
      var present := HasEvery(s.required, cell);
      if !present { return Reject; }
      if s.properties.NoProperties? { return Accept; }
      verdict := WalkProperties(s, s.properties.list, cell);
    }

    method WalkProperties(s: Schema, list: seq<Property>, cell: Cell) returns (verdict: Verdict)
      requires Valid() && forall t | t in PropertyTasks(list, cell) :: t.schema < s && InHeap(w.heap, t.val)
      modifies this
      ensures Valid() && Outcome(verdict, c) == ValAll(w, old(c), s, PropertyTasks(list, cell))
      decreases Free(w, c), 1, 0, 1, s, 0
    {
      ghost var o := ValAll(w, c, s, PropertyTasks(list, cell));
      assert list[0..] == list;
      for i := 0 to |list|
        invariant Valid() && Free(w, c) == old(Free(w, c))
        invariant forall t | t in PropertyTasks(list[i..], cell) :: t.schema < s && InHeap(w.heap, t.val)
        invariant ValAll(w, c, s, PropertyTasks(list[i..], cell)) == o
      {
        var x := cell.Get(list[i].key);
        assert list[i..][1..] == list[i + 1..];
        if x.Nullish() { continue; }
        verdict := Walk(list[i].schema, x);
        if !verdict.Accept? { return; }
      }
      verdict := Accept;
    }
  }

  method HasEvery(keys: seq<Key>, cell: Cell) returns (all: bool)
    ensures all == HasRequired(keys, cell)
  {
    for i := 0 to |keys|
      invariant forall k | k in keys[..i] :: !cell.Get(k).Nullish()
    {
      if cell.Get(keys[i]).Nullish() { return false; }
    }
    assert keys[..|keys|] == keys;
    all := true;
  }

  /** `parse`: a fresh context, dropped on return. */
  method Parse(w: World, id: Id, v: Val) returns (verdict: Verdict)
    requires w.Ok() && id in w.reg && InHeap(w.heap, v)
    ensures verdict == Validate(w, id, v).verdict
  {
    var ctx := new Context(w);
    verdict := ctx.ValidateDecl(id, v, false);
  }
}
