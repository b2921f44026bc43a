/** The path of the validator's walk, and the counters that go with it. */
module Paths {
  import opened SchemaGraph
  import opened Validator

  /** The number of frames of declaration `id` that a `$ref` entered. */
  ghost function RefEntries(frames: seq<Frame>, id: Id): nat {
    if frames == [] then 0
    else
      var last := frames[|frames| - 1];
      RefEntries(frames[..|frames| - 1], id) + (if last.viaRef && last.pair.id == id then 1 else 0)
  }

  /** The in-flight map is the path. */
  ghost predicate OnPath(w: World, frames: seq<Frame>, inflight: map<Pair, nat>) {
    && (forall i | 0 <= i < |frames| ::
          frames[i].pair in w.Pairs() && frames[i].pair in inflight && inflight[frames[i].pair] == i)
    && (forall p | p in inflight :: inflight[p] < |frames| && frames[inflight[p]].pair == p)
  }

  /** Each counter counts the path. */
  ghost predicate Counted(frames: seq<Frame>, depths: map<Id, nat>) {
    forall id :: DepthOf(depths, id) == RefEntries(frames, id)
  }

  /** No declaration is nested beyond its cap. */
  ghost predicate WithinCaps(w: World, frames: seq<Frame>) {
    forall id | id in w.reg :: !w.reg[id].Capped(RefEntries(frames, id))
  }

  ghost predicate Coherent(w: World, c: Ctx) {
    OnPath(w, c.frames, c.inflight) && Counted(c.frames, c.depths) && WithinCaps(w, c.frames)
  }

  lemma PushCoherent(w: World, c: Ctx, p: Pair, viaRef: bool)
    requires Coherent(w, c) && p in w.Pairs() && p !in c.inflight
    requires viaRef ==> !w.reg[p.id].Capped(DepthOf(c.depths, p.id) + 1)
    ensures Coherent(w, Push(c, p, viaRef))
  {
    var c' := Push(c, p, viaRef);
    assert c'.frames[..|c'.frames| - 1] == c.frames;
    forall id ensures DepthOf(c'.depths, id) == RefEntries(c'.frames, id) {
      assert DepthOf(c.depths, id) == RefEntries(c.frames, id);
    }
    forall id | id in w.reg ensures !w.reg[id].Capped(RefEntries(c'.frames, id)) {
      assert DepthOf(c.depths, id) == RefEntries(c.frames, id);
    }
  }

  lemma PopCoherent(w: World, c: Ctx, p: Pair, viaRef: bool, inner: Ctx)
    requires Coherent(w, c) && p !in c.inflight && Restored(Push(c, p, viaRef), inner) && Coherent(w, inner)
    ensures var c' := Pop(inner, p, viaRef, DepthOf(c.depths, p.id));
            Coherent(w, c') && c'.frames == c.frames && c'.inflight == c.inflight
  {
    hide OnPath, Counted, WithinCaps;
    var c' := Pop(inner, p, viaRef, DepthOf(c.depths, p.id));
    assert c'.frames == c.frames;
    assert c'.inflight == c.inflight;
    PopCounted(c.frames, c.depths, p, viaRef, inner.depths);
  }

  lemma PopCounted(frames: seq<Frame>, depths: map<Id, nat>, p: Pair, viaRef: bool, inner: map<Id, nat>)
    requires Counted(frames, depths) && Counted(frames + [Frame(p, viaRef)], inner)
    ensures Counted(frames, if viaRef then inner[p.id := DepthOf(depths, p.id)] else inner)
  {
    var deep := frames + [Frame(p, viaRef)];
    assert deep[..|deep| - 1] == frames;
    var depths' := if viaRef then inner[p.id := DepthOf(depths, p.id)] else inner;
    forall id ensures DepthOf(depths', id) == RefEntries(frames, id) {
      assert DepthOf(inner, id) == RefEntries(deep, id);
      assert DepthOf(depths, id) == RefEntries(frames, id);
    }
  }

  lemma EmptyCoherent(w: World)
    ensures Coherent(w, EMPTY)
  {
  }

  // ---------- The walk keeps the counters in step with the path, whatever its verdict ----------

  lemma {:induction false} DeclCoherent(w: World, c: Ctx, id: Id, v: Val, viaRef: bool)
    requires w.Ok() && id in w.reg && InHeap(w.heap, v) && Coherent(w, c)
    ensures Coherent(w, ValDecl(w, c, id, v, viaRef).ctx)
    decreases Free(w, c), if v.Obj? then 1 else 0, if v.Obj? then 0 else w.rank[id], if v.Obj? then 0 else 1
  {
    hide Coherent;
    if v.Obj? {
      var p := Pair(v.addr, id);
      if Gate(w.reg[id], c, p, viaRef).None? {
        assert p in Free(w, c);
        var c' := Push(c, p, viaRef);
        PushCoherent(w, c, p, viaRef);
        NodeCoherent(w, c', w.reg[id].body, v);
        var inner := ValNode(w, c', w.reg[id].body, v).ctx;
        PopCoherent(w, c, p, viaRef, inner);
        MemoCoherent(w, Pop(inner, p, viaRef, DepthOf(c.depths, id)), p);
      }
    }
  }

  lemma MemoCoherent(w: World, c: Ctx, p: Pair)
    requires Coherent(w, c)
    ensures Coherent(w, c.(finished := c.finished + [p]))
  {
  }

  lemma {:induction false} NodeCoherent(w: World, c: Ctx, s: Schema, v: Val)
    requires w.Ok() && InHeap(w.heap, v) && Coherent(w, c)
    ensures Coherent(w, ValNode(w, c, s, v).ctx)
    decreases Free(w, c), if v.Obj? then 1 else 0, if v.Obj? then 0 else Bound(w.rank, s), if v.Obj? then 1 else 0, s
  {
    hide Coherent;
    ExpandShrinks(w.heap, s, v);
    match Expand(w.heap, s, v)
    case Leaf(_) =>
    case All(tasks) => AllCoherent(w, c, s, tasks);
    case Any(arms) => if v.Obj? { AnyCoherent(w, c, s, arms, v); }
    case Enter(id, viaRef) => if id in w.reg { DeclCoherent(w, c, id, v, viaRef); }
  }

  lemma {:induction false} AllCoherent(w: World, c: Ctx, s: Schema, tasks: seq<Task>)
    requires w.Ok() && Coherent(w, c)
    requires forall t | t in tasks :: t.schema < s && InHeap(w.heap, t.val)
    ensures Coherent(w, ValAll(w, c, s, tasks).ctx)
    decreases Free(w, c), 1, 0, 1, s, |tasks|
  {
    hide Coherent;
    if tasks != [] {
      NodeCoherent(w, c, tasks[0].schema, tasks[0].val);
      var o := ValNode(w, c, tasks[0].schema, tasks[0].val);
      if o.verdict.Accept? { AllCoherent(w, o.ctx, s, tasks[1..]); }
    }
  }

  lemma {:induction false} AnyCoherent(w: World, c: Ctx, s: Schema, arms: seq<Schema>, v: Val)
    requires w.Ok() && InHeap(w.heap, v) && v.Obj? && Coherent(w, c)
    requires forall a | a in arms :: a < s && Bound(w.rank, a) <= Bound(w.rank, s)
    ensures Coherent(w, ValAny(w, c, s, arms, v).ctx)
    decreases Free(w, c), 1, 0, 1, s, |arms|
  {
    hide Coherent;
    if arms != [] {
      assert arms[0] in arms && forall a | a in arms[1..] :: a in arms;
      NodeCoherent(w, c, arms[0], v);
      var o := ValNode(w, c, arms[0], v);
      if o.verdict.Reject? { AnyCoherent(w, o.ctx, s, arms[1..], v); }
    }
  }

  // ---------- How long a path can get ----------

  ghost function OfDecl(ps: set<Pair>, id: Id): set<Pair> { set p | p in ps && p.id == id }

  /** A path over the pairs of `ps` is no longer than there are pairs, and enters a declaration no
      more often than there are pairs of it. */
  lemma {:induction false} PathFits(frames: seq<Frame>, ps: set<Pair>, id: Id)
    requires forall i, j | 0 <= i < j < |frames| :: frames[i].pair != frames[j].pair
    requires forall f | f in frames :: f.pair in ps
    ensures |frames| <= |ps| && RefEntries(frames, id) <= |OfDecl(ps, id)|
  {
    if frames != [] {
      var rest, p := frames[..|frames| - 1], frames[|frames| - 1].pair;
      forall f | f in rest ensures f.pair in ps - {p} {
        var i :| 0 <= i < |rest| && rest[i] == f;
        assert frames[i] == f;
      }
      PathFits(rest, ps - {p}, id);
      if p.id == id {
        assert OfDecl(ps, id) == OfDecl(ps - {p}, id) + {p};
      } else {
        assert OfDecl(ps, id) == OfDecl(ps - {p}, id);
      }
    }
  }

  /** The same of the path of a context, in terms of its counters. */
  lemma ContextFits(w: World, c: Ctx, ps: set<Pair>, id: Id)
    requires Coherent(w, c) && c.inflight.Keys <= ps
    ensures |c.frames| <= |ps| && DepthOf(c.depths, id) <= |OfDecl(ps, id)|
  {
    forall f | f in c.frames ensures f.pair in ps {
      var i :| 0 <= i < |c.frames| && c.frames[i] == f;
    }
    PathFits(c.frames, ps, id);
  }
}
