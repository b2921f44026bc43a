/** Values whose cycles lead back to licensed pairs on the path are accepted. */
module Anchors {
  import opened SchemaGraph
  import opened Validator
  import opened Rules
  import opened Paths
  import opened ValidatorComplete

  /** Grounds for a set of pairs: `level` falls along every reference except those that lead back to a
      pair of a cyclic declaration on the path; `under` holds the pairs of cyclic declarations that are
      on the path wherever the pair is met. */
  datatype Grounds = Grounds(level: map<Pair, nat>, under: map<Pair, set<Pair>>)

  /** The declaration allows its cycles, on paths no longer than `limit`. */
  predicate Licenses(reg: Registry, limit: nat, id: Id) {
    id in reg && (reg[id].cyclic.AnyLength? || (reg[id].cyclic.UpTo? && limit <= reg[id].cyclic.hops))
  }

  /** No path of that length goes beyond the declaration's cap. */
  predicate Fits(reg: Registry, limit: nat, id: Id) {
    id in reg && (reg[id].Cap().Some? ==> limit <= reg[id].Cap().value)
  }

  /** What may be referred to at level `n` of a path on which the pairs of `open` stand. */
  ghost function Usable(g: Grounds, open: set<Pair>, n: nat): set<Pair> {
    open + set q | q in g.level && q in g.under && g.level[q] < n && g.under[q] <= open
  }

  ghost function Opened(reg: Registry, limit: nat, open: set<Pair>, p: Pair): set<Pair> {
    if Licenses(reg, limit, p.id) then open + {p} else open
  }

  ghost predicate Licensed(reg: Registry, limit: nat, open: set<Pair>) {
    forall q | q in open :: Licenses(reg, limit, q.id)
  }

  ghost predicate Placed(w: World, limit: nat, g: Grounds, p: Pair) {
    && p in g.level && p in g.under && p in w.Pairs() && Fits(w.reg, limit, p.id)
    && Licensed(w.reg, limit, g.under[p])
  }

  /** What the pair may rest on. */
  ghost function Support(w: World, limit: nat, g: Grounds, p: Pair): set<Pair>
    requires Placed(w, limit, g, p)
  {
    Usable(g, Opened(w.reg, limit, g.under[p], p), g.level[p])
  }

  ghost predicate Anchored(w: World, limit: nat, g: Grounds)
    requires w.Ok()
  {
    forall p | p in g.level ::
      Placed(w, limit, g, p) && Holds(w, w.reg[p.id].body, Obj(p.addr), Support(w, limit, g, p))
  }

  /** The path has the pairs of `open` on it, and nothing below level `n`. */
  ghost predicate OnTrack(w: World, limit: nat, g: Grounds, c: Ctx, open: set<Pair>, n: nat) {
    && open <= c.inflight.Keys && Licensed(w.reg, limit, open)
    && PathAbove(c, g.level, n) && |c.frames| + n <= limit && Coherent(w, c)
  }

  lemma {:induction false} EntriesFit(frames: seq<Frame>, id: Id)
    ensures RefEntries(frames, id) <= |frames|
  {
    if frames != [] { EntriesFit(frames[..|frames| - 1], id); }
  }

  /** A pair that may be referred to is not turned away. */
  lemma AnchoredGate(w: World, limit: nat, g: Grounds, c: Ctx, p: Pair, viaRef: bool, open: set<Pair>, n: nat)
    requires w.Ok() && Anchored(w, limit, g) && OnTrack(w, limit, g, c, open, n) && p in Usable(g, open, n)
    ensures p.id in w.reg
    ensures var gate := Gate(w.reg[p.id], c, p, viaRef); gate.None? || gate == Some(Accept)
  {
    hide Holds;
    EntriesFit(c.frames, p.id);
    if p in open {
      assert Licenses(w.reg, limit, p.id) && p in c.inflight;
    } else {
      assert Placed(w, limit, g, p);
      assert DepthOf(c.depths, p.id) == RefEntries(c.frames, p.id);
    }
  }

  /** Entering the pair keeps to the track. */
  lemma TrackFollows(w: World, limit: nat, g: Grounds, c: Ctx, p: Pair, viaRef: bool, open: set<Pair>, n: nat)
    requires w.Ok() && Anchored(w, limit, g) && OnTrack(w, limit, g, c, open, n) && p in Usable(g, open, n)
    requires p.id in w.reg && Gate(w.reg[p.id], c, p, viaRef).None?
    ensures Placed(w, limit, g, p)
    ensures OnTrack(w, limit, g, Push(c, p, viaRef), Opened(w.reg, limit, g.under[p], p), g.level[p])
  {
    hide Holds, Usable;
    assert p !in c.inflight && (viaRef ==> !w.reg[p.id].Capped(DepthOf(c.depths, p.id) + 1));
    LicensedIsInside(w, limit, g, c, open, n, p);
    assert Placed(w, limit, g, p);
    hide Anchored, Gate, Coherent;
    PushCoherent(w, c, p, viaRef);
    OneFurther(w, limit, g, c, p, viaRef, open, n);
  }

  lemma OneFurther(w: World, limit: nat, g: Grounds, c: Ctx, p: Pair, viaRef: bool, open: set<Pair>, n: nat)
    requires Placed(w, limit, g, p) && OnTrack(w, limit, g, c, open, n) && Coherent(w, Push(c, p, viaRef))
    requires g.level[p] < n && g.under[p] <= open
    ensures OnTrack(w, limit, g, Push(c, p, viaRef), Opened(w.reg, limit, g.under[p], p), g.level[p])
  {
    hide Coherent, Licenses;
  }

  /** A pair that is not on the path is not one of those that are open. */
  lemma LicensedIsInside(w: World, limit: nat, g: Grounds, c: Ctx, open: set<Pair>, n: nat, p: Pair)
    requires OnTrack(w, limit, g, c, open, n) && p in Usable(g, open, n) && p !in c.inflight
    ensures p in g.level && p in g.under && g.level[p] < n && g.under[p] <= open
  {
    hide Coherent;
  }

  lemma TrackKept(w: World, limit: nat, g: Grounds, c: Ctx, c': Ctx, open: set<Pair>, n: nat)
    requires OnTrack(w, limit, g, c, open, n) && Restored(c, c') && Coherent(w, c')
    ensures OnTrack(w, limit, g, c', open, n)
  {
    hide Coherent;
  }

  lemma {:induction false} DeclAnchored(w: World, limit: nat, g: Grounds, c: Ctx, id: Id, v: Val, viaRef: bool,
                                        open: set<Pair>, n: nat)
    requires w.Ok() && id in w.reg && InHeap(w.heap, v) && AllResolved(w.reg)
    requires Anchored(w, limit, g) && OnTrack(w, limit, g, c, open, n) && Obeys(w, id, v, Usable(g, open, n))
    ensures ValDecl(w, c, id, v, viaRef).verdict.Accept?
    decreases Free(w, c), if v.Obj? then 1 else 0, if v.Obj? then 0 else w.rank[id], if v.Obj? then 0 else 1
  {
    hide Anchored, OnTrack, Usable, Resolved;
    if v.Prim? {
      NodeAnchored(w, limit, g, c, w.reg[id].body, v, open, n);
    } else {
      var p := Pair(v.addr, id);
      AnchoredGate(w, limit, g, c, p, viaRef, open, n);
      if Gate(w.reg[id], c, p, viaRef).None? {
        assert p in Free(w, c);
        TrackFollows(w, limit, g, c, p, viaRef, open, n);
        var open' := Opened(w.reg, limit, g.under[p], p);
        PairHolds(w, limit, g, p);
        NodeAnchored(w, limit, g, Push(c, p, viaRef), w.reg[id].body, v, open', g.level[p]);
      }
    }
  }

  lemma {:induction false} PairHolds(w: World, limit: nat, g: Grounds, p: Pair)
    requires w.Ok() && Anchored(w, limit, g) && Placed(w, limit, g, p)
    ensures Holds(w, w.reg[p.id].body, Obj(p.addr), Support(w, limit, g, p))
  {
    hide Holds;
  }

  lemma {:induction false} NodeAnchored(w: World, limit: nat, g: Grounds, c: Ctx, s: Schema, v: Val, open: set<Pair>,
                                        n: nat)
    requires w.Ok() && InHeap(w.heap, v) && AllResolved(w.reg) && Resolved(w.reg, s)
    requires Anchored(w, limit, g) && OnTrack(w, limit, g, c, open, n) && Holds(w, s, v, Usable(g, open, n))
    ensures ValNode(w, c, s, v).verdict.Accept?
    decreases Free(w, c), if v.Obj? then 1 else 0, if v.Obj? then 0 else Bound(w.rank, s), if v.Obj? then 1 else 0, s
  {
    hide Anchored, OnTrack, Usable;
    ExpandShrinks(w.heap, s, v);
    match Expand(w.heap, s, v)
    case Leaf(_) =>
    case All(tasks) =>
      TasksResolved(w, s, v);
      AllAnchored(w, limit, g, c, s, tasks, open, n);
    case Any(arms) => AnyAnchored(w, limit, g, c, s, arms, v, open, n);
    case Enter(id, viaRef) => DeclAnchored(w, limit, g, c, id, v, viaRef, open, n);
  }

  lemma {:induction false} AllAnchored(w: World, limit: nat, g: Grounds, c: Ctx, s: Schema, tasks: seq<Task>,
                                       open: set<Pair>, n: nat)
    requires w.Ok() && AllResolved(w.reg) && Anchored(w, limit, g) && OnTrack(w, limit, g, c, open, n)
    requires forall t | t in tasks ::
               && t.schema < s && InHeap(w.heap, t.val) && Resolved(w.reg, t.schema)
               && Holds(w, t.schema, t.val, Usable(g, open, n))
    ensures ValAll(w, c, s, tasks).verdict.Accept?
    decreases Free(w, c), 1, 0, 1, s, |tasks|
  {
    hide Anchored, OnTrack, Usable, Holds;
    if tasks != [] {
      NodeAnchored(w, limit, g, c, tasks[0].schema, tasks[0].val, open, n);
      var c' := ValNode(w, c, tasks[0].schema, tasks[0].val).ctx;
      TrackStays(w, limit, g, c, tasks[0].schema, tasks[0].val, open, n);
      AllAnchored(w, limit, g, c', s, tasks[1..], open, n);
    }
  }

  lemma {:induction false} TrackStays(w: World, limit: nat, g: Grounds, c: Ctx, s: Schema, v: Val, open: set<Pair>,
                                      n: nat)
    requires w.Ok() && InHeap(w.heap, v) && OnTrack(w, limit, g, c, open, n)
    ensures OnTrack(w, limit, g, ValNode(w, c, s, v).ctx, open, n)
  {
    hide ValNode;
    assert Coherent(w, c);
    NodeCoherent(w, c, s, v);
    TrackKept(w, limit, g, c, ValNode(w, c, s, v).ctx, open, n);
  }

  lemma {:induction false} AnyAnchored(w: World, limit: nat, g: Grounds, c: Ctx, s: Schema, arms: seq<Schema>, v: Val,
                                       open: set<Pair>, n: nat)
    requires w.Ok() && InHeap(w.heap, v) && AllResolved(w.reg)
    requires Anchored(w, limit, g) && OnTrack(w, limit, g, c, open, n)
    requires forall a | a in arms :: a < s && Bound(w.rank, a) <= Bound(w.rank, s) && Resolved(w.reg, a)
    requires exists a | a in arms :: Holds(w, a, v, Usable(g, open, n))
    ensures ValAny(w, c, s, arms, v).verdict.Accept?
    decreases Free(w, c), if v.Obj? then 1 else 0, if v.Obj? then 0 else Bound(w.rank, s), if v.Obj? then 1 else 0,
              s, |arms|
  {
    hide Anchored, OnTrack, Usable, Holds;
    assert arms[0] in arms && forall a | a in arms[1..] :: a in arms;
    TrackStays(w, limit, g, c, arms[0], v, open, n);
    if Holds(w, arms[0], v, Usable(g, open, n)) {
      NodeAnchored(w, limit, g, c, arms[0], v, open, n);
    }
    NodeNeverRaises(w, c, arms[0], v);
    var o := ValNode(w, c, arms[0], v);
    if o.verdict.Reject? {
      var a :| a in arms && Holds(w, a, v, Usable(g, open, n));
      assert a in arms[1..];
      AnyAnchored(w, limit, g, o.ctx, s, arms[1..], v, open, n);
    }
  }

  /** A value that is anchored at a level no higher than `limit` is accepted, back edges into cyclic
      declarations included, if neither caps nor bounds on cycles lie below `limit`. */
  lemma AnchoredComplete(w: World, limit: nat, g: Grounds, id: Id, v: Val)
    requires w.Ok() && id in w.reg && InHeap(w.heap, v) && AllResolved(w.reg)
    requires Anchored(w, limit, g) && Obeys(w, id, v, Usable(g, {}, limit))
    ensures Validate(w, id, v).verdict.Accept?
  {
    hide Anchored, Usable;
    EmptyCoherent(w);
    DeclAnchored(w, limit, g, EMPTY, id, v, false, {}, limit);
  }
}
