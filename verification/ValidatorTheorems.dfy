/** The main results about the validator. */
module ValidatorTheorems {
  import opened SchemaGraph
  import opened Validator
  import opened Rules
  import opened Paths
  import opened ValidatorSound
  import opened ValidatorComplete

  // ---------- Verdicts are fixpoints ----------

  /** A set of pairs each of which obeys the rules given the set itself. */
  ghost predicate PostFixed(w: World, r: set<Pair>)
    requires w.Ok()
  {
    forall p | p in r :: p in w.Pairs() && Holds(w, w.reg[p.id].body, Obj(p.addr), r)
  }

  /** The coinductive reading: cyclic evidence is evidence. */
  ghost predicate InGreatest(w: World, id: Id, v: Val)
    requires w.Ok() && id in w.reg && InHeap(w.heap, v)
  {
    exists r :: PostFixed(w, r) && Obeys(w, id, v, r)
  }

  /** Levels that fall along every reference. */
  ghost predicate Founded(w: World, level: map<Pair, nat>)
    requires w.Ok()
  {
    forall p | p in level ::
      p in w.Pairs() && Holds(w, w.reg[p.id].body, Obj(p.addr), Below(level, level[p]))
  }

  /** The inductive reading: evidence is well-founded. */
  ghost predicate InLeast(w: World, id: Id, v: Val)
    requires w.Ok() && id in w.reg && InHeap(w.heap, v)
  {
    exists level :: Founded(w, level) && Obeys(w, id, v, level.Keys)
  }

  /** Every reference resolves, no depth cap is below the number of objects, and no bound on cycles
      is below the number of pairs: on this heap no limit can be reached. */
  ghost predicate Ample(w: World) {
    && AllResolved(w.reg)
    && forall id | id in w.reg ::
         && (w.reg[id].Cap().Some? ==> |w.heap| <= w.reg[id].Cap().value)
         && (w.reg[id].cyclic.UpTo? ==> |w.heap| * |w.reg| <= w.reg[id].cyclic.hops)
  }

  lemma AmpleIsRoomy(w: World, ps: set<Pair>)
    requires Ample(w) && ps <= w.Pairs()
    ensures Roomy(w, ps)
  {
    PairCount(w.heap.Keys, w.reg.Keys);
    assert w.Pairs() == Product(w.heap.Keys, w.reg.Keys);
    SubsetFits(ps, w.Pairs());
    hide Resolved, Product;
    forall id | id in w.reg ensures |OfDecl(ps, id)| <= |w.heap| { OneDeclFits(w, ps, id); }
  }

  lemma OneDeclFits(w: World, ps: set<Pair>, id: Id)
    requires ps <= w.Pairs()
    ensures |OfDecl(ps, id)| <= |w.heap|
  {
    var column := Product(w.heap.Keys, {id});
    PairCount(w.heap.Keys, {id});
    forall p | p in OfDecl(ps, id) ensures p in column { assert p in w.Pairs(); }
    SubsetFits(OfDecl(ps, id), column);
  }

  lemma {:induction false} SubsetFits(a: set<Pair>, b: set<Pair>)
    requires a <= b
    ensures |a| <= |b|
  {
    if a != {} {
      var p :| p in a;
      SubsetFits(a - {p}, b - {p});
    }
  }

  lemma {:induction false} CyclicSound(w: World, id: Id, v: Val)
    requires w.Ok() && id in w.reg && InHeap(w.heap, v) && TrustedWorld(w)
    requires Validate(w, id, v).verdict.Accept?
    ensures var r := Elems(Validate(w, id, v).ctx.finished); PostFixed(w, r) && Obeys(w, id, v, r)
  {
    AcceptSound(w, id, v);
    StratifiedIsPostFixed(w, Positions(Validate(w, id, v).ctx.finished));
  }

  lemma StratifiedIsPostFixed(w: World, level: map<Pair, nat>)
    requires w.Ok() && Stratified(w, level)
    ensures PostFixed(w, level.Keys)
  {
    var r := level.Keys;
    forall p | p in r ensures p in w.Pairs() && Holds(w, w.reg[p.id].body, Obj(p.addr), r) {
      HoldsMonotone(w, w.reg[p.id].body, Obj(p.addr), Below(level, level[p]) + CyclicOnly(w, r), r);
    }
  }

  lemma PostFixedIsDescending(w: World, r: set<Pair>)
    requires w.Ok() && PostFixed(w, r) && forall d | d in w.reg :: !w.reg[d].cyclic.Acyclic?
    ensures Descending(w, map p | p in r :: 0)
  {
    var level := map p | p in r :: 0;
    forall p | p in level
      ensures p in w.Pairs() && Holds(w, w.reg[p.id].body, Obj(p.addr), Reach(w, level, level[p]))
    {
      assert Reach(w, level, 0) == r;
    }
  }

  /** When every declaration is cyclic, exactly the greatest fixpoint is accepted, and the memo
      at the end of an accepting run is a post-fixed point. */
  lemma {:induction false} CyclicExact(w: World, id: Id, v: Val)
    requires w.Ok() && id in w.reg && InHeap(w.heap, v) && TameWorld(w) && Ample(w)
    requires forall d | d in w.reg :: !w.reg[d].cyclic.Acyclic?
    ensures Validate(w, id, v).verdict.Accept? <==> InGreatest(w, id, v)
    ensures Validate(w, id, v).verdict.Accept? ==> PostFixed(w, Elems(Validate(w, id, v).ctx.finished))
  {
    if Validate(w, id, v).verdict.Accept? { CyclicSound(w, id, v); }
    if InGreatest(w, id, v) {
      var r :| PostFixed(w, r) && Obeys(w, id, v, r);
      var level := map p | p in r :: 0;
      assert level.Keys == r;
      PostFixedIsDescending(w, r);
      AmpleIsRoomy(w, r);
      AcceptComplete(w, id, v, level);
    }
  }

  lemma StratifiedIsFounded(w: World, level: map<Pair, nat>)
    requires w.Ok() && Stratified(w, level) && forall d | d in w.reg :: w.reg[d].cyclic.Acyclic?
    ensures Founded(w, level)
  {
    assert CyclicOnly(w, level.Keys) == {};
    forall p | p in level
      ensures p in w.Pairs() && Holds(w, w.reg[p.id].body, Obj(p.addr), Below(level, level[p]))
    {
      assert Below(level, level[p]) + CyclicOnly(w, level.Keys) == Below(level, level[p]);
    }
  }

  lemma FoundedIsDescending(w: World, level: map<Pair, nat>)
    requires w.Ok() && Founded(w, level)
    ensures Descending(w, level)
  {
    forall p | p in level
      ensures p in w.Pairs() && Holds(w, w.reg[p.id].body, Obj(p.addr), Reach(w, level, level[p]))
    {
      HoldsMonotone(w, w.reg[p.id].body, Obj(p.addr), Below(level, level[p]), Reach(w, level, level[p]));
    }
  }

  /** When no declaration is cyclic, exactly the least fixpoint is accepted, unions included. */
  lemma {:induction false} AcyclicExact(w: World, id: Id, v: Val)
    requires w.Ok() && id in w.reg && InHeap(w.heap, v) && Ample(w) && Inductive(w)
    ensures Validate(w, id, v).verdict.Accept? <==> InLeast(w, id, v)
  {
    if Validate(w, id, v).verdict.Accept? {
      AcceptSound(w, id, v);
      StratifiedIsFounded(w, Positions(Validate(w, id, v).ctx.finished));
    }
    if InLeast(w, id, v) {
      var level :| Founded(w, level) && Obeys(w, id, v, level.Keys);
      FoundedIsDescending(w, level);
      AmpleIsRoomy(w, level.Keys);
      AcceptComplete(w, id, v, level);
    }
  }

  // ---------- Accepted cycles are licensed ----------

  /** In each union all arms but one reject every object, as in `Node | null`. */
  ghost predicate Slim(s: Schema) {
    s.Node? ==>
      && (s.union.AnyOf? ==>
            && (forall i, j | 0 <= i < j < |s.union.arms| :: PrimOnly(s.union.arms[i]) || PrimOnly(s.union.arms[j]))
            && forall a | a in s.union.arms :: Slim(a))
      && (s.items.Some? ==> Slim(s.items.value))
      && (s.properties.Properties? ==> forall p | p in s.properties.list :: Slim(p.schema))
  }

  ghost predicate SlimWorld(w: World) { forall d | d in w.reg :: Slim(w.reg[d].body) }

  lemma {:induction false} SlimIsTame(s: Schema)
    requires Slim(s)
    ensures Tame(s)
  {
    if s.Node? {
      if s.union.AnyOf? {
        forall a | a in s.union.arms ensures Tame(a) { SlimIsTame(a); }
      }
      if s.items.Some? { SlimIsTame(s.items.value); }
      if s.properties.Properties? {
        forall p | p in s.properties.list ensures Tame(p.schema) { SlimIsTame(p.schema); }
      }
    }
  }

  /** The pairs that a walk of `s` over `v` refers to. */
  ghost function References(w: World, s: Schema, v: Val): set<Pair>
    requires w.Ok() && InHeap(w.heap, v)
    decreases s
  {
    ExpandShrinks(w.heap, s, v);
    match Expand(w.heap, s, v)
    case All(tasks) => set t, p | t in tasks && p in References(w, t.schema, t.val) :: p
    case Any(arms) => set a, p | a in arms && p in References(w, a, v) :: p
    case Enter(id, _) => if v.Obj? then {Pair(v.addr, id)} else {}
    case Leaf(_) => {}
  }

  lemma {:induction false} PrimRefersToNothing(w: World, s: Schema, v: Val)
    requires w.Ok() && InHeap(w.heap, v) && (v.Prim? || PrimOnly(s))
    ensures References(w, s, v) == {}
    decreases s
  {
    ExpandShrinks(w.heap, s, v);
    match Expand(w.heap, s, v)
    case Any(arms) => forall a | a in arms ensures References(w, a, v) == {} { PrimRefersToNothing(w, a, v); }
    case _ =>
  }

  lemma {:induction false} SlimReferences(w: World, s: Schema, v: Val, r: set<Pair>)
    requires w.Ok() && InHeap(w.heap, v) && Slim(s) && Holds(w, s, v, r)
    ensures References(w, s, v) <= r
    decreases s
  {
    ExpandShrinks(w.heap, s, v);
    if v.Prim? {
      PrimRefersToNothing(w, s, v);
    } else {
      match Expand(w.heap, s, v)
      case All(tasks) =>
        forall t | t in tasks ensures References(w, t.schema, t.val) <= r { SlimReferences(w, t.schema, t.val, r); }
      case Any(arms) =>
        var arm :| arm in arms && Holds(w, arm, v, r);
        SlimReferences(w, arm, v, r);
        forall a | a in arms && a != arm ensures References(w, a, v) == {} {
          OnlyArm(s, arm, a);
          PrimRefersToNothing(w, a, v);
        }
      case _ =>
    }
  }

  lemma {:induction false} OnlyArm(s: Schema, arm: Schema, other: Schema)
    requires Slim(s) && s.Node? && s.union.AnyOf? && arm in s.union.arms && other in s.union.arms
    requires arm != other && !PrimOnly(arm)
    ensures PrimOnly(other)
  {
    var arms := s.union.arms;
    var i :| 0 <= i < |arms| && arms[i] == arm;
    var j :| 0 <= j < |arms| && arms[j] == other;
    assert PrimOnly(arms[if i < j then i else j]) || PrimOnly(arms[if i < j then j else i]);
  }

  /** A path in the graph of pairs. */
  ghost predicate RefersAlong(w: World, path: seq<Pair>)
    requires w.Ok()
  {
    forall i | 0 <= i < |path| - 1 :: LinkAt(w, path, i)
  }

  ghost predicate LinkAt(w: World, path: seq<Pair>, i: nat)
    requires w.Ok() && i + 1 < |path|
  {
    RefersTo(w, path[i], path[i + 1])
  }

  ghost predicate RefersTo(w: World, p: Pair, q: Pair)
    requires w.Ok()
  {
    p in w.Pairs() && q in References(w, w.reg[p.id].body, Obj(p.addr))
  }

  /** The pair's declaration allows reference cycles. */
  ghost predicate License(w: World, p: Pair) { p.id in w.reg && !w.reg[p.id].cyclic.Acyclic? }

  /** A reference stays inside the levelled set, and descends unless its target is licensed. */
  ghost predicate Descends(w: World, level: map<Pair, nat>)
    requires w.Ok()
  {
    forall p, q | p in level && RefersTo(w, p, q) :: q in level && (License(w, q) || level[q] < level[p])
  }

  lemma StratifiedDescends(w: World, level: map<Pair, nat>)
    requires w.Ok() && Stratified(w, level) && SlimWorld(w)
    ensures Descends(w, level)
  {
    forall p, q | p in level && RefersTo(w, p, q)
      ensures q in level && (License(w, q) || level[q] < level[p])
    {
      SlimReferences(w, w.reg[p.id].body, Obj(p.addr), Below(level, level[p]) + CyclicOnly(w, level.Keys));
    }
  }

  lemma {:induction false} StaysInside(w: World, level: map<Pair, nat>, path: seq<Pair>, i: nat)
    requires w.Ok() && Descends(w, level)
    requires RefersAlong(w, path) && i < |path| && path[0] in level
    ensures path[i] in level
  {
    if i > 0 {
      StaysInside(w, level, path, i - 1);
      assert LinkAt(w, path, i - 1);
    }
  }

  lemma {:induction false} LevelsFall(w: World, level: map<Pair, nat>, path: seq<Pair>, i: nat, j: nat)
    requires w.Ok() && Descends(w, level)
    requires RefersAlong(w, path) && i < j < |path| && path[i] in level
    requires forall k | i < k <= j :: !License(w, path[k])
    ensures path[j] in level && level[path[j]] < level[path[i]]
    decreases j
  {
    assert LinkAt(w, path, j - 1);
    if j > i + 1 { LevelsFall(w, level, path, i, j - 1); }
  }

  /** If a value is accepted then every cycle that the walk can reach from it passes through a
      declaration that licenses cycles. */
  lemma {:induction false} AcceptedCyclesAreLicensed(w: World, id: Id, a: Addr, path: seq<Pair>, i: nat, j: nat)
    requires w.Ok() && id in w.reg && a in w.heap
    requires SlimWorld(w)
    requires Validate(w, id, Obj(a)).verdict.Accept?
    requires RefersAlong(w, path) && path != [] && path[0] == Pair(a, id)
    requires i < j < |path| && path[i] == path[j]
    ensures exists k :: i < k <= j && License(w, path[k])
  {
    forall d | d in w.reg ensures Tame(w.reg[d].body) { SlimIsTame(w.reg[d].body); }
    AcceptSound(w, id, Obj(a));
    StratifiedDescends(w, Positions(Validate(w, id, Obj(a)).ctx.finished));
    CycleHasLicense(w, Positions(Validate(w, id, Obj(a)).ctx.finished), path, i, j);
  }

  lemma CycleHasLicense(w: World, level: map<Pair, nat>, path: seq<Pair>, i: nat, j: nat)
    requires w.Ok() && Descends(w, level)
    requires RefersAlong(w, path) && i < j < |path| && path[0] in level && path[i] == path[j]
    ensures exists k :: i < k <= j && License(w, path[k])
  {
    StaysInside(w, level, path, i);
    if forall k | i < k <= j :: !License(w, path[k]) {
      LevelsFall(w, level, path, i, j);
    }
  }

  // ---------- Work ----------

  ghost predicate NoRepeat(ps: seq<Pair>) {
    forall i, j | 0 <= i < j < |ps| :: ps[i] != ps[j]
  }

  /** Every pair was walked at most once, and what is memoized or in flight was walked. */
  ghost predicate Frugal(w: World, c: Ctx) {
    NoRepeat(c.entered) && Elems(c.finished) + c.inflight.Keys <= Elems(c.entered) <= w.Pairs()
  }

  /** Every walked pair is memoized or still in flight. */
  ghost predicate Settled(c: Ctx) { Elems(c.entered) <= Elems(c.finished) + c.inflight.Keys }

  lemma {:induction false} DeclOnce(w: World, c: Ctx, id: Id, v: Val, viaRef: bool)
    requires w.Ok() && id in w.reg && InHeap(w.heap, v) && TameWorld(w) && Frugal(w, c) && Settled(c)
    ensures var o := ValDecl(w, c, id, v, viaRef);
            Frugal(w, o.ctx) && (o.verdict.Accept? ==> Settled(o.ctx))
    decreases Free(w, c), if v.Obj? then 1 else 0, if v.Obj? then 0 else w.rank[id], if v.Obj? then 0 else 1
  {
    if v.Obj? {
      var p := Pair(v.addr, id);
      if Gate(w.reg[id], c, p, viaRef).None? {
        assert p in Free(w, c);
        var c' := Push(c, p, viaRef);
        PushOnce(w, c, p, viaRef);
        NodeOnce(w, c', w.reg[id].body, v);
        var o := ValNode(w, c', w.reg[id].body, v);
        PopOnce(w, c, o.ctx, p, viaRef, o.verdict.Accept?);
      }
    }
  }

  lemma PopOnce(w: World, c: Ctx, o: Ctx, p: Pair, viaRef: bool, accepted: bool)
    requires Frugal(w, o) && (accepted ==> Settled(o)) && Restored(Push(c, p, viaRef), o) && p !in c.inflight
    ensures var c' := Pop(o, p, viaRef, DepthOf(c.depths, p.id));
            && Frugal(w, c')
            && var c'' := c'.(finished := c'.finished + [p]);
               accepted ==> Frugal(w, c'') && Settled(c'')
  {
    assert p in o.inflight;
    assert forall q | q in o.finished + [p] :: q == p || q in o.finished;
    assert forall q | q in o.finished :: q in o.finished + [p];
    assert (o.finished + [p])[|o.finished|] == p;
  }

  lemma PushOnce(w: World, c: Ctx, p: Pair, viaRef: bool)
    requires Frugal(w, c) && Settled(c) && p in w.Pairs() && p !in c.finished && p !in c.inflight
    ensures Frugal(w, Push(c, p, viaRef)) && Settled(Push(c, p, viaRef))
  {
    var c' := Push(c, p, viaRef);
    assert p !in Elems(c.entered);
    forall i, j | 0 <= i < j < |c'.entered| ensures c'.entered[i] != c'.entered[j] {
      assert c'.entered[i] in Elems(c.entered);
    }
    forall q | q in Elems(c'.entered) ensures q in w.Pairs() && q in Elems(c'.finished) + c'.inflight.Keys {
      if q != p { assert q in Elems(c.entered); }
    }
  }

  lemma {:induction false} NodeOnce(w: World, c: Ctx, s: Schema, v: Val)
    requires w.Ok() && InHeap(w.heap, v) && TameWorld(w) && Tame(s) && Frugal(w, c) && Settled(c)
    ensures var o := ValNode(w, c, s, v);
            Frugal(w, o.ctx) && (o.verdict.Accept? ==> Settled(o.ctx))
    decreases Free(w, c), if v.Obj? then 1 else 0, if v.Obj? then 0 else Bound(w.rank, s), if v.Obj? then 1 else 0, s
  {
    ExpandShrinks(w.heap, s, v);
    match Expand(w.heap, s, v)
    case Leaf(_) =>
    case All(tasks) =>
      TasksTame(w.heap, s, v);
      AllOnce(w, c, s, tasks);
    case Any(arms) => if v.Obj? { AnyOnce(w, c, s, arms, v); }
    case Enter(id, viaRef) => if id in w.reg { DeclOnce(w, c, id, v, viaRef); }
  }

  lemma {:induction false} AllOnce(w: World, c: Ctx, s: Schema, tasks: seq<Task>)
    requires w.Ok() && TameWorld(w) && Frugal(w, c) && Settled(c)
    requires forall t | t in tasks :: t.schema < s && InHeap(w.heap, t.val) && Tame(t.schema)
    ensures var o := ValAll(w, c, s, tasks);
            Frugal(w, o.ctx) && (o.verdict.Accept? ==> Settled(o.ctx))
    decreases Free(w, c), 1, 0, 1, s, |tasks|
  {
    if tasks != [] {
      NodeOnce(w, c, tasks[0].schema, tasks[0].val);
      var o := ValNode(w, c, tasks[0].schema, tasks[0].val);
      if o.verdict.Accept? { AllOnce(w, o.ctx, s, tasks[1..]); }
    }
  }

  lemma {:induction false} AnyOnce(w: World, c: Ctx, s: Schema, arms: seq<Schema>, v: Val)
    requires w.Ok() && InHeap(w.heap, v) && v.Obj? && TameWorld(w) && Frugal(w, c) && Settled(c)
    requires forall a | a in arms :: a < s && Bound(w.rank, a) <= Bound(w.rank, s) && Tame(a)
    requires forall i, j | 0 <= i < j < |arms| :: Apart(arms[i], arms[j])
    ensures var o := ValAny(w, c, s, arms, v);
            Frugal(w, o.ctx) && (o.verdict.Accept? ==> Settled(o.ctx))
    decreases Free(w, c), 1, 0, 1, s, |arms|
  {
    if arms != [] {
      assert arms[0] in arms && forall a | a in arms[1..] :: a in arms;
      NodeOnce(w, c, arms[0], v);
      var o := ValNode(w, c, arms[0], v);
      if o.verdict.Reject? {
        if Inert(arms[0]) || PrimOnly(arms[0]) {
          if Inert(arms[0]) { InertLeavesNothing(w, c, arms[0], v); }
          AnyOnce(w, o.ctx, s, arms[1..], v);
        } else {
          forall a | a in arms[1..] ensures PrimOnly(a) {
            var j :| 0 <= j < |arms[1..]| && arms[1..][j] == a;
            assert arms[j + 1] == a;
          }
          PrimOnlyReject(w, o.ctx, s, arms[1..], v);
        }
      }
    }
  }

  /** Validation walks each (object, declaration) pair at most once, so it walks at most
      objects times declarations, however many paths lead to them. */
  lemma {:induction false} LinearWork(w: World, id: Id, v: Val)
    requires w.Ok() && id in w.reg && InHeap(w.heap, v) && TameWorld(w)
    ensures var c := Validate(w, id, v).ctx;
            && NoRepeat(c.entered) && |c.entered| <= |w.heap| * |w.reg|
            && forall p | p in c.finished :: p in c.entered
  {
    DeclOnce(w, EMPTY, id, v, false);
    var entered := Validate(w, id, v).ctx.entered;
    NoRepeatFits(entered, w.Pairs());
    PairCount(w.heap.Keys, w.reg.Keys);
    assert w.Pairs() == Product(w.heap.Keys, w.reg.Keys);
    forall p | p in Validate(w, id, v).ctx.finished ensures p in entered { assert p in Elems(entered); }
  }

  lemma {:induction false} NoRepeatFits(ps: seq<Pair>, all: set<Pair>)
    requires NoRepeat(ps) && Elems(ps) <= all
    ensures |ps| <= |all|
  {
    if ps != [] {
      var n := |ps| - 1;
      forall p | p in ps[..n] ensures p in all - {ps[n]} { assert p in Elems(ps); }
      assert ps[n] in Elems(ps);
      NoRepeatFits(ps[..n], all - {ps[n]});
    }
  }

  ghost function Product(addrs: set<Addr>, ids: set<Id>): set<Pair> {
    set a, d | a in addrs && d in ids :: Pair(a, d)
  }

  lemma {:induction false} PairCount(addrs: set<Addr>, ids: set<Id>)
    ensures |Product(addrs, ids)| == |addrs| * |ids|
  {
    if addrs == {} {
      assert Product(addrs, ids) == {};
    } else {
      var a :| a in addrs;
      var rest := addrs - {a};
      PairCount(rest, ids);
      RowCount(a, ids);
      ProductSplit(addrs, a, ids);
      OneMore(|rest|, |ids|);
      assert addrs == rest + {a};
    }
  }

  lemma OneMore(m: nat, n: nat)
    ensures (m + 1) * n == m * n + n
  {
  }

  lemma ProductSplit(addrs: set<Addr>, a: Addr, ids: set<Id>)
    requires a in addrs
    ensures Product(addrs, ids) == Product(addrs - {a}, ids) + Product({a}, ids)
    ensures Product(addrs - {a}, ids) !! Product({a}, ids)
  {
  }

  lemma {:induction false} RowCount(a: Addr, ids: set<Id>)
    ensures |Product({a}, ids)| == |ids|
  {
    if ids == {} {
      assert Product({a}, ids) == {};
    } else {
      var d :| d in ids;
      RowCount(a, ids - {d});
      assert Product({a}, ids) == Product({a}, ids - {d}) + {Pair(a, d)};
    }
  }
}
