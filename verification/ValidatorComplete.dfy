/** A value that obeys the rules is accepted. */
module ValidatorComplete {
  import opened SchemaGraph
  import opened Validator
  import opened Rules
  import opened Paths

  /** Every reference of the schema resolves. */
  ghost predicate Resolved(reg: Registry, s: Schema) {
    match s
    case Ref(t) => t in reg
    case Embed(t) => t in reg
    case Node(_, _, _, _, _, _, _, _) =>
      && (s.union.AnyOf? ==> forall a | a in s.union.arms :: Resolved(reg, a))
      && (s.items.Some? ==> Resolved(reg, s.items.value))
      && (s.properties.Properties? ==> forall p | p in s.properties.list :: Resolved(reg, p.schema))
  }

  ghost predicate AllResolved(reg: Registry) {
    forall id | id in reg :: Resolved(reg, reg[id].body)
  }

  lemma {:induction false} DeclNeverRaises(w: World, c: Ctx, id: Id, v: Val, viaRef: bool)
    requires w.Ok() && id in w.reg && InHeap(w.heap, v) && AllResolved(w.reg)
    ensures !ValDecl(w, c, id, v, viaRef).verdict.Raise?
    decreases Free(w, c), if v.Obj? then 1 else 0, if v.Obj? then 0 else w.rank[id], if v.Obj? then 0 else 1
  {
    if v.Prim? {
      NodeNeverRaises(w, c, w.reg[id].body, v);
    } else {
      var p := Pair(v.addr, id);
      if Gate(w.reg[id], c, p, viaRef).None? {
        assert p in Free(w, c);
        NodeNeverRaises(w, Push(c, p, viaRef), w.reg[id].body, v);
      }
    }
  }

  lemma {:induction false} NodeNeverRaises(w: World, c: Ctx, s: Schema, v: Val)
    requires w.Ok() && InHeap(w.heap, v) && AllResolved(w.reg) && Resolved(w.reg, s)
    ensures !ValNode(w, c, s, v).verdict.Raise?
    decreases Free(w, c), if v.Obj? then 1 else 0, if v.Obj? then 0 else Bound(w.rank, s), if v.Obj? then 1 else 0, s
  {
    ExpandShrinks(w.heap, s, v);
    match Expand(w.heap, s, v)
    case Leaf(_) =>
    case All(tasks) => 
      TasksResolved(w, s, v);
      AllNeverRaises(w, c, s, tasks);
    case Any(arms) => AnyNeverRaises(w, c, s, arms, v);
    case Enter(id, viaRef) => DeclNeverRaises(w, c, id, v, viaRef);
  }

  lemma {:induction false} TasksResolved(w: World, s: Schema, v: Val)
    requires InHeap(w.heap, v) && Resolved(w.reg, s) && Expand(w.heap, s, v).All?
    ensures forall t | t in Expand(w.heap, s, v).tasks :: Resolved(w.reg, t.schema)
  {
  }

  lemma {:induction false} AllNeverRaises(w: World, c: Ctx, s: Schema, tasks: seq<Task>)
    requires w.Ok() && AllResolved(w.reg)
    requires forall t | t in tasks :: t.schema < s && InHeap(w.heap, t.val) && Resolved(w.reg, t.schema)
    ensures !ValAll(w, c, s, tasks).verdict.Raise?
    decreases Free(w, c), 1, 0, 1, s, |tasks|
  {
    if tasks != [] {
      NodeNeverRaises(w, c, tasks[0].schema, tasks[0].val);
      AllNeverRaises(w, ValNode(w, c, tasks[0].schema, tasks[0].val).ctx, s, tasks[1..]);
    }
  }

  lemma {:induction false} AnyNeverRaises(w: World, c: Ctx, s: Schema, arms: seq<Schema>, v: Val)
    requires w.Ok() && InHeap(w.heap, v) && AllResolved(w.reg)
    requires forall a | a in arms :: a < s && Bound(w.rank, a) <= Bound(w.rank, s) && Resolved(w.reg, a)
    ensures !ValAny(w, c, s, arms, v).verdict.Raise?
    decreases Free(w, c), if v.Obj? then 1 else 0, if v.Obj? then 0 else Bound(w.rank, s), if v.Obj? then 1 else 0,
              s, |arms|
  {
    if arms != [] {
      assert arms[0] in arms && forall a | a in arms[1..] :: a in arms;
      NodeNeverRaises(w, c, arms[0], v);
      AnyNeverRaises(w, ValNode(w, c, arms[0], v).ctx, s, arms[1..], v);
    }
  }

  /** Every reference resolves, and neither a depth cap nor a bound on cycles can be reached by a
      path over the pairs of `ps`. */
  ghost predicate Roomy(w: World, ps: set<Pair>) {
    && AllResolved(w.reg)
    && forall id | id in w.reg && OfDecl(ps, id) != {} ::
         && (w.reg[id].Cap().Some? ==> |OfDecl(ps, id)| <= w.reg[id].Cap().value)
         && (w.reg[id].cyclic.UpTo? ==> |ps| <= w.reg[id].cyclic.hops)
  }

  ghost predicate PathAbove(c: Ctx, level: map<Pair, nat>, n: nat) {
    forall p | p in c.inflight :: p in level && level[p] >= n
  }

  /** A pair that may be referred to from level `n` is not turned away. */
  lemma GateOpens(w: World, c: Ctx, p: Pair, viaRef: bool, level: map<Pair, nat>, n: nat)
    requires p.id in w.reg && Roomy(w, level.Keys) && PathAbove(c, level, n) && Coherent(w, c)
    requires p in Reach(w, level, n)
    ensures var gate := Gate(w.reg[p.id], c, p, viaRef); gate.None? || gate == Some(Accept)
  {
    hide Resolved, Coherent;
    assert p in OfDecl(level.Keys, p.id);
    if p in c.inflight {
      ContextFits(w, c, level.Keys, p.id);
      InflightOpens(w, c, p, level, n);
    } else {
      ContextFits(w, c, level.Keys - {p}, p.id);
      assert OfDecl(level.Keys, p.id) == OfDecl(level.Keys - {p}, p.id) + {p};
    }
  }

  /** It is on the path only if it is licensed. */
  lemma InflightOpens(w: World, c: Ctx, p: Pair, level: map<Pair, nat>, n: nat)
    requires p.id in w.reg && p in c.inflight && PathAbove(c, level, n) && p in Reach(w, level, n)
    ensures !w.reg[p.id].cyclic.Acyclic?
  {
  }

  lemma PathFollows(w: World, c: Ctx, p: Pair, viaRef: bool, level: map<Pair, nat>, n: nat)
    requires p in Reach(w, level, n) && PathAbove(c, level, n)
    ensures p in level && PathAbove(Push(c, p, viaRef), level, level[p])
  {
  }

  lemma {:induction false} DeclComplete(w: World, c: Ctx, id: Id, v: Val, viaRef: bool, level: map<Pair, nat>, n: nat)
    requires w.Ok() && id in w.reg && InHeap(w.heap, v)
    requires Roomy(w, level.Keys) && Descending(w, level) && PathAbove(c, level, n) && Coherent(w, c)
    requires Obeys(w, id, v, Reach(w, level, n))
    ensures ValDecl(w, c, id, v, viaRef).verdict.Accept?
    decreases Free(w, c), if v.Obj? then 1 else 0, if v.Obj? then 0 else w.rank[id], if v.Obj? then 0 else 1
  {
    hide Coherent, Roomy, Reach, PathAbove;
    Bodies(w, level.Keys);
    if v.Prim? {
      NodeComplete(w, c, w.reg[id].body, v, level, n);
    } else {
      var p := Pair(v.addr, id);
      GateOpens(w, c, p, viaRef, level, n);
      if Gate(w.reg[id], c, p, viaRef).None? {
        assert p in Free(w, c);
        PushCoherent(w, c, p, viaRef);
        PathFollows(w, c, p, viaRef, level, n);
        NodeComplete(w, Push(c, p, viaRef), w.reg[id].body, v, level, level[p]);
      }
    }
  }

  lemma Bodies(w: World, ps: set<Pair>)
    requires Roomy(w, ps)
    ensures forall id | id in w.reg :: Resolved(w.reg, w.reg[id].body)
  {
  }

  lemma {:induction false} NodeComplete(w: World, c: Ctx, s: Schema, v: Val, level: map<Pair, nat>, n: nat)
    requires w.Ok() && InHeap(w.heap, v)
    requires Roomy(w, level.Keys) && Descending(w, level) && PathAbove(c, level, n) && Coherent(w, c)
    requires Resolved(w.reg, s) && Holds(w, s, v, Reach(w, level, n))
    ensures ValNode(w, c, s, v).verdict.Accept?
    decreases Free(w, c), if v.Obj? then 1 else 0, if v.Obj? then 0 else Bound(w.rank, s), if v.Obj? then 1 else 0, s
  {
    hide Coherent, Roomy, Reach, PathAbove;
    ExpandShrinks(w.heap, s, v);
    match Expand(w.heap, s, v)
    case Leaf(_) =>
    case All(tasks) =>
      TasksResolved(w, s, v);
      AllComplete(w, c, s, tasks, level, n);
    case Any(arms) => AnyComplete(w, c, s, arms, v, level, n);
    case Enter(id, viaRef) => DeclComplete(w, c, id, v, viaRef, level, n);
  }

  lemma {:induction false} AllComplete(w: World, c: Ctx, s: Schema, tasks: seq<Task>, level: map<Pair, nat>, n: nat)
    requires w.Ok()
    requires Roomy(w, level.Keys) && Descending(w, level) && PathAbove(c, level, n) && Coherent(w, c)
    requires forall t | t in tasks ::
               && t.schema < s && InHeap(w.heap, t.val) && Resolved(w.reg, t.schema)
               && Holds(w, t.schema, t.val, Reach(w, level, n))
    ensures ValAll(w, c, s, tasks).verdict.Accept?
    decreases Free(w, c), 1, 0, 1, s, |tasks|
  {
    if tasks != [] {
      hide Coherent;
      NodeComplete(w, c, tasks[0].schema, tasks[0].val, level, n);
      NodeCoherent(w, c, tasks[0].schema, tasks[0].val);
      AllComplete(w, ValNode(w, c, tasks[0].schema, tasks[0].val).ctx, s, tasks[1..], level, n);
    }
  }

  lemma {:induction false} AnyComplete(w: World, c: Ctx, s: Schema, arms: seq<Schema>, v: Val, level: map<Pair, nat>,
                                       n: nat)
    requires w.Ok() && InHeap(w.heap, v)
    requires Roomy(w, level.Keys) && Descending(w, level) && PathAbove(c, level, n) && Coherent(w, c)
    requires forall a | a in arms :: a < s && Bound(w.rank, a) <= Bound(w.rank, s) && Resolved(w.reg, a)
    requires exists a | a in arms :: Holds(w, a, v, Reach(w, level, n))
    ensures ValAny(w, c, s, arms, v).verdict.Accept?
    decreases Free(w, c), if v.Obj? then 1 else 0, if v.Obj? then 0 else Bound(w.rank, s), if v.Obj? then 1 else 0,
              s, |arms|
  {
    hide Coherent;
    assert arms[0] in arms && forall a | a in arms[1..] :: a in arms;
    NodeCoherent(w, c, arms[0], v);
    if Holds(w, arms[0], v, Reach(w, level, n)) {
      NodeComplete(w, c, arms[0], v, level, n);
    }
    NodeNeverRaises(w, c, arms[0], v);
    var o := ValNode(w, c, arms[0], v);
    if o.verdict.Reject? {
      var a :| a in arms && Holds(w, a, v, Reach(w, level, n));
      assert a in arms[1..];
      AnyComplete(w, o.ctx, s, arms[1..], v, level, n);
    }
  }

  /** A value with a descending justification is accepted. */
  lemma {:induction false} AcceptComplete(w: World, id: Id, v: Val, level: map<Pair, nat>)
    requires w.Ok() && id in w.reg && InHeap(w.heap, v)
    requires Roomy(w, level.Keys) && Descending(w, level) && Obeys(w, id, v, level.Keys)
    ensures Validate(w, id, v).verdict.Accept?
  {
    var n := if v.Obj? then level[Pair(v.addr, id)] + 1 else MaxLevel(level) + 1;
    if v.Prim? {
      assert Below(level, n) == level.Keys;
      HoldsMonotone(w, w.reg[id].body, v, level.Keys, Reach(w, level, n));
    }
    EmptyCoherent(w);
    DeclComplete(w, EMPTY, id, v, false, level, n);
  }

  ghost function MaxLevel(level: map<Pair, nat>): (m: nat)
    ensures forall p | p in level :: level[p] <= m
  {
    if level == map[] then 0
    else
      var p :| p in level;
      var m := MaxLevel(level - {p});
      assert forall q | q in level :: q == p || q in level - {p};
      if level[p] > m then level[p] else m
  }
}
