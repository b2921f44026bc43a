/** Declarations without references are walked without a context: no memo, no path, no counters.
    The verdict is the one that the full machinery would give. */
module FastPath {
  import opened SchemaGraph
  import opened Validator

  /** No reference anywhere in the schema, and every embedded declaration is nested below `n`. */
  ghost predicate Under(reg: Registry, nest: map<Id, nat>, s: Schema, n: nat) {
    match s
    case Ref(_) => false
    case Embed(t) => t in reg ==> t in nest && nest[t] < n
    case Node(_, union, _, items, _, _, properties, _) =>
      && (union.AnyOf? ==> forall a | a in union.arms :: Under(reg, nest, a, n))
      && (items.Some? ==> Under(reg, nest, items.value, n))
      && (properties.Properties? ==> forall p | p in properties.list :: Under(reg, nest, p.schema, n))
  }

  /** Declarations without references, each embedding only declarations that were made before it. */
  ghost predicate RefFree(reg: Registry, nest: map<Id, nat>) {
    forall id | id in nest :: id in reg && Under(reg, nest, reg[id].body, nest[id])
  }

  lemma {:induction false} TasksUnder(w: World, nest: map<Id, nat>, s: Schema, v: Val, n: nat)
    requires w.Ok() && InHeap(w.heap, v) && Under(w.reg, nest, s, n) && Expand(w.heap, s, v).All?
    ensures forall t | t in Expand(w.heap, s, v).tasks :: Under(w.reg, nest, t.schema, n)
  {
  }

  /** The walk without a context. */
  ghost function Plain(w: World, nest: map<Id, nat>, s: Schema, v: Val, n: nat): Verdict
    requires w.Ok() && InHeap(w.heap, v) && RefFree(w.reg, nest) && Under(w.reg, nest, s, n)
    decreases n, s
  {
    ExpandShrinks(w.heap, s, v);
    match Expand(w.heap, s, v)
    case Leaf(ok) => if ok then Accept else Reject
    case All(tasks) =>
      TasksUnder(w, nest, s, v, n);
      PlainAll(w, nest, s, tasks, n)
    case Any(arms) => PlainAny(w, nest, s, arms, v, n)
    case Enter(id, _) => if id in w.reg then Plain(w, nest, w.reg[id].body, v, nest[id]) else Raise
  }

  ghost function PlainAll(w: World, nest: map<Id, nat>, s: Schema, tasks: seq<Task>, n: nat): Verdict
    requires w.Ok() && RefFree(w.reg, nest)
    requires forall t | t in tasks :: t.schema < s && InHeap(w.heap, t.val) && Under(w.reg, nest, t.schema, n)
    decreases n, s, |tasks|
  {
    if tasks == [] then Accept
    else
      var verdict := Plain(w, nest, tasks[0].schema, tasks[0].val, n);
      if verdict.Accept? then PlainAll(w, nest, s, tasks[1..], n) else verdict
  }

  ghost function PlainAny(w: World, nest: map<Id, nat>, s: Schema, arms: seq<Schema>, v: Val, n: nat): Verdict
    requires w.Ok() && InHeap(w.heap, v) && RefFree(w.reg, nest)
    requires forall a | a in arms :: a < s && Under(w.reg, nest, a, n)
    decreases n, s, |arms|
  {
    if arms == [] then Reject
    else
      assert arms[0] in arms && forall a | a in arms[1..] :: a in arms;
      var verdict := Plain(w, nest, arms[0], v, n);
      if verdict.Reject? then PlainAny(w, nest, s, arms[1..], v, n) else verdict
  }

  /** The pairs on the path lie above `n`, and a memoized pair would be accepted again. */
  ghost predicate Agrees(w: World, nest: map<Id, nat>, c: Ctx, n: nat)
    requires w.Ok() && RefFree(w.reg, nest)
  {
    && (forall p | p in c.inflight :: p.id in nest && nest[p.id] >= n)
    && (forall p | p in c.finished :: Confirmed(w, nest, p))
  }

  ghost predicate Confirmed(w: World, nest: map<Id, nat>, p: Pair)
    requires w.Ok() && RefFree(w.reg, nest)
  {
    p.id in nest && p.addr in w.heap && Plain(w, nest, w.reg[p.id].body, Obj(p.addr), nest[p.id]).Accept?
  }

  lemma {:induction false} DeclAgrees(w: World, nest: map<Id, nat>, c: Ctx, id: Id, v: Val)
    requires w.Ok() && InHeap(w.heap, v) && RefFree(w.reg, nest) && id in nest
    requires Agrees(w, nest, c, nest[id] + 1)
    ensures var o := ValDecl(w, c, id, v, false);
            && o.verdict == Plain(w, nest, w.reg[id].body, v, nest[id])
            && Agrees(w, nest, o.ctx, nest[id] + 1)
    decreases nest[id], 1
  {
    hide Plain;
    if v.Prim? {
      NodeAgrees(w, nest, c, w.reg[id].body, v, nest[id]);
    } else {
      var p := Pair(v.addr, id);
      if p in c.finished { assert Confirmed(w, nest, p); }
      if Gate(w.reg[id], c, p, false).None? {
        assert p in Free(w, c);
        NodeAgrees(w, nest, Push(c, p, false), w.reg[id].body, v, nest[id]);
      }
    }
  }

  lemma {:induction false} NodeAgrees(w: World, nest: map<Id, nat>, c: Ctx, s: Schema, v: Val, n: nat)
    requires w.Ok() && InHeap(w.heap, v) && RefFree(w.reg, nest) && Under(w.reg, nest, s, n)
    requires Agrees(w, nest, c, n)
    ensures var o := ValNode(w, c, s, v);
            o.verdict == Plain(w, nest, s, v, n) && Agrees(w, nest, o.ctx, n)
    decreases n, 0, s
  {
    ExpandShrinks(w.heap, s, v);
    match Expand(w.heap, s, v)
    case Leaf(_) =>
    case All(tasks) =>
      TasksUnder(w, nest, s, v, n);
      AllAgree(w, nest, c, s, tasks, n);
    case Any(arms) => AnyAgrees(w, nest, c, s, arms, v, n);
    case Enter(id, _) => if id in w.reg { DeclAgrees(w, nest, c, id, v); }
  }

  lemma {:induction false} AllAgree(w: World, nest: map<Id, nat>, c: Ctx, s: Schema, tasks: seq<Task>, n: nat)
    requires w.Ok() && RefFree(w.reg, nest) && Agrees(w, nest, c, n)
    requires forall t | t in tasks :: t.schema < s && InHeap(w.heap, t.val) && Under(w.reg, nest, t.schema, n)
    ensures var o := ValAll(w, c, s, tasks);
            o.verdict == PlainAll(w, nest, s, tasks, n) && Agrees(w, nest, o.ctx, n)
    decreases n, 0, s, |tasks|
  {
    if tasks != [] {
      NodeAgrees(w, nest, c, tasks[0].schema, tasks[0].val, n);
      var o := ValNode(w, c, tasks[0].schema, tasks[0].val);
      if o.verdict.Accept? { AllAgree(w, nest, o.ctx, s, tasks[1..], n); }
    }
  }

  lemma {:induction false} AnyAgrees(w: World, nest: map<Id, nat>, c: Ctx, s: Schema, arms: seq<Schema>, v: Val, n: nat)
    requires w.Ok() && InHeap(w.heap, v) && RefFree(w.reg, nest) && Agrees(w, nest, c, n)
    requires forall a | a in arms :: a < s && Bound(w.rank, a) <= Bound(w.rank, s) && Under(w.reg, nest, a, n)
    ensures var o := ValAny(w, c, s, arms, v);
            o.verdict == PlainAny(w, nest, s, arms, v, n) && Agrees(w, nest, o.ctx, n)
    decreases n, 0, s, |arms|
  {
    if arms != [] {
      assert arms[0] in arms && forall a | a in arms[1..] :: a in arms;
      NodeAgrees(w, nest, c, arms[0], v, n);
      var o := ValNode(w, c, arms[0], v);
      if o.verdict.Reject? { AnyAgrees(w, nest, o.ctx, s, arms[1..], v, n); }
    }
  }

  /** Leaving the machinery out changes no verdict, on cyclic values either. */
  lemma {:induction false} FastPathAgrees(w: World, nest: map<Id, nat>, id: Id, v: Val)
    requires w.Ok() && InHeap(w.heap, v) && RefFree(w.reg, nest) && id in nest
    ensures Plain(w, nest, w.reg[id].body, v, nest[id]) == Validate(w, id, v).verdict
  {
    DeclAgrees(w, nest, EMPTY, id, v);
  }
}
