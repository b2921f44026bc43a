/** An accepted value obeys the rules. */
module ValidatorSound {
  import opened SchemaGraph
  import opened Validator
  import opened Rules

  /** The schema node is decided without entering a declaration, and rejects every object. */
  predicate PrimOnly(s: Schema) {
    s.Node? && s.union.NoUnion? && (s.enums.Some? || s.kind.Scalar?)
  }

  /** The schema enters no declaration. */
  ghost predicate Inert(s: Schema) {
    match s
    case Ref(_) => false
    case Embed(_) => false
    case Node(_, union, _, items, _, _, properties, _) =>
      && (union.AnyOf? ==> forall a | a in union.arms :: Inert(a))
      && (items.Some? ==> Inert(items.value))
      && (properties.Properties? ==> forall p | p in properties.list :: Inert(p.schema))
  }

  /** The first arm leaves nothing in the memo, or the second one accepts no object. */
  ghost predicate Apart(arm: Schema, later: Schema) { Inert(arm) || PrimOnly(arm) || PrimOnly(later) }

  /** In every union, an arm that enters a declaration is followed only by arms that accept no
      object, as in `Node | null` or in unions of plain objects with one recursive arm last. */
  ghost predicate Tame(s: Schema) {
    s.Node? ==>
      && (s.union.AnyOf? ==>
            && (forall i, j | 0 <= i < j < |s.union.arms| :: Apart(s.union.arms[i], s.union.arms[j]))
            && forall a | a in s.union.arms :: Tame(a))
      && (s.items.Some? ==> Tame(s.items.value))
      && (s.properties.Properties? ==> forall p | p in s.properties.list :: Tame(p.schema))
  }

  ghost predicate TameWorld(w: World) {
    forall id | id in w.reg :: Tame(w.reg[id].body)
  }

  /** No declaration accepts a value because it is on the path. */
  ghost predicate Inductive(w: World) {
    forall id | id in w.reg :: w.reg[id].cyclic.Acyclic?
  }

  /** Either what a rejecting walk leaves in the memo is right, or nothing reads it. */
  ghost predicate Trusted(w: World, s: Schema) { Inductive(w) || Tame(s) }

  ghost predicate TrustedWorld(w: World) { Inductive(w) || TameWorld(w) }

  /** The pairs that an accept may rest on: what is memoized, and what is in flight under a
      declaration that licenses cycles. */
  ghost function Support(w: World, c: Ctx): set<Pair> {
    Elems(c.finished) + CyclicOnly(w, c.inflight.Keys)
  }

  /** Each memoized pair obeys the rules given the pairs memoized before it, and any pair of a
      cyclic declaration that is memoized or in flight. */
  ghost predicate Justified(w: World, c: Ctx)
    requires w.Ok()
  {
    forall i | 0 <= i < |c.finished| ::
      c.finished[i] in w.Pairs() && JustifiedAt(w, c, i)
  }

  ghost predicate JustifiedAt(w: World, c: Ctx, i: nat)
    requires w.Ok() && i < |c.finished| && c.finished[i] in w.Pairs()
  {
    var p := c.finished[i];
    Holds(w, w.reg[p.id].body, Obj(p.addr),
          Elems(c.finished[..i]) + CyclicOnly(w, Elems(c.finished) + c.inflight.Keys))
  }

  lemma {:induction false} DeclSound(w: World, c: Ctx, id: Id, v: Val, viaRef: bool)
    requires w.Ok() && id in w.reg && InHeap(w.heap, v)
    requires TrustedWorld(w) && Justified(w, c)
    ensures var o := ValDecl(w, c, id, v, viaRef);
            && (o.verdict.Accept? || Inductive(w) ==> Justified(w, o.ctx))
            && (o.verdict.Accept? ==> Obeys(w, id, v, Support(w, o.ctx)))
    decreases Free(w, c), if v.Obj? then 1 else 0, if v.Obj? then 0 else w.rank[id], if v.Obj? then 0 else 1
  {
    if v.Prim? {
      NodeSound(w, c, w.reg[id].body, v);
    } else {
      var p := Pair(v.addr, id);
      if Gate(w.reg[id], c, p, viaRef).None? {
        assert p in Free(w, c);
        JustifiedPush(w, c, p, viaRef);
        var c' := Push(c, p, viaRef);
        NodeSound(w, c', w.reg[id].body, v);
        var o := ValNode(w, c', w.reg[id].body, v);
        if o.verdict.Accept? {
          Memoize(w, c, p, viaRef, o.ctx);
        } else if Inductive(w) {
          Discard(w, c, p, viaRef, o.ctx);
        }
      }
    }
  }

  /** A justification survives when the pairs it may rest on grow. */
  lemma Reground(w: World, c: Ctx, c': Ctx, i: nat)
    requires w.Ok() && i < |c.finished| && c.finished[i] in w.Pairs() && JustifiedAt(w, c, i)
    requires c.finished <= c'.finished
    requires CyclicOnly(w, c.inflight.Keys) <= CyclicOnly(w, Elems(c'.finished) + c'.inflight.Keys)
    ensures JustifiedAt(w, c', i)
  {
    var p := c.finished[i];
    assert c'.finished[..i] == c.finished[..i];
    HoldsMonotone(w, w.reg[p.id].body, Obj(p.addr),
                  Elems(c.finished[..i]) + CyclicOnly(w, Elems(c.finished) + c.inflight.Keys),
                  Elems(c'.finished[..i]) + CyclicOnly(w, Elems(c'.finished) + c'.inflight.Keys));
  }

  lemma JustifiedPush(w: World, c: Ctx, p: Pair, viaRef: bool)
    requires w.Ok() && Justified(w, c)
    ensures Justified(w, Push(c, p, viaRef))
  {
    var c' := Push(c, p, viaRef);
    forall i | 0 <= i < |c'.finished| ensures JustifiedAt(w, c', i) {
      assert JustifiedAt(w, c, i);
      Reground(w, c, c', i);
    }
  }

  /** Leaving an accepted frame moves its pair from the path to the memo. */
  lemma {:induction false} Memoize(w: World, c: Ctx, p: Pair, viaRef: bool, inner: Ctx)
    requires w.Ok() && p in w.Pairs() && p !in c.inflight
    requires Restored(Push(c, p, viaRef), inner) && Justified(w, inner)
    requires Holds(w, w.reg[p.id].body, Obj(p.addr), Support(w, inner))
    ensures var c' := Pop(inner, p, viaRef, DepthOf(c.depths, p.id));
            Justified(w, c'.(finished := c'.finished + [p]))
  {
    var c' := Pop(inner, p, viaRef, DepthOf(c.depths, p.id));
    var c'' := c'.(finished := c'.finished + [p]);
    var n := |inner.finished|;
    assert p in Elems(c''.finished) by { assert c''.finished[n] == p; }
    forall q | q in inner.inflight ensures q in Elems(c''.finished) + c''.inflight.Keys {
      if q != p { assert q in c''.inflight; }
    }
    forall i | 0 <= i < |c''.finished| ensures c''.finished[i] in w.Pairs() && JustifiedAt(w, c'', i) {
      if i < n {
        assert c''.finished[i] == inner.finished[i];
        assert JustifiedAt(w, inner, i);
        Reground(w, inner, c'', i);
      } else {
        assert c''.finished[..n] == inner.finished;
        HoldsMonotone(w, w.reg[p.id].body, Obj(p.addr), Support(w, inner),
                      Elems(c''.finished[..n]) + CyclicOnly(w, Elems(c''.finished) + c''.inflight.Keys));
      }
    }
  }

  /** Leaving a rejected frame keeps the memo, which rests on nothing in flight. */
  lemma Discard(w: World, c: Ctx, p: Pair, viaRef: bool, inner: Ctx)
    requires w.Ok() && Restored(Push(c, p, viaRef), inner) && Justified(w, inner) && Inductive(w)
    ensures Justified(w, Pop(inner, p, viaRef, DepthOf(c.depths, p.id)))
  {
    var c' := Pop(inner, p, viaRef, DepthOf(c.depths, p.id));
    forall i | 0 <= i < |c'.finished| ensures JustifiedAt(w, c', i) {
      assert JustifiedAt(w, inner, i);
      Reground(w, inner, c', i);
    }
  }

  lemma {:induction false} NodeSound(w: World, c: Ctx, s: Schema, v: Val)
    requires w.Ok() && InHeap(w.heap, v)
    requires TrustedWorld(w) && Trusted(w, s) && Justified(w, c)
    ensures var o := ValNode(w, c, s, v);
            && (o.verdict.Accept? || Inductive(w) ==> Justified(w, o.ctx))
            && (o.verdict.Accept? ==> Holds(w, s, v, Support(w, o.ctx)))
    decreases Free(w, c), if v.Obj? then 1 else 0, if v.Obj? then 0 else Bound(w.rank, s), if v.Obj? then 1 else 0, s
  {
    ExpandShrinks(w.heap, s, v);
    match Expand(w.heap, s, v)
    case Leaf(_) =>
    case All(tasks) =>
      TasksTrusted(w, s, v);
      AllSound(w, c, s, tasks);
    case Any(arms) => AnySound(w, c, s, arms, v);
    case Enter(id, viaRef) => if id in w.reg { DeclSound(w, c, id, v, viaRef); }
  }

  lemma {:induction false} TasksTame(heap: Heap, s: Schema, v: Val)
    requires InHeap(heap, v) && Tame(s) && Expand(heap, s, v).All?
    ensures forall t | t in Expand(heap, s, v).tasks :: Tame(t.schema)
  {
  }

  lemma TasksTrusted(w: World, s: Schema, v: Val)
    requires InHeap(w.heap, v) && Trusted(w, s) && Expand(w.heap, s, v).All?
    ensures forall t | t in Expand(w.heap, s, v).tasks :: Trusted(w, t.schema)
  {
    if Tame(s) { TasksTame(w.heap, s, v); }
  }

  lemma {:induction false} AllSound(w: World, c: Ctx, s: Schema, tasks: seq<Task>)
    requires w.Ok()
    requires forall t | t in tasks :: t.schema < s && InHeap(w.heap, t.val) && Trusted(w, t.schema)
    requires TrustedWorld(w) && Justified(w, c)
    ensures var o := ValAll(w, c, s, tasks);
            && (o.verdict.Accept? || Inductive(w) ==> Justified(w, o.ctx))
            && (o.verdict.Accept? ==> forall t | t in tasks :: Holds(w, t.schema, t.val, Support(w, o.ctx)))
    decreases Free(w, c), 1, 0, 1, s, |tasks|
  {
    if tasks != [] {
      var head := tasks[0];
      NodeSound(w, c, head.schema, head.val);
      var o := ValNode(w, c, head.schema, head.val);
      if o.verdict.Accept? {
        AllSound(w, o.ctx, s, tasks[1..]);
        var o' := ValAll(w, o.ctx, s, tasks[1..]);
        if o'.verdict.Accept? {
          HoldsMonotone(w, head.schema, head.val, Support(w, o.ctx), Support(w, o'.ctx));
        }
      }
    }
  }

  /** Either what a failed arm leaves in the memo is right, or it was the arm that can accept
      objects: then the arms after it reject the object too, and what it left is never used. */
  lemma {:induction false} AnySound(w: World, c: Ctx, s: Schema, arms: seq<Schema>, v: Val)
    requires w.Ok() && InHeap(w.heap, v)
    requires forall a | a in arms :: a < s && Bound(w.rank, a) <= Bound(w.rank, s) && Trusted(w, a)
    requires Inductive(w) || forall i, j | 0 <= i < j < |arms| :: Apart(arms[i], arms[j])
    requires TrustedWorld(w) && Justified(w, c)
    ensures var o := ValAny(w, c, s, arms, v);
            && (o.verdict.Accept? || Inductive(w) ==> Justified(w, o.ctx))
            && (o.verdict.Accept? ==> exists a | a in arms :: Holds(w, a, v, Support(w, o.ctx)))
    decreases Free(w, c), if v.Obj? then 1 else 0, if v.Obj? then 0 else Bound(w.rank, s), if v.Obj? then 1 else 0,
              s, |arms|
  {
    if arms != [] {
      assert arms[0] in arms && forall a | a in arms[1..] :: a in arms;
      NodeSound(w, c, arms[0], v);
      var o := ValNode(w, c, arms[0], v);
      if o.verdict.Reject? {
        if v.Prim? || Inert(arms[0]) || PrimOnly(arms[0]) || Inductive(w) {
          if Inert(arms[0]) { InertLeavesNothing(w, c, arms[0], v); }
          AnySound(w, o.ctx, s, arms[1..], v);
        } else {
          forall a | a in arms[1..] ensures a in arms && PrimOnly(a) {
            var j :| 0 <= j < |arms[1..]| && arms[1..][j] == a;
            assert arms[j + 1] == a;
          }
          PrimOnlyReject(w, o.ctx, s, arms[1..], v);
        }
      }
    }
  }

  /** Without declarations to enter, the walk leaves the context alone. */
  lemma {:induction false} InertLeavesNothing(w: World, c: Ctx, s: Schema, v: Val)
    requires w.Ok() && InHeap(w.heap, v) && Inert(s)
    ensures ValNode(w, c, s, v).ctx == c
    decreases s, 1
  {
    ExpandShrinks(w.heap, s, v);
    match Expand(w.heap, s, v)
    case Leaf(_) =>
    case All(tasks) => InertTasks(w, c, s, tasks);
    case Any(arms) => InertArms(w, c, s, arms, v);
  }

  lemma {:induction false} InertTasks(w: World, c: Ctx, s: Schema, tasks: seq<Task>)
    requires w.Ok() && forall t | t in tasks :: t.schema < s && InHeap(w.heap, t.val) && Inert(t.schema)
    ensures ValAll(w, c, s, tasks).ctx == c
    decreases s, 0, |tasks|
  {
    if tasks != [] {
      InertLeavesNothing(w, c, tasks[0].schema, tasks[0].val);
      InertTasks(w, c, s, tasks[1..]);
    }
  }

  lemma {:induction false} InertArms(w: World, c: Ctx, s: Schema, arms: seq<Schema>, v: Val)
    requires w.Ok() && InHeap(w.heap, v)
    requires forall a | a in arms :: a < s && Bound(w.rank, a) <= Bound(w.rank, s) && Inert(a)
    ensures ValAny(w, c, s, arms, v).ctx == c
    decreases s, 0, |arms|
  {
    if arms != [] {
      assert arms[0] in arms && forall a | a in arms[1..] :: a in arms;
      InertLeavesNothing(w, c, arms[0], v);
      InertArms(w, c, s, arms[1..], v);
    }
  }

  lemma {:induction false} PrimOnlyReject(w: World, c: Ctx, s: Schema, arms: seq<Schema>, v: Val)
    requires w.Ok() && InHeap(w.heap, v) && v.Obj?
    requires forall a | a in arms :: a < s && Bound(w.rank, a) <= Bound(w.rank, s) && PrimOnly(a)
    ensures ValAny(w, c, s, arms, v) == Outcome(Reject, c)
    decreases |arms|
  {
    if arms != [] {
      assert arms[0] in arms && forall a | a in arms[1..] :: a in arms;
      PrimOnlyReject(w, c, s, arms[1..], v);
    }
  }

  lemma {:induction false} EarlierIsBelow(ps: seq<Pair>, i: nat)
    requires i <= |ps|
    ensures Elems(ps[..i]) <= Below(Positions(ps), i)
  {
    forall q | q in Elems(ps[..i]) ensures q in Below(Positions(ps), i) {
      var j :| 0 <= j < i && ps[..i][j] == q;
      assert ps[j] == q;
    }
  }

  lemma {:induction false} FinishOrder(w: World, c: Ctx, level: map<Pair, nat>, p: Pair)
    requires w.Ok() && Justified(w, c) && c.inflight == map[]
    requires p in Positions(c.finished) && level == Positions(c.finished)
    ensures p in w.Pairs()
    ensures Holds(w, w.reg[p.id].body, Obj(p.addr), Below(level, level[p]) + CyclicOnly(w, level.Keys))
  {
    var done, i := c.finished, level[p];
    assert JustifiedAt(w, c, i);
    EarlierIsBelow(done, i);
    HoldsMonotone(w, w.reg[p.id].body, Obj(p.addr),
                  Elems(done[..i]) + CyclicOnly(w, Elems(done) + c.inflight.Keys),
                  Below(level, i) + CyclicOnly(w, level.Keys));
  }

  lemma FinishStratified(w: World, c: Ctx, id: Id, v: Val)
    requires w.Ok() && Justified(w, c) && c.inflight == map[]
    requires id in w.reg && InHeap(w.heap, v) && Obeys(w, id, v, Support(w, c))
    ensures Stratified(w, Positions(c.finished)) && Obeys(w, id, v, Positions(c.finished).Keys)
  {
    var level := Positions(c.finished);
    assert Support(w, c) == level.Keys;
    forall p | p in level
      ensures p in w.Pairs()
      ensures Holds(w, w.reg[p.id].body, Obj(p.addr), Below(level, level[p]) + CyclicOnly(w, level.Keys))
    {
      FinishOrder(w, c, level, p);
    }
  }

  /** Every accepted value has a stratified justification, whatever the depth caps and cycle
      bounds: the order in which the walk finished. */
  lemma {:induction false} AcceptSound(w: World, id: Id, v: Val)
    requires w.Ok() && id in w.reg && InHeap(w.heap, v) && TrustedWorld(w)
    requires Validate(w, id, v).verdict.Accept?
    ensures var level := Positions(Validate(w, id, v).ctx.finished);
            Stratified(w, level) && Obeys(w, id, v, level.Keys)
  {
    DeclSound(w, EMPTY, id, v, false);
    FinishStratified(w, Validate(w, id, v).ctx, id, v);
  }
}
