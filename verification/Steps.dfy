/** Single steps of the validator's walk. */
module Steps {
  import opened SchemaGraph
  import opened Validator

  lemma {:induction false} StepRef(w: World, c: Ctx, id: Id, v: Val)
    requires w.Ok() && id in w.reg && InHeap(w.heap, v)
    ensures ValNode(w, c, Ref(id), v) == ValDecl(w, c, id, v, true)
  {
  }

  lemma {:induction false} StepBody(w: World, c: Ctx, id: Id, a: Addr, viaRef: bool)
    requires w.Ok() && id in w.reg && a in w.heap && w.reg[id].Cap().None?
    requires Pair(a, id) !in c.inflight && Pair(a, id) !in c.finished
    ensures var p := Pair(a, id);
            var o := ValNode(w, Push(c, p, viaRef), w.reg[id].body, Obj(a));
            var o' := ValDecl(w, c, id, Obj(a), viaRef);
            && o'.verdict == o.verdict
            && o'.ctx.finished == if o.verdict.Accept? then o.ctx.finished + [p] else o.ctx.finished
  {
    assert Pair(a, id) in Free(w, c);
  }

  lemma {:induction false} StepOne(w: World, c: Ctx, s: Schema, v: Val, t: Task)
    requires w.Ok() && InHeap(w.heap, v) && Expand(w.heap, s, v) == All([t])
    ensures InHeap(w.heap, t.val) && ValNode(w, c, s, v) == ValNode(w, c, t.schema, t.val)
  {
    ExpandShrinks(w.heap, s, v);
    assert t in [t] && [t][1..] == [];
    assert ValAll(w, ValNode(w, c, t.schema, t.val).ctx, s, []) == Outcome(Accept, ValNode(w, c, t.schema, t.val).ctx);
  }

  lemma {:induction false} StepTwo(w: World, c: Ctx, s: Schema, v: Val, t: Task, u: Task)
    requires w.Ok() && InHeap(w.heap, v) && Expand(w.heap, s, v) == All([t, u])
    requires InHeap(w.heap, t.val) && ValNode(w, c, t.schema, t.val).verdict.Accept?
    requires InHeap(w.heap, u.val) && Expand(w.heap, u.schema, u.val) == Leaf(false)
    ensures ValNode(w, c, s, v) == Outcome(Reject, ValNode(w, c, t.schema, t.val).ctx)
  {
    ExpandShrinks(w.heap, s, v);
    assert t in [t, u] && u in [t, u] && [t, u][1..] == [u];
    var c' := ValNode(w, c, t.schema, t.val).ctx;
    assert ValAll(w, c', s, [u]) == Outcome(Reject, c');
  }

  lemma {:induction false} StepUnion(w: World, c: Ctx, s: Schema, v: Val, first: Schema, second: Schema)
    requires w.Ok() && InHeap(w.heap, v) && Expand(w.heap, s, v) == Any([first, second])
    requires ValNode(w, c, first, v).verdict.Reject?
    requires ValNode(w, ValNode(w, c, first, v).ctx, second, v).verdict.Accept?
    ensures ValNode(w, c, s, v).verdict.Accept?
  {
    ExpandShrinks(w.heap, s, v);
    var arms := [first, second];
    assert first in arms && second in arms && arms[1..] == [second];
    assert ValAny(w, ValNode(w, c, first, v).ctx, s, [second], v).verdict.Accept?;
  }

  /** The part is accepted without entering a declaration. */
  ghost predicate Settled(w: World, t: Task)
    requires InHeap(w.heap, t.val)
  {
    Expand(w.heap, t.schema, t.val) == Leaf(true)
  }

  lemma {:induction false} StepSettled(w: World, c: Ctx, s: Schema, tasks: seq<Task>)
    requires w.Ok() && forall t | t in tasks :: t.schema < s && InHeap(w.heap, t.val) && Settled(w, t)
    ensures ValAll(w, c, s, tasks) == Outcome(Accept, c)
    decreases |tasks|
  {
    if tasks != [] { StepSettled(w, c, s, tasks[1..]); }
  }

  /** Of the parts of a value, all but one are settled. */
  lemma {:induction false} StepAmong(w: World, c: Ctx, s: Schema, before: seq<Task>, t: Task, after: seq<Task>)
    requires w.Ok() && t.schema < s && InHeap(w.heap, t.val)
    requires forall u | u in before + after :: u.schema < s && InHeap(w.heap, u.val) && Settled(w, u)
    ensures forall u | u in before + [t] + after :: u.schema < s && InHeap(w.heap, u.val)
    ensures ValAll(w, c, s, before + [t] + after).verdict == ValNode(w, c, t.schema, t.val).verdict
    decreases |before|
  {
    var tasks := before + [t] + after;
    if before == [] {
      assert tasks[0] == t && tasks[1..] == after;
      StepSettled(w, ValNode(w, c, t.schema, t.val).ctx, s, after);
    } else {
      assert tasks[0] == before[0] && tasks[1..] == before[1..] + [t] + after;
      assert before[0] in before + after && forall u | u in before[1..] + after :: u in before + after;
      StepAmong(w, c, s, before[1..], t, after);
    }
  }
}
