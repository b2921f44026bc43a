/** What `cyclic(x)` and `depth(n)` mean, on loops and chains of every length. */
module Limits {
  import opened SchemaGraph
  import opened Validator
  import opened Steps

  /** The objects of a line, one after another, under one declaration. */
  ghost predicate Line(w: World, id: Id, addrs: seq<Addr>) {
    && w.Ok() && id in w.reg && addrs != []
    && (forall i | 0 <= i < |addrs| :: addrs[i] in w.heap)
    && (forall i, j | 0 <= i < j < |addrs| :: addrs[i] != addrs[j])
  }

  /** Of what the declaration demands of object `a`, one part is a reference to `b` under the same
      declaration, and the others are settled. */
  ghost predicate LinksTo(w: World, id: Id, a: Addr, b: Addr)
    requires id in w.reg && a in w.heap
  {
    exists before, after :: LinksAmong(w, id, a, b, before, after)
  }

  ghost predicate LinksAmong(w: World, id: Id, a: Addr, b: Addr, before: seq<Task>, after: seq<Task>)
    requires id in w.reg && a in w.heap
  {
    && Expand(w.heap, w.reg[id].body, Obj(a)) == All(before + [Task(Ref(id), Obj(b))] + after)
    && forall u | u in before + after :: InHeap(w.heap, u.val) && Settled(w, u)
  }

  /** All that the declaration demands of the object is settled. */
  ghost predicate EndsAt(w: World, id: Id, a: Addr)
    requires id in w.reg && a in w.heap
  {
    var e := Expand(w.heap, w.reg[id].body, Obj(a));
    e.All? && forall u | u in e.tasks :: InHeap(w.heap, u.val) && Settled(w, u)
  }

  /** The walk of `a` gives the verdict of the entry into `b`. */
  lemma {:induction false} FollowLink(w: World, c: Ctx, id: Id, a: Addr, b: Addr)
    requires w.Ok() && id in w.reg && a in w.heap && b in w.heap && LinksTo(w, id, a, b)
    ensures ValNode(w, c, w.reg[id].body, Obj(a)).verdict == ValDecl(w, c, id, Obj(b), true).verdict
  {
    hide ValDecl;
    var s, t := w.reg[id].body, Task(Ref(id), Obj(b));
    var before, after :| LinksAmong(w, id, a, b, before, after);
    var tasks := before + [t] + after;
    ExpandShrinks(w.heap, s, Obj(a));
    assert t in tasks && forall u | u in before + after :: u in tasks;
    StepAmong(w, c, s, before, t, after);
    StepRef(w, c, id, Obj(b));
  }

  ghost predicate LinkedAt(w: World, id: Id, addrs: seq<Addr>, i: nat)
    requires Line(w, id, addrs) && i + 1 < |addrs|
  {
    LinksTo(w, id, addrs[i], addrs[i + 1])
  }

  ghost predicate Linked(w: World, id: Id, addrs: seq<Addr>)
    requires Line(w, id, addrs)
  {
    forall i | 0 <= i < |addrs| - 1 :: LinkedAt(w, id, addrs, i)
  }

  /** The walk has entered the first `i` objects, and finished none. */
  ghost predicate Reached(w: World, id: Id, addrs: seq<Addr>, c: Ctx, i: nat)
    requires Line(w, id, addrs) && i < |addrs|
  {
    && |c.frames| == i && c.finished == []
    && (forall p | p in c.inflight :: exists j :: 0 <= j < i && p == Pair(addrs[j], id))
    && (i > 0 ==> Pair(addrs[0], id) in c.inflight && c.inflight[Pair(addrs[0], id)] == 0)
    && DepthOf(c.depths, id) == if i > 0 then i - 1 else 0
  }

  /** One more object is entered, and the walk goes on to `b`. */
  lemma {:induction false} Advance(w: World, id: Id, addrs: seq<Addr>, c: Ctx, i: nat, b: Addr)
    requires Line(w, id, addrs) && i < |addrs| && Reached(w, id, addrs, c, i)
    requires LinksTo(w, id, addrs[i], b) && b in w.heap
    requires !(i > 0 && w.reg[id].Capped(i))
    ensures var c' := Push(c, Pair(addrs[i], id), i > 0);
            && (i + 1 < |addrs| ==> Reached(w, id, addrs, c', i + 1))
            && |c'.frames| == i + 1 && c'.finished == []
            && (Pair(addrs[0], id) in c'.inflight && c'.inflight[Pair(addrs[0], id)] == 0)
            && DepthOf(c'.depths, id) == i
            && ValDecl(w, c, id, Obj(addrs[i]), i > 0).verdict == ValDecl(w, c', id, Obj(b), true).verdict
  {
    var p := Pair(addrs[i], id);
    var c' := Push(c, p, i > 0);
    assert p !in c.inflight;
    assert p in Free(w, c);
    FollowLink(w, c', id, addrs[i], b);
    if i + 1 < |addrs| {
      forall q | q in c'.inflight ensures exists j :: 0 <= j < i + 1 && q == Pair(addrs[j], id) {
        if q == p { assert q == Pair(addrs[i], id); }
      }
    }
  }

  // ---------- Loops ----------

  lemma {:induction false} RingFrom(w: World, id: Id, addrs: seq<Addr>, hops: nat, c: Ctx, i: nat)
    requires Line(w, id, addrs) && Linked(w, id, addrs) && LinksTo(w, id, addrs[|addrs| - 1], addrs[0])
    requires w.reg[id].cyclic == UpTo(hops) && w.reg[id].Cap().None?
    requires i < |addrs| && Reached(w, id, addrs, c, i)
    ensures ValDecl(w, c, id, Obj(addrs[i]), i > 0).verdict == if |addrs| <= hops then Accept else Reject
    decreases |addrs| - i
  {
    hide LinksTo, EndsAt, Reached, ValDecl;
    var c' := Push(c, Pair(addrs[i], id), i > 0);
    if i + 1 < |addrs| {
      assert LinkedAt(w, id, addrs, i);
      Advance(w, id, addrs, c, i, addrs[i + 1]);
      RingFrom(w, id, addrs, hops, c', i + 1);
    } else {
      Advance(w, id, addrs, c, i, addrs[0]);
      Closes(w, id, addrs[0], hops, c', |addrs|);
    }
  }

  lemma {:induction false} Closes(w: World, id: Id, a: Addr, hops: nat, c: Ctx, n: nat)
    requires w.Ok() && id in w.reg && a in w.heap && w.reg[id].cyclic == UpTo(hops)
    requires |c.frames| == n && c.finished == [] && Pair(a, id) in c.inflight && c.inflight[Pair(a, id)] == 0
    ensures ValDecl(w, c, id, Obj(a), true).verdict == if n <= hops then Accept else Reject
  {
  }

  /** A loop of objects under a `cyclic(x)` declaration is accepted if and only if it has at most
      `x` objects. */
  lemma CyclicMeansLoopLength(w: World, id: Id, addrs: seq<Addr>, hops: nat)
    requires Line(w, id, addrs) && Linked(w, id, addrs) && LinksTo(w, id, addrs[|addrs| - 1], addrs[0])
    requires w.reg[id].cyclic == UpTo(hops) && w.reg[id].Cap().None?
    ensures Validate(w, id, Obj(addrs[0])).verdict.Accept? <==> |addrs| <= hops
  {
    RingFrom(w, id, addrs, hops, EMPTY, 0);
  }

  /** An entry into a declaration that the same object has entered before: from a finished one it is
      accepted at any depth, and inside an unfinished one as the declaration allows cycles. */
  lemma {:induction false} ReturnsDecided(w: World, c: Ctx, id: Id, a: Addr, viaRef: bool)
    requires w.Ok() && id in w.reg && a in w.heap && (Pair(a, id) in c.finished || Pair(a, id) in c.inflight)
    ensures var o := ValDecl(w, c, id, Obj(a), viaRef);
            && o.ctx == c
            && (Pair(a, id) in c.finished ==> o.verdict == Accept)
            && (Pair(a, id) !in c.finished ==>
                  match w.reg[id].cyclic
                  case Acyclic => o.verdict == Reject
                  case AnyLength => o.verdict == Accept
                  case UpTo(x) => o.verdict == if c.inflight[Pair(a, id)] + x < |c.frames| then Reject else Accept)
  {
  }

  // ---------- Chains ----------

  lemma {:induction false} ChainFrom(w: World, id: Id, addrs: seq<Addr>, cap: nat, c: Ctx, i: nat)
    requires Line(w, id, addrs) && Linked(w, id, addrs)
    requires EndsAt(w, id, addrs[|addrs| - 1])
    requires w.reg[id].Cap() == Some(cap) || (w.reg[id].Cap().None? && |addrs| <= cap)
    requires i < |addrs| && Reached(w, id, addrs, c, i) && (i > 0 ==> i - 1 <= cap)
    ensures ValDecl(w, c, id, Obj(addrs[i]), i > 0).verdict == if |addrs| - 1 <= cap then Accept else Reject
    decreases |addrs| - i
  {
    if i > 0 && i > cap {
      TooDeep(w, id, addrs, c, i);
    } else {
      hide LinksTo, EndsAt, Reached, ValDecl;
      var c' := Push(c, Pair(addrs[i], id), i > 0);
      if i + 1 < |addrs| {
        assert LinkedAt(w, id, addrs, i);
        Advance(w, id, addrs, c, i, addrs[i + 1]);
        ChainFrom(w, id, addrs, cap, c', i + 1);
      } else {
        Ends(w, id, addrs, c, i);
      }
    }
  }

  lemma {:induction false} TooDeep(w: World, id: Id, addrs: seq<Addr>, c: Ctx, i: nat)
    requires Line(w, id, addrs) && 0 < i < |addrs| && Reached(w, id, addrs, c, i) && w.reg[id].Capped(i)
    ensures ValDecl(w, c, id, Obj(addrs[i]), true).verdict == Reject
  {
    assert Pair(addrs[i], id) !in c.inflight;
  }

  lemma {:induction false} Ends(w: World, id: Id, addrs: seq<Addr>, c: Ctx, i: nat)
    requires Line(w, id, addrs) && i < |addrs| && Reached(w, id, addrs, c, i) && !(i > 0 && w.reg[id].Capped(i))
    requires EndsAt(w, id, addrs[i])
    ensures ValDecl(w, c, id, Obj(addrs[i]), i > 0).verdict == Accept
  {
    var p := Pair(addrs[i], id);
    assert p !in c.inflight;
    assert p in Free(w, c);
    var c' := Push(c, p, i > 0);
    ExpandShrinks(w.heap, w.reg[id].body, Obj(addrs[i]));
    StepSettled(w, c', w.reg[id].body, Expand(w.heap, w.reg[id].body, Obj(addrs[i])).tasks);
  }

  /** A chain of objects is accepted if and only if the references that nest it number at most
      `n` under `depth(n)`, and at most 128 where a declaration with references names no depth. */
  lemma DepthMeansNesting(w: World, id: Id, addrs: seq<Addr>)
    requires Line(w, id, addrs) && Linked(w, id, addrs)
    requires EndsAt(w, id, addrs[|addrs| - 1])
    ensures Validate(w, id, Obj(addrs[0])).verdict.Accept? <==>
            match w.reg[id].depth
            case Unbounded => true
            case AtMost(n) => |addrs| - 1 <= n
            case DefaultDepth => w.reg[id].hasRefs ==> |addrs| - 1 <= 128
  {
    ChainFrom(w, id, addrs, if w.reg[id].Cap().Some? then w.reg[id].Cap().value else |addrs|, EMPTY, 0);
  }
}
