/** Loops that the escape check passes because a declaration on them is cyclic. */
module CyclicExamples {
  import opened SchemaGraph
  import opened Validator
  import opened Rules
  import opened ValidatorComplete
  import opened Escape
  import opened EscapeReject
  import opened EscapeAccept
  import opened EscapeExact
  import opened EscapeExamples
  import opened Anchors
  import opened EscapeCycles

  const OTHER: Id := "Z"

  function Looping(body: Schema): Decl { Decl(body, AnyLength, DefaultDepth, false, true) }

  // ---------- A value with a tail ----------

  /** `Z = { next: T }`, acyclic, and `T = { next: Z }`, cyclic, with `next` required in both. */
  function Pairing(): Registry {
    map[OTHER := Plain(Linked(NEXT, NAME, true)), NAME := Looping(Linked(NEXT, OTHER, true))]
  }

  /** A loop of two declarations passes if one of them is cyclic. */
  lemma TwoLoopPasses(reg: Registry, root: Id, other: Id)
    requires root in reg && other in reg && root != other
    requires !reg[root].cyclic.Acyclic? || !reg[other].cyclic.Acyclic?
    requires reg[root].body == Ref(other) || reg[root].body == Linked(NEXT, other, true)
    requires reg[other].body == Linked(NEXT, root, true)
    ensures Check(reg, root) == None
  {
    LinkedEdges(NEXT, other, true);
    LinkedEdges(NEXT, root, true);
    var p := Descend(reg, START, root);
    var q := Descend(reg, p, other);
    LoopCloses(reg, q, root, other);
    assert CheckDecl(reg, q, root) == None;
    hide LoopIsCyclic;
    OneEdge(reg, q, reg[other].body, Edge(Ref(root), false));
    assert CheckDecl(reg, p, other) == None;
    assert CheckSchema(reg, p, Ref(other)) == None;
    if reg[root].body.Node? { OneEdge(reg, p, reg[root].body, Edge(Ref(other), false)); }
    assert CheckSchema(reg, p, reg[root].body) == None;
  }

  lemma LoopCloses(reg: Registry, q: Path, root: Id, other: Id)
    requires root in reg && other in reg && root != other && q == Descend(reg, Descend(reg, START, root), other)
    requires !reg[root].cyclic.Acyclic? || !reg[other].cyclic.Acyclic?
    ensures LoopIsCyclic(reg, q, root)
  {
    assert q.order == [root, other];
    assert IndexOf(q.order, root) == 0 && q.order[0..] == q.order;
    assert root in q.order && other in q.order;
    assert EntryIsCyclic(q, root) || EntryIsCyclic(q, other);
  }

  /** The loop is broken at the cyclic declaration. */
  const CUTS := {Need(NAME, false), Need(NAME, true)}

  ghost function PairingOrder(): map<Need, nat> {
    map[Need(NAME, false) := 0, Need(NAME, true) := 0, Need(OTHER, false) := 0, Need(OTHER, true) := 0]
  }

  lemma PairingIsFoldable()
    ensures Foldable(Pairing(), 15, CUTS, PairingOrder())
  {
    HolderBuilds(NAME);
    HolderBuilds(OTHER);
    var reg, order := Pairing(), PairingOrder();
    hide Satisfiable, Demands;
    forall n | n in order ensures FoldableAt(reg, 15, CUTS, order, n) {
      assert Container(reg[n.id].body);
    }
  }

  lemma PairingFits()
    ensures |PairingOrder()| == 4 && |CUTS| == 2 && Height(2, 4) == 15
  {
    assert PairingOrder().Keys == CUTS + {Need(OTHER, false), Need(OTHER, true)};
    assert |PairingOrder()| == |PairingOrder().Keys|;
  }

  /** Both declarations have values, as `CyclesExact` says. */
  lemma PairingIsInhabited(root: Id)
    requires root in Pairing()
    ensures var w := World(Pairing(), map[], map[NAME := 0, OTHER := 0]);
            w.Ok() && Inhabited(w, root)
  {
    var reg, order := Pairing(), PairingOrder();
    var w := World(reg, map[], map[NAME := 0, OTHER := 0]);
    TwoLoopPasses(reg, root, if root == NAME then OTHER else NAME);
    PairingIsFoldable();
    PairingFits();
    PairingResolves();
    Itself(reg, root);
    hide Foldable, Check, Inhabited, AllResolved, Reachable, Pairing, Height;
    FoldableIsInhabited(w, 15, CUTS, order, root, root);
  }

  lemma Itself(reg: Registry, root: Id)
    requires root in reg
    ensures Reachable(reg, root, root)
  {
    assert IsRoute(reg, [root]);
    assert [root][0] == root;
  }

  lemma PairingResolves()
    ensures AllResolved(Pairing()) && Guarded(Pairing(), map[NAME := 0, OTHER := 0])
  {
  }

  /** An object whose one required field holds an object is walked as that object. */
  lemma {:induction false} LinkedWalk(w: World, c: Ctx, target: Id, a: Addr, x: Val)
    requires w.Ok() && a in w.heap && w.heap[a].Get(NEXT) == x && !x.Nullish() && InHeap(w.heap, x) && target in w.reg
    ensures ValNode(w, c, Linked(NEXT, target, true), Obj(a)) == ValDecl(w, c, target, x, true)
  {
    var s, t := Linked(NEXT, target, true), Task(Ref(target), x);
    ExpandShrinks(w.heap, s, Obj(a));
    assert NEXT in [NEXT];
    OneTask(Property(NEXT, Ref(target)), w.heap[a]);
    assert Expand(w.heap, s, Obj(a)) == All([t]) && t in [t];
    assert ValNode(w, c, Ref(target), x) == ValDecl(w, c, target, x, true);
    var o := ValNode(w, c, Ref(target), x);
    assert [t][1..] == [];
    assert ValAll(w, o.ctx, s, []) == Outcome(Accept, o.ctx);
    assert ValAll(w, c, s, [t]) == o;
  }

  /** The value needs its tail: an object of the acyclic declaration that the loop leads back to is
      rejected, although the check exempts the loop. */
  lemma LoopNeedsTail(w: World, a: Addr, b: Addr)
    requires w.Ok() && w.reg == Pairing() && a in w.heap && b in w.heap
    requires w.heap[a].Get(NEXT) == Obj(b) && w.heap[b].Get(NEXT) == Obj(a)
    ensures Check(w.reg, OTHER) == None && !Validate(w, OTHER, Obj(a)).verdict.Accept?
  {
    TwoLoopPasses(w.reg, OTHER, NAME);
    var p, q := Pair(a, OTHER), Pair(b, NAME);
    var c1 := Push(EMPTY, p, false);
    var c2 := Push(c1, q, true);
    hide ValNode, ValAll, Check;
    LinkedWalk(w, c1, NAME, a, Obj(b));
    LinkedWalk(w, c2, OTHER, b, Obj(a));
    assert p in Free(w, EMPTY) && q in Free(w, c1);
    assert ValDecl(w, c2, OTHER, Obj(a), true) == Outcome(Reject, c2);
    assert !ValDecl(w, c1, NAME, Obj(b), true).verdict.Accept?;
  }

  // ---------- A declaration with no value ----------

  /** `Z = T`, acyclic, and `T = { next: Z }`, cyclic, with `next` required. */
  function Renaming(): Registry { map[OTHER := Plain(Ref(NAME)), NAME := Looping(Linked(NEXT, OTHER, true))] }

  /** Wherever the cyclic declaration is on the path, so is the acyclic one, with the same object. */
  ghost predicate Renamed(c: Ctx) {
    c.finished == [] && forall p | p in c.inflight && p.id == NAME :: Pair(p.addr, OTHER) in c.inflight
  }

  lemma {:induction false} PrimRejected(w: World, c: Ctx, v: Val)
    requires w.Ok() && w.reg == Renaming() && v.Prim?
    ensures ValDecl(w, c, OTHER, v, true) == Outcome(Reject, c) && ValDecl(w, c, OTHER, v, false) == Outcome(Reject, c)
  {
    assert Bound(w.rank, Ref(NAME)) <= w.rank[OTHER];
    assert ValNode(w, c, Linked(NEXT, OTHER, true), v) == Outcome(Reject, c);
    assert ValDecl(w, c, NAME, v, true) == Outcome(Reject, c);
    assert ValNode(w, c, Ref(NAME), v) == Outcome(Reject, c);
  }

  lemma {:induction false} AliasRejects(w: World, c: Ctx, a: Addr, viaRef: bool)
    requires w.Ok() && w.reg == Renaming() && a in w.heap && Renamed(c)
    ensures var o := ValDecl(w, c, OTHER, Obj(a), viaRef); o.verdict.Reject? && o.ctx.finished == []
    decreases Free(w, c)
  {
    var p, q := Pair(a, OTHER), Pair(a, NAME);
    if Gate(w.reg[OTHER], c, p, viaRef).None? {
      assert p in Free(w, c) && q !in c.inflight;
      var c1 := Push(c, p, viaRef);
      TargetRejects(w, c1, a);
      assert ValNode(w, c1, Ref(NAME), Obj(a)) == ValDecl(w, c1, NAME, Obj(a), true);
    }
  }

  lemma {:induction false} TargetRejects(w: World, c: Ctx, a: Addr)
    requires w.Ok() && w.reg == Renaming() && a in w.heap && Renamed(c)
    requires Pair(a, OTHER) in c.inflight && Pair(a, NAME) !in c.inflight
    ensures var o := ValDecl(w, c, NAME, Obj(a), true); o.verdict.Reject? && o.ctx.finished == []
    decreases Free(w, c)
  {
    var q := Pair(a, NAME);
    if Gate(w.reg[NAME], c, q, true).None? {
      assert q in Free(w, c);
      var c' := Push(c, q, true);
      var x := w.heap[a].Get(NEXT);
      if x.Nullish() {
        assert NEXT in [NEXT];
        assert Expand(w.heap, w.reg[NAME].body, Obj(a)) == Leaf(false);
      } else {
        FieldInHeap(w.heap, a, x);
        LinkedWalk(w, c', OTHER, a, x);
        if x.Prim? { PrimRejected(w, c', x); } else { AliasRejects(w, c', x.addr, true); }
      }
    }
  }

  lemma FieldInHeap(heap: Heap, a: Addr, x: Val)
    requires Closed(heap) && a in heap && x == heap[a].Get(NEXT)
    ensures InHeap(heap, x)
  {
    if x.Obj? { assert x in heap[a].Vals(); }
  }

  /** Under another name that is acyclic, a cyclic declaration has no value, in any heap: the walk
      comes back to the name before it comes back to the declaration.  The check passes. */
  lemma RenamedIsEmpty(w: World, v: Val)
    requires w.Ok() && w.reg == Renaming() && InHeap(w.heap, v)
    ensures Check(w.reg, OTHER) == None && !Validate(w, OTHER, v).verdict.Accept?
  {
    hide ValDecl, Check;
    TwoLoopPasses(w.reg, OTHER, NAME);
    if v.Prim? { PrimRejected(w, EMPTY, v); } else { AliasRejects(w, EMPTY, v.addr, false); }
  }

  /** No order puts the name above the declaration, so `CyclesExact` leaves it out. */
  lemma RenamedIsNotFoldable(limit: nat, cuts: set<Need>, order: map<Need, nat>)
    requires Foldable(Renaming(), limit, cuts, order)
    ensures forall solid :: Need(OTHER, solid) !in order
  {
    HolderBuilds(OTHER);
    var reg := Renaming();
    hide Satisfiable;
    forall solid ensures Need(OTHER, solid) !in order {
      if Need(OTHER, solid) in order {
        assert Need(NAME, solid) in Demands(reg[OTHER].body, solid);
        assert FoldableAt(reg, limit, cuts, order, Need(OTHER, solid));
        assert Need(OTHER, true) in Demands(reg[NAME].body, solid);
        assert FoldableAt(reg, limit, cuts, order, Need(NAME, solid));
        assert Need(NAME, true) in Demands(reg[OTHER].body, true);
      }
    }
  }
}
