/** Why the exactness theorems ask for tame unions: when a union has two arms for objects, the
    memo of a failed arm can make the validator accept a value outside the greatest fixpoint. */
module UnionMemo {
  import opened SchemaGraph
  import opened Validator
  import opened Rules
  import opened ValidatorComplete
  import opened ValidatorTheorems
  import opened Steps

  const ZERO_P := Pair(0, "P")
  const ONE_Q := Pair(1, "Q")
  const ZERO_TOP := Pair(0, "Top")

  /** `P = { link: Q, n: <x is refused> }`, `Q = { back: P }` and `Top = P | { link: Q }`, over
      object 0 that links to object 1 that points back. */
  ghost predicate Poisoned(w: World, arm: Schema, never: Schema, x: Val) {
    && w.Ok() && 0 in w.heap && 1 in w.heap && InHeap(w.heap, x)
    && {"P", "Q", "Top"} <= w.reg.Keys
    && (forall d | d in w.reg :: w.reg[d].cyclic.AnyLength? && w.reg[d].Cap().None?)
    && Expand(w.heap, w.reg["Top"].body, Obj(0)) == Any([Ref("P"), arm])
    && Expand(w.heap, w.reg["P"].body, Obj(0)) == All([Task(Ref("Q"), Obj(1)), Task(never, x)])
    && Expand(w.heap, w.reg["Q"].body, Obj(1)) == All([Task(Ref("P"), Obj(0))])
    && Expand(w.heap, arm, Obj(0)) == All([Task(Ref("Q"), Obj(1))])
    && Expand(w.heap, never, x) == Leaf(false)
  }

  /** With `P` in flight on object 0, object 1 is memoized as a `Q`. */
  lemma {:induction false} WalkQ(w: World, arm: Schema, never: Schema, x: Val, c: Ctx)
    requires Poisoned(w, arm, never, x)
    requires ZERO_P in c.inflight && ONE_Q !in c.inflight && ZERO_P !in c.finished && ONE_Q !in c.finished
    ensures var o := ValDecl(w, c, "Q", Obj(1), true);
            o.verdict.Accept? && o.ctx.finished == c.finished + [ONE_Q]
  {
    var c' := Push(c, ONE_Q, true);
    StepBody(w, c, "Q", 1, true);
    StepOne(w, c', w.reg["Q"].body, Obj(1), Task(Ref("P"), Obj(0)));
    StepRef(w, c', "P", Obj(0));
  }

  /** `P` then fails on object 0, and leaves that memo behind. */
  lemma {:induction false} WalkP(w: World, arm: Schema, never: Schema, x: Val, c: Ctx)
    requires Poisoned(w, arm, never, x)
    requires ZERO_P !in c.inflight && ONE_Q !in c.inflight && ZERO_P !in c.finished && ONE_Q !in c.finished
    ensures var o := ValDecl(w, c, "P", Obj(0), true);
            o.verdict.Reject? && ONE_Q in o.ctx.finished
  {
    var c' := Push(c, ZERO_P, true);
    StepBody(w, c, "P", 0, true);
    StepRef(w, c', "Q", Obj(1));
    WalkQ(w, arm, never, x, c');
    assert (c.finished + [ONE_Q])[|c.finished|] == ONE_Q;
    StepTwo(w, c', w.reg["P"].body, Obj(0), Task(Ref("Q"), Obj(1)), Task(never, x));
  }

  lemma WalkTop(w: World, arm: Schema, never: Schema, x: Val)
    requires Poisoned(w, arm, never, x)
    ensures Validate(w, "Top", Obj(0)).verdict.Accept?
  {
    var c := Push(EMPTY, ZERO_TOP, false);
    StepBody(w, EMPTY, "Top", 0, false);
    StepRef(w, c, "P", Obj(0));
    WalkP(w, arm, never, x, c);
    var c' := ValNode(w, c, Ref("P"), Obj(0)).ctx;
    StepOne(w, c', arm, Obj(0), Task(Ref("Q"), Obj(1)));
    StepRef(w, c', "Q", Obj(1));
    StepUnion(w, c, w.reg["Top"].body, Obj(0), Ref("P"), arm);
  }

  lemma {:induction false} TaskHolds(w: World, r: set<Pair>, id: Id, a: Addr, t: Task)
    requires w.Ok() && PostFixed(w, r) && Pair(a, id) in r
    requires Expand(w.heap, w.reg[id].body, Obj(a)).All? && t in Expand(w.heap, w.reg[id].body, Obj(a)).tasks
    ensures InHeap(w.heap, t.val) && Holds(w, t.schema, t.val, r)
  {
    ExpandShrinks(w.heap, w.reg[id].body, Obj(a));
  }

  lemma OutsideEveryPostFixed(w: World, arm: Schema, never: Schema, x: Val, r: set<Pair>)
    requires Poisoned(w, arm, never, x) && PostFixed(w, r)
    ensures ZERO_TOP !in r
  {
    if ZERO_P in r { TaskHolds(w, r, "P", 0, Task(never, x)); }
    if ONE_Q in r { TaskHolds(w, r, "Q", 1, Task(Ref("P"), Obj(0))); }
    if ZERO_TOP in r { UnionFails(w, arm, r); }
  }

  lemma {:induction false} UnionFails(w: World, arm: Schema, r: set<Pair>)
    requires w.Ok() && {"P", "Q", "Top"} <= w.reg.Keys && {0, 1} <= w.heap.Keys
    requires Expand(w.heap, w.reg["Top"].body, Obj(0)) == Any([Ref("P"), arm])
    requires Expand(w.heap, arm, Obj(0)) == All([Task(Ref("Q"), Obj(1))])
    requires ZERO_P !in r && ONE_Q !in r
    ensures !Holds(w, w.reg["Top"].body, Obj(0), r)
  {
    assert !Holds(w, Ref("P"), Obj(0), r);
    var t := Task(Ref("Q"), Obj(1));
    assert t in [t] && !Holds(w, t.schema, t.val, r);
    assert !Holds(w, arm, Obj(0), r);
    assert forall a | a in [Ref("P"), arm] :: a == Ref("P") || a == arm;
  }

  /** The validator accepts object 0 as a `Top`; no post-fixed point contains it. */
  lemma AcceptsOutsideTheFixpoint(w: World, arm: Schema, never: Schema, x: Val)
    requires Poisoned(w, arm, never, x)
    ensures Validate(w, "Top", Obj(0)).verdict.Accept?
    ensures !InGreatest(w, "Top", Obj(0))
  {
    WalkTop(w, arm, never, x);
    forall r | PostFixed(w, r) ensures ZERO_TOP !in r {
      OutsideEveryPostFixed(w, arm, never, x, r);
    }
  }

  // ---------- One such registry, spelled out ----------

  const BACK: Key := [0x62]
  const LINK: Key := [0x6c]
  const N: Key := [0x6e]

  function Object(list: seq<Property>): Schema {
    Node(ObjectKind, NoUnion, None, None, 0, None, Properties(list), [])
  }

  function Loop(body: Schema): Decl { Decl(body, AnyLength, Unbounded, false, true) }

  function Never(): Schema { Node(Scalar(_ => false), NoUnion, None, None, 0, None, NoProperties, []) }

  function Arm(): Schema { Object([Property(LINK, Ref("Q"))]) }

  function Top(): Schema {
    Node(Permissive, AnyOf([Ref("P"), Arm()]), None, None, 0, None, NoProperties, [])
  }

  ghost function Example(): World {
    World(
      map["P" := Loop(Object([Property(LINK, Ref("Q")), Property(N, Never())])),
          "Q" := Loop(Object([Property(BACK, Ref("P"))])),
          "Top" := Loop(Top())],
      map[0 := Rec([Field(LINK, Obj(1)), Field(N, Prim(Bool(true)))]),
          1 := Rec([Field(BACK, Obj(0))])],
      map["P" := 0, "Q" := 0, "Top" := 1])
  }

  lemma ExampleReads()
    ensures var h := Example().heap;
            && h[0].Get(LINK) == Obj(1) && h[0].Get(N) == Prim(Bool(true)) && h[1].Get(BACK) == Obj(0)
            && Closed(h)
  {
    var h := Example().heap;
    var fs := h[0].fields;
    assert LINK[0] != N[0];
    assert fs[1..] == [Field(N, Prim(Bool(true)))];
    assert Lookup(fs[1..], N) == Prim(Bool(true));
    assert h[0].Vals() == {Obj(1), Prim(Bool(true))} by { assert fs[0] in fs && fs[1] in fs; }
    assert h[1].Vals() == {Obj(0)} by { assert h[1].fields[0] in h[1].fields; }
  }

  lemma ExampleGuarded()
    ensures var w := Example();
            w.rank.Keys == w.reg.Keys && forall d | d in w.reg :: Bound(w.rank, w.reg[d].body) <= w.rank[d]
  {
    var w := Example();
    var arms := [Ref("P"), Arm()];
    assert arms[1..] == [Arm()] && arms[1..][1..] == [];
    assert Bound(w.rank, Ref("P")) == 1 && Bound(w.rank, Arm()) == 0;
    assert MaxBound(w.rank, arms[1..]) == 0;
    assert MaxBound(w.rank, arms) == 1;
  }

  lemma ExampleExpands()
    ensures var h := Example().heap;
            && Expand(h, Object([Property(LINK, Ref("Q")), Property(N, Never())]), Obj(0))
               == All([Task(Ref("Q"), Obj(1)), Task(Never(), Prim(Bool(true)))])
            && Expand(h, Object([Property(BACK, Ref("P"))]), Obj(1)) == All([Task(Ref("P"), Obj(0))])
            && Expand(h, Arm(), Obj(0)) == All([Task(Ref("Q"), Obj(1))])
  {
    ExampleReads();
    var h := Example().heap;
    var link, n := Property(LINK, Ref("Q")), Property(N, Never());
    assert h[0].Rec? && h[1].Rec?;
    hide Example, Cell.Get, Expand;
    ObjectExpands(h, [link, n], 0);
    OneProperty(n, h[0]);
    TwoProperties(link, n, h[0]);
    ObjectExpands(h, [Property(BACK, Ref("P"))], 1);
    OneProperty(Property(BACK, Ref("P")), h[1]);
    ObjectExpands(h, [link], 0);
    OneProperty(link, h[0]);
  }

  lemma {:induction false} ObjectExpands(h: Heap, list: seq<Property>, a: Addr)
    requires a in h && h[a].Rec?
    ensures Expand(h, Object(list), Obj(a)) == All(PropertyTasks(list, h[a]))
  {
  }

  lemma {:induction false} TwoProperties(p: Property, q: Property, cell: Cell)
    requires !cell.Get(p.key).Nullish()
    ensures PropertyTasks([p, q], cell) == [Task(p.schema, cell.Get(p.key))] + PropertyTasks([q], cell)
  {
    assert [p, q][1..] == [q];
  }

  lemma {:induction false} OneProperty(p: Property, cell: Cell)
    ensures !cell.Get(p.key).Nullish() ==> PropertyTasks([p], cell) == [Task(p.schema, cell.Get(p.key))]
  {
    assert [p][1..] == [];
  }

  lemma NeverFits(h: Heap)
    requires 0 in h
    ensures Expand(h, Never(), Prim(Bool(true))) == Leaf(false)
    ensures Expand(h, Top(), Obj(0)) == Any([Ref("P"), Arm()])
  {
  }

  /** The shape above is inhabited. */
  lemma ExampleIsPoisoned()
    ensures Poisoned(Example(), Arm(), Never(), Prim(Bool(true)))
  {
    ExampleReads();
    ExampleGuarded();
    ExampleExpands();
    NeverFits(Example().heap);
    hide Expand, Cell.Get, Bound, Cell.Vals;
  }
}
