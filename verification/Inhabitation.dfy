/** Which declarations have values: an exact account, and what it says about the escape check. */
module Inhabitation {
  import opened SchemaGraph
  import opened Validator
  import opened ValidatorComplete
  import opened Escape
  import opened EscapeReject
  import opened EscapeAccept
  import opened EscapeExact

  // ---------- Stages ----------

  /** What can be met in `k` rounds, each from what the rounds before it have met, with its round. */
  ghost function Stages(reg: Registry, k: nat): map<Need, nat> {
    if k == 0 then map[] else Stages(reg, k - 1) + Next(reg, Stages(reg, k - 1).Keys, k - 1)
  }

  ghost function Next(reg: Registry, known: set<Need>, k: nat): map<Need, nat> {
    map id, solid | id in reg && Need(id, solid) !in known && Fills(reg[id].body, known, solid) :: Need(id, solid) := k
  }

  ghost predicate Derivable(reg: Registry, n: Need) { exists k :: n in Stages(reg, k) }

  ghost predicate Fillable(reg: Registry, s: Schema, solid: bool) { exists k :: Fills(s, Stages(reg, k).Keys, solid) }

  lemma {:induction false} StagesGrow(reg: Registry, j: nat, k: nat)
    requires j <= k
    ensures forall n | n in Stages(reg, j) :: n in Stages(reg, k) && Stages(reg, k)[n] == Stages(reg, j)[n]
    decreases k
  {
    hide Fills;
    if j < k { StagesGrow(reg, j, k - 1); }
  }

  /** What entered at round `j` was filled by the rounds before it. */
  lemma {:induction false} EnteredAt(reg: Registry, k: nat, n: Need)
    requires n in Stages(reg, k)
    ensures var j := Stages(reg, k)[n];
            && j < k && n.id in reg && Fills(reg[n.id].body, Stages(reg, j).Keys, n.solid)
            && Lower(Stages(reg, k), n) == Stages(reg, j).Keys
    decreases k
  {
    hide Fills;
    var prev := Stages(reg, k - 1);
    if n in prev {
      EnteredAt(reg, k - 1, n);
      var j := prev[n];
      forall t | t in Lower(Stages(reg, k), n) ensures t in Lower(prev, n) { assert t in prev; }
    } else {
      forall t | t in prev ensures t in Lower(Stages(reg, k), n) { EnteredAt(reg, k - 1, t); }
    }
  }

  /** What fills a declaration's body derives the declaration. */
  lemma FilledIsDerivable(reg: Registry, id: Id, solid: bool)
    requires id in reg && Fillable(reg, reg[id].body, solid)
    ensures Derivable(reg, Need(id, solid))
  {
    hide Fills;
    var k: nat :| Fills(reg[id].body, Stages(reg, k).Keys, solid);
    var n := Need(id, solid);
    assert n in Stages(reg, k) || n in Next(reg, Stages(reg, k).Keys, k);
    assert n in Stages(reg, k + 1);
  }

  // ---------- An accepted value derives its declaration ----------

  ghost predicate KeysDistinct(s: Schema) {
    s.Node? ==>
      && (s.union.AnyOf? ==> forall a | a in s.union.arms :: KeysDistinct(a))
      && (s.items.Some? ==> KeysDistinct(s.items.value))
      && (s.properties.Properties? ==>
            DistinctKeys(s.properties.list) && forall p | p in s.properties.list :: KeysDistinct(p.schema))
  }

  /** Acyclic declarations that refer to each other, or to nothing. */
  ghost predicate Region(reg: Registry, r: set<Id>) {
    ClosedUnder(reg, r) && forall d | d in r && d in reg :: reg[d].cyclic.Acyclic? && KeysDistinct(reg[d].body)
  }

  ghost predicate Stays(reg: Registry, r: set<Id>, s: Schema) {
    KeysDistinct(s) && forall t | t in Targets(s) && t in reg :: t in r
  }

  /** The value may stand where `solid` is asked. */
  ghost predicate May(v: Val, solid: bool) { solid ==> !v.Nullish() }

  /** What is memoized can be derived. */
  ghost predicate Evident(reg: Registry, r: set<Id>, c: Ctx) {
    forall p, solid | p in c.finished && p.id in r :: Derivable(reg, Need(p.id, solid))
  }

  lemma BodyStays(reg: Registry, r: set<Id>, id: Id)
    requires Region(reg, r) && id in r && id in reg
    ensures reg[id].cyclic.Acyclic? && Stays(reg, r, reg[id].body)
  {
    hide KeysDistinct, Targets;
  }

  lemma ArmStays(reg: Registry, r: set<Id>, s: Schema, arm: Schema)
    requires Stays(reg, r, s) && s.Node? && s.union.AnyOf? && arm in s.union.arms
    ensures Stays(reg, r, arm)
  {
    var e := Edge(arm, |s.union.arms| > 1);
    assert e in ArmEdges(s.union.arms, |s.union.arms| > 1) && e in Edges(s);
  }

  lemma TaskStays(heap: Heap, reg: Registry, r: set<Id>, s: Schema, v: Val, t: Task)
    requires InHeap(heap, v) && Stays(reg, r, s) && s.Node? && Expand(heap, s, v).All? && t in Expand(heap, s, v).tasks
    ensures Stays(reg, r, t.schema)
  {
    if s.kind.ArrayKind? {
      var e := Edge(s.items.value, s.minItems < 1);
      assert e in ItemEdges(s.items, s.minItems) && e in Edges(s);
    } else {
      var p :| p in s.properties.list && t.schema == p.schema;
      var e := Edge(p.schema, p.key !in s.required);
      assert e in PropertyEdges(s.properties.list, s.required) && e in Edges(s);
    }
  }

  lemma {:induction false} DeclDerives(w: World, r: set<Id>, c: Ctx, id: Id, v: Val, viaRef: bool)
    requires w.Ok() && id in w.reg && InHeap(w.heap, v) && Region(w.reg, r) && id in r && Evident(w.reg, r, c)
    ensures var o := ValDecl(w, c, id, v, viaRef);
            && Evident(w.reg, r, o.ctx)
            && (o.verdict.Accept? ==> forall solid | May(v, solid) :: Derivable(w.reg, Need(id, solid)))
    decreases Free(w, c), if v.Obj? then 1 else 0, if v.Obj? then 0 else w.rank[id], if v.Obj? then 0 else 1
  {
    hide Region, Stays, Derivable, Fillable;
    BodyStays(w.reg, r, id);
    var body := w.reg[id].body;
    if v.Prim? {
      NodeDerives(w, r, c, body, v);
      if ValNode(w, c, body, v).verdict.Accept? { BodyDerives(w.reg, id, v); }
    } else {
      var p := Pair(v.addr, id);
      if Gate(w.reg[id], c, p, viaRef).None? {
        assert p in Free(w, c);
        NodeDerives(w, r, Push(c, p, viaRef), body, v);
        if ValNode(w, Push(c, p, viaRef), body, v).verdict.Accept? { BodyDerives(w.reg, id, v); }
      }
    }
  }

  lemma BodyDerives(reg: Registry, id: Id, v: Val)
    requires id in reg && forall solid | May(v, solid) :: Fillable(reg, reg[id].body, solid)
    ensures forall solid | May(v, solid) :: Derivable(reg, Need(id, solid))
  {
    forall solid | May(v, solid) ensures Derivable(reg, Need(id, solid)) { FilledIsDerivable(reg, id, solid); }
  }

  lemma {:induction false} NodeDerives(w: World, r: set<Id>, c: Ctx, s: Schema, v: Val)
    requires w.Ok() && InHeap(w.heap, v) && Region(w.reg, r) && Stays(w.reg, r, s) && Evident(w.reg, r, c)
    ensures var o := ValNode(w, c, s, v);
            && Evident(w.reg, r, o.ctx)
            && (o.verdict.Accept? ==> forall solid | May(v, solid) :: Fillable(w.reg, s, solid))
    decreases Free(w, c), if v.Obj? then 1 else 0, if v.Obj? then 0 else Bound(w.rank, s), if v.Obj? then 1 else 0, s
  {
    hide Region, Stays, Derivable, Fillable, Evident, May;
    ExpandShrinks(w.heap, s, v);
    match Expand(w.heap, s, v)
    case Leaf(ok) => if ok { LeafFills(w, r, s, v); }
    case All(tasks) =>
      forall t | t in tasks ensures Stays(w.reg, r, t.schema) { TaskStays(w.heap, w.reg, r, s, v, t); }
      AllDerives(w, r, c, s, tasks);
      if ValAll(w, c, s, tasks).verdict.Accept? { TasksFill(w, r, s, v); }
    case Any(arms) =>
      forall a | a in arms ensures Stays(w.reg, r, a) { ArmStays(w.reg, r, s, a); }
      AnyDerives(w, r, c, s, arms, v);
      if ValAny(w, c, s, arms, v).verdict.Accept? { ArmFills(w.reg, s, v); }
    case Enter(id, viaRef) =>
      if id in w.reg {
        TargetStays(w.reg, r, s);
        DeclDerives(w, r, c, id, v, viaRef);
        if ValDecl(w, c, id, v, viaRef).verdict.Accept? { ReferenceFills(w.reg, s, v); }
      }
  }

  lemma TargetStays(reg: Registry, r: set<Id>, s: Schema)
    requires Stays(reg, r, s) && !s.Node? && s.target in reg
    ensures s.target in r
  {
  }

  lemma ReferenceFills(reg: Registry, s: Schema, v: Val)
    requires !s.Node? && forall solid | May(v, solid) :: Derivable(reg, Need(s.target, solid))
    ensures forall solid | May(v, solid) :: Fillable(reg, s, solid)
  {
    forall solid | May(v, solid) ensures Fillable(reg, s, solid) {
      var k: nat :| Need(s.target, solid) in Stages(reg, k);
      assert Fills(s, Stages(reg, k).Keys, solid);
    }
  }

  lemma {:induction false} AllDerives(w: World, r: set<Id>, c: Ctx, s: Schema, tasks: seq<Task>)
    requires w.Ok() && Region(w.reg, r) && Evident(w.reg, r, c)
    requires forall t | t in tasks :: t.schema < s && InHeap(w.heap, t.val) && Stays(w.reg, r, t.schema)
    ensures var o := ValAll(w, c, s, tasks);
            && Evident(w.reg, r, o.ctx)
            && (o.verdict.Accept? ==>
                  forall t, solid | t in tasks && May(t.val, solid) :: Fillable(w.reg, t.schema, solid))
    decreases Free(w, c), 1, 0, 1, s, |tasks|
  {
    hide Region, Stays, Fillable, Evident, May;
    if tasks != [] {
      NodeDerives(w, r, c, tasks[0].schema, tasks[0].val);
      var o := ValNode(w, c, tasks[0].schema, tasks[0].val);
      if o.verdict.Accept? { AllDerives(w, r, o.ctx, s, tasks[1..]); }
    }
  }

  lemma {:induction false} AnyDerives(w: World, r: set<Id>, c: Ctx, s: Schema, arms: seq<Schema>, v: Val)
    requires w.Ok() && InHeap(w.heap, v) && Region(w.reg, r) && Evident(w.reg, r, c)
    requires forall a | a in arms :: a < s && Bound(w.rank, a) <= Bound(w.rank, s) && Stays(w.reg, r, a)
    ensures var o := ValAny(w, c, s, arms, v);
            && Evident(w.reg, r, o.ctx)
            && (o.verdict.Accept? ==> SomeArmFills(w.reg, arms, v))
    decreases Free(w, c), if v.Obj? then 1 else 0, if v.Obj? then 0 else Bound(w.rank, s), if v.Obj? then 1 else 0,
              s, |arms|
  {
    hide Region, Stays, Fillable, Evident, May;
    if arms != [] {
      assert arms[0] in arms && forall a | a in arms[1..] :: a in arms;
      NodeDerives(w, r, c, arms[0], v);
      var o := ValNode(w, c, arms[0], v);
      if o.verdict.Reject? { AnyDerives(w, r, o.ctx, s, arms[1..], v); }
    }
  }

  ghost predicate SomeArmFills(reg: Registry, arms: seq<Schema>, v: Val) {
    exists a :: a in arms && forall solid | May(v, solid) :: Fillable(reg, a, solid)
  }

  lemma ArmFills(reg: Registry, s: Schema, v: Val)
    requires s.Node? && s.union.AnyOf? && SomeArmFills(reg, s.union.arms, v)
    ensures forall solid | May(v, solid) :: Fillable(reg, s, solid)
  {
    hide May;
    var a :| a in s.union.arms && forall solid | May(v, solid) :: Fillable(reg, a, solid);
    forall solid | May(v, solid) ensures Fillable(reg, s, solid) {
      var k: nat :| Fills(a, Stages(reg, k).Keys, solid);
      assert Fills(s, Stages(reg, k).Keys, solid);
    }
  }

  lemma LeafFills(w: World, r: set<Id>, s: Schema, v: Val)
    requires InHeap(w.heap, v) && Expand(w.heap, s, v) == Leaf(true) && Stays(w.reg, r, s)
    ensures forall solid | May(v, solid) :: Fillable(w.reg, s, solid)
  {
    hide Targets;
    forall solid | May(v, solid) ensures Fillable(w.reg, s, solid) {
      assert v.Prim? ==> Stands(v.prim, solid);
      assert Fills(s, Stages(w.reg, 0).Keys, solid);
    }
  }

  /** One stage for all the parts. */
  lemma {:induction false} CommonStage(reg: Registry, tasks: seq<Task>, solid: bool) returns (k: nat)
    requires forall t | t in tasks :: Fillable(reg, t.schema, solid)
    ensures forall t | t in tasks :: Fills(t.schema, Stages(reg, k).Keys, solid)
  {
    hide Fills;
    k := 0;
    if tasks != [] {
      var j := CommonStage(reg, tasks[1..], solid);
      assert Fillable(reg, tasks[0].schema, solid);
      var i: nat :| Fills(tasks[0].schema, Stages(reg, i).Keys, solid);
      k := if i < j then j else i;
      StagesGrow(reg, i, k);
      StagesGrow(reg, j, k);
      hide Stages;
      forall t | t in tasks ensures Fills(t.schema, Stages(reg, k).Keys, solid) {
        var known := if t == tasks[0] then Stages(reg, i).Keys else Stages(reg, j).Keys;
        FillsGrow(t.schema, known, Stages(reg, k).Keys, solid);
      }
    }
  }

  lemma TasksFill(w: World, r: set<Id>, s: Schema, v: Val)
    requires w.Ok() && InHeap(w.heap, v) && s.Node? && Expand(w.heap, s, v).All? && Stays(w.reg, r, s)
    requires forall t, solid | t in Expand(w.heap, s, v).tasks && May(t.val, solid) :: Fillable(w.reg, t.schema, solid)
    ensures forall solid | May(v, solid) :: Fillable(w.reg, s, solid)
  {
    hide Targets, Fillable, Stages;
    var tasks := Expand(w.heap, s, v).tasks;
    var solid := !s.kind.ArrayKind?;
    forall t | t in tasks ensures Fillable(w.reg, t.schema, solid) { assert May(t.val, solid); }
    var k := CommonStage(w.reg, tasks, solid);
    forall b: bool ensures Fillable(w.reg, s, b) {
      if s.kind.ArrayKind? {
        ArrayFills(w.heap, s, v, Stages(w.reg, k).Keys, b);
      } else {
        ObjectFills(w.heap, s, v, Stages(w.reg, k).Keys, b);
      }
      FilledAt(w.reg, s, b, k);
    }
  }

  lemma {:induction false} FilledAt(reg: Registry, s: Schema, solid: bool, k: nat)
    requires Fills(s, Stages(reg, k).Keys, solid)
    ensures Fillable(reg, s, solid)
  {
  }

  lemma ArrayFills(heap: Heap, s: Schema, v: Val, known: set<Need>, solid: bool)
    requires InHeap(heap, v) && s.Node? && s.kind.ArrayKind? && Expand(heap, s, v).All?
    requires forall t | t in Expand(heap, s, v).tasks :: Fills(t.schema, known, false)
    ensures Fills(s, known, solid)
  {
    var tasks := Expand(heap, s, v).tasks;
    if s.minItems >= 1 { assert tasks[0] in tasks && tasks[0].schema == s.items.value; }
  }

  lemma {:induction false} ObjectFills(heap: Heap, s: Schema, v: Val, known: set<Need>, solid: bool)
    requires InHeap(heap, v) && s.Node? && !s.kind.ArrayKind? && Expand(heap, s, v).All? && KeysDistinct(s)
    requires forall t | t in Expand(heap, s, v).tasks :: Fills(t.schema, known, true)
    ensures Fills(s, known, solid)
  {
    forall p | p in s.properties.list && p.key in s.required ensures Fills(p.schema, known, true) {
      PropertyTaskIn(s.properties.list, heap[v.addr], p);
      assert Task(p.schema, heap[v.addr].Get(p.key)) in Expand(heap, s, v).tasks;
    }
  }

  // ---------- Exactness ----------

  lemma InhabitedIsDerivable(w: World, r: set<Id>, id: Id)
    requires id in w.reg && id in r && Region(w.reg, r) && Inhabited(w, id)
    ensures Derivable(w.reg, Need(id, false))
  {
    hide Region, Derivable;
    var h, v :| On(w, h).Ok() && InHeap(h, v) && Validate(On(w, h), id, v).verdict.Accept?;
    DeclDerives(On(w, h), r, EMPTY, id, v, false);
    assert May(v, false);
  }

  /** The needs of the region that `k` rounds have met, in the order of their rounds. */
  ghost function StageOrder(reg: Registry, r: set<Id>, k: nat): map<Need, nat> {
    map n | n in Stages(reg, k) && n.id in r :: Stages(reg, k)[n]
  }

  lemma StageIsBuildable(reg: Registry, r: set<Id>, k: nat, n: Need)
    requires Region(reg, r) && n in StageOrder(reg, r, k)
    ensures var order := StageOrder(reg, r, k);
            BuildableAt(reg, order, n) && forall t | t in Demands(reg[n.id].body, n.solid) :: t in Lower(order, n)
  {
    var order := StageOrder(reg, r, k);
    EnteredAt(reg, k, n);
    BodyStays(reg, r, n.id);
    var body, known := reg[n.id].body, Stages(reg, Stages(reg, k)[n]).Keys;
    hide Targets, Demands, Satisfiable, KeysDistinct, Region;
    forall t | t in known && t.id in Targets(body) ensures t in Lower(order, n) {
      assert t in Lower(Stages(reg, k), n);
      EnteredAt(reg, k, t);
    }
    DemandsAreMandatory(body, n.solid);
    MandatoryIsTarget(body);
    SatisfiableGrows(body, known, Lower(order, n), n.solid);
  }

  lemma StagesAreGrounded(reg: Registry, r: set<Id>, k: nat, root: Id)
    requires Region(reg, r)
    ensures var order := StageOrder(reg, r, k); Buildable(reg, order) && Grounded(reg, order, root)
  {
    hide Region, Demands, Satisfiable, Stages, Reachable;
    var order := StageOrder(reg, r, k);
    forall n | n in order
      ensures BuildableAt(reg, order, n) && forall t | t in Demands(reg[n.id].body, n.solid) :: t in Lower(order, n)
    {
      StageIsBuildable(reg, r, k, n);
    }
    hide StageOrder;
    forall missing: set<Need> | missing != {} && AllMet(reg, order, root, missing)
      ensures exists d :: d in missing && Ready(reg, order, missing, d)
    {
      forall m | m in missing ensures m in order { assert Met(reg, order, root, m); }
      var low := Lowest(order, missing);
      var d :| d in low;
      assert Lower(order, d) * missing == {};
      assert BuildableAt(reg, order, d);
      assert Ready(reg, order, missing, d);
    }
  }

  /** Caps leave room for a value that is not null beside one that may be. */
  ghost predicate TwoFit(reg: Registry) { forall id | id in reg && reg[id].Cap().Some? :: 2 <= reg[id].Cap().value }

  /** An acyclic declaration has a value if and only if finitely many rounds derive it. */
  lemma InhabitedExactly(w: World, id: Id)
    requires w.Ok() && id in w.reg && AllResolved(w.reg) && TwoFit(w.reg) && Region(w.reg, ReachSet(w.reg, id))
    ensures Inhabited(w, id) <==> Derivable(w.reg, Need(id, false))
  {
    hide Region, Inhabited, Stages, AllResolved, Reachable;
    var r := ReachSet(w.reg, id);
    Starts(w.reg, id);
    if Inhabited(w, id) { InhabitedIsDerivable(w, r, id); }
    if Derivable(w.reg, Need(id, false)) {
      var k: nat :| Need(id, false) in Stages(w.reg, k);
      StagesAreGrounded(w.reg, r, k, id);
      hide Buildable, Grounded;
      GroundedIsInhabited(w, StageOrder(w.reg, r, k), id, id);
    }
  }

  lemma Starts(reg: Registry, id: Id)
    requires id in reg
    ensures id in ReachSet(reg, id) && Reachable(reg, id, id)
  {
    hide Targets;
    assert IsRoute(reg, [id]);
    assert Reachable(reg, id, [id][0]);
  }

  /** Every reachable declaration has a value if and only if the check passes and the needs can be put
      in an order: so it is exactly the unions without an arm that is not recursive, and the required
      properties that can only be null, that the check gets wrong. */
  lemma PassingIsEnoughExactly(w: World, root: Id)
    requires w.Ok() && root in w.reg && AllResolved(w.reg) && TwoFit(w.reg) && Region(w.reg, ReachSet(w.reg, root))
    requires forall id | id in w.reg && Reachable(w.reg, root, id) :: WellKinded(w.reg[id].body)
    ensures (forall id | id in w.reg && Reachable(w.reg, root, id) :: Inhabited(w, id)) <==>
            Check(w.reg, root).None? && exists order :: Buildable(w.reg, order) && Covers(w.reg, order, root)
  {
    hide Region, Inhabited, Stages, AllResolved, Reachable, Buildable, Covers, WellKinded, Check;
    var reg := w.reg;
    if forall id | id in reg && Reachable(reg, root, id) :: Inhabited(w, id) {
      if Check(reg, root).Some? { RejectedIsEmpty(w, root); }
      InhabitedHasOrder(w, root);
    }
    if Check(reg, root).None? {
      if order :| Buildable(reg, order) && Covers(reg, order, root) { CheckExact(w, order, root); }
    }
  }

  lemma InhabitedHasOrder(w: World, root: Id)
    requires w.Ok() && root in w.reg && Region(w.reg, ReachSet(w.reg, root))
    requires forall id | id in w.reg && Reachable(w.reg, root, id) :: Inhabited(w, id)
    ensures exists order :: Buildable(w.reg, order) && Covers(w.reg, order, root)
  {
    hide Region, Inhabited, Stages, Reachable, Buildable;
    var r := ReachSet(w.reg, root);
    forall id | id in r ensures Derivable(w.reg, Need(id, false)) { InhabitedIsDerivable(w, r, id); }
    var k := CommonRound(w.reg, r);
    StagesAreGrounded(w.reg, r, k, root);
    assert Covers(w.reg, StageOrder(w.reg, r, k), root);
  }

  lemma {:induction false} CommonRound(reg: Registry, ids: set<Id>) returns (k: nat)
    requires forall id | id in ids :: Derivable(reg, Need(id, false))
    ensures forall id | id in ids :: Need(id, false) in Stages(reg, k)
    decreases ids
  {
    hide Stages;
    k := 0;
    if ids != {} {
      var id :| id in ids;
      var j := CommonRound(reg, ids - {id});
      var i: nat :| Need(id, false) in Stages(reg, i);
      k := if i < j then j else i;
      StagesGrow(reg, i, k);
      StagesGrow(reg, j, k);
    }
  }
}
