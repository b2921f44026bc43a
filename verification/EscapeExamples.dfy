/** Where the escape check and the validator part ways outside the fragment of `CheckExact`. */
module EscapeExamples {
  import opened SchemaGraph
  import opened Validator
  import opened Rules
  import opened ValidatorSound
  import opened Escape
  import opened EscapeReject
  import opened EscapeAccept
  import opened EscapeExact

  const NAME: Id := "T"
  const NEXT: Key := [0x6e]
  const PREV: Key := [0x70]

  function Plain(body: Schema): Decl { Decl(body, Acyclic, DefaultDepth, false, true) }

  /** An object with one field, required, that refers to `target`. */
  function Linked(key: Key, target: Id, required: bool): Schema {
    Node(ObjectKind, NoUnion, None, None, 0, None, Properties([Property(key, Ref(target))]),
         if required then [key] else [])
  }

  lemma LinkedEdges(key: Key, target: Id, required: bool)
    ensures Edges(Linked(key, target, required)) == [Edge(Ref(target), !required)]
  {
  }

  /** One edge is checked as its target. */
  lemma {:induction false} OneEdge(reg: Registry, p: Path, s: Schema, e: Edge)
    requires s.Node? && Edges(s) == [e]
    ensures CheckSchema(reg, p, s) == CheckSchema(reg, Cross(p, e), e.schema)
  {
    assert e in Edges(s) && [e][1..] == [];
    assert CheckEdges(reg, p, s, []) == None;
    assert CheckSchema(reg, p, s) == CheckEdges(reg, p, s, [e]);
  }

  // ---------- A rejected declaration with a value ----------

  /** A scalar with an `items` keyword, which the walker never reads. */
  const IGNORED := Node(Scalar((p: Prim) => p.Null?), NoUnion, None, Some(Ref(NAME)), 1, None, NoProperties, [])

  /** The check follows keywords that the declaration's `type` switches off, so it can reject a
      declaration that has values. */
  lemma IgnoredKeyword()
    ensures var w := World(map[NAME := Plain(IGNORED)], map[], map[NAME := 0]);
            && w.Ok() && Check(w.reg, NAME) == Some(NAME)
            && Validate(w, NAME, Prim(Null)).verdict.Accept?
  {
    var reg := map[NAME := Plain(IGNORED)];
    var p := Descend(reg, START, NAME);
    assert Edges(IGNORED) == [Edge(Ref(NAME), false)];
    OneEdge(reg, p, IGNORED, Edge(Ref(NAME), false));
    assert !LoopIsCyclic(reg, p, NAME);
    assert Expand(map[], IGNORED, Prim(Null)) == Leaf(true);
    var w := World(reg, map[], map[NAME := 0]);
    assert ValNode(w, EMPTY, IGNORED, Prim(Null)) == Outcome(Accept, EMPTY);
  }

  // ---------- An accepted declaration with no value ----------

  /** Either arm links to another value of the same declaration. */
  const BOTH_LOOP :=
    Node(ObjectKind, AnyOf([Linked(NEXT, NAME, true), Linked(PREV, NAME, true)]), None, None, 0, None, NoProperties, [])

  lemma {:induction false} TwoEdges(reg: Registry, p: Path, s: Schema, e: Edge, f: Edge)
    requires s.Node? && Edges(s) == [e, f]
    requires CheckSchema(reg, Cross(p, e), e.schema).None? && CheckSchema(reg, Cross(p, f), f.schema).None?
    ensures CheckSchema(reg, p, s) == None
  {
    assert e in Edges(s) && f in Edges(s);
    assert [e, f][1..] == [f] && [f][1..] == [];
    assert CheckEdges(reg, p, s, [f]) == None;
  }

  /** Every union arm counts as a way out when another arm exists, even if that arm loops too. */
  lemma LoopingArmsPass(reg: Registry)
    requires NAME in reg && reg[NAME].body == BOTH_LOOP
    ensures Check(reg, NAME) == None
  {
    var p := Descend(reg, START, NAME);
    var e, f := Edge(Linked(NEXT, NAME, true), true), Edge(Linked(PREV, NAME, true), true);
    assert Edges(BOTH_LOOP) == [e, f];
    LinkedEdges(NEXT, NAME, true);
    LinkedEdges(PREV, NAME, true);
    OneEdge(reg, Cross(p, e), e.schema, Edge(Ref(NAME), false));
    OneEdge(reg, Cross(p, f), f.schema, Edge(Ref(NAME), false));
    TwoEdges(reg, p, BOTH_LOOP, e, f);
  }

  lemma {:induction false} OneTask(p: Property, cell: Cell)
    ensures PropertyTasks([p], cell) == if cell.Get(p.key).Nullish() then [] else [Task(p.schema, cell.Get(p.key))]
  {
    assert [p][1..] == [];
  }

  /** A value of either arm refers to another pair. */
  lemma ArmRefers(w: World, key: Key, v: Val, r: set<Pair>) returns (q: Pair)
    requires w.Ok() && InHeap(w.heap, v) && NAME in w.reg && w.reg[NAME].body == BOTH_LOOP
    requires Holds(w, Linked(key, NAME, true), v, r)
    ensures v.Obj? && q in r && q.id == NAME
  {
    var s := Linked(key, NAME, true);
    ExpandShrinks(w.heap, s, v);
    assert key in [key];
    var x := w.heap[v.addr].Get(key);
    var t := Task(Ref(NAME), x);
    assert !x.Nullish();
    OneTask(Property(key, Ref(NAME)), w.heap[v.addr]);
    assert Expand(w.heap, s, v) == All([t]);
    assert t in [t];
    if x.Prim? {
      assert Holds(w, Ref(NAME), x, r) && Holds(w, BOTH_LOOP, x, r);
      var arm :| arm in BOTH_LOOP.union.arms && Holds(w, arm, x, r);
      assert false;
    }
    q := Pair(x.addr, NAME);
  }

  /** Every object of the declaration refers to another. */
  ghost predicate Endless(w: World)
    requires w.Ok() && NAME in w.reg
  {
    forall a, r: set<Pair> | a in w.heap && Holds(w, w.reg[NAME].body, Obj(a), r) :: exists q :: q in r && q.id == NAME
  }

  lemma {:induction false} NoLevel(w: World, level: map<Pair, nat>, p: Pair)
    requires w.Ok() && NAME in w.reg && Endless(w) && Inductive(w)
    requires Stratified(w, level) && p in level && p.id == NAME
    ensures false
    decreases level[p]
  {
    hide Holds;
    var r := Below(level, level[p]) + CyclicOnly(w, level.Keys);
    assert Holds(w, w.reg[NAME].body, Obj(p.addr), r);
    var q :| q in r && q.id == NAME;
    NoLevel(w, level, q);
  }

  /** So no object is accepted. */
  lemma EndlessIsEmpty(w: World, a: Addr)
    requires w.Ok() && a in w.heap && NAME in w.reg && Endless(w) && Inductive(w)
    ensures !Validate(w, NAME, Obj(a)).verdict.Accept?
  {
    hide Holds, Endless;
    if Validate(w, NAME, Obj(a)).verdict.Accept? {
      AcceptSound(w, NAME, Obj(a));
      NoLevel(w, Positions(Validate(w, NAME, Obj(a)).ctx.finished), Pair(a, NAME));
    }
  }

  lemma BothRefer(w: World, v: Val, r: set<Pair>) returns (q: Pair)
    requires w.Ok() && InHeap(w.heap, v) && NAME in w.reg && w.reg[NAME].body == BOTH_LOOP
    requires Holds(w, BOTH_LOOP, v, r)
    ensures v.Obj? && q in r && q.id == NAME
  {
    var arm :| arm in BOTH_LOOP.union.arms && Holds(w, arm, v, r);
    q := ArmRefers(w, if arm == Linked(NEXT, NAME, true) then NEXT else PREV, v, r);
  }

  /** The check passes a union whose arms all loop, and the declaration has no value. */
  lemma LoopingArmsAreEmpty(w: World, v: Val)
    requires w.Ok() && InHeap(w.heap, v) && Inductive(w)
    requires NAME in w.reg && w.reg[NAME].body == BOTH_LOOP
    ensures Check(w.reg, NAME) == None && !Validate(w, NAME, v).verdict.Accept?
  {
    hide Holds;
    LoopingArmsPass(w.reg);
    forall a, r: set<Pair> | a in w.heap && Holds(w, BOTH_LOOP, Obj(a), r) ensures exists q :: q in r && q.id == NAME {
      var q := BothRefer(w, Obj(a), r);
    }
    if v.Obj? {
      EndlessIsEmpty(w, v.addr);
    } else if Validate(w, NAME, v).verdict.Accept? {
      AcceptSound(w, NAME, v);
      var _ := BothRefer(w, v, Positions(Validate(w, NAME, v).ctx.finished).Keys);
    }
  }

  /** Neither arm can be put below the declaration, so `CheckExact` leaves such unions out. */
  lemma LoopingArmsAreRecursive(reg: Registry, order: map<Need, nat>)
    requires NAME in reg && reg[NAME].body == BOTH_LOOP
    ensures Buildable(reg, order) ==> forall solid :: Need(NAME, solid) !in order
  {
    LinkedDemands(NEXT);
    LinkedDemands(PREV);
    assert forall arm, solid | arm in BOTH_LOOP.union.arms :: Need(NAME, true) in Demands(arm, solid);
    hide Demands;
    var m := Need(NAME, true);
    assert m in order ==> m !in Lower(order, m);
  }

  lemma LinkedDemands(key: Key)
    ensures forall solid :: Need(NAME, true) in Demands(Linked(key, NAME, true), solid)
  {
    forall solid ensures Need(NAME, true) in Demands(Linked(key, NAME, true), solid) {
      var p := Property(key, Ref(NAME));
      assert p in [p] && Need(NAME, true) in Demands(p.schema, true);
    }
  }

  // ---------- A required property that may be null ----------

  const NULL_LEAF := Node(Scalar((p: Prim) => p.Null?), NoUnion, None, None, 0, None, NoProperties, [])
  const OR_NULL := Node(Permissive, AnyOf([Ref(NAME), NULL_LEAF]), None, None, 0, None, NoProperties, [])

  /** `T = { next: T | null }`, with `next` required. */
  const NULLABLE := Node(ObjectKind, NoUnion, None, None, 0, None, Properties([Property(NEXT, OR_NULL)]), [NEXT])

  lemma NullablePasses(reg: Registry)
    requires NAME in reg && reg[NAME].body == NULLABLE
    ensures Check(reg, NAME) == None
  {
    var p := Descend(reg, START, NAME);
    assert Edges(NULLABLE) == [Edge(OR_NULL, false)];
    OneEdge(reg, p, NULLABLE, Edge(OR_NULL, false));
    assert Edges(OR_NULL) == [Edge(Ref(NAME), true), Edge(NULL_LEAF, true)];
    assert Edges(NULL_LEAF) == [];
    TwoEdges(reg, p, OR_NULL, Edge(Ref(NAME), true), Edge(NULL_LEAF, true));
  }

  lemma NullableRefers(w: World, v: Val, r: set<Pair>) returns (q: Pair)
    requires w.Ok() && InHeap(w.heap, v) && NAME in w.reg && w.reg[NAME].body == NULLABLE
    requires Holds(w, NULLABLE, v, r)
    ensures v.Obj? && q in r && q.id == NAME
  {
    ExpandShrinks(w.heap, NULLABLE, v);
    assert NEXT in [NEXT];
    var x := w.heap[v.addr].Get(NEXT);
    assert !x.Nullish();
    OneTask(Property(NEXT, OR_NULL), w.heap[v.addr]);
    var t := Task(OR_NULL, x);
    assert Expand(w.heap, NULLABLE, v) == All([t]) && t in [t];
    q := OrNullRefers(w, x, r);
  }

  lemma OrNullRefers(w: World, x: Val, r: set<Pair>) returns (q: Pair)
    requires w.Ok() && InHeap(w.heap, x) && NAME in w.reg && w.reg[NAME].body == NULLABLE
    requires Holds(w, OR_NULL, x, r) && !x.Nullish()
    ensures q in r && q.id == NAME
  {
    var arm :| arm in OR_NULL.union.arms && Holds(w, arm, x, r);
    assert !Holds(w, NULL_LEAF, x, r);
    assert x.Prim? ==> !Holds(w, NULLABLE, x, r);
    q := Pair(x.addr, NAME);
  }

  /** A required property must not be null, so a null arm is no way out there, although the check
      takes it for one: it passes, and the declaration has no value. */
  lemma RequiredNullableIsEmpty(w: World, v: Val)
    requires w.Ok() && InHeap(w.heap, v) && Inductive(w)
    requires NAME in w.reg && w.reg[NAME].body == NULLABLE
    ensures Check(w.reg, NAME) == None && !Validate(w, NAME, v).verdict.Accept?
  {
    hide Holds;
    NullablePasses(w.reg);
    forall a, r: set<Pair> | a in w.heap && Holds(w, NULLABLE, Obj(a), r) ensures exists q :: q in r && q.id == NAME {
      var q := NullableRefers(w, Obj(a), r);
    }
    if v.Obj? {
      EndlessIsEmpty(w, v.addr);
    } else if Validate(w, NAME, v).verdict.Accept? {
      AcceptSound(w, NAME, v);
      var _ := NullableRefers(w, v, Positions(Validate(w, NAME, v).ctx.finished).Keys);
    }
  }

  /** Such a property has no way out, and `CheckExact` leaves it out too. */
  lemma RequiredNullableIsRecursive(reg: Registry, order: map<Need, nat>)
    requires NAME in reg && reg[NAME].body == NULLABLE
    ensures Buildable(reg, order) ==> forall solid :: Need(NAME, solid) !in order
  {
    NullableDemands();
    hide Demands, Satisfiable;
    var m := Need(NAME, true);
    assert m in order ==> m !in Lower(order, m);
  }

  lemma NullableDemands()
    ensures forall known, solid | Satisfiable(NULLABLE, known, solid) :: Need(NAME, true) in known
  {
    var p, arms := Property(NEXT, OR_NULL), [Ref(NAME), NULL_LEAF];
    assert p in [p] && p.key in [NEXT];
    forall known, solid | Satisfiable(NULLABLE, known, solid) ensures Need(NAME, true) in known {
      assert p in NULLABLE.properties.list && Satisfiable(OR_NULL, known, true);
      var arm :| arm in arms && Satisfiable(arm, known, true) && Demands(arm, true) <= known;
      assert !Satisfiable(NULL_LEAF, known, true);
      assert Need(NAME, true) in Demands(Ref(NAME), true);
    }
  }

  // ---------- Null where it may stand ----------

  /** `M = D | null` */
  function Maybe(d: Id): Schema {
    Node(Permissive, AnyOf([Ref(d), NULL_LEAF]), None, None, 0, None, NoProperties, [])
  }

  /** `D = M[]`, not empty */
  function Series(m: Id): Schema { Node(ArrayKind, NoUnion, None, Some(Ref(m)), 1, None, NoProperties, []) }

  /** `T = { next: M }`, with `next` required, beside the two. */
  function Nullables(m: Id, d: Id, t: Id): Registry {
    map[m := Plain(Maybe(d)), d := Plain(Series(m)), t := Plain(Linked(NEXT, m, true))]
  }

  ghost function NullableOrder(m: Id, d: Id, t: Id): map<Need, nat> {
    map[Need(m, false) := 0, Need(d, false) := 0, Need(d, true) := 0, Need(m, true) := 1, Need(t, false) := 1]
  }

  /** Recursion through null is inside the fragment, also where one declaration is needed both as an
      element that may be null and as a required property that may not. */
  lemma NullableIsBuildable(m: Id, d: Id, t: Id)
    requires m != d && m != t && d != t
    ensures var reg, order := Nullables(m, d, t), NullableOrder(m, d, t);
            && Buildable(reg, order) && CapsAllow(reg, order) && WellKindedRegistry(reg)
            && forall root | root in reg :: Covers(reg, order, root)
  {
    NullableAt(m, d, t);
    NullableCaps(m, d, t);
    hide BuildableAt, CapsAllow, WellKindedRegistry, Nullables, NullableOrder, Reachable;
  }

  lemma NullableCaps(m: Id, d: Id, t: Id)
    requires m != d && m != t && d != t
    ensures CapsAllow(Nullables(m, d, t), NullableOrder(m, d, t)) && WellKindedRegistry(Nullables(m, d, t))
  {
    MaybeBuilds(d);
    SeriesBuilds(m);
    HolderBuilds(m);
    hide WellKinded, Maybe, Series, Linked;
  }

  lemma NullableAt(m: Id, d: Id, t: Id)
    requires m != d && m != t && d != t
    ensures var reg, order := Nullables(m, d, t), NullableOrder(m, d, t);
            (forall id | id in reg :: Need(id, false) in order) && forall n | n in order :: BuildableAt(reg, order, n)
  {
    var reg, order := Nullables(m, d, t), NullableOrder(m, d, t);
    MaybeBuilds(d);
    SeriesBuilds(m);
    HolderBuilds(m);
    hide Satisfiable, Demands, Maybe, Series, Linked;
    assert Need(d, true) in Lower(order, Need(m, true));
  }

  lemma MaybeBuilds(d: Id)
    ensures forall known :: Satisfiable(Maybe(d), known, false)
    ensures forall known | Need(d, true) in known :: Satisfiable(Maybe(d), known, true)
    ensures (forall solid :: Demands(Maybe(d), solid) == {}) && WellKinded(Maybe(d))
  {
    var arms := [Ref(d), NULL_LEAF];
    assert arms[0] in arms && arms[1] in arms;
    assert NULL_LEAF.kind.accepts(Null) && Stands(Null, false);
    assert forall known :: Satisfiable(NULL_LEAF, known, false) && Demands(NULL_LEAF, false) <= known;
    assert forall known :: Satisfiable(Ref(d), known, true);
    assert Demands(Ref(d), true) == {Need(d, true)};
  }

  lemma SeriesBuilds(m: Id)
    ensures forall known, solid :: Satisfiable(Series(m), known, solid)
    ensures (forall solid :: Demands(Series(m), solid) == {Need(m, false)}) && WellKinded(Series(m))
  {
  }

  lemma HolderBuilds(m: Id)
    ensures var s := Linked(NEXT, m, true);
            && (forall known, solid :: Satisfiable(s, known, solid))
            && (forall solid :: Demands(s, solid) == {Need(m, true)}) && WellKinded(s)
  {
    var s, p := Linked(NEXT, m, true), Property(NEXT, Ref(m));
    assert forall q | q in s.properties.list :: q == p;
    assert p in s.properties.list && Demands(p.schema, true) == {Need(m, true)};
  }

  // ---------- A rejected root with a value ----------

  /** The check names a declaration that the root can do without. */
  lemma OptionalLoopRejectsRoot()
    ensures var w := World(map["R" := Plain(Linked(NEXT, NAME, false)), NAME := Plain(Linked(NEXT, NAME, true))],
                           map[0 := Rec([])], map["R" := 0, NAME := 0]);
            && w.Ok() && Check(w.reg, "R") == Some(NAME)
            && Validate(w, "R", Obj(0)).verdict.Accept?
  {
    var w := World(map["R" := Plain(Linked(NEXT, NAME, false)), NAME := Plain(Linked(NEXT, NAME, true))],
                   map[0 := Rec([])], map["R" := 0, NAME := 0]);
    RootRejected(w.reg);
    RootAccepts(w);
  }

  lemma RootRejected(reg: Registry)
    requires "R" in reg && reg["R"] == Plain(Linked(NEXT, NAME, false))
    requires NAME in reg && reg[NAME] == Plain(Linked(NEXT, NAME, true))
    ensures Check(reg, "R") == Some(NAME)
  {
    LinkedEdges(NEXT, NAME, false);
    LinkedEdges(NEXT, NAME, true);
    var p := Descend(reg, START, "R");
    OneEdge(reg, p, reg["R"].body, Edge(Ref(NAME), true));
    var q := Descend(reg, Cross(p, Edge(Ref(NAME), true)), NAME);
    OneEdge(reg, q, reg[NAME].body, Edge(Ref(NAME), false));
    assert q.order == ["R", NAME];
    assert !LoopIsCyclic(reg, q, NAME);
  }

  lemma RootAccepts(w: World)
    requires w.Ok() && "R" in w.reg && w.reg["R"] == Plain(Linked(NEXT, NAME, false)) && 0 in w.heap
    requires w.heap[0] == Rec([])
    ensures Validate(w, "R", Obj(0)).verdict.Accept?
  {
    var c := Push(EMPTY, Pair(0, "R"), false);
    var s := w.reg["R"].body;
    ExpandShrinks(w.heap, s, Obj(0));
    OneTask(Property(NEXT, Ref(NAME)), w.heap[0]);
    assert Expand(w.heap, s, Obj(0)) == All([]);
    assert ValAll(w, c, s, []) == Outcome(Accept, c);
    assert ValNode(w, c, s, Obj(0)) == Outcome(Accept, c);
    assert Pair(0, "R") in Free(w, EMPTY) && Gate(w.reg["R"], EMPTY, Pair(0, "R"), false) == None;
    assert ValDecl(w, EMPTY, "R", Obj(0), false).verdict == Accept;
  }
}
