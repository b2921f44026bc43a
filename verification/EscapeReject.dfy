/** When the escape check throws, the declaration it names has no value. */
module EscapeReject {
  import opened SchemaGraph
  import opened Validator
  import opened Rules
  import opened ValidatorSound
  import opened Escape

  /** Acyclic declarations each of which cannot be satisfied without satisfying another. */
  ghost predicate IsLoop(reg: Registry, loop: set<Id>) {
    forall d | d in loop ::
      && d in reg && reg[d].cyclic.Acyclic?
      && exists e :: e in loop && e in Mandatory(reg[d].body)
  }

  /** The declarations in `r` only refer to declarations in `r`, or to nothing. */
  ghost predicate ClosedUnder(reg: Registry, r: set<Id>) {
    forall d, t | d in r && d in reg && t in Targets(reg[d].body) && t in reg :: t in r
  }

  ghost predicate MandatoryStep(reg: Registry, p: Path, i: nat)
    requires i + 1 < |p.order| && (forall d | d in p.order :: d in p.frames && d in reg)
  {
    p.frames[p.order[i]].escapesAtEntry == p.frames[p.order[i + 1]].escapesAtEntry ==>
      p.order[i + 1] in Mandatory(reg[p.order[i]].body)
  }

  /** The escape counts rise along the path, and where they stay level the step is mandatory. */
  ghost predicate Trail(reg: Registry, r: set<Id>, p: Path) {
    && (forall d | d in p.order :: d in p.frames && d in reg && d in r)
    && (forall d | d in p.frames :: d in p.order)
    && (forall d | d in p.order :: p.frames[d].cyclic == !reg[d].cyclic.Acyclic?)
    && (forall i | 0 <= i < |p.order| :: p.frames[p.order[i]].escapesAtEntry <= p.escapes)
    && (forall i, j | 0 <= i < j < |p.order| ::
          p.frames[p.order[i]].escapesAtEntry <= p.frames[p.order[j]].escapesAtEntry)
    && (forall i | 0 <= i < |p.order| - 1 :: MandatoryStep(reg, p, i))
    && (forall i, j | 0 <= i < j < |p.order| :: p.order[i] != p.order[j])
  }

  /** No escapable edge has been crossed since the last declaration on the path. */
  ghost predicate Level(p: Path)
    requires p.order != [] && p.order[|p.order| - 1] in p.frames
  {
    p.escapes == p.frames[p.order[|p.order| - 1]].escapesAtEntry
  }

  ghost function LastBody(reg: Registry, p: Path): Schema
    requires p.order != [] && p.order[|p.order| - 1] in reg
  {
    reg[p.order[|p.order| - 1]].body
  }

  ghost predicate LoopThrough(reg: Registry, r: set<Id>, id: Id) {
    exists loop :: IsLoop(reg, loop) && id in loop && loop <= r
  }

  /** The check throws on a path that goes on from `first`, where a loop closes at `id`. */
  ghost predicate ThrowsOn(reg: Registry, r: set<Id>, first: seq<Id>, id: Id) {
    exists q: Path, k: nat :: first <= q.order && ClosesAt(reg, r, q, k) && q.order[k] == id
  }

  lemma {:induction false} DeclRejects(reg: Registry, r: set<Id>, p: Path, id: Id)
    requires id in reg && id in r && ClosedUnder(reg, r) && Trail(reg, r, p)
    requires p.order != [] && Level(p) ==> id in Mandatory(LastBody(reg, p))
    ensures var t := CheckDecl(reg, p, id);
            t.Some? ==>
              && LoopThrough(reg, r, t.value)
              && ThrowsOn(reg, r, if id in p.frames then p.order else p.order + [id], t.value)
    decreases reg.Keys - p.frames.Keys, 1
  {
    if id in p.frames {
      if CheckDecl(reg, p, id).Some? {
        FindsLoop(reg, r, p, id);
        ClosesLoop(reg, r, p, IndexOf(p.order, id));
        assert p.order <= p.order && ClosesAt(reg, r, p, IndexOf(p.order, id));
      }
    } else {
      DescendTrail(reg, r, p, id);
      assert id in reg.Keys - p.frames.Keys;
      SchemaRejects(reg, r, Descend(reg, p, id), reg[id].body);
    }
  }

  lemma DescendTrail(reg: Registry, r: set<Id>, p: Path, id: Id)
    requires id in reg && id in r && Trail(reg, r, p) && id !in p.frames
    requires p.order != [] && Level(p) ==> id in Mandatory(LastBody(reg, p))
    ensures Trail(reg, r, Descend(reg, p, id))
  {
    hide Mandatory;
    var p' := Descend(reg, p, id);
    assert forall d | d in p.order :: d != id && p'.frames[d] == p.frames[d];
    forall i | 0 <= i < |p'.order| - 1 ensures MandatoryStep(reg, p', i) { DescendStep(reg, r, p, id, i); }
  }

  lemma DescendStep(reg: Registry, r: set<Id>, p: Path, id: Id, i: nat)
    requires id in reg && Trail(reg, r, p) && id !in p.frames && i < |p.order|
    requires Level(p) ==> id in Mandatory(LastBody(reg, p))
    ensures MandatoryStep(reg, Descend(reg, p, id), i)
  {
    hide Mandatory;
    if i < |p.order| - 1 { assert MandatoryStep(reg, p, i); }
    assert p.order[i] in p.order;
  }

  /** A loop of mandatory steps and acyclic declarations closes at position `k` of the path. */
  ghost predicate ClosesAt(reg: Registry, r: set<Id>, p: Path, k: nat) {
    && Trail(reg, r, p) && k < |p.order|
    && (Level(p) ==> p.order[k] in Mandatory(LastBody(reg, p)))
    && p.escapes <= p.frames[p.order[k]].escapesAtEntry
    && forall i | k <= i < |p.order| :: !p.frames[p.order[i]].cyclic
  }

  lemma LoopStep(reg: Registry, r: set<Id>, p: Path, k: nat, i: nat) returns (j: nat)
    requires ClosesAt(reg, r, p, k) && k <= i < |p.order|
    ensures p.order[i] in reg && p.order[i] in r && reg[p.order[i]].cyclic.Acyclic?
    ensures k <= j < |p.order| && p.order[j] in Mandatory(reg[p.order[i]].body)
  {
    if i + 1 < |p.order| {
      j := i + 1;
      assert MandatoryStep(reg, p, i);
      assert p.frames[p.order[k]].escapesAtEntry == p.escapes;
    } else {
      j := k;
    }
  }

  ghost function Segment(p: Path, k: nat): set<Id> { set i | k <= i < |p.order| :: p.order[i] }

  lemma LoopMember(reg: Registry, r: set<Id>, p: Path, k: nat, d: Id)
    requires ClosesAt(reg, r, p, k) && d in Segment(p, k)
    ensures d in reg && d in r && reg[d].cyclic.Acyclic?
    ensures exists e :: e in Segment(p, k) && e in Mandatory(reg[d].body)
  {
    hide ClosesAt, Mandatory;
    var i :| k <= i < |p.order| && p.order[i] == d;
    var j := LoopStep(reg, r, p, k, i);
    assert p.order[j] in Segment(p, k);
  }

  lemma ClosesLoop(reg: Registry, r: set<Id>, p: Path, k: nat)
    requires k < |p.order| && ClosesAt(reg, r, p, k)
    ensures LoopThrough(reg, r, p.order[k])
  {
    hide ClosesAt, Mandatory;
    var loop := Segment(p, k);
    forall d | d in loop ensures d in reg && d in r && reg[d].cyclic.Acyclic? {
      LoopMember(reg, r, p, k, d);
    }
    forall d | d in loop ensures exists e :: e in loop && e in Mandatory(reg[d].body) {
      LoopMember(reg, r, p, k, d);
    }
    assert IsLoop(reg, loop) && loop <= r;
  }

  lemma {:induction false} FindsLoop(reg: Registry, r: set<Id>, p: Path, id: Id)
    requires id in reg && Trail(reg, r, p) && id in p.frames
    requires Level(p) ==> id in Mandatory(LastBody(reg, p))
    requires p.escapes <= p.frames[id].escapesAtEntry && !LoopIsCyclic(reg, p, id)
    ensures ClosesAt(reg, r, p, IndexOf(p.order, id)) && p.order[IndexOf(p.order, id)] == id
  {
    var k := IndexOf(p.order, id);
    TrailHolds(reg, r, p, id);
    hide Trail, IndexOf, LoopIsCyclic, Mandatory, LastBody;
    forall i | k <= i < |p.order| ensures p.order[i] in p.frames && !p.frames[p.order[i]].cyclic {
      TrailHolds(reg, r, p, p.order[i]);
      NotCyclicFrom(reg, p, id, k, i);
    }
  }

  lemma TrailHolds(reg: Registry, r: set<Id>, p: Path, id: Id)
    requires Trail(reg, r, p)
    ensures id in p.order <==> id in p.frames
  {
  }

  lemma {:induction false} NotCyclicFrom(reg: Registry, p: Path, id: Id, k: nat, i: nat)
    requires id in reg && !LoopIsCyclic(reg, p, id) && k == IndexOf(p.order, id) <= i < |p.order|
    ensures !EntryIsCyclic(p, p.order[i])
  {
    assert p.order[k..][i - k] == p.order[i];
  }

  lemma {:induction false} SchemaRejects(reg: Registry, r: set<Id>, p: Path, s: Schema)
    requires ClosedUnder(reg, r) && Trail(reg, r, p) && p.order != []
    requires forall t | t in Targets(s) && t in reg :: t in r
    requires Level(p) ==> Mandatory(s) <= Mandatory(LastBody(reg, p))
    ensures var t := CheckSchema(reg, p, s);
            t.Some? ==> LoopThrough(reg, r, t.value) && ThrowsOn(reg, r, p.order, t.value)
    decreases reg.Keys - p.frames.Keys, 2, s
  {
    hide ClosesAt, LoopThrough;
    match s
    case Ref(t) => if t in reg { DeclRejects(reg, r, p, t); }
    case Embed(t) => if t in reg { DeclRejects(reg, r, p, t); }
    case Node(_, _, _, _, _, _, _, _) =>
      assert forall e, t | e in Edges(s) && t in Targets(e.schema) :: t in Targets(s);
      assert forall e, t | e in Edges(s) && !e.escapable && t in Mandatory(e.schema) :: t in Mandatory(s);
      EdgesReject(reg, r, p, s, Edges(s));
  }

  lemma {:induction false} EdgesReject(reg: Registry, r: set<Id>, p: Path, s: Schema, edges: seq<Edge>)
    requires ClosedUnder(reg, r) && Trail(reg, r, p) && p.order != []
    requires forall e | e in edges ::
               && e.schema < s
               && (forall t | t in Targets(e.schema) && t in reg :: t in r)
               && (Level(p) && !e.escapable ==> Mandatory(e.schema) <= Mandatory(LastBody(reg, p)))
    ensures var t := CheckEdges(reg, p, s, edges);
            t.Some? ==> LoopThrough(reg, r, t.value) && ThrowsOn(reg, r, p.order, t.value)
    decreases reg.Keys - p.frames.Keys, 2, s, |edges|
  {
    if edges != [] {
      assert edges[0] in edges;
      CrossTrail(reg, r, p, edges[0]);
      SchemaRejects(reg, r, Cross(p, edges[0]), edges[0].schema);
      EdgesReject(reg, r, p, s, edges[1..]);
    }
  }

  lemma CrossTrail(reg: Registry, r: set<Id>, p: Path, e: Edge)
    requires Trail(reg, r, p)
    ensures Trail(reg, r, Cross(p, e))
  {
    var p' := Cross(p, e);
    forall i | 0 <= i < |p'.order| - 1 ensures MandatoryStep(reg, p', i) {
      assert MandatoryStep(reg, p, i);
    }
  }

  /** From position `k` on, each declaration of the path makes the next one mandatory, and the last one
      that at `k`; all of these are acyclic. */
  ghost predicate LoopFrom(reg: Registry, order: seq<Id>, k: nat) {
    && k < |order| && (forall i, j | 0 <= i < j < |order| :: order[i] != order[j])
    && forall i | k <= i < |order| :: StepsRound(reg, order, k, i)
  }

  ghost predicate StepsRound(reg: Registry, order: seq<Id>, k: nat, i: nat)
    requires k <= i < |order|
  {
    && order[i] in reg && reg[order[i]].cyclic.Acyclic?
    && (if i + 1 < |order| then order[i + 1] else order[k]) in Mandatory(reg[order[i]].body)
  }

  ghost predicate Passes(reg: Registry, p: Path, s: Schema) { CheckSchema(reg, p, s).None? }

  /** `p` after an edge that is escapable or not. */
  function Over(p: Path, escapable: bool): Path { if escapable then p.(escapes := p.escapes + 1) else p }

  ghost predicate ItemsPass(reg: Registry, p: Path, s: Schema)
    requires s.Node?
  {
    s.items.Some? ==> Passes(reg, Over(p, s.minItems == 0), s.items.value)
  }

  ghost predicate ArmPasses(reg: Registry, p: Path, s: Schema, i: nat)
    requires s.Node? && s.union.AnyOf? && i < |s.union.arms|
  {
    Passes(reg, Over(p, |s.union.arms| >= 2), s.union.arms[i])
  }

  function OverField(p: Path, s: Schema, i: nat): Path
    requires s.Node? && s.properties.Properties? && i < |s.properties.list|
  {
    Over(p, s.properties.list[i].key !in s.required)
  }

  ghost predicate FieldPasses(reg: Registry, p: Path, s: Schema, i: nat)
    requires s.Node? && s.properties.Properties? && i < |s.properties.list|
  {
    Passes(reg, OverField(p, s, i), s.properties.list[i].schema)
  }

  ghost predicate AllPass(reg: Registry, p: Path, edges: seq<Edge>) {
    forall e | e in edges :: Passes(reg, Cross(p, e), e.schema)
  }

  /** Edges that pass are skipped, and the first that does not decides. */
  lemma {:induction false} FirstDecides(reg: Registry, p: Path, s: Schema, edges: seq<Edge>, n: nat)
    requires (forall e | e in edges :: e.schema < s) && n < |edges| && AllPass(reg, p, edges[..n])
    requires !Passes(reg, Cross(p, edges[n]), edges[n].schema)
    ensures CheckEdges(reg, p, s, edges) == CheckSchema(reg, Cross(p, edges[n]), edges[n].schema)
    decreases n
  {
    hide CheckSchema;
    if n > 0 {
      assert edges[0] in edges[..n] && edges[1..][..n - 1] == edges[..n][1..];
      FirstDecides(reg, p, s, edges[1..], n - 1);
    }
  }

  ghost function Arms(s: Schema): (es: seq<Edge>)
    requires s.Node?
    ensures |es| == if s.union.AnyOf? then |s.union.arms| else 0
    ensures forall i | 0 <= i < |es| :: es[i].schema == s.union.arms[i] && (es[i].escapable <==> |s.union.arms| >= 2)
  {
    if s.union.AnyOf? then ArmEdges(s.union.arms, |s.union.arms| > 1) else []
  }

  ghost function Fields(s: Schema): (es: seq<Edge>)
    requires s.Node?
    ensures |es| == if s.properties.Properties? then |s.properties.list| else 0
    ensures forall i | 0 <= i < |es| ::
              && es[i].schema == s.properties.list[i].schema
              && (es[i].escapable <==> s.properties.list[i].key !in s.required)
  {
    if s.properties.Properties? then PropertyEdges(s.properties.list, s.required) else []
  }

  /** The edges of a node, in order. */
  lemma EdgesAre(s: Schema)
    requires s.Node?
    ensures Edges(s) == ItemEdges(s.items, s.minItems) + (Arms(s) + Fields(s))
  {
    var items := ItemEdges(s.items, s.minItems);
    assert items + Arms(s) + Fields(s) == items + (Arms(s) + Fields(s));
  }

  lemma Within<T>(a: seq<T>, b: seq<T>, c: seq<T>, i: nat)
    requires i < |b|
    ensures (a + (b + c))[..|a| + i] == a + b[..i] && (a + (b + c))[|a| + i] == b[i]
  {
  }

  /** The items are checked first, */
  lemma ItemsGoFirst(reg: Registry, p: Path, s: Schema)
    requires s.Node? && !ItemsPass(reg, p, s)
    ensures CheckSchema(reg, p, s) == CheckSchema(reg, Over(p, s.minItems == 0), s.items.value)
  {
    EdgesAre(s);
    hide Edges, Arms, Fields, CheckEdges;
    FirstDecides(reg, p, s, Edges(s), 0);
  }

  /** then the arms in their order, */
  lemma ArmsGoNext(reg: Registry, p: Path, s: Schema, i: nat)
    requires s.Node? && s.union.AnyOf? && i < |s.union.arms|
    requires ItemsPass(reg, p, s) && (forall j | 0 <= j < i :: ArmPasses(reg, p, s, j)) && !ArmPasses(reg, p, s, i)
    ensures CheckSchema(reg, p, s) == CheckSchema(reg, Over(p, |s.union.arms| >= 2), s.union.arms[i])
  {
    EdgesAre(s);
    hide Edges, Arms, Fields, CheckEdges, AllPass;
    var items := ItemEdges(s.items, s.minItems);
    ArmsBefore(reg, p, s, i);
    Within(items, Arms(s), Fields(s), i);
    FirstDecides(reg, p, s, Edges(s), |items| + i);
  }

  lemma ArmsBefore(reg: Registry, p: Path, s: Schema, i: nat)
    requires s.Node? && ItemsPass(reg, p, s) && i <= |Arms(s)| && forall j | 0 <= j < i :: ArmPasses(reg, p, s, j)
    ensures AllPass(reg, p, ItemEdges(s.items, s.minItems) + Arms(s)[..i])
  {
    hide Arms, CheckSchema;
    forall e | e in Arms(s)[..i] ensures Passes(reg, Cross(p, e), e.schema) {
      var j :| 0 <= j < i && Arms(s)[j] == e;
      assert ArmPasses(reg, p, s, j);
    }
  }

  /** The position of a field among the edges. */
  ghost function FieldPlace(s: Schema, i: nat): (n: nat)
    requires s.Node? && i < |Fields(s)|
    ensures n < |Edges(s)| && Edges(s)[n] == Fields(s)[i]
    ensures Edges(s)[..n] == ItemEdges(s.items, s.minItems) + Arms(s) + Fields(s)[..i]
  {
    hide Edges, Arms, Fields, ItemEdges;
    EdgesAre(s);
    var before := ItemEdges(s.items, s.minItems) + Arms(s);
    assert Edges(s) == before + (Fields(s) + []);
    Within(before, Fields(s), [], i);
    |before| + i
  }

  /** and then the fields in theirs; the first failure is the one that is named. */
  lemma {:induction false} FieldsGoLast(reg: Registry, p: Path, s: Schema, i: nat)
    requires s.Node? && s.properties.Properties? && i < |s.properties.list|
    requires ItemsPass(reg, p, s) && forall j | 0 <= j < |Arms(s)| :: ArmPasses(reg, p, s, j)
    requires (forall j | 0 <= j < i :: FieldPasses(reg, p, s, j)) && !FieldPasses(reg, p, s, i)
    ensures CheckSchema(reg, p, s) == CheckSchema(reg, OverField(p, s, i), s.properties.list[i].schema)
  {
    hide Edges, Arms, Fields, CheckEdges, AllPass;
    FieldsBefore(reg, p, s, i);
    FirstDecides(reg, p, s, Edges(s), FieldPlace(s, i));
  }

  lemma FieldsBefore(reg: Registry, p: Path, s: Schema, i: nat)
    requires s.Node? && i <= |Fields(s)| && forall j | 0 <= j < i :: FieldPasses(reg, p, s, j)
    requires ItemsPass(reg, p, s) && forall j | 0 <= j < |Arms(s)| :: ArmPasses(reg, p, s, j)
    ensures AllPass(reg, p, ItemEdges(s.items, s.minItems) + Arms(s) + Fields(s)[..i])
  {
    ArmsBefore(reg, p, s, |Arms(s)|);
    assert Arms(s)[..|Arms(s)|] == Arms(s);
    hide Arms, Fields, CheckSchema;
    forall e | e in Fields(s)[..i] ensures Passes(reg, Cross(p, e), e.schema) {
      var j :| 0 <= j < i && Fields(s)[j] == e;
      assert FieldPasses(reg, p, s, j);
    }
  }

  /** The declaration that the exception names is the one at which the loop closes: the first of the
      loop on the path from the root. */
  lemma NamedClosesLoop(reg: Registry, root: Id, r: set<Id>)
    requires root in reg && Check(reg, root).Some? && root in r && ClosedUnder(reg, r)
    ensures exists order: seq<Id>, k: nat ::
              LoopFrom(reg, order, k) && order[0] == root && order[k] == Check(reg, root).value
  {
    hide Mandatory, CheckDecl, ClosedUnder;
    DeclRejects(reg, r, START, root);
    var q: Path, k: nat :| [root] <= q.order && ClosesAt(reg, r, q, k) && q.order[k] == Check(reg, root).value;
    ClosedIsLoop(reg, r, q, k);
    hide ClosesAt, LoopFrom;
    assert q.order[0] == root;
  }

  lemma ClosedIsLoop(reg: Registry, r: set<Id>, q: Path, k: nat)
    requires ClosesAt(reg, r, q, k)
    ensures LoopFrom(reg, q.order, k)
  {
    hide Mandatory;
    forall i | k <= i < |q.order| ensures StepsRound(reg, q.order, k, i) {
      RoundStep(reg, r, q, k, i);
    }
  }

  lemma RoundStep(reg: Registry, r: set<Id>, q: Path, k: nat, i: nat)
    requires ClosesAt(reg, r, q, k) && k <= i < |q.order|
    ensures StepsRound(reg, q.order, k, i)
  {
    hide Mandatory;
    if i + 1 < |q.order| { assert MandatoryStep(reg, q, i); }
    assert q.frames[q.order[k]].escapesAtEntry == q.escapes;
  }

  // ---------- A loop has no values ----------

  /** Keywords that make something mandatory stand only where the walker reads them: `items` with
      `minItems` on arrays, required `properties` on objects, neither beside `anyOf` or `enum`. */
  ghost predicate WellKinded(s: Schema) {
    s.Node? ==>
      && (s.items.Some? && s.minItems >= 1 ==>
            s.kind.ArrayKind? && s.union.NoUnion? && s.enums.None? && WellKinded(s.items.value))
      && (s.union.AnyOf? && |s.union.arms| <= 1 ==> forall a | a in s.union.arms :: WellKinded(a))
      && (s.properties.Properties? ==>
            forall p | p in s.properties.list && p.key in s.required ::
              && (s.kind.ObjectKind? || s.kind.Untyped?) && s.union.NoUnion? && s.enums.None?
              && WellKinded(p.schema))
  }

  lemma {:induction false} PropertyTaskIn(list: seq<Property>, cell: Cell, p: Property)
    requires p in list && !cell.Get(p.key).Nullish()
    ensures Task(p.schema, cell.Get(p.key)) in PropertyTasks(list, cell)
  {
    if list[0] != p { PropertyTaskIn(list[1..], cell, p); }
  }

  ghost predicate WellKindedRegistry(reg: Registry) {
    forall id | id in reg :: WellKinded(reg[id].body)
  }

  lemma MandatoryItem(w: World, s: Schema, v: Val, r: set<Pair>) returns (x: Val)
    requires w.Ok() && InHeap(w.heap, v) && WellKinded(s) && Holds(w, s, v, r)
    requires s.Node? && s.items.Some? && s.minItems >= 1
    ensures v.Obj? && InHeap(w.heap, x) && Holds(w, s.items.value, x, r)
  {
    ExpandShrinks(w.heap, s, v);
    var t := Expand(w.heap, s, v).tasks[0];
    assert t in Expand(w.heap, s, v).tasks;
    x := t.val;
  }

  lemma {:induction false} MandatoryArm(w: World, s: Schema, v: Val, r: set<Pair>)
    requires w.Ok() && InHeap(w.heap, v) && Holds(w, s, v, r)
    requires s.Node? && s.union.AnyOf? && |s.union.arms| <= 1
    ensures |s.union.arms| == 1 && Holds(w, s.union.arms[0], v, r)
    ensures Bound(w.rank, s.union.arms[0]) <= Bound(w.rank, s)
  {
    var arm :| arm in s.union.arms && Holds(w, arm, v, r);
    assert arm == s.union.arms[0];
  }

  lemma MandatoryProperty(w: World, s: Schema, v: Val, r: set<Pair>, p: Property) returns (x: Val)
    requires w.Ok() && InHeap(w.heap, v) && WellKinded(s) && Holds(w, s, v, r)
    requires s.Node? && s.properties.Properties? && p in s.properties.list && p.key in s.required
    ensures v.Obj? && InHeap(w.heap, x) && Holds(w, p.schema, x, r)
  {
    ExpandShrinks(w.heap, s, v);
    x := w.heap[v.addr].Get(p.key);
    PropertyTaskIn(s.properties.list, w.heap[v.addr], p);
  }

  /** A value of a node holds a value of the schema behind each edge that cannot be escaped. */
  lemma MandatoryEdge(w: World, s: Schema, v: Val, r: set<Pair>, edge: Edge) returns (x: Val)
    requires w.Ok() && InHeap(w.heap, v) && WellKinded(s) && Holds(w, s, v, r)
    requires s.Node? && edge in Edges(s) && !edge.escapable
    ensures InHeap(w.heap, x) && WellKinded(edge.schema) && Holds(w, edge.schema, x, r)
    ensures v.Prim? ==> x == v && Bound(w.rank, edge.schema) <= Bound(w.rank, s)
  {
    hide Holds, Bound;
    if s.items.Some? && edge in ItemEdges(s.items, s.minItems) {
      x := MandatoryItem(w, s, v, r);
    } else if s.union.AnyOf? && edge in ArmEdges(s.union.arms, |s.union.arms| > 1) {
      MandatoryArm(w, s, v, r);
      x := v;
    } else {
      var p :| p in s.properties.list && edge == Edge(p.schema, p.key !in s.required);
      x := MandatoryProperty(w, s, v, r, p);
    }
  }

  /** A value of a schema holds a value of each declaration that the schema makes mandatory. */
  lemma {:induction false} MandatoryHolds(w: World, s: Schema, v: Val, r: set<Pair>, e: Id) returns (x: Val)
    requires w.Ok() && InHeap(w.heap, v) && WellKinded(s)
    requires Holds(w, s, v, r) && e in Mandatory(s)
    ensures e in w.reg && InHeap(w.heap, x) && Obeys(w, e, x, r)
    ensures v.Prim? ==> x == v && w.rank[e] < Bound(w.rank, s)
    decreases s
  {
    if s.Node? {
      hide Holds;
      var edge :| edge in Edges(s) && !edge.escapable && e in Mandatory(edge.schema);
      var y := MandatoryEdge(w, s, v, r, edge);
      x := MandatoryHolds(w, edge.schema, y, r, e);
    } else {
      x := v;
    }
  }

  lemma NextInLoop(reg: Registry, loop: set<Id>, d: Id) returns (e: Id)
    requires IsLoop(reg, loop) && d in loop
    ensures d in reg && e in loop && e in reg && e in Mandatory(reg[d].body) && reg[e].cyclic.Acyclic?
  {
    hide Mandatory;
    e :| e in loop && e in Mandatory(reg[d].body);
  }

  /** Acyclic declarations each of which demands another, by keywords that the walker reads. */
  ghost predicate Closing(w: World, loop: set<Id>) {
    w.Ok() && IsLoop(w.reg, loop) && forall d | d in loop && d in w.reg :: WellKinded(w.reg[d].body)
  }

  /** Nothing is memoized for a declaration of the loop. */
  ghost predicate Clear(c: Ctx, loop: set<Id>) { forall p | p in c.finished :: p.id !in loop }

  /** The schema makes no declaration of the loop mandatory, if its keywords are read. */
  ghost predicate Outside(s: Schema, loop: set<Id>) { WellKinded(s) ==> Mandatory(s) !! loop }

  /** No entry into a declaration of the loop is accepted, and none is memoized, whatever the verdict
      and whatever unions the registry holds. */
  lemma {:induction false} DeclCloses(w: World, loop: set<Id>, c: Ctx, id: Id, v: Val, viaRef: bool)
    requires Closing(w, loop) && id in w.reg && InHeap(w.heap, v) && Clear(c, loop)
    ensures var o := ValDecl(w, c, id, v, viaRef); Clear(o.ctx, loop) && (o.verdict.Accept? ==> id !in loop)
    decreases Free(w, c), if v.Obj? then 1 else 0, if v.Obj? then 0 else w.rank[id], if v.Obj? then 0 else 1
  {
    hide IsLoop, Mandatory, WellKinded;
    if id in loop { MemberLeads(w, loop, id); }
    if v.Prim? {
      NodeCloses(w, loop, c, w.reg[id].body, v);
    } else {
      var p := Pair(v.addr, id);
      if Gate(w.reg[id], c, p, viaRef).None? {
        assert p in Free(w, c);
        NodeCloses(w, loop, Push(c, p, viaRef), w.reg[id].body, v);
      }
    }
  }

  lemma MemberLeads(w: World, loop: set<Id>, id: Id)
    requires Closing(w, loop) && id in loop
    ensures id in w.reg && w.reg[id].cyclic.Acyclic? && !Outside(w.reg[id].body, loop)
  {
    hide Mandatory, WellKinded;
  }

  lemma {:induction false} NodeCloses(w: World, loop: set<Id>, c: Ctx, s: Schema, v: Val)
    requires Closing(w, loop) && InHeap(w.heap, v) && Clear(c, loop)
    ensures var o := ValNode(w, c, s, v); Clear(o.ctx, loop) && (o.verdict.Accept? ==> Outside(s, loop))
    decreases Free(w, c), if v.Obj? then 1 else 0, if v.Obj? then 0 else Bound(w.rank, s), if v.Obj? then 1 else 0, s
  {
    hide Closing, Outside;
    ClosingIsOk(w, loop);
    ExpandShrinks(w.heap, s, v);
    match Expand(w.heap, s, v)
    case Leaf(ok) => if ok { LeafOutside(w.heap, s, v, loop); }
    case All(tasks) =>
      AllCloses(w, loop, c, s, tasks);
      if ValAll(w, c, s, tasks).verdict.Accept? { TasksOutside(w.heap, s, v, loop); }
    case Any(arms) =>
      AnyCloses(w, loop, c, s, arms, v);
      if ValAny(w, c, s, arms, v).verdict.Accept? { ArmOutside(s, loop); }
    case Enter(id, viaRef) =>
      if id in w.reg {
        DeclCloses(w, loop, c, id, v, viaRef);
        if id !in loop { ReferenceOutside(s, loop); }
      }
  }

  lemma ClosingIsOk(w: World, loop: set<Id>)
    requires Closing(w, loop)
    ensures w.Ok()
  {
  }

  lemma {:induction false} AllCloses(w: World, loop: set<Id>, c: Ctx, s: Schema, tasks: seq<Task>)
    requires Closing(w, loop) && Clear(c, loop) && forall t | t in tasks :: t.schema < s && InHeap(w.heap, t.val)
    ensures var o := ValAll(w, c, s, tasks);
            Clear(o.ctx, loop) && (o.verdict.Accept? ==> forall t | t in tasks :: Outside(t.schema, loop))
    decreases Free(w, c), 1, 0, 1, s, |tasks|
  {
    hide IsLoop, Outside;
    if tasks != [] {
      NodeCloses(w, loop, c, tasks[0].schema, tasks[0].val);
      var o := ValNode(w, c, tasks[0].schema, tasks[0].val);
      if o.verdict.Accept? { AllCloses(w, loop, o.ctx, s, tasks[1..]); }
    }
  }

  lemma {:induction false} AnyCloses(w: World, loop: set<Id>, c: Ctx, s: Schema, arms: seq<Schema>, v: Val)
    requires Closing(w, loop) && InHeap(w.heap, v) && Clear(c, loop)
    requires forall a | a in arms :: a < s && Bound(w.rank, a) <= Bound(w.rank, s)
    ensures var o := ValAny(w, c, s, arms, v);
            Clear(o.ctx, loop) && (o.verdict.Accept? ==> exists a :: a in arms && Outside(a, loop))
    decreases Free(w, c), if v.Obj? then 1 else 0, if v.Obj? then 0 else Bound(w.rank, s), if v.Obj? then 1 else 0,
              s, |arms|
  {
    hide IsLoop, Outside;
    if arms != [] {
      assert arms[0] in arms && forall a | a in arms[1..] :: a in arms;
      NodeCloses(w, loop, c, arms[0], v);
      var o := ValNode(w, c, arms[0], v);
      if o.verdict.Reject? { AnyCloses(w, loop, o.ctx, s, arms[1..], v); }
    }
  }

  // ---------- What an accepted node makes mandatory ----------

  lemma ReferenceOutside(s: Schema, loop: set<Id>)
    requires !s.Node? && s.target !in loop
    ensures Outside(s, loop)
  {
  }

  /** Where no part is walked, the keywords that are read make nothing mandatory. */
  lemma LeafOutside(heap: Heap, s: Schema, v: Val, loop: set<Id>)
    requires InHeap(heap, v) && Expand(heap, s, v) == Leaf(true)
    ensures Outside(s, loop)
  {
    hide Mandatory;
    if WellKinded(s) {
      forall e | e in Edges(s) ensures e.escapable { NoHardEdge(heap, s, v, e); }
      EdgesOutside(s, loop);
    }
  }

  lemma {:induction false} NoHardEdge(heap: Heap, s: Schema, v: Val, e: Edge)
    requires InHeap(heap, v) && Expand(heap, s, v) == Leaf(true) && WellKinded(s) && s.Node? && e in Edges(s)
    ensures e.escapable
  {
    if s.items.Some? && e in ItemEdges(s.items, s.minItems) {
    } else {
      var p :| p in s.properties.list && e == Edge(p.schema, p.key !in s.required);
    }
  }

  lemma {:induction false} EdgesOutside(s: Schema, loop: set<Id>)
    requires s.Node? && forall e | e in Edges(s) && !e.escapable :: Mandatory(e.schema) !! loop
    ensures Mandatory(s) !! loop
  {
  }

  lemma TasksOutside(heap: Heap, s: Schema, v: Val, loop: set<Id>)
    requires InHeap(heap, v) && Expand(heap, s, v).All? && s.Node?
    requires forall t | t in Expand(heap, s, v).tasks :: Outside(t.schema, loop)
    ensures Outside(s, loop)
  {
    hide Mandatory;
    if WellKinded(s) {
      forall e | e in Edges(s) && !e.escapable ensures Mandatory(e.schema) !! loop {
        hide Outside;
        EdgeHasTask(heap, s, v, e);
        assert Outside(e.schema, loop);
        Unfold(e.schema, loop);
      }
      EdgesOutside(s, loop);
    }
  }

  lemma {:induction false} Unfold(s: Schema, loop: set<Id>)
    requires Outside(s, loop) && WellKinded(s)
    ensures Mandatory(s) !! loop
  {
  }

  lemma {:induction false} EdgeHasTask(heap: Heap, s: Schema, v: Val, e: Edge)
    requires InHeap(heap, v) && Expand(heap, s, v).All? && s.Node? && WellKinded(s) && e in Edges(s) && !e.escapable
    ensures WellKinded(e.schema) && exists t :: t in Expand(heap, s, v).tasks && t.schema == e.schema
  {
    var tasks := Expand(heap, s, v).tasks;
    if s.items.Some? && e in ItemEdges(s.items, s.minItems) {
      assert tasks[0].schema == e.schema && tasks[0] in tasks;
    } else {
      var p :| p in s.properties.list && e == Edge(p.schema, p.key !in s.required);
      PropertyTaskIn(s.properties.list, heap[v.addr], p);
    }
  }

  lemma ArmOutside(s: Schema, loop: set<Id>)
    requires s.Node? && s.union.AnyOf? && exists a :: a in s.union.arms && Outside(a, loop)
    ensures Outside(s, loop)
  {
    hide Mandatory;
    if WellKinded(s) {
      forall e | e in Edges(s) && !e.escapable ensures Mandatory(e.schema) !! loop {
        assert s.properties.Properties? ==> forall p | p in s.properties.list :: p.key !in s.required;
        assert s.properties.Properties? ==> forall x | x in PropertyEdges(s.properties.list, s.required) :: x.escapable;
        assert forall x | x in ItemEdges(s.items, s.minItems) :: x.escapable;
        assert e in ArmEdges(s.union.arms, |s.union.arms| > 1) && e.schema in s.union.arms;
      }
      EdgesOutside(s, loop);
    }
  }

  /** The validator accepts no value for a declaration of the loop. */
  lemma LoopIsEmpty(w: World, loop: set<Id>, d: Id, v: Val)
    requires Closing(w, loop) && d in w.reg && d in loop && InHeap(w.heap, v)
    ensures !Validate(w, d, v).verdict.Accept?
  {
    hide Closing;
    DeclCloses(w, loop, EMPTY, d, v, false);
  }

  lemma MemberDeclared(reg: Registry, loop: set<Id>, t: Id)
    requires IsLoop(reg, loop) && t in loop
    ensures t in reg
  {
  }

  /** When the check throws, the declaration it names is reachable from the root, and the
      validator accepts no value for it, in any heap, cyclic heaps included, whatever other
      declarations and unions there are. */
  lemma {:induction false} RejectionIsSound(reg: Registry, root: Id, r: set<Id>, w: World, v: Val)
    requires root in reg && Check(reg, root).Some?
    requires root in r && ClosedUnder(reg, r) && forall d | d in r && d in reg :: WellKinded(reg[d].body)
    requires w.Ok() && w.reg == reg && InHeap(w.heap, v)
    ensures var t := Check(reg, root).value;
            t in reg && t in r && !Validate(w, t, v).verdict.Accept?
  {
    hide Mandatory, WellKinded, IsLoop, ClosedUnder, World.Ok;
    DeclRejects(reg, r, START, root);
    hide CheckDecl;
    var t := Check(reg, root).value;
    var loop :| IsLoop(reg, loop) && t in loop && loop <= r;
    MemberDeclared(reg, loop, t);
    LoopIsEmpty(w, loop, t, v);
  }
}
