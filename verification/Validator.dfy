/** The validator's walk as a function from context to context.  `Validate.dfy` runs the same
    walk over mutable fields, and `ValidatorTheorems.dfy` says what a verdict means. */
module Validator {
  import opened SchemaGraph

  /** A declaration entry on the current path. */
  datatype Frame = Frame(pair: Pair, viaRef: bool)

  /** The per-root-call context.
      - `frames` is the path: its names are the diagnostic's path, its length is `pathDepth`;
      - `inflight` maps a pair on the path to the path depth at which it was entered;
      - `finished` is the `done` memo, in the order in which pairs were added;
      - `depths` counts `$ref`-mediated entries;
      - `entered` lists every pair whose body was walked. */
  datatype Ctx = Ctx(
    frames: seq<Frame>,
    inflight: map<Pair, nat>,
    finished: seq<Pair>,
    depths: map<Id, nat>,
    entered: seq<Pair>)

  const EMPTY := Ctx([], map[], [], map[], [])

  datatype Verdict = Accept | Reject | Raise
  datatype Outcome = Outcome(verdict: Verdict, ctx: Ctx)

  function Push(c: Ctx, p: Pair, viaRef: bool): Ctx {
    c.(frames := c.frames + [Frame(p, viaRef)],
       inflight := c.inflight[p := |c.frames|],
       depths := if viaRef then c.depths[p.id := DepthOf(c.depths, p.id) + 1] else c.depths,
       entered := c.entered + [p])
  }

  /** Leaves the frame of `p`; `depth` is the counter as it was on entry. */
  function Pop(c: Ctx, p: Pair, viaRef: bool, depth: nat): Ctx
    requires c.frames != []
  {
    c.(frames := c.frames[..|c.frames| - 1],
       inflight := c.inflight - {p},
       depths := if viaRef then c.depths[p.id := depth] else c.depths)
  }

  /** A sub-schema to check against a sub-value. */
  datatype Task = Task(schema: Schema, val: Val)

  /** What a schema node demands of a value, one level deep. */
  datatype Step =
    | Leaf(ok: bool)
    | All(tasks: seq<Task>)
    | Any(arms: seq<Schema>)
    | Enter(id: Id, viaRef: bool)

  function PropertyTasks(list: seq<Property>, cell: Cell): (ts: seq<Task>)
    ensures forall t | t in ts ::
              (exists p :: p in list && t == Task(p.schema, cell.Get(p.key))) && !t.val.Nullish()
  {
    if list == [] then []
    else
      var rest := PropertyTasks(list[1..], cell);
      assert forall p | p in list[1..] :: p in list;
      var v := cell.Get(list[0].key);
      if v.Nullish() then rest
      else
        assert list[0] in list;
        [Task(list[0].schema, v)] + rest
  }

  predicate HasRequired(keys: seq<Key>, cell: Cell) {
    forall k | k in keys :: !cell.Get(k).Nullish()
  }

  predicate LengthOk(s: Schema, n: nat)
    requires s.Node?
  {
    s.minItems <= n && (s.maxItems.Some? ==> n <= s.maxItems.value)
  }

  /** The dispatch on one schema node, in the order the source tests its keywords. */
  function Expand(heap: Heap, s: Schema, v: Val): Step
    requires InHeap(heap, v)
  {
    match s
    case Ref(t) => Enter(t, true)
    case Embed(t) => Enter(t, false)
    case Node(kind, union, enums, items, _, _, properties, required) =>
      if union.AnyOf? then Any(union.arms)
      else if enums.Some? then Leaf(v.Prim? && v.prim in enums.value)
      else
        match kind
        case Scalar(accepts) => Leaf(v.Prim? && accepts(v.prim))
        case Permissive => Leaf(true)
        case ArrayKind =>
          if v.Prim? || heap[v.addr].Rec? then Leaf(false)
          else
            var elems := heap[v.addr].elems;
            if !LengthOk(s, |elems|) then Leaf(false)
            else if items.None? then Leaf(true)
            else All(seq(|elems|, i requires 0 <= i < |elems| => Task(items.value, elems[i])))
        case _ =>
          if kind.Untyped? && properties.NoProperties? then Leaf(true)
          else if v.Prim? || !HasRequired(required, heap[v.addr]) then Leaf(false)
          else if properties.NoProperties? then Leaf(true)
          else All(PropertyTasks(properties.list, heap[v.addr]))
  }

  /** Sub-schemas are smaller, sub-values are in the heap, and only an object has any. */
  lemma ExpandShrinks(heap: Heap, s: Schema, v: Val)
    requires Closed(heap) && InHeap(heap, v)
    ensures var e := Expand(heap, s, v);
            && (e.All? ==> v.Obj? && forall t | t in e.tasks :: t.schema < s && InHeap(heap, t.val))
            && (e.Any? ==> s.Node? && s.union.AnyOf? && s.union.arms == e.arms && forall a | a in e.arms :: a < s)
  {
    var e := Expand(heap, s, v);
    if e.All? {
      var cell := heap[v.addr];
      if cell.Rec? {
        forall k ensures InHeap(heap, cell.Get(k)) {
          var x := cell.Get(k);
          if x != Prim(Undefined) { assert x in cell.Vals(); }
        }
      } else {
        assert forall x | x in cell.elems :: x in cell.Vals();
      }
      if s.kind.ArrayKind? {
        assert s.items.value < s;
      } else {
        forall t | t in e.tasks ensures t.schema < s && InHeap(heap, t.val) {
          var p :| p in s.properties.list && t == Task(p.schema, cell.Get(p.key));
          assert p < s;
        }
      }
    }
  }

  ghost function Elems(ps: seq<Pair>): set<Pair> { set p | p in ps }

  ghost function Free(w: World, c: Ctx): set<Pair> { w.Pairs() - c.inflight.Keys }

  /** What every part of the walk keeps, whatever its verdict. */
  ghost predicate Restored(c: Ctx, c': Ctx) {
    && c'.frames == c.frames
    && c'.inflight == c.inflight
    && c.finished <= c'.finished
  }

  /** Decides an entry without a walk, when the memo, the path or the depth cap can. */
  function Gate(decl: Decl, c: Ctx, p: Pair, viaRef: bool): Option<Verdict> {
    if p in c.finished then Some(Accept)
    else if p in c.inflight then
      match decl.cyclic
      case Acyclic => Some(Reject)
      case AnyLength => Some(Accept)
      case UpTo(hops) => Some(if |c.frames| - c.inflight[p] > hops then Reject else Accept)
    else if viaRef && decl.Capped(DepthOf(c.depths, p.id) + 1) then Some(Reject)
    else None
  }

  /** Enters declaration `id` with value `v`. */
  ghost function ValDecl(w: World, c: Ctx, id: Id, v: Val, viaRef: bool): (o: Outcome)
    requires w.Ok() && id in w.reg && InHeap(w.heap, v)
    ensures Restored(c, o.ctx)
    ensures v.Prim? ==> o.ctx == c
    decreases Free(w, c), if v.Obj? then 1 else 0, if v.Obj? then 0 else w.rank[id], if v.Obj? then 0 else 1
  {
    if v.Prim? then ValNode(w, c, w.reg[id].body, v)
    else
      var p := Pair(v.addr, id);
      match Gate(w.reg[id], c, p, viaRef)
      case Some(verdict) => Outcome(verdict, c)
      case None =>
        assert p in Free(w, c);
        var o := ValNode(w, Push(c, p, viaRef), w.reg[id].body, v);
        var c' := Pop(o.ctx, p, viaRef, DepthOf(c.depths, id));
        assert c'.frames == c.frames && c'.inflight == c.inflight;
        Outcome(o.verdict, if o.verdict.Accept? then c'.(finished := c'.finished + [p]) else c')
  }

  /** Checks `v` against one schema node. */
  ghost function ValNode(w: World, c: Ctx, s: Schema, v: Val): (o: Outcome)
    requires w.Ok() && InHeap(w.heap, v)
    ensures Restored(c, o.ctx)
    ensures v.Prim? ==> o.ctx == c
    decreases Free(w, c), if v.Obj? then 1 else 0, if v.Obj? then 0 else Bound(w.rank, s), if v.Obj? then 1 else 0, s
  {
    ExpandShrinks(w.heap, s, v);
    match Expand(w.heap, s, v)
    case Leaf(ok) => Outcome(if ok then Accept else Reject, c)
    case All(tasks) => ValAll(w, c, s, tasks)
    case Any(arms) => ValAny(w, c, s, arms, v)
    case Enter(id, viaRef) => if id in w.reg then ValDecl(w, c, id, v, viaRef) else Outcome(Raise, c)
  }

  /** Checks sub-values left to right, stopping at the first that is not accepted. */
  ghost function ValAll(w: World, c: Ctx, s: Schema, tasks: seq<Task>): (o: Outcome)
    requires w.Ok()
    requires forall t | t in tasks :: t.schema < s && InHeap(w.heap, t.val)
    ensures Restored(c, o.ctx)
    decreases Free(w, c), 1, 0, 1, s, |tasks|
  {
    if tasks == [] then Outcome(Accept, c)
    else
      var o := ValNode(w, c, tasks[0].schema, tasks[0].val);
      if o.verdict.Accept? then ValAll(w, o.ctx, s, tasks[1..]) else o
  }

  /** Tries union arms left to right, stopping at the first that is not rejected. */
  ghost function ValAny(w: World, c: Ctx, s: Schema, arms: seq<Schema>, v: Val): (o: Outcome)
    requires w.Ok() && InHeap(w.heap, v)
    requires forall a | a in arms :: a < s && Bound(w.rank, a) <= Bound(w.rank, s)
    ensures Restored(c, o.ctx)
    ensures v.Prim? ==> o.ctx == c
    decreases Free(w, c), if v.Obj? then 1 else 0, if v.Obj? then 0 else Bound(w.rank, s), if v.Obj? then 1 else 0,
              s, |arms|
  {
    if arms == [] then Outcome(Reject, c)
    else
      assert arms[0] in arms && forall a | a in arms[1..] :: a in arms;
      var o := ValNode(w, c, arms[0], v);
      if o.verdict.Reject? then ValAny(w, o.ctx, s, arms[1..], v) else o
  }

  /** `parse`, once the escape check has passed. */
  ghost function Validate(w: World, id: Id, v: Val): Outcome
    requires w.Ok() && id in w.reg && InHeap(w.heap, v)
  {
    ValDecl(w, EMPTY, id, v, false)
  }
}
