/** When the escape check passes, every declaration it reached has a value. */
module EscapeAccept {
  import opened SchemaGraph
  import opened Validator
  import opened Rules
  import opened Paths
  import opened ValidatorSound
  import opened ValidatorComplete
  import opened ValidatorTheorems
  import opened Escape
  import opened EscapeReject

  // ---------- A reachable loop makes the check throw ----------

  lemma {:induction false} EdgeThrows(reg: Registry, p: Path, s: Schema, edges: seq<Edge>, e: Edge)
    requires (forall x | x in edges :: x.schema < s) && e in edges
    requires CheckSchema(reg, Cross(p, e), e.schema).Some?
    ensures CheckEdges(reg, p, s, edges).Some?
  {
    if edges[0] != e { EdgeThrows(reg, p, s, edges[1..], e); }
  }

  lemma {:induction false} MandatoryThrows(reg: Registry, p: Path, s: Schema, t: Id)
    requires t in reg && t in Mandatory(s) && CheckDecl(reg, p, t).Some?
    ensures CheckSchema(reg, p, s).Some?
    decreases s
  {
    if s.Node? {
      var e :| e in Edges(s) && !e.escapable && t in Mandatory(e.schema);
      MandatoryThrows(reg, p, e.schema, t);
      EdgeThrows(reg, p, s, Edges(s), e);
    }
  }

  lemma {:induction false} TargetThrows(reg: Registry, p: Path, s: Schema, t: Id)
    requires t in reg && t in Targets(s)
    requires forall n: nat :: CheckDecl(reg, p.(escapes := n), t).Some?
    ensures CheckSchema(reg, p, s).Some?
    decreases s
  {
    assert p == p.(escapes := p.escapes);
    if s.Node? {
      var e :| e in Edges(s) && t in Targets(e.schema);
      var p' := Cross(p, e);
      forall n: nat ensures CheckDecl(reg, p'.(escapes := n), t).Some? {
        assert p'.(escapes := n) == p.(escapes := n);
      }
      TargetThrows(reg, p', e.schema, t);
      EdgeThrows(reg, p, s, Edges(s), e);
    }
  }

  /** The path ends with `visited`, declarations of the loop entered since the last escape. */
  ghost predicate Circling(reg: Registry, p: Path, loop: set<Id>, before: seq<Id>, visited: seq<Id>) {
    && p.order == before + visited
    && (forall d | d in before :: d !in loop)
    && (forall d | d in visited :: d in loop && d in p.frames && p.frames[d] == Entry(p.escapes, false))
    && (forall d | d in loop && d in p.frames :: d in visited)
  }

  lemma {:induction false} LoopThrows(reg: Registry, p: Path, loop: set<Id>, before: seq<Id>, visited: seq<Id>, d: Id)
    requires IsLoop(reg, loop) && Circling(reg, p, loop, before, visited)
    requires d in loop && d in reg && d !in p.frames
    ensures CheckDecl(reg, p, d).Some?
    decreases loop - p.frames.Keys
  {
    hide IsLoop, Mandatory;
    var e := NextInLoop(reg, loop, d);
    var p' := Descend(reg, p, d);
    LoopIsAcyclic(reg, loop, d);
    assert Circling(reg, p', loop, before, visited + [d]) by {
      assert p'.order == before + (visited + [d]);
    }
    if e in p'.frames {
      ClosedLoopThrows(reg, p', loop, before, visited + [d], e);
    } else {
      assert d in loop - p.frames.Keys;
      LoopThrows(reg, p', loop, before, visited + [d], e);
    }
    MandatoryThrows(reg, p', reg[d].body, e);
  }

  lemma LoopIsAcyclic(reg: Registry, loop: set<Id>, d: Id)
    requires IsLoop(reg, loop) && d in loop
    ensures d in reg && reg[d].cyclic.Acyclic?
  {
  }

  lemma {:induction false} ClosedLoopThrows(reg: Registry, p: Path, loop: set<Id>, before: seq<Id>, visited: seq<Id>,
                                            e: Id)
    requires Circling(reg, p, loop, before, visited)
    requires e in loop && e in reg && reg[e].cyclic.Acyclic? && e in p.frames
    ensures CheckDecl(reg, p, e).Some?
  {
    var k := IndexOf(p.order, e);
    InVisited(before, visited, k, e);
    hide IndexOf;
    forall d | d in p.order[k..] ensures !EntryIsCyclic(p, d) { assert d in visited; }
  }

  /** From the position of a declaration that was visited, and not before, all are visited. */
  lemma InVisited(before: seq<Id>, visited: seq<Id>, k: nat, e: Id)
    requires k < |before + visited| && (before + visited)[k] == e && e !in before
    ensures forall d | d in (before + visited)[k..] :: d in visited
  {
    var order := before + visited;
    assert forall i | 0 <= i < |before| :: order[i] in before;
    forall d | d in order[k..] ensures d in visited {
      var i :| 0 <= i < |order[k..]| && order[k..][i] == d;
      assert order[k + i] == visited[k + i - |before|];
    }
  }

  ghost predicate ReferenceAt(reg: Registry, path: seq<Id>, i: nat)
    requires i + 1 < |path|
  {
    path[i] in reg && path[i + 1] in Targets(reg[path[i]].body)
  }

  /** A path of references through the registry. */
  ghost predicate IsRoute(reg: Registry, path: seq<Id>) {
    && path != [] && (forall d | d in path :: d in reg)
    && forall i | 0 <= i < |path| - 1 :: ReferenceAt(reg, path, i)
  }

  function LastIndex(path: seq<Id>): (k: nat)
    requires path != []
    ensures k < |path| && path[k] == path[0] && path[0] !in path[k + 1..]
  {
    if path[0] in path[1..] then LastIndexOf(path, path[0], |path|) else 0
  }

  function LastIndexOf(path: seq<Id>, id: Id, n: nat): (k: nat)
    requires n <= |path| && id in path[..n] && id !in path[n..]
    ensures k < |path| && path[k] == id && id !in path[k + 1..]
  {
    if path[n - 1] == id then n - 1
    else
      assert path[n - 1..] == [path[n - 1]] + path[n..];
      assert path[..n] == path[..n - 1] + [path[n - 1]];
      LastIndexOf(path, id, n - 1)
  }

  /** A route into a loop makes the check throw, from any path that avoids both. */
  lemma {:induction false} RouteThrows(reg: Registry, p: Path, loop: set<Id>, path: seq<Id>)
    requires IsLoop(reg, loop) && IsRoute(reg, path) && path[|path| - 1] in loop
    requires forall d | d in p.frames :: d !in loop && d !in path
    requires forall d | d in p.order :: d !in loop
    ensures CheckDecl(reg, p, path[0]).Some?
    decreases |path|
  {
    hide IsLoop, Targets;
    var d := path[0];
    if d in loop {
      assert p.order == p.order + [];
      LoopThrows(reg, p, loop, p.order, [], d);
    } else {
      var k := LastIndex(path);
      var rest := path[k + 1..];
      var p' := Descend(reg, p, d);
      RouteSuffix(reg, path, k + 1);
      assert ReferenceAt(reg, path, k);
      forall n: nat ensures CheckDecl(reg, p'.(escapes := n), rest[0]).Some? {
        RouteThrows(reg, p'.(escapes := n), loop, rest);
      }
      TargetThrows(reg, p', reg[d].body, rest[0]);
    }
  }

  lemma RouteSuffix(reg: Registry, path: seq<Id>, k: nat)
    requires IsRoute(reg, path) && k < |path|
    ensures IsRoute(reg, path[k..])
  {
    forall i | 0 <= i < |path[k..]| - 1 ensures ReferenceAt(reg, path[k..], i) {
      assert ReferenceAt(reg, path, k + i);
    }
  }

  // ---------- Without a loop, values can be built ----------

  ghost predicate Extends(h: Heap, h': Heap) {
    forall a | a in h :: a in h' && h'[a] == h[a]
  }

  ghost function On(w: World, h: Heap): World { w.(heap := h) }

  /** The heap may grow, and the cells at `skip` may change. */
  ghost predicate Keeps(h: Heap, h': Heap, skip: set<Addr>) {
    forall a | a in h :: a in h' && (a !in skip ==> h'[a] == h[a])
  }

  /** An object or an array, whose value is read from its cell. */
  predicate Container(s: Schema) {
    && s.Node? && s.union.NoUnion? && s.enums.None?
    && (s.kind.ArrayKind? || s.kind.ObjectKind? || (s.kind.Untyped? && s.properties.Properties?))
  }

  /** The value obeys the schema, whatever the cells at `skip` hold. */
  ghost predicate Steady(w: World, s: Schema, v: Val, r: set<Pair>, skip: set<Addr>)
    requires w.Ok() && InHeap(w.heap, v)
    decreases if v.Obj? then 1 else 0, if v.Obj? then 0 else Bound(w.rank, s), s
  {
    ExpandShrinks(w.heap, s, v);
    && (Container(s) && v.Obj? ==> v.addr !in skip)
    && match Expand(w.heap, s, v)
       case Leaf(ok) => ok
       case All(tasks) => forall t | t in tasks :: Steady(w, t.schema, t.val, r, skip)
       case Any(arms) => exists a | a in arms :: Steady(w, a, v, r, skip)
       case Enter(id, _) =>
         id in w.reg && if v.Prim? then Steady(w, w.reg[id].body, v, r, skip) else Pair(v.addr, id) in r
  }

  lemma {:induction false} SteadyIsHolds(w: World, s: Schema, v: Val, r: set<Pair>, skip: set<Addr>)
    requires w.Ok() && InHeap(w.heap, v)
    ensures Steady(w, s, v, r, skip) ==> Holds(w, s, v, r)
    ensures Holds(w, s, v, r) && (v.Prim? || skip == {}) ==> Steady(w, s, v, r, skip)
    decreases if v.Obj? then 1 else 0, if v.Obj? then 0 else Bound(w.rank, s), s
  {
    ExpandShrinks(w.heap, s, v);
    match Expand(w.heap, s, v)
    case Leaf(_) =>
    case All(tasks) => forall t | t in tasks { SteadyIsHolds(w, t.schema, t.val, r, skip); }
    case Any(arms) => forall a | a in arms { SteadyIsHolds(w, a, v, r, skip); }
    case Enter(id, _) => if v.Prim? && id in w.reg { SteadyIsHolds(w, w.reg[id].body, v, r, skip); }
  }

  /** It stays so when the heap grows, when what obeys grows, and when fewer of the old cells may change. */
  lemma {:induction false} SteadyKept(w: World, h: Heap, s: Schema, v: Val, r: set<Pair>, skip: set<Addr>,
                                      r': set<Pair>, skip': set<Addr>)
    requires w.Ok() && Closed(h) && Keeps(w.heap, h, skip) && InHeap(w.heap, v) && Steady(w, s, v, r, skip)
    requires r <= r' && skip' * w.heap.Keys <= skip
    ensures Steady(On(w, h), s, v, r', skip')
    decreases if v.Obj? then 1 else 0, if v.Obj? then 0 else Bound(w.rank, s), s
  {
    var w' := On(w, h);
    ExpandShrinks(w.heap, s, v);
    assert Expand(h, s, v) == Expand(w.heap, s, v);
    match Expand(w.heap, s, v)
    case Leaf(_) =>
    case All(tasks) =>
      forall t | t in tasks ensures Steady(w', t.schema, t.val, r', skip') {
        SteadyKept(w, h, t.schema, t.val, r, skip, r', skip');
      }
    case Any(arms) =>
      var a :| a in arms && Steady(w, a, v, r, skip);
      SteadyKept(w, h, a, v, r, skip, r', skip');
    case Enter(id, _) => if v.Prim? { SteadyKept(w, h, w.reg[id].body, v, r, skip, r', skip'); }
  }

  lemma {:induction false} SteadyExtends(w: World, h: Heap, s: Schema, v: Val, r: set<Pair>, skip: set<Addr>)
    requires w.Ok() && Closed(h) && Extends(w.heap, h) && InHeap(w.heap, v) && Steady(w, s, v, r, skip)
    ensures Steady(On(w, h), s, v, r, skip)
  {
    SteadyKept(w, h, s, v, r, skip, r, skip);
  }

  lemma {:induction false} HoldsExtends(w: World, h: Heap, s: Schema, v: Val, r: set<Pair>)
    requires w.Ok() && Closed(h) && Extends(w.heap, h) && InHeap(w.heap, v) && Holds(w, s, v, r)
    ensures Holds(On(w, h), s, v, r)
  {
    SteadyIsHolds(w, s, v, r, {});
    SteadyExtends(w, h, s, v, r, {});
    SteadyIsHolds(On(w, h), s, v, r, {});
  }

  ghost function FreshAddr(h: Heap): (a: Addr)
    ensures a !in h
  {
    AboveAll(h.Keys)
  }

  ghost function AboveAll(s: set<Addr>): (a: Addr)
    ensures forall x | x in s :: x < a
  {
    if s == {} then 0
    else
      var x :| x in s;
      var a := AboveAll(s - {x});
      assert forall y | y in s :: y == x || y in s - {x};
      if x < a then a else x + 1
  }

  /** The primitive may stand at the position: a required property must not be null. */
  predicate Stands(p: Prim, solid: bool) { solid ==> !p.Nullish() }

  /** A value of a declaration is needed; where `solid`, one that is not null. */
  datatype Need = Need(id: Id, solid: bool)

  /** What a value of the schema cannot do without, as the walker reads its keywords. */
  ghost function Demands(s: Schema, solid: bool): set<Need> {
    match s
    case Ref(t) => {Need(t, solid)}
    case Embed(t) => {Need(t, solid)}
    case Node(kind, union, enums, items, minItems, _, properties, required) =>
      if union.AnyOf? then if |union.arms| == 1 then Demands(union.arms[0], solid) else {}
      else if enums.Some? then {}
      else
        match kind
        case Scalar(_) => {}
        case Permissive => {}
        case ArrayKind => if items.Some? && minItems >= 1 then Demands(items.value, false) else {}
        case _ =>
          if properties.NoProperties? then {}
          else set p, t | p in properties.list && p.key in required && t in Demands(p.schema, true) :: t
  }

  lemma {:induction false} MandatoryOfEdge(s: Schema, e: Edge)
    requires s.Node? && e in Edges(s) && !e.escapable
    ensures Mandatory(e.schema) <= Mandatory(s)
  {
  }

  lemma {:induction false} DemandsAreMandatory(s: Schema, solid: bool)
    ensures forall t | t in Demands(s, solid) :: t.id in Mandatory(s)
    decreases s
  {
    if s.Node? {
      if s.union.AnyOf? {
        if |s.union.arms| == 1 {
          var e := Edge(s.union.arms[0], false);
          assert e in ArmEdges(s.union.arms, false) && e in Edges(s);
          MandatoryOfEdge(s, e);
          DemandsAreMandatory(e.schema, solid);
        }
      } else if s.enums.None? {
        if s.kind.ArrayKind? && s.items.Some? && s.minItems >= 1 {
          var e := Edge(s.items.value, false);
          assert e in ItemEdges(s.items, s.minItems) && e in Edges(s);
          MandatoryOfEdge(s, e);
          DemandsAreMandatory(e.schema, false);
        }
        if s.properties.Properties? { PropertiesAreMandatory(s); }
      }
    }
  }

  lemma {:induction false} PropertiesAreMandatory(s: Schema)
    requires s.Node? && s.properties.Properties?
    ensures forall p, t | p in s.properties.list && p.key in s.required && t in Demands(p.schema, true) ::
              t.id in Mandatory(s)
    decreases s, 0
  {
    forall p, t | p in s.properties.list && p.key in s.required && t in Demands(p.schema, true)
      ensures t.id in Mandatory(s)
    {
      var e := Edge(p.schema, false);
      assert e in PropertyEdges(s.properties.list, s.required) && e in Edges(s);
      MandatoryOfEdge(s, e);
      DemandsAreMandatory(p.schema, true);
    }
  }

  /** Each leaf that no value can avoid accepts some primitive that may stand there, mandatory
      lengths are consistent, property names are distinct, and some arm of each union is satisfiable
      and demands nothing but what is in `known`. */
  ghost predicate Satisfiable(s: Schema, known: set<Need>, solid: bool) {
    match s
    case Ref(_) => true
    case Embed(_) => true
    case Node(kind, union, enums, items, minItems, maxItems, properties, required) =>
      if union.AnyOf? then
        exists arm ::
          arm in union.arms && Satisfiable(arm, known, solid) && (|union.arms| > 1 ==> Demands(arm, solid) <= known)
      else if enums.Some? then exists p :: p in enums.value && Stands(p, solid)
      else
        match kind
        case Scalar(accepts) => exists p: Prim :: accepts(p) && Stands(p, solid)
        case Permissive => true
        case ArrayKind =>
          && LengthOk(s, minItems)
          && (items.Some? && minItems >= 1 ==> Satisfiable(items.value, known, false))
        case _ =>
          properties.Properties? ==>
            && DistinctKeys(properties.list)
            && forall p | p in properties.list && p.key in required :: Satisfiable(p.schema, known, true)
  }

  /** The needs in `known` are enough for a value of the schema. */
  ghost predicate Fills(s: Schema, known: set<Need>, solid: bool) {
    Satisfiable(s, known, solid) && Demands(s, solid) <= known
  }

  /** A value is known for each need in `env`. */
  ghost predicate Known(w: World, r: set<Pair>, env: map<Need, Val>)
    requires w.Ok()
  {
    forall n | n in env ::
      n.id in w.reg && InHeap(w.heap, env[n]) && (n.solid ==> !env[n].Nullish()) && Obeys(w, n.id, env[n], r)
  }

  lemma KnownExtends(w: World, h: Heap, r: set<Pair>, env: map<Need, Val>)
    requires w.Ok() && Closed(h) && Extends(w.heap, h) && Known(w, r, env)
    ensures Known(On(w, h), r, env)
  {
    forall n | n in env ensures Obeys(On(w, h), n.id, env[n], r) {
      if env[n].Prim? { HoldsExtends(w, h, w.reg[n.id].body, env[n], r); }
    }
  }

  /** What building a value leaves behind: the value obeys the schema, and an object is new unless it
      is a known value. */
  ghost predicate Built(w: World, h: Heap, v: Val, s: Schema, r: set<Pair>, solid: bool, skip: set<Addr>,
                        env: map<Need, Val>)
    requires w.Ok()
  {
    && Extends(w.heap, h) && Closed(h) && InHeap(h, v) && (solid ==> !v.Nullish())
    && Steady(On(w, h), s, v, r, skip) && Origin(w.heap, v, s, env)
  }

  ghost predicate Origin(h: Heap, v: Val, s: Schema, env: map<Need, Val>) {
    v.Obj? && v.addr in h ==> !Container(s) && exists n :: n in env && env[n] == v
  }

  lemma Allocate(h: Heap, cell: Cell) returns (h': Heap, v: Val)
    requires Closed(h) && forall x | x in cell.Vals() :: InHeap(h, x)
    ensures v.Obj? && v.addr !in h && h' == h[v.addr := cell] && Extends(h, h') && Closed(h')
  {
    var a := FreshAddr(h);
    h', v := h[a := cell], Obj(a);
    forall b, x | b in h' && x in h'[b].Vals() ensures InHeap(h', x) {
      assert InHeap(h, x) by {
        if b != a { assert x in h[b].Vals(); } else { assert x in cell.Vals(); }
      }
    }
  }

  lemma {:induction false} Build(w: World, r: set<Pair>, env: map<Need, Val>, s: Schema, solid: bool, skip: set<Addr>)
    returns (h: Heap, v: Val)
    requires w.Ok() && Known(w, r, env) && skip <= w.heap.Keys
    requires Satisfiable(s, env.Keys, solid) && Demands(s, solid) <= env.Keys
    ensures Built(w, h, v, s, r, solid, skip, env)
    decreases s
  {
    h := w.heap;
    assert On(w, h) == w;
    match s
    case Ref(t) => v := UseKnown(w, r, env, s, solid, skip);
    case Embed(t) => v := UseKnown(w, r, env, s, solid, skip);
    case Node(kind, union, enums, _, _, _, properties, _) =>
      if union.AnyOf? {
        h, v := BuildUnion(w, r, env, s, solid, skip);
      } else if enums.Some? {
        var p :| p in enums.value && Stands(p, solid);
        v := Prim(p);
      } else {
        match kind
        case Scalar(accepts) =>
          var p: Prim :| accepts(p) && Stands(p, solid);
          v := Prim(p);
        case Permissive => v := Prim(Bool(true));
        case ArrayKind => h, v := BuildArray(w, r, env, s, solid, skip);
        case ObjectKind => h, v := BuildObject(w, r, env, s, solid, skip);
        case Untyped =>
          if properties.NoProperties? {
            v := Prim(Bool(true));
          } else {
            h, v := BuildObject(w, r, env, s, solid, skip);
          }
      }
  }

  lemma UseKnown(w: World, r: set<Pair>, env: map<Need, Val>, s: Schema, solid: bool, skip: set<Addr>) returns (v: Val)
    requires w.Ok() && Known(w, r, env) && !s.Node? && Need(s.target, solid) in env
    ensures Built(w, w.heap, v, s, r, solid, skip, env)
  {
    var id := s.target;
    v := env[Need(id, solid)];
    assert On(w, w.heap) == w;
    if v.Prim? { SteadyIsHolds(w, w.reg[id].body, v, r, skip); }
  }

  lemma {:induction false} BuildUnion(w: World, r: set<Pair>, env: map<Need, Val>, s: Schema, solid: bool,
                                      skip: set<Addr>)
    returns (h: Heap, v: Val)
    requires w.Ok() && Known(w, r, env) && skip <= w.heap.Keys
    requires Satisfiable(s, env.Keys, solid) && Demands(s, solid) <= env.Keys
    requires s.Node? && s.union.AnyOf?
    ensures Built(w, h, v, s, r, solid, skip, env)
    decreases s, 0
  {
    var arms := s.union.arms;
    var arm :| arm in arms && Satisfiable(arm, env.Keys, solid) && (|arms| > 1 ==> Demands(arm, solid) <= env.Keys);
    assert Demands(arm, solid) <= env.Keys;
    hide Satisfiable, Demands, Built, Known;
    h, v := Build(w, r, env, arm, solid, skip);
    ArmBuilt(w, h, v, s, arm, r, solid, skip, env);
  }

  lemma ArmBuilt(w: World, h: Heap, v: Val, s: Schema, arm: Schema, r: set<Pair>, solid: bool, skip: set<Addr>,
                 env: map<Need, Val>)
    requires w.Ok() && Built(w, h, v, arm, r, solid, skip, env)
    requires s.Node? && s.union.AnyOf? && arm in s.union.arms
    ensures Built(w, h, v, s, r, solid, skip, env)
  {
  }

  lemma {:induction false} BuildArray(w: World, r: set<Pair>, env: map<Need, Val>, s: Schema, solid: bool,
                                      skip: set<Addr>)
    returns (h: Heap, v: Val)
    requires w.Ok() && Known(w, r, env) && skip <= w.heap.Keys
    requires Satisfiable(s, env.Keys, solid) && Demands(s, solid) <= env.Keys
    requires s.Node? && s.union.NoUnion? && s.kind.ArrayKind? && s.enums.None?
    ensures Built(w, h, v, s, r, solid, skip, env)
    decreases s, 0
  {
    var n := s.minItems;
    if s.items.Some? && n >= 1 {
      var h', x := Build(w, r, env, s.items.value, false, skip);
      var cell := Arr(seq(n, _ => x));
      assert forall y | y in cell.Vals() :: y == x;
      h, v := Allocate(h', cell);
      hide Satisfiable, Demands, Known;
      SteadyExtends(On(w, h'), h, s.items.value, x, r, skip);
      hide Keeps;
      assert forall t | t in Expand(h, s, v).tasks :: t == Task(s.items.value, x);
    } else {
      var cell := Arr(seq(n, _ => Prim(Null)));
      assert forall y | y in cell.Vals() :: y == Prim(Null);
      h, v := Allocate(w.heap, cell);
    }
  }

  ghost function PropertyList(s: Schema): seq<Property>
    requires s.Node?
  {
    if s.properties.Properties? then s.properties.list else []
  }

  /** Fields for the given required keys, and for no others. */
  ghost predicate FieldsFor(w: World, h: Heap, fields: seq<Field>, list: seq<Property>, keys: seq<Key>, r: set<Pair>,
                            skip: set<Addr>)
    requires w.Ok()
  {
    && Extends(w.heap, h) && Closed(h)
    && (forall f | f in fields :: InHeap(h, f.val))
    && (forall k | k in keys :: !Lookup(fields, k).Nullish())
    && (forall k | k !in keys :: Lookup(fields, k) == Prim(Undefined))
    && (forall p | p in list && p.key in keys :: Steady(On(w, h), p.schema, Lookup(fields, p.key), r, skip))
  }

  lemma {:induction false} BuildProperty(w: World, h: Heap, r: set<Pair>, env: map<Need, Val>, s: Schema, solid: bool,
                                         p: Property, skip: set<Addr>)
    returns (h': Heap, v: Val)
    requires w.Ok() && Known(w, r, env) && skip <= w.heap.Keys && Closed(h) && Extends(w.heap, h)
    requires Satisfiable(s, env.Keys, solid) && Demands(s, solid) <= env.Keys
    requires Container(s) && !s.kind.ArrayKind? && p in PropertyList(s) && p.key in s.required
    ensures Built(On(w, h), h', v, p.schema, r, true, skip, env)
    decreases s, 0, 0
  {
    hide Holds, Steady;
    assert Demands(p.schema, true) <= Demands(s, solid);
    hide Demands;
    KnownExtends(w, h, r, env);
    h', v := Build(On(w, h), r, env, p.schema, true, skip);
  }

  lemma {:induction false} OneProperty(s: Schema, list: seq<Property>, p: Property)
    requires Container(s) && !s.kind.ArrayKind?
    requires (exists known, solid :: Satisfiable(s, known, solid)) && list == PropertyList(s) && p in list
    ensures forall q | q in list && q.key == p.key :: q == p
  {
  }

  lemma {:induction false} BuildFields(w: World, r: set<Pair>, env: map<Need, Val>, s: Schema, solid: bool,
                                       keys: seq<Key>, skip: set<Addr>)
    returns (h: Heap, fields: seq<Field>)
    requires w.Ok() && Known(w, r, env) && skip <= w.heap.Keys
    requires Satisfiable(s, env.Keys, solid) && Demands(s, solid) <= env.Keys
    requires Container(s) && !s.kind.ArrayKind? && forall k | k in keys :: k in s.required
    ensures FieldsFor(w, h, fields, PropertyList(s), keys, r, skip)
    decreases s, 0, |keys|
  {
    hide Demands, Holds, Steady, Satisfiable, Known;
    var list := PropertyList(s);
    if keys == [] {
      h, fields := w.heap, [];
    } else {
      var k := keys[0];
      var h', fields' := BuildFields(w, r, env, s, solid, keys[1..], skip);
      if k in keys[1..] {
        h, fields := h', fields';
      } else if p :| p in list && p.key == k {
        OneProperty(s, list, p);
        var v;
        h, v := BuildProperty(w, h', r, env, s, solid, p, skip);
        fields := [Field(k, v)] + fields';
        AddField(w, h', h, fields', list, keys[1..], r, k, v, skip);
      } else {
        h, fields := h', [Field(k, Prim(Bool(true)))] + fields';
        AddField(w, h', h, fields', list, keys[1..], r, k, Prim(Bool(true)), skip);
      }
    }
  }

  lemma {:induction false} AddField(w: World, h: Heap, h': Heap, fields: seq<Field>, list: seq<Property>,
                                    keys: seq<Key>, r: set<Pair>, k: Key, v: Val, skip: set<Addr>)
    requires w.Ok() && FieldsFor(w, h, fields, list, keys, r, skip) && k !in keys
    requires Extends(h, h') && Closed(h') && InHeap(h', v) && !v.Nullish()
    requires forall p | p in list && p.key == k :: Steady(On(w, h'), p.schema, v, r, skip)
    ensures FieldsFor(w, h', [Field(k, v)] + fields, list, [k] + keys, r, skip)
  {
    var fields' := [Field(k, v)] + fields;
    assert fields'[1..] == fields;
    forall p | p in list && p.key in [k] + keys
      ensures Steady(On(w, h'), p.schema, Lookup(fields', p.key), r, skip)
    {
      if p.key != k { SteadyExtends(On(w, h), h', p.schema, Lookup(fields, p.key), r, skip); }
    }
  }

  lemma {:induction false} BuildObject(w: World, r: set<Pair>, env: map<Need, Val>, s: Schema, solid: bool,
                                       skip: set<Addr>)
    returns (h: Heap, v: Val)
    requires w.Ok() && Known(w, r, env) && skip <= w.heap.Keys
    requires Satisfiable(s, env.Keys, solid) && Demands(s, solid) <= env.Keys
    requires Container(s) && !s.kind.ArrayKind?
    ensures Built(w, h, v, s, r, solid, skip, env)
    decreases s, 1
  {
    hide Satisfiable, Demands, Known;
    var h', fields := BuildFields(w, r, env, s, solid, s.required, skip);
    h, v := Allocate(h', Rec(fields));
    ObjectHolds(w, h', h, fields, v, s, r, skip);
  }

  lemma {:induction false} ObjectHolds(w: World, h: Heap, h': Heap, fields: seq<Field>, v: Val, s: Schema, r: set<Pair>,
                                       skip: set<Addr>)
    requires w.Ok() && Container(s) && !s.kind.ArrayKind?
    requires FieldsFor(w, h, fields, PropertyList(s), s.required, r, skip)
    requires Extends(h, h') && Closed(h') && v.Obj? && v.addr in h' && h'[v.addr] == Rec(fields) && v.addr !in skip
    ensures Steady(On(w, h'), s, v, r, skip)
  {
    var w' := On(w, h');
    if s.properties.Properties? {
      var tasks := PropertyTasks(s.properties.list, h'[v.addr]);
      forall t | t in tasks ensures InHeap(h', t.val) && Steady(w', t.schema, t.val, r, skip) {
        var p :| p in s.properties.list && t == Task(p.schema, Lookup(fields, p.key));
        SteadyExtends(On(w, h), h', p.schema, Lookup(fields, p.key), r, skip);
      }
    }
  }
}
