/** When the escape check passes, and whether the declarations it has reached have values. */
module EscapeExact {
  import opened SchemaGraph
  import opened Validator
  import opened Rules
  import opened Paths
  import opened ValidatorSound
  import opened ValidatorComplete
  import opened ValidatorTheorems
  import opened Escape
  import opened EscapeReject
  import opened EscapeAccept

  // ---------- Exactness ----------

  /** Some value in some heap is accepted for the declaration. */
  ghost predicate Inhabited(w: World, id: Id)
    requires id in w.reg
  {
    exists h, v :: On(w, h).Ok() && InHeap(h, v) && Validate(On(w, h), id, v).verdict.Accept?
  }

  /** A heap with a known value for each need in `env`, no cyclic evidence, and no pair but those of
      the known values. */
  ghost predicate Stocked(w: World, level: map<Pair, nat>, env: map<Need, Val>)
  {
    w.Ok() && Founded(w, level) && Known(w, level.Keys, env) && forall p | p in level :: Sourced(env, p)
  }

  ghost predicate Sourced(env: map<Need, Val>, p: Pair) {
    exists n :: n in env && n.id == p.id && env[n] == Obj(p.addr)
  }

  ghost function Lower(order: map<Need, nat>, n: Need): set<Need>
    requires n in order
  {
    set t | t in order && order[t] < order[n]
  }

  /** Acyclic declarations with satisfiable leaves, in an order of needs that does not rise along
      demands, and in which every union has an arm that is not recursive: all that the arm demands
      lies strictly lower. */
  ghost predicate Buildable(reg: Registry, order: map<Need, nat>) {
    forall n | n in order :: BuildableAt(reg, order, n)
  }

  /** A value of every reachable declaration is needed; a value that is not null only where something
      demands it. */
  ghost predicate Covers(reg: Registry, order: map<Need, nat>, root: Id) {
    forall id | id in reg && Reachable(reg, root, id) :: Need(id, false) in order
  }

  ghost predicate BuildableAt(reg: Registry, order: map<Need, nat>, n: Need)
    requires n in order
  {
    && n.id in reg && reg[n.id].cyclic.Acyclic?
    && Satisfiable(reg[n.id].body, Lower(order, n), n.solid)
    && forall t | t in Demands(reg[n.id].body, n.solid) && t.id in reg :: t in order && order[t] <= order[n]
  }

  /** More known needs leave a schema satisfiable. */
  lemma {:induction false} SatisfiableGrows(s: Schema, known: set<Need>, known': set<Need>, solid: bool)
    requires Satisfiable(s, known, solid) && forall n | n in known && n.id in Targets(s) :: n in known'
    ensures Satisfiable(s, known', solid)
    decreases s
  {
    if s.Node? {
      assert forall e | e in Edges(s) :: Targets(e.schema) <= Targets(s);
      if s.union.AnyOf? {
        var arms := s.union.arms;
        var arm :| arm in arms && Satisfiable(arm, known, solid) && (|arms| > 1 ==> Demands(arm, solid) <= known);
        var e := Edge(arm, |arms| > 1);
        assert e in ArmEdges(arms, |arms| > 1) && e in Edges(s);
        DemandsAreMandatory(arm, solid);
        MandatoryIsTarget(arm);
        SatisfiableGrows(arm, known, known', solid);
      } else {
        GrowsWithin(s, known, known', solid);
      }
    }
  }

  lemma {:induction false} GrowsWithin(s: Schema, known: set<Need>, known': set<Need>, solid: bool)
    requires s.Node? && s.union.NoUnion? && Satisfiable(s, known, solid)
    requires forall e, n | e in Edges(s) && n in known && n.id in Targets(e.schema) :: n in known'
    ensures Satisfiable(s, known', solid)
    decreases s, 0
  {
    if s.enums.None? {
      if s.kind.ArrayKind? && s.items.Some? && s.minItems >= 1 {
        var e := Edge(s.items.value, false);
        assert e in ItemEdges(s.items, s.minItems) && e in Edges(s);
        SatisfiableGrows(s.items.value, known, known', false);
      }
      if (s.kind.ObjectKind? || s.kind.Untyped?) && s.properties.Properties? {
        forall p | p in s.properties.list && p.key in s.required ensures Satisfiable(p.schema, known', true) {
          var e := Edge(p.schema, false);
          assert e in PropertyEdges(s.properties.list, s.required) && e in Edges(s);
          SatisfiableGrows(p.schema, known, known', true);
        }
      }
    }
  }

  lemma FillsGrow(s: Schema, known: set<Need>, known': set<Need>, solid: bool)
    requires Fills(s, known, solid) && known <= known'
    ensures Fills(s, known', solid)
  {
    hide Satisfiable, Demands;
    SatisfiableGrows(s, known, known', solid);
  }

  /** A need whose demands are all known can be stocked. */
  lemma StockOne(w: World, level: map<Pair, nat>, env: map<Need, Val>, n: Need)
    returns (h: Heap, level': map<Pair, nat>, v: Val)
    requires Stocked(w, level, env) && n.id in w.reg && n !in env
    requires Satisfiable(w.reg[n.id].body, env.Keys, n.solid) && Demands(w.reg[n.id].body, n.solid) <= env.Keys
    ensures On(w, h).Ok() && Stocked(On(w, h), level', env[n := v])
  {
    hide Satisfiable, Demands, Known, Founded, Sourced, Closed;
    h, v := Build(w, level.Keys, env, w.reg[n.id].body, n.solid, {});
    SteadyIsHolds(On(w, h), w.reg[n.id].body, v, level.Keys, {});
    hide Steady, Origin;
    KnownExtends(w, h, level.Keys, env);
    FoundedExtends(w, h, level);
    if v.Prim? {
      level' := level;
    } else {
      level' := AddPair(On(w, h), level, Pair(v.addr, n.id));
      KnownGrows(On(w, h), level.Keys, level'.Keys, env);
    }
    SourcesGrow(level, level', env, n, v);
    KnownAdds(On(w, h), level'.Keys, env, n, v);
  }

  lemma KnownAdds(w: World, r: set<Pair>, env: map<Need, Val>, n: Need, v: Val)
    requires w.Ok() && Known(w, r, env) && n.id in w.reg && InHeap(w.heap, v) && (n.solid ==> !v.Nullish())
    requires Obeys(w, n.id, v, r)
    ensures Known(w, r, env[n := v])
  {
    hide Obeys;
  }

  lemma SourcesGrow(level: map<Pair, nat>, level': map<Pair, nat>, env: map<Need, Val>, n: Need, v: Val)
    requires n !in env && forall p | p in level :: Sourced(env, p)
    requires level'.Keys <= level.Keys + if v.Obj? then {Pair(v.addr, n.id)} else {}
    ensures forall p | p in level' :: Sourced(env[n := v], p)
  {
    forall p | p in level' ensures Sourced(env[n := v], p) {
      if p in level {
        var m :| m in env && m.id == p.id && env[m] == Obj(p.addr);
        assert m in env[n := v] && env[n := v][m] == env[m];
      } else {
        assert n in env[n := v];
      }
    }
  }

  lemma FoundedExtends(w: World, h: Heap, level: map<Pair, nat>)
    requires w.Ok() && Closed(h) && Extends(w.heap, h) && Founded(w, level)
    ensures Founded(On(w, h), level)
  {
    forall p | p in level
      ensures p in On(w, h).Pairs() && Holds(On(w, h), w.reg[p.id].body, Obj(p.addr), Below(level, level[p]))
    {
      HoldsExtends(w, h, w.reg[p.id].body, Obj(p.addr), Below(level, level[p]));
    }
  }

  lemma KnownGrows(w: World, r: set<Pair>, r': set<Pair>, env: map<Need, Val>)
    requires w.Ok() && Known(w, r, env) && r <= r'
    ensures Known(w, r', env)
  {
    forall n | n in env ensures Obeys(w, n.id, env[n], r') {
      if env[n].Prim? { HoldsMonotone(w, w.reg[n.id].body, env[n], r, r'); }
    }
  }

  /** A pair that obeys its declaration given all levelled pairs can be put above them. */
  lemma AddPair(w: World, level: map<Pair, nat>, p: Pair) returns (level': map<Pair, nat>)
    requires w.Ok() && Founded(w, level) && p in w.Pairs()
    requires Holds(w, w.reg[p.id].body, Obj(p.addr), level.Keys)
    ensures Founded(w, level') && level'.Keys == level.Keys + {p}
  {
    if p in level { return level; }
    var n := MaxLevel(level) + 1;
    level' := level[p := n];
    forall q | q in level'
      ensures q in w.Pairs() && Holds(w, w.reg[q.id].body, Obj(q.addr), Below(level', level'[q]))
    {
      if q == p {
        HoldsMonotone(w, w.reg[p.id].body, Obj(p.addr), level.Keys, Below(level', n));
      } else {
        HoldsMonotone(w, w.reg[q.id].body, Obj(q.addr), Below(level, level[q]), Below(level', level[q]));
      }
    }
  }

  ghost predicate Reachable(reg: Registry, root: Id, id: Id) {
    exists path :: IsRoute(reg, path) && path[0] == root && path[|path| - 1] == id
  }

  lemma ReachStep(reg: Registry, root: Id, d: Id, t: Id)
    requires Reachable(reg, root, d) && d in reg && t in Targets(reg[d].body) && t in reg
    ensures Reachable(reg, root, t)
  {
    hide Targets;
    var path :| IsRoute(reg, path) && path[0] == root && path[|path| - 1] == d;
    var path' := path + [t];
    forall i | 0 <= i < |path'| - 1 ensures ReferenceAt(reg, path', i) {
      if i < |path| - 1 { assert ReferenceAt(reg, path, i); }
    }
    assert IsRoute(reg, path');
  }

  ghost function ReachSet(reg: Registry, root: Id): set<Id> { set m | m in reg && Reachable(reg, root, m) }

  lemma ReachSetClosed(reg: Registry, root: Id)
    requires root in reg
    ensures root in ReachSet(reg, root) && ClosedUnder(reg, ReachSet(reg, root))
  {
    hide Targets;
    assert IsRoute(reg, [root]);
    assert Reachable(reg, root, [root][0]);
    hide Reachable;
    var r := ReachSet(reg, root);
    forall d, t | d in r && d in reg && t in Targets(reg[d].body) && t in reg ensures t in r {
      ReachStep(reg, root, d, t);
    }
  }

  lemma {:induction false} MandatoryIsTarget(s: Schema)
    ensures Mandatory(s) <= Targets(s)
    decreases s
  {
    if s.Node? {
      forall e | e in Edges(s) ensures Mandatory(e.schema) <= Targets(e.schema) { MandatoryIsTarget(e.schema); }
    }
  }

  /** The members of lowest order. */
  ghost function Lowest(order: map<Need, nat>, missing: set<Need>): (low: set<Need>)
    requires missing <= order.Keys && missing != {}
    ensures low != {} && low <= missing
    ensures forall m, t | m in low && t in missing :: order[m] <= order[t] && (order[t] <= order[m] ==> t in low)
    decreases missing
  {
    var m :| m in missing;
    if missing == {m} then {m}
    else
      var low := Lowest(order, missing - {m});
      var l :| l in low;
      assert forall t | t in missing :: t == m || t in missing - {m};
      if order[m] < order[l] then {m} else if order[m] == order[l] then low + {m} else low
  }

  /** The order does not rise along demands. */
  ghost predicate NeverRises(reg: Registry, order: map<Need, nat>) {
    forall n, t | n in order && n.id in reg && t in Demands(reg[n.id].body, n.solid) && t.id in reg ::
      t in order && order[t] <= order[n]
  }

  lemma BuildableNeverRises(reg: Registry, order: map<Need, nat>)
    requires Buildable(reg, order)
    ensures NeverRises(reg, order)
  {
    hide Satisfiable, Demands;
  }

  lemma LowestIsFree(reg: Registry, order: map<Need, nat>, missing: set<Need>, low: set<Need>, d: Need)
    requires NeverRises(reg, order) && d.id in reg && missing <= order.Keys && d in low && low <= missing
    requires forall t | t in missing :: t.id in reg
    requires forall t | t in missing :: order[d] <= order[t] && (order[t] <= order[d] ==> t in low)
    requires IsFree(reg, low, d)
    ensures IsFree(reg, missing, d) && Lower(order, d) * missing == {}
  {
    hide Satisfiable, Demands;
  }

  /** Nothing in the set is demanded. */
  ghost predicate IsFree(reg: Registry, missing: set<Need>, n: Need)
    requires n.id in reg
  {
    Demands(reg[n.id].body, n.solid) * missing == {}
  }

  /** A member that can be stocked before the others. */
  ghost predicate Ready(reg: Registry, order: map<Need, nat>, missing: set<Need>, d: Need) {
    d in order && d.id in reg && IsFree(reg, missing, d) && Lower(order, d) * missing == {}
  }

  /** What is missing always has a member that is ready. */
  ghost predicate Grounded(reg: Registry, order: map<Need, nat>, root: Id) {
    forall missing: set<Need> | missing != {} && AllMet(reg, order, root, missing) ::
      exists d :: d in missing && Ready(reg, order, missing, d)
  }

  ghost predicate AllMet(reg: Registry, order: map<Need, nat>, root: Id, missing: set<Need>) {
    forall m | m in missing :: Met(reg, order, root, m)
  }

  lemma PassingIsGrounded(reg: Registry, order: map<Need, nat>, root: Id)
    requires root in reg && Check(reg, root).None? && Buildable(reg, order)
    ensures Grounded(reg, order, root)
  {
    hide Buildable, Check, Ready, Reachable;
    forall missing: set<Need> | missing != {} && AllMet(reg, order, root, missing)
      ensures exists d :: d in missing && Ready(reg, order, missing, d)
    {
      var d := SomeIsFree(reg, order, root, missing);
    }
  }

  lemma OrderedIsPlain(reg: Registry, order: map<Need, nat>)
    requires Buildable(reg, order)
    ensures forall n | n in order :: n.id in reg && reg[n.id].cyclic.Acyclic?
  {
    hide Satisfiable, Demands;
  }

  lemma IdIn(ns: set<Need>, n: Need)
    requires n in ns
    ensures n.id in Ids(ns)
  {
  }

  /** If the check passes then of any set of reachable needs some member has all its demands, and all
      that is lower in the order, outside the set. */
  lemma SomeIsFree(reg: Registry, order: map<Need, nat>, root: Id, missing: set<Need>) returns (d: Need)
    requires root in reg && Check(reg, root).None? && Buildable(reg, order)
    requires missing != {} && forall m | m in missing :: m in order && Reachable(reg, root, m.id)
    ensures d in missing && Ready(reg, order, missing, d)
  {
    hide Buildable, NeverRises, Demands, Reachable, Check, IsLoop, Lower, Ids, IsFree;
    var low := Lowest(order, missing);
    OrderedIsPlain(reg, order);
    if m :| m in low && IsFree(reg, low, m) {
      d := m;
      BuildableNeverRises(reg, order);
      LowestIsFree(reg, order, missing, low, d);
    } else {
      d :| d in low;
      StuckIsLoop(reg, low);
      IdIn(low, d);
      ReachableLoopThrows(reg, root, Ids(low), d.id);
    }
  }

  ghost function Ids(ns: set<Need>): set<Id> { set n | n in ns :: n.id }

  lemma StuckIsLoop(reg: Registry, stuck: set<Need>)
    requires forall m | m in stuck :: m.id in reg && reg[m.id].cyclic.Acyclic? && !IsFree(reg, stuck, m)
    ensures IsLoop(reg, Ids(stuck))
  {
    hide Mandatory, Demands;
    forall d | d in Ids(stuck)
      ensures d in reg && reg[d].cyclic.Acyclic? && exists e :: e in Ids(stuck) && e in Mandatory(reg[d].body)
    {
      var m :| m in stuck && m.id == d;
      var t :| t in Demands(reg[d].body, m.solid) * stuck;
      DemandsAreMandatory(reg[d].body, m.solid);
      assert t.id in Ids(stuck);
    }
  }

  lemma ReachableLoopThrows(reg: Registry, root: Id, loop: set<Id>, m: Id)
    requires root in reg && IsLoop(reg, loop) && m in loop && Reachable(reg, root, m)
    ensures Check(reg, root).Some?
  {
    hide IsLoop;
    var path :| IsRoute(reg, path) && path[0] == root && path[|path| - 1] == m;
    RouteThrows(reg, START, loop, path);
  }

  /** The needs that the root gives rise to. */
  ghost predicate Met(reg: Registry, order: map<Need, nat>, root: Id, n: Need) {
    n in order && Reachable(reg, root, n.id)
  }

  lemma {:induction false} StockAll(w: World, order: map<Need, nat>, level: map<Pair, nat>, env: map<Need, Val>,
                                    root: Id, missing: set<Need>)
    returns (h: Heap, level': map<Pair, nat>, env': map<Need, Val>)
    requires Stocked(w, level, env) && Buildable(w.reg, order) && AllResolved(w.reg)
    requires root in w.reg && Grounded(w.reg, order, root) && env.Keys <= order.Keys && missing !! env.Keys
    requires AllMet(w.reg, order, root, missing)
    requires forall m | Met(w.reg, order, root, m) && m !in missing :: m in env
    ensures Stocked(On(w, h), level', env') && env'.Keys <= order.Keys
    ensures forall m | Met(w.reg, order, root, m) :: m in env'
    decreases missing
  {
    if missing == {} {
      h, level', env' := w.heap, level, env;
      assert On(w, h) == w;
    } else {
      hide Stocked, Satisfiable, Demands, Reachable;
      var d :| d in missing && Ready(w.reg, order, missing, d);
      hide Grounded;
      DemandsKnown(w.reg, order, root, missing, env, d);
      LowerKnown(w.reg, order, root, missing, env, d);
      var h1, level1, v := StockOne(w, level, env, d);
      h, level', env' := StockAll(On(w, h1), order, level1, env[d := v], root, missing - {d});
      assert On(On(w, h1), h) == On(w, h);
    }
  }

  lemma {:induction false} TargetsResolve(reg: Registry, s: Schema)
    requires Resolved(reg, s)
    ensures Targets(s) <= reg.Keys
    decreases s
  {
    if s.Node? {
      forall e | e in Edges(s) ensures Targets(e.schema) <= reg.Keys {
        assert Resolved(reg, e.schema);
        TargetsResolve(reg, e.schema);
      }
    }
  }

  lemma DemandsKnown(reg: Registry, order: map<Need, nat>, root: Id, missing: set<Need>, env: map<Need, Val>, d: Need)
    requires Buildable(reg, order) && AllResolved(reg) && Met(reg, order, root, d)
    requires d.id in reg && IsFree(reg, missing, d)
    requires forall m | Met(reg, order, root, m) && m !in missing :: m in env
    ensures Demands(reg[d.id].body, d.solid) <= env.Keys
  {
    hide Mandatory, Targets, Reachable, Resolved, Demands, Satisfiable;
    DemandsAreMandatory(reg[d.id].body, d.solid);
    MandatoryIsTarget(reg[d.id].body);
    TargetsResolve(reg, reg[d.id].body);
    forall t | t in Demands(reg[d.id].body, d.solid) ensures t in env {
      assert t !in Demands(reg[d.id].body, d.solid) * missing;
      ReachStep(reg, root, d.id, t.id);
      assert Met(reg, order, root, t);
    }
  }

  lemma LowerKnown(reg: Registry, order: map<Need, nat>, root: Id, missing: set<Need>, env: map<Need, Val>, d: Need)
    requires Buildable(reg, order) && Met(reg, order, root, d) && Lower(order, d) * missing == {}
    requires forall m | Met(reg, order, root, m) && m !in missing :: m in env
    ensures Satisfiable(reg[d.id].body, env.Keys, d.solid)
  {
    hide Demands, Targets, Reachable, Satisfiable;
    forall t | t in Lower(order, d) && t.id in Targets(reg[d.id].body) ensures t in env {
      assert t !in Lower(order, d) * missing;
      ReachStep(reg, root, d.id, t.id);
      assert Met(reg, order, root, t);
    }
    SatisfiableGrows(reg[d.id].body, Lower(order, d), env.Keys, d.solid);
  }

  /** No depth cap is below the number of values that the order asks of its declaration. */
  ghost predicate CapsAllow(reg: Registry, order: map<Need, nat>) {
    forall id | id in reg && reg[id].Cap().Some? :: Uses(order, id) <= reg[id].Cap().value
  }

  ghost function Uses(order: map<Need, nat>, id: Id): nat {
    (if Need(id, false) in order then 1 else 0) + if Need(id, true) in order then 1 else 0
  }

  /** If the check throws then a reachable declaration has no value, whatever the other declarations. */
  lemma RejectedIsEmpty(w: World, root: Id)
    requires w.Ok() && root in w.reg && Check(w.reg, root).Some?
    requires forall id | id in w.reg && Reachable(w.reg, root, id) :: WellKinded(w.reg[id].body)
    ensures var t := Check(w.reg, root).value;
            t in w.reg && Reachable(w.reg, root, t) && !Inhabited(w, t)
  {
    hide WellKinded, Targets, Reachable, Check;
    var reg := w.reg;
    var r := ReachSet(reg, root);
    ReachSetClosed(reg, root);
    var t := Check(reg, root).value;
    RejectionIsSound(reg, root, r, On(w, map[]), Prim(Null));
    forall h, v | On(w, h).Ok() && InHeap(h, v) ensures !Validate(On(w, h), t, v).verdict.Accept? {
      RejectionIsSound(reg, root, r, On(w, h), v);
    }
  }

  /** On registries without unresolved references, where what is reachable has no cyclic declarations
      or unsatisfiable leaves, and every union has a non-recursive arm, the check passes exactly when
      every reachable declaration has a value that the validator accepts. */
  lemma CheckExact(w: World, order: map<Need, nat>, root: Id)
    requires w.Ok() && root in w.reg && AllResolved(w.reg)
    requires Buildable(w.reg, order) && Covers(w.reg, order, root) && CapsAllow(w.reg, order)
    requires forall id | id in w.reg && Reachable(w.reg, root, id) :: WellKinded(w.reg[id].body)
    ensures Check(w.reg, root).None? <==>
            forall id | id in w.reg && Reachable(w.reg, root, id) :: Inhabited(w, id)
  {
    hide Buildable, WellKinded, CapsAllow, Reachable, Check, Inhabited, AllResolved;
    var reg := w.reg;
    if Check(reg, root).None? {
      PassingIsGrounded(reg, order, root);
      forall id | id in reg && Reachable(reg, root, id) ensures Inhabited(w, id) {
        GroundedIsInhabited(w, order, root, id);
      }
    } else {
      RejectedIsEmpty(w, root);
    }
  }

  lemma GroundedIsInhabited(w: World, order: map<Need, nat>, root: Id, id: Id)
    requires w.Ok() && root in w.reg && Buildable(w.reg, order) && AllResolved(w.reg) && CapsAllow(w.reg, order)
    requires Grounded(w.reg, order, root)
    requires id in w.reg && Need(id, false) in order && Reachable(w.reg, root, id)
    ensures Inhabited(w, id)
  {
    hide Satisfiable, Targets, Demands, Grounded;
    var empty := On(w, map[]);
    var missing := set n | n in order && Reachable(w.reg, root, n.id);
    assert Stocked(empty, map[], map[]);
    var h, level, env := StockAll(empty, order, map[], map[], root, missing);
    assert On(empty, h) == On(w, h);
    assert Met(w.reg, order, root, Need(id, false));
    StockIsRoomy(On(w, h), order, level, env);
    FoundedIsDescending(On(w, h), level);
    AcceptComplete(On(w, h), id, env[Need(id, false)], level);
  }

  /** Each declaration has at most one pair for each of its needs. */
  lemma StockIsRoomy(w: World, order: map<Need, nat>, level: map<Pair, nat>, env: map<Need, Val>)
    requires Stocked(w, level, env) && Buildable(w.reg, order) && env.Keys <= order.Keys
    requires AllResolved(w.reg) && CapsAllow(w.reg, order)
    ensures Roomy(w, level.Keys)
  {
    hide Satisfiable, Demands, Founded, Known;
    forall id | id in w.reg && OfDecl(level.Keys, id) != {}
      ensures !w.reg[id].cyclic.UpTo?
      ensures w.reg[id].Cap().Some? ==> |OfDecl(level.Keys, id)| <= w.reg[id].Cap().value
    {
      OneIsRoomy(w, order, level, env, id);
    }
  }

  lemma OneIsRoomy(w: World, order: map<Need, nat>, level: map<Pair, nat>, env: map<Need, Val>, id: Id)
    requires (forall p | p in level :: Sourced(env, p)) && Buildable(w.reg, order) && env.Keys <= order.Keys
    requires CapsAllow(w.reg, order) && id in w.reg && OfDecl(level.Keys, id) != {}
    ensures !w.reg[id].cyclic.UpTo?
    ensures w.reg[id].Cap().Some? ==> |OfDecl(level.Keys, id)| <= w.reg[id].Cap().value
  {
    hide Satisfiable, Demands;
    var p :| p in OfDecl(level.Keys, id);
    var n :| n in env && n.id == p.id && env[n] == Obj(p.addr);
    assert BuildableAt(w.reg, order, n);
    FewPairs(level, env, id);
  }

  lemma FewPairs(level: map<Pair, nat>, env: map<Need, Val>, id: Id)
    requires forall p | p in level :: Sourced(env, p)
    ensures |OfDecl(level.Keys, id)| <=
            (if Need(id, false) in env then 1 else 0) + if Need(id, true) in env then 1 else 0
  {
    var loose, solid := Need(id, false), Need(id, true);
    var a := if loose in env && env[loose].Obj? then {Pair(env[loose].addr, id)} else {};
    var b := if solid in env && env[solid].Obj? then {Pair(env[solid].addr, id)} else {};
    forall p | p in OfDecl(level.Keys, id) ensures p in a + b {
      var n :| n in env && n.id == p.id && env[n] == Obj(p.addr);
      assert n == loose || n == solid;
    }
    SubsetFits(OfDecl(level.Keys, id), a + b);
    assert |a + b| <= |a| + |b|;
  }
}
