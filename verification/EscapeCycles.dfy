/** The escape check where some declarations are cyclic: it passes a loop on which a declaration may
    lead back to itself, and a value then has a tail before its loop. */
module EscapeCycles {
  import opened SchemaGraph
  import opened Validator
  import opened Rules
  import opened Paths
  import opened ValidatorComplete
  import opened Escape
  import opened EscapeReject
  import opened EscapeAccept
  import opened EscapeExact
  import opened Anchors

  // ---------- Where a loop can be broken ----------

  /** The need is one of those chosen to break loops: a value of the declaration may be referred to
      from inside itself, and is read from its own cell. */
  ghost predicate Breaks(reg: Registry, limit: nat, cuts: set<Need>, n: Need) {
    n in cuts && Licenses(reg, limit, n.id) && Container(reg[n.id].body)
  }

  /** Satisfiable leaves, in an order of needs that does not rise along demands, in which every union
      has an arm that lies strictly lower.  A need that does not break loops may demand one of its own
      level that does if it has a cell of its own, and one that does not if it is acyclic. */
  ghost predicate Foldable(reg: Registry, limit: nat, cuts: set<Need>, order: map<Need, nat>) {
    forall n | n in order :: FoldableAt(reg, limit, cuts, order, n)
  }

  ghost predicate FoldableAt(reg: Registry, limit: nat, cuts: set<Need>, order: map<Need, nat>, n: Need)
    requires n in order
  {
    && n.id in reg && Fits(reg, limit, n.id)
    && Satisfiable(reg[n.id].body, Lower(order, n), n.solid)
    && forall t | t in Demands(reg[n.id].body, n.solid) && t.id in reg :: Follows(reg, limit, cuts, order, n, t)
  }

  ghost predicate Follows(reg: Registry, limit: nat, cuts: set<Need>, order: map<Need, nat>, n: Need, t: Need)
    requires n in order && n.id in reg
  {
    && t in order && order[t] <= order[n]
    && (order[t] == order[n] && !Breaks(reg, limit, cuts, n) ==>
          if Breaks(reg, limit, cuts, t) then Container(reg[n.id].body) else reg[n.id].cyclic.Acyclic?)
  }

  lemma FoldableNeverRises(reg: Registry, limit: nat, cuts: set<Need>, order: map<Need, nat>)
    requires Foldable(reg, limit, cuts, order)
    ensures NeverRises(reg, order)
  {
    hide Satisfiable, Demands, Breaks, Container, Fits;
  }

  /** If the check passes then of any needs that do not break loops, some member has all its demands,
      and all that is lower in the order, outside. */
  lemma SomeIsReady(reg: Registry, limit: nat, cuts: set<Need>, order: map<Need, nat>, root: Id, missing: set<Need>)
    returns (d: Need)
    requires root in reg && Check(reg, root).None? && Foldable(reg, limit, cuts, order)
    requires missing != {} && AllMet(reg, order, root, missing)
    requires forall m | m in missing :: !Breaks(reg, limit, cuts, m)
    ensures d in missing && Ready(reg, order, missing, d)
  {
    hide Foldable, NeverRises, Demands, Reachable, Check, IsLoop, Lower, Ids, Breaks, IsFree;
    FoldableNeverRises(reg, limit, cuts, order);
    assert forall m | m in missing :: Met(reg, order, root, m);
    MetIsDeclared(reg, limit, cuts, order, root, missing);
    var low := Lowest(order, missing);
    if m :| m in low && IsFree(reg, low, m) {
      d := m;
      LowestIsFree(reg, order, missing, low, d);
    } else {
      d :| d in low;
      forall m | m in low ensures reg[m.id].cyclic.Acyclic? { StuckIsAcyclic(reg, limit, cuts, order, low, m); }
      StuckIsLoop(reg, low);
      IdIn(low, d);
      ReachableLoopThrows(reg, root, Ids(low), d.id);
    }
  }

  lemma MetIsDeclared(reg: Registry, limit: nat, cuts: set<Need>, order: map<Need, nat>, root: Id, missing: set<Need>)
    requires Foldable(reg, limit, cuts, order) && AllMet(reg, order, root, missing)
    ensures forall m | m in missing :: m in order && m.id in reg
  {
    hide Satisfiable, Demands, Follows, Fits, Reachable;
    forall m | m in missing ensures m in order && m.id in reg { assert Met(reg, order, root, m); }
  }

  lemma StuckIsAcyclic(reg: Registry, limit: nat, cuts: set<Need>, order: map<Need, nat>, low: set<Need>, m: Need)
    requires Foldable(reg, limit, cuts, order) && m in low && m in order && m.id in reg && !IsFree(reg, low, m)
    requires forall t | t in low :: t in order && order[t] == order[m] && t.id in reg && !Breaks(reg, limit, cuts, t)
    ensures reg[m.id].cyclic.Acyclic?
  {
    hide Satisfiable, Demands, Breaks, Fits;
    var t :| t in Demands(reg[m.id].body, m.solid) * low;
    assert FoldableAt(reg, limit, cuts, order, m);
    assert Follows(reg, limit, cuts, order, m, t);
  }

  // ---------- A heap under construction ----------

  /** A heap and grounds for pairs in it. */
  datatype Stock = Stock(heap: Heap, g: Grounds)

  /** The pair obeys its declaration, whatever the reserved cells will hold. */
  ghost predicate SteadyAt(w: World, limit: nat, g: Grounds, skip: set<Addr>, p: Pair)
    requires w.Ok()
  {
    && Placed(w, limit, g, p)
    && Steady(w, w.reg[p.id].body, Obj(p.addr), Support(w, limit, g, p), skip)
  }

  ghost predicate Sound(w: World, limit: nat, k: Stock, skip: set<Addr>) {
    && On(w, k.heap).Ok() && skip <= k.heap.Keys && k.g.under.Keys == k.g.level.Keys
    && forall p | p in k.g.level :: SteadyAt(On(w, k.heap), limit, k.g, skip, p)
  }

  ghost predicate Grows(g: Grounds, g': Grounds) {
    && (forall p | p in g.level :: p in g'.level && g'.level[p] == g.level[p])
    && (forall p | p in g.under :: p in g'.under && g'.under[p] == g.under[p])
  }

  lemma UsableGrows(g: Grounds, g': Grounds, open: set<Pair>, open': set<Pair>, n: nat, n': nat)
    requires Grows(g, g') && open <= open' && n <= n'
    ensures Usable(g, open, n) <= Usable(g', open', n')
  {
  }

  lemma HeapChanges(w: World, limit: nat, k: Stock, skip: set<Addr>, h: Heap, skip': set<Addr>)
    requires Sound(w, limit, k, skip) && Closed(h) && Keeps(k.heap, h, skip)
    requires skip' <= h.Keys && skip' * k.heap.Keys <= skip
    ensures Sound(w, limit, Stock(h, k.g), skip')
  {
    hide Steady, Closed, Usable;
    forall p | p in k.g.level ensures SteadyAt(On(w, h), limit, k.g, skip', p) {
      assert SteadyAt(On(w, k.heap), limit, k.g, skip, p);
      var r := Support(On(w, k.heap), limit, k.g, p);
      SteadyKept(On(w, k.heap), h, w.reg[p.id].body, Obj(p.addr), r, skip, r, skip');
      assert On(On(w, k.heap), h) == On(w, h);
    }
  }

  ghost function Add(g: Grounds, p: Pair, open: set<Pair>, n: nat): Grounds {
    Grounds(g.level[p := n], g.under[p := open])
  }

  /** A pair that obeys its declaration can be given a level under what is open. */
  lemma {:induction false} PairAdded(w: World, limit: nat, k: Stock, skip: set<Addr>, p: Pair, open: set<Pair>, n: nat)
    requires Sound(w, limit, k, skip) && p !in k.g.level && p in On(w, k.heap).Pairs()
    requires Fits(w.reg, limit, p.id) && Licensed(w.reg, limit, open)
    requires Steady(On(w, k.heap), w.reg[p.id].body, Obj(p.addr), Usable(k.g, Opened(w.reg, limit, open, p), n), skip)
    ensures Grows(k.g, Add(k.g, p, open, n)) && Sound(w, limit, Stock(k.heap, Add(k.g, p, open, n)), skip)
  {
    hide Steady, Closed, Usable, Fits;
    var w', g' := On(w, k.heap), Add(k.g, p, open, n);
    forall q | q in g'.level ensures SteadyAt(w', limit, g', skip, q) {
      if q == p {
        SteadierAt(w', limit, g', skip, p, Usable(k.g, Opened(w.reg, limit, open, p), n), k.g);
      } else {
        assert SteadyAt(w', limit, k.g, skip, q);
        SteadierAt(w', limit, g', skip, q, Support(w', limit, k.g, q), k.g);
      }
    }
  }

  lemma {:induction false} SteadierAt(w: World, limit: nat, g: Grounds, skip: set<Addr>, p: Pair, r: set<Pair>,
                                      g0: Grounds)
    requires w.Ok() && Placed(w, limit, g, p) && Steady(w, w.reg[p.id].body, Obj(p.addr), r, skip) && Grows(g0, g)
    requires r == Usable(g0, Opened(w.reg, limit, g.under[p], p), g.level[p])
    ensures SteadyAt(w, limit, g, skip, p)
  {
    hide Usable, Closed, Steady;
    var open := Opened(w.reg, limit, g.under[p], p);
    UsableGrows(g0, g, open, open, g.level[p], g.level[p]);
    assert On(w, w.heap) == w;
    SteadyKept(w, w.heap, w.reg[p.id].body, Obj(p.addr), r, skip, Support(w, limit, g, p), skip);
  }

  // ---------- Stages ----------

  /** A stage stocks the needs that are no higher than `top`, inside the values of `anchors`: their
      pairs are `open`, their cells are reserved.  It starts with the heap `base`. */
  datatype Stage = Stage(open: set<Pair>, anchors: set<Need>, top: nat, base: Heap, skip: set<Addr>)

  ghost predicate StageOk(reg: Registry, limit: nat, cuts: set<Need>, order: map<Need, nat>, st: Stage) {
    && Licensed(reg, limit, st.open)
    && forall n | n in st.anchors :: n in order && Breaks(reg, limit, cuts, n) && st.top <= order[n]
  }

  /** The value is new in the stage, and so are the pairs of its object. */
  ghost predicate Own(st: Stage, g: Grounds, m: nat, v: Val) {
    v.Obj? ==>
      && v.addr !in st.base
      && forall p | p in g.level && p.addr == v.addr ::
           g.level[p] < m && p in g.under && g.under[p] == st.open
  }

  /** The needs in `env` have values: those of the anchors, and others that are new, with pairs below
      level `m`. */
  ghost predicate Furnished(w: World, limit: nat, st: Stage, k: Stock, m: nat, env: map<Need, Val>) {
    && Sound(w, limit, k, st.skip) && Extends(st.base, k.heap)
    && Known(On(w, k.heap), Usable(k.g, st.open, m), env)
    && (forall n | n in env && n !in st.anchors :: Own(st, k.g, m, env[n]))
    && (forall n | n in st.anchors :: n in env && env[n].Obj? && Pair(env[n].addr, n.id) in st.open)
  }

  /** New pairs are pairs of new objects. */
  ghost predicate NewPairs(base: Heap, g: Grounds, g': Grounds) {
    forall p | p in g'.level && p !in g.level :: p.addr !in base
  }

  /** What a step from one stock to another keeps. */
  ghost predicate Goes(st: Stage, k: Stock, k': Stock) {
    Extends(k.heap, k'.heap) && Grows(k.g, k'.g) && NewPairs(st.base, k.g, k'.g)
  }

  lemma GoesOn(st: Stage, k: Stock, k': Stock, k'': Stock)
    requires Goes(st, k, k') && Goes(st, k', k'')
    ensures Goes(st, k, k'')
  {
  }

  lemma GoesNowhere(st: Stage, k: Stock)
    ensures Goes(st, k, k)
  {
  }

  lemma Higher(w: World, limit: nat, st: Stage, k: Stock, m: nat, m': nat, env: map<Need, Val>)
    requires Furnished(w, limit, st, k, m, env) && m <= m'
    ensures Furnished(w, limit, st, k, m', env)
  {
    hide SteadyAt, Usable, Known;
    UsableGrows(k.g, k.g, st.open, st.open, m, m');
    KnownGrows(On(w, k.heap), Usable(k.g, st.open, m), Usable(k.g, st.open, m'), env);
  }

  /** The known values stay known when the stock goes on. */
  lemma KnownGoes(w: World, limit: nat, st: Stage, k: Stock, m: nat, env: map<Need, Val>, k': Stock, m': nat)
    requires On(w, k.heap).Ok() && Known(On(w, k.heap), Usable(k.g, st.open, m), env) && m <= m'
    requires Closed(k'.heap) && Extends(k.heap, k'.heap) && Grows(k.g, k'.g)
    ensures Known(On(w, k'.heap), Usable(k'.g, st.open, m'), env)
  {
    hide Usable, Known, Closed;
    KnownExtends(On(w, k.heap), k'.heap, Usable(k.g, st.open, m), env);
    assert On(On(w, k.heap), k'.heap) == On(w, k'.heap);
    UsableGrows(k.g, k'.g, st.open, st.open, m, m');
    KnownGrows(On(w, k'.heap), Usable(k.g, st.open, m), Usable(k'.g, st.open, m'), env);
  }

  /** The needs that a stage takes care of. */
  ghost predicate InScope(reg: Registry, order: map<Need, nat>, root: Id, st: Stage, n: Need) {
    Met(reg, order, root, n) && order[n] <= st.top
  }

  ghost function Loose(st: Stage, env: map<Need, Val>): map<Need, Val> {
    map n | n in env && n !in st.anchors :: env[n]
  }

  /** What a need can be built from: an object or an array from all that is known, anything else from
      what is new in the stage. */
  ghost function Parts(reg: Registry, st: Stage, env: map<Need, Val>, d: Need): map<Need, Val>
    requires d.id in reg
  {
    if Container(reg[d.id].body) then env else Loose(st, env)
  }

  /** What is known of a value that has just been built. */
  ghost predicate Fresh(w: World, st: Stage, k: Stock, m: nat, env: map<Need, Val>, d: Need, h: Heap, v: Val)
    requires d.id in w.reg && On(w, k.heap).Ok()
  {
    Built(On(w, k.heap), h, v, w.reg[d.id].body, Usable(k.g, st.open, m), d.solid, st.skip, Parts(w.reg, st, env, d))
  }

  lemma BuildNext(w: World, limit: nat, st: Stage, k: Stock, m: nat, env: map<Need, Val>, d: Need)
    returns (h: Heap, v: Val)
    requires Furnished(w, limit, st, k, m, env) && d.id in w.reg
    requires Fills(w.reg[d.id].body, Parts(w.reg, st, env, d).Keys, d.solid)
    ensures On(w, k.heap).Ok() && Fresh(w, st, k, m, env, d, h, v) && Closed(h) && Extends(k.heap, h)
    ensures Sound(w, limit, Stock(h, k.g), st.skip)
  {
    hide Steady, Closed, Usable, Satisfiable, Demands, Container, SteadyAt;
    h, v := Build(On(w, k.heap), Usable(k.g, st.open, m), Parts(w.reg, st, env, d), w.reg[d.id].body, d.solid, st.skip);
    HeapChanges(w, limit, k, st.skip, h, st.skip);
  }

  /** An object that is not new is one of the stage's own, and then so are its pairs. */
  lemma OldIsOwn(w: World, limit: nat, st: Stage, k: Stock, m: nat, env: map<Need, Val>, d: Need, h: Heap, v: Val)
    requires Furnished(w, limit, st, k, m, env) && d.id in w.reg && On(w, k.heap).Ok()
    requires Fresh(w, st, k, m, env, d, h, v)
    ensures Own(st, k.g, m, v)
  {
    hide Steady, Closed, Usable, Known, Container;
    if v.Obj? {
      if v.addr in k.heap {
        var n :| n in Parts(w.reg, st, env, d) && Parts(w.reg, st, env, d)[n] == v;
        assert n in env && env[n] == v && n !in st.anchors;
      } else {
        forall p | p in k.g.level ensures p.addr != v.addr {
          assert SteadyAt(On(w, k.heap), limit, k.g, st.skip, p);
        }
      }
    }
  }

  /** The built value and its pair take their place. */
  lemma PlaceNext(w: World, limit: nat, st: Stage, k: Stock, m: nat, env: map<Need, Val>, d: Need, h: Heap, v: Val)
    returns (k': Stock)
    requires Furnished(w, limit, st, k, m, env) && Licensed(w.reg, limit, st.open)
    requires d.id in w.reg && Fits(w.reg, limit, d.id) && On(w, k.heap).Ok()
    requires Fresh(w, st, k, m, env, d, h, v) && Own(st, k.g, m, v) && Sound(w, limit, Stock(h, k.g), st.skip)
    ensures k'.heap == h && Sound(w, limit, k', st.skip) && Goes(st, k, k')
    ensures v.Obj? ==> k'.g.level.Keys == k.g.level.Keys + {Pair(v.addr, d.id)} && Own(st, k'.g, m + 1, v)
    ensures v.Prim? ==> k'.g == k.g
    ensures forall p | p in k'.g.level && p !in k.g.level :: k'.g.level[p] == m && k'.g.under[p] == st.open
  {
    hide Steady, Closed, Usable, Known, Container, SteadyAt, Fits;
    var k1 := Stock(h, k.g);
    k' := k1;
    if v.Obj? {
      var p := Pair(v.addr, d.id);
      if p !in k.g.level {
        var open' := Opened(w.reg, limit, st.open, p);
        UsableGrows(k.g, k.g, st.open, open', m, m);
        assert On(On(w, k.heap), h) == On(w, h) && On(On(w, h), h) == On(w, h);
        SteadyKept(On(w, h), h, w.reg[d.id].body, v, Usable(k.g, st.open, m), st.skip, Usable(k.g, open', m), st.skip);
        PairAdded(w, limit, k1, st.skip, p, st.open, m);
        k' := Stock(h, Add(k.g, p, st.open, m));
      }
    }
  }

  /** One need that does not break loops. */
  lemma StockNext(w: World, limit: nat, st: Stage, k: Stock, m: nat, env: map<Need, Val>, d: Need)
    returns (k': Stock, v: Val)
    requires Furnished(w, limit, st, k, m, env) && Licensed(w.reg, limit, st.open)
    requires d !in env && d.id in w.reg && Fits(w.reg, limit, d.id)
    requires Fills(w.reg[d.id].body, Parts(w.reg, st, env, d).Keys, d.solid)
    ensures Furnished(w, limit, st, k', m + 1, env[d := v]) && Goes(st, k, k')
  {
    hide Usable, Sound, Fits, Parts, Fills, Goes, Furnished, Fresh;
    var h;
    h, v := BuildNext(w, limit, st, k, m, env, d);
    OldIsOwn(w, limit, st, k, m, env, d, h, v);
    k' := PlaceNext(w, limit, st, k, m, env, d, h, v);
    NextIsKnown(w, limit, st, k, m, env, d, h, v, k');
  }

  lemma NextIsKnown(w: World, limit: nat, st: Stage, k: Stock, m: nat, env: map<Need, Val>, d: Need, h: Heap, v: Val,
                    k': Stock)
    requires Furnished(w, limit, st, k, m, env) && d !in env && d.id in w.reg && On(w, k.heap).Ok()
    requires Fresh(w, st, k, m, env, d, h, v) && k'.heap == h && Sound(w, limit, k', st.skip) && Goes(st, k, k')
    requires v.Obj? ==> k'.g.level.Keys == k.g.level.Keys + {Pair(v.addr, d.id)} && Own(st, k'.g, m + 1, v)
    requires v.Prim? ==> k'.g == k.g
    requires forall p | p in k'.g.level && p !in k.g.level :: k'.g.level[p] == m && k'.g.under[p] == st.open
    ensures Furnished(w, limit, st, k', m + 1, env[d := v])
  {
    hide Steady, Closed, Known, Container, SteadyAt, Parts, Usable;
    KnownGoes(w, limit, st, k, m, env, k', m + 1);
    var w', r := On(w, h), Usable(k'.g, st.open, m + 1);
    assert On(On(w, k.heap), h) == w';
    if v.Prim? {
      SteadyIsHolds(w', w.reg[d.id].body, v, Usable(k.g, st.open, m), st.skip);
      UsableGrows(k.g, k'.g, st.open, st.open, m, m + 1);
      HoldsMonotone(w', w.reg[d.id].body, v, Usable(k.g, st.open, m), r);
    } else {
      OwnIsUsable(st, k'.g, m + 1, Pair(v.addr, d.id));
    }
    KnownAdds(w', r, env, d, v);
  }

  lemma OwnIsUsable(st: Stage, g: Grounds, m: nat, p: Pair)
    requires p in g.level && Own(st, g, m, Obj(p.addr))
    ensures p in Usable(g, st.open, m)
  {
  }

  // ---------- The needs that do not break loops ----------

  /** The needs in scope are known, except those that are missing. */
  ghost predicate KnownBut(reg: Registry, order: map<Need, nat>, root: Id, st: Stage, env: map<Need, Val>,
                           missing: set<Need>) {
    forall n | InScope(reg, order, root, st, n) && n !in missing :: n in env
  }

  /** The needs that a member refers to are in scope too. */
  lemma TargetInScope(reg: Registry, order: map<Need, nat>, root: Id, st: Stage, d: Need, t: Need)
    requires InScope(reg, order, root, st, d) && d.id in reg && t.id in reg && t.id in Targets(reg[d.id].body)
    requires t in order && order[t] <= order[d]
    ensures InScope(reg, order, root, st, t)
  {
    hide Targets, Reachable;
    ReachStep(reg, root, d.id, t.id);
  }

  lemma DemandFollows(reg: Registry, limit: nat, cuts: set<Need>, order: map<Need, nat>, d: Need, t: Need)
    requires Foldable(reg, limit, cuts, order) && AllResolved(reg) && d in order && d.id in reg
    requires t in Demands(reg[d.id].body, d.solid)
    ensures t.id in reg && t.id in Targets(reg[d.id].body) && Follows(reg, limit, cuts, order, d, t)
  {
    hide Satisfiable, Demands, Targets, Mandatory, Follows, Fits, Resolved;
    var body := reg[d.id].body;
    DemandsAreMandatory(body, d.solid);
    MandatoryIsTarget(body);
    TargetsResolve(reg, body);
    assert FoldableAt(reg, limit, cuts, order, d);
  }

  /** A demand of a need that does not break loops is known once it is not missing; it is no anchor
      where the need has no cell of its own. */
  lemma DemandIsPart(reg: Registry, limit: nat, cuts: set<Need>, order: map<Need, nat>, root: Id, st: Stage,
                     env: map<Need, Val>, missing: set<Need>, d: Need, t: Need)
    requires StageOk(reg, limit, cuts, order, st) && InScope(reg, order, root, st, d) && d.id in reg && t.id in reg
    requires KnownBut(reg, order, root, st, env, missing) && t !in missing
    requires t.id in Targets(reg[d.id].body) && Follows(reg, limit, cuts, order, d, t) && !Breaks(reg, limit, cuts, d)
    ensures t in Parts(reg, st, env, d)
  {
    TargetInScope(reg, order, root, st, d, t);
    hide Reachable, Targets, Breaks, Container;
    assert InScope(reg, order, root, st, t) && t in env;
  }

  lemma ReadyHasParts(reg: Registry, limit: nat, cuts: set<Need>, order: map<Need, nat>, root: Id, st: Stage,
                      env: map<Need, Val>, missing: set<Need>, d: Need)
    requires Foldable(reg, limit, cuts, order) && AllResolved(reg) && StageOk(reg, limit, cuts, order, st)
    requires InScope(reg, order, root, st, d) && Ready(reg, order, missing, d) && !Breaks(reg, limit, cuts, d)
    requires KnownBut(reg, order, root, st, env, missing)
    ensures Fills(reg[d.id].body, Parts(reg, st, env, d).Keys, d.solid) && Fits(reg, limit, d.id)
  {
    hide Demands, Targets, Satisfiable, Breaks, InScope, Parts, KnownBut, StageOk, Fits, Resolved, Follows;
    var body, parts := reg[d.id].body, Parts(reg, st, env, d);
    assert FoldableAt(reg, limit, cuts, order, d);
    forall t | t in Demands(body, d.solid) ensures t in parts {
      DemandFollows(reg, limit, cuts, order, d, t);
      assert t !in Demands(body, d.solid) * missing;
      DemandIsPart(reg, limit, cuts, order, root, st, env, missing, d, t);
    }
    forall t | t in Lower(order, d) && t.id in Targets(body) ensures t in parts {
      assert t !in Lower(order, d) * missing;
      LowerIsPart(reg, limit, cuts, order, root, st, env, missing, d, t);
    }
    SatisfiableGrows(body, Lower(order, d), parts.Keys, d.solid);
  }

  lemma LowerIsPart(reg: Registry, limit: nat, cuts: set<Need>, order: map<Need, nat>, root: Id, st: Stage,
                    env: map<Need, Val>, missing: set<Need>, d: Need, t: Need)
    requires Foldable(reg, limit, cuts, order) && StageOk(reg, limit, cuts, order, st)
    requires InScope(reg, order, root, st, d)
    requires KnownBut(reg, order, root, st, env, missing) && t !in missing
    requires d.id in reg && t in order && order[t] < order[d] && t.id in Targets(reg[d.id].body)
    ensures t in Parts(reg, st, env, d)
  {
    hide Demands, Satisfiable, Fits, Follows;
    assert FoldableAt(reg, limit, cuts, order, t);
    TargetInScope(reg, order, root, st, d, t);
    hide Reachable, Targets, Breaks, Container, FoldableAt;
    assert t in env;
  }

  lemma {:induction false} StockRest(w: World, limit: nat, cuts: set<Need>, order: map<Need, nat>, root: Id, st: Stage,
                                     k: Stock, m: nat, env: map<Need, Val>, missing: set<Need>)
    returns (k': Stock, env': map<Need, Val>)
    requires root in w.reg && Check(w.reg, root).None? && AllResolved(w.reg)
    requires Foldable(w.reg, limit, cuts, order) && StageOk(w.reg, limit, cuts, order, st)
    requires Furnished(w, limit, st, k, m, env) && KnownBut(w.reg, order, root, st, env, missing)
    requires forall n | n in missing ::
               InScope(w.reg, order, root, st, n) && n !in env && !Breaks(w.reg, limit, cuts, n)
    ensures Furnished(w, limit, st, k', m + |missing|, env') && KnownBut(w.reg, order, root, st, env', {})
    ensures Goes(st, k, k')
    decreases missing
  {
    hide Furnished, Foldable, AllResolved, Check, Breaks, StageOk, Fits, Fills, Ready, Reachable, Parts;
    if missing == {} {
      k', env' := k, env;
    } else {
      var d := SomeIsReady(w.reg, limit, cuts, order, root, missing);
      ReadyIsDeclared(w.reg, order, missing, d);
      ReadyHasParts(w.reg, limit, cuts, order, root, st, env, missing, d);
      assert Licensed(w.reg, limit, st.open) by { StageIsLicensed(w.reg, limit, cuts, order, st); }
      var k1, v := StockNext(w, limit, st, k, m, env, d);
      k', env' := StockRest(w, limit, cuts, order, root, st, k1, m + 1, env[d := v], missing - {d});
      hide Goes;
      GoesOn(st, k, k1, k');
    }
  }

  lemma ReadyIsDeclared(reg: Registry, order: map<Need, nat>, missing: set<Need>, d: Need)
    requires Ready(reg, order, missing, d)
    ensures d in order && d.id in reg
  {
    hide IsFree, Lower;
  }

  lemma StageIsLicensed(reg: Registry, limit: nat, cuts: set<Need>, order: map<Need, nat>, st: Stage)
    requires StageOk(reg, limit, cuts, order, st)
    ensures Licensed(reg, limit, st.open)
  {
  }

  // ---------- The needs that break loops ----------

  /** The levels that a stage takes up if `left` needs can still be put on the path. */
  ghost function Height(left: nat, size: nat): nat { (left + 1) * (size + 1) }

  /** Those that the stages inside it take up. */
  ghost function Depths(left: nat, size: nat): nat { left * (size + 1) }

  lemma Heights(left: nat, size: nat)
    ensures Height(left, size) == Depths(left, size) + 1 + size
    ensures left > 0 ==> Height(left - 1, size) == Depths(left, size)
  {
  }

  /** The needs that the root gives rise to, that break loops, and that are not on the path. */
  ghost function Left(reg: Registry, limit: nat, cuts: set<Need>, order: map<Need, nat>, root: Id, st: Stage): set<Need>
  {
    set n | n in order && Met(reg, order, root, n) && Breaks(reg, limit, cuts, n) && n !in st.anchors
  }

  ghost predicate Setting(w: World, limit: nat, cuts: set<Need>, order: map<Need, nat>, root: Id, st: Stage) {
    && root in w.reg && Check(w.reg, root).None? && AllResolved(w.reg)
    && Foldable(w.reg, limit, cuts, order) && StageOk(w.reg, limit, cuts, order, st)
  }

  /** A new address, with a cell to be filled later. */
  ghost function Reserve(h: Heap): Heap { h[FreshAddr(h) := Rec([])] }

  /** The stage inside the value of `t`, whose cell is reserved. */
  ghost function Inner(st: Stage, order: map<Need, nat>, h: Heap, t: Need): Stage
    requires t in order
  {
    var a := FreshAddr(h);
    Stage(st.open + {Pair(a, t.id)}, st.anchors + {t}, order[t], Reserve(h), st.skip + {a})
  }

  /** The anchors, with `t` among them. */
  ghost function InnerEnv(st: Stage, env: map<Need, Val>, h: Heap, t: Need): map<Need, Val> {
    (map n | n in env && n in st.anchors :: env[n])[t := Obj(FreshAddr(h))]
  }

  lemma InnerIsOk(reg: Registry, limit: nat, cuts: set<Need>, order: map<Need, nat>, root: Id, st: Stage, h: Heap,
                  t: Need)
    requires StageOk(reg, limit, cuts, order, st) && InScope(reg, order, root, st, t) && Breaks(reg, limit, cuts, t)
    requires t !in st.anchors
    ensures StageOk(reg, limit, cuts, order, Inner(st, order, h, t)) && Inner(st, order, h, t).top == order[t]
    ensures Left(reg, limit, cuts, order, root, Inner(st, order, h, t)) == Left(reg, limit, cuts, order, root, st) - {t}
    ensures t in Left(reg, limit, cuts, order, root, st)
  {
    hide Reachable, Container, Licenses;
  }

  lemma ReserveIsClosed(h: Heap)
    requires Closed(h)
    ensures Closed(Reserve(h)) && Extends(h, Reserve(h))
  {
    var a := FreshAddr(h);
    forall b, x | b in Reserve(h) && x in Reserve(h)[b].Vals() ensures InHeap(Reserve(h), x) {
      if b != a { assert x in h[b].Vals() && InHeap(h, x); }
    }
  }

  lemma InnerIsFurnished(w: World, limit: nat, order: map<Need, nat>, st: Stage, k: Stock, m: nat, env: map<Need, Val>,
                         t: Need)
    requires Furnished(w, limit, st, k, m, env) && t in order && t.id in w.reg && t !in st.anchors
    ensures var st' := Inner(st, order, k.heap, t);
            Furnished(w, limit, st', Stock(Reserve(k.heap), k.g), 0, InnerEnv(st, env, k.heap, t))
  {
    hide Steady, Closed, SteadyAt;
    var h, st' := Reserve(k.heap), Inner(st, order, k.heap, t);
    ReserveIsClosed(k.heap);
    HeapChanges(w, limit, k, st.skip, h, st'.skip);
    hide Reserve;
    InnerIsKnown(w, limit, order, st, k, m, env, t, h);
  }

  lemma InnerIsKnown(w: World, limit: nat, order: map<Need, nat>, st: Stage, k: Stock, m: nat, env: map<Need, Val>,
                     t: Need, h: Heap)
    requires Furnished(w, limit, st, k, m, env) && t in order && t.id in w.reg && h == Reserve(k.heap) && On(w, h).Ok()
    ensures Known(On(w, h), Usable(k.g, Inner(st, order, k.heap, t).open, 0), InnerEnv(st, env, k.heap, t))
  {
    hide Sound, Closed, Usable;
    var st', env' := Inner(st, order, k.heap, t), InnerEnv(st, env, k.heap, t);
    forall n | n in env'
      ensures n.id in w.reg && InHeap(h, env'[n]) && (n.solid ==> !env'[n].Nullish())
      ensures Obeys(On(w, h), n.id, env'[n], Usable(k.g, st'.open, 0))
    {
      OpenIsUsable(k.g, st'.open, 0);
      if n != t { assert n in env && n in st.anchors && env[n].Obj?; }
    }
  }

  lemma OpenIsUsable(g: Grounds, open: set<Pair>, n: nat)
    ensures open <= Usable(g, open, n)
  {
  }

  /** In the stage inside a need's value, all its parts are known. */
  lemma InnerHasParts(reg: Registry, limit: nat, cuts: set<Need>, order: map<Need, nat>, root: Id, st: Stage, t: Need,
                      env: map<Need, Val>)
    requires Foldable(reg, limit, cuts, order) && AllResolved(reg) && InScope(reg, order, root, st, t) && t.id in reg
    requires st.top == order[t] && KnownBut(reg, order, root, st, env, {})
    ensures Fills(reg[t.id].body, env.Keys, t.solid) && Fits(reg, limit, t.id)
  {
    hide Demands, Targets, Satisfiable, Breaks, Fits, Resolved, Container, Reachable;
    var body := reg[t.id].body;
    assert FoldableAt(reg, limit, cuts, order, t);
    hide Foldable;
    forall d | d in Demands(body, t.solid) ensures d in env {
      DemandFollows(reg, limit, cuts, order, t, d);
      TargetInScope(reg, order, root, st, t, d);
      assert InScope(reg, order, root, st, d);
    }
    forall d | d in Lower(order, t) && d.id in Targets(body) ensures d in env {
      TargetsResolve(reg, body);
      TargetInScope(reg, order, root, st, t, d);
      assert InScope(reg, order, root, st, d);
    }
    SatisfiableGrows(body, Lower(order, t), env.Keys, t.solid);
  }

  lemma {:induction false} ContainerIsObject(w: World, s: Schema, v: Val, r: set<Pair>, skip: set<Addr>)
    requires w.Ok() && InHeap(w.heap, v) && Container(s) && Steady(w, s, v, r, skip)
    ensures v.Obj?
  {
  }

  /** The cell at `b` is written over the reserved cell at `a`: nothing rested on what that held. */
  lemma {:induction false} CellFilled(w: World, limit: nat, k: Stock, skip: set<Addr>, s: Schema, a: Addr, b: Addr,
                                      r: set<Pair>)
    requires Sound(w, limit, k, skip) && a in skip && b in k.heap && b !in skip
    requires Container(s) && Steady(On(w, k.heap), s, Obj(b), r, skip)
    ensures var h := k.heap[a := k.heap[b]];
            && Closed(h) && Sound(w, limit, Stock(h, k.g), skip - {a})
            && Steady(On(w, h), s, Obj(a), r, skip - {a})
  {
    var h := k.heap[a := k.heap[b]];
    CopyIsClosed(k.heap, a, b);
    HeapChanges(w, limit, k, skip, h, skip - {a});
    hide Closed, Sound;
    SteadyKept(On(w, k.heap), h, s, Obj(b), r, skip, r, skip - {a});
    assert On(On(w, k.heap), h) == On(w, h);
    assert Expand(h, s, Obj(a)) == Expand(h, s, Obj(b));
  }

  lemma CopyIsClosed(h: Heap, a: Addr, b: Addr)
    requires Closed(h) && a in h && b in h
    ensures Closed(h[a := h[b]])
  {
    var h' := h[a := h[b]];
    forall c, x | c in h' && x in h'[c].Vals() ensures InHeap(h', x) {
      assert x in h[if c == a then b else c].Vals() && InHeap(h, x);
    }
  }

  /** The value that was built inside itself is copied to the reserved cell. */
  lemma AnchorFilled(w: World, limit: nat, st: Stage, a: Addr, k: Stock, n: nat, env: map<Need, Val>, t: Need, h: Heap,
                     v: Val)
    returns (h': Heap)
    requires Furnished(w, limit, st, k, n, env) && a in st.skip && t.id in w.reg && Container(w.reg[t.id].body)
    requires On(w, k.heap).Ok() && Fresh(w, st, k, n, env, t, h, v)
    requires Extends(k.heap, h) && Sound(w, limit, Stock(h, k.g), st.skip)
    ensures Closed(h') && Sound(w, limit, Stock(h', k.g), st.skip - {a})
    ensures Keeps(k.heap, h', {a})
    ensures Steady(On(w, h'), w.reg[t.id].body, Obj(a), Usable(k.g, st.open, n), st.skip - {a})
  {
    hide Steady, SteadyAt, Closed, Usable, Known, Expand, Container;
    var body, r := w.reg[t.id].body, Usable(k.g, st.open, n);
    assert On(On(w, k.heap), h) == On(w, h);
    ContainerIsObject(On(w, h), body, v, r, st.skip);
    assert v.addr !in k.heap;
    CellFilled(w, limit, Stock(h, k.g), st.skip, body, a, v.addr, r);
    h' := h[a := h[v.addr]];
  }

  /** The need that was stocked inside its own value takes its place. */
  lemma AnchorPlaced(w: World, limit: nat, cuts: set<Need>, order: map<Need, nat>, st: Stage, k: Stock, n: nat,
                     env: map<Need, Val>, t: Need, k2: Stock, h: Heap)
    returns (k': Stock)
    requires Furnished(w, limit, st, k, n + 1, env) && Licensed(w.reg, limit, st.open)
    requires t in order && Breaks(w.reg, limit, cuts, t) && Fits(w.reg, limit, t.id) && t !in env
    requires var st' := Inner(st, order, k.heap, t);
             && Goes(st', Stock(Reserve(k.heap), k.g), k2) && Closed(h) && Sound(w, limit, Stock(h, k2.g), st.skip)
             && Keeps(k2.heap, h, {FreshAddr(k.heap)})
             && Steady(On(w, h), w.reg[t.id].body, Obj(FreshAddr(k.heap)), Usable(k2.g, st'.open, n), st.skip)
    ensures Furnished(w, limit, st, k', n + 1, env[t := Obj(FreshAddr(k.heap))]) && Goes(st, k, k')
  {
    hide Steady, SteadyAt, Closed, Usable, Known, Expand, Container;
    var a, st' := FreshAddr(k.heap), Inner(st, order, k.heap, t);
    var p := Pair(a, t.id);
    PairIsNew(w, limit, st, k, order, t, k2);
    assert Opened(w.reg, limit, st.open, p) == st'.open;
    PairAdded(w, limit, Stock(h, k2.g), st.skip, p, st.open, n);
    k' := Stock(h, Add(k2.g, p, st.open, n));
    AnchorGoes(st, k, order, t, k2, h, n);
    AnchorIsKnown(w, limit, st, k, n, env, t, k', a);
  }

  lemma AnchorGoes(st: Stage, k: Stock, order: map<Need, nat>, t: Need, k2: Stock, h: Heap, n: nat)
    requires t in order && Goes(Inner(st, order, k.heap, t), Stock(Reserve(k.heap), k.g), k2)
    requires Extends(st.base, k.heap) && Keeps(k2.heap, h, {FreshAddr(k.heap)})
    requires Grows(k2.g, Add(k2.g, Pair(FreshAddr(k.heap), t.id), st.open, n))
    ensures Goes(st, k, Stock(h, Add(k2.g, Pair(FreshAddr(k.heap), t.id), st.open, n)))
  {
  }

  lemma PairsInHeap(w: World, limit: nat, k: Stock, skip: set<Addr>)
    requires Sound(w, limit, k, skip)
    ensures forall p | p in k.g.level :: p.addr in k.heap
  {
    hide Steady;
    forall p | p in k.g.level ensures p.addr in k.heap {
      assert SteadyAt(On(w, k.heap), limit, k.g, skip, p);
    }
  }

  lemma PairIsNew(w: World, limit: nat, st: Stage, k: Stock, order: map<Need, nat>, t: Need, k2: Stock)
    requires Sound(w, limit, k, st.skip) && t in order
    requires NewPairs(Reserve(k.heap), k.g, k2.g)
    ensures forall p | p in k2.g.level :: p.addr != FreshAddr(k.heap)
  {
    PairsInHeap(w, limit, k, st.skip);
  }

  lemma KnownInHeap(w: World, r: set<Pair>, env: map<Need, Val>)
    requires w.Ok() && Known(w, r, env)
    ensures forall n | n in env :: InHeap(w.heap, env[n])
  {
  }

  lemma AnchorIsKnown(w: World, limit: nat, st: Stage, k: Stock, n: nat, env: map<Need, Val>, t: Need, k': Stock,
                      a: Addr)
    requires Furnished(w, limit, st, k, n + 1, env) && t !in env && t.id in w.reg
    requires Sound(w, limit, k', st.skip) && Goes(st, k, k') && a !in k.heap && a in k'.heap
    requires Pair(a, t.id) in k'.g.level
    requires forall p | p in k'.g.level && p !in k.g.level ::
               p.addr !in k.heap && (p.addr == a ==> p.id == t.id && k'.g.level[p] == n && k'.g.under[p] == st.open)
    ensures Furnished(w, limit, st, k', n + 1, env[t := Obj(a)])
  {
    hide Steady, SteadyAt, Closed, Usable, Known;
    KnownGoes(w, limit, st, k, n + 1, env, k', n + 1);
    PairsInHeap(w, limit, k, st.skip);
    KnownInHeap(On(w, k.heap), Usable(k.g, st.open, n + 1), env);
    OwnIsUsable(st, k'.g, n + 1, Pair(a, t.id));
    KnownAdds(On(w, k'.heap), Usable(k'.g, st.open, n + 1), env, t, Obj(a));
  }

  /** One need that breaks loops: its value is built inside itself. */
  lemma {:induction false} StockBreaker(w: World, limit: nat, cuts: set<Need>, order: map<Need, nat>, root: Id,
                                        st: Stage, k: Stock, env: map<Need, Val>, t: Need, left: set<Need>)
    returns (k': Stock, v: Val)
    requires Setting(w, limit, cuts, order, root, st) && left == Left(w.reg, limit, cuts, order, root, st) && t in left
    requires Furnished(w, limit, st, k, Depths(|left|, |order|) + 1, env)
    requires InScope(w.reg, order, root, st, t) && t !in env
    ensures Furnished(w, limit, st, k', Depths(|left|, |order|) + 1, env[t := v]) && Goes(st, k, k')
    decreases left, 0
  {
    hide Furnished, Foldable, AllResolved, Check, Breaks, StageOk, Fits, Fills, Reachable, Parts, Goes, Fresh, Sound;
    hide Inner, InnerEnv, Height, Depths, Reserve;
    var n := Depths(|left|, |order|);
    var st', k1, env1 := Inner(st, order, k.heap, t), Stock(Reserve(k.heap), k.g), InnerEnv(st, env, k.heap, t);
    LeftBreaks(w.reg, limit, cuts, order, root, st, t);
    InnerIsOk(w.reg, limit, cuts, order, root, st, k.heap, t);
    InnerIsFurnished(w, limit, order, st, k, n + 1, env, t);
    InnerEnvKeys(w, limit, st, k, n + 1, env, order, t);
    Heights(|left|, |order|);
    assert |left - {t}| == |left| - 1;
    var k2, env2 := BuildStage(w, limit, cuts, order, root, st', k1, env1, left - {t});
    InnerHasParts(w.reg, limit, cuts, order, root, st', t, env2);
    assert Parts(w.reg, st', env2, t) == env2 by { BreakerParts(w.reg, st', env2, t); }
    var h, v' := BuildNext(w, limit, st', k2, n, env2, t);
    StageIsLicensed(w.reg, limit, cuts, order, st);
    var a := FreshAddr(k.heap);
    InnerSkip(w, limit, st, order, k, n + 1, env, t);
    var h' := AnchorFilled(w, limit, st', a, k2, n, env2, t, h, v');
    k' := AnchorPlaced(w, limit, cuts, order, st, k, n, env, t, k2, h');
    v := Obj(a);
  }

  lemma InnerSkip(w: World, limit: nat, st: Stage, order: map<Need, nat>, k: Stock, m: nat, env: map<Need, Val>,
                  t: Need)
    requires Furnished(w, limit, st, k, m, env) && t in order
    ensures FreshAddr(k.heap) in Inner(st, order, k.heap, t).skip
    ensures Inner(st, order, k.heap, t).skip - {FreshAddr(k.heap)} == st.skip
  {
    hide Known, SteadyAt;
  }

  lemma LeftBreaks(reg: Registry, limit: nat, cuts: set<Need>, order: map<Need, nat>, root: Id, st: Stage, t: Need)
    requires t in Left(reg, limit, cuts, order, root, st)
    ensures t in order && Breaks(reg, limit, cuts, t) && t.id in reg && t !in st.anchors
    ensures Container(reg[t.id].body)
  {
  }

  lemma BreakerParts(reg: Registry, st: Stage, env: map<Need, Val>, t: Need)
    requires t.id in reg && Container(reg[t.id].body)
    ensures Parts(reg, st, env, t) == env
  {
  }

  lemma InnerEnvKeys(w: World, limit: nat, st: Stage, k: Stock, m: nat, env: map<Need, Val>, order: map<Need, nat>,
                     t: Need)
    requires Furnished(w, limit, st, k, m, env) && t in order
    ensures InnerEnv(st, env, k.heap, t).Keys == Inner(st, order, k.heap, t).anchors
  {
    hide Sound, Known;
  }

  lemma {:induction false} StockBreakers(w: World, limit: nat, cuts: set<Need>, order: map<Need, nat>, root: Id,
                                         st: Stage, k: Stock, env: map<Need, Val>, left: set<Need>, todo: set<Need>)
    returns (k': Stock, env': map<Need, Val>)
    requires Setting(w, limit, cuts, order, root, st) && left == Left(w.reg, limit, cuts, order, root, st)
    requires todo <= left
    requires Furnished(w, limit, st, k, Depths(|left|, |order|) + 1, env)
    requires forall t | t in todo :: InScope(w.reg, order, root, st, t) && t !in env
    ensures Furnished(w, limit, st, k', Depths(|left|, |order|) + 1, env') && Goes(st, k, k')
    ensures env'.Keys == env.Keys + todo
    decreases left, 1, todo
  {
    hide Furnished, Setting, Breaks, Reachable, Depths, Left, Goes;
    if todo == {} {
      k', env' := k, env;
      GoesNowhere(st, k);
    } else {
      var t :| t in todo;
      var k1, v := StockBreaker(w, limit, cuts, order, root, st, k, env, t, left);
      k', env' := StockBreakers(w, limit, cuts, order, root, st, k1, env[t := v], left, todo - {t});
      GoesOn(st, k, k1, k');
    }
  }

  /** Everything in scope is stocked. */
  lemma {:induction false} BuildStage(w: World, limit: nat, cuts: set<Need>, order: map<Need, nat>, root: Id, st: Stage,
                                      k: Stock, env: map<Need, Val>, left: set<Need>)
    returns (k': Stock, env': map<Need, Val>)
    requires Setting(w, limit, cuts, order, root, st) && left == Left(w.reg, limit, cuts, order, root, st)
    requires Furnished(w, limit, st, k, 0, env) && env.Keys == st.anchors
    ensures Furnished(w, limit, st, k', Height(|left|, |order|), env') && Goes(st, k, k')
    ensures KnownBut(w.reg, order, root, st, env', {})
    decreases left, 2
  {
    hide Furnished, Foldable, AllResolved, Check, Breaks, StageOk, Reachable, Height, Depths, Goes, InScope, Left, Todo,
         Rest, KnownBut;
    Heights(|left|, |order|);
    var n := Depths(|left|, |order|) + 1;
    Higher(w, limit, st, k, 0, n, env);
    var todo, missing := Todo(left, order, st), Rest(w.reg, limit, cuts, order, root, st);
    TodoInScope(w.reg, limit, cuts, order, root, st);
    var k1, env1 := StockBreakers(w, limit, cuts, order, root, st, k, env, left, todo);
    RestIsMissing(w.reg, limit, cuts, order, root, st, env1);
    var k2, env2 := StockRest(w, limit, cuts, order, root, st, k1, n, env1, missing);
    Higher(w, limit, st, k2, n + |missing|, Height(|left|, |order|), env2);
    k', env' := k2, env2;
    GoesOn(st, k, k1, k');
  }

  /** The needs of the stage that break loops. */
  ghost function Todo(left: set<Need>, order: map<Need, nat>, st: Stage): set<Need> {
    set t | t in left && t in order && order[t] <= st.top
  }

  /** Its other needs. */
  ghost function Rest(reg: Registry, limit: nat, cuts: set<Need>, order: map<Need, nat>, root: Id, st: Stage): set<Need>
  {
    set d | d in order && InScope(reg, order, root, st, d) && !Breaks(reg, limit, cuts, d)
  }

  lemma TodoInScope(reg: Registry, limit: nat, cuts: set<Need>, order: map<Need, nat>, root: Id, st: Stage)
    ensures var left := Left(reg, limit, cuts, order, root, st);
            && Todo(left, order, st) <= left
            && forall t | t in Todo(left, order, st) :: InScope(reg, order, root, st, t) && t !in st.anchors
  {
    hide Breaks, Reachable;
  }

  lemma RestIsMissing(reg: Registry, limit: nat, cuts: set<Need>, order: map<Need, nat>, root: Id, st: Stage,
                      env: map<Need, Val>)
    requires StageOk(reg, limit, cuts, order, st)
    requires env.Keys == st.anchors + Todo(Left(reg, limit, cuts, order, root, st), order, st)
    ensures var missing := Rest(reg, limit, cuts, order, root, st);
            && |missing| <= |order| && KnownBut(reg, order, root, st, env, missing)
            && forall n | n in missing :: InScope(reg, order, root, st, n) && n !in env && !Breaks(reg, limit, cuts, n)
  {
    hide Breaks, Reachable;
    NeedsFit(Rest(reg, limit, cuts, order, root, st), order.Keys);
  }

  lemma {:induction false} NeedsFit(a: set<Need>, b: set<Need>)
    requires a <= b
    ensures |a| <= |b|
  {
    if a != {} {
      var n :| n in a;
      NeedsFit(a - {n}, b - {n});
    }
  }

  // ---------- The theorem ----------

  ghost function Highest(order: map<Need, nat>): (top: nat)
    ensures forall n | n in order :: order[n] <= top
  {
    if order == map[] then 0
    else
      var n :| n in order;
      var top := Highest(order - {n});
      assert forall t | t in order :: t == n || t in order - {n};
      if order[n] > top then order[n] else top
  }

  lemma SoundIsAnchored(w: World, limit: nat, k: Stock)
    requires Sound(w, limit, k, {})
    ensures On(w, k.heap).Ok() && Anchored(On(w, k.heap), limit, k.g)
  {
    hide Steady, Holds, Usable, Closed;
    var w' := On(w, k.heap);
    forall p | p in k.g.level
      ensures Placed(w', limit, k.g, p)
      ensures Holds(w', w.reg[p.id].body, Obj(p.addr), Support(w', limit, k.g, p))
    {
      assert SteadyAt(w', limit, k.g, {}, p);
      SteadyIsHolds(w', w.reg[p.id].body, Obj(p.addr), Support(w', limit, k.g, p), {});
    }
  }

  /** If the check passes then every declaration that it has reached has a value. */
  lemma FoldableIsInhabited(w: World, limit: nat, cuts: set<Need>, order: map<Need, nat>, root: Id, id: Id)
    requires w.Ok() && root in w.reg && Check(w.reg, root).None? && AllResolved(w.reg)
    requires Foldable(w.reg, limit, cuts, order) && Height(|cuts|, |order|) <= limit
    requires id in w.reg && Need(id, false) in order && Reachable(w.reg, root, id)
    ensures Inhabited(w, id)
  {
    hide Foldable, AllResolved, Check, Breaks, Reachable, Sound, Anchored, Usable, Height;
    var st, k := Stage({}, {}, Highest(order), map[], {}), Stock(map[], Grounds(map[], map[]));
    NothingIsFurnished(w, limit, st, k);
    var left := Left(w.reg, limit, cuts, order, root, st);
    var k', env := BuildStage(w, limit, cuts, order, root, st, k, map[], left);
    var need, w' := Need(id, false), On(w, k'.heap);
    assert InScope(w.reg, order, root, st, need);
    SoundIsAnchored(w, limit, k');
    LeftInCuts(w.reg, limit, cuts, order, root, st);
    NeedsFit(left, cuts);
    HeightGrows(|left|, |cuts|, |order|);
    UsableGrows(k'.g, k'.g, {}, {}, Height(|left|, |order|), limit);
    KnownGrows(w', Usable(k'.g, {}, Height(|left|, |order|)), Usable(k'.g, {}, limit), env);
    AnchoredComplete(w', limit, k'.g, id, env[need]);
  }

  lemma NothingIsFurnished(w: World, limit: nat, st: Stage, k: Stock)
    requires w.Ok() && k == Stock(map[], Grounds(map[], map[])) && st.open == {} && st.anchors == {}
    requires st.base == map[] && st.skip == {}
    ensures Furnished(w, limit, st, k, 0, map[])
  {
  }

  lemma LeftInCuts(reg: Registry, limit: nat, cuts: set<Need>, order: map<Need, nat>, root: Id, st: Stage)
    ensures Left(reg, limit, cuts, order, root, st) <= cuts
  {
    hide Reachable;
  }

  lemma HeightGrows(m: nat, n: nat, size: nat)
    requires m <= n
    ensures Height(m, size) <= Height(n, size)
  {
    assert (n + 1) * (size + 1) == (m + 1) * (size + 1) + (n - m) * (size + 1);
  }

  /** Where references resolve and some declarations are cyclic, the check passes exactly when every
      reachable declaration has a value that the validator accepts, if no cap and no bound on cycles
      lies below the longest path that the order makes room for. */
  lemma CyclesExact(w: World, limit: nat, cuts: set<Need>, order: map<Need, nat>, root: Id)
    requires w.Ok() && root in w.reg && AllResolved(w.reg)
    requires Foldable(w.reg, limit, cuts, order) && Covers(w.reg, order, root)
    requires Height(|cuts|, |order|) <= limit
    requires forall id | id in w.reg && Reachable(w.reg, root, id) :: WellKinded(w.reg[id].body)
    ensures Check(w.reg, root).None? <==>
            forall id | id in w.reg && Reachable(w.reg, root, id) :: Inhabited(w, id)
  {
    hide Foldable, WellKinded, Reachable, Check, Inhabited, AllResolved, Height;
    var reg := w.reg;
    if Check(reg, root).None? {
      forall id | id in reg && Reachable(reg, root, id) ensures Inhabited(w, id) {
        FoldableIsInhabited(w, limit, cuts, order, root, id);
      }
    } else {
      RejectedIsEmpty(w, root);
    }
  }
}
