/** What an encoding that succeeds has met. */
module EncodingReach {
  import opened SchemaGraph
  import opened Codec
  import opened EncodingHalts
  import opened CodecTheorems

  // ---------- Sites the walk has done ----------

  ghost predicate DoneFrom(w: World, bound: set<Addr>, t: Site, p: Trail, ids: map<Addr, nat>, chain: set<Addr>)
    requires w.Ok() && JsHeap(w.heap) && t.addr in w.heap
  {
    var e := EncVal(w, p, ids, t.pos, Obj(t.addr), chain);
    e.Enc? && e.ids.Keys <= bound
  }

  /** Somewhere the walk of the site succeeds, with only objects of `bound` registered by then. */
  ghost predicate Done(w: World, bound: set<Addr>, t: Site)
    requires w.Ok() && JsHeap(w.heap)
  {
    t.addr in w.heap && exists p, ids, chain :: DoneFrom(w, bound, t, p, ids, chain)
  }

  ghost predicate AtTracked(w: World, t: Site) {
    IsBoundary(t.pos) && t.pos.value.target in w.reg && w.reg[t.pos.value.target].Tracked()
  }

  ghost function Body(w: World, t: Site): Site
    requires IsBoundary(t.pos) && t.pos.value.target in w.reg
  {
    Site(Some(w.reg[t.pos.value.target].body), t.addr)
  }

  /** The object was met at a tracked declaration, and walked there. */
  ghost predicate Registered(w: World, sites: iset<Site>, bound: set<Addr>, b: Addr)
    requires w.Ok() && JsHeap(w.heap)
  {
    exists t :: t in sites && t.addr == b && AtTracked(w, t) && Done(w, bound, Body(w, t))
  }

  ghost predicate AllRegistered(w: World, sites: iset<Site>, bound: set<Addr>, ids: map<Addr, nat>,
                                ids': map<Addr, nat>)
    requires w.Ok() && JsHeap(w.heap)
  {
    forall b | b in ids' && b !in ids :: Registered(w, sites, bound, b)
  }

  lemma {:induction false} DeclRegisters(w: World, sites: iset<Site>, bound: set<Addr>, p: Trail, ids: map<Addr, nat>,
                                         s: Position, v: Val)
    requires w.Ok() && JsHeap(w.heap) && IsBoundary(s) && s.value.target in w.reg && InHeap(w.heap, v)
    requires Roams(w, sites) && (v.Obj? ==> Site(s, v.addr) in sites)
    ensures var e := EncDecl(w, p, ids, s.value.target, v, s.value.Ref?);
            e.Enc? && e.ids.Keys <= bound ==> AllRegistered(w, sites, bound, ids, e.ids)
    decreases Unentered(w, p), if v.Obj? then 1 else 0, w.heap.Keys - p.rawStack,
              if v.Obj? then 0 else w.rank[s.value.target], if v.Obj? then 0 else 2
  {
    hide JsHeap, Roams;
    var id := s.value.target;
    var decl := w.reg[id];
    var e := EncDecl(w, p, ids, id, v, s.value.Ref?);
    if v.Prim? {
      ValRegisters(w, sites, bound, p.(pathDepth := p.pathDepth + 1), ids, Some(decl.body), v, {});
    } else if !(decl.Tracked() && v.addr in ids) && Pair(v.addr, id) !in p.inflight && e.Enc? && e.ids.Keys <= bound {
      var pair := Pair(v.addr, id);
      assert pair in Unentered(w, p);
      var ids' := if decl.Tracked() then ids[v.addr := |ids|] else ids;
      var p' := EnterTrail(p, pair, s.value.Ref?, decl.Tracked());
      var t := Site(s, v.addr);
      StepsTo(w, sites, t, Body(w, t));
      ValRegisters(w, sites, bound, p', ids', Some(decl.body), v, {});
      assert DoneFrom(w, bound, Body(w, t), p', ids', {});
    }
  }

  lemma StepsTo(w: World, sites: iset<Site>, t: Site, t': Site)
    requires Roams(w, sites) && t in sites && Leads(w, t, t')
    ensures t' in sites
  {
  }

  lemma {:induction false} ValRegisters(w: World, sites: iset<Site>, bound: set<Addr>, p: Trail, ids: map<Addr, nat>,
                                        s: Position, v: Val, chain: set<Addr>)
    requires w.Ok() && JsHeap(w.heap) && InHeap(w.heap, v)
    requires Roams(w, sites) && (v.Obj? ==> Site(s, v.addr) in sites)
    ensures var e := EncVal(w, p, ids, s, v, chain);
            e.Enc? && e.ids.Keys <= bound ==> AllRegistered(w, sites, bound, ids, e.ids)
    decreases Unentered(w, p), if v.Obj? then 1 else 0, w.heap.Keys - p.rawStack,
              if v.Obj? || s.None? then 0 else Bound(w.rank, s.value), if s.Some? then 1 else 0,
              if s.Some? then s.value else Ref(""), if s.Some? then {} else w.heap.Keys - chain
  {
    hide JsHeap, Roams, Registered;
    if IsBoundary(s) {
      if s.value.target in w.reg { DeclRegisters(w, sites, bound, p, ids, s, v); }
    } else if v.Obj? {
      var a := v.addr;
      assert forall x | x in w.heap[a].Vals() :: InHeap(w.heap, x);
      match w.heap[a]
      case Arr(elems) =>
        forall x | x in elems && x.Obj? ensures Site(Items(s), x.addr) in sites {
          StepsTo(w, sites, Site(s, a), Site(Items(s), x.addr));
        }
        if !(s.None? && a in chain) {
          ElemsRegister(w, sites, bound, p.(rawDepth := p.rawDepth + 1), ids, s, elems, chain, a);
        }
      case Rec(fields) =>
        forall f | f in Kept(fields) && f.val.Obj? ensures Site(At(s, f.key), f.val.addr) in sites {
          StepsTo(w, sites, Site(s, a), Site(At(s, f.key), f.val.addr));
        }
        if a !in p.rawStack {
          assert a in w.heap.Keys - p.rawStack;
          var p' := p.(rawDepth := p.rawDepth + 1, rawStack := p.rawStack + {a});
          FieldsRegister(w, sites, bound, p', ids, s, Kept(fields));
        }
    }
  }

  lemma {:induction false} ElemsRegister(w: World, sites: iset<Site>, bound: set<Addr>, p: Trail, ids: map<Addr, nat>,
                                         s: Position, elems: seq<Val>, chain: set<Addr>, a: Addr)
    requires w.Ok() && JsHeap(w.heap) && !IsBoundary(s)
    requires (forall v | v in elems :: InHeap(w.heap, v)) && a in w.heap && (s.None? ==> a !in chain)
    requires Roams(w, sites) && forall x | x in elems && x.Obj? :: Site(Items(s), x.addr) in sites
    ensures var e := EncElems(w, p, ids, s, elems, chain, a);
            e.Enc? && e.ids.Keys <= bound ==> AllRegistered(w, sites, bound, ids, e.ids)
    decreases Unentered(w, p), 1, w.heap.Keys - p.rawStack, 0, if s.Some? then 1 else 0,
              if s.Some? then s.value else Ref(""), if s.Some? then {} else w.heap.Keys - chain, |elems|
  {
    hide JsHeap, Roams, EncVal, Registered;
    if elems != [] {
      assert s.None? ==> a in w.heap.Keys - chain;
      var chain' := if s.None? then chain + {a} else {};
      ValRegisters(w, sites, bound, p, ids, Items(s), elems[0], chain');
      var first := EncVal(w, p, ids, Items(s), elems[0], chain');
      if first.Enc? { ElemsRegister(w, sites, bound, p, first.ids, s, elems[1..], chain, a); }
    }
  }

  lemma {:induction false} FieldsRegister(w: World, sites: iset<Site>, bound: set<Addr>, p: Trail, ids: map<Addr, nat>,
                                          s: Position, fields: seq<Field>)
    requires w.Ok() && JsHeap(w.heap) && forall f | f in fields :: InHeap(w.heap, f.val)
    requires Roams(w, sites) && forall f | f in fields && f.val.Obj? :: Site(At(s, f.key), f.val.addr) in sites
    ensures var e := EncFields(w, p, ids, s, fields);
            e.Enc? && e.ids.Keys <= bound ==> AllRegistered(w, sites, bound, ids, e.ids)
    decreases Unentered(w, p), 1, w.heap.Keys - p.rawStack, 0, 2, |fields|
  {
    hide JsHeap, Roams, EncVal, Registered;
    if fields != [] {
      ValRegisters(w, sites, bound, p, ids, At(s, fields[0].key), fields[0].val, {});
      var first := EncVal(w, p, ids, At(s, fields[0].key), fields[0].val, {});
      if first.Enc? { FieldsRegister(w, sites, bound, p, first.ids, s, fields[1..]); }
    }
  }

  // ---------- The sites around a site that is done ----------

  lemma {:induction false} ElemDone(w: World, bound: set<Addr>, p: Trail, ids: map<Addr, nat>, s: Position,
                                    elems: seq<Val>, chain: set<Addr>, a: Addr, x: Val)
    requires w.Ok() && JsHeap(w.heap) && !IsBoundary(s)
    requires (forall v | v in elems :: InHeap(w.heap, v)) && a in w.heap && (s.None? ==> a !in chain)
    requires var e := EncElems(w, p, ids, s, elems, chain, a); e.Enc? && e.ids.Keys <= bound
    requires x in elems && x.Obj?
    ensures Done(w, bound, Site(Items(s), x.addr))
    decreases |elems|
  {
    hide JsHeap, EncVal;
    assert s.None? ==> a in w.heap.Keys - chain;
    var chain' := if s.None? then chain + {a} else {};
    var first := EncVal(w, p, ids, Items(s), elems[0], chain');
    if x == elems[0] {
      assert DoneFrom(w, bound, Site(Items(s), x.addr), p, ids, chain');
    } else {
      ElemDone(w, bound, p, first.ids, s, elems[1..], chain, a, x);
    }
  }

  lemma {:induction false} FieldDone(w: World, bound: set<Addr>, p: Trail, ids: map<Addr, nat>, s: Position,
                                     fields: seq<Field>, f: Field)
    requires w.Ok() && JsHeap(w.heap) && forall f | f in fields :: InHeap(w.heap, f.val)
    requires var e := EncFields(w, p, ids, s, fields); e.Enc? && e.ids.Keys <= bound
    requires f in fields && f.val.Obj?
    ensures Done(w, bound, Site(At(s, f.key), f.val.addr))
    decreases |fields|
  {
    hide JsHeap, EncVal;
    var first := EncVal(w, p, ids, At(s, fields[0].key), fields[0].val, {});
    if f == fields[0] {
      assert DoneFrom(w, bound, Site(At(s, f.key), f.val.addr), p, ids, {});
    } else {
      FieldDone(w, bound, p, first.ids, s, fields[1..], f);
    }
  }

  lemma {:induction false} EnteredAt(w: World, p: Trail, ids: map<Addr, nat>, t: Site, chain: set<Addr>)
    requires w.Ok() && JsHeap(w.heap) && t.addr in w.heap && IsBoundary(t.pos) && t.pos.value.target in w.reg
    requires !(AtTracked(w, t) && t.addr in ids) && EncVal(w, p, ids, t.pos, Obj(t.addr), chain).Enc?
    ensures var tracked := AtTracked(w, t);
            var p' := EnterTrail(p, Pair(t.addr, t.pos.value.target), t.pos.value.Ref?, tracked);
            EncVal(w, p, ids, t.pos, Obj(t.addr), chain) ==
            EncVal(w, p', if tracked then ids[t.addr := |ids|] else ids, Body(w, t).pos, Obj(t.addr), {})
  {
    hide JsHeap;
    var id := t.pos.value.target;
    assert EncDecl(w, p, ids, id, Obj(t.addr), t.pos.value.Ref?).Enc?;
    assert Pair(t.addr, id) in Unentered(w, p);
  }

  /** Whatever a site leads to is done with it, except behind a tracked declaration. */
  lemma NextDone(w: World, bound: set<Addr>, t: Site, t': Site)
    requires w.Ok() && JsHeap(w.heap) && Done(w, bound, t) && Leads(w, t, t') && !AtTracked(w, t)
    ensures Done(w, bound, t')
  {
    hide JsHeap;
    var p, ids: map<Addr, nat>, chain :| DoneFrom(w, bound, t, p, ids, chain);
    var a := t.addr;
    if IsBoundary(t.pos) {
      EnteredAt(w, p, ids, t, chain);
      assert DoneFrom(w, bound, t', EnterTrail(p, Pair(a, t.pos.value.target), t.pos.value.Ref?, false), ids, {});
    } else {
      hide EncElems, EncFields, Done;
      assert forall x | x in w.heap[a].Vals() :: InHeap(w.heap, x);
      match w.heap[a]
      case Arr(elems) =>
        ElemDone(w, bound, p.(rawDepth := p.rawDepth + 1), ids, t.pos, elems, chain, a, Obj(t'.addr));
      case Rec(fields) =>
        var f :| f in Kept(fields) && f.val == Obj(t'.addr) && t'.pos == At(t.pos, f.key);
        FieldDone(w, bound, p.(rawDepth := p.rawDepth + 1, rawStack := p.rawStack + {a}), ids, t.pos, Kept(fields), f);
    }
  }

  /** Behind a tracked declaration it is done, unless a reference was written; then the object had
      been registered. */
  lemma BehindTracked(w: World, bound: set<Addr>, t: Site)
    requires w.Ok() && JsHeap(w.heap) && Done(w, bound, t) && AtTracked(w, t)
    ensures Done(w, bound, Body(w, t)) || t.addr in bound
  {
    hide JsHeap;
    var p, ids: map<Addr, nat>, chain :| DoneFrom(w, bound, t, p, ids, chain);
    if t.addr in ids {
      assert ids.Keys <= EncVal(w, p, ids, t.pos, Obj(t.addr), chain).ids.Keys;
    } else {
      EnteredAt(w, p, ids, t, chain);
      var pair := Pair(t.addr, t.pos.value.target);
      assert DoneFrom(w, bound, Body(w, t), EnterTrail(p, pair, t.pos.value.Ref?, true), ids[t.addr := |ids|], {});
    }
  }

  // ---------- Everything that is reached is visited ----------

  /** The visited sites hold whatever they lead to; of an object that is met at a tracked
      declaration they hold the walk at some tracked declaration that the sites hold it at. */
  ghost predicate Visits(w: World, sites: iset<Site>, visited: iset<Site>) {
    && visited <= sites
    && (forall t, t' | t in visited && Leads(w, t, t') && !AtTracked(w, t) :: t' in visited)
    && (forall t | t in visited && AtTracked(w, t) :: WalkedOnce(w, sites, visited, t.addr))
  }

  ghost predicate WalkedOnce(w: World, sites: iset<Site>, visited: iset<Site>, b: Addr) {
    exists t :: t in sites && t.addr == b && AtTracked(w, t) && Body(w, t) in visited
  }

  /** Where the call enters. */
  ghost function Start(id: Id, a: Addr): Site { Site(Some(Embed(id)), a) }

  /** An encoding that succeeds has visited everything that the schema reaches from the root, and
      no loop that meets no tracked declaration is among it. */
  lemma VisitedSites(w: World, sites: iset<Site>, id: Id, a: Addr) returns (visited: iset<Site>)
    requires w.Ok() && JsHeap(w.heap) && id in w.reg && a in w.heap
    requires Roams(w, sites) && Start(id, a) in sites && Encode(w, id, Obj(a)).Enc?
    ensures Start(id, a) in visited && Visits(w, sites, visited)
    ensures forall loop: set<Site>, t | Untracked(w, loop) && t in loop :: t !in visited
  {
    hide JsHeap, Roams, EncDecl, Done, Untracked, Registered;
    var e := Encode(w, id, Obj(a));
    visited := iset t: Site | t in sites && Done(w, e.ids.Keys, t);
    StartDone(w, id, a);
    DeclRegisters(w, sites, e.ids.Keys, ROOT, map[], Some(Embed(id)), Obj(a));
    forall t, t' | t in visited && Leads(w, t, t') && !AtTracked(w, t) ensures t' in visited {
      StepsTo(w, sites, t, t');
      NextDone(w, e.ids.Keys, t, t');
    }
    forall t | t in visited && AtTracked(w, t) ensures WalkedOnce(w, sites, visited, t.addr) {
      TrackedWalked(w, sites, e.ids, visited, t);
    }
    forall loop: set<Site>, t | Untracked(w, loop) && t in loop ensures t !in visited {
      LoopNotDone(w, e.ids.Keys, loop, t);
    }
  }

  lemma StartDone(w: World, id: Id, a: Addr)
    requires w.Ok() && JsHeap(w.heap) && id in w.reg && a in w.heap && Encode(w, id, Obj(a)).Enc?
    ensures Done(w, Encode(w, id, Obj(a)).ids.Keys, Start(id, a))
  {
    hide JsHeap, EncDecl;
    assert DoneFrom(w, Encode(w, id, Obj(a)).ids.Keys, Start(id, a), ROOT, map[], {});
  }

  lemma TrackedWalked(w: World, sites: iset<Site>, ids: map<Addr, nat>, visited: iset<Site>, t: Site)
    requires w.Ok() && JsHeap(w.heap) && Roams(w, sites) && AllRegistered(w, sites, ids.Keys, map[], ids)
    requires visited == (iset t: Site | t in sites && Done(w, ids.Keys, t)) && t in visited && AtTracked(w, t)
    ensures WalkedOnce(w, sites, visited, t.addr)
  {
    hide JsHeap, Roams, Done;
    BehindTracked(w, ids.Keys, t);
    var t' := t;
    if !Done(w, ids.Keys, Body(w, t)) {
      assert Registered(w, sites, ids.Keys, t.addr);
      t' :| t' in sites && t'.addr == t.addr && AtTracked(w, t') && Done(w, ids.Keys, Body(w, t'));
    }
    DoneInHeap(w, ids.Keys, t);
    StepsTo(w, sites, t', Body(w, t'));
  }

  lemma DoneInHeap(w: World, bound: set<Addr>, t: Site)
    requires w.Ok() && JsHeap(w.heap) && Done(w, bound, t)
    ensures t.addr in w.heap
  {
    hide JsHeap;
  }

  lemma LoopNotDone(w: World, bound: set<Addr>, loop: set<Site>, t: Site)
    requires w.Ok() && JsHeap(w.heap) && Untracked(w, loop) && t in loop
    ensures !Done(w, bound, t)
  {
    hide JsHeap, EncVal, Untracked;
    if Done(w, bound, t) {
      var p, ids: map<Addr, nat>, chain :| DoneFrom(w, bound, t, p, ids, chain);
      SiteRefused(w, loop, p, ids, t.pos, t.addr, chain);
    }
  }

  // ---------- Loops that are reached ----------

  /** Of the tracked declarations that the sites hold the object at, all have one body. */
  ghost predicate OneBody(w: World, sites: iset<Site>, t: Site)
    requires AtTracked(w, t)
  {
    forall t' | t' in sites && t'.addr == t.addr && AtTracked(w, t') :: Body(w, t') == Body(w, t)
  }

  /** Each site leads to the next, over tracked declarations only where there is no choice of body. */
  ghost predicate Route(w: World, sites: iset<Site>, route: seq<Site>) {
    |route| > 1 ==>
      && Leads(w, route[0], route[1])
      && (AtTracked(w, route[0]) ==> OneBody(w, sites, route[0]))
      && Route(w, sites, route[1..])
  }

  lemma {:induction false} RouteVisited(w: World, sites: iset<Site>, visited: iset<Site>, route: seq<Site>)
    requires Visits(w, sites, visited) && Route(w, sites, route) && route != [] && route[0] in visited
    ensures route[|route| - 1] in visited
    decreases |route|
  {
    if |route| > 1 {
      var t := route[0];
      if AtTracked(w, t) { assert WalkedOnce(w, sites, visited, t.addr) && Body(w, t) == route[1]; }
      RouteVisited(w, sites, visited, route[1..]);
    }
  }

  /** A loop that meets no tracked declaration is refused wherever it is reached, across tracked
      declarations too where each object on the way is met at one tracked body only. */
  lemma {:induction false} ReachedLoopRefused(w: World, sites: iset<Site>, id: Id, a: Addr, route: seq<Site>,
                                              loop: set<Site>)
    requires w.Ok() && JsHeap(w.heap) && id in w.reg && a in w.heap
    requires Roams(w, sites) && Start(id, a) in sites
    requires Route(w, sites, route) && route != [] && route[0] == Start(id, a)
    requires Untracked(w, loop) && route[|route| - 1] in loop
    ensures Encode(w, id, Obj(a)).Refused?
  {
    hide JsHeap, Roams, Visits, Untracked, Route, Encode;
    if Encode(w, id, Obj(a)).Enc? {
      var visited := VisitedSites(w, sites, id, a);
      RouteVisited(w, sites, visited, route);
    }
  }
}
