/** When the encoder's walk comes to an end. */
module EncodingHalts {
  import opened SchemaGraph
  import opened MsgPack
  import opened Codec

  /** A value of the heap at a schema position. */
  datatype Site = Site(pos: Position, addr: Addr)

  /** One step of a walk: over a boundary to the body of its declaration, or to a child. */
  ghost predicate Leads(w: World, t: Site, t': Site) {
    t.addr in w.heap &&
    if IsBoundary(t.pos) then t.pos.value.target in w.reg && t' == Site(Some(w.reg[t.pos.value.target].body), t.addr)
    else
      match w.heap[t.addr]
      case Arr(elems) => Obj(t'.addr) in elems && t'.pos == Items(t.pos)
      case Rec(fields) => exists f :: f in Kept(fields) && f.val == Obj(t'.addr) && t'.pos == At(t.pos, f.key)
  }

  /** The sites hold whatever a walk from one of them can meet. */
  ghost predicate Roams(w: World, sites: iset<Site>) {
    forall t, t' | t in sites && Leads(w, t, t') :: t' in sites
  }

  /** The array lies above the arrays among its elements. */
  ghost predicate ArrayFalls(heap: Heap, height: map<Addr, nat>, a: Addr)
    requires a in heap
  {
    heap[a].Arr? ==>
      forall x | x in heap[a].elems && x.Obj? && x.addr in heap && heap[x.addr].Arr? ::
        a in height && x.addr in height && height[x.addr] < height[a]
  }

  /** Among the sites, no array of a schema-less region holds itself through arrays alone. */
  ghost predicate Sinks(w: World, sites: iset<Site>, height: map<Addr, nat>) {
    && Roams(w, sites)
    && forall t | t in sites && t.pos.None? && t.addr in w.heap :: ArrayFalls(w.heap, height, t.addr)
  }

  /** The value is at one of the sites, below the schema-less arrays that enclose it. */
  ghost predicate Met(heap: Heap, sites: iset<Site>, height: map<Addr, nat>, s: Position, v: Val, chain: set<Addr>) {
    v.Obj? && v.addr in heap ==>
      && Site(s, v.addr) in sites
      && (heap[v.addr].Arr? ==>
            forall b | b in chain :: b in height && v.addr in height && height[v.addr] < height[b])
  }

  ghost predicate ElemsMet(heap: Heap, sites: iset<Site>, height: map<Addr, nat>, s: Position, elems: seq<Val>,
                           chain: set<Addr>)
  {
    forall x | x in elems :: Met(heap, sites, height, s, x, chain)
  }

  ghost predicate FieldsMet(heap: Heap, sites: iset<Site>, height: map<Addr, nat>, s: Position, fields: seq<Field>) {
    forall f | f in fields :: Met(heap, sites, height, At(s, f.key), f.val, {})
  }

  ghost predicate BodyMet(w: World, sites: iset<Site>, id: Id, v: Val)
    requires id in w.reg
  {
    v.Obj? && v.addr in w.heap ==> Site(Some(w.reg[id].body), v.addr) in sites
  }

  lemma BodyIsMet(w: World, sites: iset<Site>, height: map<Addr, nat>, id: Id, v: Val)
    requires id in w.reg && BodyMet(w, sites, id, v)
    ensures Met(w.heap, sites, height, Some(w.reg[id].body), v, {})
  {
  }

  lemma BoundaryIsMet(w: World, sites: iset<Site>, height: map<Addr, nat>, s: Position, v: Val, chain: set<Addr>)
    requires Sinks(w, sites, height) && Met(w.heap, sites, height, s, v, chain)
    requires IsBoundary(s) && s.value.target in w.reg
    ensures BodyMet(w, sites, s.value.target, v)
  {
    if v.Obj? && v.addr in w.heap {
      assert Leads(w, Site(s, v.addr), Site(Some(w.reg[s.value.target].body), v.addr));
    }
  }

  lemma ElemsAreMet(w: World, sites: iset<Site>, height: map<Addr, nat>, s: Position, a: Addr, chain: set<Addr>)
    requires Sinks(w, sites, height) && Met(w.heap, sites, height, s, Obj(a), chain)
    requires !IsBoundary(s) && a in w.heap && w.heap[a].Arr?
    ensures a !in chain
    ensures ElemsMet(w.heap, sites, height, Items(s), w.heap[a].elems, if s.None? then chain + {a} else {})
  {
    var t := Site(s, a);
    forall x | x in w.heap[a].elems
      ensures Met(w.heap, sites, height, Items(s), x, if s.None? then chain + {a} else {})
    {
      if x.Obj? { assert Leads(w, t, Site(Items(s), x.addr)); }
    }
  }

  lemma FieldsAreMet(w: World, sites: iset<Site>, height: map<Addr, nat>, s: Position, a: Addr, chain: set<Addr>)
    requires Sinks(w, sites, height) && Met(w.heap, sites, height, s, Obj(a), chain)
    requires !IsBoundary(s) && a in w.heap && w.heap[a].Rec?
    ensures FieldsMet(w.heap, sites, height, s, Kept(w.heap[a].fields))
  {
    var t := Site(s, a);
    forall f | f in Kept(w.heap[a].fields) ensures Met(w.heap, sites, height, At(s, f.key), f.val, {}) {
      if f.val.Obj? { assert Leads(w, t, Site(At(s, f.key), f.val.addr)); }
    }
  }

  lemma {:induction false} DeclHalts(w: World, sites: iset<Site>, height: map<Addr, nat>, p: Trail, ids: map<Addr, nat>,
                                     id: Id, v: Val, viaRef: bool)
    requires w.Ok() && JsHeap(w.heap) && id in w.reg && InHeap(w.heap, v)
    requires Sinks(w, sites, height) && BodyMet(w, sites, id, v)
    ensures EncDecl(w, p, ids, id, v, viaRef) != Refused(StackExhausted)
    decreases Unentered(w, p), if v.Obj? then 1 else 0, w.heap.Keys - p.rawStack,
              if v.Obj? then 0 else w.rank[id], if v.Obj? then 0 else 2
  {
    hide JsHeap, Sinks, BodyMet, Met;
    var decl := w.reg[id];
    BodyIsMet(w, sites, height, id, v);
    if v.Prim? {
      ValHalts(w, sites, height, p.(pathDepth := p.pathDepth + 1), ids, Some(decl.body), v, {});
    } else {
      var pair := Pair(v.addr, id);
      if pair !in p.inflight {
        assert pair in Unentered(w, p);
        var ids' := if decl.Tracked() then ids[v.addr := |ids|] else ids;
        ValHalts(w, sites, height, EnterTrail(p, pair, viaRef, decl.Tracked()), ids', Some(decl.body), v, {});
      }
    }
  }

  lemma {:induction false} ValHalts(w: World, sites: iset<Site>, height: map<Addr, nat>, p: Trail, ids: map<Addr, nat>,
                                    s: Position, v: Val, chain: set<Addr>)
    requires w.Ok() && JsHeap(w.heap) && InHeap(w.heap, v)
    requires Sinks(w, sites, height) && Met(w.heap, sites, height, s, v, chain)
    ensures EncVal(w, p, ids, s, v, chain) != Refused(StackExhausted)
    decreases Unentered(w, p), if v.Obj? then 1 else 0, w.heap.Keys - p.rawStack,
              if v.Obj? || s.None? then 0 else Bound(w.rank, s.value), if s.Some? then 1 else 0,
              if s.Some? then s.value else Ref(""), if s.Some? then {} else w.heap.Keys - chain
  {
    hide JsHeap, Sinks, BodyMet, Met, ElemsMet, FieldsMet;
    if IsBoundary(s) {
      if s.value.target in w.reg {
        BoundaryIsMet(w, sites, height, s, v, chain);
        DeclHalts(w, sites, height, p, ids, s.value.target, v, s.value.Ref?);
      }
    } else if v.Obj? {
      var a := v.addr;
      assert forall x | x in w.heap[a].Vals() :: InHeap(w.heap, x);
      match w.heap[a]
      case Arr(elems) =>
        ElemsAreMet(w, sites, height, s, a, chain);
        ElemsHalt(w, sites, height, p.(rawDepth := p.rawDepth + 1), ids, s, elems, chain, a);
      case Rec(fields) =>
        if a !in p.rawStack {
          assert a in w.heap.Keys - p.rawStack;
          FieldsAreMet(w, sites, height, s, a, chain);
          var p' := p.(rawDepth := p.rawDepth + 1, rawStack := p.rawStack + {a});
          FieldsHalt(w, sites, height, p', ids, s, Kept(fields));
        }
    }
  }

  lemma {:induction false} ElemsHalt(w: World, sites: iset<Site>, height: map<Addr, nat>, p: Trail, ids: map<Addr, nat>,
                                     s: Position, elems: seq<Val>, chain: set<Addr>, a: Addr)
    requires w.Ok() && JsHeap(w.heap) && !IsBoundary(s)
    requires (forall v | v in elems :: InHeap(w.heap, v)) && a in w.heap && (s.None? ==> a !in chain)
    requires Sinks(w, sites, height)
    requires ElemsMet(w.heap, sites, height, Items(s), elems, if s.None? then chain + {a} else {})
    ensures EncElems(w, p, ids, s, elems, chain, a) != Refused(StackExhausted)
    decreases Unentered(w, p), 1, w.heap.Keys - p.rawStack, 0, if s.Some? then 1 else 0,
              if s.Some? then s.value else Ref(""), if s.Some? then {} else w.heap.Keys - chain, |elems|
  {
    hide JsHeap, Sinks, Met, EncVal;
    if elems != [] {
      assert s.None? ==> a in w.heap.Keys - chain;
      var chain' := if s.None? then chain + {a} else {};
      ValHalts(w, sites, height, p, ids, Items(s), elems[0], chain');
      var first := EncVal(w, p, ids, Items(s), elems[0], chain');
      if first.Enc? { ElemsHalt(w, sites, height, p, first.ids, s, elems[1..], chain, a); }
    }
  }

  lemma {:induction false} FieldsHalt(w: World, sites: iset<Site>, height: map<Addr, nat>, p: Trail,
                                      ids: map<Addr, nat>, s: Position, fields: seq<Field>)
    requires w.Ok() && JsHeap(w.heap) && forall f | f in fields :: InHeap(w.heap, f.val)
    requires Sinks(w, sites, height) && FieldsMet(w.heap, sites, height, s, fields)
    ensures EncFields(w, p, ids, s, fields) != Refused(StackExhausted)
    decreases Unentered(w, p), 1, w.heap.Keys - p.rawStack, 0, 2, |fields|
  {
    hide JsHeap, Sinks, Met, EncVal;
    if fields != [] {
      ValHalts(w, sites, height, p, ids, At(s, fields[0].key), fields[0].val, {});
      var first := EncVal(w, p, ids, At(s, fields[0].key), fields[0].val, {});
      if first.Enc? { FieldsHalt(w, sites, height, p, first.ids, s, fields[1..]); }
    }
  }

  /** The walk ends, in a result or in one of the source's own errors, if no array is reached in
      a schema-less region that holds itself through arrays alone. */
  lemma EncodingHalts(w: World, sites: iset<Site>, height: map<Addr, nat>, id: Id, v: Val)
    requires w.Ok() && JsHeap(w.heap) && id in w.reg && InHeap(w.heap, v)
    requires Sinks(w, sites, height) && BodyMet(w, sites, id, v)
    ensures Encode(w, id, v) != Refused(StackExhausted)
  {
    hide EncDecl, Sinks, BodyMet, JsHeap;
    DeclHalts(w, sites, height, ROOT, map[], id, v, false);
  }

  /** No loop of arrays alone, anywhere. */
  ghost predicate ArraysFall(heap: Heap, height: map<Addr, nat>) {
    forall a | a in heap :: ArrayFalls(heap, height, a)
  }

  ghost function AllSites(heap: Heap): iset<Site> { iset t: Site | t.addr in heap }

  /** In particular it ends from every root of a heap with no loop of arrays alone. */
  lemma EncodingHaltsEverywhere(w: World, height: map<Addr, nat>, id: Id, v: Val)
    requires w.Ok() && JsHeap(w.heap) && id in w.reg && InHeap(w.heap, v) && ArraysFall(w.heap, height)
    ensures Encode(w, id, v) != Refused(StackExhausted)
  {
    hide Encode, JsHeap;
    ArraysSink(w, height);
    EncodingHalts(w, AllSites(w.heap), height, id, v);
  }

  lemma ArraysSink(w: World, height: map<Addr, nat>)
    requires w.Ok() && ArraysFall(w.heap, height)
    ensures Sinks(w, AllSites(w.heap), height)
  {
    AllSitesRoam(w);
  }

  lemma AllSitesRoam(w: World)
    requires w.Ok()
    ensures Roams(w, AllSites(w.heap))
  {
    forall t, t' | Leads(w, t, t') ensures t' in AllSites(w.heap) { LeadsInside(w, t, t'); }
  }

  lemma LeadsInside(w: World, t: Site, t': Site)
    requires w.Ok() && Leads(w, t, t')
    ensures t'.addr in w.heap
  {
    if !IsBoundary(t.pos) { assert Obj(t'.addr) in w.heap[t.addr].Vals() && InHeap(w.heap, Obj(t'.addr)); }
  }

  /** The first object among the elements is a member of the ring, and what precedes it is written. */
  ghost predicate LeadsBack(ring: set<Addr>, elems: seq<Val>) {
    elems != [] &&
    match elems[0]
    case Obj(a) => a in ring
    case Prim(prim) => Writable(HeadPrim(prim)) && LeadsBack(ring, elems[1..])
  }

  /** The condition is needed: where no schema reaches, arrays that lead back to each other have no end. */
  lemma {:induction false} RingExhausts(w: World, ring: set<Addr>, p: Trail, ids: map<Addr, nat>, a: Addr,
                                        chain: set<Addr>)
    requires w.Ok() && JsHeap(w.heap) && a in ring
    requires forall b | b in ring :: b in w.heap && w.heap[b].Arr? && LeadsBack(ring, w.heap[b].elems)
    ensures EncVal(w, p, ids, None, Obj(a), chain) == Refused(StackExhausted)
    decreases w.heap.Keys - chain, 1, 0
  {
    hide JsHeap, EncElems, LeadsBack;
    assert forall x | x in w.heap[a].Vals() :: InHeap(w.heap, x);
    if a !in chain {
      RingElems(w, ring, p.(rawDepth := p.rawDepth + 1), ids, w.heap[a].elems, chain, a);
    }
  }

  lemma {:induction false} RingElems(w: World, ring: set<Addr>, p: Trail, ids: map<Addr, nat>, elems: seq<Val>,
                                     chain: set<Addr>, a: Addr)
    requires w.Ok() && JsHeap(w.heap) && a in w.heap && a !in chain && forall v | v in elems :: InHeap(w.heap, v)
    requires forall b | b in ring :: b in w.heap && w.heap[b].Arr? && LeadsBack(ring, w.heap[b].elems)
    requires LeadsBack(ring, elems)
    ensures EncElems(w, p, ids, None, elems, chain, a) == Refused(StackExhausted)
    decreases w.heap.Keys - chain, 0, |elems|
  {
    hide JsHeap, EncVal;
    assert a in w.heap.Keys - chain;
    match elems[0]
    case Obj(b) => RingExhausts(w, ring, p, ids, b, chain + {a});
    case Prim(prim) =>
      RingElems(w, ring, p, ids, elems[1..], chain, a);
      BarePrim(w, p, ids, prim, chain + {a});
  }

  lemma {:induction false} BarePrim(w: World, p: Trail, ids: map<Addr, nat>, prim: Prim, chain: set<Addr>)
    requires w.Ok() && JsHeap(w.heap) && Writable(HeadPrim(prim))
    ensures var e := EncVal(w, p, ids, None, Prim(prim), chain); e.Enc? && e.ids == ids
  {
  }
}
