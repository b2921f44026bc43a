/** The main results about the codec. */
module CodecTheorems {
  import opened SchemaGraph
  import opened MsgPack
  import opened Codec
  import opened CodecReplay
  import opened EncodingHalts

  // ---------- Round trip ----------

  /** The decoded value is a replica of the encoded one: a bisimulation that drops `undefined`
      fields, in which every tracked object has one image wherever it is met. */
  ghost predicate Replica(w: World, id: Id, v: Val, o: Decoded, twins: set<Twin>, image: map<Addr, Addr>)
    requires o.Dec?
  {
    && Twinned(w, o.at.heap, twins, image)
    && Imaged(twins, image)
    && Same(w.reg, Some(Ref(id)), v, o.val, twins, image)
  }

  /** Whatever follows them, the encoded bytes decode exactly when no guard of the decoder's own
      trips; they are then consumed to the last byte, the two identity tables have the same
      size, and the decoded graph is a replica. */
  lemma RoundTrip(w: World, id: Id, v: Val, rest: seq<Byte>)
    requires w.Ok() && JsHeap(w.heap) && PlainAliases(w.reg) && id in w.reg && InHeap(w.heap, v)
    requires Encode(w, id, v).Enc?
    ensures var e := Encode(w, id, v);
            var o := Decode(w.reg, w.rank, id, e.bytes + rest);
            && (o.Dec? <==> e.shallow && e.licensed)
            && (o.Dec? ==>
                  && o.at.bs == rest && |o.at.objs| == |e.ids|
                  && exists twins, image :: Replica(w, id, v, o, twins, image))
  {
    hide EncDecl, DecDecl, SameCell, Same, InStep;
    var e := Encode(w, id, v);
    var d := Progress(e.bytes + rest, [], [], 0);
    StartAligned(w);
    var twins := DeclReplays(w, ROOT, map[], id, v, false, DEPARTURE, d, rest, {});
    var o := DecDecl(w.reg, w.rank, DEPARTURE, d, id, false);
    if o.Dec? {
      TableIsImage(w, e.ids, o.at.objs, o.at.heap, twins);
      assert Replica(w, id, v, o, twins, Image(e.ids, o.at.objs));
    }
  }

  lemma StartAligned(w: World)
    ensures Aligned(w, ROOT, map[], DEPARTURE, [], 0) && Covered(w, ROOT, map[], [], [], {})
  {
  }

  lemma TableIsImage(w: World, ids: map<Addr, nat>, objs: seq<Entry>, heap: seq<Cell>, twins: set<Twin>)
    requires InStep(w, ids, objs, |heap|) && Covered(w, ROOT, ids, objs, heap, twins)
    ensures |objs| == |ids| && Imaged(twins, Image(ids, objs))
  {
    hide Twinned;
  }

  // ---------- When the decoder's guards cannot trip ----------

  /** No depth cap, and every tracked declaration allows cycles of any length. */
  ghost predicate Liberal(reg: Registry) {
    forall id | id in reg ::
      reg[id].Cap().None? && (reg[id].Tracked() ==> reg[id].cyclic.AnyLength?)
  }

  ghost predicate Uncapped(reg: Registry) { forall id | id in reg :: reg[id].Cap().None? }

  /** A height that falls along every reference: the heap has no cycle. */
  ghost predicate AcyclicHeap(heap: Heap, height: map<Addr, nat>) {
    && height.Keys == heap.Keys
    && forall a, x | a in heap && x in heap[a].Vals() && x.Obj? && x.addr in heap :: height[x.addr] < height[a]
  }

  ghost predicate OpenAbove(height: map<Addr, nat>, p: Trail, b: Addr, strict: bool)
    requires b in height
  {
    forall a | a in p.open :: a in height && height[a] >= height[b] + if strict then 1 else 0
  }

  /** Either cycles are always allowed, or the open objects lie above the value. */
  ghost predicate Safe(w: World, height: map<Addr, nat>, p: Trail, v: Val, strict: bool) {
    || Liberal(w.reg)
    || (&& PlainAliases(w.reg) && AcyclicHeap(w.heap, height)
        && (v.Obj? && v.addr in height ==> OpenAbove(height, p, v.addr, strict)))
  }

  lemma SafeRelaxed(w: World, height: map<Addr, nat>, p: Trail, v: Val)
    requires Safe(w, height, p, v, true)
    ensures Safe(w, height, p, v, false)
  {
    hide AcyclicHeap, Liberal, PlainAliases;
  }

  /** The children of an object at the end of the path lie strictly below what is open. */
  lemma ChildSafe(w: World, height: map<Addr, nat>, p: Trail, a: Addr, x: Val, p': Trail)
    requires a in w.heap && x in w.heap[a].Vals() && Safe(w, height, p, Obj(a), false) && p'.open == p.open
    ensures Safe(w, height, p', x, true)
  {
  }

  /** An alias opens nothing, so that what is open still lies strictly above. */
  lemma EnterSafe(w: World, height: map<Addr, nat>, p: Trail, pair: Pair, viaRef: bool)
    requires Safe(w, height, p, Obj(pair.addr), true) && pair.addr in w.heap && pair.id in w.reg
    ensures var decl := w.reg[pair.id];
            Safe(w, height, EnterTrail(p, pair, viaRef, decl.Tracked()), Obj(pair.addr), IsBoundary(Some(decl.body)))
  {
  }

  lemma PrimSafe(w: World, height: map<Addr, nat>, p: Trail, v: Val, p': Trail, strict: bool)
    requires v.Prim? && Safe(w, height, p, v, true)
    ensures Safe(w, height, p', v, strict)
  {
  }

  lemma RefLicensed(w: World, height: map<Addr, nat>, p: Trail, id: Id, a: Addr)
    requires id in w.reg && a in w.heap && w.reg[id].Tracked() && Safe(w, height, p, Obj(a), true)
    ensures RefAllowed(w.reg[id], p, a)
  {
  }

  lemma {:induction false} DeclLicensed(w: World, height: map<Addr, nat>, p: Trail, ids: map<Addr, nat>, id: Id, v: Val,
                                        viaRef: bool)
    requires w.Ok() && JsHeap(w.heap) && id in w.reg && InHeap(w.heap, v)
    requires Uncapped(w.reg) && Safe(w, height, p, v, true)
    ensures var e := EncDecl(w, p, ids, id, v, viaRef); e.Enc? ==> e.licensed
    decreases Unentered(w, p), if v.Obj? then 1 else 0, w.heap.Keys - p.rawStack,
              if v.Obj? then 0 else w.rank[id], if v.Obj? then 0 else 2
  {
    var decl := w.reg[id];
    if v.Obj? && decl.Tracked() { RefLicensed(w, height, p, id, v.addr); }
    hide JsHeap, Safe, RefAllowed;
    if v.Prim? {
      PrimSafe(w, height, p, v, p.(pathDepth := p.pathDepth + 1), IsBoundary(Some(decl.body)));
      ValLicensed(w, height, p.(pathDepth := p.pathDepth + 1), ids, Some(decl.body), v, {});
    } else {
      var pair := Pair(v.addr, id);
      if !(decl.Tracked() && v.addr in ids) && pair !in p.inflight {
        assert pair in Unentered(w, p);
        var ids' := if decl.Tracked() then ids[v.addr := |ids|] else ids;
        EnterSafe(w, height, p, pair, viaRef);
        ValLicensed(w, height, EnterTrail(p, pair, viaRef, decl.Tracked()), ids', Some(decl.body), v, {});
      }
    }
  }

  lemma {:induction false} ValLicensed(w: World, height: map<Addr, nat>, p: Trail, ids: map<Addr, nat>, s: Position,
                                       v: Val, chain: set<Addr>)
    requires w.Ok() && JsHeap(w.heap) && InHeap(w.heap, v)
    requires Uncapped(w.reg) && Safe(w, height, p, v, IsBoundary(s))
    ensures var e := EncVal(w, p, ids, s, v, chain); e.Enc? ==> e.licensed
    decreases Unentered(w, p), if v.Obj? then 1 else 0, w.heap.Keys - p.rawStack,
              if v.Obj? || s.None? then 0 else Bound(w.rank, s.value), if s.Some? then 1 else 0,
              if s.Some? then s.value else Ref(""), if s.Some? then {} else w.heap.Keys - chain
  {
    hide JsHeap, Safe;
    if IsBoundary(s) {
      if s.value.target in w.reg { DeclLicensed(w, height, p, ids, s.value.target, v, s.value.Ref?); }
    } else if v.Obj? {
      var a := v.addr;
      assert forall x | x in w.heap[a].Vals() :: InHeap(w.heap, x);
      match w.heap[a]
      case Arr(elems) =>
        forall x | x in elems ensures Safe(w, height, p.(rawDepth := p.rawDepth + 1), x, true) {
          ChildSafe(w, height, p, a, x, p.(rawDepth := p.rawDepth + 1));
        }
        if !(s.None? && a in chain) {
          ElemsLicensed(w, height, p.(rawDepth := p.rawDepth + 1), ids, s, elems, chain, a);
        }
      case Rec(fields) =>
        if a !in p.rawStack {
          assert a in w.heap.Keys - p.rawStack;
          var p' := p.(rawDepth := p.rawDepth + 1, rawStack := p.rawStack + {a});
          forall f | f in Kept(fields) ensures Safe(w, height, p', f.val, true) {
            ChildSafe(w, height, p, a, f.val, p');
          }
          FieldsLicensed(w, height, p', ids, s, Kept(fields));
        }
    }
  }

  lemma {:induction false} ElemsLicensed(w: World, height: map<Addr, nat>, p: Trail, ids: map<Addr, nat>, s: Position,
                                         elems: seq<Val>, chain: set<Addr>, a: Addr)
    requires w.Ok() && JsHeap(w.heap) && !IsBoundary(s)
    requires (forall v | v in elems :: InHeap(w.heap, v)) && a in w.heap && (s.None? ==> a !in chain)
    requires Uncapped(w.reg) && forall v | v in elems :: Safe(w, height, p, v, true)
    ensures var e := EncElems(w, p, ids, s, elems, chain, a); e.Enc? ==> e.licensed
    decreases Unentered(w, p), 1, w.heap.Keys - p.rawStack, 0, if s.Some? then 1 else 0,
              if s.Some? then s.value else Ref(""), if s.Some? then {} else w.heap.Keys - chain, |elems|
  {
    hide JsHeap, EncVal, Safe;
    if elems != [] {
      assert s.None? ==> a in w.heap.Keys - chain;
      var chain' := if s.None? then chain + {a} else {};
      SafeRelaxed(w, height, p, elems[0]);
      ValLicensed(w, height, p, ids, Items(s), elems[0], chain');
      var first := EncVal(w, p, ids, Items(s), elems[0], chain');
      if first.Enc? { ElemsLicensed(w, height, p, first.ids, s, elems[1..], chain, a); }
    }
  }

  lemma {:induction false} FieldsLicensed(w: World, height: map<Addr, nat>, p: Trail, ids: map<Addr, nat>, s: Position,
                                          fields: seq<Field>)
    requires w.Ok() && JsHeap(w.heap) && forall f | f in fields :: InHeap(w.heap, f.val)
    requires Uncapped(w.reg) && forall f | f in fields :: Safe(w, height, p, f.val, true)
    ensures var e := EncFields(w, p, ids, s, fields); e.Enc? ==> e.licensed
    decreases Unentered(w, p), 1, w.heap.Keys - p.rawStack, 0, 2, |fields|
  {
    hide JsHeap, EncVal, Safe;
    if fields != [] {
      SafeRelaxed(w, height, p, fields[0].val);
      ValLicensed(w, height, p, ids, At(s, fields[0].key), fields[0].val, {});
      var first := EncVal(w, p, ids, At(s, fields[0].key), fields[0].val, {});
      if first.Enc? { FieldsLicensed(w, height, p, first.ids, s, fields[1..]); }
    }
  }

  /** Without depth caps, and with cycles allowed at any length or absent from the heap, only
      nesting beyond 1024 containers keeps the encoded bytes from decoding. */
  lemma RoundTripUncapped(w: World, id: Id, v: Val, rest: seq<Byte>, height: map<Addr, nat>)
    requires w.Ok() && JsHeap(w.heap) && PlainAliases(w.reg) && id in w.reg && InHeap(w.heap, v)
    requires Uncapped(w.reg) && (Liberal(w.reg) || AcyclicHeap(w.heap, height))
    requires Encode(w, id, v).Enc?
    ensures var e := Encode(w, id, v);
            Decode(w.reg, w.rank, id, e.bytes + rest).Dec? <==> e.shallow
  {
    hide EncDecl, DecDecl, AcyclicHeap;
    RoundTrip(w, id, v, rest);
    DeclLicensed(w, height, ROOT, map[], id, v, false);
  }

  // ---------- Loops that meet no tracked declaration ----------

  ghost predicate LeadsTo(s: Position, x: Val, sites: set<Site>) { x.Obj? && Site(s, x.addr) in sites }

  /** The walk of the site, which crosses no tracked declaration, comes to another of the sites. */
  ghost predicate StepsOn(w: World, t: Site, sites: set<Site>) {
    t.addr in w.heap &&
    if IsBoundary(t.pos) then
      var id := t.pos.value.target;
      id in w.reg && !w.reg[id].Tracked() && Site(Some(w.reg[id].body), t.addr) in sites
    else
      match w.heap[t.addr]
      case Arr(elems) => exists x :: x in elems && LeadsTo(Items(t.pos), x, sites)
      case Rec(fields) => exists f :: f in Kept(fields) && LeadsTo(At(t.pos, f.key), f.val, sites)
  }

  /** Every site leads to another. */
  ghost predicate Untracked(w: World, sites: set<Site>) { forall t | t in sites :: StepsOn(w, t, sites) }

  lemma {:induction false} SiteRefused(w: World, sites: set<Site>, p: Trail, ids: map<Addr, nat>, s: Position, a: Addr,
                                       chain: set<Addr>)
    requires w.Ok() && JsHeap(w.heap) && Untracked(w, sites) && Site(s, a) in sites
    ensures a in w.heap && EncVal(w, p, ids, s, Obj(a), chain).Refused?
    decreases Unentered(w, p), 1, w.heap.Keys - p.rawStack, 0, if s.Some? then 1 else 0,
              if s.Some? then s.value else Ref(""), if s.Some? then {} else w.heap.Keys - chain, 2
  {
    assert StepsOn(w, Site(s, a), sites);
    hide JsHeap, Untracked, EncDecl, EncElems, EncFields;
    if IsBoundary(s) {
      DeclRefused(w, sites, p, ids, s.value.target, a, s.value.Ref?);
    } else {
      NodeRefused(w, sites, p, ids, s, a, chain);
    }
  }

  lemma {:induction false} NodeRefused(w: World, sites: set<Site>, p: Trail, ids: map<Addr, nat>, s: Position, a: Addr,
                                       chain: set<Addr>)
    requires w.Ok() && JsHeap(w.heap) && Untracked(w, sites) && !IsBoundary(s) && StepsOn(w, Site(s, a), sites)
    ensures EncVal(w, p, ids, s, Obj(a), chain).Refused?
    decreases Unentered(w, p), 1, w.heap.Keys - p.rawStack, 0, if s.Some? then 1 else 0,
              if s.Some? then s.value else Ref(""), if s.Some? then {} else w.heap.Keys - chain, 1
  {
    hide JsHeap, LeadsTo, EncDecl, EncElems, EncFields, Untracked;
    assert forall x | x in w.heap[a].Vals() :: InHeap(w.heap, x);
    match w.heap[a]
    case Arr(elems) =>
      if !(s.None? && a in chain) {
        ElemsRefused(w, sites, p.(rawDepth := p.rawDepth + 1), ids, s, elems, chain, a);
      }
    case Rec(fields) =>
      if a !in p.rawStack {
        assert a in w.heap.Keys - p.rawStack;
        var p' := p.(rawDepth := p.rawDepth + 1, rawStack := p.rawStack + {a});
        FieldsRefused(w, sites, p', ids, s, Kept(fields));
      }
  }

  lemma {:induction false} DeclRefused(w: World, sites: set<Site>, p: Trail, ids: map<Addr, nat>, id: Id, a: Addr,
                                       viaRef: bool)
    requires w.Ok() && JsHeap(w.heap) && Untracked(w, sites) && id in w.reg && !w.reg[id].Tracked()
    requires a in w.heap && Site(Some(w.reg[id].body), a) in sites
    ensures EncDecl(w, p, ids, id, Obj(a), viaRef).Refused?
    decreases Unentered(w, p), 1, w.heap.Keys - p.rawStack, 0, 0
  {
    hide JsHeap, Untracked, EncVal;
    if Pair(a, id) !in p.inflight {
      assert Pair(a, id) in Unentered(w, p);
      SiteRefused(w, sites, EnterTrail(p, Pair(a, id), viaRef, false), ids, Some(w.reg[id].body), a, {});
    }
  }

  lemma {:induction false} ElemsRefused(w: World, sites: set<Site>, p: Trail, ids: map<Addr, nat>, s: Position,
                                        elems: seq<Val>, chain: set<Addr>, a: Addr)
    requires w.Ok() && JsHeap(w.heap) && Untracked(w, sites) && !IsBoundary(s)
    requires (forall v | v in elems :: InHeap(w.heap, v)) && a in w.heap && (s.None? ==> a !in chain)
    requires exists x :: x in elems && LeadsTo(Items(s), x, sites)
    ensures EncElems(w, p, ids, s, elems, chain, a).Refused?
    decreases Unentered(w, p), 1, w.heap.Keys - p.rawStack, 0, if s.Some? then 1 else 0,
              if s.Some? then s.value else Ref(""), if s.Some? then {} else w.heap.Keys - chain, 0, |elems|
  {
    hide JsHeap, Untracked, EncVal;
    assert s.None? ==> a in w.heap.Keys - chain;
    var chain' := if s.None? then chain + {a} else {};
    if LeadsTo(Items(s), elems[0], sites) {
      SiteRefused(w, sites, p, ids, Items(s), elems[0].addr, chain');
    } else {
      var first := EncVal(w, p, ids, Items(s), elems[0], chain');
      if first.Enc? { ElemsRefused(w, sites, p, first.ids, s, elems[1..], chain, a); }
    }
  }

  lemma {:induction false} FieldsRefused(w: World, sites: set<Site>, p: Trail, ids: map<Addr, nat>, s: Position,
                                         fields: seq<Field>)
    requires w.Ok() && JsHeap(w.heap) && Untracked(w, sites)
    requires forall f | f in fields :: InHeap(w.heap, f.val)
    requires exists f :: f in fields && LeadsTo(At(s, f.key), f.val, sites)
    ensures EncFields(w, p, ids, s, fields).Refused?
    decreases Unentered(w, p), 1, w.heap.Keys - p.rawStack, 0, 2, |fields|
  {
    hide JsHeap, Untracked, EncVal;
    var f := fields[0];
    if LeadsTo(At(s, f.key), f.val, sites) {
      SiteRefused(w, sites, p, ids, At(s, f.key), f.val.addr, {});
    } else {
      var first := EncVal(w, p, ids, At(s, f.key), f.val, {});
      if first.Enc? { FieldsRefused(w, sites, p, first.ids, s, fields[1..]); }
    }
  }

  // ---------- Bounds ----------

  /** On every byte string the decoder returns, having built no more values than it was given
      bytes. */
  lemma DecodeBounded(reg: Registry, rank: map<Id, nat>, id: Id, bs: seq<Byte>)
    requires Guarded(reg, rank) && id in reg && TrackedNodes(reg)
    ensures match Decode(reg, rank, id, bs)
            case Failed(_, built) => built <= |bs|
            case Dec(_, at) => |at.heap| <= at.built && at.built + |at.bs| <= |bs| && |at.bs| < |bs|
  {
    hide DecDecl;
  }
}
