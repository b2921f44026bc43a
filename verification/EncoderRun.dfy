/** The encoder as it runs: one context and one growing buffer, updated in place. */
module EncoderRun {
  import opened SchemaGraph
  import opened MsgPack
  import opened MsgBuffers
  import opened Codec
  import opened EncodingHalts

  ghost predicate DepthsAgree(depths: map<Id, nat>, counts: multiset<Id>) {
    forall id :: DepthOf(depths, id) == counts[id]
  }

  lemma DepthsEnter(depths: map<Id, nat>, counts: multiset<Id>, id: Id)
    requires DepthsAgree(depths, counts)
    ensures DepthOf(depths, id) == counts[id]
    ensures DepthsAgree(depths[id := DepthOf(depths, id) + 1], counts + multiset{id})
  {
  }

  lemma DepthsLeave(depths: map<Id, nat>, counts: multiset<Id>, id: Id)
    requires DepthsAgree(depths, counts + multiset{id})
    ensures DepthsAgree(depths[id := counts[id]], counts)
  {
    forall d ensures DepthOf(depths[id := counts[id]], d) == counts[d] {
      assert DepthOf(depths, d) == (counts + multiset{id})[d];
    }
  }

  lemma Appended(s: seq<Byte>, a: Byte, b: Byte, c: Byte, rest: seq<Byte>)
    ensures s + [a] + [b] + [c] + rest == s + ([a, b, c] + rest)
  {
  }

  lemma Joined(s: seq<Byte>, head: seq<Byte>, rest: seq<Byte>)
    ensures s + head + rest == s + (head + rest)
  {
  }

  class Encoder {
    const w: World
    const out: Writer
    // What the walk can meet, and why it comes to an end.
    ghost const sites: iset<Site>
    ghost const height: map<Addr, nat>
    var ids: map<Addr, nat>
    var nextId: nat
    var inflight: set<Pair>
    var depths: map<Id, nat>
    var rawStack: set<Addr>

    /** The fields are at the place `p` of the walk. */
    ghost predicate Place(p: Trail)
      reads this, out, out.buf
    {
      && w.Ok() && JsHeap(w.heap) && Sinks(w, sites, height) && out.Valid()
      && inflight == p.inflight && rawStack == p.rawStack && nextId == |ids|
      && DepthsAgree(depths, p.depths)
    }

    /** The call did what the specification says, and came back to where it started. */
    twostate predicate Did(p: Trail, e: Encoded, new err: Option<Refusal>)
      reads this, out, out.buf
    {
      && Place(p) && old(out.Valid())
      && (out.buf == old(out.buf) || fresh(out.buf))
      && match e
         case Refused(why) => err == Some(why)
         case Enc(bytes, ids', _, _) =>
           err == None && ids == ids' && out.data == old(out.data) + bytes
    }

    constructor (w: World, ghost sites: iset<Site>, ghost height: map<Addr, nat>)
      requires w.Ok() && JsHeap(w.heap) && Sinks(w, sites, height)
      ensures Place(ROOT) && this.w == w && this.sites == sites && this.height == height
      ensures ids == map[] && fresh(out) && fresh(out.buf) && out.data == []
    {
      this.w, this.sites, this.height := w, sites, height;
      out := new Writer();
      ids, nextId, inflight, depths, rawStack := map[], 0, {}, map[], {};
    }

    method WriteNumber(n: Int32)
      requires out.Valid()
      modifies out, out.buf
      ensures out.Valid() && out.data == old(out.data) + WriteNum(n)
      ensures out.buf == old(out.buf) || fresh(out.buf)
    {
      hide Writer.Valid, Be16, Be32;
      if n < 0 {
        WriteNegative(n);
      } else if n < 0x80 {
        out.U8(n);
      } else if n < 0x100 {
        out.U8(0xcc);
        out.U8(n);
      } else if n < 0x1_0000 {
        out.U8(0xcd);
        out.U16(n);
        assert out.data == old(out.data) + ([0xcd] + Be16(n));
      } else {
        out.U8(0xce);
        out.U32(n);
        assert out.data == old(out.data) + ([0xce] + Be32(n));
      }
    }

    method WriteNegative(n: Int32)
      requires out.Valid() && n < 0
      modifies out, out.buf
      ensures out.Valid() && out.data == old(out.data) + WriteNum(n)
      ensures out.buf == old(out.buf) || fresh(out.buf)
    {
      hide Writer.Valid, Be16, Be32;
      if n >= -32 {
        out.U8(0x100 + n);
      } else if n >= -128 {
        out.U8(0xd0);
        out.U8(0x100 + n);
      } else if n >= -32768 {
        out.U8(0xd1);
        out.U16(0x1_0000 + n);
        assert out.data == old(out.data) + ([0xd1] + Be16(0x1_0000 + n));
      } else {
        out.U8(0xd2);
        out.U32(0x1_0000_0000 + n);
        assert out.data == old(out.data) + ([0xd2] + Be32(0x1_0000_0000 + n));
      }
    }

    method WriteText(text: Text)
      requires out.Valid()
      modifies out, out.buf
      ensures out.Valid() && out.data == old(out.data) + WriteStr(text)
      ensures out.buf == old(out.buf) || fresh(out.buf)
    {
      hide Writer.Valid, StrHead;
      WriteLength(|text|);
      out.Raw(text);
      Joined(old(out.data), StrHead(|text|), text);
    }

    method WriteLength(n: Word32)
      requires out.Valid()
      modifies out, out.buf
      ensures out.Valid() && out.data == old(out.data) + StrHead(n)
      ensures out.buf == old(out.buf) || fresh(out.buf)
    {
      hide Writer.Valid, Be16, Be32;
      if n < 32 {
        out.U8(0xa0 + n);
      } else if n < 0x100 {
        out.U8(0xd9);
        out.U8(n);
        assert out.data == old(out.data) + [0xd9, n];
      } else if n < 0x1_0000 {
        out.U8(0xda);
        out.U16(n);
        assert out.data == old(out.data) + ([0xda] + Be16(n));
      } else {
        out.U8(0xdb);
        out.U32(n);
        assert out.data == old(out.data) + ([0xdb] + Be32(n));
      }
    }

    method WriteCount(fix: Byte, token16: Byte, token32: Byte, n: Word32)
      requires out.Valid() && fix <= 0xf0
      modifies out, out.buf
      ensures out.Valid() && out.data == old(out.data) + CountHead(fix, token16, token32, n)
      ensures out.buf == old(out.buf) || fresh(out.buf)
    {
      if n < 16 {
        out.U8(fix + n);
      } else if n < 0x1_0000 {
        out.U8(token16);
        out.U16(n);
      } else {
        out.U8(token32);
        out.U32(n);
      }
    }

    method WriteReference(n: nat)
      requires out.Valid()
      modifies out, out.buf
      ensures out.Valid() && out.data == old(out.data) + WriteRef(n)
      ensures out.buf == old(out.buf) || fresh(out.buf)
    {
      assert |WriteUint(n)| < 0x100;
      hide Writer.Valid, WriteUint;
      var payload := WriteUint(n);
      out.U8(0xc7);
      out.U8(|payload|);
      out.U8(0x50);
      out.Raw(payload);
      Appended(old(out.data), 0xc7, |payload|, 0x50, payload);
    }

    method WritePrim(prim: Prim) returns (err: Option<Refusal>)
      requires out.Valid()
      modifies out, out.buf
      ensures out.Valid() && (out.buf == old(out.buf) || fresh(out.buf))
      ensures err == if Writable(HeadPrim(prim)) then None else Some(BigTooWide)
      ensures err.None? ==> out.data == old(out.data) + WriteHead(HeadPrim(prim))
    {
      hide Writer.Valid, WriteNum, WriteStr, Be64;
      err := None;
      match prim
      case Undefined => out.U8(0xc0);
      case Null => out.U8(0xc0);
      case Bool(b) => out.U8(if b then 0xc3 else 0xc2);
      case Num(n) => WriteNumber(n);
      case Float(bits) =>
        out.U8(0xcb);
        out.Raw(bits);
        assert out.data == old(out.data) + ([0xcb] + bits);
      case Big(n) =>
        if n >= 0 {
          if n > 0xffff_ffff_ffff_ffff { return Some(BigTooWide); }
          out.U8(0xcf);
          out.U64(n);
          assert out.data == old(out.data) + ([0xcf] + Be64(n));
        } else {
          if n < -0x8000_0000_0000_0000 { return Some(BigTooWide); }
          out.U8(0xd3);
          out.U64(0x1_0000_0000_0000_0000 + n);
          assert out.data == old(out.data) + ([0xd3] + Be64(0x1_0000_0000_0000_0000 + n));
        }
      case Str(text) => WriteText(text);
    }

    /** Crosses a declaration boundary. */
    method EncodeDecl(ghost p: Trail, id: Id, v: Val, viaRef: bool) returns (err: Option<Refusal>)
      requires Place(p) && id in w.reg && InHeap(w.heap, v)
      requires BodyMet(w, sites, id, v)
      modifies this, out, out.buf
      ensures Did(p, EncDecl(w, p, old(ids), id, v, viaRef), err)
      decreases Unentered(w, p), if v.Obj? then 1 else 0, w.heap.Keys - p.rawStack,
                if v.Obj? then 0 else w.rank[id], if v.Obj? then 0 else 2
    {
      hide EncVal, JsHeap, DepthsAgree, WriteRef, Sinks, BodyMet, Met;
      BodyIsMet(w, sites, height, id, v);
      DepthsEnter(depths, p.depths, id);
      var decl := w.reg[id];
      if v.Prim? {
        err := EncodeVal(p.(pathDepth := p.pathDepth + 1), Some(decl.body), v, {});
        return;
      }
      var a, pair := v.addr, Pair(v.addr, id);
      if decl.Tracked() && a in ids {
        if decl.cyclic.Acyclic? && pair in inflight { return Some(CycleInAcyclic(id)); }
        WriteReference(ids[a]);
        return None;
      }
      if pair in inflight { return Some(CycleInAcyclic(id)); }
      if viaRef && decl.Capped(DepthOf(depths, id) + 1) { return Some(DepthExceeded(id)); }
      err := EncodeEntered(p, id, a, viaRef);
    }

    /** Registers the object, walks its body, and restores the path whatever the outcome. */
    method EncodeEntered(ghost p: Trail, id: Id, a: Addr, viaRef: bool) returns (err: Option<Refusal>)
      requires Place(p) && id in w.reg && a in w.heap
      requires BodyMet(w, sites, id, Obj(a))
      requires Pair(a, id) !in p.inflight && !(viaRef && w.reg[id].Capped(p.depths[id] + 1))
      requires !(w.reg[id].Tracked() && a in ids)
      modifies this, out, out.buf
      ensures Did(p, EncDecl(w, p, old(ids), id, Obj(a), viaRef), err)
      decreases Unentered(w, p), 1, w.heap.Keys - p.rawStack, 0, 0, 0
    {
      hide EncVal, EncDecl, World.Ok, JsHeap, DepthsAgree, Writer.Valid, Decl.Capped, Decl.Tracked, Sinks, BodyMet, Met;
      BodyIsMet(w, sites, height, id, Obj(a));
      DeclEncoding(w, p, ids, id, a, viaRef);
      var decl, pair := w.reg[id], Pair(a, id);
      assert pair in Unentered(w, p);
      var depth := Register(p, pair, viaRef);
      err := EncodeVal(EnterTrail(p, pair, viaRef, decl.Tracked()), Some(decl.body), Obj(a), {});
      Restore(p, pair, viaRef, depth);
    }

    /** What precedes the `try` block. */
    method Register(ghost p: Trail, pair: Pair, viaRef: bool) returns (depth: nat)
      requires Place(p) && pair.id in w.reg && pair.addr in w.heap && pair !in p.inflight
      requires !(w.reg[pair.id].Tracked() && pair.addr in ids)
      modifies this`inflight, this`depths, this`ids, this`nextId
      ensures Place(EnterTrail(p, pair, viaRef, w.reg[pair.id].Tracked())) && depth == p.depths[pair.id]
      ensures ids == if w.reg[pair.id].Tracked() then old(ids)[pair.addr := |old(ids)|] else old(ids)
    {
      hide World.Ok, JsHeap, Sinks, Writer.Valid, Decl.Tracked, DepthsAgree;
      DepthsEnter(depths, p.depths, pair.id);
      depth := DepthOf(depths, pair.id);
      if viaRef { depths := depths[pair.id := depth + 1]; }
      inflight := inflight + {pair};
      if w.reg[pair.id].Tracked() {
        ids := ids[pair.addr := nextId];
        nextId := nextId + 1;
      }
    }

    /** What the `finally` block undoes. */
    method Restore(ghost p: Trail, pair: Pair, viaRef: bool, depth: nat)
      requires pair !in p.inflight && inflight == p.inflight + {pair} && depth == p.depths[pair.id]
      requires DepthsAgree(depths, if viaRef then p.depths + multiset{pair.id} else p.depths)
      modifies this`inflight, this`depths
      ensures inflight == p.inflight && DepthsAgree(depths, p.depths)
    {
      hide DepthsAgree;
      inflight := inflight - {pair};
      if viaRef {
        DepthsLeave(depths, p.depths, pair.id);
        depths := depths[pair.id := depth];
      }
      assert inflight == p.inflight;
    }

    method EncodeVal(ghost p: Trail, s: Position, v: Val, ghost chain: set<Addr>) returns (err: Option<Refusal>)
      requires Place(p) && InHeap(w.heap, v)
      requires Met(w.heap, sites, height, s, v, chain)
      modifies this, out, out.buf
      ensures Did(p, EncVal(w, p, old(ids), s, v, chain), err)
      decreases Unentered(w, p), if v.Obj? then 1 else 0, w.heap.Keys - p.rawStack,
                if v.Obj? || s.None? then 0 else Bound(w.rank, s.value), if s.Some? then 1 else 0,
                if s.Some? then s.value else Ref(""), if s.Some? then {} else w.heap.Keys - chain
    {
      hide Sinks, BodyMet, Met;
      if IsBoundary(s) {
        if s.value.target !in w.reg { return Some(Unresolved(s.value.target)); }
        BoundaryIsMet(w, sites, height, s, v, chain);
        err := EncodeDecl(p, s.value.target, v, s.value.Ref?);
      } else if v.Prim? {
        err := WritePrim(v.prim);
      } else if w.heap[v.addr].Arr? {
        err := EncodeArray(p, s, v.addr, chain);
      } else {
        err := EncodeObject(p, s, v.addr, chain);
      }
    }

    method EncodeArray(ghost p: Trail, s: Position, a: Addr, ghost chain: set<Addr>) returns (err: Option<Refusal>)
      requires Place(p) && a in w.heap && w.heap[a].Arr? && !IsBoundary(s)
      requires Met(w.heap, sites, height, s, Obj(a), chain)
      modifies this, out, out.buf
      ensures Did(p, EncVal(w, p, old(ids), s, Obj(a), chain), err)
      decreases Unentered(w, p), 1, w.heap.Keys - p.rawStack, 0, if s.Some? then 1 else 0,
                if s.Some? then s.value else Ref(""), if s.Some? then {} else w.heap.Keys - chain, 1
    {
      hide EncVal, EncElems, JsHeap, Continues, CountHead, DepthsAgree, Sinks, Met, ElemsMet;
      ValHalts(w, sites, height, p, ids, s, Obj(a), chain);
      ElemsAreMet(w, sites, height, s, a, chain);
      ArrEncoding(w, p, ids, s, a, chain);
      var elems := w.heap[a].elems;
      ghost var p' := p.(rawDepth := p.rawDepth + 1);
      ghost var whole := EncElems(w, p', ids, s, elems, chain, a);
      Conclude(EncVal(w, p, ids, s, Obj(a), chain), CountHead(0x90, 0xdc, 0xdd, |elems|), whole);
      WriteCount(0x90, 0xdc, 0xdd, |elems|);
      err := EncodeElems(p', s, elems, chain, a);
      if err.None? { assert out.data == old(out.data) + (CountHead(0x90, 0xdc, 0xdd, |elems|) + whole.bytes); }
    }

    method EncodeElems(ghost p: Trail, s: Position, elems: seq<Val>, ghost chain: set<Addr>, ghost a: Addr)
      returns (err: Option<Refusal>)
      requires Place(p) && !IsBoundary(s) && (forall v | v in elems :: InHeap(w.heap, v))
      requires a in w.heap && (s.None? ==> a !in chain)
      requires ElemsMet(w.heap, sites, height, Items(s), elems, if s.None? then chain + {a} else {})
      modifies this, out, out.buf
      ensures Did(p, EncElems(w, p, old(ids), s, elems, chain, a), err)
      decreases Unentered(w, p), 1, w.heap.Keys - p.rawStack, 0, if s.Some? then 1 else 0,
                if s.Some? then s.value else Ref(""), if s.Some? then {} else w.heap.Keys - chain, 0
    {
      hide EncVal, EncElems, World.Ok, JsHeap, Continues, DepthsAgree, Writer.Valid, Bound, Sinks, Met;
      ElemsHalt(w, sites, height, p, ids, s, elems, chain, a);
      ghost var whole := EncElems(w, p, ids, s, elems, chain, a);
      ghost var sent: seq<Byte> := [];
      FirstElem(w, p, ids, s, elems, chain, a);
      assert s.None? ==> a in w.heap.Keys - chain;
      for i := 0 to |elems|
        invariant Place(p) && (out.buf == old(out.buf) || fresh(out.buf))
        invariant out.data == old(out.data) + sent
        invariant Continues(whole, sent, EncElems(w, p, ids, s, elems[i..], chain, a))
      {
        NextElem(w, p, ids, s, elems, i, chain, a, whole, sent);
        ghost var first := EncVal(w, p, ids, Items(s), elems[i], if s.None? then chain + {a} else {});
        err := EncodeVal(p, Items(s), elems[i], if s.None? then chain + {a} else {});
        if err.Some? { return; }
        sent := sent + first.bytes;
      }
      LastElem(w, p, ids, s, elems, chain, a, whole, sent);
      err := None;
    }

    method EncodeObject(ghost p: Trail, s: Position, a: Addr, ghost chain: set<Addr>) returns (err: Option<Refusal>)
      requires Place(p) && a in w.heap && w.heap[a].Rec? && !IsBoundary(s)
      requires Met(w.heap, sites, height, s, Obj(a), chain)
      modifies this, out, out.buf
      ensures Did(p, EncVal(w, p, old(ids), s, Obj(a), chain), err)
      decreases Unentered(w, p), 1, w.heap.Keys - p.rawStack, 0, if s.Some? then 1 else 0,
                if s.Some? then s.value else Ref(""), if s.Some? then {} else w.heap.Keys - chain, 1
    {
      hide EncVal, EncFields, JsHeap, Continues, Kept, CountHead, DepthsAgree, Sinks, Met, FieldsMet;
      ValHalts(w, sites, height, p, ids, s, Obj(a), chain);
      FieldsAreMet(w, sites, height, s, a, chain);
      if a in rawStack {
        RawCycle(w, p, ids, s, a, chain);
        return Some(CycleOutsideSchema);
      }
      var kept := KeptFields(w.heap[a].fields);
      RecEncoding(w, p, ids, s, a, chain);
      rawStack := rawStack + {a};
      WriteCount(0x80, 0xde, 0xdf, |kept|);
      ghost var p' := p.(rawDepth := p.rawDepth + 1, rawStack := p.rawStack + {a});
      ghost var whole := EncFields(w, p', ids, s, kept);
      Conclude(EncVal(w, p, ids, s, Obj(a), chain), CountHead(0x80, 0xde, 0xdf, |kept|), whole);
      assert a in w.heap.Keys - p.rawStack;
      err := EncodeFields(p', s, kept);
      rawStack := rawStack - {a};
      if err.None? { assert out.data == old(out.data) + (CountHead(0x80, 0xde, 0xdf, |kept|) + whole.bytes); }
    }

    method EncodeFields(ghost p: Trail, s: Position, kept: seq<Field>) returns (err: Option<Refusal>)
      requires Place(p) && (forall f | f in kept :: InHeap(w.heap, f.val))
      requires FieldsMet(w.heap, sites, height, s, kept)
      modifies this, out, out.buf
      ensures Did(p, EncFields(w, p, old(ids), s, kept), err)
      decreases Unentered(w, p), 1, w.heap.Keys - p.rawStack, 0, 2
    {
      hide EncVal, EncFields, World.Ok, JsHeap, Continues, DepthsAgree, Writer.Valid, WriteStr, Sinks, Met;
      FieldsHalt(w, sites, height, p, ids, s, kept);
      ghost var whole := EncFields(w, p, ids, s, kept);
      ghost var sent: seq<Byte> := [];
      FirstField(w, p, ids, s, kept);
      for i := 0 to |kept|
        invariant Place(p) && (out.buf == old(out.buf) || fresh(out.buf))
        invariant out.data == old(out.data) + sent
        invariant Continues(whole, sent, EncFields(w, p, ids, s, kept[i..]))
      {
        var f := kept[i];
        NextField(w, p, ids, s, kept, i, whole, sent);
        WriteText(f.key);
        ghost var first := EncVal(w, p, ids, At(s, f.key), f.val, {});
        err := EncodeVal(p, At(s, f.key), f.val, {});
        if err.Some? { return; }
        sent := sent + WriteStr(f.key) + first.bytes;
      }
      LastField(w, p, ids, s, kept, whole, sent);
      err := None;
    }
  }

  lemma {:induction false} FirstElem(w: World, p: Trail, ids: map<Addr, nat>, s: Position, elems: seq<Val>,
                                     chain: set<Addr>, a: Addr)
    requires w.Ok() && JsHeap(w.heap) && !IsBoundary(s)
    requires (forall v | v in elems :: InHeap(w.heap, v)) && a in w.heap && (s.None? ==> a !in chain)
    ensures var whole := EncElems(w, p, ids, s, elems, chain, a); elems[0..] == elems && Continues(whole, [], whole)
  {
    hide EncElems;
    var whole := EncElems(w, p, ids, s, elems, chain, a);
    if whole.Enc? { assert [] + whole.bytes == whole.bytes; }
  }

  lemma {:induction false} FirstField(w: World, p: Trail, ids: map<Addr, nat>, s: Position, kept: seq<Field>)
    requires w.Ok() && JsHeap(w.heap) && forall f | f in kept :: InHeap(w.heap, f.val)
    ensures kept[0..] == kept && Continues(EncFields(w, p, ids, s, kept), [], EncFields(w, p, ids, s, kept))
  {
    hide EncFields;
    var whole := EncFields(w, p, ids, s, kept);
    if whole.Enc? { assert [] + whole.bytes == whole.bytes; }
  }

  method KeptFields(fields: seq<Field>) returns (kept: seq<Field>)
    ensures kept == Kept(fields)
  {
    hide Kept;
    kept := [];
    assert fields[0..] == fields;
    for i := 0 to |fields|
      invariant kept + Kept(fields[i..]) == Kept(fields)
    {
      KeptStep(fields, i);
      if fields[i].val != Prim(Undefined) { kept := kept + [fields[i]]; }
    }
    assert fields[|fields|..] == [] && |Kept([])| == 0;
  }

  lemma KeptStep(fields: seq<Field>, i: nat)
    requires i < |fields|
    ensures Kept(fields[i..]) == (if fields[i].val == Prim(Undefined) then [] else [fields[i]]) + Kept(fields[i + 1..])
  {
    assert fields[i..][0] == fields[i] && fields[i..][1..] == fields[i + 1..];
  }

  lemma {:induction false} DeclEncoding(w: World, p: Trail, ids: map<Addr, nat>, id: Id, a: Addr, viaRef: bool)
    requires w.Ok() && JsHeap(w.heap) && id in w.reg && a in w.heap
    requires Pair(a, id) !in p.inflight && !(viaRef && w.reg[id].Capped(p.depths[id] + 1))
    requires !(w.reg[id].Tracked() && a in ids)
    ensures var tracked := w.reg[id].Tracked();
            EncDecl(w, p, ids, id, Obj(a), viaRef) ==
            EncVal(w, EnterTrail(p, Pair(a, id), viaRef, tracked), if tracked then ids[a := |ids|] else ids,
                   Some(w.reg[id].body), Obj(a), {})
  {
    hide EncVal, JsHeap;
    assert Pair(a, id) in Unentered(w, p);
  }

  lemma {:induction false} RawCycle(w: World, p: Trail, ids: map<Addr, nat>, s: Position, a: Addr, chain: set<Addr>)
    requires w.Ok() && JsHeap(w.heap) && a in w.heap && w.heap[a].Rec? && !IsBoundary(s) && a in p.rawStack
    ensures EncVal(w, p, ids, s, Obj(a), chain) == Refused(CycleOutsideSchema)
  {
  }

  lemma Conclude(outer: Encoded, head: seq<Byte>, whole: Encoded)
    requires Continues(outer, head, whole)
    ensures match whole
            case Refused(why) => outer == Refused(why)
            case Enc(bytes, ids, _, _) => outer.Enc? && outer.ids == ids && outer.bytes == head + bytes
  {
  }

  lemma {:induction false} ArrEncoding(w: World, p: Trail, ids: map<Addr, nat>, s: Position, a: Addr, chain: set<Addr>)
    requires w.Ok() && JsHeap(w.heap) && a in w.heap && w.heap[a].Arr? && !IsBoundary(s)
    requires EncVal(w, p, ids, s, Obj(a), chain) != Refused(StackExhausted)
    ensures var elems := w.heap[a].elems;
            && |elems| < 0x1_0000_0000 && (forall x | x in elems :: InHeap(w.heap, x)) && (s.None? ==> a !in chain)
            && EncElems(w, p.(rawDepth := p.rawDepth + 1), ids, s, elems, chain, a) != Refused(StackExhausted)
            && Continues(EncVal(w, p, ids, s, Obj(a), chain), CountHead(0x90, 0xdc, 0xdd, |elems|),
                         EncElems(w, p.(rawDepth := p.rawDepth + 1), ids, s, elems, chain, a))
  {
    hide EncElems, CountHead;
    assert forall x | x in w.heap[a].elems :: x in w.heap[a].Vals();
  }

  lemma {:induction false} RecEncoding(w: World, p: Trail, ids: map<Addr, nat>, s: Position, a: Addr, chain: set<Addr>)
    requires w.Ok() && JsHeap(w.heap) && a in w.heap && w.heap[a].Rec? && !IsBoundary(s) && a !in p.rawStack
    requires EncVal(w, p, ids, s, Obj(a), chain) != Refused(StackExhausted)
    ensures var kept := Kept(w.heap[a].fields);
            && |kept| < 0x1_0000_0000 && (forall f | f in kept :: InHeap(w.heap, f.val))
            && var e := EncFields(w, p.(rawDepth := p.rawDepth + 1, rawStack := p.rawStack + {a}), ids, s, kept);
               && e != Refused(StackExhausted)
               && Continues(EncVal(w, p, ids, s, Obj(a), chain), CountHead(0x80, 0xde, 0xdf, |kept|), e)
  {
    hide EncFields, CountHead;
    var kept := Kept(w.heap[a].fields);
    assert forall x | x in w.heap[a].Vals() :: InHeap(w.heap, x);
    assert a in w.heap.Keys - p.rawStack;
  }

  lemma {:induction false} NextElem(w: World, p: Trail, ids: map<Addr, nat>, s: Position, elems: seq<Val>, i: nat,
                                    chain: set<Addr>, a: Addr, whole: Encoded, sent: seq<Byte>)
    requires w.Ok() && JsHeap(w.heap) && !IsBoundary(s) && i < |elems|
    requires (forall v | v in elems :: InHeap(w.heap, v)) && a in w.heap && (s.None? ==> a !in chain)
    requires Continues(whole, sent, EncElems(w, p, ids, s, elems[i..], chain, a)) && whole != Refused(StackExhausted)
    ensures var first := EncVal(w, p, ids, Items(s), elems[i], if s.None? then chain + {a} else {});
            match first
            case Refused(why) => whole == first && why != StackExhausted
            case Enc(bytes, ids', _, _) =>
              Continues(whole, sent + bytes, EncElems(w, p, ids', s, elems[i + 1..], chain, a))
  {
    assert elems[i..][0] == elems[i] && elems[i..][1..] == elems[i + 1..];
    assert s.None? ==> a in w.heap.Keys - chain;
    var first := EncVal(w, p, ids, Items(s), elems[i], if s.None? then chain + {a} else {});
    if first.Enc? {
      var rest := EncElems(w, p, first.ids, s, elems[i + 1..], chain, a);
      if rest.Enc? { assert sent + (first.bytes + [] + rest.bytes) == sent + first.bytes + rest.bytes; }
    }
  }

  lemma {:induction false} LastElem(w: World, p: Trail, ids: map<Addr, nat>, s: Position, elems: seq<Val>,
                                    chain: set<Addr>, a: Addr, whole: Encoded, sent: seq<Byte>)
    requires w.Ok() && JsHeap(w.heap) && !IsBoundary(s)
    requires (forall v | v in elems :: InHeap(w.heap, v)) && a in w.heap && (s.None? ==> a !in chain)
    requires Continues(whole, sent, EncElems(w, p, ids, s, elems[|elems|..], chain, a))
    ensures whole.Enc? && whole.ids == ids && whole.bytes == sent
  {
    assert elems[|elems|..] == [] && sent + [] == sent;
  }

  lemma {:induction false} NextField(w: World, p: Trail, ids: map<Addr, nat>, s: Position, fields: seq<Field>, i: nat,
                                     whole: Encoded, sent: seq<Byte>)
    requires w.Ok() && JsHeap(w.heap) && i < |fields| && forall f | f in fields :: InHeap(w.heap, f.val)
    requires Continues(whole, sent, EncFields(w, p, ids, s, fields[i..])) && whole != Refused(StackExhausted)
    ensures var first := EncVal(w, p, ids, At(s, fields[i].key), fields[i].val, {});
            match first
            case Refused(why) => whole == first && why != StackExhausted
            case Enc(bytes, ids', _, _) =>
              Continues(whole, sent + WriteStr(fields[i].key) + bytes, EncFields(w, p, ids', s, fields[i + 1..]))
  {
    hide WriteStr;
    assert fields[i..][0] == fields[i] && fields[i..][1..] == fields[i + 1..];
    var first := EncVal(w, p, ids, At(s, fields[i].key), fields[i].val, {});
    if first.Enc? {
      var rest := EncFields(w, p, first.ids, s, fields[i + 1..]);
      var k := WriteStr(fields[i].key);
      if rest.Enc? { assert sent + (k + first.bytes + [] + rest.bytes) == sent + k + first.bytes + rest.bytes; }
    }
  }

  lemma {:induction false} LastField(w: World, p: Trail, ids: map<Addr, nat>, s: Position, fields: seq<Field>,
                                     whole: Encoded, sent: seq<Byte>)
    requires w.Ok() && JsHeap(w.heap) && forall f | f in fields :: InHeap(w.heap, f.val)
    requires Continues(whole, sent, EncFields(w, p, ids, s, fields[|fields|..]))
    ensures whole.Enc? && whole.ids == ids && whole.bytes == sent
  {
    assert fields[|fields|..] == [] && sent + [] == sent;
  }

  /** `encode`, where no array of a schema-less region holds itself through arrays alone. */
  method RunEncode(w: World, id: Id, v: Val, ghost sites: iset<Site>, ghost height: map<Addr, nat>)
    returns (r: Option<seq<Byte>>, err: Option<Refusal>)
    requires w.Ok() && JsHeap(w.heap) && id in w.reg && InHeap(w.heap, v)
    requires Sinks(w, sites, height) && BodyMet(w, sites, id, v)
    ensures match Encode(w, id, v)
            case Enc(bytes, _, _, _) => r == Some(bytes)
            case Refused(why) => r == None && err == Some(why)
  {
    hide Sinks, BodyMet;
    var e := new Encoder(w, sites, height);
    err := e.EncodeDecl(ROOT, id, v, false);
    if err.Some? { return None, err; }
    assert [] + Encode(w, id, v).bytes == Encode(w, id, v).bytes;
    r := Some(e.out.buf[..e.out.len]);
  }

  /** The rest of a list encodes as `rest` once `sent` has been written. */
  ghost predicate Continues(whole: Encoded, sent: seq<Byte>, rest: Encoded) {
    match rest
    case Refused(why) => whole == Refused(why)
    case Enc(bytes, ids, _, _) => whole.Enc? && whole.ids == ids && whole.bytes == sent + bytes
  }
}
