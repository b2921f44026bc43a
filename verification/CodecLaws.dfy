/** What the encoder refuses, what the decoder rejects, and bytes written out for small graphs. */
module CodecLaws {
  import opened SchemaGraph
  import opened MsgPack
  import opened Codec
  import opened CodecReplay
  import opened EncodeSucceeds

  // ---------- Fields ----------

  lemma KeptAlone(f: Field)
    ensures Kept([f]) == if f.val == Prim(Undefined) then [] else [f]
  {
    assert [f][1..] == [];
  }

  lemma {:induction false} KeptStep(f: Field, rest: seq<Field>)
    ensures Kept([f] + rest) == Kept([f]) + Kept(rest)
  {
    KeptAlone(f);
    assert ([f] + rest)[1..] == rest;
  }

  /** The fields that are kept are those that are not `undefined`, in their order. */
  lemma {:induction false} KeptInOrder(fields: seq<Field>, more: seq<Field>)
    ensures Kept(fields + more) == Kept(fields) + Kept(more)
    decreases |fields|
  {
    if fields == [] {
      assert fields + more == more;
    } else {
      hide Kept;
      var f, rest := fields[0], fields[1..];
      calc {
        Kept(fields + more);
      == { assert fields + more == [f] + (rest + more); }
        Kept([f] + (rest + more));
      == { KeptStep(f, rest + more); }
        Kept([f]) + Kept(rest + more);
      == { KeptInOrder(rest, more); }
        Kept([f]) + (Kept(rest) + Kept(more));
      == { assert Kept([f]) + Kept(rest) + Kept(more) == Kept([f]) + (Kept(rest) + Kept(more)); }
        Kept([f]) + Kept(rest) + Kept(more);
      == { KeptStep(f, rest); assert fields == [f] + rest; }
        Kept(fields) + Kept(more);
      }
    }
  }

  /** A key that comes twice holds the value that came last, and no other key is touched. */
  lemma {:induction false} PutIsAssignment(fields: seq<Field>, k: Key, v: Val, k': Key)
    ensures Rec(Put(fields, k, v)).Get(k') == if k' == k then v else Rec(fields).Get(k')
    ensures |Put(fields, k, v)| == |fields| + if exists f :: f in fields && f.key == k then 0 else 1
    decreases |fields|
  {
    if fields != [] && fields[0].key != k {
      PutIsAssignment(fields[1..], k, v, k');
      assert Put(fields, k, v)[1..] == Put(fields[1..], k, v);
      assert forall f | f in fields :: f == fields[0] || f in fields[1..];
      assert forall f | f in fields[1..] :: f in fields;
    } else if fields != [] {
      assert fields[0] in fields && Put(fields, k, v)[1..] == fields[1..];
    }
  }

  // ---------- What the encoder refuses ----------

  /** An object that is met again inside itself, at the same declaration, is refused where that is
      acyclic, with or without `preserve`; so is one nested through `$ref` beyond the cap, which is 128
      where a declaration with references names none, unless it is written as a reference. */
  lemma {:induction false} EntriesRefused(w: World, p: Trail, ids: map<Addr, nat>, id: Id, a: Addr, viaRef: bool)
    requires w.Ok() && JsHeap(w.heap) && id in w.reg && a in w.heap
    ensures var decl, e := w.reg[id], EncDecl(w, p, ids, id, Obj(a), viaRef);
            && (decl.cyclic.Acyclic? && Pair(a, id) in p.inflight ==> e == Refused(CycleInAcyclic(id)))
            && (viaRef && Pair(a, id) !in p.inflight && !(decl.Tracked() && a in ids)
                && ((decl.depth.AtMost? && p.depths[id] >= decl.depth.cap)
                    || (decl.depth.DefaultDepth? && decl.hasRefs && p.depths[id] >= 128)) ==>
                  e == Refused(DepthExceeded(id)))
  {
    hide EncVal, JsHeap;
  }

  /** An object of a tracked declaration that has an index is written as that, unless the declaration
      is acyclic and the object encloses itself. */
  lemma {:induction false} EntriesReferred(w: World, p: Trail, ids: map<Addr, nat>, id: Id, a: Addr, viaRef: bool)
    requires w.Ok() && JsHeap(w.heap) && id in w.reg && a in w.heap && a in ids
    requires w.reg[id].cyclic != Acyclic || (w.reg[id].preserve && Pair(a, id) !in p.inflight)
    ensures var e := EncDecl(w, p, ids, id, Obj(a), viaRef); e.Enc? && e.bytes == WriteRef(ids[a]) && e.ids == ids
  {
    hide EncVal, JsHeap;
  }

  /** An object without a declaration that encloses itself is refused, and so are names without a
      declaration and integers of more than 64 bits. */
  lemma {:induction false} ValuesRefused(w: World, p: Trail, ids: map<Addr, nat>, s: Position, v: Val, chain: set<Addr>)
    requires w.Ok() && JsHeap(w.heap) && InHeap(w.heap, v)
    ensures var e := EncVal(w, p, ids, s, v, chain);
            && (!IsBoundary(s) && v.Obj? && w.heap[v.addr].Rec? && v.addr in p.rawStack ==>
                  e == Refused(CycleOutsideSchema))
            && (IsBoundary(s) && s.value.target !in w.reg ==> e == Refused(Unresolved(s.value.target)))
            && (!IsBoundary(s) && v.Prim? && v.prim.Big?
                && !(-9223372036854775808 <= v.prim.big <= 18446744073709551615) ==>
                  e == Refused(BigTooWide))
  {
    hide EncDecl, EncElems, EncFields, JsHeap;
  }

  // ---------- What the decoder rejects ----------

  /** A backreference is followed exactly where its declaration is tracked, its index is known, and an
      object that is still open may be referred to over the distance: never under an acyclic
      declaration, up to `x` entries back under `cyclic(x)`. */
  lemma ReferencesFollowed(decl: Decl, id: Id, p: Route, d: Progress, index: nat, rest: seq<Byte>)
    ensures var o := FollowRef(decl, id, p, d, index, rest);
            && (o.Dec? <==>
                  && (decl.cyclic != Acyclic || decl.preserve) && index < |d.objs|
                  && (index in p.open ==>
                        || decl.cyclic == AnyLength
                        || (decl.cyclic.UpTo? && p.pathDepth - d.objs[index].pathDepth <= decl.cyclic.hops)))
            && (o.Dec? ==> o.val == Obj(d.objs[index].addr) && o.at == d.(bs := rest))
            && (decl.cyclic == Acyclic && !decl.preserve ==> o == Failed(MisplacedRef, d.built))
            && (decl.cyclic != Acyclic && index >= |d.objs| ==> o == Failed(DanglingRef, d.built))
            && (decl.cyclic == Acyclic && decl.preserve && index < |d.objs| && index in p.open ==>
                  o == Failed(CycleNotAllowed(id), d.built))
            && (decl.cyclic.UpTo? && !o.Dec? && index < |d.objs| ==> o == Failed(CycleTooLong(id), d.built))
  {
  }

  // ---------- Small graphs, byte by byte ----------

  const NODE: Id := "T"
  const ANY := Node(Permissive, NoUnion, None, None, 0, None, NoProperties, [])
  const A: Key := [0x61]
  const N: Key := [0x6e]

  /** `T = { a: any, n: T }` */
  const RING :=
    Node(ObjectKind, NoUnion, None, None, 0, None, Properties([Property(A, ANY), Property(N, Ref(NODE))]), [])

  /** An object that is its own `n`, under the cyclic declaration. */
  function Ring(): World {
    World(map[NODE := Decl(RING, AnyLength, Unbounded, false, true)], map[0 := Rec([Field(N, Obj(0))])], map[NODE := 0])
  }

  lemma RingIsOk()
    ensures Ring().Ok() && JsHeap(Ring().heap)
  {
    assert forall x | x in Ring().heap[0].Vals() :: x == Obj(0);
  }

  lemma {:induction false} Entered(w: World, p: Trail, ids: map<Addr, nat>, id: Id, a: Addr, viaRef: bool)
    requires w.Ok() && JsHeap(w.heap) && id in w.reg && a in w.heap && a !in ids
    requires Pair(a, id) !in p.inflight && w.reg[id].Cap().None?
    ensures var tracked := w.reg[id].Tracked();
            var ids' := if tracked then ids[a := |ids|] else ids;
            EncDecl(w, p, ids, id, Obj(a), viaRef) ==
            EncVal(w, EnterTrail(p, Pair(a, id), viaRef, tracked), ids', Some(w.reg[id].body), Obj(a), {})
  {
    hide EncVal, JsHeap;
    assert Pair(a, id) in Unentered(w, p);
  }

  lemma {:induction false} ArrayWritten(w: World, p: Trail, ids: map<Addr, nat>, s: Schema, a: Addr, e: Encoded)
    requires w.Ok() && JsHeap(w.heap) && a in w.heap && w.heap[a].Arr? && s.Node? && p.rawDepth <= 1024
    requires forall v | v in w.heap[a].elems :: InHeap(w.heap, v)
    requires EncElems(w, p.(rawDepth := p.rawDepth + 1), ids, Some(s), w.heap[a].elems, {}, a) == e && e.Enc?
    ensures EncVal(w, p, ids, Some(s), Obj(a), {}) ==
            Enc(WriteHead(HeadArr(|w.heap[a].elems|)) + e.bytes, e.ids, e.shallow, e.licensed)
  {
    var _: Word32 := |w.heap[a].elems|;
    hide EncElems, JsHeap, WriteHead;
    assert WriteHead(HeadArr(|w.heap[a].elems|)) + [] == WriteHead(HeadArr(|w.heap[a].elems|));
  }

  lemma {:induction false} ObjectWritten(w: World, p: Trail, ids: map<Addr, nat>, s: Schema, a: Addr,
                                         fields: seq<Field>, e: Encoded)
    requires w.Ok() && JsHeap(w.heap) && a in w.heap && w.heap[a].Rec? && s.Node? && p.rawDepth <= 1024
    requires fields == Kept(w.heap[a].fields) && (forall f | f in fields :: InHeap(w.heap, f.val)) && a !in p.rawStack
    requires |fields| < 0x1_0000_0000
    requires EncFields(w, p.(rawDepth := p.rawDepth + 1, rawStack := p.rawStack + {a}), ids, Some(s), fields) == e
    requires e.Enc?
    ensures EncVal(w, p, ids, Some(s), Obj(a), {}) ==
            Enc(WriteHead(HeadMap(|fields|)) + e.bytes, e.ids, e.shallow, e.licensed)
  {
    hide EncFields, JsHeap, WriteHead, Kept;
    assert WriteHead(HeadMap(|fields|)) + [] == WriteHead(HeadMap(|fields|));
  }

  /** The ring through the second property is written as one object and a backreference. */
  lemma RingBytes()
    ensures Ring().Ok() && JsHeap(Ring().heap)
    ensures Encode(Ring(), NODE, Obj(0)) == Enc([0x81, 0xa1, 0x6e, 0xc7, 0x01, 0x50, 0x00], map[0 := 0], true, true)
  {
    RingIsOk();
    var w, f := Ring(), Field(N, Obj(0));
    var p := EnterTrail(ROOT, Pair(0, NODE), false, true);
    assert Kept([f]) == [f] by { assert [f][1..] == []; }
    assert w.heap[0] == Rec([f]) && w.reg[NODE].body == RING && w.reg[NODE].Tracked() && w.reg[NODE].Cap().None?;
    RingField(w, p.(rawDepth := 1, rawStack := p.rawStack + {0}));
    hide JsHeap, EncVal, EncFields, Kept, World.Ok, Ring, WriteStr, WriteRef, WriteHead;
    ObjectWritten(w, p, map[0 := 0], RING, 0, [f], Enc(WriteStr(N) + WriteRef(0), map[0 := 0], true, true));
    Entered(w, ROOT, map[], NODE, 0, false);
    RingTokens();
  }

  /** What is written decodes to a ring, whatever follows it. */
  lemma RingReturns(rest: seq<Byte>)
    ensures Ring().Ok() && JsHeap(Ring().heap) && RoundTrips(Ring(), NODE, Obj(0), rest)
  {
    hide RoundTrips, JsHeap;
    RingIsOk();
    var w, t := Ring(), Spot(Some(RING), 0, true);
    var g := Plan(iset{t}, map[0 := 0], {0}, true, 1, 0, 1);
    LandsHere(w.reg, NODE);
    assert forall s | HasField(Some(RING), N, s) :: s == Some(Ref(NODE)) by {
      assert RING.properties.list[1] == Property(N, Ref(NODE));
    }
    assert Enters(w, g, 0, true, Some(Ref(NODE)), Obj(0));
    assert PartsEnter(w, g, t) && Encodable(w, g) && Chain(w, NODE) == 1;
    assert Fits(w, g, NODE, 0);
    GraphRoundTrip(w, g, NODE, 0, rest);
  }

  lemma RingTokens()
    ensures WriteHead(HeadMap(1)) + (WriteStr(N) + WriteRef(0)) == [0x81, 0xa1, 0x6e, 0xc7, 0x01, 0x50, 0x00]
  {
    assert WriteStr(N) == [0xa1, 0x6e] && WriteRef(0) == [0xc7, 0x01, 0x50, 0x00] && WriteHead(HeadMap(1)) == [0x81];
  }

  lemma {:induction false} RingField(w: World, p: Trail)
    requires w == Ring() && w.Ok() && JsHeap(w.heap)
    ensures EncFields(w, p, map[0 := 0], Some(RING), [Field(N, Obj(0))]) ==
            Enc(WriteStr(N) + WriteRef(0), map[0 := 0], true, RefAllowed(w.reg[NODE], p, 0))
  {
    hide JsHeap, EncFields;
    assert RING.properties.list[1..] == [Property(N, Ref(NODE))] && At(Some(RING), N) == Some(Ref(NODE));
    assert EncVal(w, p, map[0 := 0], Some(Ref(NODE)), Obj(0), {}) == EncDecl(w, p, map[0 := 0], NODE, Obj(0), true);
    OneField(w, p, map[0 := 0], Some(RING), Field(N, Obj(0)),
             Enc(WriteRef(0), map[0 := 0], true, RefAllowed(w.reg[NODE], p, 0)));
  }

  /** Now the second graph: the root lists one object twice. */
  const SERIES := Node(ArrayKind, NoUnion, None, Some(Ref(NODE)), 0, None, NoProperties, [])
  const ROW := Node(ArrayKind, NoUnion, None, None, 0, None, NoProperties, [])
  const LIST: Id := "L"

  function Shared(preserve: bool): World {
    World(map[LIST := Decl(SERIES, Acyclic, Unbounded, false, true),
              NODE := Decl(ROW, Acyclic, Unbounded, preserve, true)],
          map[0 := Arr([Obj(1), Obj(1)]), 1 := Arr([])], map[LIST := 0, NODE := 0])
  }

  lemma SharedIsOk(preserve: bool)
    ensures Shared(preserve).Ok() && JsHeap(Shared(preserve).heap)
  {
    assert forall x | x in Shared(preserve).heap[0].Vals() :: x == Obj(1);
  }

  /** Identity is kept where the declaration says `preserve`; otherwise the object is written twice. */
  lemma SharedBytes(preserve: bool)
    ensures var w := Shared(preserve);
            && w.Ok() && JsHeap(w.heap)
            && var e := Encode(w, LIST, Obj(0));
               e.Enc? && e.bytes == [0x92, 0x90] + if preserve then [0xc7, 0x01, 0x50, 0x00] else [0x90]
  {
    SharedIsOk(preserve);
    var w := Shared(preserve);
    var p := EnterTrail(ROOT, Pair(0, LIST), false, false);
    var p' := p.(rawDepth := 1);
    var ids: map<Addr, nat> := if preserve then map[1 := 0] else map[];
    var second := if preserve then [0xc7, 0x01, 0x50, 0x00] else [0x90];
    RowWritten(w, p', map[], preserve);
    if preserve { RowReferred(w, p', ids); } else { RowWritten(w, p', ids, preserve); }
    hide JsHeap, EncVal, World.Ok;
    TwoElems(w, p', Some(SERIES), [Obj(1), Obj(1)], ids, second);
    hide EncElems;
    ArrayWritten(w, p, map[], SERIES, 0, Enc([0x90] + second, ids, true, true));
    Entered(w, ROOT, map[], LIST, 0, false);
    assert WriteHead(HeadArr(2)) == [0x92];
  }

  lemma {:induction false} RowReferred(w: World, p: Trail, ids: map<Addr, nat>)
    requires w == Shared(true) && w.Ok() && JsHeap(w.heap) && ids == map[1 := 0] && p.open == map[]
    requires Pair(1, NODE) !in p.inflight
    ensures EncVal(w, p, ids, Some(Ref(NODE)), Obj(1), {}) == Enc([0xc7, 0x01, 0x50, 0x00], ids, true, true)
  {
    hide JsHeap;
    assert WriteRef(0) == [0xc7, 0x01, 0x50, 0x00];
  }

  lemma {:induction false} RowWritten(w: World, p: Trail, ids: map<Addr, nat>, preserve: bool)
    requires w == Shared(preserve) && w.Ok() && JsHeap(w.heap) && Pair(1, NODE) !in p.inflight && ids == map[]
    requires p.rawDepth == 1
    ensures EncVal(w, p, ids, Some(Ref(NODE)), Obj(1), {}) ==
            Enc([0x90], if preserve then map[1 := 0] else map[], true, true)
  {
    var ids': map<Addr, nat> := if preserve then map[1 := 0] else map[];
    var p' := EnterTrail(p, Pair(1, NODE), true, preserve);
    hide JsHeap, World.Ok;
    assert EncElems(w, p'.(rawDepth := 2), ids', Some(ROW), [], {}, 1) == Enc([], ids', true, true);
    assert EncVal(w, p, ids, Some(Ref(NODE)), Obj(1), {}) == EncDecl(w, p, ids, NODE, Obj(1), true);
    hide EncElems, EncVal;
    ArrayWritten(w, p', ids', ROW, 1, Enc([], ids', true, true));
    Entered(w, p, ids, NODE, 1, true);
    assert WriteHead(HeadArr(0)) + [] == [0x90];
  }

  lemma {:induction false} TwoElems(w: World, p: Trail, s: Position, elems: seq<Val>, ids: map<Addr, nat>,
                                    last: seq<Byte>)
    requires w.Ok() && JsHeap(w.heap) && 0 in w.heap && s.Some? && !IsBoundary(s) && |elems| == 2
    requires forall v | v in elems :: InHeap(w.heap, v)
    requires EncVal(w, p, map[], Items(s), elems[0], {}) == Enc([0x90], ids, true, true)
    requires EncVal(w, p, ids, Items(s), elems[1], {}) == Enc(last, ids, true, true)
    ensures EncElems(w, p, map[], s, elems, {}, 0) == Enc([0x90] + last, ids, true, true)
  {
    hide EncVal, JsHeap;
    assert EncElems(w, p, ids, s, elems[1..][1..], {}, 0) == Enc([], ids, true, true);
    assert EncElems(w, p, ids, s, elems[1..], {}, 0) == Enc(last + [], ids, true, true);
    assert last + [] == last;
  }

  lemma {:induction false} OneField(w: World, p: Trail, ids: map<Addr, nat>, s: Position, f: Field, e: Encoded)
    requires w.Ok() && JsHeap(w.heap) && InHeap(w.heap, f.val) && e.Enc?
    requires EncVal(w, p, ids, At(s, f.key), f.val, {}) == e
    ensures EncFields(w, p, ids, s, [f]) == Enc(WriteStr(f.key) + e.bytes, e.ids, e.shallow, e.licensed)
  {
    hide EncVal, JsHeap;
    assert [f][1..] == [];
    assert EncFields(w, p, e.ids, s, []) == Enc([], e.ids, true, true);
    assert WriteStr(f.key) + e.bytes + [] == WriteStr(f.key) + e.bytes;
  }
}
