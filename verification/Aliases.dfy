/** Declarations whose body is just another declaration.  Untracked aliases of untracked
    declarations are harmless: `RoundTrip` covers them.  These are the others. */
module Aliases {
  import opened SchemaGraph
  import opened MsgPack
  import opened Codec
  import opened CodecReplay
  import opened CodecTheorems

  /** The body of the declaration is the declaration `inner`. */
  predicate AliasOf(reg: Registry, id: Id, inner: Id) {
    id in reg && inner in reg && !reg[id].body.Node? && reg[id].body.target == inner
  }

  // ---------- A tracked alias of a tracked declaration ----------

  /** It never round-trips an object: the encoder registers the object twice, and writes a reference
      to itself, which the decoder meets before it has registered anything. */
  lemma AliasNeverDecodes(w: World, id: Id, inner: Id, a: Addr, rest: seq<Byte>)
    requires w.Ok() && JsHeap(w.heap) && AliasOf(w.reg, id, inner) && a in w.heap
    requires w.reg[id].Tracked() && w.reg[inner].Tracked()
    ensures var e := Encode(w, id, Obj(a));
            && e.Enc? && e.bytes == WriteRef(0) && e.shallow && (w.reg[inner].cyclic.AnyLength? ==> e.licensed)
            && Decode(w.reg, w.rank, id, e.bytes + rest) == Failed(DanglingRef, 0)
  {
    hide JsHeap, MaybeRef, WriteRef, RefAllowed;
    var pair := Pair(a, id);
    assert pair in Unentered(w, ROOT);
    assert inner != id by { assert Bound(w.rank, w.reg[id].body) <= w.rank[id]; }
    var p := EnterTrail(ROOT, pair, false, true);
    var ids := map[a := 0];
    var body := w.reg[id].body;
    var e := Enc(WriteRef(0), ids, true, RefAllowed(w.reg[inner], p, a));
    assert EncDecl(w, p, ids, inner, Obj(a), body.Ref?) == e;
    assert EncVal(w, p, ids, Some(body), Obj(a), {}) == e;
    if w.reg[inner].cyclic.AnyLength? { LicensedAnyLength(w.reg[inner], p, a); }
    RefBack(0, rest);
  }

  lemma LicensedAnyLength(decl: Decl, p: Trail, a: Addr)
    requires decl.cyclic.AnyLength?
    ensures RefAllowed(decl, p, a)
  {
  }

  // ---------- An untracked alias of a tracked declaration ----------

  /** When the object has been written before, the encoder writes a reference where the decoder
      takes none. */
  lemma {:induction false} AliasRefusesReference(w: World, p: Trail, ids: map<Addr, nat>, id: Id, inner: Id, a: Addr,
                                                 viaRef: bool, q: Route, d: Progress, rest: seq<Byte>)
    requires w.Ok() && JsHeap(w.heap) && AliasOf(w.reg, id, inner) && a in w.heap && q.rawDepth <= NEST_LIMIT + 1
    requires !w.reg[id].Tracked() && w.reg[inner].Tracked() && a in ids && ids[a] < 0x1_0000_0000
    requires Pair(a, id) !in p.inflight && !(viaRef && w.reg[id].Capped(p.depths[id] + 1))
    requires w.reg[inner].cyclic.Acyclic? ==> Pair(a, inner) !in p.inflight
    requires d.bs == WriteRef(ids[a]) + rest
    ensures var e := EncDecl(w, p, ids, id, Obj(a), viaRef); e.Enc? && e.bytes == WriteRef(ids[a]) && e.ids == ids
    ensures DecDecl(w.reg, w.rank, q, d, id, viaRef) == Failed(MisplacedRef, d.built)
  {
    hide JsHeap, MaybeRef, WriteRef, RefAllowed;
    assert Pair(a, id) in Unentered(w, p);
    assert inner != id by { assert Bound(w.rank, w.reg[id].body) <= w.rank[id]; }
    var p', body := EnterTrail(p, Pair(a, id), viaRef, false), w.reg[id].body;
    var e := Enc(WriteRef(ids[a]), ids, true, RefAllowed(w.reg[inner], p', a));
    assert EncDecl(w, p', ids, inner, Obj(a), body.Ref?) == e;
    assert EncVal(w, p', ids, Some(body), Obj(a), {}) == e;
    RefBack(ids[a], rest);
  }

  // ---------- A tracked alias of any declaration ----------

  lemma {:induction false} ElemsReturn(reg: Registry, rank: map<Id, nat>, p: Route, d: Progress, s: Position, n: nat,
                                       a: Addr)
    requires Guarded(reg, rank) && p.rawDepth <= NEST_LIMIT + 1 && a < |d.heap| && d.heap[a].Arr?
    ensures var o := DecElems(reg, rank, p, d, s, n, a); o.Dec? ==> o.val == Obj(a)
    decreases n
  {
    hide DecVal, Guarded, Bounded;
    if n > 0 {
      var first := DecVal(reg, rank, p, d, Items(s), None);
      if first.Dec? {
        var cell := Arr(first.at.heap[a].elems + [first.val]);
        ElemsReturn(reg, rank, p, first.at.(heap := first.at.heap[a := cell]), s, n - 1, a);
      }
    }
  }

  lemma {:induction false} FieldsReturn(reg: Registry, rank: map<Id, nat>, p: Route, d: Progress, s: Position, n: nat,
                                        a: Addr)
    requires Guarded(reg, rank) && p.rawDepth <= NEST_LIMIT + 1 && a < |d.heap| && d.heap[a].Rec?
    ensures var o := DecFields(reg, rank, p, d, s, n, a); o.Dec? ==> o.val == Obj(a)
    decreases n
  {
    hide DecVal, Guarded, Bounded, Put, ReadKey;
    if n > 0 && ReadKey(d.bs).Got? {
      var key, rest := ReadKey(d.bs).val, ReadKey(d.bs).rest;
      var first := DecVal(reg, rank, p, d.(bs := rest), At(s, key), None);
      if first.Dec? {
        var cell := Rec(Put(first.at.heap[a].fields, key, first.val));
        FieldsReturn(reg, rank, p, first.at.(heap := first.at.heap[a := cell]), s, n - 1, a);
      }
    }
  }

  /** A container that starts here is a new cell. */
  lemma {:induction false} NewAtDecl(reg: Registry, rank: map<Id, nat>, p: Route, d: Progress, id: Id, viaRef: bool)
    requires Guarded(reg, rank) && id in reg && p.rawDepth <= NEST_LIMIT + 1
    requires MaybeRef(d.bs) == NoRef && (IsArrToken(d.bs[0]) || IsMapToken(d.bs[0]))
    ensures var o := DecDecl(reg, rank, p, d, id, viaRef); o.Dec? ==> o.val.Obj? && o.val.addr >= |d.heap|
    decreases rank[id], 1
  {
    hide MaybeRef, DecVal;
    var b := d.bs[0];
    if reg[id].Tracked() {
      NewAtVal(reg, rank, EnterRoute(p, id, viaRef).(open := p.open + {|d.objs|}),
               Register(d, IsArrToken(b), p.pathDepth), Some(reg[id].body), Some(|d.heap|), |d.heap|);
    } else {
      NewAtVal(reg, rank, EnterRoute(p, id, viaRef), d, Some(reg[id].body), None, |d.heap|);
    }
  }

  lemma {:induction false} NewAtVal(reg: Registry, rank: map<Id, nat>, p: Route, d: Progress, s: Position,
                                    shell: Option<Addr>, limit: nat)
    requires Guarded(reg, rank) && p.rawDepth <= NEST_LIMIT + 1
    requires MaybeRef(d.bs) == NoRef && (IsArrToken(d.bs[0]) || IsMapToken(d.bs[0]))
    requires shell.Some? ==>
               && limit <= shell.value < |d.heap| && d.bs != []
               && (if d.heap[shell.value].Arr? then IsArrToken(d.bs[0]) else IsMapToken(d.bs[0]))
    requires limit <= |d.heap|
    ensures var o := DecVal(reg, rank, p, d, s, shell); o.Dec? ==> o.val.Obj? && o.val.addr >= limit
    decreases if s.Some? then Bound(rank, s.value) else 0, 0
  {
    hide MaybeRef, DecDecl, DecFill, ReadHead;
    if IsBoundary(s) {
      if s.value.target in reg { NewAtDecl(reg, rank, p, d, s.value.target, s.value.Ref?); }
    } else if !IsExtToken(d.bs[0]) && p.rawDepth <= NEST_LIMIT && ReadHead(d.bs).Got? {
      HeadConsumes(d.bs);
      var head, rest := ReadHead(d.bs).val, ReadHead(d.bs).rest;
      var d' := if shell.Some? then d else Allot(d, head.HeadArr?);
      var a := if shell.Some? then shell.value else |d.heap|;
      FillReturns(reg, rank, p.(rawDepth := p.rawDepth + 1), d'.(bs := rest), s, head.n, a);
    }
  }

  lemma {:induction false} FillReturns(reg: Registry, rank: map<Id, nat>, p: Route, d: Progress, s: Position, n: nat,
                                       a: Addr)
    requires Guarded(reg, rank) && p.rawDepth <= NEST_LIMIT + 1 && a < |d.heap|
    ensures var o := DecFill(reg, rank, p, d, s, n, a); o.Dec? ==> o.val == Obj(a)
  {
    if d.heap[a].Arr? { ElemsReturn(reg, rank, p, d, s, n, a); } else { FieldsReturn(reg, rank, p, d, s, n, a); }
  }

  /** What a tracked alias registers is a shell that stays empty, beside the object it returns: a later
      reference to that object reads as an empty container. */
  lemma {:induction false} AliasShellStaysEmpty(reg: Registry, rank: map<Id, nat>, p: Route, d: Progress, id: Id,
                                                viaRef: bool)
    requires Guarded(reg, rank) && id in reg && p.rawDepth <= NEST_LIMIT + 1
    requires reg[id].Tracked() && !reg[id].body.Node?
    requires MaybeRef(d.bs) == NoRef && (IsArrToken(d.bs[0]) || IsMapToken(d.bs[0]))
    ensures var o := DecDecl(reg, rank, p, d, id, viaRef);
            o.Dec? ==>
              && |d.objs| < |o.at.objs| && o.at.objs[|d.objs|].addr == |d.heap|
              && |d.heap| < |o.at.heap| && o.at.heap[|d.heap|] == Empty(IsArrToken(d.bs[0]))
              && o.val.Obj? && o.val.addr > |d.heap|
  {
    hide MaybeRef, Guarded;
    var isArray, body := IsArrToken(d.bs[0]), reg[id].body;
    var d', q := Register(d, isArray, p.pathDepth), EnterRoute(p, id, viaRef).(open := p.open + {|d.objs|});
    if !BeyondCap(reg[id], p, id, viaRef) && body.target in reg {
      hide DecDecl;
      NewAtDecl(reg, rank, q, d', body.target, body.Ref?);
      AliasEnters(reg, rank, p, d, id, viaRef);
      assert d'.objs[|d.objs|] == Entry(|d.heap|, p.pathDepth);
      assert d'.heap[|d.heap|] == Empty(isArray);
    }
  }

  lemma {:induction false} AliasEnters(reg: Registry, rank: map<Id, nat>, p: Route, d: Progress, id: Id, viaRef: bool)
    requires Guarded(reg, rank) && id in reg && p.rawDepth <= NEST_LIMIT + 1
    requires reg[id].Tracked() && !reg[id].body.Node? && reg[id].body.target in reg
    requires MaybeRef(d.bs) == NoRef && (IsArrToken(d.bs[0]) || IsMapToken(d.bs[0]))
    requires !BeyondCap(reg[id], p, id, viaRef)
    ensures DecDecl(reg, rank, p, d, id, viaRef) ==
            DecDecl(reg, rank, EnterRoute(p, id, viaRef).(open := p.open + {|d.objs|}),
                    Register(d, IsArrToken(d.bs[0]), p.pathDepth), reg[id].body.target, reg[id].body.Ref?)
  {
    hide MaybeRef;
    var b := d.bs[0];
    var q, d' := EnterRoute(p, id, viaRef).(open := p.open + {|d.objs|}), Register(d, IsArrToken(b), p.pathDepth);
    assert DecVal(reg, rank, q, d', Some(reg[id].body), Some(|d.heap|)) ==
           DecDecl(reg, rank, q, d', reg[id].body.target, reg[id].body.Ref?);
  }

  // ---------- The bound on what the decoder builds ----------

  /** No more values were built than bytes were taken. */
  ghost predicate WithinInput(bs: seq<Byte>, o: Decoded) {
    match o
    case Failed(_, built) => built <= |bs|
    case Dec(_, at) => at.built + |at.bs| <= |bs|
  }

  /** Every alias resolves, and to a declaration that a reference can enter. */
  predicate AliasesLead(reg: Registry) {
    forall id | id in reg && !reg[id].body.Node? ::
      reg[id].body.target in reg && (reg[id].body.Ref? ==> !reg[reg[id].body.target].Capped(1))
  }

  const EMPTY_MAP: seq<Byte> := [0x80]

  lemma EmptyMapReads()
    ensures MaybeRef(EMPTY_MAP) == NoRef && ReadHead(EMPTY_MAP) == Got(HeadMap(0), [])
    ensures IsMapToken(EMPTY_MAP[0]) && !IsArrToken(EMPTY_MAP[0]) && !IsExtToken(EMPTY_MAP[0])
  {
    assert EMPTY_MAP[1..] == [];
  }

  lemma {:induction false} EmptyMapDecodes(reg: Registry, rank: map<Id, nat>, q: Route, d: Progress, s: Position,
                                           shell: Option<Addr>)
    requires Guarded(reg, rank) && !IsBoundary(s) && q.rawDepth <= NEST_LIMIT && d.bs == EMPTY_MAP
    requires shell.Some? ==> shell.value < |d.heap| && d.heap[shell.value].Rec?
    ensures IsMapToken(d.bs[0])
    ensures var o := DecVal(reg, rank, q, d, s, shell);
            o.Dec? && o.at.bs == [] && o.at.built == d.built + if shell.Some? then 0 else 1
  {
    EmptyMapReads();
    hide ReadHead, Guarded;
    var d' := (if shell.Some? then d else Allot(d, false)).(bs := []);
    var a := if shell.Some? then shell.value else |d.heap|;
    assert DecFields(reg, rank, q.(rawDepth := q.rawDepth + 1), d', s, 0, a) == Dec(Obj(a), d');
  }

  /** Each tracked alias on the way to a body builds a cell of its own. */
  lemma {:induction false} ChainBuilds(reg: Registry, rank: map<Id, nat>, p: Route, d: Progress, id: Id, viaRef: bool)
    requires Guarded(reg, rank) && AliasesLead(reg) && id in reg && d.bs == EMPTY_MAP && p.rawDepth <= NEST_LIMIT
    requires viaRef ==> !reg[id].Capped(1)
    requires forall x | x in reg && rank[x] <= rank[id] :: p.depths[x] == 0
    ensures var o := DecDecl(reg, rank, p, d, id, viaRef);
            && o.Dec? && o.at.bs == [] && o.at.built >= d.built + 1
            && (reg[id].Tracked() && !reg[id].body.Node? ==> o.at.built >= d.built + 2)
    decreases rank[id]
  {
    EmptyMapReads();
    hide MaybeRef, ReadHead;
    var body := reg[id].body;
    assert Bound(rank, body) <= rank[id];
    var tracked := reg[id].Tracked();
    var q := if tracked then EnterRoute(p, id, viaRef).(open := p.open + {|d.objs|}) else EnterRoute(p, id, viaRef);
    var d' := if tracked then Register(d, false, p.pathDepth) else d;
    var shell := if tracked then Some(|d.heap|) else None;
    if body.Node? {
      EmptyMapDecodes(reg, rank, q, d', Some(body), shell);
    } else {
      ChainBuilds(reg, rank, q, d', body.target, body.Ref?);
      assert DecVal(reg, rank, q, d', Some(body), shell) == DecDecl(reg, rank, q, d', body.target, body.Ref?);
    }
  }

  /** On no input are more values built than bytes taken, if and only if no tracked declaration is an
      alias. */
  lemma BoundExactly(reg: Registry, rank: map<Id, nat>)
    requires Guarded(reg, rank) && AliasesLead(reg)
    ensures TrackedNodes(reg) <==> forall id, bs | id in reg :: WithinInput(bs, Decode(reg, rank, id, bs))
  {
    hide Decode;
    if TrackedNodes(reg) {
      forall id, bs | id in reg ensures WithinInput(bs, Decode(reg, rank, id, bs)) { DecodeBounded(reg, rank, id, bs); }
    } else {
      var id :| id in reg && reg[id].Tracked() && !reg[id].body.Node?;
      AliasBuildsTwo(reg, rank, id);
      assert !WithinInput(EMPTY_MAP, Decode(reg, rank, id, EMPTY_MAP));
    }
  }

  lemma AliasBuildsTwo(reg: Registry, rank: map<Id, nat>, id: Id)
    requires Guarded(reg, rank) && AliasesLead(reg) && id in reg && reg[id].Tracked() && !reg[id].body.Node?
    ensures !WithinInput(EMPTY_MAP, Decode(reg, rank, id, EMPTY_MAP))
  {
    hide DecDecl;
    ChainBuilds(reg, rank, DEPARTURE, Progress(EMPTY_MAP, [], [], 0), id, false);
  }

  /** Behind an alias the bound fails: each alias makes a shell that is never filled, so one byte
      builds two objects. */
  lemma AliasOutgrowsInput(reg: Registry, rank: map<Id, nat>, id: Id, inner: Id)
    requires Guarded(reg, rank) && id in reg && inner in reg
    requires reg[id].Tracked() && reg[id].body == Ref(inner)
    requires reg[inner].Tracked() && reg[inner].body.Node? && reg[inner].Cap().None?
    ensures Decode(reg, rank, id, [0x80]) ==
            Dec(Obj(1), Progress([], [Entry(0, 0), Entry(1, 1)], [Rec([]), Rec([])], 2))
  {
    var bs: seq<Byte> := [0x80];
    assert MaybeRef(bs) == NoRef && bs[1..] == [];
    assert ReadHead(bs) == Got(HeadMap(0), []);
    hide MaybeRef, ReadHead, Guarded;
    var d1 := Register(Progress(bs, [], [], 0), false, 0);
    var p1 := EnterRoute(DEPARTURE, id, false).(open := {0});
    var d2 := Register(d1, false, 1);
    var p2 := EnterRoute(p1, inner, true).(open := {0, 1});
    assert DEPARTURE.open + {0} == p1.open && p1.open + {1} == p2.open;
    var p3 := p2.(rawDepth := 1);
    var s := Some(reg[inner].body);
    assert DecFields(reg, rank, p3, d2.(bs := []), s, 0, 1) == Dec(Obj(1), d2.(bs := []));
    assert DecFill(reg, rank, p3, d2.(bs := []), s, 0, 1) == Dec(Obj(1), d2.(bs := []));
    assert DecVal(reg, rank, p2, d2, s, Some(1)) == Dec(Obj(1), d2.(bs := []));
    assert DecDecl(reg, rank, p1, d1, inner, true) == Dec(Obj(1), d2.(bs := []));
    assert DecVal(reg, rank, p1, d1, Some(reg[id].body), Some(0)) == Dec(Obj(1), d2.(bs := []));
    assert DecDecl(reg, rank, DEPARTURE, Progress(bs, [], [], 0), id, false) == Dec(Obj(1), d2.(bs := []));
    assert d2.objs == [Entry(0, 0), Entry(1, 1)] && d2.heap == [Rec([]), Rec([])];
  }
}
