/** The decoder as it runs: one reader, one context and one heap, updated in place. */
module DecoderRun {
  import opened SchemaGraph
  import opened MsgPack
  import opened MsgBuffers
  import opened Codec
  import opened EncoderRun

  /** A tracked object; `inflight` until it has been filled. */
  datatype Slot = Slot(entry: Entry, inflight: bool)

  ghost function Entries(objs: seq<Slot>): (entries: seq<Entry>)
    ensures |entries| == |objs|
  {
    seq(|objs|, i requires 0 <= i < |objs| => objs[i].entry)
  }

  ghost predicate OpenSlots(objs: seq<Slot>, open: set<nat>) {
    && (forall i | i in open :: i < |objs|)
    && forall i | 0 <= i < |objs| :: objs[i].inflight == (i in open)
  }

  lemma OpenSlot(objs: seq<Slot>, open: set<nat>, entry: Entry)
    requires OpenSlots(objs, open)
    ensures OpenSlots(objs + [Slot(entry, true)], open + {|objs|})
    ensures Entries(objs + [Slot(entry, true)]) == Entries(objs) + [entry]
    ensures |objs| !in open
  {
  }

  lemma CloseSlot(objs: seq<Slot>, open: set<nat>, k: nat)
    requires k !in open && k < |objs| && OpenSlots(objs, open + {k})
    ensures OpenSlots(objs[k := objs[k].(inflight := false)], open)
    ensures Entries(objs[k := objs[k].(inflight := false)]) == Entries(objs)
  {
    var objs' := objs[k := objs[k].(inflight := false)];
    forall i | 0 <= i < |objs'| ensures objs'[i].inflight == (i in open) {
      assert objs[i].inflight == (i in open + {k});
    }
    forall i | i in open ensures i < |objs'| { assert i in open + {k}; }
  }

  lemma {:induction false} Rooted(reg: Registry, rank: map<Id, nat>, id: Id)
    requires Guarded(reg, rank) && id in reg
    ensures Bound(rank, reg[id].body) <= rank[id]
  {
  }

  lemma {:induction false} NoneLeft(reg: Registry, rank: map<Id, nat>, p: Route, d: Progress, s: Position, a: Addr)
    requires Guarded(reg, rank) && p.rawDepth <= NEST_LIMIT + 1 && a < |d.heap|
    ensures d.heap[a].Arr? ==> DecElems(reg, rank, p, d, s, 0, a) == Dec(Obj(a), d)
    ensures d.heap[a].Rec? ==> DecFields(reg, rank, p, d, s, 0, a) == Dec(Obj(a), d)
  {
  }

  lemma ReadElem(reg: Registry, rank: map<Id, nat>, p: Route, d: Progress, s: Position, n: nat, a: Addr)
    requires Guarded(reg, rank) && p.rawDepth <= NEST_LIMIT + 1 && a < |d.heap| && d.heap[a].Arr? && n > 0
    ensures var first := DecVal(reg, rank, p, d, Items(s), None);
            DecElems(reg, rank, p, d, s, n, a) ==
            if first.Failed? then first
            else
              var heap := first.at.heap[a := Arr(first.at.heap[a].elems + [first.val])];
              DecElems(reg, rank, p, first.at.(heap := heap), s, n - 1, a)
  {
    hide DecVal, Guarded, Bounded;
  }

  lemma ReadField(reg: Registry, rank: map<Id, nat>, p: Route, d: Progress, s: Position, n: nat, a: Addr)
    requires Guarded(reg, rank) && p.rawDepth <= NEST_LIMIT + 1 && a < |d.heap| && d.heap[a].Rec? && n > 0
    ensures match ReadKey(d.bs)
            case Bad(f) => DecFields(reg, rank, p, d, s, n, a) == Failed(f, d.built)
            case Got(key, rest) =>
              var first := DecVal(reg, rank, p, d.(bs := rest), At(s, key), None);
              DecFields(reg, rank, p, d, s, n, a) ==
              if first.Failed? then first
              else
                var cell := Rec(Put(first.at.heap[a].fields, key, first.val));
                DecFields(reg, rank, p, first.at.(heap := first.at.heap[a := cell]), s, n - 1, a)
  {
    hide DecVal, Guarded, Bounded, ReadKey, Put;
  }

  lemma Start()
    ensures DepthsAgree(map[], multiset{}) && OpenSlots([], {}) && Entries([]) == []
  {
  }

  /** What is left of `DecDecl` once the declaration has been entered. */
  ghost function BodyDecoding(reg: Registry, rank: map<Id, nat>, p: Route, d: Progress, id: Id): Decoded
    requires Guarded(reg, rank) && id in reg && p.rawDepth <= NEST_LIMIT + 1 && p.pathDepth > 0 && d.bs != []
  {
    var decl, b := reg[id], d.bs[0];
    if decl.Tracked() && (IsArrToken(b) || IsMapToken(b)) then
      DecVal(reg, rank, p.(open := p.open + {|d.objs|}), Register(d, IsArrToken(b), p.pathDepth - 1),
             Some(decl.body), Some(|d.heap|))
    else DecVal(reg, rank, p, d, Some(decl.body), None)
  }

  lemma {:induction false} DeclDecoding(reg: Registry, rank: map<Id, nat>, p: Route, d: Progress, id: Id, viaRef: bool)
    requires Guarded(reg, rank) && id in reg && p.rawDepth <= NEST_LIMIT + 1 && MaybeRef(d.bs).NoRef?
    ensures d.bs != []
    ensures DecDecl(reg, rank, p, d, id, viaRef) ==
            if BeyondCap(reg[id], p, id, viaRef) then Failed(TooDeep(id), d.built)
            else BodyDecoding(reg, rank, EnterRoute(p, id, viaRef), d, id)
  {
    hide DecVal;
  }

  class Decoder {
    const reg: Registry
    ghost const rank: map<Id, nat>
    const r: Reader
    var objs: seq<Slot>
    var pathDepth: nat
    var depths: map<Id, nat>
    var rawDepth: nat
    var heap: seq<Cell>
    ghost var built: nat

    /** The fields are at the place `p` of the walk. */
    ghost predicate Place(p: Route)
      reads this, r
    {
      && Guarded(reg, rank) && r.Valid()
      && rawDepth == p.rawDepth <= NEST_LIMIT + 1 && pathDepth == p.pathDepth
      && DepthsAgree(depths, p.depths) && OpenSlots(objs, p.open)
    }

    ghost function State(): Progress
      requires r.Valid()
      reads this, r
    {
      Progress(r.Rest(), Entries(objs), heap, built)
    }

    /** The call did what the specification says; whatever the outcome, the path is restored. */
    ghost predicate Did(p: Route, o: Decoded, v: Val, err: Option<Fault>)
      reads this, r
    {
      match o
      case Failed(fault, _) => err == Some(fault) && pathDepth == p.pathDepth && DepthsAgree(depths, p.depths)
      case Dec(val, at) => err == None && v == val && Place(p) && State() == at
    }

    constructor (reg: Registry, ghost rank: map<Id, nat>, bytes: seq<Byte>)
      ensures this.reg == reg && this.rank == rank && fresh(r) && r.Valid() && r.Rest() == bytes
      ensures objs == [] && pathDepth == 0 && depths == map[] && rawDepth == 0 && heap == [] && built == 0
    {
      this.reg, this.rank := reg, rank;
      r := new Reader(bytes);
      objs, pathDepth, depths, rawDepth, heap, built := [], 0, map[], 0, [], 0;
    }

    // ---------- Tokens ----------

    method ReadCount(b: Byte, token16: Byte) returns (n: Option<Word32>)
      requires r.Valid()
      modifies r
      ensures r.Valid()
      ensures match Count(b, token16, old(r.Rest()))
              case Got(x, rest) => n == Some(x) && r.Rest() == rest
              case Bad(f) => n == None && f == EndOfStream
    {
      if b < 0xa0 {
        n := Some(b % 0x10);
      } else if b == token16 {
        n := r.U16();
      } else {
        n := r.U32();
      }
    }

    method ReadText(b: Byte) returns (text: Text, err: Option<Fault>)
      requires r.Valid()
      modifies r
      ensures r.Valid()
      ensures match ReadStr(b, old(r.Rest()))
              case Got(x, rest) => err == None && text == x && r.Rest() == rest
              case Bad(f) => err == Some(f)
      ensures |r.Rest()| <= |old(r.Rest())|
    {
      hide Un16, Un32;
      var n: Option<Word32>;
      if b / 0x20 == 5 {
        n := Some(b % 0x20);
      } else if b == 0xd9 {
        n := r.U8();
      } else if b == 0xda {
        n := r.U16();
      } else if b == 0xdb {
        n := r.U32();
      } else {
        return [], Some(BadKey);
      }
      if n.None? { return [], Some(EndOfStream); }
      var bytes := r.Bytes(n.value);
      if bytes.None? { return [], Some(EndOfStream); }
      text, err := bytes.value, None;
    }

    method ReadInteger(b: Byte) returns (prim: Option<Prim>)
      requires r.Valid() && 0xcc <= b <= 0xd3
      modifies r
      ensures r.Valid()
      ensures match ReadWide(b, old(r.Rest()))
              case Got(x, rest) => prim == Some(x) && r.Rest() == rest
              case Bad(f) => prim == None && f == EndOfStream
    {
      hide Reader.Rest, Un16, Un32, Un64;
      if b == 0xcf || b == 0xd3 {
        var x := r.U64();
        if x.None? { return None; }
        prim := Some(Big(if b == 0xcf then x.value else Signed(x.value, 0x1_0000_0000_0000_0000)));
      } else if b == 0xce || b == 0xd2 {
        var x := r.U32();
        if x.None? { return None; }
        prim := Some(Num(if b == 0xce then x.value else Signed(x.value, 0x1_0000_0000)));
      } else if b == 0xcd || b == 0xd1 {
        var x := r.U16();
        if x.None? { return None; }
        prim := Some(Num(if b == 0xcd then x.value else Signed(x.value, 0x1_0000)));
      } else {
        var x := r.U8();
        if x.None? { return None; }
        prim := Some(Num(if b == 0xcc then x.value else Signed(x.value, 0x100)));
      }
    }

    method DecodePrim(b: Byte) returns (prim: Prim, err: Option<Fault>)
      requires r.Valid()
      modifies r
      ensures r.Valid()
      ensures match ReadPrim(b, old(r.Rest()))
              case Got(x, rest) => err == None && prim == x && r.Rest() == rest
              case Bad(f) => err == Some(f)
    {
      hide Reader.Rest, ReadWide, ReadStr;
      prim, err := Null, None;
      if b == 0xc0 { return; }
      if b == 0xc2 || b == 0xc3 { return Bool(b == 0xc3), None; }
      if b < 0x80 { return Num(b), None; }
      if b >= 0xe0 { return Num(b - 0x100), None; }
      if 0xcc <= b <= 0xd3 {
        var x := ReadInteger(b);
        if x.None? { return Null, Some(EndOfStream); }
        return x.value, None;
      }
      if b == 0xcb {
        var bits := r.Bytes(8);
        if bits.None? { return Null, Some(EndOfStream); }
        return Float(bits.value), None;
      }
      if IsStrToken(b) {
        var text, e := ReadText(b);
        return Str(text), e;
      }
      err := Some(BadToken);
    }

    method DecodeKey() returns (key: Key, err: Option<Fault>)
      requires r.Valid()
      modifies r
      ensures r.Valid() && |r.Rest()| <= |old(r.Rest())|
      ensures match ReadKey(old(r.Rest()))
              case Got(x, rest) => err == None && key == x && r.Rest() == rest
              case Bad(f) => err == Some(f)
    {
      hide ReadStr;
      var b := r.U8();
      if b.None? { return [], Some(EndOfStream); }
      key, err := ReadText(b.value);
    }

    /** Reads a backreference if one comes next. */
    method DecodeMaybeRef() returns (index: Option<nat>, err: Option<Fault>)
      requires r.Valid()
      modifies r
      ensures r.Valid()
      ensures match MaybeRef(old(r.Rest()))
              case NoRef => index == None && err == None && r.Rest() == old(r.Rest())
              case RefTo(n, rest) => index == Some(n) && err == None && r.Rest() == rest
              case RefBad(f) => err == Some(f)
    {
      hide Reader.Rest, RefPayload;
      index, err := None, None;
      var b := r.Peek();
      if b.None? { return None, Some(EndOfStream); }
      if !(0xd4 <= b.value <= 0xd7 || b.value == 0xc7) { return; }
      b := r.U8();
      var tag := r.U8();
      if tag.None? { return None, Some(EndOfStream); }
      if b == Some(0xc7) {
        tag := r.U8();  // that was the length
        if tag.None? { return None, Some(EndOfStream); }
      }
      if tag.value != 0x50 { return None, Some(BadExt); }
      index, err := DecodePayload();
    }

    method DecodePayload() returns (index: Option<nat>, err: Option<Fault>)
      requires r.Valid()
      modifies r
      ensures r.Valid()
      ensures match RefPayload(old(r.Rest()))
              case NoRef => false
              case RefTo(n, rest) => index == Some(n) && err == None && r.Rest() == rest
              case RefBad(f) => err == Some(f)
    {
      hide Reader.Rest, Un16, Un32;
      var b := r.U8();
      if b.None? { return None, Some(EndOfStream); }
      var n: Option<Word32> := Some(b.value);
      if b.value >= 0x80 {
        if b.value == 0xcc {
          n := r.U8();
        } else if b.value == 0xcd {
          n := r.U16();
        } else if b.value == 0xce {
          n := r.U32();
        } else {
          return None, Some(BadExt);
        }
      }
      if n.None? { return None, Some(EndOfStream); }
      index, err := Some(n.value), None;
    }

    // ---------- The walk ----------

    method Follow(ghost p: Route, id: Id, index: nat) returns (v: Val, err: Option<Fault>)
      requires Place(p) && id in reg
      ensures Did(p, FollowRef(reg[id], id, p, State(), index, r.Rest()), v, err)
    {
      var decl := reg[id];
      v := Prim(Undefined);
      if !decl.Tracked() { return v, Some(MisplacedRef); }
      if index >= |objs| { return v, Some(DanglingRef); }
      var slot := objs[index];
      if slot.inflight {
        if decl.cyclic.Acyclic? { return v, Some(CycleNotAllowed(id)); }
        if decl.cyclic.UpTo? && pathDepth - slot.entry.pathDepth > decl.cyclic.hops {
          return v, Some(CycleTooLong(id));
        }
      }
      return Obj(slot.entry.addr), None;
    }

    method DecodeDecl(ghost p: Route, id: Id, viaRef: bool) returns (v: Val, err: Option<Fault>)
      requires Place(p) && id in reg
      modifies this, r
      ensures Did(p, DecDecl(reg, rank, p, old(State()), id, viaRef), v, err)
      decreases |r.Rest()|, 0, rank[id], 4
    {
      hide DecVal, MaybeRef, DepthsAgree, OpenSlots, Entries, Reader.Rest;
      var index, fault := DecodeMaybeRef();
      v := Prim(Undefined);
      if fault.Some? { return v, fault; }
      if index.Some? {
        v, err := Follow(p, id, index.value);
        return;
      }
      v, err := DecodeEntered(p, id, viaRef);
    }

    method DecodeEntered(ghost p: Route, id: Id, viaRef: bool) returns (v: Val, err: Option<Fault>)
      requires Place(p) && id in reg && MaybeRef(r.Rest()).NoRef?
      modifies this, r
      ensures Did(p, DecDecl(reg, rank, p, old(State()), id, viaRef), v, err)
      decreases |r.Rest()|, 0, rank[id], 3
    {
      hide BodyDecoding, DecDecl, MaybeRef, DepthsAgree, OpenSlots, Entries, Guarded, Reader.Rest;
      var decl := reg[id];
      DeclDecoding(reg, rank, p, State(), id, viaRef);
      DepthsEnter(depths, p.depths, id);
      var depth := DepthOf(depths, id);
      if viaRef && decl.Capped(depth + 1) { return Prim(Undefined), Some(TooDeep(id)); }
      if viaRef { depths := depths[id := depth + 1]; }
      pathDepth := pathDepth + 1;
      v, err := DecodeBody(EnterRoute(p, id, viaRef), id);
      pathDepth := pathDepth - 1;
      if viaRef {
        DepthsLeave(depths, p.depths, id);
        depths := depths[id := depth];
      }
    }

    /** Decodes the body of a declaration, into a shell registered beforehand if it is tracked. */
    method DecodeBody(ghost p: Route, id: Id) returns (v: Val, err: Option<Fault>)
      requires Place(p) && id in reg && p.pathDepth > 0 && r.Rest() != []
      modifies this, r
      ensures Did(p, BodyDecoding(reg, rank, p, old(State()), id), v, err)
      decreases |r.Rest()|, 0, rank[id], 2
    {
      hide DecVal, DepthsAgree, OpenSlots, Entries, Guarded, IsArrToken, IsMapToken, Reader.Rest;
      var decl := reg[id];
      Rooted(reg, rank, id);
      var b := r.Peek();
      if !decl.Tracked() || !(IsArrToken(b.value) || IsMapToken(b.value)) {
        v, err := DecodeVal(p, Some(decl.body), None);
        return;
      }
      var k := |objs|;
      OpenSlot(objs, p.open, Entry(|heap|, pathDepth - 1));
      objs := objs + [Slot(Entry(|heap|, pathDepth - 1), true)];
      heap := heap + [Empty(IsArrToken(b.value))];
      built := built + 1;
      v, err := DecodeVal(p.(open := p.open + {k}), Some(decl.body), Some(|heap| - 1));
      if err.None? {
        CloseSlot(objs, p.open, k);
        objs := objs[k := objs[k].(inflight := false)];
      }
    }

    method DecodeVal(ghost p: Route, s: Position, shell: Option<Addr>) returns (v: Val, err: Option<Fault>)
      requires Place(p)
      requires shell.Some? ==>
                 && shell.value < |heap| && r.Rest() != []
                 && (if heap[shell.value].Arr? then IsArrToken(r.Rest()[0]) else IsMapToken(r.Rest()[0]))
      modifies this, r
      ensures Did(p, DecVal(reg, rank, p, old(State()), s, shell), v, err)
      decreases |r.Rest()|, 0, if s.Some? then Bound(rank, s.value) else 0, 1
    {
      hide DecDecl, DecFill, DepthsAgree, OpenSlots, Entries, ReadHead;
      if IsBoundary(s) {
        if s.value.target !in reg { return Prim(Undefined), Some(NoSuchSchema(s.value.target)); }
        v, err := DecodeDecl(p, s.value.target, s.value.Ref?);
        return;
      }
      v := Prim(Undefined);
      var b := r.Peek();
      if b.None? { return v, Some(EndOfStream); }
      if IsExtToken(b.value) {
        var _, fault := DecodeMaybeRef();
        return v, if fault.Some? then fault else Some(MisplacedRef);
      }
      if rawDepth > NEST_LIMIT { return v, Some(TooNested); }
      v, err := DecodeToken(p, s, shell);
    }

    /** Reads a token and what it opens. */
    method DecodeToken(ghost p: Route, s: Position, shell: Option<Addr>) returns (v: Val, err: Option<Fault>)
      requires Place(p) && !IsBoundary(s) && r.Rest() != [] && !IsExtToken(r.Rest()[0]) && p.rawDepth <= NEST_LIMIT
      requires shell.Some? ==>
                 && shell.value < |heap|
                 && (if heap[shell.value].Arr? then IsArrToken(r.Rest()[0]) else IsMapToken(r.Rest()[0]))
      modifies this, r
      ensures Did(p, DecVal(reg, rank, p, old(State()), s, shell), v, err)
      decreases |r.Rest()|, 0, 0, 0
    {
      hide DecDecl, DecFill, DepthsAgree, OpenSlots, Entries, Count, ReadPrim, Guarded;
      if ReadHead(r.Rest()).Got? { HeadConsumes(r.Rest()); }
      v := Prim(Undefined);
      var b := r.U8();
      if !IsArrToken(b.value) && !IsMapToken(b.value) {
        var prim, fault := DecodePrim(b.value);
        built := built + 1;
        return Prim(prim), fault;
      }
      var n := ReadCount(b.value, if IsArrToken(b.value) then 0xdc else 0xde);
      if n.None? { return v, Some(EndOfStream); }
      v, err := DecodeContainer(p, s, IsArrToken(b.value), n.value, shell);
    }

    /** Fills a container of `n` entries: the shell, or else a new one. */
    method DecodeContainer(ghost p: Route, s: Position, isArray: bool, n: nat, shell: Option<Addr>)
      returns (v: Val, err: Option<Fault>)
      requires Place(p) && p.rawDepth <= NEST_LIMIT
      requires shell.Some? ==> shell.value < |heap| && heap[shell.value].Arr? == isArray
      modifies this, r
      ensures var d := if shell.Some? then old(State()) else Allot(old(State()), isArray);
              var a := if shell.Some? then shell.value else |old(heap)|;
              Did(p, DecFill(reg, rank, p.(rawDepth := p.rawDepth + 1), d, s, n, a), v, err)
      decreases |r.Rest()|, 2
    {
      hide DecElems, DecFields, DepthsAgree, OpenSlots, Entries, Reader.Rest;
      var a := |heap|;
      if shell.Some? {
        a := shell.value;
      } else {
        heap := heap + [Empty(isArray)];
        built := built + 1;
      }
      ghost var p' := p.(rawDepth := p.rawDepth + 1);
      rawDepth := rawDepth + 1;
      if isArray {
        v, err := DecodeElems(p', s, n, a);
      } else {
        v, err := DecodeFields(p', s, n, a);
      }
      if err.None? { rawDepth := rawDepth - 1; }
    }

    method DecodeElems(ghost p: Route, s: Position, n: nat, a: Addr) returns (v: Val, err: Option<Fault>)
      requires Place(p) && a < |heap| && heap[a].Arr?
      modifies this, r
      ensures Did(p, DecElems(reg, rank, p, old(State()), s, n, a), v, err)
      decreases |r.Rest()|, 1
    {
      hide DecVal, DecElems, DepthsAgree, OpenSlots, Entries, Guarded, Reader.Rest;
      ghost var whole := DecElems(reg, rank, p, State(), s, n, a);
      for i := 0 to n
        invariant Place(p) && a < |heap| && heap[a].Arr? && |r.Rest()| <= |old(r.Rest())|
        invariant DecElems(reg, rank, p, State(), s, n - i, a) == whole
      {
        ReadElem(reg, rank, p, State(), s, n - i, a);
        v, err := DecodeVal(p, Items(s), None);
        if err.Some? { return; }
        heap := heap[a := Arr(heap[a].elems + [v])];
      }
      NoneLeft(reg, rank, p, State(), s, a);
      v, err := Obj(a), None;
    }

    method DecodeFields(ghost p: Route, s: Position, n: nat, a: Addr) returns (v: Val, err: Option<Fault>)
      requires Place(p) && a < |heap| && heap[a].Rec?
      modifies this, r
      ensures Did(p, DecFields(reg, rank, p, old(State()), s, n, a), v, err)
      decreases |r.Rest()|, 1
    {
      hide DecVal, DecFields, Put, DepthsAgree, OpenSlots, Entries, ReadKey, Guarded, Reader.Rest;
      ghost var whole := DecFields(reg, rank, p, State(), s, n, a);
      for i := 0 to n
        invariant Place(p) && a < |heap| && heap[a].Rec? && |r.Rest()| <= |old(r.Rest())|
        invariant DecFields(reg, rank, p, State(), s, n - i, a) == whole
      {
        ReadField(reg, rank, p, State(), s, n - i, a);
        var key, fault := DecodeKey();
        if fault.Some? { return Prim(Undefined), fault; }
        v, err := DecodeVal(p, At(s, key), None);
        if err.Some? { return; }
        heap := heap[a := Rec(Put(heap[a].fields, key, v))];
      }
      NoneLeft(reg, rank, p, State(), s, a);
      v, err := Obj(a), None;
    }
  }

  /** `decode` */
  method RunDecode(reg: Registry, ghost rank: map<Id, nat>, id: Id, bytes: seq<Byte>)
    returns (v: Val, heap: seq<Cell>, err: Option<Fault>)
    requires Guarded(reg, rank) && id in reg
    ensures match Decode(reg, rank, id, bytes)
            case Dec(val, at) => err == None && v == val && heap == at.heap
            case Failed(fault, _) => err == Some(fault)
  {
    hide DecDecl, DepthsAgree, OpenSlots, Entries, Guarded, Reader.Rest;
    Start();
    var d := new Decoder(reg, rank, bytes);
    v, err := d.DecodeDecl(DEPARTURE, id, false);
    heap := d.heap;
  }
}
