/** What the decoder makes of a longer input, and of one that is cut short. */
module Truncation {
  import opened SchemaGraph
  import opened MsgPack
  import opened Codec
  import opened CodecReplay
  import opened CodecTheorems

  // ---------- Tokens ----------

  /** The reading of a longer input: the same, unless the shorter input ended too early. */
  ghost predicate Agrees<T>(r: Read<T>, r': Read<T>, more: seq<Byte>) {
    if r.Got? then r' == Got(r.val, r.rest + more) else r.fault == EndOfStream || r' == r
  }

  lemma Tail(bs: seq<Byte>, more: seq<Byte>, n: nat)
    requires n <= |bs|
    ensures (bs + more)[..n] == bs[..n] && (bs + more)[n..] == bs[n..] + more
  {
  }

  lemma TakeKept(bs: seq<Byte>, more: seq<Byte>, n: nat)
    ensures Agrees(Take(bs, n), Take(bs + more, n), more)
  {
    if n <= |bs| { Tail(bs, more, n); }
  }

  lemma WordsKept(bs: seq<Byte>, more: seq<Byte>)
    ensures Agrees(Read8(bs), Read8(bs + more), more)
    ensures Agrees(Read16(bs), Read16(bs + more), more)
    ensures Agrees(Read32(bs), Read32(bs + more), more)
    ensures Agrees(Read64(bs), Read64(bs + more), more)
  {
    if bs != [] { Tail(bs, more, 1); }
    TakeKept(bs, more, 2);
    TakeKept(bs, more, 4);
    TakeKept(bs, more, 8);
    hide Take, Un16, Un32, Un64;
  }

  lemma LengthKept(b: Byte, bs: seq<Byte>, more: seq<Byte>)
    ensures Agrees(ReadStrLength(b, bs), ReadStrLength(b, bs + more), more)
  {
    WordsKept(bs, more);
    hide Read8, Read16, Read32;
  }

  lemma TextKept(b: Byte, bs: seq<Byte>, more: seq<Byte>)
    ensures Agrees(ReadStr(b, bs), ReadStr(b, bs + more), more)
  {
    hide Take, ReadStrLength;
    LengthKept(b, bs, more);
    var r := ReadStrLength(b, bs);
    if r.Got? { TakeKept(r.rest, more, r.val); }
  }

  lemma KeyKept(bs: seq<Byte>, more: seq<Byte>)
    ensures Agrees(ReadKey(bs), ReadKey(bs + more), more)
  {
    WordsKept(bs, more);
    hide ReadStr;
    if bs != [] { TextKept(bs[0], bs[1..], more); }
  }

  lemma WideKept(b: Byte, bs: seq<Byte>, more: seq<Byte>)
    ensures 0xcc <= b <= 0xd3 ==> Agrees(ReadWide(b, bs), ReadWide(b, bs + more), more)
  {
    WordsKept(bs, more);
    hide Read8, Read16, Read32, Read64;
  }

  lemma PrimKept(b: Byte, bs: seq<Byte>, more: seq<Byte>)
    ensures Agrees(ReadPrim(b, bs), ReadPrim(b, bs + more), more)
  {
    WideKept(b, bs, more);
    TakeKept(bs, more, 8);
    TextKept(b, bs, more);
    hide ReadWide, Take, ReadStr;
  }

  lemma CountKept(b: Byte, token16: Byte, bs: seq<Byte>, more: seq<Byte>)
    ensures Agrees(Count(b, token16, bs), Count(b, token16, bs + more), more)
  {
    WordsKept(bs, more);
    hide Read16, Read32;
  }

  lemma HeadKept(bs: seq<Byte>, more: seq<Byte>)
    ensures Agrees(ReadHead(bs), ReadHead(bs + more), more)
  {
    if bs != [] {
      var b, rest := bs[0], bs[1..];
      Tail(bs, more, 1);
      PrimKept(b, rest, more);
      CountKept(b, 0xdc, rest, more);
      CountKept(b, 0xde, rest, more);
      hide ReadPrim, Count;
    }
  }

  ghost predicate RefKept(r: RefRead, r': RefRead, more: seq<Byte>) {
    match r
    case NoRef => r' == NoRef
    case RefTo(index, rest) => r' == RefTo(index, rest + more)
    case RefBad(f) => f == EndOfStream || r' == r
  }

  lemma PayloadKept(bs: seq<Byte>, more: seq<Byte>)
    ensures RefKept(RefPayload(bs), RefPayload(bs + more), more)
  {
    if bs != [] {
      Tail(bs, more, 1);
      var b, rest := bs[0], bs[1..];
      assert (bs + more)[0] == b;
      WordsKept(rest, more);
      hide Take, Un16, Un32;
      if b == 0xcc {
        hide Read16, Read32;
      } else if b == 0xcd {
        hide Read32;
      }
    }
  }

  lemma ReferenceKept(bs: seq<Byte>, more: seq<Byte>)
    ensures RefKept(MaybeRef(bs), MaybeRef(bs + more), more)
  {
    hide RefPayload;
    if bs != [] {
      var body := if bs[0] == 0xc7 then 2 else 1;
      if |bs| > body {
        Tail(bs, more, body + 1);
        PayloadKept(bs[body + 1..], more);
      }
    }
  }

  // ---------- The decoder ----------

  function Longer(d: Progress, more: seq<Byte>): Progress { d.(bs := d.bs + more) }

  /** The outcome on a longer input: the same, unless the shorter input ended too early. */
  ghost predicate Stays(o: Decoded, o': Decoded, more: seq<Byte>) {
    match o
    case Dec(v, at) => o' == Dec(v, Longer(at, more))
    case Failed(f, _) => f == EndOfStream || o' == o
  }

  lemma {:induction false} DeclStays(reg: Registry, rank: map<Id, nat>, p: Route, d: Progress, id: Id, viaRef: bool,
                                     more: seq<Byte>)
    requires Guarded(reg, rank) && id in reg && p.rawDepth <= NEST_LIMIT + 1
    ensures Stays(DecDecl(reg, rank, p, d, id, viaRef), DecDecl(reg, rank, p, Longer(d, more), id, viaRef), more)
    decreases |d.bs|, 0, rank[id], 1
  {
    ReferenceKept(d.bs, more);
    hide MaybeRef, DecVal;
    var decl, r := reg[id], MaybeRef(d.bs);
    if r.NoRef? && !BeyondCap(decl, p, id, viaRef) {
      var b, p' := d.bs[0], EnterRoute(p, id, viaRef);
      assert (d.bs + more)[0] == b;
      if decl.Tracked() && (IsArrToken(b) || IsMapToken(b)) {
        ValStays(reg, rank, p'.(open := p.open + {|d.objs|}), Register(d, IsArrToken(b), p.pathDepth),
                 Some(decl.body), Some(|d.heap|), more);
      } else {
        ValStays(reg, rank, p', d, Some(decl.body), None, more);
      }
    }
  }

  lemma {:induction false} ValStays(reg: Registry, rank: map<Id, nat>, p: Route, d: Progress, s: Position,
                                    shell: Option<Addr>, more: seq<Byte>)
    requires Guarded(reg, rank) && p.rawDepth <= NEST_LIMIT + 1
    requires shell.Some? ==>
               && shell.value < |d.heap| && d.bs != []
               && (if d.heap[shell.value].Arr? then IsArrToken(d.bs[0]) else IsMapToken(d.bs[0]))
    ensures Stays(DecVal(reg, rank, p, d, s, shell), DecVal(reg, rank, p, Longer(d, more), s, shell), more)
    decreases |d.bs|, 0, if s.Some? then Bound(rank, s.value) else 0, 0
  {
    hide DecDecl, DecFill, MaybeRef, ReadHead, IsExtToken, IsArrToken, IsMapToken;
    if IsBoundary(s) {
      if s.value.target in reg { DeclStays(reg, rank, p, d, s.value.target, s.value.Ref?, more); }
    } else if d.bs != [] {
      assert (d.bs + more)[0] == d.bs[0];
      ReferenceKept(d.bs, more);
      HeadKept(d.bs, more);
      var r := ReadHead(d.bs);
      if !IsExtToken(d.bs[0]) && p.rawDepth <= NEST_LIMIT && r.Got? && !r.val.HeadPrim? {
        HeadConsumes(d.bs);
        HeadConsumes(d.bs + more);
        var d' := if shell.Some? then d else Allot(d, r.val.HeadArr?);
        var a := if shell.Some? then shell.value else |d.heap|;
        FillStays(reg, rank, p.(rawDepth := p.rawDepth + 1), d'.(bs := r.rest), s, r.val.n, a, more);
      }
    }
  }

  lemma {:induction false} FillStays(reg: Registry, rank: map<Id, nat>, p: Route, d: Progress, s: Position, n: nat,
                                     a: Addr, more: seq<Byte>)
    requires Guarded(reg, rank) && p.rawDepth <= NEST_LIMIT + 1 && a < |d.heap|
    ensures Stays(DecFill(reg, rank, p, d, s, n, a), DecFill(reg, rank, p, Longer(d, more), s, n, a), more)
    decreases |d.bs|, 2
  {
    hide DecElems, DecFields;
    if d.heap[a].Arr? {
      ElemsStay(reg, rank, p, d, s, n, a, more);
    } else {
      FieldsStay(reg, rank, p, d, s, n, a, more);
    }
  }

  lemma {:induction false} ElemsStay(reg: Registry, rank: map<Id, nat>, p: Route, d: Progress, s: Position, n: nat,
                                     a: Addr, more: seq<Byte>)
    requires Guarded(reg, rank) && p.rawDepth <= NEST_LIMIT + 1 && a < |d.heap| && d.heap[a].Arr?
    ensures Stays(DecElems(reg, rank, p, d, s, n, a), DecElems(reg, rank, p, Longer(d, more), s, n, a), more)
    decreases |d.bs|, 1
  {
    hide DecVal, Guarded;
    if n > 0 {
      ValStays(reg, rank, p, d, Items(s), None, more);
      var first := DecVal(reg, rank, p, d, Items(s), None);
      if first.Dec? {
        var cell := Arr(first.at.heap[a].elems + [first.val]);
        ElemsStay(reg, rank, p, first.at.(heap := first.at.heap[a := cell]), s, n - 1, a, more);
      }
    }
  }

  lemma {:induction false} FieldsStay(reg: Registry, rank: map<Id, nat>, p: Route, d: Progress, s: Position, n: nat,
                                      a: Addr, more: seq<Byte>)
    requires Guarded(reg, rank) && p.rawDepth <= NEST_LIMIT + 1 && a < |d.heap| && d.heap[a].Rec?
    ensures Stays(DecFields(reg, rank, p, d, s, n, a), DecFields(reg, rank, p, Longer(d, more), s, n, a), more)
    decreases |d.bs|, 1
  {
    hide DecVal, Guarded, ReadKey;
    KeyKept(d.bs, more);
    var k := ReadKey(d.bs);
    if n > 0 && k.Got? {
      KeyConsumes(d.bs);
      ValStays(reg, rank, p, d.(bs := k.rest), At(s, k.val), None, more);
      var first := DecVal(reg, rank, p, d.(bs := k.rest), At(s, k.val), None);
      if first.Dec? {
        var cell := Rec(Put(first.at.heap[a].fields, k.val, first.val));
        FieldsStay(reg, rank, p, first.at.(heap := first.at.heap[a := cell]), s, n - 1, a, more);
      }
    }
  }

  lemma KeyConsumes(bs: seq<Byte>)
    requires ReadKey(bs).Got?
    ensures |ReadKey(bs).rest| < |bs|
  {
  }

  // ---------- Cut encodings ----------

  /** What decodes does not depend on the bytes after it, and what fails before its input ends fails
      whatever comes next. */
  lemma DecodingStays(reg: Registry, rank: map<Id, nat>, id: Id, bs: seq<Byte>, more: seq<Byte>)
    requires Guarded(reg, rank) && id in reg
    ensures Stays(Decode(reg, rank, id, bs), Decode(reg, rank, id, bs + more), more)
  {
    DeclStays(reg, rank, DEPARTURE, Progress(bs, [], [], 0), id, false, more);
  }

  /** An encoding that decodes, cut anywhere short of its end, fails with the end of the input: never
      with a value and never with another error. */
  lemma CutEncodingFails(w: World, id: Id, v: Val, n: nat)
    requires w.Ok() && JsHeap(w.heap) && PlainAliases(w.reg) && id in w.reg && InHeap(w.heap, v)
    requires var e := Encode(w, id, v); e.Enc? && e.shallow && e.licensed && n < |e.bytes|
    ensures var o := Decode(w.reg, w.rank, id, Encode(w, id, v).bytes[..n]);
            o.Failed? && o.fault == EndOfStream
  {
    hide Encode, Decode, JsHeap;
    var bytes := Encode(w, id, v).bytes;
    var short, more := bytes[..n], bytes[n..];
    assert short + more == bytes && bytes + [] == bytes;
    RoundTrip(w, id, v, []);
    DecodingStays(w.reg, w.rank, id, short, more);
  }
}
