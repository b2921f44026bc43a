/** Whatever bytes it is given, the decoder builds a proper heap. */
module DecodedHeap {
  import opened SchemaGraph
  import opened MsgPack
  import opened Codec

  ghost predicate Within(v: Val, n: nat) { v.Obj? ==> v.addr < n }

  /** The cell refers only to cells that exist, and its own keys are distinct. */
  ghost predicate ProperCell(cell: Cell, n: nat) {
    && (forall v | v in cell.Vals() :: Within(v, n))
    && (cell.Rec? ==> Distinct(cell.fields))
  }

  ghost predicate Proper(d: Progress) {
    && (forall i | 0 <= i < |d.objs| :: d.objs[i].addr < |d.heap|)
    && forall i | 0 <= i < |d.heap| :: ProperCell(d.heap[i], |d.heap|)
  }

  ghost predicate ProperResult(o: Decoded) { o.Dec? ==> Proper(o.at) && Within(o.val, |o.at.heap|) }

  lemma AllotProper(d: Progress, isArray: bool)
    requires Proper(d)
    ensures Proper(Allot(d, isArray))
  {
    var d' := Allot(d, isArray);
    forall i | 0 <= i < |d'.heap| ensures ProperCell(d'.heap[i], |d'.heap|) {
      if i < |d.heap| { assert ProperCell(d.heap[i], |d.heap|); }
    }
  }

  lemma RegisterProper(d: Progress, isArray: bool, pathDepth: nat)
    requires Proper(d)
    ensures Proper(Register(d, isArray, pathDepth))
  {
    AllotProper(d, isArray);
  }

  lemma CellProper(d: Progress, a: Addr)
    requires Proper(d) && a < |d.heap|
    ensures ProperCell(d.heap[a], |d.heap|)
  {
  }

  lemma StoreProper(d: Progress, a: Addr, cell: Cell)
    requires Proper(d) && a < |d.heap| && ProperCell(cell, |d.heap|)
    ensures Proper(d.(heap := d.heap[a := cell]))
  {
  }

  lemma {:induction false} PutKeys(fields: seq<Field>, k: Key, v: Val)
    ensures forall f | f in Put(fields, k, v) :: f.key == k || f in fields
    ensures forall f | f in Put(fields, k, v) :: f.val == v || f in fields
  {
    if fields != [] && fields[0].key != k {
      PutKeys(fields[1..], k, v);
      assert forall f | f in fields[1..] :: f in fields;
    }
  }

  lemma {:induction false} PutDistinct(fields: seq<Field>, k: Key, v: Val)
    requires Distinct(fields)
    ensures Distinct(Put(fields, k, v))
  {
    if fields == [] {
    } else if fields[0].key == k {
      var fields' := Put(fields, k, v);
      assert forall i | 0 <= i < |fields'| :: fields'[i].key == fields[i].key;
    } else {
      var rest, rest' := fields[1..], Put(fields[1..], k, v);
      PutDistinct(rest, k, v);
      PutKeys(rest, k, v);
      forall j | 0 <= j < |rest'| ensures rest'[j].key != fields[0].key {
        assert rest'[j] in rest';
        if rest'[j] in rest {
          var i :| 0 <= i < |rest| && rest[i] == rest'[j];
          assert fields[i + 1] == rest[i];
        }
      }
    }
  }

  lemma PushProper(cell: Cell, v: Val, n: nat)
    requires cell.Arr? && ProperCell(cell, n) && Within(v, n)
    ensures ProperCell(Arr(cell.elems + [v]), n)
  {
    forall x | x in Arr(cell.elems + [v]).Vals() ensures Within(x, n) {
      if x in cell.elems { assert x in cell.Vals(); }
    }
  }

  lemma {:induction false} PutProper(cell: Cell, k: Key, v: Val, n: nat)
    requires cell.Rec? && ProperCell(cell, n) && Within(v, n)
    ensures ProperCell(Rec(Put(cell.fields, k, v)), n)
  {
    PutDistinct(cell.fields, k, v);
    PutKeys(cell.fields, k, v);
    forall x | x in Rec(Put(cell.fields, k, v)).Vals() ensures Within(x, n) {
      if x != v { assert x in cell.Vals(); }
    }
  }

  lemma {:induction false} DeclProper(reg: Registry, rank: map<Id, nat>, p: Route, d: Progress, id: Id, viaRef: bool)
    requires Guarded(reg, rank) && id in reg && p.rawDepth <= NEST_LIMIT + 1 && Proper(d)
    ensures ProperResult(DecDecl(reg, rank, p, d, id, viaRef))
    decreases |d.bs|, 0, rank[id], 1
  {
    hide DecVal, Proper;
    var decl := reg[id];
    match MaybeRef(d.bs)
    case RefBad(_) =>
    case RefTo(index, rest) => FollowProper(decl, id, p, d, index, rest);
    case NoRef =>
      if !BeyondCap(decl, p, id, viaRef) {
        var b := d.bs[0];
        if decl.Tracked() && (IsArrToken(b) || IsMapToken(b)) {
          RegisterProper(d, IsArrToken(b), p.pathDepth);
          ValProper(reg, rank, EnterRoute(p, id, viaRef).(open := p.open + {|d.objs|}),
                    Register(d, IsArrToken(b), p.pathDepth), Some(decl.body), Some(|d.heap|));
        } else {
          ValProper(reg, rank, EnterRoute(p, id, viaRef), d, Some(decl.body), None);
        }
      }
  }

  lemma FollowProper(decl: Decl, id: Id, p: Route, d: Progress, index: nat, rest: seq<Byte>)
    requires Proper(d)
    ensures ProperResult(FollowRef(decl, id, p, d, index, rest))
  {
  }

  lemma {:induction false} ValProper(reg: Registry, rank: map<Id, nat>, p: Route, d: Progress, s: Position,
                                     shell: Option<Addr>)
    requires Guarded(reg, rank) && p.rawDepth <= NEST_LIMIT + 1 && Proper(d)
    requires shell.Some? ==>
               && shell.value < |d.heap| && d.bs != []
               && (if d.heap[shell.value].Arr? then IsArrToken(d.bs[0]) else IsMapToken(d.bs[0]))
    ensures ProperResult(DecVal(reg, rank, p, d, s, shell))
    decreases |d.bs|, 0, if s.Some? then Bound(rank, s.value) else 0, 0
  {
    hide DecDecl, DecFill, Proper, ReadHead;
    if IsBoundary(s) {
      if s.value.target in reg { DeclProper(reg, rank, p, d, s.value.target, s.value.Ref?); }
    } else if d.bs != [] && !IsExtToken(d.bs[0]) && p.rawDepth <= NEST_LIMIT && ReadHead(d.bs).Got? {
      HeadConsumes(d.bs);
      var head, rest := ReadHead(d.bs).val, ReadHead(d.bs).rest;
      if head.HeadPrim? {
        MovedProper(d, rest, d.built + 1);
      } else {
        AllotProper(d, head.HeadArr?);
        var d' := if shell.Some? then d else Allot(d, head.HeadArr?);
        var a := if shell.Some? then shell.value else |d.heap|;
        MovedProper(d', rest, d'.built);
        FillProper(reg, rank, p.(rawDepth := p.rawDepth + 1), d'.(bs := rest), s, head.n, a);
      }
    }
  }

  lemma MovedProper(d: Progress, bs: seq<Byte>, built: nat)
    requires Proper(d)
    ensures Proper(d.(bs := bs, built := built)) && Proper(d.(bs := bs))
  {
  }

  lemma {:induction false} FillProper(reg: Registry, rank: map<Id, nat>, p: Route, d: Progress, s: Position, n: nat,
                                      a: Addr)
    requires Guarded(reg, rank) && p.rawDepth <= NEST_LIMIT + 1 && a < |d.heap| && Proper(d)
    ensures ProperResult(DecFill(reg, rank, p, d, s, n, a))
    decreases |d.bs|, 2
  {
    hide DecElems, DecFields, Proper;
    if d.heap[a].Arr? { ElemsProper(reg, rank, p, d, s, n, a); } else { FieldsProper(reg, rank, p, d, s, n, a); }
  }

  lemma {:induction false} ElemsProper(reg: Registry, rank: map<Id, nat>, p: Route, d: Progress, s: Position, n: nat,
                                       a: Addr)
    requires Guarded(reg, rank) && p.rawDepth <= NEST_LIMIT + 1 && a < |d.heap| && d.heap[a].Arr? && Proper(d)
    ensures ProperResult(DecElems(reg, rank, p, d, s, n, a))
    decreases |d.bs|, 1
  {
    hide DecVal, Proper, Bounded, Distinct;
    if n > 0 {
      ValProper(reg, rank, p, d, Items(s), None);
      var first := DecVal(reg, rank, p, d, Items(s), None);
      if first.Dec? {
        var cell := first.at.heap[a];
        CellProper(first.at, a);
        PushProper(cell, first.val, |first.at.heap|);
        StoreProper(first.at, a, Arr(cell.elems + [first.val]));
        ElemsProper(reg, rank, p, first.at.(heap := first.at.heap[a := Arr(cell.elems + [first.val])]), s, n - 1, a);
      }
    }
  }

  lemma KeyConsumes(bs: seq<Byte>)
    ensures ReadKey(bs).Got? ==> |ReadKey(bs).rest| < |bs|
  {
  }

  lemma {:induction false} FieldsProper(reg: Registry, rank: map<Id, nat>, p: Route, d: Progress, s: Position, n: nat,
                                        a: Addr)
    requires Guarded(reg, rank) && p.rawDepth <= NEST_LIMIT + 1 && a < |d.heap| && d.heap[a].Rec? && Proper(d)
    ensures ProperResult(DecFields(reg, rank, p, d, s, n, a))
    decreases |d.bs|, 1
  {
    KeyConsumes(d.bs);
    hide DecVal, Put, Proper, Bounded, Distinct, ReadKey;
    if n > 0 && ReadKey(d.bs).Got? {
      var key, rest := ReadKey(d.bs).val, ReadKey(d.bs).rest;
      MovedProper(d, rest, d.built);
      ValProper(reg, rank, p, d.(bs := rest), At(s, key), None);
      var first := DecVal(reg, rank, p, d.(bs := rest), At(s, key), None);
      if first.Dec? {
        var cell := first.at.heap[a];
        CellProper(first.at, a);
        PutProper(cell, key, first.val, |first.at.heap|);
        StoreProper(first.at, a, Rec(Put(cell.fields, key, first.val)));
        var heap := first.at.heap[a := Rec(Put(cell.fields, key, first.val))];
        FieldsProper(reg, rank, p, first.at.(heap := heap), s, n - 1, a);
      }
    }
  }

  /** The decoded cells as a heap. */
  ghost function HeapOf(cells: seq<Cell>): Heap { map a: Addr | 0 <= a < |cells| :: cells[a] }

  /** Every byte string that decodes gives a value of a closed heap with distinct own keys, so
      that the validator and the encoder can be run on it. */
  lemma DecodedIsProper(reg: Registry, rank: map<Id, nat>, id: Id, bs: seq<Byte>)
    requires Guarded(reg, rank) && id in reg && Decode(reg, rank, id, bs).Dec?
    ensures var o := Decode(reg, rank, id, bs);
            var heap := HeapOf(o.at.heap);
            && World(reg, heap, rank).Ok() && InHeap(heap, o.val)
            && forall a | a in heap && heap[a].Rec? :: Distinct(heap[a].fields)
  {
    hide DecDecl, Guarded, Distinct;
    DeclProper(reg, rank, DEPARTURE, Progress(bs, [], [], 0), id, false);
    var o := Decode(reg, rank, id, bs);
    var heap := HeapOf(o.at.heap);
    forall a, v | a in heap && v in heap[a].Vals() ensures InHeap(heap, v) {
      assert ProperCell(o.at.heap[a], |o.at.heap|);
    }
  }
}
