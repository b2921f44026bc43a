/** The schema-driven codec as functions.  The encoder threads its identity table, the decoder
    its input, its table of objects and the heap it builds; what a `finally` block restores in
    the source is a parameter here. */
module Codec {
  import opened SchemaGraph
  import opened MsgPack

  // ---------- Schema positions ----------

  /** The schema at the position of a value; `None` is a schema-less region. */
  type Position = Option<Schema>

  function Items(s: Position): Position {
    if s.Some? && s.value.Node? then s.value.items else None
  }

  /** The schema of a property, looked up by its key. */
  function PropertyAt(list: seq<Property>, k: Key): (s: Position)
    ensures s.None? <==> forall p | p in list :: p.key != k
    ensures s.Some? ==> exists p :: p in list && p.key == k && p.schema == s.value
  {
    if list == [] then None
    else if list[0].key == k then
      assert list[0] in list;
      Some(list[0].schema)
    else
      assert forall p | p in list :: p == list[0] || p in list[1..];
      PropertyAt(list[1..], k)
  }

  function At(s: Position, k: Key): Position {
    if s.Some? && s.value.Node? && s.value.properties.Properties? then PropertyAt(s.value.properties.list, k)
    else None
  }

  predicate IsBoundary(s: Position) { s.Some? && !s.value.Node? }

  // ---------- Encoder ----------

  datatype Refusal =
    | CycleInAcyclic(id: Id)
    | CycleOutsideSchema
    | DepthExceeded(id: Id)
    | BigTooWide
    | Unresolved(id: Id)
    | StackExhausted  // the source recurses until the engine stops it

  /** The context of the path from the root: what the source restores on the way back.  The
      last three fields are not in the source's encoder; they track what the decoder will know
      at the same point, so that the walk can report whether the decoder's own guards hold. */
  datatype Trail = Trail(
    inflight: set<Pair>,
    depths: multiset<Id>,
    rawStack: set<Addr>,
    rawDepth: nat,
    pathDepth: nat,
    open: map<Addr, nat>)

  const ROOT := Trail({}, multiset{}, {}, 0, 0, map[])

  /** `ids` is the identity table.  `shallow` and `licensed` report on the decoder's guards:
      no token lies under more than 1024 containers; no primitive lies beyond a depth cap and
      no reference closes a cycle that its declaration does not allow. */
  datatype Encoded =
    | Enc(bytes: seq<Byte>, ids: map<Addr, nat>, shallow: bool, licensed: bool)
    | Refused(why: Refusal)
  {
    function After(prefix: seq<Byte>, before: Encoded): Encoded
      requires before.Enc?
    {
      match this
      case Refused(_) => this
      case Enc(b, i, s, l) => Enc(before.bytes + prefix + b, i, before.shallow && s, before.licensed && l)
    }

    function Under(shallow': bool, licensed': bool): Encoded {
      match this
      case Refused(_) => this
      case Enc(b, i, s, l) => Enc(b, i, shallow' && s, licensed' && l)
    }
  }

  const NEST_LIMIT := 1024

  /** The backreference token: an ext8 whose payload is a MessagePack uint. */
  function WriteUint(n: nat): seq<Byte> {
    if n < 0x80 then [n]
    else if n < 0x100 then [0xcc, n]
    else if n < 0x1_0000 then [0xcd] + Be16(n)
    else [0xce] + Be32(n % 0x1_0000_0000)
  }

  function WriteRef(n: nat): seq<Byte> { [0xc7, |WriteUint(n)|, 0x50] + WriteUint(n) }

  /** The fields that are written: `undefined` ones are dropped. */
  function Kept(fields: seq<Field>): (kept: seq<Field>)
    ensures |kept| <= |fields|
    ensures forall f | f in kept :: f in fields && f.val != Prim(Undefined)
  {
    if fields == [] then []
    else
      var rest := Kept(fields[1..]);
      assert forall f | f in fields[1..] :: f in fields;
      if fields[0].val == Prim(Undefined) then rest else [fields[0]] + rest
  }

  /** What the language guarantees of a heap: no dangling reference, own keys distinct, and
      lengths and object counts that fit 32 bits. */
  ghost predicate JsHeap(heap: Heap) {
    && Closed(heap)
    && |heap| <= 0x1_0000_0000
    && forall a | a in heap ::
         match heap[a]
         case Arr(elems) => |elems| < 0x1_0000_0000
         case Rec(fields) => |fields| < 0x1_0000_0000 && Distinct(fields)
  }

  /** The identity table only gains entries. */
  ghost predicate Grew(ids: map<Addr, nat>, ids': map<Addr, nat>) {
    forall a | a in ids :: a in ids' && ids'[a] == ids[a]
  }

  function EnterTrail(p: Trail, pair: Pair, viaRef: bool, tracked: bool): Trail {
    p.(inflight := p.inflight + {pair},
       depths := if viaRef then p.depths + multiset{pair.id} else p.depths,
       pathDepth := p.pathDepth + 1,
       open := if tracked then p.open[pair.addr := p.pathDepth] else p.open)
  }

  ghost function Unentered(w: World, p: Trail): set<Pair> { w.Pairs() - p.inflight }

  /** The decoder's check of a reference to an object that is still open. */
  predicate RefAllowed(decl: Decl, p: Trail, a: Addr) {
    a in p.open ==>
      match decl.cyclic
      case Acyclic => false
      case AnyLength => true
      case UpTo(hops) => p.pathDepth - p.open[a] <= hops
  }

  /** Crosses a declaration boundary. */
  ghost function EncDecl(w: World, p: Trail, ids: map<Addr, nat>, id: Id, v: Val, viaRef: bool): (e: Encoded)
    requires w.Ok() && JsHeap(w.heap) && id in w.reg && InHeap(w.heap, v)
    ensures e.Enc? ==> Grew(ids, e.ids)
    decreases Unentered(w, p), if v.Obj? then 1 else 0, w.heap.Keys - p.rawStack,
              if v.Obj? then 0 else w.rank[id], if v.Obj? then 0 else 2
  {
    var decl := w.reg[id];
    var tooDeep := viaRef && decl.Capped(p.depths[id] + 1);
    if v.Prim? then
      EncVal(w, p.(pathDepth := p.pathDepth + 1), ids, Some(decl.body), v, {}).Under(true, !tooDeep)
    else
      var pair := Pair(v.addr, id);
      if decl.Tracked() && v.addr in ids then
        if decl.cyclic.Acyclic? && pair in p.inflight then Refused(CycleInAcyclic(id))
        else Enc(WriteRef(ids[v.addr]), ids, true, RefAllowed(decl, p, v.addr))
      else if pair in p.inflight then Refused(CycleInAcyclic(id))
      else if tooDeep then Refused(DepthExceeded(id))
      else
        assert pair in Unentered(w, p);
        var ids' := if decl.Tracked() then ids[v.addr := |ids|] else ids;
        EncVal(w, EnterTrail(p, pair, viaRef, decl.Tracked()), ids', Some(decl.body), v, {})
  }

  /** Encodes a value at a schema position.  `chain` holds the schema-less arrays that enclose
      the value with no object in between: meeting one again is a loop no guard catches. */
  ghost function EncVal(w: World, p: Trail, ids: map<Addr, nat>, s: Position, v: Val, chain: set<Addr>): (e: Encoded)
    requires w.Ok() && JsHeap(w.heap) && InHeap(w.heap, v)
    ensures e.Enc? ==> Grew(ids, e.ids)
    decreases Unentered(w, p), if v.Obj? then 1 else 0, w.heap.Keys - p.rawStack,
              if v.Obj? || s.None? then 0 else Bound(w.rank, s.value), if s.Some? then 1 else 0,
              if s.Some? then s.value else Ref(""), if s.Some? then {} else w.heap.Keys - chain
  {
    if IsBoundary(s) then
      if s.value.target in w.reg then EncDecl(w, p, ids, s.value.target, v, s.value.Ref?)
      else Refused(Unresolved(s.value.target))
    else
      var shallow := p.rawDepth <= NEST_LIMIT;
      match v
      case Prim(prim) =>
        if Writable(HeadPrim(prim)) then Enc(WriteHead(HeadPrim(prim)), ids, shallow, true)
        else Refused(BigTooWide)
      case Obj(a) =>
        assert forall x | x in w.heap[a].Vals() :: InHeap(w.heap, x);
        match w.heap[a]
        case Arr(elems) =>
          if s.None? && a in chain then Refused(StackExhausted)
          else
            EncElems(w, p.(rawDepth := p.rawDepth + 1), ids, s, elems, chain, a)
            .After([], Enc(WriteHead(HeadArr(|elems|)), ids, shallow, true))
        case Rec(fields) =>
          if a in p.rawStack then Refused(CycleOutsideSchema)
          else
            var kept := Kept(fields);
            assert a in w.heap.Keys - p.rawStack;
            EncFields(w, p.(rawDepth := p.rawDepth + 1, rawStack := p.rawStack + {a}), ids, s, kept)
            .After([], Enc(WriteHead(HeadMap(|kept|)), ids, shallow, true))
  }

  /** The elements of array `a`. */
  ghost function EncElems(w: World, p: Trail, ids: map<Addr, nat>, s: Position, elems: seq<Val>, chain: set<Addr>,
                          a: Addr): (e: Encoded)
    requires w.Ok() && JsHeap(w.heap) && !IsBoundary(s)
    requires (forall v | v in elems :: InHeap(w.heap, v)) && a in w.heap && (s.None? ==> a !in chain)
    ensures e.Enc? ==> Grew(ids, e.ids)
    decreases Unentered(w, p), 1, w.heap.Keys - p.rawStack, 0, if s.Some? then 1 else 0,
              if s.Some? then s.value else Ref(""), if s.Some? then {} else w.heap.Keys - chain, |elems|
  {
    if elems == [] then Enc([], ids, true, true)
    else
      assert s.None? ==> a in w.heap.Keys - chain;
      var first := EncVal(w, p, ids, Items(s), elems[0], if s.None? then chain + {a} else {});
      if first.Refused? then first
      else EncElems(w, p, first.ids, s, elems[1..], chain, a).After([], first)
  }

  ghost function EncFields(w: World, p: Trail, ids: map<Addr, nat>, s: Position, fields: seq<Field>): (e: Encoded)
    requires w.Ok() && JsHeap(w.heap)
    requires forall f | f in fields :: InHeap(w.heap, f.val)
    ensures e.Enc? ==> Grew(ids, e.ids)
    decreases Unentered(w, p), 1, w.heap.Keys - p.rawStack, 0, 2, |fields|
  {
    if fields == [] then Enc([], ids, true, true)
    else
      var first := EncVal(w, p, ids, At(s, fields[0].key), fields[0].val, {});
      if first.Refused? then first
      else
        EncFields(w, p, first.ids, s, fields[1..])
        .After([], Enc(WriteStr(fields[0].key) + first.bytes, first.ids, first.shallow, first.licensed))
  }

  ghost function Encode(w: World, id: Id, v: Val): Encoded
    requires w.Ok() && JsHeap(w.heap) && id in w.reg && InHeap(w.heap, v)
  {
    EncDecl(w, ROOT, map[], id, v, false)
  }

  // ---------- Decoder ----------

  /** A tracked object in the order of encounter, with the path depth of its entry. */
  datatype Entry = Entry(addr: Addr, pathDepth: nat)

  /** The remaining input, the tracked objects, the heap built so far (an address is a position)
      and the number of values built so far. */
  datatype Progress = Progress(bs: seq<Byte>, objs: seq<Entry>, heap: seq<Cell>, built: nat)

  /** The decoder's path context: `open` holds the tracked objects still under construction. */
  datatype Route = Route(depths: multiset<Id>, rawDepth: nat, pathDepth: nat, open: set<nat>)

  const DEPARTURE := Route(multiset{}, 0, 0, {})

  datatype Decoded = Dec(val: Val, at: Progress) | Failed(fault: Fault, built: nat)

  datatype RefRead = NoRef | RefTo(index: nat, rest: seq<Byte>) | RefBad(fault: Fault)

  /** Reads a backreference if the next token is an ext of a length that the source probes. */
  function MaybeRef(bs: seq<Byte>): (r: RefRead)
    ensures r.RefTo? ==> |r.rest| < |bs|
    ensures r.NoRef? ==> bs != []
  {
    if bs == [] then RefBad(EndOfStream)
    else if !(0xd4 <= bs[0] <= 0xd7 || bs[0] == 0xc7) then NoRef
    else
      var body := if bs[0] == 0xc7 then 2 else 1;  // an ext8 carries a length byte, which is not checked
      if |bs| < body + 1 then RefBad(EndOfStream)
      else if bs[body] != 0x50 then RefBad(BadExt)
      else RefPayload(bs[body + 1..])
  }

  function RefPayload(bs: seq<Byte>): RefRead {
    match Read8(bs)
    case Bad(f) => RefBad(f)
    case Got(b, rest) =>
      if b < 0x80 then RefTo(b, rest)
      else if b == 0xcc then RefWord(Read8(rest))
      else if b == 0xcd then RefWord(Read16(rest))
      else if b == 0xce then RefWord(Read32(rest))
      else RefBad(BadExt)
  }

  /** A backreference where none may stand; a malformed one fails as it is probed. */
  function ProbeFault(bs: seq<Byte>): Fault {
    match MaybeRef(bs)
    case RefBad(f) => f
    case _ => MisplacedRef
  }

  function RefWord(r: Read<Word32>): RefRead {
    match r
    case Bad(f) => RefBad(f)
    case Got(n, rest) => RefTo(n, rest)
  }

  function Empty(isArray: bool): Cell { if isArray then Arr([]) else Rec([]) }

  /** `obj[key] = v` */
  function Put(fields: seq<Field>, k: Key, v: Val): seq<Field> {
    if fields == [] then [Field(k, v)]
    else if fields[0].key == k then [Field(k, v)] + fields[1..]
    else [fields[0]] + Put(fields[1..], k, v)
  }

  /** Only untracked declarations are aliases, and only of untracked declarations. */
  predicate PlainAliases(reg: Registry) {
    forall id | id in reg && !reg[id].body.Node? ::
      !reg[id].Tracked() && (reg[id].body.target in reg ==> !reg[reg[id].body.target].Tracked())
  }

  /** No tracked declaration is an alias of another. */
  predicate TrackedNodes(reg: Registry) { forall id | id in reg && reg[id].Tracked() :: reg[id].body.Node? }

  /** What a step of the decoder keeps: it appends to the tables and leaves every existing cell
      alone, except that it fills the shell it was given. */
  ghost predicate Advances(d: Progress, o: Decoded, shell: Option<Addr>) {
    o.Dec? ==>
      && d.objs <= o.at.objs
      && |d.heap| <= |o.at.heap|
      && (forall i | 0 <= i < |d.heap| :: o.at.heap[i].Arr? == d.heap[i].Arr?)
      && (forall i | 0 <= i < |d.heap| && shell != Some(i) :: o.at.heap[i] == d.heap[i])
  }

  /** Each value built is paid for by a byte of input; a shell's byte is paid when it is filled. */
  ghost predicate Bounded(d: Progress, o: Decoded, shell: Option<Addr>) {
    var budget := d.built + |d.bs| - if shell.Some? then 1 else 0;
    match o
    case Failed(_, built) => built <= budget
    case Dec(_, at) => at.built + |at.bs| <= budget && at.built - d.built >= |at.heap| - |d.heap|
  }

  predicate BeyondCap(decl: Decl, p: Route, id: Id, viaRef: bool) {
    viaRef && decl.Capped(p.depths[id] + 1)
  }

  /** Resolves a backreference at declaration `id`. */
  function FollowRef(decl: Decl, id: Id, p: Route, d: Progress, index: nat, rest: seq<Byte>): Decoded {
    if !decl.Tracked() then Failed(MisplacedRef, d.built)
    else if index >= |d.objs| then Failed(DanglingRef, d.built)
    else if index in p.open && decl.cyclic.Acyclic? then Failed(CycleNotAllowed(id), d.built)
    else if index in p.open && decl.cyclic.UpTo? && p.pathDepth - d.objs[index].pathDepth > decl.cyclic.hops then
      Failed(CycleTooLong(id), d.built)
    else Dec(Obj(d.objs[index].addr), d.(bs := rest))
  }

  ghost function DecDecl(reg: Registry, rank: map<Id, nat>, p: Route, d: Progress, id: Id, viaRef: bool): (o: Decoded)
    requires Guarded(reg, rank) && id in reg && p.rawDepth <= NEST_LIMIT + 1
    ensures Advances(d, o, None) && (o.Dec? ==> |o.at.bs| < |d.bs|)
    ensures TrackedNodes(reg) ==> Bounded(d, o, None)
    decreases |d.bs|, 0, rank[id], 1
  {
    hide MaybeRef;
    var decl := reg[id];
    match MaybeRef(d.bs)
    case RefBad(f) => Failed(f, d.built)
    case RefTo(index, rest) => FollowRef(decl, id, p, d, index, rest)
    case NoRef =>
      if BeyondCap(decl, p, id, viaRef) then Failed(TooDeep(id), d.built)
      else
        var b := d.bs[0];
        if decl.Tracked() && (IsArrToken(b) || IsMapToken(b)) then
          // Shell first: registered before it is filled.
          DecVal(reg, rank, EnterRoute(p, id, viaRef).(open := p.open + {|d.objs|}),
                 Register(d, IsArrToken(b), p.pathDepth), Some(decl.body), Some(|d.heap|))
        else DecVal(reg, rank, EnterRoute(p, id, viaRef), d, Some(decl.body), None)
  }

  function EnterRoute(p: Route, id: Id, viaRef: bool): Route {
    p.(depths := if viaRef then p.depths + multiset{id} else p.depths, pathDepth := p.pathDepth + 1)
  }

  /** Allots a shell and registers it as the next tracked object. */
  function Register(d: Progress, isArray: bool, pathDepth: nat): Progress {
    Allot(d, isArray).(objs := d.objs + [Entry(|d.heap|, pathDepth)])
  }

  /** Appends an empty cell. */
  function Allot(d: Progress, isArray: bool): Progress {
    d.(heap := d.heap + [Empty(isArray)], built := d.built + 1)
  }

  ghost function DecVal(reg: Registry, rank: map<Id, nat>, p: Route, d: Progress, s: Position,
                        shell: Option<Addr>): (o: Decoded)
    requires Guarded(reg, rank) && p.rawDepth <= NEST_LIMIT + 1
    requires shell.Some? ==>
               && shell.value < |d.heap| && d.bs != []
               && (if d.heap[shell.value].Arr? then IsArrToken(d.bs[0]) else IsMapToken(d.bs[0]))
    ensures Advances(d, o, shell) && (o.Dec? ==> |o.at.bs| < |d.bs|)
    ensures TrackedNodes(reg) && (shell.Some? ==> !IsBoundary(s)) ==> Bounded(d, o, shell)
    decreases |d.bs|, 0, if s.Some? then Bound(rank, s.value) else 0, 0
  {
    if IsBoundary(s) then
      if s.value.target in reg then DecDecl(reg, rank, p, d, s.value.target, s.value.Ref?)
      else Failed(NoSuchSchema(s.value.target), d.built)
    else if d.bs == [] then Failed(EndOfStream, d.built)
    else if IsExtToken(d.bs[0]) then Failed(ProbeFault(d.bs), d.built)
    else if p.rawDepth > NEST_LIMIT then Failed(TooNested, d.built)
    else
      hide ReadHead;
      match ReadHead(d.bs)
      case Bad(f) => Failed(f, d.built)
      case Got(head, rest) =>
        HeadConsumes(d.bs);
        if head.HeadPrim? then Dec(Prim(head.prim), d.(bs := rest, built := d.built + 1))
        else
          var d' := if shell.Some? then d else Allot(d, head.HeadArr?);
          var a := if shell.Some? then shell.value else |d.heap|;
          DecFill(reg, rank, p.(rawDepth := p.rawDepth + 1), d'.(bs := rest), s, head.n, a)
  }

  /** Fills the empty container `a`. */
  ghost function DecFill(reg: Registry, rank: map<Id, nat>, p: Route, d: Progress, s: Position, n: nat,
                         a: Addr): (o: Decoded)
    requires Guarded(reg, rank) && p.rawDepth <= NEST_LIMIT + 1 && a < |d.heap|
    ensures Advances(d, o, Some(a)) && (o.Dec? ==> |o.at.bs| <= |d.bs|)
    ensures TrackedNodes(reg) ==> Bounded(d, o, None)
    decreases |d.bs|, 2
  {
    if d.heap[a].Arr? then DecElems(reg, rank, p, d, s, n, a) else DecFields(reg, rank, p, d, s, n, a)
  }

  /** Reads a token, and the token tells which container it opens. */
  lemma HeadConsumes(bs: seq<Byte>)
    requires ReadHead(bs).Got?
    ensures |ReadHead(bs).rest| < |bs|
    ensures ReadHead(bs).val.HeadArr? == IsArrToken(bs[0]) && ReadHead(bs).val.HeadMap? == IsMapToken(bs[0])
  {
  }

  /** Pushes `n` elements onto array `a`. */
  ghost function DecElems(reg: Registry, rank: map<Id, nat>, p: Route, d: Progress, s: Position, n: nat,
                          a: Addr): (o: Decoded)
    requires Guarded(reg, rank) && p.rawDepth <= NEST_LIMIT + 1 && a < |d.heap| && d.heap[a].Arr?
    ensures Advances(d, o, Some(a)) && (o.Dec? ==> |o.at.bs| <= |d.bs|)
    ensures TrackedNodes(reg) ==> Bounded(d, o, None)
    decreases |d.bs|, 1
  {
    if n == 0 then Dec(Obj(a), d)
    else
      var first := DecVal(reg, rank, p, d, Items(s), None);
      if first.Failed? then first
      else
        var cell := Arr(first.at.heap[a].elems + [first.val]);
        DecElems(reg, rank, p, first.at.(heap := first.at.heap[a := cell]), s, n - 1, a)
  }

  /** Reads `n` keyed fields into object `a`. */
  ghost function DecFields(reg: Registry, rank: map<Id, nat>, p: Route, d: Progress, s: Position, n: nat,
                           a: Addr): (o: Decoded)
    requires Guarded(reg, rank) && p.rawDepth <= NEST_LIMIT + 1 && a < |d.heap| && d.heap[a].Rec?
    ensures Advances(d, o, Some(a)) && (o.Dec? ==> |o.at.bs| <= |d.bs|)
    ensures TrackedNodes(reg) ==> Bounded(d, o, None)
    decreases |d.bs|, 1
  {
    if n == 0 then Dec(Obj(a), d)
    else
      match ReadKey(d.bs)
      case Bad(f) => Failed(f, d.built)
      case Got(key, rest) =>
        var first := DecVal(reg, rank, p, d.(bs := rest), At(s, key), None);
        if first.Failed? then first
        else
          var cell := Rec(Put(first.at.heap[a].fields, key, first.val));
          DecFields(reg, rank, p, first.at.(heap := first.at.heap[a := cell]), s, n - 1, a)
  }

  ghost function Decode(reg: Registry, rank: map<Id, nat>, id: Id, bs: seq<Byte>): Decoded
    requires Guarded(reg, rank) && id in reg
  {
    DecDecl(reg, rank, DEPARTURE, Progress(bs, [], [], 0), id, false)
  }
}
