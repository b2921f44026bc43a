/** When the encoder does not refuse, and when what it writes decodes. */
module EncodeSucceeds {
  import opened SchemaGraph
  import opened MsgPack
  import opened Codec
  import opened ValidatorComplete
  import opened CodecReplay
  import opened CodecTheorems

  /** An object at a schema position; `loose` if it was entered through a cyclic declaration. */
  datatype Spot = Spot(pos: Position, addr: Addr, loose: bool)

  /** Why a walk comes to an end: the spots it can meet, all of them objects of `all`; heights that
      fall along references, except where `level` lets cyclic declarations refer to each other at
      will; and a bound on how many containers lie on a path.  `lead` is 1 if the root declaration
      is an alias, and no chain of aliases is longer than `stretch`. */
  datatype Plan = Plan(
    ghost spots: iset<Spot>, height: map<Addr, nat>, all: set<Addr>, level: bool, bound: nat, lead: nat, stretch: nat)

  ghost predicate Licensed(reg: Registry, id: Id) { id in reg && !reg[id].cyclic.Acyclic? }

  /** A child stays level only on the way from one cyclic declaration into another. */
  ghost predicate Falls(g: Plan, n: nat, b: Addr, loose: bool) {
    b in g.height && b in g.all && if g.level && loose then g.height[b] <= n else g.height[b] < n
  }

  /** Object `b` can be encoded at declaration `id`, whose aliases end at a body. */
  ghost predicate Admits(w: World, g: Plan, id: Id, b: Addr) {
    Landing(w.reg, id, {}).Some? && Spot(Landing(w.reg, id, {}), b, Licensed(w.reg, id)) in g.spots
  }

  /** The child `x` of an object at height `n` can be encoded at position `s`. */
  ghost predicate Enters(w: World, g: Plan, n: nat, loose: bool, s: Position, x: Val) {
    && (IsBoundary(s) ==> s.value.target in w.reg && Landing(w.reg, s.value.target, {}).Some?)
    && match x
       case Prim(p) => Writable(HeadPrim(p))
       case Obj(b) =>
         if IsBoundary(s) then
           var id := s.value.target;
           Admits(w, g, id, b) && Falls(g, n, b, loose && Licensed(w.reg, id))
         else Spot(s, b, false) in g.spots && Falls(g, n, b, false)
  }

  /** The schema of the elements of an array at position `pos` is `s`. */
  ghost predicate HasElements(pos: Position, s: Position) {
    s == if pos.Some? && pos.value.Node? then pos.value.items else None
  }

  /** The schema of field `k` of an object at position `pos` is `s`: that of a property with this key,
      or none where no property has it. */
  ghost predicate HasField(pos: Position, k: Key, s: Position) {
    var declared := pos.Some? && pos.value.Node? && pos.value.properties.Properties?;
    var list := if declared then pos.value.properties.list else [];
    if s.Some? then exists p :: p in list && p.key == k && p.schema == s.value else forall p | p in list :: p.key != k
  }

  /** The parts of the object can be encoded where it stands. */
  ghost predicate PartsEnter(w: World, g: Plan, t: Spot)
    requires t.addr in w.heap && t.addr in g.height
  {
    match w.heap[t.addr]
    case Arr(elems) =>
      forall x, s | x in elems && HasElements(t.pos, s) :: Enters(w, g, g.height[t.addr], t.loose, s, x)
    case Rec(fields) =>
      forall f, s | f in fields && f.val != Prim(Undefined) && HasField(t.pos, f.key, s) ::
        Enters(w, g, g.height[t.addr], t.loose, s, f.val)
  }

  ghost predicate Encodable(w: World, g: Plan) {
    forall t | t in g.spots ::
      t.addr in w.heap && t.addr in g.height && !IsBoundary(t.pos) && PartsEnter(w, g, t)
  }

  lemma PartsAreMet(w: World, g: Plan, t: Spot)
    requires t.addr in w.heap && t.addr in g.height && PartsEnter(w, g, t)
    ensures match w.heap[t.addr]
            case Arr(elems) => forall x | x in elems :: Enters(w, g, g.height[t.addr], t.loose, Items(t.pos), x)
            case Rec(fields) =>
              forall f | f in Kept(fields) :: Enters(w, g, g.height[t.addr], t.loose, At(t.pos, f.key), f.val)
  {
    hide Enters, Kept;
    if w.heap[t.addr].Arr? {
      assert HasElements(t.pos, Items(t.pos));
    } else {
      forall f | f in Kept(w.heap[t.addr].fields)
        ensures Enters(w, g, g.height[t.addr], t.loose, At(t.pos, f.key), f.val)
      {
        assert HasField(t.pos, f.key, At(t.pos, f.key));
      }
    }
  }

  // ---------- Aliases ----------

  /** The number of declarations that an object enters at `id`, which leads over aliases to a body. */
  ghost function Chain(w: World, id: Id): nat
    requires w.Ok() && id in w.reg
    decreases w.rank[id]
  {
    var body := w.reg[id].body;
    if !body.Node? && body.target in w.reg then
      assert Bound(w.rank, body) <= w.rank[id];
      1 + Chain(w, body.target)
    else 1
  }

  ghost predicate Stretched(w: World, stretch: nat)
    requires w.Ok()
  {
    forall id | id in w.reg :: Chain(w, id) <= stretch
  }

  ghost function Lead(reg: Registry, id: Id): nat
    requires id in reg
  {
    if reg[id].body.Node? then 0 else 1
  }

  /** One step over an alias. */
  lemma {:induction false} AliasSteps(w: World, id: Id)
    requires w.Ok() && PlainAliases(w.reg) && id in w.reg && !w.reg[id].body.Node? && Landing(w.reg, id, {}).Some?
    ensures var t := w.reg[id].body.target;
            && t in w.reg && w.rank[t] < w.rank[id] && !w.reg[id].Tracked() && !w.reg[t].Tracked()
            && Landing(w.reg, t, {}) == Landing(w.reg, id, {}) && Chain(w, id) == Chain(w, t) + 1
  {
    assert Bound(w.rank, w.reg[id].body) <= w.rank[id];
    var t := w.reg[id].body.target;
    assert t !in w.reg ==> Landing(w.reg, t, {id}) == None;
    AliasLands(w.reg, w.rank, id);
  }

  // ---------- Caps and results ----------

  /** No depth cap lies below the bound. */
  ghost predicate Deep(reg: Registry, bound: nat) {
    forall id | id in reg && reg[id].Cap().Some? :: bound <= reg[id].Cap().value
  }

  /** No declaration allows only cycles that are shorter than the bound. */
  ghost predicate Long(reg: Registry, bound: nat) {
    forall id | id in reg && reg[id].cyclic.UpTo? :: bound <= reg[id].cyclic.hops
  }

  /** What is written, and which of the decoder's guards it passes. */
  ghost predicate Written(reg: Registry, g: Plan, e: Encoded) {
    && e.Enc?
    && (g.bound <= 1024 ==> e.shallow)
    && (!g.level || Long(reg, g.bound * g.stretch) ==> e.licensed)
  }

  lemma WrittenAfter(reg: Registry, g: Plan, prefix: seq<Byte>, before: Encoded, e: Encoded)
    requires Written(reg, g, before) && Written(reg, g, e)
    ensures Written(reg, g, e.After(prefix, before))
  {
    hide Long;
  }

  // ---------- Paths ----------

  /** What is on the path is no lower than `n`; what is level with it has been registered. */
  ghost predicate Above(g: Plan, ids: map<Addr, nat>, n: nat, loose: bool, b: Addr) {
    b in g.height && g.height[b] >= n && (g.height[b] == n && g.level && loose ==> b in ids)
  }

  ghost predicate AllAbove(g: Plan, ids: map<Addr, nat>, trail: set<Addr>, n: nat, loose: bool) {
    forall b | b in trail :: Above(g, ids, n, loose, b)
  }

  /** How many more containers a path can hold. */
  ghost function Room(g: Plan, trail: set<Addr>, n: nat): nat {
    if g.level then |g.all - trail| else n
  }

  /** The declarations on the path leave room for `extra` of this object and for `room` more containers. */
  ghost predicate Spare(g: Plan, p: Trail, room: nat, extra: nat) {
    g.level ==> p.pathDepth + extra + room * g.stretch <= g.bound * g.stretch
  }

  /** The counters of the path leave room for `room` more containers. */
  ghost predicate Within(g: Plan, p: Trail, room: nat) {
    && p.rawDepth + room <= g.bound && Spare(g, p, room, 0)
    && forall id :: p.depths[id] == 0 || p.depths[id] < p.rawDepth + g.lead
  }

  /** `trail` holds the objects on the path, down to one at height `n`. */
  ghost predicate Path(g: Plan, p: Trail, ids: map<Addr, nat>, chain: set<Addr>, trail: set<Addr>, n: nat, loose: bool)
  {
    && p.rawStack <= trail && chain <= trail && p.open.Keys <= trail
    && (forall q | q in p.inflight :: q.addr in trail)
    && AllAbove(g, ids, trail, n, loose)
    && Within(g, p, Room(g, trail, n))
  }

  lemma PathGrows(g: Plan, p: Trail, ids: map<Addr, nat>, ids': map<Addr, nat>, chain: set<Addr>, trail: set<Addr>,
                  n: nat, loose: bool)
    requires Path(g, p, ids, chain, trail, n, loose) && Grew(ids, ids')
    ensures Path(g, p, ids', chain, trail, n, loose)
  {
    hide Within, Room;
  }

  /** An object below the path, or level with it and not registered, is not on it. */
  lemma OffPath(g: Plan, p: Trail, ids: map<Addr, nat>, chain: set<Addr>, trail: set<Addr>, n: nat, loose: bool,
                b: Addr, level: bool)
    requires Path(g, p, ids, chain, trail, n, loose) && Falls(g, n, b, loose && level)
    requires g.level && level ==> b !in ids
    ensures b !in trail && b !in p.rawStack && b !in chain && b !in p.open && forall q | q in p.inflight :: q.addr != b
  {
    hide Within, Room;
  }

  lemma RoomFalls(g: Plan, trail: set<Addr>, n: nat, b: Addr, loose: bool)
    requires Falls(g, n, b, loose) && b !in trail
    ensures Room(g, trail + {b}, g.height[b]) < Room(g, trail, n)
  {
    if g.level { assert g.all - trail == (g.all - (trail + {b})) + {b}; }
  }

  lemma SpareFalls(g: Plan, p: Trail, room: nat, room': nat, extra: nat)
    requires Spare(g, p, room, 0) && room' < room && extra <= g.stretch
    ensures Spare(g, p, room', extra)
  {
    var n := room - room' - 1;
    assert room * g.stretch == room' * g.stretch + g.stretch + n * g.stretch;
    assert n * g.stretch >= 0;
  }

  /** The path goes on through the object `b`. */
  lemma AboveSteps(g: Plan, ids: map<Addr, nat>, ids': map<Addr, nat>, trail: set<Addr>, n: nat, loose: bool, b: Addr,
                   level: bool)
    requires AllAbove(g, ids, trail, n, loose) && Falls(g, n, b, loose && level)
    requires Grew(ids, ids') && (level ==> b in ids')
    ensures AllAbove(g, ids', trail + {b}, g.height[b], level)
  {
    forall c | c in trail + {b} ensures Above(g, ids', g.height[b], level, c) {
      if c in trail { assert Above(g, ids, n, loose, c); }
    }
  }

  /** It does so without a declaration. */
  lemma PathSteps(g: Plan, p: Trail, ids: map<Addr, nat>, chain: set<Addr>, trail: set<Addr>, n: nat, loose: bool,
                  b: Addr)
    requires Path(g, p, ids, chain, trail, n, loose) && Falls(g, n, b, false) && b !in trail
    ensures Path(g, p.(rawDepth := p.rawDepth + 1), ids, chain, trail + {b}, g.height[b], false)
  {
    RoomFalls(g, trail, n, b, false);
    AboveSteps(g, ids, ids, trail, n, loose, b, false);
    SpareFalls(g, p, Room(g, trail, n), Room(g, trail + {b}, g.height[b]), 0);
    hide Room, AllAbove, Falls, Spare;
  }

  /** The path has come to object `b` and is about to enter declaration `id` with it: the aliases
      that it has entered before rank higher. */
  ghost predicate Arriving(w: World, g: Plan, p: Trail, trail: set<Addr>, b: Addr, id: Id)
    requires w.Ok() && id in w.reg && b in g.height
  {
    && p.rawStack <= trail && p.open.Keys <= trail
    && (forall q | q in p.inflight :: q.addr in trail || (q.addr == b && q.id in w.reg && w.rank[q.id] > w.rank[id]))
    && (forall k :: p.depths[k] == 0 || p.depths[k] < p.rawDepth + g.lead
                    || (p.depths[k] == p.rawDepth + g.lead && k in w.reg && w.rank[k] > w.rank[id]))
    && p.rawDepth + 1 + Room(g, trail + {b}, g.height[b]) <= g.bound
    && Spare(g, p, Room(g, trail + {b}, g.height[b]), Chain(w, id))
  }

  lemma Arrives(w: World, g: Plan, p: Trail, ids: map<Addr, nat>, chain: set<Addr>, trail: set<Addr>, n: nat,
                loose: bool, b: Addr, level: bool, id: Id)
    requires w.Ok() && id in w.reg && Path(g, p, ids, chain, trail, n, loose) && b !in trail
    requires Falls(g, n, b, level) && (g.level ==> Stretched(w, g.stretch))
    ensures Arriving(w, g, p, trail, b, id)
  {
    hide AllAbove, World.Ok;
    RoomFalls(g, trail, n, b, level);
    if g.level {
      SpareFalls(g, p, Room(g, trail, n), Room(g, trail + {b}, g.height[b]), Chain(w, id));
    }
    hide Spare, Room, Chain, Falls;
  }

  /** A declaration has been entered by reference before only by objects of the path. */
  lemma NotTooDeep(w: World, g: Plan, p: Trail, trail: set<Addr>, b: Addr, id: Id)
    requires w.Ok() && id in w.reg && b in g.height && Arriving(w, g, p, trail, b, id) && Inside(g, p)
    requires Deep(w.reg, g.bound + g.lead)
    ensures p.depths[id] < p.rawDepth + g.lead && !w.reg[id].Capped(p.depths[id] + 1)
  {
    hide Spare, Room, Chain;
  }

  // ---------- The walk ----------

  ghost predicate Ready(w: World, g: Plan) {
    && w.Ok() && JsHeap(w.heap) && PlainAliases(w.reg) && Deep(w.reg, g.bound + g.lead) && Encodable(w, g)
    && (g.level ==> Stretched(w, g.stretch))
  }

  /** The path holds a container, or it enters the root over an alias. */
  ghost predicate Inside(g: Plan, p: Trail) { p.rawDepth + g.lead > 0 }

  lemma {:induction false} SpotEncodes(w: World, g: Plan, p: Trail, ids: map<Addr, nat>, t: Spot, chain: set<Addr>,
                                       trail: set<Addr>)
    requires Ready(w, g) && t in g.spots && t.addr in w.heap && t.addr in g.height && t.addr in trail
    requires Path(g, p.(rawDepth := p.rawDepth + 1), ids, chain, trail, g.height[t.addr], t.loose)
    requires t.addr !in p.rawStack && t.addr !in chain
    ensures Written(w.reg, g, EncVal(w, p, ids, t.pos, Obj(t.addr), chain))
    decreases Unentered(w, p), 1, w.heap.Keys - p.rawStack, 0, if t.pos.Some? then 1 else 0,
              if t.pos.Some? then t.pos.value else Ref(""), if t.pos.Some? then {} else w.heap.Keys - chain, 1
  {
    hide JsHeap, Enters, EncElems, EncFields, Deep, Long, PlainAliases, Stretched, AllAbove, Room;
    var a := t.addr;
    PartsAreMet(w, g, t);
    hide PartsEnter;
    assert forall x | x in w.heap[a].Vals() :: InHeap(w.heap, x);
    match w.heap[a]
    case Arr(elems) =>
      ElemsEncode(w, g, p.(rawDepth := p.rawDepth + 1), ids, t.pos, elems, chain, a, trail, t.loose);
    case Rec(fields) =>
      assert a in w.heap.Keys - p.rawStack;
      FieldsEncode(w, g, p.(rawDepth := p.rawDepth + 1, rawStack := p.rawStack + {a}), ids, t.pos, Kept(fields), trail,
                   g.height[a], t.loose);
  }

  lemma {:induction false} ChildEncodes(w: World, g: Plan, p: Trail, ids: map<Addr, nat>, s: Position, x: Val,
                                        chain: set<Addr>, trail: set<Addr>, n: nat, loose: bool)
    requires Ready(w, g) && InHeap(w.heap, x) && Enters(w, g, n, loose, s, x)
    requires Path(g, p, ids, chain, trail, n, loose) && p.rawDepth > 0
    ensures Written(w.reg, g, EncVal(w, p, ids, s, x, chain))
    decreases Unentered(w, p), 1, w.heap.Keys - p.rawStack, 0, if s.Some? then 1 else 0,
              if s.Some? then s.value else Ref(""), if s.Some? then {} else w.heap.Keys - chain, 2
  {
    hide JsHeap, Encodable, Deep, Long, PlainAliases, Stretched, AllAbove, Room, Spare, Admits, Landing;
    if x.Obj? {
      if IsBoundary(s) {
        hide Path;
        DeclEncodes(w, g, p, ids, s.value.target, x.addr, s.value.Ref?, chain, trail, n, loose);
      } else {
        var b := x.addr;
        OffPath(g, p, ids, chain, trail, n, loose, b, false);
        PathSteps(g, p, ids, chain, trail, n, loose, b);
        SpotEncodes(w, g, p, ids, Spot(s, b, false), chain, trail + {b});
      }
    } else if IsBoundary(s) {
      DeclPrimEncodes(w, g, p, ids, s.value.target, x.prim, s.value.Ref?);
    }
  }

  lemma {:induction false} DeclPrimEncodes(w: World, g: Plan, p: Trail, ids: map<Addr, nat>, id: Id, prim: Prim,
                                           viaRef: bool)
    requires w.Ok() && JsHeap(w.heap) && PlainAliases(w.reg) && id in w.reg && Writable(HeadPrim(prim))
    requires Landing(w.reg, id, {}).Some? && p.rawDepth <= g.bound
    requires forall k :: p.depths[k] == 0 || p.depths[k] < p.rawDepth + g.lead
    requires viaRef || !w.reg[id].body.Node? ==> Deep(w.reg, g.bound + g.lead) && Inside(g, p)
    ensures Written(w.reg, g, EncDecl(w, p, ids, id, Prim(prim), viaRef))
    decreases w.rank[id]
  {
    hide JsHeap, Long;
    var body := w.reg[id].body;
    var p' := p.(pathDepth := p.pathDepth + 1);
    if !body.Node? {
      AliasSteps(w, id);
      DeclPrimEncodes(w, g, p', ids, body.target, prim, body.Ref?);
    }
    hide Landing, PlainAliases;
    assert Written(w.reg, g, EncVal(w, p', ids, Some(body), Prim(prim), {}));
  }

  lemma {:induction false} DeclEncodes(w: World, g: Plan, p: Trail, ids: map<Addr, nat>, id: Id, b: Addr, viaRef: bool,
                                       chain: set<Addr>, trail: set<Addr>, n: nat, loose: bool)
    requires Ready(w, g) && id in w.reg && b in w.heap && Path(g, p, ids, chain, trail, n, loose)
    requires viaRef || !w.reg[id].body.Node? ==> Inside(g, p)
    requires Admits(w, g, id, b) && Falls(g, n, b, loose && Licensed(w.reg, id))
    ensures Written(w.reg, g, EncDecl(w, p, ids, id, Obj(b), viaRef))
    decreases Unentered(w, p), 1, w.heap.Keys - p.rawStack, 0, 0, 1
  {
    hide JsHeap, Encodable, Deep, Long, PlainAliases, Stretched, AllAbove, Room, Spare, Landing, EncVal;
    var decl := w.reg[id];
    if decl.Tracked() && b in ids {
      hide Within;
      if decl.cyclic.Acyclic? || !g.level { OffPath(g, p, ids, chain, trail, n, loose, b, Licensed(w.reg, id)); }
      RefIsAllowed(w, g, p, ids, id, b, chain, trail, n, loose);
    } else {
      OffPath(g, p, ids, chain, trail, n, loose, b, Licensed(w.reg, id));
      Arrives(w, g, p, ids, chain, trail, n, loose, b, loose && Licensed(w.reg, id), id);
      var ids' := if decl.Tracked() then ids[b := |ids|] else ids;
      AboveSteps(g, ids, ids', trail, n, loose, b, Licensed(w.reg, id));
      hide Path, EncDecl;
      EntryEncodes(w, g, p, ids, id, b, viaRef, trail, Licensed(w.reg, id));
    }
  }

  /** Entering a declaration, over whatever aliases lead to its body. */
  lemma {:induction false} EntryEncodes(w: World, g: Plan, p: Trail, ids: map<Addr, nat>, id: Id, b: Addr, viaRef: bool,
                                        trail: set<Addr>, loose: bool)
    requires Ready(w, g) && id in w.reg && b in w.heap && b !in trail && b in g.height
    requires Arriving(w, g, p, trail, b, id) && !(w.reg[id].Tracked() && b in ids)
    requires viaRef || !w.reg[id].body.Node? ==> Inside(g, p)
    requires Landing(w.reg, id, {}).Some? && Spot(Landing(w.reg, id, {}), b, loose) in g.spots
    requires AllAbove(g, if w.reg[id].Tracked() then ids[b := |ids|] else ids, trail + {b}, g.height[b], loose)
    ensures Written(w.reg, g, EncDecl(w, p, ids, id, Obj(b), viaRef))
    decreases Unentered(w, p), 1, w.heap.Keys - p.rawStack, 0, 0, 0
  {
    hide JsHeap, Encodable, Deep, Long, PlainAliases, Stretched, AllAbove, Room, Spare, EncVal, Landing;
    var decl, pair := w.reg[id], Pair(b, id);
    if viaRef { NotTooDeep(w, g, p, trail, b, id); }
    assert pair in Unentered(w, p);
    var ids' := if decl.Tracked() then ids[b := |ids|] else ids;
    var p' := EnterTrail(p, pair, viaRef, decl.Tracked());
    if decl.body.Node? {
      BodyEntered(w, g, p, ids', trail, b, id, viaRef, loose);
      LandsHere(w.reg, id);
      hide Arriving;
      SpotEncodes(w, g, p', ids', Spot(Some(decl.body), b, loose), {}, trail + {b});
    } else {
      AliasEntered(w, g, p, trail, b, id, viaRef);
      hide Arriving;
      AliasSteps(w, id);
      EntryEncodes(w, g, p', ids, decl.body.target, b, decl.body.Ref?, trail, loose);
      BoundaryWritten(w, g, p', ids, decl.body, b);
    }
  }

  lemma {:induction false} LandsHere(reg: Registry, id: Id)
    requires id in reg && reg[id].body.Node?
    ensures Landing(reg, id, {}) == Some(reg[id].body)
  {
  }

  lemma {:induction false} BoundaryWritten(w: World, g: Plan, p: Trail, ids: map<Addr, nat>, s: Schema, b: Addr)
    requires w.Ok() && JsHeap(w.heap) && !s.Node? && s.target in w.reg && b in w.heap
    requires Written(w.reg, g, EncDecl(w, p, ids, s.target, Obj(b), s.Ref?))
    ensures Written(w.reg, g, EncVal(w, p, ids, Some(s), Obj(b), {}))
  {
    hide JsHeap, EncDecl, Written;
  }

  lemma BodyEntered(w: World, g: Plan, p: Trail, ids: map<Addr, nat>, trail: set<Addr>, b: Addr, id: Id, viaRef: bool,
                    loose: bool)
    requires w.Ok() && id in w.reg && b in g.height && Arriving(w, g, p, trail, b, id)
    requires viaRef ==> Inside(g, p) && p.depths[id] < p.rawDepth + g.lead
    requires AllAbove(g, ids, trail + {b}, g.height[b], loose)
    ensures var p' := EnterTrail(p, Pair(b, id), viaRef, w.reg[id].Tracked());
            Path(g, p'.(rawDepth := p'.rawDepth + 1), ids, {}, trail + {b}, g.height[b], loose)
  {
    hide AllAbove, Room;
  }

  lemma {:induction false} AliasEntered(w: World, g: Plan, p: Trail, trail: set<Addr>, b: Addr, id: Id, viaRef: bool)
    requires w.Ok() && PlainAliases(w.reg) && id in w.reg && !w.reg[id].body.Node? && Landing(w.reg, id, {}).Some?
    requires b in g.height && Arriving(w, g, p, trail, b, id)
    requires viaRef ==> Inside(g, p) && p.depths[id] < p.rawDepth + g.lead
    ensures w.reg[id].body.target in w.reg
    ensures var p' := EnterTrail(p, Pair(b, id), viaRef, w.reg[id].Tracked());
            Arriving(w, g, p', trail, b, w.reg[id].body.target)
  {
    AliasSteps(w, id);
    hide Room, Chain, Landing, PlainAliases;
  }

  /** The decoder will allow the reference to an object that is still open. */
  lemma RefIsAllowed(w: World, g: Plan, p: Trail, ids: map<Addr, nat>, id: Id, b: Addr, chain: set<Addr>,
                     trail: set<Addr>, n: nat, loose: bool)
    requires id in w.reg && b in ids && Path(g, p, ids, chain, trail, n, loose)
    requires Falls(g, n, b, loose && Licensed(w.reg, id))
    ensures !g.level || Long(w.reg, g.bound * g.stretch) ==> RefAllowed(w.reg[id], p, b)
  {
    if !g.level || w.reg[id].cyclic.Acyclic? {
      OffPath(g, p, ids, chain, trail, n, loose, b, Licensed(w.reg, id));
    } else {
      assert Room(g, trail, n) * g.stretch >= 0;
    }
    hide AllAbove;
  }

  lemma {:induction false} ElemsEncode(w: World, g: Plan, p: Trail, ids: map<Addr, nat>, s: Position, elems: seq<Val>,
                                       chain: set<Addr>, a: Addr, trail: set<Addr>, loose: bool)
    requires Ready(w, g) && !IsBoundary(s) && (forall v | v in elems :: InHeap(w.heap, v))
    requires a in w.heap && a in g.height && a !in chain && a in trail
    requires forall x | x in elems :: Enters(w, g, g.height[a], loose, Items(s), x)
    requires Path(g, p, ids, chain, trail, g.height[a], loose) && p.rawDepth > 0
    ensures Written(w.reg, g, EncElems(w, p, ids, s, elems, chain, a))
    decreases Unentered(w, p), 1, w.heap.Keys - p.rawStack, 0, if s.Some? then 1 else 0,
              if s.Some? then s.value else Ref(""), if s.Some? then {} else w.heap.Keys - chain, 0, |elems|
  {
    hide JsHeap, Encodable, Enters, EncVal, Within, Room, AllAbove, Deep, Written, PlainAliases, Stretched;
    if elems == [] {
      EmptyWritten(w.reg, g, ids);
    } else {
      assert s.None? ==> a in w.heap.Keys - chain;
      var chain' := if s.None? then chain + {a} else {};
      ChildEncodes(w, g, p, ids, Items(s), elems[0], chain', trail, g.height[a], loose);
      var first := EncVal(w, p, ids, Items(s), elems[0], chain');
      WrittenIsEnc(w.reg, g, first);
      PathGrows(g, p, ids, first.ids, chain, trail, g.height[a], loose);
      ElemsEncode(w, g, p, first.ids, s, elems[1..], chain, a, trail, loose);
      WrittenAfter(w.reg, g, [], first, EncElems(w, p, first.ids, s, elems[1..], chain, a));
    }
  }

  lemma EmptyWritten(reg: Registry, g: Plan, ids: map<Addr, nat>)
    ensures Written(reg, g, Enc([], ids, true, true))
  {
  }

  lemma WrittenIsEnc(reg: Registry, g: Plan, e: Encoded)
    requires Written(reg, g, e)
    ensures e.Enc?
  {
  }

  lemma {:induction false} FieldsEncode(w: World, g: Plan, p: Trail, ids: map<Addr, nat>, s: Position,
                                        fields: seq<Field>, trail: set<Addr>, n: nat, loose: bool)
    requires Ready(w, g) && forall f | f in fields :: InHeap(w.heap, f.val)
    requires forall f | f in fields :: Enters(w, g, n, loose, At(s, f.key), f.val)
    requires Path(g, p, ids, {}, trail, n, loose) && p.rawDepth > 0
    ensures Written(w.reg, g, EncFields(w, p, ids, s, fields))
    decreases Unentered(w, p), 1, w.heap.Keys - p.rawStack, 0, 2, |fields|
  {
    hide JsHeap, Encodable, Enters, EncVal, Within, Room, AllAbove, Deep, PlainAliases, Stretched;
    if fields != [] {
      ChildEncodes(w, g, p, ids, At(s, fields[0].key), fields[0].val, {}, trail, n, loose);
      var first := EncVal(w, p, ids, At(s, fields[0].key), fields[0].val, {});
      PathGrows(g, p, ids, first.ids, {}, trail, n, loose);
      FieldsEncode(w, g, p, first.ids, s, fields[1..], trail, n, loose);
    }
  }

  lemma StartPath(g: Plan, n: nat)
    requires Room(g, {}, n) <= g.bound && (g.level ==> g.bound == |g.all|)
    ensures Path(g, ROOT, map[], {}, {}, n, false)
  {
    assert g.all - {} == g.all;
  }

  /** The plan bounds the paths from object `a` at declaration `id`. */
  ghost predicate Fits(w: World, g: Plan, id: Id, a: Addr)
    requires w.Ok() && id in w.reg
  {
    && Encodable(w, g) && Admits(w, g, id, a) && a in g.all && a in g.height
    && g.bound == (if g.level then |g.all| else g.height[a] + 1)
    && g.lead == Lead(w.reg, id) && (g.level ==> Stretched(w, g.stretch))
  }

  /** A graph is encoded if heights fall along all its references, except that objects of cyclic
      declarations may refer to each other at will, and if no cap lies below the number of
      objects (plus one if the root is an alias).  What is written decodes if that number is at
      most 1024 and no declaration allows only cycles that are shorter, each object counted once
      for every alias of the longest chain. */
  lemma EncodableEncodes(w: World, g: Plan, id: Id, a: Addr)
    requires w.Ok() && JsHeap(w.heap) && PlainAliases(w.reg) && id in w.reg && a in w.heap
    requires Fits(w, g, id, a) && Deep(w.reg, g.bound + g.lead)
    ensures Written(w.reg, g, Encode(w, id, Obj(a)))
  {
    hide JsHeap, PlainAliases, EncDecl, Written, Admits, Encodable, Stretched;
    assert g.all - {} == g.all;
    StartPath(g, g.height[a] + 1);
    DeclEncodes(w, g, ROOT, map[], id, a, false, {}, {}, g.height[a] + 1, false);
  }

  /** So the graph round-trips, with anything after it. */
  lemma GraphRoundTrip(w: World, g: Plan, id: Id, a: Addr, rest: seq<Byte>)
    requires w.Ok() && JsHeap(w.heap) && PlainAliases(w.reg) && id in w.reg && a in w.heap
    requires Fits(w, g, id, a) && Deep(w.reg, g.bound + g.lead)
    requires g.bound <= 1024 && (!g.level || Long(w.reg, g.bound * g.stretch))
    ensures RoundTrips(w, id, Obj(a), rest)
  {
    hide JsHeap, PlainAliases, EncDecl, DecDecl, Fits, Replica;
    EncodableEncodes(w, g, id, a);
    RoundTrip(w, id, Obj(a), rest);
  }

  /** The value is encoded; the bytes decode whatever follows them, are consumed exactly, and give
      a replica of the value. */
  ghost predicate RoundTrips(w: World, id: Id, v: Val, rest: seq<Byte>)
    requires w.Ok() && JsHeap(w.heap) && id in w.reg && InHeap(w.heap, v)
  {
    var e := Encode(w, id, v);
    && e.Enc?
    && var o := Decode(w.reg, w.rank, id, e.bytes + rest);
       && o.Dec? && o.at.bs == rest
       && exists twins, image :: Replica(w, id, v, o, twins, image)
  }

  // ---------- Acyclic values ----------

  ghost predicate BigsFit(heap: Heap) {
    forall a, v | a in heap && v in heap[a].Vals() && v.Prim? :: Writable(HeadPrim(v.prim))
  }

  /** Every object at every resolved position, with strictly falling heights. */
  ghost function Everywhere(w: World, height: map<Addr, nat>, bound: nat, lead: nat): Plan {
    Plan((iset t: Spot | t.addr in w.heap && !IsBoundary(t.pos) && (t.pos.Some? ==> Resolved(w.reg, t.pos.value))),
         height, w.heap.Keys, false, bound, lead, 0)
  }

  /** Where all references are resolved, every alias leads to a body. */
  lemma {:induction false} Lands(w: World, id: Id)
    requires w.Ok() && AllResolved(w.reg) && id in w.reg
    ensures var s := Landing(w.reg, id, {}); s.Some? && s.value.Node? && Resolved(w.reg, s.value)
    decreases w.rank[id]
  {
    if !w.reg[id].body.Node? {
      assert Bound(w.rank, w.reg[id].body) <= w.rank[id];
      Lands(w, w.reg[id].body.target);
      AliasLands(w.reg, w.rank, id);
    }
  }

  lemma AcyclicIsEncodable(w: World, height: map<Addr, nat>, bound: nat, lead: nat)
    requires w.Ok() && AllResolved(w.reg) && BigsFit(w.heap) && AcyclicHeap(w.heap, height)
    ensures Encodable(w, Everywhere(w, height, bound, lead))
  {
    var g := Everywhere(w, height, bound, lead);
    hide Enters, Resolved;
    forall t | t in g.spots ensures t.addr in height && PartsEnter(w, g, t) {
      var cell := w.heap[t.addr];
      forall x, s | x in cell.Vals() && PartAt(cell, t.pos, x, s) ensures Enters(w, g, height[t.addr], t.loose, s, x) {
        assert InHeap(w.heap, x);
        PartResolved(w.reg, cell, t.pos, x, s);
        ChildEnters(w, height, bound, lead, t.addr, t.loose, s, x);
      }
      PartsAreAll(w, g, t);
    }
  }

  /** The value is a part of the cell, at position `s`. */
  ghost predicate PartAt(cell: Cell, pos: Position, x: Val, s: Position) {
    match cell
    case Arr(elems) => x in elems && HasElements(pos, s)
    case Rec(fields) => exists f :: f in fields && f.val == x && HasField(pos, f.key, s)
  }

  lemma {:induction false} PartResolved(reg: Registry, cell: Cell, pos: Position, x: Val, s: Position)
    requires PartAt(cell, pos, x, s) && (pos.Some? ==> Resolved(reg, pos.value))
    ensures s.Some? ==> Resolved(reg, s.value)
  {
  }

  lemma PartsAreAll(w: World, g: Plan, t: Spot)
    requires t.addr in w.heap && t.addr in g.height
    requires forall x, s | x in w.heap[t.addr].Vals() && PartAt(w.heap[t.addr], t.pos, x, s) ::
               Enters(w, g, g.height[t.addr], t.loose, s, x)
    ensures PartsEnter(w, g, t)
  {
    hide Enters, HasElements, HasField;
  }

  lemma ChildEnters(w: World, height: map<Addr, nat>, bound: nat, lead: nat, a: Addr, loose: bool, s: Position, x: Val)
    requires w.Ok() && AllResolved(w.reg) && BigsFit(w.heap) && AcyclicHeap(w.heap, height)
    requires a in w.heap && x in w.heap[a].Vals() && InHeap(w.heap, x) && (s.Some? ==> Resolved(w.reg, s.value))
    ensures a in height && Enters(w, Everywhere(w, height, bound, lead), height[a], loose, s, x)
  {
    if IsBoundary(s) { Lands(w, s.value.target); }
    hide Landing;
  }

  /** No more containers nest in the value than this. */
  ghost function Nesting(height: map<Addr, nat>, v: Val): nat
    requires v.Obj? ==> v.addr in height
  {
    if v.Obj? then height[v.addr] + 1 else 0
  }

  /** An acyclic value is encoded if no depth cap lies below its nesting.  What is written decodes
      if it nests no more than 1024 containers. */
  lemma AcyclicEncodes(w: World, height: map<Addr, nat>, id: Id, v: Val)
    requires w.Ok() && JsHeap(w.heap) && PlainAliases(w.reg) && AllResolved(w.reg) && id in w.reg && InHeap(w.heap, v)
    requires BigsFit(w.heap) && AcyclicHeap(w.heap, height) && (v.Prim? ==> Writable(HeadPrim(v.prim)))
    requires Deep(w.reg, Nesting(height, v) + Lead(w.reg, id))
    ensures var e := Encode(w, id, v);
            e.Enc? && e.licensed && (Nesting(height, v) <= 1024 ==> e.shallow)
  {
    hide JsHeap, BigsFit, Encodable, Enters, Resolved, PlainAliases, Landing;
    var g := Everywhere(w, height, Nesting(height, v), Lead(w.reg, id));
    hide AcyclicHeap;
    Lands(w, id);
    hide AllResolved;
    if v.Prim? {
      hide EncDecl;
      DeclPrimEncodes(w, g, ROOT, map[], id, v.prim, false);
    } else {
      AcyclicIsEncodable(w, height, Nesting(height, v), Lead(w.reg, id));
      EncodableEncodes(w, g, id, v.addr);
    }
  }

  /** So an acyclic value round-trips, with anything after it, if it nests no more than 1024
      containers and no more than any depth cap. */
  lemma AcyclicRoundTrip(w: World, height: map<Addr, nat>, id: Id, v: Val, rest: seq<Byte>)
    requires w.Ok() && JsHeap(w.heap) && PlainAliases(w.reg) && AllResolved(w.reg) && id in w.reg && InHeap(w.heap, v)
    requires BigsFit(w.heap) && AcyclicHeap(w.heap, height) && (v.Prim? ==> Writable(HeadPrim(v.prim)))
    requires Nesting(height, v) <= 1024 && Deep(w.reg, Nesting(height, v) + Lead(w.reg, id))
    ensures RoundTrips(w, id, v, rest)
  {
    hide JsHeap, AcyclicHeap, BigsFit, Replica, EncDecl, DecDecl;
    AcyclicEncodes(w, height, id, v);
    RoundTrip(w, id, v, rest);
  }

  /** Without depth caps, an acyclic value of any nesting is encoded, and what is written decodes
      exactly when no token lies beyond 1024 containers. */
  lemma AcyclicRoundTripUncapped(w: World, height: map<Addr, nat>, id: Id, v: Val, rest: seq<Byte>)
    requires w.Ok() && JsHeap(w.heap) && PlainAliases(w.reg) && AllResolved(w.reg) && id in w.reg && InHeap(w.heap, v)
    requires BigsFit(w.heap) && AcyclicHeap(w.heap, height) && (v.Prim? ==> Writable(HeadPrim(v.prim)))
    requires Uncapped(w.reg)
    ensures var e := Encode(w, id, v);
            && e.Enc?
            && var o := Decode(w.reg, w.rank, id, e.bytes + rest);
               && (o.Dec? <==> e.shallow) && (Nesting(height, v) <= 1024 ==> o.Dec?)
               && (o.Dec? ==> o.at.bs == rest && exists twins, image :: Replica(w, id, v, o, twins, image))
  {
    hide JsHeap, AcyclicHeap, BigsFit, Replica, EncDecl, DecDecl;
    AcyclicEncodes(w, height, id, v);
    RoundTrip(w, id, v, rest);
  }
}
