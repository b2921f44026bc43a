/** The decoder replays the encoder's walk: what one wrote, the other reads back as a replica
    of the same graph. */
module CodecReplay {
  import opened SchemaGraph
  import opened MsgPack
  import opened Codec

  // ---------- What a replica is ----------

  /** Cell `dst` of the decoded heap replicates cell `src`, encoded at position `pos`. */
  datatype Twin = Twin(pos: Position, src: Addr, dst: Addr)

  /** The body that a declaration leads to, over the aliases in between. */
  ghost function Landing(reg: Registry, id: Id, seen: set<Id>): Position
    decreases reg.Keys - seen
  {
    if id !in reg || id in seen then None
    else if reg[id].body.Node? then Some(reg[id].body)
    else
      assert id in reg.Keys - seen;
      Landing(reg, reg[id].body.target, seen + {id})
  }

  /** In a guarded registry no alias leads back. */
  lemma {:induction false} LandingFree(reg: Registry, rank: map<Id, nat>, id: Id, seen: set<Id>)
    requires Guarded(reg, rank) && id in reg && forall d | d in seen && d in reg :: rank[d] > rank[id]
    ensures Landing(reg, id, seen) == Landing(reg, id, {})
    decreases rank[id]
  {
    if !reg[id].body.Node? {
      var t := reg[id].body.target;
      assert Bound(rank, reg[id].body) <= rank[id];
      if t in reg {
        LandingFree(reg, rank, t, seen + {id});
        LandingFree(reg, rank, t, {} + {id});
      }
    }
  }

  lemma {:induction false} AliasLands(reg: Registry, rank: map<Id, nat>, id: Id)
    requires Guarded(reg, rank) && id in reg && !reg[id].body.Node? && reg[id].body.target in reg
    ensures Landing(reg, id, {}) == Landing(reg, reg[id].body.target, {})
  {
    assert Bound(rank, reg[id].body) <= rank[id];
    LandingFree(reg, rank, reg[id].body.target, {} + {id});
  }

  /** `y` replicates `x` at position `s`: a primitive is equal up to `undefined`, an object at a
      tracked declaration is the one image of `x`, and any other object is some twin. */
  ghost predicate Same(reg: Registry, s: Position, x: Val, y: Val, twins: set<Twin>, image: map<Addr, Addr>) {
    match x
    case Prim(p) => y == Prim(Normal(p))
    case Obj(a) =>
      if IsBoundary(s) then
        var id := s.value.target;
        && id in reg
        && if reg[id].Tracked() then a in image && y == Obj(image[a])
           else y.Obj? && Twin(Landing(reg, id, {}), a, y.addr) in twins
      else y.Obj? && Twin(s, a, y.addr) in twins
  }

  ghost predicate SameElems(reg: Registry, s: Position, xs: seq<Val>, ys: seq<Val>, twins: set<Twin>,
                            image: map<Addr, Addr>)
  {
    |xs| == |ys| && forall i | 0 <= i < |xs| :: Same(reg, Items(s), xs[i], ys[i], twins, image)
  }

  ghost predicate SameFields(reg: Registry, s: Position, fs: seq<Field>, gs: seq<Field>, twins: set<Twin>,
                             image: map<Addr, Addr>)
  {
    && |fs| == |gs|
    && forall i | 0 <= i < |fs| ::
         fs[i].key == gs[i].key && Same(reg, At(s, fs[i].key), fs[i].val, gs[i].val, twins, image)
  }

  /** The two cells have the same shape, and replicas in the same places. */
  ghost predicate SameCell(reg: Registry, t: Twin, cell: Cell, cell': Cell, twins: set<Twin>, image: map<Addr, Addr>) {
    match (cell, cell')
    case (Arr(xs), Arr(ys)) => SameElems(reg, t.pos, xs, ys, twins, image)
    case (Rec(fs), Rec(gs)) => SameFields(reg, t.pos, Kept(fs), gs, twins, image)
    case _ => false
  }

  /** A bisimulation between the two heaps. */
  ghost predicate Twinned(w: World, heap: seq<Cell>, twins: set<Twin>, image: map<Addr, Addr>) {
    forall t | t in twins ::
      t.src in w.heap && t.dst < |heap| && SameCell(w.reg, t, w.heap[t.src], heap[t.dst], twins, image)
  }

  /** Distinct tracked objects have distinct images, and each object and its image are twins. */
  ghost predicate Imaged(twins: set<Twin>, image: map<Addr, Addr>) {
    && (forall a, b | a in image && b in image && image[a] == image[b] :: a == b)
    && forall a | a in image :: exists s :: Twin(s, a, image[a]) in twins
  }

  // ---------- The two walks in step ----------

  /** The image of a tracked object is the object at its index. */
  ghost function Image(ids: map<Addr, nat>, objs: seq<Entry>): map<Addr, Addr> {
    map a | a in ids && ids[a] < |objs| :: objs[ids[a]].addr
  }

  /** The two walks are at the same place. */
  ghost predicate SamePath(p: Trail, q: Route) {
    q.depths == p.depths && q.rawDepth == p.rawDepth && q.pathDepth == p.pathDepth
  }

  /** The encoder's next index is the number of objects the decoder has seen, and every index
      resolves to an object of its own. */
  ghost predicate InStep(w: World, ids: map<Addr, nat>, objs: seq<Entry>, limit: nat) {
    && |objs| == |ids|
    && ids.Keys <= w.heap.Keys
    && (forall a | a in ids :: ids[a] < |objs|)
    && (forall a, b | a in ids && b in ids && ids[a] == ids[b] :: a == b)
    && (forall i | 0 <= i < |objs| :: objs[i].addr < limit)
    && (forall i, j | 0 <= i < j < |objs| :: objs[i].addr != objs[j].addr)
  }

  /** The ancestors still being filled are the same. */
  ghost predicate SameOpen(p: Trail, ids: map<Addr, nat>, q: Route, objs: seq<Entry>) {
    && (forall a | a in p.open ::
          a in ids && ids[a] in q.open && ids[a] < |objs| && objs[ids[a]].pathDepth == p.open[a])
    && (forall a | a in ids && ids[a] in q.open :: a in p.open)
    && (forall i | i in q.open :: i < |objs|)
  }

  ghost predicate Aligned(w: World, p: Trail, ids: map<Addr, nat>, q: Route, objs: seq<Entry>, limit: nat) {
    SamePath(p, q) && InStep(w, ids, objs, limit) && SameOpen(p, ids, q, objs)
  }

  /** Every finished twin is a replica, and every tracked object is open or finished. */
  ghost predicate Covered(w: World, p: Trail, ids: map<Addr, nat>, objs: seq<Entry>, heap: seq<Cell>, twins: set<Twin>)
  {
    && Twinned(w, heap, twins, Image(ids, objs))
    && forall a | a in ids && ids[a] < |objs| && a !in p.open :: exists s :: Twin(s, a, objs[ids[a]].addr) in twins
  }

  /** New twins are built in new cells, or in the shell. */
  ghost predicate NewCells(twins: set<Twin>, twins': set<Twin>, limit: nat, shell: Option<Addr>) {
    twins <= twins' && forall t | t in twins' - twins :: t.dst >= limit || shell == Some(t.dst)
  }

  /** No finished twin lives in cell `dst`. */
  ghost predicate Avoids(twins: set<Twin>, dst: Addr) { forall t | t in twins :: t.dst != dst }

  lemma NewCellsAvoid(twins: set<Twin>, twins': set<Twin>, limit: nat, dst: Addr)
    requires NewCells(twins, twins', limit, None) && Avoids(twins, dst) && dst < limit
    ensures Avoids(twins', dst)
  {
    forall t | t in twins' ensures t.dst != dst { assert t in twins || t in twins' - twins; }
  }

  lemma NoNewCells(twins: set<Twin>, limit: nat)
    ensures NewCells(twins, twins, limit, None)
  {
  }

  lemma NewCellsChain(twins: set<Twin>, twins1: set<Twin>, twins2: set<Twin>, limit: nat, limit1: nat)
    requires NewCells(twins, twins1, limit, None) && NewCells(twins1, twins2, limit1, None) && limit <= limit1
    ensures NewCells(twins, twins2, limit, None) && twins1 <= twins2
  {
    forall t | t in twins2 - twins ensures t.dst >= limit { assert t in twins1 - twins || t in twins2 - twins1; }
  }

  lemma NewCellsAdd(twins: set<Twin>, twins': set<Twin>, limit: nat, limit': nat, shell: Option<Addr>, t: Twin)
    requires NewCells(twins, twins', limit', None) && limit <= limit'
    requires t.dst >= limit || shell == Some(t.dst)
    ensures NewCells(twins, twins' + {t}, limit, shell)
  {
  }

  lemma Untouched(d: Progress, o: Decoded, shell: Option<Addr>, dst: Addr)
    requires o.Dec? && Advances(d, o, shell) && dst < |d.heap| && shell != Some(dst)
    ensures dst < |o.at.heap| && o.at.heap[dst] == d.heap[dst] && |d.heap| <= |o.at.heap| && d.objs <= o.at.objs
  {
  }

  lemma OnlyGrows(d: Progress, o: Decoded, shell: Option<Addr>)
    requires o.Dec? && Advances(d, o, shell)
    ensures |d.heap| <= |o.at.heap| && d.objs <= o.at.objs
  {
  }

  /** The outcome of a step of the replay. */
  ghost predicate Replayed(w: World, p: Trail, q: Route, d: Progress, e: Encoded, o: Decoded, rest: seq<Byte>,
                           twins: set<Twin>, twins': set<Twin>, shell: Option<Addr>)
    requires e.Enc?
  {
    if e.shallow && e.licensed then
      && o.Dec? && o.at.bs == rest
      && Aligned(w, p, e.ids, q, o.at.objs, |o.at.heap|)
      && Covered(w, p, e.ids, o.at.objs, o.at.heap, twins')
      && NewCells(twins, twins', |d.heap|, shell)
    else o.Failed?
  }

  lemma SameGrows(reg: Registry, s: Position, x: Val, y: Val, twins: set<Twin>, image: map<Addr, Addr>,
                  twins': set<Twin>, image': map<Addr, Addr>)
    requires Same(reg, s, x, y, twins, image) && twins <= twins'
    requires forall a | a in image :: a in image' && image'[a] == image[a]
    ensures Same(reg, s, x, y, twins', image')
  {
  }

  lemma SameCellGrows(reg: Registry, t: Twin, cell: Cell, cell': Cell, twins: set<Twin>, image: map<Addr, Addr>,
                      twins': set<Twin>, image': map<Addr, Addr>)
    requires SameCell(reg, t, cell, cell', twins, image) && twins <= twins'
    requires forall a | a in image :: a in image' && image'[a] == image[a]
    ensures SameCell(reg, t, cell, cell', twins', image')
  {
    match (cell, cell')
    case (Arr(xs), Arr(ys)) =>
      forall i | 0 <= i < |xs| ensures Same(reg, Items(t.pos), xs[i], ys[i], twins', image') {
        SameGrows(reg, Items(t.pos), xs[i], ys[i], twins, image, twins', image');
      }
    case (Rec(fs), Rec(gs)) =>
      var kept := Kept(fs);
      forall i | 0 <= i < |kept| ensures Same(reg, At(t.pos, kept[i].key), kept[i].val, gs[i].val, twins', image') {
        SameGrows(reg, At(t.pos, kept[i].key), kept[i].val, gs[i].val, twins, image, twins', image');
      }
  }

  lemma ImageGrows(ids: map<Addr, nat>, objs: seq<Entry>, ids': map<Addr, nat>, objs': seq<Entry>)
    requires Grew(ids, ids') && objs <= objs'
    ensures forall a | a in Image(ids, objs) ::
              a in Image(ids', objs') && Image(ids', objs')[a] == Image(ids, objs)[a]
  {
  }

  // ---------- Tokens ----------

  lemma FirstToken(h: Head)
    requires Writable(h)
    ensures var b := WriteHead(h)[0];
            !IsExtToken(b) && IsArrToken(b) == h.HeadArr? && IsMapToken(b) == h.HeadMap?
  {
    hide WriteHead;
    if h.HeadPrim? { PrimToken(h.prim); } else { ContainerBack(h, []); CountToken(h); }
  }

  lemma CountToken(h: Head)
    requires !h.HeadPrim?
    ensures !IsExtToken(WriteHead(h)[0])
    ensures h.HeadArr? ==> !IsMapToken(WriteHead(h)[0])
    ensures h.HeadMap? ==> !IsArrToken(WriteHead(h)[0])
  {
  }

  lemma PrimToken(p: Prim)
    requires Writable(HeadPrim(p))
    ensures var b := WriteHead(HeadPrim(p))[0]; !IsExtToken(b) && !IsArrToken(b) && !IsMapToken(b)
  {
  }

  /** A token followed by anything is read as that token. */
  lemma ReadsToken(h: Head, tail: seq<Byte>, bs: seq<Byte>)
    requires Writable(h) && bs == WriteHead(h) + tail
    ensures bs != [] && MaybeRef(bs) == NoRef && !IsExtToken(bs[0])
    ensures IsArrToken(bs[0]) == h.HeadArr? && IsMapToken(bs[0]) == h.HeadMap?
    ensures ReadHead(bs) == Got(NormalHead(h), tail)
  {
    hide ReadHead;
    FirstToken(h);
    assert bs[0] == WriteHead(h)[0];
    HeadBack(h, tail);
  }

  lemma {:induction false} PrimDecodes(reg: Registry, rank: map<Id, nat>, q: Route, d: Progress, s: Position, p: Prim,
                                       rest: seq<Byte>)
    requires Guarded(reg, rank) && q.rawDepth <= NEST_LIMIT + 1 && !IsBoundary(s)
    requires Writable(HeadPrim(p)) && d.bs == WriteHead(HeadPrim(p)) + rest
    ensures DecVal(reg, rank, q, d, s, None) ==
            if q.rawDepth > NEST_LIMIT then Failed(TooNested, d.built)
            else Dec(Prim(Normal(p)), d.(bs := rest, built := d.built + 1))
  {
    hide ReadHead, WriteHead;
    ReadsToken(HeadPrim(p), rest, d.bs);
  }

  lemma RefHeader(n: nat, rest: seq<Byte>)
    ensures MaybeRef(WriteRef(n) + rest) == RefPayload(WriteUint(n) + rest)
  {
    hide WriteUint, RefPayload;
    var bs := WriteRef(n) + rest;
    assert bs[3..] == WriteUint(n) + rest;
  }

  lemma ByteBack(n: nat, rest: seq<Byte>)
    requires n < 0x100
    ensures RefPayload(WriteUint(n) + rest) == RefTo(n, rest)
  {
    if n < 0x80 {
      assert (WriteUint(n) + rest)[1..] == rest;
    } else {
      assert (WriteUint(n) + rest)[1..] == [n] + rest && ([n] + rest)[1..] == rest;
    }
  }

  lemma WordBack(n: nat, rest: seq<Byte>)
    requires 0x100 <= n < 0x1_0000_0000
    ensures RefPayload(WriteUint(n) + rest) == RefTo(n, rest)
  {
    hide Be16, Be32, Read16, Read32;
    if n < 0x1_0000 {
      assert (WriteUint(n) + rest)[1..] == Be16(n) + rest;
      WordsBack(n, 0, 0, rest);
    } else {
      assert (WriteUint(n) + rest)[1..] == Be32(n) + rest;
      WordsBack(0, n, 0, rest);
    }
  }

  lemma RefBack(n: nat, rest: seq<Byte>)
    requires n < 0x1_0000_0000
    ensures MaybeRef(WriteRef(n) + rest) == RefTo(n, rest)
  {
    RefHeader(n, rest);
    if n < 0x100 { ByteBack(n, rest); } else { WordBack(n, rest); }
  }

  // ---------- Steps ----------

  /** What the decoder has counted and the encoder has not: entries that lead here. */
  ghost predicate Behind(reg: Registry, rank: map<Id, nat>, p: Trail, q: Route, id: Id)
    requires Guarded(reg, rank) && id in reg
  {
    q.rawDepth == p.rawDepth && forall d | d in reg && rank[d] <= rank[id] :: q.depths[d] == p.depths[d]
  }

  /** A primitive is read through the aliases that it was written through. */
  lemma {:induction false} PrimThroughAliases(w: World, p: Trail, ids: map<Addr, nat>, id: Id, prim: Prim, viaRef: bool,
                                              q: Route, d: Progress, rest: seq<Byte>)
    requires w.Ok() && JsHeap(w.heap) && id in w.reg && p.rawDepth <= NEST_LIMIT + 1 && Behind(w.reg, w.rank, p, q, id)
    requires EncDecl(w, p, ids, id, Prim(prim), viaRef).Enc?
    requires d.bs == EncDecl(w, p, ids, id, Prim(prim), viaRef).bytes + rest
    ensures var e := EncDecl(w, p, ids, id, Prim(prim), viaRef);
            var o := DecDecl(w.reg, w.rank, q, d, id, viaRef);
            && e.ids == ids && Writable(HeadPrim(prim)) && e.bytes == WriteHead(HeadPrim(prim))
            && if e.shallow && e.licensed then o == Dec(Prim(Normal(prim)), d.(bs := rest, built := d.built + 1))
               else o.Failed?
    decreases w.rank[id]
  {
    hide MaybeRef, ReadHead, WriteHead, JsHeap;
    var body := w.reg[id].body;
    var p', q' := p.(pathDepth := p.pathDepth + 1), EnterRoute(q, id, viaRef);
    assert Bound(w.rank, body) <= w.rank[id];
    if body.Node? {
      ReadsToken(HeadPrim(prim), rest, d.bs);
      PrimDecodes(w.reg, w.rank, q', d, Some(body), prim, rest);
    } else {
      assert body.target in w.reg;
      PrimThroughAliases(w, p', ids, body.target, prim, body.Ref?, q', d, rest);
      ReadsToken(HeadPrim(prim), rest, d.bs);
    }
  }

  lemma {:induction false} DeclPrimReplays(w: World, p: Trail, ids: map<Addr, nat>, id: Id, prim: Prim, viaRef: bool,
                                           q: Route, d: Progress, rest: seq<Byte>, twins: set<Twin>)
    requires w.Ok() && JsHeap(w.heap) && PlainAliases(w.reg) && id in w.reg
    requires p.rawDepth <= NEST_LIMIT + 1
    requires EncDecl(w, p, ids, id, Prim(prim), viaRef).Enc?
    requires d.bs == EncDecl(w, p, ids, id, Prim(prim), viaRef).bytes + rest
    requires Aligned(w, p, ids, q, d.objs, |d.heap|) && Covered(w, p, ids, d.objs, d.heap, twins)
    ensures var e := EncDecl(w, p, ids, id, Prim(prim), viaRef);
            var o := DecDecl(w.reg, w.rank, q, d, id, viaRef);
            && Replayed(w, p, q, d, e, o, rest, twins, twins, None)
            && (o.Dec? ==> o.val == Prim(Normal(prim)))
  {
    hide InStep, SameOpen, Covered, JsHeap, EncDecl, DecDecl, WriteHead;
    PrimThroughAliases(w, p, ids, id, prim, viaRef, q, d, rest);
  }

  lemma {:induction false} DeclRefReplays(w: World, p: Trail, ids: map<Addr, nat>, id: Id, a: Addr, viaRef: bool,
                                          q: Route, d: Progress, rest: seq<Byte>, twins: set<Twin>)
    requires w.Ok() && JsHeap(w.heap) && PlainAliases(w.reg) && id in w.reg && a in w.heap
    requires p.rawDepth <= NEST_LIMIT + 1 && w.reg[id].Tracked() && a in ids
    requires EncDecl(w, p, ids, id, Obj(a), viaRef).Enc?
    requires d.bs == EncDecl(w, p, ids, id, Obj(a), viaRef).bytes + rest
    requires Aligned(w, p, ids, q, d.objs, |d.heap|) && Covered(w, p, ids, d.objs, d.heap, twins)
    ensures var e := EncDecl(w, p, ids, id, Obj(a), viaRef);
            var o := DecDecl(w.reg, w.rank, q, d, id, viaRef);
            && Replayed(w, p, q, d, e, o, rest, twins, twins, None)
            && (o.Dec? ==> a in Image(e.ids, o.at.objs) && o.val == Obj(Image(e.ids, o.at.objs)[a]))
  {
    hide MaybeRef, WriteRef, Covered, JsHeap, EncVal, DecVal;
    assert InStep(w, ids, d.objs, |d.heap|);
    FewObjects(w, ids);
    RefBack(ids[a], rest);
  }

  lemma FewObjects(w: World, ids: map<Addr, nat>)
    requires ids.Keys <= w.heap.Keys && JsHeap(w.heap)
    ensures |ids| <= 0x1_0000_0000
  {
    SubsetCount(ids.Keys, w.heap.Keys);
  }

  lemma {:induction false} SubsetCount(a: set<Addr>, b: set<Addr>)
    requires a <= b
    ensures |a| <= |b|
  {
    if a != {} {
      var x :| x in a;
      SubsetCount(a - {x}, b - {x});
    }
  }

  // ---------- What keeps the walks in step ----------

  lemma EnterAligned(w: World, p: Trail, ids: map<Addr, nat>, q: Route, objs: seq<Entry>, heap: seq<Cell>,
                     twins: set<Twin>, pair: Pair, viaRef: bool)
    requires Aligned(w, p, ids, q, objs, |heap|) && Covered(w, p, ids, objs, heap, twins)
    ensures Aligned(w, EnterTrail(p, pair, viaRef, false), ids, EnterRoute(q, pair.id, viaRef), objs, |heap|)
    ensures Covered(w, EnterTrail(p, pair, viaRef, false), ids, objs, heap, twins)
  {
    hide Twinned;
  }

  lemma LeaveAligned(w: World, p: Trail, ids: map<Addr, nat>, q: Route, objs: seq<Entry>, heap: seq<Cell>,
                     twins: set<Twin>, pair: Pair, viaRef: bool)
    requires SamePath(p, q)
    requires Aligned(w, EnterTrail(p, pair, viaRef, false), ids, EnterRoute(q, pair.id, viaRef), objs, |heap|)
    requires Covered(w, EnterTrail(p, pair, viaRef, false), ids, objs, heap, twins)
    ensures Aligned(w, p, ids, q, objs, |heap|) && Covered(w, p, ids, objs, heap, twins)
  {
    hide Twinned;
  }

  lemma ShellInStep(w: World, ids: map<Addr, nat>, d: Progress, a: Addr, isArray: bool, pathDepth: nat)
    requires a in w.heap && a !in ids && InStep(w, ids, d.objs, |d.heap|)
    ensures var d' := Register(d, isArray, pathDepth); InStep(w, ids[a := |ids|], d'.objs, |d'.heap|)
  {
    OneMoreInStep(w, ids, d.objs, |d.heap|, a, Entry(|d.heap|, pathDepth));
  }

  lemma OneMoreInStep(w: World, ids: map<Addr, nat>, objs: seq<Entry>, limit: nat, a: Addr, e: Entry)
    requires a in w.heap && a !in ids && InStep(w, ids, objs, limit) && e.addr == limit
    ensures InStep(w, ids[a := |ids|], objs + [e], limit + 1)
  {
    var ids' := ids[a := |ids|];
    assert ids'.Keys == ids.Keys + {a};
    forall b, c | b in ids' && c in ids' && ids'[b] == ids'[c] ensures b == c {
      assert b != a ==> ids[b] < |ids|;
      assert c != a ==> ids[c] < |ids|;
    }
  }

  lemma ShellOpen(w: World, p: Trail, ids: map<Addr, nat>, q: Route, d: Progress, pair: Pair, viaRef: bool,
                  isArray: bool)
    requires pair.addr !in ids && InStep(w, ids, d.objs, |d.heap|) && SameOpen(p, ids, q, d.objs)
    requires SamePath(p, q)
    ensures SameOpen(EnterTrail(p, pair, viaRef, true), ids[pair.addr := |ids|],
                     EnterRoute(q, pair.id, viaRef).(open := q.open + {|d.objs|}),
                     Register(d, isArray, q.pathDepth).objs)
  {
  }

  lemma ShellCovered(w: World, p: Trail, ids: map<Addr, nat>, d: Progress, twins: set<Twin>, pair: Pair, viaRef: bool,
                     isArray: bool, pathDepth: nat)
    requires pair.addr !in ids && |ids| == |d.objs| && forall a | a in ids :: ids[a] < |d.objs|
    requires Covered(w, p, ids, d.objs, d.heap, twins)
    ensures var d' := Register(d, isArray, pathDepth);
            Covered(w, EnterTrail(p, pair, viaRef, true), ids[pair.addr := |ids|], d'.objs, d'.heap, twins)
  {
    hide SameCell;
    var d' := Register(d, isArray, pathDepth);
    var ids' := ids[pair.addr := |ids|];
    ImageGrows(ids, d.objs, ids', d'.objs);
    TwinnedGrows(w, d.heap, d'.heap, twins, twins, Image(ids, d.objs), Image(ids', d'.objs));
    hide Twinned;
  }

  /** Registering an object and its shell. */
  lemma ShellAligned(w: World, p: Trail, ids: map<Addr, nat>, q: Route, d: Progress, twins: set<Twin>, pair: Pair,
                     viaRef: bool, isArray: bool)
    requires pair.addr in w.heap && pair.addr !in ids
    requires Aligned(w, p, ids, q, d.objs, |d.heap|) && Covered(w, p, ids, d.objs, d.heap, twins)
    ensures var d' := Register(d, isArray, q.pathDepth);
            var p' := EnterTrail(p, pair, viaRef, true);
            var ids' := ids[pair.addr := |ids|];
            && Aligned(w, p', ids', EnterRoute(q, pair.id, viaRef).(open := q.open + {|d.objs|}), d'.objs, |d'.heap|)
            && Covered(w, p', ids', d'.objs, d'.heap, twins)
  {
    ShellInStep(w, ids, d, pair.addr, isArray, q.pathDepth);
    ShellOpen(w, p, ids, q, d, pair, viaRef, isArray);
    ShellCovered(w, p, ids, d, twins, pair, viaRef, isArray, q.pathDepth);
    hide InStep, SameOpen, Covered;
  }

  /** Leaving a tracked object once it has a twin. */
  lemma ShellLeft(w: World, p: Trail, ids: map<Addr, nat>, ids': map<Addr, nat>, q: Route, objs: seq<Entry>,
                  objs': seq<Entry>, heap': seq<Cell>, twins: set<Twin>, pair: Pair, viaRef: bool)
    requires SamePath(p, q) && SameOpen(p, ids, q, objs) && pair.addr !in ids && |ids| == |objs|
    requires Grew(ids[pair.addr := |ids|], ids') && objs <= objs' && |objs| < |objs'|
    requires Aligned(w, EnterTrail(p, pair, viaRef, true), ids',
                     EnterRoute(q, pair.id, viaRef).(open := q.open + {|objs|}), objs', |heap'|)
    requires Covered(w, EnterTrail(p, pair, viaRef, true), ids', objs', heap', twins)
    requires exists s :: Twin(s, pair.addr, objs'[|objs|].addr) in twins
    ensures Aligned(w, p, ids', q, objs', |heap'|) && Covered(w, p, ids', objs', heap', twins)
  {
    hide Twinned, InStep;
    assert ids'[pair.addr] == |ids|;
    var p' := EnterTrail(p, pair, viaRef, true);
    forall a | a in p.open
      ensures a in ids' && ids'[a] in q.open && ids'[a] < |objs'| && objs'[ids'[a]].pathDepth == p.open[a]
    {
      assert ids'[a] == ids[a];
    }
    forall a | a in ids' && ids'[a] in q.open ensures a in p.open {
      assert a in p'.open;
    }
  }

  /** Finished twins stay replicas while other cells change and images are added. */
  lemma TwinnedGrows(w: World, heap: seq<Cell>, heap': seq<Cell>, twins: set<Twin>, twins': set<Twin>,
                     image: map<Addr, Addr>, image': map<Addr, Addr>)
    requires Twinned(w, heap, twins, image) && twins <= twins' && |heap| <= |heap'|
    requires forall t | t in twins && t.dst < |heap| :: heap'[t.dst] == heap[t.dst]
    requires forall a | a in image :: a in image' && image'[a] == image[a]
    requires forall t | t in twins' - twins ::
               t.src in w.heap && t.dst < |heap'| && SameCell(w.reg, t, w.heap[t.src], heap'[t.dst], twins', image')
    ensures Twinned(w, heap', twins', image')
  {
    hide SameCell;
    forall t | t in twins'
      ensures t.src in w.heap && t.dst < |heap'| && SameCell(w.reg, t, w.heap[t.src], heap'[t.dst], twins', image')
    {
      if t in twins {
        SameCellGrows(w.reg, t, w.heap[t.src], heap[t.dst], twins, image, twins', image');
      }
    }
  }

  /** Filling a cell that no finished twin uses. */
  lemma FillKeeps(w: World, p: Trail, ids: map<Addr, nat>, objs: seq<Entry>, heap: seq<Cell>, twins: set<Twin>,
                  dst: Addr, cell: Cell)
    requires Covered(w, p, ids, objs, heap, twins) && dst < |heap| && Avoids(twins, dst)
    ensures Covered(w, p, ids, objs, heap[dst := cell], twins)
  {
    hide SameCell;
    TwinnedGrows(w, heap, heap[dst := cell], twins, twins, Image(ids, objs), Image(ids, objs));
    hide Twinned;
  }

  /** A filled cell that replicates its source joins the finished twins. */
  lemma FinishTwin(w: World, p: Trail, ids: map<Addr, nat>, objs: seq<Entry>, heap: seq<Cell>, twins: set<Twin>,
                   t: Twin)
    requires Covered(w, p, ids, objs, heap, twins) && t.src in w.heap && t.dst < |heap|
    requires SameCell(w.reg, t, w.heap[t.src], heap[t.dst], twins, Image(ids, objs))
    ensures Covered(w, p, ids, objs, heap, twins + {t})
  {
    hide SameCell;
    var image := Image(ids, objs);
    SameCellGrows(w.reg, t, w.heap[t.src], heap[t.dst], twins, image, twins + {t}, image);
    TwinnedGrows(w, heap, heap, twins, twins + {t}, image, image);
    hide Twinned;
  }

  lemma AllotKeeps(w: World, p: Trail, ids: map<Addr, nat>, q: Route, d: Progress, twins: set<Twin>, isArray: bool)
    requires Aligned(w, p, ids, q, d.objs, |d.heap|) && Covered(w, p, ids, d.objs, d.heap, twins)
    ensures Aligned(w, p, ids, q, d.objs, |d.heap| + 1) && Covered(w, p, ids, d.objs, Allot(d, isArray).heap, twins)
    ensures Avoids(twins, |d.heap|)
  {
    hide SameCell;
    TwinnedGrows(w, d.heap, Allot(d, isArray).heap, twins, twins, Image(ids, d.objs), Image(ids, d.objs));
  }

  /** An encoded object starts with the header of its cell. */
  lemma ContainerBytes(w: World, p: Trail, ids: map<Addr, nat>, s: Position, a: Addr, chain: set<Addr>)
    returns (h: Head, tail: seq<Byte>)
    requires w.Ok() && JsHeap(w.heap) && a in w.heap && !IsBoundary(s)
    requires EncVal(w, p, ids, s, Obj(a), chain).Enc?
    ensures !h.HeadPrim? && h.HeadArr? == w.heap[a].Arr?
    ensures EncVal(w, p, ids, s, Obj(a), chain).bytes == WriteHead(h) + tail
  {
    hide EncElems, EncFields, WriteHead;
    assert forall x | x in w.heap[a].Vals() :: InHeap(w.heap, x);
    match w.heap[a]
    case Arr(elems) =>
      h := HeadArr(|elems|);
      tail := EncElems(w, p.(rawDepth := p.rawDepth + 1), ids, s, elems, chain, a).bytes;
      assert WriteHead(h) + [] + tail == WriteHead(h) + tail;
    case Rec(fields) =>
      var kept := Kept(fields);
      h := HeadMap(|kept|);
      tail := EncFields(w, p.(rawDepth := p.rawDepth + 1, rawStack := p.rawStack + {a}), ids, s, kept).bytes;
      assert WriteHead(h) + [] + tail == WriteHead(h) + tail;
  }

  /** So does one behind aliases. */
  lemma {:induction false} StartBytes(w: World, p: Trail, ids: map<Addr, nat>, s: Position, a: Addr)
    returns (h: Head, tail: seq<Byte>)
    requires w.Ok() && JsHeap(w.heap) && PlainAliases(w.reg) && a in w.heap
    requires IsBoundary(s) && s.value.target in w.reg ==> !w.reg[s.value.target].Tracked()
    requires EncVal(w, p, ids, s, Obj(a), {}).Enc?
    ensures !h.HeadPrim? && h.HeadArr? == w.heap[a].Arr?
    ensures EncVal(w, p, ids, s, Obj(a), {}).bytes == WriteHead(h) + tail
    decreases Unentered(w, p)
  {
    hide JsHeap, WriteHead;
    if IsBoundary(s) {
      var id := s.value.target;
      EncUntracked(w, p, ids, id, a, s.value.Ref?);
      h, tail := StartBytes(w, EnterTrail(p, Pair(a, id), s.value.Ref?, false), ids, Some(w.reg[id].body), a);
    } else {
      h, tail := ContainerBytes(w, p, ids, s, a, {});
    }
  }

  lemma {:induction false} EncUntracked(w: World, p: Trail, ids: map<Addr, nat>, id: Id, a: Addr, viaRef: bool)
    requires w.Ok() && JsHeap(w.heap) && id in w.reg && a in w.heap && !w.reg[id].Tracked()
    requires EncDecl(w, p, ids, id, Obj(a), viaRef).Enc?
    ensures Pair(a, id) in Unentered(w, p) && !(viaRef && w.reg[id].Capped(p.depths[id] + 1))
    ensures EncDecl(w, p, ids, id, Obj(a), viaRef) ==
            EncVal(w, EnterTrail(p, Pair(a, id), viaRef, false), ids, Some(w.reg[id].body), Obj(a), {})
  {
    hide EncVal, JsHeap;
    assert Pair(a, id) in Unentered(w, p);
  }

  // ---------- The replay ----------

  /** The shell given to a value is empty, of the right kind, and not yet a twin. */
  ghost predicate FreshShell(w: World, v: Val, d: Progress, shell: Option<Addr>, twins: set<Twin>)
    requires InHeap(w.heap, v)
  {
    shell.Some? ==>
      && v.Obj? && shell.value < |d.heap| && d.bs != []
      && d.heap[shell.value] == Empty(w.heap[v.addr].Arr?)
      && (if d.heap[shell.value].Arr? then IsArrToken(d.bs[0]) else IsMapToken(d.bs[0]))
      && Avoids(twins, shell.value)
  }

  lemma {:induction false} DeclReplays(w: World, p: Trail, ids: map<Addr, nat>, id: Id, v: Val, viaRef: bool, q: Route,
                                       d: Progress, rest: seq<Byte>, twins: set<Twin>)
    returns (twins': set<Twin>)
    requires w.Ok() && JsHeap(w.heap) && PlainAliases(w.reg) && id in w.reg && InHeap(w.heap, v)
    requires p.rawDepth <= NEST_LIMIT + 1
    requires EncDecl(w, p, ids, id, v, viaRef).Enc?
    requires d.bs == EncDecl(w, p, ids, id, v, viaRef).bytes + rest
    requires Aligned(w, p, ids, q, d.objs, |d.heap|) && Covered(w, p, ids, d.objs, d.heap, twins)
    ensures var e := EncDecl(w, p, ids, id, v, viaRef);
            var o := DecDecl(w.reg, w.rank, q, d, id, viaRef);
            && Replayed(w, p, q, d, e, o, rest, twins, twins', None)
            && (o.Dec? ==> Same(w.reg, Some(Ref(id)), v, o.val, twins', Image(e.ids, o.at.objs)))
    decreases Unentered(w, p), if v.Obj? then 1 else 0, w.heap.Keys - p.rawStack,
              if v.Obj? then 0 else w.rank[id], if v.Obj? then 0 else 2
  {
    hide MaybeRef, ReadHead, WriteHead, InStep, SameOpen, Covered, JsHeap, EncDecl, DecDecl, Image;
    twins' := twins;
    if v.Prim? {
      DeclPrimReplays(w, p, ids, id, v.prim, viaRef, q, d, rest, twins);
    } else if w.reg[id].Tracked() && v.addr in ids {
      DeclRefReplays(w, p, ids, id, v.addr, viaRef, q, d, rest, twins);
    } else {
      twins' := DeclObjReplays(w, p, ids, id, v.addr, viaRef, q, d, rest, twins);
    }
  }

  lemma {:induction false} DeclObjReplays(w: World, p: Trail, ids: map<Addr, nat>, id: Id, a: Addr, viaRef: bool,
                                          q: Route, d: Progress, rest: seq<Byte>, twins: set<Twin>)
    returns (twins': set<Twin>)
    requires w.Ok() && JsHeap(w.heap) && PlainAliases(w.reg) && id in w.reg && a in w.heap
    requires p.rawDepth <= NEST_LIMIT + 1 && !(w.reg[id].Tracked() && a in ids)
    requires EncDecl(w, p, ids, id, Obj(a), viaRef).Enc?
    requires d.bs == EncDecl(w, p, ids, id, Obj(a), viaRef).bytes + rest
    requires Aligned(w, p, ids, q, d.objs, |d.heap|) && Covered(w, p, ids, d.objs, d.heap, twins)
    ensures var e := EncDecl(w, p, ids, id, Obj(a), viaRef);
            var o := DecDecl(w.reg, w.rank, q, d, id, viaRef);
            && Replayed(w, p, q, d, e, o, rest, twins, twins', None)
            && (o.Dec? ==> Same(w.reg, Some(Ref(id)), Obj(a), o.val, twins', Image(e.ids, o.at.objs)))
    decreases Unentered(w, p), 1, w.heap.Keys - p.rawStack, 0, 0, 0
  {
    hide MaybeRef, ReadHead, WriteHead, InStep, SameOpen, Covered, JsHeap, EncVal, DecVal, Image, Same;
    assert Pair(a, id) in Unentered(w, p);
    var tracked := w.reg[id].Tracked();
    var p' := EnterTrail(p, Pair(a, id), viaRef, tracked);
    var ids' := if tracked then ids[a := |ids|] else ids;
    var h, tail := StartBytes(w, p', ids', Some(w.reg[id].body), a);
    assert d.bs == WriteHead(h) + (tail + rest);
    ReadsToken(h, tail + rest, d.bs);
    if tracked {
      twins' := TrackedReplays(w, p, ids, id, a, viaRef, q, d, rest, twins);
    } else {
      EnterAligned(w, p, ids, q, d.objs, d.heap, twins, Pair(a, id), viaRef);
      var q' := EnterRoute(q, id, viaRef);
      twins' := ValReplays(w, p', ids, Some(w.reg[id].body), Obj(a), {}, q', d, None, rest, twins);
      var o := DecVal(w.reg, w.rank, EnterRoute(q, id, viaRef), d, Some(w.reg[id].body), None);
      if o.Dec? {
        var e := EncVal(w, p', ids, Some(w.reg[id].body), Obj(a), {});
        LeaveAligned(w, p, e.ids, q, o.at.objs, o.at.heap, twins', Pair(a, id), viaRef);
        SameAtAlias(w, id, a, o.val, twins', Image(e.ids, o.at.objs));
      }
    }
  }

  lemma SameAtAlias(w: World, id: Id, a: Addr, y: Val, twins: set<Twin>, image: map<Addr, Addr>)
    requires w.Ok() && PlainAliases(w.reg) && id in w.reg && !w.reg[id].Tracked()
    requires Same(w.reg, Some(w.reg[id].body), Obj(a), y, twins, image)
    ensures Same(w.reg, Some(Ref(id)), Obj(a), y, twins, image)
  {
    if !w.reg[id].body.Node? { AliasLands(w.reg, w.rank, id); }
  }

  lemma SameAtDecl(reg: Registry, id: Id, a: Addr, y: Val, twins: set<Twin>, image: map<Addr, Addr>)
    requires id in reg && reg[id].body.Node? && Same(reg, Some(reg[id].body), Obj(a), y, twins, image)
    requires reg[id].Tracked() ==> a in image && y == Obj(image[a])
    ensures Same(reg, Some(Ref(id)), Obj(a), y, twins, image)
  {
  }

  /** A tracked object is registered on both sides before its contents are walked. */
  lemma {:induction false} EncTracked(w: World, p: Trail, ids: map<Addr, nat>, id: Id, a: Addr, viaRef: bool)
    requires w.Ok() && JsHeap(w.heap) && id in w.reg && a in w.heap && w.reg[id].Tracked() && a !in ids
    requires EncDecl(w, p, ids, id, Obj(a), viaRef).Enc?
    ensures Pair(a, id) in Unentered(w, p) && !(viaRef && w.reg[id].Capped(p.depths[id] + 1))
    ensures EncDecl(w, p, ids, id, Obj(a), viaRef) ==
            EncVal(w, EnterTrail(p, Pair(a, id), viaRef, true), ids[a := |ids|], Some(w.reg[id].body), Obj(a), {})
  {
    hide EncVal, JsHeap;
    assert Pair(a, id) in Unentered(w, p);
  }

  lemma {:induction false} DecTracked(reg: Registry, rank: map<Id, nat>, q: Route, d: Progress, id: Id, viaRef: bool,
                                      isArray: bool)
    requires Guarded(reg, rank) && id in reg && q.rawDepth <= NEST_LIMIT + 1 && reg[id].Tracked()
    requires !BeyondCap(reg[id], q, id, viaRef) && d.bs != [] && MaybeRef(d.bs) == NoRef
    requires if isArray then IsArrToken(d.bs[0]) else !IsArrToken(d.bs[0]) && IsMapToken(d.bs[0])
    ensures DecDecl(reg, rank, q, d, id, viaRef) ==
            DecVal(reg, rank, EnterRoute(q, id, viaRef).(open := q.open + {|d.objs|}),
                   Register(d, isArray, q.pathDepth), Some(reg[id].body), Some(|d.heap|))
  {
    hide DecVal, MaybeRef;
  }

  lemma {:induction false} TrackedReplays(w: World, p: Trail, ids: map<Addr, nat>, id: Id, a: Addr, viaRef: bool,
                                          q: Route, d: Progress, rest: seq<Byte>, twins: set<Twin>)
    returns (twins': set<Twin>)
    requires w.Ok() && JsHeap(w.heap) && PlainAliases(w.reg) && id in w.reg && a in w.heap
    requires p.rawDepth <= NEST_LIMIT + 1 && w.reg[id].Tracked() && a !in ids
    requires EncDecl(w, p, ids, id, Obj(a), viaRef).Enc?
    requires d.bs == EncDecl(w, p, ids, id, Obj(a), viaRef).bytes + rest
    requires Aligned(w, p, ids, q, d.objs, |d.heap|) && Covered(w, p, ids, d.objs, d.heap, twins)
    ensures var e := EncDecl(w, p, ids, id, Obj(a), viaRef);
            var o := DecDecl(w.reg, w.rank, q, d, id, viaRef);
            && Replayed(w, p, q, d, e, o, rest, twins, twins', None)
            && (o.Dec? ==> Same(w.reg, Some(Ref(id)), Obj(a), o.val, twins', Image(e.ids, o.at.objs)))
    decreases Unentered(w, p), 1, w.heap.Keys - p.rawStack, 0, 0, 0, 0
  {
    hide MaybeRef, ReadHead, WriteHead, InStep, SameOpen, Covered, JsHeap, EncDecl, EncVal, DecDecl, DecVal, Image,
         Same,
      Advances, Bounded, NewCells;
    EncTracked(w, p, ids, id, a, viaRef);
    var pair := Pair(a, id);
    var p' := EnterTrail(p, pair, viaRef, true);
    var ids' := ids[a := |ids|];
    var s := Some(w.reg[id].body);
    var h, tail := ContainerBytes(w, p', ids', s, a, {});
    assert d.bs == WriteHead(h) + (tail + rest);
    ReadsToken(h, tail + rest, d.bs);
    var q' := EnterRoute(q, id, viaRef).(open := q.open + {|d.objs|});
    var d' := Register(d, h.HeadArr?, q.pathDepth);
    var shell := Some(|d.heap|);
    DecTracked(w.reg, w.rank, q, d, id, viaRef, h.HeadArr?);
    ShellAligned(w, p, ids, q, d, twins, pair, viaRef, h.HeadArr?);
    ShellUnused(w, p, ids, d, twins);
    twins' := ValReplays(w, p', ids', s, Obj(a), {}, q', d', shell, rest, twins);
    var o := DecVal(w.reg, w.rank, q', d', s, shell);
    if o.Dec? {
      var e := EncVal(w, p', ids', s, Obj(a), {});
      ShellKept(d, o, h.HeadArr?, q.pathDepth, twins, twins');
      TrackedLeft(w, p, ids, e.ids, id, a, viaRef, q, d, o.at, twins');
    }
  }

  /** The walk of a tracked object is done. */
  lemma TrackedLeft(w: World, p: Trail, ids: map<Addr, nat>, ids': map<Addr, nat>, id: Id, a: Addr, viaRef: bool,
                    q: Route, d: Progress, d': Progress, twins: set<Twin>)
    requires id in w.reg && w.reg[id].body.Node? && w.reg[id].Tracked() && a !in ids
    requires Aligned(w, p, ids, q, d.objs, |d.heap|)
    requires d.objs <= d'.objs && |d.objs| < |d'.objs| && d'.objs[|d.objs|].addr == |d.heap|
    requires var p' := EnterTrail(p, Pair(a, id), viaRef, true);
             && Grew(ids[a := |ids|], ids')
             && Aligned(w, p', ids', EnterRoute(q, id, viaRef).(open := q.open + {|d.objs|}), d'.objs, |d'.heap|)
             && Covered(w, p', ids', d'.objs, d'.heap, twins)
    requires Same(w.reg, Some(w.reg[id].body), Obj(a), Obj(|d.heap|), twins, Image(ids', d'.objs))
    ensures Aligned(w, p, ids', q, d'.objs, |d'.heap|) && Covered(w, p, ids', d'.objs, d'.heap, twins)
    ensures Same(w.reg, Some(Ref(id)), Obj(a), Obj(|d.heap|), twins, Image(ids', d'.objs))
  {
    hide InStep, SameOpen, Covered, Image, Same;
    var s, y := Some(w.reg[id].body), Obj(|d.heap|);
    InStepCount(w, ids, d.objs, |d.heap|);
    SameIsTwin(w.reg, s, a, y, twins, Image(ids', d'.objs));
    ShellLeft(w, p, ids, ids', q, d.objs, d'.objs, d'.heap, twins, Pair(a, id), viaRef);
    ImageAt(ids', d'.objs, a);
    SameAtDecl(w.reg, id, a, y, twins, Image(ids', d'.objs));
  }

  /** The shell keeps its place in the table, and what is built is built in it or after it. */
  lemma ShellKept(d: Progress, o: Decoded, isArray: bool, pathDepth: nat, twins: set<Twin>, twins': set<Twin>)
    requires o.Dec? && Advances(Register(d, isArray, pathDepth), o, Some(|d.heap|))
    requires NewCells(twins, twins', |d.heap| + 1, Some(|d.heap|))
    ensures d.objs <= o.at.objs && |d.objs| < |o.at.objs| && o.at.objs[|d.objs|] == Entry(|d.heap|, pathDepth)
    ensures NewCells(twins, twins', |d.heap|, None)
  {
    assert Register(d, isArray, pathDepth).objs[|d.objs|] == Entry(|d.heap|, pathDepth);
  }

  lemma ShellUnused(w: World, p: Trail, ids: map<Addr, nat>, d: Progress, twins: set<Twin>)
    requires Covered(w, p, ids, d.objs, d.heap, twins)
    ensures forall t | t in twins :: t.dst < |d.heap|
  {
    hide SameCell;
  }

  lemma InStepCount(w: World, ids: map<Addr, nat>, objs: seq<Entry>, limit: nat)
    requires InStep(w, ids, objs, limit)
    ensures |ids| == |objs|
  {
  }

  lemma SameIsTwin(reg: Registry, s: Position, a: Addr, y: Val, twins: set<Twin>, image: map<Addr, Addr>)
    requires !IsBoundary(s) && Same(reg, s, Obj(a), y, twins, image)
    ensures y.Obj? && Twin(s, a, y.addr) in twins
  {
  }

  lemma ImageAt(ids: map<Addr, nat>, objs: seq<Entry>, a: Addr)
    requires a in ids && ids[a] < |objs|
    ensures a in Image(ids, objs) && Image(ids, objs)[a] == objs[ids[a]].addr
  {
  }

  lemma {:induction false} ValReplays(w: World, p: Trail, ids: map<Addr, nat>, s: Position, v: Val, chain: set<Addr>,
                                      q: Route, d: Progress, shell: Option<Addr>, rest: seq<Byte>, twins: set<Twin>)
    returns (twins': set<Twin>)
    requires w.Ok() && JsHeap(w.heap) && PlainAliases(w.reg) && InHeap(w.heap, v) && p.rawDepth <= NEST_LIMIT + 1
    requires EncVal(w, p, ids, s, v, chain).Enc? && d.bs == EncVal(w, p, ids, s, v, chain).bytes + rest
    requires Aligned(w, p, ids, q, d.objs, |d.heap|) && Covered(w, p, ids, d.objs, d.heap, twins)
    requires FreshShell(w, v, d, shell, twins) && (shell.Some? ==> !IsBoundary(s))
    ensures var e := EncVal(w, p, ids, s, v, chain);
            var o := DecVal(w.reg, w.rank, q, d, s, shell);
            && Replayed(w, p, q, d, e, o, rest, twins, twins', shell)
            && (o.Dec? ==> Same(w.reg, s, v, o.val, twins', Image(e.ids, o.at.objs)))
            && (o.Dec? && shell.Some? ==> o.val == Obj(shell.value))
    decreases Unentered(w, p), if v.Obj? then 1 else 0, w.heap.Keys - p.rawStack,
              if v.Obj? || s.None? then 0 else Bound(w.rank, s.value), if s.Some? then 1 else 0,
              if s.Some? then s.value else Ref(""), if s.Some? then {} else w.heap.Keys - chain
  {
    hide MaybeRef, ReadHead, WriteHead, InStep, SameOpen, Covered, JsHeap, EncDecl, DecDecl, Image;
    twins' := twins;
    if IsBoundary(s) {
      twins' := DeclReplays(w, p, ids, s.value.target, v, s.value.Ref?, q, d, rest, twins);
    } else if v.Prim? {
      PrimDecodes(w.reg, w.rank, q, d, s, v.prim, rest);
    } else {
      twins' := ObjReplays(w, p, ids, s, v.addr, chain, q, d, shell, rest, twins);
    }
  }

  /** The decoder's state after the header of a container, and the cell it fills. */
  ghost function Opened(d: Progress, shell: Option<Addr>, isArray: bool, bs: seq<Byte>): (Progress, Addr) {
    if shell.Some? then (d.(bs := bs), shell.value) else (Allot(d, isArray).(bs := bs), |d.heap|)
  }

  lemma OpenedAligned(w: World, p: Trail, p': Trail, ids: map<Addr, nat>, q: Route, d: Progress, v: Val,
                      shell: Option<Addr>, bs: seq<Byte>, twins: set<Twin>)
    requires v.Obj? && InHeap(w.heap, v) && FreshShell(w, v, d, shell, twins)
    requires Aligned(w, p, ids, q, d.objs, |d.heap|) && Covered(w, p, ids, d.objs, d.heap, twins)
    requires p'.(rawStack := p.rawStack) == p.(rawDepth := p.rawDepth + 1)
    ensures var (d', dst) := Opened(d, shell, w.heap[v.addr].Arr?, bs);
            && dst < |d'.heap| && d'.heap[dst] == Empty(w.heap[v.addr].Arr?) && Avoids(twins, dst)
            && (shell.Some? ==> dst == shell.value) && (shell.None? ==> dst == |d.heap|) && |d.heap| <= |d'.heap|
            && Aligned(w, p', ids, q.(rawDepth := q.rawDepth + 1), d'.objs, |d'.heap|)
            && Covered(w, p', ids, d'.objs, d'.heap, twins)
  {
    hide Twinned, InStep, Avoids;
    if shell.None? { AllotKeeps(w, p, ids, q, d, twins, w.heap[v.addr].Arr?); }
    var (d', dst) := Opened(d, shell, w.heap[v.addr].Arr?, bs);
    RawDeeper(w, p, p', ids, q, d'.objs, d'.heap, twins);
  }

  lemma RawDeeper(w: World, p: Trail, p': Trail, ids: map<Addr, nat>, q: Route, objs: seq<Entry>, heap: seq<Cell>,
                  twins: set<Twin>)
    requires Aligned(w, p, ids, q, objs, |heap|) && Covered(w, p, ids, objs, heap, twins)
    requires p'.(rawStack := p.rawStack) == p.(rawDepth := p.rawDepth + 1)
    ensures Aligned(w, p', ids, q.(rawDepth := q.rawDepth + 1), objs, |heap|) && Covered(w, p', ids, objs, heap, twins)
  {
    hide Twinned, InStep;
  }

  /** After the contents of a container, its cell is a finished twin. */
  lemma ClosedAligned(w: World, p: Trail, p': Trail, ids: map<Addr, nat>, q: Route, objs: seq<Entry>, heap: seq<Cell>,
                      twins: set<Twin>, t: Twin)
    requires SamePath(p, q) && p'.(rawStack := p.rawStack) == p.(rawDepth := p.rawDepth + 1)
    requires Aligned(w, p', ids, q.(rawDepth := q.rawDepth + 1), objs, |heap|)
    requires Covered(w, p', ids, objs, heap, twins) && t.src in w.heap && t.dst < |heap| && !IsBoundary(t.pos)
    requires SameCell(w.reg, t, w.heap[t.src], heap[t.dst], twins, Image(ids, objs))
    ensures Aligned(w, p, ids, q, objs, |heap|) && Covered(w, p, ids, objs, heap, twins + {t})
    ensures Same(w.reg, t.pos, Obj(t.src), Obj(t.dst), twins + {t}, Image(ids, objs))
  {
    FinishTwin(w, p', ids, objs, heap, twins, t);
    hide SameCell, Twinned, InStep;
  }

  lemma {:induction false} ObjReplays(w: World, p: Trail, ids: map<Addr, nat>, s: Position, a: Addr, chain: set<Addr>,
                                      q: Route, d: Progress, shell: Option<Addr>, rest: seq<Byte>, twins: set<Twin>)
    returns (twins': set<Twin>)
    requires w.Ok() && JsHeap(w.heap) && PlainAliases(w.reg) && a in w.heap && !IsBoundary(s)
    requires p.rawDepth <= NEST_LIMIT + 1
    requires EncVal(w, p, ids, s, Obj(a), chain).Enc? && d.bs == EncVal(w, p, ids, s, Obj(a), chain).bytes + rest
    requires Aligned(w, p, ids, q, d.objs, |d.heap|) && Covered(w, p, ids, d.objs, d.heap, twins)
    requires FreshShell(w, Obj(a), d, shell, twins)
    ensures var e := EncVal(w, p, ids, s, Obj(a), chain);
            var o := DecVal(w.reg, w.rank, q, d, s, shell);
            && Replayed(w, p, q, d, e, o, rest, twins, twins', shell)
            && (o.Dec? ==> Same(w.reg, s, Obj(a), o.val, twins', Image(e.ids, o.at.objs)))
            && (o.Dec? && shell.Some? ==> o.val == Obj(shell.value))
    decreases Unentered(w, p), 1, w.heap.Keys - p.rawStack, 0, if s.Some? then 1 else 0,
              if s.Some? then s.value else Ref(""), if s.Some? then {} else w.heap.Keys - chain, 2
  {
    hide MaybeRef, ReadHead, WriteHead, InStep, SameOpen, Covered, JsHeap, Image, Same, FreshShell,
      EncElems, EncFields, DecElems, DecFields;
    twins' := twins;
    var h, tail := ContainerBytes(w, p, ids, s, a, chain);
    assert d.bs == WriteHead(h) + (tail + rest);
    ReadsToken(h, tail + rest, d.bs);
    if p.rawDepth <= NEST_LIMIT {
      if w.heap[a].Arr? {
        twins' := ArrReplays(w, p, ids, s, a, chain, q, d, shell, rest, twins);
      } else {
        twins' := RecReplays(w, p, ids, s, a, chain, q, d, shell, rest, twins);
      }
    }
  }

  /** What an encoded array consists of. */
  lemma {:induction false} EncArr(w: World, p: Trail, ids: map<Addr, nat>, s: Position, a: Addr, chain: set<Addr>,
                                  rest: seq<Byte>)
    requires w.Ok() && JsHeap(w.heap) && a in w.heap && w.heap[a].Arr? && !IsBoundary(s)
    requires EncVal(w, p, ids, s, Obj(a), chain).Enc?
    ensures (s.None? ==> a !in chain) && forall x | x in w.heap[a].elems :: InHeap(w.heap, x)
    ensures var e := EncVal(w, p, ids, s, Obj(a), chain);
            var inner := EncElems(w, p.(rawDepth := p.rawDepth + 1), ids, s, w.heap[a].elems, chain, a);
            && inner.Enc? && e.ids == inner.ids
            && e.bytes + rest == WriteHead(ArrHeader(w.heap, a)) + (inner.bytes + rest)
            && e.shallow == (p.rawDepth <= NEST_LIMIT && inner.shallow) && e.licensed == inner.licensed
  {
    hide EncElems, WriteHead;
    assert forall x | x in w.heap[a].elems :: x in w.heap[a].Vals() && InHeap(w.heap, x);
    var inner := EncElems(w, p.(rawDepth := p.rawDepth + 1), ids, s, w.heap[a].elems, chain, a);
    var head := WriteHead(ArrHeader(w.heap, a));
    assert head + [] + inner.bytes + rest == head + (inner.bytes + rest);
  }

  lemma {:induction false} ArrReplays(w: World, p: Trail, ids: map<Addr, nat>, s: Position, a: Addr, chain: set<Addr>,
                                      q: Route, d: Progress, shell: Option<Addr>, rest: seq<Byte>, twins: set<Twin>)
    returns (twins': set<Twin>)
    requires w.Ok() && JsHeap(w.heap) && PlainAliases(w.reg) && a in w.heap && !IsBoundary(s)
    requires p.rawDepth <= NEST_LIMIT
    requires w.heap[a].Arr?
    requires EncVal(w, p, ids, s, Obj(a), chain).Enc? && d.bs == EncVal(w, p, ids, s, Obj(a), chain).bytes + rest
    requires Aligned(w, p, ids, q, d.objs, |d.heap|) && Covered(w, p, ids, d.objs, d.heap, twins)
    requires FreshShell(w, Obj(a), d, shell, twins)
    ensures var e := EncVal(w, p, ids, s, Obj(a), chain);
            var o := DecVal(w.reg, w.rank, q, d, s, shell);
            && Replayed(w, p, q, d, e, o, rest, twins, twins', shell)
            && (o.Dec? ==> Same(w.reg, s, Obj(a), o.val, twins', Image(e.ids, o.at.objs)))
            && (o.Dec? && shell.Some? ==> o.val == Obj(shell.value))
    decreases Unentered(w, p), 1, w.heap.Keys - p.rawStack, 0, if s.Some? then 1 else 0,
              if s.Some? then s.value else Ref(""), if s.Some? then {} else w.heap.Keys - chain, 1
  {
    hide MaybeRef, ReadHead, WriteHead, InStep, SameOpen, Covered, JsHeap, Image, Same, FreshShell, EncElems, DecElems,
         DecVal,
      SameCell, SameElems, Advances, NewCells, Avoids, Bounded, EncVal;
    EncArr(w, p, ids, s, a, chain, rest);
    var elems := w.heap[a].elems;
    var p' := p.(rawDepth := p.rawDepth + 1);
    var inner := EncElems(w, p', ids, s, elems, chain, a);
    DecOpens(w, q, d, s, a, shell, ArrHeader(w.heap, a), inner.bytes + rest, twins);
    ShellFits(w, a, d, shell, twins);
    OpenedAligned(w, p, p', ids, q, d, Obj(a), shell, inner.bytes + rest, twins);
    var (d', dst) := Opened(d, shell, true, inner.bytes + rest);
    var ys;
    twins', ys := ElemsReplay(w, p', ids, s, elems, chain, a, q.(rawDepth := q.rawDepth + 1), d', dst, [], rest, twins);
    var o := DecElems(w.reg, w.rank, q.(rawDepth := q.rawDepth + 1), d', s, |elems|, dst);
    if o.Dec? {
      var t := Twin(s, a, dst);
      assert [] + ys == ys;
      OnlyGrows(d', o, Some(dst));
      SameArr(w.reg, t, w.heap[a], o.at.heap[dst], twins', Image(inner.ids, o.at.objs));
      NewCellsAdd(twins, twins', |d.heap|, |d'.heap|, shell, t);
      ClosedAligned(w, p, p', inner.ids, q, o.at.objs, o.at.heap, twins', t);
      twins' := twins' + {t};
    }
  }

  /** After the header, the decoder fills the opened cell. */
  lemma {:induction false} DecOpens(w: World, q: Route, d: Progress, s: Position, a: Addr, shell: Option<Addr>, h: Head,
                                    tail: seq<Byte>, twins: set<Twin>)
    requires w.Ok() && a in w.heap && !IsBoundary(s) && q.rawDepth <= NEST_LIMIT
    requires FreshShell(w, Obj(a), d, shell, twins)
    requires !h.HeadPrim? && h.HeadArr? == w.heap[a].Arr? && d.bs == WriteHead(h) + tail
    ensures var (d', dst) := Opened(d, shell, h.HeadArr?, tail);
            && dst < |d'.heap|
            && DecVal(w.reg, w.rank, q, d, s, shell)
               == DecFill(w.reg, w.rank, q.(rawDepth := q.rawDepth + 1), d', s, h.n, dst)
  {
    hide MaybeRef, ReadHead, WriteHead, DecFill, Avoids;
    ReadsToken(h, tail, d.bs);
  }

  lemma SameArr(reg: Registry, t: Twin, cell: Cell, cell': Cell, twins: set<Twin>, image: map<Addr, Addr>)
    requires cell.Arr? && cell'.Arr? && SameElems(reg, t.pos, cell.elems, cell'.elems, twins, image)
    ensures SameCell(reg, t, cell, cell', twins, image)
  {
  }

  lemma SameRec(reg: Registry, t: Twin, cell: Cell, cell': Cell, twins: set<Twin>, image: map<Addr, Addr>)
    requires cell.Rec? && cell'.Rec? && SameFields(reg, t.pos, Kept(cell.fields), cell'.fields, twins, image)
    ensures SameCell(reg, t, cell, cell', twins, image)
  {
  }

  lemma NoKeys(fields: seq<Field>)
    ensures NewKeys([], fields)
  {
  }

  ghost function ArrHeader(heap: Heap, a: Addr): Head
    requires JsHeap(heap) && a in heap && heap[a].Arr?
  {
    HeadArr(|heap[a].elems|)
  }

  lemma ShellFits(w: World, a: Addr, d: Progress, shell: Option<Addr>, twins: set<Twin>)
    requires a in w.heap && FreshShell(w, Obj(a), d, shell, twins)
    ensures shell.Some? ==> shell.value < |d.heap| && d.heap[shell.value] == Empty(w.heap[a].Arr?)
  {
  }

  lemma SameElemsNil(reg: Registry, s: Position, twins: set<Twin>, image: map<Addr, Addr>)
    ensures SameElems(reg, s, [], [], twins, image)
  {
  }

  lemma SameElemsCons(reg: Registry, s: Position, x: Val, xs: seq<Val>, y: Val, ys: seq<Val>, twins: set<Twin>,
                      image: map<Addr, Addr>)
    requires Same(reg, Items(s), x, y, twins, image) && SameElems(reg, s, xs, ys, twins, image)
    ensures SameElems(reg, s, [x] + xs, [y] + ys, twins, image)
  {
    hide Same;
  }

  lemma {:induction false} NoElems(w: World, p: Trail, ids: map<Addr, nat>, s: Position, chain: set<Addr>, a: Addr,
                                   q: Route, d: Progress, dst: Addr, done: seq<Val>)
    requires w.Ok() && JsHeap(w.heap) && !IsBoundary(s) && a in w.heap && (s.None? ==> a !in chain)
    requires q.rawDepth <= NEST_LIMIT + 1 && dst < |d.heap| && d.heap[dst] == Arr(done)
    ensures EncElems(w, p, ids, s, [], chain, a) == Enc([], ids, true, true)
    ensures DecElems(w.reg, w.rank, q, d, s, 0, dst) == Dec(Obj(dst), d) && done + [] == done
  {
    hide JsHeap;
  }

  lemma EncNextElem(w: World, p: Trail, ids: map<Addr, nat>, s: Position, elems: seq<Val>, chain: set<Addr>, a: Addr,
                    rest: seq<Byte>)
    requires w.Ok() && JsHeap(w.heap) && !IsBoundary(s)
    requires (forall v | v in elems :: InHeap(w.heap, v)) && a in w.heap && (s.None? ==> a !in chain)
    requires elems != [] && EncElems(w, p, ids, s, elems, chain, a).Enc?
    ensures var e := EncElems(w, p, ids, s, elems, chain, a);
            var first := EncVal(w, p, ids, Items(s), elems[0], if s.None? then chain + {a} else {});
            && first.Enc?
            && var others := EncElems(w, p, first.ids, s, elems[1..], chain, a);
               && others.Enc? && e.ids == others.ids && Grew(first.ids, others.ids)
               && e.bytes + rest == first.bytes + (others.bytes + rest)
               && e.shallow == (first.shallow && others.shallow) && e.licensed == (first.licensed && others.licensed)
  {
    hide JsHeap, EncVal, Grew;
    assert s.None? ==> a in w.heap.Keys - chain;
    var first := EncVal(w, p, ids, Items(s), elems[0], if s.None? then chain + {a} else {});
    var others := EncElems(w, p, first.ids, s, elems[1..], chain, a);
    assert first.bytes + [] + others.bytes + rest == first.bytes + (others.bytes + rest);
  }

  lemma DecNextElem(reg: Registry, rank: map<Id, nat>, q: Route, d: Progress, s: Position, n: nat, dst: Addr,
                    done: seq<Val>)
    requires Guarded(reg, rank) && q.rawDepth <= NEST_LIMIT + 1 && dst < |d.heap| && d.heap[dst] == Arr(done) && n > 0
    ensures var o1 := DecVal(reg, rank, q, d, Items(s), None);
            var o := DecElems(reg, rank, q, d, s, n, dst);
            if o1.Failed? then o == o1
            else
              && o1.at.heap[dst] == Arr(done)
              && o == DecElems(reg, rank, q, o1.at.(heap := o1.at.heap[dst := Arr(done + [o1.val])]), s, n - 1, dst)
  {
    hide DecVal, Guarded, Bounded;
  }

  /** The replica of the first element, and the replicas of the others, once the walk is done. */
  lemma SameElemsJoin(reg: Registry, s: Position, elems: seq<Val>, y: Val, ys: seq<Val>, ids: map<Addr, nat>,
                      objs: seq<Entry>, twins: set<Twin>, ids': map<Addr, nat>, objs': seq<Entry>, twins': set<Twin>)
    requires elems != [] && Same(reg, Items(s), elems[0], y, twins, Image(ids, objs))
    requires SameElems(reg, s, elems[1..], ys, twins', Image(ids', objs'))
    requires Grew(ids, ids') && objs <= objs' && twins <= twins'
    ensures SameElems(reg, s, elems, [y] + ys, twins', Image(ids', objs'))
  {
    hide Same, SameElems;
    ImageGrows(ids, objs, ids', objs');
    hide Image, Grew;
    SameGrows(reg, Items(s), elems[0], y, twins, Image(ids, objs), twins', Image(ids', objs'));
    SameElemsCons(reg, s, elems[0], elems[1..], y, ys, twins', Image(ids', objs'));
    assert [elems[0]] + elems[1..] == elems;
  }

  lemma {:induction false} ElemsReplay(w: World, p: Trail, ids: map<Addr, nat>, s: Position, elems: seq<Val>,
                                       chain: set<Addr>, a: Addr, q: Route, d: Progress, dst: Addr, done: seq<Val>,
                                       rest: seq<Byte>, twins: set<Twin>)
    returns (twins': set<Twin>, ys: seq<Val>)
    requires w.Ok() && JsHeap(w.heap) && PlainAliases(w.reg) && !IsBoundary(s) && p.rawDepth <= NEST_LIMIT + 1
    requires (forall v | v in elems :: InHeap(w.heap, v)) && a in w.heap && (s.None? ==> a !in chain)
    requires EncElems(w, p, ids, s, elems, chain, a).Enc?
    requires d.bs == EncElems(w, p, ids, s, elems, chain, a).bytes + rest
    requires Aligned(w, p, ids, q, d.objs, |d.heap|) && Covered(w, p, ids, d.objs, d.heap, twins)
    requires dst < |d.heap| && d.heap[dst] == Arr(done) && Avoids(twins, dst)
    ensures var e := EncElems(w, p, ids, s, elems, chain, a);
            var o := DecElems(w.reg, w.rank, q, d, s, |elems|, dst);
            && Replayed(w, p, q, d, e, o, rest, twins, twins', None)
            && (o.Dec? ==>
                  && o.val == Obj(dst) && o.at.heap[dst] == Arr(done + ys)
                  && SameElems(w.reg, s, elems, ys, twins', Image(e.ids, o.at.objs)))
    decreases Unentered(w, p), 1, w.heap.Keys - p.rawStack, 0, if s.Some? then 1 else 0,
              if s.Some? then s.value else Ref(""), if s.Some? then {} else w.heap.Keys - chain, 0, |elems|
  {
    hide JsHeap, InStep, SameOpen, Covered, Same, SameElems, Image, EncVal, DecVal, EncElems, DecElems, Advances,
         NewCells,
      Avoids, Bounded, Grew;
    twins', ys := twins, [];
    if elems == [] {
      NoElems(w, p, ids, s, chain, a, q, d, dst, done);
      SameElemsNil(w.reg, s, twins, Image(ids, d.objs));
      NoNewCells(twins, |d.heap|);
    } else {
      EncNextElem(w, p, ids, s, elems, chain, a, rest);
      DecNextElem(w.reg, w.rank, q, d, s, |elems|, dst, done);
      var chain' := if s.None? then chain + {a} else {};
      var first := EncVal(w, p, ids, Items(s), elems[0], chain');
      var others := EncElems(w, p, first.ids, s, elems[1..], chain, a);
      assert s.None? ==> a in w.heap.Keys - chain;
      var twins1 := ValReplays(w, p, ids, Items(s), elems[0], chain', q, d, None, others.bytes + rest, twins);
      var o1 := DecVal(w.reg, w.rank, q, d, Items(s), None);
      if o1.Dec? {
        var cell := Arr(done + [o1.val]);
        Untouched(d, o1, None, dst);
        NewCellsAvoid(twins, twins1, |d.heap|, dst);
        FillKeeps(w, p, first.ids, o1.at.objs, o1.at.heap, twins1, dst, cell);
        var d1 := o1.at.(heap := o1.at.heap[dst := cell]);
        var ys1;
        twins', ys1 := ElemsReplay(w, p, first.ids, s, elems[1..], chain, a, q, d1, dst, done + [o1.val], rest, twins1);
        ys := [o1.val] + ys1;
        var o := DecElems(w.reg, w.rank, q, d1, s, |elems| - 1, dst);
        if o.Dec? {
          assert done + [o1.val] + ys1 == done + ys;
          NewCellsChain(twins, twins1, twins', |d.heap|, |d1.heap|);
          OnlyGrows(d1, o, Some(dst));
          SameElemsJoin(w.reg, s, elems, o1.val, ys1, first.ids, o1.at.objs, twins1, others.ids, o.at.objs, twins');
        }
      }
    }
  }

  /** What an encoded object consists of. */
  lemma {:induction false} EncRec(w: World, p: Trail, ids: map<Addr, nat>, s: Position, a: Addr, chain: set<Addr>,
                                  rest: seq<Byte>)
    requires w.Ok() && JsHeap(w.heap) && a in w.heap && w.heap[a].Rec? && !IsBoundary(s)
    requires EncVal(w, p, ids, s, Obj(a), chain).Enc?
    ensures a in w.heap.Keys - p.rawStack && forall f | f in Kept(w.heap[a].fields) :: InHeap(w.heap, f.val)
    ensures var e := EncVal(w, p, ids, s, Obj(a), chain);
            var p' := p.(rawDepth := p.rawDepth + 1, rawStack := p.rawStack + {a});
            var inner := EncFields(w, p', ids, s, Kept(w.heap[a].fields));
            && inner.Enc? && e.ids == inner.ids
            && e.bytes + rest == WriteHead(MapHeader(w.heap, a)) + (inner.bytes + rest)
            && e.shallow == (p.rawDepth <= NEST_LIMIT && inner.shallow) && e.licensed == inner.licensed
  {
    hide EncFields, WriteHead;
    assert forall x | x in w.heap[a].Vals() :: InHeap(w.heap, x);
    assert a in w.heap.Keys - p.rawStack;
    var p' := p.(rawDepth := p.rawDepth + 1, rawStack := p.rawStack + {a});
    var inner := EncFields(w, p', ids, s, Kept(w.heap[a].fields));
    var head := WriteHead(MapHeader(w.heap, a));
    assert head + [] + inner.bytes + rest == head + (inner.bytes + rest);
  }

  lemma {:induction false} RecReplays(w: World, p: Trail, ids: map<Addr, nat>, s: Position, a: Addr, chain: set<Addr>,
                                      q: Route, d: Progress, shell: Option<Addr>, rest: seq<Byte>, twins: set<Twin>)
    returns (twins': set<Twin>)
    requires w.Ok() && JsHeap(w.heap) && PlainAliases(w.reg) && a in w.heap && !IsBoundary(s)
    requires p.rawDepth <= NEST_LIMIT
    requires w.heap[a].Rec?
    requires EncVal(w, p, ids, s, Obj(a), chain).Enc? && d.bs == EncVal(w, p, ids, s, Obj(a), chain).bytes + rest
    requires Aligned(w, p, ids, q, d.objs, |d.heap|) && Covered(w, p, ids, d.objs, d.heap, twins)
    requires FreshShell(w, Obj(a), d, shell, twins)
    ensures var e := EncVal(w, p, ids, s, Obj(a), chain);
            var o := DecVal(w.reg, w.rank, q, d, s, shell);
            && Replayed(w, p, q, d, e, o, rest, twins, twins', shell)
            && (o.Dec? ==> Same(w.reg, s, Obj(a), o.val, twins', Image(e.ids, o.at.objs)))
            && (o.Dec? && shell.Some? ==> o.val == Obj(shell.value))
    decreases Unentered(w, p), 1, w.heap.Keys - p.rawStack, 0, if s.Some? then 1 else 0,
              if s.Some? then s.value else Ref(""), if s.Some? then {} else w.heap.Keys - chain, 1
  {
    hide MaybeRef, ReadHead, WriteHead, InStep, SameOpen, Covered, JsHeap, Image, Same, FreshShell, EncFields,
         DecFields, DecVal,
      EncVal, SameCell, SameFields, Advances, NewCells, Avoids, Bounded, Distinct, NewKeys, Kept;
    EncRec(w, p, ids, s, a, chain, rest);
    var kept := Kept(w.heap[a].fields);
    var p' := p.(rawDepth := p.rawDepth + 1, rawStack := p.rawStack + {a});
    var inner := EncFields(w, p', ids, s, kept);
    DecOpens(w, q, d, s, a, shell, MapHeader(w.heap, a), inner.bytes + rest, twins);
    KeptDistinct(w.heap, a);
    NoKeys(kept);
    ShellFits(w, a, d, shell, twins);
    OpenedAligned(w, p, p', ids, q, d, Obj(a), shell, inner.bytes + rest, twins);
    var (d', dst) := Opened(d, shell, false, inner.bytes + rest);
    var gs;
    twins', gs := FieldsReplay(w, p', ids, s, kept, q.(rawDepth := q.rawDepth + 1), d', dst, [], rest, twins);
    var o := DecFields(w.reg, w.rank, q.(rawDepth := q.rawDepth + 1), d', s, |kept|, dst);
    if o.Dec? {
      var t := Twin(s, a, dst);
      assert [] + gs == gs;
      OnlyGrows(d', o, Some(dst));
      SameRec(w.reg, t, w.heap[a], o.at.heap[dst], twins', Image(inner.ids, o.at.objs));
      NewCellsAdd(twins, twins', |d.heap|, |d'.heap|, shell, t);
      ClosedAligned(w, p, p', inner.ids, q, o.at.objs, o.at.heap, twins', t);
      twins' := twins' + {t};
    }
  }

  ghost function MapHeader(heap: Heap, a: Addr): Head
    requires JsHeap(heap) && a in heap && heap[a].Rec?
  {
    HeadMap(|Kept(heap[a].fields)|)
  }

  lemma KeptDistinct(heap: Heap, a: Addr)
    requires JsHeap(heap) && a in heap && heap[a].Rec?
    ensures Distinct(Kept(heap[a].fields))
  {
    DropKeepsDistinct(heap[a].fields);
  }

  lemma {:induction false} DropKeepsDistinct(fields: seq<Field>)
    requires Distinct(fields)
    ensures Distinct(Kept(fields))
  {
    if fields != [] {
      DropKeepsDistinct(fields[1..]);
      forall f | f in Kept(fields[1..]) ensures f.key != fields[0].key {
        var i :| 0 <= i < |fields[1..]| && fields[1..][i] == f;
        assert fields[i + 1] == f;
      }
    }
  }

  /** None of the keys of `fields` has been put yet. */
  ghost predicate NewKeys(done: seq<Field>, fields: seq<Field>) {
    forall f, g | f in fields && g in done :: f.key != g.key
  }

  lemma {:induction false} PutAppends(done: seq<Field>, k: Key, v: Val)
    requires forall g | g in done :: g.key != k
    ensures Put(done, k, v) == done + [Field(k, v)]
  {
    if done != [] {
      assert done[0] in done && forall g | g in done[1..] :: g in done;
      PutAppends(done[1..], k, v);
      assert done == [done[0]] + done[1..];
    }
  }

  lemma SameFieldsNil(reg: Registry, s: Position, twins: set<Twin>, image: map<Addr, Addr>)
    ensures SameFields(reg, s, [], [], twins, image)
  {
  }

  lemma SameFieldsCons(reg: Registry, s: Position, f: Field, fs: seq<Field>, y: Val, gs: seq<Field>, twins: set<Twin>,
                       image: map<Addr, Addr>)
    requires Same(reg, At(s, f.key), f.val, y, twins, image) && SameFields(reg, s, fs, gs, twins, image)
    ensures SameFields(reg, s, [f] + fs, [Field(f.key, y)] + gs, twins, image)
  {
    hide Same;
  }

  lemma {:induction false} NextKeys(done: seq<Field>, fields: seq<Field>, y: Val)
    requires fields != [] && Distinct(fields) && NewKeys(done, fields)
    ensures Put(done, fields[0].key, y) == done + [Field(fields[0].key, y)]
    ensures Distinct(fields[1..]) && NewKeys(done + [Field(fields[0].key, y)], fields[1..])
  {
    assert fields[0] in fields;
    PutAppends(done, fields[0].key, y);
    forall f | f in fields[1..] ensures f in fields && f.key != fields[0].key {
      var i :| 0 <= i < |fields[1..]| && fields[1..][i] == f;
      assert fields[i + 1] == f;
    }
  }

  lemma {:induction false} EncNextField(w: World, p: Trail, ids: map<Addr, nat>, s: Position, fields: seq<Field>,
                                        rest: seq<Byte>)
    requires w.Ok() && JsHeap(w.heap) && forall f | f in fields :: InHeap(w.heap, f.val)
    requires fields != [] && EncFields(w, p, ids, s, fields).Enc?
    ensures var e := EncFields(w, p, ids, s, fields);
            var first := EncVal(w, p, ids, At(s, fields[0].key), fields[0].val, {});
            && first.Enc?
            && var others := EncFields(w, p, first.ids, s, fields[1..]);
               && others.Enc? && e.ids == others.ids && Grew(first.ids, others.ids)
               && e.bytes + rest == WriteStr(fields[0].key) + (first.bytes + (others.bytes + rest))
               && e.shallow == (first.shallow && others.shallow) && e.licensed == (first.licensed && others.licensed)
  {
    hide JsHeap, EncVal, WriteStr, Grew;
    var first := EncVal(w, p, ids, At(s, fields[0].key), fields[0].val, {});
    var others := EncFields(w, p, first.ids, s, fields[1..]);
    var k := WriteStr(fields[0].key);
    assert k + first.bytes + [] + others.bytes + rest == k + (first.bytes + (others.bytes + rest));
  }

  lemma DecNextField(reg: Registry, rank: map<Id, nat>, q: Route, d: Progress, s: Position, n: nat, dst: Addr, key: Key,
                     tail: seq<Byte>, done: seq<Field>)
    requires Guarded(reg, rank) && q.rawDepth <= NEST_LIMIT + 1 && dst < |d.heap| && d.heap[dst] == Rec(done)
    requires n > 0 && ReadKey(d.bs) == Got(key, tail)
    ensures var o1 := DecVal(reg, rank, q, d.(bs := tail), At(s, key), None);
            var o := DecFields(reg, rank, q, d, s, n, dst);
            if o1.Failed? then o == o1
            else
              && o1.at.heap[dst] == Rec(done)
              && var heap := o1.at.heap[dst := Rec(Put(done, key, o1.val))];
                 o == DecFields(reg, rank, q, o1.at.(heap := heap), s, n - 1, dst)
  {
    hide DecVal, Put, ReadKey, Guarded, Bounded;
  }

  lemma {:induction false} NoFields(w: World, p: Trail, ids: map<Addr, nat>, s: Position, q: Route, d: Progress,
                                    dst: Addr, done: seq<Field>)
    requires w.Ok() && JsHeap(w.heap) && q.rawDepth <= NEST_LIMIT + 1 && dst < |d.heap| && d.heap[dst] == Rec(done)
    ensures EncFields(w, p, ids, s, []) == Enc([], ids, true, true)
    ensures DecFields(w.reg, w.rank, q, d, s, 0, dst) == Dec(Obj(dst), d) && done + [] == done
  {
    hide JsHeap;
  }

  /** The replica of the first field, and the replicas of the others, once the walk is done. */
  lemma SameFieldsJoin(reg: Registry, s: Position, fields: seq<Field>, y: Val, gs: seq<Field>, ids: map<Addr, nat>,
                       objs: seq<Entry>, twins: set<Twin>, ids': map<Addr, nat>, objs': seq<Entry>, twins': set<Twin>)
    requires fields != [] && Same(reg, At(s, fields[0].key), fields[0].val, y, twins, Image(ids, objs))
    requires SameFields(reg, s, fields[1..], gs, twins', Image(ids', objs'))
    requires Grew(ids, ids') && objs <= objs' && twins <= twins'
    ensures SameFields(reg, s, fields, [Field(fields[0].key, y)] + gs, twins', Image(ids', objs'))
  {
    hide Same, SameFields;
    ImageGrows(ids, objs, ids', objs');
    hide Image, Grew;
    SameGrows(reg, At(s, fields[0].key), fields[0].val, y, twins, Image(ids, objs), twins', Image(ids', objs'));
    SameFieldsCons(reg, s, fields[0], fields[1..], y, gs, twins', Image(ids', objs'));
    assert [fields[0]] + fields[1..] == fields;
  }

  lemma {:induction false} FieldsReplay(w: World, p: Trail, ids: map<Addr, nat>, s: Position, fields: seq<Field>,
                                        q: Route, d: Progress, dst: Addr, done: seq<Field>, rest: seq<Byte>,
                                        twins: set<Twin>)
    returns (twins': set<Twin>, gs: seq<Field>)
    requires w.Ok() && JsHeap(w.heap) && PlainAliases(w.reg) && p.rawDepth <= NEST_LIMIT + 1
    requires (forall f | f in fields :: InHeap(w.heap, f.val)) && Distinct(fields) && NewKeys(done, fields)
    requires EncFields(w, p, ids, s, fields).Enc?
    requires d.bs == EncFields(w, p, ids, s, fields).bytes + rest
    requires Aligned(w, p, ids, q, d.objs, |d.heap|) && Covered(w, p, ids, d.objs, d.heap, twins)
    requires dst < |d.heap| && d.heap[dst] == Rec(done) && Avoids(twins, dst)
    ensures var e := EncFields(w, p, ids, s, fields);
            var o := DecFields(w.reg, w.rank, q, d, s, |fields|, dst);
            && Replayed(w, p, q, d, e, o, rest, twins, twins', None)
            && (o.Dec? ==>
                  && o.val == Obj(dst) && o.at.heap[dst] == Rec(done + gs)
                  && SameFields(w.reg, s, fields, gs, twins', Image(e.ids, o.at.objs)))
    decreases Unentered(w, p), 1, w.heap.Keys - p.rawStack, 0, 2, |fields|
  {
    hide JsHeap, InStep, SameOpen, Covered, Same, SameFields, Image, EncVal, DecVal, EncFields, DecFields, ReadKey,
         WriteStr,
      Distinct, NewKeys, Put, Advances, NewCells, Avoids, Bounded, Grew;
    twins', gs := twins, [];
    if fields == [] {
      NoFields(w, p, ids, s, q, d, dst, done);
      SameFieldsNil(w.reg, s, twins, Image(ids, d.objs));
      NoNewCells(twins, |d.heap|);
    } else {
      var f := fields[0];
      EncNextField(w, p, ids, s, fields, rest);
      var first := EncVal(w, p, ids, At(s, f.key), f.val, {});
      var others := EncFields(w, p, first.ids, s, fields[1..]);
      var tail := first.bytes + (others.bytes + rest);
      StrBack(f.key, tail);
      var d0 := d.(bs := tail);
      DecNextField(w.reg, w.rank, q, d, s, |fields|, dst, f.key, tail, done);
      var twins1 := ValReplays(w, p, ids, At(s, f.key), f.val, {}, q, d0, None, others.bytes + rest, twins);
      var o1 := DecVal(w.reg, w.rank, q, d0, At(s, f.key), None);
      if o1.Dec? {
        Untouched(d0, o1, None, dst);
        NewCellsAvoid(twins, twins1, |d.heap|, dst);
        NextKeys(done, fields, o1.val);
        var done' := done + [Field(f.key, o1.val)];
        FillKeeps(w, p, first.ids, o1.at.objs, o1.at.heap, twins1, dst, Rec(done'));
        var d1 := o1.at.(heap := o1.at.heap[dst := Rec(done')]);
        var gs1;
        twins', gs1 := FieldsReplay(w, p, first.ids, s, fields[1..], q, d1, dst, done', rest, twins1);
        gs := [Field(f.key, o1.val)] + gs1;
        var o := DecFields(w.reg, w.rank, q, d1, s, |fields| - 1, dst);
        if o.Dec? {
          assert done' + gs1 == done + gs;
          NewCellsChain(twins, twins1, twins', |d.heap|, |d1.heap|);
          OnlyGrows(d1, o, Some(dst));
          SameFieldsJoin(w.reg, s, fields, o1.val, gs1, first.ids, o1.at.objs, twins1, others.ids, o.at.objs, twins');
        }
      }
    }
  }
}
