/** The main results on the smallest recursive schema, `T = { next?: T }`, and on an object that
    is its own `next`. */
module SelfLoop {
  import opened SchemaGraph
  import opened MsgPack
  import opened Validator
  import opened Rules
  import opened ValidatorSound
  import opened ValidatorComplete
  import opened ValidatorTheorems
  import opened Escape
  import opened EscapeReject
  import opened EscapeAccept
  import opened EscapeExact
  import opened EscapeExamples
  import opened Codec
  import opened CodecReplay
  import opened EncodingHalts
  import opened EncodingReach
  import opened CodecTheorems
  import opened EncodeSucceeds

  const LIST := Linked(NEXT, NAME, false)
  const LOOP := Rec([Field(NEXT, Obj(0))])

  function Sample(cyclic: Cyclic): World {
    World(map[NAME := Decl(LIST, cyclic, Unbounded, false, true)], map[0 := LOOP], map[NAME := 0])
  }

  lemma LoopReads()
    ensures LOOP.Get(NEXT) == Obj(0) && LOOP.Vals() == {Obj(0)}
  {
    assert LOOP.fields[0] in LOOP.fields;
  }

  lemma {:induction false} ListIsPlain(reg: Registry)
    requires NAME in reg
    ensures Slim(LIST) && Resolved(reg, LIST) && Tame(LIST)
  {
    assert forall p | p in LIST.properties.list :: p == Property(NEXT, Ref(NAME));
    SlimIsTame(LIST);
  }

  lemma LoopExpands(heap: Heap)
    requires heap == map[0 := LOOP]
    ensures Expand(heap, LIST, Obj(0)) == All([Task(Ref(NAME), Obj(0))])
  {
    LoopReads();
    OneTask(Property(NEXT, Ref(NAME)), LOOP);
  }

  lemma SampleIsOk(cyclic: Cyclic)
    requires !cyclic.UpTo?
    ensures var w := Sample(cyclic);
            w.Ok() && JsHeap(w.heap) && PlainAliases(w.reg) && Ample(w) && SlimWorld(w) && TrustedWorld(w)
    ensures Expand(Sample(cyclic).heap, LIST, Obj(0)) == All([Task(Ref(NAME), Obj(0))])
  {
    LoopReads();
    var w := Sample(cyclic);
    LoopExpands(w.heap);
    ListIsPlain(w.reg);
    hide Expand, Slim, Resolved, Tame, Cell.Get;
  }

  /** The object is accepted if the declaration is cyclic, and rejected if it is acyclic. */
  lemma LoopNeedsLicense()
    ensures Sample(AnyLength).Ok() && Validate(Sample(AnyLength), NAME, Obj(0)).verdict.Accept?
    ensures Sample(Acyclic).Ok() && !Validate(Sample(Acyclic), NAME, Obj(0)).verdict.Accept?
  {
    LoopAccepted();
    LoopRejected();
  }

  lemma LoopAccepted()
    ensures Sample(AnyLength).Ok() && Validate(Sample(AnyLength), NAME, Obj(0)).verdict.Accept?
  {
    hide InGreatest, Ample, TrustedWorld, PostFixed, Validate, Expand, JsHeap, PlainAliases, SlimWorld, World.Ok;
    var w := Sample(AnyLength);
    SampleIsOk(AnyLength);
    LoopIsCoinductive(w);
    assert NAME in w.reg && InHeap(w.heap, Obj(0)) && forall d | d in w.reg :: w.reg[d].cyclic.AnyLength?;
    hide Sample;
    CyclicExact(w, NAME, Obj(0));
  }

  lemma LoopRejected()
    ensures Sample(Acyclic).Ok() && !Validate(Sample(Acyclic), NAME, Obj(0)).verdict.Accept?
  {
    hide InLeast, Ample, TrustedWorld, PostFixed, Validate, Expand, JsHeap, PlainAliases, SlimWorld, World.Ok;
    var w := Sample(Acyclic);
    SampleIsOk(Acyclic);
    LoopIsNotInductive(w);
    assert NAME in w.reg && InHeap(w.heap, Obj(0)) && Inductive(w);
    hide Sample, Inductive;
    AcyclicExact(w, NAME, Obj(0));
  }

  lemma {:induction false} LoopHolds(w: World, r: set<Pair>)
    requires w.Ok() && NAME in w.reg && w.reg[NAME].body == LIST && 0 in w.heap
    requires Expand(w.heap, LIST, Obj(0)) == All([Task(Ref(NAME), Obj(0))])
    ensures Holds(w, LIST, Obj(0), r) <==> Pair(0, NAME) in r
  {
    var t := Task(Ref(NAME), Obj(0));
    assert t in [t];
    assert Holds(w, t.schema, t.val, r) <==> Pair(0, NAME) in r;
  }

  lemma LoopIsCoinductive(w: World)
    requires w.Ok() && NAME in w.reg && w.reg[NAME].body == LIST && 0 in w.heap
    requires Expand(w.heap, LIST, Obj(0)) == All([Task(Ref(NAME), Obj(0))])
    ensures InGreatest(w, NAME, Obj(0))
  {
    hide Holds;
    var r := {Pair(0, NAME)};
    LoopHolds(w, r);
    assert PostFixed(w, r);
  }

  lemma LoopIsNotInductive(w: World)
    requires w.Ok() && NAME in w.reg && w.reg[NAME].body == LIST && 0 in w.heap
    requires Expand(w.heap, LIST, Obj(0)) == All([Task(Ref(NAME), Obj(0))])
    ensures !InLeast(w, NAME, Obj(0))
  {
    hide Holds;
    forall level: map<Pair, nat> | Founded(w, level) ensures Pair(0, NAME) !in level {
      if Pair(0, NAME) in level { LoopHolds(w, Below(level, level[Pair(0, NAME)])); }
    }
  }

  /** The escape check passes, and so the declaration has a value. */
  lemma ListIsInhabited()
    ensures Sample(Acyclic).Ok() && Check(Sample(Acyclic).reg, NAME) == None && Inhabited(Sample(Acyclic), NAME)
  {
    var w := Sample(Acyclic);
    var order := map[Need(NAME, false) := 0];
    SampleIsOk(Acyclic);
    ListPasses(w.reg);
    SampleCovers(w.reg, order);
    SampleBuilds(w.reg, order);
    hide Buildable, CapsAllow, WellKinded, AllResolved, Reachable, Covers, Check, Inhabited, Ample, World.Ok, JsHeap;
    CheckExact(w, order, NAME);
  }

  lemma SampleCovers(reg: Registry, order: map<Need, nat>)
    requires reg == Sample(Acyclic).reg && order == map[Need(NAME, false) := 0]
    ensures Reachable(reg, NAME, NAME) && Covers(reg, order, NAME)
  {
    ListReachesItself(reg);
  }

  lemma SampleBuilds(reg: Registry, order: map<Need, nat>)
    requires reg == Sample(Acyclic).reg && order == map[Need(NAME, false) := 0]
    ensures Buildable(reg, order) && CapsAllow(reg, order) && WellKindedRegistry(reg) && AllResolved(reg)
  {
    ListIsOrdinary();
    ListIsPlain(reg);
    hide Satisfiable, Demands, WellKinded, Resolved, Slim, Tame;
    assert Lower(order, Need(NAME, false)) == {};
  }

  lemma ListPasses(reg: Registry)
    requires NAME in reg && reg[NAME].body == LIST
    ensures Check(reg, NAME) == None
  {
    var p := Descend(reg, START, NAME);
    LinkedEdges(NEXT, NAME, false);
    OneEdge(reg, p, LIST, Edge(Ref(NAME), true));
  }

  lemma ListIsOrdinary()
    ensures Satisfiable(LIST, {}, false) && Demands(LIST, false) == {} && WellKinded(LIST)
  {
  }

  lemma ListReachesItself(reg: Registry)
    requires NAME in reg
    ensures Reachable(reg, NAME, NAME)
  {
    assert IsRoute(reg, [NAME]);
  }

  /** Without identity tracking the object is refused; with it, it round-trips. */
  lemma LoopNeedsTracking()
    ensures Sample(Acyclic).Ok() && JsHeap(Sample(Acyclic).heap) && Encode(Sample(Acyclic), NAME, Obj(0)).Refused?
    ensures Sample(AnyLength).Ok() && JsHeap(Sample(AnyLength).heap) && RoundTrips(Sample(AnyLength), NAME, Obj(0), [])
  {
    hide RoundTrips;
    SampleIsOk(Acyclic);
    SampleIsOk(AnyLength);
    LoopReads();
    LoopRefused(Sample(Acyclic));
    LoopEncoded(Sample(AnyLength), Unbounded, []);
  }

  lemma NextAt()
    ensures At(Some(LIST), NEXT) == Some(Ref(NAME)) && Kept(LOOP.fields) == LOOP.fields
  {
  }

  lemma LoopRefused(w: World)
    requires w == Sample(Acyclic) && w.Ok() && JsHeap(w.heap)
    ensures Encode(w, NAME, Obj(0)).Refused?
  {
    hide JsHeap, Encode;
    NextAt();
    var start, site, edge := Start(NAME, 0), Site(Some(LIST), 0), Site(Some(Ref(NAME)), 0);
    var f := Field(NEXT, Obj(0));
    assert f in Kept(LOOP.fields) && LeadsTo(At(Some(LIST), NEXT), f.val, {site, edge});
    assert StepsOn(w, site, {site, edge}) && StepsOn(w, edge, {site, edge});
    AllSitesRoam(w);
    assert Leads(w, start, site) && !AtTracked(w, start) && [start, site][1..] == [site];
    ReachedLoopRefused(w, AllSites(w.heap), NAME, 0, [start, site], {site, edge});
  }

  lemma LoopEncoded(w: World, depth: Depth, rest: seq<Byte>)
    requires w.Ok() && w.reg == map[NAME := Decl(LIST, AnyLength, depth, false, true)] && w.heap == map[0 := LOOP]
    requires JsHeap(w.heap) && (depth.AtMost? ==> depth.cap > 0)
    ensures RoundTrips(w, NAME, Obj(0), rest)
  {
    hide RoundTrips, JsHeap;
    NextAt();
    var g := Plan(iset{Spot(Some(LIST), 0, true)}, map[0 := 0], {0}, true, 1, 0, 1);
    LandsHere(w.reg, NAME);
    assert forall f | f in LOOP.fields :: f == Field(NEXT, Obj(0));
    assert forall s | HasField(Some(LIST), NEXT, s) :: s == Some(Ref(NAME)) by {
      assert LIST.properties.list[0] == Property(NEXT, Ref(NAME));
    }
    assert Enters(w, g, 0, true, Some(Ref(NAME)), Obj(0));
    assert PartsEnter(w, g, Spot(Some(LIST), 0, true));
    assert Encodable(w, g);
    assert Chain(w, NAME) == 1;
    assert Fits(w, g, NAME, 0);
    GraphRoundTrip(w, g, NAME, 0, rest);
  }
}
