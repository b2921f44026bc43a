/** The rules that a verdict is measured against. */
module Rules {
  import opened SchemaGraph
  import opened Validator

  /** The structural rules of the schema language: `v` obeys `s`, given that the pairs in `r`
      obey their declarations.  No memo, no path, no order of evaluation. */
  ghost predicate Holds(w: World, s: Schema, v: Val, r: set<Pair>)
    requires w.Ok() && InHeap(w.heap, v)
    decreases if v.Obj? then 1 else 0, if v.Obj? then 0 else Bound(w.rank, s), s
  {
    ExpandShrinks(w.heap, s, v);
    match Expand(w.heap, s, v)
    case Leaf(ok) => ok
    case All(tasks) => forall t | t in tasks :: Holds(w, t.schema, t.val, r)
    case Any(arms) => exists a | a in arms :: Holds(w, a, v, r)
    case Enter(id, _) =>
      id in w.reg && if v.Prim? then Holds(w, w.reg[id].body, v, r) else Pair(v.addr, id) in r
  }

  /** `v` obeys declaration `id`, given `r`. */
  ghost predicate Obeys(w: World, id: Id, v: Val, r: set<Pair>)
    requires w.Ok() && InHeap(w.heap, v) && id in w.reg
  {
    if v.Prim? then Holds(w, w.reg[id].body, v, r) else Pair(v.addr, id) in r
  }

  lemma {:induction false} HoldsMonotone(w: World, s: Schema, v: Val, r: set<Pair>, r': set<Pair>)
    requires w.Ok() && InHeap(w.heap, v) && r <= r' && Holds(w, s, v, r)
    ensures Holds(w, s, v, r')
    decreases if v.Obj? then 1 else 0, if v.Obj? then 0 else Bound(w.rank, s), s
  {
    ExpandShrinks(w.heap, s, v);
    match Expand(w.heap, s, v)
    case Leaf(_) =>
    case All(tasks) =>
      forall t | t in tasks ensures Holds(w, t.schema, t.val, r') {
        HoldsMonotone(w, t.schema, t.val, r, r');
      }
    case Any(arms) =>
      var a :| a in arms && Holds(w, a, v, r);
      HoldsMonotone(w, a, v, r, r');
    case Enter(id, _) =>
      if v.Prim? { HoldsMonotone(w, w.reg[id].body, v, r, r'); }
  }

  ghost function CyclicOnly(w: World, ps: set<Pair>): set<Pair> {
    set p | p in ps && p.id in w.reg && !w.reg[p.id].cyclic.Acyclic?
  }

  /** A level for each pair such that every pair obeys the rules given the pairs of lower
      level and, at any level, the pairs of cyclic declarations. */
  ghost predicate Stratified(w: World, level: map<Pair, nat>)
    requires w.Ok()
  {
    forall p | p in level ::
      p in w.Pairs() &&
      Holds(w, w.reg[p.id].body, Obj(p.addr), Below(level, level[p]) + CyclicOnly(w, level.Keys))
  }

  ghost function Below(level: map<Pair, nat>, n: nat): set<Pair> { set p | p in level && level[p] < n }

  /** The position at which each pair first appears. */
  ghost function Positions(ps: seq<Pair>): (level: map<Pair, nat>)
    ensures level.Keys == Elems(ps)
    ensures forall p | p in level :: level[p] < |ps| && ps[level[p]] == p
    ensures forall p, i | p in level && 0 <= i < |ps| && ps[i] == p :: level[p] <= i
  {
    if ps == [] then map[]
    else
      var last := |ps| - 1;
      var level := Positions(ps[..last]);
      assert ps == ps[..last] + [ps[last]];
      if ps[last] in level then level else level[ps[last] := last]
  }

  /** What a frame at level `n` may rest on: pairs strictly below it, and pairs of cyclic
      declarations not above it. */
  ghost function Reach(w: World, level: map<Pair, nat>, n: nat): set<Pair> {
    Below(level, n) + CyclicOnly(w, Below(level, n + 1))
  }

  /** Levels that never rise along a reference, and fall along one into an acyclic declaration. */
  ghost predicate Descending(w: World, level: map<Pair, nat>)
    requires w.Ok()
  {
    forall p | p in level ::
      p in w.Pairs() && Holds(w, w.reg[p.id].body, Obj(p.addr), Reach(w, level, level[p]))
  }
}
