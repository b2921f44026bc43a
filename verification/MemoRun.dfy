/** The memoizing wrappers as they run: a flag, a map, or nested maps. */
module MemoRun {
  import opened SchemaGraph
  import opened Memo

  // ---------- No arguments: one cached result ----------

  class MemoZero {
    var has: bool
    var cached: Option<Value>

    ghost var m: Machine

    ghost predicate Valid()
      reads this
    {
      && m.arity.Zero? && m.cache.Keys <= {[]}
      && (has <==> [] in m.cache) && cached == (if has then Some(m.cache[[]].value) else None)
      && forall t | 0 <= t < |m.tickets| :: m.tickets[t].key == []
    }

    constructor ()
      ensures Valid() && m == Init(Zero)
    {
      has, cached, m := false, None, Init(Zero);
    }

    method Enter(args: Args) returns (hit: Option<Value>)
      requires Valid()
      modifies this
      ensures Valid() && m == Step(old(m), Event.Enter(args))
      ensures hit == (if [] in old(m.cache) then Some(old(m.cache[[]].value)) else None)
    {
      hit := cached;
      m := Step(m, Event.Enter(args));
    }

    method Leave(v: Value, ghost t: nat) returns (r: Value)
      requires Valid() && Enabled(m, Event.Leave(t, v))
      modifies this
      ensures Valid() && m == Step(old(m), Event.Leave(t, v)) && r == v
    {
      cached := Some(v);
      has := true;
      m := Step(m, Event.Leave(t, v));
      r := v;
    }

    method Reject(ghost t: nat)
      requires Valid() && Enabled(m, Event.Reject(t))
      modifies this
      ensures Valid() && m == Step(old(m), Event.Reject(t))
    {
      has := false;
      cached := None;
      m := Step(m, Event.Reject(t));
    }

    /** `forget` and `clear` are one function here. */
    method Forget(args: Args) returns (had: bool)
      requires Valid()
      modifies this
      ensures Valid() && m == Step(old(m), Event.Forget(args)) && m.cache == map[]
      ensures had == (old(m.cache) != map[])
    {
      had := has;
      has := false;
      cached := None;
      m := Step(m, Event.Forget(args));
    }
  }

  // ---------- One argument: one map ----------

  lemma OneKey(a: Arg)
    ensures forall b: Arg :: [b] == [a] <==> b == a
  {
    forall b: Arg ensures [b] == [a] <==> b == a {
      assert [b][0] == b;
    }
  }

  class MemoOne {
    var cache: map<Arg, Value>

    ghost var m: Machine

    ghost predicate Valid()
      reads this
    {
      && m.arity.One?
      && (forall key | key in m.cache :: |key| == 1)
      && (forall a :: a in cache <==> [a] in m.cache)
      && (forall a | a in cache :: cache[a] == m.cache[[a]].value)
      && forall t | 0 <= t < |m.tickets| :: |m.tickets[t].key| == 1
    }

    constructor ()
      ensures Valid() && m == Init(One)
    {
      cache, m := map[], Init(One);
    }

    method Enter(a: Arg, ghost args: Args) returns (hit: Option<Value>)
      requires Valid() && KeyOf(One, args) == [a]
      modifies this
      ensures Valid() && m == Step(old(m), Event.Enter(args))
      ensures hit == if [a] in old(m.cache) then Some(old(m.cache[[a]].value)) else None
    {
      hit := if a in cache then Some(cache[a]) else None;
      m := Step(m, Event.Enter(args));
    }

    method Leave(a: Arg, v: Value, ghost t: nat)
      requires Valid() && Enabled(m, Event.Leave(t, v)) && m.tickets[t].key == [a]
      modifies this
      ensures Valid() && m == Step(old(m), Event.Leave(t, v))
    {
      OneKey(a);
      cache := cache[a := v];
      m := Step(m, Event.Leave(t, v));
    }

    method Reject(a: Arg, ghost t: nat)
      requires Valid() && Enabled(m, Event.Reject(t)) && m.tickets[t].key == [a]
      modifies this
      ensures Valid() && m == Step(old(m), Event.Reject(t))
    {
      OneKey(a);
      cache := cache - {a};
      m := Step(m, Event.Reject(t));
    }

    method Forget(a: Arg) returns (had: bool)
      requires Valid()
      modifies this
      ensures Valid() && m == Step(old(m), Event.Forget([a])) && had == ([a] in old(m.cache))
    {
      OneKey(a);
      had := a in cache;
      cache := cache - {a};
      m := Step(m, Event.Forget([a]));
    }

    method Clear()
      requires Valid()
      modifies this
      ensures Valid() && m == Step(old(m), Event.Clear) && cache == map[] && m.cache == map[]
    {
      cache := map[];
      m := Step(m, Event.Clear);
    }
  }

  // ---------- Any number of arguments: a trie of maps ----------

  /** A key of a nested map: an argument, or the sentinel under which a result is kept. */
  datatype MapKey = At(arg: Arg) | Terminal
  datatype Slot = Sub(node: Node) | Val(value: Value)

  class Node {
    var entries: map<MapKey, Slot>

    constructor ()
      ensures entries == map[]
    {
      entries := map[];
    }
  }

  /** Arguments lead to the nodes of longer paths, and the sentinel to the cached result. */
  ghost predicate Fits(nodes: map<Args, Node>, cache: map<Args, Entry>, p: Args, entries: map<MapKey, Slot>) {
    && (forall k :: At(k) in entries <==> p + [k] in nodes)
    && (forall k | p + [k] in nodes :: entries[At(k)] == Sub(nodes[p + [k]]))
    && (Terminal in entries <==> p in cache)
    && (p in cache ==> entries[Terminal] == Val(cache[p].value))
  }

  /** The nodes by path form a tree, and every cached key has a node. */
  ghost predicate Tree(nodes: map<Args, Node>, root: Node, cache: map<Args, Entry>, repr: set<Node>) {
    && [] in nodes && nodes[[]] == root
    && (forall p | p in nodes :: nodes[p] in repr)
    && (forall p, q | p in nodes && q in nodes && nodes[p] == nodes[q] :: p == q)
    && (forall p, k | p + [k] in nodes :: p in nodes)
    && (forall p | p in cache :: p in nodes)
  }

  /** A call holds the node of its key, unless a clear has cut that node off. */
  ghost predicate Held(m: Machine, nodes: map<Args, Node>, ticket: Ticket, place: Node) {
    && ticket.epoch <= m.epoch
    && if Live(m, ticket) then ticket.key in nodes && nodes[ticket.key] == place
       else forall p | p in nodes :: nodes[p] != place
  }

  ghost predicate AllHeld(m: Machine, nodes: map<Args, Node>, places: seq<Node>, repr: set<Node>) {
    && |m.tickets| == |places|
    && (forall t | 0 <= t < |places| :: places[t] in repr)
    && forall t | 0 <= t < |places| :: Held(m, nodes, m.tickets[t], places[t])
  }

  /** Tickets change progress and the cache changes; who holds what does not. */
  lemma StillHeld(m: Machine, m': Machine, nodes: map<Args, Node>, places: seq<Node>, repr: set<Node>)
    requires AllHeld(m, nodes, places, repr) && m'.arity == m.arity && m'.epoch == m.epoch
    requires |m'.tickets| == |m.tickets|
    requires forall t | 0 <= t < |m.tickets| ::
               m'.tickets[t].key == m.tickets[t].key && m'.tickets[t].epoch == m.tickets[t].epoch
    ensures AllHeld(m', nodes, places, repr)
  {
    forall t | 0 <= t < |places| ensures Held(m', nodes, m'.tickets[t], places[t]) {
      assert Held(m, nodes, m.tickets[t], places[t]);
    }
  }

  /** A new node on a path of its own. */
  lemma TreeGrows(nodes: map<Args, Node>, root: Node, cache: map<Args, Entry>, repr: set<Node>, p: Args, k: Arg,
                  next: Node)
    requires Tree(nodes, root, cache, repr) && p in nodes && p + [k] !in nodes && next !in repr
    ensures Tree(nodes[p + [k] := next], root, cache, repr + {next})
  {
    var nodes' := nodes[p + [k] := next];
    forall q, j | q + [j] in nodes' ensures q in nodes' {
      if q + [j] == p + [k] { assert q == (q + [j])[..|q|] == p; }
    }
  }

  lemma HeldGrows(m: Machine, nodes: map<Args, Node>, places: seq<Node>, repr: set<Node>, p: Args, next: Node)
    requires AllHeld(m, nodes, places, repr) && p !in nodes && next !in repr
    ensures AllHeld(m, nodes[p := next], places, repr + {next})
  {
    var nodes' := nodes[p := next];
    forall t | 0 <= t < |places| ensures Held(m, nodes', m.tickets[t], places[t]) {
      assert Held(m, nodes, m.tickets[t], places[t]);
    }
  }

  /** A node elsewhere does not see the new one. */
  lemma FitsBeside(nodes: map<Args, Node>, cache: map<Args, Entry>, p: Args, entries: map<MapKey, Slot>, q: Args,
                   k: Arg, next: Node)
    requires Fits(nodes, cache, p, entries) && p != q
    ensures Fits(nodes[q + [k] := next], cache, p, entries)
  {
    forall j ensures p + [j] != q + [k] {
      assert (p + [j])[..|p|] == p && (q + [k])[..|q|] == q;
    }
  }

  lemma FitsParent(nodes: map<Args, Node>, cache: map<Args, Entry>, p: Args, entries: map<MapKey, Slot>, k: Arg,
                   next: Node)
    requires Fits(nodes, cache, p, entries)
    ensures Fits(nodes[p + [k] := next], cache, p, entries[At(k) := Sub(next)])
  {
    forall j | j != k ensures p + [j] != p + [k] { assert (p + [j])[|p|] == j && (p + [k])[|p|] == k; }
  }

  lemma FitsFresh(nodes: map<Args, Node>, root: Node, cache: map<Args, Entry>, repr: set<Node>, p: Args, k: Arg,
                  next: Node)
    requires Tree(nodes, root, cache, repr) && p + [k] !in nodes
    ensures Fits(nodes[p + [k] := next], cache, p + [k], map[])
  {
    var q, nodes' := p + [k], nodes[p + [k] := next];
    forall j ensures q + [j] !in nodes' { assert |q + [j]| > |q|; }
  }

  lemma AtRoot(nodes: map<Args, Node>, root: Node, cache: map<Args, Entry>, repr: set<Node>)
    requires Tree(nodes, root, cache, repr)
    ensures [] in nodes && nodes[[]] == root
  {
  }

  class MemoMany {
    const root: Node

    ghost var m: Machine
    ghost var nodes: map<Args, Node>  // what can be reached from the root, by path
    ghost var places: seq<Node>       // the map that each call holds on to
    ghost var repr: set<Node>

    ghost predicate Valid()
      reads this, repr
    {
      && m.arity.Many? && Tree(nodes, root, m.cache, repr) && AllHeld(m, nodes, places, repr)
      && forall p | p in nodes :: Fits(nodes, m.cache, p, nodes[p].entries)
    }

    constructor ()
      ensures Valid() && m == Init(Many) && fresh(repr)
    {
      var r := new Node();
      root := r;
      m, nodes, places, repr := Init(Many), map[[] := r], [], {r};
    }

    /** The next map on the path, made if it is missing. */
    method Descend(cur: Node, k: Arg, ghost p: Args) returns (next: Node)
      requires Valid() && p in nodes && nodes[p] == cur
      modifies this`nodes, this`repr, repr
      ensures Valid() && p + [k] in nodes && nodes[p + [k]] == next
      ensures old(repr) <= repr && fresh(repr - old(repr))
    {
      assert Fits(nodes, m.cache, p, cur.entries);
      if At(k) in cur.entries && cur.entries[At(k)].Sub? {
        next := cur.entries[At(k)].node;
        return;
      }
      next := new Node();
      TreeGrows(nodes, root, m.cache, repr, p, k, next);
      HeldGrows(m, nodes, places, repr, p + [k], next);
      FitsParent(nodes, m.cache, p, cur.entries, k, next);
      FitsFresh(nodes, root, m.cache, repr, p, k, next);
      ghost var before := nodes;
      cur.entries := cur.entries[At(k) := Sub(next)];
      nodes := nodes[p + [k] := next];
      repr := repr + {next};
      hide Tree, AllHeld, Fits;
      forall q | q in nodes ensures Fits(nodes, m.cache, q, nodes[q].entries) {
        if q != p && q != p + [k] {
          FitsBeside(before, m.cache, q, nodes[q].entries, p, k, next);
        }
      }
    }

    /** The wrapper up to the call of the memoized function. */
    method Enter(args: Args) returns (hit: Option<Value>, place: Node)
      requires Valid()
      modifies this, repr
      ensures Valid() && m == Step(old(m), Event.Enter(args))
      ensures hit == if args in old(m.cache) then Some(old(m.cache[args].value)) else None
      ensures hit.None? ==> places == old(places) + [place]
      ensures fresh(repr - old(repr))
    {
      place := Walk(args);
      assert Fits(nodes, m.cache, args, place.entries);
      if Terminal in place.entries { return Some(place.entries[Terminal].value), place; }
      hit := None;
      Await(args, place);
    }

    /** Walks the path of the arguments, making what is missing. */
    method Walk(args: Args) returns (place: Node)
      requires Valid()
      modifies this`nodes, this`repr, repr
      ensures Valid() && args in nodes && nodes[args] == place
      ensures old(repr) <= repr && fresh(repr - old(repr))
    {
      hide Fits, AllHeld, Tree;
      place := root;
      AtRoot(nodes, root, m.cache, repr);
      for i := 0 to |args|
        invariant Valid() && args[..i] in nodes && nodes[args[..i]] == place
        invariant m == old(m) && places == old(places) && old(repr) <= repr && fresh(repr - old(repr))
      {
        place := Descend(place, args[i], args[..i]);
        assert args[..i] + [args[i]] == args[..i + 1];
      }
      assert args[..|args|] == args;
    }

    /** The node is kept for the result of a call that begins. */
    ghost method Await(args: Args, place: Node)
      requires Valid() && args !in m.cache && args in nodes && nodes[args] == place
      modifies this`m, this`places
      ensures Valid() && m == Step(old(m), Event.Enter(args)) && places == old(places) + [place]
    {
      m := Step(m, Event.Enter(args));
      places := places + [place];
      NewlyHeld(old(m), nodes, old(places), repr, args, place);
    }

    /** What follows the call of the memoized function. */
    method Leave(place: Node, v: Value, ghost t: nat)
      requires Valid() && Enabled(m, Event.Leave(t, v)) && places[t] == place
      modifies this`m, place
      ensures Valid() && m == Step(old(m), Event.Leave(t, v))
    {
      place.entries := place.entries[Terminal := Val(v)];
      m := Step(m, Event.Leave(t, v));
      StillHeld(old(m), m, nodes, places, repr);
      assert Held(old(m), nodes, old(m).tickets[t], place);
      forall p | p in nodes ensures Fits(nodes, m.cache, p, nodes[p].entries) {
        assert Fits(nodes, old(m).cache, p, old(nodes[p].entries));
      }
    }

    method Reject(place: Node, ghost t: nat)
      requires Valid() && Enabled(m, Event.Reject(t)) && places[t] == place
      modifies this`m, place
      ensures Valid() && m == Step(old(m), Event.Reject(t))
    {
      place.entries := place.entries - {Terminal};
      m := Step(m, Event.Reject(t));
      StillHeld(old(m), m, nodes, places, repr);
      assert Held(old(m), nodes, old(m).tickets[t], place);
      forall p | p in nodes ensures Fits(nodes, m.cache, p, nodes[p].entries) {
        assert Fits(nodes, old(m).cache, p, old(nodes[p].entries));
      }
    }

    /** Follows a path without making nodes. */
    method Find(args: Args) returns (place: Option<Node>)
      requires Valid()
      ensures place == if args in nodes then Some(nodes[args]) else None
    {
      hide AllHeld;
      var cur := root;
      for i := 0 to |args|
        invariant args[..i] in nodes && nodes[args[..i]] == cur
      {
        assert Fits(nodes, m.cache, args[..i], cur.entries) && args[..i] + [args[i]] == args[..i + 1];
        if At(args[i]) !in cur.entries || !cur.entries[At(args[i])].Sub? {
          Unreached(nodes, root, m.cache, repr, args, i + 1);
          return None;
        }
        cur := cur.entries[At(args[i])].node;
      }
      assert args[..|args|] == args;
      place := Some(cur);
    }

    method Forget(args: Args) returns (had: bool)
      requires Valid()
      modifies this`m, repr
      ensures Valid() && m == Step(old(m), Event.Forget(args)) && had == (args in old(m.cache))
    {
      var place := Find(args);
      if place.None? {
        assert m.cache - {args} == m.cache;
        m := Step(m, Event.Forget(args));
        return false;
      }
      var cur := place.value;
      assert Fits(nodes, m.cache, args, cur.entries);
      had := Terminal in cur.entries;
      cur.entries := cur.entries - {Terminal};
      m := Step(m, Event.Forget(args));
      StillHeld(old(m), m, nodes, places, repr);
      forall p | p in nodes ensures Fits(nodes, m.cache, p, nodes[p].entries) {
        assert Fits(nodes, old(m).cache, p, old(nodes[p].entries));
      }
    }

    method Clear()
      requires Valid()
      modifies this, root
      ensures Valid() && m == Step(old(m), Event.Clear)
      ensures places == old(places) && repr == old(repr)
    {
      CutOff(m, nodes, root, places, repr);
      root.entries := map[];
      nodes := map[[] := root];
      m := Step(m, Event.Clear);
    }
  }

  lemma NewlyHeld(m: Machine, nodes: map<Args, Node>, places: seq<Node>, repr: set<Node>, args: Args, place: Node)
    requires m.arity.Many? && AllHeld(m, nodes, places, repr) && args !in m.cache
    requires args in nodes && nodes[args] == place && place in repr
    ensures AllHeld(Step(m, Event.Enter(args)), nodes, places + [place], repr)
  {
    var m' := Step(m, Event.Enter(args));
    forall t | 0 <= t < |places| + 1 ensures Held(m', nodes, m'.tickets[t], (places + [place])[t]) {
      if t < |places| { assert Held(m, nodes, m.tickets[t], places[t]); }
    }
  }

  /** A path that breaks off leads nowhere. */
  lemma Unreached(nodes: map<Args, Node>, root: Node, cache: map<Args, Entry>, repr: set<Node>, args: Args, i: nat)
    requires Tree(nodes, root, cache, repr) && i <= |args| && args[..i] !in nodes
    ensures args !in nodes && args !in cache
    decreases |args| - i
  {
    if i < |args| {
      assert args[..i] + [args[i]] == args[..i + 1];
      Unreached(nodes, root, cache, repr, args, i + 1);
    } else {
      assert args[..i] == args;
    }
  }

  /** A clear leaves only the calls without arguments at a node of the tree. */
  lemma CutOff(m: Machine, nodes: map<Args, Node>, root: Node, places: seq<Node>, repr: set<Node>)
    requires m.arity.Many? && Tree(nodes, root, m.cache, repr) && AllHeld(m, nodes, places, repr)
    ensures AllHeld(Step(m, Event.Clear), map[[] := root], places, repr)
  {
    var m', nodes' := Step(m, Event.Clear), map[[] := root];
    forall t | 0 <= t < |places| ensures Held(m', nodes', m'.tickets[t], places[t]) {
      assert Held(m, nodes, m.tickets[t], places[t]);
    }
  }
}
