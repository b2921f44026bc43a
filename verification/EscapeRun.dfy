/** The escape check as it runs: one path, updated in place. */
module EscapeRun {
  import opened SchemaGraph
  import opened Escape

  class Checker {
    const reg: Registry
    var frames: map<Id, Entry>
    var order: seq<Id>
    var escapes: nat

    ghost function P(): Path
      reads this
    {
      Path(frames, order, escapes)
    }

    constructor (reg: Registry)
      ensures this.reg == reg && P() == START
    {
      this.reg := reg;
      frames, order, escapes := map[], [], 0;
    }

    method EnterDecl(id: Id) returns (err: Option<Id>)
      requires id in reg
      modifies this
      ensures err == CheckDecl(reg, old(P()), id)
      ensures err.None? ==> P() == old(P())
      decreases reg.Keys - frames.Keys, 1
    {
      if id in frames {
        var f := frames[id];
        if escapes > f.escapesAtEntry { return None; }
        var idx := IndexOf(order, id);
        for i := idx to |order|
          invariant P() == old(P())
          invariant forall d | d in order[idx..i] :: !EntryIsCyclic(P(), d)
        {
          assert order[idx..i + 1] == order[idx..i] + [order[i]];
          if order[i] in frames && frames[order[i]].cyclic {
            assert order[idx..][i - idx] == order[i];
            assert EntryIsCyclic(P(), order[i]);
            return None;
          }
        }
        assert order[idx..|order|] == order[idx..];
        return if !reg[id].cyclic.Acyclic? then None else Some(id);
      }
      assert id in reg.Keys - frames.Keys;
      frames := frames[id := Entry(escapes, !reg[id].cyclic.Acyclic?)];
      order := order + [id];
      err := Visit(reg[id].body);
      if err.None? {
        order := order[..|order| - 1];
        frames := frames - {id};
        assert P() == old(P());
      }
    }

    method VisitEdge(s: Schema, escapable: bool) returns (err: Option<Id>)
      modifies this
      ensures err == CheckSchema(reg, Cross(old(P()), Edge(s, escapable)), s)
      ensures err.None? ==> P() == old(P())
      decreases reg.Keys - frames.Keys, 2, s, 2
    {
      if escapable { escapes := escapes + 1; }
      err := Visit(s);
      if err.None? && escapable { escapes := escapes - 1; }
    }

    method Visit(s: Schema) returns (err: Option<Id>)
      modifies this
      ensures err == CheckSchema(reg, old(P()), s)
      ensures err.None? ==> P() == old(P())
      decreases reg.Keys - frames.Keys, 2, s, 1
    {
      match s
      case Ref(t) =>
        if t !in reg { return None; }
        err := EnterDecl(t);
      case Embed(t) =>
        if t !in reg { return None; }
        err := EnterDecl(t);
      case Node(_, _, _, _, _, _, _, _) => err := VisitNode(s);
    }

    method VisitNode(s: Schema) returns (err: Option<Id>)
      requires s.Node?
      modifies this
      ensures err == CheckEdges(reg, old(P()), s, Edges(s))
      ensures err.None? ==> P() == old(P())
      decreases reg.Keys - frames.Keys, 2, s, 0, 1
    {
      ghost var p, edges := P(), Edges(s);
      var items := s.items;
      if items.Some? {
        assert edges[0] == Edge(items.value, s.minItems < 1);
        err := VisitEdge(items.value, !(s.minItems >= 1));
        if err.Some? { return; }
      }
      ghost var n := |ItemEdges(items, s.minItems)|;
      if s.union.AnyOf? {
        assert edges[n..n + |s.union.arms|] == ArmEdges(s.union.arms, |s.union.arms| > 1);
        err := VisitArms(s, edges, n);
        if err.Some? { return; }
        n := n + |s.union.arms|;
      }
      if s.properties.Properties? {
        assert edges[n..] == PropertyEdges(s.properties.list, s.required);
        err := VisitProperties(s, edges, n);
        if err.Some? { return; }
        n := n + |s.properties.list|;
      }
      assert edges[n..] == [];
      err := None;
    }

    /** The part `edges[n..]` of the node's edges starts with its union arms. */
    method VisitArms(s: Schema, ghost edges: seq<Edge>, ghost n: nat) returns (err: Option<Id>)
      requires s.Node? && s.union.AnyOf? && forall e | e in edges :: e.schema < s
      requires n + |s.union.arms| <= |edges|
      requires edges[n..n + |s.union.arms|] == ArmEdges(s.union.arms, |s.union.arms| > 1)
      modifies this
      ensures err.Some? ==> err == CheckEdges(reg, old(P()), s, edges[n..])
      ensures err.None? ==> P() == old(P())
      ensures err.None? ==>
                CheckEdges(reg, P(), s, edges[n..]) == CheckEdges(reg, P(), s, edges[n + |s.union.arms|..])
      decreases reg.Keys - frames.Keys, 2, s, 0, 0
    {
      hide CheckSchema, CheckDecl;
      var arms := s.union.arms;
      for i := 0 to |arms|
        invariant P() == old(P())
        invariant CheckEdges(reg, P(), s, edges[n + i..]) == CheckEdges(reg, P(), s, edges[n..])
      {
        assert edges[n + i] == edges[n..n + |arms|][i];
        assert edges[n + i..][1..] == edges[n + i + 1..];
        err := VisitEdge(arms[i], |arms| > 1);
        if err.Some? { return; }
      }
      err := None;
    }

    /** The part `edges[n..]` of the node's edges is its properties. */
    method VisitProperties(s: Schema, ghost edges: seq<Edge>, ghost n: nat) returns (err: Option<Id>)
      requires s.Node? && s.properties.Properties? && forall e | e in edges :: e.schema < s
      requires n <= |edges| && edges[n..] == PropertyEdges(s.properties.list, s.required)
      modifies this
      ensures err.Some? ==> err == CheckEdges(reg, old(P()), s, edges[n..])
      ensures err.None? ==> P() == old(P()) && CheckEdges(reg, P(), s, edges[n..]).None?
      decreases reg.Keys - frames.Keys, 2, s, 0, 0
    {
      hide CheckSchema, CheckDecl;
      var list := s.properties.list;
      for i := 0 to |list|
        invariant P() == old(P())
        invariant CheckEdges(reg, P(), s, edges[n + i..]) == CheckEdges(reg, P(), s, edges[n..])
      {
        assert edges[n + i] == edges[n..][i];
        assert edges[n + i..][1..] == edges[n + i + 1..];
        err := VisitEdge(list[i].schema, list[i].key !in s.required);
        if err.Some? { return; }
      }
      assert edges[n + |list|..] == [];
      err := None;
    }
  }

  method RunCheck(reg: Registry, id: Id) returns (err: Option<Id>)
    requires id in reg
    ensures err == Check(reg, id)
  {
    var c := new Checker(reg);
    err := c.EnterDecl(id);
  }
}
