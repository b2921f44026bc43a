/** The escape-node check: does every recursion loop of the schema graph have a way out? */
module Escape {
  import opened SchemaGraph

  datatype Entry = Entry(escapesAtEntry: nat, cyclic: bool)

  /** `frames` and `order` are the declarations on the current path; `escapes` counts the
      escapable edges crossed so far. */
  datatype Path = Path(frames: map<Id, Entry>, order: seq<Id>, escapes: nat)

  const START := Path(map[], [], 0)

  datatype Edge = Edge(schema: Schema, escapable: bool)

  function ArmEdges(arms: seq<Schema>, escapable: bool): (es: seq<Edge>)
    ensures |es| == |arms| && forall i | 0 <= i < |es| :: es[i] == Edge(arms[i], escapable)
  {
    seq(|arms|, i requires 0 <= i < |arms| => Edge(arms[i], escapable))
  }

  function PropertyEdges(list: seq<Property>, required: seq<Key>): (es: seq<Edge>)
    ensures |es| == |list|
    ensures forall i | 0 <= i < |es| :: es[i] == Edge(list[i].schema, list[i].key !in required)
  {
    seq(|list|, i requires 0 <= i < |list| => Edge(list[i].schema, list[i].key !in required))
  }

  function ItemEdges(items: Option<Schema>, minItems: nat): seq<Edge> {
    if items.None? then [] else [Edge(items.value, minItems < 1)]
  }

  /** The sub-schemas of a node in visiting order.  The node's `type` is not consulted. */
  function Edges(s: Schema): (es: seq<Edge>)
    requires s.Node?
    ensures forall e | e in es :: e.schema < s
  {
    var items := ItemEdges(s.items, s.minItems);
    var arms := if s.union.AnyOf? then ArmEdges(s.union.arms, |s.union.arms| > 1) else [];
    var properties := if s.properties.Properties? then PropertyEdges(s.properties.list, s.required) else [];
    assert forall e | e in items :: e.schema < s;
    assert forall e | e in arms :: e.schema < s;
    assert forall e | e in properties :: e.schema < s by {
      assert s.properties.Properties? ==> forall p | p in s.properties.list :: p < s;
    }
    items + arms + properties
  }

  function IndexOf(order: seq<Id>, id: Id): (i: nat)
    ensures i <= |order| && (id in order ==> i < |order| && order[i] == id)
    ensures id !in order[..i]
  {
    if order == [] || order[0] == id then 0
    else
      var i := IndexOf(order[1..], id);
      assert order[..i + 1] == [order[0]] + order[1..][..i];
      i + 1
  }

  predicate EntryIsCyclic(p: Path, id: Id) { id in p.frames && p.frames[id].cyclic }

  /** Some declaration on the loop that closes at `id` is cyclic. */
  predicate LoopIsCyclic(reg: Registry, p: Path, id: Id)
    requires id in reg
  {
    || !reg[id].cyclic.Acyclic?
    || exists d | d in p.order[IndexOf(p.order, id)..] :: EntryIsCyclic(p, d)
  }

  function Descend(reg: Registry, p: Path, id: Id): Path
    requires id in reg
  {
    Path(p.frames[id := Entry(p.escapes, !reg[id].cyclic.Acyclic?)], p.order + [id], p.escapes)
  }

  /** The declaration named by the exception, or `None` when the check passes. */
  ghost function CheckDecl(reg: Registry, p: Path, id: Id): Option<Id>
    requires id in reg
    decreases reg.Keys - p.frames.Keys, 1
  {
    if id in p.frames then
      if p.escapes > p.frames[id].escapesAtEntry || LoopIsCyclic(reg, p, id) then None else Some(id)
    else
      assert id in reg.Keys - p.frames.Keys;
      CheckSchema(reg, Descend(reg, p, id), reg[id].body)
  }

  ghost function CheckSchema(reg: Registry, p: Path, s: Schema): Option<Id>
    decreases reg.Keys - p.frames.Keys, 2, s
  {
    match s
    case Ref(t) => if t in reg then CheckDecl(reg, p, t) else None
    case Embed(t) => if t in reg then CheckDecl(reg, p, t) else None
    case Node(_, _, _, _, _, _, _, _) => CheckEdges(reg, p, s, Edges(s))
  }

  ghost function CheckEdges(reg: Registry, p: Path, s: Schema, edges: seq<Edge>): Option<Id>
    requires forall e | e in edges :: e.schema < s
    decreases reg.Keys - p.frames.Keys, 2, s, |edges|
  {
    if edges == [] then None
    else
      var first := CheckSchema(reg, Cross(p, edges[0]), edges[0].schema);
      if first.Some? then first else CheckEdges(reg, p, s, edges[1..])
  }

  function Cross(p: Path, e: Edge): Path {
    if e.escapable then p.(escapes := p.escapes + 1) else p
  }

  ghost function Check(reg: Registry, id: Id): Option<Id>
    requires id in reg
  {
    CheckDecl(reg, START, id)
  }

  /** The declarations that a schema refers to. */
  ghost function Targets(s: Schema): set<Id>
    decreases s
  {
    match s
    case Ref(t) => {t}
    case Embed(t) => {t}
    case Node(_, _, _, _, _, _, _, _) => set e, t | e in Edges(s) && t in Targets(e.schema) :: t
  }

  /** The declarations that a schema refers to along edges that no value can avoid. */
  ghost function Mandatory(s: Schema): set<Id>
    decreases s
  {
    match s
    case Ref(t) => {t}
    case Embed(t) => {t}
    case Node(_, _, _, _, _, _, _, _) =>
      set e, t | e in Edges(s) && !e.escapable && t in Mandatory(e.schema) :: t
  }
}
