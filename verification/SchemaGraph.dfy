/** The data the schema engine works on: schema bodies, the registry of declarations,
    and a heap of values that may be shared and may be cyclic. */
module SchemaGraph {

  datatype Option<+T> = None | Some(value: T)

  type Id = string
  type Addr = nat

  type Byte = b: int | 0 <= b < 0x100
  /** The UTF-8 bytes of a string; no JavaScript string is longer. */
  type Text = s: seq<Byte> | |s| < 0x1_0000_0000
  type Key = Text
  /** Integer-valued numbers that the codec writes in an integer format. */
  type Int32 = n: int | -0x8000_0000 <= n < 0x1_0000_0000
  /** Every other number, as its opaque IEEE payload. */
  type Float64 = s: seq<Byte> | |s| == 8 witness [0, 0, 0, 0, 0, 0, 0, 0]

  datatype Prim =
    | Undefined
    | Null
    | Bool(b: bool)
    | Num(n: Int32)
    | Float(bits: Float64)
    | Big(big: int)
    | Str(text: Text)
  {
    predicate Nullish() { Undefined? || Null? }
  }

  datatype Val = Prim(prim: Prim) | Obj(addr: Addr) {
    predicate Nullish() { Prim? && prim.Nullish() }
  }

  datatype Field = Field(key: Key, val: Val)

  datatype Cell = Arr(elems: seq<Val>) | Rec(fields: seq<Field>) {
    /** `v[k]`; a name that is not an own field reads as undefined. */
    function Get(k: Key): Val {
      if Arr? then Prim(Undefined) else Lookup(fields, k)
    }

    /** Every value stored in the cell. */
    function Vals(): set<Val> {
      if Arr? then set x | x in elems else set f | f in fields :: f.val
    }
  }

  function Lookup(fields: seq<Field>, k: Key): (v: Val)
    ensures v == Prim(Undefined) || exists f :: f in fields && f.key == k && f.val == v
  {
    if fields == [] then Prim(Undefined)
    else if fields[0].key == k then fields[0].val
    else
      var v := Lookup(fields[1..], k);
      assert forall f :: f in fields[1..] ==> f in fields;
      v
  }

  /** No two fields have the same key. */
  ghost predicate Distinct(fields: seq<Field>) {
    forall i, j | 0 <= i < j < |fields| :: fields[i].key != fields[j].key
  }

  type Heap = map<Addr, Cell>

  predicate InHeap(heap: Heap, v: Val) { v.Obj? ==> v.addr in heap }

  /** No dangling reference. */
  ghost predicate Closed(heap: Heap) {
    forall a, v | a in heap && v in heap[a].Vals() :: InHeap(heap, v)
  }

  /** The branch of the walker that a `type` keyword selects. */
  datatype Kind =
    | Scalar(accepts: Prim -> bool)
    | ArrayKind
    | ObjectKind
    | Untyped
    | Permissive

  datatype Union = NoUnion | AnyOf(arms: seq<Schema>)
  datatype Property = Property(key: Key, schema: Schema)
  datatype Properties = NoProperties | Properties(list: seq<Property>)

  datatype Schema =
    | Ref(target: Id)    // `{ $ref }`, resolved when it is walked
    | Embed(target: Id)  // a wrapped declaration used in place
    | Node(
        kind: Kind,
        union: Union,
        enums: Option<seq<Prim>>,
        items: Option<Schema>,
        minItems: nat,
        maxItems: Option<nat>,
        properties: Properties,
        required: seq<Key>)

  /** A key has one schema. */
  ghost predicate DistinctKeys(list: seq<Property>) {
    forall p, q | p in list && q in list && p.key == q.key :: p == q
  }

  datatype Cyclic = Acyclic | AnyLength | UpTo(hops: nat)
  datatype Depth = DefaultDepth | Unbounded | AtMost(cap: nat)

  datatype Decl = Decl(
    body: Schema,
    cyclic: Cyclic,
    depth: Depth,
    preserve: bool,
    hasRefs: bool)
  {
    /** The cap on `$ref`-mediated nesting; `None` is no cap. */
    function Cap(): Option<nat> {
      match depth
      case Unbounded => None
      case AtMost(n) => Some(n)
      case DefaultDepth => if hasRefs then Some(128) else None
    }

    predicate Capped(depth: nat) { Cap().Some? && depth > Cap().value }

    predicate Tracked() { !cyclic.Acyclic? || preserve }
  }

  type Registry = map<Id, Decl>

  /** No declaration reaches itself without crossing an `items` or `properties` edge. */
  ghost predicate Guarded(reg: Registry, rank: map<Id, nat>) {
    rank.Keys == reg.Keys && forall id | id in reg :: Bound(rank, reg[id].body) <= rank[id]
  }

  /** A counter that was never set reads as zero. */
  function DepthOf(depths: map<Id, nat>, id: Id): nat {
    if id in depths then depths[id] else 0
  }

  /** A (value, declaration) pair, the unit of memoization and of cycle detection. */
  datatype Pair = Pair(addr: Addr, id: Id)

  /** A registry, a heap, and a rank that witnesses that the registry is guarded. */
  datatype World = World(reg: Registry, heap: Heap, rank: map<Id, nat>) {
    ghost predicate Ok() {
      Closed(heap) && Guarded(reg, rank)
    }

    ghost function Pairs(): set<Pair> {
      set a, id | a in heap && id in reg :: Pair(a, id)
    }
  }

  /** One more than the rank of every declaration that `s` enters before any
      `items` or `properties` edge. */
  ghost function Bound(rank: map<Id, nat>, s: Schema): nat
    decreases s
  {
    match s
    case Ref(t) => if t in rank then rank[t] + 1 else 0
    case Embed(t) => if t in rank then rank[t] + 1 else 0
    case Node(_, AnyOf(arms), _, _, _, _, _, _) => MaxBound(rank, arms)
    case Node(_, NoUnion, _, _, _, _, _, _) => 0
  }

  ghost function MaxBound(rank: map<Id, nat>, arms: seq<Schema>): (m: nat)
    ensures forall s | s in arms :: Bound(rank, s) <= m
    decreases arms
  {
    if arms == [] then 0
    else
      var head, tail := Bound(rank, arms[0]), MaxBound(rank, arms[1..]);
      if head >= tail then head else tail
  }
}
