/** The rules of the schema language as its keywords read, without the walker's dispatch. */
module RuleBook {
  import opened SchemaGraph
  import opened Validator
  import opened Rules
  import opened ValidatorTheorems

  lemma PartsInHeap(heap: Heap, a: Addr)
    requires Closed(heap) && a in heap
    ensures heap[a].Arr? ==> forall i | 0 <= i < |heap[a].elems| :: InHeap(heap, heap[a].elems[i])
    ensures forall k :: InHeap(heap, heap[a].Get(k))
  {
    forall v | v in heap[a].Vals() ensures InHeap(heap, v) {}
    if heap[a].Arr? {
      forall i | 0 <= i < |heap[a].elems| ensures InHeap(heap, heap[a].elems[i]) {
        assert heap[a].elems[i] in heap[a].Vals();
      }
    } else {
      forall k ensures InHeap(heap, heap[a].Get(k)) {
        var v := heap[a].Get(k);
        if v != Prim(Undefined) { assert v in heap[a].Vals(); }
      }
    }
  }

  /** What a name reads as: the value of the field with that key, and `undefined` where there is none
      and on arrays. */
  lemma {:induction false} FieldIsRead(cell: Cell, k: Key)
    ensures forall f | cell.Rec? && Distinct(cell.fields) && f in cell.fields && f.key == k :: cell.Get(k) == f.val
    ensures cell.Arr? || (forall f | f in cell.fields :: f.key != k) ==> cell.Get(k) == Prim(Undefined)
    decreases if cell.Rec? then |cell.fields| else 0
  {
    if cell.Rec? && cell.fields != [] && cell.fields[0].key != k {
      var rest := Rec(cell.fields[1..]);
      assert forall f | f in cell.fields :: f == cell.fields[0] || f in rest.fields;
      FieldIsRead(rest, k);
    }
  }

  /** `v` fits `s`, given that the pairs in `r` fit their declarations. */
  ghost predicate Fits(w: World, s: Schema, v: Val, r: set<Pair>)
    requires w.Ok() && InHeap(w.heap, v)
    decreases if v.Obj? then 1 else 0, if v.Obj? then 0 else Bound(w.rank, s), s
  {
    match s
    case Ref(t) => t in w.reg && if v.Prim? then Fits(w, w.reg[t].body, v, r) else Pair(v.addr, t) in r
    case Embed(t) => t in w.reg && if v.Prim? then Fits(w, w.reg[t].body, v, r) else Pair(v.addr, t) in r
    case Node(kind, union, enums, _, _, _, properties, _) =>
      if union.AnyOf? then exists arm :: arm in union.arms && Fits(w, arm, v, r)
      else if enums.Some? then v.Prim? && v.prim in enums.value
      else
        match kind
        case Scalar(accepts) => v.Prim? && accepts(v.prim)
        case Permissive => true
        case ArrayKind => FitsArray(w, s, v, r)
        case ObjectKind => FitsObject(w, s, v, r)
        case Untyped => properties.Properties? ==> FitsObject(w, s, v, r)
  }

  /** An array of a length within bounds, all of whose elements fit `items`. */
  ghost predicate FitsArray(w: World, s: Schema, v: Val, r: set<Pair>)
    requires w.Ok() && InHeap(w.heap, v) && s.Node?
    decreases if v.Obj? then 1 else 0, if v.Obj? then 0 else Bound(w.rank, s), s, 0
  {
    v.Obj? && w.heap[v.addr].Arr? &&
    var elems := w.heap[v.addr].elems;
    PartsInHeap(w.heap, v.addr);
    && s.minItems <= |elems| && (s.maxItems.Some? ==> |elems| <= s.maxItems.value)
    && (s.items.Some? ==> forall i | 0 <= i < |elems| :: Fits(w, s.items.value, elems[i], r))
  }

  /** An object that has every required field, and whose declared fields fit when present. */
  ghost predicate FitsObject(w: World, s: Schema, v: Val, r: set<Pair>)
    requires w.Ok() && InHeap(w.heap, v) && s.Node?
    decreases if v.Obj? then 1 else 0, if v.Obj? then 0 else Bound(w.rank, s), s, 0
  {
    v.Obj? &&
    var cell := w.heap[v.addr];
    PartsInHeap(w.heap, v.addr);
    && (forall k | k in s.required :: cell.Get(k) != Prim(Undefined) && cell.Get(k) != Prim(Null))
    && (s.properties.Properties? ==>
          forall p | p in s.properties.list && cell.Get(p.key) != Prim(Undefined) && cell.Get(p.key) != Prim(Null) ::
            Fits(w, p.schema, cell.Get(p.key), r))
  }

  lemma {:induction false} TasksCover(list: seq<Property>, cell: Cell)
    ensures forall p | p in list && !cell.Get(p.key).Nullish() ::
              Task(p.schema, cell.Get(p.key)) in PropertyTasks(list, cell)
  {
    if list != [] { TasksCover(list[1..], cell); }
  }

  lemma {:induction false} TaskOf(p: Property, cell: Cell)
    ensures var v := cell.Get(p.key);
            PropertyTasks([p], cell) == if v == Prim(Undefined) || v == Prim(Null) then [] else [Task(p.schema, v)]
  {
    assert [p][1..] == [];
  }

  lemma {:induction false} TasksStep(p: Property, rest: seq<Property>, cell: Cell)
    ensures PropertyTasks([p] + rest, cell) == PropertyTasks([p], cell) + PropertyTasks(rest, cell)
  {
    TaskOf(p, cell);
    assert ([p] + rest)[1..] == rest;
  }

  lemma {:induction false} NoTasks(cell: Cell, tasks: seq<Task>)
    ensures PropertyTasks([], cell) + tasks == tasks
  {
  }

  lemma Associates(a: seq<Task>, b: seq<Task>, c: seq<Task>)
    ensures a + (b + c) == a + b + c
  {
  }

  /** The fields that are present are checked in the order in which they are declared, */
  lemma {:induction false} FieldsInOrder(list: seq<Property>, more: seq<Property>, cell: Cell)
    ensures PropertyTasks(list + more, cell) == PropertyTasks(list, cell) + PropertyTasks(more, cell)
    decreases |list|
  {
    hide PropertyTasks;
    if list == [] {
      assert list + more == more;
      NoTasks(cell, PropertyTasks(more, cell));
    } else {
      var p, rest := list[0], list[1..];
      var first, middle, last := PropertyTasks([p], cell), PropertyTasks(rest, cell), PropertyTasks(more, cell);
      calc {
        PropertyTasks(list + more, cell);
      == { assert list + more == [p] + (rest + more); }
        PropertyTasks([p] + (rest + more), cell);
      == { TasksStep(p, rest + more, cell); }
        first + PropertyTasks(rest + more, cell);
      == { FieldsInOrder(rest, more, cell); }
        first + (middle + last);
      == { Associates(first, middle, last); }
        first + middle + last;
      == { TasksStep(p, rest, cell); assert list == [p] + rest; }
        PropertyTasks(list, cell) + last;
      }
    }
  }

  /** and the elements in theirs. */
  lemma ElementsInOrder(heap: Heap, s: Schema, v: Val)
    requires InHeap(heap, v) && Expand(heap, s, v).All? && s.kind.ArrayKind?
    ensures v.Obj? && heap[v.addr].Arr?
    ensures var tasks, elems := Expand(heap, s, v).tasks, heap[v.addr].elems;
            |tasks| == |elems| && forall i | 0 <= i < |elems| :: tasks[i] == Task(s.items.value, elems[i])
  {
  }

  /** The rules that verdicts are measured against are these. */
  lemma {:induction false} HoldsIsFits(w: World, s: Schema, v: Val, r: set<Pair>)
    requires w.Ok() && InHeap(w.heap, v)
    ensures Holds(w, s, v, r) <==> Fits(w, s, v, r)
    decreases if v.Obj? then 1 else 0, if v.Obj? then 0 else Bound(w.rank, s), s
  {
    ExpandShrinks(w.heap, s, v);
    match Expand(w.heap, s, v)
    case Leaf(_) =>
    case Any(arms) =>
      forall arm | arm in arms ensures Holds(w, arm, v, r) <==> Fits(w, arm, v, r) { HoldsIsFits(w, arm, v, r); }
    case Enter(id, _) => if id in w.reg && v.Prim? { HoldsIsFits(w, w.reg[id].body, v, r); }
    case All(tasks) =>
      forall t | t in tasks ensures Holds(w, t.schema, t.val, r) <==> Fits(w, t.schema, t.val, r) {
        HoldsIsFits(w, t.schema, t.val, r);
      }
      if s.kind.ArrayKind? { ArrayFits(w, s, v, r, tasks); } else { ObjectFits(w, s, v, r, tasks); }
  }

  lemma {:induction false} ArrayFits(w: World, s: Schema, v: Val, r: set<Pair>, tasks: seq<Task>)
    requires w.Ok() && InHeap(w.heap, v) && Expand(w.heap, s, v) == All(tasks) && s.Node? && s.kind.ArrayKind?
    requires forall t | t in tasks :: InHeap(w.heap, t.val)
    ensures FitsArray(w, s, v, r) <==> forall t | t in tasks :: Fits(w, t.schema, t.val, r)
  {
    hide Fits;
    var elems := w.heap[v.addr].elems;
    PartsInHeap(w.heap, v.addr);
    assert forall i | 0 <= i < |elems| :: tasks[i] == Task(s.items.value, elems[i]);
  }

  lemma {:induction false} ObjectFits(w: World, s: Schema, v: Val, r: set<Pair>, tasks: seq<Task>)
    requires w.Ok() && InHeap(w.heap, v) && Expand(w.heap, s, v) == All(tasks) && s.Node? && !s.kind.ArrayKind?
    requires forall t | t in tasks :: InHeap(w.heap, t.val)
    ensures FitsObject(w, s, v, r) <==> forall t | t in tasks :: Fits(w, t.schema, t.val, r)
  {
    hide Fits;
    PartsInHeap(w.heap, v.addr);
    TasksCover(s.properties.list, w.heap[v.addr]);
  }

  /** The coinductive and the inductive reading, in terms of the keywords. */
  lemma {:induction false} FixpointsOfFits(w: World, r: set<Pair>, level: map<Pair, nat>)
    requires w.Ok()
    ensures PostFixed(w, r) <==> forall p | p in r :: p in w.Pairs() && Fits(w, w.reg[p.id].body, Obj(p.addr), r)
    ensures Founded(w, level) <==>
            forall p | p in level ::
              p in w.Pairs() && Fits(w, w.reg[p.id].body, Obj(p.addr), Below(level, level[p]))
  {
    hide Holds, Fits;
    forall p, r: set<Pair> | p in w.Pairs()
      ensures Holds(w, w.reg[p.id].body, Obj(p.addr), r) <==> Fits(w, w.reg[p.id].body, Obj(p.addr), r)
    {
      HoldsIsFits(w, w.reg[p.id].body, Obj(p.addr), r);
    }
  }
}
