/** A cycle through a union arm that was not taken needs no licence. */
module UntakenArm {
  import opened SchemaGraph
  import opened Validator
  import opened Steps
  import opened ValidatorSound
  import opened ValidatorTheorems

  const NAME := "T"
  const K: Key := [0x6b]

  function Plain(list: Properties): Schema { Node(ObjectKind, NoUnion, None, None, 0, None, list, []) }

  /** `{ type: object } | T` */
  function Either(): Schema {
    Node(Permissive, AnyOf([Plain(NoProperties), Ref(NAME)]), None, None, 0, None, NoProperties, [])
  }

  /** `T = { k: { type: object } | T }` */
  function Body(): Schema { Plain(Properties([Property(K, Either())])) }

  const LOOP := Rec([Field(K, Obj(0))])

  /** An object whose `k` is itself. */
  function Example(): World {
    World(map[NAME := Decl(Body(), Acyclic, Unbounded, false, true)], map[0 := LOOP], map[NAME := 0])
  }

  lemma ExampleIsTame()
    ensures Example().Ok() && TameWorld(Example()) && Inductive(Example())
  {
    var w := Example();
    assert LOOP.Vals() == {Obj(0)} by { assert LOOP.fields[0] in LOOP.fields; }
    assert Inert(Plain(NoProperties)) && Tame(Plain(NoProperties)) && Tame(Ref(NAME));
    assert forall a | a in Either().union.arms :: a == Plain(NoProperties) || a == Ref(NAME);
    assert Tame(Either());
    assert forall p | p in Body().properties.list :: p == Property(K, Either());
  }

  lemma BodyExpands(heap: Heap)
    requires heap == map[0 := LOOP]
    ensures Expand(heap, Body(), Obj(0)) == All([Task(Either(), Obj(0))])
    ensures Expand(heap, Plain(NoProperties), Obj(0)) == Leaf(true)
    ensures Expand(heap, Either(), Obj(0)) == Any([Plain(NoProperties), Ref(NAME)])
  {
    var p := Property(K, Either());
    assert [p][1..] == [];
    assert LOOP.fields[0].key == K && LOOP.Get(K) == Obj(0);
    assert PropertyTasks([p], LOOP) == [Task(Either(), Obj(0))];
    assert Body().properties.list == [p] && HasRequired([], LOOP);
  }

  lemma LoopAccepted(w: World)
    requires w == Example() && w.Ok()
    ensures Validate(w, NAME, Obj(0)).verdict.Accept?
  {
    BodyExpands(w.heap);
    hide Expand;
    var c := Push(EMPTY, Pair(0, NAME), false);
    StepBody(w, EMPTY, NAME, 0, false);
    StepOne(w, c, Body(), Obj(0), Task(Either(), Obj(0)));
    assert ValNode(w, c, Plain(NoProperties), Obj(0)) == Outcome(Accept, c);
    ExpandShrinks(w.heap, Either(), Obj(0));
    assert [Plain(NoProperties), Ref(NAME)][0] == Plain(NoProperties);
    assert ValNode(w, c, Either(), Obj(0)).verdict.Accept?;
  }

  lemma LoopRefers(w: World)
    requires w == Example() && w.Ok()
    ensures RefersTo(w, Pair(0, NAME), Pair(0, NAME))
  {
    BodyExpands(w.heap);
    var t, p := Task(Either(), Obj(0)), Pair(0, NAME);
    ExpandShrinks(w.heap, Body(), Obj(0));
    ExpandShrinks(w.heap, Either(), Obj(0));
    assert p in References(w, Ref(NAME), Obj(0));
    assert Ref(NAME) in [Plain(NoProperties), Ref(NAME)];
    assert p in References(w, Either(), Obj(0));
    assert t in [t];
  }

  /** Under tame unions alone `AcceptedCyclesAreLicensed` fails: the object is accepted, its walk
      refers to itself, and nothing licenses that. */
  lemma CycleWithoutLicense()
    ensures var w := Example();
            var path := [Pair(0, NAME), Pair(0, NAME)];
            && w.Ok() && TameWorld(w) && Validate(w, NAME, Obj(0)).verdict.Accept?
            && RefersAlong(w, path) && forall k | 0 <= k < |path| :: !License(w, path[k])
  {
    var w := Example();
    ExampleIsTame();
    LoopAccepted(w);
    LoopRefers(w);
    hide TameWorld, Validate, RefersTo;
    var path := [Pair(0, NAME), Pair(0, NAME)];
    forall i | 0 <= i < |path| - 1 ensures LinkAt(w, path, i) { assert RefersTo(w, path[i], path[i + 1]); }
  }
}
