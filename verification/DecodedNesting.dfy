/** How deep the value nests that the decoder builds from whatever bytes it is given. */
module DecodedNesting {
  import opened SchemaGraph
  import opened MsgPack
  import opened Codec
  import opened DecodedHeap

  /** A level for each cell. */
  type Levels = seq<nat>

  ghost predicate Registered(objs: seq<Entry>, a: Addr) { exists e :: e in objs && e.addr == a }

  /** The value is a cell of level `n`, or an object that backreferences can name. */
  ghost predicate Linked(level: Levels, objs: seq<Entry>, n: nat, v: Val) {
    v.Obj? ==> (v.addr < |level| && level[v.addr] == n) || Registered(objs, v.addr)
  }

  /** Every value of the cell lies one level below it, or is a tracked object. */
  ghost predicate LayeredCell(level: Levels, objs: seq<Entry>, n: nat, cell: Cell) {
    forall v | v in cell.Vals() :: Linked(level, objs, n + 1, v)
  }

  ghost predicate Layered(d: Progress, level: Levels) {
    && |level| == |d.heap|
    && forall i | 0 <= i < |level| :: level[i] <= 1024 && LayeredCell(level, d.objs, level[i], d.heap[i])
  }

  ghost predicate LayeredResult(o: Decoded, n: nat, level: Levels, level': Levels) {
    o.Dec? ==> level <= level' && Layered(o.at, level') && Linked(level', o.at.objs, n, o.val)
  }

  lemma LinkedGrows(level: Levels, level': Levels, objs: seq<Entry>, objs': seq<Entry>, n: nat, v: Val)
    requires Linked(level, objs, n, v) && level <= level' && objs <= objs'
    ensures Linked(level', objs', n, v)
  {
  }

  lemma CellGrows(level: Levels, level': Levels, objs: seq<Entry>, objs': seq<Entry>, n: nat, cell: Cell)
    requires LayeredCell(level, objs, n, cell) && level <= level' && objs <= objs'
    ensures LayeredCell(level', objs', n, cell)
  {
    forall v | v in cell.Vals() ensures Linked(level', objs', n + 1, v) {
      LinkedGrows(level, level', objs, objs', n + 1, v);
    }
  }

  lemma AllotLayered(d: Progress, level: Levels, isArray: bool, n: nat)
    requires Layered(d, level) && n <= 1024
    ensures Layered(Allot(d, isArray), level + [n])
  {
    var d', level' := Allot(d, isArray), level + [n];
    forall i | 0 <= i < |level'| ensures LayeredCell(level', d'.objs, level'[i], d'.heap[i]) {
      if i < |level| { CellGrows(level, level', d.objs, d.objs, level[i], d.heap[i]); }
    }
  }

  lemma RegisterLayered(d: Progress, level: Levels, isArray: bool, n: nat, pathDepth: nat)
    requires Layered(d, level) && n <= 1024
    ensures Layered(Register(d, isArray, pathDepth), level + [n])
  {
    AllotLayered(d, level, isArray, n);
    var d', d'', level' := Allot(d, isArray), Register(d, isArray, pathDepth), level + [n];
    hide Allot;
    forall i | 0 <= i < |level'| ensures LayeredCell(level', d''.objs, level'[i], d''.heap[i]) {
      CellGrows(level', level', d'.objs, d''.objs, level'[i], d'.heap[i]);
    }
  }

  /** A token under 1025 containers is too deep, and one under 1024 is not. */
  lemma {:induction false} DeepTokenFails(reg: Registry, rank: map<Id, nat>, p: Route, d: Progress, s: Position)
    requires Guarded(reg, rank) && d.bs != [] && !IsExtToken(d.bs[0]) && !IsBoundary(s)
    ensures p.rawDepth == 1025 ==> DecVal(reg, rank, p, d, s, None) == Failed(TooNested, d.built)
    ensures p.rawDepth == 1024 && ReadHead(d.bs).Got? && ReadHead(d.bs).val.HeadPrim? ==>
              DecVal(reg, rank, p, d, s, None).Dec?
  {
  }

  /** Beyond the limit nothing is read but a backreference. */
  lemma {:induction false} DeepDeclFails(reg: Registry, rank: map<Id, nat>, p: Route, d: Progress, id: Id, viaRef: bool)
    requires Guarded(reg, rank) && id in reg && p.rawDepth == NEST_LIMIT + 1 && MaybeRef(d.bs) == NoRef
    ensures DecDecl(reg, rank, p, d, id, viaRef).Failed?
    decreases rank[id], 1
  {
    StartsWithByte(d.bs);
    hide MaybeRef, DecVal;
    var b := d.bs[0];
    if reg[id].Tracked() && (IsArrToken(b) || IsMapToken(b)) {
      DeepValFails(reg, rank, EnterRoute(p, id, viaRef).(open := p.open + {|d.objs|}),
                   Register(d, IsArrToken(b), p.pathDepth), Some(reg[id].body), Some(|d.heap|));
    } else {
      DeepValFails(reg, rank, EnterRoute(p, id, viaRef), d, Some(reg[id].body), None);
    }
  }

  lemma {:induction false} DeepValFails(reg: Registry, rank: map<Id, nat>, p: Route, d: Progress, s: Position,
                                        shell: Option<Addr>)
    requires Guarded(reg, rank) && p.rawDepth == NEST_LIMIT + 1 && MaybeRef(d.bs) == NoRef
    requires shell.Some? ==>
               && shell.value < |d.heap| && d.bs != []
               && (if d.heap[shell.value].Arr? then IsArrToken(d.bs[0]) else IsMapToken(d.bs[0]))
    ensures DecVal(reg, rank, p, d, s, shell).Failed?
    decreases if s.Some? then Bound(rank, s.value) else 0, 0
  {
    hide MaybeRef, DecDecl;
    if IsBoundary(s) && s.value.target in reg { DeepDeclFails(reg, rank, p, d, s.value.target, s.value.Ref?); }
  }

  lemma {:induction false} DeclLayered(reg: Registry, rank: map<Id, nat>, p: Route, d: Progress, id: Id, viaRef: bool,
                                       level: Levels)
    returns (level': Levels)
    requires Guarded(reg, rank) && id in reg && p.rawDepth <= NEST_LIMIT + 1 && Layered(d, level)
    ensures LayeredResult(DecDecl(reg, rank, p, d, id, viaRef), p.rawDepth, level, level')
    decreases |d.bs|, 0, rank[id], 1
  {
    hide DecVal, Layered, MaybeRef;
    var decl := reg[id];
    level' := level;
    match MaybeRef(d.bs)
    case RefBad(_) =>
    case RefTo(index, rest) => FollowLayered(decl, id, p, d, index, rest, level);
    case NoRef =>
      if p.rawDepth > NEST_LIMIT {
        DeepDeclFails(reg, rank, p, d, id, viaRef);
      } else if !BeyondCap(decl, p, id, viaRef) {
        StartsWithByte(d.bs);
        var b := d.bs[0];
        if decl.Tracked() && (IsArrToken(b) || IsMapToken(b)) {
          RegisterLayered(d, level, IsArrToken(b), p.rawDepth, p.pathDepth);
          LengthKept(d, level);
          level' := ValLayered(reg, rank, EnterRoute(p, id, viaRef).(open := p.open + {|d.objs|}),
                               Register(d, IsArrToken(b), p.pathDepth), Some(decl.body), Some(|d.heap|),
                               level + [p.rawDepth]);
        } else {
          level' := ValLayered(reg, rank, EnterRoute(p, id, viaRef), d, Some(decl.body), None, level);
        }
      }
  }

  lemma StartsWithByte(bs: seq<Byte>)
    requires MaybeRef(bs) == NoRef
    ensures bs != []
  {
  }

  lemma LengthKept(d: Progress, level: Levels)
    requires Layered(d, level)
    ensures |level| == |d.heap|
  {
  }

  lemma FollowLayered(decl: Decl, id: Id, p: Route, d: Progress, index: nat, rest: seq<Byte>, level: Levels)
    requires Layered(d, level)
    ensures LayeredResult(FollowRef(decl, id, p, d, index, rest), p.rawDepth, level, level)
  {
    if index < |d.objs| { assert d.objs[index] in d.objs; }
  }

  lemma {:induction false} ValLayered(reg: Registry, rank: map<Id, nat>, p: Route, d: Progress, s: Position,
                                      shell: Option<Addr>, level: Levels) returns (level': Levels)
    requires Guarded(reg, rank) && p.rawDepth <= NEST_LIMIT + 1 && Layered(d, level)
    requires shell.Some? ==>
               && shell.value < |d.heap| && d.bs != []
               && (if d.heap[shell.value].Arr? then IsArrToken(d.bs[0]) else IsMapToken(d.bs[0]))
               && shell.value < |level| && level[shell.value] == p.rawDepth
    ensures LayeredResult(DecVal(reg, rank, p, d, s, shell), p.rawDepth, level, level')
    decreases |d.bs|, 0, if s.Some? then Bound(rank, s.value) else 0, 0
  {
    hide DecDecl, DecFill, Layered, ReadHead;
    level' := level;
    if IsBoundary(s) {
      if s.value.target in reg { level' := DeclLayered(reg, rank, p, d, s.value.target, s.value.Ref?, level); }
    } else if d.bs != [] && !IsExtToken(d.bs[0]) && p.rawDepth <= NEST_LIMIT && ReadHead(d.bs).Got? {
      HeadConsumes(d.bs);
      var head, rest := ReadHead(d.bs).val, ReadHead(d.bs).rest;
      if head.HeadPrim? {
        MovedLayered(d, level, rest, d.built + 1);
      } else {
        AllotLayered(d, level, head.HeadArr?, p.rawDepth);
        LengthKept(d, level);
        var d' := if shell.Some? then d else Allot(d, head.HeadArr?);
        var a := if shell.Some? then shell.value else |d.heap|;
        var grown := if shell.Some? then level else level + [p.rawDepth];
        MovedLayered(d', grown, rest, d'.built);
        level' := FillLayered(reg, rank, p.(rawDepth := p.rawDepth + 1), d'.(bs := rest), s, head.n, a, grown);
      }
    }
  }

  lemma MovedLayered(d: Progress, level: Levels, bs: seq<Byte>, built: nat)
    requires Layered(d, level)
    ensures Layered(d.(bs := bs, built := built), level) && Layered(d.(bs := bs), level)
  {
  }

  /** Fills cell `a`, which lies one level above the values read. */
  lemma {:induction false} FillLayered(reg: Registry, rank: map<Id, nat>, p: Route, d: Progress, s: Position, n: nat,
                                       a: Addr, level: Levels) returns (level': Levels)
    requires Guarded(reg, rank) && p.rawDepth <= NEST_LIMIT + 1 && a < |d.heap| && Layered(d, level)
    requires a < |level| && level[a] + 1 == p.rawDepth
    ensures LayeredResult(DecFill(reg, rank, p, d, s, n, a), p.rawDepth - 1, level, level')
    decreases |d.bs|, 2
  {
    hide DecElems, DecFields, Layered;
    if d.heap[a].Arr? {
      level' := ElemsLayered(reg, rank, p, d, s, n, a, level);
    } else {
      level' := FieldsLayered(reg, rank, p, d, s, n, a, level);
    }
  }

  lemma {:induction false} ElemsLayered(reg: Registry, rank: map<Id, nat>, p: Route, d: Progress, s: Position, n: nat,
                                        a: Addr, level: Levels) returns (level': Levels)
    requires Guarded(reg, rank) && p.rawDepth <= NEST_LIMIT + 1 && a < |d.heap| && d.heap[a].Arr? && Layered(d, level)
    requires a < |level| && level[a] + 1 == p.rawDepth
    ensures LayeredResult(DecElems(reg, rank, p, d, s, n, a), p.rawDepth - 1, level, level')
    decreases |d.bs|, 1
  {
    hide DecVal, Layered;
    level' := level;
    if n > 0 {
      level' := ValLayered(reg, rank, p, d, Items(s), None, level);
      var first := DecVal(reg, rank, p, d, Items(s), None);
      if first.Dec? {
        var cell := Arr(first.at.heap[a].elems + [first.val]);
        StoreLayered(first.at, level', a, cell, first.val);
        level' := ElemsLayered(reg, rank, p, first.at.(heap := first.at.heap[a := cell]), s, n - 1, a, level');
      }
    }
  }

  /** A value of the next level is added to a cell. */
  lemma StoreLayered(d: Progress, level: Levels, a: Addr, cell: Cell, v: Val)
    requires Layered(d, level) && a < |level| && Linked(level, d.objs, level[a] + 1, v)
    requires a < |d.heap| && forall x | x in cell.Vals() :: x == v || x in d.heap[a].Vals()
    ensures Layered(d.(heap := d.heap[a := cell]), level)
  {
    hide Linked;
    assert LayeredCell(level, d.objs, level[a], d.heap[a]);
    assert LayeredCell(level, d.objs, level[a], cell);
  }

  lemma {:induction false} FieldsLayered(reg: Registry, rank: map<Id, nat>, p: Route, d: Progress, s: Position, n: nat,
                                         a: Addr, level: Levels) returns (level': Levels)
    requires Guarded(reg, rank) && p.rawDepth <= NEST_LIMIT + 1 && a < |d.heap| && d.heap[a].Rec? && Layered(d, level)
    requires a < |level| && level[a] + 1 == p.rawDepth
    ensures LayeredResult(DecFields(reg, rank, p, d, s, n, a), p.rawDepth - 1, level, level')
    decreases |d.bs|, 1
  {
    hide DecVal, Put, Layered;
    level' := level;
    if n > 0 && ReadKey(d.bs).Got? {
      var key, rest := ReadKey(d.bs).val, ReadKey(d.bs).rest;
      MovedLayered(d, level, rest, d.built);
      level' := ValLayered(reg, rank, p, d.(bs := rest), At(s, key), None, level);
      var first := DecVal(reg, rank, p, d.(bs := rest), At(s, key), None);
      if first.Dec? {
        var fields := first.at.heap[a].fields;
        var cell := Rec(Put(fields, key, first.val));
        PutVals(fields, key, first.val);
        StoreLayered(first.at, level', a, cell, first.val);
        level' := FieldsLayered(reg, rank, p, first.at.(heap := first.at.heap[a := cell]), s, n - 1, a, level');
      }
    }
  }

  lemma {:induction false} PutVals(fields: seq<Field>, k: Key, v: Val)
    ensures forall x | x in Rec(Put(fields, k, v)).Vals() :: x == v || x in Rec(fields).Vals()
  {
    PutKeys(fields, k, v);
  }

  /** Every cell of the decoded heap has a level of at most 1024: the root is at level 0 or tracked,
      and what a cell holds lies one level below it or is a tracked object. */
  lemma DecodedIsLayered(reg: Registry, rank: map<Id, nat>, id: Id, bs: seq<Byte>) returns (level: Levels)
    requires Guarded(reg, rank) && id in reg && Decode(reg, rank, id, bs).Dec?
    ensures var o := Decode(reg, rank, id, bs); Layered(o.at, level) && Linked(level, o.at.objs, 0, o.val)
  {
    hide DecDecl;
    level := DeclLayered(reg, rank, DEPARTURE, Progress(bs, [], [], 0), id, false, []);
  }

  /** Each object holds the next, and no object after the first is tracked. */
  ghost predicate UntrackedPath(o: Progress, path: seq<Addr>) {
    && (forall a | a in path :: a < |o.heap|)
    && forall i | 0 < i < |path| :: !Registered(o.objs, path[i]) && HoldsNext(o, path, i)
  }

  ghost predicate HoldsNext(o: Progress, path: seq<Addr>, i: nat)
    requires 0 < i < |path|
  {
    path[i - 1] < |o.heap| && Obj(path[i]) in o.heap[path[i - 1]].Vals()
  }

  /** So no path in the decoded value has more than 1025 objects between one tracked object and the
      next. */
  lemma DecodedNesting(reg: Registry, rank: map<Id, nat>, id: Id, bs: seq<Byte>, path: seq<Addr>)
    requires Guarded(reg, rank) && id in reg && Decode(reg, rank, id, bs).Dec?
    requires UntrackedPath(Decode(reg, rank, id, bs).at, path)
    ensures |path| <= 1025
  {
    hide Decode;
    var level := DecodedIsLayered(reg, rank, id, bs);
    if path != [] { PathDescends(Decode(reg, rank, id, bs).at, level, path, |path| - 1); }
  }

  lemma {:induction false} PathDescends(o: Progress, level: Levels, path: seq<Addr>, i: nat)
    requires Layered(o, level) && UntrackedPath(o, path) && i < |path|
    ensures path[i] < |level| && i <= level[path[i]] <= 1024
  {
    hide Layered;
    assert path[i] in path;
    LevelAt(o, level, path[i]);
    if i > 0 {
      PathDescends(o, level, path, i - 1);
      assert HoldsNext(o, path, i);
      hide UntrackedPath, Registered;
      ChildAt(o, level, path[i - 1], Obj(path[i]));
    }
  }

  lemma LevelAt(o: Progress, level: Levels, a: Addr)
    requires Layered(o, level) && a < |o.heap|
    ensures a < |level| && level[a] <= 1024
  {
  }

  lemma ChildAt(o: Progress, level: Levels, a: Addr, v: Val)
    requires Layered(o, level) && a < |o.heap| && a < |level| && v in o.heap[a].Vals()
    ensures Linked(level, o.objs, level[a] + 1, v)
  {
    hide Linked, Cell.Vals;
    assert LayeredCell(level, o.objs, level[a], o.heap[a]);
  }
}
