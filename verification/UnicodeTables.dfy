/** What a staged table holds, and how it is looked up. */
module UnicodeTables {
  import opened SchemaGraph

  const LAST := 0x10ffff
  const BLOCK := 256
  const ROWS := 0x1100

  type Get<!E> = nat -> E
  type Eql<!E> = (E, E) -> bool

  // ---------- The tables as functions of what they compress ----------

  /** The first position of an equal item, or the length. */
  function Find<E>(items: seq<E>, eql: Eql<E>, e: E): (i: nat)
    ensures i <= |items| && (i < |items| ==> eql(items[i], e))
    ensures forall j | 0 <= j < i :: !eql(items[j], e)
  {
    if items == [] || eql(items[0], e) then 0 else Find(items[1..], eql, e) + 1
  }

  /** The distinct elements of the first `n` code points, in order of appearance. */
  function Elements<E>(get: Get<E>, eql: Eql<E>, n: nat): seq<E> {
    if n == 0 then []
    else
      var items, e := Elements(get, eql, n - 1), get(n - 1);
      if Find(items, eql, e) < |items| then items else items + [e]
  }

  /** The number of a code point's element. */
  function IndexAt<E>(get: Get<E>, eql: Eql<E>, cp: nat): nat { Find(Elements(get, eql, cp), eql, get(cp)) }

  function Row<E>(get: Get<E>, eql: Eql<E>, b: nat): (row: seq<nat>)
    ensures |row| == BLOCK
    ensures forall j | 0 <= j < BLOCK :: row[j] == IndexAt(get, eql, BLOCK * b + j)
  {
    seq<nat>(BLOCK, j requires 0 <= j < BLOCK => IndexAt(get, eql, BLOCK * b + j))
  }

  type Block = seq<nat>

  /** The distinct rows among the first `n` that are not known already, in order of appearance. */
  function NewRows<E>(get: Get<E>, eql: Eql<E>, known: set<Block>, n: nat): (rows: seq<Block>)
    ensures forall i | 0 <= i < |rows| :: |rows[i]| == BLOCK
    ensures |rows| <= n
  {
    if n == 0 then []
    else
      var rows, row := NewRows(get, eql, known, n - 1), Row(get, eql, n - 1);
      if row in known || row in rows then rows else rows + [row]
  }

  function Flatten(rows: seq<Block>): seq<nat> {
    if rows == [] then [] else Flatten(rows[..|rows| - 1]) + rows[|rows| - 1]
  }

  function Position(rows: seq<Block>, row: Block): (i: nat)
    requires row in rows
    ensures i < |rows| && rows[i] == row
  {
    if rows[0] == row then 0 else Position(rows[1..], row) + 1
  }

  datatype Tables<E> = Tables(stage1: seq<nat>, stage2: seq<nat>, stage3: seq<E>)

  /** Where the first stage sends row `b`. */
  function Offset<E>(get: Get<E>, eql: Eql<E>, known: map<Block, nat>, b: nat): nat
    requires b < ROWS
  {
    var row, rows := Row(get, eql, b), NewRows(get, eql, known.Keys, ROWS);
    NewRowsCover(get, eql, known.Keys, ROWS, b);
    if row in known then known[row] else BLOCK * Position(rows, row)
  }

  function Compiled<E>(get: Get<E>, eql: Eql<E>, known: map<Block, nat>): Tables<E> {
    Tables(seq<nat>(ROWS, b requires 0 <= b < ROWS => Offset(get, eql, known, b)),
           Flatten(NewRows(get, eql, known.Keys, ROWS)),
           Elements(get, eql, LAST + 1))
  }

  lemma {:induction false} NewRowsCover<E>(get: Get<E>, eql: Eql<E>, known: set<Block>, n: nat, b: nat)
    requires b < n
    ensures Row(get, eql, b) in known || Row(get, eql, b) in NewRows(get, eql, known, n)
  {
    if b < n - 1 { NewRowsCover(get, eql, known, n - 1, b); }
  }

  // ---------- The tables are faithful ----------

  lemma {:induction false} ElementsGrow<E>(get: Get<E>, eql: Eql<E>, m: nat, n: nat)
    requires m <= n
    ensures Elements(get, eql, m) <= Elements(get, eql, n)
  {
    if m < n { ElementsGrow(get, eql, m, n - 1); }
  }

  /** A code point's number leads to its element, or to an equal one. */
  lemma {:induction false} IndexLeadsBack<E>(get: Get<E>, eql: Eql<E>, cp: nat, n: nat)
    requires cp < n
    ensures var items, i := Elements(get, eql, n), IndexAt(get, eql, cp);
            i < |items| && (items[i] == get(cp) || eql(items[i], get(cp)))
  {
    ElementsGrow(get, eql, cp + 1, n);
    var items := Elements(get, eql, cp + 1);
    var i := IndexAt(get, eql, cp);
    assert i < |items| && (items[i] == get(cp) || eql(items[i], get(cp)));
  }

  lemma {:induction false} FlattenAt(rows: seq<Block>, i: nat, j: nat)
    requires (forall k | 0 <= k < |rows| :: |rows[k]| == BLOCK) && i < |rows| && j < BLOCK
    ensures |Flatten(rows)| == BLOCK * |rows| && Flatten(rows)[BLOCK * i + j] == rows[i][j]
    decreases |rows|
  {
    var n := |rows| - 1;
    FlattenLength(rows[..n]);
    if i < n { FlattenAt(rows[..n], i, j); }
  }

  lemma {:induction false} FlattenLength(rows: seq<Block>)
    requires forall k | 0 <= k < |rows| :: |rows[k]| == BLOCK
    ensures |Flatten(rows)| == BLOCK * |rows|
    decreases |rows|
  {
    if rows != [] { FlattenLength(rows[..|rows| - 1]); }
  }

  function Lookup<E>(t: Tables<E>, cp: nat): Option<E> {
    var high, low := cp / BLOCK, cp % BLOCK;
    if high >= |t.stage1| || t.stage1[high] + low >= |t.stage2| then None
    else
      var i := t.stage2[t.stage1[high] + low];
      if i >= |t.stage3| then None else Some(t.stage3[i])
  }

  /** The second stage at a code point, when the generator starts with nothing known. */
  lemma StageTwoAt<E>(get: Get<E>, eql: Eql<E>, cp: nat)
    requires cp <= LAST
    ensures var t := Compiled(get, eql, map[]);
            var at := t.stage1[cp / BLOCK] + cp % BLOCK;
            at < |t.stage2| && t.stage2[at] == IndexAt(get, eql, cp)
  {
    hide Elements, IndexAt, Row, NewRows, Flatten;
    var b, j := cp / BLOCK, cp % BLOCK;
    var rows, row := NewRows(get, eql, {}, ROWS), Row(get, eql, b);
    NewRowsCover(get, eql, {}, ROWS, b);
    var known: map<Block, nat> := map[];
    assert known.Keys == {};
    FlattenAt(rows, Position(rows, row), j);
    assert BLOCK * b + j == cp;
  }

  /** Every code point looks up its own element, or one that `eql` takes for it. */
  lemma LookupIsFaithful<E>(get: Get<E>, eql: Eql<E>, cp: nat)
    requires cp <= 0x10ffff
    ensures var found := Lookup(Compiled(get, eql, map[]), cp);
            found.Some? && (found.value == get(cp) || eql(found.value, get(cp)))
  {
    hide Elements, IndexAt, NewRows, Flatten, Offset;
    StageTwoAt(get, eql, cp);
    IndexLeadsBack(get, eql, cp, LAST + 1);
  }

  // ---------- The tables are compact ----------

  lemma {:induction false} ElementsDiffer<E>(get: Get<E>, eql: Eql<E>, n: nat, i: nat, j: nat)
    requires i < j < |Elements(get, eql, n)|
    ensures var items := Elements(get, eql, n); !eql(items[i], items[j])
  {
    if n > 0 && j < |Elements(get, eql, n - 1)| { ElementsDiffer(get, eql, n - 1, i, j); }
  }

  lemma {:induction false} NewRowsDiffer<E>(get: Get<E>, eql: Eql<E>, known: set<Block>, n: nat, i: nat, j: nat)
    requires i < j < |NewRows(get, eql, known, n)|
    ensures var rows := NewRows(get, eql, known, n); rows[i] != rows[j]
  {
    if n > 0 && j < |NewRows(get, eql, known, n - 1)| { NewRowsDiffer(get, eql, known, n - 1, i, j); }
  }

  lemma {:induction false} NewRowsAreRows<E>(get: Get<E>, eql: Eql<E>, known: set<Block>, n: nat, i: nat)
    requires i < |NewRows(get, eql, known, n)|
    ensures exists b :: 0 <= b < n && NewRows(get, eql, known, n)[i] == Row(get, eql, b)
  {
    if i < |NewRows(get, eql, known, n - 1)| {
      NewRowsAreRows(get, eql, known, n - 1, i);
    } else {
      assert NewRows(get, eql, known, n)[i] == Row(get, eql, n - 1);
    }
  }

  ghost predicate IsRow<E>(get: Get<E>, eql: Eql<E>, block: Block) {
    exists b :: 0 <= b < ROWS && block == Row(get, eql, b)
  }

  /** Block `i` of the second stage. */
  function BlockOf(stage2: seq<nat>, i: nat): Block
    requires BLOCK * (i + 1) <= |stage2|
  {
    stage2[BLOCK * i..BLOCK * (i + 1)]
  }

  /** The blocks of the second stage are pairwise distinct, and each is the row of some code
      points; the elements of the third stage are pairwise unequal. */
  lemma TablesAreCompact<E>(get: Get<E>, eql: Eql<E>) returns (blocks: nat)
    ensures var t := Compiled(get, eql, map[]);
            && |t.stage1| == 4352 && |t.stage2| == 256 * blocks
            && (forall i, j | 0 <= i < j < blocks :: BlockOf(t.stage2, i) != BlockOf(t.stage2, j))
            && (forall i | 0 <= i < blocks :: IsRow(get, eql, BlockOf(t.stage2, i)))
            && (forall i, j | 0 <= i < j < |t.stage3| :: !eql(t.stage3[i], t.stage3[j]))
  {
    hide Elements, IndexAt, Row, NewRows, Flatten, Offset, BlockOf;
    var known: map<Block, nat> := map[];
    assert known.Keys == {};
    var rows, t := NewRows(get, eql, {}, ROWS), Compiled(get, eql, map[]);
    FlattenLength(rows);
    forall i | 0 <= i < |rows|
      ensures BlockOf(t.stage2, i) == rows[i]
      ensures IsRow(get, eql, BlockOf(t.stage2, i))
    {
      BlockAt(rows, i);
      NewRowsAreRows(get, eql, {}, ROWS, i);
    }
    forall i, j | 0 <= i < j < |rows| ensures rows[i] != rows[j] { NewRowsDiffer(get, eql, {}, ROWS, i, j); }
    forall i, j | 0 <= i < j < |t.stage3| ensures !eql(t.stage3[i], t.stage3[j]) {
      ElementsDiffer(get, eql, LAST + 1, i, j);
    }
    blocks := |rows|;
  }

  lemma {:induction false} BlockAt(rows: seq<Block>, i: nat)
    requires (forall k | 0 <= k < |rows| :: |rows[k]| == BLOCK) && i < |rows|
    ensures |Flatten(rows)| == BLOCK * |rows| && BlockOf(Flatten(rows), i) == rows[i]
  {
    FlattenLength(rows);
    forall j | 0 <= j < BLOCK ensures Flatten(rows)[BLOCK * i + j] == rows[i][j] { FlattenAt(rows, i, j); }
  }

  /** A generator that has run before knows every block, so it emits no second stage at all. */
  lemma ReusedGeneratorForgets<E>(get: Get<E>, eql: Eql<E>, known: map<Block, nat>)
    requires forall b | 0 <= b < ROWS :: Row(get, eql, b) in known
    ensures Compiled(get, eql, known).stage2 == []
  {
    NothingNew(get, eql, known.Keys, ROWS);
  }

  lemma {:induction false} NothingNew<E>(get: Get<E>, eql: Eql<E>, known: set<Block>, n: nat)
    requires forall b | 0 <= b < n :: Row(get, eql, b) in known
    ensures NewRows(get, eql, known, n) == []
  {
    if n > 0 { NothingNew(get, eql, known, n - 1); }
  }

  // ---------- Bits ----------

  /** `(word & (1 << k)) != 0` */
  predicate Bit(word: nat, k: nat) { if k == 0 then word % 2 == 1 else Bit(word / 2, k - 1) }

  /** `word | (1 << k)` */
  function SetBit(word: nat, k: nat): nat {
    if k == 0 then (if word % 2 == 1 then word else word + 1)
    else 2 * SetBit(word / 2, k - 1) + word % 2
  }

  lemma {:induction false} SetBitSets(word: nat, k: nat, i: nat)
    ensures Bit(SetBit(word, k), i) <==> i == k || Bit(word, i)
    decreases k
  {
    if k > 0 && i > 0 { SetBitSets(word / 2, k - 1, i - 1); }
  }

  lemma {:induction false} ZeroHasNoBits(i: nat)
    ensures !Bit(0, i)
  {
    if i > 0 { ZeroHasNoBits(i - 1); }
  }

  function Pow2(n: nat): (p: nat)
    ensures p > 0
  {
    if n == 0 then 1 else 2 * Pow2(n - 1)
  }

  lemma {:induction false} SetBitFits(word: nat, k: nat, n: nat)
    requires k < n && word < Pow2(n)
    ensures SetBit(word, k) < Pow2(n)
  {
    var half := Pow2(n - 1);
    assert Pow2(n) == 2 * half;
    hide Pow2;
    assert word == 2 * (word / 2) + word % 2 && word / 2 < half;
    if k > 0 {
      SetBitFits(word / 2, k - 1, n - 1);
      assert SetBit(word, k) == 2 * SetBit(word / 2, k - 1) + word % 2;
    }
  }

  /** The words hold the bits, 64 to a word, and the bits past the end are clear. */
  ghost predicate Packs(words: seq<nat>, bits: seq<nat>) {
    && |words| == (|bits| + 63) / 64
    && (forall i | 0 <= i < |words| :: words[i] < Pow2(64))
    && forall i, k | 0 <= i < |words| && 0 <= k < 64 ::
         Bit(words[i], k) <==> 64 * i + k < |bits| && bits[64 * i + k] != 0
  }

  /** The emitted function. */
  function EmittedLookup(stage1: seq<nat>, words: seq<nat>, cp: nat): bool {
    if cp > LAST || cp / BLOCK >= |stage1| then false
    else
      var bitPos := stage1[cp / BLOCK] + cp % BLOCK;
      bitPos / 64 < |words| && Bit(words[bitPos / 64], bitPos % 64)
  }

  function Same(a: bool, b: bool): bool { a == b }

  lemma {:induction false} BooleanIndex(check: Get<bool>, cp: nat, n: nat)
    requires cp <= n && n > 0
    ensures check(cp) == check(0) <==> IndexAt(check, Same, cp) == 0
  {
    if cp > 0 {
      ElementsGrow(check, Same, 1, cp);
      assert Elements(check, Same, 1) == [check(0)];
    }
  }

  /** The emitted lookup tells whether the predicate differs from its value at code point 0. */
  lemma EmittedComparesWithZero(check: Get<bool>, words: seq<nat>, cp: nat)
    requires Packs(words, Compiled(check, Same, map[]).stage2) && cp <= 0x10ffff
    ensures EmittedLookup(Compiled(check, Same, map[]).stage1, words, cp) <==> check(cp) != check(0)
  {
    hide Elements, IndexAt, NewRows, Flatten, Offset, Row;
    StageTwoAt(check, Same, cp);
    BooleanIndex(check, cp, cp + 1);
    var t := Compiled(check, Same, map[]);
    var at := t.stage1[cp / BLOCK] + cp % BLOCK;
    assert at == 64 * (at / 64) + at % 64;
  }

  /** Past the last code point it is false. */
  lemma EmittedEnds(stage1: seq<nat>, words: seq<nat>, cp: nat)
    requires cp > 0x10ffff
    ensures !EmittedLookup(stage1, words, cp)
  {
  }

  /** The emitted lookup is the predicate if and only if the predicate is false at code point 0. */
  lemma EmittedIsPredicate(check: Get<bool>, words: seq<nat>)
    requires Packs(words, Compiled(check, Same, map[]).stage2)
    ensures var stage1 := Compiled(check, Same, map[]).stage1;
            (forall cp | 0 <= cp <= 0x10ffff :: EmittedLookup(stage1, words, cp) == check(cp)) <==> !check(0)
  {
    hide Compiled, Packs, EmittedLookup;
    var stage1 := Compiled(check, Same, map[]).stage1;
    forall cp | 0 <= cp <= LAST ensures EmittedLookup(stage1, words, cp) <==> check(cp) != check(0) {
      EmittedComparesWithZero(check, words, cp);
    }
    assert !EmittedLookup(stage1, words, 0);
  }
}
