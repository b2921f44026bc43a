/** The table generator as it runs: one pass over the code points, a block at a time. */
module UnicodeRun {
  import opened SchemaGraph
  import opened UnicodeTables

  datatype Generated<E> = Ok(tables: Tables<E>) | BlockIndexTooLarge | Stage2IndexTooLarge

  /** The map knows the blocks it started with and the new rows, by their offsets. */
  ghost predicate Mapped(blockMap: map<Block, nat>, known: map<Block, nat>, rows: seq<Block>) {
    && (forall row :: row in blockMap <==> row in known || row in rows)
    && (forall row | row in known :: row in blockMap && blockMap[row] == known[row])
    && (forall row | row in rows :: row in blockMap && row !in known && blockMap[row] == BLOCK * Position(rows, row))
  }

  /** The first two stages after `b` rows. */
  ghost predicate Staged<E>(get: Get<E>, eql: Eql<E>, known: map<Block, nat>, b: nat, stage1: seq<nat>,
                            stage2: seq<nat>, blockMap: map<Block, nat>) {
    && b <= ROWS && |stage1| == b
    && (forall i | 0 <= i < b :: stage1[i] == Offset(get, eql, known, i) <= 0xffff)
    && stage2 == Flatten(NewRows(get, eql, known.Keys, b))
    && Mapped(blockMap, known, NewRows(get, eql, known.Keys, b))
  }

  lemma {:induction false} PositionIn(rows: seq<Block>, more: seq<Block>, row: Block)
    requires row in rows
    ensures row in rows + more && Position(rows + more, row) == Position(rows, row)
  {
    if rows[0] != row {
      assert (rows + more)[1..] == rows[1..] + more;
      PositionIn(rows[1..], more, row);
    }
  }

  lemma {:induction false} PositionLast(rows: seq<Block>, row: Block)
    requires row !in rows
    ensures Position(rows + [row], row) == |rows|
  {
    if rows != [] {
      assert (rows + [row])[1..] == rows[1..] + [row];
      PositionLast(rows[1..], row);
    }
  }

  lemma {:induction false} RowsGrow<E>(get: Get<E>, eql: Eql<E>, known: set<Block>, m: nat, n: nat)
    requires m <= n
    ensures NewRows(get, eql, known, m) <= NewRows(get, eql, known, n)
  {
    if m < n { RowsGrow(get, eql, known, m, n - 1); }
  }

  /** A row keeps its position once it has one. */
  lemma {:induction false} OffsetSettles<E>(get: Get<E>, eql: Eql<E>, known: map<Block, nat>, b: nat)
    requires b < ROWS
    ensures var row, rows := Row(get, eql, b), NewRows(get, eql, known.Keys, b + 1);
            row !in known ==> row in rows && Offset(get, eql, known, b) == BLOCK * Position(rows, row)
  {
    hide Row, NewRows, Position;
    var rows, all := NewRows(get, eql, known.Keys, b + 1), NewRows(get, eql, known.Keys, ROWS);
    RowsGrow(get, eql, known.Keys, b + 1, ROWS);
    NewRowsCover(get, eql, known.Keys, b + 1, b);
    assert all == rows + all[|rows|..];
    if Row(get, eql, b) !in known { PositionIn(rows, all[|rows|..], Row(get, eql, b)); }
  }

  lemma OldRow<E>(get: Get<E>, eql: Eql<E>, known: map<Block, nat>, b: nat, blockMap: map<Block, nat>)
    requires b < ROWS && Mapped(blockMap, known, NewRows(get, eql, known.Keys, b)) && Row(get, eql, b) in blockMap
    ensures NewRows(get, eql, known.Keys, b + 1) == NewRows(get, eql, known.Keys, b)
    ensures blockMap[Row(get, eql, b)] == Offset(get, eql, known, b)
  {
    hide Row, Offset;
    OffsetSettles(get, eql, known, b);
    if Row(get, eql, b) in known { KnownOffset(get, eql, known, b); }
  }

  lemma KnownOffset<E>(get: Get<E>, eql: Eql<E>, known: map<Block, nat>, b: nat)
    requires b < ROWS && Row(get, eql, b) in known
    ensures Offset(get, eql, known, b) == known[Row(get, eql, b)]
  {
  }

  lemma NewRow<E>(get: Get<E>, eql: Eql<E>, known: map<Block, nat>, b: nat, blockMap: map<Block, nat>)
    requires b < ROWS && Mapped(blockMap, known, NewRows(get, eql, known.Keys, b)) && Row(get, eql, b) !in blockMap
    ensures var row, rows := Row(get, eql, b), NewRows(get, eql, known.Keys, b);
            && NewRows(get, eql, known.Keys, b + 1) == rows + [row]
            && Flatten(rows + [row]) == Flatten(rows) + row && |Flatten(rows)| == BLOCK * |rows|
            && Offset(get, eql, known, b) == BLOCK * |rows|
            && Mapped(blockMap[row := BLOCK * |rows|], known, rows + [row])
  {
    hide Row, Offset, Position, Mapped;
    var row, rows := Row(get, eql, b), NewRows(get, eql, known.Keys, b);
    MapRow(blockMap, known, rows, row);
    OffsetSettles(get, eql, known, b);
    PositionLast(rows, row);
    FlattenLength(rows);
    assert (rows + [row])[..|rows|] == rows;
  }

  lemma MapRow(blockMap: map<Block, nat>, known: map<Block, nat>, rows: seq<Block>, row: Block)
    requires Mapped(blockMap, known, rows) && row !in blockMap
    ensures row !in known && row !in rows && Mapped(blockMap[row := BLOCK * |rows|], known, rows + [row])
  {
    hide Position;
    PositionLast(rows, row);
    forall r | r in rows ensures r in rows + [row] && Position(rows + [row], r) == Position(rows, r) {
      PositionIn(rows, [row], r);
    }
  }

  class Generator {
    var blockMap: map<Block, nat>

    constructor ()
      ensures blockMap == map[]
    {
      blockMap := map[];
    }

    /** Looks a finished block up by its content, and stores it if it is new. */
    method AddBlock<E>(ghost get: Get<E>, ghost eql: Eql<E>, ghost known: map<Block, nat>, ghost b: nat, block: Block,
                       stage1: seq<nat>, stage2: seq<nat>)
      returns (stage1': seq<nat>, stage2': seq<nat>, fits: bool)
      requires b < ROWS && Staged(get, eql, known, b, stage1, stage2, blockMap) && block == Row(get, eql, b)
      modifies this
      ensures fits ==> Staged(get, eql, known, b + 1, stage1', stage2', blockMap)
      ensures !fits ==> Offset(get, eql, known, b) > 0xffff
    {
      hide Row, Offset, NewRows, Flatten, Mapped;
      stage1', stage2' := stage1, stage2;
      var index: nat;
      if block in blockMap {
        OldRow(get, eql, known, b, blockMap);
        index := blockMap[block];
      } else {
        NewRow(get, eql, known, b, blockMap);
        index := |stage2|;
        blockMap := blockMap[block := index];
        stage2' := stage2 + block;
      }
      if index > 0xffff { return stage1', stage2', false; }
      stage1' := stage1 + [index];
      fits := true;
    }

    /** Finds or adds the element of a code point. */
    method Number<E>(get: Get<E>, eql: Eql<E>, cp: nat, stage3: seq<E>) returns (stage3': seq<E>, index: nat)
      requires stage3 == Elements(get, eql, cp)
      ensures stage3' == Elements(get, eql, cp + 1) && index == IndexAt(get, eql, cp) < |stage3'|
      ensures |stage3'| <= |stage3| + 1 && (|stage3'| > |stage3| ==> index == |stage3|)
    {
      hide Find;
      var elem := get(cp);
      index := Find(stage3, eql, elem);
      stage3' := if index == |stage3| then stage3 + [elem] else stage3;
    }

    /** Numbers one code point, and writes the number into the block. */
    method PutIndex<E>(get: Get<E>, eql: Eql<E>, cp: nat, block: array<nat>, blockLen: nat, stage3: seq<E>)
      returns (stage3': seq<E>, fits: bool)
      requires cp <= LAST && block.Length == BLOCK && blockLen == cp % BLOCK
      requires blockLen > 0 ==> block[..blockLen] == Row(get, eql, cp / BLOCK)[..blockLen]
      requires stage3 == Elements(get, eql, cp) && |stage3| <= 0x1_0000
      modifies block
      ensures fits ==> block[..blockLen + 1] == Row(get, eql, cp / BLOCK)[..blockLen + 1]
      ensures fits ==> stage3' == Elements(get, eql, cp + 1) && |stage3'| <= 0x1_0000
      ensures !fits ==> |Elements(get, eql, cp + 1)| > 0x1_0000
    {
      hide Elements, IndexAt, Row;
      ghost var row := Row(get, eql, cp / BLOCK);
      var index: nat;
      stage3', index := Number(get, eql, cp, stage3);
      fits := index <= 0xffff;
      if fits {
        RowAt(get, eql, cp);
        block[blockLen] := index;
        assert block[..blockLen + 1] == block[..blockLen] + [index] == row[..blockLen] + [row[blockLen]];
      }
    }

    /** The tables, or the error that an index does not fit 16 bits. */
    method Generate<E>(get: Get<E>, eql: Eql<E>) returns (r: Generated<E>)
      modifies this
      ensures match r
              case Ok(t) =>
                && t == Compiled(get, eql, old(blockMap)) && |t.stage3| <= 0x1_0000
                && forall b | 0 <= b < ROWS :: t.stage1[b] <= 0xffff && Row(get, eql, b) in blockMap
              case BlockIndexTooLarge => |Compiled(get, eql, old(blockMap)).stage3| > 0x1_0000
              case Stage2IndexTooLarge => exists b :: 0 <= b < ROWS && Offset(get, eql, old(blockMap), b) > 0xffff
    {
      hide Offset, NewRows, Flatten, Find, Row, Elements, IndexAt, Compiled;
      ghost var known := blockMap;
      var stage1: seq<nat>, stage2: seq<nat>, stage3: seq<E> := [], [], [];
      var block := new nat[BLOCK](_ => 0);
      var blockLen := 0;
      Nothing(get, eql, known);
      for cp := 0 to LAST + 1
        invariant block.Length == BLOCK && fresh(block) && blockLen == cp % BLOCK
        invariant blockLen > 0 ==> block[..blockLen] == Row(get, eql, cp / BLOCK)[..blockLen]
        invariant stage3 == Elements(get, eql, cp) && |stage3| <= 0x1_0000
        invariant Staged(get, eql, known, cp / BLOCK, stage1, stage2, blockMap)
      {
        hide Staged;
        NextBlock(cp);
        ghost var row := Row(get, eql, cp / BLOCK);
        var fits: bool;
        stage3, fits := PutIndex(get, eql, cp, block, blockLen, stage3);
        if !fits {
          TooMany(get, eql, known, cp);
          return BlockIndexTooLarge;
        }
        blockLen := blockLen + 1;
        if blockLen < BLOCK && cp != LAST { continue; }
        // The last code point ends a block, so no block is ever padded.
        assert blockLen == BLOCK;
        assert block[..] == block[..BLOCK] == row[..BLOCK] == row;
        stage1, stage2, fits := AddBlock(get, eql, known, cp / BLOCK, block[..], stage1, stage2);
        if !fits { return Stage2IndexTooLarge; }
        block := new nat[BLOCK](_ => 0);
        blockLen := 0;
      }
      Everything(get, eql, known, stage1, stage2, stage3, blockMap);
      r := Ok(Tables(stage1, stage2, stage3));
    }
  }

  lemma Nothing<E>(get: Get<E>, eql: Eql<E>, known: map<Block, nat>)
    ensures Staged(get, eql, known, 0, [], [], known) && Elements(get, eql, 0) == []
  {
  }

  lemma NextBlock(cp: nat)
    ensures cp % BLOCK + 1 < BLOCK ==> (cp + 1) % BLOCK == cp % BLOCK + 1 && (cp + 1) / BLOCK == cp / BLOCK
    ensures cp % BLOCK + 1 == BLOCK ==> (cp + 1) % BLOCK == 0 && (cp + 1) / BLOCK == cp / BLOCK + 1
    ensures cp == LAST ==> cp % BLOCK + 1 == BLOCK
    ensures cp <= LAST ==> cp / BLOCK < ROWS
  {
  }

  lemma RowAt<E>(get: Get<E>, eql: Eql<E>, cp: nat)
    ensures Row(get, eql, cp / BLOCK)[cp % BLOCK] == IndexAt(get, eql, cp)
  {
    assert BLOCK * (cp / BLOCK) + cp % BLOCK == cp;
  }

  lemma Everything<E>(get: Get<E>, eql: Eql<E>, known: map<Block, nat>, stage1: seq<nat>, stage2: seq<nat>,
                      stage3: seq<E>, blockMap: map<Block, nat>)
    requires Staged(get, eql, known, ROWS, stage1, stage2, blockMap) && stage3 == Elements(get, eql, LAST + 1)
    ensures Tables(stage1, stage2, stage3) == Compiled(get, eql, known)
    ensures forall b | 0 <= b < ROWS :: stage1[b] <= 0xffff && Row(get, eql, b) in blockMap
  {
    hide Offset, NewRows, Flatten, Elements, Row;
    forall b | 0 <= b < ROWS ensures stage1[b] <= 0xffff && Row(get, eql, b) in blockMap {
      NewRowsCover(get, eql, known.Keys, ROWS, b);
    }
  }

  lemma TooMany<E>(get: Get<E>, eql: Eql<E>, known: map<Block, nat>, cp: nat)
    requires cp <= LAST && |Elements(get, eql, cp + 1)| > 0x1_0000
    ensures |Compiled(get, eql, known).stage3| > 0x1_0000
  {
    ElementsGrow(get, eql, cp + 1, LAST + 1);
    hide Elements;
  }

  // ---------- Packing ----------

  /** `bitsToU64Array` */
  method PackBits(bits: seq<nat>) returns (words: seq<nat>)
    ensures Packs(words, bits)
  {
    words := [];
    var i := 0;
    while i < |bits|
      invariant i == 64 * |words| && |words| <= (|bits| + 63) / 64
      invariant forall w | 0 <= w < |words| :: words[w] < Pow2(64)
      invariant forall w, k | 0 <= w < |words| && 0 <= k < 64 ::
                  Bit(words[w], k) <==> 64 * w + k < |bits| && bits[64 * w + k] != 0
    {
      hide Pow2, Bit;
      var word := PackWord(bits, i);
      words := words + [word];
      i := i + 64;
    }
  }

  method PackWord(bits: seq<nat>, i: nat) returns (value: nat)
    ensures value < Pow2(64)
    ensures forall k | 0 <= k < 64 :: Bit(value, k) <==> i + k < |bits| && bits[i + k] != 0
  {
    hide Pow2, Bit, SetBit;
    value := 0;
    var j := 0;
    forall k: nat ensures !Bit(0, k) { ZeroHasNoBits(k); }
    while j < 64 && i + j < |bits|
      invariant 0 <= j <= 64 && value < Pow2(64)
      invariant forall k: nat :: Bit(value, k) <==> k < j && i + k < |bits| && bits[i + k] != 0
    {
      if bits[i + j] != 0 {
        forall k: nat ensures Bit(SetBit(value, j), k) <==> k == j || Bit(value, k) { SetBitSets(value, j, k); }
        SetBitFits(value, j, 64);
        value := SetBit(value, j);
      }
      j := j + 1;
    }
  }

  lemma {:induction false} TwoElements(check: Get<bool>, n: nat)
    ensures |Elements(check, Same, n)| <= 2
    ensures |Elements(check, Same, n)| == 2 ==> Elements(check, Same, n)[0] != Elements(check, Same, n)[1]
  {
    if n > 0 { TwoElements(check, n - 1); }
  }

  /** The table that is emitted for a predicate.  It exists if and only if the distinct rows fit
      16-bit offsets, and it looks the predicate up if and only if the predicate is false at code
      point 0. */
  method GenerateTable(check: Get<bool>) returns (stage1: seq<nat>, words: seq<nat>, ok: bool)
    ensures ok <==> forall b | 0 <= b < ROWS :: Compiled(check, Same, map[]).stage1[b] <= 0xffff
    ensures ok ==> stage1 == Compiled(check, Same, map[]).stage1 && Packs(words, Compiled(check, Same, map[]).stage2)
    ensures ok ==> ((forall cp | 0 <= cp <= 0x10ffff :: EmittedLookup(stage1, words, cp) == check(cp)) <==> !check(0))
  {
    hide Packs, EmittedLookup, Offset, Elements, NewRows, Flatten, Row;
    var generator := new Generator();
    var r := generator.Generate(check, Same);
    TwoElements(check, LAST + 1);
    if !r.Ok? {
      ghost var b :| 0 <= b < ROWS && Offset(check, Same, map[], b) > 0xffff;
      assert Compiled(check, Same, map[]).stage1[b] > 0xffff;
      return [], [], false;
    }
    stage1, ok := r.tables.stage1, true;
    words := PackBits(r.tables.stage2);
    EmittedIsPredicate(check, words);
  }
}
