/** The tokens that are read, against the tables of the MessagePack specification, with the error for
    everything else. */
module ReadTables {
  import opened SchemaGraph
  import opened MsgPack
  import opened Codec
  import opened TokenTables

  // ---------- The table ----------

  /** The first bytes that the decoder does not know: 0xc1, the bin formats, float 32 and the exts. */
  predicate Unknown(b: Byte) { b == 0xc1 || 0xc4 <= b <= 0xca || 0xd4 <= b <= 0xd8 }

  predicate Texts(b: Byte) { 0xa0 <= b <= 0xbf || 0xd9 <= b <= 0xdb }

  /** The number of bytes of the number that follows a first byte. */
  function Width(b: Byte): nat {
    if b in [0xcc, 0xd0, 0xd9] then 1
    else if b in [0xcd, 0xd1, 0xda, 0xdc, 0xde] then 2
    else if b in [0xce, 0xd2, 0xdb, 0xdd, 0xdf] then 4
    else if b in [0xcf, 0xd3, 0xcb] then 8
    else 0
  }

  /** A number of `width` bytes in two's complement. */
  function Complement(width: nat, n: nat): int {
    if width == 1 then if n < 128 then n else n - 256
    else if width == 2 then if n < 32768 then n else n - 65536
    else if width == 4 then if n < 2147483648 then n else n - 4294967296
    else if n < 9223372036854775808 then n else n - 18446744073709551616
  }

  /** `head` is what first byte `b` means with the number `n` after it. */
  predicate Means(b: Byte, n: nat, head: Head) {
    if b <= 0x7f then head == HeadPrim(Num(b))
    else if b <= 0x8f then head == HeadMap(b - 0x80)
    else if b <= 0x9f then head == HeadArr(b - 0x90)
    else if b == 0xc0 then head == HeadPrim(Null)
    else if b <= 0xc3 then head == HeadPrim(Bool(b == 0xc3))
    else if b == 0xcb then head.HeadPrim? && head.prim.Float? && Spelled(head.prim.bits) == n
    else if b <= 0xce then head.HeadPrim? && head.prim.Num? && head.prim.n == n
    else if b == 0xcf then head == HeadPrim(Big(n))
    else if b <= 0xd2 then head.HeadPrim? && head.prim.Num? && head.prim.n == Complement(Width(b), n)
    else if b == 0xd3 then head == HeadPrim(Big(Complement(8, n)))
    else if b <= 0xdd then head.HeadArr? && head.n == n
    else if b <= 0xdf then head.HeadMap? && head.n == n
    else head == HeadPrim(Num(b - 256))
  }

  // ---------- Tokens ----------

  lemma {:induction false} PairIsRead(s: seq<Byte>, pair: seq<Byte>)
    requires |pair| == 2
    ensures Spelled(s + pair) == Spelled(s) * 65536 + Un16(pair)
  {
    hide Spelled;
    TwoMore(s, pair[0], pair[1]);
    assert pair == [pair[0], pair[1]];
  }

  lemma {:induction false} QuadIsRead(s: seq<Byte>, quad: seq<Byte>)
    requires |quad| == 4
    ensures Spelled(s + quad) == Spelled(s) * 4294967296 + Un32(quad)
  {
    hide Spelled, Un16;
    PairIsRead(s, quad[..2]);
    PairIsRead(s + quad[..2], quad[2..]);
    assert s + quad == s + quad[..2] + quad[2..];
  }

  lemma {:induction false} OctetsAreRead(s: seq<Byte>)
    requires |s| == 8
    ensures Spelled(s) == Un64(s)
  {
    hide Spelled, Un32;
    QuadIsRead([], s[..4]);
    QuadIsRead(s[..4], s[4..]);
    assert [] + s[..4] == s[..4] && s == s[..4] + s[4..];
    NothingSpelled();
  }

  lemma NothingSpelled()
    ensures Spelled([]) == 0
  {
  }

  lemma {:induction false} Reading(s: seq<Byte>)
    ensures |s| == 1 ==> Spelled(s) == s[0]
    ensures |s| == 2 ==> Spelled(s) == Un16(s)
    ensures |s| == 4 ==> Spelled(s) == Un32(s)
    ensures |s| == 8 ==> Spelled(s) == Un64(s)
  {
    NothingSpelled();
    hide Spelled, Un16, Un32, Un64;
    assert [] + s == s;
    if |s| == 1 {
      OneByte(s[0]);
      assert s == [s[0]];
    } else if |s| == 2 {
      PairIsRead([], s);
    } else if |s| == 4 {
      QuadIsRead([], s);
    } else if |s| == 8 {
      OctetsAreRead(s);
    }
  }

  /** Every token but a text. */
  lemma HeadIsRead(bs: seq<Byte>)
    requires bs != [] && !Texts(bs[0])
    ensures var b, tail, r := bs[0], bs[1..], ReadHead(bs);
            if Unknown(b) then r == Bad(BadToken)
            else if |tail| < Width(b) then r == Bad(EndOfStream)
            else r.Got? && Means(b, Spelled(tail[..Width(b)]), r.val) && r.rest == tail[Width(b)..]
  {
    var b, tail := bs[0], bs[1..];
    if |tail| >= Width(b) {
      Reading(tail[..Width(b)]);
      hide Spelled, Un16, Un32, Un64;
    }
  }

  /** The length that a text announces. */
  function Length(b: Byte, tail: seq<Byte>): nat
    requires |tail| >= Width(b)
  {
    if b <= 0xbf then b % 0x20 else Spelled(tail[..Width(b)])
  }

  lemma LengthIsRead(b: Byte, tail: seq<Byte>)
    requires Texts(b)
    ensures if |tail| < Width(b) then ReadStrLength(b, tail) == Bad(EndOfStream)
            else
              var r := ReadStrLength(b, tail);
              r.Got? && r.val == Length(b, tail) && r.rest == tail[Width(b)..]
  {
    if |tail| >= Width(b) {
      Reading(tail[..Width(b)]);
      hide Spelled, Un16, Un32;
    }
  }

  /** The length of a text, and the text. */
  lemma TextIsRead(bs: seq<Byte>)
    requires bs != [] && Texts(bs[0])
    ensures var b, tail, r := bs[0], bs[1..], ReadKey(bs);
            if |tail| < Width(b) || |tail| - Width(b) < Length(b, tail) then r == Bad(EndOfStream)
            else
              var rest, n := tail[Width(b)..], Length(b, tail);
              r.Got? && r.val == rest[..n] && r.rest == rest[n..]
  {
    LengthIsRead(bs[0], bs[1..]);
    hide Length, Width, ReadStrLength, Texts;
  }

  /** A text is read as a value just as it is read as a key. */
  lemma TextIsValue(bs: seq<Byte>)
    requires bs != [] && Texts(bs[0])
    ensures ReadHead(bs) == if ReadKey(bs).Got? then Got(HeadPrim(Str(ReadKey(bs).val)), ReadKey(bs).rest)
                            else Bad(ReadKey(bs).fault)
  {
    hide ReadStr;
  }

  /** A key is a text. */
  lemma KeyIsText(bs: seq<Byte>)
    ensures bs == [] ==> ReadHead(bs) == Bad(EndOfStream) && ReadKey(bs) == Bad(EndOfStream)
    ensures bs != [] && !Texts(bs[0]) ==> ReadKey(bs) == Bad(BadKey)
  {
  }

  // ---------- Backreferences ----------

  /** The bytes before the payload of a backreference: a fixext 1 to 8 or an ext 8, whose length byte
      may be any, of type 0x50. */
  predicate Opening(s: seq<Byte>) {
    || (|s| == 2 && 0xd4 <= s[0] <= 0xd7 && s[1] == 0x50)
    || (|s| == 3 && s[0] == 0xc7 && s[2] == 0x50)
  }

  /** `payload` is a format of the unsigned number `n`, not necessarily the shortest. */
  predicate AnyUint(payload: seq<Byte>, n: nat) {
    || (n <= 127 && payload == [n])
    || Token(payload, 0xcc, 1, n)
    || Token(payload, 0xcd, 2, n)
    || Token(payload, 0xce, 4, n)
  }

  /** Every spelling of a backreference is read. */
  lemma ReferenceIsRead(opening: seq<Byte>, payload: seq<Byte>, n: nat, rest: seq<Byte>)
    requires Opening(opening) && AnyUint(payload, n)
    ensures MaybeRef(opening + (payload + rest)) == RefTo(n, rest)
  {
    var body, tail := payload + rest, payload[1..];
    assert (opening + body)[|opening|..] == body && body[0] == payload[0] && body[1..] == tail + rest;
    assert forall i | 0 <= i < |opening| :: (opening + body)[i] == opening[i];
    Reading(tail);
    TakeBack(tail, rest);
    hide Spelled, Un16, Un32;
  }

  /** And nothing else is: what is read was spelled in one of these ways. */
  lemma ReadIsReference(bs: seq<Byte>) returns (opening: seq<Byte>, payload: seq<Byte>)
    requires MaybeRef(bs).RefTo?
    ensures Opening(opening) && AnyUint(payload, MaybeRef(bs).index) && bs == opening + (payload + MaybeRef(bs).rest)
  {
    var k := if bs[0] == 0xc7 then 3 else 2;
    var width, rest := Width(bs[k]), MaybeRef(bs).rest;
    opening, payload := bs[..k], bs[k..][..1 + width];
    Reading(payload[1..]);
    assert bs[k..][1..][..width] == payload[1..];
    hide Spelled, Un16, Un32;
  }

  /** The errors: another type, a payload that is no unsigned number, and the end of the input. */
  lemma ReferenceErrors(bs: seq<Byte>)
    ensures bs == [] ==> MaybeRef(bs) == RefBad(EndOfStream)
    ensures bs != [] ==> (MaybeRef(bs) == NoRef <==> bs[0] !in [0xd4, 0xd5, 0xd6, 0xd7, 0xc7])
    ensures bs != [] && MaybeRef(bs) != NoRef ==>
              var k := if bs[0] == 0xc7 then 2 else 1;
              && (MaybeRef(bs) == RefBad(BadExt) <==>
                    || (|bs| > k && bs[k] != 0x50)
                    || (|bs| > k + 1 && bs[k] == 0x50 && bs[k + 1] >= 0x80 && bs[k + 1] !in [0xcc, 0xcd, 0xce]))
              && (MaybeRef(bs) == RefBad(EndOfStream) <==>
                    || |bs| <= k
                    || (bs[k] == 0x50 && |bs| == k + 1)
                    || (bs[k] == 0x50 && bs[k + 1] in [0xcc, 0xcd, 0xce] && |bs| < k + 2 + Width(bs[k + 1])))
  {
    hide Un16, Un32;
  }

  /** Where no declaration is entered, an ext fails: as misplaced if it is a backreference or of a length
      that is not probed, and otherwise as the malformed backreference that it is. */
  lemma {:induction false} StrayReferenceFails(reg: Registry, rank: map<Id, nat>, p: Route, d: Progress, s: Position)
    requires Guarded(reg, rank) && p.rawDepth <= 1025 && !IsBoundary(s) && d.bs != []
    requires d.bs[0] in [0xd4, 0xd5, 0xd6, 0xd7, 0xd8, 0xc7, 0xc8, 0xc9]
    ensures var r := MaybeRef(d.bs);
            DecVal(reg, rank, p, d, s, None) == Failed(if r.RefBad? then r.fault else MisplacedRef, d.built)
  {
    hide MaybeRef, DecDecl, DecFill;
  }

  /** At a declaration, a malformed backreference fails as such, and anything but a backreference fails
      beyond the cap on nesting. */
  lemma {:induction false} EntryFails(reg: Registry, rank: map<Id, nat>, p: Route, d: Progress, id: Id, viaRef: bool)
    requires Guarded(reg, rank) && id in reg && p.rawDepth <= 1025
    ensures var o, r := DecDecl(reg, rank, p, d, id, viaRef), MaybeRef(d.bs);
            && (r.RefBad? ==> o == Failed(r.fault, d.built))
            && (r.NoRef? && viaRef
                && ((reg[id].depth.AtMost? && p.depths[id] >= reg[id].depth.cap)
                    || (reg[id].depth.DefaultDepth? && reg[id].hasRefs && p.depths[id] >= 128)) ==>
                  o == Failed(TooDeep(id), d.built))
  {
    hide MaybeRef, DecVal;
  }

  /** A name without a declaration fails. */
  lemma {:induction false} NameFails(reg: Registry, rank: map<Id, nat>, p: Route, d: Progress, s: Position)
    requires Guarded(reg, rank) && p.rawDepth <= 1025 && IsBoundary(s) && s.value.target !in reg
    ensures DecVal(reg, rank, p, d, s, None) == Failed(NoSuchSchema(s.value.target), d.built)
  {
  }
}
