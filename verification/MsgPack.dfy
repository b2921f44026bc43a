/** The MessagePack tokens that the codec writes and reads: the int, str, array, map and ext
    format families of the MessagePack specification. */
module MsgPack {
  import opened SchemaGraph

  // ---------- Big-endian words ----------

  type Word16 = n: int | 0 <= n < 0x1_0000
  type Word32 = n: int | 0 <= n < 0x1_0000_0000
  type Word64 = n: int | 0 <= n < 0x1_0000_0000_0000_0000

  function Be16(n: Word16): seq<Byte> { [n / 0x100, n % 0x100] }
  function Be32(n: Word32): seq<Byte> { Be16(n / 0x1_0000) + Be16(n % 0x1_0000) }
  function Be64(n: Word64): seq<Byte> { Be32(n / 0x1_0000_0000) + Be32(n % 0x1_0000_0000) }

  function Un16(s: seq<Byte>): Word16
    requires |s| == 2
  {
    s[0] as int * 0x100 + s[1]
  }

  function Un32(s: seq<Byte>): Word32
    requires |s| == 4
  {
    Un16(s[..2]) as int * 0x1_0000 + Un16(s[2..])
  }

  function Un64(s: seq<Byte>): Word64
    requires |s| == 8
  {
    Un32(s[..4]) as int * 0x1_0000_0000 + Un32(s[4..])
  }

  lemma WordsInvert(a: Word16, b: Word32, c: Word64)
    ensures Un16(Be16(a)) == a && Un32(Be32(b)) == b && Un64(Be64(c)) == c
  {
    assert Be32(b)[..2] == Be16(b / 0x1_0000) && Be32(b)[2..] == Be16(b % 0x1_0000);
    var hi, lo := c / 0x1_0000_0000, c % 0x1_0000_0000;
    assert Be64(c)[..4] == Be32(hi) && Be64(c)[4..] == Be32(lo);
    assert Be32(hi)[..2] == Be16(hi / 0x1_0000) && Be32(hi)[2..] == Be16(hi % 0x1_0000);
    assert Be32(lo)[..2] == Be16(lo / 0x1_0000) && Be32(lo)[2..] == Be16(lo % 0x1_0000);
  }

  // ---------- Writing ----------

  /** The first token of a value: a whole primitive, or the header of a container. */
  datatype Head = HeadPrim(prim: Prim) | HeadArr(n: Word32) | HeadMap(n: Word32)

  function WriteNum(n: Int32): seq<Byte> {
    if n >= 0 then
      if n < 0x80 then [n]
      else if n < 0x100 then [0xcc, n]
      else if n < 0x1_0000 then [0xcd] + Be16(n)
      else [0xce] + Be32(n)
    else if n >= -32 then [0x100 + n]
    else if n >= -128 then [0xd0, 0x100 + n]
    else if n >= -32768 then [0xd1] + Be16(0x1_0000 + n)
    else [0xd2] + Be32(0x1_0000_0000 + n)
  }

  predicate BigFits(n: int) { -0x8000_0000_0000_0000 <= n < 0x1_0000_0000_0000_0000 }

  function WriteBig(n: int): seq<Byte>
    requires BigFits(n)
  {
    if n >= 0 then [0xcf] + Be64(n) else [0xd3] + Be64(0x1_0000_0000_0000_0000 + n)
  }

  function StrHead(n: Word32): seq<Byte> {
    if n < 32 then [0xa0 + n]
    else if n < 0x100 then [0xd9, n]
    else if n < 0x1_0000 then [0xda] + Be16(n)
    else [0xdb] + Be32(n)
  }

  function WriteStr(text: Text): seq<Byte> { StrHead(|text|) + text }

  /** A header with a short form for counts below 16. */
  function CountHead(fix: Byte, token16: Byte, token32: Byte, n: Word32): seq<Byte>
    requires fix <= 0xf0
  {
    if n < 16 then [fix + n]
    else if n < 0x1_0000 then [token16] + Be16(n)
    else [token32] + Be32(n)
  }

  predicate Writable(h: Head) { h.HeadPrim? && h.prim.Big? ==> BigFits(h.prim.big) }

  function WriteHead(h: Head): (bytes: seq<Byte>)
    requires Writable(h)
    ensures bytes != []
  {
    match h
    case HeadArr(n) => CountHead(0x90, 0xdc, 0xdd, n)
    case HeadMap(n) => CountHead(0x80, 0xde, 0xdf, n)
    case HeadPrim(p) =>
      match p
      case Undefined => [0xc0]
      case Null => [0xc0]
      case Bool(b) => [if b then 0xc3 else 0xc2]
      case Num(n) => WriteNum(n)
      case Float(bits) => [0xcb] + bits
      case Big(n) => WriteBig(n)
      case Str(text) => WriteStr(text)
  }

  // ---------- Reading ----------

  datatype Fault =
    | EndOfStream
    | BadToken
    | BadKey
    | BadExt
    | MisplacedRef
    | DanglingRef
    | CycleNotAllowed(id: Id)
    | CycleTooLong(id: Id)
    | TooDeep(id: Id)
    | TooNested
    | NoSuchSchema(id: Id)

  datatype Read<+T> = Got(val: T, rest: seq<Byte>) | Bad(fault: Fault)

  function Take(bs: seq<Byte>, n: nat): (r: Read<seq<Byte>>)
    ensures r.Got? ==> bs == r.val + r.rest && |r.val| == n
  {
    if |bs| < n then Bad(EndOfStream) else Got(bs[..n], bs[n..])
  }

  function Read8(bs: seq<Byte>): Read<Byte> {
    if bs == [] then Bad(EndOfStream) else Got(bs[0], bs[1..])
  }

  function Read16(bs: seq<Byte>): Read<Word16> {
    match Take(bs, 2)
    case Got(s, rest) => Got(Un16(s), rest)
    case Bad(f) => Bad(f)
  }

  function Read32(bs: seq<Byte>): Read<Word32> {
    match Take(bs, 4)
    case Got(s, rest) => Got(Un32(s), rest)
    case Bad(f) => Bad(f)
  }

  function Read64(bs: seq<Byte>): Read<Word64> {
    match Take(bs, 8)
    case Got(s, rest) => Got(Un64(s), rest)
    case Bad(f) => Bad(f)
  }

  /** The length that follows a `str` token. */
  function ReadStrLength(b: Byte, bs: seq<Byte>): Read<Word32> {
    if b / 0x20 == 5 then Got(b % 0x20, bs)
    else if b == 0xd9 then Read8(bs)
    else if b == 0xda then Read16(bs)
    else if b == 0xdb then Read32(bs)
    else Bad(BadKey)
  }

  predicate IsStrToken(b: Byte) { b / 0x20 == 5 || b == 0xd9 || b == 0xda || b == 0xdb }
  predicate IsArrToken(b: Byte) { b / 0x10 == 9 || b == 0xdc || b == 0xdd }
  predicate IsMapToken(b: Byte) { b / 0x10 == 8 || b == 0xde || b == 0xdf }
  predicate IsExtToken(b: Byte) { 0xd4 <= b <= 0xd8 || 0xc7 <= b <= 0xc9 }

  function ReadStr(b: Byte, bs: seq<Byte>): Read<Text> {
    match ReadStrLength(b, bs)
    case Bad(f) => Bad(f)
    case Got(n, rest) => Take(rest, n)
  }

  /** A map key: a `str` token and its bytes. */
  function ReadKey(bs: seq<Byte>): Read<Key> {
    match Read8(bs)
    case Bad(f) => Bad(f)
    case Got(b, rest) => ReadStr(b, rest)
  }

  function Count(b: Byte, token16: Byte, bs: seq<Byte>): Read<Word32> {
    if b < 0xa0 then Got(b % 0x10, bs)
    else if b == token16 then Read16(bs)
    else Read32(bs)
  }

  /** The two's complement reading of a word. */
  function Signed(x: int, span: int): int { if x >= span / 2 then x - span else x }

  /** The integer tokens with a payload. */
  function ReadWide(b: Byte, bs: seq<Byte>): Read<Prim>
    requires 0xcc <= b <= 0xd3
  {
    if b == 0xcf || b == 0xd3 then
      match Read64(bs)
      case Bad(f) => Bad(f)
      case Got(x, rest) => Got(Big(if b == 0xcf then x else Signed(x, 0x1_0000_0000_0000_0000)), rest)
    else if b == 0xce || b == 0xd2 then
      match Read32(bs)
      case Bad(f) => Bad(f)
      case Got(x, rest) => Got(Num(if b == 0xce then x else Signed(x, 0x1_0000_0000)), rest)
    else if b == 0xcd || b == 0xd1 then
      match Read16(bs)
      case Bad(f) => Bad(f)
      case Got(x, rest) => Got(Num(if b == 0xcd then x else Signed(x, 0x1_0000)), rest)
    else
      match Read8(bs)
      case Bad(f) => Bad(f)
      case Got(x, rest) => Got(Num(if b == 0xcc then x else Signed(x, 0x100)), rest)
  }

  /** A whole primitive token, after its first byte. */
  function ReadPrim(b: Byte, bs: seq<Byte>): Read<Prim> {
    if b == 0xc0 then Got(Null, bs)
    else if b == 0xc2 || b == 0xc3 then Got(Bool(b == 0xc3), bs)
    else if b < 0x80 then Got(Num(b), bs)
    else if b >= 0xe0 then Got(Num(b - 0x100), bs)
    else if 0xcc <= b <= 0xd3 then ReadWide(b, bs)
    else if b == 0xcb then
      match Take(bs, 8)
      case Bad(f) => Bad(f)
      case Got(bits, rest) => Got(Float(bits), rest)
    else if IsStrToken(b) then
      match ReadStr(b, bs)
      case Bad(f) => Bad(f)
      case Got(text, rest) => Got(Str(text), rest)
    else Bad(BadToken)
  }

  function ReadHead(bs: seq<Byte>): Read<Head> {
    match Read8(bs)
    case Bad(f) => Bad(f)
    case Got(b, s) =>
      if IsArrToken(b) then
        match Count(b, 0xdc, s)
        case Bad(f) => Bad(f)
        case Got(n, rest) => Got(HeadArr(n), rest)
      else if IsMapToken(b) then
        match Count(b, 0xde, s)
        case Bad(f) => Bad(f)
        case Got(n, rest) => Got(HeadMap(n), rest)
      else
        match ReadPrim(b, s)
        case Bad(f) => Bad(f)
        case Got(p, rest) => Got(HeadPrim(p), rest)
  }

  // ---------- What is written is read back ----------

  /** `undefined` has no token of its own. */
  function Normal(p: Prim): Prim { if p.Undefined? then Null else p }

  function NormalHead(h: Head): Head { if h.HeadPrim? then HeadPrim(Normal(h.prim)) else h }

  lemma TakeBack(s: seq<Byte>, rest: seq<Byte>)
    ensures Take(s + rest, |s|) == Got(s, rest)
  {
    assert (s + rest)[..|s|] == s && (s + rest)[|s|..] == rest;
  }

  lemma WordsBack(a: Word16, b: Word32, c: Word64, rest: seq<Byte>)
    ensures Read16(Be16(a) + rest) == Got(a, rest)
    ensures Read32(Be32(b) + rest) == Got(b, rest)
    ensures Read64(Be64(c) + rest) == Got(c, rest)
  {
    WordsInvert(a, b, c);
    TakeBack(Be16(a), rest);
    TakeBack(Be32(b), rest);
    TakeBack(Be64(c), rest);
  }

  lemma StrBack(text: Text, rest: seq<Byte>)
    ensures IsStrToken(StrHead(|text|)[0])
    ensures ReadKey(WriteStr(text) + rest) == Got(text, rest)
  {
    var n: Word32 := |text|;
    var head := StrHead(n);
    var tail := text + rest;
    assert WriteStr(text) + rest == head + tail;
    assert (head + tail)[1..] == head[1..] + tail;
    WordsBack(if n < 0x1_0000 then n else 0, n, 0, tail);
    assert ReadStrLength(head[0], head[1..] + tail) == Got(n, tail) by {
      if n < 32 {
        assert head[1..] + tail == tail;
      } else if n < 0x100 {
        assert head[1..] == [n] && ([n] + tail)[1..] == tail;
      } else if n < 0x1_0000 {
        assert head[1..] == Be16(n);
      } else {
        assert head[1..] == Be32(n);
      }
    }
    TakeBack(text, rest);
  }

  lemma CountBack(fix: Byte, token16: Byte, token32: Byte, n: Word32, rest: seq<Byte>)
    requires (fix == 0x90 && token16 == 0xdc && token32 == 0xdd) || (fix == 0x80 && token16 == 0xde && token32 == 0xdf)
    ensures var bs := CountHead(fix, token16, token32, n) + rest;
            Count(bs[0], token16, bs[1..]) == Got(n, rest)
  {
    var head := CountHead(fix, token16, token32, n);
    assert (head + rest)[1..] == head[1..] + rest;
    WordsBack(if n < 0x1_0000 then n else 0, n, 0, rest);
    if n < 16 {
      assert head[1..] + rest == rest;
    } else if n < 0x1_0000 {
      assert head[1..] == Be16(n);
    } else {
      assert head[1..] == Be32(n);
    }
  }

  /** `w` is the token of a primitive, and reads back as `p`. */
  ghost predicate ReadsBack(w: seq<Byte>, p: Prim, rest: seq<Byte>) {
    w != [] && !IsArrToken(w[0]) && !IsMapToken(w[0]) && ReadPrim(w[0], w[1..] + rest) == Got(p, rest)
  }

  lemma NumBack(n: Int32, rest: seq<Byte>)
    ensures ReadsBack(WriteNum(n), Num(n), rest)
  {
    if -32 <= n < 0x80 {
      assert WriteNum(n)[1..] + rest == rest;
    } else if -128 <= n < 0x100 {
      assert ([WriteNum(n)[1]] + rest)[1..] == rest;
      assert WriteNum(n)[1..] == [WriteNum(n)[1]];
    } else if -32768 <= n < 0x1_0000 {
      NumBack16(n, rest);
    } else {
      NumBack32(n, rest);
    }
  }

  lemma NumBack16(n: Int32, rest: seq<Byte>)
    requires -32768 <= n < -128 || 0x100 <= n < 0x1_0000
    ensures ReadsBack(WriteNum(n), Num(n), rest)
  {
    var half: Word16 := if n >= 0 then n else 0x1_0000 + n;
    assert WriteNum(n)[1..] == Be16(half);
    WordsBack(half, 0, 0, rest);
  }

  lemma NumBack32(n: Int32, rest: seq<Byte>)
    requires n < -32768 || 0x1_0000 <= n
    ensures ReadsBack(WriteNum(n), Num(n), rest)
  {
    var word: Word32 := if n >= 0 then n else 0x1_0000_0000 + n;
    assert WriteNum(n)[1..] == Be32(word);
    WordsBack(0, word, 0, rest);
  }

  lemma BigBack(n: int, rest: seq<Byte>)
    requires BigFits(n)
    ensures ReadsBack(WriteBig(n), Big(n), rest)
  {
    var word: Word64 := if n >= 0 then n else 0x1_0000_0000_0000_0000 + n;
    assert WriteBig(n)[1..] == Be64(word);
    WordsBack(0, 0, word, rest);
  }

  lemma TextBack(text: Text, rest: seq<Byte>)
    ensures ReadsBack(WriteStr(text), Str(text), rest)
  {
    StrBack(text, rest);
    var w := WriteStr(text);
    assert w[0] == StrHead(|text|)[0] && (w + rest)[0] == w[0] && (w + rest)[1..] == w[1..] + rest;
  }

  lemma PrimBack(p: Prim, rest: seq<Byte>)
    requires Writable(HeadPrim(p))
    ensures ReadsBack(WriteHead(HeadPrim(p)), Normal(p), rest)
  {
    hide ReadsBack, WriteNum, WriteBig, WriteStr;
    match p
    case Num(n) => NumBack(n, rest);
    case Big(n) => BigBack(n, rest);
    case Float(bits) => FloatBack(bits, rest);
    case Str(text) => TextBack(text, rest);
    case _ => OneByteBack(p, rest);
  }

  lemma FloatBack(bits: Float64, rest: seq<Byte>)
    ensures ReadsBack([0xcb] + bits, Float(bits), rest)
  {
    assert ([0xcb] + bits)[1..] == bits;
    TakeBack(bits, rest);
  }

  lemma OneByteBack(p: Prim, rest: seq<Byte>)
    requires p.Undefined? || p.Null? || p.Bool?
    ensures ReadsBack(WriteHead(HeadPrim(p)), Normal(p), rest)
  {
    assert WriteHead(HeadPrim(p))[1..] + rest == rest;
  }

  lemma ContainerBack(h: Head, rest: seq<Byte>)
    requires !h.HeadPrim?
    ensures ReadHead(WriteHead(h) + rest) == Got(h, rest)
    ensures if h.HeadArr? then IsArrToken(WriteHead(h)[0]) else IsMapToken(WriteHead(h)[0])
  {
    match h
    case HeadArr(n) => CountBack(0x90, 0xdc, 0xdd, n, rest);
    case HeadMap(n) => CountBack(0x80, 0xde, 0xdf, n, rest);
  }

  /** Every token is read back, consuming exactly its own bytes. */
  lemma HeadBack(h: Head, rest: seq<Byte>)
    requires Writable(h)
    ensures ReadHead(WriteHead(h) + rest) == Got(NormalHead(h), rest)
  {
    hide ReadPrim, Count;
    if h.HeadPrim? {
      PrimBack(h.prim, rest);
      var w := WriteHead(h);
      assert (w + rest)[0] == w[0] && (w + rest)[1..] == w[1..] + rest;
    } else {
      ContainerBack(h, rest);
    }
  }
}
