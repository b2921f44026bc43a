/** The tokens that are written, against the tables of the MessagePack specification and not against
    the reader. */
module TokenTables {
  import opened SchemaGraph
  import opened MsgPack
  import opened Codec

  /** The number that bytes spell, the most significant first. */
  function Spelled(bytes: seq<Byte>): nat {
    if bytes == [] then 0 else Spelled(bytes[..|bytes| - 1]) * 256 + bytes[|bytes| - 1]
  }

  /** A token with first byte `first` and a payload that spells `n` in `width` bytes. */
  predicate Token(bytes: seq<Byte>, first: Byte, width: nat, n: int) {
    |bytes| == width + 1 && bytes[0] == first && Spelled(bytes[1..]) == n
  }

  lemma {:induction false} OneMore(s: seq<Byte>, b: Byte)
    ensures Spelled(s + [b]) == Spelled(s) * 256 + b
  {
    assert (s + [b])[..|s|] == s;
  }

  lemma {:induction false} TwoMore(s: seq<Byte>, a: Byte, b: Byte)
    ensures Spelled(s + [a, b]) == Spelled(s) * 65536 + (a as int * 256 + b)
  {
    OneMore(s, a);
    OneMore(s + [a], b);
    assert s + [a, b] == s + [a] + [b];
  }

  lemma OneByte(b: Byte)
    ensures Spelled([b]) == b
  {
    OneMore([], b);
    assert [] + [b] == [b];
  }

  lemma Words(a: Word16, b: Word32)
    ensures |Be16(a)| == 2 && Spelled(Be16(a)) == a && |Be32(b)| == 4 && Spelled(Be32(b)) == b
  {
    WordFollows([], a);
    assert [] + Be16(a) == Be16(a);
    LongFollows([], b);
    assert [] + Be32(b) == Be32(b);
  }

  lemma {:induction false} WordFollows(s: seq<Byte>, a: Word16)
    ensures |Be16(a)| == 2 && Spelled(s + Be16(a)) == Spelled(s) * 65536 + a
  {
    TwoMore(s, a / 0x100, a % 0x100);
  }

  lemma {:induction false} LongFollows(s: seq<Byte>, b: Word32)
    ensures |Be32(b)| == 4 && Spelled(s + Be32(b)) == Spelled(s) * 4294967296 + b
  {
    hide Be16, Spelled;
    WordFollows(s, b / 0x1_0000);
    WordFollows(s + Be16(b / 0x1_0000), b % 0x1_0000);
    assert s + Be32(b) == s + Be16(b / 0x1_0000) + Be16(b % 0x1_0000);
  }

  lemma {:induction false} TokenIs(first: Byte, payload: seq<Byte>)
    ensures Token([first] + payload, first, |payload|, Spelled(payload))
  {
    assert ([first] + payload)[1..] == payload;
  }

  /** The int format family: positive and negative fixint, uint 8 to 32, int 8 to 32, and each number in
      the first of its formats that holds it; negative payloads are in two's complement. */
  lemma IntTokens(n: Int32)
    ensures var w := WriteNum(n);
            if 0 <= n <= 127 then w == [n]
            else if -32 <= n < 0 then w == [256 + n]
            else if 128 <= n <= 255 then Token(w, 0xcc, 1, n)
            else if 256 <= n <= 65535 then Token(w, 0xcd, 2, n)
            else if n >= 65536 then Token(w, 0xce, 4, n)
            else if n >= -128 then Token(w, 0xd0, 1, 256 + n)
            else if n >= -32768 then Token(w, 0xd1, 2, 65536 + n)
            else Token(w, 0xd2, 4, 4294967296 + n)
  {
    if -32 <= n <= 127 {
    } else if -128 <= n <= 255 {
      ShortInt(n, n % 0x100);
    } else {
      LongInt(n, n % 0x1_0000, n % 0x1_0000_0000);
    }
  }

  lemma ShortInt(n: Int32, b: Byte)
    requires b == n % 0x100 && (-128 <= n < -32 || 128 <= n <= 255)
    ensures Token(WriteNum(n), if n >= 0 then 0xcc else 0xd0, 1, b)
  {
    OneByte(b);
    TokenIs(if n >= 0 then 0xcc else 0xd0, [b]);
  }

  lemma LongInt(n: Int32, a: Word16, b: Word32)
    requires a == n % 0x1_0000 && b == n % 0x1_0000_0000 && (n < -128 || n > 255)
    ensures if -32768 <= n <= 65535 then Token(WriteNum(n), if n >= 0 then 0xcd else 0xd1, 2, a)
            else Token(WriteNum(n), if n >= 0 then 0xce else 0xd2, 4, b)
  {
    hide Be16, Be32, Spelled, Token;
    Words(a, b);
    TokenIs(if n >= 0 then 0xcd else 0xd1, Be16(a));
    TokenIs(if n >= 0 then 0xce else 0xd2, Be32(b));
  }

  /** No token that the decoder takes for the number is shorter than the one that is written. */
  lemma NoShorterInt(n: Int32, bytes: seq<Byte>, rest: seq<Byte>)
    requires ReadHead(bytes) == Got(HeadPrim(Num(n)), rest)
    ensures |WriteNum(n)| <= |bytes| - |rest|
  {
    hide Un16, Un32, Un64, Be16, Be32;
    Words(0, 0);
    IntTokens(n);
    hide WriteNum, Spelled;
    if 0xcc <= bytes[0] <= 0xd3 { WideRange(bytes[0], bytes[1..]); }
  }

  lemma WideRange(b: Byte, bytes: seq<Byte>)
    requires 0xcc <= b <= 0xd3 && ReadWide(b, bytes).Got? && ReadWide(b, bytes).val.Num?
    ensures var n, size := ReadWide(b, bytes).val.n, |bytes| - |ReadWide(b, bytes).rest|;
            size == 4 || (size == 2 && -32768 <= n < 65536) || (size == 1 && -128 <= n < 256)
  {
    hide Un16, Un32, Un64;
  }

  /** fixstr, str 8, str 16 and str 32, by length. */
  lemma StrTokens(text: Text)
    ensures var w, n := WriteStr(text), |text|;
            && |text| <= |w| && w[|w| - |text|..] == text
            && var head := w[..|w| - |text|];
               if n <= 31 then head == [0xa0 + n]
               else if n <= 255 then Token(head, 0xd9, 1, n)
               else if n <= 65535 then Token(head, 0xda, 2, n)
               else Token(head, 0xdb, 4, n)
  {
    var head, n: Word32 := StrHead(|text|), |text|;
    assert WriteStr(text)[..|head|] == head && WriteStr(text)[|head|..] == text;
    hide Be16, Be32, Spelled;
    Words(n % 0x1_0000, n);
    OneByte(n % 0x100);
    TokenIs(0xd9, [n % 0x100]);
    TokenIs(0xda, Be16(n % 0x1_0000));
    TokenIs(0xdb, Be32(n));
  }

  /** fixarray, array 16 and array 32, fixmap, map 16 and map 32, by size. */
  lemma ContainerTokens(n: Word32)
    ensures var w := WriteHead(HeadArr(n));
            if n <= 15 then w == [0x90 + n]
            else if n <= 65535 then Token(w, 0xdc, 2, n)
            else Token(w, 0xdd, 4, n)
    ensures var w := WriteHead(HeadMap(n));
            if n <= 15 then w == [0x80 + n]
            else if n <= 65535 then Token(w, 0xde, 2, n)
            else Token(w, 0xdf, 4, n)
  {
    hide Be16, Be32, Spelled;
    Words(n % 0x1_0000, n);
    TokenIs(0xdc, Be16(n % 0x1_0000));
    TokenIs(0xdd, Be32(n));
    TokenIs(0xde, Be16(n % 0x1_0000));
    TokenIs(0xdf, Be32(n));
  }

  /** The payload of a backreference: an unsigned integer in its shortest format. */
  ghost predicate ShortestUint(payload: seq<Byte>, n: nat) {
    if n <= 127 then payload == [n]
    else if n <= 255 then Token(payload, 0xcc, 1, n)
    else if n <= 65535 then Token(payload, 0xcd, 2, n)
    else Token(payload, 0xce, 4, n)
  }

  lemma UintTokens(n: Word32)
    ensures ShortestUint(WriteUint(n), n) && 0 < |WriteUint(n)| <= 5
  {
    hide Be16, Be32, Spelled;
    Words(n % 0x1_0000, n);
    OneByte(n % 0x100);
    TokenIs(0xcc, [n % 0x100]);
    TokenIs(0xcd, Be16(n % 0x1_0000));
    TokenIs(0xce, Be32(n));
  }

  /** A backreference is an ext 8 of type 0x50, whose length byte counts its payload: the index. */
  lemma ReferenceTokens(n: Word32)
    ensures var w := WriteRef(n);
            |w| > 3 && w[0] == 0xc7 && w[1] == |w| - 3 && w[2] == 0x50 && ShortestUint(w[3..], n)
  {
    hide WriteUint, ShortestUint;
    UintTokens(n);
    assert WriteRef(n)[3..] == WriteUint(n);
  }

  /** nil, false and true, float 64, and the 64-bit integers. */
  lemma OtherTokens(bits: Float64, n: int)
    ensures WriteHead(HeadPrim(Undefined)) == WriteHead(HeadPrim(Null)) == [0xc0]
    ensures WriteHead(HeadPrim(Bool(false))) == [0xc2] && WriteHead(HeadPrim(Bool(true))) == [0xc3]
    ensures WriteHead(HeadPrim(Float(bits)))[0] == 0xcb && WriteHead(HeadPrim(Float(bits)))[1..] == bits
    ensures Writable(HeadPrim(Big(n))) <==> -9223372036854775808 <= n <= 18446744073709551615
    ensures 0 <= n <= 18446744073709551615 ==> Token(WriteHead(HeadPrim(Big(n))), 0xcf, 8, n)
    ensures -9223372036854775808 <= n < 0 ==>
              Token(WriteHead(HeadPrim(Big(n))), 0xd3, 8, 18446744073709551616 + n)
  {
    if BigFits(n) {
      var x: Word64 := if n >= 0 then n else 0x1_0000_0000_0000_0000 + n;
      LongWord(x);
      hide Be64;
      TokenIs(if n >= 0 then 0xcf else 0xd3, Be64(x));
    }
  }

  lemma LongWord(x: Word64)
    ensures |Be64(x)| == 8 && Spelled(Be64(x)) == x
  {
    hide Be32, Spelled;
    var hi, lo: Word32 := x / 0x1_0000_0000, x % 0x1_0000_0000;
    Words(0, hi);
    LongFollows(Be32(hi), lo);
  }
}
