/** The codec's byte buffers: a writer that grows by doubling, and a bounds-checked reader. */
module MsgBuffers {
  import opened SchemaGraph
  import opened MsgPack

  class Writer {
    var buf: array<Byte>
    var len: nat

    ghost var data: seq<Byte>  // what has been written

    ghost predicate Valid()
      reads this, buf
    {
      0 < buf.Length && len <= buf.Length && data == buf[..len]
    }

    constructor ()
      ensures Valid() && data == [] && fresh(buf)
    {
      buf := new Byte[256](_ => 0);
      len, data := 0, [];
    }

    /** Makes room for `n` more bytes. */
    method Ensure(n: nat)
      requires Valid()
      modifies this`buf
      ensures Valid() && len + n <= buf.Length
      ensures buf == old(buf) || fresh(buf)
    {
      if len + n <= buf.Length { return; }
      var cap := buf.Length * 2;
      while cap < len + n
        invariant cap >= buf.Length * 2
        decreases len + n - cap
      {
        cap := cap * 2;
      }
      var nb := new Byte[cap](_ => 0);
      for i := 0 to len
        invariant buf == old(buf) && buf[..] == old(buf[..]) && nb[..i] == buf[..i]
      {
        nb[i] := buf[i];
      }
      buf := nb;
    }

    method U8(b: Byte)
      requires Valid()
      modifies this, buf
      ensures Valid() && data == old(data) + [b]
      ensures buf == old(buf) || fresh(buf)
    {
      Ensure(1);
      buf[len] := b;
      len, data := len + 1, data + [b];
    }

    method Raw(bytes: seq<Byte>)
      requires Valid()
      modifies this, buf
      ensures Valid() && data == old(data) + bytes
      ensures buf == old(buf) || fresh(buf)
    {
      Ensure(|bytes|);
      ghost var b := buf;
      for i := 0 to |bytes|
        invariant buf == b && len == old(len) && len + |bytes| <= buf.Length && data == old(data)
        invariant buf[..len + i] == data + bytes[..i]
      {
        buf[len + i] := bytes[i];
      }
      len, data := len + |bytes|, data + bytes;
    }

    method U16(x: Word16)
      requires Valid()
      modifies this, buf
      ensures Valid() && data == old(data) + Be16(x)
      ensures buf == old(buf) || fresh(buf)
    {
      Raw(Be16(x));
    }

    method U32(x: Word32)
      requires Valid()
      modifies this, buf
      ensures Valid() && data == old(data) + Be32(x)
      ensures buf == old(buf) || fresh(buf)
    {
      Raw(Be32(x));
    }

    method U64(x: Word64)
      requires Valid()
      modifies this, buf
      ensures Valid() && data == old(data) + Be64(x)
      ensures buf == old(buf) || fresh(buf)
    {
      Raw(Be64(x));
    }
  }

  class Reader {
    const bytes: seq<Byte>
    var pos: nat

    ghost predicate Valid()
      reads this
    {
      pos <= |bytes|
    }

    /** The input still to be read. */
    ghost function Rest(): seq<Byte>
      requires Valid()
      reads this
    {
      bytes[pos..]
    }

    constructor (bytes: seq<Byte>)
      ensures Valid() && this.bytes == bytes && Rest() == bytes
    {
      this.bytes := bytes;
      pos := 0;
    }

    method Peek() returns (b: Option<Byte>)
      requires Valid()
      ensures b == if Rest() == [] then None else Some(Rest()[0])
    {
      if pos + 1 > |bytes| { return None; }
      b := Some(bytes[pos]);
    }

    /** Takes `n` bytes, or nothing when fewer are left. */
    method Bytes(n: nat) returns (r: Option<seq<Byte>>)
      requires Valid()
      modifies this
      ensures Valid()
      ensures match Take(old(Rest()), n)
              case Got(s, rest) => r == Some(s) && Rest() == rest
              case Bad(_) => r == None && Rest() == old(Rest())
    {
      if pos + n > |bytes| { return None; }
      assert bytes[pos..][..n] == bytes[pos..pos + n] && bytes[pos..][n..] == bytes[pos + n..];
      r := Some(bytes[pos..pos + n]);
      pos := pos + n;
    }

    method U8() returns (r: Option<Byte>)
      requires Valid()
      modifies this
      ensures Valid()
      ensures match Read8(old(Rest()))
              case Got(b, rest) => r == Some(b) && Rest() == rest
              case Bad(_) => r == None && Rest() == old(Rest())
    {
      if pos + 1 > |bytes| { return None; }
      r := Some(bytes[pos]);
      pos := pos + 1;
    }

    method U16() returns (r: Option<Word16>)
      requires Valid()
      modifies this
      ensures Valid()
      ensures match Read16(old(Rest()))
              case Got(x, rest) => r == Some(x) && Rest() == rest
              case Bad(_) => r == None && Rest() == old(Rest())
    {
      var s := Bytes(2);
      if s.None? { return None; }
      r := Some(Un16(s.value));
    }

    method U32() returns (r: Option<Word32>)
      requires Valid()
      modifies this
      ensures Valid()
      ensures match Read32(old(Rest()))
              case Got(x, rest) => r == Some(x) && Rest() == rest
              case Bad(_) => r == None && Rest() == old(Rest())
    {
      var s := Bytes(4);
      if s.None? { return None; }
      r := Some(Un32(s.value));
    }

    method U64() returns (r: Option<Word64>)
      requires Valid()
      modifies this
      ensures Valid()
      ensures match Read64(old(Rest()))
              case Got(x, rest) => r == Some(x) && Rest() == rest
              case Bad(_) => r == None && Rest() == old(Rest())
    {
      var s := Bytes(8);
      if s.None? { return None; }
      r := Some(Un64(s.value));
    }
  }
}
