/**
 * BSONByteBuffer: a cursor over a little-endian byte buffer. The absolute
 * reads are functions of the bytes; the relative reads are methods of a class
 * whose position they advance.
 *
 * Each relative read comes in two versions. `Read*` gives the advance the
 * BSON wire format calls for (the size of the value on the wire); the
 * `Read*AsWritten` versions give the advance the Java code makes, where the
 * two differ.
 */
module ByteBuffer {
  import opened BsonTypes
  import opened Results

  // ---- unsigned little-endian numbers ----

  function Pow256(n: nat): (p: nat)
    ensures p >= 1
  {
    if n == 0 then 1 else 256 * Pow256(n - 1)
  }

  /** The unsigned number whose bytes, least significant first, are bs. */
  function LE(bs: seq<byte>): nat {
    if bs == [] then 0 else bs[0] + 256 * LE(bs[1..])
  }

  /** The n bytes of u, least significant first (u taken modulo 256^n). */
  function EncodeLE(u: nat, n: nat): (bs: seq<byte>)
    ensures |bs| == n
  {
    if n == 0 then [] else [u % 256] + EncodeLE(u / 256, n - 1)
  }

  lemma {:induction false} LEBound(bs: seq<byte>)
    ensures LE(bs) < Pow256(|bs|)
  {
    if bs != [] {
      LEBound(bs[1..]);
    }
  }

  /** Encoding a number that fits and reading it back gives the number. */
  lemma {:induction false} LEEncodeLE(u: nat, n: nat)
    requires u < Pow256(n)
    ensures LE(EncodeLE(u, n)) == u
  {
    if n > 0 {
      LEEncodeLE(u / 256, n - 1);
      assert EncodeLE(u, n)[1..] == EncodeLE(u / 256, n - 1);
    }
  }

  /** Reading bytes as a number and encoding it back gives the bytes. */
  lemma {:induction false} EncodeLELE(bs: seq<byte>)
    ensures EncodeLE(LE(bs), |bs|) == bs
  {
    if bs != [] {
      EncodeLELE(bs[1..]);
      DivModByte(bs[0], LE(bs[1..]));
      assert EncodeLE(LE(bs), |bs|) == [bs[0]] + EncodeLE(LE(bs[1..]), |bs| - 1);
      assert [bs[0]] + bs[1..] == bs;
    }
  }

  lemma DivModByte(lo: byte, hi: nat)
    ensures (lo + 256 * hi) % 256 == lo && (lo + 256 * hi) / 256 == hi
  {
  }

  // ---- two's complement ----

  const TWO_31: int := 0x8000_0000
  const TWO_32: int := 0x1_0000_0000
  const TWO_63: int := 0x8000_0000_0000_0000
  const TWO_64: int := 0x1_0000_0000_0000_0000

  /** The Java int whose 32 bits, read as an unsigned number, are u. */
  function ToInt32(u: nat): int32
    requires u < TWO_32
  {
    if u < TWO_31 then u else u - TWO_32
  }

  /** The 32 bits of a Java int, read as an unsigned number. */
  function FromInt32(x: int32): (u: nat)
    ensures u < TWO_32 && ToInt32(u) == x
  {
    if x >= 0 then x else x + TWO_32
  }

  /** The Java long whose 64 bits, read as an unsigned number, are u. */
  function ToInt64(u: nat): int64
    requires u < TWO_64
  {
    if u < TWO_63 then u else u - TWO_64
  }

  function FromInt64(x: int64): (u: nat)
    ensures u < TWO_64 && ToInt64(u) == x
  {
    if x >= 0 then x else x + TWO_64
  }

  /** The four bytes of a Java int, least significant first. */
  function EncodeInt32LE(x: int32): seq<byte> {
    EncodeLE(FromInt32(x), 4)
  }

  /** The four bytes of a Java int, most significant first. */
  function EncodeInt32BE(x: int32): seq<byte> {
    Reverse(EncodeInt32LE(x))
  }

  /** The eight bytes of a Java long, least significant first. */
  function EncodeInt64LE(x: int64): seq<byte> {
    EncodeLE(FromInt64(x), 8)
  }

  function Reverse<T>(s: seq<T>): (r: seq<T>)
    ensures |r| == |s|
    ensures forall k :: 0 <= k < |s| ==> r[k] == s[|s| - 1 - k]
  {
    if s == [] then [] else Reverse(s[1..]) + [s[0]]
  }

  lemma ReverseReverse<T>(s: seq<T>)
    ensures Reverse(Reverse(s)) == s
  {
    assert forall k :: 0 <= k < |s| ==> Reverse(Reverse(s))[k] == s[k];
  }

  /** Four bytes, read least significant first, as a Java int; the int's encoding is those bytes. */
  function Int32Of(bs: seq<byte>): (x: int32)
    requires |bs| == 4
    ensures EncodeInt32LE(x) == bs
  {
    LEBound(bs);
    assert Pow256(4) == TWO_32;
    EncodeLELE(bs);
    ToInt32(LE(bs))
  }

  /** Eight bytes, read least significant first, as a Java long; the long's encoding is those bytes. */
  function Int64Of(bs: seq<byte>): (x: int64)
    requires |bs| == 8
    ensures EncodeInt64LE(x) == bs
  {
    LEBound(bs);
    assert Pow256(8) == TWO_64;
    EncodeLELE(bs);
    ToInt64(LE(bs))
  }

  /** Decoding the encoding of a Java int gives it back. */
  lemma Int32RoundTrip(x: int32)
    ensures Int32Of(EncodeInt32LE(x)) == x
  {
    assert Pow256(4) == TWO_32;
    LEEncodeLE(FromInt32(x), 4);
  }

  /** Decoding the encoding of a Java long gives it back. */
  lemma Int64RoundTrip(x: int64)
    ensures Int64Of(EncodeInt64LE(x)) == x
  {
    assert Pow256(8) == TWO_64;
    LEEncodeLE(FromInt64(x), 8);
  }

  // ---- absolute reads ----

  /**
   * getIntLE(i): the Java int whose four bytes at i..i+3 are least
   * significant first; an index past the limit throws.
   */
  function IntLE(data: seq<byte>, i: nat): (r: Result<int32>)
    ensures r.Ok? <==> i + 4 <= |data|
    ensures r.Ok? ==> EncodeInt32LE(r.value) == data[i..i + 4]
    ensures r.Err? ==> r.error == BufferUnderrun
  {
    if i + 4 <= |data| then Ok(Int32Of(data[i..i + 4])) else Err(BufferUnderrun)
  }

  /** getIntBE(i): the same four bytes, most significant first. */
  function IntBE(data: seq<byte>, i: nat): (r: Result<int32>)
    ensures r.Ok? <==> i + 4 <= |data|
    ensures r.Ok? ==> EncodeInt32BE(r.value) == data[i..i + 4]
    ensures r.Err? ==> r.error == BufferUnderrun
  {
    if i + 4 <= |data| then
      var x := Int32Of(Reverse(data[i..i + 4]));
      ReverseReverse(data[i..i + 4]);
      Ok(x)
    else Err(BufferUnderrun)
  }

  /** getLong(i): the Java long whose eight bytes at i..i+7 are least significant first. */
  function Long(data: seq<byte>, i: nat): (r: Result<int64>)
    ensures r.Ok? <==> i + 8 <= |data|
    ensures r.Ok? ==> EncodeInt64LE(r.value) == data[i..i + 8]
    ensures r.Err? ==> r.error == BufferUnderrun
  {
    if i + 8 <= |data| then Ok(Int64Of(data[i..i + 8])) else Err(BufferUnderrun)
  }

  /** getIntBE(i) is getIntLE read over the four bytes in reverse order. */
  lemma IntBEIsReversedLE(data: seq<byte>, i: nat)
    requires i + 4 <= |data|
    ensures IntBE(data, i) == IntLE(Reverse(data[i..i + 4]), 0)
  {
    var bs := Reverse(data[i..i + 4]);
    assert bs[0..4] == bs;
  }

  /** The index of the first zero byte at or after i, if there is one. */
  function CStringEnd(data: seq<byte>, i: nat): (e: Option<nat>)
    ensures e.Some? ==> i <= e.value < |data| && data[e.value] == 0
    ensures e.Some? ==> forall k :: i <= k < e.value ==> data[k] != 0
    ensures e.None? ==> forall k :: i <= k < |data| ==> data[k] != 0
    decreases |data| - i
  {
    if i >= |data| then None
    else if data[i] == 0 then Some(i)
    else CStringEnd(data, i + 1)
  }

  /** getCString(offset): the bytes from offset up to the first zero byte; no zero before the limit throws. */
  function CString(data: seq<byte>, offset: nat): (r: Result<Text>)
    ensures r.Ok? ==> offset + |r.value| < |data| && data[offset..offset + |r.value|] == r.value
    ensures r.Ok? ==> 0 !in r.value && data[offset + |r.value|] == 0
    ensures r.Err? <==> forall k :: offset <= k < |data| ==> data[k] != 0
    ensures r.Err? ==> r.error == BufferUnderrun
  {
    match CStringEnd(data, offset)
    case None => Err(BufferUnderrun)
    case Some(e) => Ok(data[offset..e])
  }

  /** sizeCString(offset): the length of the cstring at offset, counting its terminating zero. */
  function CStringSize(data: seq<byte>, offset: nat): (r: Result<nat>)
    ensures r.Ok? <==> CString(data, offset).Ok?
    ensures r.Ok? ==> r.value == |CString(data, offset).value| + 1
  {
    match CStringEnd(data, offset)
    case None => Err(BufferUnderrun)
    case Some(e) => Ok(e - offset + 1)
  }

  /**
   * getUTF8String(offset): the int32 at offset counts the string's bytes and
   * its terminating zero; the string is the bytes after the prefix, without
   * the zero. A count below 1 is a negative length, and a string running past
   * the buffer throws.
   */
  function UTF8String(data: seq<byte>, offset: nat): (r: Result<Text>)
    ensures r.Ok? ==> IntLE(data, offset).Ok? && IntLE(data, offset).value == |r.value| + 1
    ensures r.Ok? ==> offset + 4 + |r.value| <= |data| && r.value == data[offset + 4..offset + 4 + |r.value|]
    ensures IntLE(data, offset).Ok? && IntLE(data, offset).value < 1 ==> r == Err(InvalidLength)
    ensures IntLE(data, offset).Ok? && 1 <= IntLE(data, offset).value && offset + 3 + IntLE(data, offset).value <= |data| ==> r.Ok?
    ensures IntLE(data, offset).Ok? && 1 <= IntLE(data, offset).value && offset + 3 + IntLE(data, offset).value > |data| ==> r == Err(BufferUnderrun)
    ensures IntLE(data, offset).Err? ==> r == Err(BufferUnderrun)
  {
    var len :- IntLE(data, offset);
    var size := len - 1;
    if size < 0 then Err(InvalidLength)
    else if offset + 4 + size > |data| then Err(BufferUnderrun)
    else Ok(data[offset + 4..offset + 4 + size])
  }

  /** A string as the wire carries it: its length plus one as an int32, its bytes, a zero. */
  function EncodeUTF8String(t: Text): seq<byte>
    requires |t| + 1 < TWO_31
  {
    EncodeInt32LE(|t| + 1) + t + [0]
  }

  /** getUTF8String reads back an encoded string wherever it sits in the buffer. */
  lemma UTF8StringRoundTrip(pre: seq<byte>, t: Text, post: seq<byte>)
    requires |t| + 1 < TWO_31
    ensures UTF8String(pre + EncodeUTF8String(t) + post, |pre|) == Ok(t)
  {
    var data := pre + EncodeUTF8String(t) + post;
    var n := |pre|;
    assert data[n..n + 4] == EncodeInt32LE(|t| + 1);
    Int32RoundTrip(|t| + 1);
    assert data[n + 4..n + 4 + |t|] == t;
  }

  /** getCString reads back a zero-free string followed by its terminator. */
  lemma CStringRoundTrip(pre: seq<byte>, t: Text, post: seq<byte>)
    requires 0 !in t
    ensures CString(pre + t + [0] + post, |pre|) == Ok(t)
  {
    var data := pre + t + [0] + post;
    assert data[|pre| + |t|] == 0;
    assert data[|pre|..|pre| + |t|] == t;
    assert forall k :: |pre| <= k < |pre| + |t| ==> data[k] == t[k - |pre|];
  }

  // ---- relative reads: a value and the position after it ----

  /** A value read at the cursor and the position the cursor moves to. */
  datatype Read<+T> = Read(value: T, next: nat)

  /** get(), advancing past the one byte read. */
  function ReadByte(data: seq<byte>, p: nat): (r: Result<Read<byte>>)
    ensures r.Ok? <==> p < |data|
    ensures r.Ok? ==> r.value == Read(data[p], p + 1)
  {
    if p < |data| then Ok(Read(data[p], p + 1)) else Err(BufferUnderrun)
  }

  /**
   * get() as written: the underlying relative get already advances by one,
   * and the position is then set one further, so the cursor moves by two;
   * moving past the limit throws.
   */
  function ReadByteAsWritten(data: seq<byte>, p: nat): (r: Result<Read<byte>>)
    ensures r.Ok? <==> p + 2 <= |data|
    ensures r.Ok? ==> r.value == Read(data[p], p + 2)
  {
    if p + 2 <= |data| then Ok(Read(data[p], p + 2)) else Err(BufferUnderrun)
  }

  /** getInt(): the little-endian int at the cursor, which moves by 4. */
  function ReadInt32(data: seq<byte>, p: nat): (r: Result<Read<int32>>)
    ensures r.Ok? <==> IntLE(data, p).Ok?
    ensures r.Ok? ==> r.value == Read(IntLE(data, p).value, p + 4)
  {
    var x :- IntLE(data, p);
    Ok(Read(x, p + 4))
  }

  /** getIntBE(): the big-endian int at the cursor, which moves by 4. */
  function ReadInt32BE(data: seq<byte>, p: nat): (r: Result<Read<int32>>)
    ensures r.Ok? <==> IntBE(data, p).Ok?
    ensures r.Ok? ==> r.value == Read(IntBE(data, p).value, p + 4)
  {
    var x :- IntBE(data, p);
    Ok(Read(x, p + 4))
  }

  /** getLong() and getDouble(): the eight bytes at the cursor, which moves by 8. */
  function ReadInt64(data: seq<byte>, p: nat): (r: Result<Read<int64>>)
    ensures r.Ok? <==> Long(data, p).Ok?
    ensures r.Ok? ==> r.value == Read(Long(data, p).value, p + 8)
  {
    var x :- Long(data, p);
    Ok(Read(x, p + 8))
  }

  /** getCString(), advancing past the string and its terminating zero. */
  function ReadCString(data: seq<byte>, p: nat): (r: Result<Read<Text>>)
    ensures r.Ok? <==> CString(data, p).Ok?
    ensures r.Ok? ==> r.value == Read(CString(data, p).value, p + |CString(data, p).value| + 1)
    ensures r.Ok? ==> r.value.next <= |data|
  {
    var s :- CString(data, p);
    Ok(Read(s, p + |s| + 1))
  }

  /** getCString() as written: it advances by the string's length only, stopping on the zero. */
  function ReadCStringAsWritten(data: seq<byte>, p: nat): (r: Result<Read<Text>>)
    ensures r.Ok? <==> CString(data, p).Ok?
    ensures r.Ok? ==> r.value == Read(CString(data, p).value, p + |CString(data, p).value|)
  {
    var s :- CString(data, p);
    Ok(Read(s, p + |s|))
  }

  /**
   * getUTF8String(), advancing past the prefix, the string and its zero:
   * by 4 plus the declared length, which must lie within the buffer.
   */
  function ReadUTF8String(data: seq<byte>, p: nat): (r: Result<Read<Text>>)
    ensures r.Ok? ==> UTF8String(data, p).Ok?
    ensures r.Ok? ==> r.value == Read(UTF8String(data, p).value, p + 4 + |UTF8String(data, p).value| + 1)
    ensures r.Ok? ==> r.value.next <= |data|
    ensures UTF8String(data, p).Err? ==> r == Err(UTF8String(data, p).error)
  {
    var s :- UTF8String(data, p);
    if p + 4 + |s| + 1 > |data| then Err(BufferUnderrun) else Ok(Read(s, p + 4 + |s| + 1))
  }

  /**
   * getUTF8String() as written: it advances by the declared length minus one,
   * skipping neither the prefix nor the zero.
   */
  function ReadUTF8StringAsWritten(data: seq<byte>, p: nat): (r: Result<Read<Text>>)
    ensures r.Ok? <==> UTF8String(data, p).Ok?
    ensures r.Ok? ==> r.value == Read(UTF8String(data, p).value, p + |UTF8String(data, p).value|)
  {
    var s :- UTF8String(data, p);
    Ok(Read(s, p + |s|))
  }

  // ---- the cursor ----

  class BsonByteBuffer {
    /** The bytes between the buffer's start and its limit; the reader never writes them. */
    const data: seq<byte>
    /** position(): the index of the next byte a relative read takes. */
    var pos: nat

    /** A position never lies past the limit. */
    ghost predicate Valid()
      reads this
    {
      pos <= |data|
    }

    /** wrap(bytes): a cursor at the start of the bytes. */
    constructor Wrap(bytes: seq<byte>)
      ensures data == bytes && pos == 0
      ensures Valid()
    {
      data := bytes;
      pos := 0;
    }

    /**
     * get() as the format needs it: the byte at the cursor, which moves past
     * it. The code as written moves the cursor by two; that advance is
     * ReadByteAsWritten.
     */
    method Get() returns (r: Result<byte>)
      requires Valid()
      modifies this
      ensures Valid()
      ensures ReadByte(data, old(pos)).Ok? ==> r == Ok(data[old(pos)]) && pos == old(pos) + 1
      ensures ReadByte(data, old(pos)).Err? ==> r == Err(BufferUnderrun) && pos == old(pos)
    {
      if pos >= |data| {
        return Err(BufferUnderrun);
      }
      r := Ok(data[pos]);
      pos := pos + 1;
    }

    /** getInt(): the little-endian int at the cursor, which moves by 4. */
    method GetInt() returns (r: Result<int32>)
      requires Valid()
      modifies this
      ensures Valid()
      ensures r == IntLE(data, old(pos))
      ensures pos == if r.Ok? then old(pos) + 4 else old(pos)
    {
      r := IntLE(data, pos);
      if r.Ok? {
        pos := pos + 4;
      }
    }

    /** getIntBE(): the big-endian int at the cursor, which moves by 4. */
    method GetIntBE() returns (r: Result<int32>)
      requires Valid()
      modifies this
      ensures Valid()
      ensures r == IntBE(data, old(pos))
      ensures pos == if r.Ok? then old(pos) + 4 else old(pos)
    {
      r := IntBE(data, pos);
      if r.Ok? {
        pos := pos + 4;
      }
    }

    /** getLong() and getDouble(): the eight bytes at the cursor, which moves by 8. */
    method GetLong() returns (r: Result<int64>)
      requires Valid()
      modifies this
      ensures Valid()
      ensures r == Long(data, old(pos))
      ensures pos == if r.Ok? then old(pos) + 8 else old(pos)
    {
      r := Long(data, pos);
      if r.Ok? {
        pos := pos + 8;
      }
    }

    /** getCString(offset): scans for the terminating zero without moving the cursor. */
    method GetCStringAt(offset: nat) returns (r: Result<Text>)
      ensures r == CString(data, offset)
    {
      var end := offset;
      while end < |data| && data[end] != 0
        invariant offset <= end && (end <= |data| || end == offset)
        invariant forall k :: offset <= k < end ==> data[k] != 0
        decreases |data| - end
      {
        end := end + 1;
      }
      if end >= |data| {
        return Err(BufferUnderrun);
      }
      assert CStringEnd(data, offset) == Some(end);
      return Ok(data[offset..end]);
    }

    /** sizeCString(offset): the cstring's length counting its zero, without moving the cursor. */
    method SizeCStringAt(offset: nat) returns (r: Result<nat>)
      ensures r == CStringSize(data, offset)
    {
      var end := offset;
      while true
        invariant offset <= end && (end <= |data| || end == offset)
        invariant forall k :: offset <= k < end ==> data[k] != 0
        decreases |data| - end
      {
        if end >= |data| {
          return Err(BufferUnderrun);
        }
        if data[end] == 0 {
          break;
        }
        end := end + 1;
      }
      assert CStringEnd(data, offset) == Some(end);
      return Ok(end - offset + 1);
    }

    /**
     * getCString() as the format needs it: the cstring at the cursor, which
     * moves past its terminating zero. The code as written stops on the zero;
     * that advance is ReadCStringAsWritten.
     */
    method GetCString() returns (r: Result<Text>)
      requires Valid()
      modifies this
      ensures Valid()
      ensures r == CString(data, old(pos))
      ensures pos == if r.Ok? then old(pos) + |r.value| + 1 else old(pos)
    {
      var end := pos;
      while end < |data| && data[end] != 0
        invariant pos <= end <= |data|
        invariant forall k :: pos <= k < end ==> data[k] != 0
        decreases |data| - end
      {
        end := end + 1;
      }
      if end >= |data| {
        return Err(BufferUnderrun);
      }
      assert CStringEnd(data, pos) == Some(end);
      r := Ok(data[pos..end]);
      pos := end + 1;
    }

    /**
     * getUTF8String() as the format needs it: the length-prefixed string at
     * the cursor, which moves past its zero. The code as written moves by the
     * string's length from the start of the prefix; that advance is
     * ReadUTF8StringAsWritten.
     */
    method GetUTF8String() returns (r: Result<Text>)
      requires Valid()
      modifies this
      ensures Valid()
      ensures ReadUTF8String(data, old(pos)).Ok? ==> r == Ok(ReadUTF8String(data, old(pos)).value.value) && pos == ReadUTF8String(data, old(pos)).value.next
      ensures ReadUTF8String(data, old(pos)).Err? ==> r == Err(ReadUTF8String(data, old(pos)).error) && pos == old(pos)
    {
      var rd := ReadUTF8String(data, pos);
      if rd.Err? {
        return Err(rd.error);
      }
      r := Ok(rd.value.value);
      pos := rd.value.next;
    }

    /** position(i): moves the cursor to i; a position past the limit throws. */
    method Position(i: nat) returns (r: Result<nat>)
      requires Valid()
      modifies this
      ensures Valid()
      ensures i <= |data| ==> r == Ok(i) && pos == i
      ensures i > |data| ==> r == Err(BufferUnderrun) && pos == old(pos)
    {
      if i > |data| {
        return Err(BufferUnderrun);
      }
      pos := i;
      return Ok(i);
    }

    /** size(): the document length declared in the first four bytes. */
    method Size() returns (r: Result<int32>)
      ensures r == IntLE(data, 0)
      ensures r.Ok? ==> EncodeInt32LE(r.value) == data[..4]
    {
      r := IntLE(data, 0);
      if r.Ok? {
        assert data[0..4] == data[..4];
      }
    }
  }
}
