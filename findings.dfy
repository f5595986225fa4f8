/**
 * Where the Java code departs from the BSON wire format, each shown on a
 * concrete document given byte by byte: the decoder with that one departure
 * switched on or off, the other departures that would get in the way off.
 * The lemmas named ...AsWritten then give what the code itself returns on
 * the same bytes, with every departure on: get() moves by two and
 * getCString() stays on the zero, so every name reads as the empty string
 * and every value is read from its name's terminating zero.
 */
module Findings {
  import opened BsonTypes
  import opened Results
  import opened ByteBuffer
  import opened Bson
  import opened Documents
  import opened Decoding
  import opened ReaderFacts
  import opened Wire

  // ---- get() ----

  /** The empty document {}, 05 00 00 00 00, whenever get() moves by one. */
  lemma EmptyDocument(r: seq<byte>, d: Discipline, kind: Kind)
    requires |r| == 5
    requires r[0] == 5 && r[1] == 0 && r[2] == 0 && r[3] == 0 && r[4] == 0
    requires !d.getTwice
    ensures DecodeDocument(d, r, kind) == Ok(Wrap(kind, map[]))
  {
    DocumentEntries(d, r, kind);
    EndAt(d, r, 4, kind, map[]);
  }

  /** An empty nested document at p, read as the format says: the cursor moves past its five bytes. */
  lemma EmptyNestedAt(r: seq<byte>, p: nat, d: Discipline, kind: Kind)
    requires !d.getTwice && !d.nestedInPlace
    requires 0 < p && p + 5 <= |r| && r[p] == 5 && r[p + 1] == 0 && r[p + 2] == 0 && r[p + 3] == 0 && r[p + 4] == 0
    ensures Nested(d, r, p, kind) == Ok(Read(Wrap(kind, map[]), p + 5))
  {
    ShortIntAt(r, p);
    EmptyDocument(r[p..p + 5], d, kind);
    NestedAt(d, r, p, kind, 5, Wrap(kind, map[]));
  }

  /** A DOCUMENT entry with a one-byte name and the empty document as its value, read as the format says. */
  lemma EmptyDocumentEntry(r: seq<byte>, p: nat, d: Discipline, kind: Kind, acc: map<Text, Value>)
    requires !d.getTwice && !d.cstringOnNul && !d.nestedInPlace
    requires 0 < p && p + 8 <= |r| && r[p] == DOCUMENT && r[p + 1] != 0 && r[p + 2] == 0
    requires r[p + 3] == 5 && r[p + 4] == 0 && r[p + 5] == 0 && r[p + 6] == 0 && r[p + 7] == 0
    ensures DecodeEntries(d, r, p, kind, acc) == DecodeEntries(d, r, p + 8, kind, acc[[r[p + 1]] := Wrap(kind, map[])])
  {
    EmptyNestedAt(r, p + 3, d, kind);
    DocumentEntry(d, r, p, kind, acc, Wrap(kind, map[]), p + 8);
  }

  /**
   * get() moves the cursor by two, so the end marker, the last byte of every
   * document, cannot be read: even the empty document fails.
   */
  lemma GetTwiceRejectsEmptyDocument(r: seq<byte>, d: Discipline)
    requires |r| == 5
    requires r[0] == 5 && r[1] == 0 && r[2] == 0 && r[3] == 0 && r[4] == 0
    ensures DecodeDocument(d, r, DocKind) == if d.getTwice then Err(BufferUnderrun) else Ok(Doc(map[]))
  {
    DocumentEntries(d, r, DocKind);
    if !d.getTwice {
      EmptyDocument(r, d, DocKind);
    }
  }

  // ---- getCString() ----

  /** {"a": 1}: 0C 00 00 00, 10 'a' 00 01 00 00 00, 00. */
  lemma IntDocOnNul(r: seq<byte>, d: Discipline)
    requires |r| == 12
    requires r[0] == 12 && r[1] == 0 && r[2] == 0 && r[3] == 0 && r[4] == 0x10 && r[5] == 0x61 && r[6] == 0 && r[7] == 1
    requires r[8] == 0 && r[9] == 0 && r[10] == 0 && r[11] == 0
    requires !d.getTwice && d.cstringOnNul
    ensures DecodeDocument(d, r, DocKind) == Ok(Doc(map[[0x61] := Int32(256)]))
  {
    DocumentEntries(d, r, DocKind);
    Name1At(r, 5);
    EntriesField(d, r, 4, DocKind, map[], INT32, 5, [0x61], 6);
    ShortIntAt(r, 6);
    Int32Value(d, r, 6, [0x61], DocKind, 256);
    PutOne(map[], [0x61], Int32(256));
    EndAt(d, r, 10, DocKind, map[[0x61] := Int32(256)]);
  }

  /**
   * getCString() leaves the cursor on the name's zero, so the value is read
   * one byte early: {"a": 1} decodes as {"a": 256}.
   */
  lemma CStringOnNulShiftsValue(r: seq<byte>, d: Discipline)
    requires |r| == 12
    requires r[0] == 12 && r[1] == 0 && r[2] == 0 && r[3] == 0 && r[4] == 0x10 && r[5] == 0x61 && r[6] == 0 && r[7] == 1
    requires r[8] == 0 && r[9] == 0 && r[10] == 0 && r[11] == 0
    requires !d.getTwice
    ensures DecodeDocument(d, r, DocKind) == Ok(Doc(map[[0x61] := Int32(if d.cstringOnNul then 256 else 1)]))
  {
    if d.cstringOnNul {
      IntDocOnNul(r, d);
    } else {
      DocumentEntries(d, r, DocKind);
      Int32Entry(d, r, 4, DocKind, map[]);
      EndAt(d, r, 11, DocKind, map[[0x61] := Int32(1)]);
    }
  }

  /** The code as written reads {"a": 1} as {"": 256}. */
  lemma IntDocAsWritten(r: seq<byte>, d: Discipline)
    requires |r| == 12
    requires r[0] == 12 && r[1] == 0 && r[2] == 0 && r[3] == 0 && r[4] == 0x10 && r[5] == 0x61 && r[6] == 0 && r[7] == 1
    requires r[8] == 0 && r[9] == 0 && r[10] == 0 && r[11] == 0
    requires d.getTwice && d.cstringOnNul
    ensures DecodeDocument(d, r, DocKind) == Ok(Doc(map[[] := Int32(256)]))
  {
    DocumentEntries(d, r, DocKind);
    EntryAsWritten(d, r, 4, DocKind, map[]);
    ShortIntAt(r, 6);
    Int32Value(d, r, 6, [], DocKind, 256);
    PutOne(map[], [], Int32(256));
    EndAsWritten(d, r, 10, DocKind, map[[] := Int32(256)]);
  }

  // ---- getUTF8String() ----

  /** {"s": "x", "i": 1}: 15 00 00 00, 02 's' 00 02 00 00 00 'x' 00, 10 'i' 00 01 00 00 00, 00. */
  lemma StringDocCorrected(r: seq<byte>, d: Discipline)
    requires |r| == 21
    requires r[0] == 0x15 && r[1] == 0 && r[2] == 0 && r[3] == 0 && r[4] == 2 && r[5] == 0x73 && r[6] == 0 && r[7] == 2
    requires r[8] == 0 && r[9] == 0 && r[10] == 0 && r[11] == 0x78 && r[12] == 0 && r[13] == 0x10 && r[14] == 0x69 && r[15] == 0
    requires r[16] == 1 && r[17] == 0 && r[18] == 0 && r[19] == 0 && r[20] == 0
    requires !d.getTwice && !d.cstringOnNul && !d.utf8Short
    ensures DecodeDocument(d, r, DocKind) == Ok(Doc(map[[0x73] := Str([0x78]), [0x69] := Int32(1)]))
  {
    DocumentEntries(d, r, DocKind);
    String1Entry(d, r, 4, DocKind, map[]);
    var m := map[[0x73] := Str([0x78])];
    Int32Entry(d, r, 13, DocKind, m);
    EndAt(d, r, 20, DocKind, m[[0x69] := Int32(1)]);
  }

  lemma StringDocShort(r: seq<byte>, d: Discipline)
    requires |r| == 21
    requires r[0] == 0x15 && r[1] == 0 && r[2] == 0 && r[3] == 0 && r[4] == 2 && r[5] == 0x73 && r[6] == 0 && r[7] == 2
    requires r[8] == 0 && r[9] == 0 && r[10] == 0 && r[11] == 0x78 && r[12] == 0 && r[13] == 0x10 && r[14] == 0x69 && r[15] == 0
    requires r[16] == 1 && r[17] == 0 && r[18] == 0 && r[19] == 0 && r[20] == 0
    requires !d.getTwice && !d.cstringOnNul && d.utf8Short
    ensures DecodeDocument(d, r, DocKind) == Ok(Doc(map[[0x73] := Str([0x78])]))
  {
    DocumentEntries(d, r, DocKind);
    Name1At(r, 5);
    EntriesField(d, r, 4, DocKind, map[], STRING, 5, [0x73], 7);
    ShortIntAt(r, 7);
    String1At(r, 7);
    StringValue(d, r, 7, [0x73], DocKind);
    PutOne(map[], [0x73], Str([0x78]));
    EndAt(d, r, 8, DocKind, map[[0x73] := Str([0x78])]);
  }

  /**
   * getUTF8String() moves by the string's length only, landing inside its
   * own length prefix; here a zero byte there ends the document early, and
   * the field "i" is lost.
   */
  lemma ShortStringAdvanceDropsFields(r: seq<byte>, d: Discipline)
    requires |r| == 21
    requires r[0] == 0x15 && r[1] == 0 && r[2] == 0 && r[3] == 0 && r[4] == 2 && r[5] == 0x73 && r[6] == 0 && r[7] == 2
    requires r[8] == 0 && r[9] == 0 && r[10] == 0 && r[11] == 0x78 && r[12] == 0 && r[13] == 0x10 && r[14] == 0x69 && r[15] == 0
    requires r[16] == 1 && r[17] == 0 && r[18] == 0 && r[19] == 0 && r[20] == 0
    requires !d.getTwice && !d.cstringOnNul
    ensures DecodeDocument(d, r, DocKind)
            == Ok(Doc(if d.utf8Short then map[[0x73] := Str([0x78])] else map[[0x73] := Str([0x78]), [0x69] := Int32(1)]))
  {
    if d.utf8Short {
      StringDocShort(r, d);
    } else {
      StringDocCorrected(r, d);
    }
  }

  /**
   * The code as written fails on {"s": "x", "i": 1}: the string's length is
   * read from the name's zero, 00 02 00 00, and 512 bytes run past the buffer.
   */
  lemma StringDocAsWritten(r: seq<byte>, d: Discipline)
    requires |r| == 21
    requires r[0] == 0x15 && r[1] == 0 && r[2] == 0 && r[3] == 0 && r[4] == 2 && r[5] == 0x73 && r[6] == 0 && r[7] == 2
    requires r[8] == 0 && r[9] == 0 && r[10] == 0 && r[11] == 0x78 && r[12] == 0 && r[13] == 0x10 && r[14] == 0x69 && r[15] == 0
    requires r[16] == 1 && r[17] == 0 && r[18] == 0 && r[19] == 0 && r[20] == 0
    requires d.getTwice && d.cstringOnNul
    ensures DecodeDocument(d, r, DocKind) == Err(BufferUnderrun)
  {
    DocumentEntries(d, r, DocKind);
    EntryAsWritten(d, r, 4, DocKind, map[]);
    ShortIntAt(r, 6);
    assert GetString(d, r, 6) == Err(BufferUnderrun);
    assert DecodeValue(d, r, 6, STRING, [], DocKind) == DecodeText(d, r, 6, STRING, []);
  }

  // ---- nested documents ----

  /** {"d": {}, "i": 1}: 14 00 00 00, 03 'd' 00 05 00 00 00 00, 10 'i' 00 01 00 00 00, 00. */
  lemma NestedDocCorrected(r: seq<byte>, d: Discipline)
    requires |r| == 20
    requires r[0] == 0x14 && r[1] == 0 && r[2] == 0 && r[3] == 0 && r[4] == 3 && r[5] == 0x64 && r[6] == 0 && r[7] == 5
    requires r[8] == 0 && r[9] == 0 && r[10] == 0 && r[11] == 0 && r[12] == 0x10 && r[13] == 0x69 && r[14] == 0 && r[15] == 1
    requires r[16] == 0 && r[17] == 0 && r[18] == 0 && r[19] == 0
    requires !d.getTwice && !d.cstringOnNul && !d.nestedInPlace
    ensures DecodeDocument(d, r, DocKind) == Ok(Doc(map[[0x64] := Doc(map[]), [0x69] := Int32(1)]))
  {
    DocumentEntries(d, r, DocKind);
    EmptyDocumentEntry(r, 4, d, DocKind, map[]);
    var m := map[[0x64] := Doc(map[])];
    Int32Entry(d, r, 12, DocKind, m);
    EndAt(d, r, 19, DocKind, m[[0x69] := Int32(1)]);
  }

  lemma NestedDocInPlace(r: seq<byte>, d: Discipline)
    requires |r| == 20
    requires r[0] == 0x14 && r[1] == 0 && r[2] == 0 && r[3] == 0 && r[4] == 3 && r[5] == 0x64 && r[6] == 0 && r[7] == 5
    requires r[8] == 0 && r[9] == 0 && r[10] == 0 && r[11] == 0 && r[12] == 0x10 && r[13] == 0x69 && r[14] == 0 && r[15] == 1
    requires r[16] == 0 && r[17] == 0 && r[18] == 0 && r[19] == 0
    requires !d.getTwice && !d.cstringOnNul && d.nestedInPlace
    ensures DecodeDocument(d, r, DocKind) == Ok(Doc(map[[0x64] := Doc(map[])]))
  {
    DocumentEntries(d, r, DocKind);
    EmptyDocument(r[7..12], d, DocKind);
    assert r[7..] == r[7..12] + r[12..];
    DocumentTrailing(d, r[7..12], r[12..], DocKind);
    DocumentEntry(d, r, 4, DocKind, map[], Doc(map[]), 7);
    var m := map[[0x64] := Doc(map[])];
    // the child's length, 05, is read as a Binary tag with the empty name
    NameAt(r, 8, []);
    EntriesField(d, r, 7, DocKind, m, BINARY, 8, [], 9);
    BinaryValue(d, r, 9, [], DocKind);
    assert ApplyPuts(m, []) == m;
    EndAt(d, r, 9, DocKind, m);
  }

  /**
   * A nested document leaves the cursor at its start, so its bytes are read
   * again as entries of the outer document: here its length's first byte 05
   * reads as a Binary tag, and the zero after it as the end marker, so the
   * field "i" is lost.
   */
  lemma NestedInPlaceRereadsChild(r: seq<byte>, d: Discipline)
    requires |r| == 20
    requires r[0] == 0x14 && r[1] == 0 && r[2] == 0 && r[3] == 0 && r[4] == 3 && r[5] == 0x64 && r[6] == 0 && r[7] == 5
    requires r[8] == 0 && r[9] == 0 && r[10] == 0 && r[11] == 0 && r[12] == 0x10 && r[13] == 0x69 && r[14] == 0 && r[15] == 1
    requires r[16] == 0 && r[17] == 0 && r[18] == 0 && r[19] == 0
    requires !d.getTwice && !d.cstringOnNul
    ensures DecodeDocument(d, r, DocKind)
            == Ok(Doc(if d.nestedInPlace then map[[0x64] := Doc(map[])] else map[[0x64] := Doc(map[]), [0x69] := Int32(1)]))
  {
    if d.nestedInPlace {
      NestedDocInPlace(r, d);
    } else {
      NestedDocCorrected(r, d);
    }
  }

  /** The child read as the code does, from the name's zero to the end: its first entry is an end marker. */
  lemma InPlaceChildAsWritten(r: seq<byte>, d: Discipline)
    requires |r| == 20
    requires r[0] == 0x14 && r[1] == 0 && r[2] == 0 && r[3] == 0 && r[4] == 3 && r[5] == 0x64 && r[6] == 0 && r[7] == 5
    requires r[8] == 0 && r[9] == 0 && r[10] == 0 && r[11] == 0 && r[12] == 0x10 && r[13] == 0x69 && r[14] == 0 && r[15] == 1
    requires r[16] == 0 && r[17] == 0 && r[18] == 0 && r[19] == 0
    requires d.getTwice && d.nestedInPlace
    ensures Nested(d, r, 6, DocKind) == Ok(Read(Doc(map[]), 6))
  {
    var child := r[6..];
    DocumentEntries(d, child, DocKind);
    EndAsWritten(d, child, 4, DocKind, map[]);
  }

  /** The code as written reads {"d": {}, "i": 1} as {"": {}}. */
  lemma NestedDocAsWritten(r: seq<byte>, d: Discipline)
    requires |r| == 20
    requires r[0] == 0x14 && r[1] == 0 && r[2] == 0 && r[3] == 0 && r[4] == 3 && r[5] == 0x64 && r[6] == 0 && r[7] == 5
    requires r[8] == 0 && r[9] == 0 && r[10] == 0 && r[11] == 0 && r[12] == 0x10 && r[13] == 0x69 && r[14] == 0 && r[15] == 1
    requires r[16] == 0 && r[17] == 0 && r[18] == 0 && r[19] == 0
    requires d.getTwice && d.cstringOnNul && d.nestedInPlace
    ensures DecodeDocument(d, r, DocKind) == Ok(Doc(map[[] := Doc(map[])]))
  {
    DocumentEntries(d, r, DocKind);
    EntryAsWritten(d, r, 4, DocKind, map[]);
    InPlaceChildAsWritten(r, d);
    DocumentValue(d, r, 6, [], DocKind);
    PutOne(map[], [], Doc(map[]));
    EndAsWritten(d, r, 6, DocKind, map[[] := Doc(map[])]);
  }

  // ---- code with scope ----

  /** {"c": code "x" with scope {}}: 17 00 00 00, 0F 'c' 00 0F 00 00 00 02 00 00 00 'x' 00 05 00 00 00 00, 00. */
  /** The code-with-scope value of that document, read as the format says. */
  lemma ScopeDocValue(r: seq<byte>, d: Discipline)
    requires |r| == 23
    requires r[0] == 0x17 && r[1] == 0 && r[2] == 0 && r[3] == 0 && r[4] == 15 && r[5] == 0x63 && r[6] == 0 && r[7] == 15
    requires r[8] == 0 && r[9] == 0 && r[10] == 0 && r[11] == 2 && r[12] == 0 && r[13] == 0 && r[14] == 0 && r[15] == 0x78
    requires r[16] == 0 && r[17] == 5 && r[18] == 0 && r[19] == 0 && r[20] == 0 && r[21] == 0 && r[22] == 0
    requires !d.getTwice && !d.cstringOnNul && !d.utf8Short && !d.nestedInPlace && !d.scopeNoPrefix
    ensures ScopedCodeValue(d, r, 7, DocKind) == Ok(Read(ScopedCode(CodeWScope([0x78], Doc(map[]))), 22))
  {
    ShortIntAt(r, 7);
    ShortIntAt(r, 11);
    String1At(r, 11);
    EmptyNestedAt(r, 17, d, DocKind);
  }

  lemma ScopeDocCorrected(r: seq<byte>, d: Discipline)
    requires |r| == 23
    requires r[0] == 0x17 && r[1] == 0 && r[2] == 0 && r[3] == 0 && r[4] == 15 && r[5] == 0x63 && r[6] == 0 && r[7] == 15
    requires r[8] == 0 && r[9] == 0 && r[10] == 0 && r[11] == 2 && r[12] == 0 && r[13] == 0 && r[14] == 0 && r[15] == 0x78
    requires r[16] == 0 && r[17] == 5 && r[18] == 0 && r[19] == 0 && r[20] == 0 && r[21] == 0 && r[22] == 0
    requires !d.getTwice && !d.cstringOnNul && !d.utf8Short && !d.nestedInPlace && !d.scopeNoPrefix
    ensures DecodeDocument(d, r, DocKind) == Ok(Doc(map[[0x63] := ScopedCode(CodeWScope([0x78], Doc(map[])))]))
  {
    DocumentEntries(d, r, DocKind);
    Name1At(r, 5);
    EntriesField(d, r, 4, DocKind, map[], JSCODE_W_SCOPE, 5, [0x63], 7);
    ScopeDocValue(r, d);
    var v := ScopedCode(CodeWScope([0x78], Doc(map[])));
    ScopedCodeValueAt(d, r, 7, [0x63], DocKind);
    PutOne(map[], [0x63], v);
    EndAt(d, r, 22, DocKind, map[[0x63] := v]);
  }

  lemma ScopeDocNoPrefix(r: seq<byte>, d: Discipline)
    requires |r| == 23
    requires r[0] == 0x17 && r[1] == 0 && r[2] == 0 && r[3] == 0 && r[4] == 15 && r[5] == 0x63 && r[6] == 0 && r[7] == 15
    requires r[8] == 0 && r[9] == 0 && r[10] == 0 && r[11] == 2 && r[12] == 0 && r[13] == 0 && r[14] == 0 && r[15] == 0x78
    requires r[16] == 0 && r[17] == 5 && r[18] == 0 && r[19] == 0 && r[20] == 0 && r[21] == 0 && r[22] == 0
    requires !d.getTwice && !d.cstringOnNul && !d.utf8Short && d.scopeNoPrefix
    ensures DecodeDocument(d, r, DocKind) == Err(BufferUnderrun)
  {
    DocumentEntries(d, r, DocKind);
    Name1At(r, 5);
    EntriesField(d, r, 4, DocKind, map[], JSCODE_W_SCOPE, 5, [0x63], 7);
    ShortIntAt(r, 7);
    assert GetString(d, r, 7) == Err(BufferUnderrun);
    ScopedCodeValueAt(d, r, 7, [0x63], DocKind);
  }

  /**
   * Code with scope: without its total length read, the total (15) is taken
   * for the code string's length, which runs past the buffer.
   */
  lemma ScopePrefixUnread(r: seq<byte>, d: Discipline)
    requires |r| == 23
    requires r[0] == 0x17 && r[1] == 0 && r[2] == 0 && r[3] == 0 && r[4] == 15 && r[5] == 0x63 && r[6] == 0 && r[7] == 15
    requires r[8] == 0 && r[9] == 0 && r[10] == 0 && r[11] == 2 && r[12] == 0 && r[13] == 0 && r[14] == 0 && r[15] == 0x78
    requires r[16] == 0 && r[17] == 5 && r[18] == 0 && r[19] == 0 && r[20] == 0 && r[21] == 0 && r[22] == 0
    requires !d.getTwice && !d.cstringOnNul && !d.utf8Short && !d.nestedInPlace
    ensures DecodeDocument(d, r, DocKind)
            == if d.scopeNoPrefix then Err(BufferUnderrun) else Ok(Doc(map[[0x63] := ScopedCode(CodeWScope([0x78], Doc(map[])))]))
  {
    if d.scopeNoPrefix {
      ScopeDocNoPrefix(r, d);
    } else {
      ScopeDocCorrected(r, d);
    }
  }

  /**
   * The code as written fails on the code-with-scope document, whether or
   * not the total length is read: the length read from the name's zero is
   * far too large either way.
   */
  lemma ScopeDocAsWritten(r: seq<byte>, d: Discipline)
    requires |r| == 23
    requires r[0] == 0x17 && r[1] == 0 && r[2] == 0 && r[3] == 0 && r[4] == 15 && r[5] == 0x63 && r[6] == 0 && r[7] == 15
    requires r[8] == 0 && r[9] == 0 && r[10] == 0 && r[11] == 2 && r[12] == 0 && r[13] == 0 && r[14] == 0 && r[15] == 0x78
    requires r[16] == 0 && r[17] == 5 && r[18] == 0 && r[19] == 0 && r[20] == 0 && r[21] == 0 && r[22] == 0
    requires d.getTwice && d.cstringOnNul
    ensures DecodeDocument(d, r, DocKind) == Err(BufferUnderrun)
  {
    DocumentEntries(d, r, DocKind);
    EntryAsWritten(d, r, 4, DocKind, map[]);
    ShortIntAt(r, 6);
    if d.scopeNoPrefix {
      assert GetString(d, r, 6) == Err(BufferUnderrun);
    } else {
      ShortIntAt(r, 10);
      assert GetString(d, r, 10) == Err(BufferUnderrun);
    }
    ScopedCodeValueAt(d, r, 6, [], DocKind);
  }

  // ---- BOOLEAN ----

  /**
   * BOOLEAN 0x01 falls through to the false case, so true is decoded as
   * false: {"b": true}, 09 00 00 00, 08 'b' 00 01, 00.
   */
  lemma BooleanFallThroughLosesTrue(r: seq<byte>, d: Discipline)
    requires |r| == 9
    requires r[0] == 9 && r[1] == 0 && r[2] == 0 && r[3] == 0 && r[4] == 8 && r[5] == 0x62 && r[6] == 0 && r[7] == 1
    requires r[8] == 0
    requires !d.getTwice && !d.cstringOnNul
    ensures DecodeDocument(d, r, DocKind) == Ok(Doc(map[[0x62] := Bool(!d.boolFallThrough)]))
  {
    DocumentEntries(d, r, DocKind);
    Name1At(r, 5);
    EntriesField(d, r, 4, DocKind, map[], BOOLEAN, 5, [0x62], 7);
    BooleanValueAt(d, r, 7, [0x62], DocKind);
    if d.boolFallThrough {
      DuplicatePutKeepsLast(map[], [0x62], Bool(true), Bool(false));
    } else {
      PutOne(map[], [0x62], Bool(true));
    }
    EndAt(d, r, 8, DocKind, map[[0x62] := Bool(!d.boolFallThrough)]);
  }

  /**
   * The code as written fails on {"b": true}: the flag is read from the
   * name's zero, and the end marker, one byte before the end, cannot be read
   * by a get() that moves by two.
   */
  lemma BoolDocAsWritten(r: seq<byte>, d: Discipline)
    requires |r| == 9
    requires r[0] == 9 && r[1] == 0 && r[2] == 0 && r[3] == 0 && r[4] == 8 && r[5] == 0x62 && r[6] == 0 && r[7] == 1
    requires r[8] == 0
    requires d.getTwice && d.cstringOnNul
    ensures DecodeDocument(d, r, DocKind) == Err(BufferUnderrun)
  {
    DocumentEntries(d, r, DocKind);
    EntryAsWritten(d, r, 4, DocKind, map[]);
    BooleanValueAt(d, r, 6, [], DocKind);
    LastByteAsWritten(d, r, 8, DocKind, ApplyPuts(map[], [Put([], Bool(false))]));
  }

  // ---- regexFlags(int) ----

  /**
   * regexFlags(int): a leftover sign bit makes the Java int negative, which
   * passes the `flags > 0` check, so Integer.MIN_VALUE gives "" instead of
   * an error.
   */
  lemma SignBitPassesFlagCheck()
    ensures FlagLettersAsWritten({SIGN_BIT}) == Ok("")
    ensures FlagLetters({SIGN_BIT}) == Err(UnrecognizedFlagBits)
  {
    AllFlagBitsIsTailMask();
    EmitNothing({SIGN_BIT}, 0);
  }
}
