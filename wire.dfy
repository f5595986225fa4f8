/**
 * Decoding bytes whose layout is known: what the decoder does with a name,
 * an int, an end marker or one entry at a known place.
 */
module Wire {
  import opened BsonTypes
  import opened Results
  import opened ByteBuffer
  import opened Bson
  import opened Documents
  import opened Decoding

  // ---- the reads ----

  /** A zero-free name followed by its zero reads as itself, wherever it sits. */
  lemma NameAt(r: seq<byte>, p: nat, name: Text)
    requires p + |name| < |r| && r[p..p + |name|] == name && r[p + |name|] == 0 && 0 !in name
    ensures CString(r, p) == Ok(name)
  {
    var s := CString(r, p);
    assert forall k :: p <= k < p + |name| ==> r[k] == name[k - p];
    assert s.Ok?;
  }

  /** A one-byte name. */
  lemma Name1At(r: seq<byte>, p: nat)
    requires p + 1 < |r| && r[p] != 0 && r[p + 1] == 0
    ensures CString(r, p) == Ok([r[p]])
  {
    NameAt(r, p, [r[p]]);
  }

  /** An int whose two high bytes are zero reads from its two low bytes. */
  lemma ShortIntAt(r: seq<byte>, p: nat)
    requires p + 4 <= |r| && r[p + 2] == 0 && r[p + 3] == 0
    ensures IntLE(r, p) == Ok((r[p] as int) + 256 * (r[p + 1] as int))
  {
    var bs := r[p..p + 4];
    var b1, b2, b3 := bs[1..], bs[2..], bs[3..];
    assert b1[1..] == b2 && b2[1..] == b3 && b3[1..] == [];
    assert LE(b3) == 0 && LE(b2) == 0;
    assert LE(bs) == (r[p] as int) + 256 * (r[p + 1] as int);
  }

  /** A one-byte string: its declared length 2 counts the byte and the zero. */
  lemma String1At(r: seq<byte>, p: nat)
    requires p + 6 <= |r| && IntLE(r, p) == Ok(2)
    ensures UTF8String(r, p) == Ok([r[p + 4]])
    ensures ReadUTF8String(r, p) == Ok(Read([r[p + 4]], p + 6))
    ensures ReadUTF8StringAsWritten(r, p) == Ok(Read([r[p + 4]], p + 1))
  {
    assert r[p + 4..p + 5] == [r[p + 4]];
  }

  // ---- one step of parse() ----

  /** parse() stops at an end marker, with the entries read so far. */
  lemma EntriesEnd(d: Discipline, r: seq<byte>, p: nat, kind: Kind, acc: map<Text, Value>, next: nat)
    requires 0 < p <= |r|
    requires GetByte(d, r, p) == Ok(Read(EOO, next))
    ensures DecodeEntries(d, r, p, kind, acc) == Ok(Parsed(acc, next))
  {
    assert DecodeEntry(d, r, p, kind) == Ok(End(next));
  }

  /** parse() goes on after an entry with the entry's puts applied. */
  lemma EntriesField(d: Discipline, r: seq<byte>, p: nat, kind: Kind, acc: map<Text, Value>, tag: byte, q: nat, name: Text, at: nat)
    requires 0 < p <= |r|
    requires GetByte(d, r, p) == Ok(Read(tag, q)) && tag != EOO
    requires GetName(d, r, q) == Ok(Read(name, at))
    ensures 0 < at <= |r|
    ensures DecodeValue(d, r, at, tag, name, kind).Ok? ==>
              var step := DecodeValue(d, r, at, tag, name, kind).value;
              DecodeEntries(d, r, p, kind, acc) == DecodeEntries(d, r, step.next, kind, ApplyPuts(acc, step.puts))
    ensures DecodeValue(d, r, at, tag, name, kind).Err? ==>
              DecodeEntries(d, r, p, kind, acc) == Err(DecodeValue(d, r, at, tag, name, kind).error)
  {
    assert DecodeEntry(d, r, p, kind) == DecodeValue(d, r, at, tag, name, kind);
  }

  /** The document at the start of r: its declared length, then its entries from offset 4. */
  lemma DocumentEntries(d: Discipline, r: seq<byte>, kind: Kind)
    requires |r| >= 4
    ensures DecodeEntries(d, r, 4, kind, map[]).Ok? ==>
              DecodeDocument(d, r, kind) == Ok(Wrap(kind, DecodeEntries(d, r, 4, kind, map[]).value.fields))
    ensures DecodeEntries(d, r, 4, kind, map[]).Err? ==>
              DecodeDocument(d, r, kind) == Err(DecodeEntries(d, r, 4, kind, map[]).error)
  {
  }

  /** An end marker at p, read by a get() that moves by one. */
  lemma EndAt(d: Discipline, r: seq<byte>, p: nat, kind: Kind, acc: map<Text, Value>)
    requires !d.getTwice && 0 < p < |r| && r[p] == EOO
    ensures DecodeEntries(d, r, p, kind, acc) == Ok(Parsed(acc, p + 1))
  {
    EntriesEnd(d, r, p, kind, acc, p + 1);
  }

  /** An INT32 entry with a one-byte name and a value below 2^16, read as the format says. */
  lemma Int32Entry(d: Discipline, r: seq<byte>, p: nat, kind: Kind, acc: map<Text, Value>)
    requires !d.getTwice && !d.cstringOnNul
    requires 0 < p && p + 7 <= |r|
    requires r[p] == INT32 && r[p + 1] != 0 && r[p + 2] == 0 && r[p + 5] == 0 && r[p + 6] == 0
    ensures DecodeEntries(d, r, p, kind, acc)
            == DecodeEntries(d, r, p + 7, kind, acc[[r[p + 1]] := Int32((r[p + 3] as int) + 256 * (r[p + 4] as int))])
  {
    var name := [r[p + 1]];
    var x := (r[p + 3] as int) + 256 * (r[p + 4] as int);
    Name1At(r, p + 1);
    EntriesField(d, r, p, kind, acc, INT32, p + 1, name, p + 3);
    ShortIntAt(r, p + 3);
    Int32Value(d, r, p + 3, name, kind, x);
    PutOne(acc, name, Int32(x));
  }

  /** A STRING entry with a one-byte name and a one-byte string, read as the format says. */
  lemma String1Entry(d: Discipline, r: seq<byte>, p: nat, kind: Kind, acc: map<Text, Value>)
    requires !d.getTwice && !d.cstringOnNul && !d.utf8Short
    requires 0 < p && p + 9 <= |r|
    requires r[p] == STRING && r[p + 1] != 0 && r[p + 2] == 0
    requires r[p + 3] == 2 && r[p + 4] == 0 && r[p + 5] == 0 && r[p + 6] == 0
    ensures DecodeEntries(d, r, p, kind, acc) == DecodeEntries(d, r, p + 9, kind, acc[[r[p + 1]] := Str([r[p + 7]])])
  {
    var name := [r[p + 1]];
    Name1At(r, p + 1);
    EntriesField(d, r, p, kind, acc, STRING, p + 1, name, p + 3);
    ShortIntAt(r, p + 3);
    String1At(r, p + 3);
    StringValue(d, r, p + 3, name, kind);
    PutOne(acc, name, Str([r[p + 7]]));
  }

  /** A nested document in its declared region, as the format says: the cursor moves past the region. */
  lemma NestedAt(d: Discipline, r: seq<byte>, p: nat, kind: Kind, len: int32, child: Value)
    requires !d.nestedInPlace && 0 < p
    requires IntLE(r, p) == Ok(len) && 0 <= len && p + len <= |r|
    requires DecodeDocument(d, r[p..p + len], kind) == Ok(child)
    ensures Nested(d, r, p, kind) == Ok(Read(child, p + len))
  {
  }

  /** A DOCUMENT entry with a one-byte name: the nested document's value, and the cursor where Nested leaves it. */
  lemma DocumentEntry(d: Discipline, r: seq<byte>, p: nat, kind: Kind, acc: map<Text, Value>, child: Value, next: nat)
    requires !d.getTwice && !d.cstringOnNul
    requires 0 < p && p + 3 <= |r| && r[p] == DOCUMENT && r[p + 1] != 0 && r[p + 2] == 0
    requires Nested(d, r, p + 3, kind) == Ok(Read(child, next))
    ensures 0 < next <= |r|
    ensures DecodeEntries(d, r, p, kind, acc) == DecodeEntries(d, r, next, kind, acc[[r[p + 1]] := child])
  {
    var name := [r[p + 1]];
    Name1At(r, p + 1);
    EntriesField(d, r, p, kind, acc, DOCUMENT, p + 1, name, p + 3);
    DocumentValue(d, r, p + 3, name, kind);
    PutOne(acc, name, child);
  }

  /**
   * An entry header read as the code does: get() moves by two, past the tag
   * and the name's first byte, and getCString() then reads the empty name at
   * the name's zero and stays on it, so the value is read from that zero.
   */
  lemma EntryAsWritten(d: Discipline, r: seq<byte>, p: nat, kind: Kind, acc: map<Text, Value>)
    requires d.getTwice && d.cstringOnNul
    requires 0 < p && p + 3 <= |r| && r[p] != EOO && r[p + 2] == 0
    ensures DecodeValue(d, r, p + 2, r[p], [], kind).Ok? ==>
              var step := DecodeValue(d, r, p + 2, r[p], [], kind).value;
              DecodeEntries(d, r, p, kind, acc) == DecodeEntries(d, r, step.next, kind, ApplyPuts(acc, step.puts))
    ensures DecodeValue(d, r, p + 2, r[p], [], kind).Err? ==>
              DecodeEntries(d, r, p, kind, acc) == Err(DecodeValue(d, r, p + 2, r[p], [], kind).error)
  {
    NameAt(r, p + 2, []);
    EntriesField(d, r, p, kind, acc, r[p], p + 2, [], p + 2);
  }

  /** An end marker at p, read by a get() that moves by two. */
  lemma EndAsWritten(d: Discipline, r: seq<byte>, p: nat, kind: Kind, acc: map<Text, Value>)
    requires d.getTwice && 0 < p && p + 2 <= |r| && r[p] == EOO
    ensures DecodeEntries(d, r, p, kind, acc) == Ok(Parsed(acc, p + 2))
  {
    EntriesEnd(d, r, p, kind, acc, p + 2);
  }

  /** A tag one byte before the end, read by a get() that moves by two: it cannot be read. */
  lemma LastByteAsWritten(d: Discipline, r: seq<byte>, p: nat, kind: Kind, acc: map<Text, Value>)
    requires d.getTwice && 0 < p && p + 1 == |r|
    ensures DecodeEntries(d, r, p, kind, acc) == Err(BufferUnderrun)
  {
  }

  // ---- the values ----

  /** An INT32 value: four bytes, little-endian. */
  lemma Int32Value(d: Discipline, r: seq<byte>, p: nat, name: Text, kind: Kind, x: int32)
    requires 0 < p <= |r| && IntLE(r, p) == Ok(x)
    ensures DecodeValue(d, r, p, INT32, name, kind) == Ok(Field(p + 4, [Put(name, Int32(x))]))
  {
    assert DecodeValue(d, r, p, INT32, name, kind) == DecodeText(d, r, p, INT32, name);
  }

  /** A STRING value: what the discipline's getUTF8String reads. */
  lemma StringValue(d: Discipline, r: seq<byte>, p: nat, name: Text, kind: Kind)
    requires 0 < p <= |r|
    ensures GetString(d, r, p).Ok? ==>
              DecodeValue(d, r, p, STRING, name, kind) == Ok(Field(GetString(d, r, p).value.next, [Put(name, Str(GetString(d, r, p).value.value))]))
  {
    assert DecodeValue(d, r, p, STRING, name, kind) == DecodeText(d, r, p, STRING, name);
  }

  /** A DOCUMENT value: the nested document, read by a parser of the same kind. */
  lemma DocumentValue(d: Discipline, r: seq<byte>, p: nat, name: Text, kind: Kind)
    requires 0 < p <= |r|
    ensures Nested(d, r, p, kind).Ok? ==>
              DecodeValue(d, r, p, DOCUMENT, name, kind) == Ok(Field(Nested(d, r, p, kind).value.next, [Put(name, Nested(d, r, p, kind).value.value)]))
  {
  }

  /** A JSCODE_W_SCOPE value. */
  lemma ScopedCodeValueAt(d: Discipline, r: seq<byte>, p: nat, name: Text, kind: Kind)
    requires 0 < p <= |r|
    ensures ScopedCodeValue(d, r, p, kind).Ok? ==>
              DecodeValue(d, r, p, JSCODE_W_SCOPE, name, kind)
              == Ok(Field(ScopedCodeValue(d, r, p, kind).value.next, [Put(name, ScopedCodeValue(d, r, p, kind).value.value)]))
    ensures ScopedCodeValue(d, r, p, kind).Err? ==>
              DecodeValue(d, r, p, JSCODE_W_SCOPE, name, kind) == Err(ScopedCodeValue(d, r, p, kind).error)
  {
  }

  /** A BOOLEAN value: the byte after the name. */
  lemma BooleanValueAt(d: Discipline, r: seq<byte>, p: nat, name: Text, kind: Kind)
    requires 0 < p && GetByte(d, r, p).Ok?
    ensures var b := GetByte(d, r, p).value;
            DecodeValue(d, r, p, BOOLEAN, name, kind)
            == Ok(Field(b.next, if b.value == 0x01 && d.boolFallThrough then [Put(name, Bool(true)), Put(name, Bool(false))]
                                else [Put(name, Bool(b.value == 0x01))]))
  {
    assert DecodeValue(d, r, p, BOOLEAN, name, kind) == DecodeText(d, r, p, BOOLEAN, name);
  }

  /** A Binary tag consumes nothing and puts nothing. */
  lemma BinaryValue(d: Discipline, r: seq<byte>, p: nat, name: Text, kind: Kind)
    requires 0 < p <= |r|
    ensures DecodeValue(d, r, p, BINARY, name, kind) == Ok(Field(p, []))
  {
    assert DecodeValue(d, r, p, BINARY, name, kind) == DecodeText(d, r, p, BINARY, name);
  }
}
