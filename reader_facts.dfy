/**
 * What the decoder of BSONReader guarantees, over all inputs: the bytes it
 * reads, what each entry puts, which tags it rejects, and that it never
 * looks past the end of the document it decodes.
 */
module ReaderFacts {
  import opened BsonTypes
  import opened Results
  import opened ByteBuffer
  import opened Bson
  import opened Documents
  import opened Decoding

  // ---- one entry ----

  /**
   * The end marker: following the format, parseEntry returns false exactly
   * when the tag byte is 0x00, having consumed that byte alone and put nothing.
   */
  lemma EndMarker(r: seq<byte>, p: nat, kind: Kind)
    requires 0 < p <= |r|
    ensures DecodeEntry(Corrected, r, p, kind).Ok? && DecodeEntry(Corrected, r, p, kind).value.End?
            <==> p < |r| && r[p] == EOO
    ensures p < |r| && r[p] == EOO ==> DecodeEntry(Corrected, r, p, kind) == Ok(End(p + 1))
  {
    if p < |r| && r[p] != EOO {
      var tag := GetByte(Corrected, r, p);
      var name := GetName(Corrected, r, p + 1);
      if name.Ok? {
        assert DecodeEntry(Corrected, r, p, kind) == DecodeValue(Corrected, r, name.value.next, r[p], name.value.value, kind);
      }
    }
  }

  /**
   * Any other entry reads its name, the cstring after the tag, and puts
   * under that name: at most one value, except a BOOLEAN 0x01 when the case
   * falls through, which puts true and then false.
   */
  lemma EntryPuts(d: Discipline, r: seq<byte>, p: nat, kind: Kind)
    requires 0 < p <= |r|
    requires DecodeEntry(d, r, p, kind).Ok? && DecodeEntry(d, r, p, kind).value.Field?
    ensures p < |r| && r[p] != EOO
    ensures GetByte(d, r, p).Ok? && CString(r, GetByte(d, r, p).value.next).Ok?
    ensures var name := CString(r, GetByte(d, r, p).value.next).value;
            var puts := DecodeEntry(d, r, p, kind).value.puts;
            && (forall i :: 0 <= i < |puts| ==> puts[i].key == name)
            && (|puts| <= 1 || (d.boolFallThrough && r[p] == BOOLEAN && puts == [Put(name, Bool(true)), Put(name, Bool(false))]))
  {
    var tag := GetByte(d, r, p).value;
    var name := GetName(d, r, tag.next).value;
    ValuePuts(d, r, name.next, tag.value, name.value, kind);
  }

  /** The puts of parseEntry's switch: one, none (Binary, Regex), or two for a falling-through BOOLEAN. */
  lemma ValuePuts(d: Discipline, r: seq<byte>, p: nat, tag: byte, name: Text, kind: Kind)
    requires 0 < p <= |r|
    requires DecodeValue(d, r, p, tag, name, kind).Ok?
    ensures var puts := DecodeValue(d, r, p, tag, name, kind).value.puts;
            |puts| <= 1 || (d.boolFallThrough && tag == BOOLEAN && puts == [Put(name, Bool(true)), Put(name, Bool(false))])
    ensures tag == BINARY || tag == REGEX <==> DecodeValue(d, r, p, tag, name, kind).value.puts == []
  {
    if tag != DOCUMENT && tag != ARRAY && tag != JSCODE_W_SCOPE {
      TextPuts(d, r, p, tag, name);
    }
  }

  lemma TextPuts(d: Discipline, r: seq<byte>, p: nat, tag: byte, name: Text)
    requires p <= |r|
    requires DecodeText(d, r, p, tag, name).Ok?
    ensures var puts := DecodeText(d, r, p, tag, name).value.puts;
            |puts| <= 1 || (d.boolFallThrough && tag == BOOLEAN && puts == [Put(name, Bool(true)), Put(name, Bool(false))])
    ensures tag == BINARY || tag == REGEX <==> DecodeText(d, r, p, tag, name).value.puts == []
  {
    if tag != STRING && tag != SYMBOL && tag != JSCODE && tag != REGEX && tag != DBREF {
      ScalarPuts(d, r, p, tag, name);
    }
  }

  lemma ScalarPuts(d: Discipline, r: seq<byte>, p: nat, tag: byte, name: Text)
    requires p <= |r|
    requires DecodeScalar(d, r, p, tag, name).Ok?
    ensures var puts := DecodeScalar(d, r, p, tag, name).value.puts;
            |puts| <= 1 || (d.boolFallThrough && tag == BOOLEAN && puts == [Put(name, Bool(true)), Put(name, Bool(false))])
    ensures tag == BINARY <==> DecodeScalar(d, r, p, tag, name).value.puts == []
  {
  }

  /** The tags parseEntry's switch reads without a nested document or a string. */
  lemma ValueIsScalar(d: Discipline, r: seq<byte>, p: nat, tag: byte, name: Text, kind: Kind)
    requires 0 < p <= |r|
    requires tag !in {DOCUMENT, ARRAY, JSCODE_W_SCOPE, STRING, SYMBOL, JSCODE, REGEX, DBREF}
    ensures DecodeValue(d, r, p, tag, name, kind) == DecodeScalar(d, r, p, tag, name)
  {
    assert DecodeValue(d, r, p, tag, name, kind) == DecodeText(d, r, p, tag, name);
  }

  /** The wire width of the values of fixed size, in bytes (section "element" of the BSON 1.0 grammar). */
  function Width(tag: byte): nat {
    if tag == BOOLEAN then 1
    else if tag == INT32 then 4
    else if tag == DOUBLE || tag == UTC_DATETIME || tag == INT64 || tag == TIMESTAMP then 8
    else if tag == OBJECTID then 12
    else 0
  }

  /** The tags whose values have a fixed size on the wire. */
  const FixedTags: set<byte> := {NULL, UNDEF, MIN_KEY, MAX_KEY, BOOLEAN, INT32, DOUBLE, UTC_DATETIME, INT64, TIMESTAMP, OBJECTID}

  /**
   * The value a fixed-size element carries, read with the absolute reads at
   * its offset: null for NULL and UNDEF, the byte 0x01 as true, the raw long
   * for DOUBLE, UTC_DATETIME and INT64, the increment before the time for
   * TIMESTAMP, three big-endian ints for OBJECTID.
   */
  function FixedValue(r: seq<byte>, p: nat, tag: byte): Value
    requires tag in FixedTags && p + Width(tag) <= |r|
  {
    if tag == NULL || tag == UNDEF then Null
    else if tag == MIN_KEY then MinKey
    else if tag == MAX_KEY then MaxKey
    else if tag == BOOLEAN then Bool(r[p] == 0x01)
    else if tag == INT32 then Int32(IntLE(r, p).value)
    else if tag == DOUBLE then Double(Long(r, p).value)
    else if tag == UTC_DATETIME then Date(Long(r, p).value)
    else if tag == INT64 then Int64(Long(r, p).value)
    else if tag == TIMESTAMP then Timestamp(BSONTimestamp(IntLE(r, p + 4).value, IntLE(r, p).value))
    else Oid(ObjectID(IntBE(r, p).value, IntBE(r, p + 4).value, IntBE(r, p + 8).value))
  }

  /**
   * A fixed-size value is read exactly when its bytes are all there, the
   * cursor then moves by the value's width, and the one value put under the
   * name is the element's value. NULL, UNDEF, MIN_KEY and MAX_KEY consume
   * nothing.
   */
  lemma FixedWidthValues(r: seq<byte>, p: nat, tag: byte, name: Text, kind: Kind)
    requires 0 < p <= |r| && tag in FixedTags
    ensures DecodeValue(Corrected, r, p, tag, name, kind).Ok? <==> p + Width(tag) <= |r|
    ensures DecodeValue(Corrected, r, p, tag, name, kind).Err? ==> DecodeValue(Corrected, r, p, tag, name, kind).error == BufferUnderrun
    ensures DecodeValue(Corrected, r, p, tag, name, kind).Ok? ==>
              var step := DecodeValue(Corrected, r, p, tag, name, kind).value;
              step.next == p + Width(tag) && step.puts == [Put(name, FixedValue(r, p, tag))]
  {
    ValueIsScalar(Corrected, r, p, tag, name, kind);
    ScalarWidths(Corrected, r, p, tag, name);
  }

  /** The same for the fixed-width switch, under any discipline whose get() and BOOLEAN follow the format. */
  lemma ScalarWidths(d: Discipline, r: seq<byte>, p: nat, tag: byte, name: Text)
    requires !d.getTwice && !d.boolFallThrough
    requires p <= |r| && tag in FixedTags
    ensures DecodeScalar(d, r, p, tag, name).Ok? <==> p + Width(tag) <= |r|
    ensures DecodeScalar(d, r, p, tag, name).Err? ==> DecodeScalar(d, r, p, tag, name).error == BufferUnderrun
    ensures DecodeScalar(d, r, p, tag, name).Ok? ==>
              var step := DecodeScalar(d, r, p, tag, name).value;
              step.next == p + Width(tag) && step.puts == [Put(name, FixedValue(r, p, tag))]
  {
    if tag in {NULL, UNDEF, MIN_KEY, MAX_KEY} {
      NoBytesRead(d, r, p, tag, name);
    } else if tag in {BOOLEAN, INT32} {
      ShortRead(d, r, p, tag, name);
    } else if tag in {DOUBLE, UTC_DATETIME, INT64} {
      LongRead(d, r, p, tag, name);
    } else if tag == TIMESTAMP {
      TimestampRead(d, r, p, name);
    } else {
      ObjectIdRead(d, r, p, name);
    }
  }

  /** The fixed-width contract for one tag. */
  ghost predicate ReadsFixed(d: Discipline, r: seq<byte>, p: nat, tag: byte, name: Text)
    requires p <= |r| && tag in FixedTags
  {
    var s := DecodeScalar(d, r, p, tag, name);
    && (s.Ok? <==> p + Width(tag) <= |r|)
    && (s.Err? ==> s.error == BufferUnderrun)
    && (s.Ok? ==> s.value.next == p + Width(tag) && s.value.puts == [Put(name, FixedValue(r, p, tag))])
  }

  lemma NoBytesRead(d: Discipline, r: seq<byte>, p: nat, tag: byte, name: Text)
    requires p <= |r| && tag in {NULL, UNDEF, MIN_KEY, MAX_KEY}
    ensures ReadsFixed(d, r, p, tag, name)
  {
  }

  lemma ShortRead(d: Discipline, r: seq<byte>, p: nat, tag: byte, name: Text)
    requires !d.getTwice && !d.boolFallThrough
    requires p <= |r| && tag in {BOOLEAN, INT32}
    ensures ReadsFixed(d, r, p, tag, name)
  {
  }

  lemma LongRead(d: Discipline, r: seq<byte>, p: nat, tag: byte, name: Text)
    requires p <= |r| && tag in {DOUBLE, UTC_DATETIME, INT64}
    ensures ReadsFixed(d, r, p, tag, name)
  {
  }

  lemma TimestampRead(d: Discipline, r: seq<byte>, p: nat, name: Text)
    requires p <= |r|
    ensures ReadsFixed(d, r, p, TIMESTAMP, name)
  {
  }

  lemma ObjectIdRead(d: Discipline, r: seq<byte>, p: nat, name: Text)
    requires p <= |r|
    ensures ReadsFixed(d, r, p, OBJECTID, name)
  {
  }

  /** OBJECTID: three big-endian ints, in order, as ObjectID(time, machine, inc). */
  lemma ObjectIdFieldsInOrder(r: seq<byte>, p: nat, name: Text, kind: Kind)
    requires 0 < p && p + 12 <= |r|
    ensures DecodeValue(Corrected, r, p, OBJECTID, name, kind).Ok?
    ensures var v := DecodeValue(Corrected, r, p, OBJECTID, name, kind).value.puts[0].value;
            v.Oid? && EncodeInt32BE(v.oid.time) == r[p..p + 4]
            && EncodeInt32BE(v.oid.machine) == r[p + 4..p + 8] && EncodeInt32BE(v.oid.inc) == r[p + 8..p + 12]
  {
    ValueIsScalar(Corrected, r, p, OBJECTID, name, kind);
  }

  /** TIMESTAMP: the increment comes first on the wire, the time second. */
  lemma TimestampIncrementFirst(r: seq<byte>, p: nat, name: Text, kind: Kind)
    requires 0 < p && p + 8 <= |r|
    ensures DecodeValue(Corrected, r, p, TIMESTAMP, name, kind).Ok?
    ensures var v := DecodeValue(Corrected, r, p, TIMESTAMP, name, kind).value.puts[0].value;
            v.Timestamp? && EncodeInt32LE(v.ts.inc) == r[p..p + 4] && EncodeInt32LE(v.ts.time) == r[p + 4..p + 8]
  {
    ValueIsScalar(Corrected, r, p, TIMESTAMP, name, kind);
  }

  /**
   * BOOLEAN, following the format: the byte 0x01 is true and any other byte
   * false. As written, 0x01 also ends as false: the second put overwrites it.
   */
  lemma BooleanValue(d: Discipline, r: seq<byte>, p: nat, name: Text, kind: Kind, m: map<Text, Value>)
    requires 0 < p < |r| && (d.getTwice ==> p + 2 <= |r|)
    ensures DecodeValue(d, r, p, BOOLEAN, name, kind).Ok?
    ensures ApplyPuts(m, DecodeValue(d, r, p, BOOLEAN, name, kind).value.puts)
            == m[name := Bool(r[p] == 0x01 && !d.boolFallThrough)]
  {
    ValueIsScalar(d, r, p, BOOLEAN, name, kind);
    var puts := DecodeScalar(d, r, p, BOOLEAN, name).value.puts;
    if r[p] == 0x01 && d.boolFallThrough {
      DuplicatePutKeepsLast(m, name, Bool(true), Bool(false));
    } else {
      assert puts == [Put(name, Bool(r[p] == 0x01))];
      assert puts[1..] == [];
    }
  }

  /** After the tag and the name, DBREF is refused before any of its value is read or put. */
  lemma DBRefUnsupported(d: Discipline, r: seq<byte>, p: nat, name: Text, kind: Kind)
    requires 0 < p <= |r|
    ensures DecodeValue(d, r, p, DBREF, name, kind) == Err(UnsupportedFeature)
  {
    assert DecodeValue(d, r, p, DBREF, name, kind) == DecodeText(d, r, p, DBREF, name);
  }

  /**
   * An array parser's nested documents are arrays too, since its child
   * parsers are array parsers; an ARRAY value is a list whatever the parser.
   */
  lemma ArrayParserNestsArrays(d: Discipline, r: seq<byte>, p: nat, tag: byte, name: Text, kind: Kind)
    requires 0 < p <= |r| && (tag == DOCUMENT || tag == ARRAY)
    requires DecodeValue(d, r, p, tag, name, kind).Ok?
    ensures var v := DecodeValue(d, r, p, tag, name, kind).value.puts[0].value;
            v.List? <==> tag == ARRAY || kind == ListKind
  {
    var nested := Nested(d, r, p, if tag == ARRAY then ListKind else kind);
    assert DecodeValue(d, r, p, tag, name, kind) == Ok(One(nested.value.next, name, nested.value.value));
  }

  /**
   * A nested document, following the format, is the region of its declared
   * length at the cursor, decoded on its own, and the cursor moves past it.
   */
  lemma NestedRegion(r: seq<byte>, p: nat, kind: Kind)
    requires 0 < p <= |r|
    requires Nested(Corrected, r, p, kind).Ok?
    ensures IntLE(r, p).Ok? && 0 <= IntLE(r, p).value
    ensures var next := Nested(Corrected, r, p, kind).value.next;
            next == p + IntLE(r, p).value
            && Ok(Nested(Corrected, r, p, kind).value.value) == DecodeDocument(Corrected, r[p..next], kind)
  {
  }

  // ---- the type table ----

  /** A failure that names a type names one outside the type table. */
  ghost predicate OnlyUnknownTags<T>(res: Result<T>) {
    res.Err? && res.error.UnsupportedType? ==> res.error.tag !in Tags
  }

  lemma {:induction false} DocumentTags(d: Discipline, r: seq<byte>, kind: Kind)
    ensures OnlyUnknownTags(DecodeDocument(d, r, kind))
    decreases |r|, 4, 0
  {
    if |r| >= 4 {
      EntriesTags(d, r, 4, kind, map[]);
    }
  }

  lemma {:induction false} EntriesTags(d: Discipline, r: seq<byte>, p: nat, kind: Kind, acc: map<Text, Value>)
    requires 0 < p <= |r|
    ensures OnlyUnknownTags(DecodeEntries(d, r, p, kind, acc))
    decreases |r|, 3, |r| - p
  {
    EntryTags(d, r, p, kind);
    var step := DecodeEntry(d, r, p, kind);
    if step.Ok? && step.value.Field? {
      EntriesTags(d, r, step.value.next, kind, ApplyPuts(acc, step.value.puts));
    }
  }

  lemma {:induction false} EntryTags(d: Discipline, r: seq<byte>, p: nat, kind: Kind)
    requires 0 < p <= |r|
    ensures OnlyUnknownTags(DecodeEntry(d, r, p, kind))
    decreases |r|, 2, 0
  {
    var tag := GetByte(d, r, p);
    if tag.Ok? && tag.value.value != EOO {
      var name := GetName(d, r, tag.value.next);
      if name.Ok? {
        ValueTags(d, r, name.value.next, tag.value.value, name.value.value, kind);
      }
    }
  }

  lemma {:induction false} ValueTags(d: Discipline, r: seq<byte>, p: nat, tag: byte, name: Text, kind: Kind)
    requires 0 < p <= |r| && tag != EOO
    ensures OnlyUnknownTags(DecodeValue(d, r, p, tag, name, kind))
    decreases |r|, 1, 0
  {
    if tag == DOCUMENT {
      NestedTags(d, r, p, kind);
    } else if tag == ARRAY {
      NestedTags(d, r, p, ListKind);
    } else if tag == JSCODE_W_SCOPE {
      ScopedCodeTags(d, r, p, kind);
    } else {
      TextTags(d, r, p, tag, name);
    }
  }

  lemma TextTags(d: Discipline, r: seq<byte>, p: nat, tag: byte, name: Text)
    requires p <= |r| && tag != EOO && tag !in {DOCUMENT, ARRAY, JSCODE_W_SCOPE}
    ensures OnlyUnknownTags(DecodeText(d, r, p, tag, name))
  {
    if tag != STRING && tag != SYMBOL && tag != JSCODE && tag != REGEX && tag != DBREF {
      ScalarTags(d, r, p, tag, name);
    }
  }

  lemma ScalarTags(d: Discipline, r: seq<byte>, p: nat, tag: byte, name: Text)
    requires p <= |r| && tag != EOO
    requires tag !in {DOCUMENT, ARRAY, JSCODE_W_SCOPE, STRING, SYMBOL, JSCODE, REGEX, DBREF}
    ensures OnlyUnknownTags(DecodeScalar(d, r, p, tag, name))
  {
  }

  lemma {:induction false} ScopedCodeTags(d: Discipline, r: seq<byte>, p: nat, kind: Kind)
    requires 0 < p <= |r|
    ensures OnlyUnknownTags(ScopedCodeValue(d, r, p, kind))
    decreases |r|, 0, 2
  {
    var start := if d.scopeNoPrefix then Ok(p) else
                   var total :- ReadInt32(r, p);
                   Ok(total.next);
    if start.Ok? {
      var code := GetString(d, r, start.value);
      if code.Ok? {
        NestedTags(d, r, code.value.next, kind);
      }
    }
  }

  lemma {:induction false} NestedTags(d: Discipline, r: seq<byte>, p: nat, kind: Kind)
    requires 0 < p <= |r|
    ensures OnlyUnknownTags(Nested(d, r, p, kind))
    decreases |r|, 0, 1
  {
    if d.nestedInPlace {
      InPlaceTags(d, r, p, kind);
    } else {
      RegionTags(d, r, p, kind);
    }
  }

  lemma {:induction false} InPlaceTags(d: Discipline, r: seq<byte>, p: nat, kind: Kind)
    requires 0 < p <= |r| && d.nestedInPlace
    ensures OnlyUnknownTags(Nested(d, r, p, kind))
    decreases |r|, 0, 0
  {
    var child := DecodeDocument(d, r[p..], kind);
    DocumentTags(d, r[p..], kind);
    assert child.Err? ==> Nested(d, r, p, kind) == Err(child.error);
  }

  lemma {:induction false} RegionTags(d: Discipline, r: seq<byte>, p: nat, kind: Kind)
    requires 0 < p <= |r| && !d.nestedInPlace
    ensures OnlyUnknownTags(Nested(d, r, p, kind))
    decreases |r|, 0, 0
  {
    var len := IntLE(r, p);
    if len.Ok? && 0 <= len.value && p + len.value <= |r| {
      var child := DecodeDocument(d, r[p..p + len.value], kind);
      DocumentTags(d, r[p..p + len.value], kind);
      assert child.Err? ==> Nested(d, r, p, kind) == Err(child.error);
    }
  }

  /**
   * An entry whose tag is outside the type table fails with that tag, and
   * only such a tag fails that way: every tag in the table is decoded (or,
   * for DBREF, refused as a feature), wherever the entry sits.
   */
  lemma UnknownTagRejected(d: Discipline, r: seq<byte>, p: nat, tag: byte, name: Text, kind: Kind)
    requires 0 < p <= |r| && tag != EOO
    ensures tag !in Tags <==> DecodeValue(d, r, p, tag, name, kind) == Err(UnsupportedType(tag))
  {
    ValueTags(d, r, p, tag, name, kind);
    if tag !in Tags {
      ValueIsScalar(d, r, p, tag, name, kind);
    }
  }

  // ---- the decoder reads nothing past the end of its document ----

  lemma {:induction false} CStringEndTrailing(r: seq<byte>, extra: seq<byte>, i: nat)
    requires CStringEnd(r, i).Some?
    ensures CStringEnd(r + extra, i) == CStringEnd(r, i)
    decreases |r| - i
  {
    if r[i] != 0 {
      CStringEndTrailing(r, extra, i + 1);
    }
  }

  lemma IntLETrailing(r: seq<byte>, extra: seq<byte>, p: nat)
    requires IntLE(r, p).Ok?
    ensures IntLE(r + extra, p) == IntLE(r, p)
  {
    assert (r + extra)[p..p + 4] == r[p..p + 4];
  }

  lemma IntBETrailing(r: seq<byte>, extra: seq<byte>, p: nat)
    requires IntBE(r, p).Ok?
    ensures IntBE(r + extra, p) == IntBE(r, p)
  {
    assert (r + extra)[p..p + 4] == r[p..p + 4];
  }

  lemma LongTrailing(r: seq<byte>, extra: seq<byte>, p: nat)
    requires Long(r, p).Ok?
    ensures Long(r + extra, p) == Long(r, p)
  {
    assert (r + extra)[p..p + 8] == r[p..p + 8];
  }

  lemma CStringTrailing(r: seq<byte>, extra: seq<byte>, p: nat)
    requires CString(r, p).Ok?
    ensures CString(r + extra, p) == CString(r, p)
  {
    var e := CStringEnd(r, p).value;
    CStringEndTrailing(r, extra, p);
    assert (r + extra)[p..e] == r[p..e];
  }

  lemma UTF8StringTrailing(r: seq<byte>, extra: seq<byte>, p: nat)
    requires UTF8String(r, p).Ok?
    ensures UTF8String(r + extra, p) == UTF8String(r, p)
  {
    IntLETrailing(r, extra, p);
    var n := |UTF8String(r, p).value|;
    assert (r + extra)[p + 4..p + 4 + n] == r[p + 4..p + 4 + n];
  }

  lemma NameTrailing(d: Discipline, r: seq<byte>, extra: seq<byte>, p: nat)
    requires GetName(d, r, p).Ok?
    ensures GetName(d, r + extra, p) == GetName(d, r, p)
  {
    CStringTrailing(r, extra, p);
  }

  lemma StringTrailing(d: Discipline, r: seq<byte>, extra: seq<byte>, p: nat)
    requires GetString(d, r, p).Ok?
    ensures GetString(d, r + extra, p) == GetString(d, r, p)
  {
    UTF8StringTrailing(r, extra, p);
    if !d.utf8Short {
      assert ReadUTF8String(r + extra, p) == ReadUTF8String(r, p);
    }
  }

  lemma ScalarTrailing(d: Discipline, r: seq<byte>, extra: seq<byte>, p: nat, tag: byte, name: Text)
    requires p <= |r|
    requires DecodeScalar(d, r, p, tag, name).Ok?
    ensures DecodeScalar(d, r + extra, p, tag, name) == DecodeScalar(d, r, p, tag, name)
  {
    if tag == DOUBLE || tag == UTC_DATETIME || tag == INT64 {
      LongTrailing(r, extra, p);
    } else if tag == OBJECTID {
      IntBETrailing(r, extra, p);
      IntBETrailing(r, extra, p + 4);
      IntBETrailing(r, extra, p + 8);
    } else if tag == INT32 {
      IntLETrailing(r, extra, p);
    } else if tag == TIMESTAMP {
      IntLETrailing(r, extra, p);
      IntLETrailing(r, extra, p + 4);
    }
  }

  lemma TextTrailing(d: Discipline, r: seq<byte>, extra: seq<byte>, p: nat, tag: byte, name: Text)
    requires p <= |r|
    requires DecodeText(d, r, p, tag, name).Ok?
    ensures DecodeText(d, r + extra, p, tag, name) == DecodeText(d, r, p, tag, name)
  {
    if tag == STRING || tag == SYMBOL || tag == JSCODE {
      StringTrailing(d, r, extra, p);
    } else if tag == REGEX {
      NameTrailing(d, r, extra, p);
      NameTrailing(d, r, extra, GetName(d, r, p).value.next);
    } else {
      ScalarTrailing(d, r, extra, p, tag, name);
    }
  }

  /**
   * Bytes after a document change nothing: a decode that succeeds reads
   * only up to the document's end marker.
   */
  lemma {:induction false} DocumentTrailing(d: Discipline, r: seq<byte>, extra: seq<byte>, kind: Kind)
    requires DecodeDocument(d, r, kind).Ok?
    ensures DecodeDocument(d, r + extra, kind) == DecodeDocument(d, r, kind)
    decreases |r|, 4, 0
  {
    IntLETrailing(r, extra, 0);
    EntriesTrailing(d, r, extra, 4, kind, map[]);
  }

  lemma {:induction false} EntriesTrailing(d: Discipline, r: seq<byte>, extra: seq<byte>, p: nat, kind: Kind, acc: map<Text, Value>)
    requires 0 < p <= |r|
    requires DecodeEntries(d, r, p, kind, acc).Ok?
    ensures DecodeEntries(d, r + extra, p, kind, acc) == DecodeEntries(d, r, p, kind, acc)
    decreases |r|, 3, |r| - p
  {
    EntryTrailing(d, r, extra, p, kind);
    var step := DecodeEntry(d, r, p, kind).value;
    if step.Field? {
      EntriesTrailing(d, r, extra, step.next, kind, ApplyPuts(acc, step.puts));
    }
  }

  lemma {:induction false} EntryTrailing(d: Discipline, r: seq<byte>, extra: seq<byte>, p: nat, kind: Kind)
    requires 0 < p <= |r|
    requires DecodeEntry(d, r, p, kind).Ok?
    ensures DecodeEntry(d, r + extra, p, kind) == DecodeEntry(d, r, p, kind)
    decreases |r|, 2, 0
  {
    var tag := GetByte(d, r, p).value;
    assert GetByte(d, r + extra, p) == GetByte(d, r, p);
    if tag.value != EOO {
      NameTrailing(d, r, extra, tag.next);
      var name := GetName(d, r, tag.next).value;
      ValueTrailing(d, r, extra, name.next, tag.value, name.value, kind);
    }
  }

  lemma {:induction false} ValueTrailing(d: Discipline, r: seq<byte>, extra: seq<byte>, p: nat, tag: byte, name: Text, kind: Kind)
    requires 0 < p <= |r|
    requires DecodeValue(d, r, p, tag, name, kind).Ok?
    ensures DecodeValue(d, r + extra, p, tag, name, kind) == DecodeValue(d, r, p, tag, name, kind)
    decreases |r|, 1, 0
  {
    if tag == DOCUMENT {
      NestedTrailing(d, r, extra, p, kind);
    } else if tag == ARRAY {
      NestedTrailing(d, r, extra, p, ListKind);
    } else if tag == JSCODE_W_SCOPE {
      ScopedCodeTrailing(d, r, extra, p, kind);
    } else {
      TextTrailing(d, r, extra, p, tag, name);
    }
  }

  lemma {:induction false} ScopedCodeTrailing(d: Discipline, r: seq<byte>, extra: seq<byte>, p: nat, kind: Kind)
    requires 0 < p <= |r|
    requires ScopedCodeValue(d, r, p, kind).Ok?
    ensures ScopedCodeValue(d, r + extra, p, kind) == ScopedCodeValue(d, r, p, kind)
    decreases |r|, 0, 1
  {
    if !d.scopeNoPrefix {
      IntLETrailing(r, extra, p);
    }
    var start := if d.scopeNoPrefix then p else p + 4;
    StringTrailing(d, r, extra, start);
    var code := GetString(d, r, start).value;
    NestedTrailing(d, r, extra, code.next, kind);
  }

  lemma {:induction false} NestedTrailing(d: Discipline, r: seq<byte>, extra: seq<byte>, p: nat, kind: Kind)
    requires 0 < p <= |r|
    requires Nested(d, r, p, kind).Ok?
    ensures Nested(d, r + extra, p, kind) == Nested(d, r, p, kind)
    decreases |r|, 0, 0
  {
    if d.nestedInPlace {
      assert (r + extra)[p..] == r[p..] + extra;
      DocumentTrailing(d, r[p..], extra, kind);
    } else {
      IntLETrailing(r, extra, p);
      var len := IntLE(r, p).value;
      assert (r + extra)[p..p + len] == r[p..p + len];
    }
  }
}
