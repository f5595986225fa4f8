/**
 * BSONReader: a parser over a byte buffer that reads one entry at a time
 * and puts each value on a document builder. Nested documents and arrays
 * are read by child parsers over their own region of the bytes.
 *
 * Every method is proved against the decoder of module Decoding, in its
 * Corrected discipline.
 */
module Reader {
  import opened BsonTypes
  import opened Results
  import opened ByteBuffer
  import opened Bson
  import opened Documents
  import opened Decoding

  /** The new position and document after a parser step, as the decoder says. */
  ghost predicate Follows(s: Result<Step>, r: Result<bool>, pos: nat, before: map<Text, Value>, after: map<Text, Value>)
  {
    match s
    case Err(e) => r == Err(e)
    case Ok(End(next)) => r == Ok(false) && pos == next && after == before
    case Ok(Field(next, puts)) => r == Ok(true) && pos == next && after == ApplyPuts(before, puts)
  }

  /** The value read and the new position, as the decoder says. */
  ghost predicate Yields(s: Result<Read<Value>>, r: Result<Value>, pos: nat)
  {
    match s
    case Err(e) => r == Err(e)
    case Ok(rd) => r == Ok(rd.value) && pos == rd.next
  }

  class BsonReader {
    /** The cursor over this parser's bytes. */
    const buf: BsonByteBuffer
    /** The builder the values go to. */
    const b: DocumentBuilder
    /** A document parser or an array parser. */
    const kind: Kind
    /** The length the document declares in its first four bytes. */
    const len: int32
    /** Whether parse() has run to the end marker. */
    var parsed: bool

    /** The cursor lies past the declared length, within the bytes. */
    ghost predicate Valid()
      reads this, buf
    {
      buf.Valid() && 4 <= buf.pos
    }

    /**
     * The constructor of a parser over bytes: the cursor moves past the
     * declared length, and the builder starts empty.
     */
    constructor (bytes: seq<byte>, kind: Kind)
      requires |bytes| >= 4
      ensures Valid() && !parsed
      ensures buf.data == bytes && buf.pos == 4 && this.kind == kind
      ensures len == IntLE(bytes, 0).value
      ensures b.doc.fields == map[]
      ensures fresh(buf) && fresh(b) && fresh(b.doc)
    {
      var cursor := new BsonByteBuffer.Wrap(bytes);
      var declared := cursor.GetInt();
      buf := cursor;
      b := new DocumentBuilder();
      this.kind := kind;
      len := declared.value;
      parsed := false;
    }

    /**
     * parse(): parseEntry until it returns false; then the parser is
     * marked parsed. An exception from parseEntry ends it early.
     */
    method Parse() returns (r: Result<()>)
      requires Valid()
      modifies this, buf, b.doc
      ensures Valid()
      ensures match DecodeEntries(Corrected, buf.data, old(buf.pos), kind, old(b.doc.fields))
              case Ok(p) => r == Ok(()) && buf.pos == p.end && b.doc.fields == p.fields && parsed
              case Err(e) => r == Err(e)
      decreases |buf.data|, 4
    {
      ghost var start := buf.pos;
      ghost var fields := b.doc.fields;
      while true
        invariant Valid()
        invariant DecodeEntries(Corrected, buf.data, start, kind, fields)
               == DecodeEntries(Corrected, buf.data, buf.pos, kind, b.doc.fields)
        decreases |buf.data| - buf.pos
      {
        var more := ParseEntry();
        if more.Err? {
          return Err(more.error);
        }
        if !more.value {
          parsed := true;
          return Ok(());
        }
      }
    }

    /**
     * parseEntry(): the tag byte; false at the end marker; otherwise the
     * name, then the value for the tag, and true.
     */
    method ParseEntry() returns (r: Result<bool>)
      requires Valid()
      modifies buf, b.doc
      ensures Valid()
      ensures Follows(DecodeEntry(Corrected, buf.data, old(buf.pos), kind), r, buf.pos, old(b.doc.fields), b.doc.fields)
      decreases |buf.data|, 3
    {
      ghost var start := buf.pos;
      var tag :- buf.Get();
      assert GetByte(Corrected, buf.data, start) == Ok(Read(tag, start + 1));
      if tag == EOO {
        return Ok(false);
      }
      var name :- buf.GetCString();
      assert DecodeEntry(Corrected, buf.data, start, kind) == DecodeValue(Corrected, buf.data, buf.pos, tag, name, kind);
      r := ParseValue(tag, name);
    }

    /** The switch of parseEntry for the tags whose values are nested documents. */
    method ParseValue(tag: byte, name: Text) returns (r: Result<bool>)
      requires Valid()
      modifies buf, b.doc
      ensures Valid()
      ensures Follows(DecodeValue(Corrected, buf.data, old(buf.pos), tag, name, kind), r, buf.pos, old(b.doc.fields), b.doc.fields)
      decreases |buf.data|, 2
    {
      var v: Value;
      if tag == DOCUMENT {
        v :- ParseNested(kind);
      } else if tag == ARRAY {
        v :- ParseArray();
      } else if tag == JSCODE_W_SCOPE {
        v :- ParseScopedCode();
      } else {
        r := ParseText(tag, name);
        return;
      }
      PutOne(b.doc.fields, name, v);
      b.Put(name, v);
      return Ok(true);
    }

    /** The switch of parseEntry for the tags whose values are strings, and DBRef. */
    method ParseText(tag: byte, name: Text) returns (r: Result<bool>)
      requires Valid()
      modifies buf, b.doc
      ensures Valid()
      ensures Follows(DecodeText(Corrected, buf.data, old(buf.pos), tag, name), r, buf.pos, old(b.doc.fields), b.doc.fields)
    {
      var v: Value;
      if tag == STRING || tag == SYMBOL {
        var s :- buf.GetUTF8String();
        v := Str(s);
      } else if tag == JSCODE {
        var code :- buf.GetUTF8String();
        v := Code(code);
      } else if tag == REGEX {
        var pattern :- buf.GetCString();
        var options :- buf.GetCString();
        return Ok(true);
      } else if tag == DBREF {
        return Err(UnsupportedFeature);
      } else {
        r := ParseScalar(tag, name);
        return;
      }
      PutOne(b.doc.fields, name, v);
      b.Put(name, v);
      return Ok(true);
    }

    /** The switch of parseEntry for the fixed-width values and the unknown tags. */
    method ParseScalar(tag: byte, name: Text) returns (r: Result<bool>)
      requires Valid()
      modifies buf, b.doc
      ensures Valid()
      ensures Follows(DecodeScalar(Corrected, buf.data, old(buf.pos), tag, name), r, buf.pos, old(b.doc.fields), b.doc.fields)
    {
      var v: Value;
      if tag == NULL || tag == UNDEF {
        v := Null;
      } else if tag == DOUBLE {
        var bits :- buf.GetLong();
        v := Double(bits);
      } else if tag == BINARY {
        return Ok(true);
      } else if tag == OBJECTID {
        var time :- buf.GetIntBE();
        var machine :- buf.GetIntBE();
        var inc :- buf.GetIntBE();
        v := Oid(ObjectID(time, machine, inc));
      } else if tag == BOOLEAN {
        var flag :- buf.Get();
        v := Bool(flag == 0x01);
      } else if tag == UTC_DATETIME {
        var tsp :- buf.GetLong();
        v := Date(tsp);
      } else if tag == INT32 {
        var n :- buf.GetInt();
        v := Int32(n);
      } else if tag == INT64 {
        var n :- buf.GetLong();
        v := Int64(n);
      } else if tag == TIMESTAMP {
        var inc :- buf.GetInt();
        var time :- buf.GetInt();
        v := Timestamp(BSONTimestamp(time, inc));
      } else if tag == MIN_KEY {
        v := MinKey;
      } else if tag == MAX_KEY {
        v := MaxKey;
      } else {
        return Err(UnsupportedType(tag));
      }
      PutOne(b.doc.fields, name, v);
      b.Put(name, v);
      return Ok(true);
    }

    /** parseArray(): the nested document at the cursor, read by an array parser. */
    method ParseArray() returns (r: Result<Value>)
      requires Valid()
      modifies buf
      ensures Valid()
      ensures Yields(Nested(Corrected, buf.data, old(buf.pos), ListKind), r, buf.pos)
      decreases |buf.data|, 1
    {
      r := ParseNested(ListKind);
    }

    /**
     * JSCODE_W_SCOPE: the total length, the code string, then the scope
     * document, read by a parser of this parser's kind.
     */
    method ParseScopedCode() returns (r: Result<Value>)
      requires Valid()
      modifies buf
      ensures Valid()
      ensures Yields(ScopedCodeValue(Corrected, buf.data, old(buf.pos), kind), r, buf.pos)
      decreases |buf.data|, 1
    {
      var total :- buf.GetInt();
      var code :- buf.GetUTF8String();
      var scope :- ParseNested(kind);
      return Ok(ScopedCode(CodeWScope(code, scope)));
    }

    /**
     * A child parser of the given kind over the region of the declared
     * length at the cursor; the cursor then moves past the region.
     */
    method ParseNested(childKind: Kind) returns (r: Result<Value>)
      requires Valid()
      modifies buf
      ensures Valid()
      ensures Yields(Nested(Corrected, buf.data, old(buf.pos), childKind), r, buf.pos)
      decreases |buf.data|, 0
    {
      var p := buf.pos;
      var size :- IntLE(buf.data, p);
      if size < 0 || p + size > |buf.data| {
        return Err(InvalidLength);
      }
      var child :- Open(buf.data[p..p + size], childKind);
      var v :- child.Result();
      var moved := buf.Position(p + size);
      return Ok(v);
    }

    /** result(): parse if not yet parsed, then the builder's document. */
    method Result() returns (r: Result<Value>)
      requires Valid()
      modifies this, buf, b.doc
      ensures Valid()
      ensures old(parsed) ==> r == Ok(Wrap(kind, b.doc.fields)) && b.doc.fields == old(b.doc.fields)
                              && parsed && buf.pos == old(buf.pos)
      ensures !old(parsed) ==> match DecodeEntries(Corrected, buf.data, old(buf.pos), kind, old(b.doc.fields))
              case Ok(p) => r == Ok(Wrap(kind, p.fields)) && parsed && b.doc.fields == p.fields && buf.pos == p.end
              case Err(e) => r == Err(e)
      decreases |buf.data|, 5
    {
      if !parsed {
        var done :- Parse();
      }
      var d := b.Result();
      return Ok(Wrap(kind, d.fields));
    }
  }

  /**
   * A parser over bytes of the given kind, or the exception its constructor
   * throws when the bytes are too few to hold the declared length.
   */
  method Open(bytes: seq<byte>, kind: Kind) returns (r: Result<BsonReader>)
    ensures r.Ok? <==> |bytes| >= 4
    ensures r.Err? ==> r.error == BufferUnderrun
    ensures r.Ok? ==> fresh(r.value) && fresh(r.value.buf) && fresh(r.value.b) && fresh(r.value.b.doc)
    ensures r.Ok? ==> r.value.Valid() && !r.value.parsed && r.value.kind == kind
    ensures r.Ok? ==> r.value.buf.data == bytes && r.value.buf.pos == 4 && r.value.b.doc.fields == map[]
  {
    if |bytes| < 4 {
      return Err(BufferUnderrun);
    }
    var reader := new BsonReader(bytes, kind);
    return Ok(reader);
  }


  /**
   * result() parses at most once: after a first call that succeeds, a second
   * call gives the same document, and the reader stays parsed with its
   * cursor where the first call left it.
   */
  method ResultTwice(reader: BsonReader) returns (r1: Result<Value>, r2: Result<Value>)
    requires reader.Valid()
    modifies reader, reader.buf, reader.b.doc
    ensures r1.Ok? ==> r2 == r1 && reader.parsed
    ensures r1.Ok? && old(reader.parsed) ==> reader.buf.pos == old(reader.buf.pos)
    ensures r1.Ok? && !old(reader.parsed) ==>
              var e := DecodeEntries(Corrected, reader.buf.data, old(reader.buf.pos), reader.kind, old(reader.b.doc.fields));
              e.Ok? && reader.buf.pos == e.value.end
  {
    r1 := reader.Result();
    r2 := reader.Result();
  }
  /** Parse bytes as a document (or an array) and give its result. */
  method Decode(bytes: seq<byte>, kind: Kind) returns (r: Result<Value>)
    ensures r == DecodeDocument(Corrected, bytes, kind)
  {
    var reader :- Open(bytes, kind);
    r := reader.Result();
  }
}
