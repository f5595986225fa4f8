/**
 * What BSONReader computes, as functions of the bytes: the entries of a
 * document, one tag-dispatched entry at a time, and the puts each entry
 * makes on the builder.
 *
 * The functions take a Discipline saying, for each place where the Java
 * code's cursor arithmetic departs from the BSON wire format, whether to
 * follow the code as written or the format. `AsWritten` follows the code's
 * cursor arithmetic throughout; `Corrected` follows the format throughout
 * and is what the BsonReader class implements. A nested document is read
 * as its own sequence of bytes under either discipline.
 */
module Decoding {
  import opened BsonTypes
  import opened Results
  import opened ByteBuffer
  import opened Bson
  import opened Documents

  /** Which parser reads a document: DefaultBSONDocParser or DefaultBSONArrayParser. */
  datatype Kind = DocKind | ListKind

  /** The builder's result: a Document, or a BSONList keyed by the positional names. */
  function Wrap(kind: Kind, fields: map<Text, Value>): (v: Value)
    ensures v.Doc? <==> kind == DocKind
    ensures v.Doc? ==> v.fields == fields
    ensures v.List? ==> v.items == fields
  {
    match kind
    case DocKind => Doc(fields)
    case ListKind => List(fields)
  }

  /**
   * For each departure of the Java code from the wire format, whether to
   * follow the code (true) or the format (false).
   */
  datatype Discipline = Discipline(
    getTwice: bool,         // get() moves the cursor by two
    cstringOnNul: bool,     // getCString() stops on the terminating zero
    utf8Short: bool,        // getUTF8String() moves by the declared length minus one
    nestedInPlace: bool,    // nested documents are read from a slice and the cursor does not move past them
    scopeNoPrefix: bool,    // code-with-scope's leading total length is not read
    boolFallThrough: bool   // BOOLEAN 0x01 falls through and also puts false
  )

  const AsWritten := Discipline(true, true, true, true, true, true)
  const Corrected := Discipline(false, false, false, false, false, false)

  // ---- the reads each discipline uses ----

  function GetByte(d: Discipline, r: seq<byte>, p: nat): (res: Result<Read<byte>>)
    ensures res.Ok? ==> p < res.value.next <= |r| && res.value.value == r[p]
  {
    if d.getTwice then ReadByteAsWritten(r, p) else ReadByte(r, p)
  }

  function GetName(d: Discipline, r: seq<byte>, p: nat): (res: Result<Read<Text>>)
    ensures res.Ok? ==> p <= res.value.next <= |r|
    ensures res.Ok? ==> CString(r, p).Ok? && res.value.value == CString(r, p).value
  {
    if d.cstringOnNul then ReadCStringAsWritten(r, p) else ReadCString(r, p)
  }

  function GetString(d: Discipline, r: seq<byte>, p: nat): (res: Result<Read<Text>>)
    ensures res.Ok? ==> p <= res.value.next <= |r|
    ensures res.Ok? ==> UTF8String(r, p).Ok? && res.value.value == UTF8String(r, p).value
  {
    if d.utf8Short then ReadUTF8StringAsWritten(r, p) else ReadUTF8String(r, p)
  }

  // ---- the decoder ----

  /** What one parseEntry call did: met the end marker, or read one field and made these puts. */
  datatype Step = End(next: nat) | Field(next: nat, puts: seq<Put>)

  /** The entries of a document and the position after its end marker. */
  datatype Parsed = Parsed(fields: map<Text, Value>, end: nat)

  /**
   * A reader over the bytes r: the constructor reads the declared length
   * (which nothing else uses) and the entries follow it; the result is the
   * builder's document.
   */
  function DecodeDocument(d: Discipline, r: seq<byte>, kind: Kind): (res: Result<Value>)
    ensures res.Ok? ==> |r| >= 4 && (if kind == DocKind then res.value.Doc? else res.value.List?)
    decreases |r|, 4, 0
  {
    var len :- ReadInt32(r, 0);
    var parsed :- DecodeEntries(d, r, len.next, kind, map[]);
    Ok(Wrap(kind, parsed.fields))
  }

  /** parse(): parseEntry until it meets the end marker, applying each entry's puts. */
  function DecodeEntries(d: Discipline, r: seq<byte>, p: nat, kind: Kind, acc: map<Text, Value>): (res: Result<Parsed>)
    requires 0 < p <= |r|
    ensures res.Ok? ==> p < res.value.end <= |r|
    decreases |r|, 3, |r| - p
  {
    var step :- DecodeEntry(d, r, p, kind);
    match step
    case End(next) => Ok(Parsed(acc, next))
    case Field(next, puts) => DecodeEntries(d, r, next, kind, ApplyPuts(acc, puts))
  }

  /**
   * parseEntry(): the tag byte; the end marker stops without reading a name;
   * any other tag reads the name and then the value.
   */
  function DecodeEntry(d: Discipline, r: seq<byte>, p: nat, kind: Kind): (res: Result<Step>)
    requires 0 < p <= |r|
    ensures res.Ok? ==> p < res.value.next <= |r|
    ensures res.Ok? && res.value.End? ==> GetByte(d, r, p).Ok? && GetByte(d, r, p).value.value == EOO
    decreases |r|, 2, 0
  {
    var tag :- GetByte(d, r, p);
    if tag.value == EOO then Ok(End(tag.next))
    else
      var name :- GetName(d, r, tag.next);
      DecodeValue(d, r, name.next, tag.value, name.value, kind)
  }

  /** The one put a case makes, and the position after its value. */
  function One(next: nat, name: Text, v: Value): Step {
    Field(next, [Put(name, v)])
  }

  /**
   * The switch of parseEntry: the value for tag at p, the puts it makes, and
   * where it ends. The cases that read nested documents are here; the others
   * are in DecodeText and DecodeScalar.
   */
  function DecodeValue(d: Discipline, r: seq<byte>, p: nat, tag: byte, name: Text, kind: Kind): (res: Result<Step>)
    requires 0 < p <= |r|
    ensures res.Ok? ==> res.value.Field? && p <= res.value.next <= |r|
    ensures res.Ok? ==> forall i :: 0 <= i < |res.value.puts| ==> res.value.puts[i].key == name
    decreases |r|, 1, 0
  {
    if tag == DOCUMENT then
      var doc :- Nested(d, r, p, kind);
      Ok(One(doc.next, name, doc.value))
    else if tag == ARRAY then
      var list :- Nested(d, r, p, ListKind);
      Ok(One(list.next, name, list.value))
    else if tag == JSCODE_W_SCOPE then
      var cws :- ScopedCodeValue(d, r, p, kind);
      Ok(One(cws.next, name, cws.value))
    else DecodeText(d, r, p, tag, name)
  }

  /** The cases of parseEntry's switch that read strings, and DBRef. */
  function DecodeText(d: Discipline, r: seq<byte>, p: nat, tag: byte, name: Text): (res: Result<Step>)
    requires p <= |r|
    ensures res.Ok? ==> res.value.Field? && p <= res.value.next <= |r|
    ensures res.Ok? ==> forall i :: 0 <= i < |res.value.puts| ==> res.value.puts[i].key == name
  {
    if tag == STRING || tag == SYMBOL then
      var s :- GetString(d, r, p);
      Ok(One(s.next, name, Str(s.value)))
    else if tag == JSCODE then
      var code :- GetString(d, r, p);
      Ok(One(code.next, name, Code(code.value)))
    else if tag == REGEX then
      var pattern :- GetName(d, r, p);
      var options :- GetName(d, r, pattern.next);
      Ok(Field(options.next, []))
    else if tag == DBREF then Err(UnsupportedFeature)
    else DecodeScalar(d, r, p, tag, name)
  }

  /** The cases of parseEntry's switch whose values have a fixed width, and the unknown tags. */
  function DecodeScalar(d: Discipline, r: seq<byte>, p: nat, tag: byte, name: Text): (res: Result<Step>)
    requires p <= |r|
    ensures res.Ok? ==> res.value.Field? && p <= res.value.next <= |r|
    ensures res.Ok? ==> forall i :: 0 <= i < |res.value.puts| ==> res.value.puts[i].key == name
  {
    if tag == NULL || tag == UNDEF then Ok(One(p, name, Null))
    else if tag == DOUBLE then
      var x :- ReadInt64(r, p);
      Ok(One(x.next, name, Double(x.value)))
    else if tag == BINARY then
      Ok(Field(p, []))
    else if tag == OBJECTID then
      var time :- ReadInt32BE(r, p);
      var machine :- ReadInt32BE(r, time.next);
      var inc :- ReadInt32BE(r, machine.next);
      Ok(One(inc.next, name, Oid(ObjectID(time.value, machine.value, inc.value))))
    else if tag == BOOLEAN then
      var b :- GetByte(d, r, p);
      if b.value == 0x01 then
        if d.boolFallThrough then Ok(Field(b.next, [Put(name, Bool(true)), Put(name, Bool(false))]))
        else Ok(One(b.next, name, Bool(true)))
      else Ok(One(b.next, name, Bool(false)))
    else if tag == UTC_DATETIME then
      var tsp :- ReadInt64(r, p);
      Ok(One(tsp.next, name, Date(tsp.value)))
    else if tag == INT32 then
      var x :- ReadInt32(r, p);
      Ok(One(x.next, name, Int32(x.value)))
    else if tag == INT64 then
      var x :- ReadInt64(r, p);
      Ok(One(x.next, name, Int64(x.value)))
    else if tag == TIMESTAMP then
      var inc :- ReadInt32(r, p);
      var time :- ReadInt32(r, inc.next);
      Ok(One(time.next, name, Timestamp(BSONTimestamp(time.value, inc.value))))
    else if tag == MIN_KEY then Ok(One(p, name, MinKey))
    else if tag == MAX_KEY then Ok(One(p, name, MaxKey))
    else Err(UnsupportedType(tag))
  }

  /**
   * JSCODE_W_SCOPE: (the total length,) the code string, then the scope
   * document, read by a parser of the reader's own kind.
   */
  function ScopedCodeValue(d: Discipline, r: seq<byte>, p: nat, kind: Kind): (res: Result<Read<Value>>)
    requires 0 < p <= |r|
    ensures res.Ok? ==> p <= res.value.next <= |r| && res.value.value.ScopedCode?
    decreases |r|, 0, 1
  {
    var start :- if d.scopeNoPrefix then Ok(p) else
                   var total :- ReadInt32(r, p);
                   Ok(total.next);
    var code :- GetString(d, r, start);
    var scope :- Nested(d, r, code.next, kind);
    Ok(Read(ScopedCode(CodeWScope(code.value, scope.value)), scope.next))
  }

  /**
   * A nested document at p, read by a child parser of the given kind. As
   * written, the child reads a slice from p to the end of the buffer and the
   * cursor stays at p. Following the format, the child reads the region of
   * the declared length at p, and the cursor moves past it.
   */
  function Nested(d: Discipline, r: seq<byte>, p: nat, kind: Kind): (res: Result<Read<Value>>)
    requires 0 < p <= |r|
    ensures res.Ok? ==> p <= res.value.next <= |r|
    ensures res.Ok? ==> if kind == DocKind then res.value.value.Doc? else res.value.value.List?
    decreases |r|, 0, 0
  {
    if d.nestedInPlace then
      var child :- DecodeDocument(d, r[p..], kind);
      Ok(Read(child, p))
    else
      var len :- IntLE(r, p);
      if len < 0 || p + len > |r| then Err(InvalidLength)
      else
        var child :- DecodeDocument(d, r[p..p + len], kind);
        Ok(Read(child, p + len))
  }
}
