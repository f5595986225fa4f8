/**
 * The values a decoded document holds: the Java objects the reader hands to
 * its builder (boxed primitives, String, Document, BSONList, ObjectID,
 * BSONTimestamp, Code, CodeWScope, the MinKey/MaxKey singletons, a compiled
 * Pattern), as one closed datatype.
 */
module BsonTypes {

  /** An unsigned byte; the Java code's signed bytes are compared as bit patterns. */
  type byte = x: int | 0 <= x < 0x100

  /** A Java `int` and a Java `long`. */
  type int32 = x: int | -0x8000_0000 <= x < 0x8000_0000
  type int64 = x: int | -0x8000_0000_0000_0000 <= x < 0x8000_0000_0000_0000

  /**
   * A Java String built from bytes of the buffer. The model keeps the encoded
   * bytes themselves: character decoding is not modelled.
   */
  type Text = seq<byte>

  /**
   * A Java int used as a word of flag bits, as the set of the positions of its
   * one bits (0 the least significant, 31 the sign bit).
   */
  type Bits = set<nat>

  /** ObjectID: three 32-bit fields, in constructor-argument order. */
  datatype ObjectID = ObjectID(time: int32, machine: int32, inc: int32)

  /** BSONTimestamp(time, inc). */
  datatype BSONTimestamp = BSONTimestamp(time: int32, inc: int32)

  /** JavaScript code paired with the scope document it runs in. */
  datatype CodeWScope = CodeWScope(code: Text, scope: Value)

  datatype Value =
    | Null                                  // Java null (BSON null and undefined)
    | Double(bits: int64)                   // the raw IEEE-754 bits of a double
    | Str(text: Text)                       // String (also used for BSON symbols)
    | Doc(fields: map<Text, Value>)         // Document, a string-keyed hash map
    | List(items: map<Text, Value>)         // BSONList, keyed by the positional names
    | Oid(oid: ObjectID)
    | Bool(b: bool)
    | Date(millis: int64)                   // java.util.Date from milliseconds since the epoch
    | Code(code: Text)
    | ScopedCode(cws: CodeWScope)
    | Int32(i: int32)
    | Int64(l: int64)
    | Timestamp(ts: BSONTimestamp)
    | MinKey                                // the BSON.MinKey singleton
    | MaxKey                                // the BSON.MaxKey singleton
    | Pattern(pattern: Text, flags: Bits)   // a java.util.regex.Pattern: its source and flags

  /** getScope(): the scope the value was built with. */
  function GetScope(c: CodeWScope): (s: Value)
    ensures CodeWScope(c.code, s) == c
  {
    c.scope
  }

  /**
   * equals(Object): false for anything that is not a CodeWScope, otherwise
   * code and scope compared field by field.
   */
  function Equals(c: CodeWScope, o: Value): (r: bool)
    ensures r <==> o == ScopedCode(c)
    ensures !o.ScopedCode? ==> !r
  {
    o.ScopedCode? && c.code == o.cws.code && c.scope == o.cws.scope
  }

  /**
   * hashCode(): the code's hash XOR the scope's hash. The hash functions of
   * String and of the scope type are parameters.
   */
  function HashCode(c: CodeWScope, codeHash: Text -> bv32, scopeHash: Value -> bv32): (h: bv32)
    ensures h ^ scopeHash(c.scope) == codeHash(c.code)
    ensures h ^ codeHash(c.code) == scopeHash(c.scope)
  {
    codeHash(c.code) ^ scopeHash(c.scope)
  }

  /** Equal values have equal hash codes, whatever the component hash functions. */
  lemma EqualsImpliesEqualHash(c: CodeWScope, d: CodeWScope, codeHash: Text -> bv32, scopeHash: Value -> bv32)
    requires Equals(c, ScopedCode(d))
    ensures HashCode(c, codeHash, scopeHash) == HashCode(d, codeHash, scopeHash)
  {
  }

  /** equals is an equivalence: reflexive and symmetric. */
  lemma EqualsReflexiveSymmetric(c: CodeWScope, d: CodeWScope)
    ensures Equals(c, ScopedCode(c))
    ensures Equals(c, ScopedCode(d)) <==> Equals(d, ScopedCode(c))
  {
  }
}
