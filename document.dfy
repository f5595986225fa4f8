/**
 * The builder sink: BSONDocumentBuilder's put* methods, each forwarding one
 * value to put, and Document.DocumentBuilder, whose put writes into a
 * string-keyed hash map that result() hands out without copying.
 */
module Documents {
  import opened BsonTypes
  import opened Results
  import Bson

  /** Document: a hash map from names to values, updated in place. */
  class Document {
    var fields: map<Text, Value>

    constructor ()
      ensures fields == map[]
    {
      fields := map[];
    }
  }

  // ---- the effect of a sequence of puts ----

  /** One builder call put(key, value). */
  datatype Put = Put(key: Text, value: Value)

  /** The map after the puts, in order, each overwriting what was there: HashMap.put. */
  function ApplyPuts(m: map<Text, Value>, puts: seq<Put>): map<Text, Value>
    decreases |puts|
  {
    if puts == [] then m else ApplyPuts(m[puts[0].key := puts[0].value], puts[1..])
  }

  /** The value of the last put under key, if any. */
  function LastPut(puts: seq<Put>, key: Text): Option<Value>
    decreases |puts|
  {
    if puts == [] then None
    else if puts[|puts| - 1].key == key then Some(puts[|puts| - 1].value)
    else LastPut(puts[..|puts| - 1], key)
  }

  /** One put is one map update. */
  lemma PutOne(m: map<Text, Value>, key: Text, value: Value)
    ensures ApplyPuts(m, [Put(key, value)]) == m[key := value]
  {
    assert [Put(key, value)][1..] == [];
  }

  /** Applying puts in two parts is applying the first part, then the second. */
  lemma {:induction false} ApplyPutsAppend(m: map<Text, Value>, ps: seq<Put>, qs: seq<Put>)
    ensures ApplyPuts(m, ps + qs) == ApplyPuts(ApplyPuts(m, ps), qs)
    decreases |ps|
  {
    if ps != [] {
      assert (ps + qs)[0] == ps[0];
      assert (ps + qs)[1..] == ps[1..] + qs;
      ApplyPutsAppend(m[ps[0].key := ps[0].value], ps[1..], qs);
    } else {
      assert ps + qs == qs;
    }
  }

  /**
   * Last write wins: after the puts, a key holds the value of the last put
   * under it; a key no put names keeps its old mapping, or stays absent.
   */
  lemma {:induction false} LastWriteWins(m: map<Text, Value>, puts: seq<Put>, key: Text)
    ensures LastPut(puts, key).Some? ==> key in ApplyPuts(m, puts) && ApplyPuts(m, puts)[key] == LastPut(puts, key).value
    ensures LastPut(puts, key).None? ==> (key in ApplyPuts(m, puts) <==> key in m)
    ensures LastPut(puts, key).None? && key in m ==> ApplyPuts(m, puts)[key] == m[key]
    decreases |puts|
  {
    if puts != [] {
      var init := puts[..|puts| - 1];
      var last := puts[|puts| - 1];
      LastWriteWins(m, init, key);
      ApplyPutsAppend(m, init, [last]);
      assert init + [last] == puts;
      var m' := ApplyPuts(m, init);
      assert ApplyPuts(m', [last]) == m'[last.key := last.value];
    }
  }

  /** Only the keys named by some put can change. */
  lemma OtherKeysUnchanged(m: map<Text, Value>, puts: seq<Put>, key: Text)
    requires forall i :: 0 <= i < |puts| ==> puts[i].key != key
    ensures key in ApplyPuts(m, puts) <==> key in m
    ensures key in m ==> ApplyPuts(m, puts)[key] == m[key]
  {
    LastWriteWins(m, puts, key);
    NoPutNoLast(puts, key);
  }

  lemma {:induction false} NoPutNoLast(puts: seq<Put>, key: Text)
    requires forall i :: 0 <= i < |puts| ==> puts[i].key != key
    ensures LastPut(puts, key) == None
    decreases |puts|
  {
    if puts != [] {
      NoPutNoLast(puts[..|puts| - 1], key);
    }
  }

  /** Duplicate names are not rejected: two puts under one key leave the second value. */
  lemma DuplicatePutKeepsLast(m: map<Text, Value>, key: Text, first: Value, second: Value)
    ensures ApplyPuts(m, [Put(key, first), Put(key, second)]) == m[key := second]
  {
    var puts := [Put(key, first), Put(key, second)];
    assert puts[1..] == [Put(key, second)];
    assert [Put(key, second)][1..] == [];
    assert ApplyPuts(m[key := first], [Put(key, second)]) == ApplyPuts(m[key := first][key := second], []);
    assert m[key := first][key := second] == m[key := second];
  }

  // ---- the builders ----

  /** Document.DocumentBuilder with the put* methods it inherits from BSONDocumentBuilder. */
  class DocumentBuilder {
    /** The document being filled; result() returns this very object. */
    const doc: Document

    constructor ()
      ensures fresh(doc) && doc.fields == map[]
    {
      doc := new Document();
    }

    /** put(key, value): the document maps key to value; every other key is as before. */
    method Put(key: Text, value: Value)
      modifies doc
      ensures doc.fields == old(doc.fields)[key := value]
    {
      doc.fields := doc.fields[key := value];
    }

    /** result(): the builder's own document, not a copy. */
    method Result() returns (d: Document)
      ensures d == doc
    {
      return doc;
    }

    /** putNull(key): put(key, null). */
    method PutNull(key: Text)
      modifies doc
      ensures doc.fields == old(doc.fields)[key := Null]
    {
      Put(key, Null);
    }

    /** putDouble(key, dbl): the double, kept as its 64 bits. */
    method PutDouble(key: Text, bits: int64)
      modifies doc
      ensures doc.fields == old(doc.fields)[key := Double(bits)]
    {
      Put(key, Double(bits));
    }

    method PutString(key: Text, str: Text)
      modifies doc
      ensures doc.fields == old(doc.fields)[key := Str(str)]
    {
      Put(key, Str(str));
    }

    /** putDocument(key, subDoc): the sub-document's contents at the time of the call. */
    method PutDocument(key: Text, subDoc: map<Text, Value>)
      modifies doc
      ensures doc.fields == old(doc.fields)[key := Doc(subDoc)]
    {
      Put(key, Doc(subDoc));
    }

    method PutList(key: Text, items: map<Text, Value>)
      modifies doc
      ensures doc.fields == old(doc.fields)[key := List(items)]
    {
      Put(key, List(items));
    }

    /** putObjectID(key, time, machine, inc): the ObjectID with its fields in argument order. */
    method PutObjectID(key: Text, time: int32, machine: int32, inc: int32)
      modifies doc
      ensures doc.fields == old(doc.fields)[key := Oid(ObjectID(time, machine, inc))]
    {
      var oid := ObjectID(time, machine, inc);
      Put(key, Oid(oid));
    }

    method PutBoolTrue(key: Text)
      modifies doc
      ensures doc.fields == old(doc.fields)[key := Bool(true)]
    {
      Put(key, Bool(true));
    }

    method PutBoolFalse(key: Text)
      modifies doc
      ensures doc.fields == old(doc.fields)[key := Bool(false)]
    {
      Put(key, Bool(false));
    }

    /** putDateTime(key, tsp): the date tsp milliseconds after the epoch. */
    method PutDateTime(key: Text, tsp: int64)
      modifies doc
      ensures doc.fields == old(doc.fields)[key := Date(tsp)]
    {
      Put(key, Date(tsp));
    }

    /**
     * putRegex(key, pattern, flags): the pattern compiled with the flag word of
     * the letters; an unrecognised letter throws before anything is put.
     */
    method PutRegex(key: Text, pattern: Text, flags: Option<string>) returns (r: Result<Bits>)
      modifies doc
      ensures r == Bson.FlagsOf(Bson.Lower(flags.GetOr("")))
      ensures r.Ok? ==> doc.fields == old(doc.fields)[key := Pattern(pattern, r.value)]
      ensures r.Err? ==> doc.fields == old(doc.fields)
    {
      r := Bson.RegexFlags(flags);
      if r.Ok? {
        Put(key, Pattern(pattern, r.value));
      }
    }

    method PutCode(key: Text, jsCode: Text)
      modifies doc
      ensures doc.fields == old(doc.fields)[key := Code(jsCode)]
    {
      Put(key, Code(jsCode));
    }

    /** putScopedCode(key, jsCode, scope): CodeWScope(jsCode, scope). */
    method PutScopedCode(key: Text, jsCode: Text, scope: Value)
      modifies doc
      ensures doc.fields == old(doc.fields)[key := ScopedCode(CodeWScope(jsCode, scope))]
    {
      Put(key, ScopedCode(CodeWScope(jsCode, scope)));
    }

    /** putSymbol(key, symbol): a symbol is put as a plain String. */
    method PutSymbol(key: Text, symbol: Text)
      modifies doc
      ensures doc.fields == old(doc.fields)[key := Str(symbol)]
    {
      Put(key, Str(symbol));
    }

    method PutInteger(key: Text, n: int32)
      modifies doc
      ensures doc.fields == old(doc.fields)[key := Int32(n)]
    {
      Put(key, Int32(n));
    }

    method PutLong(key: Text, n: int64)
      modifies doc
      ensures doc.fields == old(doc.fields)[key := Int64(n)]
    {
      Put(key, Int64(n));
    }

    /** putTimestamp(key, time, inc): BSONTimestamp(time, inc). */
    method PutTimestamp(key: Text, time: int32, inc: int32)
      modifies doc
      ensures doc.fields == old(doc.fields)[key := Timestamp(BSONTimestamp(time, inc))]
    {
      Put(key, Timestamp(BSONTimestamp(time, inc)));
    }

    /** putMinKey(key): the one MinKey instance. */
    method PutMinKey(key: Text)
      modifies doc
      ensures doc.fields == old(doc.fields)[key := MinKey]
    {
      Put(key, MinKey);
    }

    method PutMaxKey(key: Text)
      modifies doc
      ensures doc.fields == old(doc.fields)[key := MaxKey]
    {
      Put(key, MaxKey);
    }
  }

  /**
   * A fresh builder's result is empty, and a result taken before a put shows
   * that put: result() hands out the live map, not a snapshot.
   */
  method ResultIsLive(key: Text, value: Value) returns (before: map<Text, Value>, after: map<Text, Value>)
    ensures before == map[]
    ensures after == map[key := value]
  {
    var b := new DocumentBuilder();
    var d := b.Result();
    before := d.fields;
    b.Put(key, value);
    after := d.fields;
  }
}
