# mag7 BSON decoder, modelled in Dafny

This project models the decoding core of mag7, a Java BSON library:

- **BSONByteBuffer.** The cursor over the bytes of a document. It has absolute reads: little- and big-endian ints, longs, cstrings and length-prefixed strings. It also has relative reads, which move `position`.
- **BSONReader.** It reads the declared length, then one tag-dispatched entry at a time until the end marker. It puts each value on a document builder, and reads nested documents and arrays with child parsers.
- **BSON.** The type-tag and binary-subtype constants, the regular-expression flag table and both `regexFlags` conversions, and `dumpBytes`.
- **BSONDocumentBuilder and Document.DocumentBuilder.** The `put*` forwarders, and a `put` that writes into a hash map which `result()` hands out without copying.
- **CodeWScope.** Code paired with a scope document, with `getScope`, `equals` and `hashCode`.

The modules follow the source:

| module | what it models |
|---|---|
| `Results` | error and option types |
| `BsonTypes` | the values a document holds, and CodeWScope |
| `Bson` | BSON.java |
| `ByteBuffer` | BSONByteBuffer, as functions over the bytes and as a class with a cursor |
| `Documents` | the builders |
| `Decoding` | what the reader computes, as functions of the bytes |
| `Reader` | the BSONReader class, each method proved against `Decoding` |
| `ReaderFacts` | properties of the decoder over all inputs |
| `Wire` | step lemmas for bytes of known layout |
| `Findings` | the places where the code departs from the wire format |

The Java code advances its cursor differently from the BSON wire format in several places (see "## Findings"). The decoder functions therefore take a `Discipline` that picks, for each such place, the code as written or the format. `Decoding.AsWritten` follows the code's cursor arithmetic, though not the offset mismatch in nested documents described under "## Left out". `Decoding.Corrected` follows the format; the `Reader.BsonReader` class implements it.

Notation:

- Flag words are `Bits`, the set of the positions of the one bits of a Java `int`.
- Strings are their UTF-8 bytes.
- Doubles are their 64 raw bits.

## Model

| member | source | states |
|---|---|---|
| Bson.TagTableLayout | src/main/java/net/evilmonkeylabs/mag7/bson/BSON.java:11-31 | The type tags are 0x00..0x12 in table order, then MIN_KEY = 0xFF and MAX_KEY = 0x7F, and all of them differ |
| Bson.BinarySubtypeLayout | src/main/java/net/evilmonkeylabs/mag7/bson/BSON.java:33-66 | The binary subtypes are 0x00..0x05 in order, then USER_DEFINED = 0x80 |
| Bson.ByCharacterFinds | src/main/java/net/evilmonkeylabs/mag7/bson/BSON.java:188-190 | getByCharacter finds a row exactly for the table's letters, and the row it finds carries the letter asked for |
| Bson.ByCharacterRow | src/main/java/net/evilmonkeylabs/mag7/bson/BSON.java:170-190 | Looking up a row's own letter finds that row |
| Bson.RegexFlag | src/main/java/net/evilmonkeylabs/mag7/bson/BSON.java:132-143 | An error exactly for a letter outside c,d,g,i,m,s,t,u,x, and the error names the letter. c,d,s,t,u give 0. g, i, m and x give RE_GLOBAL_FLAG, CASE_INSENSITIVE, MULTILINE and COMMENTS |
| Bson.RegexFlags | src/main/java/net/evilmonkeylabs/mag7/bson/BSON.java:111-130 | The loop's result is the OR of the flags of the lower-cased letters. A missing string gives 0. Unsupported flags are ORed in. An unknown letter is an error |
| Bson.FlagsOfStep | src/main/java/net/evilmonkeylabs/mag7/bson/BSON.java:118-126 | One loop step: an unknown first letter fails with that letter, and a known one ORs its flag into the rest |
| Bson.FlagsOfSucceeds | src/main/java/net/evilmonkeylabs/mag7/bson/BSON.java:118-127 | regexFlags(String) succeeds exactly when every letter is in the table |
| Bson.FlagsOfBits | src/main/java/net/evilmonkeylabs/mag7/bson/BSON.java:118-127 | The flag word holds only table bits, and a row's bit is set exactly when its letter occurs in the string |
| Bson.BitsDetermined | src/main/java/net/evilmonkeylabs/mag7/bson/BSON.java:170-186 | The flag values are distinct single bits, so two table words that agree row by row are equal |
| Bson.RegexFlagsIgnoreOrderAndRepetition | src/main/java/net/evilmonkeylabs/mag7/bson/BSON.java:118-123 | Two strings with the same letters, in any order and any number of times, give the same result |
| Bson.RegexFlagsIgnoreCase | src/main/java/net/evilmonkeylabs/mag7/bson/BSON.java:116 | Upper- and lower-case letters give the same flags |
| Bson.RegexFlagLetters | src/main/java/net/evilmonkeylabs/mag7/bson/BSON.java:153-168 | regexFlags(int), as a loop over the table, equals the letters of the set flags in table order, and fails when an unrecognised bit is left over |
| Bson.EmitSelects | src/main/java/net/evilmonkeylabs/mag7/bson/BSON.java:157-162 | From row i on, the loop emits the table letters whose bits are set, in table order, and clears exactly those bits |
| Bson.EmittedLettersBits | src/main/java/net/evilmonkeylabs/mag7/bson/BSON.java:157-162 | The letters the loop emits from row i on read back as the set bits of those rows, and the bits left are the rest |
| Bson.EmitNothing | src/main/java/net/evilmonkeylabs/mag7/bson/BSON.java:157-162 | A word with no table bit from row i on emits nothing and keeps all its bits |
| Bson.LettersBitsLetters | src/main/java/net/evilmonkeylabs/mag7/bson/BSON.java:111-168 | regexFlags(regexFlags(s)) is s lower-cased, cut down to the table letters, in table order, without repeats |
| Bson.CanonicalIsSortedLetterSet | src/main/java/net/evilmonkeylabs/mag7/bson/BSON.java:170-178 | Those letters are strictly ascending, so the table order is alphabetical, and they are exactly the table letters that occur in s |
| Bson.BitsLettersBits | src/main/java/net/evilmonkeylabs/mag7/bson/BSON.java:111-168 | Every word of table bits converts to letters, and the letters convert back to the same word |
| Bson.DumpBytes | src/main/java/net/evilmonkeylabs/mag7/bson/BSON.java:226-240 | The loop's output is the hex dump of the bytes, and a missing buffer gives "" |
| Bson.HexDumpShape | src/main/java/net/evilmonkeylabs/mag7/bson/BSON.java:226-243 | Each byte gives exactly five characters: "0x", its two upper-case hex digits, and a space |
| Bson.ParseDumpHexDump | src/main/java/net/evilmonkeylabs/mag7/bson/BSON.java:226-243 | The dump is lossless: reading the hex digits back gives the bytes |
| ByteBuffer.Int32Of | src/main/java/net/evilmonkeylabs/mag7/bson/io/BSONByteBuffer.java:113-120 | Four bytes, least significant first, as the two's-complement int whose encoding is those bytes |
| ByteBuffer.Int64Of | src/main/java/net/evilmonkeylabs/mag7/bson/io/BSONByteBuffer.java:143-145 | Eight bytes, least significant first, as the two's-complement long whose encoding is those bytes |
| ByteBuffer.Int32RoundTrip | src/main/java/net/evilmonkeylabs/mag7/bson/io/BSONByteBuffer.java:113-120 | Decoding an int's four-byte encoding gives the int back |
| ByteBuffer.Int64RoundTrip | src/main/java/net/evilmonkeylabs/mag7/bson/io/BSONByteBuffer.java:143-145 | Decoding a long's eight-byte encoding gives the long back |
| ByteBuffer.IntLE | src/main/java/net/evilmonkeylabs/mag7/bson/io/BSONByteBuffer.java:99-101 | getInt(i) = getIntLE(i) succeeds exactly when bytes i..i+3 exist, and its int encodes to those bytes, least significant first |
| ByteBuffer.IntBE | src/main/java/net/evilmonkeylabs/mag7/bson/io/BSONByteBuffer.java:128-135 | getIntBE(i): the same four bytes, most significant first |
| ByteBuffer.IntBEIsReversedLE | src/main/java/net/evilmonkeylabs/mag7/bson/io/BSONByteBuffer.java:113-135 | getIntBE(i) is getIntLE over the four bytes in reverse order |
| ByteBuffer.Long | src/main/java/net/evilmonkeylabs/mag7/bson/io/BSONByteBuffer.java:143-145 | getLong(i) succeeds exactly when bytes i..i+7 exist, and its long encodes to them, least significant first |
| ByteBuffer.CStringEnd | src/main/java/net/evilmonkeylabs/mag7/bson/io/BSONByteBuffer.java:160-162 | The scan stops at the first zero byte at or after i, and finds none only when no such byte exists |
| ByteBuffer.CString | src/main/java/net/evilmonkeylabs/mag7/bson/io/BSONByteBuffer.java:158-165 | getCString(offset) gives exactly the zero-free bytes from offset up to the first zero, and fails exactly when no zero follows offset |
| ByteBuffer.CStringSize | src/main/java/net/evilmonkeylabs/mag7/bson/io/BSONByteBuffer.java:174-184 | sizeCString(offset) is the cstring's length plus one for the terminator, and fails when getCString does |
| ByteBuffer.UTF8String | src/main/java/net/evilmonkeylabs/mag7/bson/io/BSONByteBuffer.java:201-208 | getUTF8String(offset) gives the bytes after the length prefix, one fewer than the prefix says, and rejects a prefix below 1 |
| ByteBuffer.UTF8StringRoundTrip | src/main/java/net/evilmonkeylabs/mag7/bson/io/BSONByteBuffer.java:201-208 | An encoded string reads back as itself wherever it sits |
| ByteBuffer.CStringRoundTrip | src/main/java/net/evilmonkeylabs/mag7/bson/io/BSONByteBuffer.java:158-165 | A zero-free string and its terminator read back as the string wherever they sit |
| ByteBuffer.ReadByte | src/main/java/net/evilmonkeylabs/mag7/bson/io/BSONByteBuffer.java:43-47 | get() as the format needs it: the byte at the cursor, and the cursor moves by one |
| ByteBuffer.ReadByteAsWritten | src/main/java/net/evilmonkeylabs/mag7/bson/io/BSONByteBuffer.java:43-47 | get() as written: the byte at the cursor, and the cursor moves by two |
| ByteBuffer.ReadInt32 | src/main/java/net/evilmonkeylabs/mag7/bson/io/BSONByteBuffer.java:103-107 | getInt(): the little-endian int at the cursor, and the cursor moves by exactly 4 |
| ByteBuffer.ReadInt32BE | src/main/java/net/evilmonkeylabs/mag7/bson/io/BSONByteBuffer.java:122-126 | getIntBE(): the big-endian int at the cursor, and the cursor moves by exactly 4 |
| ByteBuffer.ReadInt64 | src/main/java/net/evilmonkeylabs/mag7/bson/io/BSONByteBuffer.java:137-141 | getLong() and getDouble(): the long at the cursor, and the cursor moves by exactly 8 |
| ByteBuffer.ReadCString | src/main/java/net/evilmonkeylabs/mag7/bson/io/BSONByteBuffer.java:147-156 | getCString() as the format needs it: the cstring at the cursor, and the cursor moves past its terminator |
| ByteBuffer.ReadCStringAsWritten | src/main/java/net/evilmonkeylabs/mag7/bson/io/BSONByteBuffer.java:147-156 | getCString() as written: the cursor moves by the string's length and stops on the terminator |
| ByteBuffer.ReadUTF8String | src/main/java/net/evilmonkeylabs/mag7/bson/io/BSONByteBuffer.java:190-199 | getUTF8String() as the format needs it: the cursor moves past the prefix, the bytes and the zero |
| ByteBuffer.ReadUTF8StringAsWritten | src/main/java/net/evilmonkeylabs/mag7/bson/io/BSONByteBuffer.java:190-199 | getUTF8String() as written: the cursor moves by the string's length only, from the start of the prefix |
| ByteBuffer.BsonByteBuffer.Wrap | src/main/java/net/evilmonkeylabs/mag7/bson/io/BSONByteBuffer.java:30-41 | wrap(bytes): a cursor at position 0 over the bytes |
| ByteBuffer.BsonByteBuffer.Get | src/main/java/net/evilmonkeylabs/mag7/bson/io/BSONByteBuffer.java:43-47 | The byte at the cursor, which moves by one. Past the end it throws and the cursor stays put |
| ByteBuffer.BsonByteBuffer.GetInt | src/main/java/net/evilmonkeylabs/mag7/bson/io/BSONByteBuffer.java:103-107 | getIntLE at the old position, and the cursor moves by 4 |
| ByteBuffer.BsonByteBuffer.GetIntBE | src/main/java/net/evilmonkeylabs/mag7/bson/io/BSONByteBuffer.java:122-126 | getIntBE at the old position, and the cursor moves by 4 |
| ByteBuffer.BsonByteBuffer.GetLong | src/main/java/net/evilmonkeylabs/mag7/bson/io/BSONByteBuffer.java:137-141 | getLong at the old position, and the cursor moves by 8 |
| ByteBuffer.BsonByteBuffer.GetCStringAt | src/main/java/net/evilmonkeylabs/mag7/bson/io/BSONByteBuffer.java:158-165 | The scanning loop computes CString and leaves the cursor alone |
| ByteBuffer.BsonByteBuffer.SizeCStringAt | src/main/java/net/evilmonkeylabs/mag7/bson/io/BSONByteBuffer.java:174-184 | The scanning loop computes CStringSize and leaves the cursor alone |
| ByteBuffer.BsonByteBuffer.GetCString | src/main/java/net/evilmonkeylabs/mag7/bson/io/BSONByteBuffer.java:147-156 | The scanning loop reads the cstring at the cursor, and the cursor moves past its terminator |
| ByteBuffer.BsonByteBuffer.GetUTF8String | src/main/java/net/evilmonkeylabs/mag7/bson/io/BSONByteBuffer.java:190-199 | The string at the cursor, and the cursor moves past its zero |
| ByteBuffer.BsonByteBuffer.Position | src/main/java/net/evilmonkeylabs/mag7/bson/io/BSONByteBuffer.java:224-226 | position(i) moves the cursor to i. A position past the limit throws and nothing moves |
| ByteBuffer.BsonByteBuffer.Size | src/main/java/net/evilmonkeylabs/mag7/bson/io/BSONByteBuffer.java:232-234 | size() is getInt(0): the int whose encoding is the first four bytes |
| BsonTypes.GetScope | src/main/java/net/evilmonkeylabs/mag7/bson/types/CodeWScope.java:26-33 | getScope() gives back exactly the scope the value was built with |
| BsonTypes.Equals | src/main/java/net/evilmonkeylabs/mag7/bson/types/CodeWScope.java:36-43 | False for anything that is not a CodeWScope. Otherwise true exactly when the code and the scope are equal |
| BsonTypes.HashCode | src/main/java/net/evilmonkeylabs/mag7/bson/types/CodeWScope.java:46-48 | The code hash XOR the scope hash, so either hash is recovered from the other |
| BsonTypes.EqualsImpliesEqualHash | src/main/java/net/evilmonkeylabs/mag7/bson/types/CodeWScope.java:36-48 | Equal values have equal hash codes, whatever the component hash functions |
| BsonTypes.EqualsReflexiveSymmetric | src/main/java/net/evilmonkeylabs/mag7/bson/types/CodeWScope.java:36-43 | equals is reflexive and symmetric |
| Documents.Document.constructor | src/main/java/net/evilmonkeylabs/mag7/bson/doc/Document.java:29-31 | A new document is empty |
| Documents.PutOne | src/main/java/net/evilmonkeylabs/mag7/bson/doc/Document.java:34-37 | One put is one map update |
| Documents.ApplyPutsAppend | src/main/java/net/evilmonkeylabs/mag7/bson/doc/Document.java:34-37 | Applying puts in two parts is applying the first part, then the second |
| Documents.LastWriteWins | src/main/java/net/evilmonkeylabs/mag7/bson/doc/Document.java:34-37 | After a sequence of puts, a key maps to its last put value. A key never put keeps its old mapping, or stays absent |
| Documents.OtherKeysUnchanged | src/main/java/net/evilmonkeylabs/mag7/bson/doc/Document.java:34-37 | Keys that no put names keep their mapping |
| Documents.NoPutNoLast | src/main/java/net/evilmonkeylabs/mag7/bson/doc/Document.java:34-37 | A key no put names has no last put |
| Documents.DuplicatePutKeepsLast | src/main/java/net/evilmonkeylabs/mag7/bson/doc/Document.java:34-37 | Duplicate names are not rejected: the second put replaces the first |
| Documents.DocumentBuilder.constructor | src/main/java/net/evilmonkeylabs/mag7/bson/doc/Document.java:29-31 | A new builder holds a fresh, empty document |
| Documents.DocumentBuilder.Put | src/main/java/net/evilmonkeylabs/mag7/bson/doc/Document.java:34-37 | The document maps key to value, and every other key is as before |
| Documents.DocumentBuilder.Result | src/main/java/net/evilmonkeylabs/mag7/bson/doc/Document.java:40-42 | result() is the builder's own document object, not a copy |
| Documents.ResultIsLive | src/main/java/net/evilmonkeylabs/mag7/bson/doc/Document.java:29-42 | A fresh builder's result is empty, and a put made after taking the result shows through it |
| Documents.DocumentBuilder.PutNull | src/main/java/net/evilmonkeylabs/mag7/bson/doc/BSONDocumentBuilder.java:59-61 | One put of null under the key |
| Documents.DocumentBuilder.PutDouble | src/main/java/net/evilmonkeylabs/mag7/bson/doc/BSONDocumentBuilder.java:70-72 | One put of the double under the key |
| Documents.DocumentBuilder.PutString | src/main/java/net/evilmonkeylabs/mag7/bson/doc/BSONDocumentBuilder.java:83-85 | One put of the string under the key |
| Documents.DocumentBuilder.PutDocument | src/main/java/net/evilmonkeylabs/mag7/bson/doc/BSONDocumentBuilder.java:94-96 | One put of the sub-document under the key |
| Documents.DocumentBuilder.PutList | src/main/java/net/evilmonkeylabs/mag7/bson/doc/BSONDocumentBuilder.java:108-110 | One put of the list under the key |
| Documents.DocumentBuilder.PutObjectID | src/main/java/net/evilmonkeylabs/mag7/bson/doc/BSONDocumentBuilder.java:120-124 | One put of ObjectID(time, machine, inc), fields in argument order |
| Documents.DocumentBuilder.PutBoolTrue | src/main/java/net/evilmonkeylabs/mag7/bson/doc/BSONDocumentBuilder.java:131-133 | One put of true under the key |
| Documents.DocumentBuilder.PutBoolFalse | src/main/java/net/evilmonkeylabs/mag7/bson/doc/BSONDocumentBuilder.java:140-142 | One put of false under the key |
| Documents.DocumentBuilder.PutDateTime | src/main/java/net/evilmonkeylabs/mag7/bson/doc/BSONDocumentBuilder.java:152-154 | One put of the date tsp milliseconds after the epoch |
| Documents.DocumentBuilder.PutRegex | src/main/java/net/evilmonkeylabs/mag7/bson/doc/BSONDocumentBuilder.java:175-177 | The pattern with the flag word of the letters, put under the key. An unknown letter throws before anything is put |
| Documents.DocumentBuilder.PutCode | src/main/java/net/evilmonkeylabs/mag7/bson/doc/BSONDocumentBuilder.java:186-188 | One put of the code under the key |
| Documents.DocumentBuilder.PutScopedCode | src/main/java/net/evilmonkeylabs/mag7/bson/doc/BSONDocumentBuilder.java:199-201 | One put of CodeWScope(code, scope) under the key |
| Documents.DocumentBuilder.PutSymbol | src/main/java/net/evilmonkeylabs/mag7/bson/doc/BSONDocumentBuilder.java:203-206 | One put of the symbol, as a plain string |
| Documents.DocumentBuilder.PutInteger | src/main/java/net/evilmonkeylabs/mag7/bson/doc/BSONDocumentBuilder.java:215-217 | One put of the int under the key |
| Documents.DocumentBuilder.PutLong | src/main/java/net/evilmonkeylabs/mag7/bson/doc/BSONDocumentBuilder.java:226-228 | One put of the long under the key |
| Documents.DocumentBuilder.PutTimestamp | src/main/java/net/evilmonkeylabs/mag7/bson/doc/BSONDocumentBuilder.java:244-246 | One put of BSONTimestamp(time, inc) under the key |
| Documents.DocumentBuilder.PutMinKey | src/main/java/net/evilmonkeylabs/mag7/bson/doc/BSONDocumentBuilder.java:253-255 | One put of the MinKey singleton |
| Documents.DocumentBuilder.PutMaxKey | src/main/java/net/evilmonkeylabs/mag7/bson/doc/BSONDocumentBuilder.java:262-264 | One put of the MaxKey singleton |
| Decoding.Wrap | src/main/java/net/evilmonkeylabs/mag7/bson/DefaultBSONArrayParser.java:41-43 | A document parser's result is a document and an array parser's a list, over the same fields |
| Decoding.GetByte | src/main/java/net/evilmonkeylabs/mag7/bson/io/BSONByteBuffer.java:43-47 | The tag read is the byte at the cursor, and the cursor moves forward within the bytes |
| Decoding.GetName | src/main/java/net/evilmonkeylabs/mag7/bson/io/BSONByteBuffer.java:147-156 | The name read is the cstring at the cursor |
| Decoding.GetString | src/main/java/net/evilmonkeylabs/mag7/bson/io/BSONByteBuffer.java:190-199 | The string read is the length-prefixed string at the cursor |
| Decoding.DecodeDocument | src/main/java/net/evilmonkeylabs/mag7/bson/BSONReader.java:37-51 | A decoded document needs its four-byte length, and is a document or a list as the parser's kind says |
| Decoding.DecodeEntries | src/main/java/net/evilmonkeylabs/mag7/bson/BSONReader.java:48-51 | parse() ends past its start and within the bytes |
| Decoding.DecodeEntry | src/main/java/net/evilmonkeylabs/mag7/bson/BSONReader.java:53-59 | An entry moves the cursor forward within the bytes, and ends the document only on the end-marker tag |
| Decoding.DecodeValue | src/main/java/net/evilmonkeylabs/mag7/bson/BSONReader.java:60-152 | Every put of an entry is under the entry's name, and the value lies within the bytes |
| Decoding.DecodeText | src/main/java/net/evilmonkeylabs/mag7/bson/BSONReader.java:69-71 | The string-valued cases put only under the entry's name and stay within the bytes |
| Decoding.DecodeScalar | src/main/java/net/evilmonkeylabs/mag7/bson/BSONReader.java:62-148 | The fixed-width cases put only under the entry's name and stay within the bytes |
| Decoding.ScopedCodeValue | src/main/java/net/evilmonkeylabs/mag7/bson/BSONReader.java:118-123 | A code-with-scope value stays within the bytes and is a CodeWScope |
| Decoding.Nested | src/main/java/net/evilmonkeylabs/mag7/bson/BSONReader.java:72-81 | A nested document is a document or a list as the child parser's kind says, and lies within the bytes |
| Reader.BsonReader.constructor | src/main/java/net/evilmonkeylabs/mag7/bson/BSONReader.java:37-40 | The constructor consumes exactly the four-byte declared length, and the builder starts empty |
| Reader.BsonReader.Parse | src/main/java/net/evilmonkeylabs/mag7/bson/BSONReader.java:48-51 | The loop's document and cursor are those of DecodeEntries, and parsed is set. An exception from an entry ends it |
| Reader.BsonReader.ParseEntry | src/main/java/net/evilmonkeylabs/mag7/bson/BSONReader.java:53-59 | The cursor and the builder after one entry are as DecodeEntry says. It returns false exactly at the end marker |
| Reader.BsonReader.ParseValue | src/main/java/net/evilmonkeylabs/mag7/bson/BSONReader.java:72-81 | The nested-document cases of the switch, as DecodeValue says |
| Reader.BsonReader.ParseText | src/main/java/net/evilmonkeylabs/mag7/bson/BSONReader.java:106-128 | The string cases, REGEX and DBREF, as DecodeText says |
| Reader.BsonReader.ParseScalar | src/main/java/net/evilmonkeylabs/mag7/bson/BSONReader.java:62-148 | The fixed-width cases and the unknown tags, as DecodeScalar says |
| Reader.BsonReader.ParseArray | src/main/java/net/evilmonkeylabs/mag7/bson/BSONReader.java:154-157 | The nested document at the cursor, read by an array parser |
| Reader.BsonReader.ParseScopedCode | src/main/java/net/evilmonkeylabs/mag7/bson/BSONReader.java:118-123 | The total length, the code, then the scope document, as ScopedCodeValue says |
| Reader.BsonReader.ParseNested | src/main/java/net/evilmonkeylabs/mag7/bson/BSONReader.java:72-76 | A child parser over the declared region at the cursor, whose result is Nested's, and the cursor moves past the region |
| Reader.BsonReader.Result | src/main/java/net/evilmonkeylabs/mag7/bson/BSONReader.java:159-164 | Parses only when not yet parsed, then gives the builder's document: after a parse that succeeds, the builder holds the parsed fields, the cursor is past the end marker and parsed is set. A call on a parsed reader leaves the document, the cursor and parsed as they are |
| Reader.ResultTwice | src/main/java/net/evilmonkeylabs/mag7/bson/BSONReader.java:159-164 | result() parses at most once: after a first call that succeeds, a second call gives the same document, and the reader stays parsed with its cursor where the first call left it |
| Reader.Open | src/main/java/net/evilmonkeylabs/mag7/bson/BSONReader.java:37-40 | A parser over the bytes, or the exception its constructor throws when there are fewer than four |
| Reader.Decode | src/main/java/net/evilmonkeylabs/mag7/bson/BSONReader.java:37-164 | Constructing a reader and taking its result is DecodeDocument under the format's discipline |
| ReaderFacts.EndMarker | src/main/java/net/evilmonkeylabs/mag7/bson/BSONReader.java:54-57 | parseEntry ends the document exactly when the tag byte is 0x00, having consumed that byte alone |
| ReaderFacts.EntryPuts | src/main/java/net/evilmonkeylabs/mag7/bson/BSONReader.java:53-152 | Any other entry reads the cstring after the tag as its name and puts only under it, at most once, except that a falling-through BOOLEAN puts true and then false |
| ReaderFacts.ValuePuts | src/main/java/net/evilmonkeylabs/mag7/bson/BSONReader.java:60-152 | The switch puts at most one value, or true then false for a falling-through BOOLEAN. It puts none exactly for Binary and Regex |
| ReaderFacts.TextPuts | src/main/java/net/evilmonkeylabs/mag7/bson/BSONReader.java:69-71 | The same for the string cases, REGEX and the fixed-width cases |
| ReaderFacts.ScalarPuts | src/main/java/net/evilmonkeylabs/mag7/bson/BSONReader.java:62-148 | The same for the fixed-width cases, where only Binary puts nothing |
| ReaderFacts.ValueIsScalar | src/main/java/net/evilmonkeylabs/mag7/bson/BSONReader.java:60-148 | A tag with neither a nested document nor a string goes to the fixed-width cases |
| ReaderFacts.FixedWidthValues | src/main/java/net/evilmonkeylabs/mag7/bson/BSONReader.java:62-146 | Following the format, a fixed-width value is read exactly when its bytes are all there, and the cursor moves by its width. The one put under the name is FixedValue: null for NULL and UNDEF, MinKey, MaxKey, a boolean true exactly for the byte 0x01, the little-endian int for INT32, the long for DOUBLE, UTC_DATETIME and INT64, BSONTimestamp(second int, first int) for TIMESTAMP, and three big-endian ints for OBJECTID |
| ReaderFacts.ScalarWidths | src/main/java/net/evilmonkeylabs/mag7/bson/BSONReader.java:62-146 | The same for the fixed-width cases on their own, whenever get() moves by one and BOOLEAN breaks |
| ReaderFacts.ObjectIdFieldsInOrder | src/main/java/net/evilmonkeylabs/mag7/bson/BSONReader.java:85-89 | OBJECTID reads three big-endian ints, in order, into time, machine and inc |
| ReaderFacts.TimestampIncrementFirst | src/main/java/net/evilmonkeylabs/mag7/bson/BSONReader.java:135-140 | TIMESTAMP reads the increment first and the time second, and builds (time, inc) |
| ReaderFacts.BooleanValue | src/main/java/net/evilmonkeylabs/mag7/bson/BSONReader.java:90-99 | Following the format, the byte 0x01 gives true and any other byte false. With the fall-through, the document ends with false either way |
| ReaderFacts.DBRefUnsupported | src/main/java/net/evilmonkeylabs/mag7/bson/BSONReader.java:111-113 | Once the tag and the name are read, DBREF is refused before any of its value is read or put |
| ReaderFacts.ArrayParserNestsArrays | src/main/java/net/evilmonkeylabs/mag7/bson/DefaultBSONArrayParser.java:41-43 | A nested value is a list exactly when it is an ARRAY or the parser is an array parser |
| ReaderFacts.NestedRegion | src/main/java/net/evilmonkeylabs/mag7/bson/BSONReader.java:72-81 | Following the format, a nested document is the region of its declared length, decoded on its own, and the cursor moves past it |
| ReaderFacts.DocumentTags | src/main/java/net/evilmonkeylabs/mag7/bson/BSONReader.java:147-148 | A decode that fails naming a type names one outside the type table |
| ReaderFacts.UnknownTagRejected | src/main/java/net/evilmonkeylabs/mag7/bson/BSONReader.java:147-148 | An entry fails with its own tag exactly when the tag is outside the type table |
| ReaderFacts.DocumentTrailing | src/main/java/net/evilmonkeylabs/mag7/bson/BSONReader.java:48-57 | A decode that succeeds reads nothing past its end marker: bytes appended after it change nothing |
| Findings.GetTwiceRejectsEmptyDocument | src/main/java/net/evilmonkeylabs/mag7/bson/io/BSONByteBuffer.java:43-47 | The empty document fails when get() moves by two, and decodes to {} when it moves by one |
| Findings.CStringOnNulShiftsValue | src/main/java/net/evilmonkeylabs/mag7/bson/io/BSONByteBuffer.java:147-156 | {a: 1} decodes as {a: 256} when getCString() stops on the zero, and as {a: 1} when it moves past it |
| Findings.ShortStringAdvanceDropsFields | src/main/java/net/evilmonkeylabs/mag7/bson/io/BSONByteBuffer.java:190-199 | {s: "x", i: 1} loses its second field when getUTF8String() moves by the length only |
| Findings.NestedInPlaceRereadsChild | src/main/java/net/evilmonkeylabs/mag7/bson/BSONReader.java:72-76 | {d: {}, i: 1} loses its second field when the cursor is left at the nested document |
| Findings.ScopePrefixUnread | src/main/java/net/evilmonkeylabs/mag7/bson/BSONReader.java:118-123 | A code-with-scope entry fails when its total length is not read, and decodes when it is |
| Findings.BooleanFallThroughLosesTrue | src/main/java/net/evilmonkeylabs/mag7/bson/BSONReader.java:90-99 | {b: true} decodes as {b: false} with the fall-through, and as {b: true} without it |
| Findings.IntDocAsWritten | src/main/java/net/evilmonkeylabs/mag7/bson/io/BSONByteBuffer.java:43-156 | With every departure of the code on, {a: 1} decodes as {"": 256}: the name reads as empty and the int is read from its zero |
| Findings.StringDocAsWritten | src/main/java/net/evilmonkeylabs/mag7/bson/io/BSONByteBuffer.java:190-199 | With every departure on, {s: "x", i: 1} fails with a buffer underrun |
| Findings.NestedDocAsWritten | src/main/java/net/evilmonkeylabs/mag7/bson/BSONReader.java:72-76 | With every departure on, {d: {}, i: 1} decodes as {"": {}} |
| Findings.ScopeDocAsWritten | src/main/java/net/evilmonkeylabs/mag7/bson/BSONReader.java:118-123 | With every departure on, the code-with-scope document fails with a buffer underrun, whether or not the total length is read |
| Findings.BoolDocAsWritten | src/main/java/net/evilmonkeylabs/mag7/bson/BSONReader.java:90-99 | With every departure on, {b: true} fails with a buffer underrun |
| Findings.SignBitPassesFlagCheck | src/main/java/net/evilmonkeylabs/mag7/bson/BSON.java:153-168 | The flag word with only the sign bit set gives "" as written, and is rejected as unrecognised when every leftover bit is checked |
| Bson.FlagLettersAsWritten | src/main/java/net/evilmonkeylabs/mag7/bson/BSON.java:153-168 | regexFlags(int) as written, with the leftover check `flags > 0` |
| Bson.FlagLetters | src/main/java/net/evilmonkeylabs/mag7/bson/BSON.java:153-168 | regexFlags(int) with every leftover bit, the sign bit included, rejected |

## Left out

- Floating point is not modelled. `getDouble` is modelled as the 64 raw bits that `Double.longBitsToDouble` would convert.
- UTF-8 decoding is not modelled. A string is the bytes `new String(…, "UTF-8")` would decode, and case folding in `regexFlags(String)` is ASCII only.
- `Pattern.compile` is not modelled; a regex value is its pattern bytes and its flag word. `new Date(tsp)` is the milliseconds. The `DatatypeConverter` base64 and hex helpers and all logging are left out. These are library calls and output.
- Nested documents are values, not objects. The model does not capture `ByteBuffer.slice()` aliasing, or a sub-document changing after `putDocument`.
- A BSONList is a map from positional names to values, tagged `List`; the BSONList class is not part of this model. ObjectID, BSONTimestamp and Code are plain records of the fields the reader passes.
- DefaultBSONParser does not compile and is not part of this model. DefaultBSONDocParser and DefaultBSONArrayParser are wiring only, modelled by `Decoding.Kind`.
- The bulk `get(byte[])` reads, `slice()` and `toString` of the buffer are left out, because the reader does not use them. So is `getInt(i)` as a separate member, because it is `getIntLE(i)`.
- Nested readers see their own region as a separate sequence. The relative `getCString()` and `getUTF8String()` (BSONByteBuffer.java:147-156 and 190-199), which the reader calls, find the string's end with slice-relative reads, but build the String from `array()` at `position()`. On a nested reader's `slice()`, `array()` is the whole backing array and `position()` is relative to the slice, so names and strings inside nested documents would be taken from the wrong bytes. The model reads them relative to the region under both disciplines and does not capture that mismatch.
- BINARY values are not skipped: the entry consumes nothing and puts nothing, as in the code. REGEX reads its two cstrings and puts nothing, also as in the code.
- `result()` calls `b.get()`, which the builder does not have; it is modelled as `b.result()`.
- After an exception the model reports the error only. The cursor and the builder's state at that point are not specified.
- Reader.BsonReader.ParseValue, ParseText and ParseScalar: an entry's exceptions are results, not Java exceptions. The error names what failed (`BufferUnderrun`, `InvalidLength`, `UnsupportedType(tag)` or `UnsupportedFeature`), not the Java exception class.
- Bson.RegexFlagLetters: the loop rejects every leftover bit, as intended; the code's `flags > 0` check, which lets a leftover sign bit through, is `Bson.FlagLettersAsWritten`.
- Bson.RegexFlagLetters: a flag word is a set of bit positions with no bound on the positions. A Java `int` has positions 0 to 31 only, so the model accepts words Java cannot hold, and states nothing special about them.
- BsonTypes.HashCode: the hash functions of String and of the scope's type are parameters, since they belong to the Java library.
- Reader.BsonReader: the reader implements the format's discipline (`Decoding.Corrected`). The code's cursor arithmetic is the `Decoding.AsWritten` discipline of the decoder functions, which the Findings lemmas named `…AsWritten` evaluate.
- ByteBuffer.BsonByteBuffer.Get: the method moves the cursor by one, as the format needs. The code's advance by two is `ByteBuffer.ReadByteAsWritten`.
- ByteBuffer.BsonByteBuffer.GetCString: the method moves the cursor past the zero, as the format needs. The code's advance, which stops on the zero, is `ByteBuffer.ReadCStringAsWritten`.
- ByteBuffer.BsonByteBuffer.GetUTF8String: the method moves the cursor past the prefix, the bytes and the zero, as the format needs. The code's advance by the string's length from the prefix is `ByteBuffer.ReadUTF8StringAsWritten`.
- Findings.CStringOnNulShiftsValue: it shows the cstring departure with get() moving by one. On the same bytes the code as written, with every departure on, gives Findings.IntDocAsWritten.
- Findings.ShortStringAdvanceDropsFields: it shows the string departure with the other departures corrected. The code as written gives Findings.StringDocAsWritten.
- Findings.NestedInPlaceRereadsChild: it shows the nested-document departure with the other departures corrected. The code as written gives Findings.NestedDocAsWritten.
- Findings.ScopePrefixUnread: it shows the code-with-scope departure with the other departures corrected. The code as written gives Findings.ScopeDocAsWritten.
- Findings.BooleanFallThroughLosesTrue: it shows the fall-through with the other departures corrected. The code as written gives Findings.BoolDocAsWritten.

## Findings

| source | as written | input that shows it | evidently intended | confidence | as-written member | corrected member |
|---|---|---|---|---|---|---|
| src/main/java/net/evilmonkeylabs/mag7/bson/io/BSONByteBuffer.java:43-47 | `get()` takes the byte with the relative `buf.get()`, which moves the cursor by one, and then calls `position(position() + 1)`, so the cursor moves by two | the empty document `05 00 00 00 00` fails: reading its end marker needs a second byte that is not there | move by one byte | not executed | Findings.GetTwiceRejectsEmptyDocument, ByteBuffer.ReadByteAsWritten | ByteBuffer.ReadByte |
| src/main/java/net/evilmonkeylabs/mag7/bson/io/BSONByteBuffer.java:147-156 | `getCString()` advances to the terminating zero but not past it | `{a: 1}` as `0C 00 00 00 10 61 00 01 00 00 00 00` decodes as `{a: 256}` with get() moving by one; the code as written, with every departure on, gives `{"": 256}` | move past the zero | not executed | Findings.CStringOnNulShiftsValue, Findings.IntDocAsWritten, ByteBuffer.ReadCStringAsWritten | ByteBuffer.ReadCString |
| src/main/java/net/evilmonkeylabs/mag7/bson/io/BSONByteBuffer.java:190-199 | `getUTF8String()` advances by the length minus one from the start of the prefix | `{s: "x", i: 1}` decodes as `{s: "x"}` with the other departures corrected; the code as written fails with a buffer underrun | move past the prefix, the bytes and the zero | not executed | Findings.ShortStringAdvanceDropsFields, Findings.StringDocAsWritten, ByteBuffer.ReadUTF8StringAsWritten | ByteBuffer.ReadUTF8String |
| src/main/java/net/evilmonkeylabs/mag7/bson/BSONReader.java:72-81 | a nested document is read by a child parser over `slice()`, and the parent's cursor does not move past it | `{d: {}, i: 1}` decodes as `{d: {}}`: the parent then reads the child's bytes as its own entries, with the other departures corrected; the code as written gives `{"": {}}` | move the cursor past the declared length | not executed | Findings.NestedInPlaceRereadsChild, Findings.NestedDocAsWritten | Decoding.Nested, Reader.BsonReader.ParseNested |
| src/main/java/net/evilmonkeylabs/mag7/bson/BSONReader.java:118-123 | JSCODE_W_SCOPE reads the code string first, without the leading total length | `{c: CodeWScope("x", {})}` fails with a buffer underrun, with the other departures corrected; the code as written fails too | read the int32 total length first | not executed | Findings.ScopePrefixUnread, Findings.ScopeDocAsWritten | Decoding.ScopedCodeValue, Reader.BsonReader.ParseScopedCode |
| src/main/java/net/evilmonkeylabs/mag7/bson/BSONReader.java:90-99 | the `case 0x01` branch has no `break`, so true is put and then overwritten by false | `{b: true}` as `09 00 00 00 08 62 00 01 00` decodes as `{b: false}` with the other departures corrected; the code as written fails with a buffer underrun | put true and stop | not executed | Findings.BooleanFallThroughLosesTrue, Findings.BoolDocAsWritten | Decoding.DecodeScalar, Reader.BsonReader.ParseScalar |
| src/main/java/net/evilmonkeylabs/mag7/bson/BSON.java:163 | unrecognised bits are rejected only when `flags > 0` | the flag word `0x80000000` (only the sign bit) is negative, passes the check and gives `""` | reject any leftover bit, `flags != 0` | not executed | Findings.SignBitPassesFlagCheck, Bson.FlagLettersAsWritten | Bson.FlagLetters, Bson.RegexFlagLetters |
