/**
 * The BSON constants (type tags, binary subtypes), the translation between
 * BSON regular-expression flag letters and java.util.regex.Pattern flag bits,
 * and the hex dump helper.
 */
module Bson {
  import opened BsonTypes
  import opened Results

  // ---- type tags (the Bytes enum) ----

  const EOO: byte := 0x00
  const DOUBLE: byte := 0x01
  const STRING: byte := 0x02
  const DOCUMENT: byte := 0x03
  const ARRAY: byte := 0x04
  const BINARY: byte := 0x05
  const UNDEF: byte := 0x06
  const OBJECTID: byte := 0x07
  const BOOLEAN: byte := 0x08
  const UTC_DATETIME: byte := 0x09
  const NULL: byte := 0x0A
  const REGEX: byte := 0x0B
  const DBREF: byte := 0x0C
  const JSCODE: byte := 0x0D
  const SYMBOL: byte := 0x0E
  const JSCODE_W_SCOPE: byte := 0x0F
  const INT32: byte := 0x10
  const TIMESTAMP: byte := 0x11
  const INT64: byte := 0x12
  const MIN_KEY: byte := 0xFF  // (byte) 0xFF, that is -1 as a Java byte
  const MAX_KEY: byte := 0x7F

  /** The tags in the order the Bytes enum declares them. */
  const Tags: seq<byte> := [EOO, DOUBLE, STRING, DOCUMENT, ARRAY, BINARY, UNDEF, OBJECTID, BOOLEAN,
                            UTC_DATETIME, NULL, REGEX, DBREF, JSCODE, SYMBOL, JSCODE_W_SCOPE, INT32,
                            TIMESTAMP, INT64, MIN_KEY, MAX_KEY]

  // ---- binary subtypes (the Binary enum) ----

  const BINARY_GENERIC: byte := 0x00
  const BINARY_FUNCTION: byte := 0x01
  const BINARY_OLD: byte := 0x02
  const UUID_OLD: byte := 0x03
  const UUID: byte := 0x04
  const MD5: byte := 0x05
  const USER_DEFINED: byte := 0x80  // (byte) 0x80

  const BinarySubtypes: seq<byte> := [BINARY_GENERIC, BINARY_FUNCTION, BINARY_OLD, UUID_OLD, UUID, MD5, USER_DEFINED]

  /** The tag table is 0x00..0x12 in order, then MIN_KEY and MAX_KEY; all tags differ. */
  lemma TagTableLayout()
    ensures |Tags| == 21
    ensures forall i :: 0 <= i <= 0x12 ==> Tags[i] == i
    ensures Tags[19] == 0xFF && Tags[20] == 0x7F
    ensures forall i, j :: 0 <= i < j < |Tags| ==> Tags[i] != Tags[j]
  {
  }

  /** The binary subtypes are 0x00..0x05 in order, then USER_DEFINED = 0x80. */
  lemma BinarySubtypeLayout()
    ensures |BinarySubtypes| == 7
    ensures forall i :: 0 <= i <= 5 ==> BinarySubtypes[i] == i
    ensures BinarySubtypes[6] == 0x80
  {
  }

  // ---- regular-expression flags ----
  // Flag words are BsonTypes.Bits: `|` is union, `&` intersection, and
  // subtracting a flag whose bit is set removes that bit.

  /** The bit of RE_GLOBAL_FLAG (the value 256). */
  const RE_GLOBAL_FLAG: nat := 8

  // The bits of the java.util.regex.Pattern flags, as the Java platform defines them.
  const UNIX_LINES: nat := 0        // 0x01
  const CASE_INSENSITIVE: nat := 1  // 0x02
  const COMMENTS: nat := 2          // 0x04
  const MULTILINE: nat := 3         // 0x08
  const LITERAL: nat := 4           // 0x10
  const DOTALL: nat := 5            // 0x20
  const UNICODE_CASE: nat := 6      // 0x40
  const CANON_EQ: nat := 7          // 0x80

  /** One row of the RegexFlag enum: its Pattern flag's bit, its BSON letter, and whether it is unsupported. */
  datatype FlagEntry = FlagEntry(bit: nat, flagChar: char, unsupported: bool) {
    /** javaFlag: the word with only this row's bit set. */
    function JavaFlag(): Bits {
      {bit}
    }
  }

  /** The RegexFlag enum in declaration order. */
  const RegexFlagTable: seq<FlagEntry> := [
    FlagEntry(CANON_EQ, 'c', true),
    FlagEntry(UNIX_LINES, 'd', true),
    FlagEntry(RE_GLOBAL_FLAG, 'g', false),
    FlagEntry(CASE_INSENSITIVE, 'i', false),
    FlagEntry(MULTILINE, 'm', false),
    FlagEntry(DOTALL, 's', true),
    FlagEntry(LITERAL, 't', true),
    FlagEntry(UNICODE_CASE, 'u', true),
    FlagEntry(COMMENTS, 'x', false)
  ]

  /** The letters of the table, in table order. */
  const FlagChars: string := "cdgimstux"

  /** Every bit some table row stands for (0x1FF). */
  const AllFlagBits: Bits := {0, 1, 2, 3, 4, 5, 6, 7, 8}

  /** getByCharacter: the table row for a letter, if any. */
  function ByCharacter(c: char): Option<FlagEntry> {
    if c == 'c' then Some(RegexFlagTable[0])
    else if c == 'd' then Some(RegexFlagTable[1])
    else if c == 'g' then Some(RegexFlagTable[2])
    else if c == 'i' then Some(RegexFlagTable[3])
    else if c == 'm' then Some(RegexFlagTable[4])
    else if c == 's' then Some(RegexFlagTable[5])
    else if c == 't' then Some(RegexFlagTable[6])
    else if c == 'u' then Some(RegexFlagTable[7])
    else if c == 'x' then Some(RegexFlagTable[8])
    else None
  }

  /** getByCharacter finds exactly the table's letters, and the row it finds carries the letter asked for. */
  lemma ByCharacterFinds(c: char)
    ensures ByCharacter(c).Some? <==> c in FlagChars
    ensures ByCharacter(c).Some? ==> ByCharacter(c).value in RegexFlagTable && ByCharacter(c).value.flagChar == c
  {
  }

  /** Looking up a row's own letter finds that row. */
  lemma ByCharacterRow(i: nat)
    requires i < |RegexFlagTable|
    ensures ByCharacter(RegexFlagTable[i].flagChar) == Some(RegexFlagTable[i])
  {
  }

  /**
   * regexFlag(char): no case folding; an unknown letter is an error, an
   * unsupported one gives 0, a supported one its Pattern flag.
   */
  function RegexFlag(c: char): (r: Result<Bits>)
    ensures r.Err? <==> c !in FlagChars
    ensures r.Err? ==> r.error == UnrecognizedFlag(c)
    ensures c in "cdstu" ==> r == Ok({})
    ensures c == 'g' ==> r == Ok({RE_GLOBAL_FLAG})
    ensures c == 'i' ==> r == Ok({CASE_INSENSITIVE})
    ensures c == 'm' ==> r == Ok({MULTILINE})
    ensures c == 'x' ==> r == Ok({COMMENTS})
  {
    match ByCharacter(c)
    case None => Err(UnrecognizedFlag(c))
    case Some(f) => if f.unsupported then Ok({}) else Ok(f.JavaFlag())
  }

  /** ASCII lower-casing, standing for String.toLowerCase(). */
  function LowerChar(c: char): char {
    if 'A' <= c <= 'Z' then (c as int + 32) as char else c
  }

  function UpperChar(c: char): char {
    if 'a' <= c <= 'z' then (c as int - 32) as char else c
  }

  function Lower(s: string): (r: string)
    ensures |r| == |s|
  {
    seq(|s|, i requires 0 <= i < |s| => LowerChar(s[i]))
  }

  function Upper(s: string): (r: string)
    ensures |r| == |s|
  {
    seq(|s|, i requires 0 <= i < |s| => UpperChar(s[i]))
  }

  /**
   * The flag word of a (lower-cased) letter string: the OR of every letter's
   * Pattern flag, unsupported letters included; the first letter outside the
   * table is the error.
   */
  function FlagsOf(s: string): Result<Bits> {
    if s == [] then Ok({})
    else match ByCharacter(s[0])
      case None => Err(UnrecognizedFlag(s[0]))
      case Some(f) =>
        match FlagsOf(s[1..])
        case Err(e) => Err(e)
        case Ok(rest) => Ok(f.JavaFlag() + rest)
  }

  /** The flags accumulated so far combined with the outcome for the rest of the string. */
  function OrInto(acc: Bits, r: Result<Bits>): Result<Bits> {
    match r
    case Ok(x) => Ok(acc + x)
    case Err(e) => Err(e)
  }

  /**
   * regexFlags(String): null or empty gives 0; otherwise the letters are
   * lower-cased and their flags ORed together, and the first unknown letter
   * is an error.
   */
  method RegexFlags(flags: Option<string>) returns (r: Result<Bits>)
    ensures r == FlagsOf(Lower(flags.GetOr("")))
  {
    var fint: Bits := {};
    if flags.None? || |flags.value| == 0 {
      assert Lower(flags.GetOr("")) == [];
      return Ok(fint);
    }
    var s := Lower(flags.value);
    assert s[0..] == s;
    assert FlagsOf(s).Ok? ==> {} + FlagsOf(s).value == FlagsOf(s).value;
    for i := 0 to |s|
      invariant FlagsOf(s) == OrInto(fint, FlagsOf(s[i..]))
    {
      var flag := ByCharacter(s[i]);
      FlagsOfStep(s[i..]);
      assert s[i..][0] == s[i] && s[i..][1..] == s[i + 1..];
      if flag.None? {
        return Err(UnrecognizedFlag(s[i]));
      }
      OrIntoAssociates(fint, flag.value.JavaFlag(), FlagsOf(s[i + 1..]));
      fint := fint + flag.value.JavaFlag();
    }
    assert s[|s|..] == [];
    return Ok(fint);
  }

  /** One letter of FlagsOf: an unknown first letter is the error, a known one ORs its flag in. */
  lemma FlagsOfStep(t: string)
    requires t != []
    ensures ByCharacter(t[0]).None? ==> FlagsOf(t) == Err(UnrecognizedFlag(t[0]))
    ensures ByCharacter(t[0]).Some? ==> FlagsOf(t) == OrInto(ByCharacter(t[0]).value.JavaFlag(), FlagsOf(t[1..]))
  {
  }

  lemma OrIntoAssociates(a: Bits, b: Bits, r: Result<Bits>)
    ensures OrInto(a, OrInto(b, r)) == OrInto(a + b, r)
  {
    if r.Ok? {
      assert a + (b + r.value) == (a + b) + r.value;
    }
  }

  /**
   * The loop of regexFlags(int) from table row i on: the letters it appends
   * and the bits it leaves. A row's letter is appended when its bit is set
   * (`(flags & javaFlag) > 0`: no row's bit is the sign bit), and its flag is
   * then subtracted.
   */
  function Emit(flags: Bits, i: nat): (string, Bits)
    requires i <= |RegexFlagTable|
    decreases |RegexFlagTable| - i
  {
    if i == |RegexFlagTable| then ("", flags)
    else
      var f := RegexFlagTable[i];
      if f.bit in flags then
        var rest := Emit(flags - f.JavaFlag(), i + 1);
        ([f.flagChar] + rest.0, rest.1)
      else
        Emit(flags, i + 1)
  }

  /** The sign bit of a Java int. */
  const SIGN_BIT: nat := 31

  /**
   * regexFlags(int) as written: the final `flags > 0` compares a Java int, so
   * leftover bits that include the sign bit make it negative and pass.
   */
  function FlagLettersAsWritten(flags: Bits): Result<string> {
    var (s, rest) := Emit(flags, 0);
    if rest != {} && SIGN_BIT !in rest then Err(UnrecognizedFlagBits) else Ok(s)
  }

  /** regexFlags(int) as evidently intended: any leftover bit is an error. */
  function FlagLetters(flags: Bits): Result<string> {
    var (s, rest) := Emit(flags, 0);
    if rest != {} then Err(UnrecognizedFlagBits) else Ok(s)
  }

  /** regexFlags(int): one pass over the table in order, appending letters and subtracting flags. */
  method RegexFlagLetters(flags: Bits) returns (r: Result<string>)
    ensures r == FlagLetters(flags)
  {
    var buf := "";
    var rest := flags;
    for i := 0 to |RegexFlagTable|
      invariant buf + Emit(rest, i).0 == Emit(flags, 0).0
      invariant Emit(rest, i).1 == Emit(flags, 0).1
    {
      var flag := RegexFlagTable[i];
      if flag.bit in rest {
        assert buf + Emit(rest, i).0 == (buf + [flag.flagChar]) + Emit(rest - flag.JavaFlag(), i + 1).0;
        buf := buf + [flag.flagChar];
        rest := rest - flag.JavaFlag();
      }
    }
    assert Emit(rest, |RegexFlagTable|) == ("", rest);
    assert buf + "" == buf;
    if rest != {} {
      return Err(UnrecognizedFlagBits);
    }
    return Ok(buf);
  }

  // ---- facts about the flag table ----

  /** The bits of the table rows from i on. */
  function TailMask(i: nat): Bits
    requires i <= |RegexFlagTable|
    decreases |RegexFlagTable| - i
  {
    if i == |RegexFlagTable| then {} else RegexFlagTable[i].JavaFlag() + TailMask(i + 1)
  }

  /** Each row's bit belongs to no later row, and its letter is the table's letter at that index. */
  lemma RowFacts(i: nat)
    requires i < |RegexFlagTable|
    ensures RegexFlagTable[i].bit !in TailMask(i + 1)
    ensures RegexFlagTable[i].flagChar == FlagChars[i]
  {
    assert TailMask(9) == {};
    assert TailMask(8) == {2};
    assert TailMask(7) == {6, 2};
    assert TailMask(6) == {4, 6, 2};
    assert TailMask(5) == {5, 4, 6, 2};
    assert TailMask(4) == {3, 5, 4, 6, 2};
    assert TailMask(3) == {1, 3, 5, 4, 6, 2};
    assert TailMask(2) == {8, 1, 3, 5, 4, 6, 2};
    assert TailMask(1) == {0, 8, 1, 3, 5, 4, 6, 2};
  }

  lemma AllFlagBitsIsTailMask()
    ensures TailMask(0) == AllFlagBits
  {
    assert TailMask(1) == {0, 8, 1, 3, 5, 4, 6, 2} by { RowFacts(0); }
  }

  /** A row's bit is in the mask of every suffix that contains the row. */
  lemma {:induction false} TailMaskCovers(i: nat, j: nat)
    requires i <= j < |RegexFlagTable|
    ensures RegexFlagTable[j].bit in TailMask(i)
    decreases j - i
  {
    if i < j {
      TailMaskCovers(i + 1, j);
    }
  }

  /** Two different rows have different bits. */
  lemma RowsDisjoint(i: nat, j: nat)
    requires i < |RegexFlagTable| && j < |RegexFlagTable| && i != j
    ensures RegexFlagTable[i].bit != RegexFlagTable[j].bit
  {
    if i < j {
      RowFacts(i);
      TailMaskCovers(i + 1, j);
    } else {
      RowFacts(j);
      TailMaskCovers(j + 1, i);
    }
  }

  /** The table's letters are strictly alphabetical. */
  lemma LettersAlphabetical()
    ensures forall i, j :: 0 <= i < j < |FlagChars| ==> FlagChars[i] < FlagChars[j]
  {
  }

  /** The row index of a table letter. */
  lemma LetterIndex(c: char) returns (i: nat)
    requires c in FlagChars
    ensures i < |RegexFlagTable| && RegexFlagTable[i].flagChar == c
  {
    i :| 0 <= i < |FlagChars| && FlagChars[i] == c;
    RowFacts(i);
  }

  /** Two rows share their bit exactly when they share their letter. */
  lemma SameBitSameLetter(i: nat, j: nat)
    requires i < |RegexFlagTable| && j < |RegexFlagTable|
    ensures RegexFlagTable[i].bit == RegexFlagTable[j].bit <==> RegexFlagTable[i].flagChar == RegexFlagTable[j].flagChar
  {
    if i != j {
      RowsDisjoint(i, j);
      RowFacts(i);
      RowFacts(j);
      LettersAlphabetical();
    }
  }

  /** The row a table bit belongs to. */
  function RowOf(b: nat): (j: nat)
    requires b in AllFlagBits
    ensures j < |RegexFlagTable| && RegexFlagTable[j].bit == b
  {
    if b == CANON_EQ then 0
    else if b == UNIX_LINES then 1
    else if b == RE_GLOBAL_FLAG then 2
    else if b == CASE_INSENSITIVE then 3
    else if b == MULTILINE then 4
    else if b == DOTALL then 5
    else if b == LITERAL then 6
    else if b == UNICODE_CASE then 7
    else 8
  }

  // ---- properties of regexFlags(String) ----

  /** The letters of `letters` that occur in s, in the order of `letters`. */
  function Select(letters: string, s: string): string
    decreases |letters|
  {
    if letters == [] then ""
    else if letters[0] in s then [letters[0]] + Select(letters[1..], s)
    else Select(letters[1..], s)
  }

  /** FlagsOf succeeds exactly when every letter is in the table. */
  lemma {:induction false} FlagsOfSucceeds(s: string)
    ensures FlagsOf(s).Ok? <==> forall k :: 0 <= k < |s| ==> s[k] in FlagChars
  {
    if s != [] {
      FlagsOfSucceeds(s[1..]);
      ByCharacterFinds(s[0]);
      assert forall k :: 1 <= k < |s| ==> s[k] == s[1..][k - 1];
    }
  }

  /**
   * When FlagsOf succeeds, a row's bit is set exactly when its letter occurs,
   * and no bit outside the table is set.
   */
  lemma {:induction false} FlagsOfBits(s: string)
    requires FlagsOf(s).Ok?
    ensures FlagsOf(s).value <= AllFlagBits
    ensures forall j :: 0 <= j < |RegexFlagTable| ==>
              (RegexFlagTable[j].bit in FlagsOf(s).value <==> RegexFlagTable[j].flagChar in s)
  {
    if s != [] {
      FlagsOfBits(s[1..]);
      ByCharacterFinds(s[0]);
      var fi := LetterIndex(s[0]);
      ByCharacterRow(fi);
      TailMaskCovers(0, fi);
      AllFlagBitsIsTailMask();
      forall j | 0 <= j < |RegexFlagTable|
        ensures RegexFlagTable[j].bit in FlagsOf(s).value <==> RegexFlagTable[j].flagChar in s
      {
        SameBitSameLetter(fi, j);
        assert RegexFlagTable[j].flagChar in s <==> RegexFlagTable[j].flagChar == s[0] || RegexFlagTable[j].flagChar in s[1..];
      }
    }
  }

  /** Two flag words within the table agree when they agree on every row. */
  lemma BitsDetermined(x: Bits, y: Bits)
    requires x <= AllFlagBits && y <= AllFlagBits
    requires forall j :: 0 <= j < |RegexFlagTable| ==> (RegexFlagTable[j].bit in x <==> RegexFlagTable[j].bit in y)
    ensures x == y
  {
    forall b | b in x
      ensures b in y
    {
      var j := RowOf(b);
    }
    forall b | b in y
      ensures b in x
    {
      var j := RowOf(b);
    }
  }

  /**
   * regexFlags(String) depends only on which letters occur: order and
   * repetition do not change whether it succeeds or the flags it returns.
   */
  lemma RegexFlagsIgnoreOrderAndRepetition(s: string, t: string)
    requires forall c :: c in s <==> c in t
    ensures FlagsOf(s).Ok? <==> FlagsOf(t).Ok?
    ensures FlagsOf(s).Ok? ==> FlagsOf(s) == FlagsOf(t)
  {
    FlagsOfSucceeds(s);
    FlagsOfSucceeds(t);
    if FlagsOf(s).Ok? {
      assert forall k :: 0 <= k < |t| ==> t[k] in s;
    } else if FlagsOf(t).Ok? {
      assert forall k :: 0 <= k < |s| ==> s[k] in t;
    }
    if FlagsOf(s).Ok? && FlagsOf(t).Ok? {
      FlagsOfBits(s);
      FlagsOfBits(t);
      BitsDetermined(FlagsOf(s).value, FlagsOf(t).value);
    }
  }

  /** regexFlags(String) lower-cases first, so upper- and lower-case letters give the same result. */
  lemma RegexFlagsIgnoreCase(s: string)
    ensures FlagsOf(Lower(Upper(s))) == FlagsOf(Lower(s))
  {
    assert Lower(Upper(s)) == Lower(s);
  }

  /**
   * The letters regexFlags(int) emits from row i on, and the bits it leaves,
   * when the bits of rows i.. are set exactly for the letters of s.
   */
  lemma {:induction false} EmitSelects(r: Bits, i: nat, s: string)
    requires i <= |RegexFlagTable|
    requires forall j :: i <= j < |RegexFlagTable| ==> (RegexFlagTable[j].bit in r <==> RegexFlagTable[j].flagChar in s)
    ensures Emit(r, i) == (Select(FlagChars[i..], s), r - TailMask(i))
    decreases |RegexFlagTable| - i
  {
    if i < |RegexFlagTable| {
      var f := RegexFlagTable[i];
      RowFacts(i);
      assert FlagChars[i..][0] == FlagChars[i] && FlagChars[i..][1..] == FlagChars[i + 1..];
      if f.bit in r {
        forall j | i + 1 <= j < |RegexFlagTable|
          ensures RegexFlagTable[j].bit in r - f.JavaFlag() <==> RegexFlagTable[j].bit in r
        {
          RowsDisjoint(i, j);
        }
        EmitSelects(r - f.JavaFlag(), i + 1, s);
        assert (r - f.JavaFlag()) - TailMask(i + 1) == r - TailMask(i);
      } else {
        EmitSelects(r, i + 1, s);
        assert r - TailMask(i + 1) == r - TailMask(i);
      }
    } else {
      assert FlagChars[i..] == [];
      assert r - TailMask(i) == r;
    }
  }

  /**
   * Round trip: translating letters to flags and back yields the letters that
   * occur in the (lower-cased) input, once each, in table order.
   */
  lemma LettersBitsLetters(s: string)
    requires FlagsOf(Lower(s)).Ok?
    ensures FlagLetters(FlagsOf(Lower(s)).value) == Ok(Select(FlagChars, Lower(s)))
  {
    assert FlagChars[0..] == FlagChars;
    var r := FlagsOf(Lower(s)).value;
    FlagsOfBits(Lower(s));
    EmitSelects(r, 0, Lower(s));
    AllFlagBitsIsTailMask();
  }

  /** Selecting from a strictly ordered alphabet gives a strictly ordered string, bounded below by the alphabet's first letter. */
  lemma {:induction false} SelectSorted(letters: string, s: string)
    requires forall a, b :: 0 <= a < b < |letters| ==> letters[a] < letters[b]
    ensures forall a, b :: 0 <= a < b < |Select(letters, s)| ==> Select(letters, s)[a] < Select(letters, s)[b]
    ensures forall k :: 0 <= k < |Select(letters, s)| ==> letters != [] && letters[0] <= Select(letters, s)[k]
    decreases |letters|
  {
    if letters != [] {
      var tail := letters[1..];
      assert forall a, b :: 0 <= a < b < |tail| ==> tail[a] < tail[b] by {
        forall a, b | 0 <= a < b < |tail|
          ensures tail[a] < tail[b]
        {
          assert tail[a] == letters[a + 1] && tail[b] == letters[b + 1];
        }
      }
      SelectSorted(tail, s);
      var c := Select(tail, s);
      if c != [] {
        assert letters[0] < letters[1] == tail[0];
        assert forall k :: 0 <= k < |c| ==> letters[0] < c[k];
      }
      if letters[0] in s {
        var d := [letters[0]] + c;
        assert Select(letters, s) == d;
        forall a, b | 0 <= a < b < |d|
          ensures d[a] < d[b]
        {
          if a > 0 {
            assert d[a] == c[a - 1] && d[b] == c[b - 1];
          }
        }
        forall k | 0 <= k < |d|
          ensures letters[0] <= d[k]
        {
          if k > 0 {
            assert d[k] == c[k - 1];
          }
        }
      } else {
        assert Select(letters, s) == c;
      }
    } else {
      assert Select(letters, s) == "";
    }
  }

  /** A letter is selected exactly when it is in the alphabet and occurs in s. */
  lemma {:induction false} SelectMembers(letters: string, s: string)
    ensures forall c :: c in Select(letters, s) <==> c in letters && c in s
    decreases |letters|
  {
    if letters != [] {
      SelectMembers(letters[1..], s);
      assert letters == [letters[0]] + letters[1..];
    }
  }

  /**
   * The canonical form regexFlags(int) gives back for a letter string lists
   * each table letter of the string once, in strictly alphabetical order, and
   * nothing else.
   */
  lemma CanonicalIsSortedLetterSet(s: string)
    ensures forall a, b :: 0 <= a < b < |Select(FlagChars, s)| ==> Select(FlagChars, s)[a] < Select(FlagChars, s)[b]
    ensures forall c :: c in Select(FlagChars, s) <==> c in FlagChars && c in s
  {
    LettersAlphabetical();
    SelectSorted(FlagChars, s);
    SelectMembers(FlagChars, s);
  }

  /** The letters regexFlags(int) emits from row i on give back the input's bits of those rows. */
  lemma {:induction false} EmittedLettersBits(r: Bits, i: nat)
    requires i <= |RegexFlagTable|
    ensures FlagsOf(Emit(r, i).0) == Ok(r * TailMask(i))
    ensures Emit(r, i).1 == r - TailMask(i)
    decreases |RegexFlagTable| - i
  {
    if i < |RegexFlagTable| {
      var f := RegexFlagTable[i];
      RowFacts(i);
      if f.bit in r {
        EmittedLettersBits(r - f.JavaFlag(), i + 1);
        var rest := Emit(r - f.JavaFlag(), i + 1).0;
        assert ([f.flagChar] + rest)[0] == f.flagChar;
        assert ([f.flagChar] + rest)[1..] == rest;
        ByCharacterRow(i);
        assert f.JavaFlag() + (r - f.JavaFlag()) * TailMask(i + 1) == r * TailMask(i);
        assert (r - f.JavaFlag()) - TailMask(i + 1) == r - TailMask(i);
      } else {
        EmittedLettersBits(r, i + 1);
        assert r * TailMask(i + 1) == r * TailMask(i);
        assert r - TailMask(i + 1) == r - TailMask(i);
      }
    } else {
      assert r * TailMask(i) == {};
      assert r - TailMask(i) == r;
    }
  }

  /** Flags that no row from i on stands for emit no letters and are all left over. */
  lemma {:induction false} EmitNothing(r: Bits, i: nat)
    requires i <= |RegexFlagTable|
    requires r * TailMask(i) == {}
    ensures Emit(r, i) == ("", r)
    decreases |RegexFlagTable| - i
  {
    if i < |RegexFlagTable| {
      assert RegexFlagTable[i].bit in TailMask(i);
      assert r * TailMask(i + 1) == {};
      EmitNothing(r, i + 1);
    }
  }

  /** Round trip the other way: flags within the table give letters that give back the same flags. */
  lemma BitsLettersBits(r: Bits)
    requires r <= AllFlagBits
    ensures FlagLetters(r).Ok?
    ensures FlagsOf(FlagLetters(r).value) == Ok(r)
  {
    EmittedLettersBits(r, 0);
    AllFlagBitsIsTailMask();
    assert r * AllFlagBits == r;
    assert r - AllFlagBits == {};
  }

  // ---- dumpBytes ----

  /** The HEX_CHAR table: '0'..'9' then 'A'..'F'. */
  function HexChar(n: int): char
    requires 0 <= n < 16
  {
    if n < 10 then ('0' as int + n) as char else ('A' as int + n - 10) as char
  }

  /** The five characters dumpBytes writes for one byte: "0x", two upper-case hex digits, a space. */
  function ByteHex(b: byte): string {
    "0x" + [HexChar(b / 16), HexChar(b % 16)] + " "
  }

  function HexDump(bs: seq<byte>): string {
    if bs == [] then "" else HexDump(bs[..|bs| - 1]) + ByteHex(bs[|bs| - 1])
  }

  /** dumpBytes(byte[]): "" for null, otherwise the bytes' ByteHex pieces in order. */
  method DumpBytes(buffer: Option<seq<byte>>) returns (s: string)
    ensures s == if buffer.None? then "" else HexDump(buffer.value)
  {
    if buffer.None? {
      return "";
    }
    var bs := buffer.value;
    s := "";
    for i := 0 to |bs|
      invariant s == HexDump(bs[..i])
    {
      assert bs[..i + 1][..i] == bs[..i];
      s := s + "0x" + [HexChar(bs[i] / 16), HexChar(bs[i] % 16)] + " ";
    }
    assert bs[..|bs|] == bs;
  }

  /** The value of an upper-case hex digit. */
  function HexValue(c: char): int {
    if '0' <= c <= '9' then c as int - '0' as int
    else if 'A' <= c <= 'F' then c as int - 'A' as int + 10
    else 0
  }

  /** Reads a dump back: one byte per five characters, from the two digits after "0x". */
  function ParseDump(s: string): seq<int>
    decreases |s|
  {
    if |s| < 5 then [] else ParseDump(s[..|s| - 5]) + [HexValue(s[|s| - 3]) * 16 + HexValue(s[|s| - 2])]
  }

  /** A dump has five characters per byte, and the i-th group of five is the i-th byte's. */
  lemma {:induction false} HexDumpShape(bs: seq<byte>)
    ensures |HexDump(bs)| == 5 * |bs|
    ensures forall i :: 0 <= i < |bs| ==> HexDump(bs)[5 * i..5 * i + 5] == ByteHex(bs[i])
  {
    if bs != [] {
      var init := bs[..|bs| - 1];
      HexDumpShape(init);
      var d := HexDump(bs);
      assert d == HexDump(init) + ByteHex(bs[|bs| - 1]);
      forall i | 0 <= i < |bs|
        ensures d[5 * i..5 * i + 5] == ByteHex(bs[i])
      {
        if i < |bs| - 1 {
          assert d[5 * i..5 * i + 5] == HexDump(init)[5 * i..5 * i + 5];
        }
      }
    }
  }

  /** Reading back one more group of five characters appends one byte. */
  lemma ParseDumpAppend(d: string, b: byte)
    ensures ParseDump(d + ByteHex(b)) == ParseDump(d) + [b]
  {
    var e := d + ByteHex(b);
    assert e[..|e| - 5] == d;
    assert e[|e| - 3] == HexChar(b / 16) && e[|e| - 2] == HexChar(b % 16);
  }

  /** Reading a dump back gives the bytes dumped. */
  lemma {:induction false} ParseDumpHexDump(bs: seq<byte>)
    ensures ParseDump(HexDump(bs)) == bs
  {
    if bs != [] {
      var init := bs[..|bs| - 1];
      ParseDumpHexDump(init);
      ParseDumpAppend(HexDump(init), bs[|bs| - 1]);
      assert init + [bs[|bs| - 1]] == bs;
    }
  }
}
