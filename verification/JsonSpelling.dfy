/** Exactly which texts are read as which values: the grammar of RFC 8259
    without fractions and exponents, stated apart from the reader. */
module JsonSpelling {
  import opened Wrappers
  import opened Utf8
  import opened Integers
  import opened Sequences
  import opened Json
  import opened JsonRoundTrip
  import opened JsonText

  // ------------------------------------------------------------ the grammar

  /** Nothing but space stands from `i` to `j`. */
  ghost predicate Gap(b: seq<Byte>, i: nat, j: nat) {
    i <= j <= |b| && forall k :: i <= k < j ==> IsSpace(b[k])
  }

  /** One character of a string: as itself, by a one-letter escape, or by the
      hexadecimal escapes of its UTF-16. */
  ghost predicate SpellsChar(b: seq<Byte>, i: nat, j: nat, c: char) {
    || (Spans(b, i, j, [c]) && c as int >= 0x20 && c != '"' && c != '\\')
    || (j == i + 2 <= |b| && PeekIs(b, i, '\\') && SimpleEscape(b[i + 1]) == Some(c as int))
    || (PeekIs(b, i, '\\') && PeekIs(b, i + 1, 'u') && SpellsUnits(b, i + 2, j, Utf16(c)))
  }

  /** The rest of a string and its closing quote. */
  ghost predicate SpellsChars(b: seq<Byte>, i: nat, j: nat, s: string)
    decreases s
  {
    if s == [] then PeekIs(b, i, '"') && j == i + 1
    else exists m: nat :: SpellsChar(b, i, m, s[0]) && SpellsChars(b, m, j, s[1..])
  }

  ghost predicate SpellsString(b: seq<Byte>, i: nat, j: nat, s: string) {
    PeekIs(b, i, '"') && SpellsChars(b, i + 1, j, s)
  }

  /** Decimal digits without leading zeros; zero may have a sign. */
  ghost predicate SpellsNumber(b: seq<Byte>, i: nat, j: nat, n: int) {
    Spans(b, i, j, Show(n)) || (n == 0 && Spans(b, i, j, "-0"))
  }

  /** A bracket that closes what nothing is in. */
  ghost predicate Closes(b: seq<Byte>, i: nat, j: nat, bracket: char) {
    exists m: nat :: Gap(b, i, m) && PeekIs(b, m, bracket) && j == m + 1
  }

  /** `b[i..j]` is a spelling of `v`. */
  ghost predicate Spells(b: seq<Byte>, i: nat, j: nat, v: Value)
    decreases v, 0
  {
    match v
    case Null => Spans(b, i, j, "null")
    case Bool(x) => Spans(b, i, j, if x then "true" else "false")
    case Int(n) => SpellsNumber(b, i, j, n)
    case Str(s) => SpellsString(b, i, j, s)
    case Arr(items) =>
      PeekIs(b, i, '[') && if items == [] then Closes(b, i + 1, j, ']') else SpellsItems(b, i + 1, j, items)
    case Obj(fields) =>
      PeekIs(b, i, '{') && if fields == [] then Closes(b, i + 1, j, '}') else SpellsFields(b, i + 1, j, fields)
  }

  /** Items with space around each, commas between them, and the bracket. */
  ghost predicate SpellsItems(b: seq<Byte>, i: nat, j: nat, items: seq<Value>)
    requires items != []
    decreases items, 1
  {
    exists at: nat, end: nat, m: nat ::
      && Gap(b, i, at) && Spells(b, at, end, items[0]) && Gap(b, end, m)
      && if |items| == 1 then PeekIs(b, m, ']') && j == m + 1
         else PeekIs(b, m, ',') && SpellsItems(b, m + 1, j, items[1..])
  }

  ghost predicate SpellsField(b: seq<Byte>, i: nat, j: nat, f: Field)
    decreases f, 1
  {
    exists end: nat, colon: nat, at: nat ::
      && SpellsString(b, i, end, f.key) && Gap(b, end, colon) && PeekIs(b, colon, ':')
      && Gap(b, colon + 1, at) && Spells(b, at, j, f.value)
  }

  ghost predicate SpellsFields(b: seq<Byte>, i: nat, j: nat, fields: seq<Field>)
    requires fields != []
    decreases fields, 2
  {
    exists at: nat, end: nat, m: nat ::
      && Gap(b, i, at) && SpellsField(b, at, end, fields[0]) && Gap(b, end, m)
      && if |fields| == 1 then PeekIs(b, m, '}') && j == m + 1
         else PeekIs(b, m, ',') && SpellsFields(b, m + 1, j, fields[1..])
  }

  /** The whole text is a spelling of `v`, with any space around it. */
  ghost predicate TextSpells(text: string, v: Value) {
    var b := Encode(text);
    exists at: nat, end: nat :: Gap(b, 0, at) && Spells(b, at, end, v) && Gap(b, end, |b|)
  }

  // ------------------------------------------------- what is spelled is read

  lemma GapSkips(b: seq<Byte>, i: nat, m: nat)
    requires Gap(b, i, m) && (m < |b| ==> !IsSpace(b[m]))
    ensures SkipSpace(b, i) == m
  {
    SkipsTo(b, i, m);
  }

  /** Space, a comma or a bracket ends a number. */
  lemma GapEndsNumber(b: seq<Byte>, i: nat, m: nat)
    requires Gap(b, i, m)
    requires m == |b| || PeekIs(b, m, ',') || PeekIs(b, m, ']') || PeekIs(b, m, '}')
    ensures EndsNumber(b, i)
  {
    assert i < m ==> IsSpace(b[i]);
  }

  lemma CharReads(b: seq<Byte>, i: nat, j: nat, c: char, buf: seq<Byte>)
    requires SpellsChar(b, i, j, c)
    ensures i < j <= |b| && ReadChars(b, i, buf) == ReadChars(b, j, buf + EncodeChar(c))
  {
    CharBytes(c);
    if Spans(b, i, j, [c]) && c as int >= 0x20 && c != '"' && c != '\\' {
      PlainReads(b, i, j, c, buf);
    } else if j == i + 2 <= |b| && PeekIs(b, i, '\\') && SimpleEscape(b[i + 1]) == Some(c as int) {
      ShortReads(b, i, c, buf);
    } else {
      EscapeIsUtf16(b, i + 2, j, c);
      hide SpellsUnits, ReadUnicodeEscape, EncodeChar;
    }
  }

  lemma PlainReads(b: seq<Byte>, i: nat, j: nat, c: char, buf: seq<Byte>)
    requires Spans(b, i, j, [c]) && c as int >= 0x20 && c != '"' && c != '\\'
    ensures i < j <= |b| && ReadChars(b, i, buf) == ReadChars(b, j, buf + EncodeChar(c))
  {
    OneCharEncodes(c);
    CharBytes(c);
    forall k | i <= k < j ensures b[k] >= 0x20 && b[k] != '"' as int && b[k] != '\\' as int {
      assert b[i..j][k - i] == b[k];
    }
    PlainBytes(b, i, j, buf);
  }

  lemma OneCharEncodes(c: char)
    ensures Encode([c]) == EncodeChar(c)
  {
    EncodeCons(c, []);
    assert [c] + [] == [c] && EncodeChar(c) + Encode([]) == EncodeChar(c);
  }

  lemma ShortReads(b: seq<Byte>, i: nat, c: char, buf: seq<Byte>)
    requires i + 2 <= |b| && PeekIs(b, i, '\\') && SimpleEscape(b[i + 1]) == Some(c as int)
    ensures ReadChars(b, i, buf) == ReadChars(b, i + 2, buf + EncodeChar(c))
  {
  }

  lemma {:induction false} CharsRead(b: seq<Byte>, i: nat, j: nat, done: string, s: string)
    requires SpellsChars(b, i, j, s)
    ensures i < j <= |b| && ReadChars(b, i, Encode(done)) == Parsed(done + s, j)
    decreases s
  {
    hide SpellsChar, Encode, EncodeChar, Decode, SimpleEscape, ReadUnicodeEscape;
    if s == [] {
      DecodeEncoded(done);
      assert done + s == done;
    } else {
      hide ReadChars;
      var m: nat :| SpellsChar(b, i, m, s[0]) && SpellsChars(b, m, j, s[1..]);
      CharReads(b, i, m, s[0], Encode(done));
      EncodeOneMore(done, s[0]);
      CharsRead(b, m, j, done + [s[0]], s[1..]);
      assert done + [s[0]] + s[1..] == done + s;
    }
  }

  lemma StringReads(b: seq<Byte>, i: nat, j: nat, s: string)
    requires SpellsString(b, i, j, s)
    ensures i < j <= |b| && ReadString(b, i) == Parsed(s, j)
  {
    hide SpellsChars, ReadChars;
    CharsRead(b, i + 1, j, [], s);
    assert [] + s == s;
  }

  lemma NumberIsRead(b: seq<Byte>, i: nat, j: nat, n: I64)
    requires SpellsNumber(b, i, j, n) && EndsNumber(b, j)
    ensures i < j <= |b| && ReadNumber(b, i) == Parsed(Int(n), j)
    ensures b[i] == '-' as int || IsDigitByte(b[i])
  {
    hide Spans;
    if Spans(b, i, j, Show(n)) {
      NumberReads(b, i, j, n);
    } else {
      var text := "-0";
      SpansAscii(b, i, j, text);
      assert b[i + 0] == text[0] as int && b[i + 1] == text[1] as int;
      SkipsDigitsTo(b, i + 1, i + 2);
      SpansIs(b, i, j, text);
      DecodeEncoded(text);
      NoughtParses();
    }
  }

  lemma NoughtParses()
    ensures ParseI64("-0") == Some(0)
  {
    assert "-0"[1..] == "0" && "0"[..0] == "";
    assert DigitsValue("0") == 0;
  }

  /** A spelling starts with neither space nor a closing bracket. */
  lemma FirstIsSolid(b: seq<Byte>, i: nat, j: nat, v: Value)
    requires Spells(b, i, j, v)
    ensures i < |b| && !IsSpace(b[i]) && b[i] != ']' as int && b[i] != '}' as int
  {
    hide SpellsChars, Closes;
    match v
    case Null => WordStarts(b, i, j, "null");
    case Bool(x) => WordStarts(b, i, j, if x then "true" else "false");
    case Int(n) => NumberStarts(b, i, j, n);
    case _ =>
  }

  lemma WordStarts(b: seq<Byte>, i: nat, j: nat, word: string)
    requires Spans(b, i, j, word) && word != [] && word[0] as int < 0x80
    ensures i < j <= |b| && b[i] == word[0] as int
  {
    hide Spans;
    assert word == [word[0]] + word[1..];
    SpansCons(b, i, j, word[0], word[1..]);
  }

  lemma NumberStarts(b: seq<Byte>, i: nat, j: nat, n: int)
    requires SpellsNumber(b, i, j, n)
    ensures i < |b| && (b[i] == '-' as int || IsDigitByte(b[i]))
  {
    hide Spans;
    WordStarts(b, i, j, if Spans(b, i, j, Show(n)) then Show(n) else "-0");
  }

  /** A spelled value is read, wherever it stands and however it is spelled. */
  lemma {:induction false} SpelledReads(b: seq<Byte>, i: nat, j: nat, v: Value, depth: nat)
    requires Spells(b, i, j, v) && EndsNumber(b, j)
    requires Buildable(v) && depth + Nesting(v) <= MAX_DEPTH
    ensures i < j <= |b| && Reads(b, i, j, depth, AValue(v))
    decreases v, 0
  {
    hide Reads, SpellsString, SpellsNumber, Spans, Closes, EndsNumber;
    match v {
      case Arr(items) =>
        if items == [] {
          EmptyIsRead(b, i, j, v, depth);
        } else {
          SpelledItemsRead(b, i + 1, j, items, depth, []);
          assert [] + items == items;
          ItemsStartSolid(b, i + 1, j, items);
          ArrayReads(b, i, j, items, depth);
        }
      case Obj(fields) =>
        if fields == [] {
          EmptyIsRead(b, i, j, v, depth);
        } else {
          assert [] + fields == fields;
          SpelledFieldsRead(b, i + 1, j, fields, depth, []);
          FieldsStartSolid(b, i + 1, j, fields);
          ObjectReads(b, i, j, fields, depth);
        }
      case _ => ScalarIsRead(b, i, j, v, depth);
    }
  }

  lemma ScalarIsRead(b: seq<Byte>, i: nat, j: nat, v: Value, depth: nat)
    requires !v.Arr? && !v.Obj? && depth <= MAX_DEPTH
    requires Spells(b, i, j, v) && EndsNumber(b, j)
    ensures i < j <= |b| && Reads(b, i, j, depth, AValue(v))
  {
    hide Spans, SpellsString, SpellsNumber, ReadString, ReadNumber, EndsNumber;
    match v
    case Null => WordReads(b, i, j, "null", v, depth);
    case Bool(x) => WordReads(b, i, j, if x then "true" else "false", v, depth);
    case Int(n) =>
      NumberIsRead(b, i, j, n);
      NumberStarts(b, i, j, n);
    case Str(s) =>
      StringReads(b, i, j, s);
      StringStarts(b, i, j, s);
  }

  lemma StringStarts(b: seq<Byte>, i: nat, j: nat, s: string)
    requires SpellsString(b, i, j, s)
    ensures PeekIs(b, i, '"')
  {
  }

  lemma WordReads(b: seq<Byte>, i: nat, j: nat, word: string, v: Value, depth: nat)
    requires || (word == "null" && v == Null)
             || (word == "true" && v == Bool(true))
             || (word == "false" && v == Bool(false))
    requires Spans(b, i, j, word) && depth <= MAX_DEPTH
    ensures i < j <= |b| && ReadValue(b, i, depth) == Parsed(v, j)
  {
    assert word == Printed(v, None, 0);
    LiteralReads(b, i, j, depth, v);
    WordStarts(b, i, j, word);
  }

  lemma EmptyIsRead(b: seq<Byte>, i: nat, j: nat, v: Value, depth: nat)
    requires v == Arr([]) || v == Obj([])
    requires depth <= MAX_DEPTH && Spells(b, i, j, v)
    ensures i < j <= |b| && Reads(b, i, j, depth, AValue(v))
  {
    var bracket := if v.Arr? then ']' else '}';
    var m: nat :| Gap(b, i + 1, m) && PeekIs(b, m, bracket) && j == m + 1;
    GapSkips(b, i + 1, m);
    hide SkipSpace;
    assert if v.Arr? then ReadArray(b, i, depth) == Parsed(v, j) else ReadObject(b, i, depth) == Parsed(v, j);
  }

  // ------------------------------------------------------------ containers

  /** Where the first of the items stands, and what follows it. */
  lemma ItemStands(b: seq<Byte>, i: nat, j: nat, items: seq<Value>) returns (at: nat, end: nat, m: nat)
    requires items != [] && SpellsItems(b, i, j, items)
    ensures i <= at <= |b| && SkipSpace(b, i) == at && Spells(b, at, end, items[0]) && !PeekIs(b, at, ']')
    ensures EndsNumber(b, end)
    ensures end <= |b| ==> SkipSpace(b, end) == m
    ensures if |items| == 1 then PeekIs(b, m, ']') && j == m + 1
            else PeekIs(b, m, ',') && SpellsItems(b, m + 1, j, items[1..])
  {
    at, end, m :|
      && Gap(b, i, at) && Spells(b, at, end, items[0]) && Gap(b, end, m)
      && if |items| == 1 then PeekIs(b, m, ']') && j == m + 1
         else PeekIs(b, m, ',') && SpellsItems(b, m + 1, j, items[1..]);
    FirstIsSolid(b, at, end, items[0]);
    hide Spells, SpellsItems, EndsNumber;
    GapSkips(b, i, at);
    GapSkips(b, end, m);
    GapEndsNumber(b, end, m);
  }

  lemma ItemsStartSolid(b: seq<Byte>, i: nat, j: nat, items: seq<Value>)
    requires items != [] && SpellsItems(b, i, j, items)
    ensures i <= |b| && !PeekIs(b, SkipSpace(b, i), ']')
  {
    var _, _, _ := ItemStands(b, i, j, items);
  }

  /** One turn of the item loop, the last or any other. */
  lemma ItemTurn(b: seq<Byte>, i: nat, end: nat, j: nat, depth: nat, done: seq<Value>, v: Value, all: seq<Value>)
    requires i <= |b| && Reads(b, SkipSpace(b, i), end, depth + 1, AValue(v)) && end <= |b|
    requires var m := SkipSpace(b, end);
             || (PeekIs(b, m, ']') && j == m + 1 && all == done + [v])
             || (PeekIs(b, m, ',') && Reads(b, m + 1, j, depth, SomeItems(done + [v], all)))
    ensures Reads(b, i, j, depth, SomeItems(done, all))
  {
    hide ReadValue, SkipSpace;
  }

  lemma {:induction false} SpelledItemsRead(b: seq<Byte>, i: nat, j: nat, items: seq<Value>, depth: nat,
                                            done: seq<Value>)
    requires items != [] && SpellsItems(b, i, j, items)
    requires forall k :: 0 <= k < |items| ==> Buildable(items[k])
    requires depth + 1 + ItemsNesting(items) <= MAX_DEPTH
    ensures i < j <= |b| && Reads(b, i, j, depth, SomeItems(done, done + items))
    decreases items, 1
  {
    hide Spells, SpellsItems, Reads, Nesting, Buildable, EndsNumber, SkipSpace;
    var v, rest := items[0], items[1..];
    var at, end, m := ItemStands(b, i, j, items);
    SpelledReads(b, at, end, v, depth + 1);
    if rest == [] {
      assert done + items == done + [v];
    } else {
      assert done + items == done + [v] + rest;
      SpelledItemsRead(b, m + 1, j, rest, depth, done + [v]);
    }
    ItemTurn(b, i, end, j, depth, done, v, done + items);
  }

  lemma FieldStands(b: seq<Byte>, i: nat, j: nat, fields: seq<Field>) returns (at: nat, end: nat, m: nat)
    requires fields != [] && SpellsFields(b, i, j, fields)
    ensures i <= at <= |b| && SkipSpace(b, i) == at && SpellsField(b, at, end, fields[0]) && !PeekIs(b, at, '}')
    ensures EndsNumber(b, end)
    ensures end <= |b| ==> SkipSpace(b, end) == m
    ensures if |fields| == 1 then PeekIs(b, m, '}') && j == m + 1
            else PeekIs(b, m, ',') && SpellsFields(b, m + 1, j, fields[1..])
  {
    at, end, m :|
      && Gap(b, i, at) && SpellsField(b, at, end, fields[0]) && Gap(b, end, m)
      && if |fields| == 1 then PeekIs(b, m, '}') && j == m + 1
         else PeekIs(b, m, ',') && SpellsFields(b, m + 1, j, fields[1..]);
    KeyStarts(b, at, end, fields[0]);
    hide SpellsField, SpellsFields, EndsNumber;
    GapSkips(b, i, at);
    GapSkips(b, end, m);
    GapEndsNumber(b, end, m);
  }

  lemma KeyStarts(b: seq<Byte>, i: nat, j: nat, f: Field)
    requires SpellsField(b, i, j, f)
    ensures PeekIs(b, i, '"')
  {
    hide SpellsChars, Spells;
  }

  lemma FieldsStartSolid(b: seq<Byte>, i: nat, j: nat, fields: seq<Field>)
    requires fields != [] && SpellsFields(b, i, j, fields)
    ensures i <= |b| && !PeekIs(b, SkipSpace(b, i), '}')
  {
    var _, _, _ := FieldStands(b, i, j, fields);
  }

  lemma FieldTurn(b: seq<Byte>, i: nat, end: nat, j: nat, depth: nat, done: seq<Field>, f: Field, all: seq<Field>)
    requires i <= |b| && Reads(b, SkipSpace(b, i), end, depth, AField(f)) && end <= |b| && !HasKey(done, f.key)
    requires var m := SkipSpace(b, end);
             || (PeekIs(b, m, '}') && j == m + 1 && all == done + [f])
             || (PeekIs(b, m, ',') && Reads(b, m + 1, j, depth, SomeFields(done + [f], all)))
    ensures Reads(b, i, j, depth, SomeFields(done, all))
  {
    hide ReadField, SkipSpace, HasKey;
  }

  lemma FieldParts(b: seq<Byte>, i: nat, j: nat, f: Field) returns (end: nat, colon: nat, at: nat)
    requires SpellsField(b, i, j, f)
    ensures SpellsString(b, i, end, f.key) && Gap(b, end, colon) && PeekIs(b, colon, ':')
    ensures Gap(b, colon + 1, at) && Spells(b, at, j, f.value)
  {
    hide SpellsString, Gap, Spells;
    end, colon, at :|
      && SpellsString(b, i, end, f.key) && Gap(b, end, colon) && PeekIs(b, colon, ':')
      && Gap(b, colon + 1, at) && Spells(b, at, j, f.value);
  }

  lemma {:induction false} SpelledFieldReads(b: seq<Byte>, i: nat, j: nat, f: Field, depth: nat)
    requires SpellsField(b, i, j, f) && EndsNumber(b, j)
    requires Buildable(f.value) && depth + 1 + Nesting(f.value) <= MAX_DEPTH
    ensures i < j <= |b| && Reads(b, i, j, depth, AField(f))
    decreases f, 1
  {
    hide *;
    var end, colon, at := FieldParts(b, i, j, f);
    KeyReads(b, i, end, colon, f.key);
    GapThenValue(b, colon + 1, at, j, f.value);
    SpelledReads(b, at, j, f.value, depth + 1);
    FieldComesTo(b, i, end, j, depth, f);
  }

  lemma KeyReads(b: seq<Byte>, i: nat, end: nat, colon: nat, key: string)
    requires SpellsString(b, i, end, key) && Gap(b, end, colon) && PeekIs(b, colon, ':')
    ensures PeekIs(b, i, '"') && i < end <= |b| && ReadString(b, i) == Parsed(key, end)
    ensures SkipSpace(b, end) == colon < |b|
  {
    hide ReadString, SpellsString;
    StringReads(b, i, end, key);
    StringStarts(b, i, end, key);
    GapSkips(b, end, colon);
  }

  lemma GapThenValue(b: seq<Byte>, i: nat, at: nat, j: nat, v: Value)
    requires Gap(b, i, at) && Spells(b, at, j, v)
    ensures i <= at <= |b| && SkipSpace(b, i) == at
  {
    hide Spells;
    FirstIsSolid(b, at, j, v);
    GapSkips(b, i, at);
  }

  lemma FieldComesTo(b: seq<Byte>, i: nat, end: nat, j: nat, depth: nat, f: Field)
    requires PeekIs(b, i, '"') && end <= |b| && ReadString(b, i) == Parsed(f.key, end)
    requires PeekIs(b, SkipSpace(b, end), ':')
    requires Reads(b, SkipSpace(b, SkipSpace(b, end) + 1), j, depth + 1, AValue(f.value))
    ensures Reads(b, i, j, depth, AField(f))
  {
    hide ReadString, ReadValue, SkipSpace;
  }

  lemma {:induction false} SpelledFieldsRead(b: seq<Byte>, i: nat, j: nat, fields: seq<Field>, depth: nat,
                                             done: seq<Field>)
    requires fields != [] && SpellsFields(b, i, j, fields) && DistinctKeys(done + fields)
    requires forall k :: 0 <= k < |fields| ==> Buildable(fields[k].value)
    requires depth + 1 + FieldsNesting(fields) <= MAX_DEPTH
    ensures i < j <= |b| && Reads(b, i, j, depth, SomeFields(done, done + fields))
    decreases fields, 2
  {
    hide SpellsField, SpellsFields, Reads, Nesting, Buildable, EndsNumber, SkipSpace, HasKey, DistinctKeys;
    var f, rest := fields[0], fields[1..];
    var at, end, m := FieldStands(b, i, j, fields);
    SpelledFieldReads(b, at, end, f, depth);
    NotYetHeld(done, fields);
    if rest == [] {
      assert done + fields == done + [f];
    } else {
      assert done + fields == done + [f] + rest;
      SpelledFieldsRead(b, m + 1, j, rest, depth, done + [f]);
    }
    FieldTurn(b, i, end, j, depth, done, f, done + fields);
  }

  // ------------------------------------------------- what is read is spelled

  lemma SkippedIsGap(b: seq<Byte>, i: nat)
    requires i <= |b|
    ensures Gap(b, i, SkipSpace(b, i))
  {
  }

  lemma DecodedIs(bs: seq<Byte>, s: string)
    requires Decode(bs) == Some(s)
    ensures bs == Encode(s)
  {
  }

  lemma OneMore(buf: seq<Byte>, done: string, c: char)
    requires Decode(buf) == Some(done)
    ensures Decode(buf + EncodeChar(c)) == Some(done + [c])
  {
    DecodedIs(buf, done);
    hide Decode, Encode, EncodeChar;
    EncodeOneMore(done, c);
    DecodeEncoded(done + [c]);
  }

  /** The whole character that starts at `i`. */
  lemma WholeChar(b: seq<Byte>, i: nat) returns (c: char, j: nat)
    requires Boundary(b, i) && i < |b| && b[i] >= 0x80
    ensures i < j <= |b| && Boundary(b, j) && Spans(b, i, j, [c]) && c as int >= 0x80
    ensures forall k :: i <= k < j ==> b[k] >= 0x80
  {
    var rest := b[i..];
    c := FirstChar(rest);
    j := i + Width(rest[0]);
    assert EncodeChar(c) == rest[..j - i] == b[i..j];
    assert rest[j - i..] == b[j..];
    CharBytes(c);
    forall k | i <= k < j ensures b[k] >= 0x80 {
      assert b[k] == EncodeChar(c)[k - i];
    }
    OneCharEncodes(c);
  }

  /** The character the string loop takes next, and how it is spelled. */
  lemma NextChar(b: seq<Byte>, i: nat, buf: seq<Byte>) returns (c: char, m: nat)
    requires Boundary(b, i) && ReadChars(b, i, buf).Parsed? && !PeekIs(b, i, '"')
    ensures SpellsChar(b, i, m, c) && Boundary(b, m) && i < m
    ensures ReadChars(b, i, buf) == ReadChars(b, m, buf + EncodeChar(c))
  {
    hide Whole, EncodeChar, SpellsUnits, ReadUnicodeEscape, Utf16;
    if b[i] == '\\' as int {
      AfterAscii(b, i);
      var e := b[i + 1];
      if e == 'u' as int {
        AfterAscii(b, i + 1);
        EscapeSound(b, i + 2);
        var r := ReadUnicodeEscape(b, i + 2);
        c, m := r.value, r.next;
        EscapeIsUtf16(b, i + 2, m, c);
      } else {
        c, m := SimpleEscape(e).value as char, i + 2;
        AfterAscii(b, i + 1);
      }
    } else if b[i] >= 0x80 {
      c, m := WholeChar(b, i);
    } else {
      c, m := b[i] as char, i + 1;
      AfterAscii(b, i);
      AsciiSpans(b, i, c);
    }
    CharReads(b, i, m, c, buf);
  }

  lemma AsciiSpans(b: seq<Byte>, i: nat, c: char)
    requires i < |b| && b[i] == c as int < 0x80
    ensures Spans(b, i, i + 1, [c])
  {
    CharBytes(c);
    OneCharEncodes(c);
    assert b[i..i + 1] == [b[i]];
  }

  lemma {:induction false} CharsAreSpelled(b: seq<Byte>, i: nat, j: nat, buf: seq<Byte>, done: string, s: string)
    requires Boundary(b, i) && Decode(buf) == Some(done) && ReadChars(b, i, buf) == Parsed(s, j)
    ensures done <= s && SpellsChars(b, i, j, s[|done|..])
    decreases |b| - i
  {
    hide Boundary, Decode, SpellsChar, EncodeChar;
    if PeekIs(b, i, '"') {
      assert s[|done|..] == [];
    } else {
      var c, m := NextChar(b, i, buf);
      hide ReadChars;
      OneMore(buf, done, c);
      CharsAreSpelled(b, m, j, buf + EncodeChar(c), done + [c], s);
      var rest := s[|done|..];
      assert rest[0] == c && rest[1..] == s[|done| + 1..];
    }
  }

  lemma StringIsSpelled(b: seq<Byte>, i: nat, j: nat, s: string)
    requires Boundary(b, i) && ReadString(b, i) == Parsed(s, j)
    ensures SpellsString(b, i, j, s)
  {
    hide Whole, ReadChars, SpellsChars;
    AfterAscii(b, i);
    CharsAreSpelled(b, i + 1, j, [], [], s);
    assert s[0..] == s;
  }

  lemma AsciiText(w: seq<Byte>) returns (t: string)
    requires forall k :: 0 <= k < |w| ==> w[k] < 0x80
    ensures Decode(w) == Some(t) && |t| == |w| && forall k :: 0 <= k < |w| ==> t[k] as int == w[k]
  {
    hide Decode;
    t := seq(|w|, k requires 0 <= k < |w| => w[k] as char);
    assert forall k :: 0 <= k < |w| ==> t[k] as int == w[k];
    EncodeAscii(t);
    hide Encode;
    assert Encode(t) == w;
    DecodeEncoded(t);
  }

  /** The digits after the sign, where there is one. */
  function Unsigned(text: string): string {
    if text != [] && text[0] == '-' then text[1..] else text
  }

  /** The text the number reader parses: at most a sign, then digits. */
  lemma NumberText(b: seq<Byte>, i: nat, j: nat, n: I64) returns (text: string)
    requires i <= |b| && ReadNumber(b, i) == Parsed(Int(n), j)
    ensures Spans(b, i, j, text) && ParseI64(text) == Some(n)
    ensures var digits := Unsigned(text);
            digits != [] && AllDigits(digits) && (|digits| > 1 ==> digits[0] != '0')
  {
    hide ParseI64, Decode, Spans;
    var first := if PeekIs(b, i, '-') then i + 1 else i;
    var w := b[i..j];
    assert j == SkipDigits(b, first) && j > first;
    forall k | 0 <= k < |w| ensures w[k] < 0x80 && (i + k >= first ==> IsDigitByte(w[k])) {
      assert w[k] == b[i + k];
    }
    text := AsciiText(w);
    DecodedIs(w, text);
    SpansIs(b, i, j, text);
    assert text[0] as int == w[0] == b[i];
    var digits := Unsigned(text);
    forall k | 0 <= k < |digits| ensures digits[k] as int == b[first + k] && IsDigit(digits[k]) {
      assert digits[k] == text[first - i + k];
      assert w[first - i + k] == b[first + k];
    }
  }

  lemma NumberIsSpelled(b: seq<Byte>, i: nat, j: nat, n: I64)
    requires i <= |b| && ReadNumber(b, i) == Parsed(Int(n), j)
    ensures SpellsNumber(b, i, j, n)
  {
    hide ReadNumber, Spans, ParseI64, AllDigits, Digits, DigitsValue;
    var text := NumberText(b, i, j, n);
    CanonicalDigits(Unsigned(text));
    ParsedIsShown(text, Unsigned(text), n);
  }

  /** A number text is its value's own, but for a sign before zero. */
  lemma ParsedIsShown(text: string, digits: string, n: I64)
    requires ParseI64(text) == Some(n) && digits != [] && AllDigits(digits) && Digits(DigitsValue(digits)) == digits
    requires digits == Unsigned(text)
    ensures text == Show(n) || (n == 0 && text == "-0")
  {
    if text != digits {
      assert text == "-" + digits;
      if n == 0 {
        assert Digits(0) == "0";
      }
    }
  }

  lemma WordIsSpelled(b: seq<Byte>, i: nat, j: nat, word: string, v: Value)
    requires i <= |b| && word != [] && IsAscii(word) && Literal(b, i, word, v) == Parsed(v, j)
    ensures Spans(b, i, j, word)
  {
    EncodeAscii(word);
    hide Encode;
    forall k | 0 <= k < |word| ensures b[i..j][k] == Encode(word)[k] {
      assert b[i + k] == word[k] as int;
    }
    assert b[i..j] == Encode(word);
  }

  /** Whatever value is read from a place in a text is spelled there. */
  lemma {:induction false} ReadIsSpelled(b: seq<Byte>, i: nat, j: nat, v: Value, depth: nat)
    requires Boundary(b, i) && ReadValue(b, i, depth) == Parsed(v, j)
    ensures Spells(b, i, j, v)
    decreases |b| - i, 1
  {
    hide Whole;
    if PeekIs(b, i, '{') {
      ObjectIsSpelled(b, i, j, v, depth);
    } else if PeekIs(b, i, '[') {
      ArrayIsSpelled(b, i, j, v, depth);
    } else {
      ScalarIsSpelled(b, i, j, v, depth);
    }
  }

  lemma ScalarIsSpelled(b: seq<Byte>, i: nat, j: nat, v: Value, depth: nat)
    requires Boundary(b, i) && ReadValue(b, i, depth) == Parsed(v, j)
    requires !PeekIs(b, i, '{') && !PeekIs(b, i, '[')
    ensures Spells(b, i, j, v)
  {
    hide Boundary, Literal, ReadNumber, ReadString, Spans, SpellsNumber, SpellsString;
    if b[i] == '"' as int {
      StringIsSpelled(b, i, j, v.s);
    } else if b[i] == 't' as int {
      LiteralGives(b, i, "true", Bool(true));
      WordIsSpelled(b, i, j, "true", v);
    } else if b[i] == 'f' as int {
      LiteralGives(b, i, "false", Bool(false));
      WordIsSpelled(b, i, j, "false", v);
    } else if b[i] == 'n' as int {
      LiteralGives(b, i, "null", Null);
      WordIsSpelled(b, i, j, "null", v);
    } else {
      NumberGives(b, i);
      NumberIsSpelled(b, i, j, v.n);
    }
  }

  lemma LiteralGives(b: seq<Byte>, i: nat, word: string, v: Value)
    requires i <= |b| && word != []
    ensures Literal(b, i, word, v).Parsed? ==> Literal(b, i, word, v).value == v
  {
  }

  lemma NumberGives(b: seq<Byte>, i: nat)
    requires i <= |b|
    ensures ReadNumber(b, i).Parsed? ==> ReadNumber(b, i).value.Int?
  {
    hide Decode, ParseI64;
  }

  lemma {:induction false} ArrayIsSpelled(b: seq<Byte>, i: nat, j: nat, v: Value, depth: nat)
    requires Boundary(b, i) && PeekIs(b, i, '[') && ReadValue(b, i, depth) == Parsed(v, j)
    ensures Spells(b, i, j, v)
    decreases |b| - i, 0
  {
    hide Whole, ReadItems, SpellsItems;
    assert ReadValue(b, i, depth) == ReadArray(b, i, depth);
    hide ReadValue;
    AfterAscii(b, i);
    AfterSpace(b, i + 1);
    SkippedIsGap(b, i + 1);
    var m := SkipSpace(b, i + 1);
    if !PeekIs(b, m, ']') {
      var items := ItemsAreSpelled(b, m, j, depth, [], v);
      assert [] + items == items;
      GapBeforeItems(b, i + 1, m, j, items);
    }
  }

  lemma GapBeforeItems(b: seq<Byte>, i: nat, k: nat, j: nat, items: seq<Value>)
    requires items != [] && Gap(b, i, k) && SpellsItems(b, k, j, items)
    ensures SpellsItems(b, i, j, items)
  {
    var at: nat, end: nat, m: nat :|
      && Gap(b, k, at) && Spells(b, at, end, items[0]) && Gap(b, end, m)
      && if |items| == 1 then PeekIs(b, m, ']') && j == m + 1
         else PeekIs(b, m, ',') && SpellsItems(b, m + 1, j, items[1..]);
    hide Spells;
    assert Gap(b, i, at);
  }

  /** The items the loop adds to `done` are spelled from where it stands. */
  lemma {:induction false} ItemsAreSpelled(b: seq<Byte>, i: nat, j: nat, depth: nat, done: seq<Value>, v: Value)
    returns (items: seq<Value>)
    requires Boundary(b, i) && ReadItems(b, i, depth, done) == Parsed(v, j)
    ensures items != [] && v == Arr(done + items) && SpellsItems(b, i, j, items)
    decreases |b| - i, 2
  {
    hide Whole, ReadValue, ReadItems, SkipSpace, Spells, SpellsItems, Gap;
    ItemsTurn(b, i, depth, done);
    var at := SkipSpace(b, i);
    var r := ReadValue(b, at, depth + 1);
    AfterSpace(b, i);
    ValueSound(b, at, depth + 1);
    AfterSpace(b, r.next);
    SkippedIsGap(b, i);
    SkippedIsGap(b, r.next);
    ReadIsSpelled(b, at, r.next, r.value, depth + 1);
    var m := SkipSpace(b, r.next);
    if PeekIs(b, m, ',') {
      AfterAscii(b, m);
      var rest := ItemsAreSpelled(b, m + 1, j, depth, done + [r.value], v);
      OneItemMore(b, i, at, r.next, m, j, r.value, rest);
      Regroup(done, [r.value], rest);
      items := [r.value] + rest;
    } else {
      LastItemSpelled(b, i, at, r.next, m, r.value);
      items := [r.value];
    }
  }

  lemma OneItemMore(b: seq<Byte>, i: nat, at: nat, end: nat, m: nat, j: nat, v: Value, rest: seq<Value>)
    requires Gap(b, i, at) && Spells(b, at, end, v) && Gap(b, end, m) && PeekIs(b, m, ',')
    requires rest != [] && SpellsItems(b, m + 1, j, rest)
    ensures SpellsItems(b, i, j, [v] + rest)
  {
    hide Gap, Spells;
    var items := [v] + rest;
    assert items[0] == v && items[1..] == rest;
  }

  lemma LastItemSpelled(b: seq<Byte>, i: nat, at: nat, end: nat, m: nat, v: Value)
    requires Gap(b, i, at) && Spells(b, at, end, v) && Gap(b, end, m) && PeekIs(b, m, ']')
    ensures SpellsItems(b, i, m + 1, [v])
  {
    hide Gap, Spells;
    assert [v][0] == v;
  }

  lemma {:induction false} ObjectIsSpelled(b: seq<Byte>, i: nat, j: nat, v: Value, depth: nat)
    requires Boundary(b, i) && PeekIs(b, i, '{') && ReadValue(b, i, depth) == Parsed(v, j)
    ensures Spells(b, i, j, v)
    decreases |b| - i, 0
  {
    hide Whole, ReadFields, SpellsFields;
    assert ReadValue(b, i, depth) == ReadObject(b, i, depth);
    hide ReadValue;
    AfterAscii(b, i);
    AfterSpace(b, i + 1);
    SkippedIsGap(b, i + 1);
    var m := SkipSpace(b, i + 1);
    if !PeekIs(b, m, '}') {
      var fields := FieldsAreSpelled(b, m, j, depth, [], v);
      assert [] + fields == fields;
      GapBeforeFields(b, i + 1, m, j, fields);
    }
  }

  lemma GapBeforeFields(b: seq<Byte>, i: nat, k: nat, j: nat, fields: seq<Field>)
    requires fields != [] && Gap(b, i, k) && SpellsFields(b, k, j, fields)
    ensures SpellsFields(b, i, j, fields)
  {
    var at: nat, end: nat, m: nat :|
      && Gap(b, k, at) && SpellsField(b, at, end, fields[0]) && Gap(b, end, m)
      && if |fields| == 1 then PeekIs(b, m, '}') && j == m + 1
         else PeekIs(b, m, ',') && SpellsFields(b, m + 1, j, fields[1..]);
    hide SpellsField;
    assert Gap(b, i, at);
  }

  lemma {:induction false} FieldIsSpelled(b: seq<Byte>, i: nat, j: nat, f: Field, depth: nat)
    requires Boundary(b, i) && ReadField(b, i, depth) == Parsed(f, j)
    ensures SpellsField(b, i, j, f)
    decreases |b| - i, 2
  {
    hide Whole, ReadValue, ReadString, SkipSpace, Spells, SpellsString;
    StringSound(b, i);
    var r := ReadString(b, i);
    StringIsSpelled(b, i, r.next, r.value);
    var colon := SkipSpace(b, r.next);
    AfterSpace(b, r.next);
    SkippedIsGap(b, r.next);
    AfterAscii(b, colon);
    AfterSpace(b, colon + 1);
    SkippedIsGap(b, colon + 1);
    hide Gap;
    ReadIsSpelled(b, SkipSpace(b, colon + 1), j, f.value, depth + 1);
  }

  lemma {:induction false} FieldsAreSpelled(b: seq<Byte>, i: nat, j: nat, depth: nat, done: seq<Field>, v: Value)
    returns (fields: seq<Field>)
    requires Boundary(b, i) && ReadFields(b, i, depth, done) == Parsed(v, j)
    ensures fields != [] && v == Obj(done + fields) && SpellsFields(b, i, j, fields)
    decreases |b| - i, 3
  {
    hide Whole, ReadField, ReadFields, SkipSpace, SpellsField, SpellsFields, HasKey, Gap;
    FieldsTurn(b, i, depth, done);
    var at := SkipSpace(b, i);
    var r := ReadField(b, at, depth);
    AfterSpace(b, i);
    FieldSound(b, at, depth);
    AfterSpace(b, r.next);
    SkippedIsGap(b, i);
    SkippedIsGap(b, r.next);
    FieldIsSpelled(b, at, r.next, r.value, depth);
    var m := SkipSpace(b, r.next);
    if PeekIs(b, m, ',') {
      AfterAscii(b, m);
      var rest := FieldsAreSpelled(b, m + 1, j, depth, done + [r.value], v);
      OneFieldMore(b, i, at, r.next, m, j, r.value, rest);
      Regroup(done, [r.value], rest);
      fields := [r.value] + rest;
    } else {
      LastFieldSpelled(b, i, at, r.next, m, r.value);
      fields := [r.value];
    }
  }

  lemma OneFieldMore(b: seq<Byte>, i: nat, at: nat, end: nat, m: nat, j: nat, f: Field, rest: seq<Field>)
    requires Gap(b, i, at) && SpellsField(b, at, end, f) && Gap(b, end, m) && PeekIs(b, m, ',')
    requires rest != [] && SpellsFields(b, m + 1, j, rest)
    ensures SpellsFields(b, i, j, [f] + rest)
  {
    hide Gap, SpellsField;
    var fields := [f] + rest;
    assert fields[0] == f && fields[1..] == rest;
  }

  lemma LastFieldSpelled(b: seq<Byte>, i: nat, at: nat, end: nat, m: nat, f: Field)
    requires Gap(b, i, at) && SpellsField(b, at, end, f) && Gap(b, end, m) && PeekIs(b, m, '}')
    ensures SpellsFields(b, i, m + 1, [f])
  {
    hide Gap, SpellsField;
    assert [f][0] == f;
  }

  // ------------------------------------------------------------ main result

  /** The reader accepts exactly the texts that spell a value whose objects
      hold no key twice and which is nested at most 64 deep, and gives that
      value. */
  lemma ReadExactly(text: string, v: Value)
    ensures Read(text) == Ok(v) <==> TextSpells(text, v) && Buildable(v) && Nesting(v) <= MAX_DEPTH
  {
    if Read(text) == Ok(v) {
      AcceptedIsSpelled(text, v);
    }
    if TextSpells(text, v) && Buildable(v) && Nesting(v) <= MAX_DEPTH {
      SpelledIsAccepted(text, v);
    }
  }

  lemma AcceptedIsSpelled(text: string, v: Value)
    requires Read(text) == Ok(v)
    ensures TextSpells(text, v) && Buildable(v) && Nesting(v) <= MAX_DEPTH
  {
    hide ReadValue, Encode, Decode, Spells, Nesting, Buildable;
    var b := Encode(text);
    assert b[0..] == b;
    DecodeEncoded(text);
    var at := SkipSpace(b, 0);
    var end := ReadValue(b, at, 0).next;
    AfterSpace(b, 0);
    SkippedIsGap(b, 0);
    SkippedIsGap(b, end);
    ReadIsSpelled(b, at, end, v, 0);
    ReadValueIsBuildable(b, at, 0);
  }

  lemma SpelledIsAccepted(text: string, v: Value)
    requires TextSpells(text, v) && Buildable(v) && Nesting(v) <= MAX_DEPTH
    ensures Read(text) == Ok(v)
  {
    var b := Encode(text);
    hide Spells, ReadValue, Encode, Nesting, Buildable, EndsNumber;
    var at: nat, end: nat :| Gap(b, 0, at) && Spells(b, at, end, v) && Gap(b, end, |b|);
    FirstIsSolid(b, at, end, v);
    GapSkips(b, 0, at);
    GapSkips(b, end, |b|);
    GapEndsNumber(b, end, |b|);
    SpelledReads(b, at, end, v, 0);
  }
}
