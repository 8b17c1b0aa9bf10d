/** Reading back what the printers write, and printing what the reader accepts. */
module JsonRoundTrip {
  import opened Wrappers
  import opened Utf8
  import opened Integers
  import opened Json

  // -------------------------------------------------- text inside bytes

  /** `b[i..j]` is the text `s` in UTF-8. */
  ghost predicate Spans(b: seq<Byte>, i: nat, j: nat, s: string) {
    i <= j <= |b| && b[i..j] == Encode(s)
  }

  lemma SpansIs(b: seq<Byte>, i: nat, j: nat, s: string)
    ensures Spans(b, i, j, s) <==> i <= j <= |b| && b[i..j] == Encode(s)
  {
  }

  lemma SpansSplit(b: seq<Byte>, i: nat, j: nat, s: string, t: string) returns (m: nat)
    requires Spans(b, i, j, s + t)
    ensures i <= m <= j <= |b|
    ensures Spans(b, i, m, s) && Spans(b, m, j, t)
  {
    hide Encode;
    EncodeAppend(s, t);
    m := i + |Encode(s)|;
    CutAt(b, i, j, Encode(s), Encode(t));
  }

  lemma CutAt(b: seq<Byte>, i: nat, j: nat, v: seq<Byte>, w: seq<Byte>)
    requires i <= j <= |b| && b[i..j] == v + w
    ensures i + |v| <= j && b[i..i + |v|] == v && b[i + |v|..j] == w
  {
    var all := b[i..j];
    assert all[..|v|] == v && all[|v|..] == w;
  }

  lemma SpansAscii(b: seq<Byte>, i: nat, j: nat, s: string)
    requires Spans(b, i, j, s) && IsAscii(s)
    ensures j == i + |s| <= |b|
    ensures forall k :: 0 <= k < |s| ==> b[i + k] == s[k] as int
  {
    hide Encode;
    EncodeAscii(s);
    forall k | 0 <= k < |s| ensures b[i + k] == s[k] as int {
      assert b[i..j][k] == b[i + k];
    }
  }

  /** One ASCII character in front of `s`. */
  lemma SpansCons(b: seq<Byte>, i: nat, j: nat, c: char, s: string)
    requires c as int < 0x80
    requires Spans(b, i, j, [c] + s)
    ensures PeekIs(b, i, c) && i + 1 <= j <= |b| && Spans(b, i + 1, j, s)
  {
    hide Spans;
    var m := SpansSplit(b, i, j, [c], s);
    SpansAscii(b, i, m, [c]);
    assert b[i + 0] == [c][0] as int;
  }

  // ------------------------------------------------------ what a read gives

  /** Something the reader can be in the middle of: a value, or a container
      with what it has collected and what it will hold in the end. */
  datatype Reading =
    | AValue(v: Value)
    | SomeItems(done: seq<Value>, items: seq<Value>)
    | AField(f: Field)
    | SomeFields(held: seq<Field>, fields: seq<Field>)

  /** Reading from `i` gives `what` and stops at `j`. */
  ghost predicate Reads(b: seq<Byte>, i: nat, j: nat, depth: nat, what: Reading) {
    i <= |b| &&
    match what
    case AValue(v) => ReadValue(b, i, depth) == Parsed(v, j)
    case SomeItems(done, items) => ReadItems(b, i, depth, done) == Parsed(Arr(items), j)
    case AField(f) => ReadField(b, i, depth) == Parsed(f, j)
    case SomeFields(done, fields) => ReadFields(b, i, depth, done) == Parsed(Obj(fields), j)
  }

  lemma SpansNothing(b: seq<Byte>, i: nat, j: nat)
    requires Spans(b, i, j, [])
    ensures i == j
  {
    hide Spans;
    SpansIs(b, i, j, []);
  }

  // -------------------------------------------------------------- space

  lemma {:induction false} SkipsTo(b: seq<Byte>, i: nat, j: nat)
    requires i <= j <= |b|
    requires forall k :: i <= k < j ==> IsSpace(b[k])
    requires j < |b| ==> !IsSpace(b[j])
    ensures SkipSpace(b, i) == j
    decreases j - i
  {
    if i < j {
      SkipsTo(b, i + 1, j);
    }
  }

  lemma SkipTwice(b: seq<Byte>, i: nat)
    requires i <= |b|
    ensures SkipSpace(b, SkipSpace(b, i)) == SkipSpace(b, i)
  {
    SkipsTo(b, SkipSpace(b, i), SkipSpace(b, i));
  }

  /** A break is space: skipping it leads to what follows. */
  lemma SkipsBreak(b: seq<Byte>, i: nat, m: nat, indent: Option<nat>, depth: nat)
    requires Spans(b, i, m, Break(indent, depth))
    ensures i <= m <= |b| && SkipSpace(b, i) == SkipSpace(b, m)
    ensures i < m ==> b[i] == '\n' as int
  {
    hide Spans;
    var gap := Break(indent, depth);
    SpansAscii(b, i, m, gap);
    forall k | i <= k < m ensures IsSpace(b[k]) {
      assert b[i + (k - i)] == gap[k - i] as int;
    }
    if i < m {
      assert b[i + 0] == gap[0] as int;
    }
    SkipsTo(b, i, SkipSpace(b, m));
  }

  /** A break and a closing bracket do not run on into a number before them. */
  lemma ClosesAt(b: seq<Byte>, i: nat, j: nat, indent: Option<nat>, depth: nat, c: char)
    requires c == ']' || c == '}'
    requires Spans(b, i, j, Break(indent, depth) + [c])
    ensures i <= |b| && EndsNumber(b, i)
    ensures PeekIs(b, SkipSpace(b, i), c) && SkipSpace(b, i) + 1 == j
  {
    hide Spans;
    var m := SpansSplit(b, i, j, Break(indent, depth), [c]);
    SkipsBreak(b, i, m, indent, depth);
    assert [c] + [] == [c];
    SpansCons(b, m, j, c, []);
    SpansNothing(b, m + 1, j);
    SkipsTo(b, m, m);
  }

  // ------------------------------------------------------------- strings

  /** Bytes that stand for themselves inside a string. */
  lemma {:induction false} PlainBytes(b: seq<Byte>, i: nat, j: nat, buf: seq<Byte>)
    requires i <= j <= |b|
    requires forall k :: i <= k < j ==> b[k] >= 0x20 && b[k] != '"' as int && b[k] != '\\' as int
    ensures ReadChars(b, i, buf) == ReadChars(b, j, buf + b[i..j])
    decreases j - i
  {
    if i == j {
      assert buf + b[i..j] == buf;
    } else {
      PlainBytes(b, i + 1, j, buf + [b[i]]);
      assert buf + [b[i]] + b[i + 1..j] == buf + b[i..j];
    }
  }

  lemma HexDigitReads(d: nat)
    requires d < 16
    ensures HexDigit(d) as int < 0x80
    ensures HexValue(HexDigit(d) as int) == Some(d)
  {
  }

  lemma FourDigitsMake(n: nat)
    requires n < 0x1_0000
    ensures ((n / 0x1000 * 16 + n / 0x100 % 0x10) * 16 + n / 0x10 % 0x10) * 16 + n % 0x10 == n
  {
    var q := n / 0x10;
    var r := q / 0x10;
    assert n / 0x100 == r && n / 0x1000 == r / 0x10;
  }

  lemma Hex4Reads(b: seq<Byte>, i: nat, n: nat)
    requires n < 0x1_0000 && i + 4 <= |b|
    requires forall k :: 0 <= k < 4 ==> b[i + k] == Hex4(n)[k] as int
    ensures ReadHex4(b, i) == Parsed(n, i + 4)
  {
    HexDigitReads(n / 0x1000);
    HexDigitReads(n / 0x100 % 0x10);
    HexDigitReads(n / 0x10 % 0x10);
    HexDigitReads(n % 0x10);
    var w, h := b[i..i + 4], Hex4(n);
    assert w[0] == b[i + 0] == h[0] as int && w[1] == b[i + 1] == h[1] as int;
    assert w[2] == b[i + 2] == h[2] as int && w[3] == b[i + 3] == h[3] as int;
    FourHexDigits(w);
    FourDigitsMake(n);
    assert HexFold(w, 0) == Some(n);
  }

  lemma Hex4IsAscii(n: nat)
    requires n < 0x1_0000
    ensures IsAscii("\\u" + Hex4(n))
  {
    HexDigitReads(n / 0x1000);
    HexDigitReads(n / 0x100 % 0x10);
    HexDigitReads(n / 0x10 % 0x10);
    HexDigitReads(n % 0x10);
  }

  /** Reading one escaped character collects exactly its bytes. */
  lemma EscapedCharReads(b: seq<Byte>, i: nat, j: nat, c: char, buf: seq<Byte>)
    requires Spans(b, i, j, EscapedChar(c))
    ensures i <= j <= |b| && ReadChars(b, i, buf) == ReadChars(b, j, buf + EncodeChar(c))
  {
    hide Spans;
    var text := EscapedChar(c);
    CharBytes(c);
    if text == [c] {
      SpansIs(b, i, j, text);
      assert text == [c] + [];
      EncodeCons(c, []);
      assert EncodeChar(c) + Encode([]) == EncodeChar(c);
      forall k | i <= k < j ensures b[k] >= 0x20 && b[k] != '"' as int && b[k] != '\\' as int {
        assert b[i..j][k - i] == b[k];
      }
      PlainBytes(b, i, j, buf);
    } else if |text| == 2 {
      SpansAscii(b, i, j, text);
      assert b[i + 0] == text[0] as int && b[i + 1] == text[1] as int;
    } else {
      Hex4IsAscii(c as int);
      SpansAscii(b, i, j, text);
      assert b[i + 0] == text[0] as int && b[i + 1] == text[1] as int;
      var hex := Hex4(c as int);
      forall k | 0 <= k < 4 ensures b[i + 2 + k] == hex[k] as int {
        assert b[i + (2 + k)] == text[2 + k] as int;
      }
      Hex4Reads(b, i + 2, c as int);
    }
  }

  lemma ClosingQuoteReads(b: seq<Byte>, i: nat, j: nat, done: string)
    requires Spans(b, i, j, "\"")
    ensures i < j <= |b| && ReadChars(b, i, Encode(done)) == Parsed(done, j)
  {
    hide Spans;
    assert "\"" == ['"'] + [];
    SpansCons(b, i, j, '"', []);
    SpansNothing(b, i + 1, j);
    DecodeEncoded(done);
  }

  lemma {:induction false} EscapedReads(b: seq<Byte>, i: nat, j: nat, done: string, s: string)
    requires Spans(b, i, j, Escaped(s) + "\"")
    ensures i < j <= |b| && ReadChars(b, i, Encode(done)) == Parsed(done + s, j)
    decreases |s|
  {
    hide Spans, ReadChars, Encode, EncodeChar, EscapedChar;
    if s == [] {
      assert Escaped(s) + "\"" == "\"";
      ClosingQuoteReads(b, i, j, done);
      assert done + s == done;
    } else {
      var c, rest := EscapedChar(s[0]), Escaped(s[1..]) + "\"";
      assert Escaped(s) + "\"" == c + rest;
      var m := SpansSplit(b, i, j, c, rest);
      EscapedCharReads(b, i, m, s[0], Encode(done));
      EncodeOneMore(done, s[0]);
      EscapedReads(b, m, j, done + [s[0]], s[1..]);
      assert done + [s[0]] + s[1..] == done + s;
    }
  }

  lemma EncodeOneMore(s: string, c: char)
    ensures Encode(s + [c]) == Encode(s) + EncodeChar(c)
  {
    hide EncodeChar;
    EncodeAppend(s, [c]);
    EncodeCons(c, []);
    assert EncodeChar(c) + Encode([]) == EncodeChar(c) && [c] + [] == [c];
  }

  lemma QuotedReads(b: seq<Byte>, i: nat, j: nat, s: string)
    requires Spans(b, i, j, Quoted(s))
    ensures PeekIs(b, i, '"') && i < j <= |b|
    ensures ReadString(b, i) == Parsed(s, j)
  {
    hide Spans;
    SpansCons(b, i, j, '"', Escaped(s) + "\"");
    EscapedReads(b, i + 1, j, [], s);
    assert [] + s == s;
  }

  // ------------------------------------------------------------- numbers

  /** No byte here would be read as more of a number. */
  ghost predicate EndsNumber(b: seq<Byte>, j: nat) {
    j < |b| ==> !IsDigitByte(b[j]) && !PeekIs(b, j, '.') && !PeekIs(b, j, 'e') && !PeekIs(b, j, 'E')
  }

  lemma {:induction false} SkipsDigitsTo(b: seq<Byte>, i: nat, j: nat)
    requires i <= j <= |b|
    requires forall k :: i <= k < j ==> IsDigitByte(b[k])
    requires j < |b| ==> !IsDigitByte(b[j])
    ensures SkipDigits(b, i) == j
    decreases j - i
  {
    if i < j {
      SkipsDigitsTo(b, i + 1, j);
    }
  }

  lemma DigitsRead(b: seq<Byte>, i: nat, j: nat, n: nat)
    requires Spans(b, i, j, Digits(n))
    requires EndsNumber(b, j)
    ensures i < j <= |b| && SkipDigits(b, i) == j
    ensures IsDigitByte(b[i]) && (b[i] == '0' as int ==> j == i + 1)
  {
    hide Spans;
    var s := Digits(n);
    SpansAscii(b, i, j, s);
    forall k | i <= k < j ensures IsDigitByte(b[k]) {
      assert b[i + (k - i)] == s[k - i] as int;
    }
    SkipsDigitsTo(b, i, j);
    assert b[i + 0] == s[0] as int;
  }

  lemma NumberReads(b: seq<Byte>, i: nat, j: nat, n: I64)
    requires Spans(b, i, j, Show(n))
    requires EndsNumber(b, j)
    ensures i < j <= |b| && ReadNumber(b, i) == Parsed(Int(n), j)
    ensures b[i] == '-' as int || IsDigitByte(b[i])
  {
    hide Spans;
    var first := SignReads(b, i, j, n);
    assert Decode(b[i..j]) == Some(Show(n)) by {
      SpansIs(b, i, j, Show(n));
      DecodeEncoded(Show(n));
    }
    ShownReadsBack(n);
  }

  lemma SignReads(b: seq<Byte>, i: nat, j: nat, n: I64) returns (first: nat)
    requires Spans(b, i, j, Show(n))
    requires EndsNumber(b, j)
    ensures i <= first < j <= |b| && SkipDigits(b, first) == j
    ensures first == if PeekIs(b, i, '-') then i + 1 else i
    ensures b[first] == '0' as int ==> j == first + 1
    ensures b[i] == '-' as int || IsDigitByte(b[i])
  {
    hide Spans;
    if n < 0 {
      var size := 0 - n as int;
      SpansCons(b, i, j, '-', Digits(size));
      DigitsRead(b, i + 1, j, size);
      first := i + 1;
    } else {
      DigitsRead(b, i, j, n);
      first := i;
    }
  }

  // -------------------------------------------------------------- values

  lemma LiteralReads(b: seq<Byte>, i: nat, j: nat, depth: nat, v: Value)
    requires v.Null? || v.Bool?
    requires depth <= MAX_DEPTH
    requires Spans(b, i, j, Printed(v, None, 0))
    ensures i < |b| && ReadValue(b, i, depth) == Parsed(v, j)
  {
    hide Spans;
    var word := Printed(v, None, 0);
    SpansAscii(b, i, j, word);
    assert b[i + 0] == word[0] as int;
  }

  /** The first byte of a printed value is neither space nor a closing bracket. */
  lemma FirstByte(b: seq<Byte>, i: nat, j: nat, v: Value, indent: Option<nat>, depth: nat)
    requires Spans(b, i, j, Printed(v, indent, depth))
    ensures i < j <= |b| && !IsSpace(b[i]) && b[i] != ']' as int && b[i] != '}' as int
    ensures SkipSpace(b, i) == i
  {
    hide Spans;
    var text := Printed(v, indent, depth);
    assert v.Int? ==> text == Show(v.n);
    var c := text[0];
    assert text == [c] + text[1..];
    SpansCons(b, i, j, c, text[1..]);
  }

  lemma ScalarReads(b: seq<Byte>, i: nat, j: nat, v: Value, indent: Option<nat>, depth: nat)
    requires !v.Arr? && !v.Obj? && depth <= MAX_DEPTH
    requires Spans(b, i, j, Printed(v, indent, depth))
    requires EndsNumber(b, j)
    ensures Reads(b, i, j, depth, AValue(v))
  {
    hide Spans, ReadNumber, ReadString, Quoted, Show, EndsNumber;
    match v {
      case Null | Bool(_) => LiteralReads(b, i, j, depth, v);
      case Int(n) => NumberReads(b, i, j, n);
      case Str(s) => QuotedReads(b, i, j, s);
      case _ =>
    }
  }

  /** The round trip: a printed value reads back, wherever it stands. */
  lemma {:induction false} ValueReads(b: seq<Byte>, i: nat, j: nat, v: Value, indent: Option<nat>, depth: nat)
    requires Buildable(v)
    requires depth + Nesting(v) <= MAX_DEPTH
    requires Spans(b, i, j, Printed(v, indent, depth))
    requires EndsNumber(b, j)
    ensures Reads(b, i, j, depth, AValue(v))
    decreases v, 0
  {
    hide Spans, Reads, Show, Quoted, Break, Colon, EndsNumber, PeekIs, SkipSpace;
    if v.Arr? && v.items != [] {
      SpansCons(b, i, j, '[', PrintedItems(v.items, indent, depth));
      ItemsRead(b, i + 1, j, v.items, indent, depth, []);
      assert [] + v.items == v.items;
      var _, _ := ItemPieces(b, i + 1, j, v.items, indent, depth);
      ArrayReads(b, i, j, v.items, depth);
    } else if v.Obj? && v.fields != [] {
      SpansCons(b, i, j, '{', PrintedFields(v.fields, indent, depth));
      assert [] + v.fields == v.fields;
      FieldsRead(b, i + 1, j, v.fields, indent, depth, []);
      var _, _, _ := KeyPieces(b, i + 1, j, v.fields, indent, depth);
      ObjectReads(b, i, j, v.fields, depth);
    } else if v.Arr? || v.Obj? {
      EmptyReads(b, i, j, v, depth);
    } else {
      ScalarReads(b, i, j, v, indent, depth);
    }
  }

  lemma EmptyReads(b: seq<Byte>, i: nat, j: nat, v: Value, depth: nat)
    requires v == Arr([]) || v == Obj([])
    requires depth <= MAX_DEPTH
    requires Spans(b, i, j, Printed(v, None, 0))
    ensures Reads(b, i, j, depth, AValue(v))
  {
    hide Spans;
    var text := Printed(v, None, 0);
    SpansAscii(b, i, j, text);
    assert b[i + 0] == text[0] as int && b[i + 1] == text[1] as int;
    SkipsTo(b, i + 1, i + 1);
    assert if v.Arr? then ReadArray(b, i, depth) == Parsed(v, j) else ReadObject(b, i, depth) == Parsed(v, j);
  }

  // ------------------------------------------------------------ arrays

  /** An array, once its item loop has read it. The first turn of the loop
      skips the space after the bracket a second time. */
  lemma ArrayReads(b: seq<Byte>, i: nat, j: nat, items: seq<Value>, depth: nat)
    requires PeekIs(b, i, '[') && depth <= MAX_DEPTH
    requires !PeekIs(b, SkipSpace(b, i + 1), ']')
    requires Reads(b, i + 1, j, depth, SomeItems([], items))
    ensures Reads(b, i, j, depth, AValue(Arr(items)))
  {
    SkipTwice(b, i + 1);
    assert ReadArray(b, i, depth) == ReadItems(b, SkipSpace(b, i + 1), depth, []);
  }

  /** Where the first of a list of items stands, and what follows it. */
  lemma ItemPieces(b: seq<Byte>, i: nat, j: nat, items: seq<Value>, indent: Option<nat>, depth: nat)
    returns (at: nat, m: nat)
    requires items != []
    requires Spans(b, i, j, PrintedItems(items, indent, depth))
    ensures i <= at <= m <= |b| && SkipSpace(b, i) == at && !PeekIs(b, at, ']')
    ensures Spans(b, at, m, Printed(items[0], indent, depth + 1)) && EndsNumber(b, m)
    ensures |items| == 1 ==> PeekIs(b, SkipSpace(b, m), ']') && SkipSpace(b, m) + 1 == j
    ensures |items| > 1 ==>
              SkipSpace(b, m) == m && PeekIs(b, m, ',') && Spans(b, m + 1, j, PrintedItems(items[1..], indent, depth))
  {
    hide Spans;
    var text := Printed(items[0], indent, depth + 1);
    var after := if |items| == 1 then Break(indent, depth) + "]" else "," + PrintedItems(items[1..], indent, depth);
    at := SpansSplit(b, i, j, Break(indent, depth + 1), text + after);
    SkipsBreak(b, i, at, indent, depth + 1);
    m := SpansSplit(b, at, j, text, after);
    FirstByte(b, at, m, items[0], indent, depth + 1);
    if |items| == 1 {
      ClosesAt(b, m, j, indent, depth, ']');
    } else {
      SpansCons(b, m, j, ',', PrintedItems(items[1..], indent, depth));
    }
  }

  /** The last turn of the item loop. */
  lemma LastItem(b: seq<Byte>, i: nat, m: nat, depth: nat, done: seq<Value>, v: Value)
    requires i <= |b| && Reads(b, SkipSpace(b, i), m, depth + 1, AValue(v))
    requires m <= |b| && PeekIs(b, SkipSpace(b, m), ']')
    ensures Reads(b, i, SkipSpace(b, m) + 1, depth, SomeItems(done, done + [v]))
  {
  }

  /** Any other turn of it. */
  lemma NextItem(b: seq<Byte>, i: nat, m: nat, j: nat, depth: nat, done: seq<Value>, v: Value, all: seq<Value>)
    requires i <= |b| && Reads(b, SkipSpace(b, i), m, depth + 1, AValue(v))
    requires m <= |b| && SkipSpace(b, m) == m && PeekIs(b, m, ',')
    requires Reads(b, m + 1, j, depth, SomeItems(done + [v], all))
    ensures Reads(b, i, j, depth, SomeItems(done, all))
  {
  }

  /** The rest of an array, entered at an item. */
  lemma {:induction false} ItemsRead(b: seq<Byte>, i: nat, j: nat, items: seq<Value>, indent: Option<nat>, depth: nat,
                                     done: seq<Value>)
    requires items != []
    requires forall k :: 0 <= k < |items| ==> Buildable(items[k])
    requires depth + 1 + ItemsNesting(items) <= MAX_DEPTH
    requires Spans(b, i, j, PrintedItems(items, indent, depth))
    ensures Reads(b, i, j, depth, SomeItems(done, done + items))
    decreases items, 1
  {
    hide Spans, Reads, Printed, Break, EndsNumber, PeekIs, SkipSpace;
    var v, rest := items[0], items[1..];
    assert done + items == done + [v] + rest;
    var at, m := ItemPieces(b, i, j, items, indent, depth);
    ValueReads(b, at, m, v, indent, depth + 1);
    if rest == [] {
      assert done + items == done + [v];
      LastItem(b, i, m, depth, done, v);
    } else {
      ItemsRead(b, m + 1, j, rest, indent, depth, done + [v]);
      NextItem(b, i, m, j, depth, done, v, done + items);
    }
  }

  // ----------------------------------------------------------- objects

  lemma FieldsSkip(b: seq<Byte>, i: nat, depth: nat, fields: seq<Field>)
    requires i <= |b|
    ensures ReadFields(b, SkipSpace(b, i), depth, fields) == ReadFields(b, i, depth, fields)
  {
    hide ReadField, HasKey, SkipSpace;
    SkipTwice(b, i);
  }

  lemma ObjectReads(b: seq<Byte>, i: nat, j: nat, fields: seq<Field>, depth: nat)
    requires PeekIs(b, i, '{') && depth <= MAX_DEPTH
    requires !PeekIs(b, SkipSpace(b, i + 1), '}')
    requires Reads(b, i + 1, j, depth, SomeFields([], fields))
    ensures Reads(b, i, j, depth, AValue(Obj(fields)))
  {
    FieldsSkip(b, i + 1, depth, []);
    hide ReadFields, SkipSpace;
    assert ReadObject(b, i, depth) == ReadFields(b, SkipSpace(b, i + 1), depth, []);
  }

  /** What follows the colon of the first of a list of fields. */
  ghost function AfterColon(fields: seq<Field>, indent: Option<nat>, depth: nat): string
    requires fields != []
  {
    Printed(fields[0].value, indent, depth + 1) +
      (if |fields| == 1 then Break(indent, depth) + "}" else "," + PrintedFields(fields[1..], indent, depth))
  }

  /** Where the key and the colon of the first of a list of fields stand. */
  lemma KeyPieces(b: seq<Byte>, i: nat, j: nat, fields: seq<Field>, indent: Option<nat>, depth: nat)
    returns (keyAt: nat, colon: nat, at: nat)
    requires fields != []
    requires Spans(b, i, j, PrintedFields(fields, indent, depth))
    ensures i <= keyAt < colon < at <= |b| && SkipSpace(b, i) == keyAt && !PeekIs(b, keyAt, '}')
    ensures Spans(b, keyAt, colon, Quoted(fields[0].key))
    ensures PeekIs(b, colon, ':') && SkipSpace(b, colon + 1) == SkipSpace(b, at)
    ensures Spans(b, at, j, AfterColon(fields, indent, depth))
  {
    hide Spans;
    var quoted, rest := Quoted(fields[0].key), AfterColon(fields, indent, depth);
    PrintedFieldsParts(fields, indent, depth);
    keyAt := SpansSplit(b, i, j, Break(indent, depth + 1), quoted + (Colon(indent) + rest));
    SkipsBreak(b, i, keyAt, indent, depth + 1);
    colon := SpansSplit(b, keyAt, j, quoted, Colon(indent) + rest);
    QuotedReads(b, keyAt, colon, fields[0].key);
    at := SpansSplit(b, colon, j, Colon(indent), rest);
    ColonSkips(b, colon, at, indent);
  }

  lemma PrintedFieldsParts(fields: seq<Field>, indent: Option<nat>, depth: nat)
    requires fields != []
    ensures PrintedFields(fields, indent, depth)
         == Break(indent, depth + 1) + (Quoted(fields[0].key) + (Colon(indent) + AfterColon(fields, indent, depth)))
  {
  }

  lemma ColonSkips(b: seq<Byte>, colon: nat, at: nat, indent: Option<nat>)
    requires Spans(b, colon, at, Colon(indent))
    ensures colon < at <= |b| && PeekIs(b, colon, ':') && SkipSpace(b, colon + 1) == SkipSpace(b, at)
  {
    hide Spans;
    var text := Colon(indent);
    SpansAscii(b, colon, at, text);
    assert b[colon + 0] == text[0] as int;
    assert indent.Some? ==> b[colon + 1] == text[1] as int;
  }

  /** Where the value of the first of a list of fields stands, and what
      follows it. */
  lemma ValuePieces(b: seq<Byte>, at: nat, j: nat, fields: seq<Field>, indent: Option<nat>, depth: nat)
    returns (m: nat)
    requires fields != []
    requires Spans(b, at, j, AfterColon(fields, indent, depth))
    ensures at <= m <= |b| && SkipSpace(b, at) == at
    ensures Spans(b, at, m, Printed(fields[0].value, indent, depth + 1)) && EndsNumber(b, m)
    ensures |fields| == 1 ==> PeekIs(b, SkipSpace(b, m), '}') && SkipSpace(b, m) + 1 == j
    ensures |fields| > 1 ==>
              SkipSpace(b, m) == m && PeekIs(b, m, ',') && Spans(b, m + 1, j, PrintedFields(fields[1..], indent, depth))
  {
    hide Spans;
    var text := Printed(fields[0].value, indent, depth + 1);
    var after := if |fields| == 1 then Break(indent, depth) + "}" else "," + PrintedFields(fields[1..], indent, depth);
    m := SpansSplit(b, at, j, text, after);
    FirstByte(b, at, m, fields[0].value, indent, depth + 1);
    if |fields| == 1 {
      ClosesAt(b, m, j, indent, depth, '}');
    } else {
      SpansCons(b, m, j, ',', PrintedFields(fields[1..], indent, depth));
    }
  }

  /** A field, once its value is read. */
  lemma FieldReads(b: seq<Byte>, i: nat, colon: nat, m: nat, depth: nat, f: Field)
    requires Spans(b, i, colon, Quoted(f.key))
    requires PeekIs(b, colon, ':')
    requires Reads(b, SkipSpace(b, colon + 1), m, depth + 1, AValue(f.value))
    ensures Reads(b, i, m, depth, AField(f))
  {
    hide Spans;
    QuotedReads(b, i, colon, f.key);
    SkipsTo(b, colon, colon);
    assert Field(f.key, f.value) == f;
  }

  lemma LastField(b: seq<Byte>, i: nat, m: nat, depth: nat, done: seq<Field>, f: Field)
    requires i <= |b| && Reads(b, SkipSpace(b, i), m, depth, AField(f))
    requires !HasKey(done, f.key) && m <= |b| && PeekIs(b, SkipSpace(b, m), '}')
    ensures Reads(b, i, SkipSpace(b, m) + 1, depth, SomeFields(done, done + [f]))
  {
  }

  lemma NextField(b: seq<Byte>, i: nat, m: nat, j: nat, depth: nat, done: seq<Field>, f: Field, all: seq<Field>)
    requires i <= |b| && Reads(b, SkipSpace(b, i), m, depth, AField(f))
    requires !HasKey(done, f.key) && m <= |b| && SkipSpace(b, m) == m && PeekIs(b, m, ',')
    requires Reads(b, m + 1, j, depth, SomeFields(done + [f], all))
    ensures Reads(b, i, j, depth, SomeFields(done, all))
  {
  }

  /** A key that occurs once has not been collected before its turn. */
  lemma NotYetHeld(done: seq<Field>, fields: seq<Field>)
    requires fields != [] && DistinctKeys(done + fields)
    ensures !HasKey(done, fields[0].key)
  {
    var all := done + fields;
    assert all[|done|] == fields[0];
    forall k | 0 <= k < |done| ensures done[k].key != fields[0].key {
      assert all[k] == done[k];
    }
  }

  /** The rest of an object, entered at a field. */
  lemma {:induction false} FieldsRead(b: seq<Byte>, i: nat, j: nat, fields: seq<Field>, indent: Option<nat>,
                                      depth: nat, done: seq<Field>)
    requires fields != []
    requires DistinctKeys(done + fields)
    requires forall k :: 0 <= k < |fields| ==> Buildable(fields[k].value)
    requires depth + 1 + FieldsNesting(fields) <= MAX_DEPTH
    requires Spans(b, i, j, PrintedFields(fields, indent, depth))
    ensures Reads(b, i, j, depth, SomeFields(done, done + fields))
    decreases fields, 1
  {
    hide Spans, Reads, Printed, Quoted, Break, EndsNumber, PeekIs, SkipSpace, HasKey, DistinctKeys;
    var f, rest := fields[0], fields[1..];
    assert done + fields == done + [f] + rest;
    var keyAt, colon, at := KeyPieces(b, i, j, fields, indent, depth);
    var m := ValuePieces(b, at, j, fields, indent, depth);
    ValueReads(b, at, m, f.value, indent, depth + 1);
    FieldReads(b, keyAt, colon, m, depth, f);
    NotYetHeld(done, fields);
    if rest == [] {
      assert done + fields == done + [f];
      LastField(b, i, m, depth, done, f);
    } else {
      FieldsRead(b, m + 1, j, rest, indent, depth, done + [f]);
      NextField(b, i, m, j, depth, done, f, done + fields);
    }
  }

  /** Whatever the indentation, a value nested at most 64 deep reads back. */
  lemma PrintedReads(v: Value, indent: Option<nat>)
    requires Buildable(v) && Nesting(v) <= MAX_DEPTH
    ensures Read(Printed(v, indent, 0)) == Ok(v)
  {
    hide Spans;
    var text := Printed(v, indent, 0);
    var b := Encode(text);
    assert b[0..|b|] == b;
    SpansIs(b, 0, |b|, text);
    FirstByte(b, 0, |b|, v, indent, 0);
    ValueReads(b, 0, |b|, v, indent, 0);
  }

  // ------------------------------------------------- what is accepted

  /** Everything the reader lets through is something `Object::insert` could
      have built, and no deeper than the limit. */
  lemma {:induction false} ReadValueIsBuildable(b: seq<Byte>, i: nat, depth: nat)
    requires i <= |b|
    requires ReadValue(b, i, depth).Parsed?
    ensures Buildable(ReadValue(b, i, depth).value)
    ensures depth + Nesting(ReadValue(b, i, depth).value) <= MAX_DEPTH
    decreases |b| - i, 1
  {
    if PeekIs(b, i, '{') {
      var j := SkipSpace(b, i + 1);
      assert ReadValue(b, i, depth) == ReadObject(b, i, depth);
      if !PeekIs(b, j, '}') {
        ReadFieldsAreBuildable(b, j, depth, []);
      }
    } else if PeekIs(b, i, '[') {
      var j := SkipSpace(b, i + 1);
      assert ReadValue(b, i, depth) == ReadArray(b, i, depth);
      if !PeekIs(b, j, ']') {
        ReadItemsAreBuildable(b, j, depth, []);
      }
    }
  }

  ghost predicate GoodItems(items: seq<Value>, depth: nat) {
    && depth <= MAX_DEPTH
    && forall k :: 0 <= k < |items| ==> Buildable(items[k]) && depth + 1 + Nesting(items[k]) <= MAX_DEPTH
  }

  ghost predicate GoodFields(fields: seq<Field>, depth: nat) {
    && DistinctKeys(fields) && depth <= MAX_DEPTH
    && forall k :: 0 <= k < |fields| ==> Buildable(fields[k].value) && depth + 1 + Nesting(fields[k].value) <= MAX_DEPTH
  }

  lemma {:induction false} GoodItemsNest(items: seq<Value>, depth: nat)
    requires GoodItems(items, depth) && items != []
    ensures depth + 1 + ItemsNesting(items) <= MAX_DEPTH
  {
    if |items| > 1 {
      GoodItemsNest(items[1..], depth);
    }
  }

  lemma {:induction false} GoodFieldsNest(fields: seq<Field>, depth: nat)
    requires GoodFields(fields, depth) && fields != []
    ensures depth + 1 + FieldsNesting(fields) <= MAX_DEPTH
  {
    if |fields| > 1 {
      GoodFieldsNest(fields[1..], depth);
    }
  }

  lemma {:induction false} ReadItemsAreBuildable(b: seq<Byte>, i: nat, depth: nat, items: seq<Value>)
    requires i <= |b| && GoodItems(items, depth)
    requires ReadItems(b, i, depth, items).Parsed?
    ensures Buildable(ReadItems(b, i, depth, items).value)
    ensures depth + Nesting(ReadItems(b, i, depth, items).value) <= MAX_DEPTH
    decreases |b| - i, 2
  {
    hide ReadValue, SkipSpace;
    var at := SkipSpace(b, i);
    ReadValueIsBuildable(b, at, depth + 1);
    var r := ReadValue(b, at, depth + 1);
    var all, j := items + [r.value], SkipSpace(b, r.next);
    assert GoodItems(all, depth);
    if PeekIs(b, j, ',') {
      ReadItemsAreBuildable(b, j + 1, depth, all);
    } else {
      GoodItemsNest(all, depth);
    }
  }

  lemma {:induction false} ReadFieldsAreBuildable(b: seq<Byte>, i: nat, depth: nat, fields: seq<Field>)
    requires i <= |b| && GoodFields(fields, depth)
    requires ReadFields(b, i, depth, fields).Parsed?
    ensures Buildable(ReadFields(b, i, depth, fields).value)
    ensures depth + Nesting(ReadFields(b, i, depth, fields).value) <= MAX_DEPTH
    decreases |b| - i, 3
  {
    hide ReadField, SkipSpace;
    var keyAt := SkipSpace(b, i);
    var r := ReadField(b, keyAt, depth);
    var f := r.value;
    ReadFieldIsBuildable(b, keyAt, depth);
    var all, j := fields + [f], SkipSpace(b, r.next);
    assert GoodFields(all, depth);
    if PeekIs(b, j, ',') {
      ReadFieldsAreBuildable(b, j + 1, depth, all);
    } else {
      GoodFieldsNest(all, depth);
    }
  }

  lemma {:induction false} ReadFieldIsBuildable(b: seq<Byte>, i: nat, depth: nat)
    requires i <= |b|
    requires ReadField(b, i, depth).Parsed?
    ensures Buildable(ReadField(b, i, depth).value.value)
    ensures depth + 1 + Nesting(ReadField(b, i, depth).value.value) <= MAX_DEPTH
    decreases |b| - i, 2
  {
    hide Buildable, Nesting, SkipSpace, ReadString, ReadValue;
    var colon := SkipSpace(b, ReadString(b, i).next);
    ReadValueIsBuildable(b, SkipSpace(b, colon + 1), depth + 1);
  }

  // ------------------------------------------------------- main theorems

  /** Whatever text is accepted, its value holds no key twice, stays within the
      depth limit, and both its printed forms read back as that very value. */
  lemma AcceptedIsFixpoint(text: string)
    requires Read(text).Ok?
    ensures Buildable(Read(text).value) && Nesting(Read(text).value) <= MAX_DEPTH
    ensures Read(Compact(Read(text).value)) == Read(text)
    ensures Read(Pretty(Read(text).value)) == Read(text)
  {
    var b := Encode(text);
    ReadValueIsBuildable(b, SkipSpace(b, 0), 0);
    PrintedReads(Read(text).value, None);
    PrintedReads(Read(text).value, Some(2));
  }

  /** The promise that every value the module can build round-trips holds for
      exactly the values nested at most 64 deep. */
  lemma RoundTripExactly(v: Value)
    requires Buildable(v)
    ensures Read(Compact(v)) == Ok(v) <==> Nesting(v) <= MAX_DEPTH
    ensures Read(Pretty(v)) == Ok(v) <==> Nesting(v) <= MAX_DEPTH
  {
    if Nesting(v) <= MAX_DEPTH {
      PrintedReads(v, None);
      PrintedReads(v, Some(2));
    }
    if Read(Compact(v)) == Ok(v) {
      AcceptedIsFixpoint(Compact(v));
    }
    if Read(Pretty(v)) == Ok(v) {
      AcceptedIsFixpoint(Pretty(v));
    }
  }

  /** `n` one-item arrays around an empty one. */
  function Deep(n: nat): Value {
    if n == 0 then Arr([]) else Arr([Deep(n - 1)])
  }

  lemma {:induction false} DeepNests(n: nat)
    ensures Buildable(Deep(n)) && Nesting(Deep(n)) == n
  {
    if n > 0 {
      DeepNests(n - 1);
      var items := [Deep(n - 1)];
      assert items[1..] == [] && ItemsNesting(items) == n - 1;
    }
  }

  /** One array too many: a value the module builds and prints, and refuses to
      read. */
  lemma TooDeepIsRefused()
    ensures Buildable(Deep(65))
    ensures Read(Compact(Deep(65))) != Ok(Deep(65)) && Read(Pretty(Deep(65))) != Ok(Deep(65))
  {
    hide Deep, Nesting, Buildable, Read;
    DeepNests(65);
    RoundTripExactly(Deep(65));
  }

  /** No two values share a printed form: text identifies what was written. */
  lemma PrintingIsInjective(v: Value, w: Value)
    requires Buildable(v) && Nesting(v) <= MAX_DEPTH
    requires Buildable(w) && Nesting(w) <= MAX_DEPTH
    requires Compact(v) == Compact(w) || Pretty(v) == Pretty(w)
    ensures v == w
  {
    RoundTripExactly(v);
    RoundTripExactly(w);
  }
}
