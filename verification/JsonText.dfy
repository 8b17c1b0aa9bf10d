/** What the reader may rely on because its input is text: strings cut out of
    UTF-8 at quotes and escapes are UTF-8 again, and an escaped character is
    the UTF-16 (section 7 of RFC 8259) of exactly one scalar value. */
module JsonText {
  import opened Wrappers
  import opened Utf8
  import opened Integers
  import opened Json
  import opened JsonRoundTrip

  // ------------------------------------------------------------ escapes

  /** A character as the code units a `\u` escape spells it with. */
  function Utf16(c: char): seq<nat> {
    var n := c as int;
    if n < 0x1_0000 then [n] else [0xD800 + (n - 0x1_0000) / 0x400, 0xDC00 + (n - 0x1_0000) % 0x400]
  }

  /** The code units the escapes starting at `i` spell: four hex digits each,
      in either case, with `\u` between them. */
  ghost predicate SpellsUnits(b: seq<Byte>, i: nat, j: nat, units: seq<nat>) {
    if |units| == 1 then j == i + 4 <= |b| && HexFold(b[i..i + 4], 0) == Some(units[0])
    else
      |units| == 2 && j == i + 10 <= |b|
      && HexFold(b[i..i + 4], 0) == Some(units[0])
      && PeekIs(b, i + 4, '\\') && PeekIs(b, i + 5, 'u')
      && HexFold(b[i + 6..i + 10], 0) == Some(units[1])
  }

  /** An escape is read as `c` exactly when it spells the UTF-16 of `c`; so a
      surrogate pair becomes one character and a lone surrogate none. */
  lemma EscapeIsUtf16(b: seq<Byte>, i: nat, j: nat, c: char)
    requires i <= |b|
    ensures ReadUnicodeEscape(b, i) == Parsed(c, j) <==> SpellsUnits(b, i, j, Utf16(c))
  {
    var n := c as int;
    if i + 4 <= |b| {
      FourHexDigits(b[i..i + 4]);
    }
    if i + 10 <= |b| {
      FourHexDigits(b[i + 6..i + 10]);
    }
    if n >= 0x1_0000 {
      var high, low := Utf16(c)[0], Utf16(c)[1];
      assert n == 0x1_0000 + (high - 0xD800) * 0x400 + (low - 0xDC00);
      assert 0xD800 <= high < 0xDC00 && 0xDC00 <= low < 0xE000;
    }
  }

  // ------------------------------------------------ whole characters only

  /** The bytes from `i` on are whole characters. */
  ghost predicate Whole(b: seq<Byte>, i: nat)
    requires i <= |b|
  {
    Decode(b[i..]).Some?
  }

  /** A character starts, or the text ends, at `i`. */
  ghost predicate Boundary(b: seq<Byte>, i: nat) {
    i <= |b| && Whole(b, i)
  }

  lemma AfterAscii(b: seq<Byte>, i: nat)
    requires Boundary(b, i) && i < |b| && b[i] < 0x80
    ensures Boundary(b, i + 1)
  {
    assert b[i..][1..] == b[i + 1..];
  }

  lemma {:induction false} AfterSpace(b: seq<Byte>, i: nat)
    requires Boundary(b, i)
    ensures Boundary(b, SkipSpace(b, i))
    decreases |b| - i
  {
    hide Whole;
    if i < |b| && IsSpace(b[i]) {
      AfterAscii(b, i);
      AfterSpace(b, i + 1);
    }
  }

  lemma {:induction false} AfterRun(b: seq<Byte>, i: nat, j: nat)
    requires Boundary(b, i) && i <= j <= |b|
    requires forall k :: i <= k < j ==> b[k] < 0x80
    ensures Boundary(b, j)
    decreases j - i
  {
    hide Whole;
    if i < j {
      AfterAscii(b, i);
      AfterRun(b, i + 1, j);
    }
  }

  /** An answer that keeps to character boundaries and never blames the
      encoding of its input. */
  ghost predicate Sound<T>(b: seq<Byte>, r: Parsed<T>) {
    match r
    case Parsed(_, j) => Boundary(b, j)
    case Failed(e) => e.fault != InvalidUtf8 && e.fault != InvalidNumber
  }

  lemma Collected(buf: seq<Byte>, c: char)
    requires Decode(buf).Some?
    ensures Decode(buf + EncodeChar(c)).Some?
  {
    var s := Decode(buf).value;
    EncodeOneMore(s, c);
    DecodeEncoded(s + [c]);
  }

  /** A character outside ASCII passes through the string loop whole. */
  lemma WideChar(b: seq<Byte>, i: nat, buf: seq<Byte>) returns (j: nat)
    requires Boundary(b, i) && i < |b| && b[i] >= 0x80
    requires Decode(buf).Some?
    ensures i < j <= |b| && Boundary(b, j) && Decode(buf + b[i..j]).Some?
    ensures ReadChars(b, i, buf) == ReadChars(b, j, buf + b[i..j])
  {
    var rest := b[i..];
    var c := FirstChar(rest);
    j := i + Width(rest[0]);
    assert EncodeChar(c) == rest[..j - i] == b[i..j];
    assert rest[j - i..] == b[j..];
    CharBytes(c);
    forall k | i <= k < j ensures b[k] >= 0x80 {
      assert b[k] == EncodeChar(c)[k - i];
    }
    PlainBytes(b, i, j, buf);
    Collected(buf, c);
  }

  lemma HexIsAscii(b: seq<Byte>, i: nat)
    requires Boundary(b, i)
    ensures Sound(b, ReadHex4(b, i))
  {
    hide Whole;
    if i + 4 <= |b| {
      FourHexDigits(b[i..i + 4]);
      if ReadHex4(b, i).Parsed? {
        forall k | i <= k < i + 4 ensures b[k] < 0x80 {
          assert b[k] == b[i..i + 4][k - i];
        }
        AfterRun(b, i, i + 4);
      }
    }
  }

  lemma EscapeSound(b: seq<Byte>, i: nat)
    requires Boundary(b, i)
    ensures Sound(b, ReadUnicodeEscape(b, i))
  {
    hide Whole;
    HexIsAscii(b, i);
    if ReadHex4(b, i).Parsed? && PeekIs(b, i + 4, '\\') && PeekIs(b, i + 5, 'u') {
      AfterAscii(b, i + 4);
      AfterAscii(b, i + 5);
      HexIsAscii(b, i + 6);
    }
  }

  lemma {:induction false} CharsSound(b: seq<Byte>, i: nat, buf: seq<Byte>)
    requires Boundary(b, i) && Decode(buf).Some?
    ensures Sound(b, ReadChars(b, i, buf))
    decreases |b| - i
  {
    hide Whole;
    if i == |b| {
    } else if b[i] == '"' as int {
      AfterAscii(b, i);
    } else if b[i] == '\\' as int {
      AfterAscii(b, i);
      EscapedCharSound(b, i, buf);
    } else if b[i] >= 0x80 {
      var j := WideChar(b, i, buf);
      CharsSound(b, j, buf + b[i..j]);
    } else if b[i] >= 0x20 {
      AfterAscii(b, i);
      CharBytes(b[i] as char);
      Collected(buf, b[i] as char);
      CharsSound(b, i + 1, buf + [b[i]]);
    }
  }

  lemma {:induction false} EscapedCharSound(b: seq<Byte>, i: nat, buf: seq<Byte>)
    requires Boundary(b, i + 1) && i < |b| && b[i] == '\\' as int && Decode(buf).Some?
    ensures Sound(b, ReadChars(b, i, buf))
    decreases |b| - i, 0
  {
    hide Whole, ReadUnicodeEscape, Decode, Encode, EncodeChar;
    if i + 1 < |b| {
      var e := b[i + 1];
      if e == 'u' as int {
        AfterAscii(b, i + 1);
        EscapeSound(b, i + 2);
        var r := ReadUnicodeEscape(b, i + 2);
        if r.Parsed? {
          Collected(buf, r.value);
          CharsSound(b, r.next, buf + EncodeChar(r.value));
        }
      } else if SimpleEscape(e).Some? {
        var x := SimpleEscape(e).value;
        AfterAscii(b, i + 1);
        CharBytes(x as char);
        Collected(buf, x as char);
        CharsSound(b, i + 2, buf + [x]);
      }
    }
  }

  lemma StringSound(b: seq<Byte>, i: nat)
    requires Boundary(b, i)
    ensures Sound(b, ReadString(b, i))
  {
    hide Whole;
    if PeekIs(b, i, '"') {
      AfterAscii(b, i);
      CharsSound(b, i + 1, []);
    }
  }

  lemma NumberSound(b: seq<Byte>, i: nat)
    requires Boundary(b, i)
    ensures Sound(b, ReadNumber(b, i))
  {
    hide Whole, Decode, ParseI64;
    var first := if PeekIs(b, i, '-') then i + 1 else i;
    var j := SkipDigits(b, first);
    AfterRun(b, i, j);
    AsciiDecodes(b[i..j]);
  }

  lemma LiteralSound(b: seq<Byte>, i: nat, word: string, v: Value)
    requires Boundary(b, i) && word != [] && IsAscii(word)
    ensures Sound(b, Literal(b, i, word, v))
  {
    hide Whole;
    if WordAt(b, i, word) {
      forall k | i <= k < i + |word| ensures b[k] < 0x80 {
        assert b[i + (k - i)] == word[k - i] as int;
      }
      AfterRun(b, i, i + |word|);
    }
  }

  lemma {:induction false} ValueSound(b: seq<Byte>, i: nat, depth: nat)
    requires Boundary(b, i)
    ensures Sound(b, ReadValue(b, i, depth))
    decreases |b| - i, 1
  {
    hide Whole;
    if depth <= MAX_DEPTH && i < |b| {
      if PeekIs(b, i, '{') {
        OpenedObjectSound(b, i, depth);
      } else if PeekIs(b, i, '[') {
        OpenedArraySound(b, i, depth);
      } else {
        ScalarSound(b, i, depth);
      }
    }
  }

  lemma ScalarSound(b: seq<Byte>, i: nat, depth: nat)
    requires Boundary(b, i) && i < |b| && !PeekIs(b, i, '{') && !PeekIs(b, i, '[')
    ensures Sound(b, ReadValue(b, i, depth))
  {
    hide Whole;
    StringSound(b, i);
    LiteralSound(b, i, "true", Bool(true));
    LiteralSound(b, i, "false", Bool(false));
    LiteralSound(b, i, "null", Null);
    NumberSound(b, i);
  }

  lemma {:induction false} OpenedObjectSound(b: seq<Byte>, i: nat, depth: nat)
    requires Boundary(b, i) && PeekIs(b, i, '{') && depth <= MAX_DEPTH
    ensures Sound(b, ReadValue(b, i, depth))
    decreases |b| - i, 0
  {
    hide Whole;
    var j := SkipSpace(b, i + 1);
    AfterAscii(b, i);
    AfterSpace(b, i + 1);
    assert ReadValue(b, i, depth) == ReadObject(b, i, depth);
    if PeekIs(b, j, '}') {
      AfterAscii(b, j);
    } else {
      FieldsSound(b, j, depth, []);
    }
  }

  lemma {:induction false} OpenedArraySound(b: seq<Byte>, i: nat, depth: nat)
    requires Boundary(b, i) && PeekIs(b, i, '[') && depth <= MAX_DEPTH
    ensures Sound(b, ReadValue(b, i, depth))
    decreases |b| - i, 0
  {
    hide Whole;
    var j := SkipSpace(b, i + 1);
    AfterAscii(b, i);
    AfterSpace(b, i + 1);
    assert ReadValue(b, i, depth) == ReadArray(b, i, depth);
    if PeekIs(b, j, ']') {
      AfterAscii(b, j);
    } else {
      ItemsSound(b, j, depth, []);
    }
  }

  lemma {:induction false} ItemsSound(b: seq<Byte>, i: nat, depth: nat, items: seq<Value>)
    requires Boundary(b, i)
    ensures Sound(b, ReadItems(b, i, depth, items))
    decreases |b| - i, 2
  {
    hide Whole, ReadValue, SkipSpace;
    AfterSpace(b, i);
    ValueSound(b, SkipSpace(b, i), depth + 1);
    var r := ReadValue(b, SkipSpace(b, i), depth + 1);
    if r.Parsed? {
      var j := SkipSpace(b, r.next);
      AfterSpace(b, r.next);
      if PeekIs(b, j, ',') {
        AfterAscii(b, j);
        ItemsSound(b, j + 1, depth, items + [r.value]);
      } else if PeekIs(b, j, ']') {
        AfterAscii(b, j);
      }
    }
  }

  lemma {:induction false} FieldsSound(b: seq<Byte>, i: nat, depth: nat, fields: seq<Field>)
    requires Boundary(b, i)
    ensures Sound(b, ReadFields(b, i, depth, fields))
    decreases |b| - i, 3
  {
    hide Whole, ReadField, HasKey, SkipSpace;
    AfterSpace(b, i);
    FieldSound(b, SkipSpace(b, i), depth);
    var r := ReadField(b, SkipSpace(b, i), depth);
    if r.Parsed? && !HasKey(fields, r.value.key) {
      var j := SkipSpace(b, r.next);
      AfterSpace(b, r.next);
      if PeekIs(b, j, ',') {
        AfterAscii(b, j);
        FieldsSound(b, j + 1, depth, fields + [r.value]);
      } else if PeekIs(b, j, '}') {
        AfterAscii(b, j);
      }
    }
  }

  lemma {:induction false} FieldSound(b: seq<Byte>, i: nat, depth: nat)
    requires Boundary(b, i)
    ensures Sound(b, ReadField(b, i, depth))
    decreases |b| - i, 2
  {
    hide Whole;
    StringSound(b, i);
    var r := ReadString(b, i);
    if PeekIs(b, i, '"') && r.Parsed? {
      var colon := SkipSpace(b, r.next);
      AfterSpace(b, r.next);
      if PeekIs(b, colon, ':') {
        AfterAscii(b, colon);
        AfterSpace(b, colon + 1);
        ValueSound(b, SkipSpace(b, colon + 1), depth + 1);
      }
    }
  }

  /** No text, valid JSON or not, makes the reader find broken UTF-8 in a
      string or in a number: those two error paths are dead. */
  lemma EncodingIsNeverBlamed(text: string)
    ensures Read(text).Err? ==> Read(text).error.fault != InvalidUtf8 && Read(text).error.fault != InvalidNumber
  {
    var b := Encode(text);
    assert b[0..] == b;
    DecodeEncoded(text);
    AfterSpace(b, 0);
    ValueSound(b, SkipSpace(b, 0), 0);
  }
}
