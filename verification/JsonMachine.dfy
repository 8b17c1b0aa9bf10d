/** The printers and the reader as they run: an output buffer that grows and a
    cursor that moves. Each is held to the text, or the answer, that module
    `Json` gives as a function. */
module JsonMachine {
  import opened Wrappers
  import opened Utf8
  import opened Integers
  import opened Sequences
  import opened Json

  // ------------------------------------------------------------ writing

  /** The string the printers push into. */
  class Output {
    var text: string

    constructor ()
      ensures text == ""
    {
      text := "";
    }

    method Push(c: char)
      modifies this
      ensures text == old(text) + [c]
    {
      text := text + [c];
    }

    method PushStr(s: string)
      modifies this
      ensures text == old(text) + s
    {
      text := text + s;
    }
  }

  method WriteBreak(indent: Option<nat>, depth: nat, out: Output)
    modifies out
    ensures out.text == old(out.text) + Break(indent, depth)
  {
    if indent.Some? {
      out.Push('\n');
      for k := 0 to indent.value * depth
        invariant out.text == old(out.text) + ("\n" + Spaces(k))
      {
        out.Push(' ');
        assert Spaces(k) + " " == Spaces(k + 1);
      }
    }
  }

  lemma EscapeStep(before: string, after: string, s: string, k: nat, goal: string)
    requires k < |s|
    requires before + Escaped(s[k..]) == goal
    requires after == before + EscapedChar(s[k])
    ensures after + Escaped(s[k + 1..]) == goal
  {
    hide EscapedChar;
    assert s[k..][1..] == s[k + 1..];
    assert after + Escaped(s[k + 1..]) == before + (EscapedChar(s[k]) + Escaped(s[k + 1..]));
  }

  method WriteString(s: string, out: Output)
    modifies out
    ensures out.text == old(out.text) + Quoted(s)
  {
    hide EscapedChar;
    out.Push('"');
    ghost var goal := out.text + Escaped(s);
    assert s[0..] == s;
    for k := 0 to |s|
      invariant out.text + Escaped(s[k..]) == goal
    {
      ghost var before := out.text;
      out.PushStr(EscapedChar(s[k]));
      EscapeStep(before, out.text, s, k, goal);
    }
    assert out.text == goal == old(out.text) + "\"" + Escaped(s);
    out.Push('"');
    assert goal + "\"" == old(out.text) + ("\"" + (Escaped(s) + "\""));
  }

  /** What is still to be written of an array before its item `k`. */
  ghost function ItemsLeft(items: seq<Value>, k: nat, indent: Option<nat>, depth: nat): string
    requires items != [] && k <= |items|
  {
    if k == |items| then Break(indent, depth) + "]"
    else Comma(k) + PrintedItems(items[k..], indent, depth)
  }

  ghost function FieldsLeft(fields: seq<Field>, k: nat, indent: Option<nat>, depth: nat): string
    requires fields != [] && k <= |fields|
  {
    if k == |fields| then Break(indent, depth) + "}"
    else Comma(k) + PrintedFields(fields[k..], indent, depth)
  }

  ghost function Comma(k: nat): string {
    if k > 0 then "," else ""
  }

  /** What is still to be written before each item, and after the last one. */
  lemma ItemTails(items: seq<Value>, indent: Option<nat>, depth: nat) returns (tails: seq<string>)
    requires items != []
    ensures |tails| == |items| + 1
    ensures "[" + tails[0] == Printed(Arr(items), indent, depth)
    ensures forall k :: 0 <= k < |items| ==>
              tails[k] == Comma(k) + (Break(indent, depth + 1) + (Printed(items[k], indent, depth + 1) + tails[k + 1]))
    ensures tails[|items|] == Break(indent, depth) + "]"
  {
    tails := seq(|items| + 1, k requires 0 <= k <= |items| => ItemsLeft(items, k, indent, depth));
    assert items[0..] == items;
    forall k | 0 <= k < |items|
      ensures ItemsLeft(items, k, indent, depth)
           == Comma(k) + (Break(indent, depth + 1)
              + (Printed(items[k], indent, depth + 1) + ItemsLeft(items, k + 1, indent, depth)))
    {
      assert items[k..][0] == items[k] && items[k..][1..] == items[k + 1..];
    }
  }

  lemma FieldTails(fields: seq<Field>, indent: Option<nat>, depth: nat) returns (tails: seq<string>)
    requires fields != []
    ensures |tails| == |fields| + 1
    ensures "{" + tails[0] == Printed(Obj(fields), indent, depth)
    ensures forall k :: 0 <= k < |fields| ==>
              tails[k] == Comma(k) + (Break(indent, depth + 1) + (Quoted(fields[k].key) + (Colon(indent)
                          + (Printed(fields[k].value, indent, depth + 1) + tails[k + 1]))))
    ensures tails[|fields|] == Break(indent, depth) + "}"
  {
    tails := seq(|fields| + 1, k requires 0 <= k <= |fields| => FieldsLeft(fields, k, indent, depth));
    assert fields[0..] == fields;
    forall k | 0 <= k < |fields|
      ensures FieldsLeft(fields, k, indent, depth)
           == Comma(k) + (Break(indent, depth + 1) + (Quoted(fields[k].key) + (Colon(indent)
              + (Printed(fields[k].value, indent, depth + 1) + FieldsLeft(fields, k + 1, indent, depth)))))
    {
      assert fields[k..][0] == fields[k] && fields[k..][1..] == fields[k + 1..];
    }
  }

  /** Appending piece by piece is appending the whole. */
  lemma Appended(t: string, w: string, x: string, y: string, rest: string)
    ensures t + w + x + y + rest == t + (w + (x + (y + rest)))
  {
  }

  method WriteValue(v: Value, indent: Option<nat>, depth: nat, out: Output)
    modifies out
    ensures out.text == old(out.text) + Printed(v, indent, depth)
    decreases v, 1
  {
    match v
    case Null => out.PushStr("null");
    case Bool(b) => if b { out.PushStr("true"); } else { out.PushStr("false"); }
    case Int(n) => out.PushStr(Show(n));
    case Str(s) => WriteString(s, out);
    case Arr(items) => WriteItems(items, indent, depth, out);
    case Obj(fields) => WriteFields(fields, indent, depth, out);
  }

  method WriteItems(items: seq<Value>, indent: Option<nat>, depth: nat, out: Output)
    modifies out
    ensures out.text == old(out.text) + Printed(Arr(items), indent, depth)
    decreases items, 0
  {
    if items == [] {
      out.PushStr("[]");
      return;
    }
    ghost var before := out.text;
    ghost var goal := before + Printed(Arr(items), indent, depth);
    hide Printed, Quoted, Comma, Colon, Break;
    out.Push('[');
    ghost var tails := ItemTails(items, indent, depth);
    Regroup(before, "[", tails[0]);
    for k := 0 to |items|
      invariant out.text + tails[k] == goal
    {
      WriteItem(items[k], k, indent, depth, tails[k], tails[k + 1], out);
    }
    Regroup(out.text, Break(indent, depth), "]");
    WriteBreak(indent, depth, out);
    out.Push(']');
  }

  /** One turn of the item loop: what it appends is what came off the tail. */
  method WriteItem(v: Value, k: nat, indent: Option<nat>, depth: nat, ghost tail: string, ghost rest: string,
                   out: Output)
    requires tail == Comma(k) + (Break(indent, depth + 1) + (Printed(v, indent, depth + 1) + rest))
    modifies out
    ensures out.text + rest == old(out.text) + tail
    decreases v, 2
  {
    ghost var start, text := out.text, Printed(v, indent, depth + 1);
    WriteLead(k, indent, depth, out);
    Appended(start, Comma(k), Break(indent, depth + 1), text, rest);
    WriteValue(v, indent, depth + 1, out);
  }

  /** The comma after the field or item before, and the break. */
  method WriteLead(k: nat, indent: Option<nat>, depth: nat, out: Output)
    modifies out
    ensures out.text == old(out.text) + Comma(k) + Break(indent, depth + 1)
  {
    if k > 0 {
      out.Push(',');
    }
    WriteBreak(indent, depth + 1, out);
  }

  method WriteField(f: Field, k: nat, indent: Option<nat>, depth: nat, ghost tail: string, ghost rest: string,
                    out: Output)
    requires tail == Comma(k) + (Break(indent, depth + 1) + (Quoted(f.key) + (Colon(indent)
                     + (Printed(f.value, indent, depth + 1) + rest))))
    modifies out
    ensures out.text + rest == old(out.text) + tail
    decreases f, 2
  {
    ghost var start, text := out.text, Printed(f.value, indent, depth + 1);
    WriteKey(f.key, k, indent, depth, out);
    Appended(start, Comma(k), Break(indent, depth + 1), Quoted(f.key) + Colon(indent), text + rest);
    assert Quoted(f.key) + Colon(indent) + (text + rest) == Quoted(f.key) + (Colon(indent) + (text + rest));
    assert out.text + text + rest == out.text + (text + rest);
    WriteValue(f.value, indent, depth + 1, out);
  }

  method WriteKey(key: string, k: nat, indent: Option<nat>, depth: nat, out: Output)
    modifies out
    ensures out.text == old(out.text) + Comma(k) + Break(indent, depth + 1) + (Quoted(key) + Colon(indent))
  {
    WriteLead(k, indent, depth, out);
    ghost var before := out.text;
    WriteString(key, out);
    WriteColon(indent, out);
    assert before + Quoted(key) + Colon(indent) == before + (Quoted(key) + Colon(indent));
  }

  method WriteFields(fields: seq<Field>, indent: Option<nat>, depth: nat, out: Output)
    modifies out
    ensures out.text == old(out.text) + Printed(Obj(fields), indent, depth)
    decreases fields, 0
  {
    if fields == [] {
      out.PushStr("{}");
      return;
    }
    ghost var before := out.text;
    ghost var goal := before + Printed(Obj(fields), indent, depth);
    hide Printed, Quoted, Comma, Colon, Break;
    out.Push('{');
    ghost var tails := FieldTails(fields, indent, depth);
    Regroup(before, "{", tails[0]);
    for k := 0 to |fields|
      invariant out.text + tails[k] == goal
    {
      WriteField(fields[k], k, indent, depth, tails[k], tails[k + 1], out);
    }
    Regroup(out.text, Break(indent, depth), "}");
    WriteBreak(indent, depth, out);
    out.Push('}');
  }

  method WriteColon(indent: Option<nat>, out: Output)
    modifies out
    ensures out.text == old(out.text) + Colon(indent)
  {
    out.Push(':');
    if indent.Some? {
      out.Push(' ');
    }
  }

  method ToString(v: Value) returns (s: string)
    ensures s == Compact(v)
  {
    var out := new Output();
    WriteValue(v, None, 0, out);
    s := out.text;
  }

  method ToStringPretty(v: Value) returns (s: string)
    ensures s == Pretty(v)
  {
    var out := new Output();
    WriteValue(v, Some(2), 0, out);
    s := out.text;
  }

  // ------------------------------------------------------------ reading

  /** The object being filled; `Insert` is the only way in. */
  class Object {
    var fields: seq<Field>

    constructor ()
      ensures fields == []
    {
      fields := [];
    }

    /** A key already present is refused and changes nothing. */
    method Insert(key: string, value: Value) returns (ok: bool)
      modifies this
      ensures ok <==> !HasKey(old(fields), key)
      ensures fields == if ok then old(fields) + [Field(key, value)] else old(fields)
      ensures DistinctKeys(old(fields)) ==> DistinctKeys(fields)
    {
      ok := !HasKey(fields, key);
      if ok {
        fields := fields + [Field(key, value)];
      }
    }
  }

  /** A result and the cursor beside it, as one answer. */
  ghost function Outcome<T>(r: Result<T, Error>, next: nat): Parsed<T> {
    match r
    case Ok(v) => Parsed(v, next)
    case Err(e) => Failed(e)
  }

  class Parser {
    const b: seq<Byte>
    var i: nat

    constructor (input: string)
      ensures b == Encode(input) && i == 0
    {
      b := Encode(input);
      i := 0;
    }

    predicate Peeks(c: char)
      reads this
    {
      PeekIs(b, i, c)
    }

    function Fails(fault: Fault): Error
      reads this
    {
      Error(fault, i)
    }

    method SkipWs()
      requires i <= |b|
      modifies this
      ensures i <= |b| && i == SkipSpace(b, old(i))
    {
      while i < |b| && IsSpace(b[i])
        invariant i <= |b| && SkipSpace(b, i) == SkipSpace(b, old(i))
      {
        i := i + 1;
      }
    }

    method Expects(c: char) returns (r: Result<(), Error>)
      modifies this
      ensures if PeekIs(b, old(i), c) then r == Ok(()) && i == old(i) + 1
              else r == Err(Error(Expected(c), i)) && i == old(i)
    {
      if Peeks(c) {
        i := i + 1;
        r := Ok(());
      } else {
        r := Err(Fails(Expected(c)));
      }
    }

    method Value(depth: nat) returns (r: Result<Value, Error>)
      requires i <= |b|
      modifies this
      ensures i <= |b| && Outcome(r, i) == ReadValue(b, old(i), depth)
      decreases |b| - i, 1
    {
      if depth > MAX_DEPTH {
        r := Err(Fails(NestingTooDeep));
      } else if i == |b| {
        r := Err(Fails(UnexpectedEnd));
      } else if Peeks('{') {
        r := ObjectAt(depth);
      } else if Peeks('[') {
        r := ArrayAt(depth);
      } else if Peeks('"') {
        var s := StringAt();
        r := match s case Ok(text) => Ok(Str(text)) case Err(e) => Err(e);
      } else if Peeks('t') {
        r := LiteralAt("true", Bool(true));
      } else if Peeks('f') {
        r := LiteralAt("false", Bool(false));
      } else if Peeks('n') {
        r := LiteralAt("null", Null);
      } else if Peeks('-') || IsDigitByte(b[i]) {
        r := NumberAt();
      } else {
        r := Err(Fails(UnexpectedCharacter));
      }
    }

    method LiteralAt(word: string, value: Value) returns (r: Result<Value, Error>)
      requires i <= |b| && word != []
      modifies this
      ensures i <= |b| && Outcome(r, i) == Literal(b, old(i), word, value)
    {
      if WordAt(b, i, word) {
        i := i + |word|;
        r := Ok(value);
      } else {
        r := Err(Fails(InvalidLiteral));
      }
    }

    method ObjectAt(depth: nat) returns (r: Result<Value, Error>)
      requires i <= |b|
      modifies this
      ensures i <= |b| && Outcome(r, i) == ReadObject(b, old(i), depth)
      decreases |b| - i, 0
    {
      hide ReadField, ReadFields, ReadValue, SkipSpace, HasKey;
      ghost var goal := ReadObject(b, i, depth);
      var open := Expects('{');
      if open.Err? {
        return Err(open.error);
      }
      var obj := new Object();
      SkipWs();
      if Peeks('}') {
        i := i + 1;
        return Ok(Obj(obj.fields));
      }
      assert ReadFields(b, i, depth, obj.fields) == goal;
      hide ReadObject;
      while true
        invariant i <= |b| && ReadFields(b, i, depth, obj.fields) == goal
        decreases |b| - i
      {
        FieldsTurn(b, i, depth, obj.fields);
        SkipWs();
        var keyAt := i;
        var field := FieldAt(depth);
        if field.Err? {
          return Err(field.error);
        }
        var inserted := obj.Insert(field.value.key, field.value.value);
        if !inserted {
          return Err(Error(DuplicateKey(field.value.key), keyAt));
        }
        SkipWs();
        if Peeks(',') {
          i := i + 1;
        } else if Peeks('}') {
          i := i + 1;
          return Ok(Obj(obj.fields));
        } else {
          return Err(Fails(ExpectedCommaOrBrace));
        }
      }
    }

    method FieldAt(depth: nat) returns (r: Result<Field, Error>)
      requires i <= |b|
      modifies this
      ensures i <= |b| && Outcome(r, i) == ReadField(b, old(i), depth)
      decreases |b| - i, 2
    {
      if !Peeks('"') {
        return Err(Fails(ExpectedKey));
      }
      var key := StringAt();
      if key.Err? {
        return Err(key.error);
      }
      SkipWs();
      var colon := Expects(':');
      if colon.Err? {
        return Err(colon.error);
      }
      SkipWs();
      var value := Value(depth + 1);
      if value.Err? {
        return Err(value.error);
      }
      return Ok(Field(key.value, value.value));
    }

    method ArrayAt(depth: nat) returns (r: Result<Value, Error>)
      requires i <= |b|
      modifies this
      ensures i <= |b| && Outcome(r, i) == ReadArray(b, old(i), depth)
      decreases |b| - i, 0
    {
      hide ReadValue, ReadItems, SkipSpace;
      ghost var goal := ReadArray(b, i, depth);
      var open := Expects('[');
      if open.Err? {
        return Err(open.error);
      }
      SkipWs();
      if Peeks(']') {
        i := i + 1;
        return Ok(Arr([]));
      }
      var items: seq<Value> := [];
      assert ReadItems(b, i, depth, items) == goal;
      hide ReadArray;
      while true
        invariant i <= |b| && ReadItems(b, i, depth, items) == goal
        decreases |b| - i
      {
        ItemsTurn(b, i, depth, items);
        SkipWs();
        var value := Value(depth + 1);
        if value.Err? {
          return Err(value.error);
        }
        items := items + [value.value];
        SkipWs();
        if Peeks(',') {
          i := i + 1;
        } else if Peeks(']') {
          i := i + 1;
          return Ok(Arr(items));
        } else {
          return Err(Fails(ExpectedCommaOrBracket));
        }
      }
    }

    method StringAt() returns (r: Result<string, Error>)
      requires i <= |b|
      modifies this
      ensures i <= |b| && Outcome(r, i) == ReadString(b, old(i))
    {
      hide Decode, EncodeChar, ReadUnicodeEscape;
      var open := Expects('"');
      if open.Err? {
        return Err(open.error);
      }
      var buf: seq<Byte> := [];
      while true
        invariant i <= |b| && ReadChars(b, i, buf) == ReadString(b, old(i))
        decreases |b| - i
      {
        if i == |b| {
          return Err(Fails(UnterminatedString));
        }
        var c := b[i];
        if c == '"' as int {
          i := i + 1;
          var text := Decode(buf);
          return if text.Some? then Ok(text.value) else Err(Fails(InvalidUtf8));
        } else if c == '\\' as int {
          i := i + 1;
          if i == |b| {
            return Err(Fails(UnterminatedEscape));
          }
          var esc := b[i];
          i := i + 1;
          if esc == 'u' as int {
            var decoded := UnicodeEscapeAt();
            if decoded.Err? {
              return Err(decoded.error);
            }
            buf := buf + EncodeChar(decoded.value);
          } else {
            var simple := SimpleEscape(esc);
            if simple.None? {
              return Err(Fails(InvalidEscape));
            }
            buf := buf + [simple.value];
          }
        } else if c < 0x20 {
          return Err(Fails(ControlCharacter));
        } else {
          buf := buf + [c];
          i := i + 1;
        }
      }
    }

    method UnicodeEscapeAt() returns (r: Result<char, Error>)
      requires i <= |b|
      modifies this
      ensures old(i) <= i <= |b| && Outcome(r, i) == ReadUnicodeEscape(b, old(i))
    {
      var first := Hex4At();
      if first.Err? {
        return Err(first.error);
      }
      if 0xD800 <= first.value < 0xDC00 {
        if !(Peeks('\\') && PeekIs(b, i + 1, 'u')) {
          return Err(Fails(LoneHighSurrogate));
        }
        i := i + 2;
        var low := Hex4At();
        if low.Err? {
          return Err(low.error);
        }
        if !(0xDC00 <= low.value < 0xE000) {
          return Err(Fails(InvalidLowSurrogate));
        }
        return Ok((0x1_0000 + (first.value - 0xD800) * 0x400 + (low.value - 0xDC00)) as char);
      } else if 0xDC00 <= first.value < 0xE000 {
        return Err(Fails(LoneLowSurrogate));
      }
      return Ok(first.value as char);
    }

    method Hex4At() returns (r: Result<nat, Error>)
      requires i <= |b|
      modifies this
      ensures old(i) <= i <= |b| && Outcome(r, i) == ReadHex4(b, old(i))
    {
      var end := i + 4;
      if end > |b| {
        return Err(Fails(TruncatedEscape));
      }
      FourHexDigits(b[i..end]);
      var value := 0;
      for k := i to end
        invariant HexFold(b[k..end], value) == HexFold(b[i..end], 0)
      {
        assert b[k..end][0] == b[k] && b[k..end][1..] == b[k + 1..end];
        var digit := HexValue(b[k]);
        if digit.None? {
          return Err(Fails(InvalidHexDigit));
        }
        value := value * 16 + digit.value;
      }
      i := end;
      return Ok(value);
    }

    method NumberAt() returns (r: Result<Value, Error>)
      requires i <= |b|
      modifies this
      ensures i <= |b| && Outcome(r, i) == ReadNumber(b, old(i))
    {
      var start := i;
      if Peeks('-') {
        i := i + 1;
      }
      var first := i;
      while i < |b| && IsDigitByte(b[i])
        invariant first <= i <= |b| && SkipDigits(b, i) == SkipDigits(b, first)
      {
        i := i + 1;
      }
      if i == first {
        return Err(Fails(ExpectedDigits));
      }
      if b[first] == '0' as int && i - first > 1 {
        return Err(Error(LeadingZero, first));
      }
      if Peeks('.') || Peeks('e') || Peeks('E') {
        return Err(Fails(Float));
      }
      var text := Decode(b[start..i]);
      if text.None? {
        return Err(Fails(InvalidNumber));
      }
      var n := ParseI64(text.value);
      return if n.Some? then Ok(Int(n.value)) else Err(Error(OutOfRange, start));
    }
  }

  /** `parse`. */
  method Parse(input: string) returns (r: Result<Value, Error>)
    ensures r == Read(input)
  {
    var p := new Parser(input);
    p.SkipWs();
    var value := p.Value(0);
    if value.Err? {
      return Err(value.error);
    }
    p.SkipWs();
    if p.i < |p.b| {
      return Err(p.Fails(TrailingContent));
    }
    return Ok(value.value);
  }
}
