/** JSON without floats (sections 3 to 7 of RFC 8259): values, what the two
    printers write, and what the reader makes of a byte string. */
module Json {
  import opened Wrappers
  import opened Utf8
  import opened Integers

  /** Deepest nesting the reader accepts, in edges from the root. */
  const MAX_DEPTH: nat := 64

  datatype Value =
    | Null
    | Bool(b: bool)
    | Int(n: I64)
    | Str(s: string)
    | Arr(items: seq<Value>)
    | Obj(fields: seq<Field>)

  datatype Field = Field(key: string, value: Value)

  predicate HasKey(fields: seq<Field>, key: string) {
    exists k :: 0 <= k < |fields| && fields[k].key == key
  }

  predicate DistinctKeys(fields: seq<Field>) {
    forall i, j :: 0 <= i < j < |fields| ==> fields[i].key != fields[j].key
  }

  /** What `Object::insert` makes possible: no object, at any depth, holds two
      fields of one name. */
  ghost predicate Buildable(v: Value) {
    match v
    case Arr(items) => forall k :: 0 <= k < |items| ==> Buildable(items[k])
    case Obj(fields) =>
      DistinctKeys(fields) && forall k :: 0 <= k < |fields| ==> Buildable(fields[k].value)
    case _ => true
  }

  /** The longest chain of edges from the root to a value inside it. */
  ghost function Nesting(v: Value): nat {
    match v
    case Arr(items) => if items == [] then 0 else 1 + ItemsNesting(items)
    case Obj(fields) => if fields == [] then 0 else 1 + FieldsNesting(fields)
    case _ => 0
  }

  ghost function ItemsNesting(items: seq<Value>): nat {
    if items == [] then 0 else Max(Nesting(items[0]), ItemsNesting(items[1..]))
  }

  ghost function FieldsNesting(fields: seq<Field>): nat {
    if fields == [] then 0 else Max(Nesting(fields[0].value), FieldsNesting(fields[1..]))
  }

  // ------------------------------------------------------------ writing

  function Spaces(n: nat): string {
    seq(n, _ => ' ')
  }

  /** A line break and the indentation after it; nothing in compact form. */
  function Break(indent: Option<nat>, depth: nat): string {
    match indent
    case None => ""
    case Some(step) => "\n" + Spaces(step * depth)
  }

  function HexDigit(d: nat): char
    requires d < 16
  {
    if d < 10 then '0' + d as char else 'a' + (d - 10) as char
  }

  /** `{:04x}`. */
  function Hex4(n: nat): string
    requires n < 0x1_0000
  {
    [HexDigit(n / 0x1000), HexDigit(n / 0x100 % 0x10), HexDigit(n / 0x10 % 0x10), HexDigit(n % 0x10)]
  }

  function EscapedChar(c: char): string {
    if c == '"' then "\\\""
    else if c == '\\' then "\\\\"
    else if c == '\n' then "\\n"
    else if c == '\r' then "\\r"
    else if c == '\t' then "\\t"
    else if c == '\U{08}' then "\\b"
    else if c == '\U{0C}' then "\\f"
    else if c as int < 0x20 then "\\u" + Hex4(c as int)
    else [c]
  }

  function Escaped(s: string): string {
    if s == [] then [] else EscapedChar(s[0]) + Escaped(s[1..])
  }

  function Quoted(s: string): string {
    "\"" + (Escaped(s) + "\"")
  }

  function Colon(indent: Option<nat>): string {
    if indent.Some? then ": " else ":"
  }

  /** The text of a value that sits `depth` levels down. */
  function Printed(v: Value, indent: Option<nat>, depth: nat): string
    decreases v
  {
    match v
    case Null => "null"
    case Bool(b) => if b then "true" else "false"
    case Int(n) => Show(n)
    case Str(s) => Quoted(s)
    case Arr(items) => if items == [] then "[]" else "[" + PrintedItems(items, indent, depth)
    case Obj(fields) => if fields == [] then "{}" else "{" + PrintedFields(fields, indent, depth)
  }

  /** The items of an array from some point on, through the closing bracket. */
  function PrintedItems(items: seq<Value>, indent: Option<nat>, depth: nat): string
    requires items != []
    decreases items
  {
    Break(indent, depth + 1) + (Printed(items[0], indent, depth + 1) +
      (if |items| == 1 then Break(indent, depth) + "]"
       else "," + PrintedItems(items[1..], indent, depth)))
  }

  function PrintedFields(fields: seq<Field>, indent: Option<nat>, depth: nat): string
    requires fields != []
    decreases fields
  {
    Break(indent, depth + 1) + (Quoted(fields[0].key) + (Colon(indent) +
      (Printed(fields[0].value, indent, depth + 1) +
        (if |fields| == 1 then Break(indent, depth) + "}"
         else "," + PrintedFields(fields[1..], indent, depth)))))
  }

  /** `to_string`. */
  function Compact(v: Value): string {
    Printed(v, None, 0)
  }

  /** `to_string_pretty`. */
  function Pretty(v: Value): string {
    Printed(v, Some(2), 0)
  }

  // ------------------------------------------------------------ reading

  datatype Fault =
    | TrailingContent
    | Expected(c: char)
    | NestingTooDeep
    | UnexpectedEnd
    | UnexpectedCharacter
    | InvalidLiteral
    | ExpectedKey
    | DuplicateKey(key: string)
    | ExpectedCommaOrBrace
    | ExpectedCommaOrBracket
    | UnterminatedString
    | InvalidUtf8
    | UnterminatedEscape
    | InvalidEscape
    | ControlCharacter
    | LoneHighSurrogate
    | InvalidLowSurrogate
    | LoneLowSurrogate
    | TruncatedEscape
    | InvalidHexDigit
    | ExpectedDigits
    | LeadingZero
    | Float
    | InvalidNumber
    | OutOfRange

  /** What went wrong, and the byte offset it was noticed at. */
  datatype Error = Error(fault: Fault, offset: nat)

  /** A reader's answer: what it read and the offset just past it. */
  datatype Parsed<+T> = Parsed(value: T, next: nat) | Failed(error: Error)

  predicate PeekIs(b: seq<Byte>, i: nat, c: char) {
    i < |b| && b[i] == c as int
  }

  predicate IsSpace(b: Byte) {
    b == ' ' as int || b == '\t' as int || b == '\n' as int || b == '\r' as int
  }

  function SkipSpace(b: seq<Byte>, i: nat): (j: nat)
    requires i <= |b|
    ensures i <= j <= |b|
    ensures forall k :: i <= k < j ==> IsSpace(b[k])
    ensures j < |b| ==> !IsSpace(b[j])
    decreases |b| - i
  {
    if i < |b| && IsSpace(b[i]) then SkipSpace(b, i + 1) else i
  }

  function SkipDigits(b: seq<Byte>, i: nat): (j: nat)
    requires i <= |b|
    ensures i <= j <= |b|
    ensures forall k :: i <= k < j ==> IsDigitByte(b[k])
    ensures j < |b| ==> !IsDigitByte(b[j])
    decreases |b| - i
  {
    if i < |b| && IsDigitByte(b[i]) then SkipDigits(b, i + 1) else i
  }

  /** An ASCII word stands in `b` at offset `i`. */
  predicate WordAt(b: seq<Byte>, i: nat, word: string) {
    i + |word| <= |b| && forall k :: 0 <= k < |word| ==> b[i + k] == word[k] as int
  }

  function Literal(b: seq<Byte>, i: nat, word: string, value: Value): (r: Parsed<Value>)
    requires i <= |b| && word != []
    ensures r.Parsed? ==> i < r.next <= |b|
  {
    if WordAt(b, i, word) then Parsed(value, i + |word|) else Failed(Error(InvalidLiteral, i))
  }

  function ReadValue(b: seq<Byte>, i: nat, depth: nat): (r: Parsed<Value>)
    requires i <= |b|
    ensures r.Parsed? ==> i < r.next <= |b|
    decreases |b| - i, 1
  {
    if depth > MAX_DEPTH then Failed(Error(NestingTooDeep, i))
    else if i == |b| then Failed(Error(UnexpectedEnd, i))
    else if b[i] == '{' as int then ReadObject(b, i, depth)
    else if b[i] == '[' as int then ReadArray(b, i, depth)
    else if b[i] == '"' as int then
      (match ReadString(b, i)
       case Failed(e) => Failed(e)
       case Parsed(s, j) => Parsed(Str(s), j))
    else if b[i] == 't' as int then Literal(b, i, "true", Bool(true))
    else if b[i] == 'f' as int then Literal(b, i, "false", Bool(false))
    else if b[i] == 'n' as int then Literal(b, i, "null", Null)
    else if b[i] == '-' as int || IsDigitByte(b[i]) then ReadNumber(b, i)
    else Failed(Error(UnexpectedCharacter, i))
  }

  function ReadObject(b: seq<Byte>, i: nat, depth: nat): (r: Parsed<Value>)
    requires i <= |b|
    ensures r.Parsed? ==> i < r.next <= |b|
    decreases |b| - i, 0
  {
    if !PeekIs(b, i, '{') then Failed(Error(Expected('{'), i))
    else
      var j := SkipSpace(b, i + 1);
      if PeekIs(b, j, '}') then Parsed(Obj([]), j + 1) else ReadFields(b, j, depth, [])
  }

  /** The field loop, with what it has collected so far. */
  function ReadFields(b: seq<Byte>, i: nat, depth: nat, fields: seq<Field>): (r: Parsed<Value>)
    requires i <= |b|
    ensures r.Parsed? ==> i < r.next <= |b|
    decreases |b| - i, 3
  {
    var keyAt := SkipSpace(b, i);
    match ReadField(b, keyAt, depth)
    case Failed(e) => Failed(e)
    case Parsed(f, v) =>
      if HasKey(fields, f.key) then Failed(Error(DuplicateKey(f.key), keyAt))
      else
        var j := SkipSpace(b, v);
        if PeekIs(b, j, ',') then ReadFields(b, j + 1, depth, fields + [f])
        else if PeekIs(b, j, '}') then Parsed(Obj(fields + [f]), j + 1)
        else Failed(Error(ExpectedCommaOrBrace, j))
  }

  /** One key, its colon and its value. */
  function ReadField(b: seq<Byte>, i: nat, depth: nat): (r: Parsed<Field>)
    requires i <= |b|
    ensures r.Parsed? ==> i < r.next <= |b|
    decreases |b| - i, 2
  {
    if !PeekIs(b, i, '"') then Failed(Error(ExpectedKey, i))
    else
      match ReadString(b, i)
      case Failed(e) => Failed(e)
      case Parsed(key, k) =>
        var colon := SkipSpace(b, k);
        if !PeekIs(b, colon, ':') then Failed(Error(Expected(':'), colon))
        else
          match ReadValue(b, SkipSpace(b, colon + 1), depth + 1)
          case Failed(e) => Failed(e)
          case Parsed(value, v) => Parsed(Field(key, value), v)
  }

  function ReadArray(b: seq<Byte>, i: nat, depth: nat): (r: Parsed<Value>)
    requires i <= |b|
    ensures r.Parsed? ==> i < r.next <= |b|
    decreases |b| - i, 0
  {
    if !PeekIs(b, i, '[') then Failed(Error(Expected('['), i))
    else
      var j := SkipSpace(b, i + 1);
      if PeekIs(b, j, ']') then Parsed(Arr([]), j + 1) else ReadItems(b, j, depth, [])
  }

  /** The item loop, with what it has collected so far. */
  function ReadItems(b: seq<Byte>, i: nat, depth: nat, items: seq<Value>): (r: Parsed<Value>)
    requires i <= |b|
    ensures r.Parsed? ==> i < r.next <= |b|
    decreases |b| - i, 2
  {
    match ReadValue(b, SkipSpace(b, i), depth + 1)
    case Failed(e) => Failed(e)
    case Parsed(value, v) =>
      var j := SkipSpace(b, v);
      if PeekIs(b, j, ',') then ReadItems(b, j + 1, depth, items + [value])
      else if PeekIs(b, j, ']') then Parsed(Arr(items + [value]), j + 1)
      else Failed(Error(ExpectedCommaOrBracket, j))
  }

  /** One turn of the item loop: what comes after one more item. */
  lemma ItemsTurn(b: seq<Byte>, i: nat, depth: nat, items: seq<Value>)
    requires i <= |b|
    ensures var item := ReadValue(b, SkipSpace(b, i), depth + 1);
            ReadItems(b, i, depth, items) ==
            if item.Failed? then Failed(item.error)
            else
              var j := SkipSpace(b, item.next);
              if PeekIs(b, j, ',') then ReadItems(b, j + 1, depth, items + [item.value])
              else if PeekIs(b, j, ']') then Parsed(Arr(items + [item.value]), j + 1)
              else Failed(Error(ExpectedCommaOrBracket, j))
  {
  }

  /** One turn of the field loop. */
  lemma FieldsTurn(b: seq<Byte>, i: nat, depth: nat, fields: seq<Field>)
    requires i <= |b|
    ensures var keyAt := SkipSpace(b, i);
            var field := ReadField(b, keyAt, depth);
            ReadFields(b, i, depth, fields) ==
            if field.Failed? then Failed(field.error)
            else if HasKey(fields, field.value.key) then Failed(Error(DuplicateKey(field.value.key), keyAt))
            else
              var j := SkipSpace(b, field.next);
              if PeekIs(b, j, ',') then ReadFields(b, j + 1, depth, fields + [field.value])
              else if PeekIs(b, j, '}') then Parsed(Obj(fields + [field.value]), j + 1)
              else Failed(Error(ExpectedCommaOrBrace, j))
  {
  }

  function ReadString(b: seq<Byte>, i: nat): (r: Parsed<string>)
    requires i <= |b|
    ensures r.Parsed? ==> i < r.next <= |b|
  {
    if PeekIs(b, i, '"') then ReadChars(b, i + 1, []) else Failed(Error(Expected('"'), i))
  }

  /** The character an escape of one letter stands for. */
  function SimpleEscape(e: Byte): Option<Byte> {
    if e == '"' as int || e == '\\' as int || e == '/' as int then Some(e)
    else if e == 'b' as int then Some(0x08)
    else if e == 'f' as int then Some(0x0C)
    else if e == 'n' as int then Some(0x0A)
    else if e == 'r' as int then Some(0x0D)
    else if e == 't' as int then Some(0x09)
    else None
  }

  /** The loop inside a string, with the bytes it has collected so far. */
  function ReadChars(b: seq<Byte>, i: nat, buf: seq<Byte>): (r: Parsed<string>)
    requires i <= |b|
    ensures r.Parsed? ==> i < r.next <= |b|
    decreases |b| - i
  {
    if i == |b| then Failed(Error(UnterminatedString, i))
    else if b[i] == '"' as int then
      (match Decode(buf)
       case Some(s) => Parsed(s, i + 1)
       case None => Failed(Error(InvalidUtf8, i + 1)))
    else if b[i] == '\\' as int then
      if i + 1 == |b| then Failed(Error(UnterminatedEscape, i + 1))
      else if b[i + 1] == 'u' as int then
        (match ReadUnicodeEscape(b, i + 2)
         case Failed(e) => Failed(e)
         case Parsed(c, j) => ReadChars(b, j, buf + EncodeChar(c)))
      else
        (match SimpleEscape(b[i + 1])
         case Some(x) => ReadChars(b, i + 2, buf + [x])
         case None => Failed(Error(InvalidEscape, i + 2)))
    else if b[i] < 0x20 then Failed(Error(ControlCharacter, i))
    else ReadChars(b, i + 1, buf + [b[i]])
  }

  /** What follows `\u`: four hex digits, or a surrogate pair of them. */
  function ReadUnicodeEscape(b: seq<Byte>, i: nat): (r: Parsed<char>)
    requires i <= |b|
    ensures r.Parsed? ==> i < r.next <= |b|
  {
    match ReadHex4(b, i)
    case Failed(e) => Failed(e)
    case Parsed(first, j) =>
      if 0xD800 <= first < 0xDC00 then
        if !(PeekIs(b, j, '\\') && PeekIs(b, j + 1, 'u')) then Failed(Error(LoneHighSurrogate, j))
        else
          match ReadHex4(b, j + 2)
          case Failed(e) => Failed(e)
          case Parsed(low, k) =>
            if !(0xDC00 <= low < 0xE000) then Failed(Error(InvalidLowSurrogate, k))
            else Parsed((0x1_0000 + (first - 0xD800) * 0x400 + (low - 0xDC00)) as char, k)
      else if 0xDC00 <= first < 0xE000 then Failed(Error(LoneLowSurrogate, j))
      else Parsed(first as char, j)
  }

  function HexValue(b: Byte): Option<nat> {
    if '0' as int <= b <= '9' as int then Some(b as int - '0' as int)
    else if 'a' as int <= b <= 'f' as int then Some(b as int - 'a' as int + 10)
    else if 'A' as int <= b <= 'F' as int then Some(b as int - 'A' as int + 10)
    else None
  }

  /** Hex digits read left to right onto `value`. */
  function HexFold(digits: seq<Byte>, value: nat): (r: Option<nat>) {
    if digits == [] then Some(value)
    else
      match HexValue(digits[0])
      case None => None
      case Some(d) => HexFold(digits[1..], value * 16 + d)
  }

  function ReadHex4(b: seq<Byte>, i: nat): (r: Parsed<nat>)
    requires i <= |b|
    ensures r.Parsed? ==> r.next == i + 4 <= |b| && r.value < 0x1_0000
  {
    if i + 4 > |b| then Failed(Error(TruncatedEscape, i))
    else
      FourHexDigits(b[i..i + 4]);
      match HexFold(b[i..i + 4], 0)
      case None => Failed(Error(InvalidHexDigit, i))
      case Some(value) => Parsed(value, i + 4)
  }

  /** Four digits stay below sixteen to the fourth. */
  lemma FourHexDigits(w: seq<Byte>)
    requires |w| == 4
    ensures HexFold(w, 0) ==
      if HexValue(w[0]).Some? && HexValue(w[1]).Some? && HexValue(w[2]).Some? && HexValue(w[3]).Some?
      then Some(((HexValue(w[0]).value * 16 + HexValue(w[1]).value) * 16 + HexValue(w[2]).value) * 16
                + HexValue(w[3]).value)
      else None
  {
    assert w[1..][1..] == w[2..] && w[2..][1..] == w[3..] && w[3..][1..] == [];
    if HexValue(w[0]).Some? {
      var x := HexValue(w[0]).value;
      assert HexFold(w, 0) == HexFold(w[1..], x);
      if HexValue(w[1]).Some? {
        x := x * 16 + HexValue(w[1]).value;
        assert HexFold(w, 0) == HexFold(w[2..], x);
        if HexValue(w[2]).Some? {
          x := x * 16 + HexValue(w[2]).value;
          assert HexFold(w, 0) == HexFold(w[3..], x);
        }
      }
    }
  }

  function ReadNumber(b: seq<Byte>, i: nat): (r: Parsed<Value>)
    requires i <= |b|
    ensures r.Parsed? ==> i < r.next <= |b|
  {
    var first := if PeekIs(b, i, '-') then i + 1 else i;
    var j := SkipDigits(b, first);
    if j == first then Failed(Error(ExpectedDigits, j))
    else if b[first] == '0' as int && j - first > 1 then Failed(Error(LeadingZero, first))
    else if PeekIs(b, j, '.') || PeekIs(b, j, 'e') || PeekIs(b, j, 'E') then Failed(Error(Float, j))
    else
      match Decode(b[i..j])
      case None => Failed(Error(InvalidNumber, j))
      case Some(text) =>
        match ParseI64(text)
        case None => Failed(Error(OutOfRange, i))
        case Some(n) => Parsed(Int(n), j)
  }

  /** `parse`: one value and nothing after it but space. */
  function Read(text: string): Result<Value, Error> {
    var b := Encode(text);
    match ReadValue(b, SkipSpace(b, 0), 0)
    case Failed(e) => Err(e)
    case Parsed(v, j) =>
      var end := SkipSpace(b, j);
      if end < |b| then Err(Error(TrailingContent, end)) else Ok(v)
  }
}
