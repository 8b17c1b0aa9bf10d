/** DNS messages (RFC 1035) as far as one TXT question needs them: what the
    name encoder, the query builder and the two readers compute. */
module DnsWire {
  import opened Wrappers
  import opened Integers
  import opened Text
  import opened Utf8

  const TYPE_TXT: nat := 16
  const CLASS_IN: nat := 1
  const TYPE_OPT: nat := 41
  const UDP_PAYLOAD: nat := 1232
  const HEADER_LEN: nat := 12
  const MAX_NAME: nat := 255
  const MAX_LABEL: nat := 63

  /** Compression pointers one name may follow. */
  const MAX_JUMPS: nat := 32

  datatype BadName = Empty | NotAscii | EmptyLabel | LongLabel | LongName

  datatype Malformation =
    | ShortHeader
    | NotAnAnswer
    | QuestionPastEnd
    | NamePastEnd
    | LabelPastEnd
    | PointerPastEnd
    | PointerLoop
    | BadLength

  datatype DnsError = BadName(why: BadName) | NotOurQuestion | Malformed(what: Malformation)

  function U16Bytes(n: U16): (bs: seq<Byte>)
    ensures |bs| == 2
  {
    [n / 0x100, n % 0x100]
  }

  function U16At(m: seq<Byte>, i: nat): U16
    requires i + 2 <= |m|
  {
    var high: nat, low: nat := m[i], m[i + 1];
    high * 0x100 + low
  }

  // --------------------------------------------------------------- names

  /** `trim_end_matches('.')`. */
  function TrimDots(s: string): (t: string)
    ensures |t| <= |s| && t == s[..|t|]
    ensures t != [] ==> t[|t| - 1] != '.'
  {
    if s != [] && s[|s| - 1] == '.' then TrimDots(s[..|s| - 1]) else s
  }

  function Lower(s: string): (t: string)
    ensures |t| == |s|
  {
    seq(|s|, k requires 0 <= k < |s| => AsciiLower(s[k]))
  }

  /** Names compare without case and without a trailing root dot. */
  function Fold(name: string): string {
    Lower(TrimDots(name))
  }

  /** `split('.')`: always at least one part. */
  function Split(s: string): (parts: seq<string>)
    ensures parts != []
  {
    if s == [] then [[]]
    else if s[0] == '.' then [[]] + Split(s[1..])
    else
      var rest := Split(s[1..]);
      [[s[0]] + rest[0]] + rest[1..]
  }

  /** Each label, length first, or the first thing wrong with one. */
  function WireLabels(labels: seq<string>): Result<seq<Byte>, DnsError> {
    if labels == [] then Ok([])
    else
      var bytes := Encode(labels[0]);
      if bytes == [] then Err(BadName(EmptyLabel))
      else if |bytes| > MAX_LABEL then Err(BadName(LongLabel))
      else
        match WireLabels(labels[1..])
        case Err(e) => Err(e)
        case Ok(rest) => Ok([|bytes|] + bytes + rest)
  }

  /** A name in wire form: each label length-prefixed, a zero at the end. */
  function EncodeName(name: string): Result<seq<Byte>, DnsError> {
    var trimmed := TrimDots(name);
    if trimmed == [] then Err(BadName(Empty))
    else if !IsAscii(trimmed) then Err(BadName(NotAscii))
    else
      match WireLabels(Split(trimmed))
      case Err(e) => Err(e)
      case Ok(labels) => if |labels| + 1 > MAX_NAME then Err(BadName(LongName)) else Ok(labels + [0])
  }

  /** A name as read, and where it ended in the stream. */
  datatype Name = Name(text: string, after: nat)

  /** `text` with one more label. */
  function Extended(text: string, part: seq<Byte>): string {
    (if text == [] then [] else text + ".") + Lossy(part)
  }

  /** The reading loop from `at`, after `jumps` pointers and with `text` read.
      The measure is the pointers left, then the bytes left. */
  function NameFrom(m: seq<Byte>, at: nat, jumps: nat, text: string, after: Option<nat>): (r: Result<Name, DnsError>)
    requires jumps <= MAX_JUMPS
    requires after.Some? ==> after.value <= |m|
    ensures r.Ok? ==> r.value.after <= |m|
    ensures r.Ok? && after.Some? ==> r.value.after == after.value
    ensures r.Ok? && after.None? ==> at < r.value.after
    decreases MAX_JUMPS - jumps, |m| - at
  {
    if at >= |m| then Err(Malformed(NamePastEnd))
    else
      var length := m[at];
      if length == 0 then Ok(Name(text, if after.Some? then after.value else at + 1))
      else if length < 0x40 then
        var to := at + 1 + length;
        if to > |m| then Err(Malformed(LabelPastEnd))
        else NameFrom(m, to, jumps, Extended(text, m[at + 1..to]), after)
      else if length >= 0xC0 then
        if at + 1 >= |m| then Err(Malformed(PointerPastEnd))
        else if jumps + 1 > MAX_JUMPS then Err(Malformed(PointerLoop))
        else NameFrom(m, Target(length, m[at + 1]), jumps + 1, text, if after.Some? then after else Some(at + 2))
      else Err(Malformed(BadLength))
  }

  /** The offset a pointer's two bytes give: fourteen bits. */
  function Target(high: Byte, low: Byte): nat
    requires high >= 0xC0
  {
    (high as int - 0xC0) * 0x100 + low as int
  }

  function NameAt(m: seq<Byte>, start: nat): (r: Result<Name, DnsError>)
    ensures r.Ok? ==> start < r.value.after <= |m|
  {
    NameFrom(m, start, 0, [], None)
  }

  // ------------------------------------------------------------- answers

  /** TXT data: length-prefixed strings, each decoded and all joined up. */
  function CharacterStrings(rdata: seq<Byte>): string
    decreases |rdata|
  {
    if rdata == [] then []
    else
      var end := if 1 + rdata[0] as int <= |rdata| then 1 + rdata[0] as int else |rdata|;
      Lossy(rdata[1..end]) + CharacterStrings(rdata[end..])
  }

  datatype Reply = Reply(rcode: nat, truncated: bool, values: seq<string>)

  function SkipQuestions(m: seq<Byte>, at: nat, count: nat): (r: Result<nat, DnsError>)
    requires at <= |m|
    ensures r.Ok? ==> at <= r.value <= |m|
    decreases count
  {
    if count == 0 then Ok(at)
    else
      match NameAt(m, at)
      case Err(e) => Err(e)
      case Ok(name) =>
        if name.after + 4 > |m| then Err(Malformed(QuestionPastEnd)) else SkipQuestions(m, name.after + 4, count - 1)
  }

  /** One whole record: whose it is, what it is, its data, and where it ends. */
  datatype Entry = Entry(owner: string, kind: U16, class_: U16, rdata: seq<Byte>, end: nat)

  /** The record at `at`; `None` when the message stops inside it. */
  function EntryAt(m: seq<Byte>, at: nat): (r: Result<Option<Entry>, DnsError>)
    ensures r.Ok? && r.value.Some? ==> at < r.value.value.end <= |m|
  {
    match NameAt(m, at)
    case Err(e) => Err(e)
    case Ok(owner) =>
      var rdata := owner.after + 10;
      if rdata > |m| then Ok(None)
      else
        var end := rdata + U16At(m, rdata - 2);
        if end > |m| then Ok(None)
        else Ok(Some(Entry(owner.text, U16At(m, owner.after), U16At(m, owner.after + 2), m[rdata..end], end)))
  }

  /** The values after one more record. */
  function Taking(values: seq<string>, e: Entry, wanted: string): (all: seq<string>)
    ensures values <= all
  {
    if e.kind == TYPE_TXT && e.class_ == CLASS_IN && Fold(e.owner) == wanted then
      values + [CharacterStrings(e.rdata)]
    else values
  }

  /** The record loop, with the values found so far. A record that was cut
      short ends it, and what was found stands. */
  function Records(m: seq<Byte>, at: nat, count: nat, wanted: string, values: seq<string>)
    : (r: Result<seq<string>, DnsError>)
    ensures r.Ok? ==> values <= r.value
    decreases count
  {
    if count == 0 then Ok(values)
    else
      match EntryAt(m, at)
      case Err(e) => Err(e)
      case Ok(None) => Ok(values)
      case Ok(Some(entry)) => Records(m, entry.end, count - 1, wanted, Taking(values, entry, wanted))
  }

  function ReadTxt(m: seq<Byte>, id: U16, name: string): Result<Reply, DnsError> {
    if |m| < HEADER_LEN then Err(Malformed(ShortHeader))
    else if U16At(m, 0) != id then Err(NotOurQuestion)
    else if m[2] < 0x80 then Err(Malformed(NotAnAnswer))
    else
      match SkipQuestions(m, HEADER_LEN, U16At(m, 4))
      case Err(e) => Err(e)
      case Ok(at) =>
        match Records(m, at, U16At(m, 6), Fold(name), [])
        case Err(e) => Err(e)
        case Ok(values) => Ok(Reply(m[3] as int % 0x10, m[2] as int / 2 % 2 == 1, values))
  }

  /** The OPT record that asks for large answers (section 6.1.2 of RFC 6891). */
  function Opt(): seq<Byte> {
    [0] + U16Bytes(TYPE_OPT) + U16Bytes(UDP_PAYLOAD) + [0, 0, 0, 0] + [0, 0]
  }

  function QueryHeader(id: U16): seq<Byte> {
    U16Bytes(id) + [0, 0] + U16Bytes(1) + [0, 0] + [0, 0] + U16Bytes(1)
  }

  /** A TXT question with no recursion asked for. */
  function TxtQuery(id: U16, name: string): Result<seq<Byte>, DnsError> {
    match EncodeName(name)
    case Err(e) => Err(e)
    case Ok(question) => Ok(QueryHeader(id) + question + U16Bytes(TYPE_TXT) + U16Bytes(CLASS_IN) + Opt())
  }
}
