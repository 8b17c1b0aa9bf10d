/** The DNS loops as they run, each held to what module `DnsWire` computes.
    Every index they take is in range, whatever the message. */
module DnsMachine {
  import opened Wrappers
  import opened Integers
  import opened Sequences
  import opened Utf8
  import opened DnsWire

  method EncodeNameLoop(name: string) returns (r: Result<seq<Byte>, DnsError>)
    ensures r == EncodeName(name)
  {
    var trimmed := TrimDots(name);
    if trimmed == [] {
      return Err(BadName(Empty));
    }
    if !IsAscii(trimmed) {
      return Err(BadName(NotAscii));
    }
    var labels := Split(trimmed);
    var wire: seq<Byte> := [];
    assert labels[0..] == labels;
    assert WireLabels(labels).Ok? ==> wire + WireLabels(labels).value == WireLabels(labels).value;
    for k := 0 to |labels|
      invariant match WireLabels(labels[k..])
                case Ok(rest) => WireLabels(labels) == Ok(wire + rest)
                case Err(e) => WireLabels(labels) == Err(e)
    {
      assert labels[k..][0] == labels[k] && labels[k..][1..] == labels[k + 1..];
      var bytes := Encode(labels[k]);
      if bytes == [] {
        return Err(BadName(EmptyLabel));
      }
      if |bytes| > MAX_LABEL {
        return Err(BadName(LongLabel));
      }
      ghost var rest := WireLabels(labels[k + 1..]);
      assert rest.Ok? ==> wire + ([|bytes|] + bytes + rest.value) == wire + [|bytes|] + bytes + rest.value;
      wire := wire + [|bytes|] + bytes;
    }
    assert wire + [] == wire;
    wire := wire + [0];
    if |wire| > MAX_NAME {
      return Err(BadName(LongName));
    }
    return Ok(wire);
  }

  method ReadName(m: seq<Byte>, start: nat) returns (r: Result<Name, DnsError>)
    ensures r == NameAt(m, start)
  {
    hide Extended, Target;
    var name: string := [];
    var at: nat := start;
    var after: Option<nat> := None;
    var jumps: nat := 0;
    ghost var goal := NameAt(m, start);
    while true
      invariant jumps <= MAX_JUMPS && (after.Some? ==> after.value <= |m|)
      invariant NameFrom(m, at, jumps, name, after) == goal
      decreases MAX_JUMPS - jumps, |m| - at
    {
      if at >= |m| {
        return Err(Malformed(NamePastEnd));
      }
      var length := m[at];
      if length == 0 {
        return Ok(Name(name, if after.Some? then after.value else at + 1));
      } else if length < 0x40 {
        var to := at + 1 + length;
        if to > |m| {
          return Err(Malformed(LabelPastEnd));
        }
        var piece := m[at + 1..to];
        name := Extended(name, piece);
        at := to;
      } else if length >= 0xC0 {
        if at + 1 >= |m| {
          return Err(Malformed(PointerPastEnd));
        }
        var low := m[at + 1];
        if jumps + 1 > MAX_JUMPS {
          return Err(Malformed(PointerLoop));
        }
        jumps := jumps + 1;
        after := if after.Some? then after else Some(at + 2);
        at := Target(length, low);
      } else {
        return Err(Malformed(BadLength));
      }
    }
  }

  /** Where the character-string at `at` ends; a length that runs past the
      record data stops at its end. */
  function StringEnd(rdata: seq<Byte>, at: nat): (end: nat)
    requires at < |rdata|
    ensures at < end <= |rdata|
  {
    var end := at + 1 + rdata[at];
    if end <= |rdata| then end else |rdata|
  }

  lemma StringTurned(rdata: seq<Byte>, at: nat, value: string)
    requires at < |rdata|
    ensures var end := StringEnd(rdata, at);
            (value + Lossy(rdata[at + 1..end])) + CharacterStrings(rdata[end..])
            == value + CharacterStrings(rdata[at..])
  {
    hide Lossy;
    var end := StringEnd(rdata, at);
    assert rdata[at..][1..end - at] == rdata[at + 1..end] && rdata[at..][end - at..] == rdata[end..];
    Regroup(value, Lossy(rdata[at + 1..end]), CharacterStrings(rdata[end..]));
  }

  method ReadCharacterStrings(rdata: seq<Byte>) returns (value: string)
    ensures value == CharacterStrings(rdata)
  {
    value := [];
    var at: nat := 0;
    assert rdata[0..] == rdata;
    ghost var tail := CharacterStrings(rdata);
    while at < |rdata|
      invariant at <= |rdata| && tail == CharacterStrings(rdata[at..])
      invariant value + tail == CharacterStrings(rdata)
    {
      StringTurned(rdata, at, value);
      var end := StringEnd(rdata, at);
      tail := CharacterStrings(rdata[end..]);
      value := value + Lossy(rdata[at + 1..end]);
      at := end;
    }
    assert tail == [] && value + tail == value;
  }

  method ReadTxtMessage(m: seq<Byte>, id: U16, name: string) returns (r: Result<Reply, DnsError>)
    ensures r == ReadTxt(m, id, name)
  {
    hide Fold, Records, NameAt;
    if |m| < HEADER_LEN {
      return Err(Malformed(ShortHeader));
    }
    if U16At(m, 0) != id {
      return Err(NotOurQuestion);
    }
    if m[2] < 0x80 {
      return Err(Malformed(NotAnAnswer));
    }
    var truncated, rcode := m[2] as int / 2 % 2 == 1, m[3] as int % 0x10;
    var questions, answers := U16At(m, 4), U16At(m, 6);
    var wanted := Fold(name);
    var at: nat := HEADER_LEN;
    for q := 0 to questions
      invariant at <= |m|
      invariant SkipQuestions(m, at, questions - q) == SkipQuestions(m, HEADER_LEN, questions)
    {
      var skipped := ReadName(m, at);
      if skipped.Err? {
        return Err(skipped.error);
      }
      if skipped.value.after + 4 > |m| {
        return Err(Malformed(QuestionPastEnd));
      }
      at := skipped.value.after + 4;
    }
    var values := RecordLoop(m, at, answers, wanted);
    return match values case Ok(found) => Ok(Reply(rcode, truncated, found)) case Err(e) => Err(e);
  }

  method RecordLoop(m: seq<Byte>, start: nat, answers: nat, wanted: string) returns (r: Result<seq<string>, DnsError>)
    ensures r == Records(m, start, answers, wanted, [])
  {
    hide EntryAt, Fold, CharacterStrings;
    var values: seq<string> := [];
    var at: nat := start;
    ghost var goal := Records(m, start, answers, wanted, []);
    for k := 0 to answers
      invariant Records(m, at, answers - k, wanted, values) == goal
    {
      var entry := ReadEntry(m, at);
      if entry.Err? {
        return Err(entry.error);
      }
      if entry.value.None? {
        return Ok(values);
      }
      var e := entry.value.value;
      if e.kind == TYPE_TXT && e.class_ == CLASS_IN && Fold(e.owner) == wanted {
        var value := ReadCharacterStrings(e.rdata);
        values := values + [value];
      }
      at := e.end;
    }
    return Ok(values);
  }

  method ReadEntry(m: seq<Byte>, at: nat) returns (r: Result<Option<Entry>, DnsError>)
    ensures r == EntryAt(m, at)
  {
    var owner := ReadName(m, at);
    if owner.Err? {
      return Err(owner.error);
    }
    var after: nat := owner.value.after;
    var rdata := after + 10;
    if rdata > |m| {
      return Ok(None);
    }
    var kind, class_, length := U16At(m, after), U16At(m, after + 2), U16At(m, rdata - 2);
    var end := rdata + length;
    if end > |m| {
      return Ok(None);
    }
    return Ok(Some(Entry(owner.value.text, kind, class_, m[rdata..end], end)));
  }

  method BuildTxtQuery(id: U16, name: string) returns (r: Result<seq<Byte>, DnsError>)
    ensures r == TxtQuery(id, name)
  {
    var question := EncodeNameLoop(name);
    if question.Err? {
      return Err(question.error);
    }
    var message: seq<Byte> := U16Bytes(id);
    message := message + [0, 0];
    message := message + U16Bytes(1);
    message := message + [0, 0];
    message := message + [0, 0];
    message := message + U16Bytes(1);
    assert message == QueryHeader(id);
    message := message + question.value;
    message := message + U16Bytes(TYPE_TXT);
    message := message + U16Bytes(CLASS_IN);
    message := message + Opt();
    return Ok(message);
  }
}
