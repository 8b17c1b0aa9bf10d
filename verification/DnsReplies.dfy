/** An answer as a server builds it, whole or cut off anywhere, and what the
    reader makes of it. */
module DnsReplies {
  import opened Wrappers
  import opened Integers
  import opened Utf8
  import opened DnsWire
  import opened DnsNames
  import opened DnsAnswers

  /** A name as it stands in a message, and the text it stands for. It may be
      spelled out, point to where it stands already, or share a suffix. */
  datatype NameWire = NameWire(bytes: seq<Byte>, text: string)

  datatype Question = Question(name: NameWire, kind: U16, class_: U16)

  datatype Record = Record(owner: NameWire, kind: U16, class_: U16, ttl: seq<Byte>, rdata: seq<Byte>)

  /** What follows the id in the header: two bytes of flags, and the counts of
      the sections after the answers. */
  datatype Flags = Flags(high: Byte, low: Byte, counts: seq<Byte>)

  predicate GoodRecord(r: Record) {
    r.owner.bytes != [] && |r.ttl| == 4 && |r.rdata| < 0x1_0000
  }

  predicate GoodRecords(records: seq<Record>) {
    |records| < 0x1_0000 && forall k :: 0 <= k < |records| ==> GoodRecord(records[k])
  }

  predicate CanAnswer(flags: Flags, questions: seq<Question>, records: seq<Record>) {
    && |flags.counts| == 4 && flags.high >= 0x80
    && |questions| < 0x1_0000 && GoodRecords(records)
  }

  /** What comes after the owner. */
  function BodyWire(r: Record): seq<Byte>
    requires GoodRecord(r)
  {
    U16Bytes(r.kind) + U16Bytes(r.class_) + r.ttl + U16Bytes(|r.rdata|) + r.rdata
  }

  function RecordWire(r: Record): seq<Byte>
    requires GoodRecord(r)
  {
    r.owner.bytes + BodyWire(r)
  }

  function RecordsWire(records: seq<Record>): seq<Byte>
    requires forall k :: 0 <= k < |records| ==> GoodRecord(records[k])
  {
    if records == [] then [] else RecordWire(records[0]) + RecordsWire(records[1..])
  }

  function QuestionsWire(questions: seq<Question>): seq<Byte> {
    if questions == [] then []
    else
      questions[0].name.bytes + (U16Bytes(questions[0].kind) + U16Bytes(questions[0].class_))
      + QuestionsWire(questions[1..])
  }

  function Header(id: U16, flags: Flags, questions: U16, answers: U16): seq<Byte> {
    U16Bytes(id) + [flags.high, flags.low] + U16Bytes(questions) + U16Bytes(answers) + flags.counts
  }

  /** Header, the questions echoed back, the answers, and whatever sections
      come after them: authority, additional, an OPT record. */
  function Answer(id: U16, flags: Flags, questions: seq<Question>, records: seq<Record>, after: seq<Byte>): seq<Byte>
    requires CanAnswer(flags, questions, records)
  {
    Header(id, flags, |questions|, |records|) + (QuestionsWire(questions) + (RecordsWire(records) + after))
  }

  /** A record that answers: TXT, class IN, owned by the name wanted. */
  predicate Answers(r: Record, wanted: string) {
    r.kind == TYPE_TXT && r.class_ == CLASS_IN && Fold(r.owner.text) == wanted
  }

  /** The data of the records that answer, as the reader decodes it. */
  function Owned(records: seq<Record>, wanted: string): seq<string> {
    if records == [] then []
    else
      (if Answers(records[0], wanted) then [CharacterStrings(records[0].rdata)] else [])
      + Owned(records[1..], wanted)
  }

  /** How many records are whole in the first `n` bytes, the first of them
      standing at `at`; none if the cut is in a record's owner, or right before
      it. */
  function WholeRecords(records: seq<Record>, at: nat, n: nat): (k: Option<nat>)
    requires forall i :: 0 <= i < |records| ==> GoodRecord(records[i])
    ensures k.Some? ==> k.value <= |records|
  {
    if records == [] then Some(0)
    else
      var r := records[0];
      assert GoodRecord(r);
      if n < at + |r.owner.bytes| then None
      else if n < at + |RecordWire(r)| then Some(0)
      else
        match WholeRecords(records[1..], at + |RecordWire(r)|, n)
        case None => None
        case Some(k) => Some(k + 1)
  }

  // ------------------------------------------------------------- the parts

  lemma U16ReadsBack(m: seq<Byte>, at: nat, n: U16)
    requires Stands(m, at, U16Bytes(n))
    ensures U16At(m, at) == n
  {
    var w := m[at..at + 2];
    assert w[0] == m[at] && w[1] == m[at + 1];
  }

  /** What stands in a message stands in any cut that leaves it whole. */
  lemma StandsInCut(p: seq<Byte>, m: seq<Byte>, at: nat, w: seq<Byte>)
    requires p <= m && Stands(m, at, w) && at + |w| <= |p|
    ensures Stands(p, at, w)
  {
    assert p[at..at + |w|] == m[at..at + |w|];
  }

  // ------------------------------------------------------------- the names

  /** A name with so many pointers at most is spelled at `at`, and nothing it
      leads to stands after it: a pointer is to a prior occurrence (section
      4.1.4 of RFC 1035). */
  ghost predicate LegibleWithin(m: seq<Byte>, at: nat, n: NameWire, jumps: nat) {
    var end := at + |n.bytes|;
    end <= |m| && exists shape :: SpellsWithin(m[..end], at, Name(n.text, end), shape, jumps)
  }

  ghost predicate SpellsWithin(m: seq<Byte>, at: nat, name: Name, shape: Shape, jumps: nat) {
    && Spells(m, at, shape) && Jumps(shape) <= jumps
    && name == Name(NameText(shape, []), StreamEnd(at, shape))
  }

  ghost predicate Legible(m: seq<Byte>, at: nat, n: NameWire) {
    LegibleWithin(m, at, n, MAX_JUMPS)
  }

  /** The names a message holds, all of them legible where they stand. */
  ghost predicate QuestionsLegible(m: seq<Byte>, at: nat, questions: seq<Question>)
    decreases |questions|
  {
    questions == [] ||
    (Legible(m, at, questions[0].name) && QuestionsLegible(m, at + |questions[0].name.bytes| + 4, questions[1..]))
  }

  ghost predicate RecordsLegible(m: seq<Byte>, at: nat, records: seq<Record>)
    requires forall k :: 0 <= k < |records| ==> GoodRecord(records[k])
    decreases |records|
  {
    records == [] ||
    (Legible(m, at, records[0].owner) && RecordsLegible(m, at + |RecordWire(records[0])|, records[1..]))
  }

  ghost predicate AllLegible(m: seq<Byte>, questions: seq<Question>, records: seq<Record>)
    requires forall k :: 0 <= k < |records| ==> GoodRecord(records[k])
  {
    && QuestionsLegible(m, HEADER_LEN, questions)
    && RecordsLegible(m, HEADER_LEN + |QuestionsWire(questions)|, records)
  }

  /** A legible name is read, as its text and up to its end, from any part of
      the message that holds it, and from none that does not. */
  lemma OwnerReads(p: seq<Byte>, m: seq<Byte>, at: nat, n: NameWire)
    requires p <= m && Legible(m, at, n)
    ensures var name := Name(n.text, at + |n.bytes|);
            && NameAt(m, at) == Ok(name)
            && if name.after <= |p| then NameAt(p, at) == Ok(name) else NameAt(p, at).Err?
  {
    var end := at + |n.bytes|;
    var name, whole := Name(n.text, end), m[..end];
    var shape :| SpellsWithin(whole, at, name, shape, MAX_JUMPS);
    hide Spells, NameFrom, SpellsWithin;
    SpellsSo(whole, at, name, shape);
    ReadOn(whole, m, at, name);
    if end <= |p| {
      assert whole == p[..end];
      ReadOn(whole, p, at, name);
    } else {
      NameCutFails(p, m, at, name);
    }
  }

  lemma SpellsSo(m: seq<Byte>, at: nat, name: Name, shape: Shape)
    requires SpellsWithin(m, at, name, shape, MAX_JUMPS)
    ensures NameAt(m, at) == Ok(name)
  {
    hide Spells, NameAt;
    SpellingReads(m, at, shape);
  }

  lemma ReadOn(p: seq<Byte>, m: seq<Byte>, at: nat, name: Name)
    requires p <= m && NameAt(p, at) == Ok(name)
    ensures NameAt(m, at) == Ok(name)
  {
    hide NameFrom;
    NamePrefix(p, m, at, 0, [], None);
  }

  /** A name cut off anywhere, its last byte included, cannot be read. */
  lemma NameCutFails(p: seq<Byte>, m: seq<Byte>, at: nat, name: Name)
    requires p <= m && NameAt(m, at) == Ok(name) && |p| < name.after
    ensures NameAt(p, at).Err?
  {
    hide NameFrom;
    if NameAt(p, at).Ok? {
      NamePrefix(p, m, at, 0, [], None);
    }
  }

  /** Where the parts of a record stand after its owner. */
  lemma BodyStands(m: seq<Byte>, after: nat, r: Record)
    requires GoodRecord(r) && Stands(m, after, BodyWire(r))
    ensures after + 10 + |r.rdata| == after + |BodyWire(r)| <= |m|
    ensures U16At(m, after) == r.kind && U16At(m, after + 2) == r.class_ && U16At(m, after + 8) == |r.rdata|
    ensures m[after + 10..after + 10 + |r.rdata|] == r.rdata
  {
    hide U16Bytes, U16At;
    var kind, class_, length := U16Bytes(r.kind), U16Bytes(r.class_), U16Bytes(|r.rdata|);
    StandsSplit(m, after, kind + class_ + r.ttl + length, r.rdata);
    StandsSplit(m, after, kind + class_ + r.ttl, length);
    StandsSplit(m, after, kind + class_, r.ttl);
    StandsSplit(m, after, kind, class_);
    U16ReadsBack(m, after, r.kind);
    U16ReadsBack(m, after + 2, r.class_);
    U16ReadsBack(m, after + 8, |r.rdata|);
  }

  lemma EntryFrom(m: seq<Byte>, at: nat, owner: Name, kind: U16, class_: U16, rdata: seq<Byte>)
    requires NameAt(m, at) == Ok(owner) && owner.after + 10 + |rdata| <= |m|
    requires U16At(m, owner.after) == kind && U16At(m, owner.after + 2) == class_
    requires U16At(m, owner.after + 8) == |rdata|
    requires m[owner.after + 10..owner.after + 10 + |rdata|] == rdata
    ensures EntryAt(m, at) == Ok(Some(Entry(owner.text, kind, class_, rdata, owner.after + 10 + |rdata|)))
  {
    hide NameAt, U16At;
  }

  /** A record is read as it was built, under the name its owner reads as. */
  lemma BodyReads(m: seq<Byte>, at: nat, r: Record, name: Name)
    requires GoodRecord(r) && NameAt(m, at) == Ok(name) && Stands(m, name.after, BodyWire(r))
    ensures EntryAt(m, at)
         == Ok(Some(Entry(name.text, r.kind, r.class_, r.rdata, name.after + |BodyWire(r)|)))
  {
    hide NameAt, BodyWire, Stands, U16At, EntryAt;
    BodyStands(m, name.after, r);
    EntryFrom(m, at, name, r.kind, r.class_, r.rdata);
  }

  /** A record is read as it was built, however its owner is written. */
  lemma EntryReads(m: seq<Byte>, at: nat, r: Record)
    requires GoodRecord(r) && Legible(m, at, r.owner) && Stands(m, at, RecordWire(r))
    ensures EntryAt(m, at)
         == Ok(Some(Entry(r.owner.text, r.kind, r.class_, r.rdata, at + |RecordWire(r)|)))
  {
    hide NameAt, BodyWire, Stands, EntryAt, Legible;
    RecordSplits(m, at, r);
    OwnerReads(m, m, at, r.owner);
    BodyReads(m, at, r, Name(r.owner.text, at + |r.owner.bytes|));
  }

  // -------------------------------------------------------------- the cuts

  /** A record cut off after its owner is no record, and no fault. */
  lemma BodyCutStops(p: seq<Byte>, m: seq<Byte>, at: nat, owner: Name, r: Record)
    requires p <= m && GoodRecord(r) && Stands(m, owner.after, BodyWire(r))
    requires NameAt(p, at) == Ok(owner) && |p| < owner.after + |BodyWire(r)|
    ensures EntryAt(p, at) == Ok(None)
  {
    BodyStands(m, owner.after, r);
    hide NameAt, BodyWire, Stands;
    if owner.after + 10 <= |p| {
      assert U16At(p, owner.after + 8) == U16At(m, owner.after + 8);
    }
  }

  /** What one record of a cut answer is read as, its owner standing first. */
  lemma EntryOfCut(p: seq<Byte>, m: seq<Byte>, at: nat, r: Record, name: Name)
    requires p <= m && GoodRecord(r) && NameAt(m, at) == Ok(name) && Stands(m, name.after, BodyWire(r))
    requires |p| < name.after || NameAt(p, at) == Ok(name)
    ensures var end := name.after + |BodyWire(r)|;
            if |p| < name.after then EntryAt(p, at).Err?
            else if |p| < end then EntryAt(p, at) == Ok(None)
            else EntryAt(p, at) == Ok(Some(Entry(name.text, r.kind, r.class_, r.rdata, end)))
  {
    if |p| < name.after {
      NameCutFails(p, m, at, name);
    } else if |p| < name.after + |BodyWire(r)| {
      BodyCutStops(p, m, at, name, r);
    } else {
      StandsInCut(p, m, name.after, BodyWire(r));
      BodyReads(p, at, r, name);
    }
  }

  lemma {:induction false} QuestionsOfCut(p: seq<Byte>, m: seq<Byte>, at: nat, questions: seq<Question>)
    requires p <= m && at <= |p| && QuestionsLegible(m, at, questions)
    ensures var end := at + |QuestionsWire(questions)|;
            if end <= |p| then SkipQuestions(p, at, |questions|) == Ok(end)
            else SkipQuestions(p, at, |questions|).Err?
    decreases |questions|
  {
    hide NameAt, Legible, U16Bytes;
    if questions != [] {
      var name, rest := questions[0].name, questions[1..];
      OwnerReads(p, m, at, name);
      if at + |name.bytes| + 4 <= |p| {
        QuestionsOfCut(p, m, at + |name.bytes| + 4, rest);
      }
    }
  }

  lemma OwnedUnrolls(values: seq<string>, records: seq<Record>, k: nat, wanted: string, end: nat)
    requires records != [] && k < |records|
    ensures var r := records[0];
            Taking(values, Entry(r.owner.text, r.kind, r.class_, r.rdata, end), wanted)
            + Owned(records[1..][..k], wanted) == values + Owned(records[..k + 1], wanted)
  {
    hide Fold, CharacterStrings;
    assert records[..k + 1][1..] == records[1..][..k];
  }

  lemma RecordSplits(m: seq<Byte>, at: nat, r: Record)
    requires GoodRecord(r) && Stands(m, at, RecordWire(r))
    ensures |RecordWire(r)| == |r.owner.bytes| + |BodyWire(r)|
    ensures Stands(m, at, r.owner.bytes) && Stands(m, at + |r.owner.bytes|, BodyWire(r))
  {
    hide BodyWire, Stands;
    StandsSplit(m, at, r.owner.bytes, BodyWire(r));
  }

  /** The record loop over a cut answer takes the values of the records that
      are whole, unless the cut is in an owner. */
  lemma {:induction false} RecordsOfCut(p: seq<Byte>, m: seq<Byte>, at: nat, records: seq<Record>, wanted: string,
                                        values: seq<string>)
    requires p <= m && forall k :: 0 <= k < |records| ==> GoodRecord(records[k])
    requires RecordsLegible(m, at, records) && Stands(m, at, RecordsWire(records))
    ensures match WholeRecords(records, at, |p|)
            case None => Records(p, at, |records|, wanted, values).Err?
            case Some(k) => Records(p, at, |records|, wanted, values) == Ok(values + Owned(records[..k], wanted))
    decreases |records|
  {
    hide RecordWire, BodyWire, EntryAt, Stands, Fold, Taking, Owned, Legible;
    if records == [] {
      NothingOwned(values, records, wanted);
    } else {
      var r, rest := records[0], records[1..];
      var end := at + |RecordWire(r)|;
      StandsSplit(m, at, RecordWire(r), RecordsWire(rest));
      RecordSplits(m, at, r);
      OwnerReads(p, m, at, r.owner);
      EntryOfCut(p, m, at, r, Name(r.owner.text, at + |r.owner.bytes|));
      if end <= |p| {
        var e := Entry(r.owner.text, r.kind, r.class_, r.rdata, end);
        RecordsOfCut(p, m, end, rest, wanted, Taking(values, e, wanted));
        var k := WholeRecords(rest, end, |p|);
        if k.Some? {
          OwnedUnrolls(values, records, k.value, wanted, end);
        }
      } else {
        NothingOwned(values, records, wanted);
      }
    }
  }

  lemma NothingOwned(values: seq<string>, records: seq<Record>, wanted: string)
    ensures values + Owned(records[..0], wanted) == values
  {
  }

  // ----------------------------------------------------------- whole answers

  lemma HeaderStands(m: seq<Byte>, id: U16, flags: Flags, questions: U16, answers: U16)
    requires |flags.counts| == 4 && Stands(m, 0, Header(id, flags, questions, answers))
    ensures |m| >= HEADER_LEN && U16At(m, 0) == id && m[2] == flags.high && m[3] == flags.low
    ensures U16At(m, 4) == questions && U16At(m, 6) == answers
  {
    hide U16Bytes, U16At;
    var start, asked, found := U16Bytes(id), U16Bytes(questions), U16Bytes(answers);
    var bits := [flags.high, flags.low];
    StandsSplit(m, 0, start + bits + asked + found, flags.counts);
    StandsSplit(m, 0, start + bits + asked, found);
    StandsSplit(m, 0, start + bits, asked);
    StandsSplit(m, 0, start, bits);
    U16ReadsBack(m, 0, id);
    U16ReadsBack(m, 4, questions);
    U16ReadsBack(m, 6, answers);
    var w := m[2..4];
    assert w[0] == m[2] && w[1] == m[3];
  }

  lemma WholeStands(m: seq<Byte>)
    ensures Stands(m, 0, m)
  {
    assert m[0..|m|] == m;
  }

  lemma HeaderLength(id: U16, flags: Flags, questions: U16, answers: U16)
    requires |flags.counts| == 4
    ensures |Header(id, flags, questions, answers)| == HEADER_LEN
  {
  }

  /** Where the parts of an answer stand. */
  lemma AnswerStands(m: seq<Byte>, id: U16, flags: Flags, questions: seq<Question>, records: seq<Record>,
                     after: seq<Byte>)
    requires CanAnswer(flags, questions, records) && m == Answer(id, flags, questions, records, after)
    ensures Stands(m, 0, Header(id, flags, |questions|, |records|))
    ensures Stands(m, HEADER_LEN, QuestionsWire(questions))
    ensures Stands(m, HEADER_LEN + |QuestionsWire(questions)|, RecordsWire(records))
  {
    hide RecordsWire, QuestionsWire, Stands, Header, GoodRecord;
    var header, asked := Header(id, flags, |questions|, |records|), QuestionsWire(questions);
    HeaderLength(id, flags, |questions|, |records|);
    WholeStands(m);
    StandsSplit(m, 0, header, asked + (RecordsWire(records) + after));
    StandsSplit(m, HEADER_LEN, asked, RecordsWire(records) + after);
    StandsSplit(m, HEADER_LEN + |asked|, RecordsWire(records), after);
  }

  lemma AnswerLength(id: U16, flags: Flags, questions: seq<Question>, records: seq<Record>, after: seq<Byte>)
    requires CanAnswer(flags, questions, records)
    ensures |Answer(id, flags, questions, records, after)|
         == HEADER_LEN + |QuestionsWire(questions)| + |RecordsWire(records)| + |after|
  {
    hide RecordsWire, QuestionsWire, Header, GoodRecord;
    HeaderLength(id, flags, |questions|, |records|);
  }

  lemma HeaderCut(p: seq<Byte>, m: seq<Byte>)
    requires p <= m && HEADER_LEN <= |p|
    ensures U16At(p, 0) == U16At(m, 0) && U16At(p, 4) == U16At(m, 4) && U16At(p, 6) == U16At(m, 6)
    ensures p[2] == m[2] && p[3] == m[3]
  {
  }

  /** What reading the header, the questions and the records comes to. */
  lemma ReadingComesTo(p: seq<Byte>, id: U16, name: string, flags: Flags, asked: nat, answers: nat)
    requires |p| >= HEADER_LEN && U16At(p, 0) == id && p[2] == flags.high >= 0x80 && p[3] == flags.low
    requires U16At(p, 4) == asked && U16At(p, 6) == answers
    ensures ReadTxt(p, id, name).Ok? <==>
            && SkipQuestions(p, HEADER_LEN, asked).Ok?
            && Records(p, SkipQuestions(p, HEADER_LEN, asked).value, answers, Fold(name), []).Ok?
    ensures ReadTxt(p, id, name).Ok? ==>
              ReadTxt(p, id, name).value ==
              Reply(flags.low as int % 0x10, flags.high as int / 2 % 2 == 1,
                    Records(p, SkipQuestions(p, HEADER_LEN, asked).value, answers, Fold(name), []).value)
  {
    hide SkipQuestions, Records, Fold, U16At;
  }

  /** What is left of an answer is read exactly when the questions are whole
      and the cut is not in, or right before, the owner of a record. */
  lemma CutReads(p: seq<Byte>, m: seq<Byte>, id: U16, flags: Flags, questions: seq<Question>, records: seq<Record>,
                 name: string)
    requires CanAnswer(flags, questions, records) && p <= m && HEADER_LEN <= |p|
    requires Stands(m, 0, Header(id, flags, |questions|, |records|))
    requires Stands(m, HEADER_LEN + |QuestionsWire(questions)|, RecordsWire(records))
    requires AllLegible(m, questions, records)
    ensures var start := HEADER_LEN + |QuestionsWire(questions)|;
            if |p| < start || WholeRecords(records, start, |p|).None? then ReadTxt(p, id, name).Err?
            else
              var whole := records[..WholeRecords(records, start, |p|).value];
              ReadTxt(p, id, name)
              == Ok(Reply(flags.low as int % 0x10, flags.high as int / 2 % 2 == 1, Owned(whole, Fold(name))))
  {
    hide Header, RecordsWire, QuestionsWire, Owned, Records, Stands, Fold, U16At, SkipQuestions, ReadTxt, GoodRecord,
      WholeRecords, QuestionsLegible, RecordsLegible;
    HeaderStands(m, id, flags, |questions|, |records|);
    HeaderCut(p, m);
    ReadingComesTo(p, id, name, flags, |questions|, |records|);
    QuestionsOfCut(p, m, HEADER_LEN, questions);
    var start := HEADER_LEN + |QuestionsWire(questions)|;
    if start <= |p| {
      RecordsOfCut(p, m, start, records, Fold(name), []);
      AppendNothing(records, start, |p|, name);
    }
  }

  /** An answer cut off after its first `n` bytes is read exactly when the
      questions are whole and the cut is not in, or right before, the owner of
      a record: it then gives the values of the records that are whole. */
  lemma CutAnswerReads(id: U16, flags: Flags, questions: seq<Question>, records: seq<Record>, after: seq<Byte>,
                       name: string, n: nat)
    requires CanAnswer(flags, questions, records) && n <= |Answer(id, flags, questions, records, after)|
    requires AllLegible(Answer(id, flags, questions, records, after), questions, records)
    ensures var start := HEADER_LEN + |QuestionsWire(questions)|;
            var read := ReadTxt(Answer(id, flags, questions, records, after)[..n], id, name);
            if n < start || WholeRecords(records, start, n).None? then read.Err?
            else
              var whole := records[..WholeRecords(records, start, n).value];
              read == Ok(Reply(flags.low as int % 0x10, flags.high as int / 2 % 2 == 1, Owned(whole, Fold(name))))
  {
    hide *;
    var m := Answer(id, flags, questions, records, after);
    if n < HEADER_LEN {
      TooShort(m[..n], id, name);
    } else {
      AnswerStands(m, id, flags, questions, records, after);
      CutReads(m[..n], m, id, flags, questions, records, name);
    }
  }

  lemma TooShort(p: seq<Byte>, id: U16, name: string)
    requires |p| < HEADER_LEN
    ensures ReadTxt(p, id, name).Err?
  {
  }

  lemma AppendNothing(records: seq<Record>, start: nat, n: nat, name: string)
    requires forall k :: 0 <= k < |records| ==> GoodRecord(records[k])
    ensures var k := WholeRecords(records, start, n);
            k.Some? ==> [] + Owned(records[..k.value], Fold(name)) == Owned(records[..k.value], Fold(name))
  {
  }

  lemma {:induction false} AllWhole(records: seq<Record>, at: nat, n: nat)
    requires forall k :: 0 <= k < |records| ==> GoodRecord(records[k])
    requires at + |RecordsWire(records)| <= n
    ensures WholeRecords(records, at, n) == Some(|records|)
  {
    hide BodyWire;
    if records != [] {
      assert GoodRecord(records[0]);
      AllWhole(records[1..], at + |RecordWire(records[0])|, n);
    }
  }

  lemma WholeAnswer(id: U16, flags: Flags, questions: seq<Question>, records: seq<Record>, after: seq<Byte>)
    requires CanAnswer(flags, questions, records)
    ensures var start := HEADER_LEN + |QuestionsWire(questions)|;
            var n := |Answer(id, flags, questions, records, after)|;
            start <= n && WholeRecords(records, start, n) == Some(|records|)
  {
    hide Answer, QuestionsWire, RecordsWire, GoodRecord, WholeRecords;
    AnswerLength(id, flags, questions, records, after);
    AllWhole(records, HEADER_LEN + |QuestionsWire(questions)|, |Answer(id, flags, questions, records, after)|);
  }

  /** An answer reads back as it was built, whatever its questions and however
      its names are written: the response code, the truncation bit, and in order
      exactly the TXT records of class IN whose owner is the name wanted.
      Sections after the answers are never mistaken for one. */
  lemma AnswerReads(id: U16, flags: Flags, questions: seq<Question>, records: seq<Record>, after: seq<Byte>,
                    name: string)
    requires CanAnswer(flags, questions, records)
    requires AllLegible(Answer(id, flags, questions, records, after), questions, records)
    ensures ReadTxt(Answer(id, flags, questions, records, after), id, name)
         == Ok(Reply(flags.low as int % 0x10, flags.high as int / 2 % 2 == 1, Owned(records, Fold(name))))
  {
    hide *;
    WholeAnswer(id, flags, questions, records, after);
    var m := Answer(id, flags, questions, records, after);
    CutAnswerReads(id, flags, questions, records, after, name, |m|);
    assert m[..|m|] == m && records[..|records|] == records;
  }

  /** `texts[k]` is what was published in `records[k]`, where that answers. */
  ghost predicate Carry(records: seq<Record>, texts: seq<string>, wanted: string) {
    && |records| == |texts|
    && forall k :: 0 <= k < |records| && Answers(records[k], wanted) ==>
                     records[k].rdata == TxtData(Encode(texts[k]))
  }

  /** The texts published under the name wanted, in order. */
  function Told(records: seq<Record>, texts: seq<string>, wanted: string): seq<string>
    requires |records| == |texts|
  {
    if records == [] then []
    else
      (if Answers(records[0], wanted) then [texts[0]] else [])
      + Told(records[1..], texts[1..], wanted)
  }

  ghost predicate Uncut(texts: seq<string>) {
    forall k :: 0 <= k < |texts| ==> CutsBetweenChars(Encode(texts[k]))
  }

  /** From the values a server was given to the values the reader gives: what
      was published under the name is read back, all of it and in order, exactly
      when no value is split inside a character. */
  lemma PublishedIsRead(id: U16, flags: Flags, questions: seq<Question>, records: seq<Record>, after: seq<Byte>,
                        name: string, texts: seq<string>)
    requires CanAnswer(flags, questions, records)
    requires AllLegible(Answer(id, flags, questions, records, after), questions, records)
    requires Carry(records, texts, Fold(name))
    ensures var told := Told(records, texts, Fold(name));
            ReadTxt(Answer(id, flags, questions, records, after), id, name)
            == Ok(Reply(flags.low as int % 0x10, flags.high as int / 2 % 2 == 1, told))
            <==> Uncut(told)
  {
    AnswerReads(id, flags, questions, records, after, name);
    hide *;
    OwnedIsTold(records, texts, Fold(name));
  }

  lemma {:induction false} OwnedIsTold(records: seq<Record>, texts: seq<string>, wanted: string)
    requires Carry(records, texts, wanted)
    ensures Owned(records, wanted) == Told(records, texts, wanted)
            <==> Uncut(Told(records, texts, wanted))
  {
    hide CharacterStrings, CutsBetweenChars, TxtData, Answers;
    if records != [] {
      var rest, more := Owned(records[1..], wanted), Told(records[1..], texts[1..], wanted);
      OwnedIsTold(records[1..], texts[1..], wanted);
      if Answers(records[0], wanted) {
        ValueReadsBackExactly(texts[0]);
        ConsUncut(texts[0], more);
        var value := CharacterStrings(records[0].rdata);
        assert ([value] + rest)[0] == value && ([value] + rest)[1..] == rest;
        assert ([texts[0]] + more)[0] == texts[0] && ([texts[0]] + more)[1..] == more;
      } else {
        assert [] + rest == rest && [] + more == more;
      }
    }
  }

  lemma ConsUncut(text: string, texts: seq<string>)
    ensures Uncut([text] + texts) <==> CutsBetweenChars(Encode(text)) && Uncut(texts)
  {
    hide CutsBetweenChars, Encode;
    var all := [text] + texts;
    assert all[0] == text && forall k :: 0 <= k < |texts| ==> all[k + 1] == texts[k];
  }

  /** A cut that falls exactly between two records is a fault, and what came
      before it is not given, though one inside a record's data would not be. */
  lemma CutBetweenRecordsFails(id: U16, flags: Flags, questions: seq<Question>, records: seq<Record>,
                               after: seq<Byte>, name: string, k: nat)
    requires CanAnswer(flags, questions, records) && k < |records|
    requires AllLegible(Answer(id, flags, questions, records, after), questions, records)
    ensures var n := HEADER_LEN + |QuestionsWire(questions)| + |RecordsWire(records[..k])|;
            var m := Answer(id, flags, questions, records, after);
            n <= |m| && ReadTxt(m[..n], id, name).Err?
  {
    hide *;
    BoundaryCut(id, flags, questions, records, after, k);
    var n := HEADER_LEN + |QuestionsWire(questions)| + |RecordsWire(records[..k])|;
    CutAnswerReads(id, flags, questions, records, after, name, n);
  }

  lemma BoundaryCut(id: U16, flags: Flags, questions: seq<Question>, records: seq<Record>, after: seq<Byte>, k: nat)
    requires CanAnswer(flags, questions, records) && k < |records|
    ensures forall i :: 0 <= i < k ==> GoodRecord(records[..k][i])
    ensures var start := HEADER_LEN + |QuestionsWire(questions)|;
            var n := start + |RecordsWire(records[..k])|;
            && n <= |Answer(id, flags, questions, records, after)|
            && WholeRecords(records, start, n).None?
  {
    hide Answer, QuestionsWire, RecordsWire, GoodRecord, WholeRecords;
    AnswerLength(id, flags, questions, records, after);
    NoneAtBoundary(records, HEADER_LEN + |QuestionsWire(questions)|, k);
  }

  lemma {:induction false} NoneAtBoundary(records: seq<Record>, at: nat, k: nat)
    requires k < |records| && forall i :: 0 <= i < |records| ==> GoodRecord(records[i])
    ensures |RecordsWire(records[..k])| <= |RecordsWire(records)|
    ensures WholeRecords(records, at, at + |RecordsWire(records[..k])|).None?
  {
    hide BodyWire;
    var r := records[0];
    assert GoodRecord(r);
    if k > 0 {
      NoneAtBoundary(records[1..], at + |RecordWire(r)|, k - 1);
      assert records[..k][1..] == records[1..][..k - 1];
    }
  }

  // -------------------------------------------------- how names are written

  lemma {:induction false} SpellsOn(p: seq<Byte>, m: seq<Byte>, at: nat, shape: Shape)
    requires p <= m && Spells(p, at, shape)
    ensures Spells(m, at, shape)
    decreases shape
  {
    hide Target;
    match shape
    case Root =>
    case Label(bytes, rest) =>
      var to := at + 1 + |bytes|;
      assert m[at + 1..to] == p[at + 1..to];
      SpellsOn(p, m, to, rest);
    case Pointer(target, rest) => SpellsOn(p, m, target, rest);
  }

  /** A name spelled out. */
  function Plain(name: string): NameWire
    requires EncodeName(name).Ok?
  {
    NameWire(EncodeName(name).value, TrimDots(name))
  }

  lemma LegibleBy(m: seq<Byte>, at: nat, n: NameWire, shape: Shape, jumps: nat)
    requires at + |n.bytes| <= |m| && Spells(m[..at + |n.bytes|], at, shape) && Jumps(shape) <= jumps
    requires NameText(shape, []) == n.text && StreamEnd(at, shape) == at + |n.bytes|
    ensures LegibleWithin(m, at, n, jumps)
  {
    hide Spells, NameText, StreamEnd, Jumps;
    assert SpellsWithin(m[..at + |n.bytes|], at, Name(n.text, at + |n.bytes|), shape, jumps);
  }

  lemma ShapeOf(m: seq<Byte>, at: nat, n: NameWire, jumps: nat) returns (shape: Shape)
    requires LegibleWithin(m, at, n, jumps)
    ensures at + |n.bytes| <= |m| && Spells(m[..at + |n.bytes|], at, shape) && Jumps(shape) <= jumps
    ensures NameText(shape, []) == n.text && StreamEnd(at, shape) == at + |n.bytes|
  {
    hide Spells, NameText, StreamEnd, Jumps;
    shape :| SpellsWithin(m[..at + |n.bytes|], at, Name(n.text, at + |n.bytes|), shape, jumps);
  }

  lemma PlainIsLegible(m: seq<Byte>, at: nat, name: string)
    requires EncodeName(name).Ok? && Stands(m, at, EncodeName(name).value)
    ensures LegibleWithin(m, at, Plain(name), 0)
  {
    hide EncodeName, Spells, LegibleWithin, NameText, StreamEnd, Jumps;
    var w := EncodeName(name).value;
    var p := m[..at + |w|];
    StandsInCut(p, m, at, w);
    var shape := EncodedSpells(p, at, name);
    LegibleBy(m, at, Plain(name), shape, 0);
  }

  /** A pointer to where a name already stands. */
  lemma PointedIsLegible(m: seq<Byte>, at: nat, target: nat, n: NameWire, jumps: nat)
    requires target < 0x4000 && Stands(m, at, PointerBytes(target))
    requires LegibleWithin(m, target, n, jumps) && target + |n.bytes| <= at
    ensures LegibleWithin(m, at, NameWire(PointerBytes(target), n.text), jumps + 1)
  {
    hide Spells, LegibleWithin, NameText, PointerBytes;
    PointersTakeTwo(target);
    var p, q := m[..at + 2], m[..target + |n.bytes|];
    StandsInCut(p, m, at, PointerBytes(target));
    var shape := ShapeOf(m, target, n, jumps);
    PrefixOfPrefix(m, target + |n.bytes|, at + 2);
    SpellsOn(q, p, target, shape);
    PointerSpells(p, at, target, shape);
    PointerTurnsInto(at, target, shape);
    LegibleBy(m, at, NameWire(PointerBytes(target), n.text), Pointer(target, shape), jumps + 1);
  }

  /** Labels of one's own, then a pointer to where another name stands. */
  lemma SharedIsLegible(m: seq<Byte>, at: nat, prefix: string, target: nat, n: NameWire, jumps: nat)
    requires WireLabels(Split(prefix)).Ok? && target < 0x4000
    requires Stands(m, at, WireLabels(Split(prefix)).value + PointerBytes(target))
    requires LegibleWithin(m, target, n, jumps) && target + |n.bytes| <= at && n.text != []
    ensures LegibleWithin(m, at, NameWire(WireLabels(Split(prefix)).value + PointerBytes(target),
                                          prefix + "." + n.text), jumps + 1)
  {
    hide Spells, WireLabels, Split, PointerBytes, LegibleWithin, NameText, StreamEnd, Jumps, Stands;
    var wire := WireLabels(Split(prefix)).value + PointerBytes(target);
    StandsFits(m, at, wire);
    var p, q := m[..at + |wire|], m[..target + |n.bytes|];
    StandsInCut(p, m, at, wire);
    var shape := ShapeOf(m, target, n, jumps);
    PrefixOfPrefix(m, target + |n.bytes|, at + |wire|);
    SpellsOn(q, p, target, shape);
    var whole := SharedSpells(p, at, prefix, target, shape);
    LegibleBy(m, at, NameWire(wire, prefix + "." + n.text), whole, jumps + 1);
  }

  lemma SharedSpells(m: seq<Byte>, at: nat, prefix: string, target: nat, shape: Shape) returns (whole: Shape)
    requires WireLabels(Split(prefix)).Ok? && target < 0x4000
    requires Stands(m, at, WireLabels(Split(prefix)).value + PointerBytes(target))
    requires Spells(m, target, shape) && NameText(shape, []) != []
    ensures Spells(m, at, whole) && Jumps(whole) == Jumps(shape) + 1
    ensures NameText(whole, []) == prefix + "." + NameText(shape, [])
    ensures StreamEnd(at, whole) == at + |WireLabels(Split(prefix)).value + PointerBytes(target)|
  {
    hide *;
    var labels := Split(prefix);
    var wire := WireLabels(labels).value;
    StandsSplit(m, at, wire, PointerBytes(target));
    SplitJoins(prefix);
    SplitOfNothing(prefix);
    whole := PointerAfterLabels(m, at, labels, target, shape);
  }

  lemma PointerAfterLabels(m: seq<Byte>, at: nat, labels: seq<string>, target: nat, shape: Shape)
    returns (whole: Shape)
    requires labels != [] && WireLabels(labels).Ok? && target < 0x4000
    requires Stands(m, at, WireLabels(labels).value)
    requires Stands(m, at + |WireLabels(labels).value|, PointerBytes(target))
    requires Spells(m, target, shape) && Join(labels) != [] && NameText(shape, []) != []
    ensures Spells(m, at, whole) && Jumps(whole) == Jumps(shape) + 1
    ensures NameText(whole, []) == Join(labels) + "." + NameText(shape, [])
    ensures StreamEnd(at, whole) == at + |WireLabels(labels).value| + |PointerBytes(target)|
  {
    hide WireLabels, Stands, Join, Spells, NameText, LabelShape, Joined, PointerBytes, Split;
    var end := at + |WireLabels(labels).value|;
    var tail := Pointer(target, shape);
    PointerSpells(m, end, target, shape);
    LabelsSpell(m, at, labels, tail, end);
    LabelsShape(at, labels, tail);
    SharedText(m, labels, target, shape);
    PointersTakeTwo(target);
    whole := LabelShape(labels, tail);
  }

  lemma PrefixOfPrefix(m: seq<Byte>, i: nat, j: nat)
    requires i <= j <= |m|
    ensures m[..i] <= m[..j]
  {
  }

  lemma StandsFits(m: seq<Byte>, at: nat, w: seq<Byte>)
    requires Stands(m, at, w)
    ensures at + |w| <= |m|
  {
  }

  lemma PointerTurnsInto(at: nat, target: nat, shape: Shape)
    ensures Jumps(Pointer(target, shape)) == Jumps(shape) + 1
    ensures NameText(Pointer(target, shape), []) == NameText(shape, [])
    ensures StreamEnd(at, Pointer(target, shape)) == at + 2
  {
  }

  lemma PointersTakeTwo(target: nat)
    requires target < 0x4000
    ensures |PointerBytes(target)| == 2
  {
  }

  lemma MoreJumps(m: seq<Byte>, at: nat, n: NameWire, jumps: nat)
    requires LegibleWithin(m, at, n, jumps) && jumps <= MAX_JUMPS
    ensures Legible(m, at, n)
  {
    hide LegibleWithin;
    var shape := ShapeOf(m, at, n, jumps);
    LegibleBy(m, at, n, shape, MAX_JUMPS);
  }

  ghost predicate IsPlain(n: NameWire) {
    exists name :: EncodeName(name).Ok? && n == Plain(name)
  }

  /** The name of the first question, by a pointer to it. */
  predicate EchoesFirst(n: NameWire, questions: seq<Question>) {
    questions != [] && n == NameWire(PointerBytes(HEADER_LEN), questions[0].name.text)
  }

  /** What a plain server writes: questions spelled out, and owners spelled out
      or pointing to the first question. */
  ghost predicate PlainlyServed(questions: seq<Question>, records: seq<Record>) {
    && (forall k :: 0 <= k < |questions| ==> IsPlain(questions[k].name))
    && forall k :: 0 <= k < |records| ==> IsPlain(records[k].owner) || EchoesFirst(records[k].owner, questions)
  }

  /** All of that is legible, so `AnswerReads` and what follows from it hold of
      every such answer without looking at its bytes. */
  lemma PlainlyServedIsLegible(id: U16, flags: Flags, questions: seq<Question>, records: seq<Record>, after: seq<Byte>)
    requires CanAnswer(flags, questions, records) && PlainlyServed(questions, records)
    ensures AllLegible(Answer(id, flags, questions, records, after), questions, records)
  {
    hide Answer, RecordsWire, QuestionsWire, Stands, Header, IsPlain, EchoesFirst, QuestionsLegible, RecordsLegible,
      GoodRecord;
    var m := Answer(id, flags, questions, records, after);
    AnswerStands(m, id, flags, questions, records, after);
    PlainQuestions(m, HEADER_LEN, questions);
    ServedRecords(m, HEADER_LEN + |QuestionsWire(questions)|, questions, records);
  }

  lemma PlainName(m: seq<Byte>, at: nat, n: NameWire)
    requires IsPlain(n) && Stands(m, at, n.bytes)
    ensures LegibleWithin(m, at, n, 0) && Legible(m, at, n)
  {
    hide EncodeName, LegibleWithin, Stands;
    var name :| EncodeName(name).Ok? && n == Plain(name);
    PlainIsLegible(m, at, name);
    MoreJumps(m, at, n, 0);
  }

  lemma {:induction false} PlainQuestions(m: seq<Byte>, at: nat, questions: seq<Question>)
    requires forall k :: 0 <= k < |questions| ==> IsPlain(questions[k].name)
    requires Stands(m, at, QuestionsWire(questions))
    ensures QuestionsLegible(m, at, questions)
    decreases |questions|
  {
    hide Stands, IsPlain, U16Bytes, Legible;
    if questions != [] {
      QuestionSplits(m, at, questions);
      PlainName(m, at, questions[0].name);
      PlainQuestions(m, at + |questions[0].name.bytes| + 4, questions[1..]);
    }
  }

  lemma QuestionSplits(m: seq<Byte>, at: nat, questions: seq<Question>)
    requires questions != [] && Stands(m, at, QuestionsWire(questions))
    ensures Stands(m, at, questions[0].name.bytes)
    ensures Stands(m, at + |questions[0].name.bytes| + 4, QuestionsWire(questions[1..]))
    ensures |questions[0].name.bytes| + 4 <= |QuestionsWire(questions)|
  {
    hide Stands, U16Bytes;
    var q := questions[0];
    var kind := U16Bytes(q.kind) + U16Bytes(q.class_);
    StandsSplit(m, at, q.name.bytes + kind, QuestionsWire(questions[1..]));
    StandsSplit(m, at, q.name.bytes, kind);
  }

  lemma ServedName(m: seq<Byte>, at: nat, questions: seq<Question>, n: NameWire)
    requires IsPlain(n) || EchoesFirst(n, questions)
    requires forall k :: 0 <= k < |questions| ==> IsPlain(questions[k].name)
    requires Stands(m, HEADER_LEN, QuestionsWire(questions)) && HEADER_LEN + |QuestionsWire(questions)| <= at
    requires Stands(m, at, n.bytes)
    ensures Legible(m, at, n)
  {
    hide Stands, IsPlain, Legible, LegibleWithin, QuestionsWire, PointerBytes;
    if IsPlain(n) {
      PlainName(m, at, n);
    } else {
      QuestionSplits(m, HEADER_LEN, questions);
      PlainName(m, HEADER_LEN, questions[0].name);
      PointedIsLegible(m, at, HEADER_LEN, questions[0].name, 0);
      MoreJumps(m, at, n, 1);
    }
  }

  lemma {:induction false} ServedRecords(m: seq<Byte>, at: nat, questions: seq<Question>, records: seq<Record>)
    requires forall k :: 0 <= k < |records| ==> GoodRecord(records[k])
    requires PlainlyServed(questions, records)
    requires Stands(m, HEADER_LEN, QuestionsWire(questions)) && HEADER_LEN + |QuestionsWire(questions)| <= at
    requires Stands(m, at, RecordsWire(records))
    ensures RecordsLegible(m, at, records)
    decreases |records|
  {
    hide Stands, IsPlain, EchoesFirst, Legible, RecordWire, QuestionsWire, GoodRecord;
    if records != [] {
      StandsSplit(m, at, RecordWire(records[0]), RecordsWire(records[1..]));
      RecordSplits(m, at, records[0]);
      ServedName(m, at, questions, records[0].owner);
      ServedRecords(m, at + |RecordWire(records[0])|, questions, records[1..]);
    }
  }
}
