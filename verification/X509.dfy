/** The expiry in a certificate: a cursor over DER elements, the path to
    `notAfter` (section 4.1 of RFC 5280) and the two forms of a time in it
    (section 4.1.2.5). */
module X509 {
  import opened Wrappers
  import opened Utf8
  import opened Calendar

  const SEQUENCE: Byte := 0x30
  const INTEGER: Byte := 0x02
  const VERSION: Byte := 0xA0
  const UTC_TIME: Byte := 0x17
  const GENERALIZED_TIME: Byte := 0x18

  // ------------------------------------------------------------ elements

  /** The element at the front of some bytes, and the bytes after it. */
  datatype Element = Element(tag: Byte, contents: seq<Byte>, rest: seq<Byte>)

  function BigEndian(bs: seq<Byte>): nat {
    if bs == [] then 0 else BigEndian(bs[..|bs| - 1]) * 0x100 + bs[|bs| - 1]
  }

  function Split(bytes: seq<Byte>): Option<Element> {
    if |bytes| < 2 then None
    else
      var first := bytes[1];
      if first < 0x80 then Cut(bytes[0], first, bytes[2..])
      else
        var count := first as int - 0x80;
        var rest := bytes[2..];
        if count == 0 || count > 4 || |rest| < count then None
        else Cut(bytes[0], BigEndian(rest[..count]), rest[count..])
  }

  function Cut(tag: Byte, length: nat, rest: seq<Byte>): Option<Element> {
    if |rest| < length then None else Some(Element(tag, rest[..length], rest[length..]))
  }

  /** The bytes that may announce a length: one byte below 0x80, or a count of
      one to four and that many big-endian bytes. */
  ghost predicate Announces(form: seq<Byte>, length: nat) {
    (|form| == 1 && form[0] < 0x80 && form[0] == length)
    || (2 <= |form| <= 5 && form[0] as int == 0x80 + |form| - 1 && BigEndian(form[1..]) == length)
  }

  /** `bytes` are one whole element. */
  ghost predicate IsElement(bytes: seq<Byte>, tag: Byte, contents: seq<Byte>) {
    exists form: seq<Byte> :: Announces(form, |contents|) && bytes == [tag] + form + contents
  }

  lemma SplitsAnnounced(tag: Byte, form: seq<Byte>, contents: seq<Byte>, rest: seq<Byte>)
    requires Announces(form, |contents|)
    ensures Split([tag] + form + contents + rest) == Some(Element(tag, contents, rest))
  {
    var bytes := [tag] + form + contents + rest;
    var after := bytes[2..];
    if |form| == 1 {
      assert after == contents + rest;
    } else {
      var count := |form| - 1;
      assert after == form[1..] + contents + rest;
      assert after[..count] == form[1..] && after[count..] == contents + rest;
    }
  }

  lemma SplitsElement(bytes: seq<Byte>, tag: Byte, contents: seq<Byte>, rest: seq<Byte>)
    requires IsElement(bytes, tag, contents)
    ensures Split(bytes + rest) == Some(Element(tag, contents, rest))
  {
    var form :| Announces(form, |contents|) && bytes == [tag] + form + contents;
    SplitsAnnounced(tag, form, contents, rest);
  }

  /** The bytes that announced the length of the element split off. */
  lemma SplitForm(bytes: seq<Byte>) returns (form: seq<Byte>)
    requires Split(bytes).Some?
    ensures var e := Split(bytes).value;
            Announces(form, |e.contents|) && bytes == [e.tag] + form + e.contents + e.rest
  {
    if bytes[1] < 0x80 {
      form := bytes[1..2];
    } else {
      var count := bytes[1] as int - 0x80;
      form := bytes[1..2 + count];
      assert form[1..] == bytes[2..][..count];
    }
  }

  /** The cursor step is exact: it finds an element with these contents
      when, and only when, one stands at the front. */
  lemma SplitExactly(bytes: seq<Byte>, tag: Byte, contents: seq<Byte>, rest: seq<Byte>)
    ensures Split(bytes) == Some(Element(tag, contents, rest))
       <==> |rest| <= |bytes| && bytes[|bytes| - |rest|..] == rest
            && IsElement(bytes[..|bytes| - |rest|], tag, contents)
  {
    if Split(bytes) == Some(Element(tag, contents, rest)) {
      var form := SplitForm(bytes);
      assert bytes[..|bytes| - |rest|] == [tag] + form + contents;
    }
    if |rest| <= |bytes| && bytes[|bytes| - |rest|..] == rest && IsElement(bytes[..|bytes| - |rest|], tag, contents) {
      assert bytes == bytes[..|bytes| - |rest|] + rest;
      SplitsElement(bytes[..|bytes| - |rest|], tag, contents, rest);
    }
  }

  /** The encoder a certificate is written with: the shortest length form. */
  function Encoded(tag: Byte, contents: seq<Byte>): (bytes: seq<Byte>)
    requires |contents| < 0x1_0000_0000
  {
    var n := |contents|;
    [tag] + (
      if n < 0x80 then [n]
      else if n < 0x100 then [0x81, n]
      else if n < 0x1_0000 then [0x82, n / 0x100, n % 0x100]
      else if n < 0x100_0000 then [0x83, n / 0x1_0000, n / 0x100 % 0x100, n % 0x100]
      else [0x84, n / 0x100_0000, n / 0x1_0000 % 0x100, n / 0x100 % 0x100, n % 0x100]
    ) + contents
  }

  lemma BigEndianBytes(a: Byte, b: Byte, c: Byte, d: Byte)
    ensures BigEndian([a]) == a
    ensures BigEndian([a, b]) == a * 0x100 + b
    ensures BigEndian([a, b, c]) == (a * 0x100 + b) * 0x100 + c
    ensures BigEndian([a, b, c, d]) == ((a * 0x100 + b) * 0x100 + c) * 0x100 + d
  {
    assert [a][..0] == [] && [a, b][..1] == [a] && [a, b, c][..2] == [a, b] && [a, b, c, d][..3] == [a, b, c];
  }

  lemma EncodedIsElement(tag: Byte, contents: seq<Byte>)
    requires |contents| < 0x1_0000_0000
    ensures IsElement(Encoded(tag, contents), tag, contents)
  {
    var n := |contents|;
    var q := n / 0x100;
    var r := q / 0x100;
    assert n / 0x1_0000 == r && n / 0x100_0000 == r / 0x100;
    var bytes := Encoded(tag, contents);
    var form := bytes[1..|bytes| - n];
    assert bytes == [tag] + form + contents;
    assert Announces(form, n) by {
      if n < 0x80 {
      } else if n < 0x100 {
        BigEndianBytes(n, 0, 0, 0);
        assert form[1..] == [n];
      } else if n < 0x1_0000 {
        BigEndianBytes(q, n % 0x100, 0, 0);
        assert form[1..] == [q, n % 0x100];
      } else if n < 0x100_0000 {
        BigEndianBytes(r, q % 0x100, n % 0x100, 0);
        assert form[1..] == [r, q % 0x100, n % 0x100];
      } else {
        BigEndianBytes(r / 0x100, r % 0x100, q % 0x100, n % 0x100);
        assert form[1..] == [r / 0x100, r % 0x100, q % 0x100, n % 0x100];
      }
    }
  }

  /** Encoding any contents below four gigabytes and reading them back. */
  lemma EncodedReadsBack(tag: Byte, contents: seq<Byte>, rest: seq<Byte>)
    requires |contents| < 0x1_0000_0000
    ensures Split(Encoded(tag, contents) + rest) == Some(Element(tag, contents, rest))
  {
    EncodedIsElement(tag, contents);
    SplitsElement(Encoded(tag, contents), tag, contents, rest);
  }

  // --------------------------------------------------------------- times

  datatype Stamp = Stamp(year: int, month: int, day: int, hour: int, minute: int, second: int)

  /** A leap second is let through; a day its month does not have is not. */
  predicate ValidStamp(s: Stamp) {
    ValidDate(Date(s.year, s.month, s.day)) && 0 <= s.hour <= 23 && 0 <= s.minute <= 59 && 0 <= s.second <= 60
  }

  function Seconds(s: Stamp): int {
    DaysFromCivil(s.year, s.month, s.day) * 86_400 + s.hour * 3600 + s.minute * 60 + s.second
  }

  /** Two ASCII digits at `at`, and nothing looser. */
  function Number(text: seq<Byte>, at: nat): (n: Option<int>)
    ensures n.Some? ==> 0 <= n.value <= 99
  {
    if at + 2 <= |text| && IsDigitByte(text[at]) && IsDigitByte(text[at + 1]) then
      Some((text[at] as int - '0' as int) * 10 + (text[at + 1] as int - '0' as int))
    else None
  }

  /** What follows the year: month, day, hour, minute, second and a `Z`. */
  function AfterYear(year: int, rest: seq<Byte>): Option<Stamp> {
    if rest == [] || rest[|rest| - 1] != 'Z' as int then None
    else
      match (Number(rest, 0), Number(rest, 2), Number(rest, 4), Number(rest, 6), Number(rest, 8))
      case (Some(month), Some(day), Some(hour), Some(minute), Some(second)) =>
        if !(1 <= month <= 12) || day < 1 || day > DaysInMonth(year, month)
           || hour > 23 || minute > 59 || second > 60 then None
        else Some(Stamp(year, month, day, hour, minute, second))
      case _ => None
  }

  function ReadStamp(tag: Byte, text: seq<Byte>): Option<Stamp> {
    if Decode(text).None? then None
    else if tag == UTC_TIME && |text| == 13 then
      (match Number(text, 0)
       case None => None
       case Some(short) => AfterYear(if short >= 50 then 1900 + short else 2000 + short, text[2..]))
    else if tag == GENERALIZED_TIME && |text| == 15 then
      (match (Number(text, 0), Number(text, 2))
       case (Some(century), Some(short)) => AfterYear(century * 100 + short, text[4..])
       case _ => None)
    else None
  }

  /** `time`: an X.509 time in epoch seconds. */
  function Time(tag: Byte, text: seq<Byte>): Option<int> {
    match ReadStamp(tag, text)
    case None => None
    case Some(s) => Some(Seconds(s))
  }

  function Pair(n: int): seq<Byte>
    requires 0 <= n <= 99
  {
    [n / 10 + '0' as int, n % 10 + '0' as int]
  }

  /** Which years each form can say. */
  predicate Fits(tag: Byte, s: Stamp) {
    (tag == UTC_TIME && 1950 <= s.year <= 2049) || (tag == GENERALIZED_TIME && 0 <= s.year <= 9999)
  }

  /** The sender's side: a stamp in its one spelling. */
  function Written(tag: Byte, s: Stamp): seq<Byte>
    requires ValidStamp(s) && Fits(tag, s)
  {
    (if tag == UTC_TIME then Pair(s.year % 100) else Pair(s.year / 100) + Pair(s.year % 100))
    + Tail(s)
  }

  function Tail(s: Stamp): seq<Byte>
    requires ValidStamp(s)
  {
    Pair(s.month) + Pair(s.day) + Pair(s.hour) + Pair(s.minute) + Pair(s.second) + ['Z' as int]
  }

  lemma NumberExactly(text: seq<Byte>, at: nat, n: int)
    requires at + 2 <= |text|
    ensures Number(text, at) == Some(n) <==> 0 <= n <= 99 && text[at..at + 2] == Pair(n)
  {
    var a: int, b: int := text[at], text[at + 1];
    assert text[at..at + 2] == [text[at], text[at + 1]];
    if Number(text, at) == Some(n) {
      assert n / 10 == a - '0' as int && n % 10 == b - '0' as int;
    }
  }

  lemma TailExactly(year: int, rest: seq<Byte>, s: Stamp)
    requires |rest| == 11
    ensures AfterYear(year, rest) == Some(s) <==> s.year == year && ValidStamp(s) && rest == Tail(s)
  {
    NumberExactly(rest, 0, s.month);
    NumberExactly(rest, 2, s.day);
    NumberExactly(rest, 4, s.hour);
    NumberExactly(rest, 6, s.minute);
    NumberExactly(rest, 8, s.second);
    assert rest == rest[0..2] + rest[2..4] + rest[4..6] + rest[6..8] + rest[8..10] + [rest[10]];
    if ValidStamp(s) && rest == Tail(s) {
      assert rest[0..2] == Pair(s.month) && rest[2..4] == Pair(s.day) && rest[4..6] == Pair(s.hour);
      assert rest[6..8] == Pair(s.minute) && rest[8..10] == Pair(s.second);
    }
  }

  lemma WrittenIsAscii(tag: Byte, s: Stamp)
    requires ValidStamp(s) && Fits(tag, s)
    ensures Decode(Written(tag, s)).Some?
  {
    AsciiDecodes(Written(tag, s));
  }

  lemma UtcExactly(text: seq<Byte>, s: Stamp)
    requires |text| == 13
    ensures (match Number(text, 0)
             case None => None
             case Some(short) => AfterYear(if short >= 50 then 1900 + short else 2000 + short, text[2..])) == Some(s)
       <==> ValidStamp(s) && Fits(UTC_TIME, s) && text == Written(UTC_TIME, s)
  {
    hide AfterYear, Tail, Number, ValidStamp;
    var rest := text[2..];
    assert text == text[0..2] + rest;
    NumberExactly(text, 0, s.year % 100);
    if Number(text, 0).Some? {
      var short := Number(text, 0).value;
      var year := if short >= 50 then 1900 + short else 2000 + short;
      TailExactly(year, rest, s);
    }
    if ValidStamp(s) && Fits(UTC_TIME, s) && text == Written(UTC_TIME, s) {
      assert text[0..2] == Pair(s.year % 100) && rest == Tail(s);
    }
  }

  lemma GeneralizedExactly(text: seq<Byte>, s: Stamp)
    requires |text| == 15
    ensures (match (Number(text, 0), Number(text, 2))
             case (Some(century), Some(short)) => AfterYear(century * 100 + short, text[4..])
             case _ => None) == Some(s)
       <==> ValidStamp(s) && Fits(GENERALIZED_TIME, s) && text == Written(GENERALIZED_TIME, s)
  {
    var rest := text[4..];
    var c, y := Number(text, 0), Number(text, 2);
    if ValidStamp(s) && Fits(GENERALIZED_TIME, s) && text == Written(GENERALIZED_TIME, s) {
      assert text[0..2] == Pair(s.year / 100) && text[2..4] == Pair(s.year % 100) && rest == Tail(s);
      NumberExactly(text, 0, s.year / 100);
      NumberExactly(text, 2, s.year % 100);
      TailExactly(s.year, rest, s);
    } else if c.Some? && y.Some? {
      TailExactly(c.value * 100 + y.value, rest, s);
      if s.year == c.value * 100 + y.value && ValidStamp(s) && rest == Tail(s) {
        YearReads(text, c.value, y.value, s);
      }
    }
  }

  lemma YearReads(text: seq<Byte>, c: int, y: int, s: Stamp)
    requires |text| == 15 && Number(text, 0) == Some(c) && Number(text, 2) == Some(y)
    requires s.year == c * 100 + y && ValidStamp(s) && text[4..] == Tail(s)
    ensures Fits(GENERALIZED_TIME, s) && text == Written(GENERALIZED_TIME, s)
  {
    NumberExactly(text, 0, c);
    NumberExactly(text, 2, y);
    assert s.year / 100 == c && s.year % 100 == y;
    assert text == text[0..2] + text[2..4] + text[4..];
  }

  lemma WrittenLength(tag: Byte, s: Stamp)
    requires ValidStamp(s) && Fits(tag, s)
    ensures |Written(tag, s)| == if tag == UTC_TIME then 13 else 15
  {
  }

  /** A time is accepted in exactly one spelling: the form's digits of a
      real moment, with the two-digit year window from 1950 to 2049. */
  lemma TimeExactly(tag: Byte, text: seq<Byte>, s: Stamp)
    ensures ReadStamp(tag, text) == Some(s) <==> ValidStamp(s) && Fits(tag, s) && text == Written(tag, s)
  {
    if ValidStamp(s) && Fits(tag, s) {
      WrittenIsAscii(tag, s);
      WrittenLength(tag, s);
    }
    if |text| == 13 {
      UtcExactly(text, s);
    } else if |text| == 15 {
      GeneralizedExactly(text, s);
    }
  }

  predicate Before(s: Stamp, t: Stamp) {
    var a, b := Date(s.year, s.month, s.day), Date(t.year, t.month, t.day);
    Earlier(a, b)
    || (a == b && (s.hour < t.hour || (s.hour == t.hour && (s.minute < t.minute
       || (s.minute == t.minute && s.second < t.second)))))
  }

  /** Without leap seconds, moments and the numbers read out of them are in the
      same order, whichever of the two forms each was written in. */
  lemma TimesKeepOrder(tag: Byte, text: seq<Byte>, s: Stamp, tag': Byte, text': seq<Byte>, s': Stamp)
    requires ReadStamp(tag, text) == Some(s) && ReadStamp(tag', text') == Some(s')
    requires s.second < 60 && s'.second < 60
    ensures Time(tag, text).value < Time(tag', text').value <==> Before(s, s')
    ensures Time(tag, text) == Time(tag', text') <==> s == s'
  {
    TimeExactly(tag, text, s);
    TimeExactly(tag', text', s');
    EarlierIsFewerDays(Date(s.year, s.month, s.day), Date(s'.year, s'.month, s'.day));
    EarlierIsFewerDays(Date(s'.year, s'.month, s'.day), Date(s.year, s.month, s.day));
  }

  // -------------------------------------------------------- certificates

  /** `not_after`, as a function: every step a front element. */
  function NotAfter(der: seq<Byte>): Option<int> {
    match Find(der, SEQUENCE)
    case None => None
    case Some(certificate) =>
      match Find(certificate.contents, SEQUENCE)
      case None => None
      case Some(tbs) => FromFields(tbs.contents)
  }

  /** The front element, if it has the tag expected there. */
  function Find(bytes: seq<Byte>, tag: Byte): Option<Element> {
    match Split(bytes)
    case None => None
    case Some(e) => if e.tag == tag then Some(e) else None
  }

  function FromFields(tbs: seq<Byte>): Option<int> {
    match Split(tbs)
    case None => None
    case Some(first) =>
      var serial := if first.tag == VERSION then Split(first.rest) else Some(first);
      match serial
      case None => None
      case Some(e) => if e.tag == INTEGER then FromAlgorithm(e.rest) else None
  }

  function FromAlgorithm(bytes: seq<Byte>): Option<int> {
    match Find(bytes, SEQUENCE)
    case None => None
    case Some(algorithm) =>
      match Find(algorithm.rest, SEQUENCE)
      case None => None
      case Some(issuer) =>
        match Find(issuer.rest, SEQUENCE)
        case None => None
        case Some(validity) => FromValidity(validity.contents)
  }

  function FromValidity(validity: seq<Byte>): Option<int> {
    match Split(validity)
    case None => None
    case Some(notBefore) =>
      match Split(notBefore.rest)
      case None => None
      case Some(notAfter) => Time(notAfter.tag, notAfter.contents)
  }

  /** A certificate's parts, as bytes: each a whole element, or what may
      follow the last one that matters. */
  datatype Layout = Layout(
    version: seq<Byte>, serial: seq<Byte>, algorithm: seq<Byte>, issuer: seq<Byte>, validity: seq<Byte>,
    notBefore: seq<Byte>, notAfter: seq<Byte>,
    afterValidity: seq<Byte>, afterTimes: seq<Byte>, afterTbs: seq<Byte>, afterCertificate: seq<Byte>)

  ghost predicate HasTag(bytes: seq<Byte>, tag: Byte) {
    exists contents: seq<Byte> :: IsElement(bytes, tag, contents)
  }

  ghost predicate HasAnyTag(bytes: seq<Byte>) {
    exists tag: Byte :: HasTag(bytes, tag)
  }

  /** `der` is a certificate laid out like this, whose expiry is `text`. */
  ghost predicate LaidOut(der: seq<Byte>, l: Layout, tag: Byte, text: seq<Byte>) {
    (l.version == [] || HasTag(l.version, VERSION))
    && HasTag(l.serial, INTEGER) && HasTag(l.algorithm, SEQUENCE) && HasTag(l.issuer, SEQUENCE)
    && HasAnyTag(l.notBefore) && IsElement(l.notAfter, tag, text)
    && IsElement(l.validity, SEQUENCE, l.notBefore + (l.notAfter + l.afterTimes))
    && exists tbs: seq<Byte>, certificate: seq<Byte> ::
         IsElement(tbs, SEQUENCE, l.version + (l.serial + (l.algorithm + (l.issuer + (l.validity + l.afterValidity)))))
         && IsElement(certificate, SEQUENCE, tbs + l.afterTbs)
         && der == certificate + l.afterCertificate
  }

  lemma ValidityReads(l: Layout, tag: Byte, text: seq<Byte>)
    requires HasAnyTag(l.notBefore) && IsElement(l.notAfter, tag, text)
    ensures FromValidity(l.notBefore + (l.notAfter + l.afterTimes)) == Time(tag, text)
  {
    var t :| HasTag(l.notBefore, t);
    var c :| IsElement(l.notBefore, t, c);
    SplitsElement(l.notBefore, t, c, l.notAfter + l.afterTimes);
    SplitsElement(l.notAfter, tag, text, l.afterTimes);
  }

  lemma AlgorithmReads(l: Layout, tag: Byte, text: seq<Byte>)
    requires HasTag(l.algorithm, SEQUENCE) && HasTag(l.issuer, SEQUENCE)
    requires HasAnyTag(l.notBefore) && IsElement(l.notAfter, tag, text)
    requires IsElement(l.validity, SEQUENCE, l.notBefore + (l.notAfter + l.afterTimes))
    ensures FromAlgorithm(l.algorithm + (l.issuer + (l.validity + l.afterValidity))) == Time(tag, text)
  {
    hide Split, IsElement, Time, FromValidity;
    var a :| IsElement(l.algorithm, SEQUENCE, a);
    var i :| IsElement(l.issuer, SEQUENCE, i);
    SplitsElement(l.algorithm, SEQUENCE, a, l.issuer + (l.validity + l.afterValidity));
    SplitsElement(l.issuer, SEQUENCE, i, l.validity + l.afterValidity);
    SplitsElement(l.validity, SEQUENCE, l.notBefore + (l.notAfter + l.afterTimes), l.afterValidity);
    ValidityReads(l, tag, text);
  }

  lemma FieldsRead(l: Layout, tag: Byte, text: seq<Byte>)
    requires l.version == [] || HasTag(l.version, VERSION)
    requires HasTag(l.serial, INTEGER) && HasTag(l.algorithm, SEQUENCE) && HasTag(l.issuer, SEQUENCE)
    requires HasAnyTag(l.notBefore) && IsElement(l.notAfter, tag, text)
    requires IsElement(l.validity, SEQUENCE, l.notBefore + (l.notAfter + l.afterTimes))
    ensures FromFields(l.version + (l.serial + (l.algorithm + (l.issuer + (l.validity + l.afterValidity)))))
         == Time(tag, text)
  {
    hide Split, IsElement, Time, FromAlgorithm;
    var fields := l.algorithm + (l.issuer + (l.validity + l.afterValidity));
    AlgorithmReads(l, tag, text);
    var s :| IsElement(l.serial, INTEGER, s);
    SplitsElement(l.serial, INTEGER, s, fields);
    if l.version == [] {
      assert l.version + (l.serial + fields) == l.serial + fields;
    } else {
      var v :| IsElement(l.version, VERSION, v);
      SplitsElement(l.version, VERSION, v, l.serial + fields);
    }
  }

  /** Every well-formed certificate gives the time in its second validity
      element, with a version field or without one. */
  lemma CertificateReads(der: seq<Byte>, l: Layout, tag: Byte, text: seq<Byte>)
    requires LaidOut(der, l, tag, text)
    ensures NotAfter(der) == Time(tag, text)
  {
    hide Split, IsElement, Time, FromFields, HasTag, HasAnyTag;
    var fields := l.version + (l.serial + (l.algorithm + (l.issuer + (l.validity + l.afterValidity))));
    var tbs: seq<Byte>, certificate: seq<Byte> :|
      IsElement(tbs, SEQUENCE, fields)
      && IsElement(certificate, SEQUENCE, tbs + l.afterTbs) && der == certificate + l.afterCertificate;
    SplitsElement(certificate, SEQUENCE, tbs + l.afterTbs, l.afterCertificate);
    SplitsElement(tbs, SEQUENCE, fields, l.afterTbs);
    FieldsRead(l, tag, text);
  }

  /** The bytes a successful step went past. */
  lemma Passed(bytes: seq<Byte>) returns (front: seq<Byte>)
    requires Split(bytes).Some?
    ensures var e := Split(bytes).value; bytes == front + e.rest && IsElement(front, e.tag, e.contents)
  {
    var e := Split(bytes).value;
    SplitExactly(bytes, e.tag, e.contents, e.rest);
    front := bytes[..|bytes| - |e.rest|];
  }

  lemma ValidityParts(validity: seq<Byte>) returns (notBefore: seq<Byte>, notAfter: seq<Byte>, rest: seq<Byte>,
                                                    tag: Byte, text: seq<Byte>)
    requires FromValidity(validity).Some?
    ensures validity == notBefore + (notAfter + rest)
    ensures HasAnyTag(notBefore) && IsElement(notAfter, tag, text)
    ensures FromValidity(validity) == Time(tag, text)
  {
    notBefore := Passed(validity);
    var e := Split(validity).value;
    assert HasTag(notBefore, e.tag);
    notAfter := Passed(e.rest);
    var f := Split(e.rest).value;
    rest, tag, text := f.rest, f.tag, f.contents;
  }

  /** And nothing else does: bytes with an expiry to read are laid out as a
      certificate, down to the time itself. */
  lemma OnlyCertificatesRead(der: seq<Byte>) returns (l: Layout, tag: Byte, text: seq<Byte>)
    requires NotAfter(der).Some?
    ensures LaidOut(der, l, tag, text) && NotAfter(der) == Time(tag, text)
  {
    hide IsElement, Time, Split, FromValidity;
    var certificate := Passed(der);
    var outer := Split(der).value;
    var tbs := Passed(outer.contents);
    var inner := Split(outer.contents).value;
    var version, serial, fields := SerialParts(inner.contents);
    var algorithm := Passed(fields);
    var a := Split(fields).value;
    var issuer := Passed(a.rest);
    var i := Split(a.rest).value;
    var validity := Passed(i.rest);
    var v := Split(i.rest).value;
    var notBefore, notAfter, afterTimes, timeTag, timeText := ValidityParts(v.contents);
    tag, text := timeTag, timeText;
    l := Layout(version, serial, algorithm, issuer, validity, notBefore, notAfter,
                v.rest, afterTimes, inner.rest, outer.rest);
    assert HasTag(l.algorithm, SEQUENCE) && HasTag(l.issuer, SEQUENCE);
  }

  lemma SerialParts(tbs: seq<Byte>) returns (version: seq<Byte>, serial: seq<Byte>, fields: seq<Byte>)
    requires FromFields(tbs).Some?
    ensures tbs == version + (serial + fields)
    ensures version == [] || HasTag(version, VERSION)
    ensures HasTag(serial, INTEGER)
    ensures FromFields(tbs) == FromAlgorithm(fields)
  {
    var front := Passed(tbs);
    var first := Split(tbs).value;
    if first.tag == VERSION {
      version := front;
      serial := Passed(first.rest);
      fields := Split(first.rest).value.rest;
    } else {
      version, serial, fields := [], front, first.rest;
      assert [] + (serial + fields) == serial + fields;
    }
  }

  // ----------------------------------------------------------- as it runs

  /** A cursor over a sequence of elements. */
  class Der {
    var bytes: seq<Byte>

    constructor (bs: seq<Byte>)
      ensures bytes == bs
    {
      bytes := bs;
    }

    /** The next element's tag and contents, moving past it; a failure moves
        nothing. */
    method Next() returns (r: Option<(Byte, seq<Byte>)>)
      modifies this
      ensures match Split(old(bytes))
              case None => r == None && bytes == old(bytes)
              case Some(e) => r == Some((e.tag, e.contents)) && bytes == e.rest
    {
      if |bytes| < 2 {
        return None;
      }
      var tag, first, rest := bytes[0], bytes[1], bytes[2..];
      var length: nat := first;
      if first >= 0x80 {
        var count := first as int - 0x80;
        if count == 0 || count > 4 || |rest| < count {
          return None;
        }
        length := 0;
        for k := 0 to count
          invariant length == BigEndian(rest[..k])
        {
          assert rest[..k + 1][..k] == rest[..k];
          length := length * 0x100 + rest[k];
        }
        rest := rest[count..];
      }
      if |rest| < length {
        return None;
      }
      bytes := rest[length..];
      return Some((tag, rest[..length]));
    }

    /** The next element, when it is the tag expected there; one of another tag
        is passed over all the same. */
    method Expect(tag: Byte) returns (r: Option<seq<Byte>>)
      modifies this
      ensures match Find(old(bytes), tag)
              case None => r == None
              case Some(e) => r == Some(e.contents)
      ensures match Split(old(bytes))
              case None => bytes == old(bytes)
              case Some(e) => bytes == e.rest
    {
      var found := Next();
      return if found.Some? && found.value.0 == tag then Some(found.value.1) else None;
    }
  }

  /** `not_after`: never an index out of range, whatever the bytes are. */
  method ReadNotAfter(der: seq<Byte>) returns (r: Option<int>)
    ensures r == NotAfter(der)
  {
    var outer := new Der(der);
    var certificate := outer.Expect(SEQUENCE);
    if certificate.None? {
      return None;
    }
    var inside := new Der(certificate.value);
    var tbs := inside.Expect(SEQUENCE);
    if tbs.None? {
      return None;
    }
    assert NotAfter(der) == FromFields(tbs.value);
    var fields := new Der(tbs.value);
    var first := fields.Next();
    if first.None? {
      return None;
    }
    var tag := first.value.0;
    if tag == VERSION {
      var second := fields.Next();
      if second.None? {
        return None;
      }
      tag := second.value.0;
    }
    if tag != INTEGER {
      return None;
    }
    assert NotAfter(der) == FromAlgorithm(fields.bytes);
    var algorithm := fields.Expect(SEQUENCE);
    if algorithm.None? {
      return None;
    }
    var issuer := fields.Expect(SEQUENCE);
    if issuer.None? {
      return None;
    }
    var times := fields.Expect(SEQUENCE);
    if times.None? {
      return None;
    }
    assert NotAfter(der) == FromValidity(times.value);
    var validity := new Der(times.value);
    var notBefore := validity.Next();
    if notBefore.None? {
      return None;
    }
    var notAfter := validity.Next();
    if notAfter.None? {
      return None;
    }
    r := Time(notAfter.value.0, notAfter.value.1);
  }
}
