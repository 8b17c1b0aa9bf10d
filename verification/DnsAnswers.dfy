/** Whole DNS messages: an answer cut short, a value split over strings, and
    the query read as a server reads it. */
module DnsAnswers {
  import opened Wrappers
  import opened Integers
  import opened Sequences
  import opened Utf8
  import opened DnsWire
  import opened DnsNames

  // ----------------------------------------------------------- cut messages

  lemma {:induction false} SkipPrefix(p: seq<Byte>, m: seq<Byte>, at: nat, count: nat)
    requires p <= m && at <= |p| && SkipQuestions(p, at, count).Ok?
    ensures SkipQuestions(m, at, count) == SkipQuestions(p, at, count)
    decreases count
  {
    hide NameFrom;
    if count > 0 {
      NamePrefix(p, m, at, 0, [], None);
      SkipPrefix(p, m, NameAt(p, at).value.after + 4, count - 1);
    }
  }

  /** A record that was whole in the shorter message is the same in the longer. */
  lemma EntryPrefix(p: seq<Byte>, m: seq<Byte>, at: nat)
    requires p <= m && EntryAt(p, at).Ok? && EntryAt(p, at).value.Some?
    ensures EntryAt(m, at) == EntryAt(p, at)
  {
    hide NameFrom;
    NamePrefix(p, m, at, 0, [], None);
    var rdata := NameAt(p, at).value.after + 10;
    var end := rdata + U16At(p, rdata - 2);
    assert m[rdata..end] == p[rdata..end];
  }

  lemma {:induction false} RecordsPrefix(p: seq<Byte>, m: seq<Byte>, at: nat, count: nat, wanted: string,
                                         values: seq<string>)
    requires p <= m
    requires Records(p, at, count, wanted, values).Ok? && Records(m, at, count, wanted, values).Ok?
    ensures Records(p, at, count, wanted, values).value <= Records(m, at, count, wanted, values).value
    decreases count
  {
    hide EntryAt, Taking;
    if count > 0 && EntryAt(p, at).value.Some? {
      EntryPrefix(p, m, at);
      var e := EntryAt(p, at).value.value;
      RecordsPrefix(p, m, e.end, count - 1, wanted, Taking(values, e, wanted));
    }
  }

  /** What a successful reading went through. */
  lemma ReadingParts(m: seq<Byte>, id: U16, name: string)
    requires ReadTxt(m, id, name).Ok?
    ensures |m| >= HEADER_LEN && SkipQuestions(m, HEADER_LEN, U16At(m, 4)).Ok?
    ensures var records := Records(m, SkipQuestions(m, HEADER_LEN, U16At(m, 4)).value, U16At(m, 6), Fold(name), []);
      records.Ok? && ReadTxt(m, id, name).value
        == Reply(m[3] as int % 0x10, m[2] as int / 2 % 2 == 1, records.value)
  {
  }

  lemma SameHeader(p: seq<Byte>, m: seq<Byte>)
    requires p <= m && |p| >= HEADER_LEN
    ensures U16At(p, 4) == U16At(m, 4) && U16At(p, 6) == U16At(m, 6) && p[2] == m[2] && p[3] == m[3]
  {
  }

  /** Cutting an answer short never changes what was already read. If a
      message and some beginning of it can both be read, they agree on how the
      server answered, and the shorter one's values are the first of the
      longer one's. */
  lemma CutShort(p: seq<Byte>, m: seq<Byte>, id: U16, name: string)
    requires p <= m && ReadTxt(p, id, name).Ok? && ReadTxt(m, id, name).Ok?
    ensures var short, long := ReadTxt(p, id, name).value, ReadTxt(m, id, name).value;
      short.rcode == long.rcode && short.truncated == long.truncated && short.values <= long.values
  {
    ReadingParts(p, id, name);
    ReadingParts(m, id, name);
    SameHeader(p, m);
    SkipPrefix(p, m, HEADER_LEN, U16At(p, 4));
    var at := SkipQuestions(p, HEADER_LEN, U16At(p, 4)).value;
    RecordsPrefix(p, m, at, U16At(p, 6), Fold(name), []);
  }

  // ---------------------------------------------------------- long values

  /** A value as TXT data: strings of at most 255 bytes, length first. */
  function TxtData(bytes: seq<Byte>): seq<Byte>
    decreases |bytes|
  {
    if bytes == [] then []
    else if |bytes| <= 255 then [|bytes|] + bytes
    else [255] + bytes[..255] + TxtData(bytes[255..])
  }

  /** The bytes each string decodes, one after the other. */
  function DecodedPieces(bytes: seq<Byte>): string
    decreases |bytes|
  {
    if |bytes| <= 255 then Lossy(bytes) else Lossy(bytes[..255]) + DecodedPieces(bytes[255..])
  }

  lemma {:induction false} TxtDataReads(bytes: seq<Byte>)
    ensures CharacterStrings(TxtData(bytes)) == DecodedPieces(bytes)
    decreases |bytes|
  {
    if bytes != [] {
      var data := TxtData(bytes);
      var piece := if |bytes| <= 255 then bytes else bytes[..255];
      var rest := if |bytes| <= 255 then [] else TxtData(bytes[255..]);
      assert data == [|piece|] + piece + rest;
      assert data[1..1 + |piece|] == piece && data[1 + |piece|..] == rest;
      assert CharacterStrings(data) == Lossy(piece) + CharacterStrings(rest);
      if |bytes| > 255 {
        TxtDataReads(bytes[255..]);
      }
    }
  }

  /** No piece begins inside a character. */
  predicate CutsBetweenChars(bytes: seq<Byte>) {
    forall k :: 0 <= k < |bytes| && k % 255 == 0 ==> !Continuation(bytes[k])
  }

  /** Decoding lossily and encoding again never loses a byte, and gains some
      when the bytes begin in the middle of a character. */
  lemma {:induction false} LossyGrows(bs: seq<Byte>)
    ensures |Encode(Lossy(bs))| >= |bs|
    ensures bs != [] && Continuation(bs[0]) ==> |Encode(Lossy(bs))| > |bs|
    decreases |bs|
  {
    if bs == [] {
    } else if StartsWithChar(bs) {
      var w := Width(bs[0]);
      LossyGrows(bs[w..]);
      EncodeCons(FirstChar(bs), Lossy(bs[w..]));
    } else {
      var n := GoodFrom(bs, 1);
      LossyGrows(bs[n..]);
      EncodeCons('\U{FFFD}', Lossy(bs[n..]));
      BadPrefixIsShort(bs);
    }
  }

  lemma BadPrefixIsShort(bs: seq<Byte>)
    requires bs != [] && !StartsWithChar(bs)
    ensures GoodFrom(bs, 1) <= 3
    ensures Continuation(bs[0]) ==> GoodFrom(bs, 1) == 1
    ensures |EncodeChar('\U{FFFD}')| == 3
  {
    GoodBounded(bs, 1);
  }

  lemma {:induction false} GoodBounded(bs: seq<Byte>, k: nat)
    requires 1 <= k <= |bs|
    ensures GoodFrom(bs, k) <= if k >= Width(bs[0]) then k else Width(bs[0])
    decreases |bs| - k
  {
    if k < |bs| && k < Width(bs[0]) {
      GoodBounded(bs, k + 1);
    }
  }

  lemma {:induction false} PiecesGrow(bytes: seq<Byte>)
    ensures |Encode(DecodedPieces(bytes))| >= |bytes|
    ensures bytes != [] && Continuation(bytes[0]) ==> |Encode(DecodedPieces(bytes))| > |bytes|
    decreases |bytes|
  {
    if |bytes| <= 255 {
      LossyGrows(bytes);
    } else {
      LossyGrows(bytes[..255]);
      PiecesGrow(bytes[255..]);
      EncodeAppend(Lossy(bytes[..255]), DecodedPieces(bytes[255..]));
    }
  }

  /** Inside an encoded character only continuation bytes are found. */
  lemma InsideChar(c: char, k: nat)
    requires 0 < k < |EncodeChar(c)|
    ensures Continuation(EncodeChar(c)[k])
  {
    EncodedBytes(c);
  }

  lemma CutIsPastFirst(s: string, k: nat)
    requires s != [] && 0 < k <= |Encode(s)|
    requires k < |Encode(s)| ==> !Continuation(Encode(s)[k])
    ensures k >= |EncodeChar(s[0])|
  {
    hide Continuation, EncodeChar;
    var w := EncodeChar(s[0]);
    assert Encode(s) == w + Encode(s[1..]);
    if k < |w| {
      InsideChar(s[0], k);
    }
  }

  lemma CutBehind<T>(w: seq<T>, rest: seq<T>, k: nat)
    requires |w| <= k <= |w + rest|
    ensures (w + rest)[..k] == w + rest[..k - |w|] && (w + rest)[k..] == rest[k - |w|..]
    ensures k < |w + rest| ==> (w + rest)[k] == rest[k - |w|]
  {
  }

  /** Text cut where a character begins is text on both sides. */
  lemma {:induction false} CutAtChar(s: string, k: nat) returns (front: string, back: string)
    requires k <= |Encode(s)|
    requires k < |Encode(s)| ==> !Continuation(Encode(s)[k])
    ensures s == front + back && Encode(front) == Encode(s)[..k] && Encode(back) == Encode(s)[k..]
    decreases |s|
  {
    if k == 0 {
      front, back := [], s;
    } else {
      var c, tail := s[0], s[1..];
      EncodeCons(c, tail);
      hide Encode, EncodeChar, Continuation;
      assert s == [c] + tail;
      CutIsPastFirst(s, k);
      var w := EncodeChar(c);
      CutBehind(w, Encode(tail), k);
      var front';
      front', back := CutAtChar(tail, k - |w|);
      front := [c] + front';
      EncodeCons(c, front');
      Regroup([c], front', back);
    }
  }

  lemma {:induction false} PiecesExactly(s: string)
    ensures DecodedPieces(Encode(s)) == s <==> CutsBetweenChars(Encode(s))
    decreases |Encode(s)|
  {
    var bytes := Encode(s);
    FirstIsNoContinuation(s);
    if |bytes| <= 255 {
      ShortPieces(s);
      ShortCuts(bytes);
    } else if Continuation(bytes[255]) {
      hide Encode, DecodedPieces, Continuation;
      CutInsideChar(s);
      assert 255 % 255 == 0;
    } else {
      hide Encode, DecodedPieces, CutsBetweenChars, Continuation;
      var front, back := CutAtChar(s, 255);
      PiecesExactly(back);
      JoinedPieces(s, front, back);
      ShiftedCuts(bytes);
    }
  }

  lemma ShortPieces(s: string)
    requires |Encode(s)| <= 255
    ensures DecodedPieces(Encode(s)) == s
  {
    hide Encode, Lossy;
    LossyEncoded(s);
  }

  lemma ShortCuts(bytes: seq<Byte>)
    requires |bytes| <= 255 && (bytes != [] ==> !Continuation(bytes[0]))
    ensures CutsBetweenChars(bytes)
  {
    hide Continuation;
  }

  lemma FirstIsNoContinuation(s: string)
    ensures s != [] ==> Encode(s) != [] && !Continuation(Encode(s)[0])
  {
    if s != [] {
      EncodedBytes(s[0]);
    }
  }

  /** A first piece that ends inside a character makes the result longer. */
  lemma CutInsideChar(s: string)
    requires |Encode(s)| > 255 && Continuation(Encode(s)[255])
    ensures DecodedPieces(Encode(s)) != s
  {
    var bytes := Encode(s);
    PiecesGrow(bytes[255..]);
    LossyGrows(bytes[..255]);
    EncodeAppend(Lossy(bytes[..255]), DecodedPieces(bytes[255..]));
  }

  lemma JoinedPieces(s: string, front: string, back: string)
    requires |Encode(s)| > 255 && s == front + back
    requires Encode(front) == Encode(s)[..255] && Encode(back) == Encode(s)[255..]
    ensures DecodedPieces(Encode(s)) == s <==> DecodedPieces(Encode(back)) == back
  {
    hide Encode, Lossy;
    LossyEncoded(front);
    var all := front + DecodedPieces(Encode(back));
    assert DecodedPieces(Encode(s)) == all;
    assert all[|front|..] == DecodedPieces(Encode(back)) && s[|front|..] == back;
  }

  lemma ShiftedCuts(bytes: seq<Byte>)
    requires |bytes| > 255 && !Continuation(bytes[0])
    ensures CutsBetweenChars(bytes) <==> CutsBetweenChars(bytes[255..])
  {
    var rest := bytes[255..];
    if CutsBetweenChars(bytes) {
      forall k | 0 <= k < |rest| && k % 255 == 0 ensures !Continuation(rest[k]) {
        assert (k + 255) % 255 == 0 && rest[k] == bytes[k + 255];
      }
    }
    if CutsBetweenChars(rest) {
      forall k | 0 <= k < |bytes| && k % 255 == 0 ensures !Continuation(bytes[k]) {
        if k > 0 {
          assert k >= 255 && (k - 255) % 255 == 0 && rest[k - 255] == bytes[k];
        }
      }
    }
  }

  /** A value comes back from TXT data exactly when no 255-byte piece begins
      inside a character: each piece is decoded on its own, so one that cuts
      a character turns it into replacement characters. ASCII is never cut. */
  lemma ValueReadsBackExactly(value: string)
    ensures CharacterStrings(TxtData(Encode(value))) == value <==> CutsBetweenChars(Encode(value))
    ensures IsAscii(value) ==> CharacterStrings(TxtData(Encode(value))) == value
  {
    TxtDataReads(Encode(value));
    PiecesExactly(value);
    if IsAscii(value) {
      EncodeAscii(value);
    }
  }

  /** A value the rule cuts: 254 letters and an accented one, whose second byte
      is the 256th. */
  lemma AccentAtTheCut(value: string)
    requires value == seq(254, _ => 'a') + ['\U{E9}']
    ensures CharacterStrings(TxtData(Encode(value))) != value
  {
    var letters: string := seq(254, _ => 'a');
    EncodeAppend(letters, ['\U{E9}']);
    EncodeAscii(letters);
    AccentEncodes();
    hide Encode;
    assert Encode(value)[255] == 0xA9 && 255 % 255 == 0;
    ValueReadsBackExactly(value);
  }

  lemma AccentEncodes()
    ensures Encode(['\U{E9}']) == [0xC3, 0xA9]
  {
    assert Encode(['\U{E9}']) == EncodeChar('\U{E9}') + Encode([]);
  }

  // ----------------------------------------------------------- the query

  lemma QueryParts(id: U16, name: string)
    requires EncodeName(name).Ok?
    ensures var q := TxtQuery(id, name).value; var end := HEADER_LEN + |EncodeName(name).value|;
      |q| == end + 15 && Stands(q, 0, QueryHeader(id)) && Stands(q, HEADER_LEN, EncodeName(name).value)
      && Stands(q, end, U16Bytes(TYPE_TXT) + U16Bytes(CLASS_IN) + Opt())
  {
    var q := TxtQuery(id, name).value;
    var question := EncodeName(name).value;
    var tail := U16Bytes(TYPE_TXT) + U16Bytes(CLASS_IN) + Opt();
    assert q == QueryHeader(id) + question + tail;
    assert q[0..HEADER_LEN] == QueryHeader(id) && q[HEADER_LEN..HEADER_LEN + |question|] == question;
    assert q[HEADER_LEN + |question|..] == tail;
  }

  /** What a server finds in the query: the name asked about, type TXT, class
      IN, and one OPT record with the payload size that ends the message. */
  lemma QueryReads(id: U16, name: string)
    requires EncodeName(name).Ok?
    ensures TxtQuery(id, name).Ok?
    ensures var q := TxtQuery(id, name).value; var end := HEADER_LEN + |EncodeName(name).value|;
      |q| == end + 15
      && U16At(q, 0) == id && q[2] == q[3] == 0 && U16At(q, 4) == 1 && U16At(q, 6) == U16At(q, 8) == 0
      && U16At(q, 10) == 1
      && NameAt(q, HEADER_LEN) == Ok(Name(TrimDots(name), end))
      && U16At(q, end) == TYPE_TXT && U16At(q, end + 2) == CLASS_IN
      && EntryAt(q, end + 4) == Ok(Some(Entry([], TYPE_OPT, UDP_PAYLOAD, [], |q|)))
  {
    var q := TxtQuery(id, name).value;
    var end := HEADER_LEN + |EncodeName(name).value|;
    QueryParts(id, name);
    EncodedNameReads(q, HEADER_LEN, name);
    QueryHeaderReads(q, id);
    QueryTailReads(q, end);
  }

  lemma QueryHeaderReads(q: seq<Byte>, id: U16)
    requires Stands(q, 0, QueryHeader(id))
    ensures |q| >= HEADER_LEN && U16At(q, 0) == id && q[2] == q[3] == 0
    ensures U16At(q, 4) == 1 && U16At(q, 6) == U16At(q, 8) == 0 && U16At(q, 10) == 1
  {
    var h := q[0..12];
    assert h == QueryHeader(id);
    assert forall k :: 0 <= k < 12 ==> q[k] == h[k];
  }

  lemma QueryTailReads(q: seq<Byte>, end: nat)
    requires |q| == end + 15 && Stands(q, end, U16Bytes(TYPE_TXT) + U16Bytes(CLASS_IN) + Opt())
    ensures U16At(q, end) == TYPE_TXT && U16At(q, end + 2) == CLASS_IN
    ensures EntryAt(q, end + 4) == Ok(Some(Entry([], TYPE_OPT, UDP_PAYLOAD, [], |q|)))
  {
    var t := q[end..end + 15];
    assert t == U16Bytes(TYPE_TXT) + U16Bytes(CLASS_IN) + Opt();
    assert q[end] == t[0] && q[end + 1] == t[1] && q[end + 2] == t[2] && q[end + 3] == t[3] && q[end + 4] == t[4];
    assert q[end + 5] == t[5] && q[end + 6] == t[6] && q[end + 7] == t[7] && q[end + 8] == t[8];
    assert q[end + 13] == t[13] && q[end + 14] == t[14];
    SpellingReads(q, end + 4, Root);
    assert q[end + 15..end + 15] == [];
  }
}
