/** The UTF-8 encoding form (section 3 of RFC 3629), strict and lossy.

    A `char` is a Unicode scalar value, so a `string` is exactly what a Rust
    `String` can hold and `Encode` is its `as_bytes`. */
module Utf8 {
  import opened Wrappers
  import opened Sequences

  type Byte = b: int | 0 <= b < 0x100

  predicate IsDigitByte(b: Byte) {
    '0' as int <= b <= '9' as int
  }

  /** A character's bytes: six payload bits in every byte but the first. */
  function EncodeChar(c: char): (bs: seq<Byte>)
    ensures 1 <= |bs| <= 4
  {
    var n := c as int;
    var q := n / 0x40;
    var r := q / 0x40;
    if n < 0x80 then [n]
    else if n < 0x800 then [0xC0 + q, 0x80 + n % 0x40]
    else if n < 0x1_0000 then [0xE0 + r, 0x80 + q % 0x40, 0x80 + n % 0x40]
    else [0xF0 + r / 0x40, 0x80 + r % 0x40, 0x80 + q % 0x40, 0x80 + n % 0x40]
  }

  /** `as_bytes`. */
  function Encode(s: string): seq<Byte> {
    if s == [] then [] else EncodeChar(s[0]) + Encode(s[1..])
  }

  /** Only ASCII has bytes below 0x80, and there a character is its own byte. */
  lemma CharBytes(c: char)
    ensures c as int < 0x80 ==> EncodeChar(c) == [c as int]
    ensures c as int >= 0x80 ==> forall j :: 0 <= j < |EncodeChar(c)| ==> EncodeChar(c)[j] >= 0x80
  {
  }

  predicate Continuation(b: Byte) {
    0x80 <= b < 0xC0
  }

  /** How many bytes the sequence that `lead` opens takes; 0 when no sequence
      can start with it. */
  function Width(lead: Byte): nat {
    if lead < 0x80 then 1
    else if lead < 0xC2 then 0
    else if lead < 0xE0 then 2
    else if lead < 0xF0 then 3
    else if lead < 0xF5 then 4
    else 0
  }

  /** The second byte has tighter bounds after four of the lead bytes: they
      rule out overlong forms, surrogates and values past U+10FFFF. */
  predicate SecondOk(lead: Byte, second: Byte) {
    Continuation(second)
    && (lead == 0xE0 ==> 0xA0 <= second)
    && (lead == 0xED ==> second < 0xA0)
    && (lead == 0xF0 ==> 0x90 <= second)
    && (lead == 0xF4 ==> second < 0x90)
  }

  /** How far a sequence stays well-formed, given that its first `k` bytes are. */
  function GoodFrom(bs: seq<Byte>, k: nat): (n: nat)
    requires 1 <= k <= |bs|
    ensures k <= n <= |bs|
    decreases |bs| - k
  {
    if k < |bs| && k < Width(bs[0]) && (if k == 1 then SecondOk(bs[0], bs[1]) else Continuation(bs[k])) then
      GoodFrom(bs, k + 1)
    else k
  }

  predicate StartsWithChar(bs: seq<Byte>) {
    bs != [] && GoodFrom(bs, 1) == Width(bs[0])
  }

  /** The payload bits of a first byte. */
  function LeadBits(lead: Byte): nat {
    if lead < 0x80 then lead
    else if lead < 0xC0 then 0
    else if lead < 0xE0 then lead - 0xC0
    else if lead < 0xF0 then lead - 0xE0
    else lead - 0xF0
  }

  /** The number the payload bits of a sequence make, six more with each byte. */
  function Payload(bs: seq<Byte>): int
    requires bs != []
  {
    if |bs| == 1 then LeadBits(bs[0])
    else
      var low: int := bs[|bs| - 1];
      Payload(bs[..|bs| - 1]) * 0x40 + (low - 0x80)
  }

  /** What makes a sequence of each width well-formed, and what it amounts to. */
  lemma Unrolled(bs: seq<Byte>)
    requires StartsWithChar(bs)
    ensures var w := Width(bs[0]);
            1 <= w <= 4 && w <= |bs|
            && (w > 1 ==> SecondOk(bs[0], bs[1])) && (w > 2 ==> Continuation(bs[2])) && (w > 3 ==> Continuation(bs[3]))
    ensures var w := Width(bs[0]); var a := LeadBits(bs[0]);
      Payload(bs[..w]) ==
        if w == 1 then a
        else if w == 2 then a * 0x40 + (bs[1] as int - 0x80)
        else if w == 3 then (a * 0x40 + (bs[1] as int - 0x80)) * 0x40 + (bs[2] as int - 0x80)
        else ((a * 0x40 + (bs[1] as int - 0x80)) * 0x40 + (bs[2] as int - 0x80)) * 0x40 + (bs[3] as int - 0x80)
  {
    var w := Width(bs[0]);
    assert Payload(bs[..1]) == LeadBits(bs[0]);
    if w > 1 {
      assert GoodFrom(bs, 1) == GoodFrom(bs, 2);
      assert bs[..2][..1] == bs[..1];
      assert Payload(bs[..2]) == LeadBits(bs[0]) * 0x40 + (bs[1] as int - 0x80);
    }
    if w > 2 {
      assert GoodFrom(bs, 2) == GoodFrom(bs, 3);
      assert bs[..3][..2] == bs[..2];
      assert Payload(bs[..3]) == Payload(bs[..2]) * 0x40 + (bs[2] as int - 0x80);
    }
    if w > 3 {
      assert GoodFrom(bs, 3) == GoodFrom(bs, 4);
      assert bs[..4][..3] == bs[..3];
      assert Payload(bs[..4]) == Payload(bs[..3]) * 0x40 + (bs[3] as int - 0x80);
    }
  }

  /** Bytes that make a well-formed sequence of some width. */
  lemma GoodWidth(bs: seq<Byte>, w: nat)
    requires bs != [] && Width(bs[0]) == w && 1 <= w <= |bs|
    requires w > 1 ==> SecondOk(bs[0], bs[1])
    requires w > 2 ==> Continuation(bs[2])
    requires w > 3 ==> Continuation(bs[3])
    ensures StartsWithChar(bs)
  {
    if w == 1 {
      assert GoodFrom(bs, 1) == 1;
    } else if w == 2 {
      assert GoodFrom(bs, 2) == 2;
    } else if w == 3 {
      assert GoodFrom(bs, 3) == 3;
      assert GoodFrom(bs, 2) == 3;
    } else {
      assert GoodFrom(bs, 4) == 4;
      assert GoodFrom(bs, 3) == 4;
      assert GoodFrom(bs, 2) == 4;
    }
  }

  ghost predicate IsScalar(n: int) {
    0 <= n < 0xD800 || 0xE000 <= n < 0x11_0000
  }

  lemma ThreeBytes(bs: seq<Byte>)
    requires StartsWithChar(bs) && Width(bs[0]) == 3
    ensures IsScalar(Payload(bs[..3])) && EncodeChar(Payload(bs[..3]) as char) == bs[..3]
  {
    Unrolled(bs);
    var a, b, c := bs[0] as int - 0xE0, bs[1] as int - 0x80, bs[2] as int - 0x80;
    var n := (a * 0x40 + b) * 0x40 + c;
    assert n / 0x40 == a * 0x40 + b && n % 0x40 == c;
  }

  lemma FourBytes(bs: seq<Byte>)
    requires StartsWithChar(bs) && Width(bs[0]) == 4
    ensures IsScalar(Payload(bs[..4])) && EncodeChar(Payload(bs[..4]) as char) == bs[..4]
  {
    Unrolled(bs);
    var a, b, c, d := bs[0] as int - 0xF0, bs[1] as int - 0x80, bs[2] as int - 0x80, bs[3] as int - 0x80;
    var q := (a * 0x40 + b) * 0x40 + c;
    var n := q * 0x40 + d;
    assert n / 0x40 == q && n % 0x40 == d;
    assert q / 0x40 == a * 0x40 + b && q % 0x40 == c;
  }

  /** A well-formed sequence is what its payload's character encodes to. */
  lemma PayloadEncodes(bs: seq<Byte>)
    requires StartsWithChar(bs)
    ensures var n := Payload(bs[..Width(bs[0])]); IsScalar(n) && EncodeChar(n as char) == bs[..Width(bs[0])]
  {
    var w := Width(bs[0]);
    Unrolled(bs);
    if w == 3 {
      ThreeBytes(bs);
    } else if w == 4 {
      FourBytes(bs);
    }
  }

  /** The character a well-formed sequence spells. */
  function FirstChar(bs: seq<Byte>): (c: char)
    requires StartsWithChar(bs)
    ensures c as int == Payload(bs[..Width(bs[0])])
    ensures EncodeChar(c) == bs[..Width(bs[0])]
  {
    PayloadEncodes(bs);
    Payload(bs[..Width(bs[0])]) as char
  }

  /** `String::from_utf8`. */
  function Decode(bs: seq<Byte>): (s: Option<string>)
    ensures s.Some? ==> Encode(s.value) == bs
  {
    if bs == [] then Some([])
    else if !StartsWithChar(bs) then None
    else
      var c, w := FirstChar(bs), Width(bs[0]);
      match Decode(bs[w..])
      case None => None
      case Some(rest) =>
        assert ([c] + rest)[1..] == rest;
        Some([c] + rest)
  }

  /** `String::from_utf8_lossy`: every maximal broken stretch becomes one
      replacement character. */
  function Lossy(bs: seq<Byte>): (s: string)
    ensures bs != [] ==> s != []
  {
    if bs == [] then []
    else if StartsWithChar(bs) then [FirstChar(bs)] + Lossy(bs[Width(bs[0])..])
    else ['\U{FFFD}'] + Lossy(bs[GoodFrom(bs, 1)..])
  }

  lemma EncodedCharReadsBack(c: char, rest: seq<Byte>)
    ensures StartsWithChar(EncodeChar(c) + rest)
    ensures FirstChar(EncodeChar(c) + rest) == c
    ensures Width((EncodeChar(c) + rest)[0]) == |EncodeChar(c)|
  {
    var bs := EncodeChar(c) + rest;
    assert bs[..|EncodeChar(c)|] == EncodeChar(c);
    EncodedBytes(c);
    GoodWidth(bs, |EncodeChar(c)|);
    Unrolled(bs);
  }

  /** An encoded character is well-formed and its payload is its number. */
  lemma EncodedBytes(c: char)
    ensures var bs := EncodeChar(c);
            var w := |bs|;
            Width(bs[0]) == w
            && (w > 1 ==> SecondOk(bs[0], bs[1])) && (w > 2 ==> Continuation(bs[2])) && (w > 3 ==> Continuation(bs[3]))
    ensures var bs := EncodeChar(c); var w := |bs|; var a := LeadBits(bs[0]);
      c as int ==
        if w == 1 then a
        else if w == 2 then a * 0x40 + (bs[1] as int - 0x80)
        else if w == 3 then (a * 0x40 + (bs[1] as int - 0x80)) * 0x40 + (bs[2] as int - 0x80)
        else ((a * 0x40 + (bs[1] as int - 0x80)) * 0x40 + (bs[2] as int - 0x80)) * 0x40 + (bs[3] as int - 0x80)
  {
  }

  lemma {:induction false} DecodeEncoded(s: string)
    ensures Decode(Encode(s)) == Some(s)
  {
    if s != [] {
      EncodedCharReadsBack(s[0], Encode(s[1..]));
      DecodeEncoded(s[1..]);
      assert Encode(s)[|EncodeChar(s[0])|..] == Encode(s[1..]);
      assert [s[0]] + s[1..] == s;
    }
  }

  lemma {:induction false} EncodeAppend(s: string, t: string)
    ensures Encode(s + t) == Encode(s) + Encode(t)
  {
    hide EncodeChar;
    if s == [] {
      assert s + t == t;
    } else {
      var c, rest := s[0], s[1..];
      assert (s + t)[1..] == rest + t;
      EncodeAppend(rest, t);
      Regroup(EncodeChar(c), Encode(rest), Encode(t));
    }
  }

  lemma EncodeCons(c: char, s: string)
    ensures Encode([c] + s) == EncodeChar(c) + Encode(s)
  {
    assert ([c] + s)[1..] == s;
  }

  predicate IsAscii(s: string) {
    forall k :: 0 <= k < |s| ==> s[k] as int < 0x80
  }

  /** ASCII text and its bytes have the same length and the same codes. */
  lemma {:induction false} EncodeAscii(s: string)
    requires IsAscii(s)
    ensures |Encode(s)| == |s|
    ensures forall k :: 0 <= k < |s| ==> Encode(s)[k] == s[k] as int
  {
    if s != [] {
      EncodeAscii(s[1..]);
    }
  }

  lemma {:induction false} LossyEncoded(s: string)
    ensures Lossy(Encode(s)) == s
  {
    if s != [] {
      EncodedCharReadsBack(s[0], Encode(s[1..]));
      LossyEncoded(s[1..]);
      assert Encode(s)[|EncodeChar(s[0])|..] == Encode(s[1..]);
      assert [s[0]] + s[1..] == s;
    }
  }

  lemma {:induction false} AsciiDecodes(w: seq<Byte>)
    requires forall k :: 0 <= k < |w| ==> w[k] < 0x80
    ensures Decode(w).Some?
  {
    if w != [] {
      AsciiDecodes(w[1..]);
    }
  }
}
