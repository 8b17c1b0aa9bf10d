/** Join codes: their alphabet, the text a person may type, and their life. */
module Codes {
  import opened Wrappers
  import opened Integers
  import opened Sequences
  import opened Text

  const ALPHABET: string := "23456789ABCDEFGHJKMNPQRSTVWXYZ"
  const GROUP_LEN: nat := 4
  const CODE_LEN: nat := 8

  datatype CodeError = BadChar(c: char) | WrongLength(len: nat)

  predicate IsCodeChar(c: char) {
    c in ALPHABET
  }

  function AsciiUpper(c: char): char {
    if 'a' <= c <= 'z' then c - 'a' + 'A' else c
  }

  predicate IsSeparator(c: char) {
    c == '-' || IsWhitespace(c)
  }

  /** Two groups of four with a hyphen between them. */
  function Grouped(chars: string): string
    requires |chars| == CODE_LEN
  {
    chars[..GROUP_LEN] + ['-'] + chars[GROUP_LEN..]
  }

  /** Reading on through `input` with `chars` collected. */
  function ParseFrom(input: string, chars: string): (r: Result<string, CodeError>)
    requires |chars| <= CODE_LEN
  {
    if input == [] then
      if |chars| != CODE_LEN then Err(WrongLength(|chars|)) else Ok(Grouped(chars))
    else if IsSeparator(input[0]) then ParseFrom(input[1..], chars)
    else
      var upper := AsciiUpper(input[0]);
      if !IsCodeChar(upper) then Err(BadChar(input[0]))
      else if |chars| == CODE_LEN then Err(WrongLength(CODE_LEN + 1))
      else ParseFrom(input[1..], chars + [upper])
  }

  /** `JoinCode::parse`. */
  function ParseCode(input: string): Result<string, CodeError> {
    ParseFrom(input, [])
  }

  /** `JoinCode::from_indices`. */
  function FromIndices(indices: seq<nat>): Option<string> {
    if |indices| != CODE_LEN || exists k :: 0 <= k < |indices| && indices[k] >= |ALPHABET| then None
    else Some(Grouped(seq(CODE_LEN, k requires 0 <= k < CODE_LEN => ALPHABET[indices[k]])))
  }

  /** A code in canonical form. */
  predicate IsCode(s: string) {
    |s| == CODE_LEN + 1 && s[GROUP_LEN] == '-' &&
    forall k :: 0 <= k < |s| && k != GROUP_LEN ==> IsCodeChar(s[k])
  }

  /** The characters that count, upper-cased. */
  function Significant(input: string): string {
    if input == [] then []
    else if IsSeparator(input[0]) then Significant(input[1..])
    else [AsciiUpper(input[0])] + Significant(input[1..])
  }

  predicate InAlphabet(chars: string) {
    forall k :: 0 <= k < |chars| ==> IsCodeChar(chars[k])
  }

  // ------------------------------------------------------------- reading

  lemma {:induction false} ParseFromExactly(input: string, chars: string)
    requires |chars| <= CODE_LEN && InAlphabet(chars)
    ensures var all := chars + Significant(input);
            && (ParseFrom(input, chars).Ok? <==> InAlphabet(all) && |all| == CODE_LEN)
            && (ParseFrom(input, chars).Ok? ==> ParseFrom(input, chars) == Ok(Grouped(all)))
    decreases input
  {
    hide Grouped, IsCodeChar, AsciiUpper;
    if input == [] {
      assert chars + [] == chars;
    } else if IsSeparator(input[0]) {
      ParseFromExactly(input[1..], chars);
    } else {
      var upper := AsciiUpper(input[0]);
      var all := chars + Significant(input);
      Regroup(chars, [upper], Significant(input[1..]));
      assert all[|chars|] == upper;
      if IsCodeChar(upper) && |chars| < CODE_LEN {
        ParseFromExactly(input[1..], chars + [upper]);
      }
    }
  }

  /** A code is read exactly when eight characters of the alphabet are left
      once separators go and case is folded, and it is those eight, grouped:
      how they were spaced and cased is all a reader may vary. */
  lemma CodeReadExactly(input: string)
    ensures ParseCode(input).Ok? <==> InAlphabet(Significant(input)) && |Significant(input)| == CODE_LEN
    ensures ParseCode(input).Ok? ==>
              ParseCode(input) == Ok(Grouped(Significant(input))) && IsCode(ParseCode(input).value)
  {
    ParseFromExactly(input, []);
    assert [] + Significant(input) == Significant(input);
  }

  lemma AlphabetRange(c: char)
    requires IsCodeChar(c)
    ensures '2' <= c <= '9' || 'A' <= c <= 'Z'
  {
  }

  lemma AlphabetStands(c: char)
    requires IsCodeChar(c)
    ensures !IsSeparator(c) && AsciiUpper(c) == c
  {
    AlphabetRange(c);
    hide IsCodeChar;
  }

  lemma {:induction false} SignificantOfGroup(chars: string, rest: string)
    requires InAlphabet(chars)
    ensures Significant(chars + rest) == chars + Significant(rest)
  {
    hide IsCodeChar, IsSeparator;
    if chars == [] {
      assert chars + rest == rest;
    } else {
      AlphabetStands(chars[0]);
      assert (chars + rest)[1..] == chars[1..] + rest;
      SignificantOfGroup(chars[1..], rest);
      assert [chars[0]] + (chars[1..] + Significant(rest)) == chars + Significant(rest);
    }
  }

  /** Canonical codes are fixed points of reading, and its only results. */
  lemma CanonicalExactly(s: string)
    ensures ParseCode(s) == Ok(s) <==> IsCode(s)
  {
    hide IsCodeChar, ParseCode;
    CodeReadExactly(s);
    if IsCode(s) {
      var head, tail := s[..GROUP_LEN], s[GROUP_LEN + 1..];
      assert s == head + (['-'] + tail);
      assert (['-'] + tail)[1..] == tail && tail + [] == tail;
      SignificantOfGroup(head, ['-'] + tail);
      SignificantOfGroup(tail, []);
      assert Significant(s) == head + tail;
      assert Grouped(head + tail) == s;
    }
  }

  /** Drawing indices reaches every code, each from one draw. */
  lemma DrawnExactly(indices: seq<nat>, other: seq<nat>)
    requires FromIndices(indices).Some?
    ensures IsCode(FromIndices(indices).value)
    ensures ParseCode(FromIndices(indices).value) == Ok(FromIndices(indices).value)
    ensures FromIndices(other) == FromIndices(indices) ==> other == indices
  {
    var code := FromIndices(indices).value;
    DrawnIsCode(indices);
    CanonicalExactly(code);
    if FromIndices(other) == FromIndices(indices) {
      hide IsCodeChar, ParseCode, IsCode, Grouped;
      DrawnAt(indices);
      DrawnAt(other);
      forall k | 0 <= k < CODE_LEN
        ensures other[k] == indices[k]
      {
        var at := if k < GROUP_LEN then k else k + 1;
        assert code[at] == AlphabetAt(indices[k]) == AlphabetAt(other[k]);
        AlphabetDistinct(indices[k], other[k]);
      }
    }
  }

  lemma DrawnIsCode(indices: seq<nat>)
    requires FromIndices(indices).Some?
    ensures IsCode(FromIndices(indices).value)
  {
    var code := FromIndices(indices).value;
    forall k | 0 <= k < |code| && k != GROUP_LEN
      ensures IsCodeChar(code[k])
    {
      assert code[k] == ALPHABET[indices[if k < GROUP_LEN then k else k - 1]];
    }
  }

  lemma DrawnAt(indices: seq<nat>)
    requires FromIndices(indices).Some?
    ensures |indices| == CODE_LEN && |FromIndices(indices).value| == CODE_LEN + 1
    ensures forall k :: 0 <= k < CODE_LEN ==> indices[k] < |ALPHABET|
    ensures forall k :: 0 <= k < CODE_LEN ==>
              FromIndices(indices).value[if k < GROUP_LEN then k else k + 1] == AlphabetAt(indices[k])
  {
  }

  function AlphabetAt(i: nat): char
    requires i < |ALPHABET|
  {
    ALPHABET[i]
  }

  lemma AlphabetDistinct(i: nat, j: nat)
    requires i < |ALPHABET| && j < |ALPHABET| && AlphabetAt(i) == AlphabetAt(j)
    ensures i == j
  {
    if i < j {
      AlphabetAscends(i, j);
    } else if j < i {
      AlphabetAscends(j, i);
    }
  }

  lemma {:induction false} AlphabetAscends(i: nat, j: nat)
    requires i < j < |ALPHABET|
    ensures AlphabetAt(i) < AlphabetAt(j)
  {
    NextAscends(j - 1);
    if i < j - 1 {
      hide AlphabetAt;
      AlphabetAscends(i, j - 1);
    }
  }

  lemma NextAscends(i: nat)
    requires i + 1 < |ALPHABET|
    ensures AlphabetAt(i) < AlphabetAt(i + 1)
  {
  }

  lemma IndexOf(c: char) returns (index: nat)
    requires IsCodeChar(c)
    ensures index < |ALPHABET| && AlphabetAt(index) == c
  {
    index :| index < |ALPHABET| && ALPHABET[index] == c;
  }

  lemma {:induction false} IndicesOf(chars: string) returns (indices: seq<nat>)
    requires forall k :: 0 <= k < |chars| ==> IsCodeChar(chars[k])
    ensures |indices| == |chars|
    ensures forall k :: 0 <= k < |chars| ==> indices[k] < |ALPHABET| && AlphabetAt(indices[k]) == chars[k]
  {
    hide AlphabetAt, IsCodeChar;
    indices := [];
    if chars != [] {
      var rest := IndicesOf(chars[1..]);
      var first := IndexOf(chars[0]);
      indices := [first] + rest;
    }
  }

  lemma EveryCodeIsDrawn(code: string) returns (indices: seq<nat>)
    requires IsCode(code)
    ensures FromIndices(indices) == Some(code)
  {
    hide *;
    var chars := CharsOf(code);
    indices := IndicesOf(chars);
    DrawsChars(chars, indices);
  }

  /** The characters of a code, without its separator. */
  lemma CharsOf(code: string) returns (chars: string)
    requires IsCode(code)
    ensures |chars| == CODE_LEN && Grouped(chars) == code
    ensures forall k :: 0 <= k < |chars| ==> IsCodeChar(chars[k])
  {
    hide IsCodeChar;
    chars := code[..GROUP_LEN] + code[GROUP_LEN + 1..];
    forall k | 0 <= k < CODE_LEN
      ensures IsCodeChar(chars[k])
    {
      assert chars[k] == code[if k < GROUP_LEN then k else k + 1];
    }
  }

  lemma DrawsChars(chars: string, indices: seq<nat>)
    requires |indices| == |chars| == CODE_LEN
    requires forall k :: 0 <= k < |chars| ==> indices[k] < |ALPHABET| && AlphabetAt(indices[k]) == chars[k]
    ensures FromIndices(indices) == Some(Grouped(chars))
  {
    hide Grouped;
    assert chars == seq(CODE_LEN, k requires 0 <= k < CODE_LEN => ALPHABET[indices[k]]);
  }

  // ------------------------------------------------------------ lifetime

  datatype CodeStatus = Usable | Used | Expired

  datatype IssuedCode = IssuedCode(code: string, issuedAt: I64, expiresAt: I64, usedAt: Option<I64>)

  /** `IssuedCode::issue`, with a lifetime that cannot wrap. */
  function IssueCode(code: string, at: I64, ttl: I64): IssuedCode {
    IssuedCode(code, at, SatAdd(at, ttl), None)
  }

  function StatusOf(issued: IssuedCode, now: I64): CodeStatus {
    if issued.usedAt.Some? then Used
    else if now >= issued.expiresAt then Expired
    else Usable
  }

  /** A fresh code is usable before its lifetime is over and not a second
      after; one with no lifetime is born expired. */
  lemma FreshCodeLivesExactly(code: string, at: I64, ttl: I64, now: I64)
    ensures at + ttl <= I64_MAX ==>
              (StatusOf(IssueCode(code, at, ttl), now) == Usable <==> now < at + ttl)
    ensures ttl <= 0 && now >= at ==> StatusOf(IssueCode(code, at, ttl), now) == Expired
    ensures ttl > 0 && now <= at && at < I64_MAX ==> StatusOf(IssueCode(code, at, ttl), now) == Usable
  {
  }
}
