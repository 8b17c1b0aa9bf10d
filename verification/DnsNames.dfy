/** What the name reader accepts, exactly: the names section 4.1.4 of RFC 1035
    describes, through at most 32 pointers. */
module DnsNames {
  import opened Wrappers
  import opened Sequences
  import opened Text
  import opened Utf8
  import opened DnsWire

  /** How a name is spelled in a message: labels, then a root or a pointer to
      where the spelling goes on. A loop of pointers spells nothing, because
      no finite shape unrolls it. */
  datatype Shape = Root | Label(bytes: seq<Byte>, rest: Shape) | Pointer(target: nat, rest: Shape)

  ghost predicate Spells(m: seq<Byte>, at: nat, shape: Shape)
    decreases shape
  {
    match shape
    case Root => at < |m| && m[at] == 0
    case Label(bytes, rest) =>
      var to := at + 1 + |bytes|;
      1 <= |bytes| <= MAX_LABEL && to <= |m| && m[at] == |bytes| && m[at + 1..to] == bytes && Spells(m, to, rest)
    case Pointer(target, rest) =>
      at + 2 <= |m| && m[at] >= 0xC0 && Target(m[at], m[at + 1]) == target && Spells(m, target, rest)
  }

  ghost function Jumps(shape: Shape): nat {
    match shape
    case Root => 0
    case Label(_, rest) => Jumps(rest)
    case Pointer(_, rest) => 1 + Jumps(rest)
  }

  /** The labels joined with dots, after `text`. */
  ghost function NameText(shape: Shape, text: string): string {
    match shape
    case Root => text
    case Label(bytes, rest) => NameText(rest, Extended(text, bytes))
    case Pointer(_, rest) => NameText(rest, text)
  }

  /** Where the name ends in the stream: after its root or its first pointer. */
  ghost function StreamEnd(at: nat, shape: Shape): nat
    decreases shape
  {
    match shape
    case Root => at + 1
    case Label(bytes, rest) => StreamEnd(at + 1 + |bytes|, rest)
    case Pointer(_, _) => at + 2
  }

  lemma {:induction false} SpelledReads(m: seq<Byte>, at: nat, shape: Shape, jumps: nat, text: string,
                                        after: Option<nat>)
    requires Spells(m, at, shape) && jumps + Jumps(shape) <= MAX_JUMPS
    requires after.Some? ==> after.value <= |m|
    ensures NameFrom(m, at, jumps, text, after)
         == Ok(Name(NameText(shape, text), if after.Some? then after.value else StreamEnd(at, shape)))
    decreases shape
  {
    hide Extended, Target, NameFrom;
    match shape
    case Root =>
      RootTurn(m, at, jumps, text, after);
    case Label(bytes, rest) =>
      LabelTurn(m, at, jumps, text, after);
      SpelledReads(m, at + 1 + |bytes|, rest, jumps, Extended(text, bytes), after);
    case Pointer(target, rest) =>
      PointerTurn(m, at, jumps, text, after);
      SpelledReads(m, target, rest, jumps + 1, text, if after.Some? then after else Some(at + 2));
  }

  lemma RootTurn(m: seq<Byte>, at: nat, jumps: nat, text: string, after: Option<nat>)
    requires jumps <= MAX_JUMPS && (after.Some? ==> after.value <= |m|)
    requires at < |m| && m[at] == 0
    ensures NameFrom(m, at, jumps, text, after) == Ok(Name(text, if after.Some? then after.value else at + 1))
  {
  }

  lemma LabelTurn(m: seq<Byte>, at: nat, jumps: nat, text: string, after: Option<nat>)
    requires jumps <= MAX_JUMPS && (after.Some? ==> after.value <= |m|)
    requires at < |m| && 1 <= m[at] <= MAX_LABEL && at + 1 + m[at] <= |m|
    ensures var to := at + 1 + m[at];
            NameFrom(m, at, jumps, text, after) == NameFrom(m, to, jumps, Extended(text, m[at + 1..to]), after)
  {
    hide Extended;
  }

  lemma PointerTurn(m: seq<Byte>, at: nat, jumps: nat, text: string, after: Option<nat>)
    requires jumps < MAX_JUMPS && (after.Some? ==> after.value <= |m|)
    requires at + 2 <= |m| && m[at] >= 0xC0
    ensures NameFrom(m, at, jumps, text, after) ==
            NameFrom(m, Target(m[at], m[at + 1]), jumps + 1, text, if after.Some? then after else Some(at + 2))
  {
    hide Target;
  }

  lemma {:induction false} ReadIsSpelled(m: seq<Byte>, at: nat, jumps: nat, text: string, after: Option<nat>)
    returns (shape: Shape)
    requires jumps <= MAX_JUMPS
    requires after.Some? ==> after.value <= |m|
    requires NameFrom(m, at, jumps, text, after).Ok?
    ensures Spells(m, at, shape) && jumps + Jumps(shape) <= MAX_JUMPS
    decreases MAX_JUMPS - jumps, |m| - at
  {
    hide Extended, Target;
    var length := m[at];
    if length == 0 {
      shape := Root;
    } else if length < 0x40 {
      var to := at + 1 + length;
      var rest := ReadIsSpelled(m, to, jumps, Extended(text, m[at + 1..to]), after);
      shape := Label(m[at + 1..to], rest);
    } else {
      var target := Target(length, m[at + 1]);
      var rest := ReadIsSpelled(m, target, jumps + 1, text, if after.Some? then after else Some(at + 2));
      shape := Pointer(target, rest);
    }
  }

  ghost predicate IsSpelling(m: seq<Byte>, start: nat, name: Name, shape: Shape) {
    Spells(m, start, shape) && Jumps(shape) <= MAX_JUMPS
    && name == Name(NameText(shape, []), StreamEnd(start, shape))
  }

  /** A name is read exactly when one is spelled there within 32 pointers,
      and then it is that name and ends where the spelling leaves the stream. */
  lemma NameExactly(m: seq<Byte>, start: nat, name: Name)
    ensures NameAt(m, start) == Ok(name) <==> exists shape :: IsSpelling(m, start, name, shape)
  {
    if NameAt(m, start) == Ok(name) {
      var shape := ReadIsSpelled(m, start, 0, [], None);
      SpelledReads(m, start, shape, 0, [], None);
      assert IsSpelling(m, start, name, shape);
    }
    if exists shape :: IsSpelling(m, start, name, shape) {
      var shape :| IsSpelling(m, start, name, shape);
      SpelledReads(m, start, shape, 0, [], None);
    }
  }

  // --------------------------------------------------- the encoder's names

  /** `w` stands in `m` at `at`. */
  ghost predicate Stands(m: seq<Byte>, at: nat, w: seq<Byte>) {
    at + |w| <= |m| && m[at..at + |w|] == w
  }

  lemma StandsSplit(m: seq<Byte>, at: nat, v: seq<Byte>, w: seq<Byte>)
    requires Stands(m, at, v + w)
    ensures Stands(m, at, v) && Stands(m, at + |v|, w)
  {
    var all := m[at..at + |v + w|];
    assert all[..|v|] == v && all[|v|..] == w;
  }

  /** The shape of the encoder's labels in front of `tail`. */
  ghost function LabelShape(labels: seq<string>, tail: Shape): Shape {
    if labels == [] then tail else Label(Encode(labels[0]), LabelShape(labels[1..], tail))
  }

  /** One label in front of more bytes. */
  lemma LabelStands(m: seq<Byte>, at: nat, bytes: seq<Byte>, rest: seq<Byte>)
    requires |bytes| <= MAX_LABEL && Stands(m, at, [|bytes|] + bytes + rest)
    ensures at + 1 + |bytes| <= |m|
    ensures m[at] == |bytes| && m[at + 1..at + 1 + |bytes|] == bytes
    ensures Stands(m, at + 1 + |bytes|, rest)
  {
    StandsSplit(m, at, [|bytes|] + bytes, rest);
    var w := m[at..at + 1 + |bytes|];
    assert w == [|bytes|] + bytes;
    assert w[0] == m[at] && w[1..] == m[at + 1..at + 1 + |bytes|];
  }

  lemma {:induction false} LabelsSpell(m: seq<Byte>, at: nat, labels: seq<string>, tail: Shape, end: nat)
    requires WireLabels(labels).Ok?
    requires Stands(m, at, WireLabels(labels).value)
    requires end == at + |WireLabels(labels).value| && Spells(m, end, tail)
    ensures Spells(m, at, LabelShape(labels, tail))
    decreases |labels|
  {
    hide Encode, Stands, Target;
    if labels != [] {
      var bytes := Encode(labels[0]);
      LabelStands(m, at, bytes, WireLabels(labels[1..]).value);
      LabelsSpell(m, at + 1 + |bytes|, labels[1..], tail, end);
    }
  }

  lemma {:induction false} LabelsShape(at: nat, labels: seq<string>, tail: Shape)
    requires WireLabels(labels).Ok?
    ensures Jumps(LabelShape(labels, tail)) == Jumps(tail)
    ensures StreamEnd(at, LabelShape(labels, tail)) == StreamEnd(at + |WireLabels(labels).value|, tail)
    decreases |labels|
  {
    if labels != [] {
      LabelsShape(at + 1 + |Encode(labels[0])|, labels[1..], tail);
    }
  }

  /** `text` with more labels, a dot before each but the very first. */
  ghost function Joined(text: string, labels: seq<string>): string
    decreases |labels|
  {
    if labels == [] then text
    else Joined(if text == [] then labels[0] else text + "." + labels[0], labels[1..])
  }

  lemma ExtendsWith(text: string, part: string)
    ensures Extended(text, Encode(part)) == if text == [] then part else text + "." + part
  {
    LossyEncoded(part);
  }

  lemma {:induction false} LabelsText(labels: seq<string>, tail: Shape, text: string)
    ensures NameText(LabelShape(labels, tail), text) == NameText(tail, Joined(text, labels))
    decreases |labels|
  {
    if labels != [] {
      var longer := if text == [] then labels[0] else text + "." + labels[0];
      ExtendsWith(text, labels[0]);
      LabelsText(labels[1..], tail, longer);
    }
  }

  lemma {:induction false} JoinedShifts(front: string, text: string, labels: seq<string>)
    requires text != []
    ensures Joined(front + text, labels) == front + Joined(text, labels)
    decreases |labels|
  {
    if labels != [] {
      assert front + text + "." + labels[0] == front + (text + "." + labels[0]);
      JoinedShifts(front, text + "." + labels[0], labels[1..]);
    }
  }

  /** The parts with a dot between every two. */
  ghost function Join(parts: seq<string>): string
    requires parts != []
  {
    if |parts| == 1 then parts[0] else parts[0] + ("." + Join(parts[1..]))
  }

  lemma JoinOf(parts: seq<string>)
    requires parts != []
    ensures |parts| == 1 ==> Join(parts) == parts[0]
    ensures |parts| > 1 ==> Join(parts) == parts[0] + ("." + Join(parts[1..]))
  {
  }

  lemma JoinGrows(c: char, parts: seq<string>)
    requires parts != []
    ensures Join([[c] + parts[0]] + parts[1..]) == [c] + Join(parts)
  {
    hide Join;
    var grown := [[c] + parts[0]] + parts[1..];
    assert grown[0] == [c] + parts[0] && grown[1..] == parts[1..] && |grown| == |parts|;
    JoinOf(grown);
    JoinOf(parts);
    if |parts| > 1 {
      Regroup([c], parts[0], "." + Join(parts[1..]));
    }
  }

  lemma JoinAfterDot(parts: seq<string>)
    requires parts != []
    ensures Join([[]] + parts) == ['.'] + Join(parts)
  {
    assert ([[]] + parts)[1..] == parts;
    assert [] + ("." + Join(parts)) == "." + Join(parts);
  }

  lemma {:induction false} SplitJoins(s: string)
    ensures Join(Split(s)) == s
  {
    if s != [] {
      SplitJoins(s[1..]);
      JoinGrows(s[0], Split(s[1..]));
      JoinAfterDot(Split(s[1..]));
      hide Join;
      assert s == [s[0]] + s[1..];
    }
  }

  lemma {:induction false} JoinedIsJoin(parts: seq<string>)
    requires parts != [] && forall k :: 0 <= k < |parts| ==> parts[k] != []
    ensures Joined([], parts) == Join(parts)
    decreases |parts|
  {
    if |parts| > 1 {
      var rest := parts[1..];
      JoinedIsJoin(rest);
      assert parts[0] + "." + rest[0] == (parts[0] + ".") + rest[0];
      JoinedShifts(parts[0] + ".", rest[0], rest[1..]);
    }
  }

  lemma {:induction false} GoodLabels(labels: seq<string>)
    requires WireLabels(labels).Ok?
    ensures forall k :: 0 <= k < |labels| ==> labels[k] != []
  {
    if labels != [] {
      GoodLabels(labels[1..]);
    }
  }

  // --------------------------------------------------- what is encodable

  predicate Sized(labels: seq<string>) {
    forall k :: 0 <= k < |labels| ==> 1 <= |labels[k]| <= MAX_LABEL
  }

  predicate AllAscii(labels: seq<string>) {
    forall k :: 0 <= k < |labels| ==> IsAscii(labels[k])
  }

  lemma {:induction false} WireLabelsExactly(labels: seq<string>)
    requires AllAscii(labels)
    ensures WireLabels(labels).Ok? <==> Sized(labels)
    ensures WireLabels(labels).Ok? && labels != [] ==> |WireLabels(labels).value| == |Join(labels)| + 1
  {
    hide Encode;
    if labels != [] {
      EncodeAscii(labels[0]);
      WireLabelsExactly(labels[1..]);
      assert Sized(labels) <==> 1 <= |labels[0]| <= MAX_LABEL && Sized(labels[1..]) by {
        assert labels == [labels[0]] + labels[1..];
      }
    }
  }

  lemma {:induction false} SplitParts(s: string)
    ensures forall k :: 0 <= k < |Split(s)| ==> '.' !in Split(s)[k]
    ensures IsAscii(s) ==> AllAscii(Split(s))
  {
    if s != [] {
      SplitParts(s[1..]);
    }
  }

  /** What can be asked about: after its trailing dots go, a name of 1 to 253
      ASCII characters whose labels are of 1 to 63. It takes two bytes more in
      the message than it has characters. */
  lemma EncodesExactly(name: string)
    ensures var t := TrimDots(name);
            && (EncodeName(name).Ok? <==> 1 <= |t| <= 253 && IsAscii(t) && Sized(Split(t)))
            && (EncodeName(name).Ok? ==> |EncodeName(name).value| == |t| + 2)
  {
    var t := TrimDots(name);
    SplitParts(t);
    SplitJoins(t);
    hide TrimDots, Split, Join, Sized, WireLabels;
    if IsAscii(t) {
      WireLabelsExactly(Split(t));
    }
  }

  /** Two characters that differ at most in ASCII case. */
  predicate SameLetter(c: char, d: char) {
    c == d || ('A' <= c <= 'Z' && d as int == c as int + 32) || ('a' <= c <= 'z' && d as int == c as int - 32)
  }

  lemma LowerSame(c: char, d: char)
    ensures AsciiLower(c) == AsciiLower(d) <==> SameLetter(c, d)
  {
  }

  /** Strings of one length whose characters differ at most in case. */
  predicate SameLetters(s: string, t: string) {
    |s| == |t| && forall k :: 0 <= k < |s| ==> SameLetter(s[k], t[k])
  }

  lemma LowerExactly(s: string, t: string)
    ensures Lower(s) == Lower(t) <==> SameLetters(s, t)
  {
    hide AsciiLower, SameLetter;
    forall k | 0 <= k < |s| && k < |t|
      ensures Lower(s)[k] == Lower(t)[k] <==> SameLetter(s[k], t[k])
    {
      LowerSame(s[k], t[k]);
    }
    if SameLetters(s, t) {
      assert forall k :: 0 <= k < |s| ==> Lower(s)[k] == Lower(t)[k];
    }
  }

  /** Names are told apart without case and without trailing dots, and by
      nothing else. */
  lemma FoldExactly(a: string, b: string)
    ensures Fold(a) == Fold(b) <==> SameLetters(TrimDots(a), TrimDots(b))
    ensures forall k :: |TrimDots(a)| <= k < |a| ==> a[k] == '.'
  {
    hide Lower, SameLetters;
    LowerExactly(TrimDots(a), TrimDots(b));
    TrimmedAreDots(a);
  }

  lemma {:induction false} TrimmedAreDots(s: string)
    ensures forall k :: |TrimDots(s)| <= k < |s| ==> s[k] == '.'
  {
    if s != [] && s[|s| - 1] == '.' {
      TrimmedAreDots(s[..|s| - 1]);
    }
  }

  /** What the encoder writes, wherever it stands in a message, reads back as
      the name without its trailing dots, and ends just past it. */
  lemma EncodedNameReads(m: seq<Byte>, at: nat, name: string)
    requires EncodeName(name).Ok? && Stands(m, at, EncodeName(name).value)
    ensures NameAt(m, at) == Ok(Name(TrimDots(name), at + |EncodeName(name).value|))
  {
    hide *;
    var shape := EncodedSpells(m, at, name);
    SpellingReads(m, at, shape);
  }

  lemma SpellingReads(m: seq<Byte>, at: nat, shape: Shape)
    requires Spells(m, at, shape) && Jumps(shape) <= MAX_JUMPS
    ensures NameAt(m, at) == Ok(Name(NameText(shape, []), StreamEnd(at, shape)))
  {
    SpelledReads(m, at, shape, 0, [], None);
  }

  lemma EncodedSpells(m: seq<Byte>, at: nat, name: string) returns (shape: Shape)
    requires EncodeName(name).Ok? && Stands(m, at, EncodeName(name).value)
    ensures Spells(m, at, shape) && Jumps(shape) == 0
    ensures NameText(shape, []) == TrimDots(name) && StreamEnd(at, shape) == at + |EncodeName(name).value|
  {
    shape := LabelsEndAtRoot(m, at, Split(TrimDots(name)));
    SplitJoins(TrimDots(name));
  }

  lemma LabelsEndAtRoot(m: seq<Byte>, at: nat, labels: seq<string>) returns (shape: Shape)
    requires labels != [] && WireLabels(labels).Ok? && Stands(m, at, WireLabels(labels).value + [0])
    ensures Spells(m, at, shape) && Jumps(shape) == 0
    ensures NameText(shape, []) == Join(labels) && StreamEnd(at, shape) == at + |WireLabels(labels).value| + 1
  {
    var wire := WireLabels(labels).value;
    StandsSplit(m, at, wire, [0]);
    var end := at + |wire|;
    assert m[end] == m[end..end + 1][0];
    shape := LabelShape(labels, Root);
    LabelsSpell(m, at, labels, Root, end);
    LabelsShape(at, labels, Root);
    LabelsText(labels, Root, []);
    GoodLabels(labels);
    JoinedIsJoin(labels);
  }

  /** The two bytes of a pointer; fourteen bits is all it can say. */
  function PointerBytes(target: nat): seq<Byte>
    requires target < 0x4000
  {
    [0xC0 + target / 0x100, target % 0x100]
  }

  /** A pointer to an encoded name reads as that name, but ends after the
      pointer, not wherever it led. */
  lemma PointerReads(m: seq<Byte>, at: nat, target: nat, name: string)
    requires target < 0x4000 && Stands(m, at, PointerBytes(target))
    requires EncodeName(name).Ok? && Stands(m, target, EncodeName(name).value)
    ensures NameAt(m, at) == Ok(Name(TrimDots(name), at + 2))
  {
    var shape := EncodedSpells(m, target, name);
    PointerSpells(m, at, target, shape);
    SpellingReads(m, at, Pointer(target, shape));
  }

  /** Sharing a suffix (section 4.1.4): labels of one's own, then a pointer to
      where another name begins. */
  lemma SharedSuffixReads(m: seq<Byte>, at: nat, prefix: string, target: nat, name: string)
    requires WireLabels(Split(prefix)).Ok? && target < 0x4000
    requires Stands(m, at, WireLabels(Split(prefix)).value + PointerBytes(target))
    requires EncodeName(name).Ok? && Stands(m, target, EncodeName(name).value)
    ensures NameAt(m, at) == Ok(Name(prefix + "." + TrimDots(name), at + |WireLabels(Split(prefix)).value| + 2))
  {
    hide *;
    NamesHaveText(name);
    var labels := Split(prefix);
    var wire := WireLabels(labels).value;
    StandsSplit(m, at, wire, PointerBytes(target));
    var shape := EncodedSpells(m, target, name);
    SplitJoins(prefix);
    SplitOfNothing(prefix);
    LabelsEndAtPointer(m, at, labels, target, shape);
  }

  lemma NamesHaveText(name: string)
    requires EncodeName(name).Ok?
    ensures TrimDots(name) != []
  {
    hide TrimDots, WireLabels, Split;
  }

  lemma LabelsEndAtPointer(m: seq<Byte>, at: nat, labels: seq<string>, target: nat, shape: Shape)
    requires labels != [] && WireLabels(labels).Ok? && target < 0x4000
    requires Stands(m, at, WireLabels(labels).value)
    requires Stands(m, at + |WireLabels(labels).value|, PointerBytes(target))
    requires Spells(m, target, shape) && Jumps(shape) == 0 && Join(labels) != [] && NameText(shape, []) != []
    ensures NameAt(m, at)
         == Ok(Name(Join(labels) + "." + NameText(shape, []), at + |WireLabels(labels).value| + 2))
  {
    hide WireLabels, Stands, NameAt, Join, Spells, NameText, LabelShape, Joined, PointerBytes, Split;
    var end := at + |WireLabels(labels).value|;
    var tail := Pointer(target, shape);
    PointerSpells(m, end, target, shape);
    LabelsSpell(m, at, labels, tail, end);
    LabelsShape(at, labels, tail);
    SharedText(m, labels, target, shape);
    SpellingReads(m, at, LabelShape(labels, tail));
  }

  lemma SharedText(m: seq<Byte>, labels: seq<string>, target: nat, shape: Shape)
    requires labels != [] && WireLabels(labels).Ok?
    requires Spells(m, target, shape) && Join(labels) != [] && NameText(shape, []) != []
    ensures NameText(LabelShape(labels, Pointer(target, shape)), []) == Join(labels) + "." + NameText(shape, [])
  {
    LabelsText(labels, Pointer(target, shape), []);
    GoodLabels(labels);
    JoinedIsJoin(labels);
    TextAppends(m, target, shape, Join(labels));
  }

  lemma SplitOfNothing(s: string)
    requires WireLabels(Split(s)).Ok?
    ensures s != []
  {
    GoodLabels(Split(s));
    assert Split([]) == [[]] && Split([])[0] == [];
  }

  lemma PointerSpells(m: seq<Byte>, at: nat, target: nat, shape: Shape)
    requires target < 0x4000 && Stands(m, at, PointerBytes(target)) && Spells(m, target, shape)
    ensures Spells(m, at, Pointer(target, shape))
  {
    var w := m[at..at + 2];
    assert w[0] == m[at] && w[1] == m[at + 1];
  }

  lemma {:induction false} TextShifts(shape: Shape, front: string, text: string)
    requires text != []
    ensures NameText(shape, front + text) == front + NameText(shape, text)
    decreases shape
  {
    match shape
    case Root =>
    case Label(bytes, rest) =>
      assert Extended(front + text, bytes) == front + Extended(text, bytes);
      TextShifts(rest, front, Extended(text, bytes));
    case Pointer(_, rest) => TextShifts(rest, front, text);
  }

  /** After a text, the labels of a name add a dot and the name. */
  lemma {:induction false} TextAppends(m: seq<Byte>, at: nat, shape: Shape, text: string)
    requires Spells(m, at, shape) && text != [] && NameText(shape, []) != []
    ensures NameText(shape, text) == text + "." + NameText(shape, [])
    decreases shape
  {
    match shape
    case Root =>
    case Label(bytes, rest) =>
      assert Extended([], bytes) == Lossy(bytes);
      TextShifts(rest, text + ".", Lossy(bytes));
    case Pointer(target, rest) => TextAppends(m, target, rest, text);
  }

  // ----------------------------------------------------------- cut messages

  /** More bytes at the end never change a name that could be read. */
  lemma {:induction false} NamePrefix(p: seq<Byte>, m: seq<Byte>, at: nat, jumps: nat, text: string, after: Option<nat>)
    requires p <= m && jumps <= MAX_JUMPS
    requires after.Some? ==> after.value <= |p|
    requires NameFrom(p, at, jumps, text, after).Ok?
    ensures NameFrom(m, at, jumps, text, after) == NameFrom(p, at, jumps, text, after)
    decreases MAX_JUMPS - jumps, |p| - at
  {
    hide Extended, Target;
    var length := p[at];
    if length == 0 {
    } else if length < 0x40 {
      var to := at + 1 + length;
      assert m[at + 1..to] == p[at + 1..to];
      NamePrefix(p, m, to, jumps, Extended(text, p[at + 1..to]), after);
    } else {
      NamePrefix(p, m, Target(length, p[at + 1]), jumps + 1, text, if after.Some? then after else Some(at + 2));
    }
  }
}
