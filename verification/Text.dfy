/** The string operations the hub's small formats are read with. */
module Text {
  import opened Wrappers

  /** Unicode's White_Space property, which `trim` and `is_whitespace` test. */
  predicate IsWhitespace(c: char) {
    || '\U{09}' <= c <= '\U{0D}'
    || c == ' '
    || c == '\U{85}'
    || c == '\U{A0}'
    || c == '\U{1680}'
    || '\U{2000}' <= c <= '\U{200A}'
    || c == '\U{2028}'
    || c == '\U{2029}'
    || c == '\U{202F}'
    || c == '\U{205F}'
    || c == '\U{3000}'
  }

  predicate IsAsciiAlnum(c: char) {
    '0' <= c <= '9' || 'A' <= c <= 'Z' || 'a' <= c <= 'z'
  }

  function AsciiLower(c: char): char {
    if 'A' <= c <= 'Z' then c - 'A' + 'a' else c
  }

  function TrimStart(s: string): (r: string)
    ensures r != [] ==> !IsWhitespace(r[0])
    ensures s != [] && !IsWhitespace(s[0]) ==> r == s
  {
    if s != [] && IsWhitespace(s[0]) then TrimStart(s[1..]) else s
  }

  function TrimEnd(s: string): (r: string)
    ensures r <= s
    ensures r != [] ==> !IsWhitespace(r[|r| - 1])
    ensures s != [] && !IsWhitespace(s[|s| - 1]) ==> r == s
  {
    if s != [] && IsWhitespace(s[|s| - 1]) then TrimEnd(s[..|s| - 1]) else s
  }

  /** `trim`. */
  function Trim(s: string): (r: string)
    ensures r != [] ==> !IsWhitespace(r[0]) && !IsWhitespace(r[|r| - 1])
    ensures s != [] && !IsWhitespace(s[0]) && !IsWhitespace(s[|s| - 1]) ==> r == s
  {
    TrimEnd(TrimStart(s))
  }

  /** Everything before the first `c`, and everything after it. */
  function SplitOnce(s: string, c: char): (r: Option<(string, string)>)
    ensures r.None? <==> c !in s
    ensures r.Some? ==> s == r.value.0 + [c] + r.value.1 && c !in r.value.0
  {
    if s == [] then None
    else if s[0] == c then Some(([], s[1..]))
    else
      match SplitOnce(s[1..], c)
      case None => None
      case Some(p) => Some(([s[0]] + p.0, p.1))
  }

  /** Everything before the last `c`, and everything after it. */
  function SplitLast(s: string, c: char): (r: Option<(string, string)>)
    ensures r.None? <==> c !in s
    ensures r.Some? ==> s == r.value.0 + [c] + r.value.1 && c !in r.value.1
  {
    if s == [] then None
    else
      var k := |s| - 1;
      if s[k] == c then Some((s[..k], []))
      else
        match SplitLast(s[..k], c)
        case None => None
        case Some(p) => Some((p.0, p.1 + [s[k]]))
  }

  lemma {:induction false} SplitOnceAt(head: string, c: char, tail: string)
    requires c !in head
    ensures SplitOnce(head + [c] + tail, c) == Some((head, tail))
  {
    var s := head + [c] + tail;
    if head == [] {
      assert s[0] == c && s[1..] == tail;
    } else {
      assert s[1..] == head[1..] + [c] + tail;
      SplitOnceAt(head[1..], c, tail);
      assert s[0] == head[0] != c && [head[0]] + head[1..] == head;
    }
  }

  lemma {:induction false} SplitLastAt(head: string, c: char, tail: string)
    requires c !in tail
    ensures SplitLast(head + [c] + tail, c) == Some((head, tail))
    decreases |tail|
  {
    var s := head + [c] + tail;
    var k := |s| - 1;
    if tail == [] {
      assert s[k] == c && s[..k] == head;
    } else {
      var t := |tail| - 1;
      assert s[..k] == head + [c] + tail[..t];
      SplitLastAt(head, c, tail[..t]);
      assert s[k] == tail[t] != c && tail[..t] + [tail[t]] == tail;
    }
  }
}
