/** DNS-01 challenge records (section 8.4 of RFC 8555): the stamp each carries,
    and which of them a sweep removes. */
module Challenge {
  import opened Wrappers
  import opened Integers
  import opened Text

  const MARKER: string := "anago DNS-01 challenge"
  const LIFETIME: I64 := 600

  type Id = nat

  /** A DNS record at the challenge name, as far as a sweep looks at it. */
  datatype Record = Record(id: Id, kind: string, comment: Option<string>)

  /** `challenge_comment`. */
  function Comment(now: I64, pid: nat): string {
    MARKER + " at=" + Show(now) + " pid=" + Digits(pid)
  }

  predicate Solid(word: string) {
    forall k :: 0 <= k < |word| ==> !IsWhitespace(word[k])
  }

  /** The words of `s`, with `word` read so far. */
  function WordsFrom(s: string, word: string): seq<string> {
    if s == [] then
      if word == [] then [] else [word]
    else if IsWhitespace(s[0]) then (if word == [] then [] else [word]) + WordsFrom(s[1..], [])
    else WordsFrom(s[1..], word + [s[0]])
  }

  /** `split_whitespace`. */
  function Words(s: string): seq<string> {
    WordsFrom(s, [])
  }

  /** The rest of the first word that starts with `prefix`. */
  function FirstAfter(words: seq<string>, prefix: string): Option<string> {
    if words == [] then None
    else if prefix <= words[0] then Some(words[0][|prefix|..])
    else FirstAfter(words[1..], prefix)
  }

  /** `written_at`. */
  function WrittenAt(comment: string): Option<I64> {
    if !(MARKER <= comment) then None
    else
      match FirstAfter(Words(comment), "at=")
      case None => None
      case Some(stamp) => ParseI64(stamp)
  }

  predicate PastLifetime(record: Record, now: I64) {
    match record.comment
    case None => false
    case Some(comment) =>
      match WrittenAt(comment)
      case None => false
      case Some(written) => SatSub(now, written) > LIFETIME
  }

  /** `eq_ignore_ascii_case("TXT")`. */
  predicate IsTxt(kind: string) {
    |kind| == 3 && AsciiLower(kind[0]) == 't' && AsciiLower(kind[1]) == 'x' && AsciiLower(kind[2]) == 't'
  }

  predicate IsStale(record: Record, now: I64) {
    IsTxt(record.kind) && PastLifetime(record, now)
  }

  /** `stale_challenges`, in the order listed. */
  function Stale(records: seq<Record>, now: I64): (r: seq<Record>)
    ensures forall x :: x in r <==> x in records && IsStale(x, now)
  {
    if records == [] then []
    else if IsStale(records[0], now) then [records[0]] + Stale(records[1..], now)
    else Stale(records[1..], now)
  }

  /** `at` are the places in `records` of the stale ones, and `r` is what
      stands there. */
  ghost predicate Places(at: seq<nat>, records: seq<Record>, now: I64, r: seq<Record>) {
    && |at| == |r|
    && (forall i, j :: 0 <= i < j < |at| ==> at[i] < at[j])
    && (forall i :: 0 <= i < |at| ==> at[i] < |records| && records[at[i]] == r[i])
    && forall k :: 0 <= k < |records| ==> (IsStale(records[k], now) <==> exists i :: 0 <= i < |at| && at[i] == k)
  }

  /** The records swept are exactly the stale ones listed, each once and in the
      order listed. */
  lemma {:induction false} StaleInOrder(records: seq<Record>, now: I64) returns (at: seq<nat>)
    ensures Places(at, records, now, Stale(records, now))
  {
    if records == [] {
      at := [];
    } else {
      var n := |records| - 1;
      at := StaleInOrder(records[..n], now);
      hide IsStale, Stale;
      StaleOneMore(records[..n], records[n], now);
      assert records[..n] + [records[n]] == records;
      OnePlaceMore(at, records[..n], records[n], now, Stale(records[..n], now));
      if IsStale(records[n], now) {
        at := at + [n];
      }
    }
  }

  lemma {:induction false} StaleOneMore(records: seq<Record>, x: Record, now: I64)
    ensures Stale(records + [x], now) == Stale(records, now) + if IsStale(x, now) then [x] else []
  {
    hide IsStale;
    if records != [] {
      assert (records + [x])[1..] == records[1..] + [x];
      StaleOneMore(records[1..], x, now);
    }
  }

  lemma OnePlaceMore(at: seq<nat>, records: seq<Record>, x: Record, now: I64, r: seq<Record>)
    requires Places(at, records, now, r)
    ensures IsStale(x, now) ==> Places(at + [|records|], records + [x], now, r + [x])
    ensures !IsStale(x, now) ==> Places(at, records + [x], now, r)
  {
    hide IsStale;
    var longer, more := at + [|records|], records + [x];
    assert forall i :: 0 <= i < |at| ==> longer[i] == at[i];
    assert longer[|at|] == |records|;
    forall k | 0 <= k < |more| && IsStale(more[k], now)
      ensures k < |records| ==> exists i :: 0 <= i < |at| && at[i] == k
      ensures IsStale(x, now) ==> exists i :: 0 <= i < |longer| && longer[i] == k
    {
      if k < |records| {
        var i :| 0 <= i < |at| && at[i] == k;
        assert longer[i] == k;
      }
    }
  }

  // ------------------------------------------------------------- the stamp

  lemma {:induction false} WordReads(word: string, s: string, done: string)
    requires Solid(word)
    ensures WordsFrom(word + s, done) == WordsFrom(s, done + word)
  {
    if word == [] {
      assert word + s == s && done + word == done;
    } else {
      assert (word + s)[1..] == word[1..] + s;
      WordReads(word[1..], s, done + [word[0]]);
      assert done + [word[0]] + word[1..] == done + word;
    }
  }

  lemma WordThenSpace(word: string, s: string)
    requires Solid(word) && word != []
    ensures Words(word + ([' '] + s)) == [word] + Words(s)
  {
    WordReads(word, [' '] + s, []);
    assert [] + word == word && ([' '] + s)[1..] == s;
  }

  lemma LastWord(word: string)
    requires Solid(word) && word != []
    ensures Words(word) == [word]
  {
    WordReads(word, [], []);
    assert word + [] == word && [] + word == word;
  }

  lemma {:induction false} NumbersAreSolid(n: int)
    ensures Solid(Show(n))
  {
  }

  /** A stamp reads back: for every time an `i64` holds and every process. */
  lemma StampReadsBack(now: I64, pid: nat)
    ensures WrittenAt(Comment(now, pid)) == Some(now)
  {
    var at, process := "at=" + Show(now), "pid=" + Digits(pid);
    CommentWords(now, pid, at, process);
    ShownReadsBack(now);
    var words := ["anago", "DNS-01", "challenge", at, process];
    hide Words, ParseI64, Show;
    assert words[0][1] == 'n' && words[1][0] == 'D' && words[2][0] == 'c';
    SkipsWord(words, "at=", 1);
    assert words[1..][0] == words[1] && words[2..][0] == words[2];
    SkipsWord(words[1..], "at=", 0);
    SkipsWord(words[2..], "at=", 0);
    assert words[1..][1..] == words[2..] && words[2..][1..] == [at, process];
    assert at[3..] == Show(now);
    StartsWithMarker(now, pid);
  }

  lemma SkipsWord(words: seq<string>, prefix: string, k: nat)
    requires words != [] && k < |words[0]| && k < |prefix| && words[0][k] != prefix[k]
    ensures FirstAfter(words, prefix) == FirstAfter(words[1..], prefix)
  {
  }

  lemma StartsWithMarker(now: I64, pid: nat)
    ensures MARKER <= Comment(now, pid)
  {
  }

  lemma CommentWords(now: I64, pid: nat, at: string, process: string)
    requires at == "at=" + Show(now) && process == "pid=" + Digits(pid)
    ensures Words(Comment(now, pid)) == ["anago", "DNS-01", "challenge", at, process]
  {
    NumbersAreSolid(now);
    NumbersAreSolid(pid);
    hide Words, Show, Digits, WordsFrom;
    CommentSpaced(now, pid, at, process);
    FiveWords("anago", "DNS-01", "challenge", at, process);
  }

  function Spaced(a: string, b: string, c: string, d: string, e: string): string {
    a + ([' '] + (b + ([' '] + (c + ([' '] + (d + ([' '] + e)))))))
  }

  lemma CommentSpaced(now: I64, pid: nat, at: string, process: string)
    requires at == "at=" + Show(now) && process == "pid=" + Digits(pid)
    ensures Comment(now, pid) == Spaced("anago", "DNS-01", "challenge", at, process)
  {
    hide Show, Digits;
    var tail := [' '] + (at + ([' '] + process));
    MarkerSpaced(tail);
    assert Comment(now, pid) == MARKER + tail;
  }

  lemma MarkerSpaced(tail: string)
    ensures MARKER + tail == "anago" + ([' '] + ("DNS-01" + ([' '] + ("challenge" + tail))))
  {
  }

  lemma FiveWords(a: string, b: string, c: string, d: string, e: string)
    requires Solid(a) && Solid(b) && Solid(c) && Solid(d) && Solid(e)
    requires a != [] && b != [] && c != [] && d != [] && e != []
    ensures Words(Spaced(a, b, c, d, e)) == [a, b, c, d, e]
  {
    hide Words, Solid;
    var last := d + ([' '] + e);
    var third := c + ([' '] + last);
    var second := b + ([' '] + third);
    LastWord(e);
    WordThenSpace(d, e);
    WordThenSpace(c, last);
    WordThenSpace(b, third);
    WordThenSpace(a, second);
  }
}
