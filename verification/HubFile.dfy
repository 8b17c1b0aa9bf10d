/** The hub as it runs: every request reads the state file, changes what it
    read, and writes it back whole, or leaves the file as it was. */
module HubFile {
  import opened Wrappers
  import opened Json
  import opened Credentials
  import opened Hub
  import opened HubRuns
  import opened StateFile
  import opened StateRoundTrip

  /** What one request does under the lock, and whether its write worked; a
      write is whole or not at all. */
  datatype Request = Request(ops: seq<Op>, written: bool)

  /** The state after a list of changes, or none when one of them is refused. */
  function Changed(w: World, s: State, ops: seq<Op>): Option<State>
    decreases ops
  {
    if ops == [] then Some(s)
    else
      var (after, answer) := Apply(w, s, ops[0]);
      if Refused(answer) then None else Changed(w, after, ops[1..])
  }

  /** The file after a request: read, change, commit. A file that cannot be
      read, a refusal and a failed write all leave it alone. */
  function Served(w: World, file: string, request: Request): string {
    match Load(w, file)
    case Err(_) => file
    case Ok(s) =>
      match Changed(w, s, request.ops)
      case None => file
      case Some(after) => if request.written then Save(after) else file
  }

  function FileBefore(w: World, file: string, requests: seq<Request>, i: nat): string
    requires i <= |requests|
  {
    if i == 0 then file else Served(w, FileBefore(w, file, requests, i - 1), requests[i - 1])
  }

  function Final(w: World, s: State, ops: seq<Op>): State {
    Before(w, s, ops, |ops|)
  }

  /** The changes that lasted, in order: those of every request that was not
      refused and whose write worked. */
  function Lasting(w: World, s: State, requests: seq<Request>, i: nat): seq<Op>
    requires i <= |requests|
    decreases i, 0
  {
    if i == 0 then []
    else
      var done := Lasting(w, s, requests, i - 1);
      if Writes(w, s, requests, i - 1) then done + requests[i - 1].ops else done
  }

  /** Request `j` is not refused and its write works. */
  predicate Writes(w: World, s: State, requests: seq<Request>, j: nat)
    requires j < |requests|
    decreases j, 1
  {
    requests[j].written && Changed(w, Final(w, s, Lasting(w, s, requests, j)), requests[j].ops).Some?
  }

  // ------------------------------------------------------- runs end to end

  lemma {:induction false} PrefixRuns(w: World, s: State, a: seq<Op>, b: seq<Op>, i: nat)
    requires i <= |a|
    ensures Before(w, s, a + b, i) == Before(w, s, a, i)
  {
    hide Apply;
    if i > 0 {
      PrefixRuns(w, s, a, b, i - 1);
    }
  }

  lemma {:induction false} RunsOn(w: World, s: State, a: seq<Op>, b: seq<Op>, j: nat)
    requires j <= |b|
    ensures Before(w, s, a + b, |a| + j) == Before(w, Final(w, s, a), b, j)
  {
    hide Apply;
    if j == 0 {
      PrefixRuns(w, s, a, b, |a|);
    } else {
      RunsOn(w, s, a, b, j - 1);
      assert (a + b)[|a| + j - 1] == b[j - 1];
    }
  }

  lemma {:induction false} ChangedIsFinal(w: World, s: State, ops: seq<Op>)
    requires Changed(w, s, ops).Some?
    ensures Changed(w, s, ops) == Some(Final(w, s, ops))
    decreases ops
  {
    hide Apply;
    if ops != [] {
      var after := Apply(w, s, ops[0]).0;
      ChangedIsFinal(w, after, ops[1..]);
      assert [ops[0]] + ops[1..] == ops;
      assert Final(w, s, [ops[0]]) == after by {
        assert Before(w, s, [ops[0]], 0) == s;
      }
      RunsOn(w, s, [ops[0]], ops[1..], |ops| - 1);
    }
  }

  // ---------------------------------------------------------- main results

  /** Every state a run reaches survives being written and read. */
  lemma ReachedSurvives(w: World, s: State, ops: seq<Op>, i: nat)
    requires Sound(w) && WellFormed(w, s) && i <= |ops|
    ensures Load(w, Save(Before(w, s, ops, i))) == Ok(Before(w, s, ops, i))
  {
    RunKeepsWellFormed(w, s, ops, i);
    SavedLoadsExactly(w, Before(w, s, ops, i));
  }

  /** Some request before `i` wrote the file. */
  ghost predicate Written(w: World, s: State, requests: seq<Request>, i: nat)
    requires i <= |requests|
  {
    exists j :: 0 <= j < i && Writes(w, s, requests, j)
  }

  /** Reading and writing the file at every request is the same run as keeping
      in memory the state it was first read as, whoever wrote it and whichever
      version it is: before each request the file reads as exactly the state
      reached by the changes that lasted. Until a request writes it, it is the
      file it was; from then on it is that state as saved. */
  lemma {:induction false} FileIsState(w: World, file: string, s: State, requests: seq<Request>, i: nat)
    requires Sound(w) && Load(w, file) == Ok(s) && i <= |requests|
    ensures var state := Final(w, s, Lasting(w, s, requests, i));
            && Load(w, FileBefore(w, file, requests, i)) == Ok(state)
            && FileBefore(w, file, requests, i) == if Written(w, s, requests, i) then Save(state) else file
  {
    hide Load, Save, Apply, Sound, Changed, Before;
    if i == 0 {
      NothingDone(w, s);
    } else {
      FileIsState(w, file, s, requests, i - 1);
      var done, request := Lasting(w, s, requests, i - 1), requests[i - 1];
      WrittenNext(w, s, requests, i - 1);
      if Writes(w, s, requests, i - 1) {
        ChangedIsFinal(w, Final(w, s, done), request.ops);
        RunsOn(w, s, done, request.ops, |request.ops|);
        LoadedReaches(w, file, s, Lasting(w, s, requests, i));
      }
    }
  }

  lemma WrittenNext(w: World, s: State, requests: seq<Request>, j: nat)
    requires j < |requests|
    ensures Written(w, s, requests, j + 1) <==> Written(w, s, requests, j) || Writes(w, s, requests, j)
  {
    hide Writes;
  }

  lemma LoadedReaches(w: World, file: string, s: State, ops: seq<Op>)
    requires Sound(w) && Load(w, file) == Ok(s)
    ensures Load(w, Save(Final(w, s, ops))) == Ok(Final(w, s, ops))
  {
    hide Save, Before;
    LoadedIsGood(w, file, s);
    hide Load;
    ReachedSurvives(w, s, ops, |ops|);
  }

  lemma LoadedIsGood(w: World, file: string, s: State)
    requires Sound(w) && Load(w, file) == Ok(s)
    ensures WellFormed(w, s)
  {
    hide Sound, WellFormed, FromJson, Read;
    LoadedIsWellFormed(w, Read(file).value);
  }

  lemma NothingDone(w: World, s: State)
    ensures Final(w, s, []) == s
  {
  }

  /** A file that cannot be read is never touched. */
  lemma {:induction false} UnreadableIsKept(w: World, file: string, requests: seq<Request>, i: nat)
    requires Load(w, file).Err? && i <= |requests|
    ensures FileBefore(w, file, requests, i) == file
  {
    hide Load, Changed;
    if i > 0 {
      UnreadableIsKept(w, file, requests, i - 1);
    }
  }

  /** So what holds of every run holds of the file: whoever reads it, whenever,
      reads an orderly state if it was one to begin with, in which every code
      spent since is a device or a removal. */
  lemma FileStaysOrderly(w: World, file: string, s: State, requests: seq<Request>, i: nat)
    requires Sound(w) && Load(w, file) == Ok(s) && Orderly(w, s) && i <= |requests|
    ensures var read := Load(w, FileBefore(w, file, requests, i));
            var lasting := Lasting(w, s, requests, i);
            && read.Ok? && Orderly(w, read.value)
            && SpentCodes(read.value.codes) - SpentCodes(s.codes)
               == |read.value.peers| - |s.peers| + RemovalsBefore(w, s, lasting, |lasting|)
  {
    var lasting := Lasting(w, s, requests, i);
    FileIsState(w, file, s, requests, i);
    hide Load, FileBefore, Orderly, Sound;
    RunKeepsOrder(w, s, lasting, |lasting|);
  }
}
