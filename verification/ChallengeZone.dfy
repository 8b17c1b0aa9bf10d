/** Any number of anago runs, and other clients, at one challenge name: what a
    sweep may delete, and what becomes of every record published. */
module ChallengeZone {
  import opened Wrappers
  import opened Integers
  import opened Challenge

  /** Where one run stands. `now` is the time its own clock told it when it was
      started, which stamps its record and judges everybody else's; `at` is what
      the time was. */
  datatype Phase =
    | Idle
    | Listing(now: I64, at: I64)
    | Sweeping(now: I64, at: I64, todo: seq<Record>)
    | Armed(id: Id)
    | Ended
    | LeftBehind(id: Id)
    | Killed(id: Id)

  /** The stamp a record carries, and when the run that made it was started. */
  datatype Birth = Birth(stamp: I64, at: I64)

  /** The zone and its clients. `made` tells of each record a run of anago
      created; `lost` are those it was never told it had created. No run's clock
      is more than `skew` seconds out. */
  datatype Zone = Zone(clock: I64, skew: nat, records: seq<Record>, nextId: Id, runs: seq<Phase>, made: map<Id, Birth>,
                       lost: set<Id>)

  /** What may happen next. `ok` is what the client is told; `took` is whether
      a request it is told failed took effect all the same. */
  datatype Event =
    | ClockTo(time: I64)
    | Begin(run: nat, now: I64)
    | List(run: nat, ok: bool)
    | Sweep(run: nat, ok: bool, took: bool)
    | Publish(run: nat, pid: nat, ok: bool, took: bool)
    | Remove(run: nat, ok: bool, took: bool)
    | DropGuard(run: nat, ok: bool, took: bool)
    | Crash(run: nat)
    | OtherCreates(kind: string, comment: Option<string>)
    | OtherEdits(id: Id, kind: string, comment: Option<string>)
    | OtherDeletes(id: Id)

  function Without(records: seq<Record>, id: Id): (r: seq<Record>)
    ensures forall x :: x in r <==> x in records && x.id != id
  {
    if records == [] then []
    else (if records[0].id == id then [] else [records[0]]) + Without(records[1..], id)
  }

  function Edited(records: seq<Record>, id: Id, kind: string, comment: Option<string>): (r: seq<Record>)
    ensures forall x :: x in r ==>
                          || (x in records && x.id != id)
                          || (x == Record(id, kind, comment) && HasId(records, id))
  {
    if records == [] then []
    else (if records[0].id == id then [Record(id, kind, comment)] else [records[0]]) +
         Edited(records[1..], id, kind, comment)
  }

  predicate HasId(records: seq<Record>, id: Id) {
    exists k :: 0 <= k < |records| && records[k].id == id
  }

  function At(z: Zone, run: nat): Phase {
    if run < |z.runs| then z.runs[run] else Idle
  }

  function Moves(z: Zone, run: nat, phase: Phase): Zone {
    if run < |z.runs| then z.(runs := z.runs[run := phase]) else z
  }

  function Deletes(z: Zone, id: Id, done: bool): Zone {
    if done then z.(records := Without(z.records, id)) else z
  }

  /** The record a run publishes, which others may see before it hears back. */
  function Creates(z: Zone, birth: Birth, pid: nat, heard: bool): Zone {
    z.(records := z.records + [Record(z.nextId, "TXT", Some(Comment(birth.stamp, pid)))], nextId := z.nextId + 1,
       made := z.made[z.nextId := birth], lost := if heard then z.lost else z.lost + {z.nextId})
  }

  /** The zone once a run has published. */
  function Published(z: Zone, run: nat, birth: Birth, pid: nat, ok: bool): Zone {
    Moves(Creates(z, birth, pid, ok), run, if ok then Armed(z.nextId) else Ended)
  }

  /** One event; one that cannot happen in the run's phase changes nothing. */
  function Apply(z: Zone, e: Event): Zone {
    match e
    case ClockTo(time) => if time >= z.clock then z.(clock := time) else z
    case Begin(run, now) =>
      if At(z, run).Idle? && Near(now, z.clock, z.skew) then Moves(z, run, Listing(now, z.clock)) else z
    case List(run, ok) =>
      var p := At(z, run);
      if !p.Listing? then z
      else if !ok then Moves(z, run, Ended)
      else Moves(z, run, Sweeping(p.now, p.at, Stale(z.records, p.now)))
    case Sweep(run, ok, took) =>
      if !Sweeps(z, run) then z
      else
        var p := At(z, run);
        var after := Deletes(z, p.todo[0].id, ok || took);
        Moves(after, run, if ok then Sweeping(p.now, p.at, p.todo[1..]) else Ended)
    case Publish(run, pid, ok, took) =>
      var p := At(z, run);
      if !Publishes(z, run) then z
      else if !ok && !took then Moves(z, run, Ended)
      else Published(z, run, Birth(p.now, p.at), pid, ok)
    case Remove(run, ok, took) =>
      if !At(z, run).Armed? then z
      else
        var after := Deletes(z, At(z, run).id, ok || took);
        if ok then Moves(after, run, Ended) else after
    case DropGuard(run, ok, took) =>
      if !At(z, run).Armed? then z
      else Moves(Deletes(z, At(z, run).id, ok || took), run, if ok then Ended else LeftBehind(At(z, run).id))
    case Crash(run) => Moves(z, run, Crashed(At(z, run)))
    case OtherCreates(kind, comment) =>
      z.(records := z.records + [Record(z.nextId, kind, comment)], nextId := z.nextId + 1)
    case OtherEdits(id, kind, comment) =>
      if id in z.made then z else z.(records := Edited(z.records, id, kind, comment))
    case OtherDeletes(id) => z.(records := Without(z.records, id))
  }

  /** What a run is when its process is killed: no guard gets to run. */
  function Crashed(p: Phase): Phase {
    match p
    case Listing(_, _) => Ended
    case Sweeping(_, _, _) => Ended
    case Armed(id) => Killed(id)
    case _ => p
  }

  /** Run `run` is about to delete the first record on its list. */
  predicate Sweeps(z: Zone, run: nat) {
    At(z, run).Sweeping? && At(z, run).todo != []
  }

  /** Run `run` has deleted all it meant to and is about to publish. */
  predicate Publishes(z: Zone, run: nat) {
    At(z, run).Sweeping? && At(z, run).todo == []
  }

  predicate Near(now: I64, clock: I64, skew: nat) {
    clock - skew <= now <= clock + skew
  }

  function Before(z: Zone, events: seq<Event>, i: nat): Zone
    requires i <= |events|
  {
    if i == 0 then z else Apply(Before(z, events, i - 1), events[i - 1])
  }

  /** Any records, whoever left them; runs that have not started. */
  ghost predicate Start(z: Zone) {
    && z.made == map[] && z.lost == {}
    && (forall x :: x in z.records ==> x.id < z.nextId)
    && forall r :: 0 <= r < |z.runs| ==> z.runs[r] == Idle
  }

  // ------------------------------------------------------------ invariants

  ghost predicate IdsKnown(z: Zone) {
    (forall x :: x in z.records ==> x.id < z.nextId) && forall id :: id in z.made ==> id < z.nextId
  }

  /** A record anago made still says so, with the stamp it was made with. */
  ghost predicate Stamped(z: Zone) {
    && (forall id :: id in z.made ==> Near(z.made[id].stamp, z.made[id].at, z.skew))
    && forall x :: x in z.records && x.id in z.made ==>
                     IsTxt(x.kind) && x.comment.Some? && WrittenAt(x.comment.value) == Some(z.made[x.id].stamp)
  }

  /** Everything on a run's list was stale when listed, and if anago made it,
      old by the run's own time. */
  ghost predicate Aimed(z: Zone, p: Phase) {
    match p
    case Listing(now, at) => at <= z.clock && Near(now, at, z.skew)
    case Sweeping(now, at, todo) =>
      && at <= z.clock && Near(now, at, z.skew)
      && forall t :: t in todo ==>
                       IsStale(t, now) && t.id < z.nextId && (t.id in z.made ==> now - z.made[t.id].stamp > LIFETIME)
    case Armed(id) => id in z.made
    case LeftBehind(id) => id in z.made
    case Killed(id) => id in z.made
    case _ => true
  }

  ghost predicate AllAimed(z: Zone) {
    forall r :: 0 <= r < |z.runs| ==> Aimed(z, z.runs[r])
  }

  /** Some run still has the record to remove, has said it could not, or was
      killed with it. */
  ghost predicate Answered(runs: seq<Phase>, id: Id) {
    exists r :: 0 <= r < |runs| && Holds(runs[r], id)
  }

  predicate Holds(p: Phase, id: Id) {
    p == Armed(id) || p == LeftBehind(id) || p == Killed(id)
  }

  ghost predicate AllAnswered(z: Zone) {
    forall x :: x in z.records && x.id in z.made && x.id !in z.lost ==> Answered(z.runs, x.id)
  }

  ghost predicate Inv(z: Zone) {
    IdsKnown(z) && Stamped(z) && AllAimed(z) && AllAnswered(z)
  }

  lemma MoveKeeps(z: Zone, run: nat, phase: Phase)
    requires Inv(z) && Aimed(z, phase)
    requires run < |z.runs| && !z.runs[run].LeftBehind? && !z.runs[run].Killed?
    requires z.runs[run].Armed? ==> Holds(phase, z.runs[run].id) || !HasId(z.records, z.runs[run].id)
    ensures Inv(Moves(z, run, phase))
  {
    var after := Moves(z, run, phase);
    assert forall r :: 0 <= r < |after.runs| ==> Aimed(z, after.runs[r]) && Aimed(after, after.runs[r]);
    forall x | x in z.records && x.id in z.made && x.id !in z.lost
      ensures Answered(after.runs, x.id)
    {
      var k :| 0 <= k < |z.runs| && Holds(z.runs[k], x.id);
      assert HasId(z.records, x.id);
      assert after.runs[k] == if k == run then phase else z.runs[k];
    }
  }

  lemma ShrinkKeeps(z: Zone, records: seq<Record>)
    requires Inv(z) && forall x :: x in records ==> x in z.records
    ensures Inv(z.(records := records))
  {
    var after := z.(records := records);
    assert forall p :: Aimed(z, p) ==> Aimed(after, p);
  }

  lemma StaleIsAimed(z: Zone, now: I64, at: I64)
    requires Inv(z) && at <= z.clock && Near(now, at, z.skew)
    ensures Aimed(z, Sweeping(now, at, Stale(z.records, now)))
  {
    hide IsTxt;
  }

  lemma TxtIsTxt()
    ensures IsTxt("TXT")
  {
  }

  lemma CreateKeeps(z: Zone, run: nat, birth: Birth, pid: nat, ok: bool)
    requires Inv(z) && run < |z.runs| && z.runs[run].Sweeping?
    requires birth == Birth(z.runs[run].now, z.runs[run].at)
    ensures Inv(Published(z, run, birth, pid, ok))
  {
    CreateStamps(z, run, birth, pid, ok);
    CreateAnswers(z, run, birth, pid, ok);
    hide Stamped, AllAnswered, Comment, IsStale, Near;
    var after := Published(z, run, birth, pid, ok);
    assert forall p :: Aimed(z, p) ==> Aimed(after, p);
  }

  lemma CreateStamps(z: Zone, run: nat, birth: Birth, pid: nat, ok: bool)
    requires Inv(z) && run < |z.runs| && z.runs[run].Sweeping?
    requires birth == Birth(z.runs[run].now, z.runs[run].at)
    ensures Stamped(Published(z, run, birth, pid, ok))
  {
    StampReadsBack(birth.stamp, pid);
    TxtIsTxt();
    assert Aimed(z, z.runs[run]);
    hide WrittenAt, Comment, IsTxt, IsStale, Near;
  }

  lemma CreateAnswers(z: Zone, run: nat, birth: Birth, pid: nat, ok: bool)
    requires Inv(z) && run < |z.runs| && z.runs[run].Sweeping?
    ensures AllAnswered(Published(z, run, birth, pid, ok))
  {
    hide Comment, Stamped, AllAimed;
    var after := Published(z, run, birth, pid, ok);
    forall x | x in after.records && x.id in after.made && x.id !in after.lost
      ensures Answered(after.runs, x.id)
    {
      if x.id == z.nextId {
        assert after.runs[run] == Armed(x.id);
      } else {
        assert x in z.records;
        var k :| 0 <= k < |z.runs| && Holds(z.runs[k], x.id);
        assert after.runs[k] == z.runs[k];
      }
    }
  }

  lemma OthersKeep(z: Zone, e: Event)
    requires Inv(z) && (e.OtherCreates? || e.OtherEdits? || e.ClockTo?)
    ensures Inv(Apply(z, e))
  {
    var after := Apply(z, e);
    assert forall p :: Aimed(z, p) ==> Aimed(after, p);
    forall x | x in after.records && x.id in after.made
      ensures x in z.records
    {
    }
  }

  lemma DeleteKeeps(z: Zone, id: Id, done: bool)
    requires Inv(z)
    ensures Inv(Deletes(z, id, done))
    ensures done ==> !HasId(Deletes(z, id, done).records, id)
  {
    ShrinkKeeps(z, Deletes(z, id, done).records);
    WithoutIsGone(z.records, id);
  }

  lemma WithoutIsGone(records: seq<Record>, id: Id)
    ensures !HasId(Without(records, id), id)
  {
    var left := Without(records, id);
    assert forall k :: 0 <= k < |left| ==> left[k] in left;
  }

  lemma ApplyKeeps(z: Zone, e: Event)
    requires Inv(z)
    ensures Inv(Apply(z, e))
  {
    hide IdsKnown, Stamped, AllAnswered, Stale, Without, Edited, Creates, HasId, IsStale, Comment;
    match e {
      case ClockTo(_) => OthersKeep(z, e);
      case OtherCreates(_, _) => OthersKeep(z, e);
      case OtherEdits(_, _, _) => OthersKeep(z, e);
      case OtherDeletes(id) => DeleteKeeps(z, id, true);
      case Begin(run, now) =>
        if run < |z.runs| && z.runs[run].Idle? && Near(now, z.clock, z.skew) {
          MoveKeeps(z, run, Listing(now, z.clock));
        }
      case Crash(run) =>
        if run < |z.runs| {
          if Crashed(z.runs[run]) != z.runs[run] {
            MoveKeeps(z, run, Crashed(z.runs[run]));
          } else {
            assert z.runs[run := z.runs[run]] == z.runs;
          }
        }
      case List(run, ok) =>
        if run < |z.runs| && z.runs[run].Listing? {
          var p := z.runs[run];
          StaleIsAimed(z, p.now, p.at);
          MoveKeeps(z, run, if ok then Sweeping(p.now, p.at, Stale(z.records, p.now)) else Ended);
        }
      case Sweep(run, ok, took) =>
        if Sweeps(z, run) {
          var p := z.runs[run];
          DeleteKeeps(z, p.todo[0].id, ok || took);
          MoveKeeps(Deletes(z, p.todo[0].id, ok || took), run,
                    if ok then Sweeping(p.now, p.at, p.todo[1..]) else Ended);
        }
      case Publish(run, pid, ok, took) =>
        if Publishes(z, run) {
          if ok || took {
            CreateKeeps(z, run, Birth(z.runs[run].now, z.runs[run].at), pid, ok);
          } else {
            MoveKeeps(z, run, Ended);
          }
        }
      case Remove(run, ok, took) =>
        if run < |z.runs| && z.runs[run].Armed? {
          DeleteKeeps(z, z.runs[run].id, ok || took);
          if ok {
            MoveKeeps(Deletes(z, z.runs[run].id, ok || took), run, Ended);
          }
        }
      case DropGuard(run, ok, took) =>
        if run < |z.runs| && z.runs[run].Armed? {
          DeleteKeeps(z, z.runs[run].id, ok || took);
          MoveKeeps(Deletes(z, z.runs[run].id, ok || took), run, if ok then Ended else LeftBehind(z.runs[run].id));
        }
    }
  }

  lemma {:induction false} AlwaysInv(z: Zone, events: seq<Event>, i: nat)
    requires Start(z) && i <= |events|
    ensures Inv(Before(z, events, i))
  {
    if i > 0 {
      AlwaysInv(z, events, i - 1);
      hide Apply, Inv;
      ApplyKeeps(Before(z, events, i - 1), events[i - 1]);
    }
  }

  // ---------------------------------------------------------- main results

  /** What a sweep deletes carries anago's marker and a stamp that can be read,
      more than 600 seconds older than the sweeping run; nothing else goes. */
  lemma SweepsOnlyLitter(z: Zone, events: seq<Event>, i: nat)
    requires Start(z) && i < |events| && events[i].Sweep? && Sweeps(Before(z, events, i), events[i].run)
    ensures var t := Before(z, events, i);
            var run := At(t, events[i].run);
            && IsTxt(run.todo[0].kind)
            && run.todo[0].comment.Some? && MARKER <= run.todo[0].comment.value
            && WrittenAt(run.todo[0].comment.value).Some?
            && run.now - WrittenAt(run.todo[0].comment.value).value > LIFETIME
            && (forall x :: x in t.records && x.id != run.todo[0].id ==> x in Before(z, events, i + 1).records)
  {
    AlwaysInv(z, events, i);
    var t := Before(z, events, i);
    assert t.runs[events[i].run].todo[0] in t.runs[events[i].run].todo;
    assert Aimed(t, t.runs[events[i].run]);
    hide Inv, IsTxt, Without;
    assert Before(z, events, i + 1) == Apply(t, events[i]);
  }

  /** No run deletes a record any run of anago made until more than 600 seconds
      have passed since its maker was started, less what both their clocks may
      be out. */
  lemma LiveChallengeIsSafe(z: Zone, events: seq<Event>, i: nat)
    requires Start(z) && i < |events| && events[i].Sweep? && Sweeps(Before(z, events, i), events[i].run)
    ensures var t := Before(z, events, i);
            var id := At(t, events[i].run).todo[0].id;
            id in t.made ==> t.clock - t.made[id].at > LIFETIME - 2 * z.skew
  {
    AlwaysInv(z, events, i);
    SkewStays(z, events, i);
    var t := Before(z, events, i);
    assert t.runs[events[i].run].todo[0] in t.runs[events[i].run].todo;
    assert Aimed(t, t.runs[events[i].run]);
    hide Before, IsStale, WrittenAt;
  }

  /** And no smaller bound would do: at every age past it there is a run that
      sweeps a record another run still holds, the maker's clock being slow and
      the sweeper's fast. From a skew of 301 seconds on that age can be none. */
  lemma SkewedClocksSweepLive(skew: nat, age: nat, pid: nat)
    requires LIFETIME - 2 * skew < age && age + 2 * skew <= I64_MAX
    ensures var z := Quiet(skew);
            var events := SkewedRuns(skew, age, pid);
            var t := Before(z, events, 6);
            && Start(z) && t.clock == age && Sweeps(t, 1) && At(t, 1).todo[0].id == 0
            && At(t, 0) == Armed(0) && 0 in t.made && t.clock - t.made[0].at == age
  {
    var z := Quiet(skew);
    var events := SkewedRuns(skew, age, pid);
    MakerPublishes(skew, pid);
    SweeperLists(skew, age, pid);
    hide Apply, Sweeps;
    Next(z, events, 0);
    Next(z, events, 1);
    Next(z, events, 2);
    Next(z, events, 3);
    Next(z, events, 4);
    Next(z, events, 5);
    assert Sweeps(MakerDone(skew, pid).(clock := age, runs := [Armed(0), SweepingIt(skew, age, pid)]), 1) by {
      ItIsAimedAt(skew, age, pid);
    }
  }

  lemma Next(z: Zone, events: seq<Event>, i: nat)
    requires i < |events|
    ensures Before(z, events, i + 1) == Apply(Before(z, events, i), events[i])
  {
  }

  /** The record of the run whose clock is slow. */
  function Early(skew: nat, pid: nat): Record
    requires skew <= I64_MAX
  {
    var behind: int := skew;
    Record(0, "TXT", Some(Comment(-behind, pid)))
  }

  function MakerDone(skew: nat, pid: nat): Zone
    requires skew <= I64_MAX
  {
    var behind: int := skew;
    Zone(0, skew, [Early(skew, pid)], 1, [Armed(0), Idle], map[0 := Birth(-behind, 0)], {})
  }

  function SweepingIt(skew: nat, age: nat, pid: nat): Phase
    requires age + 2 * skew <= I64_MAX
  {
    Sweeping(age + skew, age, [Early(skew, pid)])
  }

  lemma MakerPublishes(skew: nat, pid: nat)
    requires skew <= I64_MAX
    ensures var behind: int := skew;
            var listed := Apply(Apply(Quiet(skew), Begin(0, -behind)), List(0, true));
            Apply(listed, Publish(0, pid, true, true)) == MakerDone(skew, pid)
  {
    hide Comment;
    var behind: int := skew;
    var z := Quiet(skew);
    var begun := Apply(z, Begin(0, -behind));
    assert begun == z.(runs := [Listing(-behind, 0), Idle]);
    var listed := Apply(begun, List(0, true));
    assert listed == z.(runs := [Sweeping(-behind, 0, []), Idle]);
  }

  lemma SweeperLists(skew: nat, age: nat, pid: nat)
    requires LIFETIME - 2 * skew < age && age + 2 * skew <= I64_MAX
    ensures var z := Apply(Apply(MakerDone(skew, pid), ClockTo(age)), Begin(1, age + skew));
            Apply(z, List(1, true))
            == MakerDone(skew, pid).(clock := age, runs := [Armed(0), SweepingIt(skew, age, pid)])
  {
    ItIsAimedAt(skew, age, pid);
    hide Comment, IsStale;
    var z := MakerDone(skew, pid);
    assert Apply(z, ClockTo(age)) == z.(clock := age);
    var begun := Apply(z.(clock := age), Begin(1, age + skew));
    assert begun == z.(clock := age, runs := [Armed(0), Listing(age + skew, age)]);
  }

  lemma ItIsAimedAt(skew: nat, age: nat, pid: nat)
    requires LIFETIME - 2 * skew < age && age + 2 * skew <= I64_MAX
    ensures IsStale(Early(skew, pid), age + skew)
    ensures Stale([Early(skew, pid)], age + skew) == [Early(skew, pid)]
  {
    var behind: int := skew;
    StampReadsBack(-behind, pid);
    TxtIsTxt();
    hide Comment, WrittenAt, IsTxt;
  }

  /** An empty zone and two runs yet to start. */
  function Quiet(skew: nat): Zone {
    Zone(0, skew, [], 0, [Idle, Idle], map[], {})
  }

  function SkewedRuns(skew: nat, age: nat, pid: nat): seq<Event>
    requires age + 2 * skew <= I64_MAX
  {
    var behind: int := skew;
    [Begin(0, -behind), List(0, true), Publish(0, pid, true, true), ClockTo(age), Begin(1, age + skew), List(1, true)]
  }

  lemma {:induction false} SkewStays(z: Zone, events: seq<Event>, i: nat)
    requires i <= |events|
    ensures Before(z, events, i).skew == z.skew
  {
    if i > 0 {
      SkewStays(z, events, i - 1);
      hide Stale, Without, Edited, Comment;
    }
  }

  /** A record anago made and heard of is, for as long as it is there, guarded
      by its run, reported as left behind, or what a killed run left. */
  lemma NothingForgotten(z: Zone, events: seq<Event>, i: nat, x: Record)
    requires Start(z) && i <= |events|
    requires var t := Before(z, events, i);
             x in t.records && x.id in t.made && x.id !in t.lost
    ensures Answered(Before(z, events, i).runs, x.id)
  {
    AlwaysInv(z, events, i);
    hide Before;
  }

  /** The guard is disarmed only by its own run: by a delete that worked, by its
      last try, or by being killed; after a delete that worked the record is
      gone, and after a last try that did not it is reported. */
  lemma GuardStaysArmed(z: Zone, events: seq<Event>, i: nat, run: nat)
    requires i < |events| && At(Before(z, events, i), run).Armed?
    ensures var t, next, e := Before(z, events, i), Before(z, events, i + 1), events[i];
            var id := At(t, run).id;
            && (|| At(next, run) == Armed(id)
                || (e.Remove? && e.run == run && e.ok && At(next, run) == Ended)
                || (e.DropGuard? && e.run == run && At(next, run) == if e.ok then Ended else LeftBehind(id))
                || (e == Crash(run) && At(next, run) == Killed(id)))
            && (At(next, run).Ended? ==> !HasId(next.records, id))
  {
    GuardStep(Before(z, events, i), events[i], run);
    hide Apply, HasId;
  }

  lemma GuardStep(z: Zone, e: Event, run: nat)
    requires run < |z.runs| && At(z, run).Armed?
    ensures var next, id := Apply(z, e), At(z, run).id;
            && (|| At(next, run) == Armed(id)
                || (e.Remove? && e.run == run && e.ok && At(next, run) == Ended)
                || (e.DropGuard? && e.run == run && At(next, run) == if e.ok then Ended else LeftBehind(id))
                || (e == Crash(run) && At(next, run) == Killed(id)))
            && (At(next, run).Ended? ==> !HasId(next.records, id))
  {
    WithoutIsGone(z.records, At(z, run).id);
    hide Without, Edited, Stale, Comment, HasId;
  }

  // ------------------------------------------------------ what stays in place

  /** No two runs guard one record. */
  ghost predicate Sole(z: Zone) {
    && (forall r :: 0 <= r < |z.runs| && z.runs[r].Armed? ==> z.runs[r].id < z.nextId)
    && forall r, q :: 0 <= r < q < |z.runs| && z.runs[r].Armed? && z.runs[q].Armed? ==> z.runs[r].id != z.runs[q].id
  }

  lemma ApplyKeepsSole(z: Zone, e: Event)
    requires Sole(z)
    ensures Sole(Apply(z, e))
  {
    hide Stale, Without, Edited, Comment;
  }

  lemma {:induction false} AlwaysSole(z: Zone, events: seq<Event>, i: nat)
    requires Start(z) && i <= |events|
    ensures Sole(Before(z, events, i))
  {
    if i > 0 {
      AlwaysSole(z, events, i - 1);
      hide Apply, Sole;
      ApplyKeepsSole(Before(z, events, i - 1), events[i - 1]);
    }
  }

  /** Event `e` takes record `id` away from run `run` while it holds it: another
      client deletes it, or the run's own delete works without its hearing. */
  predicate Takes(e: Event, run: nat, id: Id) {
    e == OtherDeletes(id) || (e.Remove? && e.run == run && (e.ok || e.took))
  }

  /** The record is too young for any run to have aimed a sweep at it. */
  predicate Young(z: Zone, id: Id) {
    id in z.made && z.clock - z.made[id].at <= LIFETIME - 2 * z.skew
  }

  lemma EditedKeepsIds(records: seq<Record>, target: Id, kind: string, comment: Option<string>, id: Id)
    ensures HasId(Edited(records, target, kind, comment), id) <==> HasId(records, id)
  {
    if records != [] {
      EditedKeepsIds(records[1..], target, kind, comment, id);
      var rest := Edited(records[1..], target, kind, comment);
      var first := if records[0].id == target then Record(target, kind, comment) else records[0];
      HasIdCons(first, rest, id);
      HasIdCons(records[0], records[1..], id);
      assert [records[0]] + records[1..] == records;
    }
  }

  lemma HasIdCons(x: Record, records: seq<Record>, id: Id)
    ensures HasId([x] + records, id) <==> x.id == id || HasId(records, id)
  {
    var all := [x] + records;
    assert all[0] == x && forall k :: 0 <= k < |records| ==> all[k + 1] == records[k];
    if HasId(records, id) {
      var k :| 0 <= k < |records| && records[k].id == id;
      assert all[k + 1].id == id;
    }
  }

  lemma OthersStay(records: seq<Record>, gone: Id, id: Id)
    requires gone != id && HasId(records, id)
    ensures HasId(Without(records, gone), id)
  {
    var k :| 0 <= k < |records| && records[k].id == id;
    assert records[k] in Without(records, gone);
  }

  lemma AddedStays(records: seq<Record>, x: Record, id: Id)
    requires HasId(records, id)
    ensures HasId(records + [x], id)
  {
    var k :| 0 <= k < |records| && records[k].id == id;
    assert (records + [x])[k].id == id;
  }

  /** Nothing on a run's list is young. */
  lemma NotAimedAt(z: Zone, run: nat, id: Id)
    requires Inv(z) && Sweeps(z, run) && Young(z, id)
    ensures At(z, run).todo[0].id != id
  {
    assert z.runs[run].todo[0] in z.runs[run].todo;
    assert Aimed(z, z.runs[run]);
    hide IsStale, WrittenAt;
  }

  /** While a run holds a young record, only what takes it away removes it. */
  lemma HeldStep(z: Zone, e: Event, run: nat, id: Id)
    requires Inv(z) && Sole(z) && At(z, run) == Armed(id) && At(Apply(z, e), run) == Armed(id)
    requires Young(z, id) && HasId(z.records, id)
    ensures HasId(Apply(z, e).records, id) <==> !Takes(e, run, id)
  {
    WithoutIsGone(z.records, id);
    hide IdsKnown, Stamped, AllAnswered, HasId, Without, Edited, IsStale, Stale, Comment;
    match e {
      case Sweep(other, ok, took) =>
        if Sweeps(z, other) {
          NotAimedAt(z, other, id);
          OthersStay(z.records, At(z, other).todo[0].id, id);
        }
      case Publish(other, pid, ok, took) =>
        if Publishes(z, other) {
          AddedStays(z.records, Record(z.nextId, "TXT", Some(Comment(At(z, other).now, pid))), id);
        }
      case Remove(other, ok, took) =>
        if At(z, other).Armed? && other != run {
          OthersStay(z.records, At(z, other).id, id);
        }
      case DropGuard(other, ok, took) =>
        if At(z, other).Armed? && other != run {
          OthersStay(z.records, At(z, other).id, id);
        }
      case OtherCreates(kind, comment) => AddedStays(z.records, Record(z.nextId, kind, comment), id);
      case OtherEdits(target, kind, comment) => EditedKeepsIds(z.records, target, kind, comment, id);
      case OtherDeletes(target) =>
        if target != id {
          OthersStay(z.records, target, id);
        }
      case _ =>
    }
  }

  /** A guard held now was held at every moment since it was made. */
  lemma HeldBefore(z: Zone, e: Event, run: nat, id: Id)
    requires !At(z, run).Idle? && !At(z, run).Listing? && !At(z, run).Sweeping?
    requires At(Apply(z, e), run) == Armed(id)
    ensures At(z, run) == Armed(id)
  {
    hide Stale, Without, Edited, Comment;
  }

  /** Time goes on, and a record's birth stays what it was. */
  lemma StaysMade(z: Zone, e: Event, id: Id)
    requires IdsKnown(z) && id in z.made
    ensures var after := Apply(z, e);
            && id in after.made && after.made[id] == z.made[id] && after.clock >= z.clock && after.skew == z.skew
  {
    hide Stale, Without, Edited, Comment;
  }

  /** Some event from `i` up to `j` takes the record away. */
  ghost predicate TakenBetween(events: seq<Event>, i: nat, j: nat, run: nat, id: Id)
    requires j <= |events|
  {
    exists k :: i <= k < j && Takes(events[k], run, id)
  }

  lemma TakenNext(events: seq<Event>, i: nat, j: nat, run: nat, id: Id)
    requires i <= j < |events|
    ensures TakenBetween(events, i, j + 1, run, id)
       <==> TakenBetween(events, i, j, run, id) || Takes(events[j], run, id)
  {
    hide Takes;
  }

  /** Event `i` is run `run` publishing, and being told so. */
  ghost predicate PublishesAt(z: Zone, events: seq<Event>, i: nat, run: nat)
    requires i < |events|
  {
    events[i].Publish? && events[i].run == run && events[i].ok && Publishes(Before(z, events, i), run)
  }

  lemma PublishedIsThere(z: Zone, e: Event)
    requires e.Publish? && e.ok && Publishes(z, e.run) && e.run < |z.runs|
    ensures var after := Apply(z, e);
            At(after, e.run) == Armed(z.nextId) && HasId(after.records, z.nextId) && z.nextId in after.made
  {
    hide Comment;
    var after := Apply(z, e);
    assert after.records[|z.records|].id == z.nextId;
  }

  /** The run is past sweeping, and the record is known as made. */
  predicate PastSweeping(z: Zone, run: nat, id: Id) {
    !At(z, run).Idle? && !At(z, run).Listing? && !At(z, run).Sweeping? && id in z.made
  }

  lemma StaysPast(z: Zone, e: Event, run: nat, id: Id)
    requires Inv(z) && PastSweeping(z, run, id)
    ensures PastSweeping(Apply(z, e), run, id)
  {
    hide Apply, Stamped, AllAimed, AllAnswered;
    NeverBack(z, e, run);
    StaysMade(z, e, id);
  }

  lemma {:induction false} PublishedStays(z: Zone, events: seq<Event>, i: nat, j: nat, run: nat)
    requires Start(z) && i < j <= |events| && PublishesAt(z, events, i, run)
    ensures PastSweeping(Before(z, events, j), run, Before(z, events, i).nextId)
  {
    hide *;
    Next(z, events, j - 1);
    if j == i + 1 {
      JustPublished(z, events, i, run);
    } else {
      PublishedStays(z, events, i, j - 1, run);
      AlwaysInv(z, events, j - 1);
      StaysPast(Before(z, events, j - 1), events[j - 1], run, Before(z, events, i).nextId);
    }
  }

  /** A challenge in use stays in place. While a run still guards the record it
      published, and 600 seconds less twice the clocks' error have not passed
      since it was started, the record is there, exactly unless another client
      has deleted it or the run's own delete has worked without its hearing. */
  lemma {:induction false} LiveChallengeStays(z: Zone, events: seq<Event>, i: nat, j: nat, run: nat)
    requires Start(z) && i < j <= |events| && PublishesAt(z, events, i, run)
    requires var id := Before(z, events, i).nextId;
             At(Before(z, events, j), run) == Armed(id) && Young(Before(z, events, j), id)
    ensures var id := Before(z, events, i).nextId;
            HasId(Before(z, events, j).records, id) <==> !TakenBetween(events, i + 1, j, run, id)
  {
    hide Before, Apply, HasId, Takes, PublishesAt, Stamped, AllAimed, AllAnswered, Sole, Start;
    var id := Before(z, events, i).nextId;
    Next(z, events, j - 1);
    if j == i + 1 {
      JustPublished(z, events, i, run);
    } else {
      var t, e := Before(z, events, j - 1), events[j - 1];
      PublishedStays(z, events, i, j - 1, run);
      HeldBefore(t, e, run, id);
      AlwaysInv(z, events, j - 1);
      AlwaysSole(z, events, j - 1);
      StaysMade(t, e, id);
      LiveChallengeStays(z, events, i, j - 1, run);
      TakenNext(events, i + 1, j - 1, run, id);
      if HasId(t.records, id) {
        HeldStep(t, e, run, id);
      } else {
        ApplyAddsOnlyNew(t, e, id);
      }
    }
  }

  lemma JustPublished(z: Zone, events: seq<Event>, i: nat, run: nat)
    requires i < |events| && PublishesAt(z, events, i, run)
    ensures HasId(Before(z, events, i + 1).records, Before(z, events, i).nextId)
    ensures PastSweeping(Before(z, events, i + 1), run, Before(z, events, i).nextId)
  {
    hide Apply, HasId;
    PublishedIsThere(Before(z, events, i), events[i]);
  }

  // ---------------------------------------------------------- what is swept

  /** Of the records `stale`, those still there are on run `run`'s list, and
      once the run is past sweeping it is past going back to it. */
  ghost predicate Chased(z: Zone, run: nat, stale: seq<Record>) {
    && (forall x :: x in stale ==> x.id < z.nextId)
    && !At(z, run).Idle? && !At(z, run).Listing?
    && (At(z, run).Sweeping? ==>
          forall x :: x in stale && HasId(z.records, x.id) ==> HasId(At(z, run).todo, x.id))
  }

  lemma HasIt(records: seq<Record>, x: Record)
    requires x in records
    ensures HasId(records, x.id)
  {
  }

  /** Ids are not used twice. */
  lemma ApplyAddsOnlyNew(z: Zone, e: Event, id: Id)
    requires id < z.nextId
    ensures id < Apply(z, e).nextId
    ensures HasId(Apply(z, e).records, id) ==> HasId(z.records, id)
  {
    hide Stale, Comment;
    var after := Apply(z, e).records;
    if HasId(after, id) {
      var k :| 0 <= k < |after| && after[k].id == id;
      var x := after[k];
      assert x in after;
      if x in z.records {
        HasIt(z.records, x);
      }
    }
  }

  lemma {:induction false} GoneStaysGone(z: Zone, events: seq<Event>, i: nat, j: nat, id: Id)
    requires i <= j <= |events| && id < Before(z, events, i).nextId && !HasId(Before(z, events, i).records, id)
    ensures id < Before(z, events, j).nextId && !HasId(Before(z, events, j).records, id)
  {
    if i < j {
      GoneStaysGone(z, events, i, j - 1, id);
      hide Apply;
      ApplyAddsOnlyNew(Before(z, events, j - 1), events[j - 1], id);
    }
  }

  /** A run's list loses an entry only when the record is gone. */
  lemma ListShrinks(z: Zone, e: Event, run: nat, id: Id)
    requires At(z, run).Sweeping? && HasId(At(z, run).todo, id)
    requires At(Apply(z, e), run).Sweeping?
    ensures HasId(At(Apply(z, e), run).todo, id) || !HasId(Apply(z, e).records, id)
  {
    hide Stale, Edited, Comment, Without;
    if e.Sweep? && e.run == run {
      var todo := At(z, run).todo;
      WithoutIsGone(z.records, id);
      if todo[0].id != id {
        var k :| 0 <= k < |todo| && todo[k].id == id;
        assert todo[1..][k - 1].id == id;
      }
    }
  }

  lemma NeverBack(z: Zone, e: Event, run: nat)
    requires !At(z, run).Idle? && !At(z, run).Listing?
    ensures !At(Apply(z, e), run).Idle? && !At(Apply(z, e), run).Listing?
    ensures At(Apply(z, e), run).Sweeping? ==> At(z, run).Sweeping?
  {
    hide Stale, Edited, Comment, Without;
  }

  lemma ChaseGoesOn(z: Zone, e: Event, run: nat, stale: seq<Record>)
    requires Chased(z, run, stale)
    ensures Chased(Apply(z, e), run, stale)
  {
    var after := Apply(z, e);
    NeverBack(z, e, run);
    forall x | x in stale
      ensures x.id < after.nextId && (HasId(after.records, x.id) ==> HasId(z.records, x.id))
    {
      ApplyAddsOnlyNew(z, e, x.id);
    }
    hide Apply, HasId;
    if At(after, run).Sweeping? {
      forall x | x in stale && HasId(after.records, x.id)
        ensures HasId(At(after, run).todo, x.id)
      {
        ListShrinks(z, e, run, x.id);
      }
    }
  }

  lemma ChaseBegins(z: Zone, run: nat)
    requires IdsKnown(z) && run < |z.runs| && At(z, run).Listing?
    ensures Chased(Apply(z, List(run, true)), run, Stale(z.records, At(z, run).now))
  {
    var stale := Stale(z.records, At(z, run).now);
    hide Stale, IsStale;
    forall x | x in stale
      ensures HasId(stale, x.id)
    {
      HasIt(stale, x);
    }
  }

  lemma {:induction false} ChaseHolds(z: Zone, events: seq<Event>, i: nat, j: nat, run: nat)
    requires Start(z) && i < j <= |events| && events[i] == List(run, true) && At(Before(z, events, i), run).Listing?
    ensures var t := Before(z, events, i);
            Chased(Before(z, events, j), run, Stale(t.records, At(t, run).now))
  {
    hide Apply, Chased, Stale, Stamped, AllAimed, AllAnswered, IdsKnown, Start;
    var t := Before(z, events, i);
    if j == i + 1 {
      AlwaysInv(z, events, i);
      ChaseBegins(t, run);
    } else {
      ChaseHolds(z, events, i, j - 1, run);
      ChaseGoesOn(Before(z, events, j - 1), events[j - 1], run, Stale(t.records, At(t, run).now));
    }
  }

  /** When a run that listed at event `i` publishes at event `j`, nothing that
      was in the zone and stale when it listed is left, then or ever. */
  lemma PublishingSweepsAll(z: Zone, events: seq<Event>, i: nat, j: nat, run: nat, k: nat, x: Record)
    requires Start(z) && i < j <= k <= |events|
    requires events[i] == List(run, true) && At(Before(z, events, i), run).Listing?
    requires Publishes(Before(z, events, j), run)
    requires x in Before(z, events, i).records && IsStale(x, At(Before(z, events, i), run).now)
    ensures !HasId(Before(z, events, k).records, x.id)
  {
    var t, ready := Before(z, events, i), Before(z, events, j);
    ChaseHolds(z, events, i, j, run);
    assert x in Stale(t.records, At(t, run).now);
    assert !HasId([], x.id);
    hide Before, Stale, IsStale, HasId;
    GoneStaysGone(z, events, j, k, x.id);
  }

  /** So what a run of anago left, killed or not, does not outlive the next
      renewal: any run started more than 600 seconds after its maker, allowing
      for both their clocks, has removed it by the time it publishes. */
  lemma LitterIsSwept(z: Zone, events: seq<Event>, i: nat, j: nat, run: nat, k: nat, x: Record)
    requires Start(z) && i < j <= k <= |events|
    requires events[i] == List(run, true) && At(Before(z, events, i), run).Listing?
    requires Publishes(Before(z, events, j), run)
    requires var t := Before(z, events, i);
             x in t.records && x.id in t.made && At(t, run).at - t.made[x.id].at > LIFETIME + 2 * z.skew
    ensures !HasId(Before(z, events, k).records, x.id)
  {
    AlwaysInv(z, events, i);
    SkewStays(z, events, i);
    var t := Before(z, events, i);
    OldIsStale(t, run, x);
    hide Before, IsStale;
    PublishingSweepsAll(z, events, i, j, run, k, x);
  }

  lemma OldIsStale(z: Zone, run: nat, x: Record)
    requires Inv(z) && At(z, run).Listing? && x in z.records && x.id in z.made
    requires At(z, run).at - z.made[x.id].at > LIFETIME + 2 * z.skew
    ensures IsStale(x, At(z, run).now)
  {
    assert Aimed(z, z.runs[run]);
    hide WrittenAt, IsTxt;
  }
}
