/** The renewal schedule: what is remembered between attempts, the decision
    taken at each look, and what follows for whole runs of the loop. */
module Renewal {
  import opened Wrappers
  import opened Integers
  import opened TlsState

  const CHECK_EVERY: nat := 3_600
  const RETRY_BASE: nat := 900
  const RETRY_CAP: nat := 86_400
  const RATE_LIMITED_FLOOR: nat := 3_600
  const U32_MAX: nat := 0xFFFF_FFFF

  type U32 = n: nat | n <= U32_MAX

  /** A duration in whole seconds, short enough to add to a time. */
  type Wait = n: nat | n <= I64_MAX

  datatype FailureKind = Ordinary | RateLimited

  /** An attempt that failed: when, why, and what the CA asked for. */
  datatype Failure = Failure(at: I64, kind: FailureKind, retryAfter: Option<Wait>)

  function Pow2(n: nat): (r: nat)
    ensures r > n
  {
    if n == 0 then 1 else 2 * Pow2(n - 1)
  }

  /** Fifteen minutes, doubling, up to a day. */
  function RetryDelay(failures: U32): Wait {
    var doublings := Min(Max(failures - 1, 0), 16);
    Min(RETRY_BASE * Pow2(doublings), RETRY_CAP)
  }

  /** The part of a wait that is the CA's: its rate limit, its `Retry-After`. */
  function CaWait(kind: FailureKind, retryAfter: Option<Wait>): Wait {
    Max(if kind.RateLimited? then RATE_LIMITED_FLOOR else 0, if retryAfter.Some? then retryAfter.value else 0)
  }

  /** What an attempt was against; all unknown for a manual certificate. */
  datatype Attempt = Attempt(directory: Option<string>, account: Option<string>, issuedAt: Option<I64>)

  function AttemptOf(tls: Tls): Attempt {
    match tls.source
    case Manual => Attempt(None, None, None)
    case Issued(acme) => Attempt(Some(acme.directory), Some(acme.accountUrl), Some(acme.issuedAt))
  }

  datatype Cooldown = Cooldown(until: I64, directory: Option<string>)

  /** Everything the schedule remembers. */
  datatype Memory = Memory(failures: U32, notBefore: I64, against: Option<Attempt>, cooldown: Option<Cooldown>)

  datatype Forgotten = Nothing | Certificate | Scope

  const FRESH: Memory := Memory(0, 0, None, None)

  function NotBefore(m: Memory): I64 {
    Max(m.notBefore, if m.cooldown.Some? then m.cooldown.value.until else 0)
  }

  function Failed(m: Memory, now: I64, kind: FailureKind, retryAfter: Option<Wait>, against: Option<Tls>): Memory {
    var failures: U32 := Min(m.failures + 1, U32_MAX);
    var attempt := if against.Some? then Some(AttemptOf(against.value)) else None;
    var imposed := CaWait(kind, retryAfter);
    var until := SatAdd(now, imposed);
    var cooldown :=
      if imposed == 0 || (m.cooldown.Some? && m.cooldown.value.until >= until) then m.cooldown
      else Some(Cooldown(until, if attempt.Some? then attempt.value.directory else None));
    Memory(failures, SatAdd(now, RetryDelay(failures)), attempt, cooldown)
  }

  /** After a failure the wait still to come covers both the backoff and what
      the CA asked for, to the end of representable time. */
  lemma FailedWaits(m: Memory, now: I64, kind: FailureKind, retryAfter: Option<Wait>, against: Option<Tls>)
    ensures var after := Failed(m, now, kind, retryAfter, against);
            var delay := Max(SatSub(NotBefore(after), now), 0);
            && delay >= Min(RetryDelay(after.failures), I64_MAX - now)
            && delay >= Min(CaWait(kind, retryAfter), I64_MAX - now)
  {
    hide RetryDelay, AttemptOf, CaWait;
  }

  /** Whether a wait met at one directory is lifted by settings naming another. */
  predicate Elsewhere(cooldown: Cooldown, now: Attempt) {
    cooldown.directory.Some? && now.directory.Some? && cooldown.directory != now.directory
  }

  function SettingsChanged(m: Memory, tls: Tls): (Memory, Forgotten) {
    var now := AttemptOf(tls);
    var kept := if m.cooldown.Some? && Elsewhere(m.cooldown.value, now) then None else m.cooldown;
    if m.against.None? then (m.(cooldown := kept), Nothing)
    else if m.against.value.issuedAt != now.issuedAt then (FRESH, Certificate)
    else if m.against.value.directory != now.directory || m.against.value.account != now.account then
      (Memory(0, 0, None, kept), Scope)
    else (m.(cooldown := kept), Nothing)
  }

  datatype Tick = Renew | NotDue(dueAt: I64) | Waiting(until: I64) | NotOurs

  function Decide(tls: Tls, now: I64, m: Memory): Tick {
    match DueAt(tls, RENEWAL_LEAD)
    case None => NotOurs
    case Some(due) =>
      if !NeedsRenewal(tls, now, RENEWAL_LEAD) then NotDue(due)
      else if now < NotBefore(m) then Waiting(NotBefore(m))
      else Renew
  }

  function SleepFor(step: Tick, now: I64): nat {
    match step
    case Renew => 0
    case NotOurs => CHECK_EVERY
    case NotDue(due) => Min(Max(SatSub(due, now), 1), CHECK_EVERY)
    case Waiting(until) => Min(Max(SatSub(until, now), 1), CHECK_EVERY)
  }

  // ---------------------------------------------------------------- runs

  /** What the world supplies for one turn of the loop: the clock, the state
      file's settings, and how an attempt would end (`None` is success). */
  datatype Turn = Turn(at: I64, read: Result<Tls, string>, outcome: Option<Failure>)

  datatype Loop = Loop(renewals: Memory, unreadable: Memory)

  /** What one turn decided, and how long it slept. */
  datatype Event = Event(step: Tick, slept: nat)

  function Turned(l: Loop, turn: Turn): (Loop, Event) {
    match turn.read
    case Err(_) =>
      var unreadable := Failed(l.unreadable, turn.at, Ordinary, None, None);
      var step := Waiting(NotBefore(unreadable));
      (Loop(l.renewals, unreadable), Event(step, SleepFor(step, turn.at)))
    case Ok(tls) =>
      var renewals := SettingsChanged(l.renewals, tls).0;
      var step := Decide(tls, turn.at, renewals);
      var after :=
        if !step.Renew? then renewals
        else match turn.outcome
             case None => FRESH
             case Some(f) => Failed(renewals, f.at, f.kind, f.retryAfter, Some(tls));
      (Loop(after, FRESH), Event(step, SleepFor(step, turn.at)))
  }

  /** The loop's memory before turn `i`. */
  function Before(l: Loop, turns: seq<Turn>, i: nat): Loop
    requires i <= |turns|
  {
    if i == 0 then l else Turned(Before(l, turns, i - 1), turns[i - 1]).0
  }

  function EventAt(l: Loop, turns: seq<Turn>, i: nat): Event
    requires i < |turns|
  {
    Turned(Before(l, turns, i), turns[i]).1
  }

  predicate Attempts(l: Loop, turns: seq<Turn>, i: nat)
    requires i < |turns|
  {
    EventAt(l, turns, i).step.Renew?
  }

  /** No attempt from turn `from` up to turn `to` succeeds. */
  ghost predicate NoSuccess(l: Loop, turns: seq<Turn>, from: nat, to: nat)
    requires to <= |turns|
  {
    forall i {:trigger Attempts(l, turns, i)} :: from <= i < to && Attempts(l, turns, i) ==> turns[i].outcome.Some?
  }

  // ------------------------------------------------- the ordinary backoff

  /** Renewals keep failing: every readable turn sees one directory, account
      and issue time (the challenge, the contact and the paths may change
      freely), and every attempt fails, no earlier than it started. */
  ghost predicate Failing(l: Loop, turns: seq<Turn>, scope: Attempt) {
    forall i {:trigger Attempts(l, turns, i)} :: 0 <= i < |turns| ==>
      && (turns[i].read.Ok? ==> AttemptOf(turns[i].read.value) == scope)
      && (Attempts(l, turns, i) ==> turns[i].outcome.Some? && turns[i].at <= turns[i].outcome.value.at)
  }

  lemma {:induction false} Pow2Grows(a: nat, b: nat)
    requires a <= b
    ensures Pow2(a) <= Pow2(b)
  {
    if a < b {
      Pow2Grows(a, b - 1);
    }
  }

  /** After the failure `n + 1` the delay is `2^n` times the first, or a day. */
  lemma DelayDoubles(n: nat, failures: U32)
    requires failures >= Min(n + 1, U32_MAX)
    ensures RetryDelay(failures) >= Min(RETRY_CAP, RETRY_BASE * Pow2(n))
  {
    Pow2Grows(Min(n, 16), Min(failures - 1, 16));
    if n > 16 {
      assert Pow2(16) == 0x1_0000 by {
        assert Pow2(4) == 16 && Pow2(8) == 256 && Pow2(12) == 4096;
      }
    }
  }

  /** One turn after a failure: nothing is forgotten and the backoff only grows. */
  lemma BackoffGrows(l: Loop, turn: Turn, scope: Attempt)
    requires l.renewals.against == Some(scope)
    requires turn.read.Ok? ==> AttemptOf(turn.read.value) == scope
    requires Turned(l, turn).1.step.Renew? ==> turn.outcome.Some? && turn.at <= turn.outcome.value.at
    ensures var after := Turned(l, turn).0.renewals;
            && after.against == Some(scope)
            && after.failures >= l.renewals.failures
            && after.notBefore >= l.renewals.notBefore
            && (Turned(l, turn).1.step.Renew? ==>
                  turn.at >= l.renewals.notBefore && after.failures == Min(l.renewals.failures + 1, U32_MAX))
  {
  }

  lemma BackoffStarts(l: Loop, turn: Turn, scope: Attempt)
    requires turn.read.Ok? && AttemptOf(turn.read.value) == scope
    requires Turned(l, turn).1.step.Renew? && turn.outcome.Some?
    ensures var after := Turned(l, turn).0.renewals;
            && after.against == Some(scope)
            && after.failures >= 1
            && after.notBefore == SatAdd(turn.outcome.value.at, RetryDelay(after.failures))
  {
  }

  /** What a turn of a failing run does to the backoff. */
  ghost predicate Grows(m: Memory, after: Memory, scope: Attempt) {
    m.against == Some(scope) ==>
      && after.against == Some(scope)
      && after.failures >= m.failures
      && after.notBefore >= m.notBefore
  }

  lemma BackoffGrowsAt(l: Loop, turns: seq<Turn>, scope: Attempt, i: nat)
    requires Failing(l, turns, scope) && i < |turns|
    ensures var m, after := Before(l, turns, i).renewals, Before(l, turns, i + 1).renewals;
            && Grows(m, after, scope)
            && (m.against == Some(scope) && Attempts(l, turns, i) ==>
                  turns[i].at >= m.notBefore && after.failures == Min(m.failures + 1, U32_MAX))
  {
    var m, turn := Before(l, turns, i), turns[i];
    assert Attempts(l, turns, i) <==> Turned(m, turn).1.step.Renew?;
    if m.renewals.against == Some(scope) {
      BackoffGrows(m, turn, scope);
    }
  }

  lemma BackoffStartsAt(l: Loop, turns: seq<Turn>, scope: Attempt, p: nat)
    requires Failing(l, turns, scope) && p < |turns| && Attempts(l, turns, p)
    ensures var first := Before(l, turns, p + 1).renewals;
            && first.against == Some(scope)
            && first.failures >= 1
            && first.notBefore == SatAdd(turns[p].outcome.value.at, RetryDelay(first.failures))
  {
    BackoffStarts(Before(l, turns, p), turns[p], scope);
  }

  lemma {:induction false} GrowsThroughout(ms: seq<Memory>, scope: Attempt, p: nat, q: nat)
    requires p <= q < |ms| && ms[p].against == Some(scope)
    requires forall i :: 0 <= i < |ms| - 1 ==> Grows(ms[i], ms[i + 1], scope)
    ensures ms[q].against == Some(scope) && Grows(ms[p], ms[q], scope)
    decreases q
  {
    if p < q {
      GrowsThroughout(ms, scope, p, q - 1);
      assert Grows(ms[q - 1], ms[q - 1 + 1], scope);
    }
  }

  lemma BackoffPersists(l: Loop, turns: seq<Turn>, scope: Attempt, p: nat, q: nat)
    requires Failing(l, turns, scope) && p <= q <= |turns|
    requires Before(l, turns, p).renewals.against == Some(scope)
    ensures Before(l, turns, q).renewals.against == Some(scope)
    ensures Grows(Before(l, turns, p).renewals, Before(l, turns, q).renewals, scope)
  {
    var ms := MemoriesOf(l, turns, scope, p, q);
    GrowsThroughout(ms, scope, p, q);
  }

  lemma MemoriesOf(l: Loop, turns: seq<Turn>, scope: Attempt, p: nat, q: nat) returns (ms: seq<Memory>)
    requires Failing(l, turns, scope) && p <= q <= |turns|
    ensures |ms| == |turns| + 1
    ensures ms[p] == Before(l, turns, p).renewals && ms[q] == Before(l, turns, q).renewals
    ensures forall i :: 0 <= i < |turns| ==> Grows(ms[i], ms[i + 1], scope)
  {
    hide Turned;
    ms := seq(|turns| + 1, i requires 0 <= i <= |turns| => Before(l, turns, i).renewals);
    forall i | 0 <= i < |turns|
      ensures Grows(ms[i], ms[i + 1], scope)
    {
      BackoffGrowsAt(l, turns, scope, i);
    }
  }

  lemma BackoffKept(l: Loop, turns: seq<Turn>, scope: Attempt, p: nat, q: nat)
    requires Failing(l, turns, scope) && p < q <= |turns| && Attempts(l, turns, p)
    ensures var first, later := Before(l, turns, p + 1).renewals, Before(l, turns, q).renewals;
            && later.against == Some(scope)
            && later.failures >= first.failures >= 1
            && later.notBefore >= first.notBefore
            && first.notBefore == SatAdd(turns[p].outcome.value.at, RetryDelay(first.failures))
  {
    hide Turned;
    BackoffStartsAt(l, turns, scope, p);
    BackoffPersists(l, turns, scope, p + 1, q);
  }

  /** Attempt numbers in the order they happen. */
  ghost predicate AreAttempts(l: Loop, turns: seq<Turn>, a: seq<nat>) {
    && (forall i :: 0 <= i < |a| ==> a[i] < |turns| && Attempts(l, turns, a[i]))
    && (forall i, j :: 0 <= i < j < |a| ==> a[i] < a[j])
  }

  lemma {:induction false} FailuresCounted(l: Loop, turns: seq<Turn>, scope: Attempt, a: seq<nat>, k: nat)
    requires Failing(l, turns, scope) && AreAttempts(l, turns, a) && k < |a|
    ensures Before(l, turns, a[k] + 1).renewals.failures >= Min(k + 1, U32_MAX)
  {
    BackoffKept(l, turns, scope, a[k], a[k] + 1);
    if k > 0 {
      FailuresCounted(l, turns, scope, a, k - 1);
      BackoffKept(l, turns, scope, a[k - 1], a[k]);
      BackoffGrowsAt(l, turns, scope, a[k]);
    }
  }

  /** While renewals keep failing for one account at one CA, the gap after the
      failure `k + 1` of any list of them is a quarter of an hour times `2^k`,
      or a day; only the end of representable time cuts it short. */
  lemma GapsDouble(l: Loop, turns: seq<Turn>, scope: Attempt, a: seq<nat>, k: nat)
    requires Failing(l, turns, scope) && AreAttempts(l, turns, a) && k + 1 < |a|
    ensures turns[a[k + 1]].at >= SatAdd(turns[a[k]].outcome.value.at, Min(RETRY_CAP, RETRY_BASE * Pow2(k)))
  {
    hide Turned;
    FailuresCounted(l, turns, scope, a, k);
    BackoffKept(l, turns, scope, a[k], a[k + 1]);
    BackoffGrowsAt(l, turns, scope, a[k + 1]);
    DelayDoubles(k, Before(l, turns, a[k] + 1).renewals.failures);
  }

  /** Hence any four attempts span 105 minutes, or all the time there is after
      the first: they take more than an hour exactly when the first of them
      starts more than an hour before the last second an `i64` can name. */
  lemma AtMostThreeAnHour(l: Loop, turns: seq<Turn>, scope: Attempt, a: seq<nat>)
    requires Failing(l, turns, scope) && AreAttempts(l, turns, a) && |a| == 4
    ensures turns[a[3]].at - turns[a[0]].at >= Min(6_300, I64_MAX - turns[a[0]].at)
    ensures turns[a[3]].at - turns[a[0]].at > 3_600 <==> turns[a[0]].at < I64_MAX - 3_600
    ensures turns[a[3]].at - turns[a[0]].at >= 6_300 <==> turns[a[0]].at <= I64_MAX - 6_300
  {
    GapsDouble(l, turns, scope, a, 0);
    GapsDouble(l, turns, scope, a, 1);
    GapsDouble(l, turns, scope, a, 2);
    assert Pow2(0) == 1 && Pow2(1) == 2 && Pow2(2) == 4;
  }

  /** At that last second the bound does fail: the saturated deadline is
      already reached, and attempts follow each other at once. */
  lemma NoBackoffAtTheEndOfTime(acme: Acme)
    ensures var tls := Tls("", "", Some(0), Issued(acme));
            var turn := Turn(I64_MAX, Ok(tls), Some(Failure(I64_MAX, Ordinary, None)));
            var turns := [turn, turn, turn, turn];
            var l := Loop(FRESH, FRESH);
            Failing(l, turns, AttemptOf(tls)) && AreAttempts(l, turns, [0, 1, 2, 3])
  {
    hide Turned;
    var tls := Tls("", "", Some(0), Issued(acme));
    var turn := Turn(I64_MAX, Ok(tls), Some(Failure(I64_MAX, Ordinary, None)));
    var turns := [turn, turn, turn, turn];
    var l := Loop(FRESH, FRESH);
    forall i | 0 <= i < 4
      ensures Attempts(l, turns, i)
    {
      EndOfTimeTurn(l, turns, turn, i);
    }
  }

  lemma {:induction false} EndOfTimeTurn(l: Loop, turns: seq<Turn>, turn: Turn, i: nat)
    requires i < |turns| && (forall k :: 0 <= k < |turns| ==> turns[k] == turn)
    requires turn.read.Ok? && turn.at == I64_MAX && DueAt(turn.read.value, RENEWAL_LEAD).Some?
    ensures Attempts(l, turns, i)
  {
    var t := Before(l, turns, i);
    assert NotBefore(SettingsChanged(t.renewals, turn.read.value).0) <= I64_MAX;
  }

  // ---------------------------------------------------- the CA's own wait

  /** Reading the settings lifts a standing wait exactly when they name another
      directory than the one it was met at, or when the issue time is not the
      one the last failure was against. Otherwise the wait stands as it was. */
  lemma WaitLiftedExactly(m: Memory, tls: Tls)
    requires m.cooldown.Some?
    ensures var after := SettingsChanged(m, tls).0;
            && (after.cooldown.None? <==>
                  || Elsewhere(m.cooldown.value, AttemptOf(tls))
                  || (m.against.Some? && m.against.value.issuedAt != AttemptOf(tls).issuedAt))
            && (after.cooldown.Some? ==> after.cooldown == m.cooldown)
  {
  }

  /** The wait imposed at a failure covers the deadline `until`, was met at
      `directory`, and the last failure was against issue time `issued`. */
  ghost predicate Standing(m: Memory, until: I64, directory: string, issued: I64) {
    && m.cooldown.Some?
    && m.cooldown.value.until >= until
    && (m.cooldown.value.directory.Some? ==> m.cooldown.value.directory.value == directory)
    && (m.against.Some? ==> m.against.value.issuedAt == Some(issued))
  }

  /** Settings that a standing wait outlives: same CA, same certificate. */
  predicate SameCertificate(tls: Tls, directory: string, issued: I64) {
    tls.source.Issued? && tls.source.acme.directory == directory && tls.source.acme.issuedAt == issued
  }

  lemma WaitImposed(l: Loop, turn: Turn, directory: string, issued: I64)
    requires turn.read.Ok? && SameCertificate(turn.read.value, directory, issued)
    requires Turned(l, turn).1.step.Renew? && turn.outcome.Some?
    requires CaWait(turn.outcome.value.kind, turn.outcome.value.retryAfter) > 0
    ensures Standing(Turned(l, turn).0.renewals,
                     SatAdd(turn.outcome.value.at, CaWait(turn.outcome.value.kind, turn.outcome.value.retryAfter)),
                     directory, issued)
  {
  }

  lemma WaitOutlivesTurn(l: Loop, turn: Turn, until: I64, directory: string, issued: I64)
    requires Standing(l.renewals, until, directory, issued)
    requires turn.read.Ok? ==> SameCertificate(turn.read.value, directory, issued)
    requires Turned(l, turn).1.step.Renew? ==> turn.outcome.Some?
    ensures Turned(l, turn).1.step.Renew? ==> turn.at >= until
    ensures Standing(Turned(l, turn).0.renewals, until, directory, issued)
  {
  }

  lemma {:induction false} WaitStands(l: Loop, turns: seq<Turn>, p: nat, q: nat, directory: string, issued: I64)
    requires p < q <= |turns| && Attempts(l, turns, p) && NoSuccess(l, turns, p, q)
    requires forall i :: p <= i < q && turns[i].read.Ok? ==> SameCertificate(turns[i].read.value, directory, issued)
    requires CaWait(turns[p].outcome.value.kind, turns[p].outcome.value.retryAfter) > 0
    ensures var f := turns[p].outcome.value;
            Standing(Before(l, turns, q).renewals, SatAdd(f.at, CaWait(f.kind, f.retryAfter)), directory, issued)
    decreases q
  {
    hide SatAdd, CaWait;
    var f := turns[p].outcome.value;
    if q == p + 1 {
      WaitImposed(Before(l, turns, p), turns[p], directory, issued);
    } else {
      WaitStands(l, turns, p, q - 1, directory, issued);
      assert Attempts(l, turns, q - 1) ==> turns[q - 1].outcome.Some?;
      WaitOutlivesTurn(Before(l, turns, q - 1), turns[q - 1], SatAdd(f.at, CaWait(f.kind, f.retryAfter)), directory,
          issued);
    }
  }

  /** A wait the CA imposed is kept. Through any turns that see the same CA and
      issue time and bring no success, whatever account, challenge, contact or
      paths they see and however many attempts fail, no attempt starts before
      its deadline. */
  lemma WaitIsKept(l: Loop, turns: seq<Turn>, p: nat, q: nat, directory: string, issued: I64)
    requires p < q < |turns| && Attempts(l, turns, p) && NoSuccess(l, turns, p, q)
    requires forall i :: p <= i <= q && turns[i].read.Ok? ==> SameCertificate(turns[i].read.value, directory, issued)
    requires CaWait(turns[p].outcome.value.kind, turns[p].outcome.value.retryAfter) > 0
    requires Attempts(l, turns, q)
    ensures var f := turns[p].outcome.value;
            turns[q].at >= SatAdd(f.at, CaWait(f.kind, f.retryAfter))
  {
    WaitStands(l, turns, p, q, directory, issued);
    var t := turns[q].read.value;
    assert SameCertificate(t, directory, issued);
  }

  // -------------------------------------------------- what is forgotten

  /** A backoff is forgotten exactly when what failed is no longer what would
      be attempted: another directory, account or issue time. Until then, and
      whatever happens to the rest of the settings, it stays as it was. */
  lemma BackoffForgottenExactly(m: Memory, tls: Tls)
    ensures var (after, forgotten) := SettingsChanged(m, tls);
            && (forgotten != Nothing <==> m.against.Some? && m.against != Some(AttemptOf(tls)))
            && (forgotten != Nothing ==> after.failures == 0 && after.notBefore == 0 && after.against == None)
            && (forgotten == Nothing ==>
                  after.failures == m.failures && after.notBefore == m.notBefore && after.against == m.against)
            && (forgotten == Certificate ==> after == FRESH)
  {
  }

  /** An unreadable state file and a CA that will not issue do not delay each
      other: an unreadable turn keeps the renewal schedule and waits out its
      own, and a readable one forgets that. */
  lemma SchedulesAreApart(l: Loop, turn: Turn)
    ensures turn.read.Err? ==>
              var (after, event) := Turned(l, turn);
              && after.renewals == l.renewals
              && after.unreadable.failures == Min(l.unreadable.failures + 1, U32_MAX)
              && event.step.Waiting?
              && 1 <= event.slept <= CHECK_EVERY
              && (turn.at >= 0 && turn.at <= I64_MAX - RETRY_CAP && l.unreadable.cooldown.None? ==>
                    event.slept == Min(RetryDelay(after.unreadable.failures), CHECK_EVERY))
    ensures turn.read.Ok? ==> Turned(l, turn).0.unreadable == FRESH
    ensures forall other: Memory :: turn.read.Ok? ==>
              Turned(Loop(l.renewals, other), turn) == Turned(l, turn)
  {
  }

  // ------------------------------------------------------------ on time

  /** No attempt before turn `i`. */
  ghost predicate Quiet(l: Loop, turns: seq<Turn>, i: nat)
    requires i <= |turns|
  {
    forall j :: 0 <= j < i ==> !Attempts(l, turns, j)
  }

  /** Up to the first attempt the settings stay as they are, and a turn starts
      when the sleep before it is over, or at most `late` seconds later. What
      the attempt takes, and what comes after it, is free. */
  ghost predicate Steady(l: Loop, turns: seq<Turn>, tls: Tls, late: nat) {
    && (forall i :: 0 <= i < |turns| && Quiet(l, turns, i) ==> turns[i].read == Ok(tls))
    && (forall i :: 0 <= i < |turns| - 1 && Quiet(l, turns, i + 1) ==>
                      0 <= turns[i + 1].at - turns[i].at - EventAt(l, turns, i).slept <= late)
  }

  /** The first moment an attempt may start: due, and past every wait. */
  function Target(m: Memory, tls: Tls): I64
    requires tls.source.Issued?
  {
    Max(DueAt(tls, RENEWAL_LEAD).value, NotBefore(SettingsChanged(m, tls).0))
  }

  lemma TurnSleeps(l: Loop, turn: Turn, tls: Tls)
    requires turn.read == Ok(tls) && tls.source.Issued?
    ensures var (after, event) := Turned(l, turn);
            && (event.step.Renew? <==> turn.at >= Target(l.renewals, tls))
            && (!event.step.Renew? ==>
                  && 1 <= event.slept <= CHECK_EVERY
                  && turn.at + event.slept <= Target(l.renewals, tls)
                  && Target(after.renewals, tls) == Target(l.renewals, tls))
  {
  }

  lemma {:induction false} NeverEarlyNeverLate(l: Loop, turns: seq<Turn>, tls: Tls, late: nat, n: nat)
    requires Steady(l, turns, tls, late) && tls.source.Issued? && n < |turns| && Quiet(l, turns, n)
    ensures Target(Before(l, turns, n).renewals, tls) == Target(l.renewals, tls)
    ensures turns[0].at + n <= turns[n].at
    ensures n > 0 ==> turns[0].at < Target(l.renewals, tls) && turns[n].at <= Target(l.renewals, tls) + late
  {
    hide Turned, Target, DueAt;
    if n > 0 {
      var k := n - 1;
      assert Quiet(l, turns, k) && !Attempts(l, turns, k);
      NeverEarlyNeverLate(l, turns, tls, late, k);
      assert turns[k].read == Ok(tls);
      TurnSleeps(Before(l, turns, k), turns[k], tls);
      assert 0 <= turns[k + 1].at - turns[k].at - EventAt(l, turns, k).slept <= late;
    }
  }

  /** Left alone, the loop begins its attempt at the later of now, the due time
      and the end of every wait: never a second before it, and after it by no
      more than one sleep overran. Until then it sleeps a second to an hour at a
      time, and the seconds remaining bound the number of sleeps. */
  lemma AttemptsOnTime(l: Loop, turns: seq<Turn>, tls: Tls, late: nat, n: nat)
    requires Steady(l, turns, tls, late) && tls.source.Issued? && n < |turns| && Quiet(l, turns, n)
    ensures var target := Target(l.renewals, tls);
            && (Attempts(l, turns, n) <==> turns[n].at >= target)
            && (Attempts(l, turns, n) ==> 0 <= turns[n].at - Max(turns[0].at, target) <= late)
            && (!Attempts(l, turns, n) ==>
                  1 <= EventAt(l, turns, n).slept <= CHECK_EVERY && turns[0].at + n < target)
  {
    hide Turned, Target, DueAt;
    NeverEarlyNeverLate(l, turns, tls, late, n);
    TurnSleeps(Before(l, turns, n), turns[n], tls);
  }

  /** So a run that goes on attempts: one of any turns that outnumber the
      seconds to wait is an attempt. */
  lemma AttemptComes(l: Loop, turns: seq<Turn>, tls: Tls, late: nat)
    requires Steady(l, turns, tls, late) && tls.source.Issued?
    requires turns != [] && |turns| > Target(l.renewals, tls) - turns[0].at
    ensures !Quiet(l, turns, |turns|)
  {
    hide Target;
    if Quiet(l, turns, |turns|) {
      AttemptsOnTime(l, turns, tls, late, |turns| - 1);
    }
  }
}
