/** The schedule as the hub keeps it, in fields it updates in place, and the
    renewal loop over it, held to what module `Renewal` computes. */
module RenewalMachine {
  import opened Wrappers
  import opened Integers
  import opened TlsState
  import opened Renewal

  class Renewals {
    var failures: U32
    var notBefore: I64
    var against: Option<Attempt>
    var cooldown: Option<Cooldown>

    constructor ()
      ensures Memory() == FRESH
    {
      failures, notBefore, against, cooldown := 0, 0, None, None;
    }

    function Memory(): Memory
      reads this
    {
      Renewal.Memory(failures, notBefore, against, cooldown)
    }

    /** The least moment at which both waits are over. Without a wait of the
        CA's it is never before 1970; with one it may be. */
    function EarliestNext(): (r: I64)
      reads this
      ensures r == NotBefore(Memory())
      ensures r >= notBefore && r >= if cooldown.Some? then cooldown.value.until else 0
      ensures r == notBefore || r == if cooldown.Some? then cooldown.value.until else 0
    {
      Max(notBefore, if cooldown.Some? then cooldown.value.until else 0)
    }

    /** Records a failure, and answers how long the next attempt waits: until
        every wait is over, in whole seconds, and never less than none. */
    method Failed(now: I64, kind: FailureKind, retryAfter: Option<Wait>, settings: Option<Tls>) returns (delay: Wait)
      modifies this
      ensures Memory() == Renewal.Failed(old(Memory()), now, kind, retryAfter, settings)
      ensures delay == Max(SatSub(NotBefore(Memory()), now), 0)
      ensures delay >= Min(RetryDelay(failures), I64_MAX - now) && delay >= Min(CaWait(kind, retryAfter), I64_MAX - now)
    {
      hide RetryDelay, AttemptOf, CaWait, SatAdd, SatSub;
      if failures < U32_MAX {
        failures := failures + 1;
      }
      against := None;
      if settings.Some? {
        against := Some(AttemptOf(settings.value));
      }
      notBefore := SatAdd(now, RetryDelay(failures));
      var imposed := CaWait(kind, retryAfter);
      if imposed > 0 {
        var until := SatAdd(now, imposed);
        var directory: Option<string> := None;
        if against.Some? {
          directory := against.value.directory;
        }
        if !(cooldown.Some? && cooldown.value.until >= until) {
          cooldown := Some(Cooldown(until, directory));
        }
      }
      delay := Max(SatSub(EarliestNext(), now), 0);
      FailedWaits(old(Memory()), now, kind, retryAfter, settings);
    }

    method SettingsChanged(tls: Tls) returns (forgotten: Forgotten)
      modifies this
      ensures (Memory(), forgotten) == Renewal.SettingsChanged(old(Memory()), tls)
    {
      var now := AttemptOf(tls);
      if cooldown.Some? && Elsewhere(cooldown.value, now) {
        cooldown := None;
      }
      if against.None? {
        return Nothing;
      }
      if against.value.issuedAt != now.issuedAt {
        forgotten := Certificate;
      } else if against.value.directory != now.directory || against.value.account != now.account {
        forgotten := Scope;
      } else {
        return Nothing;
      }
      failures, notBefore, against := 0, 0, None;
      if forgotten.Certificate? {
        cooldown := None;
      }
    }

    method Succeeded()
      modifies this
      ensures Memory() == FRESH
    {
      failures, notBefore, against, cooldown := 0, 0, None, None;
    }
  }

  /** The loop, for as many turns as the world supplies: what it decides and
      how long it sleeps at each. */
  method RenewalLoop(turns: seq<Turn>) returns (events: seq<Event>)
    ensures |events| == |turns|
    ensures forall i :: 0 <= i < |turns| ==> events[i] == EventAt(Loop(FRESH, FRESH), turns, i)
  {
    var renewals := new Renewals();
    var unreadable := new Renewals();
    events := [];
    ghost var start := Loop(FRESH, FRESH);
    for i := 0 to |turns|
      invariant fresh(renewals) && fresh(unreadable) && renewals != unreadable && |events| == i
      invariant Loop(renewals.Memory(), unreadable.Memory()) == Before(start, turns, i)
      invariant forall k :: 0 <= k < i ==> events[k] == EventAt(start, turns, k)
    {
      var step := TakeTurn(renewals, unreadable, turns[i]);
      events := events + [Event(step, SleepFor(step, turns[i].at))];
    }
  }

  /** One turn: look, renew when it is time, and remember how that went. */
  method TakeTurn(renewals: Renewals, unreadable: Renewals, turn: Turn) returns (step: Tick)
    requires renewals != unreadable
    modifies renewals, unreadable
    ensures (Loop(renewals.Memory(), unreadable.Memory()), Event(step, SleepFor(step, turn.at)))
         == Turned(old(Loop(renewals.Memory(), unreadable.Memory())), turn)
  {
    match turn.read {
      case Ok(tls) =>
        unreadable.Succeeded();
        var _ := renewals.SettingsChanged(tls);
        step := Decide(tls, turn.at, renewals.Memory());
        if step.Renew? {
          match turn.outcome {
            case None =>
              renewals.Succeeded();
            case Some(f) =>
              var _ := renewals.Failed(f.at, f.kind, f.retryAfter, Some(tls));
          }
        }
      case Err(_) =>
        var _ := unreadable.Failed(turn.at, Ordinary, None, None);
        step := Waiting(unreadable.EarliestNext());
    }
  }
}
