/** Publishing and removing a challenge as they run: the loop over stale
    records, and the guard that holds the record's id until it is gone. */
module ChallengeMachine {
  import opened Wrappers
  import opened Integers
  import opened Challenge

  /** Sweeps, then publishes. `listed` is what the zone answered, `answers`
      whether each delete would succeed, `created` the id of the new record;
      `asked` is every delete that was sent. */
  method Publish(listed: Option<seq<Record>>, now: I64, answers: Id -> bool, created: Option<Id>)
    returns (guard: Option<Guard>, asked: seq<Id>)
    ensures listed.None? ==> guard.None? && asked == []
    ensures listed.Some? ==>
              var stale := Stale(listed.value, now);
              && |asked| <= |stale|
              && (forall k :: 0 <= k < |asked| ==> asked[k] == stale[k].id)
              && (forall k :: 0 <= k < |asked| - 1 ==> answers(asked[k]))
              && (guard.Some? <==>
                    && created.Some? && |asked| == |stale|
                    && forall k :: 0 <= k < |asked| ==> answers(asked[k]))
    ensures guard.Some? ==> fresh(guard.value) && guard.value.recordId == created
  {
    asked := [];
    if listed.None? {
      return None, asked;
    }
    var stale := Stale(listed.value, now);
    for k := 0 to |stale|
      invariant |asked| == k
      invariant forall n :: 0 <= n < k ==> asked[n] == stale[n].id && answers(asked[n])
    {
      asked := asked + [stale[k].id];
      if !answers(stale[k].id) {
        assert !answers(asked[k]);
        return None, asked;
      }
    }
    if created.None? {
      return None, asked;
    }
    var made := new Guard(created.value);
    return Some(made), asked;
  }

  /** A published record, which is taken back out on every way out. */
  class Guard {
    var recordId: Option<Id>

    constructor (id: Id)
      ensures recordId == Some(id)
    {
      recordId := Some(id);
    }

    /** Disarmed exactly when the record is gone. */
    method Settle(removed: bool) returns (ok: bool)
      modifies this
      ensures ok == removed
      ensures recordId == if removed then None else old(recordId)
    {
      if removed {
        recordId := None;
      }
      return removed;
    }

    /** One try, and another on the way out if it failed. `first` and `second`
        are how the two deletes would go, `tries` how many were made, and
        `left` the record the warning names. */
    method Remove(first: bool, second: bool) returns (ok: bool, tries: nat, left: Option<Id>)
      modifies this
      ensures ok <==> old(recordId).None? || first
      ensures tries == if old(recordId).None? then 0 else if first then 1 else 2
      ensures left == if first || second then None else old(recordId)
      ensures recordId == None
    {
      tries := 0;
      ok := true;
      if recordId.Some? {
        tries := 1;
        ok := Settle(first);
      }
      var again;
      again, left := Drop(second);
      tries := tries + again;
    }

    /** The last way out, which can only warn. */
    method Drop(removed: bool) returns (tries: nat, left: Option<Id>)
      modifies this
      ensures tries == if old(recordId).Some? then 1 else 0
      ensures left == if removed then None else old(recordId)
      ensures recordId == None
    {
      tries, left := 0, None;
      if recordId.Some? {
        var id := recordId.value;
        recordId := None;
        tries := 1;
        if !removed {
          left := Some(id);
        }
      }
    }
  }
}
