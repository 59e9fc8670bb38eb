/**
 * Delay bookkeeping over the opaque timer of the core: `delay_type` maps each live delay id to
 * its kind (0 = one-shot timeout, 1 = repeating interval) so that cancellation calls the
 * matching primitive. The timer is recorded as the sequence of calls made on it, and the
 * dictionary's key order (insertion order) is kept beside it, since `clear_delays` walks it.
 */
module Delays {
  import opened Sequences

  const Timeout := 0
  const Interval := 1

  datatype TimerCall =
    | SetTimeout(id: int, time: int)
    | SetInterval(id: int, time: int)
    | ClearTimeout(id: int)
    | ClearInterval(id: int)

  /** The call `cancel_delay` makes for a delay of the given kind. */
  function ClearCall(id: int, kind: int): TimerCall
  {
    if kind == Interval then ClearInterval(id) else ClearTimeout(id)
  }

  /** The clear calls for `ids`, in order, with the kinds recorded in `kinds`. */
  function ClearCalls(ids: seq<int>, kinds: map<int, int>): (r: seq<TimerCall>)
    requires forall id | id in ids :: id in kinds
    ensures |r| == |ids|
    ensures forall i | 0 <= i < |ids| :: r[i] == ClearCall(ids[i], kinds[ids[i]])
  {
    if ids == [] then [] else ClearCalls(ids[..|ids| - 1], kinds) + [ClearCall(ids[|ids| - 1], kinds[ids[|ids| - 1]])]
  }

  /** One more id cleared extends the calls by that id's clear call. */
  lemma ClearCallsStep(ids: seq<int>, i: nat, kinds: map<int, int>)
    requires i < |ids|
    requires forall id | id in ids :: id in kinds
    ensures ClearCalls(ids[..i + 1], kinds) == ClearCalls(ids[..i], kinds) + [ClearCall(ids[i], kinds[ids[i]])]
  {
    assert ids[..i + 1][..i] == ids[..i];
  }

  class Delays {
    var delayType: map<int, int>
    var order: seq<int>
    var timer: seq<TimerCall>

    constructor ()
      ensures Valid()
      ensures delayType == map[] && order == [] && timer == []
    {
      delayType := map[];
      order := [];
      timer := [];
    }

    /** Every recorded kind is one of the two the library writes; `order` lists the keys once each. */
    ghost predicate Valid()
      reads this
    {
      && (forall id | id in delayType :: delayType[id] == Timeout || delayType[id] == Interval)
      && Distinct(order)
      && (forall id :: id in order <==> id in delayType)
    }

    /**
     * `delay(func, time, args, repeat)`: schedules through the timer, whose answer `timerId`
     * is an input, and records the kind under that id.
     */
    method Delay(time: int, repeat: bool, timerId: int) returns (id: int)
      requires Valid()
      modifies this
      ensures Valid()
      ensures id == timerId
      ensures delayType == old(delayType)[id := if repeat then Interval else Timeout]
      ensures timer == old(timer) + [if repeat then SetInterval(id, time) else SetTimeout(id, time)]
      ensures order == if id in old(delayType) then old(order) else old(order) + [id]
    {
      if repeat {
        timer := timer + [SetInterval(timerId, time)];
      } else {
        timer := timer + [SetTimeout(timerId, time)];
      }
      if timerId !in delayType {
        order := order + [timerId];
      }
      delayType := delayType[timerId := if repeat then Interval else Timeout];
      id := timerId;
    }

    /**
     * `cancel_delay(id)`: an unknown id is ignored; a known one is cleared with the primitive
     * matching its kind and forgotten.
     */
    method CancelDelay(id: int)
      requires Valid()
      modifies this
      ensures Valid()
      ensures delayType == old(delayType) - {id}
      ensures order == Without(old(order), id)
      ensures id !in old(delayType) ==> timer == old(timer)
      ensures id in old(delayType) ==> timer == old(timer) + [ClearCall(id, old(delayType)[id])]
      ensures id in old(delayType) ==> (timer[|timer| - 1].ClearInterval? <==> old(delayType)[id] == Interval)
    {
      if id in delayType {
        if delayType[id] == Interval {
          timer := timer + [ClearInterval(id)];
        } else {
          timer := timer + [ClearTimeout(id)];
        }
        delayType := delayType - {id};
      }
      WithoutPreservesDistinct(order, id);
      order := Without(order, id);
    }

    /**
     * `clear_delays()`: cancels every delay recorded when it is called, in key order, one clear
     * call each, and leaves the table empty.
     */
    method ClearDelays()
      requires Valid()
      modifies this
      ensures Valid()
      ensures delayType == map[] && order == []
      ensures timer == old(timer) + ClearCalls(old(order), old(delayType))
    {
      var ids := order;
      ghost var start := delayType;
      ghost var t0 := timer;
      var i := 0;
      while i < |ids|
        invariant 0 <= i <= |ids|
        invariant Valid()
        invariant order == ids[i..]
        invariant forall id | id in delayType :: id in start && delayType[id] == start[id]
        invariant timer == t0 + ClearCalls(ids[..i], start)
      {
        WithoutHeadAt(ids, i);
        CancelDelay(ids[i]);
        ClearCallsStep(ids, i, start);
        i := i + 1;
      }
      assert ids[..i] == ids;
      assert forall id :: id !in delayType;
      assert delayType.Keys == {};
    }
  }
}
