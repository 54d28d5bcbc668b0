/** The closure of `on` in lib/events.js as an object: its variables, and the handlers that change them. */
module EventIteratorObject {
  import opened Results
  import opened EventIterator

  class OnIterator<V> {
    const marks: Marks
    var unconsumedEvents: seq<V>
    /** The numbers of the calls of `next` whose promises wait, and all promises. */
    var unconsumedPromises: seq<nat>
    var promises: seq<Promise<V>>
    var paused: bool
    var error: Option<Reason>
    var finished: bool
    var size: nat

    ghost predicate Valid()
      reads this
    {
      size == |unconsumedEvents| && forall i :: 0 <= i < |unconsumedPromises| ==> unconsumedPromises[i] < |promises|
    }

    ghost function Value(): State<V>
      reads this
    {
      State(unconsumedEvents, unconsumedPromises, paused, error, finished, promises)
    }

    constructor (low: nat, high: nat)
      ensures Valid() && Value() == Fresh() && marks == Marks(low, high)
    {
      marks := Marks(low, high);
      unconsumedEvents, unconsumedPromises, promises := [], [], [];
      paused, error, finished, size := false, None, false, 0;
    }

    /** `next()`; `p` is the number of its promise. */
    method Next() returns (p: nat)
      requires Valid()
      modifies this
      ensures Valid() && Value() == OnNext(marks, old(Value())) && p == old(|promises|)
    {
      p := |promises|;
      if size != 0 {
        var value := unconsumedEvents[0];
        unconsumedEvents := unconsumedEvents[1..];
        size := size - 1;
        if paused && size < marks.low {
          paused := false;
        }
        promises := promises + [Event(value)];
        return;
      }
      if error.Some? && error.value.truthy {
        promises := promises + [Rejected(error.value)];
        error := None;
        return;
      }
      if finished {
        CloseHandler();
        promises := promises + [Done];
        return;
      }
      unconsumedPromises := unconsumedPromises + [p];
      promises := promises + [Pending];
    }

    method EventHandler(value: V)
      requires Valid()
      modifies this
      ensures Valid() && Value() == OnEvent(marks, old(Value()), value)
    {
      if |unconsumedPromises| == 0 {
        size := size + 1;
        if !paused && size > marks.high {
          paused := true;
        }
        unconsumedEvents := unconsumedEvents + [value];
      } else {
        Shift(Event(value));
      }
    }

    /** `unconsumedPromises.shift()`, settled with `p`. */
    method Shift(p: Promise<V>)
      requires Valid() && |unconsumedPromises| != 0
      modifies this`unconsumedPromises, this`promises
      ensures Valid() && Value() == Settle(old(Value()), p)
    {
      promises := promises[unconsumedPromises[0] := p];
      unconsumedPromises := unconsumedPromises[1..];
    }

    method ErrorHandler(err: Reason)
      requires Valid()
      modifies this
      ensures Valid() && Value() == OnError(old(Value()), err)
    {
      hide OnClose;
      if |unconsumedPromises| == 0 {
        error := Some(err);
      } else {
        Shift(Rejected(err));
      }
      CloseHandler();
    }

    method CloseHandler()
      requires Valid()
      modifies this
      ensures Valid() && Value() == OnClose(old(Value()))
    {
      finished := true;
      while |unconsumedPromises| != 0
        invariant Valid() && finished && Dismiss(promises, unconsumedPromises) == old(Dismiss(promises, unconsumedPromises))
        invariant unconsumedEvents == old(unconsumedEvents) && paused == old(paused) && error == old(error)
        decreases |unconsumedPromises|
      {
        Shift(Done);
      }
    }
  }
}
