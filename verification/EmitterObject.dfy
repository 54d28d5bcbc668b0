/**
 * The emitter of lib/events.js with its compact table: a name has no entry, a
 * single function, or an array of at least two.
 */
module EmitterObject {
  import opened Results
  import opened Emitter

  datatype Entry = One(listener: Listener) | Many(list: seq<Listener>)

  function ListOf(e: Entry): seq<Listener> {
    match e
    case One(l) => [l]
    case Many(list) => list
  }

  class EventEmitter {
    /** An entry that is set to `undefined` in shape mode counts as none. */
    var events: map<Name, Entry>
    var eventsCount: int
    var fired: seq<bool>
    /** The emits under way, each with its copy of the list and its index in it. */
    var emits: seq<(seq<Listener>, nat)>
    ghost var frames: seq<Frame>
    ghost var log: seq<Listener>
    ghost var finished: seq<Frame>

    /** The table is as compact as can be, and the count is the number of names. */
    ghost predicate Valid()
      reads this
    {
      && (forall n :: n in events && events[n].Many? ==> |events[n].list| >= 2)
      && eventsCount == |events|
      && |frames| == |emits|
      && forall i :: 0 <= i < |emits| ==> emits[i] == (frames[i].snapshot, |frames[i].at|)
    }

    ghost function Listeners(): Table
      reads this
    {
      map n | n in events :: ListOf(events[n])
    }

    ghost function Value(): State
      reads this
    {
      State(Listeners(), fired, frames, log, finished)
    }

    constructor ()
      ensures Valid() && Value() == START
    {
      events, eventsCount, fired, emits := map[], 0, [], [];
      frames, log, finished := [], [], [];
    }

    /** `events[n] = e`. */
    method Store(n: Name, e: Entry)
      requires Valid() && (e.Many? ==> |e.list| >= 2)
      modifies this`events
      ensures Listeners() == old(Listeners())[n := ListOf(e)] && events == old(events)[n := e]
      ensures |events| == |old(events)| + if n in old(events) then 0 else 1
    {
      events := events[n := e];
    }

    /** `_addListener`. */
    method AddListener(n: Name, l: Listener, prepend: bool)
      requires Valid()
      modifies this`events, this`eventsCount
      ensures Valid() && Listeners() == Added(old(Listeners()), n, l, prepend)
    {
      hide ListOf;
      if n !in events {
        OneOf(l, l);
        Store(n, One(l));
        eventsCount := eventsCount + 1;
      } else {
        match events[n]
        case One(existing) =>
          OneOf(l, existing);
          Store(n, Many(if prepend then [l, existing] else [existing, l]));
        case Many(list) =>
          OneOf(l, l);
          ManyOf(list);
          ManyOf([l] + list);
          ManyOf(list + [l]);
          Store(n, Many(if prepend then [l] + list else list + [l]));
      }
    }

    static lemma OneOf(l: Listener, x: Listener)
      ensures ListOf(One(l)) == [l] && [l] + [] == [l] && [] + [l] == [l]
      ensures ListOf(One(x)) == [x] && [l] + [x] == [l, x] && [x] + [l] == [x, l]
      ensures ListOf(Many([l, x])) == [l, x] && ListOf(Many([x, l])) == [x, l]
    {
    }

    static lemma ManyOf(list: seq<Listener>)
      ensures ListOf(Many(list)) == list
    {
    }

    method OnceListener(n: Name, id: nat, prepend: bool)
      requires Valid()
      modifies this`events, this`eventsCount, this`fired
      ensures Valid() && Value() == Step(old(Value()), Once(n, id, prepend))
    {
      var wrapped := Wrapper(id, n, |fired|);
      fired := fired + [false];
      AddListener(n, wrapped, prepend);
    }

    /** The last position at which `l` or a wrapper of it stands. */
    static method LastIndex(list: seq<Listener>, l: Listener) returns (position: int)
      ensures -1 <= position < |list|
      ensures WithoutLast(list, l) == if position < 0 then list else list[..position] + list[position + 1..]
    {
      ghost var last := RemovesLast(list, l);
      var i := |list| - 1;
      while i >= 0
        invariant last <= i < |list|
      {
        if Matches(list[i], l) {
          return i;
        }
        i := i - 1;
      }
      return -1;
    }

    static lemma WithoutOnly(x: Listener, l: Listener)
      ensures WithoutLast([x], l) == if Matches(x, l) then [] else [x]
    {
      assert [x][..0] == [];
    }

    static lemma Unchanged(t: Table, n: Name)
      requires n in t && t[n] != []
      ensures Put(t, n, t[n]) == t
    {
    }

    /** `removeListener`. */
    method RemoveListener(n: Name, l: Listener)
      requires Valid()
      modifies this`events, this`eventsCount
      ensures Valid() && Listeners() == Removed(old(Listeners()), n, l)
    {
      if n !in events {
        assert Listeners() - {n} == Listeners();
        return;
      }
      match events[n]
      case One(existing) =>
        WithoutOnly(existing, l);
        Unchanged(Listeners(), n);
        if Matches(existing, l) {
          Delete(n);
        }
      case Many(list) =>
        Unchanged(Listeners(), n);
        var position := LastIndex(list, l);
        if position < 0 {
          return;
        }
        var rest := list[..position] + list[position + 1..];
        assert |rest| == 1 ==> [rest[0]] == rest;
        Store(n, if |rest| == 1 then One(rest[0]) else Many(rest));
    }

    /** An entry goes, and the whole table with the last one. */
    method Delete(n: Name)
      requires Valid() && n in events
      modifies this`events, this`eventsCount
      ensures Valid() && Listeners() == old(Listeners()) - {n}
    {
      eventsCount := eventsCount - 1;
      assert |events - {n}| == |events| - 1;
      if eventsCount == 0 {
        assert events - {n} == map[];
        events := map[];
      } else {
        events := events - {n};
      }
    }

    static lemma RemoveAllStep(s: State, only: Option<Name>)
      ensures Step(s, RemoveAll(only)) == s.(table := if only.Some? then s.table - {only.value} else map[])
    {
    }

    /** `removeAllListeners`, for one name or for all. */
    method RemoveAllListeners(only: Option<Name>)
      requires Valid()
      modifies this`events, this`eventsCount
      ensures Valid() && Value() == Step(old(Value()), RemoveAll(only))
    {
      hide Step, ListOf;
      RemoveAllStep(Value(), only);
      if only.None? {
        events, eventsCount := map[], 0;
        assert Listeners() == map[];
      } else if only.value in events {
        Delete(only.value);
      } else {
        assert Listeners() - {only.value} == Listeners();
      }
    }

    /** `emit` up to its first call: the list is copied. */
    method BeginEmit(n: Name)
      requires Valid()
      modifies this`emits, this`frames
      ensures Valid() && Value() == Step(old(Value()), Emit(n))
    {
      if n in events {
        emits := emits + [(ListOf(events[n]), 0)];
        frames := frames + [Frame(ListOf(events[n]), [])];
      }
    }

    /** The next call of the innermost emit, by way of `onceWrapper` for what `once` added. */
    method CallListener()
      requires Valid() && |emits| > 0
      modifies this
      ensures Valid() && Value() == Step(old(Value()), Call)
    {
      var outer := emits[..|emits| - 1];
      var (listeners, i) := emits[|emits| - 1];
      ghost var under, frame := frames[..|frames| - 1], frames[|frames| - 1];
      if i >= |listeners| {
        emits, frames, finished := outer, under, finished + [frame];
        return;
      }
      emits := outer + [(listeners, i + 1)];
      frames := under + [frame.(at := frame.at + [|log|])];
      match listeners[i]
      case Function(_) =>
        log := log + [listeners[i]];
      case Wrapper(_, n, k) =>
        if k < |fired| && !fired[k] {
          RemoveListener(n, listeners[i]);
          fired := fired[k := true];
          log := log + [listeners[i]];
        }
    }
  }
}
