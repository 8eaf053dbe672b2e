/**
  The event manager: a class whose one map field is updated in place by
  `listen`, `listenOnce`, `deafen` and `deafenAll`, and read by `dispatch`
  and `hasListeners`.
 */
module EventManagers {
  import opened Listeners
  import opened Registry

  class EventManager {
    /** The private `#events` map. */
    var events: Events
    /** The identity the next `listenOnce` wrapper gets. */
    var nextWrapper: nat
    /** The wrappers that have been invoked, in the order they were. */
    ghost var fired: seq<nat>
    /** The wrappers the running `listenOnce` call has created and not yet
        handed to `listen`; empty between calls. Invisible to callers, as
        those closures are. */
    ghost var minted: seq<Listener>

    ghost predicate Valid()
      reads this
    {
      Wf(events, nextWrapper, fired) && minted == []
    }

    constructor ()
      ensures Valid()
      ensures events == map[] && nextWrapper == 0 && fired == []
    {
      events := map[];
      nextWrapper := 0;
      fired := [];
      minted := [];
    }

    /** Appends `listeners` to the sequence of `event`, creating the entry if
        there is none; nothing happens when no listener is given. A caller
        hands in its own functions; the only wrappers it can hand in are the
        ones `listenOnce` has just minted. */
    method Listen(event: string, listeners: seq<Listener>)
      requires Wf(events, nextWrapper, fired)
      requires if minted == [] then NoWrappers(listeners) else listeners == minted
      requires Admissible(events, nextWrapper, fired, event, minted)
      modifies this
      ensures Valid()
      ensures events == Listened(old(events), event, listeners)
      ensures nextWrapper == old(nextWrapper) && fired == old(fired)
    {
      ListenedWf(events, nextWrapper, fired, event, listeners);
      if |listeners| > 0 {
        if event in events {
          events := events[event := events[event] + listeners];
        } else {
          events := events[event := listeners];
        }
      }
      minted := [];
    }

    /** Registers, for each function in `callbacks`, a new wrapper that
        deafens itself before it calls that function. */
    method ListenOnce(event: string, callbacks: seq<Callback>)
      requires Valid()
      modifies this
      ensures Valid()
      ensures events == Listened(old(events), event, Wrappers(old(nextWrapper), event, callbacks))
      ensures nextWrapper == old(nextWrapper) + |callbacks| && fired == old(fired)
    {
      var wrappers := Wrappers(nextWrapper, event, callbacks);
      WrappersAdmissible(events, nextWrapper, fired, event, callbacks);
      nextWrapper := nextWrapper + |callbacks|;
      minted := wrappers;
      Listen(event, wrappers);
    }

    /** Removes every occurrence of every element of `listeners` from the
        sequence of `event`, and the entry itself when nothing is left. */
    method Deafen(event: string, listeners: seq<Listener>)
      requires Valid()
      modifies this
      ensures Valid()
      ensures events == Deafened(old(events), event, listeners)
      ensures nextWrapper == old(nextWrapper) && fired == old(fired)
    {
      DeafenedWf(events, nextWrapper, fired, event, listeners);
      if event in events {
        var remaining := Without(events[event], listeners);
        if |remaining| < 1 {
          DeafenAll(event);
        } else {
          events := events[event := remaining];
        }
      }
    }

    /** Removes the entry of `event`, if there is one. */
    method DeafenAll(event: string)
      requires Valid()
      modifies this
      ensures Valid()
      ensures events == old(events) - {event}
      ensures nextWrapper == old(nextWrapper) && fired == old(fired)
    {
      RemovedWf(events, nextWrapper, fired, event);
      events := events - {event};
    }

    /** Invokes one stored listener. A caller's function is simply called.
        A wrapper first deafens itself from the event it captured and then
        calls the function it wraps, which is when it has fired. `called` is
        the caller's function that ran. */
    method Invoke(listener: Listener) returns (called: Callback)
      requires Valid()
      requires listener.Once? ==> listener.event in events && listener in events[listener.event]
      modifies this
      ensures Valid()
      ensures called == listener.callback
      ensures listener.Plain? ==> events == old(events) && fired == old(fired)
      ensures listener.Once? ==> events == Deafened(old(events), listener.event, [listener])
      ensures listener.Once? ==> fired == old(fired) + [listener.wrapper]
      ensures nextWrapper == old(nextWrapper)
    {
      if listener.Once? {
        FiredWf(events, nextWrapper, fired, listener);
        Deafen(listener.event, [listener]);
        fired := fired + [listener.wrapper];
      }
      called := listener.callback;
    }

    /** Invokes the listeners of `event` as they stood when the call began,
        in order; a wrapper deafens itself and then calls its function.
        `invoked` is the functions that were called, in order; `present`
        says whether `event` had an entry. */
    method Dispatch(event: string) returns (present: bool, invoked: seq<Callback>)
      requires Valid()
      modifies this
      ensures Valid()
      ensures present == (event in old(events))
      ensures !present ==> invoked == [] && events == old(events) && fired == old(fired)
      ensures present ==> invoked == Callbacks(old(events)[event])
      ensures present ==> events == Deafened(old(events), event, Onces(old(events)[event]))
      ensures present ==> fired == old(fired) + WrapperIds(old(events)[event])
      ensures nextWrapper == old(nextWrapper)
    {
      present := event in events;
      invoked := [];
      if present {
        ghost var m0, fired0 := events, fired;
        var snapshot := events[event];
        var i := 0;
        assert Onces(snapshot[..0]) == [];
        WithoutUnmatched(snapshot, []);
        while i < |snapshot|
          invariant 0 <= i <= |snapshot|
          invariant Valid() && nextWrapper == old(nextWrapper)
          invariant Wf(m0, nextWrapper, fired0) && event in m0 && snapshot == m0[event]
          invariant events == Deafened(m0, event, Onces(snapshot[..i]))
          invariant fired == fired0 + WrapperIds(snapshot[..i])
          invariant invoked == Callbacks(snapshot[..i])
        {
          DispatchStep(m0, fired0, nextWrapper, event, i, events, fired);
          var called := Invoke(snapshot[i]);
          invoked := invoked + [called];
          i := i + 1;
        }
        assert snapshot[..i] == snapshot;
      }
    }

    /** Whether `event` has an entry; by the invariant, whether at least one
        listener is registered for it. */
    method HasListeners(event: string) returns (has: bool)
      requires Valid()
      ensures has == (event in events)
      ensures has <==> |Entry(events, event)| > 0
    {
      has := event in events;
    }
  }
}
