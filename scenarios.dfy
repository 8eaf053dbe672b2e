/**
  Callers of the event manager: the documented behaviours, derived from the
  method contracts alone.
 */
module Scenarios {
  import opened Listeners
  import opened Registry
  import opened EventManagers

  /** Two listeners run in registration order; deafening them one by one
      leaves first one of them, then no entry at all. */
  method Tick(a: Callback, b: Callback)
    requires a != b
  {
    var manager := new EventManager();
    assert Plains([a, b]) == [Plain(a), Plain(b)];
    manager.Listen("tick", Plains([a, b]));
    assert manager.events == map["tick" := Plains([a, b])];
    CallbacksOfPlains([a, b]);
    DispatchedPlainsUnchanged(manager.events, "tick", [a, b]);
    var present, invoked := manager.Dispatch("tick");
    assert present && invoked == [a, b];
    Retick(manager, a, b);
  }

  /** The middle of `Tick`: after deafening the first listener only the
      second one runs. */
  method Retick(manager: EventManager, a: Callback, b: Callback)
    requires a != b
    requires manager.Valid()
    requires manager.events == map["tick" := [Plain(a), Plain(b)]]
    modifies manager
  {
    assert Plains([a]) == [Plain(a)];
    assert Without([Plain(a), Plain(b)], [Plain(a)]) == [Plain(b)];
    manager.Deafen("tick", Plains([a]));
    assert Plains([b]) == [Plain(b)];
    assert manager.events == map["tick" := Plains([b])];
    CallbacksOfPlains([b]);
    DispatchedPlainsUnchanged(manager.events, "tick", [b]);
    var present, invoked := manager.Dispatch("tick");
    assert present && invoked == [b];
    Untick(manager, b);
  }

  /** The end of `Tick`: deafening the last listener removes the entry. */
  method Untick(manager: EventManager, b: Callback)
    requires manager.Valid()
    requires manager.events == map["tick" := [Plain(b)]]
    modifies manager
  {
    assert Plains([b]) == [Plain(b)];
    assert Without([Plain(b)], [Plain(b)]) == [];
    manager.Deafen("tick", Plains([b]));
    assert manager.events == map[];
    var has := manager.HasListeners("tick");
    assert !has;
    var present, invoked := manager.Dispatch("tick");
    assert !present && invoked == [];
  }

  /** The same function registered twice runs twice. */
  method Twice(f: Callback)
  {
    var manager := new EventManager();
    manager.Listen("e", Plains([f, f]));
    CallbacksOfPlains([f, f]);
    var present, invoked := manager.Dispatch("e");
    assert present && invoked == [f, f];
  }

  /** A once-listener runs on the first dispatch only and then leaves no
      entry behind. */
  method Once(f: Callback)
  {
    var manager := new EventManager();
    manager.ListenOnce("x", [f]);
    var present, invoked := manager.Dispatch("x");
    assert present && invoked == [f];
    var has := manager.HasListeners("x");
    assert !has;
    present, invoked := manager.Dispatch("x");
    assert !present && invoked == [];
  }

  /** Deafening the function itself does not remove its once-wrapper. */
  method DeafenOriginal(f: Callback)
  {
    var manager := new EventManager();
    manager.ListenOnce("x", [f]);
    manager.Deafen("x", Plains([f]));
    var has := manager.HasListeners("x");
    assert has;
    var present, invoked := manager.Dispatch("x");
    assert present && invoked == [f];
  }

  /** `deafenAll` empties an event however many listeners it had, and doing
      it again changes nothing. */
  method DeafenAllTwice(f: Callback, g: Callback)
  {
    var manager := new EventManager();
    manager.Listen("e", Plains([f, g]));
    manager.ListenOnce("e", [f]);
    manager.DeafenAll("e");
    var before := manager.events;
    var has := manager.HasListeners("e");
    assert !has;
    manager.DeafenAll("e");
    assert manager.events == before;
  }
}
