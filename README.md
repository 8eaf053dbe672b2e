# Event manager, modelled in Dafny

`EventManager` (index.ts) is an in-process publish/subscribe registry. Callers register
listeners under event names, remove them one by one or all at once, register listeners
that run only once, and dispatch an event to every listener registered for it. Its only
state is a private map from event name to the sequence of listeners, in registration order.

The model keeps that form. It is a class, `EventManagers.EventManager`, with the map as a
field `events: map<string, seq<Listener>>`:
- `listen`, `listenOnce`, `deafen` and `deafenAll` update the field in place.
- `dispatch` writes to it only through the once-wrappers it invokes, each of which deafens
  itself.
- `hasListeners` only reads it.

- `listeners.dfy`: module `Listeners`.
  - A listener is an identity the registry only compares and invokes.
  - `Plain(callback)` is a caller's own function.
  - `Once(wrapper, event, callback)` is the closure `listenOnce` builds around `callback`.
    `wrapper` is the new closure's identity. `event` is the event name it captured.
    Datatype equality stands for reference equality, so a wrapper never equals the
    function it wraps.
  - `Without` is `deafen`'s `filter`. Its lemmas state what it keeps, what it drops and
    that it keeps order.
- `registry.dfy`: module `Registry`.
  - `Listened` and `Deafened` give the map as `listen` and `deafen` leave it.
  - `Wf` is the invariant: no event maps to an empty sequence, and every once-wrapper is
    stored once, under its own event, and has not fired yet.
  - The `…Wf` lemmas show that every operation keeps the invariant.
- `event_manager.dfy`: module `EventManagers`, the class.
  - `nextWrapper` is the identity the next wrapper gets. It stands for the fresh closure
    each `listenOnce` call allocates.
  - The ghost field `fired` lists the wrappers that have run, in order. The invariant says
    it has no duplicates: each once-registration calls its function at most once, across
    any number of dispatches that are not nested inside a listener.
  - The ghost field `minted` holds the wrappers of the `listenOnce` call in progress, until
    it hands them to `listen`. It is empty between calls.
- `scenarios.dfy`: module `Scenarios`. Client methods prove the documented sequences of
  calls from the method contracts alone:
  - two listeners dispatched in order, then deafened one by one;
  - a listener registered twice runs twice;
  - a once-listener runs on the first dispatch and never again;
  - deafening the original function does not remove its once-wrapper;
  - calling `deafenAll` twice is the same as calling it once.

`dispatch` walks the sequence that was stored when the call began. The code gives this
for two reasons:
- `deafen` never changes a stored array; it replaces the entry with a new, filtered one
  (index.ts:42-48).
- `forEach` fixes the length before the first callback, so elements that `listen` pushes
  during the walk are not visited (index.ts:16, index.ts:69).

So every listener present at the start is invoked, in order, once per occurrence. A
once-wrapper removes itself from the current map before it calls its function
(`EventManager.Invoke`).

`Listen` takes stored listeners, as the source's `listen` does. Its precondition depends
on `minted`:
- Between calls `minted` is empty. `Listen` then accepts only a caller's own functions
  (`NoWrappers`), because no caller can hold a wrapper: the closures never leave
  `listenOnce`.
- Inside `ListenOnce`, `minted` holds exactly the wrappers that call has just created.
  `Listen` then accepts that sequence and nothing else. `Admissible` states that those
  wrappers are new: tagged with the event, never stored, never fired and distinct.

So an old wrapper, or one made up with another event or function, can never be handed to
`Listen`. This is what lets `ListenOnce` call `Listen`, as the source does.

## Model

| member | source | states |
|---|---|---|
| `Listeners.Without` | index.ts:42-43 | the filtered sequence is never longer than the original |
| `Listeners.WithoutCount` | index.ts:43 | every occurrence of a listener passed to `deafen` is removed; every other listener keeps exactly as many occurrences as it had |
| `Listeners.WithoutMembers` | index.ts:43 | a listener survives the filter if and only if it was present and was not passed to `deafen` |
| `Listeners.WithoutKeepsOrder` | index.ts:43 | the result is the original read at strictly increasing indices, and those are exactly the indices whose listener was not passed: relative order is kept |
| `Listeners.WithoutUnmatched` | index.ts:43 | filtering by listeners that are not present returns the sequence unchanged |
| `Listeners.WithoutWithout` | index.ts:43 | filtering by `a` and then by `b` is filtering once by `a + b` |
| `Listeners.WithoutPlainsKeepsOnces` | index.ts:27-33 | filtering by a caller's own functions keeps every once-wrapper, including one around those very functions |
| `Listeners.Callbacks` | index.ts:69 | the functions a walk over a sequence calls: one per stored listener, the one at each position being that listener's function, so a wrapper calls the function it wraps (index.ts:30) |
| `Listeners.Wrappers` | index.ts:27-33 | one wrapper per function given, in order, each for the given event and around the function at its position; their identities are at least the counter, below the counter plus their number, and strictly ascending |
| `Listeners.CallbacksOfPlains` | index.ts:69 | dispatching a sequence of a caller's own functions calls exactly those functions, in order |
| `Listeners.CallbacksOfWrappers` | index.ts:27-33 | dispatching the wrappers of one `listenOnce` call calls exactly the functions it was given, in order |
| `Registry.Listened` | index.ts:13-19 | no listeners: the map is unchanged; otherwise the event maps to its old sequence (or the empty one) followed by the new listeners, duplicates kept, and no other entry changes |
| `Registry.Deafened` | index.ts:41-51 | an absent event: no change; otherwise the event keeps its filtered sequence, the key is gone exactly when that is empty, and no other entry changes |
| `Registry.ListenedWf` | index.ts:13-19 | `listen` keeps the invariant: no empty entry, each wrapper stored once under its own event and not yet fired |
| `Registry.DeafenedWf` | index.ts:41-51 | `deafen` keeps the invariant, including that no key is left mapping to an empty sequence |
| `Registry.RemovedWf` | index.ts:57-60 | removing a key keeps the invariant |
| `Registry.WrappersAdmissible` | index.ts:26-34 | wrappers minted from the counter are new: never stored, never fired, pairwise distinct, so `listen` may store them |
| `Registry.FiredWf` | index.ts:28-31 | a wrapper that deafens itself and then fires leaves no copy of itself registered, so the list of fired wrappers stays free of duplicates |
| `Registry.WrapperStillRegistered` | index.ts:67-71 | when a dispatch reaches a wrapper in its starting sequence, that wrapper is still registered under the dispatched event |
| `Registry.DispatchStep` | index.ts:67-71 | one step of the dispatch walk: a wrapper's self-removal, together with the earlier ones, equals one `deafen` of all the wrappers so far; a caller's function changes nothing |
| `Registry.DeafenedUnmatched` | index.ts:44-48 | `deafen` with listeners that are not registered leaves the whole map unchanged; the no-empty-entry invariant keeps the key from being deleted |
| `Registry.DeafenedRemoves` | index.ts:44-48 | after `deafen`, no passed listener remains for the event and the others keep their counts; the key is gone exactly when every listener was passed |
| `Registry.DeafenedTwice` | index.ts:42-48 | two `deafen` calls on one event equal one `deafen` of both lists, also when the first one deleted the key |
| `Registry.DeafenedKeepsWrappers` | index.ts:26-33 | `deafen` with the original functions leaves every once-wrapper registered |
| `Registry.DispatchedLeavesPlains` | index.ts:67-71 | after a dispatch the event keeps exactly its caller-supplied listeners, with their counts and order, and no wrapper; the key is gone when every listener was a wrapper |
| `EventManagers.EventManager.constructor` | index.ts:6 | a new manager has an empty map and satisfies the invariant |
| `EventManagers.EventManager.Listen` | index.ts:13-19 | the new map is `Listened` of the old one; the invariant holds and no minted wrapper is left pending; the wrapper counter and the fired list do not change |
| `EventManagers.EventManager.ListenOnce` | index.ts:26-34 | stores one fresh wrapper per function, in order, through `listen`; the counter advances by their number; the invariant holds |
| `EventManagers.EventManager.Deafen` | index.ts:41-51 | the new map is `Deafened` of the old one; the empty case goes through `DeafenAll`; the invariant holds |
| `EventManagers.EventManager.DeafenAll` | index.ts:57-60 | the key is removed and nothing else changes, so a second call changes nothing |
| `EventManagers.EventManager.Invoke` | index.ts:28-31 | a caller's function runs with no change to the map; a wrapper first deafens itself from its captured event, then runs its function, and is recorded as fired |
| `EventManagers.EventManager.Dispatch` | index.ts:67-71 | returns whether the event had an entry at the start; calls the functions of the starting sequence, in order, once per occurrence; afterwards exactly the wrappers of that sequence are removed and recorded as fired |
| `EventManagers.EventManager.HasListeners` | index.ts:77-79 | true exactly when the event has an entry, which by the invariant means at least one listener is registered |

## Left out

- Listener arguments: `dispatch` forwards its arguments unchanged to every listener, and the registry never looks at them. The model leaves them out, and `invoked` records only which functions were called.
- What a caller's function does when it runs: its body is foreign code. `Dispatch` models only the once-wrapper's own effect on the registry. The model also leaves out nested dispatches or registrations made from inside a listener.
- Exceptions thrown by listeners: the source neither catches nor defines them, so `Dispatch` always walks the whole sequence.
- The `this` that every mutating method returns for chaining: it carries no state.
- The iteration order of a JavaScript `Map` and the behaviour of arrays with holes: neither can be observed through this API.
- EventManagers.EventManager.Listen: its precondition accepts a wrapper only while `ListenOnce` is handing over the wrappers it has just minted; at any other time it accepts only a caller's own functions. The source's `listen` accepts any function, but no caller can hold a wrapper, because the closures never leave `listenOnce`.
- Nested dispatch: each once-registration runs at most once only when dispatches are not nested. Suppose a caller's function that comes before a wrapper in the same sequence dispatches that event again. The inner walk then runs the wrapper, which deafens itself, and the outer walk still holds the old array and reaches the wrapper too. `deafen` then has nothing to remove, and the wrapped function runs a second time (index.ts:29-30, index.ts:69). Listener bodies are foreign code, so the model does not capture this.
- Listeners.Without: its own contract states only the length bound. What it keeps, what it drops and the order are stated by `WithoutCount`, `WithoutMembers` and `WithoutKeepsOrder`.
