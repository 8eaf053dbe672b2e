/**
  The `#events` map as a value: what `listen` and `deafen` make of it, the
  invariant every operation keeps, and the facts about them that the class
  methods rely on.
 */
module Registry {
  import opened Listeners

  /** Event name to the listeners registered for it, in registration order. */
  type Events = map<string, seq<Listener>>

  /** The sequence registered for `event`, or the empty one if it has no entry. */
  function Entry(m: Events, event: string): seq<Listener>
  {
    if event in m then m[event] else []
  }

  /** The registry after `listen(event, ...ls)`. */
  ghost function Listened(m: Events, event: string, ls: seq<Listener>): (r: Events)
    ensures ls == [] ==> r == m
    ensures ls != [] ==> event in r && r[event] == Entry(m, event) + ls
    ensures forall k :: k != event ==> (k in r <==> k in m)
    ensures forall k :: k != event && k in m ==> r[k] == m[k]
  {
    if ls == [] then m
    else if event in m then m[event := m[event] + ls]
    else m[event := ls]
  }

  /** The registry after `deafen(event, ...ls)`. */
  ghost function Deafened(m: Events, event: string, ls: seq<Listener>): (r: Events)
    ensures event !in m ==> r == m
    ensures event in m ==> (event in r <==> Without(m[event], ls) != [])
    ensures event in r && event in m ==> r[event] == Without(m[event], ls)
    ensures forall k :: k != event ==> (k in r <==> k in m)
    ensures forall k :: k != event && k in m ==> r[k] == m[k]
  {
    if event !in m then m
    else
      var kept := Without(m[event], ls);
      if |kept| < 1 then m - {event} else m[event := kept]
  }

  /** No event name maps to an empty sequence. */
  ghost predicate NoEmptyEntries(m: Events)
  {
    forall k :: k in m ==> m[k] != []
  }

  /** A wrapper is stored only under the event name it captured. */
  ghost predicate WrappersTagged(m: Events)
  {
    forall k, l :: k in m && l in m[k] && l.Once? ==> l.event == k
  }

  /** Every stored wrapper was minted before `next` and has not fired. */
  ghost predicate WrappersLive(m: Events, next: nat, fired: seq<nat>)
  {
    forall k, l :: k in m && l in m[k] && l.Once? ==> l.wrapper < next && l.wrapper !in fired
  }

  /** A wrapper is stored once, and its identity is its own. */
  ghost predicate WrappersUnique(m: Events)
  {
    && (forall k, l :: k in m && l in m[k] && l.Once? ==> multiset(m[k])[l] == 1)
    && (forall k, k', l, l' ::
          k in m && k' in m && l in m[k] && l' in m[k'] && l.Once? && l'.Once? && l.wrapper == l'.wrapper
          ==> l == l')
  }

  ghost predicate NoDuplicates(ws: seq<nat>)
  {
    forall i, j :: 0 <= i < j < |ws| ==> ws[i] != ws[j]
  }

  /** The invariant of the event manager: `m` is its map, `next` the next
      wrapper identity to mint, `fired` the wrappers that have fired, in
      order. That `fired` has no duplicates is the once-guarantee. */
  ghost predicate Wf(m: Events, next: nat, fired: seq<nat>)
  {
    && NoEmptyEntries(m)
    && WrappersTagged(m)
    && WrappersLive(m, next, fired)
    && WrappersUnique(m)
    && NoDuplicates(fired)
    && (forall w :: w in fired ==> w < next)
  }

  /** Wrappers in `ls` are new for `event`: tagged with it, minted below
      `next`, never fired, stored nowhere, and distinct. A caller's own
      functions satisfy it trivially. */
  ghost predicate Admissible(m: Events, next: nat, fired: seq<nat>, event: string, ls: seq<Listener>)
  {
    && (forall l :: l in ls && l.Once? ==>
          && l.event == event && l.wrapper < next && l.wrapper !in fired
          && multiset(ls)[l] == 1
          && forall k, x :: k in m && x in m[k] && x.Once? ==> x.wrapper != l.wrapper)
    && (forall l, l' :: l in ls && l' in ls && l.Once? && l'.Once? && l.wrapper == l'.wrapper ==> l == l')
  }

  /** `listen` keeps the invariant. */
  lemma ListenedWf(m: Events, next: nat, fired: seq<nat>, event: string, ls: seq<Listener>)
    requires Wf(m, next, fired) && Admissible(m, next, fired, event, ls)
    ensures Wf(Listened(m, event, ls), next, fired)
  {
    var r := Listened(m, event, ls);
    if ls != [] {
      var old_ := Entry(m, event);
      assert event in m ==> old_ == m[event];
      forall k: string, l: Listener | k in r && l in r[k] && l.Once?
        ensures l.event == k && l.wrapper < next && l.wrapper !in fired
        ensures multiset(r[k])[l] == 1
      {
        if k == event {
          if l in old_ {
            assert multiset(ls)[l] == 0;
          } else {
            assert l in ls;
            assert multiset(old_)[l] == 0;
          }
        }
      }
    }
  }

  /** Every entry of `r` is an entry of `m` with some occurrences dropped. */
  ghost predicate Shrunk(r: Events, m: Events)
  {
    && r.Keys <= m.Keys
    && forall k, l :: k in r && l in r[k] ==> l in m[k] && multiset(r[k])[l] <= multiset(m[k])[l]
  }

  /** Dropping listeners keeps the invariant, as long as no entry is left empty. */
  lemma ShrunkWf(r: Events, m: Events, next: nat, fired: seq<nat>)
    requires Wf(m, next, fired) && Shrunk(r, m) && NoEmptyEntries(r)
    ensures Wf(r, next, fired)
  {
    forall k, l | k in r && l in r[k] && l.Once? ensures multiset(r[k])[l] == 1 {
      assert multiset(r[k])[l] > 0;
    }
  }

  /** `deafen` keeps the invariant. */
  lemma DeafenedWf(m: Events, next: nat, fired: seq<nat>, event: string, ls: seq<Listener>)
    requires Wf(m, next, fired)
    ensures Wf(Deafened(m, event, ls), next, fired)
  {
    var r := Deafened(m, event, ls);
    forall k, l | k in r && l in r[k]
      ensures l in m[k] && multiset(r[k])[l] <= multiset(m[k])[l]
    {
      if k == event {
        WithoutMembers(m[event], ls, l);
        WithoutCount(m[event], ls, l);
      }
    }
    ShrunkWf(r, m, next, fired);
  }

  /** Removing a key keeps the invariant. */
  lemma RemovedWf(m: Events, next: nat, fired: seq<nat>, event: string)
    requires Wf(m, next, fired)
    ensures Wf(m - {event}, next, fired)
  {
  }

  /** The step a wrapper takes when it is invoked: it deafens itself from the
      event it captured, and then it has fired. The invariant survives, in
      particular the wrapper can never fire again. */
  lemma FiredWf(m: Events, next: nat, fired: seq<nat>, l: Listener)
    requires Wf(m, next, fired)
    requires l.Once? && l.event in m && l in m[l.event]
    ensures Wf(Deafened(m, l.event, [l]), next, fired + [l.wrapper])
  {
    DeafenedWf(m, next, fired, l.event, [l]);
    var r := Deafened(m, l.event, [l]);
    forall k: string, x: Listener | k in r && x in r[k] && x.Once?
      ensures x.wrapper != l.wrapper
    {
      if k == l.event {
        WithoutMembers(m[l.event], [l], x);
      }
    }
  }

  /** During a dispatch of `event`, the wrapper at position `i` of the
      sequence the dispatch started from is still registered when its turn
      comes: only the wrappers before it have deafened themselves. */
  lemma {:induction false} WrapperStillRegistered(m: Events, event: string, i: nat)
    requires WrappersUnique(m) && WrappersTagged(m)
    requires event in m && i < |m[event]| && m[event][i].Once?
    ensures m[event][i].event == event
    ensures event in Deafened(m, event, Onces(m[event][..i]))
    ensures m[event][i] in Deafened(m, event, Onces(m[event][..i]))[event]
  {
    var s, l := m[event], m[event][i];
    assert s == s[..i] + [l] + s[i + 1..];
    assert multiset(s)[l] == multiset(s[..i])[l] + 1 + multiset(s[i + 1..])[l];
    OncesMembers(s[..i], l);
    WithoutMembers(s, Onces(s[..i]), l);
  }

  /** One step of a dispatch of `event` that started from registry `m0` and
      fired-list `fired0`: the listeners before position `i` have run, and
      the one at `i` runs next. A wrapper deafens itself and is added to the
      fired ones; a caller's function changes nothing. Either way the step
      ends where the first `i + 1` listeners leave the registry. */
  lemma DispatchStep(m0: Events, fired0: seq<nat>, next: nat, event: string, i: nat, m: Events, fired: seq<nat>)
    requires Wf(m0, next, fired0) && event in m0 && i < |m0[event]|
    requires m == Deafened(m0, event, Onces(m0[event][..i]))
    requires fired == fired0 + WrapperIds(m0[event][..i])
    requires Wf(m, next, fired)
    ensures Callbacks(m0[event][..i + 1]) == Callbacks(m0[event][..i]) + [m0[event][i].callback]
    ensures var s, l := m0[event], m0[event][i];
      if l.Once? then
        && l.event == event && event in m && l in m[event]
        && Deafened(m, event, [l]) == Deafened(m0, event, Onces(s[..i + 1]))
        && fired + [l.wrapper] == fired0 + WrapperIds(s[..i + 1])
        && Wf(Deafened(m, event, [l]), next, fired + [l.wrapper])
      else
        && m == Deafened(m0, event, Onces(s[..i + 1]))
        && fired == fired0 + WrapperIds(s[..i + 1])
  {
    var s, l := m0[event], m0[event][i];
    assert s[..i + 1][..i] == s[..i];
    if l.Once? {
      WrapperStillRegistered(m0, event, i);
      FiredWf(m, next, fired, l);
      DeafenedTwice(m0, event, Onces(s[..i]), [l]);
    } else {
      assert Onces(s[..i + 1]) == Onces(s[..i]);
      assert WrapperIds(s[..i + 1]) == WrapperIds(s[..i]);
    }
  }

  /** Minting fresh wrappers: raising the counter keeps the invariant, and
      the minted wrappers may be handed to `listen`. */
  lemma WrappersAdmissible(m: Events, next: nat, fired: seq<nat>, event: string, cs: seq<Callback>)
    requires Wf(m, next, fired)
    ensures Wf(m, next + |cs|, fired)
    ensures Admissible(m, next + |cs|, fired, event, Wrappers(next, event, cs))
  {
    var ws := Wrappers(next, event, cs);
    forall l | l in ws
      ensures l.Once? && l.event == event && next <= l.wrapper < next + |cs|
      ensures multiset(ws)[l] == 1
    {
      var i :| 0 <= i < |ws| && ws[i] == l;
      assert forall j, j' :: 0 <= j < j' < |ws| ==> ws[j].wrapper != ws[j'].wrapper;
      DistinctCountOne(ws, l);
    }
  }

  /** `deafen` with listeners that are not registered leaves the registry as
      it was: thanks to the invariant, the key is not deleted either. */
  lemma {:induction false} DeafenedUnmatched(m: Events, event: string, ls: seq<Listener>)
    requires NoEmptyEntries(m)
    requires event in m ==> forall x :: x in ls ==> x !in m[event]
    ensures Deafened(m, event, ls) == m
  {
    if event in m {
      WithoutUnmatched(m[event], ls);
    }
  }

  /** After `deafen`, no element of `ls` is registered for `event`; what
      remains is every other listener, with all its occurrences; if nothing
      remains, `event` has no entry. */
  lemma {:induction false} DeafenedRemoves(m: Events, event: string, ls: seq<Listener>, x: Listener)
    requires event in m
    ensures event in Deafened(m, event, ls) ==>
      multiset(Deafened(m, event, ls)[event])[x] == if x in ls then 0 else multiset(m[event])[x]
    ensures event !in Deafened(m, event, ls) <==> forall y :: y in m[event] ==> y in ls
  {
    WithoutCount(m[event], ls, x);
    if event in Deafened(m, event, ls) {
      var y := Without(m[event], ls)[0];
      WithoutMembers(m[event], ls, y);
    } else {
      forall y | y in m[event] ensures y in ls {
        WithoutMembers(m[event], ls, y);
      }
    }
  }

  /** Two `deafen` calls on one event are one `deafen` of both lists, even
      when the first one deleted the key. */
  lemma {:induction false} DeafenedTwice(m: Events, event: string, a: seq<Listener>, b: seq<Listener>)
    ensures Deafened(Deafened(m, event, a), event, b) == Deafened(m, event, a + b)
  {
    if event in m {
      WithoutWithout(m[event], a, b);
    }
  }

  /** What a dispatch of `event` leaves registered: the caller's functions
      of its sequence, with all their occurrences and in their order, and no
      wrapper; no entry at all when every listener was a wrapper. */
  lemma {:induction false} DispatchedLeavesPlains(m: Events, event: string, x: Listener)
    requires event in m
    ensures event in Deafened(m, event, Onces(m[event])) ==>
      Deafened(m, event, Onces(m[event]))[event] == Without(m[event], Onces(m[event]))
      && multiset(Deafened(m, event, Onces(m[event]))[event])[x]
         == if x.Once? then 0 else multiset(m[event])[x]
    ensures event !in Deafened(m, event, Onces(m[event])) <==> forall y :: y in m[event] ==> y.Once?
  {
    OncesMembers(m[event], x);
    DeafenedRemoves(m, event, Onces(m[event]), x);
    forall y ensures y in m[event] ==> (y in Onces(m[event]) <==> y.Once?) {
      OncesMembers(m[event], y);
    }
  }

  /** Dispatching an event whose listeners are all the caller's own
      functions leaves the registry as it was. */
  lemma DispatchedPlainsUnchanged(m: Events, event: string, cs: seq<Callback>)
    requires event in m && m[event] == Plains(cs) && cs != []
    ensures Deafened(m, event, Onces(m[event])) == m
  {
    OncesOfPlains(cs);
    WithoutUnmatched(m[event], []);
  }

  /** `deafen` with a caller's own functions never removes a wrapper that
      `listenOnce` registered, even around the very same functions. */
  lemma {:induction false} DeafenedKeepsWrappers(m: Events, event: string, cs: seq<Callback>, l: Listener)
    requires event in m && l in m[event] && l.Once?
    ensures event in Deafened(m, event, Plains(cs)) && l in Deafened(m, event, Plains(cs))[event]
  {
    WithoutPlainsKeepsOnces(m[event], cs, l);
  }
}
