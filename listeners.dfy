/**
  Listeners as the event manager sees them: opaque identities it stores,
  compares and invokes, and the filtering that `deafen` is built on.
 */
module Listeners {

  /** The identity of a function a caller hands to the manager. */
  type Callback = nat

  /** What the registry stores. `Plain` is a caller's own function.
      `Once` is the self-removing closure that `listenOnce` creates around
      `callback`: a new closure on every call, so it carries an identity of
      its own (`wrapper`), and it captured the event name it deafens itself
      from (`event`). Equality of values stands for identity of closures, so
      a wrapper never equals the function it wraps. */
  datatype Listener =
    | Plain(callback: Callback)
    | Once(wrapper: nat, event: string, callback: Callback)

  /** The caller's functions, as listeners. */
  function Plains(cs: seq<Callback>): seq<Listener>
  {
    seq(|cs|, i requires 0 <= i < |cs| => Plain(cs[i]))
  }

  /** No element of `ls` is a wrapper: they are all a caller's own functions. */
  predicate NoWrappers(ls: seq<Listener>)
  {
    forall l :: l in ls ==> l.Plain?
  }

  /** The functions a dispatch over `s` ends up calling, in order: a wrapper
      calls the function it wraps. */
  function Callbacks(s: seq<Listener>): (r: seq<Callback>)
    ensures |r| == |s|
    ensures forall i :: 0 <= i < |s| ==> r[i] == s[i].callback
  {
    if s == [] then [] else Callbacks(s[..|s| - 1]) + [s[|s| - 1].callback]
  }

  /** The wrappers one `listenOnce` call creates, one per function, with
      identities `first`, `first + 1`, ... : each is a wrapper for `event`
      around the function at its position, and their identities are new
      past `first` and strictly ascending. */
  function Wrappers(first: nat, event: string, cs: seq<Callback>): (r: seq<Listener>)
    ensures |r| == |cs|
    ensures forall i :: 0 <= i < |r| ==> r[i].Once? && r[i].event == event && r[i].callback == cs[i]
    ensures forall l :: l in r ==> l.Once? && first <= l.wrapper < first + |cs|
    ensures forall i, j :: 0 <= i < j < |r| ==> r[i].wrapper < r[j].wrapper
  {
    seq(|cs|, i requires 0 <= i < |cs| => Once(first + i, event, cs[i]))
  }

  /** The wrappers in `s`, in order. */
  function Onces(s: seq<Listener>): seq<Listener>
  {
    if s == [] then []
    else Onces(s[..|s| - 1]) + (if s[|s| - 1].Once? then [s[|s| - 1]] else [])
  }

  /** The identities of the wrappers in `s`, in order. */
  function WrapperIds(s: seq<Listener>): seq<nat>
  {
    if s == [] then []
    else WrapperIds(s[..|s| - 1]) + (if s[|s| - 1].Once? then [s[|s| - 1].wrapper] else [])
  }

  /** `s.filter((x) => !ls.includes(x))`: the elements of `s` that occur
      nowhere in `ls`, in their original order. */
  function Without<T(==)>(s: seq<T>, ls: seq<T>): (r: seq<T>)
    ensures |r| <= |s|
  {
    if s == [] then []
    else if s[0] in ls then Without(s[1..], ls)
    else [s[0]] + Without(s[1..], ls)
  }

  /** Every occurrence of an element of `ls` is gone; every other element
      keeps all its occurrences. */
  lemma {:induction false} WithoutCount<T>(s: seq<T>, ls: seq<T>, x: T)
    ensures multiset(Without(s, ls))[x] == if x in ls then 0 else multiset(s)[x]
  {
    if s != [] {
      WithoutCount(s[1..], ls, x);
      assert s == [s[0]] + s[1..];
    }
  }

  /** Membership after filtering, both directions. */
  lemma {:induction false} WithoutMembers<T>(s: seq<T>, ls: seq<T>, x: T)
    ensures x in Without(s, ls) <==> x in s && x !in ls
  {
    WithoutCount(s, ls, x);
    assert x in Without(s, ls) <==> multiset(Without(s, ls))[x] > 0;
    assert x in s <==> multiset(s)[x] > 0;
  }

  /** Filtering out elements that do not occur changes nothing. */
  lemma {:induction false} WithoutUnmatched<T>(s: seq<T>, ls: seq<T>)
    requires forall x :: x in ls ==> x !in s
    ensures Without(s, ls) == s
  {
    if s != [] {
      assert s[0] in s;
      forall x | x in ls ensures x !in s[1..] {
        assert x in s[1..] ==> x in s;
      }
      WithoutUnmatched(s[1..], ls);
      assert s == [s[0]] + s[1..];
    }
  }

  /** Filtering twice is filtering once by both lists. */
  lemma {:induction false} WithoutWithout<T>(s: seq<T>, a: seq<T>, b: seq<T>)
    ensures Without(Without(s, a), b) == Without(s, a + b)
  {
    if s != [] {
      WithoutWithout(s[1..], a, b);
      assert s[0] in a + b <==> s[0] in a || s[0] in b;
    }
  }

  /** The indices of `s` whose elements survive filtering by `ls`, ascending. */
  ghost function KeptIndices<T>(s: seq<T>, ls: seq<T>): seq<nat>
  {
    if s == [] then []
    else
      var shifted := Shifted(KeptIndices(s[1..], ls));
      if s[0] in ls then shifted else [0] + shifted
  }

  /** Every index one further on. */
  ghost function Shifted(q: seq<nat>): (r: seq<nat>)
    ensures |r| == |q|
    ensures forall k :: 0 <= k < |q| ==> r[k] == q[k] + 1
    ensures forall i :: i in r <==> i > 0 && i - 1 in q
  {
    if q == [] then [] else [q[0] + 1] + Shifted(q[1..])
  }

  /** The filter keeps relative order: its result is `s` read at a strictly
      increasing list of indices, and those are exactly the indices whose
      element is not in `ls`. */
  lemma {:induction false} WithoutKeepsOrder<T>(s: seq<T>, ls: seq<T>)
    ensures |KeptIndices(s, ls)| == |Without(s, ls)|
    ensures forall k :: 0 <= k < |KeptIndices(s, ls)| ==>
      KeptIndices(s, ls)[k] < |s| && Without(s, ls)[k] == s[KeptIndices(s, ls)[k]]
    ensures forall k, k' :: 0 <= k < k' < |KeptIndices(s, ls)| ==>
      KeptIndices(s, ls)[k] < KeptIndices(s, ls)[k']
    ensures forall i :: 0 <= i < |s| ==> (i in KeptIndices(s, ls) <==> s[i] !in ls)
  {
    WithoutReadsKept(s, ls);
    KeptIndicesAscending(s, ls);
  }

  lemma {:induction false} WithoutReadsKept<T>(s: seq<T>, ls: seq<T>)
    ensures |KeptIndices(s, ls)| == |Without(s, ls)|
    ensures forall k :: 0 <= k < |KeptIndices(s, ls)| ==>
      KeptIndices(s, ls)[k] < |s| && Without(s, ls)[k] == s[KeptIndices(s, ls)[k]]
  {
    if s != [] {
      var t := s[1..];
      WithoutReadsKept(t, ls);
      var r, shifted := Without(t, ls), Shifted(KeptIndices(t, ls));
      assert forall k :: 0 <= k < |shifted| ==> shifted[k] < |s| && r[k] == s[shifted[k]];
      if s[0] !in ls {
        var idx := [0] + shifted;
        assert forall k :: 1 <= k < |idx| ==> idx[k] == shifted[k - 1];
      }
    }
  }

  lemma {:induction false} KeptIndicesAscending<T>(s: seq<T>, ls: seq<T>)
    ensures forall k, k' :: 0 <= k < k' < |KeptIndices(s, ls)| ==>
      KeptIndices(s, ls)[k] < KeptIndices(s, ls)[k']
    ensures forall i :: 0 <= i < |s| ==> (i in KeptIndices(s, ls) <==> s[i] !in ls)
  {
    if s != [] {
      var t := s[1..];
      KeptIndicesAscending(t, ls);
      var shifted := Shifted(KeptIndices(t, ls));
      assert forall i :: 1 <= i < |s| ==> s[i] == t[i - 1];
      if s[0] !in ls {
        var idx := [0] + shifted;
        assert forall k :: 1 <= k < |idx| ==> idx[k] == shifted[k - 1];
      }
    }
  }

  /** A wrapper is never one of the caller's own functions, so filtering by
      functions the caller supplies keeps every wrapper. */
  lemma {:induction false} WithoutPlainsKeepsOnces(s: seq<Listener>, cs: seq<Callback>, l: Listener)
    requires l in s && l.Once?
    ensures l in Without(s, Plains(cs))
  {
    WithoutMembers(s, Plains(cs), l);
  }

  /** Dispatching a caller's own functions calls exactly those functions. */
  lemma CallbacksOfPlains(cs: seq<Callback>)
    ensures Callbacks(Plains(cs)) == cs
  {
  }

  /** Dispatching the wrappers of one `listenOnce` call calls exactly the
      functions it was given, in order. */
  lemma CallbacksOfWrappers(first: nat, event: string, cs: seq<Callback>)
    ensures Callbacks(Wrappers(first, event, cs)) == cs
  {
  }

  /** Wrappers in `s`, both directions. */
  lemma {:induction false} OncesMembers(s: seq<Listener>, x: Listener)
    ensures x in Onces(s) <==> x in s && x.Once?
  {
    if s != [] {
      var init := s[..|s| - 1];
      OncesMembers(init, x);
      assert s == init + [s[|s| - 1]];
    }
  }

  /** A dispatch over a caller's own functions fires no wrapper. */
  lemma OncesOfPlains(cs: seq<Callback>)
    ensures Onces(Plains(cs)) == [] && WrapperIds(Plains(cs)) == []
  {
    if Onces(Plains(cs)) != [] {
      OncesMembers(Plains(cs), Onces(Plains(cs))[0]);
    }
    WrapperIdsOfPlains(cs);
  }

  lemma {:induction false} WrapperIdsOfPlains(cs: seq<Callback>)
    ensures WrapperIds(Plains(cs)) == []
  {
    if cs != [] {
      var n := |cs| - 1;
      WrapperIdsOfPlains(cs[..n]);
      assert Plains(cs)[..n] == Plains(cs[..n]);
    }
  }

  /** A sequence whose elements are pairwise distinct holds each once. */
  lemma {:induction false} DistinctCountOne<T>(s: seq<T>, x: T)
    requires forall i, j :: 0 <= i < j < |s| ==> s[i] != s[j]
    requires x in s
    ensures multiset(s)[x] == 1
  {
    if s[0] == x {
      assert x !in s[1..];
    } else {
      DistinctCountOne(s[1..], x);
    }
    assert s == [s[0]] + s[1..];
  }
}
