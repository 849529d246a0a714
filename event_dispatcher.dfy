/** The listener registry of src/EventDispatcher.cpp: a list of listeners,
    known by address, that never holds the same listener twice. */
module Events {
  import opened Lists

  /** A listener is known only by its identity (the C++ compares addresses). */
  class Listener {
  }

  /** The list registerListener leaves behind. */
  function Registered(ls: seq<Listener>, l: Listener): seq<Listener> {
    if l in ls then ls else ls + [l]
  }

  /** The list unregisterListener leaves behind: the first entry equal to
      `l` erased, if there is one. */
  function Unregistered(ls: seq<Listener>, l: Listener): seq<Listener> {
    var i := IndexOf(ls, l);
    if i == |ls| then ls else RemoveAt(ls, i)
  }

  /** Registering keeps the list free of repeats, and afterwards exactly the
      old listeners and `l` are registered. */
  lemma RegisterDistinct(ls: seq<Listener>, l: Listener)
    requires NoDuplicates(ls)
    ensures NoDuplicates(Registered(ls, l))
    ensures forall x :: x in Registered(ls, l) <==> x in ls || x == l
  {
    if l !in ls {
      AppendDistinct(ls, l);
    }
  }

  /** Unregistering keeps the list free of repeats and takes away `l` and
      nothing else. */
  lemma UnregisterDistinct(ls: seq<Listener>, l: Listener)
    requires NoDuplicates(ls)
    ensures NoDuplicates(Unregistered(ls, l))
    ensures forall x :: x in Unregistered(ls, l) <==> x in ls && x != l
  {
    var i := IndexOf(ls, l);
    if i < |ls| {
      RemoveAtDistinct(ls, i);
    }
  }

  /** Registering a listener that was not there and unregistering it again
      gives back the list it started from. */
  lemma RegisterThenUnregister(ls: seq<Listener>, l: Listener)
    requires l !in ls
    ensures Unregistered(Registered(ls, l), l) == ls
  {
    var s := ls + [l];
    assert s[|ls|] == l;
    assert IndexOf(s, l) == |ls|;
    assert RemoveAt(s, |ls|) == ls;
  }

  /** Unregistering a registered listener and registering it again moves it
      to the end of the list. */
  lemma UnregisterThenRegister(ls: seq<Listener>, l: Listener)
    requires NoDuplicates(ls) && l in ls
    ensures Registered(Unregistered(ls, l), l) == RemoveAt(ls, IndexOf(ls, l)) + [l]
  {
    UnregisterDistinct(ls, l);
  }

  class EventDispatcher {
    var listeners: seq<Listener>

    predicate Valid()
      reads this
    {
      NoDuplicates(listeners)
    }

    constructor()
      ensures listeners == [] && Valid()
    {
      listeners := [];
    }

    /** registerListener (src/EventDispatcher.cpp:39-45). */
    method RegisterListener(listener: Listener) returns (ok: bool)
      requires Valid()
      modifies this
      ensures Valid()
      ensures ok <==> listener !in old(listeners)
      ensures listeners == Registered(old(listeners), listener)
    {
      var i := 0;
      while i < |listeners|
        invariant 0 <= i <= |listeners|
        invariant forall j :: 0 <= j < i ==> listeners[j] != listener
      {
        if listeners[i] == listener {
          return false;
        }
        i := i + 1;
      }
      RegisterDistinct(listeners, listener);
      listeners := listeners + [listener];
      return true;
    }

    /** unregisterListener (src/EventDispatcher.cpp:48-57). */
    method UnregisterListener(listener: Listener) returns (ok: bool)
      requires Valid()
      modifies this
      ensures Valid()
      ensures ok <==> listener in old(listeners)
      ensures listeners == Unregistered(old(listeners), listener)
    {
      UnregisterDistinct(listeners, listener);
      var i := 0;
      while i < |listeners|
        invariant 0 <= i <= |listeners|
        invariant forall j :: 0 <= j < i ==> listeners[j] != listener
      {
        if listeners[i] == listener {
          assert i == IndexOf(listeners, listener);
          listeners := listeners[..i] + listeners[i + 1..];
          return true;
        }
        i := i + 1;
      }
      return false;
    }
  }
}
