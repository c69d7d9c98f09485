/** The intrusive, singly linked listener list that access control and the access restriction
    provider both keep. The link lives in the listener itself. */
module ListenerList {

  /** A listener; `log` is the sequence of notifications it has received. */
  class Listener<E> {
    var next: Listener?<E>
    var log: seq<E>

    constructor ()
      ensures next == null && log == []
    {
      next, log := null, [];
    }
  }

  ghost predicate NoDuplicates<T>(s: seq<T>) {
    forall i, j :: 0 <= i < j < |s| ==> s[i] != s[j]
  }

  // ----- The list as a sequence -----

  datatype Change<T> = Register(listener: T) | Unregister(listener: T)

  ghost function Without<T>(s: seq<T>, x: T): seq<T> {
    if s == [] then [] else if s[0] == x then s[1..] else [s[0]] + Without(s[1..], x)
  }

  /** Register appends an absent listener, unregister drops a present one. */
  ghost function AfterChange<T>(s: seq<T>, c: Change<T>): seq<T> {
    match c
    case Register(x) => if x in s then s else s + [x]
    case Unregister(x) => Without(s, x)
  }

  ghost function AfterChanges<T>(s: seq<T>, cs: seq<Change<T>>): seq<T> {
    if cs == [] then s else AfterChange(AfterChanges(s, cs[..|cs| - 1]), cs[|cs| - 1])
  }

  lemma {:induction false} WithoutIsRemoval<T>(s: seq<T>, k: nat)
    requires NoDuplicates(s) && k < |s|
    ensures Without(s, s[k]) == s[..k] + s[k + 1..]
  {
    if k > 0 {
      WithoutIsRemoval(s[1..], k - 1);
      assert s[1..][..k - 1] == s[1..k];
      assert s[1..][k..] == s[k + 1..];
      assert [s[0]] + s[1..k] == s[..k];
    }
  }

  lemma {:induction false} WithoutAbsent<T>(s: seq<T>, x: T)
    requires x !in s
    ensures Without(s, x) == s
  {
    if s != [] {
      WithoutAbsent(s[1..], x);
    }
  }

  lemma {:induction false} WithoutMembers<T>(s: seq<T>, x: T)
    requires NoDuplicates(s)
    ensures NoDuplicates(Without(s, x))
    ensures forall y :: y in Without(s, x) <==> y in s && y != x
  {
    if s != [] {
      assert forall y :: y in s <==> y == s[0] || y in s[1..];
      assert s[0] !in s[1..];
      if s[0] != x {
        WithoutMembers(s[1..], x);
        assert forall y :: y in Without(s, x) <==> y == s[0] || y in Without(s[1..], x);
      }
    }
  }

  /** Did the last change that names `x`, if any, register it? */
  ghost predicate LastRegistered<T>(cs: seq<Change<T>>, x: T, initially: bool) {
    if cs == [] then initially
    else if cs[|cs| - 1].listener == x then cs[|cs| - 1].Register?
    else LastRegistered(cs[..|cs| - 1], x, initially)
  }

  /** Over every history of changes the list stays duplicate-free and holds exactly the listeners
      whose last change was a registration. */
  lemma {:induction false} HistoryDecidesMembership<T>(s: seq<T>, cs: seq<Change<T>>, x: T)
    requires NoDuplicates(s)
    ensures NoDuplicates(AfterChanges(s, cs))
    ensures x in AfterChanges(s, cs) <==> LastRegistered(cs, x, x in s)
  {
    if cs != [] {
      HistoryDecidesMembership(s, cs[..|cs| - 1], x);
      WithoutMembers(AfterChanges(s, cs[..|cs| - 1]), cs[|cs| - 1].listener);
    }
  }

  /** When did `x`, a member after the changes `cs` to an empty list, join for its current stay? */
  ghost function JoinedAt<T>(cs: seq<Change<T>>, x: T): nat
    requires x in AfterChanges([], cs)
  {
    var front := cs[..|cs| - 1];
    if x in AfterChanges([], front) && (cs[|cs| - 1].listener != x || cs[|cs| - 1].Register?)
    then JoinedAt(front, x)
    else |cs| - 1
  }

  lemma {:induction false} JoinedAtBound<T>(cs: seq<Change<T>>, x: T)
    requires x in AfterChanges([], cs)
    ensures JoinedAt(cs, x) < |cs|
  {
    var front := cs[..|cs| - 1];
    if x in AfterChanges([], front) && (cs[|cs| - 1].listener != x || cs[|cs| - 1].Register?) {
      JoinedAtBound(front, x);
    }
  }

  /** That is when a change registered it while it was absent, and it has been a member ever since. */
  lemma {:induction false} JoinedAtExactly<T>(cs: seq<Change<T>>, x: T, k: nat)
    requires x in AfterChanges([], cs)
    ensures var j := JoinedAt(cs, x);
            j < |cs| && cs[j] == Register(x) && x !in AfterChanges([], cs[..j]) &&
            (j < k <= |cs| ==> x in AfterChanges([], cs[..k]))
  {
    var n := |cs| - 1;
    var front := cs[..n];
    assert cs[..|cs|] == cs;
    HistoryDecidesMembership([], front, x);
    WithoutMembers(AfterChanges([], front), cs[n].listener);
    if x in AfterChanges([], front) && (cs[n].listener != x || cs[n].Register?) {
      JoinedAtExactly(front, x, k);
      var j := JoinedAt(front, x);
      assert front[..j] == cs[..j];
      if k <= n {
        assert front[..k] == cs[..k];
      }
    }
  }

  /** Over every history the list is in registration order. */
  lemma {:induction false} HistoryDecidesOrder<T>(cs: seq<Change<T>>, i: nat, j: nat)
    requires i < j < |AfterChanges([], cs)|
    ensures JoinedAt(cs, AfterChanges([], cs)[i]) < JoinedAt(cs, AfterChanges([], cs)[j])
  {
    var list, front, c := AfterChanges([], cs), cs[..|cs| - 1], cs[|cs| - 1];
    var before := AfterChanges([], front);
    HistoryDecidesMembership([], front, list[i]);
    if c.Unregister? && c.listener in before {
      var k :| 0 <= k < |before| && before[k] == c.listener;
      DroppedAt(before, k, i);
      DroppedAt(before, k, j);
      HistoryDecidesOrder(front, if i < k then i else i + 1, if j < k then j else j + 1);
    } else {
      if c.Unregister? {
        WithoutAbsent(before, c.listener);
      }
      assert before <= list;
      JoinedAtBound(front, before[i]);
      if j < |before| {
        HistoryDecidesOrder(front, i, j);
      }
    }
  }

  lemma DroppedAt<T>(s: seq<T>, k: nat, i: nat)
    requires NoDuplicates(s) && k < |s| && i < |Without(s, s[k])|
    ensures |Without(s, s[k])| == |s| - 1
    ensures Without(s, s[k])[i] == s[if i < k then i else i + 1]
    ensures Without(s, s[k])[i] != s[k]
  {
    WithoutIsRemoval(s, k);
  }

  // ----- The list in the heap -----

  class Chain<E> {
    var head: Listener?<E>
    ghost var items: seq<Listener<E>>

    ghost function At(i: nat): Listener?<E>
      reads this
    {
      if i < |items| then items[i] else null
    }

    /** The links lead from the head through the items in order and end there: the list is acyclic. */
    ghost predicate Valid()
      reads this, items
    {
      NoDuplicates(items) &&
      head == At(0) &&
      forall i {:trigger items[i].next} :: 0 <= i < |items| ==> items[i].next == At(i + 1)
    }

    constructor ()
      ensures Valid() && items == []
    {
      head, items := null, [];
    }

    method Add(listener: Listener<E>)
      requires Valid()
      modifies this, items, listener
      ensures Valid()
      ensures items == AfterChange(old(items), Register(listener))
      ensures forall l :: l in items ==> l.log == old(l.log)
    {
      if head == null {
        head := listener;
        listener.next := null;
        items := [listener];
        return;
      }
      var l := head;
      ghost var i := 0;
      while true
        invariant 0 <= i < |items| && l == items[i]
        invariant listener !in items[..i]
        invariant items == old(items) && Valid()
        invariant forall m: Listener<E> :: m in items || m == listener ==> m.log == old(m.log)
        decreases |items| - i
      {
        if l == listener {
          return;
        }
        if l.next == null {
          assert i == |items| - 1;
          l.next := listener;
          listener.next := null;
          items := items + [listener];
          return;
        }
        l := l.next;
        i := i + 1;
      }
    }

    /** Takes the listener after item `i` out of the chain. */
    method Unlink(l: Listener<E>, listener: Listener<E>, ghost i: nat)
      requires Valid()
      requires i + 1 < |items| && items[i] == l && items[i + 1] == listener
      modifies this`items, l`next, listener`next
      ensures Valid()
      ensures items == old(items)[..i + 1] + old(items)[i + 2..]
      ensures listener.next == null
    {
      l.next := listener.next;
      listener.next := null;
      items := items[..i + 1] + items[i + 2..];
      assert forall j :: 0 <= j <= i ==> items[j] == old(items)[j];
      assert forall j :: i < j < |items| ==> items[j] == old(items)[j + 1];
    }

    method Remove(listener: Listener<E>)
      requires Valid()
      modifies this, items, listener
      ensures Valid()
      ensures items == AfterChange(old(items), Unregister(listener))
      ensures listener in old(items) ==> listener.next == null
      ensures listener !in old(items) ==> listener.next == old(listener.next)
      ensures forall l :: l in old(items) || l == listener ==> l.log == old(l.log)
    {
      if head == listener {
        head := listener.next;
        listener.next := null;
        WithoutIsRemoval(items, 0);
        items := items[1..];
        return;
      }
      var l := head;
      ghost var i := 0;
      while l != null
        invariant 0 <= i <= |items| && l == At(i)
        invariant listener !in items[..i] && (i < |items| ==> items[i] != listener)
        invariant items == old(items) && Valid()
        invariant forall m: Listener<E> :: m in items || m == listener ==> m.log == old(m.log) && m.next == old(m.next)
        decreases |items| - i
      {
        if l.next == listener {
          WithoutIsRemoval(items, i + 1);
          Unlink(l, listener, i);
          return;
        }
        l := l.next;
        i := i + 1;
      }
      WithoutAbsent(items, listener);
    }

    /** Delivers a notification to every listener, once each, in registration order. */
    method Notify(event: E) returns (visited: seq<Listener<E>>)
      requires Valid()
      modifies items`log
      ensures Valid()
      ensures visited == items
      ensures forall l :: l in items ==> l.log == old(l.log) + [event]
    {
      visited := [];
      var l := head;
      while l != null
        invariant |visited| <= |items| && visited == items[..|visited|]
        invariant l == At(|visited|)
        invariant Valid()
        invariant forall i :: 0 <= i < |items| ==>
          items[i].log == if i < |visited| then old(items[i].log) + [event] else old(items[i].log)
        decreases |items| - |visited|
      {
        l.log := l.log + [event];
        visited := visited + [l];
        l := l.next;
      }
    }
  }
}
