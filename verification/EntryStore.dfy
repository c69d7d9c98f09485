/** One sequence of entries per fabric behind a delegate that may fail any call, the notifications
    that changes cause, and what a listener that mirrors them holds. */
module EntryStore {
  import opened AccessTypes
  import opened Options

  // ----- Storage and notifications -----

  type Store<+E> = map<nat, seq<E>>

  type AclStore = Store<AclEntry>

  function Entries<E>(store: Store<E>, fabric: nat): seq<E> {
    if fabric in store then store[fabric] else []
  }

  datatype Event<+E> =
    | Added(fabric: nat, index: nat, entry: E)
    | Updated(fabric: nat, index: nat, entry: E)
    | Removed(fabric: nat, index: nat, latest: Option<E>)

  /** What a listener does that mirrors the list: insert, overwrite or drop at the index it is told. */
  function Mirror<E>(store: Store<E>, event: Event<E>): Store<E> {
    var list := Entries(store, event.fabric);
    match event
    case Added(f, i, e) => if i <= |list| then store[f := list[..i] + [e] + list[i..]] else store
    case Updated(f, i, e) => if i < |list| then store[f := list[i := e]] else store
    case Removed(f, i, _) => if i < |list| then store[f := list[..i] + list[i + 1..]] else store
  }

  /** A notice of the fabric's index `i`: an entry is put in front of the one there, takes its place, or leaves; the
      other fabrics are not affected. */
  lemma MirrorExactly<E>(store: Store<E>, f: nat, i: nat, e: E, latest: Option<E>, g: nat)
    ensures var list := Entries(store, f);
            (i <= |list| ==> Entries(Mirror(store, Added(f, i, e)), f) == list[..i] + ([e] + list[i..])) &&
            (i < |list| ==> Entries(Mirror(store, Updated(f, i, e)), f) == list[..i] + ([e] + list[i + 1..])) &&
            (i < |list| ==> Entries(Mirror(store, Removed(f, i, latest)), f) == list[..i] + list[i + 1..])
    ensures g != f ==> Entries(Mirror(store, Added(f, i, e)), g) == Entries(Mirror(store, Updated(f, i, e)), g) ==
                       Entries(Mirror(store, Removed(f, i, latest)), g) == Entries(store, g)
  {
  }

  function Replay<E>(store: Store<E>, events: seq<Event<E>>): Store<E>
    decreases |events|
  {
    if |events| == 0 then store else Replay(Mirror(store, events[0]), events[1..])
  }

  lemma {:induction false} ReplayConcat<E>(store: Store<E>, a: seq<Event<E>>, b: seq<Event<E>>)
    ensures Replay(store, a + b) == Replay(Replay(store, a), b)
    decreases |a|
  {
    if |a| == 0 {
      assert a + b == b;
    } else {
      assert (a + b)[0] == a[0] && (a + b)[1..] == a[1..] + b;
      ReplayConcat(Mirror(store, a[0]), a[1..], b);
    }
  }

  // ----- Deleting one entry -----

  datatype Outcome<+E> = Outcome(store: Store<E>, events: seq<Event<E>>, status: Status)

  /** How the delegate calls of a delete turn out, and whether the handle read beforehand still has
      its delegate afterwards. */
  datatype DeleteCalls = DeleteCalls(read: Status, delete: Status, retained: bool)

  function DeleteOutcome<E>(store: Store<E>, fabric: nat, index: nat, heard: bool, calls: DeleteCalls): Outcome<E> {
    var list := Entries(store, fabric);
    if index >= |list| then Outcome(store, [], Sentinel)
    else if calls.delete != NoError then Outcome(store, [], calls.delete)
    else
      Outcome(store[fabric := list[..index] + list[index + 1..]],
              [Removed(fabric, index, Latest(list[index], heard, calls))], NoError)
  }

  /** The deleted entry's last value, as far as a listener gets to see it. */
  function Latest<E>(e: E, heard: bool, calls: DeleteCalls): Option<E> {
    if heard && calls.read == NoError && calls.retained then Some(e) else None
  }

  // ----- Deleting all entries of a fabric -----

  /** The entries from index `k` on whose delete fails, in their order. `calls(i)` is how the attempt
      at index `i` turns out. */
  function Survivors<E>(list: seq<E>, calls: nat -> DeleteCalls, k: nat): seq<E>
    decreases |list| - k
  {
    if k >= |list| then []
    else (if calls(k).delete != NoError then [list[k]] else []) + Survivors(list, calls, k + 1)
  }

  /** The notification, if any, that the attempt at index `k` sends. */
  function Removal<E>(fabric: nat, e: E, heard: bool, calls: DeleteCalls, k: nat): seq<Event<E>> {
    if calls.delete != NoError then [] else [Removed(fabric, k, Latest(e, heard, calls))]
  }

  /** The notifications sent when going from the last index down to `k`. */
  function Removals<E>(fabric: nat, list: seq<E>, heard: bool, calls: nat -> DeleteCalls, k: nat)
    : seq<Event<E>>
    decreases |list| - k
  {
    if k >= |list| then []
    else Removals(fabric, list, heard, calls, k + 1) + Removal(fabric, list[k], heard, calls(k), k)
  }

  /** The failure met first when going from index `n - 1` down to `k`. */
  function FirstFailure(n: nat, calls: nat -> DeleteCalls, k: nat): Status
    decreases n - k
  {
    if k >= n then NoError
    else
      var earlier := FirstFailure(n, calls, k + 1);
      if earlier != NoError then earlier else calls(k).delete
  }

  /** The store once the indices from `k` on have been tried. */
  function StoreAfter<E>(store: Store<E>, fabric: nat, calls: nat -> DeleteCalls, k: nat): Store<E> {
    var list := Entries(store, fabric);
    if k >= |list| then store else store[fabric := list[..k] + Survivors(list, calls, k)]
  }

  /** A failing count is not reported: nothing is deleted, and the result is success. */
  function DeleteAllOutcome<E>(store: Store<E>, fabric: nat, count: Status, heard: bool, calls: nat -> DeleteCalls)
    : Outcome<E>
  {
    if count != NoError then Outcome(store, [], NoError)
    else
      var list := Entries(store, fabric);
      Outcome(StoreAfter(store, fabric, calls, 0), Removals(fabric, list, heard, calls, 0),
              FirstFailure(|list|, calls, 0))
  }

  /** Trying index `k` once the later ones have been tried: the attempt meets the original entry. */
  lemma NextAttempt<E>(store: Store<E>, fabric: nat, heard: bool, calls: nat -> DeleteCalls, k: nat)
    requires k < |Entries(store, fabric)|
    ensures var list, now := Entries(store, fabric), StoreAfter(store, fabric, calls, k + 1);
            k < |Entries(now, fabric)| && Entries(now, fabric)[k] == list[k] &&
            var o := DeleteOutcome(now, fabric, k, heard, calls(k));
            o.store == StoreAfter(store, fabric, calls, k) &&
            o.events == Removal(fabric, list[k], heard, calls(k), k) && o.status == calls(k).delete
  {
    var list, now := Entries(store, fabric), StoreAfter(store, fabric, calls, k + 1);
    var tail := Survivors(list, calls, k + 1);
    var current := Entries(now, fabric);
    assert current == list[..k + 1] + tail;
    CutAround(list, tail, k);
    assert now[fabric := current] == now;
    assert [] + tail == tail;
  }

  lemma CutAround<E>(list: seq<E>, tail: seq<E>, k: nat)
    requires k < |list|
    ensures var current := list[..k + 1] + tail;
            current[..k] == list[..k] && current[k + 1..] == tail && current[k] == list[k] &&
            list[..k] + ([list[k]] + tail) == current
  {
  }

  /** Success of delete-all means an empty fabric, except when the entries could not be counted. */
  lemma DeleteAllSuccess<E>(store: Store<E>, fabric: nat, count: Status, heard: bool, calls: nat -> DeleteCalls)
    ensures var o := DeleteAllOutcome(store, fabric, count, heard, calls);
            o.status == NoError ==>
              (Entries(o.store, fabric) == [] <==> count == NoError || Entries(store, fabric) == [])
  {
    NoFailureNoSurvivor(Entries(store, fabric), calls, 0);
  }

  // ----- What survives, and what is reported -----

  /** How many of the attempts at the indices from `from` up to `to` fail. */
  function Failures(calls: nat -> DeleteCalls, from: nat, to: nat): nat
    decreases to - from
  {
    if from >= to then 0 else (if calls(from).delete != NoError then 1 else 0) + Failures(calls, from + 1, to)
  }

  /** As many entries survive as deletes fail, and each survivor comes after those of the earlier indices. */
  lemma {:induction false} SurvivorsExactly<E>(list: seq<E>, calls: nat -> DeleteCalls, k: nat, i: nat)
    requires k <= i < |list|
    ensures |Survivors(list, calls, k)| == Failures(calls, k, |list|)
    ensures calls(i).delete != NoError ==>
              Failures(calls, k, i) < |Survivors(list, calls, k)| &&
              Survivors(list, calls, k)[Failures(calls, k, i)] == list[i]
    decreases |list| - k
  {
    if k + 1 < |list| {
      SurvivorsExactly(list, calls, k + 1, if k < i then i else k + 1);
    }
  }

  /** Going down from index `n - 1`, the failure reported is that of the highest index whose delete fails. */
  lemma {:induction false} FirstFailureExactly(n: nat, calls: nat -> DeleteCalls, k: nat, i: nat)
    requires k <= i < n && calls(i).delete != NoError && NoneFails(calls, i + 1, n)
    ensures FirstFailure(n, calls, k) == calls(i).delete
    decreases n - k
  {
    if k < i {
      FirstFailureExactly(n, calls, k + 1, i);
    } else {
      NoFailureReported(n, calls, k + 1);
    }
  }

  ghost predicate NoneFails(calls: nat -> DeleteCalls, from: nat, to: nat) {
    forall j :: from <= j < to ==> calls(j).delete == NoError
  }

  lemma {:induction false} NoFailureReported(n: nat, calls: nat -> DeleteCalls, k: nat)
    requires NoneFails(calls, k, n)
    ensures FirstFailure(n, calls, k) == NoError
    decreases n - k
  {
    if k < n {
      NoFailureReported(n, calls, k + 1);
    }
  }

  /** A delete-all leaves what survives of the fabric, changes no other, and reports the failure met first; if the
      entries cannot be counted, it does nothing and reports success. */
  lemma DeleteAllExactly<E>(store: Store<E>, fabric: nat, count: Status, heard: bool, calls: nat -> DeleteCalls, g: nat)
    ensures var o, list := DeleteAllOutcome(store, fabric, count, heard, calls), Entries(store, fabric);
            if count != NoError then o.store == store && o.events == [] && o.status == NoError
            else
              Entries(o.store, fabric) == Survivors(list, calls, 0) && o.status == FirstFailure(|list|, calls, 0) &&
              (g != fabric ==> Entries(o.store, g) == Entries(store, g))
  {
  }

  /** A delete that there is an entry for and that the delegate carries out drops it and nothing else. Listeners
      are sent its last value exactly if there were any to ask for it, it could be read, and its handle outlived
      the delete. */
  lemma DeleteExactly<E>(store: Store<E>, fabric: nat, index: nat, heard: bool, calls: DeleteCalls, g: nat)
    ensures var o, list := DeleteOutcome(store, fabric, index, heard, calls), Entries(store, fabric);
            if index < |list| && calls.delete == NoError then
              o.status == NoError && Entries(o.store, fabric) == list[..index] + list[index + 1..] &&
              (g != fabric ==> Entries(o.store, g) == Entries(store, g)) && |o.events| == 1 &&
              o.events[0].Removed? && o.events[0].fabric == fabric && o.events[0].index == index &&
              (o.events[0].latest ==
               if heard && calls.read == NoError && calls.retained then Some(list[index]) else None)
            else o.store == store && o.events == [] && o.status == if index < |list| then calls.delete else Sentinel
  {
  }

  /** A fabric with an entry, and a count that fails: reported as success, and the entry is still there. */
  lemma FailingCountLooksLikeSuccess(e: AclEntry, calls: nat -> DeleteCalls)
    ensures var store: AclStore := map[1 := [e]];
            var o := DeleteAllOutcome(store, 1, Other(1), true, calls);
            o.status == NoError && Entries(o.store, 1) == [e]
  {
  }

  lemma {:induction false} NoFailureNoSurvivor<E>(list: seq<E>, calls: nat -> DeleteCalls, k: nat)
    ensures FirstFailure(|list|, calls, k) == NoError <==> Survivors(list, calls, k) == []
    decreases |list| - k
  {
    if k < |list| {
      NoFailureNoSurvivor(list, calls, k + 1);
    }
  }

  // ----- Removals and mirroring listeners -----

  /** The removals sent when going down to index `k` turn the store into the one left then. */
  ghost predicate RemovalsLead<E>(store: Store<E>, fabric: nat, heard: bool, calls: nat -> DeleteCalls, k: nat) {
    Replay(store, Removals(fabric, Entries(store, fabric), heard, calls, k)) == StoreAfter(store, fabric, calls, k)
  }

  lemma RemovalsReplayNext<E>(store: Store<E>, fabric: nat, heard: bool, calls: nat -> DeleteCalls, k: nat)
    requires k < |Entries(store, fabric)| && RemovalsLead(store, fabric, heard, calls, k + 1)
    ensures RemovalsLead(store, fabric, heard, calls, k)
  {
    var now := StoreAfter(store, fabric, calls, k + 1);
    var later := Removals(fabric, Entries(store, fabric), heard, calls, k + 1);
    var o := DeleteOutcome(now, fabric, k, heard, calls(k));
    DeleteReplays(now, fabric, k, heard, calls(k));
    ReplayConcat(store, later, o.events);
    NextAttempt(store, fabric, heard, calls, k);
  }

  lemma {:induction false} RemovalsReplay<E>(store: Store<E>, fabric: nat, heard: bool,
                                             calls: nat -> DeleteCalls, k: nat)
    ensures RemovalsLead(store, fabric, heard, calls, k)
    decreases |Entries(store, fabric)| - k
  {
    if k < |Entries(store, fabric)| {
      RemovalsReplay(store, fabric, heard, calls, k + 1);
      RemovalsReplayNext(store, fabric, heard, calls, k);
    }
  }

  lemma ReplayOne<E>(store: Store<E>, event: Event<E>)
    ensures Replay(store, [event]) == Mirror(store, event)
  {
    assert [event][1..] == [];
  }

  lemma DeleteReplays<E>(store: Store<E>, fabric: nat, index: nat, heard: bool, calls: DeleteCalls)
    ensures var o := DeleteOutcome(store, fabric, index, heard, calls);
            Replay(store, o.events) == o.store
  {
    var o := DeleteOutcome(store, fabric, index, heard, calls);
    if o.events != [] {
      ReplayOne(store, o.events[0]);
    }
  }

  lemma {:induction false} SurvivorsAreEntries<E>(list: seq<E>, calls: nat -> DeleteCalls, k: nat)
    ensures |Survivors(list, calls, k)| <= |list| - k || k > |list|
    ensures forall e :: e in Survivors(list, calls, k) ==> e in list
    decreases |list| - k
  {
    if k < |list| {
      SurvivorsAreEntries(list, calls, k + 1);
      OneMoreSurvivor(list, if calls(k).delete != NoError then [list[k]] else [], Survivors(list, calls, k + 1));
    }
  }

  lemma OneMoreSurvivor<E>(list: seq<E>, first: seq<E>, rest: seq<E>)
    requires (forall e :: e in first ==> e in list) && forall e :: e in rest ==> e in list
    ensures forall e :: e in first + rest ==> e in list
  {
  }
}
