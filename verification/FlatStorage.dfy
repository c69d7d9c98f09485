/** The example storage delegate: one array holds the entries of all fabrics, used slots first, in
    order of creation. It implements one sequence per fabric. */
module FlatStorage {
  import opened AccessTypes
  import opened EntryStore
  import opened Options
  import AccessControlList

  // ----- One list, seen fabric by fabric -----

  /** The entries of a fabric, in list order. */
  function View(flat: seq<AclEntry>, fabric: FabricIndex): seq<AclEntry> {
    if flat == [] then []
    else
      var last := flat[|flat| - 1];
      View(flat[..|flat| - 1], fabric) + (if last.fabricIndex == fabric then [last] else [])
  }

  lemma {:induction false} ViewConcat(a: seq<AclEntry>, b: seq<AclEntry>, fabric: FabricIndex)
    ensures View(a + b, fabric) == View(a, fabric) + View(b, fabric)
  {
    if b == [] {
      assert a + b == a;
    } else {
      var n := |b| - 1;
      ViewConcat(a, b[..n], fabric);
      assert (a + b)[..|a + b| - 1] == a + b[..n] && (a + b)[|a + b| - 1] == b[n];
      var last := if b[n].fabricIndex == fabric then [b[n]] else [];
      assert View(a + b, fabric) == View(a + b[..n], fabric) + last;
      assert View(a, fabric) + View(b[..n], fabric) + last == View(a, fabric) + (View(b[..n], fabric) + last);
    }
  }

  lemma ViewOne(e: AclEntry, fabric: FabricIndex)
    ensures View([e], fabric) == if e.fabricIndex == fabric then [e] else []
  {
    assert [e][..0] == [];
  }

  /** Splitting a list at an entry. */
  lemma ViewAround(flat: seq<AclEntry>, i: nat, fabric: FabricIndex)
    requires i < |flat|
    ensures View(flat, fabric) ==
            View(flat[..i], fabric) + (if flat[i].fabricIndex == fabric then [flat[i]] else []) +
            View(flat[i + 1..], fabric)
  {
    var before, e, after := flat[..i], flat[i], flat[i + 1..];
    assert flat == before + [e] + after;
    ViewConcat(before + [e], after, fabric);
    ViewAppend(before, e, fabric);
  }

  /** Absolute index `i` is the fabric's entry number `r`. */
  ghost predicate IsAt(flat: seq<AclEntry>, fabric: FabricIndex, i: nat, r: nat) {
    i < |flat| && flat[i].fabricIndex == fabric && |View(flat[..i], fabric)| == r
  }

  lemma IsAtView(flat: seq<AclEntry>, fabric: FabricIndex, i: nat, r: nat)
    requires IsAt(flat, fabric, i, r)
    ensures r < |View(flat, fabric)| && View(flat, fabric)[r] == flat[i] && r <= i
  {
    ViewAround(flat, i, fabric);
    ViewNoLonger(flat[..i], fabric);
  }

  lemma {:induction false} ViewNoLonger(flat: seq<AclEntry>, fabric: FabricIndex)
    ensures |View(flat, fabric)| <= |flat|
  {
    if flat != [] {
      ViewNoLonger(flat[..|flat| - 1], fabric);
    }
  }

  /** The two index conversions are inverse: an absolute index determines the relative one and back. */
  lemma ConversionsAreInverse(flat: seq<AclEntry>, fabric: FabricIndex, i: nat, i': nat, r: nat, r': nat)
    requires IsAt(flat, fabric, i, r) && IsAt(flat, fabric, i', r')
    ensures i == i' <==> r == r'
  {
    if i < i' {
      ViewAround(flat[..i'], i, fabric);
      assert flat[..i'][..i] == flat[..i];
    } else if i' < i {
      ViewAround(flat[..i], i', fabric);
      assert flat[..i][..i'] == flat[..i'];
    }
  }

  /** The slot of a fabric's entry number `r`. */
  ghost function SlotOf(flat: seq<AclEntry>, fabric: FabricIndex, r: nat): (i: nat)
    requires r < |View(flat, fabric)|
    ensures IsAt(flat, fabric, i, r)
  {
    var n := |flat| - 1;
    if r < |View(flat[..n], fabric)| then
      var i := SlotOf(flat[..n], fabric, r);
      assert flat[..n][..i] == flat[..i];
      i
    else n
  }

  lemma SlotIsUnique(flat: seq<AclEntry>, fabric: FabricIndex, i: nat, r: nat)
    requires IsAt(flat, fabric, i, r)
    ensures r < |View(flat, fabric)| && i == SlotOf(flat, fabric, r)
  {
    IsAtView(flat, fabric, i, r);
    ConversionsAreInverse(flat, fabric, i, SlotOf(flat, fabric, r), r, r);
  }

  function Dropped<T>(s: seq<T>, i: nat): seq<T>
    requires i < |s|
  {
    s[..i] + s[i + 1..]
  }

  /** Appending an entry appends to its fabric's list only. */
  lemma ViewAppend(flat: seq<AclEntry>, e: AclEntry, fabric: FabricIndex)
    ensures View(flat + [e], fabric) == View(flat, fabric) + if e.fabricIndex == fabric then [e] else []
  {
    ViewConcat(flat, [e], fabric);
    ViewOne(e, fabric);
  }

  /** Dropping an entry drops it from its fabric's list only. */
  lemma ViewDrop(flat: seq<AclEntry>, i: nat, fabric: FabricIndex)
    requires i < |flat|
    ensures flat[i].fabricIndex != fabric ==> View(Dropped(flat, i), fabric) == View(flat, fabric)
    ensures flat[i].fabricIndex == fabric ==>
              |View(flat[..i], fabric)| < |View(flat, fabric)| &&
              View(Dropped(flat, i), fabric) == Dropped(View(flat, fabric), |View(flat[..i], fabric)|)
  {
    ViewAround(flat, i, fabric);
    ViewConcat(flat[..i], flat[i + 1..], fabric);
  }

  /** Overwriting an entry by one of the same fabric overwrites it in that fabric's list only; by one of
      another fabric, it drops it from the first list and inserts it into the other. */
  lemma ViewOverwrite(flat: seq<AclEntry>, i: nat, e: AclEntry, fabric: FabricIndex)
    requires i < |flat|
    ensures flat[i].fabricIndex != fabric && e.fabricIndex != fabric ==>
            View(flat[i := e], fabric) == View(flat, fabric)
    ensures flat[i].fabricIndex == e.fabricIndex == fabric ==>
              |View(flat[..i], fabric)| < |View(flat, fabric)| &&
              View(flat[i := e], fabric) == View(flat, fabric)[|View(flat[..i], fabric)| := e]
    ensures flat[i].fabricIndex == fabric != e.fabricIndex ==>
              |View(flat[..i], fabric)| < |View(flat, fabric)| &&
              View(flat[i := e], fabric) == Dropped(View(flat, fabric), |View(flat[..i], fabric)|)
    ensures flat[i].fabricIndex != fabric == e.fabricIndex ==>
              var at := |View(flat[..i], fabric)|;
              at <= |View(flat, fabric)| &&
              View(flat[i := e], fabric) == View(flat, fabric)[..at] + [e] + View(flat, fabric)[at..]
  {
    ViewAround(flat, i, fabric);
    ViewAround(flat[i := e], i, fabric);
    assert flat[i := e][..i] == flat[..i] && flat[i := e][i + 1..] == flat[i + 1..];
    Around(View(flat[..i], fabric), flat[i], e, View(flat[i + 1..], fabric));
  }

  lemma Around<T>(before: seq<T>, x: T, y: T, after: seq<T>)
    ensures (before + [x] + after)[|before| := y] == before + [y] + after
    ensures Dropped(before + [x] + after, |before|) == before + [] + after
    ensures (before + [] + after)[..|before|] + [y] + (before + [] + after)[|before|..] == before + [y] + after
  {
  }

  // ----- What the storage does -----

  datatype Stored = Stored(flat: seq<AclEntry>, status: Status)

  /** A create fails if the array is full, or if the entry cannot be copied (`copy`). */
  ghost function CreateIn(flat: seq<AclEntry>, capacity: nat, e: AclEntry, copy: Status): Stored {
    if |flat| >= capacity then Stored(flat, BufferTooSmall)
    else if copy != NoError then Stored(flat, copy)
    else Stored(flat + [e], NoError)
  }

  ghost function UpdateIn(flat: seq<AclEntry>, fabric: FabricIndex, index: nat, e: AclEntry, copy: Status): Stored {
    if index >= |View(flat, fabric)| then Stored(flat, Sentinel)
    else if copy != NoError then Stored(flat, copy)
    else Stored(flat[SlotOf(flat, fabric, index) := e], NoError)
  }

  ghost function DeleteIn(flat: seq<AclEntry>, fabric: FabricIndex, index: nat): Stored {
    if index >= |View(flat, fabric)| then Stored(flat, Sentinel)
    else Stored(Dropped(flat, SlotOf(flat, fabric, index)), NoError)
  }

  /** When storing fails, nothing changes: a create for want of a slot, an update or delete for want of the
      entry, or because the entry could not be copied. A create that succeeds adds the entry. */
  lemma StoringExactly(flat: seq<AclEntry>, capacity: nat, e: AclEntry, copy: Status, fabric: FabricIndex, index: nat)
    ensures CreateIn(flat, capacity, e, copy) ==
            if |flat| >= capacity then Stored(flat, BufferTooSmall)
            else if copy != NoError then Stored(flat, copy)
            else Stored(flat + [e], NoError)
    ensures index >= |View(flat, fabric)| ==>
              UpdateIn(flat, fabric, index, e, copy) == DeleteIn(flat, fabric, index) == Stored(flat, Sentinel)
    ensures index < |View(flat, fabric)| && copy != NoError ==>
              UpdateIn(flat, fabric, index, e, copy) == Stored(flat, copy)
  {
  }

  /** An update that succeeds puts the new entry in the slot of the fabric's entry of that number, and a delete
      takes that one out. */
  lemma ReplacingExactly(flat: seq<AclEntry>, e: AclEntry, fabric: FabricIndex, i: nat, index: nat)
    requires IsAt(flat, fabric, i, index)
    ensures UpdateIn(flat, fabric, index, e, NoError) == Stored(flat[..i] + [e] + flat[i + 1..], NoError)
    ensures DeleteIn(flat, fabric, index) == Stored(flat[..i] + flat[i + 1..], NoError)
  {
    SlotIsUnique(flat, fabric, i, index);
    assert flat[i := e] == flat[..i] + [e] + flat[i + 1..];
  }

  // ----- Refinement of one sequence per fabric -----

  function Put(store: AclStore, fabric: FabricIndex, list: seq<AclEntry>): AclStore {
    store[fabric := list]
  }

  /** The flat list stores exactly what the per-fabric store does. */
  ghost predicate Represents(flat: seq<AclEntry>, store: AclStore) {
    forall f: FabricIndex :: Entries(store, f) == View(flat, f)
  }

  lemma CreateRefines(flat: seq<AclEntry>, store: AclStore, e: AclEntry)
    requires Represents(flat, store)
    ensures Represents(flat + [e], Put(store, e.fabricIndex, Entries(store, e.fabricIndex) + [e]))
    ensures IsAt(flat + [e], e.fabricIndex, |flat|, |Entries(store, e.fabricIndex)|)
  {
    assert (flat + [e])[..|flat|] == flat;
    forall f: FabricIndex {
      ViewAppend(flat, e, f);
    }
  }

  lemma DeleteRefines(flat: seq<AclEntry>, store: AclStore, fabric: FabricIndex, i: nat, r: nat)
    requires Represents(flat, store) && IsAt(flat, fabric, i, r)
    ensures r < |Entries(store, fabric)|
    ensures Represents(Dropped(flat, i), Put(store, fabric, Dropped(Entries(store, fabric), r)))
  {
    ViewDrop(flat, i, fabric);
    forall f: FabricIndex {
      ViewDrop(flat, i, f);
    }
  }

  /** Overwriting a slot is the per-fabric update exactly when the new entry belongs to the fabric it
      is stored for; otherwise the entry leaves that fabric's list. */
  lemma UpdateRefinesExactly(flat: seq<AclEntry>, store: AclStore, fabric: FabricIndex, i: nat, r: nat, e: AclEntry)
    requires Represents(flat, store) && IsAt(flat, fabric, i, r)
    ensures r < |Entries(store, fabric)|
    ensures Represents(flat[i := e], Put(store, fabric, Entries(store, fabric)[r := e])) <==> e.fabricIndex == fabric
  {
    IsAtView(flat, fabric, i, r);
    ViewOverwrite(flat, i, e, fabric);
    var updated := Put(store, fabric, Entries(store, fabric)[r := e]);
    if e.fabricIndex == fabric {
      forall f: FabricIndex
        ensures Entries(updated, f) == View(flat[i := e], f)
      {
        ViewOverwrite(flat, i, e, f);
      }
    } else {
      assert Entries(updated, fabric) != View(flat[i := e], fabric);
    }
  }

  /** Whatever the new entry's fabric: overwriting a slot is the update that files an entry under its
      own fabric, after the entries of that fabric in earlier slots. */
  lemma UpdateRefines(flat: seq<AclEntry>, store: AclStore, fabric: FabricIndex, i: nat, r: nat, e: AclEntry)
    requires Represents(flat, store) && IsAt(flat, fabric, i, r)
    ensures r < |Entries(store, fabric)|
    ensures Represents(flat[i := e], AccessControlList.Replaced(store, fabric, r, e, |View(flat[..i], e.fabricIndex)|))
  {
    IsAtView(flat, fabric, i, r);
    var updated := AccessControlList.Replaced(store, fabric, r, e, |View(flat[..i], e.fabricIndex)|);
    forall f: FabricIndex
      ensures Entries(updated, f) == View(flat[i := e], f)
    {
      ViewOverwrite(flat, i, e, f);
    }
  }

  // ----- Iteration across deletions -----

  /** What an iterator delivers of a list: the entries of one fabric, or all without a filter. */
  ghost function Filtered(flat: seq<AclEntry>, filter: Option<FabricIndex>): seq<AclEntry> {
    if filter.None? then flat else View(flat, filter.value)
  }

  predicate Passes(e: AclEntry, filter: Option<FabricIndex>) {
    filter.None? || e.fabricIndex == filter.value
  }

  lemma FilteredConcat(a: seq<AclEntry>, b: seq<AclEntry>, filter: Option<FabricIndex>)
    ensures Filtered(a + b, filter) == Filtered(a, filter) + Filtered(b, filter)
  {
    if filter.Some? {
      ViewConcat(a, b, filter.value);
    }
  }

  lemma FilteredFirst(e: AclEntry, rest: seq<AclEntry>, filter: Option<FabricIndex>)
    ensures Filtered([e] + rest, filter) == (if Passes(e, filter) then [e] else []) + Filtered(rest, filter)
  {
    FilteredConcat([e], rest, filter);
    if filter.Some? {
      ViewOne(e, filter.value);
    }
  }

  /** What an iterator at slot `p` still delivers: -1 is before the first slot, and positions past the
      list are the end. */
  ghost function Remaining(flat: seq<AclEntry>, p: int, filter: Option<FabricIndex>): seq<AclEntry>
    requires p >= -1
  {
    if p + 1 <= |flat| then Filtered(flat[p + 1..], filter) else []
  }

  lemma RemainingNext(flat: seq<AclEntry>, p: int, filter: Option<FabricIndex>)
    requires -1 <= p < |flat| - 1
    ensures Remaining(flat, p, filter) ==
            (if Passes(flat[p + 1], filter) then [flat[p + 1]] else []) + Remaining(flat, p + 1, filter)
  {
    assert flat[p + 1..] == [flat[p + 1]] + flat[p + 2..];
    FilteredFirst(flat[p + 1], flat[p + 2..], filter);
  }

  /** Between positions `from` and `p` there is nothing to deliver. */
  ghost predicate AllSkipped(flat: seq<AclEntry>, from: int, p: int, filter: Option<FabricIndex>)
    requires from >= -1 && p >= -1
  {
    Remaining(flat, from, filter) == Remaining(flat, p, filter)
  }

  /** From position `from`, slot `at` holds what is delivered next. */
  ghost predicate IsNext(flat: seq<AclEntry>, from: int, at: nat, filter: Option<FabricIndex>)
    requires from >= -1
  {
    at < |flat| && Remaining(flat, from, filter) == [flat[at]] + Remaining(flat, at, filter)
  }

  lemma SkipOrDeliver(flat: seq<AclEntry>, from: int, p: int, filter: Option<FabricIndex>)
    requires from >= -1 && p >= -1 && AllSkipped(flat, from, p, filter)
    ensures if p >= |flat| - 1 then Remaining(flat, from, filter) == []
            else if Passes(flat[p + 1], filter) then IsNext(flat, from, p + 1, filter)
            else AllSkipped(flat, from, p + 1, filter)
  {
    if p < |flat| - 1 {
      RemainingNext(flat, p, filter);
    }
  }

  /** Moves a position back by one if it is at or after slot `at`, and not at the end. */
  function MovedBack(p: int, at: nat, capacity: nat): int {
    if at <= p < capacity then p - 1 else p
  }

  /** What an iterator should still deliver once slot `i` is gone: the same, less the entry deleted. */
  ghost function Expected(flat: seq<AclEntry>, p: int, i: nat, filter: Option<FabricIndex>): seq<AclEntry>
    requires p >= -1 && i < |flat|
  {
    if i <= p then Remaining(flat, p, filter)
    else Filtered(flat[p + 1..i], filter) + Filtered(flat[i + 1..], filter)
  }

  /** Moving iterators back from the slot of the deleted entry is right. */
  lemma FixupFromSlotIsRight(flat: seq<AclEntry>, p: int, i: nat, capacity: nat, filter: Option<FabricIndex>)
    requires -1 <= p <= capacity && i < |flat| <= capacity
    ensures Remaining(Dropped(flat, i), MovedBack(p, i, capacity), filter) == Expected(flat, p, i, filter)
  {
    if i <= p < |flat| {
      DroppedBehind(flat, i, p);
    } else if p < i {
      DroppedAhead(flat, i, p + 1);
      FilteredConcat(flat[p + 1..i], flat[i + 1..], filter);
    }
  }

  lemma DroppedBehind<T>(s: seq<T>, i: nat, p: nat)
    requires i <= p < |s|
    ensures Dropped(s, i)[p..] == s[p + 1..]
  {
  }

  lemma DroppedAhead<T>(s: seq<T>, i: nat, p: nat)
    requires p <= i < |s|
    ensures Dropped(s, i)[p..] == s[p..i] + s[i + 1..]
  {
  }

  /** Moving an iterator back although the deleted slot is ahead of it makes it deliver again. */
  lemma MovedBackTooFar(flat: seq<AclEntry>, p: nat, i: nat, filter: Option<FabricIndex>)
    requires p < i < |flat|
    ensures Remaining(Dropped(flat, i), p - 1, filter) ==
            (if Passes(flat[p], filter) then [flat[p]] else []) + Expected(flat, p, i, filter)
  {
    var ahead := flat[p + 1..i] + flat[i + 1..];
    assert Dropped(flat, i)[p..] == [flat[p]] + ahead;
    FilteredFirst(flat[p], ahead, filter);
    FilteredConcat(flat[p + 1..i], flat[i + 1..], filter);
  }

  /** The code moves iterators back from the slot numbered like the entry's index within its fabric.
      An iterator then delivers what it should exactly when it does not stand, on an entry that passes
      its filter, between that slot and the deleted entry's slot; if it does, it delivers that entry a
      second time. */
  lemma FixupFromRelativeIndexExactly(flat: seq<AclEntry>, p: int, deleted: FabricIndex, i: nat, r: nat, capacity: nat,
                                      filter: Option<FabricIndex>)
    requires -1 <= p <= capacity && |flat| <= capacity
    requires IsAt(flat, deleted, i, r)
    ensures Remaining(Dropped(flat, i), MovedBack(p, r, capacity), filter) == Expected(flat, p, i, filter) <==>
            !(r <= p < i && Passes(flat[p], filter))
    ensures r <= p < i && Passes(flat[p], filter) ==>
            Remaining(Dropped(flat, i), MovedBack(p, r, capacity), filter) == [flat[p]] + Expected(flat, p, i, filter)
  {
    IsAtView(flat, deleted, i, r);
    if r <= p < i {
      MovedBackTooFar(flat, p, i, filter);
    } else {
      assert MovedBack(p, r, capacity) == MovedBack(p, i, capacity);
      FixupFromSlotIsRight(flat, p, i, capacity, filter);
    }
  }

  /** Entries 0 (fabric 1), 1 (fabric 1), 2 (fabric 2): deleting fabric 2's first entry while an
      iterator over fabric 1 stands on slot 1 makes it deliver slot 1 again. */
  lemma FixupDeliversTwice()
    ensures var a, b := AclEntry(1, Case, VIEW, [], []), AclEntry(2, Case, VIEW, [], []);
            var flat := [a, a, b];
            IsAt(flat, 2, 2, 0) && Remaining(flat, 1, Some(1)) == [] &&
            Remaining(Dropped(flat, 2), MovedBack(1, 0, 4), Some(1)) == [a]
  {
    var a, b := AclEntry(1, Case, VIEW, [], []), AclEntry(2, Case, VIEW, [], []);
    var flat := [a, a, b];
    assert flat[..2] == [a, a] && [a, a][..1] == [a] && flat[2..] == [b];
    ViewOne(a, 2);
    ViewOne(b, 1);
    assert Dropped(flat, 2) == [a, a] && [a, a][1..] == [a];
    ViewOne(a, 1);
  }

  // ----- The array -----

  class FlatAcl {
    const slots: array<Option<AclEntry>>
    const cursors: array<int>
    const filters: array<Option<FabricIndex>>
    ghost var flat: seq<AclEntry>

    /** The used slots come first and hold the list. */
    ghost predicate Valid()
      reads this, slots
    {
      |flat| <= slots.Length && forall i :: 0 <= i < slots.Length ==> slots[i] == Slot(flat, i)
    }

    /** Every iterator stands before the first slot, on a slot, or at the end. */
    ghost predicate ValidIterators()
      reads cursors
    {
      filters.Length == cursors.Length && forall k :: 0 <= k < cursors.Length ==> -1 <= cursors[k] <= slots.Length
    }

    static ghost function Slot(flat: seq<AclEntry>, i: nat): Option<AclEntry> {
      if i < |flat| then Some(flat[i]) else None
    }

    constructor (capacity: nat, iterators: nat)
      ensures Valid() && flat == [] && slots.Length == capacity
      ensures ValidIterators() && cursors.Length == iterators
      ensures fresh(slots) && fresh(cursors) && fresh(filters)
    {
      slots := new Option<AclEntry>[capacity](_ => None);
      cursors := new int[iterators](_ => -1);
      filters := new Option<FabricIndex>[iterators](_ => None);
      flat := [];
    }

    method GetEntryCount(fabric: FabricIndex) returns (count: nat)
      requires Valid()
      ensures count == |View(flat, fabric)|
    {
      count := 0;
      var i := 0;
      while i < slots.Length && slots[i].Some?
        invariant 0 <= i <= |flat|
        invariant count == |View(flat[..i], fabric)|
      {
        if slots[i].value.fabricIndex == fabric {
          count := count + 1;
        }
        assert flat[..i + 1][..i] == flat[..i];
        i := i + 1;
      }
      assert flat[..i] == flat;
    }

    /** The slot of a fabric's entry number `index`, or one past the array. */
    method RelativeToAbsolute(index: nat, fabric: FabricIndex) returns (absolute: nat)
      requires Valid()
      ensures if index < |View(flat, fabric)| then IsAt(flat, fabric, absolute, index) else absolute == slots.Length
    {
      var absoluteIndex, relativeIndex := 0, 0;
      while absoluteIndex < slots.Length && slots[absoluteIndex].Some?
        invariant 0 <= absoluteIndex <= |flat|
        invariant relativeIndex == |View(flat[..absoluteIndex], fabric)| <= index
      {
        if slots[absoluteIndex].value.fabricIndex == fabric {
          if index == relativeIndex {
            IsAtView(flat, fabric, absoluteIndex, index);
            return absoluteIndex;
          }
          relativeIndex := relativeIndex + 1;
        }
        assert flat[..absoluteIndex + 1][..absoluteIndex] == flat[..absoluteIndex];
        absoluteIndex := absoluteIndex + 1;
      }
      assert flat[..absoluteIndex] == flat;
      return slots.Length;
    }

    /** The number within its fabric of the entry in slot `index`, or one past the array. */
    method AbsoluteToRelative(index: nat, fabric: FabricIndex) returns (relative: nat)
      requires Valid()
      ensures if index < |flat| && flat[index].fabricIndex == fabric then IsAt(flat, fabric, index, relative)
              else relative == slots.Length
    {
      var absoluteIndex, relativeIndex := 0, 0;
      while absoluteIndex < slots.Length && slots[absoluteIndex].Some?
        invariant 0 <= absoluteIndex <= |flat|
        invariant relativeIndex == |View(flat[..absoluteIndex], fabric)|
        invariant index < absoluteIndex ==> flat[index].fabricIndex != fabric
      {
        if slots[absoluteIndex].value.fabricIndex == fabric {
          if index == absoluteIndex {
            return relativeIndex;
          }
          relativeIndex := relativeIndex + 1;
        }
        assert flat[..absoluteIndex + 1][..absoluteIndex] == flat[..absoluteIndex];
        absoluteIndex := absoluteIndex + 1;
      }
      return slots.Length;
    }

    method CreateEntry(e: AclEntry, copy: Status) returns (status: Status, index: nat, fabric: FabricIndex)
      requires Valid()
      modifies slots, this`flat
      ensures Valid() && Stored(flat, status) == CreateIn(old(flat), slots.Length, e, copy)
      ensures status == NoError ==> fabric == e.fabricIndex && index == |View(old(flat), fabric)|
      ensures forall store: AclStore :: status == NoError && Represents(old(flat), store) ==>
                Represents(flat, Put(store, e.fabricIndex, Entries(store, e.fabricIndex) + [e]))
    {
      index, fabric := 0, UNDEFINED_FABRIC_INDEX;
      var i := 0;
      while i < slots.Length && slots[i].Some?
        invariant 0 <= i <= |flat|
      {
        i := i + 1;
      }
      if i == slots.Length {
        return BufferTooSmall, index, fabric;
      }
      if copy != NoError {
        return copy, index, fabric;
      }
      slots[i] := Some(e);
      flat := flat + [e];
      fabric := e.fabricIndex;
      index := AbsoluteToRelative(i, fabric);
      assert flat[..i] == old(flat);
      forall store: AclStore | Represents(old(flat), store)
        ensures Represents(flat, Put(store, e.fabricIndex, Entries(store, e.fabricIndex) + [e]))
      {
        CreateRefines(old(flat), store, e);
      }
      return NoError, index, fabric;
    }

    method ReadEntry(index: nat, fabric: FabricIndex) returns (r: Result<AclEntry>)
      requires Valid()
      ensures r == if index < |View(flat, fabric)| then Ok(View(flat, fabric)[index]) else Err(Sentinel)
    {
      var i := RelativeToAbsolute(index, fabric);
      if i < slots.Length && slots[i].Some? {
        if index < |View(flat, fabric)| {
          IsAtView(flat, fabric, i, index);
        }
        return Ok(slots[i].value);
      }
      return Err(Sentinel);
    }

    method UpdateEntry(index: nat, e: AclEntry, fabric: FabricIndex, copy: Status) returns (status: Status)
      requires Valid()
      modifies slots, this`flat
      ensures Valid() && Stored(flat, status) == UpdateIn(old(flat), fabric, index, e, copy)
      ensures forall store: AclStore :: status == NoError && Represents(old(flat), store) ==>
                index < |Entries(store, fabric)| &&
                var place := |View(old(flat)[..SlotOf(old(flat), fabric, index)], e.fabricIndex)|;
                Represents(flat, AccessControlList.Replaced(store, fabric, index, e, place)) &&
                (Represents(flat, Put(store, fabric, Entries(store, fabric)[index := e])) <==> e.fabricIndex == fabric)
    {
      var i := RelativeToAbsolute(index, fabric);
      if i < slots.Length && slots[i].Some? {
        if copy != NoError {
          return copy;
        }
        SlotIsUnique(flat, fabric, i, index);
        slots[i] := Some(e);
        flat := flat[i := e];
        ghost var place := |View(old(flat)[..i], e.fabricIndex)|;
        forall store: AclStore | Represents(old(flat), store)
          ensures index < |Entries(store, fabric)|
          ensures Represents(flat, AccessControlList.Replaced(store, fabric, index, e, place))
          ensures Represents(flat, Put(store, fabric, Entries(store, fabric)[index := e])) <==> e.fabricIndex == fabric
        {
          UpdateRefines(old(flat), store, fabric, i, index, e);
          UpdateRefinesExactly(old(flat), store, fabric, i, index, e);
        }
        return NoError;
      }
      return Sentinel;
    }

    /** Shifts the later slots down, then moves every iterator back from slot number `index`. */
    method DeleteEntry(index: nat, fabric: FabricIndex) returns (status: Status)
      requires Valid()
      modifies slots, cursors, this`flat
      ensures Valid() && Stored(flat, status) == DeleteIn(old(flat), fabric, index)
      ensures status != NoError ==> cursors[..] == old(cursors[..])
      ensures status == NoError ==> forall k :: 0 <= k < cursors.Length ==>
                cursors[k] == MovedBack(old(cursors[k]), index, slots.Length)
      ensures status == NoError ==> forall k :: 0 <= k < cursors.Length ==>
                cursors[k] == old(cursors[k]) - if index <= old(cursors[k]) < slots.Length then 1 else 0
      ensures old(ValidIterators()) ==> ValidIterators()
      ensures forall store: AclStore :: status == NoError && Represents(old(flat), store) ==>
                index < |Entries(store, fabric)| &&
                Represents(flat, Put(store, fabric, Dropped(Entries(store, fabric), index)))
    {
      var i := RelativeToAbsolute(index, fabric);
      if i < slots.Length && slots[i].Some? {
        SlotIsUnique(flat, fabric, i, index);
        Shift(i);
        FixAfterDelete(index);
        forall store: AclStore | Represents(old(flat), store)
          ensures index < |Entries(store, fabric)|
          ensures Represents(flat, Put(store, fabric, Dropped(Entries(store, fabric), index)))
        {
          DeleteRefines(old(flat), store, fabric, i, index);
        }
        return NoError;
      }
      return Sentinel;
    }

    /** Copies each slot from `at` on over the one before, and clears the last used one. */
    method Shift(at: nat)
      requires Valid() && at < |flat|
      modifies slots, this`flat
      ensures Valid() && flat == Dropped(old(flat), at)
    {
      var storage := at;
      ghost var list := flat;
      while true
        invariant at <= storage < |list|
        invariant forall k :: 0 <= k < slots.Length ==>
          slots[k] == Slot(list, if at <= k < storage then k + 1 else k)
        decreases |list| - storage
      {
        var next := storage + 1;
        if next < slots.Length && slots[next].Some? {
          slots[storage] := slots[next];
        } else {
          slots[storage] := None;
          break;
        }
        storage := next;
      }
      flat := Dropped(list, at);
    }

    /** Starts an iterator over one fabric's entries, or over all. */
    method StartIterator(k: nat, filter: Option<FabricIndex>)
      requires Valid() && ValidIterators() && k < cursors.Length
      modifies cursors, filters
      ensures ValidIterators() && filters[k] == filter && Remaining(flat, cursors[k], filter) == Filtered(flat, filter)
      ensures forall j :: 0 <= j < cursors.Length && j != k ==>
              cursors[j] == old(cursors[j]) && filters[j] == old(filters[j])
    {
      filters[k] := filter;
      cursors[k] := -1;
    }

    /** Delivers the first entry that the iterator still has to deliver, and reports the end exactly when
        there is none. Without an entry handle to deliver it through (`pooled`), the entry is passed over. */
    method Next(k: nat, pooled: bool) returns (r: Result<AclEntry>)
      requires Valid() && ValidIterators() && k < cursors.Length
      modifies cursors
      ensures ValidIterators() && forall j :: 0 <= j < cursors.Length && j != k ==> cursors[j] == old(cursors[j])
      ensures var before := Remaining(flat, old(cursors[k]), filters[k]);
              if before == [] then r == Err(Sentinel) && Remaining(flat, cursors[k], filters[k]) == []
              else r == (if pooled then Ok(before[0]) else Err(BufferTooSmall)) &&
                   Remaining(flat, cursors[k], filters[k]) == before[1..]
    {
      var storage := Advance(cursors[k], filters[k]);
      cursors[k] := storage;
      if storage == slots.Length {
        return Err(Sentinel);
      }
      return if pooled then Ok(slots[storage].value) else Err(BufferTooSmall);
    }

    /** The slot of the next entry that passes the filter, or the end. */
    method Advance(from: int, filter: Option<FabricIndex>) returns (storage: int)
      requires Valid() && -1 <= from <= slots.Length
      ensures 0 <= storage <= slots.Length
      ensures if storage == slots.Length then Remaining(flat, from, filter) == []
              else IsNext(flat, from, storage, filter)
    {
      storage := from;
      while true
        invariant -1 <= storage <= slots.Length && AllSkipped(flat, from, storage, filter)
        decreases slots.Length - storage
      {
        SkipOrDeliver(flat, from, storage, filter);
        if storage == -1 {
          storage := 0;
        } else if storage < slots.Length {
          storage := storage + 1;
        }
        if storage == slots.Length || slots[storage].None? {
          return slots.Length;
        }
        if filter.Some? && slots[storage].value.fabricIndex != filter.value {
          continue;
        }
        return storage;
      }
    }

    method FixAfterDelete(index: nat)
      modifies cursors
      ensures forall k :: 0 <= k < cursors.Length ==> cursors[k] == MovedBack(old(cursors[k]), index, slots.Length)
    {
      for k := 0 to cursors.Length
        invariant forall j :: 0 <= j < cursors.Length ==>
          cursors[j] == if j < k then MovedBack(old(cursors[j]), index, slots.Length) else old(cursors[j])
      {
        if index <= cursors[k] < slots.Length {
          cursors[k] := cursors[k] - 1;
        }
      }
    }
  }
}
