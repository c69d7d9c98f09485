/** Runs of the access control list on the example storage: every run refines a run over one sequence of
    entries per fabric, and what that means for quota and listeners. */
module FlatRuns {
  import opened AccessTypes
  import opened AccessDecision
  import opened AccessControlList
  import opened EntryStore
  import opened FlatStorage
  import opened Options

  datatype FlatOutcome = FlatOutcome(flat: seq<AclEntry>, events: seq<AclEvent>, status: Status)

  // ----- The operations on the flat list -----

  /** What the storage did, and the notice sent if it succeeded. */
  ghost function Noticed(stored: Stored, event: AclEvent): FlatOutcome {
    FlatOutcome(stored.flat, if stored.status == NoError then [event] else [], stored.status)
  }

  /** Counting entries and asking for the quota never fail here. */
  ghost function FlatCreate(flat: seq<AclEntry>, capacity: nat, quota: nat, fabric: FabricIndex, h: Handle,
                            copy: Status)
    : FlatOutcome
  {
    if |View(flat, fabric)| + 1 > quota then FlatOutcome(flat, [], BufferTooSmall)
    else if !ValidHandle(h) then FlatOutcome(flat, [], InvalidArgument)
    else
      var e := ValueOf(h);
      Noticed(CreateIn(flat, capacity, e, copy), Added(e.fabricIndex, |View(flat, e.fabricIndex)|, e))
  }

  ghost function FlatUpdate(flat: seq<AclEntry>, fabric: FabricIndex, index: nat, h: Handle, copy: Status)
    : FlatOutcome
  {
    if !ValidHandle(h) then FlatOutcome(flat, [], InvalidArgument)
    else Noticed(UpdateIn(flat, fabric, index, ValueOf(h), copy), Updated(fabric, index, ValueOf(h)))
  }

  ghost function FlatDelete(flat: seq<AclEntry>, fabric: FabricIndex, index: nat, calls: DeleteCalls): FlatOutcome {
    if index >= |View(flat, fabric)| then FlatOutcome(flat, [], Sentinel)
    else Noticed(DeleteIn(flat, fabric, index),
                 Removed(fabric, index, Latest(View(flat, fabric)[index], true, calls)))
  }

  /** Deleting a fabric's entries from the last of `n` down to number `k`. */
  ghost function FlatDeleteDown(flat: seq<AclEntry>, fabric: FabricIndex, calls: nat -> DeleteCalls, n: nat, k: nat)
    : FlatOutcome
    decreases n - k
  {
    if k >= n then FlatOutcome(flat, [], NoError)
    else
      var later := FlatDeleteDown(flat, fabric, calls, n, k + 1);
      var o := FlatDelete(later.flat, fabric, k, calls(k));
      FlatOutcome(o.flat, later.events + o.events, if later.status != NoError then later.status else o.status)
  }

  ghost function FlatStep(flat: seq<AclEntry>, capacity: nat, quota: nat, op: Operation): FlatOutcome {
    match op
    case Create(f, h, calls) => FlatCreate(flat, capacity, quota, f, h, calls.create)
    case Update(f, i, h, calls) => FlatUpdate(flat, f, i, h, calls.update)
    case Delete(f, i, calls) => FlatDelete(flat, f, i, Working(calls))
    case DeleteAll(f, _, attempts) => FlatDeleteDown(flat, f, AllWorking(attempts), |View(flat, f)|, 0)
  }

  /** The flat list after a run, with all notices sent during it. */
  ghost function FlatRun(flat: seq<AclEntry>, capacity: nat, quota: nat, ops: seq<Operation>)
    : (seq<AclEntry>, seq<AclEvent>)
    decreases |ops|
  {
    if |ops| == 0 then (flat, [])
    else
      var before := FlatRun(flat, capacity, quota, ops[..|ops| - 1]);
      var last := FlatStep(before.0, capacity, quota, ops[|ops| - 1]);
      (last.flat, before.1 + last.events)
  }

  // ----- Refinement -----

  /** Deleting never fails here. */
  function Working(calls: DeleteCalls): DeleteCalls {
    calls.(delete := NoError)
  }

  function AllWorking(attempts: nat -> DeleteCalls): nat -> DeleteCalls {
    (k: nat) => Working(attempts(k))
  }

  lemma WorkingAt(attempts: nat -> DeleteCalls, k: nat)
    ensures AllWorking(attempts)(k) == Working(attempts(k))
  {
  }

  /** What the delegate calls of an operation come to on this storage: a create fails if the array is
      full, and a moved entry comes after the entries of its fabric in earlier slots. */
  ghost function Seen(flat: seq<AclEntry>, capacity: nat, op: Operation): Operation {
    match op
    case Create(f, h, calls) =>
      Create(f, h, CreateCalls(NoError, NoError, if |flat| >= capacity then BufferTooSmall else calls.create))
    case Update(f, i, h, calls) =>
      Update(f, i, h,
             if Readable(h) && i < |View(flat, f)|
             then calls.(place := |View(flat[..SlotOf(flat, f, i)], ValueOf(h).fabricIndex)|) else calls)
    case Delete(f, i, calls) => Delete(f, i, Working(calls))
    case DeleteAll(f, _, attempts) => DeleteAll(f, NoError, AllWorking(attempts))
  }

  ghost predicate Refines(flat: FlatOutcome, o: AclOutcome) {
    Represents(flat.flat, o.store) && flat.events == o.events && flat.status == o.status
  }

  lemma DeleteStepRefines(flat: seq<AclEntry>, store: AclStore, fabric: FabricIndex, index: nat, calls: DeleteCalls)
    requires Represents(flat, store) && calls.delete == NoError
    ensures Refines(FlatDelete(flat, fabric, index, calls), DeleteOutcome(store, fabric, index, true, calls))
  {
    assert Entries(store, fabric) == View(flat, fabric);
    if index < |View(flat, fabric)| {
      DeleteRefines(flat, store, fabric, SlotOf(flat, fabric, index), index);
    }
  }

  /** Going down to index `k`, the flat list and the notices are those of the per-fabric delete-all. */
  ghost predicate DownRefines(flat: seq<AclEntry>, store: AclStore, fabric: FabricIndex, calls: nat -> DeleteCalls,
                              k: nat) {
    var list := Entries(store, fabric);
    var o := FlatDeleteDown(flat, fabric, calls, |list|, k);
    Represents(o.flat, StoreAfter(store, fabric, calls, k)) && o.events == Removals(fabric, list, true, calls, k) &&
    o.status == NoError == FirstFailure(|list|, calls, k)
  }

  lemma DownNext(flat: seq<AclEntry>, store: AclStore, fabric: FabricIndex, calls: nat -> DeleteCalls, k: nat)
    requires calls(k).delete == NoError && k < |Entries(store, fabric)| &&
             DownRefines(flat, store, fabric, calls, k + 1)
    ensures DownRefines(flat, store, fabric, calls, k)
  {
    var later := FlatDeleteDown(flat, fabric, calls, |Entries(store, fabric)|, k + 1);
    NextAttempt(store, fabric, true, calls, k);
    DeleteStepRefines(later.flat, StoreAfter(store, fabric, calls, k + 1), fabric, k, calls(k));
  }

  lemma {:induction false} DeleteDownRefines(flat: seq<AclEntry>, store: AclStore, fabric: FabricIndex,
                                             calls: nat -> DeleteCalls, k: nat)
    requires Represents(flat, store) && forall i: nat :: calls(i).delete == NoError
    ensures DownRefines(flat, store, fabric, calls, k)
    decreases |Entries(store, fabric)| - k
  {
    if k < |Entries(store, fabric)| {
      DeleteDownRefines(flat, store, fabric, calls, k + 1);
      DownNext(flat, store, fabric, calls, k);
    }
  }

  lemma UpdateStepRefines(flat: seq<AclEntry>, store: AclStore, capacity: nat, quota: nat, op: Operation)
    requires Represents(flat, store) && op.Update?
    ensures Refines(FlatStep(flat, capacity, quota, op), Step(store, quota, Seen(flat, capacity, op)))
  {
    assert Entries(store, op.fabric) == View(flat, op.fabric);
    if ValidHandle(op.handle) && op.index < |View(flat, op.fabric)| {
      UpdateRefines(flat, store, op.fabric, SlotOf(flat, op.fabric, op.index), op.index, ValueOf(op.handle));
    }
  }

  lemma CreateStepRefines(flat: seq<AclEntry>, store: AclStore, capacity: nat, quota: nat, op: Operation)
    requires Represents(flat, store) && op.Create?
    ensures Refines(FlatStep(flat, capacity, quota, op), Step(store, quota, Seen(flat, capacity, op)))
  {
    assert Entries(store, op.fabric) == View(flat, op.fabric);
    if ValidHandle(op.handle) {
      CreateRefines(flat, store, ValueOf(op.handle));
    }
  }

  lemma StepRefines(flat: seq<AclEntry>, store: AclStore, capacity: nat, quota: nat, op: Operation)
    requires Represents(flat, store)
    ensures Refines(FlatStep(flat, capacity, quota, op), Step(store, quota, Seen(flat, capacity, op)))
  {
    match op
    case Create(_, _, _) => CreateStepRefines(flat, store, capacity, quota, op);
    case Update(_, _, _, _) => UpdateStepRefines(flat, store, capacity, quota, op);
    case Delete(f, i, calls) => DeleteStepRefines(flat, store, f, i, Working(calls));
    case DeleteAll(f, _, attempts) =>
      assert Entries(store, f) == View(flat, f);
      forall k: nat
        ensures AllWorking(attempts)(k).delete == NoError
      {
        WorkingAt(attempts, k);
      }
      DeleteDownRefines(flat, store, f, AllWorking(attempts), 0);
  }

  /** The operations of a run as this storage carries them out. */
  ghost function SeenRun(flat: seq<AclEntry>, capacity: nat, quota: nat, ops: seq<Operation>): (r: seq<Operation>)
    ensures |r| == |ops|
    decreases |ops|
  {
    if |ops| == 0 then []
    else
      var n := |ops| - 1;
      SeenRun(flat, capacity, quota, ops[..n]) + [Seen(FlatRun(flat, capacity, quota, ops[..n]).0, capacity, ops[n])]
  }

  lemma {:induction false} SeenUpTo(flat: seq<AclEntry>, capacity: nat, quota: nat, ops: seq<Operation>, n: nat)
    requires n <= |ops|
    ensures SeenRun(flat, capacity, quota, ops)[..n] == SeenRun(flat, capacity, quota, ops[..n])
    ensures n < |ops| ==>
              SeenRun(flat, capacity, quota, ops)[n] ==
                Seen(FlatRun(flat, capacity, quota, ops[..n]).0, capacity, ops[n])
    decreases |ops|
  {
    if n == |ops| {
      assert ops[..n] == ops;
    } else {
      var shorter := ops[..|ops| - 1];
      SeenUpTo(flat, capacity, quota, shorter, n);
      assert shorter[..n] == ops[..n];
    }
  }

  /** Every run on the flat list, whatever its operations, is a run over one sequence per fabric: after
      it, and so after every operation, the flat list represents the store, and the notices are the same. */
  lemma {:induction false} RunRefines(flat: seq<AclEntry>, store: AclStore, capacity: nat, quota: nat,
                                      ops: seq<Operation>)
    requires Represents(flat, store)
    ensures var r := Run(store, quota, SeenRun(flat, capacity, quota, ops));
            Represents(FlatRun(flat, capacity, quota, ops).0, r.0) && FlatRun(flat, capacity, quota, ops).1 == r.1
    decreases |ops|
  {
    if |ops| > 0 {
      var n := |ops| - 1;
      var seen := SeenRun(flat, capacity, quota, ops);
      RunRefines(flat, store, capacity, quota, ops[..n]);
      assert seen[..n] == SeenRun(flat, capacity, quota, ops[..n]);
      RunOneMore(store, quota, seen, n);
      assert seen[..n + 1] == seen;
      StepRefines(FlatRun(flat, capacity, quota, ops[..n]).0, Run(store, quota, seen[..n]).0, capacity, quota, ops[n]);
    }
  }

  // ----- Listeners and quota -----

  /** After the first `n` operations, a mirroring listener holds exactly what the flat list does. */
  ghost predicate FlatMirroredAfter(flat: seq<AclEntry>, store: AclStore, capacity: nat, quota: nat,
                                    ops: seq<Operation>, n: nat)
    requires n <= |ops|
  {
    var now := FlatRun(flat, capacity, quota, ops[..n]);
    Represents(now.0, Replay(store, now.1))
  }

  /** An update that is carried out with an entry of another fabric than the one updated. */
  ghost predicate FlatMoves(flat: seq<AclEntry>, op: Operation) {
    op.Update? && ValidHandle(op.handle) && op.index < |View(flat, op.fabric)| &&
    op.updateCalls.update == NoError && ValueOf(op.handle).fabricIndex != op.fabric
  }

  ghost predicate FlatStaysPut(flat: seq<AclEntry>, capacity: nat, quota: nat, ops: seq<Operation>, n: nat)
    requires n < |ops|
  {
    !FlatMoves(FlatRun(flat, capacity, quota, ops[..n]).0, ops[n])
  }

  lemma SameAfter(flat: seq<AclEntry>, store: AclStore, capacity: nat, quota: nat, ops: seq<Operation>, n: nat)
    requires Represents(flat, store) && n <= |ops|
    ensures var seen := SeenRun(flat, capacity, quota, ops);
            Represents(FlatRun(flat, capacity, quota, ops[..n]).0, Run(store, quota, seen[..n]).0) &&
            FlatRun(flat, capacity, quota, ops[..n]).1 == Run(store, quota, seen[..n]).1
  {
    SeenUpTo(flat, capacity, quota, ops, n);
    RunRefines(flat, store, capacity, quota, ops[..n]);
  }

  /** On the example storage a mirroring listener is right after every operation of a run exactly if no
      update of the run that is carried out is given an entry of another fabric. */
  lemma FlatRunReplaysExactly(flat: seq<AclEntry>, store: AclStore, capacity: nat, quota: nat, ops: seq<Operation>)
    requires Represents(flat, store)
    ensures (forall n :: 0 <= n <= |ops| ==> FlatMirroredAfter(flat, store, capacity, quota, ops, n)) <==>
            (forall n :: 0 <= n < |ops| ==> FlatStaysPut(flat, capacity, quota, ops, n))
  {
    var seen := SeenRun(flat, capacity, quota, ops);
    forall n | 0 <= n <= |ops|
      ensures MirroredAfter(store, quota, seen, n) <==> FlatMirroredAfter(flat, store, capacity, quota, ops, n)
    {
      SameAfter(flat, store, capacity, quota, ops, n);
    }
    forall n | 0 <= n < |ops|
      ensures StaysPut(store, quota, seen, n) <==> FlatStaysPut(flat, capacity, quota, ops, n)
    {
      SameAfter(flat, store, capacity, quota, ops, n);
      SeenUpTo(flat, capacity, quota, ops, n);
    }
    RunReplaysExactly(store, quota, seen);
  }

  /** A store that a flat list represents. */
  ghost function StoreOf(flat: seq<AclEntry>): (store: AclStore)
    ensures Represents(flat, store)
  {
    map f: nat | f < 0x100 :: View(flat, f)
  }

  ghost predicate FlatWithinQuota(flat: seq<AclEntry>, quota: nat) {
    forall f: FabricIndex :: |View(flat, f)| <= quota
  }

  ghost predicate FlatWithinQuotaAfter(flat: seq<AclEntry>, capacity: nat, quota: nat, ops: seq<Operation>, n: nat)
    requires n <= |ops|
  {
    FlatWithinQuota(FlatRun(flat, capacity, quota, ops[..n]).0, quota)
  }

  ghost predicate FlatCreates(flat: seq<AclEntry>, capacity: nat, quota: nat, op: Operation) {
    op.Create? && op.createCalls.create == NoError && |flat| < capacity && |View(flat, op.fabric)| < quota &&
    ValidHandle(op.handle)
  }

  ghost predicate FlatHasRoomAt(flat: seq<AclEntry>, capacity: nat, quota: nat, ops: seq<Operation>, n: nat)
    requires n < |ops|
  {
    FlatHasRoom(FlatRun(flat, capacity, quota, ops[..n]).0, capacity, quota, ops[n])
  }

  ghost predicate FlatHasRoom(flat: seq<AclEntry>, capacity: nat, quota: nat, op: Operation) {
    FlatCreates(flat, capacity, quota, op) || FlatMoves(flat, op) ==>
      |View(flat, ValueOf(op.handle).fabricIndex)| < quota
  }

  lemma SeenRoom(flat: seq<AclEntry>, store: AclStore, capacity: nat, quota: nat, op: Operation)
    requires Represents(flat, store)
    ensures HasRoom(store, quota, Seen(flat, capacity, op)) <==> FlatHasRoom(flat, capacity, quota, op)
  {
    assert Entries(store, op.fabric) == View(flat, op.fabric);
    if (op.Create? || op.Update?) && Readable(op.handle) {
      var own := ValueOf(op.handle).fabricIndex;
      assert Entries(store, own) == View(flat, own);
    }
  }

  lemma SameRoom(flat: seq<AclEntry>, store: AclStore, capacity: nat, quota: nat, ops: seq<Operation>, n: nat)
    requires Represents(flat, store) && n < |ops|
    ensures HasRoomAt(store, quota, SeenRun(flat, capacity, quota, ops), n) <==>
            FlatHasRoomAt(flat, capacity, quota, ops, n)
  {
    SameAfter(flat, store, capacity, quota, ops, n);
    SeenUpTo(flat, capacity, quota, ops, n);
    var seen := SeenRun(flat, capacity, quota, ops);
    SeenRoom(FlatRun(flat, capacity, quota, ops[..n]).0, Run(store, quota, seen[..n]).0, capacity, quota, ops[n]);
  }

  /** On the example storage no fabric exceeds its quota after any operation of a run exactly if every
      create and every move of the run finds room among the entries of its entry's own fabric. */
  lemma FlatRunKeepsQuotaExactly(flat: seq<AclEntry>, capacity: nat, quota: nat, ops: seq<Operation>)
    requires FlatWithinQuota(flat, quota)
    ensures (forall n :: 0 <= n <= |ops| ==> FlatWithinQuotaAfter(flat, capacity, quota, ops, n)) <==>
            (forall n :: 0 <= n < |ops| ==> FlatHasRoomAt(flat, capacity, quota, ops, n))
  {
    var seen, store := SeenRun(flat, capacity, quota, ops), StoreOf(flat);
    forall n | 0 <= n <= |ops|
      ensures WithinQuotaAfter(store, quota, seen, n) <==> FlatWithinQuotaAfter(flat, capacity, quota, ops, n)
    {
      SameAfter(flat, store, capacity, quota, ops, n);
    }
    forall n | 0 <= n < |ops|
      ensures HasRoomAt(store, quota, seen, n) <==> FlatHasRoomAt(flat, capacity, quota, ops, n)
    {
      SameRoom(flat, store, capacity, quota, ops, n);
    }
    RunKeepsQuotaExactly(store, quota, seen);
  }

  /** When each create and update is given an entry of the fabric it is called for, every state of the run
      is within the quota, and a mirroring listener is right after every operation. */
  lemma FlatMatchedRun(flat: seq<AclEntry>, store: AclStore, capacity: nat, quota: nat, ops: seq<Operation>, n: nat)
    requires Represents(flat, store) && FlatWithinQuota(flat, quota)
    requires (forall i :: 0 <= i < |ops| ==> Matched(ops[i])) && n <= |ops|
    ensures FlatWithinQuotaAfter(flat, capacity, quota, ops, n)
    ensures FlatMirroredAfter(flat, store, capacity, quota, ops, n)
  {
    assert forall k :: 0 <= k < |ops| ==>
        Matched(ops[k]) && FlatStaysPut(flat, capacity, quota, ops, k) && FlatHasRoomAt(flat, capacity, quota, ops, k);
    FlatRunKeepsQuotaExactly(flat, capacity, quota, ops);
    FlatRunReplaysExactly(flat, store, capacity, quota, ops);
  }

  /** One entry each of fabrics 1 and 2, under a quota of one. Updating fabric 1's entry by one of fabric 2
      takes fabric 2 over its quota, and leaves a mirroring listener with an entry in fabric 1 that the
      storage does not have. */
  lemma MismatchedUpdateBreaksQuotaAndMirrors()
    ensures var a, b := AclEntry(1, Case, VIEW, [], []), AclEntry(2, Case, VIEW, [], []);
            var store: AclStore := map[1 := [a], 2 := [b]];
            var o := FlatStep([a, b], 2, 1, Update(1, 0, HandleOf(b), UpdateCalls(NoError, 0)));
            Represents([a, b], store) && FlatWithinQuota([a, b], 1) && o.status == NoError &&
            View(o.flat, 1) == [] && Entries(Replay(store, o.events), 1) == [b] &&
            View(o.flat, 2) == [b, b]
  {
    var a, b := AclEntry(1, Case, VIEW, [], []), AclEntry(2, Case, VIEW, [], []);
    var store: AclStore := map[1 := [a], 2 := [b]];
    forall f: FabricIndex
      ensures View([a, b], f) == if f == 1 then [a] else if f == 2 then [b] else []
    {
      ViewTwo(a, b, f);
    }
    MovedOver(a, b);
    ReplayOne(store, Updated(1, 0, b));
  }

  lemma MovedOver(a: AclEntry, b: AclEntry)
    requires a.fabricIndex == 1 && b.fabricIndex == 2
    requires ValidHandle(HandleOf(b))
    ensures var o := FlatStep([a, b], 2, 1, Update(1, 0, HandleOf(b), UpdateCalls(NoError, 0)));
            o.status == NoError && o.events == [Updated(1, 0, b)] && View(o.flat, 1) == [] && View(o.flat, 2) == [b, b]
  {
    ViewTwo(a, b, 1);
    var slot := SlotOf([a, b], 1, 0);
    assert slot == 0 && [a, b][0 := b] == [b, b];
    ViewTwo(b, b, 1);
    ViewTwo(b, b, 2);
  }

  lemma ViewTwo(a: AclEntry, b: AclEntry, f: FabricIndex)
    ensures View([a, b], f) == (if a.fabricIndex == f then [a] else []) + if b.fabricIndex == f then [b] else []
  {
    assert [a, b][..1] == [a];
    ViewOne(a, f);
  }
}
