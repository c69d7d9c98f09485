/** The access control list: create, update and delete over a storage delegate that keeps one
    sequence of entries per fabric and may fail any call, with notification of listeners. */
module AccessControlList {
  import opened AccessTypes
  import opened AccessDecision
  import opened EntryStore
  import opened ListenerList
  import opened Options

  type AclEvent = Event<AclEntry>
  type AclOutcome = Outcome<AclEntry>

  // ----- The effect of each operation -----

  /** How the delegate calls of a create turn out; `NoError` is success. */
  datatype CreateCalls = CreateCalls(count: Status, max: Status, create: Status)

  /** The quota is counted on `fabric`; the delegate files the entry under the entry's own fabric. */
  function CreateOutcome(store: AclStore, quota: nat, fabric: FabricIndex, h: Handle, calls: CreateCalls): AclOutcome {
    if calls.count != NoError then Outcome(store, [], calls.count)
    else if calls.max != NoError then Outcome(store, [], calls.max)
    else if |Entries(store, fabric)| + 1 > quota then Outcome(store, [], BufferTooSmall)
    else if !ValidHandle(h) then Outcome(store, [], InvalidArgument)
    else if calls.create != NoError then Outcome(store, [], calls.create)
    else
      var e := ValueOf(h);
      var list := Entries(store, e.fabricIndex);
      Outcome(store[e.fabricIndex := list + [e]], [Added(e.fabricIndex, |list|, e)], NoError)
  }

  /** How the delegate call of an update turns out, and where in its own fabric's list the delegate
      puts an entry of another fabric than the one updated. */
  datatype UpdateCalls = UpdateCalls(update: Status, place: nat)

  /** The store once `e` has replaced the entry at this index. Like a create, an update files an entry
      under the entry's own fabric: one of another fabric leaves the caller's list for its own. */
  function Replaced(store: AclStore, fabric: FabricIndex, index: nat, e: AclEntry, place: nat): AclStore
    requires index < |Entries(store, fabric)|
  {
    var list := Entries(store, fabric);
    if e.fabricIndex == fabric then store[fabric := list[index := e]]
    else
      var own := Entries(store, e.fabricIndex);
      var at := if place <= |own| then place else |own|;
      store[fabric := list[..index] + list[index + 1..]][e.fabricIndex := own[..at] + [e] + own[at..]]
  }

  function UpdateOutcome(store: AclStore, fabric: FabricIndex, index: nat, h: Handle, calls: UpdateCalls): AclOutcome {
    if !ValidHandle(h) then Outcome(store, [], InvalidArgument)
    else if index >= |Entries(store, fabric)| then Outcome(store, [], Sentinel)
    else if calls.update != NoError then Outcome(store, [], calls.update)
    else
      Outcome(Replaced(store, fabric, index, ValueOf(h), calls.place), [Updated(fabric, index, ValueOf(h))], NoError)
  }

  // ----- Runs -----

  datatype Operation =
    | Create(fabric: FabricIndex, handle: Handle, createCalls: CreateCalls)
    | Update(fabric: FabricIndex, index: nat, handle: Handle, updateCalls: UpdateCalls)
    | Delete(fabric: FabricIndex, index: nat, deleteCalls: DeleteCalls)
    | DeleteAll(fabric: FabricIndex, count: Status, attempts: nat -> DeleteCalls)

  /** One operation with a listener registered. */
  function Step(store: AclStore, quota: nat, op: Operation): AclOutcome {
    match op
    case Create(f, h, calls) => CreateOutcome(store, quota, f, h, calls)
    case Update(f, i, h, calls) => UpdateOutcome(store, f, i, h, calls)
    case Delete(f, i, calls) => DeleteOutcome(store, f, i, true, calls)
    case DeleteAll(f, count, attempts) => DeleteAllOutcome(store, f, count, true, attempts)
  }

  /** The store after a run, with all notifications sent during it. */
  function Run(store: AclStore, quota: nat, ops: seq<Operation>): (AclStore, seq<AclEvent>)
    decreases |ops|
  {
    if |ops| == 0 then (store, [])
    else
      var n := |ops| - 1;
      var before := Run(store, quota, ops[..n]);
      var last := Step(before.0, quota, ops[n]);
      (last.store, before.1 + last.events)
  }

  /** A create stores exactly if the calls before it succeed, the fabric has room for one more, the entry is valid
      and the delegate carries it out. It adds the entry behind those of its own fabric, changes no other, and
      announces it; otherwise nothing happens and the first obstacle is reported. */
  lemma CreateExactly(store: AclStore, quota: nat, fabric: FabricIndex, h: Handle, calls: CreateCalls, g: FabricIndex)
    ensures var o := CreateOutcome(store, quota, fabric, h, calls);
            var obstacle :=
              if calls.count != NoError then calls.count
              else if calls.max != NoError then calls.max
              else if |Entries(store, fabric)| >= quota then BufferTooSmall
              else if !ValidHandle(h) then InvalidArgument
              else calls.create;
            o.status == obstacle &&
            if obstacle != NoError then o.store == store && o.events == []
            else
              var e := ValueOf(h);
              var list := Entries(store, e.fabricIndex);
              Entries(o.store, e.fabricIndex) == list + [e] && o.events == [Added(e.fabricIndex, |list|, e)] &&
              (g != e.fabricIndex ==> Entries(o.store, g) == Entries(store, g))
  {
  }

  /** An update replaces exactly if the entry is valid, there is one to replace, and the delegate carries it out.
      Only the lists of the fabric updated and of the entry's own fabric change: the entry replaced is gone from
      the first, and the new one is in the second. */
  lemma UpdateExactly(store: AclStore, fabric: FabricIndex, index: nat, h: Handle, calls: UpdateCalls, g: FabricIndex)
    ensures var o, list := UpdateOutcome(store, fabric, index, h, calls), Entries(store, fabric);
            var obstacle :=
              if !ValidHandle(h) then InvalidArgument
              else if index >= |list| then Sentinel
              else calls.update;
            o.status == obstacle &&
            if obstacle != NoError then o.store == store && o.events == []
            else
              var e := ValueOf(h);
              o.events == [Updated(fabric, index, e)] &&
              (g != fabric && g != e.fabricIndex ==> Entries(o.store, g) == Entries(store, g)) &&
              if e.fabricIndex == fabric then Entries(o.store, fabric) == list[..index] + [e] + list[index + 1..]
              else
                Entries(o.store, fabric) == list[..index] + list[index + 1..] &&
                exists at :: 0 <= at <= |Entries(store, e.fabricIndex)| &&
                             InsertedAt(Entries(store, e.fabricIndex), at, e) == Entries(o.store, e.fabricIndex)
  {
    var list := Entries(store, fabric);
    if ValidHandle(h) && index < |list| && calls.update == NoError {
      var e := ValueOf(h);
      assert list[index := e] == list[..index] + [e] + list[index + 1..];
      if e.fabricIndex != fabric {
        var own := Entries(store, e.fabricIndex);
        var at := if calls.place <= |own| then calls.place else |own|;
        assert InsertedAt(own, at, e) == Entries(Replaced(store, fabric, index, e, calls.place), e.fabricIndex);
      }
    }
  }

  function InsertedAt(list: seq<AclEntry>, at: nat, e: AclEntry): seq<AclEntry>
    requires at <= |list|
  {
    list[..at] + [e] + list[at..]
  }

  // ----- Mirroring listeners -----

  /** An update that is carried out with an entry of another fabric than the one updated. */
  predicate Moves(store: AclStore, op: Operation) {
    op.Update? && ValidHandle(op.handle) && op.index < |Entries(store, op.fabric)| &&
    op.updateCalls.update == NoError && ValueOf(op.handle).fabricIndex != op.fabric
  }

  /** The notices of one operation turn the store before it into the store after it, exactly if the
      operation does not move an entry to another fabric. If it does, the notice leaves the entry in
      the list of the fabric updated. */
  lemma StepReplays(store: AclStore, quota: nat, op: Operation)
    ensures var o := Step(store, quota, op);
            if Moves(store, op) then Entries(Replay(store, o.events), op.fabric) != Entries(o.store, op.fabric)
            else Replay(store, o.events) == o.store
  {
    match op
    case Create(f, h, calls) =>
      var o := CreateOutcome(store, quota, f, h, calls);
      if o.events != [] {
        var list := Entries(store, o.events[0].fabric);
        ReplayOne(store, o.events[0]);
        assert list[..|list|] + [ValueOf(h)] + list[|list|..] == list + [ValueOf(h)];
      }
    case Update(f, i, h, calls) =>
      var o := UpdateOutcome(store, f, i, h, calls);
      if o.events != [] {
        ReplayOne(store, o.events[0]);
        if Moves(store, op) {
          assert |Entries(o.store, f)| < |Entries(store, f)|;
        }
      }
    case Delete(f, i, calls) =>
      DeleteReplays(store, f, i, true, calls);
    case DeleteAll(f, count, attempts) =>
      RemovalsReplay(store, f, true, attempts, 0);
  }

  /** After the first `n` operations, a listener that mirrors each notice since the start holds exactly
      every fabric's entries. */
  ghost predicate MirroredAfter(store: AclStore, quota: nat, ops: seq<Operation>, n: nat)
    requires n <= |ops|
  {
    forall f: FabricIndex :: Entries(Replay(store, Run(store, quota, ops[..n]).1), f) ==
      Entries(Run(store, quota, ops[..n]).0, f)
  }

  /** Operation number `n` does not move an entry to another fabric. */
  ghost predicate StaysPut(store: AclStore, quota: nat, ops: seq<Operation>, n: nat)
    requires n < |ops|
  {
    !Moves(Run(store, quota, ops[..n]).0, ops[n])
  }

  /** Over every run, failing operations included, that moves no entry to another fabric, a listener
      that mirrors each notice holds exactly the stored entries of every fabric. */
  lemma {:induction false} RunReplays(store: AclStore, quota: nat, ops: seq<Operation>)
    requires forall n :: 0 <= n < |ops| ==> StaysPut(store, quota, ops, n)
    ensures Replay(store, Run(store, quota, ops).1) == Run(store, quota, ops).0
    decreases |ops|
  {
    if |ops| > 0 {
      var n := |ops| - 1;
      StillPut(store, quota, ops, n);
      RunReplays(store, quota, ops[..n]);
      var now := Run(store, quota, ops[..n]);
      assert StaysPut(store, quota, ops, n);
      StepReplays(now.0, quota, ops[n]);
      ReplayConcat(store, now.1, Step(now.0, quota, ops[n]).events);
    }
  }

  /** And only over those: the listener is right after every operation of a run exactly if no operation
      of the run moves an entry to another fabric. */
  lemma RunReplaysExactly(store: AclStore, quota: nat, ops: seq<Operation>)
    ensures (forall n :: 0 <= n <= |ops| ==> MirroredAfter(store, quota, ops, n)) <==>
            (forall n :: 0 <= n < |ops| ==> StaysPut(store, quota, ops, n))
  {
    if forall n :: 0 <= n < |ops| ==> StaysPut(store, quota, ops, n) {
      forall n | 0 <= n <= |ops|
        ensures MirroredAfter(store, quota, ops, n)
      {
        StillPut(store, quota, ops, n);
        RunReplays(store, quota, ops[..n]);
      }
    } else {
      var n := FirstMove(store, quota, ops, |ops|);
      StillPut(store, quota, ops, n);
      RunReplays(store, quota, ops[..n]);
      RunOneMore(store, quota, ops, n);
      var now := Run(store, quota, ops[..n]);
      StepReplays(now.0, quota, ops[n]);
      ReplayConcat(store, now.1, Step(now.0, quota, ops[n]).events);
      assert !MirroredAfter(store, quota, ops, n + 1);
    }
  }

  lemma StillPut(store: AclStore, quota: nat, ops: seq<Operation>, n: nat)
    requires n <= |ops| && forall k :: 0 <= k < n ==> StaysPut(store, quota, ops, k)
    ensures forall k :: 0 <= k < n ==> StaysPut(store, quota, ops[..n], k)
  {
    forall k | 0 <= k < n
      ensures StaysPut(store, quota, ops[..n], k)
    {
      assert StaysPut(store, quota, ops, k) && ops[..n][..k] == ops[..k];
    }
  }

  lemma {:induction false} FirstMove(store: AclStore, quota: nat, ops: seq<Operation>, upTo: nat) returns (n: nat)
    requires upTo <= |ops| && exists k :: 0 <= k < upTo && !StaysPut(store, quota, ops, k)
    ensures n < upTo && !StaysPut(store, quota, ops, n)
    ensures forall k :: 0 <= k < n ==> StaysPut(store, quota, ops, k)
  {
    n := upTo - 1;
    if exists k :: 0 <= k < n && !StaysPut(store, quota, ops, k) {
      n := FirstMove(store, quota, ops, n);
    }
  }

  lemma RunOneMore(store: AclStore, quota: nat, ops: seq<Operation>, n: nat)
    requires n < |ops|
    ensures var now := Run(store, quota, ops[..n]);
            var last := Step(now.0, quota, ops[n]);
            Run(store, quota, ops[..n + 1]) == (last.store, now.1 + last.events)
  {
    assert ops[..n + 1][..n] == ops[..n];
  }

  // ----- Validity and quota -----

  ghost predicate StoredValid(store: AclStore) {
    forall f :: f in store ==> AllValid(store[f])
  }

  ghost predicate WithinQuota(store: AclStore, quota: nat) {
    forall f: FabricIndex :: |Entries(store, f)| <= quota
  }

  /** Every entry is stored under its own fabric. */
  ghost predicate StoredUnderOwn(store: AclStore) {
    forall f :: f in store ==> AllOf(store[f], f)
  }

  predicate AllOf(list: seq<AclEntry>, fabric: nat) {
    forall e :: e in list ==> e.fabricIndex == fabric
  }

  lemma InsertKeeps(list: seq<AclEntry>, e: AclEntry, at: nat)
    requires at <= |list|
    ensures forall x :: x in list[..at] + [e] + list[at..] ==> x == e || x in list
  {
  }

  /** Whatever an update is given, what it stores was stored before or is the new entry, and it stays
      or goes under its own fabric. */
  lemma ReplacedKeeps(store: AclStore, fabric: FabricIndex, index: nat, e: AclEntry, place: nat)
    requires StoredValid(store) && ValidEntry(e) && index < |Entries(store, fabric)|
    ensures StoredValid(Replaced(store, fabric, index, e, place))
    ensures StoredUnderOwn(store) ==> StoredUnderOwn(Replaced(store, fabric, index, e, place))
  {
    if e.fabricIndex != fabric {
      var own := Entries(store, e.fabricIndex);
      InsertKeeps(own, e, if place <= |own| then place else |own|);
    }
  }

  lemma StepKeepsValid(store: AclStore, quota: nat, op: Operation)
    requires StoredValid(store)
    ensures StoredValid(Step(store, quota, op).store)
    ensures StoredUnderOwn(store) ==> StoredUnderOwn(Step(store, quota, op).store)
  {
    match op
    case Create(f, h, calls) =>
    case Update(f, i, h, calls) =>
      if ValidHandle(h) && i < |Entries(store, f)| {
        ReplacedKeeps(store, f, i, ValueOf(h), calls.place);
      }
    case Delete(f, i, calls) =>
    case DeleteAll(f, count, attempts) =>
      SurvivorsAreEntries(Entries(store, f), attempts, 0);
  }

  /** The code's guard lets the create through, and the delegate carries it out. */
  predicate Creates(store: AclStore, quota: nat, op: Operation) {
    op.Create? && op.createCalls == CreateCalls(NoError, NoError, NoError) &&
    |Entries(store, op.fabric)| < quota && ValidHandle(op.handle)
  }

  /** A create or move that is carried out finds room in the list of the entry's own fabric. */
  predicate HasRoom(store: AclStore, quota: nat, op: Operation) {
    Creates(store, quota, op) || Moves(store, op) ==> |Entries(store, ValueOf(op.handle).fabricIndex)| < quota
  }

  lemma OneGrows(store: AclStore, after: AclStore, quota: nat, own: FabricIndex)
    requires WithinQuota(store, quota) && |Entries(after, own)| == |Entries(store, own)| + 1
    requires forall g: FabricIndex :: g != own ==> |Entries(after, g)| <= |Entries(store, g)|
    ensures WithinQuota(after, quota) <==> |Entries(store, own)| < quota
  {
    if |Entries(store, own)| < quota {
      forall g: FabricIndex
        ensures |Entries(after, g)| <= quota
      {
        assert g != own ==> |Entries(after, g)| <= |Entries(store, g)|;
      }
    }
  }

  lemma NoneGrows(store: AclStore, after: AclStore, quota: nat)
    requires WithinQuota(store, quota) && forall g: FabricIndex :: |Entries(after, g)| <= |Entries(store, g)|
    ensures WithinQuota(after, quota)
  {
  }

  lemma CreateGrows(store: AclStore, quota: nat, op: Operation)
    requires Creates(store, quota, op)
    ensures var own := ValueOf(op.handle).fabricIndex;
            Step(store, quota, op).store == store[own := Entries(store, own) + [ValueOf(op.handle)]]
  {
  }

  lemma MoveGrows(store: AclStore, quota: nat, op: Operation, g: FabricIndex)
    requires Moves(store, op)
    ensures var own, after := ValueOf(op.handle).fabricIndex, Step(store, quota, op).store;
            if g == own then |Entries(after, g)| == |Entries(store, g)| + 1
            else |Entries(after, g)| <= |Entries(store, g)|
  {
  }

  lemma OthersGrowNothing(store: AclStore, quota: nat, op: Operation, g: FabricIndex)
    requires !Creates(store, quota, op) && !Moves(store, op)
    ensures |Entries(Step(store, quota, op).store, g)| <= |Entries(store, g)|
  {
    if op.DeleteAll? {
      SurvivorsAreEntries(Entries(store, op.fabric), op.attempts, 0);
    }
  }

  /** One operation keeps the quota exactly if there is room where its entry goes. */
  lemma StepKeepsQuotaExactly(store: AclStore, quota: nat, op: Operation)
    requires WithinQuota(store, quota)
    ensures WithinQuota(Step(store, quota, op).store, quota) <==> HasRoom(store, quota, op)
  {
    var after := Step(store, quota, op).store;
    if Creates(store, quota, op) {
      CreateGrows(store, quota, op);
      OneGrows(store, after, quota, ValueOf(op.handle).fabricIndex);
    } else if Moves(store, op) {
      forall g: FabricIndex {
        MoveGrows(store, quota, op, g);
      }
      OneGrows(store, after, quota, ValueOf(op.handle).fabricIndex);
    } else {
      forall g: FabricIndex {
        OthersGrowNothing(store, quota, op, g);
      }
      NoneGrows(store, after, quota);
    }
  }

  /** In every state a run reaches, all stored entries are valid and stored under their own fabric. */
  lemma {:induction false} RunKeepsInvariants(store: AclStore, quota: nat, ops: seq<Operation>)
    requires StoredValid(store)
    ensures StoredValid(Run(store, quota, ops).0)
    ensures StoredUnderOwn(store) ==> StoredUnderOwn(Run(store, quota, ops).0)
    decreases |ops|
  {
    if |ops| > 0 {
      var n := |ops| - 1;
      RunKeepsInvariants(store, quota, ops[..n]);
      StepKeepsValid(Run(store, quota, ops[..n]).0, quota, ops[n]);
    }
  }

  ghost predicate WithinQuotaAfter(store: AclStore, quota: nat, ops: seq<Operation>, n: nat)
    requires n <= |ops|
  {
    WithinQuota(Run(store, quota, ops[..n]).0, quota)
  }

  ghost predicate HasRoomAt(store: AclStore, quota: nat, ops: seq<Operation>, n: nat)
    requires n < |ops|
  {
    HasRoom(Run(store, quota, ops[..n]).0, quota, ops[n])
  }

  /** No fabric exceeds its quota after any operation of a run exactly if every create and move of the
      run finds room in the list of its entry's own fabric. */
  lemma RunKeepsQuotaExactly(store: AclStore, quota: nat, ops: seq<Operation>)
    requires WithinQuota(store, quota)
    ensures (forall n :: 0 <= n <= |ops| ==> WithinQuotaAfter(store, quota, ops, n)) <==>
            (forall n :: 0 <= n < |ops| ==> HasRoomAt(store, quota, ops, n))
  {
    if forall n :: 0 <= n < |ops| ==> HasRoomAt(store, quota, ops, n) {
      forall n | 0 <= n <= |ops|
        ensures WithinQuotaAfter(store, quota, ops, n)
      {
        RoomKeepsQuota(store, quota, ops, n);
      }
    }
    if forall n :: 0 <= n <= |ops| ==> WithinQuotaAfter(store, quota, ops, n) {
      forall n | 0 <= n < |ops|
        ensures HasRoomAt(store, quota, ops, n)
      {
        assert WithinQuotaAfter(store, quota, ops, n) && WithinQuotaAfter(store, quota, ops, n + 1);
        RunOneMore(store, quota, ops, n);
        StepKeepsQuotaExactly(Run(store, quota, ops[..n]).0, quota, ops[n]);
      }
    }
  }

  lemma {:induction false} RoomKeepsQuota(store: AclStore, quota: nat, ops: seq<Operation>, n: nat)
    requires WithinQuota(store, quota) && n <= |ops| && forall k :: 0 <= k < n ==> HasRoomAt(store, quota, ops, k)
    ensures WithinQuotaAfter(store, quota, ops, n)
  {
    if n == 0 {
      assert ops[..0] == [];
    } else {
      RoomKeepsQuota(store, quota, ops, n - 1);
      assert HasRoomAt(store, quota, ops, n - 1);
      RunOneMore(store, quota, ops, n - 1);
      StepKeepsQuotaExactly(Run(store, quota, ops[..n - 1]).0, quota, ops[n - 1]);
    }
  }

  /** A create or update with an entry of the fabric it is called for. */
  predicate Matched(op: Operation) {
    (op.Create? || op.Update?) && Readable(op.handle) ==> ValueOf(op.handle).fabricIndex == op.fabric
  }

  /** Hence, when each create and update is given an entry of the fabric it is called for, every state
      of the run is within the quota, and a mirroring listener is right after every operation. */
  lemma MatchedRun(store: AclStore, quota: nat, ops: seq<Operation>, n: nat)
    requires WithinQuota(store, quota) && (forall i :: 0 <= i < |ops| ==> Matched(ops[i])) && n <= |ops|
    ensures WithinQuotaAfter(store, quota, ops, n) && MirroredAfter(store, quota, ops, n)
  {
    assert forall k :: 0 <= k < |ops| ==>
        Matched(ops[k]) && StaysPut(store, quota, ops, k) && HasRoomAt(store, quota, ops, k);
    RunKeepsQuotaExactly(store, quota, ops);
    RunReplaysExactly(store, quota, ops);
  }

  /** Exactly when does a create that the delegate carries out keep the quota? When the code's guard
      stops it, or when the fabric that the entry itself names still has room: the guard looks at the
      caller's fabric instead. */
  lemma CreateKeepsQuotaExactly(store: AclStore, quota: nat, fabric: FabricIndex, h: Handle)
    requires WithinQuota(store, quota)
    ensures var o := CreateOutcome(store, quota, fabric, h, CreateCalls(NoError, NoError, NoError));
            WithinQuota(o.store, quota) <==>
            (|Entries(store, fabric)| < quota && ValidHandle(h) ==> |Entries(store, ValueOf(h).fabricIndex)| < quota)
  {
    StepKeepsQuotaExactly(store, quota, Create(fabric, h, CreateCalls(NoError, NoError, NoError)));
  }

  /** A create for fabric 1 of an entry of the full fabric 2 takes fabric 2 over its quota. */
  lemma MismatchedCreateBreaksQuota()
    ensures var e := AclEntry(2, Case, VIEW, [], []);
            var store: AclStore := map[2 := [e]];
            var o := CreateOutcome(store, 1, 1, HandleOf(e), CreateCalls(NoError, NoError, NoError));
            WithinQuota(store, 1) && o.status == NoError && !WithinQuota(o.store, 1)
  {
    var e := AclEntry(2, Case, VIEW, [], []);
    var store: AclStore := map[2 := [e]];
    var o := CreateOutcome(store, 1, 1, HandleOf(e), CreateCalls(NoError, NoError, NoError));
    assert |Entries(o.store, 2)| == 2;
  }

  /** In every state reached by a run from a valid store, the decision over a fabric's entries is
      never an internal error, and allows exactly when the session is PASE or an entry grants. */
  lemma ReachableDecision(store: AclStore, quota: nat, ops: seq<Operation>, resolver: DeviceTypeResolver,
                          d: SubjectDescriptor, path: RequestPath, request: Privilege)
    requires StoredValid(store)
    ensures var list := Entries(Run(store, quota, ops).0, d.fabricIndex);
            DecideStored(list, resolver, d, path, request) ==
            if d.authMode == Pase || SomeGrants(list, resolver, d, path, request) then NoError else AccessDenied
  {
    RunKeepsInvariants(store, quota, ops);
    DecisionExact(Entries(Run(store, quota, ops).0, d.fabricIndex), resolver, d, path, request);
  }

  // ----- The object -----

  /** `addressed` lists the entries of `list` from the last one down to index `k`. */
  ghost predicate Backwards(addressed: seq<AclEntry>, list: seq<AclEntry>, k: nat) {
    k <= |list| && |addressed| == |list| - k &&
    forall i :: 0 <= i < |addressed| ==> addressed[i] == list[|list| - 1 - i]
  }

  /** What the loop of delete-all has sent, addressed and found once it has tried the indices from `k` on. */
  ghost predicate TriedDownTo(fabric: nat, list: seq<AclEntry>, heard: bool, calls: nat -> DeleteCalls, k: nat,
                              sent: seq<AclEvent>, addressed: seq<AclEntry>, sticky: Status) {
    Backwards(addressed, list, k) && sent == Removals(fabric, list, heard, calls, k) &&
    sticky == FirstFailure(|list|, calls, k)
  }

  lemma TryNext(fabric: nat, list: seq<AclEntry>, heard: bool, calls: nat -> DeleteCalls, k: nat, sent: seq<AclEvent>,
                addressed: seq<AclEntry>, sticky: Status)
    requires TriedDownTo(fabric, list, heard, calls, k + 1, sent, addressed, sticky)
    ensures TriedDownTo(fabric, list, heard, calls, k, sent + Removal(fabric, list[k], heard, calls(k), k),
                        addressed + [list[k]], if sticky == NoError then calls(k).delete else sticky)
  {
  }

  class AccessControl {
    var initialized: bool
    var store: AclStore
    const quota: nat
    const listeners: Chain<AclEvent>

    ghost predicate Valid()
      reads this, listeners, listeners.items
    {
      listeners.Valid()
    }

    constructor (quota: nat)
      ensures Valid() && !initialized && store == map[] && this.quota == quota
      ensures listeners.items == [] && fresh(listeners)
    {
      initialized, store, this.quota := false, map[], quota;
      listeners := new Chain();
    }

    /** Every registered listener has heard exactly these events, in this order. */
    twostate predicate Heard(events: seq<AclEvent>)
      reads this, listeners, listeners.items
    {
      listeners.items == old(listeners.items) &&
      forall l :: l in listeners.items ==> l.log == old(l.log) + events
    }

    /** A listener whose log replays, from some base, to the store. */
    ghost predicate Mirrors(l: Listener<AclEvent>, base: AclStore)
      reads this, l
    {
      Replay(base, l.log) == store
    }

    /** Every registered listener that mirrored the store still does. */
    twostate predicate MirrorsKept()
      reads this, listeners, listeners.items
    {
      listeners.items == old(listeners.items) &&
      forall l, base :: l in old(listeners.items) && old(Mirrors(l, base)) ==> Mirrors(l, base)
    }

    /** What follows for mirroring listeners from an outcome that replays. */
    twostate lemma KeepsMirrors(o: AclOutcome)
      requires Heard(o.events) && store == o.store
      requires Replay(old(store), o.events) == o.store
      ensures MirrorsKept()
    {
      forall l, base | l in old(listeners.items) && old(Mirrors(l, base))
        ensures Mirrors(l, base)
      {
        ReplayConcat(base, old(l.log), o.events);
      }
    }

    /** Every registered listener that mirrored the store still does, or none. */
    twostate predicate MirrorsKeptExactlyIf(kept: bool)
      reads this, listeners, listeners.items
    {
      listeners.items == old(listeners.items) &&
      forall l, base :: l in old(listeners.items) && old(Mirrors(l, base)) ==> (Mirrors(l, base) <==> kept)
    }

    twostate lemma SettlesMirrors(o: AclOutcome)
      requires Heard(o.events) && store == o.store
      ensures MirrorsKeptExactlyIf(Replay(old(store), o.events) == o.store)
    {
      forall l, base | l in old(listeners.items) && old(Mirrors(l, base))
        ensures Mirrors(l, base) <==> Replay(old(store), o.events) == o.store
      {
        ReplayConcat(base, old(l.log), o.events);
      }
    }

    method NotifyEntryChanged(event: AclEvent)
      requires Valid()
      modifies listeners.items`log
      ensures Valid() && Heard([event])
    {
      var _ := listeners.Notify(event);
    }

    method CreateEntry(fabric: FabricIndex, h: Handle, calls: CreateCalls) returns (status: Status, index: Option<nat>)
      requires Valid()
      modifies this`store, listeners.items`log
      ensures Valid()
      ensures var o := if initialized then CreateOutcome(old(store), quota, fabric, h, calls)
                       else Outcome(old(store), [], IncorrectState);
              store == o.store && status == o.status && Heard(o.events)
      ensures status == NoError <==> index.Some?
      ensures index.Some? ==> Readable(h)
      ensures index.Some? ==>
                var list := Entries(store, ValueOf(h).fabricIndex);
                index.value == |list| - 1 && list[index.value] == ValueOf(h)
      ensures MirrorsKept()
    {
      if !initialized {
        return IncorrectState, None;
      }
      if calls.count != NoError {
        return calls.count, None;
      }
      var count := |Entries(store, fabric)|;
      if calls.max != NoError {
        return calls.max, None;
      }
      if count + 1 > quota {
        return BufferTooSmall, None;
      }
      var valid := IsValid(h);
      if !valid {
        return InvalidArgument, None;
      }
      if calls.create != NoError {
        return calls.create, None;
      }
      ghost var op := Create(fabric, h, calls);
      StepReplays(store, quota, op);
      var entry := ValueOf(h);
      var i := |Entries(store, entry.fabricIndex)|;
      store := store[entry.fabricIndex := Entries(store, entry.fabricIndex) + [entry]];
      NotifyEntryChanged(Added(entry.fabricIndex, i, entry));
      KeepsMirrors(Step(old(store), quota, op));
      return NoError, Some(i);
    }

    /** Mirroring listeners keep mirroring, exactly unless the entry is moved to another fabric. */
    method UpdateEntry(fabric: FabricIndex, index: nat, h: Handle, calls: UpdateCalls) returns (status: Status)
      requires Valid()
      modifies this`store, listeners.items`log
      ensures Valid()
      ensures var o := if initialized then UpdateOutcome(old(store), fabric, index, h, calls)
                       else Outcome(old(store), [], IncorrectState);
              store == o.store && status == o.status && Heard(o.events)
      ensures MirrorsKeptExactlyIf(!(initialized && Moves(old(store), Update(fabric, index, h, calls))))
    {
      if !initialized {
        return IncorrectState;
      }
      var valid := IsValid(h);
      if !valid {
        return InvalidArgument;
      }
      if index >= |Entries(store, fabric)| {
        return Sentinel;
      }
      if calls.update != NoError {
        return calls.update;
      }
      ghost var op := Update(fabric, index, h, calls);
      StepReplays(store, quota, op);
      store := Replaced(store, fabric, index, ValueOf(h), calls.place);
      NotifyEntryChanged(Updated(fabric, index, ValueOf(h)));
      SettlesMirrors(Step(old(store), quota, op));
      return NoError;
    }

    method DeleteEntry(fabric: FabricIndex, index: nat, calls: DeleteCalls) returns (status: Status)
      requires Valid()
      modifies this`store, listeners.items`log
      ensures Valid()
      ensures var o := if initialized then DeleteOutcome(old(store), fabric, index, listeners.items != [], calls)
                       else Outcome(old(store), [], IncorrectState);
              store == o.store && status == o.status && Heard(o.events)
      ensures MirrorsKept()
    {
      if !initialized {
        return IncorrectState;
      }
      var list := Entries(store, fabric);
      var latest: Option<AclEntry> := None;
      if listeners.head != null && index < |list| && calls.read == NoError {
        latest := Some(list[index]);
      }
      if index >= |list| {
        return Sentinel;
      }
      if calls.delete != NoError {
        return calls.delete;
      }
      DeleteReplays(store, fabric, index, listeners.items != [], calls);
      store := store[fabric := list[..index] + list[index + 1..]];
      if latest.Some? && !calls.retained {
        latest := None;
      }
      NotifyEntryChanged(Removed(fabric, index, latest));
      KeepsMirrors(DeleteOutcome(old(store), fabric, index, listeners.items != [], calls));
      return NoError;
    }

    /** Every registered listener has heard these events since its log was as recorded. */
    ghost predicate HeardSince(logs: map<Listener<AclEvent>, seq<AclEvent>>, sent: seq<AclEvent>)
      reads listeners, listeners.items
    {
      forall l :: l in listeners.items ==> l in logs && l.log == logs[l] + sent
    }

    /** One round of the loop of `DeleteAllEntriesForFabric`: the attempt at index `k` once the later
        indices of `base` have been tried. */
    method DeleteNext(fabric: FabricIndex, k: nat, calls: nat -> DeleteCalls, ghost base: AclStore,
                      ghost logs: map<Listener<AclEvent>, seq<AclEvent>>, ghost sent: seq<AclEvent>)
      returns (err: Status, entry: AclEntry)
      requires HeardSince(logs, sent)
      requires Valid() && initialized
      requires k < |Entries(base, fabric)| && store == StoreAfter(base, fabric, calls, k + 1)
      modifies this`store, listeners.items`log
      ensures Valid()
      ensures store == StoreAfter(base, fabric, calls, k)
      ensures err == calls(k).delete && entry == Entries(base, fabric)[k] && listeners.items == old(listeners.items)
      ensures HeardSince(logs, sent + Removal(fabric, entry, listeners.items != [], calls(k), k))
    {
      NextAttempt(base, fabric, listeners.items != [], calls, k);
      entry := Entries(store, fabric)[k];
      err := DeleteEntry(fabric, k, calls(k));
      ghost var last := Removal(fabric, entry, listeners.items != [], calls(k), k);
      forall l | l in listeners.items
        ensures l.log == logs[l] + (sent + last)
      {
        assert old(l.log) == logs[l] + sent && l.log == old(l.log) + last;
      }
    }

    /** The loop of `DeleteAllEntriesForFabric`, from `count` down. */
    method DeleteDown(fabric: FabricIndex, count: nat, calls: nat -> DeleteCalls)
      returns (stickyError: Status, addressed: seq<AclEntry>)
      requires Valid() && initialized
      requires count == |Entries(store, fabric)|
      modifies this`store, listeners.items`log
      ensures Valid()
      ensures store == StoreAfter(old(store), fabric, calls, 0)
      ensures stickyError == FirstFailure(count, calls, 0)
      ensures Heard(Removals(fabric, Entries(old(store), fabric), listeners.items != [], calls, 0))
      ensures Backwards(addressed, Entries(old(store), fabric), 0)
    {
      stickyError, addressed := NoError, [];
      var aclCount := count;
      ghost var list, heard, sent: seq<AclEvent> := Entries(store, fabric), listeners.items != [], [];
      ghost var logs := map l | l in listeners.items :: l.log;
      while aclCount > 0
        invariant 0 <= aclCount <= count && Valid()
        invariant store == StoreAfter(old(store), fabric, calls, aclCount)
        invariant TriedDownTo(fabric, list, heard, calls, aclCount, sent, addressed, stickyError)
        invariant listeners.items == old(listeners.items) && HeardSince(logs, sent)
      {
        aclCount := aclCount - 1;
        TryNext(fabric, list, heard, calls, aclCount, sent, addressed, stickyError);
        var err, entry := DeleteNext(fabric, aclCount, calls, old(store), logs, sent);
        sent := sent + Removal(fabric, entry, heard, calls(aclCount), aclCount);
        addressed := addressed + [entry];
        stickyError := if stickyError == NoError then err else stickyError;
      }
    }

    /** Every original entry is addressed by exactly one attempt, last to first; the ones whose delete
        fails survive in order, other fabrics are untouched, and the result is the first failure. */
    method DeleteAllEntriesForFabric(fabric: FabricIndex, count: Status, calls: nat -> DeleteCalls)
      returns (stickyError: Status, addressed: seq<AclEntry>)
      requires Valid()
      modifies this`store, listeners.items`log
      ensures Valid()
      ensures var o := if initialized then DeleteAllOutcome(old(store), fabric, count, listeners.items != [], calls)
                       else Outcome(old(store), [], IncorrectState);
              store == o.store && stickyError == o.status && Heard(o.events)
      ensures initialized && count == NoError ==> Backwards(addressed, Entries(old(store), fabric), 0)
      ensures MirrorsKept()
    {
      stickyError, addressed := NoError, [];
      if !initialized {
        return IncorrectState, [];
      }
      if count == NoError {
        var aclCount := |Entries(store, fabric)|;
        stickyError, addressed := DeleteDown(fabric, aclCount, calls);
        RemovalsReplay(old(store), fabric, listeners.items != [], calls, 0);
        KeepsMirrors(DeleteAllOutcome(old(store), fabric, count, listeners.items != [], calls));
      }
    }
  }
}
