# Verified models of Matter access control and build tooling

This project models the access control module of the Matter SDK and several of the repository's
analysis scripts in Dafny, and proves what they promise over every input, every run or every
interleaving. `dafny verify dfyconfig.toml` checks all of it.

**Access control.** The access control list keeps entries per fabric behind a storage delegate that
may fail any call, validates what is stored, keeps a quota, tells listeners of every change, and
decides requests; the access restriction list can narrow a decision, and a group auxiliary delegate
can grant a group's Operate command (section 6.6 of the Matter Core Specification).

- `AccessTypes`, `AccessDecision`: entries, requests, validation and the decision over one fabric's
  entries, with getters that may fail.
- `ListenerList`: the intrusive pointer list of listeners, in the heap.
- `EntryStore`, `AccessControlList`: create, update, delete and delete-all, their notifications, and
  invariants over runs. The delegate files an entry under the entry's own fabric, in a create and in an
  update.
- `AccessRestrictions`, `AccessCheck`: the restriction provider and the composed check.
- `EntryOwnership`: who holds and releases entry delegates.
- `FlatStorage`, `FlatRuns`, `TargetCodec`: the example storage delegate, an array of all fabrics'
  entries, whose runs refine runs over one sequence per fabric, and its packed targets.

**Scripts.** `TidyPool` is the worker pool of the clang-tidy runner as interleaved steps; `CleanRules`
the ninja query parser and its worklist; `GnDependencies` the dependency recursion of the CMake
generator; `NameSplit`, `NameWords`, `TreeKeys`, `Treemap`, `TreemapPaths` and `SizeTree` the size tree; `SizeDiff`
the size difference and its flow diagram.

What comes from outside is an input of the model: the outcome of each delegate call and getter, the
device type resolver, the group data, whether a clang-tidy check succeeds, the build graphs, and
which rule's expression matches a name. Widths are modelled where they matter (identifiers, tags,
privileges, packed targets); counts are unbounded.

## Findings

- A create counts the quota on the caller's fabric but stores under the entry's own
  (`CreateKeepsQuotaExactly`, `MismatchedCreateBreaksQuota`). An update by an entry of another fabric moves
  it there, past the quota and with a notice for the wrong fabric (`RunReplaysExactly`,
  `RunKeepsQuotaExactly`, `MismatchedUpdateBreaksQuotaAndMirrors`).
- Delete-all reports success when the entries cannot be counted (`DeleteAllSuccess`,
  `FailingCountLooksLikeSuccess`).
- `AccessRestrictionProvider::Check` adds an empty list for an unknown fabric, which `GetEntries`
  shows (`AccessRestrictionProvider.Check`, `CheckLeavesAnEmptyList`). The header says a restricted
  request yields the "access denied" status; the code returns "restricted by ARL", and the model follows
  the code (`NeverAccessDenied`).
- The example storage's delete moves iterators back from the slot numbered like the entry's index
  within its fabric, so an iterator can deliver an entry twice (`FixupFromRelativeIndexExactly`,
  `FixupDeliversTwice`).
- `build_treemap` knows paths by their components joined with separators, so it merges the rows and totals
  of different paths with the same key (`OneRowPerPathExactly`, `TotalOfPathExactly`). The paths that the
  namespace split yields never meet this, whatever the names (`SplitKeysDistinguish`). The patterns for
  Ember callbacks, which are not part of this model, produce one that does: their cluster component is not
  cut at `::` (`DifferentPathsOneKey`).
- A comment in `scripts/tools/file_size_from_nm.py` gives a two-part split of a templated name; the
  code cuts after the template arguments too, and the model follows the code
  (`CommentedSplitIsNotComputed`).

## Model

| member | source | states |
|---|---|---|
| AccessDecision.ValidPrivileges | src/access/Privilege.h:59-65 | The bit test accepts exactly the five single privileges, of all 256 bytes |
| AccessDecision.PrivilegeTable | src/access/AccessControl.cpp:55-74 | Byte by byte: of the five privileges 1, 2, 4, 8 and 16, each grants itself, 16 all, all grant 1, and 8 grants 4; nothing else is granted |
| AccessTypes.NodeIdClasses | src/lib/core/NodeId.h:35-74 | Which leading digits make a node id operational, a certificate tag or a group, and that no id is two of these |
| AccessTypes.TagNodeId | src/lib/core/CASEAuthTag.h:46-64 | The node id of a tag with a given identifier and version, taken apart again; it may be a subject unless the version is zero |
| AccessTypes.PrefixedIds | src/lib/core/DataModelTypes.h:110-157 | Which clusters and device types are valid and which attributes global, by vendor prefix and suffix |
| AccessDecision.PrivilegeOrder | src/access/AccessControl.cpp:55-74 | Granting is a partial order on the valid privileges with Administer on top and View at the bottom; other bytes neither grant nor are granted |
| AccessDecision.IsValid | src/access/AccessControl.cpp:680-764 | The validation loops accept exactly the entries that can be read in full, whose auxiliary type is known or not implemented, and whose fabric, mode, privilege, subjects and targets meet the constraints |
| AccessDecision.ValidHandles | src/access/AccessControl.cpp:680-764 | A readable entry is valid exactly if it names a fabric, is by certificate or by group without Administer, and names only valid subjects and targets; a failing auxiliary type spoils it, a missing one does not |
| AccessDecision.ValidSubjects | src/access/AccessControl.cpp:740-742 | A subject is valid by certificate if it is an operational node or a tag with a version, by group if it is a group other than zero, digit by digit |
| AccessDecision.ValidTargetKinds | src/access/AccessControl.cpp:745-756 | Which targets are valid, for each combination of the three flags |
| AccessDecision.CheckSubjectAgainstCATs | src/lib/core/CASEAuthTag.h:174-190 | True exactly when some tag of the peer has the subject's identifier and at least its non-zero version |
| AccessDecision.SubjectsMatch | src/access/AccessControl.cpp:463-509 | A subject matches exactly if it is the peer's own id or the id of a tag, of which the peer holds at least the version, which is not zero |
| AccessDecision.FirstSubjectSettles | src/access/AccessControl.cpp:463-509 | The first subject that cannot be read, belongs to another mode, or matches, settles the list; without one the entry is passed over |
| AccessDecision.CheckSubjects | src/access/AccessControl.cpp:463-509 | The subject loop with its error exits computes the verdict that the first faulting or matching subject settles |
| AccessDecision.CheckTargets | src/access/AccessControl.cpp:511-540 | The target loop computes the verdict that the first unreadable or matching target settles |
| AccessDecision.TargetsMatch | src/access/AccessControl.cpp:511-540 | What each kind of target matches: the cluster, endpoint, or device type on the endpoint that it names |
| AccessDecision.FirstTargetSettles | src/access/AccessControl.cpp:511-540 | The first target that cannot be read or matches settles the list |
| AccessDecision.CheckACL | src/access/AccessControl.cpp:392-553 | The delegate's own verdict if it has one, the PASE grant, the failure to list entries, or what the first entry that is not skipped settles, computed by the nested loops |
| AccessDecision.FirstVerdictSettles | src/access/AccessControl.cpp:441-553 | Whatever the getters do, the first entry that is not skipped decides, and a list of skipped entries denies |
| AccessDecision.UnreadableEntries | src/access/AccessControl.cpp:447-547 | What an entry comes to, in the order it is read: a failing getter or a mode that entries may not have is a fault, another mode or too small a privilege passes it over unread |
| AccessDecision.JudgeExact | src/access/AccessControl.cpp:447-547 | A valid entry read through working getters is never a fault: it allows exactly if mode, privilege, subject and target match, and is skipped otherwise |
| AccessDecision.DecisionExact | src/access/AccessControl.cpp:430-553 | On a valid list the decision is never an internal error and allows exactly when the session is PASE or some entry grants |
| AccessDecision.DecisionByPrivilege | src/access/AccessControl.cpp:55-74 | For each privilege byte, on a valid list: a session other than PASE is allowed exactly if an entry that matches mode, subject and target holds one of the privileges named; Manage needs Manage or Administer, Operate one of those or Operate, ProxyView itself or Administer |
| AccessDecision.DecisionIgnoresOrder | src/access/AccessControl.cpp:441-552 | Permuting a valid list does not change any decision |
| AccessDecision.DecisionGrowsWithEntries | src/access/AccessControl.cpp:441-552 | Adding entries never revokes access, hence removing entries never grants it |
| AccessDecision.DecisionRespectsPrivilegeOrder | src/access/AccessControl.cpp:55-74 | Whoever is granted a privilege is granted every privilege it covers |
| AccessDecision.GroupNeverAdministers | src/access/AccessControl.cpp:717-724 | No valid list grants Administer to a group-authenticated subject |
| ListenerList.Chain.Add | src/access/AccessControl.cpp:305-328 | The pointer list appends an absent listener, is unchanged for a present one, and stays acyclic and duplicate-free; src/access/AccessRestrictionProvider.cpp:29-52 is the same code |
| ListenerList.Chain.Remove | src/access/AccessControl.cpp:330-348 | The pointer list drops a present listener and unlinks it, and is unchanged for an absent one; src/access/AccessRestrictionProvider.cpp:54-72 is the same code |
| ListenerList.Chain.Notify | src/access/AccessControl.cpp:766-773 | The traversal ends, and visits every listener exactly once in list order |
| ListenerList.HistoryDecidesMembership | src/access/AccessControl.cpp:305-348 | After any history of adds and removes the list has no duplicates and holds exactly the listeners whose last change was an add |
| ListenerList.JoinedAtExactly | src/access/AccessControl.cpp:305-348 | When a listener joined for its current stay: it was absent, was registered, and has been a member ever since |
| ListenerList.HistoryDecidesOrder | src/access/AccessControl.cpp:305-348 | After any history the list is in the order in which the listeners joined for their current stay |
| EntryStore.NextAttempt | src/access/AccessControl.h:618-622 | Once the later indices have been tried, the attempt at an index meets the original entry of that index, whichever deletes failed |
| EntryStore.SurvivorsExactly | src/access/AccessControl.h:607-626 | As many entries survive a delete-all as deletes fail, and each survivor stands behind those of lower index |
| EntryStore.FirstFailureExactly | src/access/AccessControl.h:616-624 | The failure reported is that of the highest index whose delete fails |
| EntryStore.DeleteAllExactly | src/access/AccessControl.h:607-626 | A delete-all leaves the survivors of its fabric and all of the others, or does nothing if the entries cannot be counted |
| EntryStore.RemovalsReplay | src/access/AccessControl.h:607-626 | The removal notices of a delete-all, in the order sent, turn the original lists into the lists left |
| EntryStore.DeleteAllSuccess | src/access/AccessControl.h:611-625 | A successful delete-all leaves the fabric empty exactly when its entries could be counted or there were none: a failing count is reported as success |
| EntryStore.FailingCountLooksLikeSuccess | src/access/AccessControl.h:611-625 | A fabric with one entry whose count fails: success is reported, and the entry is still there |
| AccessControlList.AccessControl.CreateEntry | src/access/AccessControl.cpp:247-271 | Each error exit, the new entry at the index reported, and one notice to every listener; mirroring listeners keep mirroring |
| AccessControlList.AccessControl.UpdateEntry | src/access/AccessControl.cpp:273-281 | Validation, the delegate's failure or the replaced entry, which goes under its own fabric, and one notice to every listener; mirroring listeners keep mirroring exactly unless the entry is carried over to another fabric |
| AccessControlList.AccessControl.DeleteEntry | src/access/AccessControl.cpp:283-303 | The delegate's failure or the dropped entry, and one notice with the latest value if it was read and kept; mirroring listeners keep mirroring |
| AccessControlList.AccessControl.DeleteAllEntriesForFabric | src/access/AccessControl.h:607-626 | Each original entry is addressed exactly once, last to first; the survivors are those whose delete failed, in order; other fabrics are untouched; the result is the first failure |
| AccessControlList.CreateExactly | src/access/AccessControl.cpp:247-271 | The first obstacle is reported and nothing happens; without one the entry is added behind those of its own fabric, announced with its index there, and no other list changes |
| AccessControlList.UpdateExactly | src/access/AccessControl.cpp:273-281 | The first obstacle is reported and nothing happens; without one the entry at the index is replaced, or leaves for the new entry's fabric, one notice is sent, and no other list changes |
| EntryStore.DeleteExactly | src/access/AccessControl.cpp:283-303 | A missing entry or failing delegate is reported and nothing happens; otherwise the entry at the index is dropped and announced, with its last value exactly if there were listeners, it could be read and its handle outlived the delete |
| AccessControlList.StepReplays | src/access/AccessControl.cpp:247-303 | The notices of one operation, failing ones included, turn the store before it into the store after it, exactly unless it is an update, carried out, by an entry of another fabric |
| AccessControlList.RunReplays | src/access/AccessControl.cpp:247-303 | Over every run of create, update, delete and delete-all in which no update that is carried out is given an entry of another fabric, a listener that mirrors each notice holds exactly every fabric's entries |
| AccessControlList.RunReplaysExactly | src/access/AccessControl.cpp:247-303 | And only over those: the listener is right after every operation of a run exactly if no update of the run is so |
| AccessControlList.RunKeepsInvariants | src/access/AccessControl.cpp:252-281 | In every state any run reaches, all stored entries are valid and stored under their own fabric |
| AccessControlList.StepKeepsQuotaExactly | src/access/AccessControl.cpp:247-281 | One operation keeps the quota exactly if a create, or an update by an entry of another fabric, that is carried out finds room in the list of the entry's own fabric |
| AccessControlList.RunKeepsQuotaExactly | src/access/AccessControl.cpp:247-303 | No fabric exceeds its quota after any operation of a run exactly if each operation finds room so |
| AccessControlList.MatchedRun | src/access/AccessControl.cpp:247-303 | When each create and update is given an entry of the fabric it is called for, every state of the run is within the quota and a mirroring listener is right after every operation |
| AccessControlList.CreateKeepsQuotaExactly | src/access/AccessControl.cpp:252-262 | A create that the delegate carries out keeps the quota exactly when the guard stops it or the fabric named by the entry itself has room |
| AccessControlList.MismatchedCreateBreaksQuota | src/access/AccessControl.cpp:252-262 | A create for one fabric of an entry of another, full fabric takes that fabric over its quota |
| AccessControlList.ReachableDecision | src/access/AccessControl.cpp:392-553 | In every state a run reaches, the decision is never an internal error and allows exactly on PASE or a granting entry of the fabric |
| AccessRestrictions.DoCheck | src/access/AccessRestrictionProvider.cpp:146-232 | The nested scan reports a restriction exactly when some entry for the path holds one that forbids this kind of request for this id, after the early exits |
| AccessRestrictions.RestrictedExactly | src/access/AccessRestrictionProvider.cpp:146-232 | A request is restricted exactly if its path is one of three clusters off endpoint 0, and a restriction listed for the path names its id or any and is for its kind: invokes, event reads, or writes or all accesses of attributes that are not global |
| AccessRestrictions.UnrestrictedResults | src/access/AccessRestrictionProvider.cpp:149-176 | When a request is refused as malformed instead |
| AccessRestrictions.OneTypeExactly | src/access/AccessRestrictionProvider.cpp:196-226 | Type by type, for lists of one type: which requests the restrictions restrict |
| AccessRestrictions.RestrictedByOneType | src/access/AccessRestrictionProvider.cpp:178-229 | A list restricts exactly if the part of it of some one type does |
| AccessRestrictions.NeverAccessDenied | src/access/AccessRestrictionProvider.h:190-192 | No check yields the status that the header names for a restricted request |
| AccessRestrictions.OnlyTheSetOfRestrictionsMatters | src/access/AccessRestrictionProvider.cpp:178-229 | A list that holds all restrictions of another, however arranged, restricts whatever the other does and allows nothing the other does not |
| AccessRestrictions.OrderDoesNotMatter | src/access/AccessRestrictionProvider.cpp:178-229 | Permuting the entries does not change any result |
| AccessRestrictions.OrderWithinEntryDoesNotMatter | src/access/AccessRestrictionProvider.cpp:185-228 | Permuting the restrictions of an entry does not change any result |
| AccessRestrictions.RestrictedReadRestrictsWrite | src/access/AccessRestrictionProvider.cpp:196-214 | A restricted attribute read means the write is restricted, and global attributes are never restricted |
| AccessRestrictions.EarlyExitAgreesExactly | src/access/AccessRestrictionProvider.cpp:149-176 | Over restrictable entries the early exit agrees with the full check exactly for restrictable paths and for requests of a known type that name an id or read events |
| AccessRestrictions.ReachableIsWellFormed | src/access/AccessRestrictionProvider.cpp:74-133 | In every state the provider reaches all stored restrictions name restrictable paths and a fabric's entries carry its index |
| AccessRestrictions.SetFabricExactly | src/access/AccessRestrictionProvider.cpp:95-120 | Setting a fabric's list is accepted exactly for entries on the three clusters off endpoint 0; then that list alone changes, to these entries with the fabric's index, and is announced |
| AccessRestrictions.SetCommissioningExactly | src/access/AccessRestrictionProvider.cpp:74-93 | Likewise for the commissioning list, which is stored as it is |
| AccessRestrictions.ReachableEarlyExitAgrees | src/access/AccessRestrictionProvider.cpp:146-153 | In every state the provider reaches the early exit is invisible for requests of a known type with an id |
| AccessRestrictions.AccessRestrictionProvider.SetCommissioningEntries | src/access/AccessRestrictionProvider.cpp:74-93 | A list with an entry that may not be restricted changes nothing and notifies nobody; any other is stored and announced once to every listener |
| AccessRestrictions.AccessRestrictionProvider.SetEntries | src/access/AccessRestrictionProvider.cpp:95-120 | As above for a fabric, whose index is written into the stored entries |
| AccessRestrictions.AccessRestrictionProvider.CheckForCommissioning | src/access/AccessRestrictionProvider.cpp:135-139 | The result over the commissioning entries; nothing changes |
| AccessRestrictions.AccessRestrictionProvider.Check | src/access/AccessRestrictionProvider.cpp:141-144 | The result over the subject's fabric; no fabric's restrictions change, but a missing list becomes an empty one, which GetEntries shows for exactly that fabric |
| AccessRestrictions.CheckLeavesAnEmptyList | src/access/AccessRestrictionProvider.cpp:141-144 | A check for a fabric without a list: not found before, an empty list after |
| AccessCheck.CheckARL | src/access/AccessControl.cpp:556-586 | Unknown request types are refused, no provider allows, the commissioning list decides for commissioning and the list of the subject's fabric otherwise; restrictions are unchanged |
| AccessCheck.Check | src/access/AccessControl.cpp:359-390 | The composed check with its fallback and error exits; restrictions are unchanged |
| AccessCheck.FallbackExactly | src/access/AccessControl.cpp:359-390 | When the check refuses outright, and when a failing group data provider or the auxiliary delegate decides instead of the two lists: for a group's Operate command that these do not allow |
| AccessCheck.OtherListsDoNotMatter | src/access/AccessControl.cpp:569-576 | No verdict changes with what is set for commissioning or another fabric if the subject is operational, or with what is set for any fabric if it is commissioning |
| AccessCheck.FabricListApplies | src/access/AccessControl.cpp:574-576 | Right after its fabric's list is set, an operational request gets what that list says |
| AccessCheck.CommissioningListApplies | src/access/AccessControl.cpp:569-572 | Right after the commissioning list is set, a commissioning request gets what that list says |
| AccessCheck.SetThenRestricted | src/access/AccessControl.cpp:556-586 | Once its list is set, a request that the access control list allows is restricted exactly if one of the entries set names it for its kind |
| AccessCheck.ReachableAllowsExactly | src/access/AccessControl.cpp:359-390 | In every state of the entries that a run reaches and of the restrictions that actions reach, with a deferring delegate, a check of a valid privilege allows exactly when the session is PASE or a stored entry of the fabric grants it and no listed restriction forbids it, or for a group's Operate command whose group has an auxiliary list and whose auxiliary delegate allows |
| AccessCheck.ReachableArlExactly | src/access/AccessControl.cpp:556-586 | Over restrictions that actions reach, the restriction check allows exactly the requests of a known type that no listed restriction forbids, and those without an id that read events or whose path cannot be restricted |
| AccessCheck.RestrictionsOnlyNarrow | src/access/AccessControl.cpp:365-387 | Adding restrictions, a provider or restriction support never allows a request that was not allowed, the group fallback included |
| AccessCheck.ReachableGroupNeverAdministers | src/access/AccessControl.cpp:359-390 | In no state a run reaches, whatever restrictions, groups and auxiliary delegate say, does the check grant Administer to a group-authenticated subject |
| EntryOwnership.EffectKeepsBalance | src/access/AccessControl.h:117-133 | Each move, set, reset or destruction keeps delegates exclusive and releases matched with hand-outs |
| EntryOwnership.MoveExactly | src/access/AccessControl.h:117-133 | What each move leaves the entries named with, what it hands out and what it releases; no other entry is affected |
| EntryOwnership.LastMoveDecides | src/access/AccessControl.h:117-133 | Over runs, the last move naming an entry decides what it holds: the default delegate if it was constructed, reset or moved from, the one handed to it, or what the entry moved from held |
| EntryOwnership.RunBalances | src/access/AccessControl.h:117-133 | Over every run in which a delegate is handed out only while no other entry holds it, no two live entries share a delegate, and once all entries are gone every delegate was released as often as handed out |
| EntryOwnership.HandedOnceIsDisciplined | src/access/AccessControl.h:229-239 | Handing every delegate out at most once is such a run |
| EntryOwnership.ReleasedExactlyOnce | src/access/AccessControl.h:117-133 | If each delegate is handed out at most once, by the time all entries are destroyed each one handed out has been released exactly once and no other at all |
| EntryOwnership.Entry.MoveFrom | src/access/AccessControl.h:117-117 | The new entry has the other's delegate and the other the default one; nothing is released |
| EntryOwnership.Entry.MoveAssign | src/access/AccessControl.h:119-128 | The entry has the other's delegate, the other the default one, and the old delegate has been released once more; assigning an entry to itself does nothing |
| EntryOwnership.Entry.SetDelegate | src/access/AccessControl.h:229-233 | The entry has the new delegate and the old one has been released once more |
| EntryOwnership.Entry.ResetDelegate | src/access/AccessControl.h:235-239 | The entry has the default delegate and the old one has been released once more |
| EntryOwnership.Entry.Destroy | src/access/AccessControl.h:133-133 | The entry is gone and its delegate has been released once more |
| EntryOwnership.Program.ObjectsReleaseExactlyOnce | src/access/AccessControl.h:117-133 | After any sequence of calls on entry objects that hands each delegate out at most once, no two live entries hold the same delegate, and once all are destroyed each delegate handed out was released exactly once and no other at all |
| FlatStorage.ConversionsAreInverse | src/access/examples/ExampleAccessControlDelegate.cpp:427-479 | An absolute index and the index within its fabric determine each other |
| FlatStorage.SlotIsUnique | src/access/examples/ExampleAccessControlDelegate.cpp:454-479 | A fabric's n-th entry has one slot, the one the contracts of update and delete and the runs name |
| FlatStorage.FlatAcl.RelativeToAbsolute | src/access/examples/ExampleAccessControlDelegate.cpp:454-479 | The scan finds the slot of a fabric's n-th entry, or returns one past the array when there is none |
| FlatStorage.FlatAcl.AbsoluteToRelative | src/access/examples/ExampleAccessControlDelegate.cpp:454-479 | The scan finds an entry's number within its fabric, or returns one past the array when the slot is not the fabric's |
| FlatStorage.FlatAcl.GetEntryCount | src/access/examples/ExampleAccessControlDelegate.cpp:994-1009 | The count is the length of the fabric's list |
| FlatStorage.FlatAcl.CreateEntry | src/access/examples/ExampleAccessControlDelegate.cpp:1038-1061 | Fails without effect when the array is full or the entry cannot be copied; otherwise appends to the entry's fabric and reports that fabric and the index in it: the flat array refines one sequence per fabric |
| FlatStorage.FlatAcl.ReadEntry | src/access/examples/ExampleAccessControlDelegate.cpp:1063-1075 | Reads the fabric's n-th entry, or fails |
| FlatStorage.FlatAcl.UpdateEntry | src/access/examples/ExampleAccessControlDelegate.cpp:1077-1084 | Fails without effect when there is no such entry or it cannot be copied; otherwise overwrites the slot of the fabric's n-th entry: this files the new entry under its own fabric, and is the per-fabric update exactly when that is the fabric updated |
| FlatStorage.FlatAcl.DeleteEntry | src/access/examples/ExampleAccessControlDelegate.cpp:1086-1129 | Drops the fabric's n-th entry from that fabric's list only, and moves every iterator back from the slot numbered like n |
| FlatStorage.FlatAcl.Shift | src/access/examples/ExampleAccessControlDelegate.cpp:1096-1112 | The in-place shift drops exactly one slot and keeps the used slots in front |
| FlatStorage.StoringExactly | src/access/examples/ExampleAccessControlDelegate.cpp:1038-1129 | When a create, update or delete fails, with which status, and that nothing changes then |
| FlatStorage.ReplacingExactly | src/access/examples/ExampleAccessControlDelegate.cpp:1077-1112 | A successful update or delete replaces or drops the slot of the fabric's n-th entry |
| FlatStorage.UpdateRefinesExactly | src/access/examples/ExampleAccessControlDelegate.cpp:1077-1084 | Overwriting a slot is the per-fabric update exactly when the new entry belongs to the fabric it is stored for |
| FlatStorage.UpdateRefines | src/access/examples/ExampleAccessControlDelegate.cpp:1077-1084 | Whatever the new entry's fabric, overwriting a slot is the modelled update: an entry of another fabric leaves the list and comes after its fabric's entries in earlier slots |
| FlatStorage.FlatAcl.StartIterator | src/access/examples/ExampleAccessControlDelegate.cpp:847-857 | The iterator has the entries of its fabric, or all, to deliver |
| FlatStorage.FlatAcl.Next | src/access/examples/ExampleAccessControlDelegate.cpp:812-845 | Delivers the first entry still to be delivered and leaves the rest, reports the end exactly when there is none, and passes the entry over when no handle is left |
| FlatStorage.FixupFromSlotIsRight | src/access/examples/ExampleAccessControlDelegate.cpp:866-881 | Moving iterators back from the deleted entry's slot leaves each with what it had to deliver, less the entry deleted |
| FlatStorage.FixupFromRelativeIndexExactly | src/access/examples/ExampleAccessControlDelegate.cpp:1114-1123 | The code uses the index within the fabric instead: an iterator, with or without a filter, is right exactly when it does not stand, on an entry it iterates over, between that slot and the deleted one; otherwise it delivers that entry again |
| FlatStorage.FixupDeliversTwice | src/access/examples/ExampleAccessControlDelegate.cpp:1114-1123 | Three entries of two fabrics for which an iterator delivers one of them twice |
| FlatRuns.RunRefines | src/access/examples/ExampleAccessControlDelegate.cpp:1038-1129 | Every run of create, update, delete and delete-all on the flat array, matched or not, is a run over one sequence per fabric: the array represents the store after it, hence after every operation, and the notices are the same |
| FlatRuns.FlatRunReplaysExactly | src/access/examples/ExampleAccessControlDelegate.cpp:1077-1084 | On this storage a mirroring listener is right after every operation of a run exactly if no update that is carried out is given an entry of another fabric |
| FlatRuns.FlatRunKeepsQuotaExactly | src/access/examples/ExampleAccessControlDelegate.cpp:1038-1084 | On this storage no fabric exceeds its quota after any operation of a run exactly if each create and each such update that is carried out finds room among the entries of its entry's own fabric |
| FlatRuns.FlatMatchedRun | src/access/examples/ExampleAccessControlDelegate.cpp:1038-1129 | When each create and update is given an entry of the fabric it is called for, the array stays within the quota and a mirroring listener right after every operation |
| FlatRuns.MismatchedUpdateBreaksQuotaAndMirrors | src/access/examples/ExampleAccessControlDelegate.cpp:1077-1084 | Two entries of two fabrics under a quota of one: updating the first by an entry of the other's fabric takes that fabric over its quota, and leaves a mirroring listener with an entry the storage does not have |
| TargetCodec.RoundTrip | src/access/examples/ExampleAccessControlDelegate.cpp:216-269 | A storable target reads back with the same flags and values, and its slot does not look empty |
| TargetCodec.EncodeIsInjective | src/access/examples/ExampleAccessControlDelegate.cpp:243-269 | Targets of different meaning are packed differently |
| TargetCodec.StoredWords | src/access/examples/ExampleAccessControlDelegate.cpp:243-269 | The two words that each kind of target is stored as |
| TargetCodec.StorableKinds | src/access/examples/ExampleAccessControlDelegate.cpp:205-214 | Which kinds of target may be stored, for all flag values |
| TargetCodec.ValidTargetsAreStorable | src/access/examples/ExampleAccessControlDelegate.cpp:205-214 | A target that entry validation accepts is storable exactly when it has no flag beyond the three known ones |
| TidyPool.StepKeepsInv | scripts/run-clang-tidy-on-compile-commands.py:336-359 | Each step of the producer or a worker keeps every entry in exactly one place and the counts in step with the results recorded |
| TidyPool.RunKeepsInv | scripts/run-clang-tidy-on-compile-commands.py:336-359 | So does every interleaving |
| TidyPool.CheckedAtMostOnce | scripts/run-clang-tidy-on-compile-commands.py:336-346 | In every interleaving, at every moment, no entry has been checked twice |
| TidyPool.JoinedMeansComplete | scripts/run-clang-tidy-on-compile-commands.py:348-368 | When join has returned, successes and failures have grown by the number of entries, the failed files by exactly the failing paths as a multiset, and the result is true exactly when nothing had failed before and no check failed |
| TidyPool.JoinedFailures | scripts/run-clang-tidy-on-compile-commands.py:348-368 | When join has returned, each path has been added to the failed files as often as an entry with this path fails |
| TidyPool.EveryRunEndsJoined | scripts/run-clang-tidy-on-compile-commands.py:348-359 | No interleaving deadlocks or runs forever: at most five steps an entry and one for the join, and a run that cannot go on has joined |
| CleanRules.ParseInputTargets | scripts/helpers/clean_runnable_targets.py:29-57 | The loop with its block flag computes the line-by-line parse |
| CleanRules.ParseBlock | scripts/helpers/clean_runnable_targets.py:41-57 | Parsing the lines kept of one target's answer recovers its possible rule, or a phony target's inputs, and ends outside a block |
| CleanRules.FilteredPrinted | scripts/helpers/clean_runnable_targets.py:105-109 | The line filter keeps the rule, the explicit inputs and the outputs of an answer, and drops its header and its implicit and order-only inputs |
| CleanRules.ParseQuery | scripts/helpers/clean_runnable_targets.py:97-116 | Parsing the filtered answer to a query recovers every target's rule or inputs, in whatever order the targets are named |
| CleanRules.GetRulesToClean | scripts/helpers/clean_runnable_targets.py:60-132 | On every finite graph, cycles included, the worklist ends; it returns all possible rules if "all" is reached through phony targets, otherwise exactly the possible rules of the targets reached; it exits exactly on an unknown initial target without "all" |
| CleanRules.BlocksExactly | scripts/helpers/clean_runnable_targets.py:45-57 | A rule counts if it is possible and is not the word phony, inputs count if it is |
| CleanRules.ReachedExactly | scripts/helpers/clean_runnable_targets.py:71-132 | The targets reached are those at the end of a way of inputs of targets whose rule is the word phony |
| CleanRules.AnswerWords | scripts/helpers/clean_runnable_targets.py:97-116 | The answer to a query, word for word |
| CleanRules.StripExactly | scripts/helpers/clean_runnable_targets.py:43-43 | Stripping takes the white space off both ends and nothing else |
| GnDependencies.GetObjectSourceDependencies | scripts/examples/gn_to_cmakelists.py:203-212 | Ends without a visited set on every graph without a cycle among targets looked behind, and adds exactly the source sets reached through targets that do not absorb objects |
| GnDependencies.GetObjectLibraryDependencies | scripts/examples/gn_to_cmakelists.py:214-222 | Likewise through source sets only |
| GnDependencies.SourcesExactly | scripts/examples/gn_to_cmakelists.py:203-212 | The sources collected are the source sets at the end of a way of dependencies past no executable, loadable module, shared or static library |
| GnDependencies.LibrariesExactly | scripts/examples/gn_to_cmakelists.py:214-222 | The libraries collected are the source sets at the end of a way past source sets only |
| GnDependencies.PlainAcyclicIsEnough | scripts/examples/gn_to_cmakelists.py:203-222 | Every acyclic target graph is such a graph |
| GnDependencies.LibrariesAreAmongSources | scripts/examples/gn_to_cmakelists.py:203-222 | The second result is contained in the first |
| NameSplit.MatchBracket | scripts/tools/file_size_from_nm.py:258-269 | The bracket loop stays in range and stops right after the bracket that matches the first, or at the end if there is none |
| NameSplit.SplitNamespaces | scripts/tools/file_size_from_nm.py:253-277 | The pieces, cut off as long as a separator is left anywhere: each ends at the first separator outside brackets or right after the first brackets that close, an unclosed bracket takes all that is left, and a separator met by a cut is dropped; hence no character is lost, no separator remains at the end, every cut but the last is outside brackets, and a piece is empty exactly if the name starts with a separator or has two in a row outside brackets |
| NameSplit.SplitIsUnique | scripts/tools/file_size_from_nm.py:253-278 | A name has only one such split |
| NameWords.WordFirst | scripts/tools/file_size_from_nm.py:273-276 | A word in front of a separator is the first piece |
| NameWords.TemplateFirst | scripts/tools/file_size_from_nm.py:255-272 | A word with template arguments in front of a separator is the first piece, whatever separators the arguments have |
| NameSplit.SplitType | scripts/tools/file_size_from_nm.py:209-227 | The prefix ends with the first space outside brackets, unless a parenthesis outside brackets comes first; nothing is lost |
| NameWords.TypesAreWords | scripts/tools/file_size_from_nm.py:209-227 | A word and a space in front are set aside, a word and a parenthesis are not |
| NameSplit.SplitArguments | scripts/tools/file_size_from_nm.py:230-244 | The suffix starts with the first parenthesis outside brackets; nothing is lost |
| NameWords.ArgumentsFollowWords | scripts/tools/file_size_from_nm.py:230-244 | What follows a word from a parenthesis on is set aside |
| NameSplit.TreePath | scripts/tools/file_size_from_nm.py:204-278 | The path is the namespaces of what lies between the type and the arguments, split as above, then type, last part and arguments as one component |
| NameSplit.PathIsUnique | scripts/tools/file_size_from_nm.py:204-278 | A name has only one such path |
| NameSplit.PathLosesNothing | scripts/tools/file_size_from_nm.py:204-278 | The last component is type, last part and arguments; and type, namespaces with their separators, last part and arguments, put together again, are the whole name |
| NameSplit.LevelIsDepth | scripts/tools/file_size_from_nm.py:258-269 | On nested names, being outside brackets as the split sees it is bracket depth zero |
| NameSplit.DepthExactly | scripts/tools/file_size_from_nm.py:258-269 | Bracket depth is the number of opening brackets less that of closing ones |
| NameWords.CommentedSplitIsNotComputed | scripts/tools/file_size_from_nm.py:246-248 | The path that the comment gives for a templated name is not the one the code computes |
| NameWords.CommentedSplit | scripts/tools/file_size_from_nm.py:246-248 | The split that the code computes for that name, of which there is only one |
| SizeTree.PathIsGoodExactly | scripts/tools/file_size_from_nm.py:253-278 | A path has no empty component but perhaps the last exactly if the part split into namespaces neither starts with a separator nor has two in a row outside brackets; and when the last is empty |
| Treemap.Zoom | scripts/tools/file_size_from_nm.py:438-447 | The loop returns the part of the path below the zoom, and nothing exactly when there is none |
| Treemap.HasStripped | scripts/tools/file_size_from_nm.py:449-456 | True exactly when some component is the one to strip |
| Treemap.ZoomExactly | scripts/tools/file_size_from_nm.py:438-447 | Zooming to a path keeps what lies below it, with the zoom written with or without a separator in front |
| Treemap.KeptExactly | scripts/tools/file_size_from_nm.py:438-456 | A symbol is kept whole without a zoom, with one as far as it lies below |
| Treemap.AddPrefix | scripts/tools/file_size_from_nm.py:461-477 | One round adds the row of a prefix if its key is new, under its parent, and the size to its total |
| Treemap.BuildTreemap | scripts/tools/file_size_from_nm.py:432-486 | Every row's parent is the root or an earlier row's id, every key of an inner path has exactly one row, that of the first inner path with this key, under the path less its last component, its total is the sum of the sizes of the kept symbols below the key, and every kept symbol has one leaf with its name and size under its path, in order |
| TreemapPaths.OneRowPerPathExactly | scripts/tools/file_size_from_nm.py:458-477 | There are as many inner rows as inner paths exactly if different inner paths have different keys |
| TreemapPaths.TotalOfPathExactly | scripts/tools/file_size_from_nm.py:476-476 | A path's total is the sum of the sizes of the kept symbols that have it as a proper prefix exactly if no symbol of any size lies below another path with the same key instead |
| TreemapPaths.RowOfPath | scripts/tools/file_size_from_nm.py:461-477 | When different inner paths have different keys, each has exactly one row, under the row of the path less its last component, and the total of the symbols that have it as a proper prefix |
| TreemapPaths.RowWords | scripts/tools/file_size_from_nm.py:461-475 | Key, id, parent and short name of an inner path's row, word for word |
| TreemapPaths.LeafWords | scripts/tools/file_size_from_nm.py:480-486 | Id, parent, size and short name of each kept symbol's leaf, word for word |
| TreemapPaths.TotalsFlow | scripts/tools/file_size_from_nm.py:458-486 | Then the total of every inner path, and of the whole tree, is the sum of the totals of the inner rows and the sizes of the leaves right under it |
| TreeKeys.DifferentPathsOneKey | scripts/tools/file_size_from_nm.py:461-477 | Two symbols, one of a name that the Ember patterns match and one of a name split into namespaces, whose different inner paths have the same key: one total for both |
| TreeKeys.PrefixFreeKeysDistinguish | scripts/tools/file_size_from_nm.py:461-466 | Different inner paths have different keys if no inner component with a separator behind it begins another one with a separator behind it |
| TreeKeys.OneCharacterSeparator | scripts/tools/file_size_from_nm.py:739-739 | For a separator of one character it is enough that no inner component contains it |
| TreeKeys.LongerSeparator | scripts/tools/file_size_from_nm.py:461-466 | For a longer separator that is not enough |
| SizeTree.InnerAreNamespaces | scripts/tools/file_size_from_nm.py:253-278 | The inner components of the path of every name, closed or not, have no separator outside brackets, even one that begins at their end, and only the last may leave a bracket open |
| SizeTree.SplitKeysDistinguish | scripts/tools/file_size_from_nm.py:432-477 | With such paths, different inner paths have different keys, whatever is zoomed to or stripped |
| SizeTree.SplitTreeIsRight | scripts/tools/file_size_from_nm.py:432-486 | So the tree of the paths of any names has as many rows as inner paths, each with the total of the symbols that have the path as a proper prefix, which is the sum of what is right under it |
| SizeDiff.ComputeDelta | scripts/tools/binary_elf_size_diff.py:412-438 | One line with the right kind and sizes for each symbol that differs; the lines sum to the total, which is the difference of the two totals, which are the sums over all symbols, in whatever order these come |
| SizeDiff.LineExactly | scripts/tools/binary_elf_size_diff.py:412-436 | A symbol in both is changed unless the sizes agree, one only in the first is added, one only in the second removed, with both sizes and their difference |
| SizeDiff.SankeyData.AddTowards | scripts/tools/binary_elf_size_diff.py:150-162 | Adds to the rule's node for the destination, or makes it, and returns its index |
| SizeDiff.FirstMatch | scripts/tools/binary_elf_size_diff.py:314-320 | The rule found matches and no earlier one does |
| SizeDiff.CountsForFirst | scripts/tools/binary_elf_size_diff.py:300-320 | An entry counts for a rule exactly if the rule matches it and no earlier one does, towards INCREASE if it grows and towards DECREASE otherwise, with the size of its change |
| SizeDiff.SankeyData.AddEntry | scripts/tools/binary_elf_size_diff.py:300-325 | An entry goes, with its volume, to the node of the first rule that matches it for its side, made if there is none, or straight to the side if no rule matches; nothing else changes |
| SizeDiff.EnteredKeeps | scripts/tools/binary_elf_size_diff.py:300-325 | Each entry keeps the flow balanced: what has reached a destination and what the groups hold for it is all that was sent its way, and each group has taken in what it holds |
| SizeDiff.SankeyData.AddLinks | scripts/tools/binary_elf_size_diff.py:164-166 | Linking a rule's nodes makes each send on what it took in |
| SizeDiff.SankeyData.Build | scripts/tools/binary_elf_size_diff.py:297-329 | Every group's outflow equals its inflow, which is what the entries it is first to match send to that side; INCREASE receives all growth, DECREASE all shrinking, and their difference is the sum of the deltas |

## Left out

- Logging, `Dump` and string formatting: they do not affect decisions.
- The unscoped create, update and delete overloads: they bypass the quota and the notifications.
- Listeners that change the listener list, or the entries, inside a callback.
- `Init`, `Finish` and the registration of the group auxiliary delegate: a flag and a nullable
  pointer, which appear as inputs of the operations.
- The pools behind the example storage's handles: the model stores entry values; how outstanding
  entry handles are moved to a pool or reset on deletion is not captured, only iterators are.
- Copying an entry through its getters in the example storage: entries are copied as values, and a copy
  that fails is an input.
- Review requests of the restriction provider: a counter and a call into the platform.
- The worker threads' `TidyState` object: its three fields are part of the pool's state, and each
  update under the lock is one atomic step; a worker thread that dies is not modelled.
- Running ninja: a query either names an unknown target or prints the documented answer.
- CMake text emission, and target types other than the ones the dependency recursion tells apart.
- Demangling, the Ember names and patterns, the "C" and "ot" groups of short paths, the stripping of
  `vtable for ` and `non-virtual thunk to `, and the substitution of `(anonymous namespace)` by
  `ANONYMOUS_NAMESPACE` and back around the split.
- Hover texts, displayed names, colours and plotting of the treemap and the flow diagram.
- `name_transform`, truncation, sorting and printing of the size difference; regular expressions are
  functions from rule and name to a truth value.
- Every other script, example application and SDK component of the repository.
