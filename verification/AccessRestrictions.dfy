/** The access restriction provider: restrictions per fabric and for commissioning, validated when
    they are set and scanned when a request is checked. */
module AccessRestrictions {
  import opened AccessTypes
  import opened ListenerList
  import opened Options

  datatype RestrictionType = AttributeAccessForbidden | AttributeWriteForbidden | CommandForbidden | EventForbidden

  /** A missing id restricts every attribute, command or event. */
  datatype Restriction = Restriction(restrictionType: RestrictionType, id: Option<nat>)

  datatype ArlEntry = ArlEntry(
    fabricIndex: FabricIndex,
    endpointNumber: EndpointId,
    clusterId: ClusterId,
    restrictions: seq<Restriction>)

  const WIFI_NETWORK_MANAGEMENT: ClusterId := 0x451
  const THREAD_BORDER_ROUTER_MANAGEMENT: ClusterId := 0x452
  const THREAD_NETWORK_DIRECTORY: ClusterId := 0x453

  /** Restrictions may only name the network management clusters, and never on the root endpoint. */
  predicate AreRestrictionsAllowed(endpoint: EndpointId, cluster: ClusterId) {
    endpoint != ROOT_ENDPOINT &&
    (cluster == WIFI_NETWORK_MANAGEMENT || cluster == THREAD_BORDER_ROUTER_MANAGEMENT ||
     cluster == THREAD_NETWORK_DIRECTORY)
  }

  // ----- What is restricted -----

  /** Does a restriction forbid this kind of request for this attribute, command or event? */
  predicate Forbids(r: Restriction, kind: RequestType, id: nat) {
    (r.id == None || r.id == Some(id)) &&
    match r.restrictionType
    case AttributeAccessForbidden => (kind == AttributeRead || kind == AttributeWrite) && !IsGlobalAttribute(id)
    case AttributeWriteForbidden => kind == AttributeWrite && !IsGlobalAttribute(id)
    case CommandForbidden => kind == CommandInvoke
    case EventForbidden => kind == EventRead
  }

  predicate EntryForbids(e: ArlEntry, path: RequestPath)
    requires path.entityId.Some?
  {
    e.endpointNumber == path.endpoint && e.clusterId == path.cluster &&
    exists r :: r in e.restrictions && Forbids(r, path.requestType, path.entityId.value)
  }

  predicate Restricted(entries: seq<ArlEntry>, path: RequestPath)
    requires path.entityId.Some?
  {
    exists e :: e in entries && EntryForbids(e, path)
  }

  /** The check of every path, without the early exit for paths that no restriction may name. */
  function FullCheck(entries: seq<ArlEntry>, path: RequestPath): Status {
    if path.requestType == UnknownRequest then InvalidArgument
    else if path.entityId.None? then if path.requestType == EventRead then NoError else InvalidArgument
    else if Restricted(entries, path) then RestrictedByArl
    else NoError
  }

  function CheckResult(entries: seq<ArlEntry>, path: RequestPath): Status {
    if !AreRestrictionsAllowed(path.endpoint, path.cluster) then NoError else FullCheck(entries, path)
  }

  method DoCheck(entries: seq<ArlEntry>, path: RequestPath) returns (status: Status)
    ensures status == CheckResult(entries, path)
  {
    if !AreRestrictionsAllowed(path.endpoint, path.cluster) {
      return NoError;
    }
    if path.requestType == UnknownRequest {
      return InvalidArgument;
    }
    if path.entityId.None? {
      if path.requestType == EventRead {
        return NoError;
      } else {
        return InvalidArgument;
      }
    }
    var id := path.entityId.value;
    for i := 0 to |entries|
      invariant forall j :: 0 <= j < i ==> !EntryForbids(entries[j], path)
    {
      var entry := entries[i];
      if entry.endpointNumber != path.endpoint || entry.clusterId != path.cluster {
        continue;
      }
      for k := 0 to |entry.restrictions|
        invariant forall j :: 0 <= j < k ==> !Forbids(entry.restrictions[j], path.requestType, id)
      {
        var restriction := entry.restrictions[k];
        assert restriction in entry.restrictions && entry in entries;
        var idMatch := restriction.id.None? || restriction.id.value == id;
        if !idMatch {
          continue;
        }
        match restriction.restrictionType {
          case AttributeAccessForbidden =>
            if path.requestType == AttributeRead || path.requestType == AttributeWrite {
              if !IsGlobalAttribute(id) {
                return RestrictedByArl;
              }
            }
          case AttributeWriteForbidden =>
            if path.requestType == AttributeWrite {
              if !IsGlobalAttribute(id) {
                return RestrictedByArl;
              }
            }
          case CommandForbidden =>
            if path.requestType == CommandInvoke {
              return RestrictedByArl;
            }
          case EventForbidden =>
            if path.requestType == EventRead {
              return RestrictedByArl;
            }
        }
      }
    }
    return NoError;
  }

  /** This restriction is listed for the path, and names its attribute, command or event, or any. */
  ghost predicate Names(entries: seq<ArlEntry>, path: RequestPath, i: nat, k: nat) {
    i < |entries| && k < |entries[i].restrictions| &&
    entries[i].endpointNumber == path.endpoint && entries[i].clusterId == path.cluster &&
    (entries[i].restrictions[k].id == None || entries[i].restrictions[k].id == path.entityId)
  }

  /** What a type of restriction is for: commands for invokes, events for event reads, and for attributes that
      are not global, writes, or reads as well. */
  ghost predicate IsFor(t: RestrictionType, kind: RequestType, id: nat) {
    if kind == CommandInvoke then t == CommandForbidden
    else if kind == EventRead then t == EventForbidden
    else !(0xF000 <= id < 0xFFFF) &&
         if kind == AttributeWrite then t == AttributeWriteForbidden || t == AttributeAccessForbidden
         else kind == AttributeRead && t == AttributeAccessForbidden
  }

  ghost predicate NamesOne(entries: seq<ArlEntry>, path: RequestPath, t: RestrictionType) {
    exists i: nat, k: nat :: Names(entries, path, i, k) && entries[i].restrictions[k].restrictionType == t
  }

  lemma ForbidsOne(entries: seq<ArlEntry>, path: RequestPath)
    requires path.entityId.Some?
    ensures Restricted(entries, path) <==>
            exists t :: NamesOne(entries, path, t) && IsFor(t, path.requestType, path.entityId.value)
  {
    var id := path.entityId.value;
    if Restricted(entries, path) {
      var e :| e in entries && EntryForbids(e, path);
      var r :| r in e.restrictions && Forbids(r, path.requestType, id);
      var i: nat :| i < |entries| && entries[i] == e;
      var k: nat :| k < |e.restrictions| && e.restrictions[k] == r;
      assert Names(entries, path, i, k);
      assert NamesOne(entries, path, r.restrictionType);
    }
    if t :| NamesOne(entries, path, t) && IsFor(t, path.requestType, id) {
      var i: nat, k: nat :| Names(entries, path, i, k) && entries[i].restrictions[k].restrictionType == t;
      assert entries[i] in entries && entries[i].restrictions[k] in entries[i].restrictions;
      assert EntryForbids(entries[i], path);
    }
  }

  /** A check restricts exactly if, for one of the network management clusters off the root endpoint and a
      request of a known type with an id, a restriction is listed that names it and is for this kind. */
  lemma RestrictedExactly(entries: seq<ArlEntry>, path: RequestPath)
    ensures CheckResult(entries, path) == RestrictedByArl <==>
            path.endpoint > 0 && path.cluster in {0x451, 0x452, 0x453} && path.entityId.Some? &&
            path.requestType != UnknownRequest &&
            exists t :: NamesOne(entries, path, t) && IsFor(t, path.requestType, path.entityId.value)
  {
    if path.entityId.Some? {
      ForbidsOne(entries, path);
    }
  }

  /** And the other results: a request of an unknown type, or one that should name an id and does not, is
      refused on those paths; everything else passes. */
  lemma UnrestrictedResults(entries: seq<ArlEntry>, path: RequestPath)
    ensures CheckResult(entries, path) == InvalidArgument <==>
            path.endpoint > 0 && path.cluster in {0x451, 0x452, 0x453} &&
            (path.requestType == UnknownRequest || (path.entityId.None? && path.requestType != EventRead))
    ensures CheckResult(entries, path) in {NoError, InvalidArgument, RestrictedByArl}
  {
  }

  /** For lists whose restrictions on the path are all of one type: restricted exactly if one names the request
      and the request is of the kind that the type is for. */
  lemma OneTypeExactly(entries: seq<ArlEntry>, path: RequestPath, t: RestrictionType)
    requires path.endpoint > 0 && path.cluster in {0x451, 0x452, 0x453} && path.entityId.Some?
    requires forall i: nat, k: nat :: Names(entries, path, i, k) ==> entries[i].restrictions[k].restrictionType == t
    ensures CheckResult(entries, path) == RestrictedByArl <==>
            (exists i: nat, k: nat :: Names(entries, path, i, k)) &&
            match t
            case CommandForbidden => path.requestType == CommandInvoke
            case EventForbidden => path.requestType == EventRead
            case AttributeWriteForbidden =>
              path.requestType == AttributeWrite && !(0xF000 <= path.entityId.value < 0xFFFF)
            case AttributeAccessForbidden =>
              path.requestType in {AttributeRead, AttributeWrite} && !(0xF000 <= path.entityId.value < 0xFFFF)
  {
    RestrictedExactly(entries, path);
    if i: nat, k: nat :| Names(entries, path, i, k) {
      assert NamesOne(entries, path, t);
    }
  }

  /** The restrictions of one type. */
  function OfType(entries: seq<ArlEntry>, t: RestrictionType): (part: seq<ArlEntry>)
    ensures |part| == |entries|
    ensures forall i :: 0 <= i < |part| ==>
              part[i] == entries[i].(restrictions := OnlyType(entries[i].restrictions, t))
  {
    seq(|entries|, i requires 0 <= i < |entries| => entries[i].(restrictions := OnlyType(entries[i].restrictions, t)))
  }

  function OnlyType(rs: seq<Restriction>, t: RestrictionType): (part: seq<Restriction>)
    ensures forall r :: r in part <==> r in rs && r.restrictionType == t
  {
    if rs == [] then []
    else
      var n := |rs| - 1;
      assert rs == rs[..n] + [rs[n]];
      OnlyType(rs[..n], t) + if rs[n].restrictionType == t then [rs[n]] else []
  }

  lemma NamesInPart(entries: seq<ArlEntry>, path: RequestPath, t: RestrictionType, t': RestrictionType)
    ensures NamesOne(OfType(entries, t), path, t') <==> t == t' && NamesOne(entries, path, t)
  {
    var part := OfType(entries, t);
    if NamesOne(part, path, t') {
      var i: nat, k: nat :| Names(part, path, i, k) && part[i].restrictions[k].restrictionType == t';
      var r := part[i].restrictions[k];
      assert r in part[i].restrictions;
      var m: nat :| m < |entries[i].restrictions| && entries[i].restrictions[m] == r;
      assert Names(entries, path, i, m);
    }
    if NamesOne(entries, path, t) {
      var i: nat, k: nat :| Names(entries, path, i, k) && entries[i].restrictions[k].restrictionType == t;
      var r := entries[i].restrictions[k];
      assert r in entries[i].restrictions && r in part[i].restrictions;
      var m: nat :| m < |part[i].restrictions| && part[i].restrictions[m] == r;
      assert Names(part, path, i, m);
    }
  }

  /** A list restricts exactly if the part of it that is of some one type does. */
  lemma RestrictedByOneType(entries: seq<ArlEntry>, path: RequestPath)
    ensures CheckResult(entries, path) == RestrictedByArl <==>
            exists t :: CheckResult(OfType(entries, t), path) == RestrictedByArl
  {
    RestrictedExactly(entries, path);
    forall t
      ensures CheckResult(OfType(entries, t), path) == RestrictedByArl <==>
              path.endpoint > 0 && path.cluster in {0x451, 0x452, 0x453} && path.entityId.Some? &&
              path.requestType != UnknownRequest && NamesOne(entries, path, t) &&
              IsFor(t, path.requestType, path.entityId.value)
    {
      RestrictedExactly(OfType(entries, t), path);
      forall t' {
        NamesInPart(entries, path, t, t');
      }
    }
  }

  /** Whatever the header says, a restricted request is not reported as denied. */
  lemma NeverAccessDenied(entries: seq<ArlEntry>, path: RequestPath)
    ensures CheckResult(entries, path) != AccessDenied
  {
  }

  // ----- Consequences of exactness -----

  /** The same restrictions, listed in another order or split over entries differently, give the same
      result; more restrictions never lift one. */
  lemma OnlyTheSetOfRestrictionsMatters(a: seq<ArlEntry>, b: seq<ArlEntry>, path: RequestPath)
    requires forall e, r :: e in a && r in e.restrictions ==>
      exists e' :: e' in b && e'.endpointNumber == e.endpointNumber && e'.clusterId == e.clusterId &&
        r in e'.restrictions
    ensures CheckResult(b, path) == NoError ==> CheckResult(a, path) == NoError
    ensures CheckResult(a, path) == RestrictedByArl ==> CheckResult(b, path) == RestrictedByArl
  {
    if path.entityId.Some? && Restricted(a, path) {
      var e :| e in a && EntryForbids(e, path);
      var r :| r in e.restrictions && Forbids(r, path.requestType, path.entityId.value);
      var e' :| e' in b && e'.endpointNumber == e.endpointNumber && e'.clusterId == e.clusterId && r in e'.restrictions;
      assert EntryForbids(e', path);
    }
  }

  lemma OrderDoesNotMatter(a: seq<ArlEntry>, b: seq<ArlEntry>, path: RequestPath)
    requires multiset(a) == multiset(b)
    ensures CheckResult(a, path) == CheckResult(b, path)
  {
    assert forall e :: e in a <==> e in multiset(a);
    assert forall e :: e in b <==> e in multiset(b);
  }

  /** The order of the restrictions within an entry does not matter either. */
  lemma OrderWithinEntryDoesNotMatter(entries: seq<ArlEntry>, i: nat, rs: seq<Restriction>, path: RequestPath)
    requires i < |entries| && multiset(rs) == multiset(entries[i].restrictions)
    ensures CheckResult(entries[i := entries[i].(restrictions := rs)], path) == CheckResult(entries, path)
  {
    var changed := entries[i := entries[i].(restrictions := rs)];
    assert forall r :: r in rs <==> r in multiset(rs);
    assert forall r :: r in entries[i].restrictions <==> r in multiset(entries[i].restrictions);
    if path.entityId.Some? {
      forall k | 0 <= k < |entries|
        ensures EntryForbids(changed[k], path) <==> EntryForbids(entries[k], path)
      {
      }
      if Restricted(entries, path) {
        var k :| 0 <= k < |entries| && EntryForbids(entries[k], path);
        assert changed[k] in changed;
      }
      if Restricted(changed, path) {
        var k :| 0 <= k < |changed| && EntryForbids(changed[k], path);
        assert entries[k] in entries;
      }
    }
  }

  /** Whoever may not read an attribute may not write it; global attributes are never restricted. */
  lemma RestrictedReadRestrictsWrite(entries: seq<ArlEntry>, path: RequestPath)
    requires path.requestType == AttributeRead
    ensures CheckResult(entries, path) == RestrictedByArl ==>
            CheckResult(entries, path.(requestType := AttributeWrite)) == RestrictedByArl
    ensures path.entityId.Some? && IsGlobalAttribute(path.entityId.value) ==>
            CheckResult(entries, path) == NoError &&
            CheckResult(entries, path.(requestType := AttributeWrite)) == NoError
  {
    if CheckResult(entries, path) == RestrictedByArl {
      var e :| e in entries && EntryForbids(e, path);
      var r :| r in e.restrictions && Forbids(r, AttributeRead, path.entityId.value);
      assert EntryForbids(e, path.(requestType := AttributeWrite));
    }
  }

  // ----- Provider states -----

  type Lists = map<FabricIndex, seq<ArlEntry>>

  function Listed(fabrics: Lists, fabric: FabricIndex): seq<ArlEntry> {
    if fabric in fabrics then fabrics[fabric] else []
  }

  predicate AllAllowed(entries: seq<ArlEntry>) {
    forall e :: e in entries ==> AreRestrictionsAllowed(e.endpointNumber, e.clusterId)
  }

  /** Every stored restriction names a restrictable path, and a fabric's entries carry its index. */
  ghost predicate WellFormed(commissioning: seq<ArlEntry>, fabrics: Lists) {
    AllAllowed(commissioning) &&
    forall f :: f in fabrics ==> AllAllowed(fabrics[f]) && forall e :: e in fabrics[f] ==> e.fabricIndex == f
  }

  function Stamped(entries: seq<ArlEntry>, fabric: FabricIndex): (r: seq<ArlEntry>)
    ensures |r| == |entries| && forall i :: 0 <= i < |r| ==> r[i] == entries[i].(fabricIndex := fabric)
  {
    seq(|entries|, i requires 0 <= i < |entries| => entries[i].(fabricIndex := fabric))
  }

  /** Exactly when does the early exit agree with the full check, over well-formed entries? For
      restrictable paths, and for those on which the full check finds the request itself in order. */
  lemma EarlyExitAgreesExactly(entries: seq<ArlEntry>, path: RequestPath)
    requires AllAllowed(entries)
    ensures CheckResult(entries, path) == FullCheck(entries, path) <==>
            AreRestrictionsAllowed(path.endpoint, path.cluster) ||
            (path.requestType != UnknownRequest && (path.entityId.Some? || path.requestType == EventRead))
  {
    if path.entityId.Some? && Restricted(entries, path) {
      var e :| e in entries && EntryForbids(e, path);
      assert AreRestrictionsAllowed(e.endpointNumber, e.clusterId);
    }
  }

  datatype ArlChange = CommissioningListChanged | ListChanged(fabric: FabricIndex)

  /** What the provider does; checks are steps too, as they may add an empty list. */
  datatype Action =
    | SetCommissioning(entries: seq<ArlEntry>)
    | SetFabric(fabric: FabricIndex, entries: seq<ArlEntry>)
    | CheckFabric(fabric: FabricIndex)

  datatype State = State(commissioning: seq<ArlEntry>, fabrics: Lists)

  function Next(s: State, a: Action): (State, seq<ArlChange>, Status) {
    match a
    case SetCommissioning(entries) =>
      if AllAllowed(entries) then (s.(commissioning := entries), [CommissioningListChanged], NoError)
      else (s, [], InvalidArgument)
    case SetFabric(f, entries) =>
      if AllAllowed(entries) then (s.(fabrics := s.fabrics[f := Stamped(entries, f)]), [ListChanged(f)], NoError)
      else (s, [], InvalidArgument)
    case CheckFabric(f) => (s.(fabrics := s.fabrics[f := Listed(s.fabrics, f)]), [], NoError)
  }

  function After(s: State, actions: seq<Action>): State
    decreases |actions|
  {
    if actions == [] then s else After(Next(s, actions[0]).0, actions[1..])
  }

  /** Only the network management clusters off the root endpoint. */
  ghost predicate AllRestrictable(entries: seq<ArlEntry>) {
    forall i :: 0 <= i < |entries| ==> entries[i].endpointNumber > 0 && entries[i].clusterId in {0x451, 0x452, 0x453}
  }

  /** Setting a fabric's list is accepted exactly for such entries; then only that fabric's list changes, to these
      entries with the fabric's index, and one change is announced. Otherwise nothing happens. */
  lemma SetFabricExactly(s: State, f: FabricIndex, entries: seq<ArlEntry>, g: FabricIndex)
    ensures var (s', changes, status) := Next(s, SetFabric(f, entries));
            if AllRestrictable(entries) then
              status == NoError && changes == [ListChanged(f)] && s'.commissioning == s.commissioning &&
              |Listed(s'.fabrics, f)| == |entries| &&
              (forall i :: 0 <= i < |entries| ==> Listed(s'.fabrics, f)[i] == entries[i].(fabricIndex := f)) &&
              (g != f ==> Listed(s'.fabrics, g) == Listed(s.fabrics, g))
            else status == InvalidArgument && changes == [] && s' == s
  {
    AllowedExactly(entries);
  }

  /** Likewise for the commissioning list. */
  lemma SetCommissioningExactly(s: State, entries: seq<ArlEntry>)
    ensures var (s', changes, status) := Next(s, SetCommissioning(entries));
            if AllRestrictable(entries) then
              status == NoError && changes == [CommissioningListChanged] && s'.commissioning == entries &&
              s'.fabrics == s.fabrics
            else status == InvalidArgument && changes == [] && s' == s
  {
    AllowedExactly(entries);
  }

  lemma AllowedExactly(entries: seq<ArlEntry>)
    ensures AllAllowed(entries) <==> AllRestrictable(entries)
  {
    if AllAllowed(entries) {
      forall i | 0 <= i < |entries|
        ensures entries[i].endpointNumber > 0 && entries[i].clusterId in {0x451, 0x452, 0x453}
      {
        assert entries[i] in entries;
      }
    }
  }

  /** The index that a list is stored with does not matter for what it restricts. */
  lemma StampDoesNotMatter(entries: seq<ArlEntry>, f: FabricIndex, path: RequestPath)
    ensures CheckResult(Stamped(entries, f), path) == CheckResult(entries, path)
  {
    var stamped := Stamped(entries, f);
    if path.entityId.Some? {
      forall i | 0 <= i < |entries|
        ensures EntryForbids(stamped[i], path) <==> EntryForbids(entries[i], path)
      {
      }
      if Restricted(entries, path) {
        var i :| 0 <= i < |entries| && EntryForbids(entries[i], path);
        assert stamped[i] in stamped;
      }
      if Restricted(stamped, path) {
        var i :| 0 <= i < |stamped| && EntryForbids(stamped[i], path);
        assert entries[i] in entries;
      }
    }
  }

  /** Every state the provider reaches is well-formed. */
  lemma {:induction false} ReachableIsWellFormed(s: State, actions: seq<Action>)
    requires WellFormed(s.commissioning, s.fabrics)
    ensures WellFormed(After(s, actions).commissioning, After(s, actions).fabrics)
    decreases |actions|
  {
    if actions != [] {
      var next := Next(s, actions[0]).0;
      if actions[0].SetFabric? && AllAllowed(actions[0].entries) {
        var f, entries := actions[0].fabric, actions[0].entries;
        forall e | e in Stamped(entries, f)
          ensures e.fabricIndex == f && AreRestrictionsAllowed(e.endpointNumber, e.clusterId)
        {
          var i :| 0 <= i < |entries| && Stamped(entries, f)[i] == e;
          assert entries[i] in entries;
        }
      }
      ReachableIsWellFormed(next, actions[1..]);
    }
  }

  /** In every reachable state the early exit is invisible for requests of a known type that name
      their attribute, command or event. */
  lemma ReachableEarlyExitAgrees(s: State, actions: seq<Action>, fabric: FabricIndex, path: RequestPath)
    requires WellFormed(s.commissioning, s.fabrics)
    requires path.requestType != UnknownRequest && path.entityId.Some?
    ensures var t := After(s, actions);
            CheckResult(Listed(t.fabrics, fabric), path) == FullCheck(Listed(t.fabrics, fabric), path) &&
            CheckResult(t.commissioning, path) == FullCheck(t.commissioning, path)
  {
    var t := After(s, actions);
    ReachableIsWellFormed(s, actions);
    EarlyExitAgreesExactly(Listed(t.fabrics, fabric), path);
    EarlyExitAgreesExactly(t.commissioning, path);
  }

  // ----- The provider -----

  class AccessRestrictionProvider {
    var commissioningEntries: seq<ArlEntry>
    var fabricEntries: Lists
    const listeners: Chain<ArlChange>

    ghost predicate Valid()
      reads this, listeners, listeners.items
    {
      listeners.Valid() && WellFormed(commissioningEntries, fabricEntries)
    }

    ghost function Abstract(): State
      reads this
    {
      State(commissioningEntries, fabricEntries)
    }

    constructor ()
      ensures Valid() && Abstract() == State([], map[]) && listeners.items == [] && fresh(listeners)
    {
      commissioningEntries, fabricEntries := [], map[];
      listeners := new Chain();
    }

    /** Every listener has heard exactly these changes. */
    twostate predicate Heard(changes: seq<ArlChange>)
      reads this, listeners, listeners.items
    {
      listeners.items == old(listeners.items) &&
      forall l :: l in listeners.items ==> l.log == old(l.log) + changes
    }

    method SetCommissioningEntries(entries: seq<ArlEntry>) returns (status: Status)
      requires Valid()
      modifies this`commissioningEntries, listeners.items`log
      ensures Valid()
      ensures (Abstract(), status) == (Next(old(Abstract()), SetCommissioning(entries)).0,
                                       Next(old(Abstract()), SetCommissioning(entries)).2)
      ensures Heard(Next(old(Abstract()), SetCommissioning(entries)).1)
    {
      for i := 0 to |entries|
        invariant forall j :: 0 <= j < i ==> AreRestrictionsAllowed(entries[j].endpointNumber, entries[j].clusterId)
      {
        if !AreRestrictionsAllowed(entries[i].endpointNumber, entries[i].clusterId) {
          return InvalidArgument;
        }
      }
      commissioningEntries := entries;
      var _ := listeners.Notify(CommissioningListChanged);
      return NoError;
    }

    method SetEntries(fabric: FabricIndex, entries: seq<ArlEntry>) returns (status: Status)
      requires Valid()
      modifies this`fabricEntries, listeners.items`log
      ensures Valid()
      ensures (Abstract(), status) == (Next(old(Abstract()), SetFabric(fabric, entries)).0,
                                       Next(old(Abstract()), SetFabric(fabric, entries)).2)
      ensures Heard(Next(old(Abstract()), SetFabric(fabric, entries)).1)
    {
      var updatedEntries := [];
      for i := 0 to |entries|
        invariant forall j :: 0 <= j < i ==> AreRestrictionsAllowed(entries[j].endpointNumber, entries[j].clusterId)
        invariant updatedEntries == Stamped(entries, fabric)[..i]
      {
        if !AreRestrictionsAllowed(entries[i].endpointNumber, entries[i].clusterId) {
          return InvalidArgument;
        }
        updatedEntries := updatedEntries + [entries[i].(fabricIndex := fabric)];
      }
      assert updatedEntries == Stamped(entries, fabric);
      ReachableIsWellFormed(Abstract(), [SetFabric(fabric, entries)]);
      assert [SetFabric(fabric, entries)][1..] == [];
      fabricEntries := fabricEntries[fabric := updatedEntries];
      var _ := listeners.Notify(ListChanged(fabric));
      return NoError;
    }

    method CheckForCommissioning(d: SubjectDescriptor, path: RequestPath) returns (status: Status)
      requires Valid()
      ensures status == CheckResult(commissioningEntries, path)
    {
      status := DoCheck(commissioningEntries, path);
    }

    /** Checks against the subject's fabric. A fabric without a list gets an empty one: no fabric's
        restrictions change, but `GetEntries` stops reporting `NotFound` for exactly that fabric. */
    method Check(d: SubjectDescriptor, path: RequestPath) returns (status: Status)
      requires Valid()
      modifies this`fabricEntries
      ensures Valid()
      ensures Abstract() == Next(old(Abstract()), CheckFabric(d.fabricIndex)).0
      ensures status == CheckResult(Listed(old(fabricEntries), d.fabricIndex), path)
      ensures forall f :: Listed(fabricEntries, f) == Listed(old(fabricEntries), f)
      ensures forall f :: GetEntries(fabricEntries, f) == GetEntries(old(fabricEntries), f) <==>
                          f in old(fabricEntries) || f != d.fabricIndex
    {
      fabricEntries := fabricEntries[d.fabricIndex := Listed(fabricEntries, d.fabricIndex)];
      status := DoCheck(fabricEntries[d.fabricIndex], path);
    }

    /** A fabric's restriction list, if one has been created for it. */
    static function GetEntries(fabrics: Lists, fabric: FabricIndex): Result<seq<ArlEntry>> {
      if fabric in fabrics then Ok(fabrics[fabric]) else Err(NotFound)
    }
  }

  /** A check for fabric 1 of a provider without lists: afterwards the fabric has one, with nothing in it. */
  lemma CheckLeavesAnEmptyList(commissioning: seq<ArlEntry>)
    ensures var before := State(commissioning, map[]);
            var after := Next(before, CheckFabric(1)).0;
            AccessRestrictionProvider.GetEntries(before.fabrics, 1) == Err(NotFound) &&
            AccessRestrictionProvider.GetEntries(after.fabrics, 1) == Ok([])
  {
  }
}
