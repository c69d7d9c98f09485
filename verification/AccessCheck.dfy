/** The whole access check: the access control list, then the access restriction list, then the
    group auxiliary fallback. */
module AccessCheck {
  import opened AccessTypes
  import opened AccessDecision
  import opened AccessRestrictions
  import opened EntryStore
  import opened Options
  import AccessControlList

  /** What the check finds around it: the delegate's own verdict and the entries it delivers, whether
      restrictions are compiled in, the group data provider's answer about the subject's group (`None`
      without a provider, `Ok(true)` for a group with an auxiliary list), and the verdict of the
      registered auxiliary delegate. */
  datatype Surroundings = Surroundings(
    initialized: bool,
    own: Status,
    entries: Result<seq<Handle>>,
    resolver: DeviceTypeResolver,
    compiledIn: bool,
    group: Option<Result<bool>>,
    auxiliary: Option<Status>)

  /** The restrictions that apply to a subject. */
  function ListFor(state: State, d: SubjectDescriptor): seq<ArlEntry> {
    if d.isCommissioning then state.commissioning else Listed(state.fabrics, d.fabricIndex)
  }

  /** The restriction verdict; `None` stands for no provider. */
  function ArlVerdict(provider: Option<State>, d: SubjectDescriptor, path: RequestPath): Status {
    if path.requestType == UnknownRequest then InvalidArgument
    else if provider.None? then NoError
    else CheckResult(ListFor(provider.value, d), path)
  }

  function AclVerdict(env: Surroundings, d: SubjectDescriptor, path: RequestPath, request: Privilege): Status {
    Decide(env.own, env.entries, env.resolver, d, path, request)
  }

  /** The only requests the auxiliary fallback looks at. */
  predicate GroupOperateInvoke(d: SubjectDescriptor, path: RequestPath, request: Privilege) {
    d.authMode == Group && path.requestType == CommandInvoke && request == OPERATE && IsGroupId(d.subject)
  }

  function CheckVerdict(env: Surroundings, provider: Option<State>, d: SubjectDescriptor, path: RequestPath,
                   request: Privilege): Status {
    if !env.initialized then IncorrectState
    else if !IsValidPrivilege(request) then InvalidArgument
    else
      var acl := AclVerdict(env, d, path, request);
      var result := if acl == NoError && env.compiledIn then ArlVerdict(provider, d, path) else acl;
      if result == NoError || !GroupOperateInvoke(d, path, request) || env.group.None? then result
      else if env.group.value.Err? then env.group.value.error
      else if env.group.value.value && env.auxiliary.Some? then env.auxiliary.value
      else result
  }

  // ----- The methods -----

  ghost function StateOf(provider: AccessRestrictionProvider?): Option<State>
    reads provider
  {
    if provider == null then None else Some(provider.Abstract())
  }

  method CheckARL(provider: AccessRestrictionProvider?, d: SubjectDescriptor, path: RequestPath)
    returns (result: Status)
    requires provider != null ==> provider.Valid()
    modifies provider
    ensures provider != null ==> provider.Valid() && provider.commissioningEntries == old(provider.commissioningEntries)
    ensures provider != null ==> forall f :: Listed(provider.fabricEntries, f) == Listed(old(provider.fabricEntries), f)
    ensures result == ArlVerdict(old(StateOf(provider)), d, path)
    ensures path.requestType == UnknownRequest ==> result == InvalidArgument
    ensures path.requestType != UnknownRequest && provider == null ==> result == NoError
    ensures path.requestType != UnknownRequest && provider != null && d.isCommissioning ==>
              result == CheckResult(old(provider.commissioningEntries), path)
    ensures path.requestType != UnknownRequest && provider != null && !d.isCommissioning ==>
              result == CheckResult(Listed(old(provider.fabricEntries), d.fabricIndex), path)
  {
    if path.requestType == UnknownRequest {
      return InvalidArgument;
    }
    if provider == null {
      return NoError;
    }
    if d.isCommissioning {
      result := provider.CheckForCommissioning(d, path);
    } else {
      result := provider.Check(d, path);
    }
  }

  /** A check leaves the provider's restrictions as they are. */
  method Check(env: Surroundings, provider: AccessRestrictionProvider?, d: SubjectDescriptor, path: RequestPath,
               request: Privilege) returns (result: Status)
    requires provider != null ==> provider.Valid()
    modifies provider
    ensures provider != null ==> provider.Valid() && provider.commissioningEntries == old(provider.commissioningEntries)
    ensures provider != null ==> forall f :: Listed(provider.fabricEntries, f) == Listed(old(provider.fabricEntries), f)
    ensures result == CheckVerdict(env, old(StateOf(provider)), d, path, request)
  {
    if !env.initialized {
      return IncorrectState;
    }
    if !IsValidPrivilege(request) {
      return InvalidArgument;
    }
    result := CheckACL(env.own, env.entries, env.resolver, d, path, request);
    if env.compiledIn {
      if result == NoError {
        result := CheckARL(provider, d, path);
      }
    }
    if result != NoError && d.authMode == Group && path.requestType == CommandInvoke && request == OPERATE &&
       IsGroupId(d.subject) {
      if env.group.None? {
        return result;
      }
      if env.group.value.Err? {
        return env.group.value.error;
      }
      if env.group.value.value && env.auxiliary.Some? {
        return env.auxiliary.value;
      }
    }
  }

  // ----- What is allowed -----

  /** With restrictions compiled in, a check of a valid privilege allows exactly when both lists allow,
      or the auxiliary fallback does. */
  lemma AllowsExactly(env: Surroundings, provider: Option<State>, d: SubjectDescriptor, path: RequestPath,
                      request: Privilege)
    requires env.initialized && env.compiledIn && IsValidPrivilege(request)
    ensures CheckVerdict(env, provider, d, path, request) == NoError <==>
            (AclVerdict(env, d, path, request) == NoError && ArlVerdict(provider, d, path) == NoError) ||
            (GroupOperateInvoke(d, path, request) && env.group == Some(Ok(true)) && env.auxiliary == Some(NoError))
  {
  }

  /** No restriction that applies to the subject forbids a request of a known type. A request that names no
      attribute, command or event passes if it reads events or its path cannot be restricted. */
  ghost predicate Unrestricted(provider: Option<State>, d: SubjectDescriptor, path: RequestPath) {
    path.requestType != UnknownRequest &&
    (provider.None? ||
     if path.entityId.Some? then !Restricted(ListFor(provider.value, d), path)
     else path.requestType == EventRead || !AreRestrictionsAllowed(path.endpoint, path.cluster))
  }

  /** Over the restrictions of a provider state that actions reach, the early exit for paths that cannot
      be restricted does not show. */
  lemma ReachableArlExactly(s: State, actions: seq<Action>, d: SubjectDescriptor, path: RequestPath)
    requires WellFormed(s.commissioning, s.fabrics)
    ensures ArlVerdict(Some(After(s, actions)), d, path) == NoError <==> Unrestricted(Some(After(s, actions)), d, path)
  {
    if path.requestType != UnknownRequest && path.entityId.Some? {
      ReachableEarlyExitAgrees(s, actions, d.fabricIndex, path);
    }
  }

  /** In every state of the entries that a run reaches and every state of the restrictions that actions
      reach, with a deferring delegate, a check of a valid privilege allows exactly when the session is
      PASE or a stored entry of the fabric grants it, and no restriction that applies forbids it; or when it
      is a group's Operate command, the group has an auxiliary list, and the auxiliary delegate allows. */
  lemma ReachableAllowsExactly(store: AclStore, quota: nat, ops: seq<AccessControlList.Operation>, s: State,
                               actions: seq<Action>, env: Surroundings, provider: Option<State>,
                               d: SubjectDescriptor, path: RequestPath, request: Privilege)
    requires AccessControlList.StoredValid(store) && WellFormed(s.commissioning, s.fabrics)
    requires env.initialized && env.own == NotImplemented && IsValidPrivilege(request)
    requires env.entries == Ok(HandlesOf(Entries(AccessControlList.Run(store, quota, ops).0, d.fabricIndex)))
    requires provider == None || provider == Some(After(s, actions))
    ensures var list := Entries(AccessControlList.Run(store, quota, ops).0, d.fabricIndex);
            CheckVerdict(env, provider, d, path, request) == NoError <==>
            ((d.authMode == Pase || SomeGrants(list, env.resolver, d, path, request)) &&
             (env.compiledIn ==> Unrestricted(provider, d, path))) ||
            (GroupOperateInvoke(d, path, request) && env.group == Some(Ok(true)) && env.auxiliary == Some(NoError))
  {
    AccessControlList.ReachableDecision(store, quota, ops, env.resolver, d, path, request);
    ReachableArlExactly(s, actions, d, path);
    if env.compiledIn {
      AllowsExactly(env, provider, d, path, request);
    }
  }

  // ----- Which list applies -----

  /** An operational request is not affected by what is set for commissioning or for another fabric, and a
      commissioning request by nothing set for a fabric; a check of any fabric affects neither. */
  lemma OtherListsDoNotMatter(env: Surroundings, s: State, action: Action, d: SubjectDescriptor, path: RequestPath,
                              request: Privilege)
    requires match action
             case SetCommissioning(_) => !d.isCommissioning
             case SetFabric(f, _) => d.isCommissioning || f != d.fabricIndex
             case CheckFabric(_) => true
    ensures CheckVerdict(env, Some(Next(s, action).0), d, path, request) == CheckVerdict(env, Some(s), d, path, request)
  {
  }

  /** Right after its fabric's list is set, what that list forbids is what is forbidden to an operational
      request, whatever was listed before. */
  lemma FabricListApplies(s: State, entries: seq<ArlEntry>, d: SubjectDescriptor, path: RequestPath)
    requires !d.isCommissioning && Next(s, SetFabric(d.fabricIndex, entries)).2 == NoError
    ensures var verdict := ArlVerdict(Some(Next(s, SetFabric(d.fabricIndex, entries)).0), d, path);
            if path.requestType == UnknownRequest then verdict == InvalidArgument
            else verdict == CheckResult(entries, path)
  {
    StampDoesNotMatter(entries, d.fabricIndex, path);
  }

  /** And right after the commissioning list is set, to a commissioning request. */
  lemma CommissioningListApplies(s: State, entries: seq<ArlEntry>, d: SubjectDescriptor, path: RequestPath)
    requires d.isCommissioning && Next(s, SetCommissioning(entries)).2 == NoError
    ensures var verdict := ArlVerdict(Some(Next(s, SetCommissioning(entries)).0), d, path);
            if path.requestType == UnknownRequest then verdict == InvalidArgument
            else verdict == CheckResult(entries, path)
  {
  }

  // ----- Refusals and the fallback -----

  /** What the two lists say together. */
  function ListsVerdict(env: Surroundings, provider: Option<State>, d: SubjectDescriptor, path: RequestPath,
                        request: Privilege): Status {
    if AclVerdict(env, d, path, request) != NoError then AclVerdict(env, d, path, request)
    else if env.compiledIn then ArlVerdict(provider, d, path)
    else NoError
  }

  /** An uninitialised check and one of no privilege are refused. Otherwise the lists decide, except that for a
      group's Operate command that they do not allow, a group data provider that fails decides, and for a group
      with an auxiliary list a registered auxiliary delegate. */
  lemma FallbackExactly(env: Surroundings, provider: Option<State>, d: SubjectDescriptor, path: RequestPath,
                        request: Privilege)
    ensures var lists := ListsVerdict(env, provider, d, path, request);
            CheckVerdict(env, provider, d, path, request) ==
            if !env.initialized then IncorrectState
            else if request !in {1, 2, 4, 8, 16} then InvalidArgument
            else if lists == NoError then NoError
            else if d.authMode == Group && request == 4 && path.requestType == CommandInvoke &&
                    d.subject >= 0xFFFF_FFFF_FFFF_0000
            then match env.group
                 case Some(Err(e)) => e
                 case Some(Ok(true)) => if env.auxiliary.Some? then env.auxiliary.value else lists
                 case _ => lists
            else lists
  {
    ValidPrivileges(request);
  }

  /** Once its list is set, a request that the access control list allows is restricted by the lists
      exactly if one of the entries set names it for its kind. */
  lemma SetThenRestricted(env: Surroundings, s: State, entries: seq<ArlEntry>, d: SubjectDescriptor,
                          path: RequestPath, request: Privilege)
    requires env.compiledIn && AclVerdict(env, d, path, request) == NoError && AllRestrictable(entries)
    ensures var action := if d.isCommissioning then SetCommissioning(entries) else SetFabric(d.fabricIndex, entries);
            ListsVerdict(env, Some(Next(s, action).0), d, path, request) == RestrictedByArl <==>
            path.endpoint > 0 && path.cluster in {0x451, 0x452, 0x453} && path.entityId.Some? &&
            path.requestType != UnknownRequest &&
            exists t :: NamesOne(entries, path, t) && IsFor(t, path.requestType, path.entityId.value)
  {
    AllowedExactly(entries);
    RestrictedExactly(entries, path);
    if d.isCommissioning {
      CommissioningListApplies(s, entries, d, path);
    } else {
      FabricListApplies(s, entries, d, path);
    }
  }

  /** `more` restricts whatever `fewer` does: every entry of each of its lists is kept. */
  ghost predicate Extends(fewer: Option<State>, more: Option<State>) {
    fewer.None? ||
    (more.Some? &&
     (forall e :: e in fewer.value.commissioning ==> e in more.value.commissioning) &&
     forall f, e :: e in Listed(fewer.value.fabrics, f) ==> e in Listed(more.value.fabrics, f))
  }

  lemma ArlOnlyNarrows(fewer: Option<State>, more: Option<State>, d: SubjectDescriptor, path: RequestPath)
    requires Extends(fewer, more)
    ensures ArlVerdict(more, d, path) == NoError ==> ArlVerdict(fewer, d, path) == NoError
  {
    if fewer.Some? && path.entityId.Some? {
      var few, many := ListFor(fewer.value, d), ListFor(more.value, d);
      if Restricted(few, path) {
        var e :| e in few && EntryForbids(e, path);
        assert e in many;
      }
    }
  }

  /** Adding restrictions, a provider, or restriction support never allows what was not allowed
      before, for every request, the group fallback included. */
  lemma RestrictionsOnlyNarrow(env: Surroundings, fewer: Option<State>, more: Option<State>, d: SubjectDescriptor,
                               path: RequestPath, request: Privilege)
    requires Extends(fewer, more)
    ensures CheckVerdict(env, more, d, path, request) == NoError ==>
            CheckVerdict(env, fewer, d, path, request) == NoError
    ensures CheckVerdict(env.(compiledIn := true), more, d, path, request) == NoError ==>
            CheckVerdict(env.(compiledIn := false), fewer, d, path, request) == NoError
  {
    ArlOnlyNarrows(fewer, more, d, path);
  }

  /** In no state that a run reaches, with a deferring delegate and whatever the restrictions, the
      groups and the auxiliary delegate say, may a group-authenticated subject administer. */
  lemma ReachableGroupNeverAdministers(store: AclStore, quota: nat,
                                       ops: seq<AccessControlList.Operation>, env: Surroundings,
                                       provider: Option<State>, d: SubjectDescriptor, path: RequestPath)
    requires AccessControlList.StoredValid(store)
    requires env.own == NotImplemented
    requires env.entries == Ok(HandlesOf(Entries(AccessControlList.Run(store, quota, ops).0, d.fabricIndex)))
    requires d.authMode == Group
    ensures CheckVerdict(env, provider, d, path, ADMINISTER) != NoError
  {
    var list := Entries(AccessControlList.Run(store, quota, ops).0, d.fabricIndex);
    AccessControlList.RunKeepsInvariants(store, quota, ops);
    assert AllValid(list);
    GroupNeverAdministers(list, env.resolver, d, path);
    assert !GroupOperateInvoke(d, path, ADMINISTER);
  }
}
