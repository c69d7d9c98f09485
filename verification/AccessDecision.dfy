/** Entry validation and the decision over one fabric's access control entries. */
module AccessDecision {
  import opened AccessTypes

  // ----- Privileges -----

  /** Does an entry's privilege grant the requested one? */
  predicate Covers(entry: Privilege, request: Privilege) {
    if entry == VIEW then request == VIEW
    else if entry == PROXY_VIEW then request == PROXY_VIEW || request == VIEW
    else if entry == OPERATE then request == OPERATE || request == VIEW
    else if entry == MANAGE then request == MANAGE || request == OPERATE || request == VIEW
    else if entry == ADMINISTER then
      request == ADMINISTER || request == MANAGE || request == OPERATE || request == VIEW || request == PROXY_VIEW
    else false
  }

  lemma ValidPrivileges(p: Privilege)
    ensures IsValidPrivilege(p) <==> p in {VIEW, PROXY_VIEW, OPERATE, MANAGE, ADMINISTER}
  {
    // In bit-vector terms: no other byte is a single one of the five low bits.
    assert p & 31 == p && p & (p - 1) == 0 && p != 0 <==> p == 1 || p == 2 || p == 4 || p == 8 || p == 16;
  }

  /** `Covers` is a partial order on the valid privileges, with `ADMINISTER` on top and `VIEW` below
      everything; other bytes neither grant nor are granted. */
  lemma PrivilegeOrder(a: Privilege, b: Privilege, c: Privilege)
    ensures Covers(a, a) <==> IsValidPrivilege(a)
    ensures Covers(a, b) ==> IsValidPrivilege(a) && IsValidPrivilege(b)
    ensures Covers(a, b) && Covers(b, c) ==> Covers(a, c)
    ensures Covers(a, b) && Covers(b, a) ==> a == b
    ensures IsValidPrivilege(a) ==> Covers(ADMINISTER, a) && Covers(a, VIEW)
    ensures Covers(a, ADMINISTER) ==> a == ADMINISTER
  {
    ValidPrivileges(a);
    ValidPrivileges(b);
  }

  /** Which byte grants which: the same one, Administer any, any one View, and Manage also Operate. */
  lemma PrivilegeTable(entry: Privilege, request: Privilege)
    ensures Covers(entry, request) <==>
            entry in {1, 2, 4, 8, 16} && request in {1, 2, 4, 8, 16} &&
            (entry == request || entry == 16 || request == 1 || (entry == 8 && request == 4))
  {
  }

  // ----- Entry validation -----

  predicate ValidSubject(mode: AuthMode, id: NodeId) {
    (mode == Case && IsValidCaseNodeId(id)) || (mode == Group && IsValidGroupNodeId(id))
  }

  predicate ValidTarget(t: Target) {
    (t.HasCluster() || t.HasEndpoint() || t.HasDeviceType()) &&
    !(t.HasEndpoint() && t.HasDeviceType()) &&
    (t.HasCluster() ==> IsValidClusterId(t.cluster)) &&
    (t.HasEndpoint() ==> IsValidEndpointId(t.endpoint)) &&
    (t.HasDeviceType() ==> IsValidDeviceTypeId(t.deviceType))
  }

  /** The constraints on an entry's value. */
  predicate ValidEntry(e: AclEntry) {
    e.fabricIndex != UNDEFINED_FABRIC_INDEX &&
    (e.authMode == Case || (e.authMode == Group && e.privilege != ADMINISTER)) &&
    (forall s :: s in e.subjects ==> ValidSubject(e.authMode, s)) &&
    (forall t :: t in e.targets ==> ValidTarget(t))
  }

  /** What `IsValid` accepts: an entry that can be read in full, whose auxiliary type is known or
      not implemented, and whose value is valid. */
  predicate ValidHandle(h: Handle) {
    Readable(h) && (h.auxiliaryType.Ok? || h.auxiliaryType.error == NotImplemented) && ValidEntry(ValueOf(h))
  }

  method IsValid(h: Handle) returns (valid: bool)
    ensures valid <==> ValidHandle(h)
  {
    if h.authMode.Err? || h.fabricIndex.Err? || h.privilege.Err? || h.subjects.Err? || h.targets.Err? {
      return false;
    }
    var mode, fabric, privilege := h.authMode.value, h.fabricIndex.value, h.privilege.value;
    var subjects, targets := h.subjects.value, h.targets.value;
    if h.auxiliaryType.Err? && h.auxiliaryType.error != NotImplemented {
      return false;
    }
    if fabric == UNDEFINED_FABRIC_INDEX {
      return false;
    }
    if mode != Case {
      if mode != Group {
        return false;
      }
      if privilege == ADMINISTER {
        return false;
      }
    }
    for i := 0 to |subjects|
      invariant forall j :: 0 <= j < i ==> subjects[j].Ok? && ValidSubject(mode, subjects[j].value)
    {
      if subjects[i].Err? {
        return false;
      }
      var subject := subjects[i].value;
      if !((mode == Case && IsValidCaseNodeId(subject)) || (mode == Group && IsValidGroupNodeId(subject))) {
        assert AllOk(subjects) ==> Values(subjects)[i] in Values(subjects) && !ValidSubject(mode, Values(subjects)[i]);
        return false;
      }
    }
    for i := 0 to |targets|
      invariant forall j :: 0 <= j < i ==> targets[j].Ok? && ValidTarget(targets[j].value)
    {
      if targets[i].Err? {
        return false;
      }
      var target := targets[i].value;
      var hasCluster, hasEndpoint, hasDeviceType := target.HasCluster(), target.HasEndpoint(), target.HasDeviceType();
      if !((hasCluster || hasEndpoint || hasDeviceType) && !(hasEndpoint && hasDeviceType) &&
           (!hasCluster || IsValidClusterId(target.cluster)) &&
           (!hasEndpoint || IsValidEndpointId(target.endpoint)) &&
           (!hasDeviceType || IsValidDeviceTypeId(target.deviceType))) {
        assert AllOk(targets) ==> Values(targets)[i] in Values(targets) && !ValidTarget(Values(targets)[i]);
        return false;
      }
    }
    return true;
  }

  /** Whom an entry may name: by certificate, a node or a tag with a version; by group, a group other than zero. */
  lemma ValidSubjects(mode: AuthMode, id: NodeId)
    ensures ValidSubject(mode, id) <==>
            match mode
            case Case => (id != 0 && id / 0x1_0000_0000 < 0xFFFF_FFF0) ||
                         (id / 0x1_0000_0000 == 0xFFFF_FFFD && id % 0x1_0000 != 0)
            case Group => id / 0x1_0000 == 0xFFFF_FFFF_FFFF && id % 0x1_0000 != 0
            case _ => false
  {
    NodeIdClasses(id);
    assert id % 0x1_0000_0000 % 0x1_0000 == id % 0x1_0000;
  }

  /** The targets an entry may have, kind by kind: a cluster, an endpoint, a device type, or a cluster with one
      of the other two; never an endpoint with a device type, and never none of the three. */
  lemma ValidTargetKinds(c: ClusterId, e: EndpointId, d: DeviceTypeId)
    ensures !ValidTarget(Target(0, c, e, d)) && !ValidTarget(Target(6, c, e, d)) && !ValidTarget(Target(7, c, e, d))
    ensures ValidTarget(Target(1, c, e, d)) <==> IsValidClusterId(c)
    ensures ValidTarget(Target(2, c, e, d)) <==> e < 0xFFFF
    ensures ValidTarget(Target(3, c, e, d)) <==> IsValidClusterId(c) && e < 0xFFFF
    ensures ValidTarget(Target(4, c, e, d)) <==> IsValidDeviceTypeId(d)
    ensures ValidTarget(Target(5, c, e, d)) <==> IsValidClusterId(c) && IsValidDeviceTypeId(d)
  {
  }

  /** A readable entry is valid exactly if it names a fabric, is by certificate or by group without Administer,
      and names only valid subjects and targets; a failing auxiliary type spoils it, a missing one does not. */
  lemma ValidHandles(e: AclEntry, auxiliary: Result<AuxiliaryType>)
    ensures ValidHandle(HandleOf(e).(auxiliaryType := auxiliary)) <==>
            (auxiliary.Err? ==> auxiliary.error == NotImplemented) && e.fabricIndex > 0 &&
            (e.authMode == Case || (e.authMode == Group && e.privilege != 16)) &&
            (forall s :: s in e.subjects ==> ValidSubject(e.authMode, s)) &&
            (forall t :: t in e.targets ==> ValidTarget(t))
  {
    var h := HandleOf(e);
    assert ValueOf(h.(auxiliaryType := auxiliary)) == ValueOf(h) == e;
  }

  // ----- What an entry grants -----

  /** Some tag of the peer's certificate has the subject's identifier and at least its version. */
  predicate MatchesCats(subject: NodeId, cats: seq<CaseAuthTag>) {
    IsCaseAuthTag(subject) &&
    var wanted := TagFromNodeId(subject);
    exists i :: 0 <= i < |cats| && cats[i] != 0 && TagIdentifier(cats[i]) == TagIdentifier(wanted) &&
                0 < TagVersion(wanted) <= TagVersion(cats[i])
  }

  predicate MatchesSubject(subject: NodeId, d: SubjectDescriptor) {
    if IsCaseAuthTag(subject) then MatchesCats(subject, d.cats) else subject == d.subject
  }

  predicate MatchesTarget(t: Target, path: RequestPath, resolver: DeviceTypeResolver) {
    (t.HasCluster() ==> t.cluster == path.cluster) &&
    (t.HasEndpoint() ==> t.endpoint == path.endpoint) &&
    (t.HasDeviceType() ==> resolver(t.deviceType, path.endpoint))
  }

  /** The tag that a subject stands for is held: some tag of the peer has its identifier and at least its
      version, which is not zero. */
  predicate HoldsTag(subject: NodeId, cats: seq<CaseAuthTag>, identifier: nat, version: nat, held: nat) {
    identifier < 0x1_0000 && 0 < version <= held < 0x1_0000 &&
    subject == 0xFFFF_FFFD_0000_0000 + identifier * 0x1_0000 + version && (identifier * 0x1_0000 + held) in cats
  }

  /** A subject is the peer itself, or a tag that it holds. */
  lemma SubjectsMatch(subject: NodeId, d: SubjectDescriptor)
    ensures MatchesSubject(subject, d) <==>
            if subject / 0x1_0000_0000 != 0xFFFF_FFFD then subject == d.subject
            else exists identifier: nat, version: nat, held: nat :: HoldsTag(subject, d.cats, identifier, version, held)
  {
    NodeIdClasses(subject);
    if IsCaseAuthTag(subject) {
      if MatchesCats(subject, d.cats) {
        var wanted := TagFromNodeId(subject);
        var i :| 0 <= i < |d.cats| && d.cats[i] != 0 && TagIdentifier(d.cats[i]) == TagIdentifier(wanted) &&
                 0 < TagVersion(wanted) <= TagVersion(d.cats[i]);
        assert d.cats[i] == TagIdentifier(wanted) * 0x1_0000 + TagVersion(d.cats[i]);
        assert HoldsTag(subject, d.cats, TagIdentifier(wanted), TagVersion(wanted), TagVersion(d.cats[i]));
      }
      if identifier: nat, version: nat, held: nat :| HoldsTag(subject, d.cats, identifier, version, held) {
        TagNodeId(identifier, version);
        TagNodeId(identifier, held);
        var i :| 0 <= i < |d.cats| && d.cats[i] == identifier * 0x1_0000 + held;
      }
    }
  }

  /** What each kind of target matches: the cluster, the endpoint or the device type on the endpoint that it
      names, whatever its other fields hold. */
  lemma TargetsMatch(c: ClusterId, e: EndpointId, d: DeviceTypeId, path: RequestPath, resolver: DeviceTypeResolver)
    ensures MatchesTarget(Target(1, c, e, d), path, resolver) <==> c == path.cluster
    ensures MatchesTarget(Target(2, c, e, d), path, resolver) <==> e == path.endpoint
    ensures MatchesTarget(Target(3, c, e, d), path, resolver) <==> c == path.cluster && e == path.endpoint
    ensures MatchesTarget(Target(4, c, e, d), path, resolver) <==> resolver(d, path.endpoint)
    ensures MatchesTarget(Target(5, c, e, d), path, resolver) <==> c == path.cluster && resolver(d, path.endpoint)
  {
  }

  /** An entry names the requester and what is requested; empty lists name everyone and everything. */
  predicate Concerns(e: AclEntry, resolver: DeviceTypeResolver, d: SubjectDescriptor, path: RequestPath) {
    e.authMode == d.authMode &&
    (|e.subjects| == 0 || exists i :: 0 <= i < |e.subjects| && MatchesSubject(e.subjects[i], d)) &&
    (|e.targets| == 0 || exists i :: 0 <= i < |e.targets| && MatchesTarget(e.targets[i], path, resolver))
  }

  /** An entry grants a request when authentication mode, privilege, subject and target all match;
      an empty subject or target list matches everything. */
  predicate Grants(e: AclEntry, resolver: DeviceTypeResolver, d: SubjectDescriptor, path: RequestPath,
                   request: Privilege) {
    e.authMode == d.authMode &&
    Covers(e.privilege, request) &&
    (e.subjects == [] || exists s :: s in e.subjects && MatchesSubject(s, d)) &&
    (e.targets == [] || exists t :: t in e.targets && MatchesTarget(t, path, resolver))
  }

  predicate SomeGrants(entries: seq<AclEntry>, resolver: DeviceTypeResolver, d: SubjectDescriptor,
                       path: RequestPath, request: Privilege) {
    exists e :: e in entries && Grants(e, resolver, d, path, request)
  }

  // ----- The scan, entry by entry, with failing getters -----

  datatype Verdict = Allow | Skip | Fault(status: Failure)

  /** The first subject that faults or matches settles a non-empty subject list. */
  function JudgeSubjects(subjects: seq<Result<NodeId>>, d: SubjectDescriptor): Verdict {
    if subjects == [] then Skip
    else if subjects[0].Err? then Fault(subjects[0].error)
    else
      var subject := subjects[0].value;
      if IsOperationalNodeId(subject) || IsCaseAuthTag(subject) || IsGroupId(subject) then
        if d.authMode != (if IsGroupId(subject) then Group else Case) then Fault(IncorrectState)
        else if MatchesSubject(subject, d) then Allow
        else JudgeSubjects(subjects[1..], d)
      else Fault(IncorrectState)
  }

  function JudgeTargets(targets: seq<Result<Target>>, resolver: DeviceTypeResolver, path: RequestPath): Verdict {
    if targets == [] then Skip
    else if targets[0].Err? then Fault(targets[0].error)
    else if MatchesTarget(targets[0].value, path, resolver) then Allow
    else JudgeTargets(targets[1..], resolver, path)
  }

  function Judge(h: Handle, resolver: DeviceTypeResolver, d: SubjectDescriptor, path: RequestPath,
                 request: Privilege): Verdict {
    if h.authMode.Err? then Fault(h.authMode.error)
    else if h.authMode.value != Case && h.authMode.value != Group then Fault(IncorrectState)
    else if h.authMode.value != d.authMode then Skip
    else if h.privilege.Err? then Fault(h.privilege.error)
    else if !Covers(h.privilege.value, request) then Skip
    else if h.subjects.Err? then Fault(h.subjects.error)
    else
      var bySubject := if h.subjects.value == [] then Allow else JudgeSubjects(h.subjects.value, d);
      if bySubject != Allow then bySubject
      else if h.targets.Err? then Fault(h.targets.error)
      else if h.targets.value == [] then Allow
      else JudgeTargets(h.targets.value, resolver, path)
  }

  /** The first entry that is not skipped settles the request; if none, access is denied. */
  function Scan(handles: seq<Handle>, resolver: DeviceTypeResolver, d: SubjectDescriptor, path: RequestPath,
                request: Privilege): Status {
    if handles == [] then AccessDenied
    else match Judge(handles[0], resolver, d, path, request)
      case Allow => NoError
      case Fault(s) => s
      case Skip => Scan(handles[1..], resolver, d, path, request)
  }

  /** The decision: the delegate's own verdict unless it defers, then the implicit grant to a PASE
      session, then the entries. `entries` is what the delegate's iterator delivers. */
  function Decide(own: Status, entries: Result<seq<Handle>>, resolver: DeviceTypeResolver,
                  d: SubjectDescriptor, path: RequestPath, request: Privilege): Status {
    if own != NotImplemented then own
    else if d.authMode == Pase then NoError
    else if entries.Err? then entries.error
    else Scan(entries.value, resolver, d, path, request)
  }

  /** The nested loops with their early exits. */
  method CheckACL(own: Status, entries: Result<seq<Handle>>, resolver: DeviceTypeResolver,
                  d: SubjectDescriptor, path: RequestPath, request: Privilege) returns (status: Status)
    ensures status == Decide(own, entries, resolver, d, path, request)
    ensures own != NotImplemented ==> status == own
    ensures own == NotImplemented && d.authMode == Pase ==> status == NoError
    ensures own == NotImplemented && d.authMode != Pase && entries.Err? ==> status == entries.error
  {
    if own != NotImplemented {
      return own;
    }
    if d.authMode == Pase {
      return NoError;
    }
    if entries.Err? {
      return entries.error;
    }
    var handles := entries.value;
    var n := 0;
    while n < |handles|
      invariant 0 <= n <= |handles|
      invariant Scan(handles, resolver, d, path, request) == Scan(handles[n..], resolver, d, path, request)
    {
      var h := handles[n];
      n := n + 1;
      assert handles[n - 1..][1..] == handles[n..];
      if h.authMode.Err? {
        return h.authMode.error;
      }
      var mode := h.authMode.value;
      if mode != Case && mode != Group {
        return IncorrectState;
      }
      if mode != d.authMode {
        continue;
      }
      if h.privilege.Err? {
        return h.privilege.error;
      }
      if !Covers(h.privilege.value, request) {
        continue;
      }
      if h.subjects.Err? {
        return h.subjects.error;
      }
      if |h.subjects.value| > 0 {
        var verdict := CheckSubjects(mode, h.subjects.value, d);
        if verdict.Fault? {
          return verdict.status;
        }
        if verdict == Skip {
          continue;
        }
      }
      if h.targets.Err? {
        return h.targets.error;
      }
      if |h.targets.value| > 0 {
        var verdict := CheckTargets(h.targets.value, resolver, path);
        if verdict.Fault? {
          return verdict.status;
        }
        if verdict == Skip {
          continue;
        }
      }
      return NoError;
    }
    return AccessDenied;
  }

  /** The loop over an entry's subjects. */
  method CheckSubjects(mode: AuthMode, subjects: seq<Result<NodeId>>, d: SubjectDescriptor) returns (v: Verdict)
    requires mode == d.authMode
    ensures v == JudgeSubjects(subjects, d)
  {
    for i := 0 to |subjects|
      invariant JudgeSubjects(subjects, d) == JudgeSubjects(subjects[i..], d)
    {
      assert subjects[i..][1..] == subjects[i + 1..];
      if subjects[i].Err? {
        return Fault(subjects[i].error);
      }
      var subject := subjects[i].value;
      if IsOperationalNodeId(subject) {
        if mode != Case {
          return Fault(IncorrectState);
        }
        if subject == d.subject {
          return Allow;
        }
      } else if IsCaseAuthTag(subject) {
        if mode != Case {
          return Fault(IncorrectState);
        }
        var matched := CheckSubjectAgainstCATs(subject, d.cats);
        if matched {
          return Allow;
        }
      } else if IsGroupId(subject) {
        if mode != Group {
          return Fault(IncorrectState);
        }
        if subject == d.subject {
          return Allow;
        }
      } else {
        return Fault(IncorrectState);
      }
    }
    return Skip;
  }

  /** The loop over the peer's certificate tags. */
  method CheckSubjectAgainstCATs(subject: NodeId, cats: seq<CaseAuthTag>) returns (matched: bool)
    ensures matched <==> MatchesCats(subject, cats)
  {
    if !IsCaseAuthTag(subject) {
      return false;
    }
    var wanted := TagFromNodeId(subject);
    for i := 0 to |cats|
      invariant forall j :: 0 <= j < i ==>
        !(cats[j] != 0 && TagIdentifier(cats[j]) == TagIdentifier(wanted) &&
          0 < TagVersion(wanted) <= TagVersion(cats[j]))
    {
      if cats[i] != 0 && TagIdentifier(cats[i]) == TagIdentifier(wanted) && TagVersion(wanted) > 0 &&
         TagVersion(cats[i]) >= TagVersion(wanted) {
        return true;
      }
    }
    return false;
  }

  /** The loop over an entry's targets. */
  method CheckTargets(targets: seq<Result<Target>>, resolver: DeviceTypeResolver, path: RequestPath)
    returns (v: Verdict)
    ensures v == JudgeTargets(targets, resolver, path)
  {
    for i := 0 to |targets|
      invariant JudgeTargets(targets, resolver, path) == JudgeTargets(targets[i..], resolver, path)
    {
      assert targets[i..][1..] == targets[i + 1..];
      if targets[i].Err? {
        return Fault(targets[i].error);
      }
      var target := targets[i].value;
      if target.HasCluster() && target.cluster != path.cluster {
        continue;
      }
      if target.HasEndpoint() && target.endpoint != path.endpoint {
        continue;
      }
      if target.HasDeviceType() && !resolver(target.deviceType, path.endpoint) {
        continue;
      }
      return Allow;
    }
    return Skip;
  }

  // ----- Exactness on valid lists -----

  function HandlesOf(entries: seq<AclEntry>): (r: seq<Handle>)
    ensures |r| == |entries| && forall i :: 0 <= i < |entries| ==> r[i] == HandleOf(entries[i])
  {
    seq(|entries|, i requires 0 <= i < |entries| => HandleOf(entries[i]))
  }

  predicate AllValid(entries: seq<AclEntry>) {
    forall e :: e in entries ==> ValidEntry(e)
  }

  lemma {:induction false} JudgeSubjectsExact(subjects: seq<NodeId>, d: SubjectDescriptor)
    requires forall s :: s in subjects ==> ValidSubject(d.authMode, s)
    ensures JudgeSubjects(Oks(subjects), d) ==
            if exists s :: s in subjects && MatchesSubject(s, d) then Allow else Skip
  {
    if subjects != [] {
      JudgeSubjectsExact(subjects[1..], d);
      assert ValidSubject(d.authMode, subjects[0]);
      assert Oks(subjects)[0] == Ok(subjects[0]) && Oks(subjects)[1..] == Oks(subjects[1..]);
      assert forall s :: s in subjects <==> s == subjects[0] || s in subjects[1..];
    }
  }

  lemma {:induction false} JudgeTargetsExact(targets: seq<Target>, resolver: DeviceTypeResolver, path: RequestPath)
    ensures JudgeTargets(Oks(targets), resolver, path) ==
            if exists t :: t in targets && MatchesTarget(t, path, resolver) then Allow else Skip
  {
    if targets != [] {
      JudgeTargetsExact(targets[1..], resolver, path);
      assert Oks(targets)[1..] == Oks(targets[1..]);
      assert forall t :: t in targets <==> t == targets[0] || t in targets[1..];
    }
  }

  lemma JudgeExact(e: AclEntry, resolver: DeviceTypeResolver, d: SubjectDescriptor, path: RequestPath,
                   request: Privilege)
    requires ValidEntry(e)
    ensures Judge(HandleOf(e), resolver, d, path, request) ==
            if Grants(e, resolver, d, path, request) then Allow else Skip
  {
    if e.authMode == d.authMode {
      JudgeSubjectsExact(e.subjects, d);
      JudgeTargetsExact(e.targets, resolver, path);
    }
  }

  lemma {:induction false} ScanExact(entries: seq<AclEntry>, resolver: DeviceTypeResolver, d: SubjectDescriptor,
                                     path: RequestPath, request: Privilege)
    requires AllValid(entries)
    ensures Scan(HandlesOf(entries), resolver, d, path, request) ==
            if SomeGrants(entries, resolver, d, path, request) then NoError else AccessDenied
  {
    if entries != [] {
      JudgeExact(entries[0], resolver, d, path, request);
      ScanExact(entries[1..], resolver, d, path, request);
      assert HandlesOf(entries)[1..] == HandlesOf(entries[1..]);
      assert forall e :: e in entries <==> e == entries[0] || e in entries[1..];
    }
  }

  /** The decision over a stored list, read through working getters with a deferring delegate. */
  function DecideStored(entries: seq<AclEntry>, resolver: DeviceTypeResolver, d: SubjectDescriptor,
                        path: RequestPath, request: Privilege): Status {
    Decide(NotImplemented, Ok(HandlesOf(entries)), resolver, d, path, request)
  }

  /** On a valid list the decision is never an internal error, and allows exactly when the session is
      PASE or some entry grants the request. */
  lemma DecisionExact(entries: seq<AclEntry>, resolver: DeviceTypeResolver, d: SubjectDescriptor,
                      path: RequestPath, request: Privilege)
    requires AllValid(entries)
    ensures DecideStored(entries, resolver, d, path, request) ==
            if d.authMode == Pase || SomeGrants(entries, resolver, d, path, request) then NoError else AccessDenied
  {
    ScanExact(entries, resolver, d, path, request);
  }

  /** Whatever the getters do, the first entry that is not skipped settles a scan, and access is
      denied exactly when all are skipped or that entry's fault is a denial. */
  lemma {:induction false} FirstVerdictSettles(handles: seq<Handle>, n: nat, resolver: DeviceTypeResolver,
                                               d: SubjectDescriptor, path: RequestPath, request: Privilege)
    requires n <= |handles|
    requires forall i :: 0 <= i < n ==> Judge(handles[i], resolver, d, path, request) == Skip
    ensures n == |handles| ==> Scan(handles, resolver, d, path, request) == AccessDenied
    ensures n < |handles| && Judge(handles[n], resolver, d, path, request) == Allow ==>
            Scan(handles, resolver, d, path, request) == NoError
    ensures n < |handles| && Judge(handles[n], resolver, d, path, request).Fault? ==>
            Scan(handles, resolver, d, path, request) == Judge(handles[n], resolver, d, path, request).status
  {
    if n > 0 {
      FirstVerdictSettles(handles[1..], n - 1, resolver, d, path, request);
    }
  }

  predicate SomeConcerns(entries: seq<AclEntry>, privileges: set<Privilege>, resolver: DeviceTypeResolver,
                         d: SubjectDescriptor, path: RequestPath) {
    exists i :: 0 <= i < |entries| && entries[i].privilege in privileges && Concerns(entries[i], resolver, d, path)
  }

  lemma GrantsConcerned(entries: seq<AclEntry>, privileges: set<Privilege>, resolver: DeviceTypeResolver,
                        d: SubjectDescriptor, path: RequestPath, request: Privilege)
    requires forall p :: Covers(p, request) <==> p in privileges
    ensures SomeGrants(entries, resolver, d, path, request) <==> SomeConcerns(entries, privileges, resolver, d, path)
  {
    forall e
      ensures Grants(e, resolver, d, path, request) <==> e.privilege in privileges && Concerns(e, resolver, d, path)
    {
    }
    if SomeGrants(entries, resolver, d, path, request) {
      var e :| e in entries && Grants(e, resolver, d, path, request);
      var i :| 0 <= i < |entries| && entries[i] == e;
      assert Concerns(entries[i], resolver, d, path);
    }
    if SomeConcerns(entries, privileges, resolver, d, path) {
      var i :| 0 <= i < |entries| && entries[i].privilege in privileges && Concerns(entries[i], resolver, d, path);
      assert entries[i] in entries;
    }
  }

  /** Which entries let a session other than PASE do what, over a valid list: for each privilege requested,
      those that concern the request and hold one of the privileges listed. Nothing else may be requested. */
  lemma DecisionByPrivilege(entries: seq<AclEntry>, resolver: DeviceTypeResolver, d: SubjectDescriptor,
                            path: RequestPath, request: Privilege)
    requires AllValid(entries) && d.authMode != Pase
    ensures DecideStored(entries, resolver, d, path, request) == NoError <==>
            SomeConcerns(entries,
                         if request == 1 then {1, 2, 4, 8, 16}
                         else if request == 2 then {2, 16}
                         else if request == 4 then {4, 8, 16}
                         else if request == 8 then {8, 16}
                         else if request == 16 then {16}
                         else {}, resolver, d, path)
  {
    DecisionExact(entries, resolver, d, path, request);
    forall p {
      PrivilegeTable(p, request);
    }
    GrantsConcerned(entries, if request == 1 then {1, 2, 4, 8, 16}
                             else if request == 2 then {2, 16}
                             else if request == 4 then {4, 8, 16}
                             else if request == 8 then {8, 16}
                             else if request == 16 then {16}
                             else {}, resolver, d, path, request);
  }

  // ----- Entries that cannot be read -----

  /** The subject says that it belongs to sessions of this mode. */
  predicate HasMode(subject: NodeId, mode: AuthMode) {
    if subject / 0x1_0000 == 0xFFFF_FFFF_FFFF then mode == Group
    else mode == Case && subject != 0 &&
         (subject / 0x1_0000_0000 < 0xFFFF_FFF0 || subject / 0x1_0000_0000 == 0xFFFF_FFFD)
  }

  /** The first subject that cannot be read, does not belong to the mode, or matches, settles the list; a list
      without one is passed over. */
  lemma {:induction false} FirstSubjectSettles(subjects: seq<Result<NodeId>>, n: nat, d: SubjectDescriptor)
    requires n <= |subjects| && (d.authMode == Case || d.authMode == Group)
    requires forall i :: 0 <= i < n ==> subjects[i].Ok? && HasMode(subjects[i].value, d.authMode) &&
                                        !MatchesSubject(subjects[i].value, d)
    ensures n == |subjects| ==> JudgeSubjects(subjects, d) == Skip
    ensures n < |subjects| && subjects[n].Err? ==> JudgeSubjects(subjects, d) == Fault(subjects[n].error)
    ensures n < |subjects| && subjects[n].Ok? && !HasMode(subjects[n].value, d.authMode) ==>
              JudgeSubjects(subjects, d) == Fault(IncorrectState)
    ensures (n < |subjects| && subjects[n].Ok? && HasMode(subjects[n].value, d.authMode) &&
             MatchesSubject(subjects[n].value, d)) ==>
              JudgeSubjects(subjects, d) == Allow
  {
    if |subjects| > 0 && subjects[0].Ok? {
      NodeIdClasses(subjects[0].value);
    }
    if n > 0 {
      FirstSubjectSettles(subjects[1..], n - 1, d);
    }
  }

  /** The first target that cannot be read or matches settles the list. */
  lemma {:induction false} FirstTargetSettles(targets: seq<Result<Target>>, n: nat, resolver: DeviceTypeResolver,
                                              path: RequestPath)
    requires n <= |targets|
    requires forall i :: 0 <= i < n ==> targets[i].Ok? && !MatchesTarget(targets[i].value, path, resolver)
    ensures n == |targets| ==> JudgeTargets(targets, resolver, path) == Skip
    ensures n < |targets| && targets[n].Err? ==> JudgeTargets(targets, resolver, path) == Fault(targets[n].error)
    ensures n < |targets| && targets[n].Ok? && MatchesTarget(targets[n].value, path, resolver) ==>
              JudgeTargets(targets, resolver, path) == Allow
  {
    if n > 0 {
      FirstTargetSettles(targets[1..], n - 1, resolver, path);
    }
  }

  /** An entry of another mode, or without the privilege, is passed over without reading further; whatever must
      be read and cannot be is a fault, and so is a mode that entries may not have. */
  lemma UnreadableEntries(h: Handle, resolver: DeviceTypeResolver, d: SubjectDescriptor, path: RequestPath,
                          request: Privilege)
    ensures var verdict := Judge(h, resolver, d, path, request);
            if h.authMode.Err? then verdict == Fault(h.authMode.error)
            else if h.authMode.value !in {Case, Group} then verdict == Fault(IncorrectState)
            else if h.authMode.value != d.authMode then verdict == Skip
            else if h.privilege.Err? then verdict == Fault(h.privilege.error)
            else if !Covers(h.privilege.value, request) then verdict == Skip
            else if h.subjects.Err? then verdict == Fault(h.subjects.error)
            else if |h.subjects.value| > 0 && JudgeSubjects(h.subjects.value, d) != Allow
            then verdict == JudgeSubjects(h.subjects.value, d)
            else if h.targets.Err? then verdict == Fault(h.targets.error)
            else if |h.targets.value| > 0 then verdict == JudgeTargets(h.targets.value, resolver, path)
            else verdict == Allow
  {
  }

  // ----- Order, growth and implied privileges -----

  lemma DecisionIgnoresOrder(a: seq<AclEntry>, b: seq<AclEntry>, resolver: DeviceTypeResolver,
                             d: SubjectDescriptor, path: RequestPath, request: Privilege)
    requires AllValid(a)
    requires multiset(a) == multiset(b)
    ensures AllValid(b)
    ensures DecideStored(a, resolver, d, path, request) == DecideStored(b, resolver, d, path, request)
  {
    assert forall e :: e in a <==> e in multiset(a);
    assert forall e :: e in b <==> e in multiset(b);
    DecisionExact(a, resolver, d, path, request);
    DecisionExact(b, resolver, d, path, request);
  }

  /** Adding entries (anywhere in the list) never revokes access, so removing some never grants it. */
  lemma DecisionGrowsWithEntries(fewer: seq<AclEntry>, more: seq<AclEntry>, resolver: DeviceTypeResolver,
                                 d: SubjectDescriptor, path: RequestPath, request: Privilege)
    requires AllValid(more)
    requires multiset(fewer) <= multiset(more)
    ensures DecideStored(fewer, resolver, d, path, request) == NoError ==>
            DecideStored(more, resolver, d, path, request) == NoError
  {
    forall e | e in fewer
      ensures e in more
    {
      assert e in multiset(fewer);
      assert e in multiset(more);
    }
    DecisionExact(fewer, resolver, d, path, request);
    DecisionExact(more, resolver, d, path, request);
  }

  /** Whoever is granted a privilege is granted every privilege it covers. */
  lemma DecisionRespectsPrivilegeOrder(entries: seq<AclEntry>, resolver: DeviceTypeResolver, d: SubjectDescriptor,
                                       path: RequestPath, high: Privilege, low: Privilege)
    requires AllValid(entries)
    requires Covers(high, low)
    ensures DecideStored(entries, resolver, d, path, high) == NoError ==>
            DecideStored(entries, resolver, d, path, low) == NoError
  {
    DecisionExact(entries, resolver, d, path, high);
    DecisionExact(entries, resolver, d, path, low);
    if d.authMode != Pase && SomeGrants(entries, resolver, d, path, high) {
      var e :| e in entries && Grants(e, resolver, d, path, high);
      PrivilegeOrder(e.privilege, high, low);
      assert Grants(e, resolver, d, path, low);
    }
  }

  /** No valid list lets a group-authenticated subject administer. */
  lemma GroupNeverAdministers(entries: seq<AclEntry>, resolver: DeviceTypeResolver, d: SubjectDescriptor,
                              path: RequestPath)
    requires AllValid(entries)
    requires d.authMode == Group
    ensures DecideStored(entries, resolver, d, path, ADMINISTER) == AccessDenied
  {
    DecisionExact(entries, resolver, d, path, ADMINISTER);
    if SomeGrants(entries, resolver, d, path, ADMINISTER) {
      var e :| e in entries && Grants(e, resolver, d, path, ADMINISTER);
      PrivilegeOrder(e.privilege, ADMINISTER, ADMINISTER);
    }
  }
}
