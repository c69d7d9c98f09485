/** Values shared by the access control modules: status codes, identifiers, privileges,
    access control entries and requests. */
module AccessTypes {
  import opened Options

  // ----- Status codes -----

  /** The status codes that access control produces or tests for. `Other` stands for any
      further code a delegate may return. */
  datatype Status =
    | NoError
    | IncorrectState
    | InvalidArgument
    | BufferTooSmall
    | AccessDenied
    | RestrictedByArl
    | NotImplemented
    | NotFound
    | Sentinel
    | Other(code: nat)

  type Failure = s: Status | s != NoError witness AccessDenied

  /** What a getter yields: a value, or a status other than `NoError`. */
  datatype Result<+T> = Ok(value: T) | Err(error: Failure)

  // ----- Identifiers -----

  type FabricIndex = n: nat | n < 0x100
  type EndpointId = n: nat | n < 0x1_0000
  type ClusterId = n: nat | n < 0x1_0000_0000
  type DeviceTypeId = n: nat | n < 0x1_0000_0000
  type NodeId = n: nat | n < 0x1_0000_0000_0000_0000
  type CaseAuthTag = n: nat | n < 0x1_0000_0000

  const UNDEFINED_FABRIC_INDEX: FabricIndex := 0
  const ROOT_ENDPOINT: EndpointId := 0

  predicate IsOperationalNodeId(id: NodeId) {
    0 < id <= 0xFFFF_FFEF_FFFF_FFFF
  }

  predicate IsCaseAuthTag(id: NodeId) {
    0xFFFF_FFFD_0000_0000 <= id <= 0xFFFF_FFFD_FFFF_FFFF
  }

  predicate IsGroupId(id: NodeId) {
    0xFFFF_FFFF_FFFF_0000 <= id
  }

  function TagFromNodeId(id: NodeId): CaseAuthTag {
    id % 0x1_0000_0000
  }

  function TagIdentifier(tag: CaseAuthTag): nat {
    tag / 0x1_0000
  }

  function TagVersion(tag: CaseAuthTag): nat {
    tag % 0x1_0000
  }

  function GroupFromNodeId(id: NodeId): nat {
    id % 0x1_0000
  }

  predicate IsValidCaseNodeId(id: NodeId) {
    IsOperationalNodeId(id) || (IsCaseAuthTag(id) && TagVersion(TagFromNodeId(id)) != 0)
  }

  predicate IsValidGroupNodeId(id: NodeId) {
    IsGroupId(id) && GroupFromNodeId(id) != 0
  }

  predicate IsValidClusterId(id: ClusterId) {
    var suffix, vendor := id % 0x1_0000, id / 0x1_0000;
    vendor <= 0xFFF4 &&
    ((vendor == 0 && suffix <= 0x7FFF) || (vendor >= 1 && 0xFC00 <= suffix <= 0xFFFE))
  }

  predicate IsValidEndpointId(id: EndpointId) {
    id != 0xFFFF
  }

  predicate IsValidDeviceTypeId(id: DeviceTypeId) {
    id / 0x1_0000 <= 0xFFFE && id % 0x1_0000 <= 0xBFFF
  }

  predicate IsGlobalAttribute(id: nat) {
    id < 0x1_0000_0000 && id / 0x1_0000 == 0 && 0xF000 <= id % 0x1_0000 <= 0xFFFE
  }

  /** The classes of node ids by their leading digits; no id is in two of them. */
  lemma NodeIdClasses(id: NodeId)
    ensures IsOperationalNodeId(id) <==> id != 0 && id / 0x1_0000_0000 < 0xFFFF_FFF0
    ensures IsCaseAuthTag(id) <==> id / 0x1_0000_0000 == 0xFFFF_FFFD
    ensures IsGroupId(id) <==> id / 0x1_0000 == 0xFFFF_FFFF_FFFF
    ensures !(IsOperationalNodeId(id) && IsCaseAuthTag(id)) && !(IsOperationalNodeId(id) && IsGroupId(id))
    ensures !(IsCaseAuthTag(id) && IsGroupId(id))
  {
  }

  /** The node id of a tag with this identifier and version; it may be a subject unless its version is zero. */
  lemma TagNodeId(identifier: nat, version: nat)
    requires identifier < 0x1_0000 && version < 0x1_0000
    ensures var tag: CaseAuthTag := identifier * 0x1_0000 + version;
            var id: NodeId := 0xFFFF_FFFD_0000_0000 + tag;
            IsCaseAuthTag(id) && TagFromNodeId(id) == tag && TagIdentifier(tag) == identifier &&
            TagVersion(tag) == version && (IsValidCaseNodeId(id) <==> version > 0) && !IsValidGroupNodeId(id)
  {
  }

  /** Which clusters, device types and attributes with this vendor prefix and suffix are valid or global. */
  lemma PrefixedIds(vendor: nat, suffix: nat)
    requires vendor < 0x1_0000 && suffix < 0x1_0000
    ensures IsValidClusterId(vendor * 0x1_0000 + suffix) <==>
            if vendor == 0 then suffix < 0x8000 else vendor < 0xFFF5 && 0xFC00 <= suffix < 0xFFFF
    ensures IsValidDeviceTypeId(vendor * 0x1_0000 + suffix) <==> vendor < 0xFFFF && suffix < 0xC000
    ensures IsGlobalAttribute(vendor * 0x1_0000 + suffix) <==> vendor == 0 && 0xF000 <= suffix < 0xFFFF
  {
    assert (vendor * 0x1_0000 + suffix) / 0x1_0000 == vendor && (vendor * 0x1_0000 + suffix) % 0x1_0000 == suffix;
  }

  // ----- Privileges -----

  /** A privilege is a byte; only the five single-bit values below are privileges proper. */
  type Privilege = bv8

  const VIEW: Privilege := 1
  const PROXY_VIEW: Privilege := 2
  const OPERATE: Privilege := 4
  const MANAGE: Privilege := 8
  const ADMINISTER: Privilege := 16
  const ALL_PRIVILEGE_BITS: bv8 := 31

  predicate IsValidPrivilege(p: Privilege) {
    p != 0 && (p & ALL_PRIVILEGE_BITS) == p && (p & (p - 1)) == 0
  }

  datatype AuthMode = NoAuth | InternalDeviceAccess | Pase | Case | Group

  // ----- Targets and entries -----

  /** A target names a cluster and/or an endpoint or a device type; `flags` says which of the
      other fields mean anything. */
  datatype Target = Target(flags: bv32, cluster: ClusterId, endpoint: EndpointId, deviceType: DeviceTypeId) {
    predicate HasCluster() {
      flags & 1 != 0
    }

    predicate HasEndpoint() {
      flags & 2 != 0
    }

    predicate HasDeviceType() {
      flags & 4 != 0
    }
  }

  /** The value of an access control entry. */
  datatype AclEntry = AclEntry(
    fabricIndex: FabricIndex,
    authMode: AuthMode,
    privilege: Privilege,
    subjects: seq<NodeId>,
    targets: seq<Target>)

  datatype AuxiliaryType = System | Groupcast

  /** An entry as its users see it: through getters of an entry delegate, each of which may fail.
      The subject and target counts are the lengths of the sequences. */
  datatype Handle = Handle(
    fabricIndex: Result<FabricIndex>,
    authMode: Result<AuthMode>,
    privilege: Result<Privilege>,
    auxiliaryType: Result<AuxiliaryType>,
    subjects: Result<seq<Result<NodeId>>>,
    targets: Result<seq<Result<Target>>>)

  predicate AllOk<T>(s: seq<Result<T>>) {
    forall i :: 0 <= i < |s| ==> s[i].Ok?
  }

  function Values<T>(s: seq<Result<T>>): (r: seq<T>)
    requires AllOk(s)
    ensures |r| == |s| && forall i :: 0 <= i < |s| ==> r[i] == s[i].value
  {
    seq(|s|, i requires 0 <= i < |s| => s[i].value)
  }

  function Oks<T>(s: seq<T>): (r: seq<Result<T>>)
    ensures |r| == |s| && forall i :: 0 <= i < |s| ==> r[i] == Ok(s[i])
  {
    seq(|s|, i requires 0 <= i < |s| => Ok(s[i]))
  }

  /** Every getter the decision needs succeeds. */
  predicate Readable(h: Handle) {
    h.fabricIndex.Ok? && h.authMode.Ok? && h.privilege.Ok? &&
    h.subjects.Ok? && AllOk(h.subjects.value) &&
    h.targets.Ok? && AllOk(h.targets.value)
  }

  function ValueOf(h: Handle): AclEntry
    requires Readable(h)
  {
    AclEntry(h.fabricIndex.value, h.authMode.value, h.privilege.value,
             Values(h.subjects.value), Values(h.targets.value))
  }

  /** The handle a delegate with working getters gives to a stored entry; it does not implement
      the optional auxiliary type. */
  function HandleOf(e: AclEntry): (h: Handle)
    ensures Readable(h) && ValueOf(h) == e
  {
    Handle(Ok(e.fabricIndex), Ok(e.authMode), Ok(e.privilege), Err(NotImplemented),
           Ok(Oks(e.subjects)), Ok(Oks(e.targets)))
  }

  // ----- Requests -----

  datatype SubjectDescriptor = SubjectDescriptor(
    fabricIndex: FabricIndex,
    authMode: AuthMode,
    subject: NodeId,
    cats: seq<CaseAuthTag>,
    isCommissioning: bool)

  datatype RequestType = UnknownRequest | AttributeRead | AttributeWrite | CommandInvoke | EventRead

  datatype RequestPath = RequestPath(
    cluster: ClusterId,
    endpoint: EndpointId,
    requestType: RequestType,
    entityId: Option<nat>)

  /** Tells whether a device type is on an endpoint. */
  type DeviceTypeResolver = (DeviceTypeId, EndpointId) -> bool
}
