/** The packed form in which the example storage keeps a target: two words, in which an endpoint takes
    the place of a device type and is recognised by a marker. */
module TargetCodec {
  import opened AccessTypes
  import opened AccessDecision

  const CLUSTER_EMPTY: ClusterId := 0xFFFF_FFFF
  const DEVICE_TYPE_EMPTY: DeviceTypeId := 0xFFFF_FFFF
  const ENDPOINT_MAGIC := 0xEEEE

  datatype Packed = Packed(cluster: ClusterId, deviceType: DeviceTypeId)

  predicate IsEmpty(p: Packed) {
    p.cluster == CLUSTER_EMPTY && p.deviceType == DEVICE_TYPE_EMPTY
  }

  predicate IsStorableCluster(id: ClusterId) {
    var suffix, vendor := id % 0x1_0000, id / 0x1_0000;
    (suffix <= 0x7FFF || 0xFC00 <= suffix <= 0xFFFE) && vendor <= 0xFFFE
  }

  /** The targets that the storage accepts. */
  predicate IsStorable(t: Target) {
    t.flags & !7 == 0 && t.flags & 7 != 0 && t.flags & 6 != 6 &&
    (t.HasCluster() ==> IsStorableCluster(t.cluster)) &&
    (t.HasDeviceType() ==> IsValidDeviceTypeId(t.deviceType))
  }

  function Encode(t: Target): Packed {
    Packed(
      if t.HasCluster() then t.cluster else CLUSTER_EMPTY,
      if t.HasEndpoint() then t.endpoint * 0x1_0000 + ENDPOINT_MAGIC
      else if t.HasDeviceType() then t.deviceType
      else DEVICE_TYPE_EMPTY)
  }

  /** Fields that the flags do not announce keep what `into` had. */
  function Decode(p: Packed, into: Target): Target {
    var t := if p.cluster != CLUSTER_EMPTY then into.(flags := 1, cluster := p.cluster) else into.(flags := 0);
    if p.deviceType == DEVICE_TYPE_EMPTY then t
    else if p.deviceType % 0x1_0000 == ENDPOINT_MAGIC then
      t.(flags := t.flags | 2, endpoint := p.deviceType / 0x1_0000)
    else t.(flags := t.flags | 4, deviceType := p.deviceType)
  }

  /** Two targets with the same flags and the same values in the fields these announce. */
  predicate SameMeaning(a: Target, b: Target) {
    a.flags == b.flags &&
    (a.HasCluster() ==> a.cluster == b.cluster) &&
    (a.HasEndpoint() ==> a.endpoint == b.endpoint) &&
    (a.HasDeviceType() ==> a.deviceType == b.deviceType)
  }

  lemma FlagCases(flags: bv32)
    requires flags & !7 == 0 && flags & 7 != 0 && flags & 6 != 6
    ensures flags in {1, 2, 3, 4, 5}
  {
    assert flags == 1 || flags == 2 || flags == 3 || flags == 4 || flags == 5;
  }

  /** The words that a target is stored as: its cluster, or all ones; and its device type, or the endpoint in front
      of the marker, or all ones. */
  lemma StoredWords(c: ClusterId, e: EndpointId, d: DeviceTypeId)
    ensures Encode(Target(1, c, e, d)) == Packed(c, 0xFFFF_FFFF)
    ensures Encode(Target(2, c, e, d)) == Packed(0xFFFF_FFFF, e * 0x1_0000 + 0xEEEE)
    ensures Encode(Target(3, c, e, d)) == Packed(c, e * 0x1_0000 + 0xEEEE)
    ensures Encode(Target(4, c, e, d)) == Packed(0xFFFF_FFFF, d)
    ensures Encode(Target(5, c, e, d)) == Packed(c, d)
    ensures IsEmpty(Packed(c, d)) <==> c == 0xFFFF_FFFF && d == 0xFFFF_FFFF
  {
  }

  /** Which clusters may be stored, by vendor prefix and suffix. */
  lemma StorableClusters(vendor: nat, suffix: nat)
    requires vendor < 0x1_0000 && suffix < 0x1_0000
    ensures IsStorableCluster(vendor * 0x1_0000 + suffix) <==>
            vendor < 0xFFFF && (suffix < 0x8000 || 0xFC00 <= suffix < 0xFFFF)
  {
    assert (vendor * 0x1_0000 + suffix) / 0x1_0000 == vendor && (vendor * 0x1_0000 + suffix) % 0x1_0000 == suffix;
  }

  /** Which kinds of target may be stored. */
  lemma StorableKinds(c: ClusterId, e: EndpointId, d: DeviceTypeId, flags: bv32)
    ensures IsStorable(Target(1, c, e, d)) <==> IsStorableCluster(c)
    ensures IsStorable(Target(2, c, e, d))
    ensures IsStorable(Target(3, c, e, d)) <==> IsStorableCluster(c)
    ensures IsStorable(Target(4, c, e, d)) <==> IsValidDeviceTypeId(d)
    ensures IsStorable(Target(5, c, e, d)) <==> IsStorableCluster(c) && IsValidDeviceTypeId(d)
    ensures flags !in {1, 2, 3, 4, 5} ==> !IsStorable(Target(flags, c, e, d))
  {
    if flags & !7 == 0 && flags & 7 != 0 && flags & 6 != 6 {
      FlagCases(flags);
    }
  }

  /** A stored target reads back with the same meaning, and its slot does not look empty. */
  lemma RoundTrip(t: Target, into: Target)
    requires IsStorable(t)
    ensures !IsEmpty(Encode(t))
    ensures SameMeaning(t, Decode(Encode(t), into))
  {
    FlagCases(t.flags);
  }

  /** Hence targets of different meaning are packed differently. */
  lemma EncodeIsInjective(a: Target, b: Target)
    requires IsStorable(a) && IsStorable(b) && Encode(a) == Encode(b)
    ensures SameMeaning(a, b)
  {
    RoundTrip(a, a);
    RoundTrip(b, a);
  }

  /** Every target that entry validation accepts can be stored exactly when it carries no flag beyond
      the three that validation looks at. */
  lemma ValidTargetsAreStorable(t: Target)
    requires ValidTarget(t)
    ensures IsStorable(t) <==> t.flags & !7 == 0
  {
    var f := t.flags;
    assert (f & 1 != 0 || f & 2 != 0 || f & 4 != 0) ==> f & 7 != 0;
    assert !(f & 2 != 0 && f & 4 != 0) ==> f & 6 != 6;
  }
}
