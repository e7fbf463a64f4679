/** One element of a device list (KLST_DEV_INFO) and the identity part it
    shares with composite sub-elements (KLST_DEV_COMMON_INFO). */
module DevInfo {
  import opened SyncFlags

  /** Allocated length of every string field, terminating NUL included. */
  const KLST_STRING_MAX_LEN: nat := 256
  /** Size of the caller-owned KUSB_USER_CONTEXT area. */
  const USER_CONTEXT_SIZE: nat := 32

  newtype uint32 = x: int | 0 <= x < 0x1_0000_0000
  newtype int32 = x: int | -0x8000_0000 <= x < 0x8000_0000
  newtype byte = x: int | 0 <= x < 0x100

  /** A string held in a CHAR[KLST_STRING_MAX_LEN] field: its characters and
      the terminating NUL fit in the array. The contents are opaque here. */
  predicate FitsField(s: string) {
    |s| < KLST_STRING_MAX_LEN
  }

  datatype CommonInfo = CommonInfo(
    vid: uint32,
    pid: uint32,
    mi: uint32,
    instanceId: string)

  datatype DevInfo = DevInfo(
    userContext: seq<byte>,
    common: CommonInfo,
    drvId: int32,
    deviceInterfaceGuid: string,
    instanceId: string,
    classGuid: string,
    mfg: string,
    deviceDesc: string,
    service: string,
    symbolicLink: string,
    devicePath: string,
    lUsb0FilterIndex: uint32,
    connected: bool,
    syncFlags: SyncFlag,
    userFlags: uint32,
    /** The individual interfaces of a composite device; empty otherwise. */
    compositeList: seq<DevInfo>)

  /** Every string field of the element itself fits its fixed-size array. */
  predicate StringsFit(d: DevInfo) {
    && FitsField(d.common.instanceId)
    && FitsField(d.deviceInterfaceGuid)
    && FitsField(d.instanceId)
    && FitsField(d.classGuid)
    && FitsField(d.mfg)
    && FitsField(d.deviceDesc)
    && FitsField(d.service)
    && FitsField(d.symbolicLink)
    && FitsField(d.devicePath)
  }

  /** What the C layout guarantees of every element: bounded strings, a
      user context of exactly its size, and the same for each composite
      sub-element. */
  predicate WellFormed(d: DevInfo)
    decreases d
  {
    && StringsFit(d)
    && |d.userContext| == USER_CONTEXT_SIZE
    && forall k | 0 <= k < |d.compositeList| :: WellFormed(d.compositeList[k])
  }

  /** The vendor/product test that FindByVidPid applies to an element. */
  predicate MatchesVidPid(d: DevInfo, vid: uint32, pid: uint32) {
    d.common.vid == vid && d.common.pid == pid
  }

  /** Well-formedness reaches every element nested below a composite parent:
      each of them has bounded strings (InstanceID included) and a full
      user context. */
  lemma {:induction false} WellFormedNested(d: DevInfo, path: seq<nat>)
    requires WellFormed(d)
    requires PathValid(d, path)
    ensures StringsFit(At(d, path))
    ensures |At(d, path).instanceId| < KLST_STRING_MAX_LEN
    ensures |At(d, path).userContext| == USER_CONTEXT_SIZE
    decreases path
  {
    if path != [] {
      WellFormedNested(d.compositeList[path[0]], path[1..]);
    }
  }

  /** A path of indices through nested composite lists. */
  predicate PathValid(d: DevInfo, path: seq<nat>)
    decreases path
  {
    path == [] || (path[0] < |d.compositeList| && PathValid(d.compositeList[path[0]], path[1..]))
  }

  function At(d: DevInfo, path: seq<nat>): DevInfo
    requires PathValid(d, path)
    decreases path
  {
    if path == [] then d else At(d.compositeList[path[0]], path[1..])
  }
}
