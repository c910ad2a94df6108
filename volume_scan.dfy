/**
 * FindVolumesOnDisk (main.cpp): walk the system's volume names, keep those
 * that can be opened and have a disk extent on the target disk, and collect
 * each kept volume's mount point, file-system details and space figures.
 * The Win32 calls become inputs: the enumeration is a sequence of probes,
 * one per volume name, holding what each call reported for that volume.
 */
module VolumeScan {
  import opened Common
  import DescriptorStrings

  /** How IOCTL_VOLUME_GET_VOLUME_DISK_EXTENTS ended. */
  datatype IoctlStatus = Success | MoreData | Failed

  /**
   * VOLUME_DISK_EXTENTS as the call left it: `numberOfDiskExtents`, and the
   * disk numbers of the Extents array the structure holds (one slot,
   * zero-initialised before the call).
   */
  datatype ExtentsReply = ExtentsReply(status: IoctlStatus, numberOfDiskExtents: U32, slots: seq<U32>)

  /** The one Extents slot of a VOLUME_DISK_EXTENTS structure. */
  const ExtentCapacity: nat := 1

  datatype VolumeInformation = VolumeInformation(fileSystem: string, volumeLabel: string, serialNumber: U32)

  datatype DiskSpace = DiskSpace(totalBytes: nat, freeBytes: nat)

  /**
   * Everything the loop body learns about one volume name: the name
   * FindFirstVolumeW/FindNextVolumeW returned, the extents reply, the
   * GetVolumePathNamesForVolumeNameW buffer (None if the call failed),
   * GetVolumeInformationW's results (None if it failed) and
   * GetDiskFreeSpaceExW's (None if it failed).
   */
  datatype VolumeProbe = VolumeProbe(
    name: string,
    extents: ExtentsReply,
    pathNames: Option<seq<char>>,
    information: Option<VolumeInformation>,
    space: Option<DiskSpace>)

  /** VolumeOnDisk; fields the source leaves unset keep their zero/empty value. */
  datatype VolumeOnDisk = VolumeOnDisk(
    volumeGuid: string,
    mountPoint: string,
    fileSystem: string,
    volumeLabel: string,
    serialNumber: U32,
    totalBytes: nat,
    freeBytes: nat)

  /** The name has the trailing backslash every volume GUID path carries. */
  predicate WellFormedName(name: string)
  {
    |name| > 0 && name[|name| - 1] == '\\'
  }

  /** The device path CreateFileW is given: the name without its trailing backslash. */
  function DevicePath(name: string): (p: string)
    requires WellFormedName(name)
    ensures p + ['\\'] == name
  {
    name[..|name| - 1]
  }

  /** The extents the reply actually holds: the first `min(count, slots)` slots. */
  function FilledSlots(reply: ExtentsReply): nat
  {
    if reply.numberOfDiskExtents < |reply.slots| then reply.numberOfDiskExtents else |reply.slots|
  }

  /** Some extent the reply holds lies on disk `target`. */
  predicate HasExtentOn(reply: ExtentsReply, target: U32)
  {
    exists i :: 0 <= i < FilledSlots(reply) && reply.slots[i] == target
  }

  /** The three skip tests after the open: the IOCTL failed otherwise than with ERROR_MORE_DATA, or no extents. */
  predicate ExtentsUsable(reply: ExtentsReply)
  {
    reply.status != Failed && reply.numberOfDiskExtents != 0
  }

  /** The loop body keeps this volume. */
  predicate Included(p: VolumeProbe, target: U32, openable: set<string>)
  {
    WellFormedName(p.name) && DevicePath(p.name) in openable &&
    ExtentsUsable(p.extents) && HasExtentOn(p.extents, target)
  }

  /**
   * The record built for a kept volume: the name with its backslash, the
   * first mount point when there is one, the file-system details when
   * GetVolumeInformationW succeeded, and the space figures when the volume
   * is mounted and GetDiskFreeSpaceExW filled them.
   */
  function VolumeFrom(p: VolumeProbe): VolumeOnDisk
  {
    var mount :=
      if p.pathNames.Some? && |p.pathNames.value| > 0 && p.pathNames.value[0] != DescriptorStrings.Nul
      then p.pathNames.value[..DescriptorStrings.RunLength(p.pathNames.value, 0, DescriptorStrings.Nul)]
      else [];
    var info := if p.information.Some? then p.information.value else VolumeInformation([], [], 0);
    var space := if mount != [] && p.space.Some? then p.space.value else DiskSpace(0, 0);
    VolumeOnDisk(p.name, mount, info.fileSystem, info.volumeLabel, info.serialNumber, space.totalBytes, space.freeBytes)
  }

  /** The volumes FindVolumesOnDisk returns, in enumeration order. */
  function VolumesOn(probes: seq<VolumeProbe>, target: U32, openable: set<string>): seq<VolumeOnDisk>
  {
    FilterMap(probes, p => Included(p, target, openable), VolumeFrom)
  }

  /**
   * The extent loop, bounded by the extents the reply holds: true iff one
   * of them is on the target disk.
   */
  method OnTargetDisk(reply: ExtentsReply, target: U32) returns (onTargetDisk: bool)
    ensures onTargetDisk <==> HasExtentOn(reply, target)
  {
    onTargetDisk := false;
    var n := FilledSlots(reply);
    var i := 0;
    while i < n
      invariant 0 <= i <= n
      invariant forall k :: 0 <= k < i ==> reply.slots[k] != target
    {
      if reply.slots[i] == target {
        onTargetDisk := true;
        break;
      }
      i := i + 1;
    }
  }

  /**
   * FindVolumesOnDisk. `enumeration` is None when FindFirstVolumeW fails
   * (the tool then stops with a fatal error, the None result); otherwise
   * it lists the names FindFirstVolumeW and FindNextVolumeW return.
   * `openable` holds the device paths CreateFileW opens.
   */
  method FindVolumesOnDisk(target: U32, enumeration: Option<seq<VolumeProbe>>, openable: set<string>)
    returns (results: Option<seq<VolumeOnDisk>>)
    ensures enumeration.None? <==> results.None?
    ensures enumeration.Some? ==> results.value == VolumesOn(enumeration.value, target, openable)
  {
    if enumeration.None? {
      return None;
    }
    var probes := enumeration.value;
    var found: seq<VolumeOnDisk> := [];
    for v := 0 to |probes|
      invariant found == VolumesOn(probes[..v], target, openable)
    {
      assert probes[..v + 1][..v] == probes[..v];
      var p := probes[v];
      var name := p.name;
      if |name| == 0 || name[|name| - 1] != '\\' {
        continue;
      }
      // The name is opened without its trailing backslash, which is then restored.
      var device := name[..|name| - 1];
      name := device + ['\\'];
      if device !in openable {
        continue;
      }
      if p.extents.status == Failed {
        continue;
      }
      if p.extents.numberOfDiskExtents == 0 {
        continue;
      }
      var onTargetDisk := OnTargetDisk(p.extents, target);
      if !onTargetDisk {
        continue;
      }
      var mountPoint := [];
      if p.pathNames.Some? {
        var buf := p.pathNames.value;
        if |buf| > 0 && buf[0] != DescriptorStrings.Nul {
          mountPoint := buf[..DescriptorStrings.RunLength(buf, 0, DescriptorStrings.Nul)];
        }
      }
      var vol := VolumeOnDisk(name, mountPoint, [], [], 0, 0, 0);
      if p.information.Some? {
        var info := p.information.value;
        vol := vol.(fileSystem := info.fileSystem, volumeLabel := info.volumeLabel, serialNumber := info.serialNumber);
      }
      if mountPoint != [] && p.space.Some? {
        vol := vol.(totalBytes := p.space.value.totalBytes, freeBytes := p.space.value.freeBytes);
      }
      found := found + [vol];
    }
    assert probes[..|probes|] == probes;
    return Some(found);
  }

  /**
   * A volume is returned iff its name is non-empty and ends in a backslash,
   * the name without that backslash opens, the extents call succeeded or
   * reported more data, it reported at least one extent, and one of the
   * extents it holds is on the target disk. Kept volumes come back in
   * enumeration order, each under its full name, backslash included.
   */
  lemma VolumeIncludedIff(probes: seq<VolumeProbe>, target: U32, openable: set<string>)
    ensures var pos := KeptPositions(probes, p => Included(p, target, openable));
            var vols := VolumesOn(probes, target, openable);
            |vols| == |pos| &&
            (forall i :: 0 <= i < |probes| ==>
               (i in pos <==>
                  |probes[i].name| > 0 && probes[i].name[|probes[i].name| - 1] == '\\' &&
                  probes[i].name[..|probes[i].name| - 1] in openable &&
                  probes[i].extents.status != Failed && probes[i].extents.numberOfDiskExtents != 0 &&
                  exists k :: 0 <= k < FilledSlots(probes[i].extents) && probes[i].extents.slots[k] == target)) &&
            (forall j, k :: 0 <= j < k < |pos| ==> pos[j] < pos[k]) &&
            forall j :: 0 <= j < |pos| ==> pos[j] < |probes| && vols[j].volumeGuid == probes[pos[j]].name
  {
    FilterMapSelects(probes, p => Included(p, target, openable), VolumeFrom);
  }

  /** A kept volume has space figures only when it has a mount point. */
  lemma SpaceOnlyWhenMounted(p: VolumeProbe)
    ensures VolumeFrom(p).mountPoint == [] ==> VolumeFrom(p).totalBytes == 0 && VolumeFrom(p).freeBytes == 0
    ensures VolumeFrom(p).mountPoint != [] ==>
              p.pathNames.Some? && DescriptorStrings.Nul !in VolumeFrom(p).mountPoint &&
              VolumeFrom(p).mountPoint <= p.pathNames.value
  {
    var mount := VolumeFrom(p).mountPoint;
    if mount != [] {
      var buf := p.pathNames.value;
      var n := DescriptorStrings.RunLength(buf, 0, DescriptorStrings.Nul);
      DescriptorStrings.RunLengthClear(buf, 0, DescriptorStrings.Nul);
      assert mount == buf[..n];
      assert forall k :: 0 <= k < n ==> mount[k] == buf[k];
    }
  }

  // ---------------------------------------------------------------------
  // The extent loop as written
  // ---------------------------------------------------------------------

  /** Outcome of the extent loop as the source writes it. */
  datatype ScanOutcome = Found | NotFound | ReadsPastStructure(index: nat)

  /**
   * The source's loop: `for i < NumberOfDiskExtents`, reading `Extents[i]`
   * and stopping at the first match. When the count exceeds the slots the
   * structure holds, the read of slot `|slots|` is outside the structure.
   */
  function ScanAsWritten(count: nat, slots: seq<U32>, target: U32, i: nat): (r: ScanOutcome)
    requires i <= count
    ensures r.ReadsPastStructure? ==> r.index == (if i < |slots| then |slots| else i) && r.index < count
    ensures r == Found <==> exists k :: i <= k < count && k < |slots| && slots[k] == target &&
                                         forall m :: i <= m < k ==> slots[m] != target
    decreases count - i
  {
    if i == count then NotFound
    else if i >= |slots| then ReadsPastStructure(i)
    else if slots[i] == target then Found
    else ScanAsWritten(count, slots, target, i + 1)
  }

  /**
   * After ERROR_MORE_DATA the count exceeds the one slot the structure
   * holds; when that slot is not on the target disk the loop goes on to
   * read Extents[1], past the end of the structure.
   */
  lemma {:induction false} MoreDataOverreads(reply: ExtentsReply, target: U32)
    requires |reply.slots| == ExtentCapacity
    requires reply.numberOfDiskExtents > ExtentCapacity && reply.slots[0] != target
    ensures ScanAsWritten(reply.numberOfDiskExtents, reply.slots, target, 0) == ReadsPastStructure(1)
  {
    assert ScanAsWritten(reply.numberOfDiskExtents, reply.slots, target, 0) ==
           ScanAsWritten(reply.numberOfDiskExtents, reply.slots, target, 1);
  }

  /** A concrete input: a volume on disks 5 and 3, asked about disk 3. */
  lemma MoreDataOverreadExample()
    ensures ScanAsWritten(2, [5], 3, 0) == ReadsPastStructure(1)
    ensures !HasExtentOn(ExtentsReply(MoreData, 2, [5]), 3)
  {
    MoreDataOverreads(ExtentsReply(MoreData, 2, [5]), 3);
  }

  /**
   * Whenever the loop as written stays inside the structure, it agrees
   * with the bounded loop the model uses.
   */
  lemma {:induction false} BoundedScanAgrees(reply: ExtentsReply, target: U32, i: nat)
    requires i <= reply.numberOfDiskExtents
    requires !ScanAsWritten(reply.numberOfDiskExtents, reply.slots, target, i).ReadsPastStructure?
    ensures ScanAsWritten(reply.numberOfDiskExtents, reply.slots, target, i) == Found <==>
              exists k :: i <= k < FilledSlots(reply) && reply.slots[k] == target
    decreases reply.numberOfDiskExtents - i
  {
    var count := reply.numberOfDiskExtents;
    if i < count && i < |reply.slots| && reply.slots[i] != target {
      BoundedScanAgrees(reply, target, i + 1);
    }
  }
}
