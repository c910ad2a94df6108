/**
 * The partition-entry filter of QueryPartitionLayout (main.cpp): the drive
 * layout the disk driver reports is copied into the tool's own record,
 * dropping the empty slots and copying each entry's MBR or GPT details
 * according to that entry's own partition style.
 */
module PartitionLayout {
  import opened Common
  import DescriptorStrings

  datatype PartitionStyle = Mbr | Gpt | Raw

  /** A GUID as its 128-bit value; the all-zero GUID is `0`. */
  type Guid = x: int | 0 <= x < 0x1_0000_0000_0000_0000_0000_0000_0000_0000

  const ZeroGuid: Guid := 0

  /** The GPT name field is a fixed array of 36 wide characters. */
  const GptNameLength := 36

  type GptNameField = s: seq<char> | |s| == GptNameLength witness seq(GptNameLength, _ => DescriptorStrings.Nul)

  /** The MBR and GPT halves of a PARTITION_INFORMATION_EX union. */
  datatype MbrInfo = MbrInfo(partitionType: Byte, bootIndicator: bool)
  datatype GptInfo = GptInfo(partitionType: Guid, partitionId: Guid, name: GptNameField)

  /** One PARTITION_INFORMATION_EX slot as the driver fills it. */
  datatype PartitionInformation = PartitionInformation(
    style: PartitionStyle,
    startingOffset: int,
    partitionLength: int,
    partitionNumber: U32,
    mbr: MbrInfo,
    gpt: GptInfo)

  /** DRIVE_LAYOUT_INFORMATION_EX: `PartitionCount` is `|entries|`. */
  datatype DriveLayout = DriveLayout(
    style: PartitionStyle,
    mbrSignature: U32,
    gptDiskId: Guid,
    entries: seq<PartitionInformation>)

  /** The tool's PartitionEntry; a zero-initialised entry has every field zero or empty. */
  datatype PartitionEntry = PartitionEntry(
    partitionNumber: U32,
    startingOffset: int,
    length: int,
    style: PartitionStyle,
    mbrType: Byte,
    mbrBootIndicator: bool,
    gptType: Guid,
    gptId: Guid,
    gptName: string)

  /** Only slots with a non-zero length are real partitions. */
  predicate IsPresent(pe: PartitionInformation)
  {
    pe.partitionLength != 0
  }

  /** The GPT name as a wide string: the characters up to the first NUL of the name field. */
  function GptName(name: GptNameField): string
  {
    name[..DescriptorStrings.RunLength(name, 0, DescriptorStrings.Nul)]
  }

  /**
   * The copied name is the part of the field before its first NUL: it holds
   * no NUL, and it is shorter than the field exactly when the field has a
   * NUL. A field with no NUL is kept whole, all 36 characters.
   */
  lemma GptNameUpToNul(name: GptNameField)
    ensures GptName(name) <= name
    ensures DescriptorStrings.Nul !in GptName(name)
    ensures DescriptorStrings.Nul in name <==> |GptName(name)| < GptNameLength
    ensures DescriptorStrings.Nul in name ==> name[|GptName(name)|] == DescriptorStrings.Nul
  {
    DescriptorStrings.RunLengthClear(name, 0, DescriptorStrings.Nul);
  }

  /**
   * The entry built from one slot: the common fields always, the MBR
   * fields only for an MBR slot, the GPT fields only for a GPT slot, and
   * the rest left at their zero initialisation.
   */
  function EntryFrom(pe: PartitionInformation): PartitionEntry
  {
    PartitionEntry(
      pe.partitionNumber, pe.startingOffset, pe.partitionLength, pe.style,
      if pe.style == Mbr then pe.mbr.partitionType else 0,
      if pe.style == Mbr then pe.mbr.bootIndicator else false,
      if pe.style == Gpt then pe.gpt.partitionType else ZeroGuid,
      if pe.style == Gpt then pe.gpt.partitionId else ZeroGuid,
      if pe.style == Gpt then GptName(pe.gpt.name) else [])
  }

  /** The entries the filter loop appends, in order. */
  function KeptEntries(entries: seq<PartitionInformation>): seq<PartitionEntry>
  {
    FilterMap(entries, IsPresent, EntryFrom)
  }

  /** PartitionLayoutInfo, the record QueryPartitionLayout fills in place. */
  class PartitionLayoutInfo {
    var style: PartitionStyle
    var partitions: seq<PartitionEntry>
    var mbrSignature: U32
    var gptDiskId: Guid

    /** The default member initialisers: RAW style, no partitions, zero signature and disk id. */
    constructor ()
      ensures style == Raw && partitions == [] && mbrSignature == 0 && gptDiskId == ZeroGuid
    {
      style := Raw;
      partitions := [];
      mbrSignature := 0;
      gptDiskId := ZeroGuid;
    }
  }

  /**
   * QueryPartitionLayout once the IOCTL has succeeded: the layout's style
   * is recorded, the MBR signature only for an MBR disk and the GPT disk id
   * only for a GPT disk, and the kept entries are appended to `out`.
   */
  method QueryPartitionLayout(layout: DriveLayout, out: PartitionLayoutInfo)
    modifies out
    ensures out.style == layout.style
    ensures out.mbrSignature == (if layout.style == Mbr then layout.mbrSignature else old(out.mbrSignature))
    ensures out.gptDiskId == (if layout.style == Gpt then layout.gptDiskId else old(out.gptDiskId))
    ensures out.partitions == old(out.partitions) + KeptEntries(layout.entries)
  {
    out.style := layout.style;
    if layout.style == Mbr {
      out.mbrSignature := layout.mbrSignature;
    } else if layout.style == Gpt {
      out.gptDiskId := layout.gptDiskId;
    }
    var entries := layout.entries;
    for i := 0 to |entries|
      invariant out.style == layout.style
      invariant out.mbrSignature == (if layout.style == Mbr then layout.mbrSignature else old(out.mbrSignature))
      invariant out.gptDiskId == (if layout.style == Gpt then layout.gptDiskId else old(out.gptDiskId))
      invariant out.partitions == old(out.partitions) + KeptEntries(entries[..i])
    {
      assert entries[..i + 1][..i] == entries[..i];
      var pe := entries[i];
      if pe.partitionLength == 0 {
        continue;
      }
      var entry := EntryFrom(pe);
      out.partitions := out.partitions + [entry];
    }
    assert entries[..|entries|] == entries;
  }

  /**
   * The filter keeps exactly the slots with a non-zero length, in their
   * original order: the j-th kept entry comes from the j-th such slot, with
   * its number, offset, length and style copied, its MBR fields copied iff
   * the slot is MBR-style (zero otherwise) and its GPT fields copied iff the
   * slot is GPT-style (zero otherwise).
   */
  lemma KeptEntriesAreNonEmptySlots(entries: seq<PartitionInformation>)
    ensures var kept := KeptEntries(entries);
            var pos := KeptPositions(entries, IsPresent);
            |kept| == |pos| &&
            (forall i :: 0 <= i < |entries| ==> (entries[i].partitionLength != 0 <==> i in pos)) &&
            (forall j, k :: 0 <= j < k < |pos| ==> pos[j] < pos[k]) &&
            forall j :: 0 <= j < |pos| ==>
              pos[j] < |entries| &&
              var pe := entries[pos[j]];
              var e := kept[j];
              e.partitionNumber == pe.partitionNumber && e.startingOffset == pe.startingOffset &&
              e.length == pe.partitionLength && e.length != 0 && e.style == pe.style &&
              (e.mbrType, e.mbrBootIndicator) == (if pe.style == Mbr then (pe.mbr.partitionType, pe.mbr.bootIndicator) else (0, false)) &&
              (e.gptType, e.gptId) == (if pe.style == Gpt then (pe.gpt.partitionType, pe.gpt.partitionId) else (ZeroGuid, ZeroGuid)) &&
              e.gptName == (if pe.style == Gpt then GptName(pe.gpt.name) else [])
  {
    FilterMapSelects(entries, IsPresent, EntryFrom);
  }
}
