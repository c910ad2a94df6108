/**
 * The SD card discovery tool's drive classification (main.cpp): the
 * first-match-wins decision list of ClassifyDrive over a drive's bus type,
 * removable flag, vendor/product strings and hardware ids, and the wider
 * "SD candidate" test that decides which drives the summary lists.
 */
module DriveClassifier {
  import opened DescriptorStrings

  /** STORAGE_BUS_TYPE; `Other` holds any code outside the named values. */
  datatype BusType =
    | Unknown | Scsi | Atapi | Ata | Ieee1394 | Ssa | Fibre | Usb | Raid | IScsi
    | Sas | Sata | Sd | Mmc | Virtual | FileBackedVirtual | Spaces | Nvme | Scm | Ufs
    | Other(code: nat)

  /**
   * What the classification reads of a physical drive: the descriptor's bus
   * type, RemovableMedia flag, vendor and product ids, and the SetupDi
   * hardware-id string (the REG_MULTI_SZ ids joined with "; ").
   */
  datatype DriveInfo = DriveInfo(
    busType: BusType,
    removableMedia: bool,
    vendorId: string,
    productId: string,
    hardwareIds: string)

  /** The eight outcomes of ClassifyDrive, in rule order. */
  datatype DriveClass =
    | NativeSd
    | NativeMmc
    | UsbCardReader
    | UsbHardwareIdMatch
    | UsbRemovable
    | UsbFixed
    | FixedDisk
    | RemovableMedia

  /** The text ClassifyDrive returns for each outcome. */
  function Description(c: DriveClass): string
  {
    match c
    case NativeSd => "SD Card (native SD bus)"
    case NativeMmc => "MMC Card (native MMC bus)"
    case UsbCardReader => "Likely SD Card (USB card reader detected)"
    case UsbHardwareIdMatch => "Likely SD Card (hardware ID match)"
    case UsbRemovable => "USB Removable Media (could be SD in USB reader)"
    case UsbFixed => "USB Fixed Disk"
    case FixedDisk => "Fixed Disk"
    case RemovableMedia => "Removable Media"
  }

  /** Position of each outcome's rule in the decision list. */
  function Rank(c: DriveClass): nat
  {
    match c
    case NativeSd => 0
    case NativeMmc => 1
    case UsbCardReader => 2
    case UsbHardwareIdMatch => 3
    case UsbRemovable => 4
    case UsbFixed => 5
    case FixedDisk => 6
    case RemovableMedia => 7
  }

  /** The product or vendor id names a card reader. */
  predicate NamesCardReader(d: DriveInfo)
  {
    ContainsCaseInsensitive(d.productId, "card reader") ||
    ContainsCaseInsensitive(d.productId, "sd/mmc") ||
    ContainsCaseInsensitive(d.productId, "sd card") ||
    ContainsCaseInsensitive(d.productId, "microsd") ||
    ContainsCaseInsensitive(d.productId, "cardreader") ||
    ContainsCaseInsensitive(d.productId, "multi-card") ||
    ContainsCaseInsensitive(d.vendorId, "card reader")
  }

  /** The hardware ids that mark an SD/MMC function. */
  const SdHardwareIdNeedles: seq<string> := ["SD\\", "SDA\\", "SDMMC\\"]

  predicate HasSdHardwareId(d: DriveInfo)
  {
    ContainsCaseInsensitive(d.hardwareIds, "SD\\") ||
    ContainsCaseInsensitive(d.hardwareIds, "SDA\\") ||
    ContainsCaseInsensitive(d.hardwareIds, "SDMMC\\")
  }

  /** The condition of each rule on its own, ignoring the rules before it. */
  predicate Rule(c: DriveClass, d: DriveInfo)
  {
    match c
    case NativeSd => d.busType == Sd
    case NativeMmc => d.busType == Mmc
    case UsbCardReader => d.busType == Usb && d.removableMedia && NamesCardReader(d)
    case UsbHardwareIdMatch => d.busType == Usb && d.removableMedia && HasSdHardwareId(d)
    case UsbRemovable => d.busType == Usb && d.removableMedia
    case UsbFixed => d.busType == Usb && !d.removableMedia
    case FixedDisk => !d.removableMedia
    case RemovableMedia => true
  }

  /** `c` is the first outcome in the list whose rule holds for `d`. */
  predicate FirstMatch(c: DriveClass, d: DriveInfo)
  {
    Rule(c, d) && forall c' :: Rank(c') < Rank(c) ==> !Rule(c', d)
  }

  /** ClassifyDrive's decision list, as the outcome it selects. */
  function Classify(d: DriveInfo): (c: DriveClass)
    ensures FirstMatch(c, d)
  {
    if d.busType == Sd then NativeSd
    else if d.busType == Mmc then NativeMmc
    else if d.busType == Usb && d.removableMedia then
      if NamesCardReader(d) then UsbCardReader
      else if HasSdHardwareId(d) then UsbHardwareIdMatch
      else UsbRemovable
    else if d.busType == Usb && !d.removableMedia then UsbFixed
    else if !d.removableMedia then FixedDisk
    else RemovableMedia
  }

  /** The decision list has one first match, so the outcome is determined. */
  lemma FirstMatchUnique(c1: DriveClass, c2: DriveClass, d: DriveInfo)
    requires FirstMatch(c1, d) && FirstMatch(c2, d)
    ensures c1 == c2
  {
    assert Rank(c1) == Rank(c2) by {
      assert Rank(c1) < Rank(c2) ==> !Rule(c1, d);
      assert Rank(c2) < Rank(c1) ==> !Rule(c2, d);
    }
  }

  /** The eight texts are pairwise different, so the text names the outcome. */
  lemma DescriptionInjective(c1: DriveClass, c2: DriveClass)
    requires Description(c1) == Description(c2)
    ensures c1 == c2
  {
    // The eight texts have eight different lengths.
    DescriptionLength(c1);
    DescriptionLength(c2);
  }

  function TextLength(c: DriveClass): nat
  {
    match c
    case NativeSd => 23
    case NativeMmc => 25
    case UsbCardReader => 41
    case UsbHardwareIdMatch => 34
    case UsbRemovable => 47
    case UsbFixed => 14
    case FixedDisk => 10
    case RemovableMedia => 15
  }

  lemma DescriptionLength(c: DriveClass)
    ensures |Description(c)| == TextLength(c)
  {
  }

  /** The eight texts ClassifyDrive can return. */
  const AllDescriptions: set<string> := {
    Description(NativeSd), Description(NativeMmc), Description(UsbCardReader),
    Description(UsbHardwareIdMatch), Description(UsbRemovable), Description(UsbFixed),
    Description(FixedDisk), Description(RemovableMedia)
  }

  /**
   * ClassifyDrive: total, returns one of the eight texts, and the text of
   * the first rule that holds for the drive.
   */
  function ClassifyDrive(d: DriveInfo): (s: string)
    ensures s in AllDescriptions
    ensures forall c :: FirstMatch(c, d) ==> s == Description(c)
  {
    var c := Classify(d);
    forall c' | FirstMatch(c', d) ensures c' == c {
      FirstMatchUnique(c', c, d);
    }
    Description(c)
  }

  /** The `isSDCandidate` expression of wmain. */
  predicate IsSdCandidate(d: DriveInfo)
  {
    d.busType == Sd ||
    d.busType == Mmc ||
    (d.busType == Usb && d.removableMedia) ||
    ContainsCaseInsensitive(d.hardwareIds, "SD\\") ||
    ContainsCaseInsensitive(d.hardwareIds, "SDMMC\\")
  }

  /** A card outcome: native SD or MMC, or any of the USB-removable branches. */
  predicate IsCardClass(c: DriveClass)
  {
    Rank(c) <= 4
  }

  /**
   * The candidate test is the card outcomes plus the drives whose hardware
   * ids name an SD or SD/MMC function on another bus: every drive
   * ClassifyDrive places in a card branch is a candidate, and a candidate
   * outside those branches has an "SD\" or "SDMMC\" hardware id.
   */
  lemma CandidatesAreCardClassesOrSdIds(d: DriveInfo)
    ensures IsCardClass(Classify(d)) ==> IsSdCandidate(d)
    ensures IsSdCandidate(d) <==>
              IsCardClass(Classify(d)) ||
              ContainsCaseInsensitive(d.hardwareIds, "SD\\") ||
              ContainsCaseInsensitive(d.hardwareIds, "SDMMC\\")
  {
  }

  /**
   * An "SDA\" hardware id alone does not make a non-USB drive a candidate,
   * although on a removable USB drive it selects the hardware-ID branch.
   */
  lemma SdaIdAloneIsNotCandidate()
    ensures var d := DriveInfo(Sata, false, "", "", "SDA\\X");
            !IsSdCandidate(d) && Classify(d) == FixedDisk
    ensures var d := DriveInfo(Usb, true, "", "", "SDA\\X");
            Classify(d) == UsbHardwareIdMatch
  {
    SdaIdHasSdaNeedle();
    SdaIdLacksSdNeedle();
    SdaIdLacksSdmmcNeedle();
  }

  lemma SdaIdHasSdaNeedle()
    ensures ContainsCaseInsensitive("SDA\\X", "SDA\\")
  {
    var lh := LowerAscii("SDA\\X");
    assert lh == "sda\\x";
    assert OccursAt(lh, LowerAscii("SDA\\"), 0);
  }

  lemma SdaIdLacksSdNeedle()
    ensures !ContainsCaseInsensitive("SDA\\X", "SD\\")
  {
    var lh := LowerAscii("SDA\\X");
    assert lh == "sda\\x";
    assert LowerAscii("SD\\") == "sd\\";
    assert lh[0..3][2] == 'a' && lh[1..4][0] == 'd' && lh[2..5][0] == 'a';
    assert !Occurs(lh, "sd\\");
  }

  lemma SdaIdLacksSdmmcNeedle()
    ensures !ContainsCaseInsensitive("SDA\\X", "SDMMC\\")
  {
    assert |LowerAscii("SDMMC\\")| > |LowerAscii("SDA\\X")|;
  }

  /**
   * On the joined hardware-id string, the hardware-ID rule fires iff some
   * single id contains "SD\", "SDA\" or "SDMMC\" (ASCII case folded).
   */
  lemma HardwareIdRulePerId(d: DriveInfo, ids: seq<string>)
    requires d.hardwareIds == JoinItems(ids)
    ensures HasSdHardwareId(d) <==>
              exists k, n :: 0 <= k < |ids| && 0 <= n < |SdHardwareIdNeedles| &&
                ContainsCaseInsensitive(ids[k], SdHardwareIdNeedles[n])
  {
    var needles := SdHardwareIdNeedles;
    HasSdHardwareIdByNeedle(d);
    if HasSdHardwareId(d) {
      var n :| 0 <= n < |needles| && ContainsCaseInsensitive(d.hardwareIds, needles[n]);
      NeedleJoinable(n);
      JoinedContains(ids, needles[n]);
      var k :| 0 <= k < |ids| && ContainsCaseInsensitive(ids[k], needles[n]);
      assert 0 <= k < |ids| && 0 <= n < |needles| && ContainsCaseInsensitive(ids[k], needles[n]);
    }
    if exists k, n :: 0 <= k < |ids| && 0 <= n < |needles| && ContainsCaseInsensitive(ids[k], needles[n]) {
      var k, n :| 0 <= k < |ids| && 0 <= n < |needles| && ContainsCaseInsensitive(ids[k], needles[n]);
      NeedleJoinable(n);
      JoinedContains(ids, needles[n]);
    }
  }

  /** The hardware-ID rule is "some needle of the list occurs". */
  lemma HasSdHardwareIdByNeedle(d: DriveInfo)
    ensures HasSdHardwareId(d) <==>
              exists n :: 0 <= n < |SdHardwareIdNeedles| && ContainsCaseInsensitive(d.hardwareIds, SdHardwareIdNeedles[n])
  {
    var needles := SdHardwareIdNeedles;
    if HasSdHardwareId(d) {
      if ContainsCaseInsensitive(d.hardwareIds, needles[0]) {
      } else if ContainsCaseInsensitive(d.hardwareIds, needles[1]) {
      } else {
        assert ContainsCaseInsensitive(d.hardwareIds, needles[2]);
      }
    }
  }

  /** Each needle is non-empty and holds neither ';' nor ' '. */
  lemma NeedleJoinable(n: nat)
    requires n < |SdHardwareIdNeedles|
    ensures SdHardwareIdNeedles[n] != [] && SeparatorFree(SdHardwareIdNeedles[n])
  {
  }
}
