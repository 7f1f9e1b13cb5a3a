/** config_drive_for_dma (linux/src/drivers/block/triton.c:203-269): the
    decision whether a drive is driven by DMA.

    The inputs are the interface's chipset tag and the drive's ATA IDENTIFY
    DEVICE data: `capability` (word 49, bit 0 here standing for DMA
    support as the driver reads it), `field_valid` (word 53), `dma_mword`
    (word 63), `dma_ultra` (word 88), `word93` (word 93) and the model
    string (words 27-46).  The decision is an ordered first match; the
    CONFIG_BLK_DEV_FORCE_DMA build option is the `forceDma` parameter. */
module Eligibility {
  import opened Options

  /** The `hwif->chipset` tags this driver tests or sets; every other tag of
      the IDE layer is `OtherChipset`. */
  datatype Chipset = Unknown | Triton | Udma | Ultra66 | Hpt343 | OtherChipset

  /** The IDENTIFY fields the decision reads. */
  datatype DriveId = DriveId(
    capability: bv8,
    fieldValid: bv16,
    dmaMword: bv16,
    dmaUltra: bv16,
    word93: bv16,
    model: string)

  /** The drive fields the decision reads and writes; `id` is NULL when the
      drive gave no IDENTIFY data. */
  datatype Drive = Drive(id: Option<DriveId>, usingDma: bool, keepSettings: bool)

  /** Drives known to work with DMA whatever their mode bits (triton.c:56-60). */
  const GOOD_DMA_DRIVES: seq<string> :=
    ["Micropolis 2112A", "CONNER CTMA 4000", "CONNER CTT8000-A", "QEMU HARDDISK"]

  /** Drives DMA is never enabled on (triton.c:77-81). */
  const BAD_DMA_DRIVES: seq<string> :=
    ["WDC AC11000H", "WDC AC22100H", "WDC AC32500H", "WDC AC33100H"]

  const QEMU_MODEL: string := "QEMU HARDDISK"

  /** The return code and the drive after the check. */
  datatype Check = Check(rc: int, drive: Drive)

  /** UltraDMA mode 4 supported and selected, the drive reporting an 80-wire
      cable (word 93 bit 13), on a Promise Ultra66 interface. */
  predicate Ultra4(id: DriveId, chipset: Chipset)
  {
    id.fieldValid & 4 != 0 && id.dmaUltra & 0x1010 == 0x1010
    && id.word93 & 0x2000 != 0 && chipset == Ultra66
  }

  /** UltraDMA mode 2 supported and selected. */
  predicate Ultra2(id: DriveId)
  {
    id.fieldValid & 4 != 0 && id.dmaUltra & 0x404 == 0x404
  }

  /** Multiword DMA mode 2 supported and selected. */
  predicate Mword2(id: DriveId)
  {
    id.fieldValid & 2 != 0 && id.dmaMword & 0x404 == 0x404
  }

  /** config_drive_for_dma, branch by branch in the order of the C code. */
  function ConfigDriveForDma(forceDma: bool, chipset: Chipset, d: Drive): (r: Check)
    ensures r.rc == 0 || r.rc == 1
    ensures r.drive.id == d.id
    ensures r.rc == 0 ==> r.drive.usingDma
    ensures r.drive.keepSettings != d.keepSettings ==>
      !forceDma && chipset != Hpt343 && d.id.Some? && d.id.value.model == QEMU_MODEL
  {
    if forceDma then Check(0, d.(usingDma := true))
    else if chipset == Hpt343 then Check(1, d.(usingDma := false))
    else if d.id.None? || d.id.value.capability & 1 == 0 then Check(1, d)
    else
      var id := d.id.value;
      if id.model in BAD_DMA_DRIVES then Check(1, d.(usingDma := false))
      else if id.model == QEMU_MODEL then Check(1, d.(usingDma := true, keepSettings := true))
      else if Ultra4(id, chipset) then Check(0, d.(usingDma := true))
      else if Ultra2(id) then Check(0, d.(usingDma := true))
      else if Mword2(id) then Check(0, d.(usingDma := true))
      else if id.model in GOOD_DMA_DRIVES then Check(0, d.(usingDma := true))
      else Check(1, d)
  }

  /** An hpt343 interface, or a model on the bad list, leaves DMA off with
      return code 1 whatever the mode bits say (unless the build forces DMA). */
  lemma ForcedDisable(chipset: Chipset, d: Drive)
    requires chipset == Hpt343
      || (d.id.Some? && d.id.value.capability & 1 != 0 && d.id.value.model in BAD_DMA_DRIVES)
    ensures ConfigDriveForDma(false, chipset, d).rc == 1
    ensures !ConfigDriveForDma(false, chipset, d).drive.usingDma
  {
  }

  /** Without IDENTIFY data or without the DMA capability bit, the drive is
      left exactly as it was and the return code is 1. */
  lemma NoCapabilityUntouched(chipset: Chipset, d: Drive)
    requires chipset != Hpt343
    requires d.id.None? || d.id.value.capability & 1 == 0
    ensures ConfigDriveForDma(false, chipset, d) == Check(1, d)
  {
  }

  /** The emulated disk gets DMA and keeps its settings, yet the return code
      is 1, the value that elsewhere means "DMA not enabled". */
  lemma QemuEnabledButReportsOne(chipset: Chipset, d: Drive)
    requires chipset != Hpt343 && d.id.Some? && d.id.value.capability & 1 != 0
    requires d.id.value.model == QEMU_MODEL
    ensures ConfigDriveForDma(false, chipset, d).rc == 1
    ensures ConfigDriveForDma(false, chipset, d).drive.usingDma
    ensures ConfigDriveForDma(false, chipset, d).drive.keepSettings
  {
  }

  /** The enable ladder as one condition: DMA is enabled with return code 0
      exactly when the build forces it, or the interface is not an hpt343,
      the drive reports DMA capability, is neither blacklisted nor the
      emulated disk, and has UltraDMA mode 4 on an Ultra66 interface,
      UltraDMA mode 2, multiword DMA mode 2, or a whitelisted model. */
  lemma EnableLadder(forceDma: bool, chipset: Chipset, d: Drive)
    ensures ConfigDriveForDma(forceDma, chipset, d).rc == 0 <==>
      forceDma ||
      (chipset != Hpt343 && d.id.Some? && d.id.value.capability & 1 != 0
       && d.id.value.model !in BAD_DMA_DRIVES && d.id.value.model != QEMU_MODEL
       && (Ultra4(d.id.value, chipset) || Ultra2(d.id.value) || Mword2(d.id.value)
           || d.id.value.model in GOOD_DMA_DRIVES))
  {
  }

  /** When the ladder finds nothing, `using_dma` is not written. */
  lemma FallThroughLeavesDrive(chipset: Chipset, d: Drive)
    requires ConfigDriveForDma(false, chipset, d).rc == 1
    requires d.id.Some? && d.id.value.model !in BAD_DMA_DRIVES && d.id.value.model != QEMU_MODEL
    requires chipset != Hpt343
    ensures ConfigDriveForDma(false, chipset, d).drive == d
  {
  }

  /** A drive with UltraDMA mode 2 gets the same answer on every interface
      but an hpt343: the mode-4 test only matters for drives without mode 2. */
  lemma Ultra2IgnoresChipset(c1: Chipset, c2: Chipset, d: Drive)
    requires c1 != Hpt343 && c2 != Hpt343
    requires d.id.Some? && Ultra2(d.id.value)
    ensures ConfigDriveForDma(false, c1, d) == ConfigDriveForDma(false, c2, d)
  {
  }
}
