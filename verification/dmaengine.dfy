/** The bus-master register protocol of triton_dmaproc and dma_intr
    (linux/src/drivers/block/triton.c:108-131, 286-329).

    The three registers of one channel of a Bus Master IDE controller
    (SFF-8038i) are a record: the command byte at `dma_base` (bit 0 starts
    and stops the engine, bit 3 selects a read from the drive into memory),
    the status byte at `dma_base + 2` (bits 0-2: active, error, interrupt)
    and the PRD table address at `dma_base + 4`.  On entry to a routine the
    record holds the registers as the routine reads them; the record it
    returns holds the values the routine wrote.  The controller changes the
    status byte on its own between calls (it clears the bits written as ones
    and raises the interrupt bit at the end of a transfer), so a sequence of
    calls passes the status the hardware shows next as a fresh value, as
    DiskTransferRoundTrip does.  Port I/O itself is not modelled.  The drive
    status byte `GET_STAT()` is the `driveStat` input and the test `OK_STAT`
    applied to it (a macro of the IDE layer) is the `driveOk` input; what
    the IDE layer does next (retiring the request, reporting an error) is
    the outcome returned. */
module DmaEngine {
  import opened Options
  import opened Prd
  import opened Eligibility

  datatype Regs = Regs(command: bv8, status: bv8, prdTable: nat)

  /** The actions of `ide_dma_action_t`; `OtherAction` is any value the
      switch has no case for. */
  datatype Action = DmaRead | DmaWrite | DmaBegin | DmaCheck | DmaAbort
                  | DmaStatusBad | DmaTransferred | OtherAction

  /** `drive->media`: only a disk has the command issued by this routine. */
  datatype Media = Disk | NotDisk

  /** READ DMA and WRITE DMA of the ATA command set. */
  const WIN_READDMA: bv8 := 0xC8
  const WIN_WRITEDMA: bv8 := 0xCA

  /** The command-byte bits: start/stop and the read direction. */
  const START: bv8 := 1
  const READ_DIR: bv8 := 8

  /** What one call of triton_dmaproc leaves behind: its return code, the
      registers, the drive record, the entries written to the table memory,
      and the ATA command issued to the drive with `dma_intr` armed as
      interrupt handler, if any. */
  datatype Effect = Effect(rc: int, regs: Regs, drive: Drive, written: seq<Entry>, issued: Option<bv8>)

  /** The DMA status says the transfer ended well: interrupt raised, no
      error, engine no longer active. */
  predicate StatusGood(status: bv8)
  {
    status & 7 == 4
  }

  /** `ide_dma_abort` and the stop in dma_intr: clear bit 0 of the command. */
  function Stop(r: Regs): (s: Regs)
    ensures s.command & START == 0 && s.command | START == r.command | START
    ensures s.status == r.status && s.prdTable == r.prdTable
  {
    r.(command := r.command & 0xFE)
  }

  /** `ide_dma_begin`: set bit 0 of the command. */
  function Start(r: Regs): (s: Regs)
    ensures s.command & START == START && s.command & 0xFE == r.command & 0xFE
    ensures s.status == r.status && s.prdTable == r.prdTable
  {
    r.(command := r.command | START)
  }

  /** Stopping undoes starting, and starting undoes stopping, for a
      register set in the corresponding state. */
  lemma StartStopInverse(r: Regs)
    ensures r.command & START == 0 ==> Stop(Start(r)) == r
    ensures r.command & START == START ==> Start(Stop(r)) == r
  {
  }

  /** Preparing a transfer (triton.c:316-328): build the table; on failure
      nothing is written to the registers.  Otherwise the table address is
      loaded, the direction written with the engine stopped, the error and
      interrupt bits written back as ones to clear them, and for a disk the
      command is issued and the engine started. */
  function Prepare(reading: bool, r: Regs, tableAddr: nat, rq: Request, media: Media, d: Drive): (e: Effect)
    ensures e.drive == d && e.written == Build(rq).table
    ensures e.rc == Build(rq).rc
    ensures e.rc == 1 ==> e.regs == r && e.issued.None?
    ensures e.rc == 0 ==>
      e.regs.prdTable == tableAddr
      && (e.regs.command & READ_DIR != 0 <==> reading)
      && (e.regs.command & START != 0 <==> media == Disk)
      && e.regs.command & 0xF6 == 0
      && e.regs.status & 6 == 6 && e.regs.status & 0xF9 == r.status & 0xF9
      && (e.issued.Some? <==> media == Disk)
      && (e.issued.Some? ==> e.issued.value == if reading then WIN_READDMA else WIN_WRITEDMA)
  {
    var b := Build(rq);
    if b.rc != 0 then Effect(1, r, d, b.table, None)
    else
      var dir: bv8 := if reading then READ_DIR else 0;
      var armed := Regs(dir, r.status | 6, tableAddr);
      if media != Disk then Effect(0, armed, d, b.table, None)
      else Effect(0, Start(armed), d, b.table, Some(if reading then WIN_READDMA else WIN_WRITEDMA))
  }

  /** triton_dmaproc: the dispatcher over the action. */
  function DmaProc(func: Action, r: Regs, tableAddr: nat, rq: Request, media: Media,
                   forceDma: bool, chipset: Chipset, d: Drive): (e: Effect)
    ensures func == DmaAbort ==> e == Effect(0, Stop(r), d, [], None)
    ensures func == DmaBegin ==> e == Effect(0, Start(r), d, [], None)
    ensures func == DmaStatusBad ==>
      e.regs == r && e.drive == d && (e.rc == 1 <==> !StatusGood(r.status)) && (e.rc == 0 || e.rc == 1)
    ensures func == DmaTransferred ==> e == Effect(0, r, d, [], None)
    ensures func == DmaCheck ==>
      e.regs == r && e.issued.None? && Check(e.rc, e.drive) == ConfigDriveForDma(forceDma, chipset, d)
    ensures func in {DmaRead, DmaWrite} ==> e == Prepare(func == DmaRead, r, tableAddr, rq, media, d)
    ensures func == OtherAction ==> e == Effect(1, r, d, [], None)
  {
    match func
    case DmaAbort => Effect(0, Stop(r), d, [], None)
    case DmaCheck =>
      var c := ConfigDriveForDma(forceDma, chipset, d);
      Effect(c.rc, r, c.drive, [], None)
    case DmaWrite => Prepare(false, r, tableAddr, rq, media, d)
    case DmaRead => Prepare(true, r, tableAddr, rq, media, d)
    case DmaStatusBad => Effect(if StatusGood(r.status) then 0 else 1, r, d, [], None)
    case DmaTransferred => Effect(0, r, d, [], None)
    case DmaBegin => Effect(0, Start(r), d, [], None)
    case OtherAction => Effect(1, r, d, [], None)
  }

  /** What dma_intr asks of the IDE layer: retire the request, or report an
      error through `ide_error`, which is handed the drive status byte. */
  datatype Outcome = Completed | Failed(driveStatus: bv8)

  datatype Interrupt = Interrupt(regs: Regs, outcome: Outcome)

  /** dma_intr: the DMA status is read first, then the engine is stopped and
      the drive status read; the request completes only when the drive
      status passes `OK_STAT` (`driveOk`) and the DMA status read says the
      transfer ended well.  A bad DMA status is only logged: the error
      reported is always the drive status. */
  function DmaIntr(r: Regs, driveStat: bv8, driveOk: bool): (i: Interrupt)
    ensures i.regs == Stop(r)
    ensures i.outcome == Completed <==> driveOk && StatusGood(r.status)
    ensures i.outcome.Failed? ==> i.outcome.driveStatus == driveStat
  {
    var dmaStat := r.status;
    var stopped := Stop(r);
    if driveOk && StatusGood(dmaStat) then Interrupt(stopped, Completed)
    else Interrupt(stopped, Failed(driveStat))
  }

  /** `ide_dma_status_bad` and dma_intr agree: with a good drive status the
      interrupt completes the request exactly when the status check reports
      nothing bad. */
  lemma StatusCheckAgreesWithInterrupt(r: Regs, tableAddr: nat, rq: Request, media: Media,
                                       forceDma: bool, chipset: Chipset, d: Drive, driveStat: bv8)
    ensures DmaIntr(r, driveStat, true).outcome == Completed
      <==> DmaProc(DmaStatusBad, r, tableAddr, rq, media, forceDma, chipset, d).rc == 0
  {
  }

  /** A whole disk transfer: after a successful prepare the engine runs in
      the chosen direction with the new table; at the interrupt the
      controller shows `hwStatus` in the status byte, and the interrupt
      stops the engine, leaving the direction and table in place.  The
      request completes exactly when both the drive and `hwStatus` are
      good, and otherwise the drive status is reported. */
  lemma DiskTransferRoundTrip(reading: bool, r: Regs, tableAddr: nat, rq: Request, d: Drive,
                              hwStatus: bv8, driveStat: bv8, driveOk: bool)
    requires Build(rq).rc == 0
    ensures var p := Prepare(reading, r, tableAddr, rq, Disk, d);
      var i := DmaIntr(p.regs.(status := hwStatus), driveStat, driveOk);
      p.regs.command & START == START
      && i.regs.command & START == 0
      && (i.regs.command & READ_DIR != 0 <==> reading)
      && i.regs.prdTable == tableAddr
      && (i.outcome == Completed <==> driveOk && StatusGood(hwStatus))
      && (i.outcome != Completed ==> i.outcome == Failed(driveStat))
  {
  }
}
