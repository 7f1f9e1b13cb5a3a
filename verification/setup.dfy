/** Controller setup: the decisions of ide_init_triton and init_triton_dma
    (linux/src/drivers/block/triton.c:355-381, 475-996).

    The controller's configuration space is a `PciConfig.Config` snapshot
    that the setup reads and writes; the IDE interface table `ide_hwifs` is
    a sequence of interface records of any length (MAX_HWIFS is defined in
    ide.h, which is not part of this model).  Everything the code learns
    from outside the controller's configuration space is an input in `Env`:
    which checked PCI BIOS accesses fail, what answers on the default
    bus-master port, the M1533 bridge bytes on ALi systems, whether VIA's
    timing writes succeed, the page allocator's answer, and the value an
    uninitialised `bmiba` happens to hold.  The I/O port regions reserved
    so far are a set of port numbers, standing for check_region and
    request_region. */
module ControllerSetup {
  import opened Options
  import opened PciConfig
  import opened Eligibility
  import Prd

  /** The PCI vendors the setup distinguishes. */
  datatype Vendor = Intel | SiS | Via | Tti | Promise | Artop | Ali | OtherVendor

  /** The device ids the setup distinguishes. */
  datatype Device = Hpt343Device | Pdc20246 | Pdc20262 | Atp850uf | OtherDevice

  /** Chipsets on the motherboard, with their channels at 0x1f0 and 0x170. */
  predicate Onboard(v: Vendor)
  {
    v == Intel || v == SiS || v == Via || v == Ali
  }

  /** Add-in cards, whose channels are wherever their BARs say. */
  predicate Offboard(v: Vendor)
  {
    v == Promise || v == Artop || v == Tti
  }

  /** Bus-master base addresses used when the BIOS left BAR 4 at zero. */
  const DEFAULT_BMIBA: bv32 := 0xe800
  const DEFAULT_BMCRBA: bv32 := 0xcc00
  const DEFAULT_BMALIBA: bv32 := 0xd400

  const HPT343_PCI_INIT_REG: Offset := 0x80

  /** The primary and secondary legacy command-block ports. */
  const PRIMARY_PORT: nat := 0x1f0
  const SECONDARY_PORT: nat := 0x170

  /** The PCI BIOS accesses whose return code the setup tests; a failing
      one ends the setup (`goto quit`).  A failing write changes nothing. */
  datatype Access = ReadCommand | ReadBackCommand | ReadBar4 | ClearIoDecode
                  | WriteBar4 | RestoreCommand | ReadTimings

  /** Bytes 0x58 (IDE interface control), 0x44 and 0x75 (interrupt
      routing) of the ALi M1533 bridge. */
  datatype Bridge = Bridge(ideic: bv8, inmir44: bv8, inmir75: bv8)

  datatype Env = Env(
    vendor: Vendor,
    device: Device,
    failing: set<Access>,
    masterSticks: bool,     // the bus-master bit written to PCI_COMMAND is kept
    defaultPortFree: bool,  // the default bus-master port reads 0xff
    bridgeset: bool,        // setup_aladdin succeeded on the last bridge found
    bridge: Bridge,
    viaTimingsOk: bool,     // set_via_timings succeeds
    staleBmiba: bv32,       // bmiba before anything assigns it
    pages: seq<nat>)        // the answers of successive __get_free_pages calls, 0 for failure

  /** The fields of `ide_hwif_t` the setup reads or writes. */
  datatype Hwif = Hwif(
    chipset: Chipset,
    ioBase: nat,
    ctlPort: nat,
    irq: nat,
    noprobe: bool,
    serialized: bool,
    dmaBase: nat,
    dmaTable: nat,
    dmaproc: bool)

  /** Configuration space, interface table, reserved I/O ports, the
      static `dmatable` cursor of init_triton_dma (0 before the first
      successful allocation), and the number of allocations tried so far. */
  datatype Machine = Machine(cfg: Config, hwifs: seq<Hwif>, busy: set<nat>, pool: nat, allocs: nat)

  /** What the `n`th call of `__get_free_pages` answers; a call past the
      answers given fails. */
  function PageAnswer(env: Env, n: nat): (a: nat)
    ensures n < |env.pages| ==> a == env.pages[n]
    ensures n >= |env.pages| ==> a == 0
  {
    if n < |env.pages| then env.pages[n] else 0
  }

  // ---------------------------------------------------------------------
  // init_triton_dma

  /** The bytes of table memory each interface gets: half a page. */
  const TABLE_SLICE: nat := Prd.PRD_ENTRIES * Prd.PRD_BYTES

  predicate RegionFree(busy: set<nat>, base: nat, n: nat)
  {
    forall p :: base <= p < base + n ==> p !in busy
  }

  /** The ports `base .. base + n - 1`. */
  function Ports(base: nat, n: nat): (r: set<nat>)
    ensures forall p :: p in r <==> base <= p < base + n
  {
    if n == 0 then {} else Ports(base, n - 1) + {base + n - 1}
  }

  function Reserve(busy: set<nat>, base: nat, n: nat): (r: set<nat>)
    ensures forall p :: p in r <==> p in busy || base <= p < base + n
  {
    busy + Ports(base, n)
  }

  datatype DmaInit = DmaInit(hwif: Hwif, busy: set<nat>, pool: nat)

  /** init_triton_dma asks for memory exactly when it reserves the ports
      and the cursor is still 0: never before, or every earlier request
      failed. */
  predicate Allocates(busy: set<nat>, base: nat, pool: nat)
  {
    RegionFree(busy, base, 8) && pool == 0
  }

  /** init_triton_dma: if the eight ports at `base` are free they are
      reserved and become the interface's `dma_base`; the table memory is
      the next half-page slice of a block allocated on first use, and only
      an interface that gets one gets `triton_dmaproc`. */
  function InitTritonDma(hw: Hwif, base: nat, busy: set<nat>, pool: nat, pages: nat): (r: DmaInit)
    ensures !RegionFree(busy, base, 8) ==> r == DmaInit(hw, busy, pool)
    ensures RegionFree(busy, base, 8) ==>
      r.hwif.dmaBase == base && r.busy == Reserve(busy, base, 8)
      && r.hwif.(dmaBase := hw.dmaBase, dmaTable := hw.dmaTable, dmaproc := hw.dmaproc) == hw
    ensures RegionFree(busy, base, 8) && (pool != 0 || pages != 0) ==>
      r.hwif.dmaproc && r.hwif.dmaTable == (if pool != 0 then pool else pages)
      && r.pool == r.hwif.dmaTable + TABLE_SLICE
    ensures RegionFree(busy, base, 8) && pool == 0 && pages == 0 ==>
      r.pool == 0 && r.hwif == hw.(dmaBase := base)
  {
    if !RegionFree(busy, base, 8) then DmaInit(hw, busy, pool)
    else
      var hw1 := hw.(dmaBase := base);
      var table := if pool == 0 then pages else pool;
      if table == 0 then DmaInit(hw1, Reserve(busy, base, 8), table)
      else DmaInit(hw1.(dmaTable := table, dmaproc := true), Reserve(busy, base, 8), table + TABLE_SLICE)
  }

  /** Two interfaces set up one after the other get disjoint port ranges
      and adjacent, non-overlapping table slices; a range once reserved is
      never handed out again. */
  lemma SuccessiveSlices(hw1: Hwif, hw2: Hwif, b1: nat, b2: nat, busy: set<nat>, pool: nat, pages: nat)
    requires RegionFree(busy, b1, 8) && (pool != 0 || pages != 0)
    ensures var r1 := InitTritonDma(hw1, b1, busy, pool, pages);
      var r2 := InitTritonDma(hw2, b2, r1.busy, r1.pool, pages);
      !RegionFree(r1.busy, b1, 8)
      && (RegionFree(r1.busy, b2, 8) ==>
            (b2 + 8 <= b1 || b1 + 8 <= b2)
            && r2.hwif.dmaproc
            && r2.hwif.dmaTable == r1.hwif.dmaTable + TABLE_SLICE)
  {
    var r1 := InitTritonDma(hw1, b1, busy, pool, pages);
    assert b1 in r1.busy;
    if RegionFree(r1.busy, b2, 8) {
      assert b2 !in r1.busy;
      assert !(b2 <= b1 < b2 + 8);
    }
  }

  /** A failed allocation leaves the cursor at 0, so the next interface
      set up asks again, and may get a table where the first did not. */
  lemma RetryAfterFailedAllocation(hw1: Hwif, hw2: Hwif, b1: nat, b2: nat, busy: set<nat>, pages2: nat)
    requires RegionFree(busy, b1, 8) && b1 + 8 <= b2 && RegionFree(busy, b2, 8) && pages2 != 0
    ensures var r1 := InitTritonDma(hw1, b1, busy, 0, 0);
      var r2 := InitTritonDma(hw2, b2, r1.busy, r1.pool, pages2);
      Allocates(r1.busy, b2, r1.pool)
      && r1.hwif.dmaproc == hw1.dmaproc && r1.hwif.dmaTable == hw1.dmaTable
      && r2.hwif.dmaproc && r2.hwif.dmaTable == pages2
  {
    var r1 := InitTritonDma(hw1, b1, busy, 0, 0);
    assert forall p :: b2 <= p < b2 + 8 ==> p !in r1.busy;
  }

  /** Two slices make a page, and every table build_dmatable can write
      fits in one slice. */
  lemma TableFitsSlice(rq: Prd.Request)
    ensures 2 * TABLE_SLICE == Prd.PAGE_SIZE
    ensures |Prd.Build(rq).table| * Prd.PRD_BYTES < TABLE_SLICE
  {
  }

  // ---------------------------------------------------------------------
  // Vendor prologue (triton.c:498-631)

  const NO_PORTS: seq<bv16> := [0, 0, 0, 0, 0, 0]

  /** The six base address registers. */
  function Bars(c: Config): (bars: seq<bv32>)
    ensures |bars| == 6
  {
    seq(6, i requires 0 <= i < 6 => Dword(c, 0x10 + 4 * i))
  }

  /** The port an I/O BAR maps: the flag bits masked off, stored into an
      `unsigned short`. */
  function IoPort(bar: bv32): (p: bv16)
    ensures p & 3 == 0
  {
    ((bar & PCI_BASE_ADDRESS_IO_MASK) & 0xffff) as bv16
  }

  /** The ports of the I/O-space BARs among `bars`, in BAR order. */
  function IoBarsOf(bars: seq<bv32>): seq<bv16>
  {
    if |bars| == 0 then []
    else IoBarsOf(bars[..|bars| - 1])
         + (if bars[|bars| - 1] & PCI_BASE_ADDRESS_SPACE_IO != 0 then [IoPort(bars[|bars| - 1])] else [])
  }

  lemma IoBarsOfBound(bars: seq<bv32>)
    ensures |IoBarsOf(bars)| <= |bars|
  {
  }

  /** Ports padded with zeros to the six places of `io[6]`. */
  function Pad(xs: seq<bv16>): (io: seq<bv16>)
    requires |xs| <= 6
    ensures |io| == 6 && io[..|xs|] == xs
  {
    xs + NO_PORTS[|xs|..]
  }

  /** The `io[6]` array after the scan: the I/O BARs' ports, then zeros. */
  function IoBars(c: Config): (io: seq<bv16>)
    ensures |io| == 6
  {
    IoBarsOfBound(Bars(c));
    Pad(IoBarsOf(Bars(c)))
  }

  /** The scan loop of triton.c:612-617 as written: one pass over the BARs
      with a running count.  It fills `io` with the same ports, in the same
      order, as the filter above, every one four-aligned. */
  method ScanIoBars(c: Config) returns (io: seq<bv16>)
    ensures io == IoBars(c)
    ensures forall i :: 0 <= i < 6 ==> io[i] & 3 == 0
  {
    io := NO_PORTS;
    var count := 0;
    var reg := 0x10;
    ghost var bars := Bars(c);
    ghost var k := 0;
    while reg <= 0x24
      invariant 0 <= k <= 6 && reg == 0x10 + 4 * k
      invariant count == |IoBarsOf(bars[..k])| <= k
      invariant io == Pad(IoBarsOf(bars[..k]))
    {
      var tmp := Dword(c, reg);
      assert tmp == bars[k];
      if tmp & PCI_BASE_ADDRESS_SPACE_IO != 0 {
        ScanIo(bars, k);
        io := io[count := IoPort(tmp)];
        count := count + 1;
      } else {
        ScanSkip(bars, k);
      }
      reg := reg + 4;
      k := k + 1;
    }
    assert bars[..6] == bars;
    IoBarsAligned(bars);
    PadAligned(IoBarsOf(bars));
  }

  lemma PadAligned(xs: seq<bv16>)
    requires |xs| <= 6 && forall i :: 0 <= i < |xs| ==> xs[i] & 3 == 0
    ensures forall i :: 0 <= i < 6 ==> Pad(xs)[i] & 3 == 0
  {
    forall i | 0 <= i < 6
      ensures Pad(xs)[i] & 3 == 0
    {
      if i >= |xs| {
        assert Pad(xs)[i] == NO_PORTS[i];
      }
    }
  }

  /** An I/O BAR's port goes into the next free place. */
  lemma ScanIo(bars: seq<bv32>, k: nat)
    requires k < |bars| && |IoBarsOf(bars[..k])| <= k < 6
    requires bars[k] & PCI_BASE_ADDRESS_SPACE_IO != 0
    ensures |IoBarsOf(bars[..k + 1])| == |IoBarsOf(bars[..k])| + 1
    ensures Pad(IoBarsOf(bars[..k]))[|IoBarsOf(bars[..k])| := IoPort(bars[k])] == Pad(IoBarsOf(bars[..k + 1]))
  {
    IoBarsOfSnoc(bars, k);
    PadStep(IoBarsOf(bars[..k]), IoPort(bars[k]));
  }

  /** A memory BAR adds nothing. */
  lemma ScanSkip(bars: seq<bv32>, k: nat)
    requires k < |bars| && bars[k] & PCI_BASE_ADDRESS_SPACE_IO == 0
    ensures IoBarsOf(bars[..k + 1]) == IoBarsOf(bars[..k])
  {
    IoBarsOfSnoc(bars, k);
  }

  lemma IoBarsOfSnoc(bars: seq<bv32>, k: nat)
    requires k < |bars|
    ensures IoBarsOf(bars[..k + 1]) == IoBarsOf(bars[..k])
      + (if bars[k] & PCI_BASE_ADDRESS_SPACE_IO != 0 then [IoPort(bars[k])] else [])
  {
    assert bars[..k + 1][..k] == bars[..k];
  }

  /** Every scanned port is four-aligned. */
  lemma {:induction false} IoBarsAligned(bars: seq<bv32>)
    ensures forall i :: 0 <= i < |IoBarsOf(bars)| ==> IoBarsOf(bars)[i] & 3 == 0
  {
    if |bars| != 0 {
      IoBarsAligned(bars[..|bars| - 1]);
    }
  }

  /** Storing the next port into the zero-padded array. */
  lemma PadStep(xs: seq<bv16>, p: bv16)
    requires |xs| < 6
    ensures Pad(xs)[|xs| := p] == Pad(xs + [p])
  {
  }

  /** HPT343 without memory decode: with I/O decode off, BARs 0-3 are
      pointed at fixed offsets of BAR 4, and the command word restored. */
  function RemapHpt343(c: Config, cmd: bv16): (r: Config)
  {
    var c1 := SetWord(c, PCI_COMMAND, cmd & !PCI_COMMAND_IO);
    var b := Dword(c1, PCI_BASE_ADDRESS_4);
    var c2 := SetDword(c1, PCI_BASE_ADDRESS_0, b | 0x20);
    var c3 := SetDword(c2, PCI_BASE_ADDRESS_1, b | 0x34);
    var c4 := SetDword(c3, PCI_BASE_ADDRESS_2, b | 0x28);
    var c5 := SetDword(c4, PCI_BASE_ADDRESS_3, b | 0x3c);
    SetWord(c5, PCI_COMMAND, cmd)
  }

  /** What the vendor switch hands on: the configuration space after its
      writes, the HPT34x flag, `bmiba` so far and the scanned `io` ports. */
  datatype Prologue = Prologue(cfg: Config, hpt34x: bool, bmiba: bv32, io: seq<bv16>)

  /** The ROM enable and the BAR scan shared by Promise, Artop and HPT343. */
  function RomAndScan(c: Config, hpt34x: bool, bmiba: bv32): (p: Prologue)
    ensures |p.io| == 6
  {
    var rom := Dword(c, PCI_ROM_ADDRESS);
    var c1 := if rom != 0 then SetByte(c, PCI_ROM_ADDRESS, ((rom | PCI_ROM_ADDRESS_ENABLE) & 0xff) as bv8) else c;
    Prologue(c1, hpt34x, bmiba, IoBars(c1))
  }

  /** The vendor switch; None is the early return for an unsupported
      controller. */
  function VendorPrologue(env: Env, c: Config): (r: Option<Prologue>)
    ensures r.None? <==> env.vendor == OtherVendor || (env.vendor == Tti && env.device != Hpt343Device)
    ensures r.Some? ==> |r.value.io| == 6
    ensures r.Some? && r.value.hpt34x ==> env.vendor == Tti
  {
    match env.vendor
    case Intel => Some(Prologue(c, false, env.staleBmiba, NO_PORTS))
    case SiS => Some(Prologue(c, false, env.staleBmiba, NO_PORTS))
    case Via => Some(Prologue(c, false, env.staleBmiba, NO_PORTS))
    case Ali => Some(Prologue(c, false, env.staleBmiba, NO_PORTS))
    case Tti =>
      if env.device != Hpt343Device then None
      else
        var c1 := SetByte(c, HPT343_PCI_INIT_REG, 0);
        var cmd := Word(c1, PCI_COMMAND);
        if cmd & PCI_COMMAND_MEMORY != 0 then
          Some(RomAndScan(SetByte(c1, PCI_LATENCY_TIMER, 0x20), true, env.staleBmiba))
        else
          Some(RomAndScan(SetByte(RemapHpt343(c1, cmd), PCI_LATENCY_TIMER, 0x20), false, 0))
    case Promise =>
      var irq := Byte(c, PCI_INTERRUPT_LINE);
      var c1 := if Word(c, PCI_CLASS_DEVICE) != PCI_CLASS_STORAGE_IDE && Byte(c, PCI_INTERRUPT_LINE + 0x80) != irq
                then SetByte(c, PCI_INTERRUPT_LINE + 0x80, irq) else c;
      Some(RomAndScan(c1, false, env.staleBmiba))
    case Artop => Some(RomAndScan(c, false, env.staleBmiba))
    case OtherVendor => None
  }

  // ---------------------------------------------------------------------
  // Bus-master enable and base address (triton.c:635-687)

  datatype Master = MasterQuit(cfg: Config) | MasterGo(cfg: Config, dmaEnabled: bool, bmiba: bv32)

  /** The bus-master port the setup falls back to, by vendor. */
  function DefaultBmiba(v: Vendor): (b: bv32)
    ensures b & 0xfff0 == b && b != 0
  {
    if v == Ali then DEFAULT_BMALIBA else if v == Via then DEFAULT_BMCRBA else DEFAULT_BMIBA
  }

  /** One turn of the `do { ... } while (try_again--)` loop: BAR 4 masked to
      a port base; a zero base is repaired once, with I/O decode off, by
      writing the vendor's default, provided nothing answers there. */
  function ProbeBar(env: Env, c: Config, cmd: bv16, tryAgain: nat): (r: Master)
    ensures r.MasterGo? && r.dmaEnabled ==> r.bmiba != 0 && r.bmiba & 0xfff0 == r.bmiba
    ensures r.MasterGo? && !r.dmaEnabled ==> r.bmiba == 0
    decreases tryAgain
  {
    if ReadBar4 in env.failing then MasterQuit(c)
    else
      var b := Dword(c, PCI_BASE_ADDRESS_4) & 0xfff0;
      if b != 0 then MasterGo(c, true, b)
      else if !env.defaultPortFree || tryAgain == 0 then MasterGo(c, false, b)
      else if ClearIoDecode in env.failing then MasterQuit(c)
      else
        var c1 := SetWord(c, PCI_COMMAND, cmd & !PCI_COMMAND_IO);
        if WriteBar4 in env.failing then
          if RestoreCommand in env.failing then MasterQuit(c1)
          else MasterQuit(SetWord(c1, PCI_COMMAND, cmd | 5))
        else if RestoreCommand in env.failing then
          MasterQuit(SetDword(c1, PCI_BASE_ADDRESS_4, DefaultBmiba(env.vendor) | 1))
        else ProbeBar(env, RepairWrites(c, cmd, DefaultBmiba(env.vendor) | 1), cmd, tryAgain - 1)
  }

  /** The command register checks, then the base address: the setup quits
      if I/O decode is off; it turns bus mastering on if the BIOS did not,
      and goes on without DMA if the bit will not stay set. */
  function EnableMaster(env: Env, c: Config, bmiba0: bv32): (r: Master)
    ensures r.MasterGo? && r.dmaEnabled ==> r.bmiba != 0 && r.bmiba & 0xfff0 == r.bmiba
    ensures ReadCommand !in env.failing && Word(c, PCI_COMMAND) & PCI_COMMAND_IO == 0 ==> r == MasterQuit(c)
  {
    if ReadCommand in env.failing then MasterQuit(c)
    else
      var cmd := Word(c, PCI_COMMAND);
      if cmd & PCI_COMMAND_IO == 0 then MasterQuit(c)
      else
        var c1 := if cmd & PCI_COMMAND_MASTER != 0 || !env.masterSticks then c
                  else SetWord(c, PCI_COMMAND, cmd | PCI_COMMAND_MASTER);
        if cmd & PCI_COMMAND_MASTER == 0 && ReadBackCommand in env.failing then MasterQuit(c1)
        else
          var cmd1 := Word(c1, PCI_COMMAND);
          if cmd1 & PCI_COMMAND_MASTER == 0 then MasterGo(c1, false, bmiba0)
          else ProbeBar(env, c1, cmd1, 1)
  }

  /** With I/O decode and bus mastering already on, the setup goes
      straight to the base address, with configuration space untouched. */
  lemma MasterAlreadyOn(env: Env, c: Config, bmiba0: bv32)
    requires env.failing == {}
    requires Word(c, PCI_COMMAND) & 5 == 5
    ensures EnableMaster(env, c, bmiba0) == ProbeBar(env, c, Word(c, PCI_COMMAND), 1)
  {
    var cmd := Word(c, PCI_COMMAND);
    BothBits(cmd);
  }

  lemma BothBits(cmd: bv16)
    requires cmd & 5 == 5
    ensures cmd & PCI_COMMAND_IO != 0 && cmd & PCI_COMMAND_MASTER != 0
  {
  }

  /** A BAR the BIOS did set is taken as it is, masked to a port base, and
      configuration space is left alone. */
  lemma BarTakenAsSet(env: Env, c: Config, bmiba0: bv32)
    requires env.failing == {}
    requires Word(c, PCI_COMMAND) & 5 == 5
    requires Dword(c, PCI_BASE_ADDRESS_4) & 0xfff0 != 0
    ensures EnableMaster(env, c, bmiba0) == MasterGo(c, true, Dword(c, PCI_BASE_ADDRESS_4) & 0xfff0)
  {
    MasterAlreadyOn(env, c, bmiba0);
  }

  /** A zero BAR: when nothing answers at the vendor's default port, BAR 4
      is set to it and DMA goes on from there; otherwise DMA stays off and
      the BAR is not touched. */
  lemma ZeroBarFallsBack(env: Env, c: Config, bmiba0: bv32)
    requires env.failing == {}
    requires Word(c, PCI_COMMAND) & 5 == 5
    requires Dword(c, PCI_BASE_ADDRESS_4) & 0xfff0 == 0
    ensures env.defaultPortFree ==>
      EnableMaster(env, c, bmiba0).MasterGo? && EnableMaster(env, c, bmiba0).dmaEnabled
      && EnableMaster(env, c, bmiba0).bmiba == DefaultBmiba(env.vendor)
      && Dword(EnableMaster(env, c, bmiba0).cfg, PCI_BASE_ADDRESS_4) == DefaultBmiba(env.vendor) | 1
    ensures !env.defaultPortFree ==> EnableMaster(env, c, bmiba0) == MasterGo(c, false, 0)
  {
    MasterAlreadyOn(env, c, bmiba0);
    if env.defaultPortFree {
      RepairBar(env, c, Word(c, PCI_COMMAND));
    }
  }

  /** The repair turn of the loop on its own. */
  lemma RepairBar(env: Env, c: Config, cmd: bv16)
    requires env.failing == {} && env.defaultPortFree
    requires Dword(c, PCI_BASE_ADDRESS_4) & 0xfff0 == 0
    ensures ProbeBar(env, c, cmd, 1).MasterGo? && ProbeBar(env, c, cmd, 1).dmaEnabled
    ensures ProbeBar(env, c, cmd, 1).bmiba == DefaultBmiba(env.vendor)
    ensures Dword(ProbeBar(env, c, cmd, 1).cfg, PCI_BASE_ADDRESS_4) == DefaultBmiba(env.vendor) | 1
  {
    var c3 := RepairWrites(c, cmd, DefaultBmiba(env.vendor) | 1);
    RepairTurn(env, c, cmd);
    DefaultMasked(env.vendor);
    BarSet(env, c3, cmd);
  }

  lemma RepairTurn(env: Env, c: Config, cmd: bv16)
    requires env.failing == {} && env.defaultPortFree
    requires Dword(c, PCI_BASE_ADDRESS_4) & 0xfff0 == 0
    ensures ProbeBar(env, c, cmd, 1) == ProbeBar(env, RepairWrites(c, cmd, DefaultBmiba(env.vendor) | 1), cmd, 0)
  {
  }

  lemma BarSet(env: Env, c: Config, cmd: bv16)
    requires env.failing == {} && Dword(c, PCI_BASE_ADDRESS_4) & 0xfff0 != 0
    ensures ProbeBar(env, c, cmd, 0) == MasterGo(c, true, Dword(c, PCI_BASE_ADDRESS_4) & 0xfff0)
  {
  }

  /** The three writes of the repair: I/O decode off, BAR 4, command
      restored with I/O and bus master on. */
  function RepairWrites(c: Config, cmd: bv16, bar: bv32): (r: Config)
    ensures Dword(r, PCI_BASE_ADDRESS_4) == bar
  {
    var c1 := SetWord(c, PCI_COMMAND, cmd & !PCI_COMMAND_IO);
    var c2 := SetDword(c1, PCI_BASE_ADDRESS_4, bar);
    DwordWriteRead(c1, PCI_BASE_ADDRESS_4, bar, 0);
    DwordAfterWord(c2, PCI_COMMAND, cmd | 5, PCI_BASE_ADDRESS_4);
    SetWord(c2, PCI_COMMAND, cmd | 5)
  }

  lemma DefaultMasked(v: Vendor)
    ensures (DefaultBmiba(v) | 1) & 0xfff0 == DefaultBmiba(v)
  {
  }

  // ---------------------------------------------------------------------
  // Port-enable decode (triton.c:689-737)

  /** Where each vendor keeps the word that says which channels are on. */
  function TimingOffset(v: Vendor): (off: Offset)
    ensures off % 4 == 0
  {
    if v == Promise then 0x50
    else if v == Artop then 0x54
    else if v == SiS then 0x48
    else if v == Ali then 0x08
    else 0x40
  }

  /** The 32-bit shifts ALi and SiS apply before testing. */
  function DecodeTimings(v: Vendor, t: bv32): bv32
  {
    if v == Ali then (t << 16) >> 24
    else if v == SiS then (t << 8) >> 24
    else t
  }

  /** The whole-controller test: the setup goes on only if it holds. */
  predicate PortsEnabled(v: Vendor, t: bv32)
  {
    if v == Intel then t & 0x8000_8000 != 0
    else if v == Via then t & 0x03 != 0
    else if v == Ali then t & 0x30 != 0
    else if v == SiS then t & 0x06 != 0
    else true
  }

  /** The per-channel test of an on-board chipset's claim loop. */
  predicate ChannelEnabled(v: Vendor, t: bv32, secondary: bool)
  {
    if v == Intel then (if secondary then t >> 16 else t & 0xffff) & 0x8000 != 0
    else if v == SiS then t & (if secondary then 0x04 else 0x02) != 0
    else if v == Via then t & (if secondary then 0x01 else 0x02) != 0
    else if v == Ali then t & (if secondary then 0x10 else 0x20) != 0
    else false
  }

  /** The whole-controller test passes exactly when one of the two channel
      tests would: it is their disjunction, bit for bit. */
  lemma PortsEnabledIffSomeChannel(v: Vendor, t: bv32)
    requires Onboard(v)
    ensures PortsEnabled(v, t) <==> ChannelEnabled(v, t, false) || ChannelEnabled(v, t, true)
  {
    if v == Intel {
      IntelBits(t);
    } else if v == Via {
      ViaBits(t);
    } else if v == Ali {
      AliBits(t);
    } else {
      SisBits(t);
    }
  }

  lemma IntelBits(t: bv32)
    ensures t & 0x8000_8000 != 0 <==> (t & 0xffff) & 0x8000 != 0 || (t >> 16) & 0x8000 != 0
  {
  }

  lemma ViaBits(t: bv32)
    ensures t & 0x03 != 0 <==> t & 0x02 != 0 || t & 0x01 != 0
  {
  }

  lemma AliBits(t: bv32)
    ensures t & 0x30 != 0 <==> t & 0x20 != 0 || t & 0x10 != 0
  {
  }

  lemma SisBits(t: bv32)
    ensures t & 0x06 != 0 <==> t & 0x02 != 0 || t & 0x04 != 0
  {
  }

  /** The shifts pick single configuration bytes: for ALi byte 0x09 (the
      programming interface, whose bits 4 and 5 report the channels), for
      SiS byte 0x4a. */
  lemma DecodeReadsOneByte(c: Config)
    ensures DecodeTimings(Ali, Dword(c, 0x08)) == Byte(c, 0x09) as bv32
    ensures DecodeTimings(SiS, Dword(c, 0x48)) == Byte(c, 0x4a) as bv32
  {
    ShiftsPickByte1(c[0x08], c[0x09], c[0x0a], c[0x0b]);
    ShiftsPickByte2(c[0x48], c[0x49], c[0x4a], c[0x4b]);
  }

  lemma ShiftsPickByte1(b0: bv8, b1: bv8, b2: bv8, b3: bv8)
    ensures ((((b0 as bv32) | ((b1 as bv32) << 8) | ((b2 as bv32) << 16) | ((b3 as bv32) << 24)) << 16) >> 24)
            == b1 as bv32
  {
  }

  lemma ShiftsPickByte2(b0: bv8, b1: bv8, b2: bv8, b3: bv8)
    ensures ((((b0 as bv32) | ((b1 as bv32) << 8) | ((b2 as bv32) << 16) | ((b3 as bv32) << 24)) << 8) >> 24)
            == b2 as bv32
  {
  }

  // ---------------------------------------------------------------------
  // ALi interrupt routing (triton.c:901-919)

  /** IRQ by the bridge's 4-bit routing code; 0xff (a byte -1) and 0 mean
      no interrupt. */
  const ALI_IRQ_ROUTING: seq<nat> := [0xff, 9, 3, 10, 4, 5, 7, 6, 1, 11, 0, 12, 0, 14, 0, 15]

  /** The bridge's routing code for an interrupt, the inverse of the table
      on the interrupts it can produce. */
  function AliIrqCode(irq: nat): (code: Option<nat>)
    ensures code.Some? ==> code.value < 16
  {
    if irq == 9 then Some(1) else if irq == 3 then Some(2) else if irq == 10 then Some(3)
    else if irq == 4 then Some(4) else if irq == 5 then Some(5) else if irq == 7 then Some(6)
    else if irq == 6 then Some(7) else if irq == 1 then Some(8) else if irq == 11 then Some(9)
    else if irq == 12 then Some(11) else if irq == 14 then Some(13) else if irq == 15 then Some(15)
    else None
  }

  /** Code and table are inverse on real interrupts: every code with an
      interrupt maps back to itself, every other code gives 0 or 0xff. */
  lemma AliRoutingInverse(code: nat, irq: nat)
    requires code < 16
    ensures AliIrqCode(ALI_IRQ_ROUTING[code]).Some? ==> AliIrqCode(ALI_IRQ_ROUTING[code]).value == code
    ensures AliIrqCode(ALI_IRQ_ROUTING[code]).None? ==> ALI_IRQ_ROUTING[code] in {0, 0xff}
    ensures AliIrqCode(irq).Some? ==> ALI_IRQ_ROUTING[AliIrqCode(irq).value] == irq
  {
  }

  /** The interrupt a channel is routed to, if the bridge routes it: the
      primary through byte 0x44 when the control bits are 0; the secondary
      through byte 0x44 when they are 3 and through byte 0x75 when bit 0 is
      clear. */
  function AliIrq(b: Bridge, channel: bool): (irq: Option<nat>)
    ensures irq.None? <==> (if channel then b.ideic & 3 == 1 else b.ideic & 3 != 0)
    ensures irq.Some? && (channel ==> b.ideic & 3 == 3) ==> irq.value == ALI_IRQ_ROUTING[(b.inmir44 & 0x0f) as nat]
    ensures irq.Some? && channel && b.ideic & 3 != 3 ==> irq.value == ALI_IRQ_ROUTING[(b.inmir75 & 0x0f) as nat]
  {
    var ideic := b.ideic & 0x03;
    if (channel && ideic == 0x03) || (!channel && ideic == 0) then
      Some(ALI_IRQ_ROUTING[(b.inmir44 & 0x0f) as nat])
    else if channel && ideic & 0x01 == 0 then
      Some(ALI_IRQ_ROUTING[(b.inmir75 & 0x0f) as nat])
    else None
  }

  // ---------------------------------------------------------------------
  // The claim loop (triton.c:762-992)

  /** What the loop knows about the controller. */
  datatype Ctx = Ctx(env: Env, hpt34x: bool, dmaEnabled: bool, bmiba: nat,
                     timings: bv32, io: seq<nat>, irq: nat)

  /** Odd slots are secondary channels of their controller (as far as the
      code checks, slots 1, 3 and 5). */
  predicate Channel(h: nat)
  {
    h == 1 || h == 3 || h == 5
  }

  /** Whether slot `h`, as found, is used as the controller's secondary
      channel: by its legacy port on board, by its slot off board. */
  predicate Secondary(v: Vendor, hw: Hwif, h: nat)
  {
    if Onboard(v) then hw.ioBase == SECONDARY_PORT else Channel(h)
  }

  /** The chipset tag an add-in card's claimed slot gets. */
  function ChipsetTag(env: Env, hpt34x: bool): (c: Chipset)
    ensures c == Hpt343 <==> env.vendor == Tti && !hpt34x
    ensures c == Ultra66 <==> !(env.vendor == Tti && !hpt34x) && env.device == Pdc20262
    ensures c in {Hpt343, Ultra66, Udma}
  {
    if env.vendor == Tti && !hpt34x then Hpt343
    else if env.device == Pdc20262 then Ultra66
    else Udma
  }

  datatype Step = Next(m: Machine, step: nat, pass: nat) | Stop(m: Machine)

  /** The facts every visit of slot `h` keeps: the table keeps its length
      and its other slots, and the configuration snapshot is not touched
      (VIA's timing writes to bytes 0x41 and 0x46 are not modelled). */
  predicate OnlySlotChanged(m: Machine, m1: Machine, h: nat)
  {
    |m1.hwifs| == |m.hwifs| && m1.cfg == m.cfg
    && forall i :: 0 <= i < |m.hwifs| && i != h ==> m1.hwifs[i] == m.hwifs[i]
  }

  /** A slot whose DMA base changed got it from this controller: the
      primary `bmiba`, the secondary `bmiba + 8`, with DMA enabled. */
  predicate BaseFromController(ctx: Ctx, before: Hwif, after: Hwif, h: nat)
  {
    after.dmaBase != before.dmaBase ==>
      ctx.dmaEnabled
      && after.dmaBase == ctx.bmiba + (if Secondary(ctx.env.vendor, before, h) then 8 else 0)
      && after.chipset != Unknown
  }

  /** Installing the slot and, with DMA enabled, its DMA setup. */
  function Install(ctx: Ctx, m: Machine, h: nat, hw: Hwif, base: nat): (m1: Machine)
    requires h < |m.hwifs|
    ensures OnlySlotChanged(m, m1, h)
    ensures m1.hwifs[h].chipset == hw.chipset
    ensures m1.hwifs[h].dmaBase == hw.dmaBase || (ctx.dmaEnabled && m1.hwifs[h].dmaBase == base)
    ensures m1.busy == if ctx.dmaEnabled && RegionFree(m.busy, base, 8) then Reserve(m.busy, base, 8) else m.busy
    ensures m1.allocs == m.allocs + (if ctx.dmaEnabled && Allocates(m.busy, base, m.pool) then 1 else 0)
    ensures ctx.dmaEnabled && Allocates(m.busy, base, m.pool) ==>
      (if PageAnswer(ctx.env, m.allocs) != 0
       then m1.hwifs[h].dmaproc && m1.hwifs[h].dmaTable == PageAnswer(ctx.env, m.allocs) && m1.pool != 0
       else m1.hwifs[h].dmaproc == hw.dmaproc && m1.hwifs[h].dmaTable == hw.dmaTable && m1.pool == 0)
  {
    if ctx.dmaEnabled then
      var d := InitTritonDma(hw, base, m.busy, m.pool, PageAnswer(ctx.env, m.allocs));
      var tried := if Allocates(m.busy, base, m.pool) then 1 else 0;
      m.(hwifs := m.hwifs[h := d.hwif], busy := d.busy, pool := d.pool, allocs := m.allocs + tried)
    else m.(hwifs := m.hwifs[h := hw])
  }

  /** An on-board chipset's visit of an unknown slot (Intel :805-830, SiS
      :856-874, VIA :875-900, ALi :901-945): ALi first routes the slot's
      interrupt; a slot at 0x1f0 or 0x170 whose channel is on becomes a
      Triton-style interface with DMA base `bmiba` or `bmiba + 8`. */
  function VisitOnboard(ctx: Ctx, m: Machine, h: nat, step: nat, pass: nat): (s: Step)
    requires h < |m.hwifs| && m.hwifs[h].chipset == Unknown && Onboard(ctx.env.vendor)
    ensures OnlySlotChanged(m, s.m, h)
    ensures s.Next? ==> s.pass == pass + 1 && s.step <= step + 1
    ensures BaseFromController(ctx, m.hwifs[h], s.m.hwifs[h], h)
    ensures s.m.hwifs[h].chipset in {Unknown, Triton}
    ensures s.m.hwifs[h].chipset == Triton <==> OnboardClaims(ctx, m.hwifs[h])
    ensures s.Next? ==> (s.step == step + 1 <==> s.m.hwifs[h].chipset == Triton)
    ensures s.Stop? ==> ctx.env.vendor == Via && !ctx.env.viaTimingsOk
  {
    var hw := RouteSlot(ctx, m.hwifs[h], h);
    ClaimOnboard(ctx, m.(hwifs := m.hwifs[h := hw]), h, step, pass)
  }

  /** On an ALi chipset with its bridge found, the slot's interrupt comes
      from the bridge's routing registers when they name one. */
  function RouteSlot(ctx: Ctx, hw: Hwif, h: nat): (r: Hwif)
    ensures r == hw.(irq := r.irq)
    ensures r.irq != hw.irq ==>
      ctx.env.vendor == Ali && ctx.env.bridgeset && AliIrq(ctx.env.bridge, Channel(h)) == Some(r.irq)
  {
    var route := if ctx.env.vendor == Ali && ctx.env.bridgeset then AliIrq(ctx.env.bridge, Channel(h)) else None;
    if route.Some? then hw.(irq := route.value) else hw
  }

  /** An on-board chipset takes a slot exactly when it sits at one of the
      two legacy ports and the timing register says that channel is on. */
  predicate OnboardClaims(ctx: Ctx, hw: Hwif)
  {
    (hw.ioBase == PRIMARY_PORT || hw.ioBase == SECONDARY_PORT)
    && ChannelEnabled(ctx.env.vendor, ctx.timings, hw.ioBase == SECONDARY_PORT)
  }

  /** The claim of an on-board slot after its interrupt is settled. */
  function ClaimOnboard(ctx: Ctx, m: Machine, h: nat, step: nat, pass: nat): (s: Step)
    requires h < |m.hwifs| && m.hwifs[h].chipset == Unknown
    ensures OnlySlotChanged(m, s.m, h)
    ensures s.Next? ==> s.pass == pass + 1 && s.step <= step + 1
    ensures BaseFromController(ctx, m.hwifs[h], s.m.hwifs[h], h)
    ensures s.m.hwifs[h].chipset in {Unknown, Triton}
    ensures s.m.hwifs[h].chipset == Triton <==> OnboardClaims(ctx, m.hwifs[h])
    ensures s.Next? ==> (s.step == step + 1 <==> s.m.hwifs[h].chipset == Triton)
    ensures s.Stop? ==> ctx.env.vendor == Via && !ctx.env.viaTimingsOk
  {
    var hw := m.hwifs[h];
    if hw.ioBase != PRIMARY_PORT && hw.ioBase != SECONDARY_PORT then Next(m, step, pass + 1)
    else
      var secondary := hw.ioBase == SECONDARY_PORT;
      if !ChannelEnabled(ctx.env.vendor, ctx.timings, secondary) then Next(m, step, pass + 1)
      else
        var m2 := Install(ctx, m, h, hw.(chipset := Triton), ctx.bmiba + (if secondary then 8 else 0));
        if ctx.env.vendor == Via && !ctx.env.viaTimingsOk then Stop(m2)
        else Next(m2, step + 1, pass + 1)
  }

  /** An add-in card's visit of an unknown slot (triton.c:946-991): a
      non-HPT34x HPT343 stops at the first two slots; otherwise the slot
      gets its ports (from BAR 4 on an HPT34x, from the scanned BARs
      elsewhere) and the card's interrupt, and is claimed if DMA is on and
      the channel's eight bus-master ports are free. */
  function VisitOffboard(ctx: Ctx, m: Machine, h: nat, step: nat, pass: nat): (s: Step)
    requires h < |m.hwifs| && m.hwifs[h].chipset == Unknown && Offboard(ctx.env.vendor)
    requires |ctx.io| == 6
    ensures OnlySlotChanged(m, s.m, h)
    ensures s.Next? ==> s.pass == pass + 1 && s.step <= step + 1
    ensures BaseFromController(ctx, m.hwifs[h], s.m.hwifs[h], h)
    ensures s.m.hwifs[h].chipset in {Unknown, ChipsetTag(ctx.env, ctx.hpt34x)}
    ensures s.Stop? <==> ctx.env.vendor == Tti && !ctx.hpt34x && h < 2
    ensures s.Next? ==> s.m.busy == if s.m.hwifs[h].chipset == Unknown then CardBusy(ctx, m.busy)
      else Reserve(CardBusy(ctx, m.busy), ctx.bmiba + (if Channel(h) then 8 else 0), 8)
    ensures s.m.hwifs[h].chipset != Unknown <==>
      s.Next? && ctx.dmaEnabled && RegionFree(CardBusy(ctx, m.busy), ctx.bmiba + (if Channel(h) then 8 else 0), 8)
    ensures s.Next? ==> (s.step == step + 1 <==> s.m.hwifs[h].chipset != Unknown)
  {
    if ctx.env.vendor == Tti && !ctx.hpt34x && h < 2 then Stop(m)
    else
      var hw := CardSlot(ctx, m.hwifs[h], h);
      var busy := CardBusy(ctx, m.busy);
      var m1 := m.(hwifs := m.hwifs[h := hw], busy := busy);
      var base := ctx.bmiba + (if Channel(h) then 8 else 0);
      if ctx.dmaEnabled && RegionFree(m1.busy, base, 8) then
        Next(Install(ctx, m1, h, hw.(chipset := ChipsetTag(ctx.env, ctx.hpt34x)), base), step + 1, pass + 1)
      else Next(m1, step, pass + 1)
  }

  /** The ports reserved once a Promise or HPT card's slot has its ports. */
  function CardBusy(ctx: Ctx, busy: set<nat>): set<nat>
  {
    if ctx.env.vendor in {Promise, Tti} then ExtraRegion(ctx.env.device, ctx.bmiba, busy) else busy
  }

  /** set_promise_hpt343_extra (triton.c:448-466): the card's further
      ports past its bus-master block, reserved if they are free. */
  function ExtraRegion(device: Device, bmiba: nat, busy: set<nat>): (r: set<nat>)
    ensures device == Pdc20246 || device == Hpt343Device ==>
      r == if RegionFree(busy, bmiba + 16, 16) then Reserve(busy, bmiba + 16, 16) else busy
    ensures device == Pdc20262 ==>
      r == if RegionFree(busy, bmiba + 48, 48) then Reserve(busy, bmiba + 48, 48) else busy
    ensures device !in {Pdc20246, Pdc20262, Hpt343Device} ==> r == busy
    ensures forall p :: p in r && p !in busy ==> bmiba + 16 <= p
  {
    var (off, n) := if device == Pdc20262 then (48, 48) else (16, 16);
    if device !in {Pdc20246, Pdc20262, Hpt343Device} || !RegionFree(busy, bmiba + off, n) then busy
    else Reserve(busy, bmiba + off, n)
  }

  /** The ports, interrupt and flags an add-in card's slot is given before
      the claim: on an HPT34x the command and control blocks sit at fixed
      offsets from `bmiba`; elsewhere they come from the scanned BARs, the
      control port two bytes into its BAR. */
  function CardSlot(ctx: Ctx, hw: Hwif, h: nat): (r: Hwif)
    requires |ctx.io| == 6
    ensures r.chipset == hw.chipset && r.dmaBase == hw.dmaBase
    ensures r.irq == ctx.irq && !r.noprobe
    ensures ctx.env.vendor == Tti && ctx.hpt34x ==>
      r.ioBase == ctx.bmiba + (if Channel(h) then 0x28 else 0x20)
      && r.ctlPort == r.ioBase + 0x16
    ensures !(ctx.env.vendor == Tti && ctx.hpt34x) ==>
      r.ioBase == ctx.io[if Channel(h) then 2 else 0]
      && r.ctlPort == ctx.io[if Channel(h) then 3 else 1] + 2
    ensures r.serialized <==> hw.serialized || ctx.env.device == Atp850uf
  {
    var ch := Channel(h);
    var b := ctx.bmiba;
    var hpt := ctx.env.vendor == Tti && ctx.hpt34x;
    var ioBase := if hpt then b + (if ch then 0x28 else 0x20) else ctx.io[if ch then 2 else 0];
    var ctl := if hpt then b + (if ch then 0x3e else 0x36) else ctx.io[if ch then 3 else 1] + 2;
    hw.(ioBase := ioBase, ctlPort := ctl, irq := ctx.irq, noprobe := false,
        serialized := if ctx.env.device == Atp850uf then true else hw.serialized)
  }

  /** One slot: a slot someone already has is passed over untouched. */
  function Visit(ctx: Ctx, m: Machine, h: nat, step: nat, pass: nat): (s: Step)
    requires h < |m.hwifs| && |ctx.io| == 6
    ensures OnlySlotChanged(m, s.m, h)
    ensures m.hwifs[h].chipset != Unknown ==> s == Next(m, step, pass)
    ensures m.hwifs[h].chipset == Unknown && s.Next? ==> s.pass == pass + 1
    ensures s.Next? ==> s.step <= step + 1
    ensures BaseFromController(ctx, m.hwifs[h], s.m.hwifs[h], h)
  {
    if m.hwifs[h].chipset != Unknown then Next(m, step, pass)
    else if Onboard(ctx.env.vendor) then VisitOnboard(ctx, m, h, step, pass)
    else if Offboard(ctx.env.vendor) then VisitOffboard(ctx, m, h, step, pass)
    else Next(m, step, pass + 1)
  }

  /** The loop from slot `h` on, quitting once two slots have been claimed
      or two unknown slots examined. */
  function ClaimFrom(ctx: Ctx, m: Machine, h: nat, step: nat, pass: nat): (r: Machine)
    requires h <= |m.hwifs| && |ctx.io| == 6
    decreases |m.hwifs| - h
  {
    if h == |m.hwifs| || step >= 2 || pass >= 2 then m
    else
      match Visit(ctx, m, h, step, pass)
      case Stop(m1) => m1
      case Next(m1, s1, p1) => ClaimFrom(ctx, m1, h + 1, s1, p1)
  }

  /** ide_init_triton, from the vendor switch to the end of the claim loop. */
  function InitTriton(env: Env, m: Machine): (r: Machine)
  {
    match VendorPrologue(env, m.cfg)
    case None => m
    case Some(p) =>
      match EnableMaster(env, p.cfg, p.bmiba)
      case MasterQuit(c) => m.(cfg := c)
      case MasterGo(c, dmaEnabled, bmiba) =>
        if ReadTimings in env.failing then m.(cfg := c)
        else
          var t := DecodeTimings(env.vendor, Dword(c, TimingOffset(env.vendor)));
          if !PortsEnabled(env.vendor, t) then m.(cfg := c)
          else
            var ctx := Ctx(env, p.hpt34x, dmaEnabled, bmiba as nat, t, Widen(p.io), Byte(m.cfg, PCI_INTERRUPT_LINE) as nat);
            ClaimFrom(ctx, m.(cfg := c), 0, 0, 0)
  }

  /** The scanned ports as numbers. */
  function Widen(io: seq<bv16>): (r: seq<nat>)
    ensures |r| == |io| && forall i :: 0 <= i < |io| ==> r[i] == io[i] as nat
  {
    seq(|io|, i requires 0 <= i < |io| => io[i] as nat)
  }

  /** The bus-master base the setup settles on, when it enables DMA. */
  function SetupBase(env: Env, c: Config): (b: Option<bv32>)
    ensures b.Some? ==> b.value != 0 && b.value & 0xfff0 == b.value
  {
    match VendorPrologue(env, c)
    case None => None
    case Some(p) =>
      match EnableMaster(env, p.cfg, p.bmiba)
      case MasterQuit(_) => None
      case MasterGo(_, dmaEnabled, bmiba) => if dmaEnabled then Some(bmiba) else None
  }

  // ---------------------------------------------------------------------
  // Properties of the loop

  /** The number of slots in which two tables differ. */
  function Changed(a: seq<Hwif>, b: seq<Hwif>): nat
    requires |a| == |b|
  {
    if |a| == 0 then 0 else (if a[0] != b[0] then 1 else 0) + Changed(a[1..], b[1..])
  }

  lemma {:induction false} ChangedSame(a: seq<Hwif>)
    ensures Changed(a, a) == 0
  {
    if |a| != 0 {
      ChangedSame(a[1..]);
    }
  }

  lemma {:induction false} ChangedOne(a: seq<Hwif>, b: seq<Hwif>, h: nat)
    requires |a| == |b|
    requires forall i :: 0 <= i < |a| && i != h ==> a[i] == b[i]
    ensures Changed(a, b) <= 1
  {
    if |a| != 0 {
      if h == 0 {
        assert a[1..] == b[1..];
        ChangedSame(a[1..]);
      } else {
        ChangedOne(a[1..], b[1..], h - 1);
      }
    }
  }

  lemma {:induction false} ChangedTriangle(a: seq<Hwif>, b: seq<Hwif>, c: seq<Hwif>)
    requires |a| == |b| == |c|
    ensures Changed(a, c) <= Changed(a, b) + Changed(b, c)
  {
    if |a| != 0 {
      ChangedTriangle(a[1..], b[1..], c[1..]);
    }
  }

  /** The loop from slot `h`: slots before `h` are not touched; a slot that
      changes was unknown, and if its DMA base changed it got the base of
      its channel; and no more slots change than examinations remain. */
  lemma ClaimFromFacts(ctx: Ctx, m: Machine, h: nat, step: nat, pass: nat)
    requires h <= |m.hwifs| && |ctx.io| == 6 && pass <= 2
    ensures var r := ClaimFrom(ctx, m, h, step, pass);
      |r.hwifs| == |m.hwifs| && r.cfg == m.cfg
      && (forall i :: 0 <= i < h ==> r.hwifs[i] == m.hwifs[i])
      && (forall i :: h <= i < |m.hwifs| && r.hwifs[i] != m.hwifs[i] ==> m.hwifs[i].chipset == Unknown)
      && (forall i :: h <= i < |m.hwifs| ==> BaseFromController(ctx, m.hwifs[i], r.hwifs[i], i))
      && Changed(m.hwifs, r.hwifs) <= 2 - pass
  {
    ClaimFromKeeps(ctx, m, h, step, pass);
    ClaimFromCount(ctx, m, h, step, pass);
  }

  /** The per-slot half: slots before `h` are untouched, a changed slot was
      unknown, and a changed DMA base is its channel's. */
  lemma {:induction false} ClaimFromKeeps(ctx: Ctx, m: Machine, h: nat, step: nat, pass: nat)
    requires h <= |m.hwifs| && |ctx.io| == 6
    ensures var r := ClaimFrom(ctx, m, h, step, pass);
      |r.hwifs| == |m.hwifs| && r.cfg == m.cfg
      && (forall i :: 0 <= i < h ==> r.hwifs[i] == m.hwifs[i])
      && (forall i :: h <= i < |m.hwifs| && r.hwifs[i] != m.hwifs[i] ==> m.hwifs[i].chipset == Unknown)
      && (forall i :: h <= i < |m.hwifs| ==> BaseFromController(ctx, m.hwifs[i], r.hwifs[i], i))
    decreases |m.hwifs| - h
  {
    if h < |m.hwifs| && step < 2 && pass < 2 {
      var s := Visit(ctx, m, h, step, pass);
      if s.Next? {
        ClaimFromKeeps(ctx, s.m, h + 1, s.step, s.pass);
      }
    }
  }

  /** The counting half: no more slots change than examinations remain. */
  lemma {:induction false} ClaimFromCount(ctx: Ctx, m: Machine, h: nat, step: nat, pass: nat)
    requires h <= |m.hwifs| && |ctx.io| == 6 && pass <= 2
    ensures |ClaimFrom(ctx, m, h, step, pass).hwifs| == |m.hwifs|
    ensures Changed(m.hwifs, ClaimFrom(ctx, m, h, step, pass).hwifs) <= 2 - pass
    decreases |m.hwifs| - h
  {
    var r := ClaimFrom(ctx, m, h, step, pass);
    if h == |m.hwifs| || step >= 2 || pass >= 2 {
      ChangedSame(m.hwifs);
    } else {
      var s := Visit(ctx, m, h, step, pass);
      ChangedOne(m.hwifs, s.m.hwifs, h);
      if s.Next? {
        ClaimFromCount(ctx, s.m, h + 1, s.step, s.pass);
        ChangedTriangle(m.hwifs, s.m.hwifs, r.hwifs);
        if m.hwifs[h].chipset != Unknown {
          ChangedSame(m.hwifs);
        }
      }
    }
  }

  /** ide_init_triton as a whole: the interface table keeps its length; at
      most two slots change; a slot that was already taken is not touched;
      and a slot whose DMA base changed got the base the setup settled on,
      plus eight for a secondary channel. */
  lemma InitTritonClaims(env: Env, m: Machine)
    ensures var r := InitTriton(env, m);
      |r.hwifs| == |m.hwifs|
      && Changed(m.hwifs, r.hwifs) <= 2
      && (forall i :: 0 <= i < |m.hwifs| && m.hwifs[i].chipset != Unknown ==> r.hwifs[i] == m.hwifs[i])
      && (forall i :: 0 <= i < |m.hwifs| && r.hwifs[i].dmaBase != m.hwifs[i].dmaBase ==>
            SetupBase(env, m.cfg).Some?
            && r.hwifs[i].dmaBase == SetupBase(env, m.cfg).value as nat
                                     + (if Secondary(env.vendor, m.hwifs[i], i) then 8 else 0))
  {
    var r := InitTriton(env, m);
    match VendorPrologue(env, m.cfg)
    case None =>
      ChangedSame(m.hwifs);
    case Some(p) =>
      match EnableMaster(env, p.cfg, p.bmiba)
      case MasterQuit(c) =>
        ChangedSame(m.hwifs);
      case MasterGo(c, dmaEnabled, bmiba) =>
        if ReadTimings in env.failing {
          ChangedSame(m.hwifs);
        } else {
          var t := DecodeTimings(env.vendor, Dword(c, TimingOffset(env.vendor)));
          if !PortsEnabled(env.vendor, t) {
            ChangedSame(m.hwifs);
          } else {
            var ctx := Ctx(env, p.hpt34x, dmaEnabled, bmiba as nat, t, Widen(p.io), Byte(m.cfg, PCI_INTERRUPT_LINE) as nat);
            ClaimFromFacts(ctx, m.(cfg := c), 0, 0, 0);
          }
        }
  }
}
