/** The PCI configuration space of the IDE controller function as a
    snapshot of its 256 bytes, read and written the way
    `pcibios_read_config_*` / `pcibios_write_config_*` address it: by byte
    offset, words and dwords little-endian.  The PCI BIOS calls themselves
    (and their failures, which the setup code tests where it tests them)
    are not part of this module. */
module PciConfig {

  type Config = c: seq<bv8> | |c| == 256 witness seq(256, _ => 0)

  /** A byte offset into configuration space. */
  type Offset = o: nat | o < 256

  const PCI_COMMAND: Offset := 0x04
  const PCI_CLASS_DEVICE: Offset := 0x0a
  const PCI_LATENCY_TIMER: Offset := 0x0d
  const PCI_BASE_ADDRESS_0: Offset := 0x10
  const PCI_BASE_ADDRESS_1: Offset := 0x14
  const PCI_BASE_ADDRESS_2: Offset := 0x18
  const PCI_BASE_ADDRESS_3: Offset := 0x1c
  const PCI_BASE_ADDRESS_4: Offset := 0x20
  const PCI_ROM_ADDRESS: Offset := 0x30
  const PCI_INTERRUPT_LINE: Offset := 0x3c

  /** Bits of the command register: I/O decode, memory decode, bus master. */
  const PCI_COMMAND_IO: bv16 := 0x1
  const PCI_COMMAND_MEMORY: bv16 := 0x2
  const PCI_COMMAND_MASTER: bv16 := 0x4

  /** The bit of a base address register that says it maps I/O space, and
      the mask that drops its two flag bits. */
  const PCI_BASE_ADDRESS_SPACE_IO: bv32 := 0x01
  const PCI_BASE_ADDRESS_IO_MASK: bv32 := 0xffff_fffc

  const PCI_CLASS_STORAGE_IDE: bv16 := 0x0101
  const PCI_ROM_ADDRESS_ENABLE: bv32 := 0x01

  function Byte(c: Config, off: Offset): bv8
  {
    c[off]
  }

  function Word(c: Config, off: Offset): bv16
    requires off % 2 == 0
  {
    (c[off] as bv16) | ((c[off + 1] as bv16) << 8)
  }

  function Dword(c: Config, off: Offset): bv32
    requires off % 4 == 0
  {
    (c[off] as bv32) | ((c[off + 1] as bv32) << 8)
    | ((c[off + 2] as bv32) << 16) | ((c[off + 3] as bv32) << 24)
  }

  function SetByte(c: Config, off: Offset, v: bv8): Config
  {
    c[off := v]
  }

  function SetWord(c: Config, off: Offset, v: bv16): Config
    requires off % 2 == 0
  {
    c[off := (v & 0xff) as bv8][off + 1 := (v >> 8) as bv8]
  }

  function SetDword(c: Config, off: Offset, v: bv32): Config
    requires off % 4 == 0
  {
    c[off := (v & 0xff) as bv8][off + 1 := ((v >> 8) & 0xff) as bv8]
     [off + 2 := ((v >> 16) & 0xff) as bv8][off + 3 := (v >> 24) as bv8]
  }

  /** Reading back a word just written gives that word; the bytes outside
      it keep their values. */
  lemma WordWriteRead(c: Config, off: Offset, v: bv16, other: Offset)
    requires off % 2 == 0
    ensures Word(SetWord(c, off, v), off) == v
    ensures other != off && other != off + 1 ==> Byte(SetWord(c, off, v), other) == Byte(c, other)
  {
    var lo, hi := (v & 0xff) as bv8, (v >> 8) as bv8;
    var d := SetWord(c, off, v);
    assert d[off] == lo && d[off + 1] == hi;
    SplitWord(v);
  }

  lemma SplitWord(v: bv16)
    ensures (((v & 0xff) as bv8) as bv16) | ((((v >> 8) as bv8) as bv16) << 8) == v
  {
  }

  lemma SplitDword(v: bv32)
    ensures (((v & 0xff) as bv8) as bv32) | (((((v >> 8) & 0xff) as bv8) as bv32) << 8)
      | (((((v >> 16) & 0xff) as bv8) as bv32) << 16) | ((((v >> 24) as bv8) as bv32) << 24) == v
  {
  }

  /** Reading back a dword just written gives that dword; the bytes
      outside it keep their values. */
  lemma DwordWriteRead(c: Config, off: Offset, v: bv32, other: Offset)
    requires off % 4 == 0
    ensures Dword(SetDword(c, off, v), off) == v
    ensures (other < off || off + 3 < other) ==> Byte(SetDword(c, off, v), other) == Byte(c, other)
  {
    var d := SetDword(c, off, v);
    assert d[off] == (v & 0xff) as bv8 && d[off + 1] == ((v >> 8) & 0xff) as bv8;
    assert d[off + 2] == ((v >> 16) & 0xff) as bv8 && d[off + 3] == (v >> 24) as bv8;
    SplitDword(v);
  }

  /** A word written outside a dword leaves that dword as it was. */
  lemma DwordAfterWord(c: Config, off: Offset, v: bv16, doff: Offset)
    requires off % 2 == 0 && doff % 4 == 0
    requires off + 1 < doff || doff + 3 < off
    ensures Dword(SetWord(c, off, v), doff) == Dword(c, doff)
  {
    var d := SetWord(c, off, v);
    assert d[doff] == c[doff] && d[doff + 1] == c[doff + 1];
    assert d[doff + 2] == c[doff + 2] && d[doff + 3] == c[doff + 3];
  }
}
