/**
 * Register layout of the AM335x MDIO controller block as phyreg.c uses it:
 * the mapped window, the byte offsets of the registers inside it, the bits of
 * the USERACCESS0 register (section 14.5.10.11 of the TI AM335x Technical
 * Reference Manual) and the command words that start a transaction.
 */
module Registers {

  /** Size of the mapped window in bytes, and the mask the base must clear. */
  const MAP_SIZE: bv32 := 0x90
  const MAP_MASK: bv32 := MAP_SIZE - 1

  /** Number of 32-bit words in the window (MAP_SIZE / sizeof(unsigned)). */
  const WINDOW_WORDS: nat := 36

  /** Physical address of the MDIO controller. */
  const MDIO_BASE_TARGET: bv32 := 0x4a10_1000

  /** Byte offsets of the registers inside the window. */
  const ENABLE_CTRL_OFFSET: nat := 0x04
  const MDIO_ALIVE_OFFSET: nat := 0x08
  const MDIO_LINK_OFFSET: nat := 0x0c
  const MDIO_USERACCESS0_OFFSET: nat := 0x80

  /** Bits of USERACCESS0. */
  const GO_BIT: bv32 := 1 << 31
  const WRITE_BIT: bv32 := 1 << 30
  const ACK_BIT: bv32 := 1 << 29

  /** The value that enables MDIO control. */
  const ENABLE_VALUE: bv32 := 0x4100_00ff

  /** The base-address test of map_base: masking with ~MAP_MASK must not change the target. */
  predicate Aligned(target: bv32) {
    target == target & !MAP_MASK
  }

  lemma AlignedIff(target: bv32)
    ensures Aligned(target) <==> target & MAP_MASK == 0
  {
  }

  lemma BaseTargetAligned()
    ensures Aligned(MDIO_BASE_TARGET)
    ensures MDIO_BASE_TARGET & MAP_MASK == 0
  {
  }

  /**
   * OFFSET_PTR: the word a byte offset addresses, counted from the base.
   * Pointer arithmetic on `unsigned *` moves in steps of four bytes, so the
   * offset is divided (and truncated) by four.
   */
  function OffsetPtr(offset: nat): (index: nat)
    ensures 4 * index <= offset < 4 * index + 4
  {
    offset / 4
  }

  /** The four registers the program uses lie inside the window, at distinct words. */
  lemma RegisterIndices()
    ensures WINDOW_WORDS == MAP_SIZE as int / 4
    ensures OffsetPtr(ENABLE_CTRL_OFFSET) == 1
    ensures OffsetPtr(MDIO_ALIVE_OFFSET) == 2
    ensures OffsetPtr(MDIO_LINK_OFFSET) == 3
    ensures OffsetPtr(MDIO_USERACCESS0_OFFSET) == 32
    ensures OffsetPtr(MDIO_USERACCESS0_OFFSET) < WINDOW_WORDS
  {
  }

  /** Word indices of the registers, for the window model. */
  const ENABLE_INDEX: nat := OffsetPtr(ENABLE_CTRL_OFFSET)
  const ALIVE_INDEX: nat := OffsetPtr(MDIO_ALIVE_OFFSET)
  const USERACCESS_INDEX: nat := OffsetPtr(MDIO_USERACCESS0_OFFSET)

  /** Fields of a USERACCESS0 word. */
  function RegField(w: bv32): (r: bv32)
    ensures r < 32
  {
    (w >> 21) & 0x1F
  }

  function PhyField(w: bv32): (p: bv32)
    ensures p < 32
  {
    (w >> 16) & 0x1F
  }

  function DataField(w: bv32): (d: bv32)
    ensures d < 0x1_0000
  {
    w & 0xFFFF
  }

  /** Bits 28:26 of USERACCESS0 carry nothing. */
  const RESERVED_BITS: bv32 := 0x1C00_0000

  predicate FieldsFit(phy: bv32, reg: bv32, data: bv32) {
    phy < 32 && reg < 32 && data < 0x1_0000
  }

  /** The command word accessreg stores to write `data` to register `reg` of PHY `phy`. */
  function WriteCommand(phy: bv32, reg: bv32, data: bv32): (cmd: bv32)
    requires FieldsFit(phy, reg, data)
    ensures cmd & GO_BIT != 0 && cmd & WRITE_BIT != 0
    ensures cmd & ACK_BIT == 0 && cmd & RESERVED_BITS == 0
    ensures RegField(cmd) == reg && PhyField(cmd) == phy && DataField(cmd) == data
  {
    GO_BIT | WRITE_BIT | (reg << 21) | (phy << 16) | data
  }

  /** The command word accessreg stores to read register `reg` of PHY `phy`. */
  function ReadCommand(phy: bv32, reg: bv32): (cmd: bv32)
    requires phy < 32 && reg < 32
    ensures cmd & GO_BIT != 0 && cmd & WRITE_BIT == 0
    ensures cmd & ACK_BIT == 0 && cmd & RESERVED_BITS == 0
    ensures RegField(cmd) == reg && PhyField(cmd) == phy && DataField(cmd) == 0
  {
    GO_BIT | (reg << 21) | (phy << 16)
  }

  /**
   * The other direction of the round trip: every word with GO set, ACK and the
   * reserved bits clear is the command word built from its own fields.
   */
  lemma CommandFromFields(w: bv32)
    requires w & GO_BIT != 0 && w & ACK_BIT == 0 && w & RESERVED_BITS == 0
    ensures w & WRITE_BIT != 0 ==> WriteCommand(PhyField(w), RegField(w), DataField(w)) == w
    ensures w & WRITE_BIT == 0 && DataField(w) == 0 ==> ReadCommand(PhyField(w), RegField(w)) == w
  {
  }

  /** Distinct transactions give distinct command words. */
  lemma CommandsInjective(p1: bv32, r1: bv32, d1: bv32, p2: bv32, r2: bv32, d2: bv32)
    requires FieldsFit(p1, r1, d1) && FieldsFit(p2, r2, d2)
    ensures WriteCommand(p1, r1, d1) == WriteCommand(p2, r2, d2) <==> p1 == p2 && r1 == r2 && d1 == d2
    ensures ReadCommand(p1, r1) == ReadCommand(p2, r2) <==> p1 == p2 && r1 == r2
    ensures ReadCommand(p1, r1) != WriteCommand(p2, r2, d2)
  {
  }

  /** Bit `a` of the alive bitmap: PHY address `a` answers on the bus. */
  predicate AliveBit(alive: bv32, a: nat)
    requires a < 32
  {
    alive & ((1 as bv32) << a) != 0
  }
}
