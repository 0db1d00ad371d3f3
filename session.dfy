/**
 * Session set-up of phyreg.c: mapping the controller block (map_base), and
 * miiInit, which enables MDIO control, finds the first PHY that answers and
 * forces port 9 of the switch (PHY address 25) to 100 Mbit/s, full duplex,
 * link up.
 */
module Session {
  import opened Registers
  import opened Device
  import opened Transactor

  /** How opening /dev/mem and mapping the block turned out. */
  datatype MapAttempt = OpenFails | MmapFails | Maps

  /**
   * map_base: the window at `target`, or null. A misaligned target is refused
   * before /dev/mem is opened; otherwise the window exists only if both
   * open and mmap succeed. `hw` is the block the mapping would give.
   */
  function MapBase(target: bv32, os: MapAttempt, hw: RegisterWindow): (base: RegisterWindow?)
    ensures base != null <==> Aligned(target) && os == Maps
    ensures base != null ==> base == hw
  {
    if !Aligned(target) then null
    else if os != Maps then null
    else hw
  }

  /** The alignment test decides before any system call: the outcome of open and mmap is irrelevant. */
  lemma MisalignedIgnoresSystem(target: bv32, os1: MapAttempt, os2: MapAttempt, hw: RegisterWindow)
    requires target & MAP_MASK != 0
    ensures MapBase(target, os1, hw) == null && MapBase(target, os2, hw) == null
  {
    AlignedIff(target);
  }

  /** The controller's own address passes the test, so its mapping fails only in the system. */
  lemma BaseTargetMaps(os: MapAttempt, hw: RegisterWindow)
    ensures MapBase(MDIO_BASE_TARGET, os, hw) == if os == Maps then hw else null
  {
    BaseTargetAligned();
  }

  /**
   * The scan of miiInit: the first address at or above `from` whose bit is set
   * in the alive bitmap, or 32 when there is none.
   */
  function FirstAlive(alive: bv32, from: nat): (a: nat)
    requires from <= 32
    ensures from <= a <= 32
    decreases 32 - from
  {
    if from == 32 || AliveBit(alive, from) then from else FirstAlive(alive, from + 1)
  }

  /** The scan stops at a set bit, and every bit it passed is clear. */
  lemma {:induction false} FirstAliveIsLowest(alive: bv32, from: nat)
    requires from <= 32
    ensures FirstAlive(alive, from) < 32 ==> AliveBit(alive, FirstAlive(alive, from))
    ensures forall k :: from <= k < FirstAlive(alive, from) ==> !AliveBit(alive, k)
    decreases 32 - from
  {
    if from < 32 && !AliveBit(alive, from) {
      FirstAliveIsLowest(alive, from + 1);
    }
  }

  /** Conversely, a set bit with only clear bits below it (down to `from`) is what the scan finds. */
  lemma FirstAliveUnique(alive: bv32, from: nat, a: nat)
    requires from <= a <= 32
    requires a < 32 ==> AliveBit(alive, a)
    requires forall k :: from <= k < a ==> !AliveBit(alive, k)
    ensures FirstAlive(alive, from) == a
  {
    FirstAliveIsLowest(alive, from);
  }

  /** The scan reaches 32 exactly when no bit from `from` up is set. */
  lemma FirstAliveNone(alive: bv32, from: nat)
    requires from <= 32
    ensures FirstAlive(alive, from) == 32 <==> forall k :: from <= k < 32 ==> !AliveBit(alive, k)
  {
    FirstAliveIsLowest(alive, from);
  }

  /** An empty bitmap: no PHY is found. */
  lemma {:induction false} FirstAliveOfEmpty(from: nat)
    requires from <= 32
    ensures FirstAlive(0, from) == 32
    decreases 32 - from
  {
    if from < 32 {
      FirstAliveOfEmpty(from + 1);
    }
  }

  /** From address 0, a non-empty bitmap always yields an address. */
  lemma FirstAliveOfNonEmpty(alive: bv32)
    requires alive != 0
    ensures FirstAlive(alive, 0) < 32
  {
    FirstAliveNone(alive, 0);
    if FirstAlive(alive, 0) == 32 {
      NoBitsMeansZero(alive);
    }
  }

  lemma NoBitsMeansZero(alive: bv32)
    requires forall k :: 0 <= k < 32 ==> !AliveBit(alive, k)
    ensures alive == 0
  {
    assert !AliveBit(alive, 0) && !AliveBit(alive, 1) && !AliveBit(alive, 2) && !AliveBit(alive, 3);
    assert !AliveBit(alive, 4) && !AliveBit(alive, 5) && !AliveBit(alive, 6) && !AliveBit(alive, 7);
    assert !AliveBit(alive, 8) && !AliveBit(alive, 9) && !AliveBit(alive, 10) && !AliveBit(alive, 11);
    assert !AliveBit(alive, 12) && !AliveBit(alive, 13) && !AliveBit(alive, 14) && !AliveBit(alive, 15);
    assert !AliveBit(alive, 16) && !AliveBit(alive, 17) && !AliveBit(alive, 18) && !AliveBit(alive, 19);
    assert !AliveBit(alive, 20) && !AliveBit(alive, 21) && !AliveBit(alive, 22) && !AliveBit(alive, 23);
    assert !AliveBit(alive, 24) && !AliveBit(alive, 25) && !AliveBit(alive, 26) && !AliveBit(alive, 27);
    assert !AliveBit(alive, 28) && !AliveBit(alive, 29) && !AliveBit(alive, 30) && !AliveBit(alive, 31);
  }

  /** Only bit 3 set: the PHY is at address 3. */
  lemma FirstAliveOfBit3()
    ensures FirstAlive(0x8, 0) == 3
  {
    FirstAliveUnique(0x8, 0, 3);
  }

  /** PHY address of port 9 of the switch, its control register and the forced value. */
  const SWITCH_PORT_ADDRESS: bv32 := 25
  const SWITCH_PORT_REGISTER: bv32 := 1
  const SWITCH_PORT_FORCED: bv16 := 0x003D

  /** The words miiInit's enable step accesses: a read, then a write only if the value differs. */
  function EnableAccesses(before: bv32): (t: seq<Access>)
    ensures 1 <= |t| <= 2 && t[0] == Load(ENABLE_INDEX, before)
    ensures |t| == 2 <==> before != ENABLE_VALUE
  {
    [Load(ENABLE_INDEX, before)] + if before != ENABLE_VALUE then [Store(ENABLE_INDEX, ENABLE_VALUE)] else []
  }

  /** Re-running the enable step on an enabled controller writes nothing. */
  lemma EnableIdempotent(before: bv32)
    ensures |EnableAccesses(ENABLE_VALUE)| == 1
    ensures before != ENABLE_VALUE ==> EnableAccesses(before)[1] == Store(ENABLE_INDEX, ENABLE_VALUE)
  {
  }

  /**
   * The enable step of miiInit: read the enable-control register and write
   * ENABLE_VALUE only if it holds something else.
   */
  method EnableControl(w: RegisterWindow)
    requires w.Valid()
    modifies w, w.mem
    ensures w.Valid() && w.mem[ENABLE_INDEX] == ENABLE_VALUE
    ensures w.State() == Hw(old(w.State()).words[ENABLE_INDEX := ENABLE_VALUE], old(w.phyRegs))
    ensures w.trace == old(w.trace) + EnableAccesses(old(w.mem[ENABLE_INDEX]))
    ensures w.busyReads == old(w.busyReads)
  {
    var value := w.ReadWord(OffsetPtr(ENABLE_CTRL_OFFSET));
    if value != ENABLE_VALUE {
      w.WriteWord(OffsetPtr(ENABLE_CTRL_OFFSET), ENABLE_VALUE);
    }
  }

  /** The process-wide state of phyreg.c: the mapped block and the discovered PHY address. */
  class MiiSession {
    var mdiobase: RegisterWindow?
    var phyAddress: nat

    constructor ()
      ensures mdiobase == null && phyAddress == 0
    {
      mdiobase := null;
      phyAddress := 0;
    }

    /**
     * miiInit. Returns -1 when the block cannot be mapped or no PHY answers,
     * 0 otherwise. When mapped it enables MDIO control, scans the alive bitmap
     * from the current phyAddress, and on success issues exactly one write
     * transaction: SWITCH_PORT_FORCED to register 1 of address 25.
     */
    method MiiInit(os: MapAttempt, hw: RegisterWindow)
      returns (rc: int, ghost before: seq<Access>, ghost after: seq<Access>)
      requires hw.Valid() && phyAddress <= 32
      modifies this, hw, hw.mem
      ensures hw.Valid() && phyAddress <= 32
      ensures mdiobase == MapBase(MDIO_BASE_TARGET, os, hw)
      ensures os != Maps ==>
        rc == -1 && phyAddress == old(phyAddress) && hw.trace == old(hw.trace) && hw.State() == old(hw.State())
        && hw.busyReads == old(hw.busyReads)
      // when no PHY answers, the transaction in flight (if any) is left as it was
      ensures rc == -1 ==> hw.busyReads == old(hw.busyReads)
      ensures os == Maps ==>
        var enable, alive := old(hw.mem[ENABLE_INDEX]), old(hw.mem[ALIVE_INDEX]);
        && phyAddress == FirstAlive(alive, old(phyAddress))
        && rc == (if phyAddress < 32 then 0 else -1)
        && hw.mem[ENABLE_INDEX] == ENABLE_VALUE && hw.mem[ALIVE_INDEX] == alive
        && var cmd := WriteCommand(SWITCH_PORT_ADDRESS, SWITCH_PORT_REGISTER, SWITCH_PORT_FORCED as bv32);
           hw.trace == old(hw.trace) + EnableAccesses(enable) + [Load(ALIVE_INDEX, alive)]
                       + (if rc == 0 then before + [Store(USERACCESS_INDEX, cmd)] + after else [])
      // the whole new state: the enable write, then on success the forced transaction
      ensures os == Maps ==>
        var enabled := Hw(old(hw.State()).words[ENABLE_INDEX := ENABLE_VALUE], old(hw.phyRegs));
        var cmd := WriteCommand(SWITCH_PORT_ADDRESS, SWITCH_PORT_REGISTER, SWITCH_PORT_FORCED as bv32);
        hw.State() == if rc == 0 then Settle(Issue(Settle(enabled), cmd)) else enabled
      // the one transaction is a well-formed write: it waits for GO clear and ends with GO clear
      ensures rc == 0 ==>
        && Polls(before) && before != [] && before[|before| - 1].value & GO_BIT == 0
        && Polls(after) && after != [] && after[|after| - 1].value & GO_BIT == 0
      // port 25 takes the forced value if it answers; nothing else on the bus changes
      ensures rc == 0 ==>
        var alive, regs := old(hw.mem[ALIVE_INDEX]), Settle(old(hw.State())).regs;
        hw.phyRegs == if AliveBit(alive, 25) then regs[25 := regs[25][1 := SWITCH_PORT_FORCED]] else regs
    {
      mdiobase := MapBase(MDIO_BASE_TARGET, os, hw);
      BaseTargetMaps(os, hw);
      if mdiobase == null {
        rc, before, after := -1, [], [];
        return;
      }
      var base := mdiobase;

      EnableControl(base);

      // find the address of the first PHY
      var alivebits := base.ReadWord(OffsetPtr(MDIO_ALIVE_OFFSET));
      while phyAddress < 32 && !AliveBit(alivebits, phyAddress)
        modifies this
        invariant mdiobase == base
        invariant old(phyAddress) <= phyAddress <= 32
        invariant FirstAlive(alivebits, phyAddress) == FirstAlive(alivebits, old(phyAddress))
        decreases 32 - phyAddress
      {
        phyAddress := phyAddress + 1;
      }
      if phyAddress == 32 {
        rc, before, after := -1, [], [];
        return;
      }

      // force switch port 9 to 100 Mbit/s, full duplex, link up
      var data, acked;
      data, acked, before, after := WriteReg(base, SWITCH_PORT_ADDRESS, SWITCH_PORT_REGISTER, SWITCH_PORT_FORCED);
      rc := 0;
    }
  }
}
