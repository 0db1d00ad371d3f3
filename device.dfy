/**
 * A simulated MDIO controller behind the mapped register window.
 *
 * The window is the 36-word block phyreg.c maps at MDIO_BASE_TARGET. Every
 * word is plain memory except USERACCESS0 (word 32), which drives the bus: a
 * command stored with GO set starts a transaction that takes `latency` further
 * reads of the word; the read after those completes it, which clears GO, sets
 * ACK when the addressed PHY answers (its bit in the ALIVE word) and, for a
 * read, puts the PHY register in the data field. The PHYs' registers are a
 * 32 x 32 table of 16-bit values.
 */
module Device {
  import opened Registers

  /** One access of the program to a word of the window, in order. */
  datatype Access = Load(index: nat, value: bv32) | Store(index: nat, value: bv32)

  /** An access to USERACCESS0 that only reads it. */
  predicate IsPoll(a: Access) {
    a.Load? && a.index == USERACCESS_INDEX
  }

  /** A run of reads of USERACCESS0. */
  predicate Polls(s: seq<Access>) {
    forall i :: 0 <= i < |s| ==> IsPoll(s[i])
  }

  /** The registers of the 32 PHY addresses, 32 registers each. */
  predicate WellFormed(regs: seq<seq<bv16>>) {
    |regs| == 32 && forall a :: 0 <= a < 32 ==> |regs[a]| == 32
  }

  /** Whether the PHY a command addresses answers, by the alive bitmap. */
  predicate Answers(cmd: bv32, alive: bv32) {
    AliveBit(alive, PhyField(cmd) as nat)
  }

  /** Data field of the USERACCESS0 word once the transaction `cmd` completes. */
  function ResultData(cmd: bv32, alive: bv32, regs: seq<seq<bv16>>): (d: bv32)
    requires WellFormed(regs)
    ensures d < 0x1_0000
  {
    if cmd & WRITE_BIT != 0 then DataField(cmd)
    else if Answers(cmd, alive) then regs[PhyField(cmd)][RegField(cmd)] as bv32
    else 0xFFFF
  }

  /** A completed USERACCESS0 word: GO clear, the command's direction and addresses, the outcome. */
  function Completed(cmd: bv32, ack: bool, data: bv32): (done: bv32)
    requires data < 0x1_0000
    ensures done & GO_BIT == 0
    ensures done & WRITE_BIT == cmd & WRITE_BIT
    ensures (done & ACK_BIT != 0) == ack
    ensures RegField(done) == RegField(cmd) && PhyField(done) == PhyField(cmd)
    ensures DataField(done) == data
  {
    (cmd & 0x43FF_0000) | (if ack then ACK_BIT else 0) | data
  }

  /** The USERACCESS0 word once the transaction `cmd` completes. */
  function Respond(cmd: bv32, alive: bv32, regs: seq<seq<bv16>>): (done: bv32)
    requires WellFormed(regs)
    ensures done & GO_BIT == 0
    ensures done & WRITE_BIT == cmd & WRITE_BIT
    ensures (done & ACK_BIT != 0) == Answers(cmd, alive)
    ensures RegField(done) == RegField(cmd) && PhyField(done) == PhyField(cmd)
    ensures DataField(done) == ResultData(cmd, alive, regs)
  {
    Completed(cmd, Answers(cmd, alive), ResultData(cmd, alive, regs))
  }

  /** The PHY registers once the transaction `cmd` completes. */
  function Commit(cmd: bv32, alive: bv32, regs: seq<seq<bv16>>): (regs': seq<seq<bv16>>)
    requires WellFormed(regs)
    ensures WellFormed(regs')
    ensures forall a, r :: 0 <= a < 32 && 0 <= r < 32 ==>
      regs'[a][r] == if cmd & WRITE_BIT != 0 && Answers(cmd, alive) && a == PhyField(cmd) as nat && r == RegField(cmd) as nat
                     then DataField(cmd) as bv16 else regs[a][r]
  {
    if cmd & WRITE_BIT != 0 && Answers(cmd, alive) then
      var a, r := PhyField(cmd) as nat, RegField(cmd) as nat;
      regs[a := regs[a][r := DataField(cmd) as bv16]]
    else regs
  }

  /** What the window and the bus hold at one instant: the 36 words and the PHY registers. */
  datatype Hw = Hw(words: seq<bv32>, regs: seq<seq<bv16>>)

  predicate Sane(h: Hw) {
    |h.words| == WINDOW_WORDS && WellFormed(h.regs)
  }

  /** USERACCESS0 of a snapshot. */
  function UserAccess(h: Hw): bv32
    requires Sane(h)
  {
    h.words[USERACCESS_INDEX]
  }

  /** A transaction is in flight: GO is set. */
  predicate Busy(h: Hw)
    requires Sane(h)
  {
    UserAccess(h) & GO_BIT != 0
  }

  /**
   * The snapshot once the transaction in flight, if any, has completed: USERACCESS0
   * holds the response and the PHY registers the write; nothing else changes.
   */
  function Settle(h: Hw): (h': Hw)
    requires Sane(h)
    ensures Sane(h') && !Busy(h')
    ensures forall i :: 0 <= i < WINDOW_WORDS && i != USERACCESS_INDEX ==> h'.words[i] == h.words[i]
    ensures !Busy(h) ==> h' == h
  {
    if Busy(h) then
      var cmd, alive := UserAccess(h), h.words[ALIVE_INDEX];
      Hw(h.words[USERACCESS_INDEX := Respond(cmd, alive, h.regs)], Commit(cmd, alive, h.regs))
    else h
  }

  /** The snapshot once `cmd` is stored in USERACCESS0. */
  function Issue(h: Hw, cmd: bv32): (h': Hw)
    requires Sane(h)
    ensures Sane(h') && UserAccess(h') == cmd && h'.regs == h.regs
    ensures forall i :: 0 <= i < WINDOW_WORDS && i != USERACCESS_INDEX ==> h'.words[i] == h.words[i]
  {
    Hw(h.words[USERACCESS_INDEX := cmd], h.regs)
  }

  /** A command issued on an idle bus completes with the response to it. */
  lemma IssueThenSettle(h: Hw, cmd: bv32)
    requires Sane(h) && !Busy(h) && cmd & GO_BIT != 0
    ensures var h' := Settle(Issue(h, cmd));
            UserAccess(h') == Respond(cmd, h.words[ALIVE_INDEX], h.regs)
            && h'.regs == Commit(cmd, h.words[ALIVE_INDEX], h.regs)
  {
  }

  /**
   * A completed read of register `reg` of PHY `phy`: GO and WRITE clear, the
   * addresses echoed, ACK exactly when the PHY answers, and the data field the
   * PHY register when it answers and 0xFFFF (the idle bus) when it does not.
   */
  predicate ReadAnswered(done: bv32, phy: bv32, reg: bv32, alive: bv32, regs: seq<seq<bv16>>)
    requires phy < 32 && reg < 32 && WellFormed(regs)
  {
    && done & GO_BIT == 0 && done & WRITE_BIT == 0
    && RegField(done) == reg && PhyField(done) == phy
    && (done & ACK_BIT != 0) == AliveBit(alive, phy as nat)
    && DataField(done) == (if AliveBit(alive, phy as nat) then regs[phy][reg] as bv32 else 0xFFFF)
  }

  /**
   * A completed write of `value` to register `reg` of PHY `phy`: GO clear, WRITE
   * set, the addresses and the value echoed, ACK exactly when the PHY answers.
   */
  predicate WriteAnswered(done: bv32, phy: bv32, reg: bv32, value: bv16, alive: bv32)
    requires phy < 32 && reg < 32
  {
    && done & GO_BIT == 0 && done & WRITE_BIT != 0
    && RegField(done) == reg && PhyField(done) == phy && DataField(done) == value as bv32
    && (done & ACK_BIT != 0) == AliveBit(alive, phy as nat)
  }

  /** What a read transaction yields; it leaves the PHY registers as they are. */
  lemma ReadOutcome(phy: bv32, reg: bv32, alive: bv32, regs: seq<seq<bv16>>)
    requires phy < 32 && reg < 32 && WellFormed(regs)
    ensures ReadAnswered(Respond(ReadCommand(phy, reg), alive, regs), phy, reg, alive, regs)
    ensures Commit(ReadCommand(phy, reg), alive, regs) == regs
  {
    var cmd := ReadCommand(phy, reg);
    assert cmd & WRITE_BIT == 0 && PhyField(cmd) == phy && RegField(cmd) == reg;
    assert Answers(cmd, alive) == AliveBit(alive, phy as nat);
    assert ResultData(cmd, alive, regs) == if AliveBit(alive, phy as nat) then regs[phy][reg] as bv32 else 0xFFFF;
  }

  /** What a write transaction yields; the PHY register takes the value when the PHY answers. */
  lemma WriteOutcome(phy: bv32, reg: bv32, value: bv16, alive: bv32, regs: seq<seq<bv16>>)
    requires phy < 32 && reg < 32 && WellFormed(regs)
    ensures WriteAnswered(Respond(WriteCommand(phy, reg, value as bv32), alive, regs), phy, reg, value, alive)
    ensures Commit(WriteCommand(phy, reg, value as bv32), alive, regs)
         == if AliveBit(alive, phy as nat) then regs[phy := regs[phy][reg := value]] else regs
  {
  }

  class RegisterWindow {
    /** The words of the window; USERACCESS0 is mem[USERACCESS_INDEX]. */
    const mem: array<bv32>
    /** Reads of USERACCESS0 still to go before the transaction in flight completes. */
    var busyReads: nat
    /** Reads every new transaction takes before it completes. */
    const latency: nat
    /** The registers of the PHYs on the bus. */
    var phyRegs: seq<seq<bv16>>
    /** Every access of the program to the window, oldest first. */
    ghost var trace: seq<Access>

    ghost predicate Valid()
      reads this
    {
      mem.Length == WINDOW_WORDS && WellFormed(phyRegs)
    }

    ghost function State(): (h: Hw)
      reads this, mem
      requires Valid()
      ensures Sane(h)
    {
      Hw(mem[..], phyRegs)
    }

    constructor (words: seq<bv32>, latency: nat, pending: nat, regs: seq<seq<bv16>>)
      requires |words| == WINDOW_WORDS && WellFormed(regs)
      ensures Valid() && fresh(mem)
      ensures State() == Hw(words, regs)
      ensures this.latency == latency && busyReads == pending && trace == []
    {
      mem := new bv32[WINDOW_WORDS](i requires 0 <= i < WINDOW_WORDS => words[i]);
      this.latency := latency;
      busyReads := pending;
      phyRegs := regs;
      trace := [];
    }

    /**
     * A volatile read of word `index`. A read of USERACCESS0 while GO is set
     * counts down the transaction in flight, and completes it at zero.
     */
    method ReadWord(index: nat) returns (v: bv32)
      requires Valid() && index < WINDOW_WORDS
      modifies this, mem
      ensures Valid()
      ensures if index == USERACCESS_INDEX && Busy(old(State())) then
                if old(busyReads) == 0 then State() == Settle(old(State())) && busyReads == 0
                else State() == old(State()) && busyReads == old(busyReads) - 1
              else State() == old(State()) && busyReads == old(busyReads)
      ensures v == mem[index]
      ensures trace == old(trace) + [Load(index, v)]
    {
      if index == USERACCESS_INDEX && mem[index] & GO_BIT != 0 {
        if busyReads == 0 {
          var cmd, alive := mem[index], mem[ALIVE_INDEX];
          mem[index] := Respond(cmd, alive, phyRegs);
          phyRegs := Commit(cmd, alive, phyRegs);
        } else {
          busyReads := busyReads - 1;
        }
      }
      v := mem[index];
      trace := trace + [Load(index, v)];
    }

    /** A volatile write of word `index`; a command with GO set starts a transaction. */
    method WriteWord(index: nat, v: bv32)
      requires Valid() && index < WINDOW_WORDS
      modifies this, mem
      ensures Valid()
      ensures State() == Hw(old(State()).words[index := v], old(phyRegs))
      ensures busyReads == if index == USERACCESS_INDEX && v & GO_BIT != 0 then latency else old(busyReads)
      ensures trace == old(trace) + [Store(index, v)]
    {
      mem[index] := v;
      if index == USERACCESS_INDEX && v & GO_BIT != 0 {
        busyReads := latency;
      }
      trace := trace + [Store(index, v)];
    }
  }
}
