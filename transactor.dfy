/**
 * The MDIO transaction engine of phyreg.c: accessreg and its two wrappers.
 *
 * A transaction waits until no transaction is in flight (GO clear), stores
 * its command word in USERACCESS0, waits until GO clears again, samples ACK
 * and returns the final USERACCESS0 word. Against the simulated controller of
 * module Device every wait ends, and the contracts below say which words were
 * read and written, in which order, and what the transaction did to the PHYs.
 */
module Transactor {
  import opened Registers
  import opened Device

  /**
   * `while (*useraccessaddress & GO_BIT);` — read USERACCESS0 until GO is clear.
   * The loop reads the word at least once; the transaction in flight, if any,
   * completes on the way.
   */
  method PollUntilIdle(w: RegisterWindow) returns (v: bv32, ghost polls: seq<Access>)
    requires w.Valid()
    modifies w, w.mem
    ensures w.Valid()
    ensures w.State() == Settle(old(w.State()))
    ensures v == w.mem[USERACCESS_INDEX] && v & GO_BIT == 0
    ensures w.trace == old(w.trace) + polls
    ensures Polls(polls) && polls != [] && polls[|polls| - 1] == Load(USERACCESS_INDEX, v)
    // a transaction that needs n more reads is done after n + 1
    ensures |polls| == if Busy(old(w.State())) then old(w.busyReads) + 1 else 1
  {
    v := w.ReadWord(USERACCESS_INDEX);
    polls := [Load(USERACCESS_INDEX, v)];
    while v & GO_BIT != 0
      invariant w.Valid() && v == w.mem[USERACCESS_INDEX]
      invariant w.trace == old(w.trace) + polls
      invariant Polls(polls) && polls != [] && polls[|polls| - 1] == Load(USERACCESS_INDEX, v)
      invariant w.State() == if v & GO_BIT != 0 then old(w.State()) else Settle(old(w.State()))
      invariant v & GO_BIT != 0 ==> |polls| + w.busyReads == old(w.busyReads)
      invariant v & GO_BIT == 0 ==> |polls| == if Busy(old(w.State())) then old(w.busyReads) + 1 else 1
      decreases if v & GO_BIT != 0 then w.busyReads + 1 else 0
    {
      v := w.ReadWord(USERACCESS_INDEX);
      polls := polls + [Load(USERACCESS_INDEX, v)];
    }
  }

  lemma PollsAppend(a: seq<Access>, b: seq<Access>)
    requires Polls(a) && Polls(b)
    ensures Polls(a + b)
  {
  }

  /**
   * The first step of accessreg (IDLE or WAIT): read USERACCESS0 and, if GO is
   * set, poll until it clears.
   */
  method WaitIfBusy(w: RegisterWindow) returns (v: bv32, ghost polls: seq<Access>)
    requires w.Valid()
    modifies w, w.mem
    ensures w.Valid()
    ensures w.State() == Settle(old(w.State()))
    ensures v == w.mem[USERACCESS_INDEX] && v & GO_BIT == 0
    ensures w.trace == old(w.trace) + polls
    ensures Polls(polls) && polls != [] && polls[|polls| - 1] == Load(USERACCESS_INDEX, v)
    ensures |polls| == if Busy(old(w.State())) then old(w.busyReads) + 1 else 1
  {
    v := w.ReadWord(USERACCESS_INDEX);
    polls := [Load(USERACCESS_INDEX, v)];
    if v & GO_BIT != 0 {
      ghost var more;
      v, more := PollUntilIdle(w);
      PollsAppend(polls, more);
      polls := polls + more;
    }
  }

  /**
   * The second step of accessreg: store the command word, with the read of the
   * word the trace line makes (before the store for a write, after it for a read).
   */
  method SendCommand(w: RegisterWindow, cmd: bv32, writeflag: bool)
    returns (ghost pre: seq<Access>, ghost post: seq<Access>)
    requires w.Valid() && !Busy(w.State()) && cmd & GO_BIT != 0
    modifies w, w.mem
    ensures w.Valid()
    ensures Settle(w.State()) == Settle(Issue(old(w.State()), cmd))
    ensures w.trace == old(w.trace) + pre + [Store(USERACCESS_INDEX, cmd)] + post
    ensures Polls(pre) && Polls(post)
    ensures pre != [] ==> pre[|pre| - 1].value & GO_BIT == 0
    // a write shows the word before the store (line 148), a read after it (line 154)
    ensures writeflag ==> |pre| == 1 && post == []
    ensures !writeflag ==> pre == [] && |post| == 1
    // the command is in USERACCESS0, unless the read after the store already completed it
    ensures w.State() == if Busy(w.State()) then Issue(old(w.State()), cmd) else Settle(Issue(old(w.State()), cmd))
    // the new transaction's countdown, less the read already made after the store
    ensures if Busy(w.State()) then w.busyReads + |post| == w.latency else w.latency == 0 && |post| == 1
  {
    if writeflag {
      var shown := w.ReadWord(USERACCESS_INDEX);
      pre := [Load(USERACCESS_INDEX, shown)];
      w.WriteWord(USERACCESS_INDEX, cmd);
      post := [];
    } else {
      pre := [];
      w.WriteWord(USERACCESS_INDEX, cmd);
      var shown := w.ReadWord(USERACCESS_INDEX);
      post := [Load(USERACCESS_INDEX, shown)];
    }
  }

  /**
   * The last steps of accessreg: poll until GO clears, sample ACK (and, on ACK,
   * poll again), then read the word that is returned.
   */
  method AwaitResult(w: RegisterWindow) returns (data: bv32, acked: bool, ghost polls: seq<Access>)
    requires w.Valid()
    modifies w, w.mem
    ensures w.Valid()
    ensures w.State() == Settle(old(w.State()))
    ensures data == w.mem[USERACCESS_INDEX] && data & GO_BIT == 0
    ensures acked == (data & ACK_BIT != 0)
    ensures w.trace == old(w.trace) + polls
    ensures Polls(polls) && polls != [] && polls[|polls| - 1] == Load(USERACCESS_INDEX, data)
    // the first wait, the ACK sample, the second wait (on ACK only, one read as GO is clear) and the final read
    ensures |polls| == (if Busy(old(w.State())) then old(w.busyReads) + 1 else 1) + (if acked then 3 else 2)
  {
    ghost var more;
    var v;
    v, polls := PollUntilIdle(w);
    v := w.ReadWord(USERACCESS_INDEX);
    PollsAppend(polls, [Load(USERACCESS_INDEX, v)]);
    polls := polls + [Load(USERACCESS_INDEX, v)];
    acked := v & ACK_BIT != 0;
    if acked {
      v, more := PollUntilIdle(w);
      PollsAppend(polls, more);
      polls := polls + more;
    }
    data := w.ReadWord(USERACCESS_INDEX);
    PollsAppend(polls, [Load(USERACCESS_INDEX, data)]);
    polls := polls + [Load(USERACCESS_INDEX, data)];
  }

  /**
   * accessreg: one MDIO transaction on USERACCESS0 of `w`, a write of `writeval`
   * when `writeflag` is set and a read otherwise. `data` is the USERACCESS0 word
   * read last; `acked` is the ACK/NAK decision the program reports for it.
   * `issued` is the command word, `before` and `after` the reads around it.
   */
  method AccessReg(w: RegisterWindow, phy: bv32, reg: bv32, writeflag: bool, writeval: bv32)
    returns (data: bv32, acked: bool, ghost issued: bv32, ghost before: seq<Access>, ghost after: seq<Access>)
    requires w.Valid() && phy < 32 && reg < 32
    requires writeflag ==> writeval < 0x1_0000
    modifies w, w.mem
    ensures w.Valid()
    ensures issued == if writeflag then WriteCommand(phy, reg, writeval) else ReadCommand(phy, reg)
    // the only write is the command, and it follows a read that saw GO clear
    ensures w.trace == old(w.trace) + before + [Store(USERACCESS_INDEX, issued)] + after
    ensures Polls(before) && before != [] && before[|before| - 1].value & GO_BIT == 0
    // the result is the last word read, and GO was clear in it
    ensures Polls(after) && after != [] && after[|after| - 1] == Load(USERACCESS_INDEX, data)
    ensures data & GO_BIT == 0
    ensures acked == (data & ACK_BIT != 0)
    // the transaction in flight (if any) completes, then this one
    ensures w.State() == Settle(Issue(Settle(old(w.State())), issued))
    ensures data == Respond(issued, old(w.mem[ALIVE_INDEX]), Settle(old(w.State())).regs)
    // both waits end within a number of reads bounded by the device's countdowns
    ensures |before| <= (if Busy(old(w.State())) then old(w.busyReads) + 1 else 1) + 1
    ensures |after| <= w.latency + 5
  {
    ghost var start, idle := w.State(), Settle(w.State());
    ghost var waited, pre, post, polls;
    var v;
    v, waited := WaitIfBusy(w);

    var cmd := if writeflag then WriteCommand(phy, reg, writeval) else ReadCommand(phy, reg);
    issued := cmd;
    pre, post := SendCommand(w, cmd, writeflag);
    PollsAppend(waited, pre);
    before := waited + pre;
    ghost var sent := w.trace;

    data, acked, polls := AwaitResult(w);
    PollsAppend(post, polls);
    after := post + polls;
    assert w.trace == sent + polls;
    IssueThenSettle(idle, issued);
  }

  /** readreg: a read transaction of register `reg` of PHY `phy`. */
  method ReadReg(w: RegisterWindow, phy: bv32, reg: bv32)
    returns (data: bv32, acked: bool, ghost before: seq<Access>, ghost after: seq<Access>)
    requires w.Valid() && phy < 32 && reg < 32
    modifies w, w.mem
    ensures w.Valid()
    ensures w.trace == old(w.trace) + before + [Store(USERACCESS_INDEX, ReadCommand(phy, reg))] + after
    ensures Polls(before) && before != [] && before[|before| - 1].value & GO_BIT == 0
    ensures Polls(after) && after != [] && after[|after| - 1] == Load(USERACCESS_INDEX, data)
    ensures w.State() == Settle(Issue(Settle(old(w.State())), ReadCommand(phy, reg)))
    ensures acked == (data & ACK_BIT != 0)
    ensures var alive, regs := old(w.mem[ALIVE_INDEX]), Settle(old(w.State())).regs;
            ReadAnswered(data, phy, reg, alive, regs) && w.phyRegs == regs
    ensures |after| <= w.latency + 5
  {
    ghost var alive, idle := w.mem[ALIVE_INDEX], Settle(w.State());
    ghost var issued;
    data, acked, issued, before, after := AccessReg(w, phy, reg, false, 0);
    assert idle.words[ALIVE_INDEX] == alive;
    IssueThenSettle(idle, issued);
    ReadOutcome(phy, reg, alive, idle.regs);
  }

  /** writereg: a write transaction of `value` to register `reg` of PHY `phy`. */
  method WriteReg(w: RegisterWindow, phy: bv32, reg: bv32, value: bv16)
    returns (data: bv32, acked: bool, ghost before: seq<Access>, ghost after: seq<Access>)
    requires w.Valid() && phy < 32 && reg < 32
    modifies w, w.mem
    ensures w.Valid()
    ensures w.trace == old(w.trace) + before + [Store(USERACCESS_INDEX, WriteCommand(phy, reg, value as bv32))] + after
    ensures Polls(before) && before != [] && before[|before| - 1].value & GO_BIT == 0
    ensures Polls(after) && after != [] && after[|after| - 1] == Load(USERACCESS_INDEX, data)
    ensures w.State() == Settle(Issue(Settle(old(w.State())), WriteCommand(phy, reg, value as bv32)))
    ensures acked == (data & ACK_BIT != 0)
    ensures var alive, regs := old(w.mem[ALIVE_INDEX]), Settle(old(w.State())).regs;
            WriteAnswered(data, phy, reg, value, alive)
            && w.phyRegs == (if AliveBit(alive, phy as nat) then regs[phy := regs[phy][reg := value]] else regs)
    ensures |after| <= w.latency + 5
  {
    ghost var alive, idle := w.mem[ALIVE_INDEX], Settle(w.State());
    ghost var issued;
    data, acked, issued, before, after := AccessReg(w, phy, reg, true, value as bv32);
    assert idle.words[ALIVE_INDEX] == alive;
    IssueThenSettle(idle, issued);
    WriteOutcome(phy, reg, value, alive, idle.regs);
  }

  /**
   * writereg followed by readreg of the same register: when the PHY answers,
   * the read is acknowledged and returns the value written.
   */
  method WriteThenRead(w: RegisterWindow, phy: bv32, reg: bv32, value: bv16) returns (data: bv32, acked: bool)
    requires w.Valid() && phy < 32 && reg < 32
    modifies w, w.mem
    ensures w.Valid()
    ensures acked == AliveBit(old(w.mem[ALIVE_INDEX]), phy as nat)
    ensures AliveBit(old(w.mem[ALIVE_INDEX]), phy as nat) ==> DataField(data) == value as bv32
    ensures !AliveBit(old(w.mem[ALIVE_INDEX]), phy as nat) ==> DataField(data) == 0xFFFF
  {
    var written, wacked;
    ghost var b1, a1, b2, a2;
    written, wacked, b1, a1 := WriteReg(w, phy, reg, value);
    data, acked, b2, a2 := ReadReg(w, phy, reg);
  }
}
