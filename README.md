# MDIO transaction engine of phyreg.c, modelled in Dafny

`phyreg.c` reads and writes registers of an Ethernet PHY or switch attached to
the MDIO controller of a TI AM335x. It maps the controller's register block
(`MAP_SIZE` = 0x90 bytes at physical address `MDIO_BASE_TARGET` = 0x4a101000)
and drives every transaction through a single shared register, USERACCESS0.
USERACCESS0 has GO at bit 31, WRITE at bit 30, ACK at bit 29, the register
index at bits 25:21, the PHY address at bits 20:16 and the data at bits 15:0
(section 14.5.10.11 of the TI AM335x Technical Reference Manual).

This project models the core of that program:

- `registers.dfy` (module `Registers`) holds the constants, the alignment test
  of `map_base`, `OFFSET_PTR`, and the two command words `accessreg` composes.
  The command words are `bv32` arithmetic with their field decodings proved.
- `device.dfy` (module `Device`) is the hardware the program talks to, as a
  simulation. The mapped block is a class `RegisterWindow` over an
  `array<bv32>` of 36 words. Every word is plain memory except USERACCESS0
  (word 32):
  - Storing a word with GO set starts a transaction that needs `latency`
    further reads of the word.
  - The read after those completes the transaction. It clears GO and sets ACK
    exactly when the addressed PHY has its bit set in the alive register
    (word 2). A write then goes into the PHY's register when the PHY answers. A read puts the PHY
    register in the data field, or 0xFFFF when no PHY answers.
  - The PHYs' registers are a 32 x 32 table of 16-bit values.
  - A ghost `trace` records every read and write the program makes, in order.
  - `busyReads` is the countdown of the transaction in flight. It gives every
    busy-wait loop a termination measure.
- `transactor.dfy` (module `Transactor`) is `accessreg`, `readreg` and
  `writereg` as imperative methods over the window. Their contracts say:
  - which words were read and written, and in which order;
  - that the one write, the command, follows a read that saw GO clear;
  - that the returned word was read with GO clear;
  - how ACK was decided;
  - what the transaction did to the PHYs;
  - how many reads each wait takes.
- `session.dfy` (module `Session`) is `map_base` (alignment test, then an
  abstract outcome of open/mmap) and `miiInit` as a method of a class holding
  the program's two globals, `mdiobase` and `phy_address`. `miiInit` enables
  the controller, scans the alive bitmap, and makes one forced write to switch
  port 9 (PHY address 25).

State snapshots: `Device.Hw` is the window's words together with the PHY
registers. `Settle` completes the transaction in flight, if there is one, and
`Issue` stores a command. `AccessReg` ends in `Settle(Issue(Settle(old state),
command))`: first the transaction that was in flight completes, then this one.

Where the code and its own comments differ, the model follows the code:
- `accessreg` returns the whole final USERACCESS0 word (phyreg.c:171, 181).
  The comment at phyreg.c:171 says only its bottom 16 bits are the read value,
  and those are its data field.
- The comment at phyreg.c:130 says the result is the register contents "before
  write". The code returns the word read after the transaction completes
  (phyreg.c:171), and so does the model.
- `unmap_base` (phyreg.c:123-127) only calls `munmap` and leaves no record that
  the window was released. The model has no released state either.
- An unanswered transaction (NAK, phyreg.c:166-169) is reported and not treated
  as an error. `AccessReg` returns the ACK/NAK decision as `acked`, which the
  code only prints.

The `printf` calls at phyreg.c:148 and phyreg.c:154 read USERACCESS0, and a read
of that volatile register is a real bus access. The model makes those two reads.
In the read path, the read at line 154 already counts down the new transaction.

## Model

| member | source | states |
|---|---|---|
| Registers.WriteCommand | phyreg.c:149 | For phy < 32, reg < 32, data < 65536, the write command word has GO and WRITE set and ACK and bits 28:26 clear. Its register, PHY and data fields decode back to reg, phy and data. |
| Registers.ReadCommand | phyreg.c:153 | The read command word has GO set and WRITE, ACK, bits 28:26 and bits 15:0 clear. Its register and PHY fields decode back to the inputs. |
| Registers.CommandFromFields | phyreg.c:149-153 | The converse round trip: a word with GO set and ACK and reserved bits clear is the command word built from its own fields. This holds for writes, and for reads whose data field is zero. |
| Registers.CommandsInjective | phyreg.c:149-153 | Two write commands are equal exactly when their PHY, register and data agree. Two read commands are equal exactly when their PHY and register agree. A read command is never a write command. |
| Registers.AlignedIff | phyreg.c:90 | The test `target == (target & ~MAP_MASK)` holds exactly when `target & MAP_MASK == 0`. |
| Registers.BaseTargetAligned | phyreg.c:64-67 | MDIO_BASE_TARGET passes the alignment test against MAP_MASK = 0x8F. |
| Registers.OffsetPtr | phyreg.c:83 | A byte offset addresses word offset / 4: `4 * index <= offset < 4 * index + 4`. |
| Registers.RegisterIndices | phyreg.c:64-73 | The window has MAP_SIZE / 4 = 36 words. The offsets 0x04, 0x08, 0x0c and 0x80 map to words 1, 2, 3 and 32, all inside the window. |
| Transactor.PollUntilIdle | phyreg.c:159 | The wait `while (*ua & GO);` reads at least once and ends with GO clear. Only reads happen, and the last read returns the value. The transaction in flight completes, and a transaction needing n more reads takes exactly n + 1 reads (1 if idle). |
| Transactor.WaitIfBusy | phyreg.c:136-144 | The first step reads once and, if GO is set, waits (WAIT). Otherwise it goes on (IDLE). It ends with GO clear after the same exact number of reads. |
| Transactor.SendCommand | phyreg.c:146-155 | The command is the only write. In a write there is exactly one read before the store (line 148) and none after it. In a read there is none before and exactly one after (line 154). The read before the store sees GO clear. The new state is the old one with the command in USERACCESS0, or, when the read after the store already ended the transaction, that transaction completed. The new transaction's countdown is `latency` less the read already made. |
| Transactor.AwaitResult | phyreg.c:159-171 | It waits until GO clears, samples ACK (line 161), waits again on ACK only (line 164), and returns the word read last (line 171). That word has GO clear, and `acked` is its bit 29. The number of reads is exact: the first wait's n + 1, then 3 more on ACK and 2 on NAK. A NAK does not stop the transaction from returning. |
| Transactor.AccessReg | phyreg.c:132-183 | The trace is reads, then exactly one write of the command word, then reads. The read just before the write saw GO clear. The returned word is the last read, with GO clear, and `acked` equals its bit 29. The transaction in flight completes, then this one does. The result is the device's response to this command. Both waits end within bounds set by the countdowns. |
| Transactor.ReadReg | phyreg.c:185-187 | This is a read transaction with the same protocol. The result echoes phy and reg with WRITE clear. ACK is set exactly when the PHY's alive bit is set. The data field is the PHY register when ACK is set and 0xFFFF when it is not. Apart from the transaction already in flight, which completes first, the PHY registers do not change. |
| Transactor.WriteReg | phyreg.c:189-191 | This is a write transaction with the same protocol. The result echoes phy, reg and value with WRITE set. ACK is set exactly when the PHY's alive bit is set. Apart from the transaction already in flight, which completes first, only that PHY's register changes, and only on ACK. |
| Transactor.WriteThenRead | phyreg.c:185-191 | `writereg` then `readreg` of the same register: the read is acknowledged exactly when the PHY answers, and then its data field is the value written; otherwise it is 0xFFFF. |
| Session.MapBase | phyreg.c:88-121 | The window exists exactly when the target is aligned and both open and mmap succeed. When it exists it is the controller block. |
| Session.MisalignedIgnoresSystem | phyreg.c:90-93 | A target with `target & MAP_MASK != 0` is refused whatever open and mmap would do. |
| Session.BaseTargetMaps | phyreg.c:198-203 | Mapping MDIO_BASE_TARGET fails only when the system calls fail. |
| Session.FirstAlive | phyreg.c:219-222 | The scan from `from` ends at an address between `from` and 32. |
| Session.FirstAliveIsLowest | phyreg.c:219-222 | When the scan stops below 32, that bit is set. Every bit it passed is clear. |
| Session.FirstAliveUnique | phyreg.c:219-222 | Conversely, an address whose bit is set, with only clear bits between `from` and it, is where the scan stops. With no set bit at all, the scan stops at 32. |
| Session.FirstAliveNone | phyreg.c:219-228 | The scan reaches 32, the "no PHY found" case, exactly when no bit from `from` up is set. |
| Session.FirstAliveOfEmpty | phyreg.c:224-228 | An all-zero bitmap gives 32. |
| Session.FirstAliveOfNonEmpty | phyreg.c:219-228 | From the initial address 0 (phyreg.c line 80), a non-zero bitmap always gives an address below 32. |
| Session.FirstAliveOfBit3 | phyreg.c:219-222 | Bitmap 0x8 gives address 3. |
| Session.EnableAccesses | phyreg.c:206-212 | The enable step reads the register. It makes a second access, the write of 0x410000ff, exactly when the value read differs. |
| Session.EnableIdempotent | phyreg.c:209-212 | On a controller that is already enabled, the step only reads. Otherwise its one write stores 0x410000ff. |
| Session.EnableControl | phyreg.c:206-212 | Afterwards the enable register holds 0x410000ff and no other word, PHY register or the countdown of the transaction in flight changes. The trace is exactly `EnableAccesses` of the old value. |
| Session.MiiSession.constructor | phyreg.c:79-80 | The globals start as null and 0. |
| Session.MiiSession.MiiInit | phyreg.c:193-238 | If the mapping fails, it returns -1 and touches nothing: words, PHY registers, trace and the countdown of the transaction in flight are unchanged. Whenever it returns -1 that countdown is unchanged. If the mapping succeeds: `phyAddress` becomes the first alive address from its old value, and the result is 0 exactly when that is below 32. The whole new device state is given: it is the old state with the enable register set to 0x410000ff and, on success only, the in-flight transaction and then `WriteCommand(25, 1, 0x003D)` completed; no other word and no other PHY register changes. The trace is the enable step, one read of the alive register and, on success only, exactly one write transaction, whatever address was found. That transaction is issued after GO is seen clear and ends with GO clear. Port 25 then holds 0x003D if it answers. |

## Left out

- `main` (phyreg.c:240-335) is left out: argument dispatch, `atoi`/`strtol` parsing and the usage text are command-line plumbing. It also reads `argv[4]` when `argc == 4`.
- The `open`, `mmap`, `munmap` and `close` system calls are replaced by the `MapAttempt` outcome and a caller-supplied window. `unmap_base` (phyreg.c:123-127) is only a `munmap` and is not modelled.
- All `printf`/`fprintf` output is left out. The reads of USERACCESS0 made inside the `printf` calls at lines 148 and 154 are kept.
- Real hardware timing is left out. The model terminates only against a controller that clears GO after finitely many reads, given by `busyReads` and `latency`. On real hardware the loops have no bound.
- Out-of-range inputs (`reg > 31`, `phy_address > 31`, a write value of 65536 or more) are excluded by `requires`. With such inputs the shifted fields overlap.
- C's undefined `1 << 31` for `int` (phyreg.c:75, phyreg.c:219) and the conversion of the returned `unsigned` to `int` are not modelled. All words are `bv32`.
- The link-status register (offset 0x0c) is only a constant, since the code never reads it.
- Other processes mapping the same block, and more than one controller, are not modelled.
- The responses to transactions (ACK from the alive bitmap, 0xFFFF on an unanswered read, writes stored in a register table) are a simulation of the hardware. They are not taken from phyreg.c.
