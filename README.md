# I2C test firmware and simulated slave, modelled in Dafny

This project models the three small pieces of the I2C cocotb test:

* The firmware-side **command-bit I2C master driver** (`i2c_test.h`). It covers the
  register map, the control, command and status bits, and the ordered register stores
  of `i2c_init`, `i2c_write_byte` and `i2c_read_byte`. Each phase of a transaction ends
  with a spin on the TIP (transfer in progress) bit of the status register.
  `i2c_get_ack` decodes RXACK.
* The **virtual-GPIO helpers** of the test firmware (`i2c_test.c`). One 32-bit
  register carries the firmware's output in its low half and the testbench's input in
  its high half.
* The **data logic of the simulated slave** (`i2c_slave.py`). It covers the register
  storage, MSB-first capture of sampled SDA bits, MSB-first emission of a byte, and the
  order in which one frame is decoded.

Files:

* `Mmio.dfy`: the processor's bus, shared by both firmware parts. `Bus` is a class
  with three fields:
  * `regs`: the last value stored at each address, keyed by the address as an integer
    (`Addr`, the 32-bit range), so single registers can be read out of the map;
  * `trace`: every volatile access so far, in program order;
  * `replies`: the values the device will return to the coming loads.

  `Valid()` says that `regs` is exactly the initial map with the recorded stores
  replayed.
* `I2cMaster.dfy`, `Vgpio.dfy`: the driver methods on a `Bus`. Each method's
  `ensures` states the exact events it appends to the trace and the new register map.
  Functions named `…Trace` give the exact event sequence of each driver call, and the
  lemmas state the register-level promises of those sequences.
* `I2cSlave.dfy`: the slave's storage object as a class, and `Transaction`, which gives
  the storage and outcome of one frame. It also holds the binary text functions
  (Python's `int(text, 2)` and `f"{v:08b}"`) and their round-trip lemmas.
* `Wire.dfy`: the frame a master `write_byte` starts, resolved on the slave's side.

How the environment is represented:

* **Device replies.** A load returns the next scripted reply, whatever its address:
  status polls, the received data byte, and the GPIO input half alike.
* **Spin loops.** `i2c_wait_tip` and `vgpio_wait_val` each take a ghost sequence `w`.
  It holds the values the wait consumes: values that do not end it, then the first
  value that does (`IsPoll`, `IsInputWait`). The precondition asks that the reply
  stream begins with `w`. `PollUnique` shows the replies themselves fix `w`.
* **Slave frames.** A frame reaches the slave as the SDA values sampled at its SCL
  rising edges. Each value is one character of the signal's binary text, as
  `binstr` gives it. A non-binary character makes `int(text, 2)` raise `ValueError`,
  which the model carries as `NotBinary`.

What the slave does with a frame, as the code is written:

* Samples 0 to 6 are the address and sample 7 is R/W.
* The acknowledge clock (sample 8) is not sampled: the code waits for two falling
  edges of SCL there.
* A write takes its data from samples 9 to 16 and stores it under the 7-bit address.
* A read looks the address up and transmits the value.

Storage is therefore keyed by the slave address, not by a register number. Suppose the
slave's SDA input carries the master's bits unchanged on the data clocks. Then, against the
driver's `write_byte`, the slave stores the register byte under the slave address and never
stores the data byte (`Wire.WriteByteFrameStoresRegister`). The bus wiring that decides
whether that holds is not part of this model (see "## Left out").

## Model

| member | source | states |
|---|---|---|
| `Mmio.Bus.Store` | verilog/dv/cocotb/i2c_test/i2c_test.h:32-34 | a volatile store updates exactly that address, appends one Write event, keeps the replies and keeps `Valid()` |
| `Mmio.Bus.Load` | verilog/dv/cocotb/i2c_test/i2c_test.h:36-38 | a volatile load returns the device's next reply, appends one Read event and changes no register |
| `Mmio.ReplayLoads` | verilog/dv/cocotb/i2c_test/i2c_test.h:36-38 | any sequence of loads leaves the register map unchanged |
| `Mmio.PollUnique` | verilog/dv/cocotb/i2c_test/i2c_test.h:46-48 | what a spin-wait consumes is determined by the reply stream: two waits on the same stream are the same |
| `I2cMaster.RegisterAddresses` | verilog/dv/cocotb/i2c_test/i2c_test.h:6-12 | the five registers are 0x30000000 + 0x00, 0x04, 0x08, 0x0C, 0x10 and pairwise distinct |
| `I2cMaster.FlagsAreSingleBits` | verilog/dv/cocotb/i2c_test/i2c_test.h:14-28 | every control, command and status flag is a single bit, and the flags of each group are distinct |
| `I2cMaster.CommandEncodings` | verilog/dv/cocotb/i2c_test/i2c_test.h:54-82 | EN is 0x80; the issued commands START\|WRITE, WRITE, WRITE\|STOP and READ\|ACK\|STOP are 0x90, 0x10, 0x50 and 0x68 |
| `I2cMaster.AckOf` | verilog/dv/cocotb/i2c_test/i2c_test.h:50-52 | the result is 0 or 1, and it is 1 exactly when bit 7 (RXACK) of the status is 0 |
| `I2cMaster.AddressByte` | verilog/dv/cocotb/i2c_test/i2c_test.h:54-78 | the address byte has LSB 0 for a write and 1 for a read, its bits above the LSB equal the slave address, and it is below 0x200 |
| `I2cMaster.LowByte` | verilog/dv/cocotb/i2c_test/i2c_test.h:84 | the `uint8_t` cast keeps exactly the low 8 bits of the loaded value |
| `I2cMaster.InitTraceValues` | verilog/dv/cocotb/i2c_test/i2c_test.h:40-44 | the two prescaler bytes are each below 256 and put the prescaler's low 16 bits back together; CONTROL gets 0x80 |
| `I2cMaster.InitRegisters` | verilog/dv/cocotb/i2c_test/i2c_test.h:40-44 | after i2c_init, PRESCALE_LOW, PRESCALE_HIGH and CONTROL hold the low byte, the second byte and EN, whatever they held before, and nothing else changes |
| `I2cMaster.InitIdempotent` | verilog/dv/cocotb/i2c_test/i2c_test.h:40-44 | running i2c_init twice with the same prescaler gives the same register map as running it once |
| `I2cMaster.TipWaitBlocks` | verilog/dv/cocotb/i2c_test/i2c_test.h:46-48 | a TIP wait loads CMD_STATUS at least once and only CMD_STATUS; the last value had TIP clear and every earlier one had TIP set |
| `I2cMaster.PhaseThen` | verilog/dv/cocotb/i2c_test/i2c_test.h:55-57 | one phase (data store, command store, TIP wait) leaves DATA and CMD_STATUS holding the data and the command, whatever follows |
| `I2cMaster.SelectRegisterThen` | verilog/dv/cocotb/i2c_test/i2c_test.h:54-61 | after the two register-select phases, DATA holds the register byte and CMD_STATUS holds WRITE |
| `I2cMaster.WriteByteStores` | verilog/dv/cocotb/i2c_test/i2c_test.h:54-66 | write_byte stores exactly, in order: DATA := s<<1, CMD := 0x90, DATA := r, CMD := 0x10, DATA := d, CMD := 0x50; it stores to no register other than DATA and CMD_STATUS |
| `I2cMaster.WriteByteRegisters` | verilog/dv/cocotb/i2c_test/i2c_test.h:54-66 | after write_byte, DATA holds the data byte and CMD_STATUS holds WRITE\|STOP; every other register is as before |
| `I2cMaster.WriteByteReadsBack` | verilog/dv/cocotb/i2c_test/i2c_test.h:54-66 | register by register after write_byte: DATA reads the data byte, CMD_STATUS reads 0x50, and every other address is mapped exactly as before, to the same value |
| `I2cMaster.WriteByteEndsIdle` | verilog/dv/cocotb/i2c_test/i2c_test.h:63-65 | write_byte's last access is a status load with TIP clear |
| `I2cMaster.FetchByteRegisters` | verilog/dv/cocotb/i2c_test/i2c_test.h:81-84 | the final read phase changes only CMD_STATUS, to READ\|ACK\|STOP |
| `I2cMaster.ReadByteStores` | verilog/dv/cocotb/i2c_test/i2c_test.h:68-85 | read_byte stores exactly, in order: the two select phases, DATA := (s<<1)\|1 with CMD := 0x90, then CMD := 0x68; it stores to no register other than DATA and CMD_STATUS |
| `I2cMaster.ReadByteRegisters` | verilog/dv/cocotb/i2c_test/i2c_test.h:68-85 | after read_byte, DATA holds the read address byte and CMD_STATUS holds READ\|ACK\|STOP; every other register is as before |
| `I2cMaster.ReadByteEndsWithData` | verilog/dv/cocotb/i2c_test/i2c_test.h:81-84 | read_byte's last access is a load of DATA, immediately after a status load with TIP clear |
| `I2cMaster.Init` | verilog/dv/cocotb/i2c_test/i2c_test.h:40-44 | appends exactly the three init stores and sets the three registers; it consumes no replies |
| `I2cMaster.WaitTip` | verilog/dv/cocotb/i2c_test/i2c_test.h:46-48 | the spin appends exactly the status loads of its wait, consumes exactly those replies and changes no register |
| `I2cMaster.GetAck` | verilog/dv/cocotb/i2c_test/i2c_test.h:50-52 | one status load whose value, decoded by AckOf, is the result |
| `I2cMaster.RunPhase` | verilog/dv/cocotb/i2c_test/i2c_test.h:55-57 | one phase appends the data store, the command store and the wait's loads, leaves DATA and CMD_STATUS holding the data and the command with every other register as before, and consumes the wait's replies |
| `I2cMaster.SelectRegisterOf` | verilog/dv/cocotb/i2c_test/i2c_test.h:54-61 | the first two phases of both transactions append exactly their events, in order, and leave DATA holding the register byte and CMD_STATUS holding WRITE |
| `I2cMaster.WriteByte` | verilog/dv/cocotb/i2c_test/i2c_test.h:54-66 | i2c_write_byte appends exactly the write_byte event sequence, leaves DATA holding the data byte and CMD_STATUS holding WRITE\|STOP with every other register as before, and consumes exactly its three waits' replies |
| `I2cMaster.Fetch` | verilog/dv/cocotb/i2c_test/i2c_test.h:81-84 | READ\|ACK\|STOP, a TIP wait, then a load of DATA whose value is the reply after the wait; only CMD_STATUS changes |
| `I2cMaster.ReadByte` | verilog/dv/cocotb/i2c_test/i2c_test.h:68-85 | i2c_read_byte appends exactly the read_byte event sequence, returns the low 8 bits of the final DATA load, leaves DATA holding the read address byte and CMD_STATUS holding READ\|ACK\|STOP with every other register as before, and consumes exactly its replies |
| `Vgpio.InputOf` | verilog/dv/cocotb/i2c_test/i2c_test.c:14-19 | the input value is the register's upper 16 bits, which is below 65536 |
| `Vgpio.WithOutput` | verilog/dv/cocotb/i2c_test/i2c_test.c:6-12 | the stored value's low 16 bits are the output value and its high 16 bits are the old register's |
| `Vgpio.OutputMasks` | verilog/dv/cocotb/i2c_test/i2c_test.c:10 | the same, in the masks 0xFFFF and 0xFFFF0000 |
| `Vgpio.OutputKeepsInput` | verilog/dv/cocotb/i2c_test/i2c_test.c:10-18 | with a register that reads back what was stored, writing the output does not change the input read |
| `Vgpio.OutputOverwrites` | verilog/dv/cocotb/i2c_test/i2c_test.c:6-12 | of two output writes, the later one alone decides the register |
| `Vgpio.WaitObserves` | verilog/dv/cocotb/i2c_test/i2c_test.c:21-24 | a finished wait loaded the register at least once; the last input read equals the value waited for and no earlier one did |
| `Vgpio.WriteOutput` | verilog/dv/cocotb/i2c_test/i2c_test.c:6-12 | a load then a store of the same register; the stored value is WithOutput of the loaded value |
| `Vgpio.ReadInput` | verilog/dv/cocotb/i2c_test/i2c_test.c:14-19 | one load; the result is InputOf its value; no register changes |
| `Vgpio.WaitVal` | verilog/dv/cocotb/i2c_test/i2c_test.c:21-24 | the spin appends exactly the loads of its wait, consumes exactly those replies and changes no register |
| `I2cSlave.ParseBinary` | verilog/dv/cocotb/i2c_slave.py:21 | `int(text, 2)` succeeds exactly on non-empty binary text, and then gives the weighted sum of the digits, below 2^len; otherwise it is a ValueError |
| `I2cSlave.ValueIsWeightedSum` | verilog/dv/cocotb/i2c_slave.py:14-21 | reading the digits one at a time equals the sum of b_i·2^(w-1-i) |
| `I2cSlave.ValueBound` | verilog/dv/cocotb/i2c_slave.py:14-21 | w captured bits give a value below 2^w |
| `I2cSlave.BinaryLength` | verilog/dv/cocotb/i2c_slave.py:36 | the number of binary digits n of v: n >= 1 and v < 2^n, and 2^(n-1) <= v when n > 1 (so v = 0 has one digit) |
| `I2cSlave.BitsValue` | verilog/dv/cocotb/i2c_slave.py:36-42 | the w-digit MSB-first text of a value below 2^w reads back as that value |
| `I2cSlave.BitsRoundTrip` | verilog/dv/cocotb/i2c_slave.py:14-21 | w bits of a value that fits decode, by the collect_bits rule, to that value |
| `I2cSlave.FormatRoundTrip` | verilog/dv/cocotb/i2c_slave.py:34-42 | the text transmit_byte sends decodes to the value for every value; it has at least 8 digits, and exactly 8 precisely when the value is below 256 |
| `I2cSlave.Lookup` | verilog/dv/cocotb/i2c_slave.py:27-32 | the read succeeds exactly when the address is stored, with the stored value; otherwise it fails with RuntimeError |
| `I2cSlave.ReadAfterWrite` | verilog/dv/cocotb/i2c_slave.py:23-32 | reg_write(a, v) followed by reg_read(a) returns v |
| `I2cSlave.WriteKeepsOthers` | verilog/dv/cocotb/i2c_slave.py:23-32 | reg_write(a, v) does not change what reg_read(b) returns for b ≠ a |
| `I2cSlave.Transaction` | verilog/dv/cocotb/i2c_slave.py:65-85 | a frame stores only at a 7-bit address and only a byte value, and then changes only that key; a read answers only for a stored 7-bit address; any other outcome leaves storage unchanged |
| `I2cSlave.WriteFrameStores` | verilog/dv/cocotb/i2c_slave.py:65-82 | a frame of 7 address bits, R/W = 0, an acknowledge clock and 8 data bits stores the data at the address, whatever follows |
| `I2cSlave.ReadFrameAnswers` | verilog/dv/cocotb/i2c_slave.py:65-85 | a frame with R/W = 1 sends the stored value's digits, or fails with RuntimeError when the address was never stored; storage is unchanged |
| `I2cSlave.WriteThenRead` | verilog/dv/cocotb/i2c_slave.py:65-85 | a write frame then a read frame for the same address sends 8 bits that decode to the byte written |
| `I2cSlave.TransactionKeepsBytes` | verilog/dv/cocotb/i2c_slave.py:80-82 | when every stored value is a byte, it stays so after any frame |
| `I2cSlave.Slave.constructor` | verilog/dv/cocotb/i2c_slave.py:6-10 | storage is the supplied map when one is given (even an empty one), otherwise an empty map |
| `I2cSlave.Slave.RegWrite` | verilog/dv/cocotb/i2c_slave.py:23-25 | storage[addr] := value, every other key unchanged |
| `I2cSlave.Slave.RegRead` | verilog/dv/cocotb/i2c_slave.py:27-32 | returns Lookup of the current storage and does not modify it |
| `I2cSlave.Slave.CollectBits` | verilog/dv/cocotb/i2c_slave.py:14-21 | the accumulated text of the samples, converted by `int(text, 2)`: the weighted sum of the bits, below 2^w, or ValueError |
| `I2cSlave.Slave.TransmitByte` | verilog/dv/cocotb/i2c_slave.py:34-42 | drives the digits of `f"{v:08b}"` in order; they decode to v, and there are exactly 8 of them precisely when v < 256 |
| `I2cSlave.Slave.HandleTransaction` | verilog/dv/cocotb/i2c_slave.py:65-85 | the new storage and the outcome are those of Transaction on the old storage |
| `Wire.AddressByteValue` | verilog/dv/cocotb/i2c_test/i2c_test.h:55 | for a 7-bit slave address, the low byte of the write address byte is twice the address |
| `Wire.AddressBits` | verilog/dv/cocotb/i2c_test/i2c_test.h:55 | the write address byte goes out as the seven address bits followed by R/W = 0 |
| `Wire.ByteBits` | verilog/dv/cocotb/i2c_test/i2c_test.h:59 | a data byte goes out as its own eight bits |
| `Wire.WriteByteFrameStoresRegister` | verilog/dv/cocotb/i2c_slave.py:65-82 | on the samples of the frame write_byte starts, taken as the master's bits, the slave stores the register byte under the slave address |

## Left out

- `i2c_test.py` (the cocotb test harness) and `rerun.py` (the simulation launcher) are not part of this model; they are event scheduling and process I/O.
- `main` and `i2c_write_address` in `i2c_test.c` are not part of this model. They call board bring-up and `CF_I2C` library functions whose sources are not available.
- The command-queue `CF_I2C` driver and any EEPROM address layer are not part of this model; their sources are not available.
- The slave's event-driven parts are out: `run`, `monitor_stop`, `track_last_clk_edge`, START detection (`i2c_slave.py:56-63`), task spawn and kill, and simulation time. So are its logging calls. A frame that STOP cuts short is modelled as `Incomplete`, with storage unchanged.
- The slave's ACK and NACK drives (`i2c_slave.py:73-77, 87-91`) are outputs on SDA, the ACK being the bit the master's RXACK samples. They are not modelled as outputs. The model keeps only their effect on sampling: the acknowledge clock is skipped.
- `I2cSlave.Transaction`: a read frame is answered once its acknowledge clock has been sampled. A STOP that arrives during the transmission itself is not modelled; `Sent` always lists all the digits.
- `I2cSlave.Slave.constructor`: the dictionary passed as `mem` is shared with the caller in the source (aliasing). The model copies it.
- Slave storage is `map<nat, nat>`. Negative integer keys and values, which `reg_write` and `reg_read` would also accept, are not modelled. Non-integers are not accepted by the source either: their `hex(...)` log arguments raise `TypeError`.
- `int(text, 2)` also accepts surrounding whitespace, `_` between digits, a `0b` prefix and a leading sign (`int("-000101", 2)` is -5). A one-bit `binstr` sample of a Verilog net is only `0`, `1`, `x` or `z`, so none of these occur, and `ParseBinary` treats them as non-binary.
- Termination of the spin loops in `i2c_wait_tip` and `vgpio_wait_val` is not proved against hardware. Each wait takes the ghost sequence of values it will read, and its precondition asks that the replies begin with it.
- Volatile and memory-ordering semantics beyond program order are out. Every load returns the device's next scripted reply, independent of what was stored, so a plain read-back memory appears only in `Vgpio.OutputKeepsInput`.
- `Wire.WriteByteFrameStoresRegister` assumes that the slave's SDA input carries the master's bits unchanged on every sampled clock. The slave drives `sda_out` to 0 for its ACK (`i2c_slave.py:75`) and, on a write, does not release it until the NACK (`i2c_slave.py:89`). So it is still driving SDA low during the eight data clocks that `collect_bits(8)` samples. If the testbench resolves the two drivers as a wired-AND, those samples read `00000000` and the slave stores 0. If it shows the contention as `x`, the frame fails with `ValueError`. `Transaction` models both outcomes for whatever samples it is given. The testbench wiring is not part of this model, so the lemma is stated on the master's bits. It also assumes that the controller shifts the low 8 bits of DATA out MSB first; the controller's RTL is not part of this model. It covers only 7-bit slave addresses: for larger ones, `slave_addr << 1` loses its top bit on the wire.
