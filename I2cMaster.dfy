/** The command-bit I2C master driver: register map, command and status encodings, and
    the ordered store/poll sequences of init, write_byte and read_byte. */
module I2cMaster {
  import opened Mmio

  // ---------- Register map ----------

  const BaseAddr: Addr := 0x3000_0000

  const RegPrescaleLow: Addr := BaseAddr + 0x00
  const RegPrescaleHigh: Addr := BaseAddr + 0x04
  const RegControl: Addr := BaseAddr + 0x08
  const RegData: Addr := BaseAddr + 0x0C
  const RegCmdStatus: Addr := BaseAddr + 0x10

  // ---------- Control, command and status bits ----------

  const CtrlEn: bv32 := 1 << 7
  const CtrlIen: bv32 := 1 << 6

  const CmdStart: bv32 := 1 << 7
  const CmdStop: bv32 := 1 << 6
  const CmdRead: bv32 := 1 << 5
  const CmdWrite: bv32 := 1 << 4
  const CmdAck: bv32 := 1 << 3
  const CmdIack: bv32 := 1 << 0

  const StatRxAck: bv32 := 1 << 7
  const StatBusy: bv32 := 1 << 6
  const StatAl: bv32 := 1 << 5
  const StatTip: bv32 := 1 << 1
  const StatIf: bv32 := 1 << 0

  lemma RegisterAddresses()
    ensures RegPrescaleLow == 0x3000_0000 && RegPrescaleHigh == 0x3000_0004
    ensures RegControl == 0x3000_0008 && RegData == 0x3000_000C && RegCmdStatus == 0x3000_0010
    ensures |{RegPrescaleLow, RegPrescaleHigh, RegControl, RegData, RegCmdStatus}| == 5
  {
  }

  predicate SingleBit(x: bv32) {
    x != 0 && x & (x - 1) == 0
  }

  lemma FlagsAreSingleBits()
    ensures SingleBit(CtrlEn) && SingleBit(CtrlIen) && CtrlEn != CtrlIen
    ensures SingleBit(CmdStart) && SingleBit(CmdStop) && SingleBit(CmdRead)
    ensures SingleBit(CmdWrite) && SingleBit(CmdAck) && SingleBit(CmdIack)
    ensures |{CmdStart, CmdStop, CmdRead, CmdWrite, CmdAck, CmdIack}| == 6
    ensures SingleBit(StatRxAck) && SingleBit(StatBusy) && SingleBit(StatAl)
    ensures SingleBit(StatTip) && SingleBit(StatIf)
    ensures |{StatRxAck, StatBusy, StatAl, StatTip, StatIf}| == 5
  {
  }

  /** The combined commands the driver issues. */
  lemma CommandEncodings()
    ensures CtrlEn == 0x80
    ensures CmdStart | CmdWrite == 0x90
    ensures CmdWrite == 0x10
    ensures CmdWrite | CmdStop == 0x50
    ensures CmdRead | CmdAck | CmdStop == 0x68
  {
  }

  // ---------- Status decoding ----------

  /** The transfer-in-progress bit is clear: the wait loop may stop. */
  predicate TipClear(status: bv32) {
    status & StatTip == 0
  }

  /** `i2c_get_ack`: 1 when the slave acknowledged (RXACK low), 0 otherwise. */
  function AckOf(status: bv32): (ack: bv8)
    ensures ack == 0 || ack == 1
    ensures ack == 1 <==> (status >> 7) & 1 == 0
  {
    if status & StatRxAck != 0 then 0 else 1
  }

  /** The address byte `(slave << 1) | rw`, computed in int and stored as 32 bits. */
  function AddressByte(slave: bv8, read: bool): (b: bv32)
    ensures b & 1 == (if read then 1 else 0)
    ensures b >> 1 == slave as bv32
    ensures b < 0x200
  {
    ((slave as bv32) << 1) | (if read then 1 else 0)
  }

  /** `(uint8_t)` of a 32-bit value. */
  function LowByte(v: bv32): (b: bv8)
    ensures (b as bv32) << 24 == v << 24
  {
    (v & 0xFF) as bv8
  }

  // ---------- The traces the driver produces ----------

  function InitTrace(prescale: bv32): seq<Event> {
    [ Write(RegPrescaleLow, prescale & 0xFF),
      Write(RegPrescaleHigh, (prescale >> 8) & 0xFF),
      Write(RegControl, CtrlEn) ]
  }

  /** What one `i2c_wait_tip` consumes: status values with TIP set, then one with TIP clear. */
  predicate IsTipWait(w: seq<bv32>) {
    IsPoll(w, TipClear)
  }

  /** One phase: load the data register, issue a command, then the status loads of the
      TIP wait that returned `w`. */
  function Phase(data: bv32, cmd: bv32, w: seq<bv32>): seq<Event> {
    [Write(RegData, data), Write(RegCmdStatus, cmd)] + Loads(RegCmdStatus, w)
  }

  /** START + write address, then the register byte; both transactions begin so. */
  function SelectRegister(slave: bv8, reg: bv8, w1: seq<bv32>, w2: seq<bv32>): seq<Event> {
    Phase(AddressByte(slave, false), CmdStart | CmdWrite, w1) + Phase(reg as bv32, CmdWrite, w2)
  }

  function WriteByteTrace(slave: bv8, reg: bv8, data: bv8, w1: seq<bv32>, w2: seq<bv32>, w3: seq<bv32>): seq<Event> {
    SelectRegister(slave, reg, w1, w2) + Phase(data as bv32, CmdWrite | CmdStop, w3)
  }

  /** READ|ACK|STOP, the TIP wait that returned `w`, then the load of the received value `v`. */
  function FetchByte(w: seq<bv32>, v: bv32): seq<Event> {
    [Write(RegCmdStatus, CmdRead | CmdAck | CmdStop)] + Loads(RegCmdStatus, w) + [Read(RegData, v)]
  }

  function ReadByteTrace(slave: bv8, reg: bv8, w1: seq<bv32>, w2: seq<bv32>, w3: seq<bv32>, w4: seq<bv32>, v: bv32): seq<Event> {
    SelectRegister(slave, reg, w1, w2)
    + Phase(AddressByte(slave, true), CmdStart | CmdWrite, w3)
    + FetchByte(w4, v)
  }

  // ---------- Properties of the traces ----------

  /** i2c_init splits the prescaler into two bytes that put its low 16 bits back together. */
  lemma InitTraceValues(prescale: bv32)
    ensures forall i :: 0 <= i < 2 ==> InitTrace(prescale)[i].val < 256
    ensures InitTrace(prescale)[0].val | (InitTrace(prescale)[1].val << 8) == prescale & 0xFFFF
    ensures InitTrace(prescale)[2].val == 0x80
  {
  }

  /** The registers after i2c_init, whatever they held before. */
  lemma InitRegisters(m: map<Addr, bv32>, prescale: bv32)
    ensures Replay(m, InitTrace(prescale)) ==
      m[RegPrescaleLow := prescale & 0xFF][RegPrescaleHigh := (prescale >> 8) & 0xFF][RegControl := CtrlEn]
  {
    var t := InitTrace(prescale);
    var m1 := m[RegPrescaleLow := prescale & 0xFF];
    var m2 := m1[RegPrescaleHigh := (prescale >> 8) & 0xFF];
    assert t[1..][1..][1..] == [];
    assert Replay(m2, t[1..][1..]) == m2[RegControl := CtrlEn];
    assert Replay(m1, t[1..]) == Replay(m2, t[1..][1..]);
  }

  /** Running i2c_init twice with the same prescaler leaves the registers as running it once. */
  lemma InitIdempotent(m: map<Addr, bv32>, prescale: bv32)
    ensures Replay(Replay(m, InitTrace(prescale)), InitTrace(prescale)) == Replay(m, InitTrace(prescale))
  {
    InitRegisters(m, prescale);
    InitRegisters(Replay(m, InitTrace(prescale)), prescale);
  }

  /** A TIP wait reads the status register at least once; the last value read has TIP
      clear and every earlier one had it set. */
  lemma TipWaitBlocks(w: seq<bv32>)
    requires IsTipWait(w)
    ensures var t := Loads(RegCmdStatus, w);
      && |t| >= 1
      && (forall i :: 0 <= i < |t| ==> t[i].Read? && t[i].addr == RegCmdStatus)
      && t[|t| - 1].val & StatTip == 0
      && (forall i :: 0 <= i < |t| - 1 ==> t[i].val & StatTip != 0)
  {
  }

  lemma PhaseWrites(data: bv32, cmd: bv32, w: seq<bv32>)
    ensures Writes(Phase(data, cmd, w)) == [Write(RegData, data), Write(RegCmdStatus, cmd)]
  {
    var s := [Write(RegData, data), Write(RegCmdStatus, cmd)];
    WritesAppend(s, Loads(RegCmdStatus, w));
    WritesLoads(RegCmdStatus, w);
    assert s[1..][1..] == [];
  }

  lemma PhaseThen(m: map<Addr, bv32>, data: bv32, cmd: bv32, w: seq<bv32>, rest: seq<Event>)
    ensures Replay(m, Phase(data, cmd, w) + rest) == Replay(m[RegData := data][RegCmdStatus := cmd], rest)
  {
    var s := [Write(RegData, data), Write(RegCmdStatus, cmd)];
    var m1 := m[RegData := data][RegCmdStatus := cmd];
    assert Phase(data, cmd, w) + rest == s + (Loads(RegCmdStatus, w) + rest);
    ReplayAppend(m, s, Loads(RegCmdStatus, w) + rest);
    assert s[1..][1..] == [];
    ReplayAppend(m1, Loads(RegCmdStatus, w), rest);
    ReplayLoads(m1, RegCmdStatus, w);
  }

  lemma SelectRegisterWrites(slave: bv8, reg: bv8, w1: seq<bv32>, w2: seq<bv32>)
    ensures Writes(SelectRegister(slave, reg, w1, w2)) ==
      [ Write(RegData, AddressByte(slave, false)), Write(RegCmdStatus, CmdStart | CmdWrite),
        Write(RegData, reg as bv32), Write(RegCmdStatus, CmdWrite) ]
  {
    PhaseWrites(AddressByte(slave, false), CmdStart | CmdWrite, w1);
    PhaseWrites(reg as bv32, CmdWrite, w2);
    WritesAppend(Phase(AddressByte(slave, false), CmdStart | CmdWrite, w1), Phase(reg as bv32, CmdWrite, w2));
  }

  /** After the two register-select phases the data register holds the register byte
      and the command register WRITE. */
  lemma SelectRegisterThen(m: map<Addr, bv32>, slave: bv8, reg: bv8, w1: seq<bv32>, w2: seq<bv32>, rest: seq<Event>)
    ensures Replay(m, SelectRegister(slave, reg, w1, w2) + rest) ==
      Replay(m[RegData := reg as bv32][RegCmdStatus := CmdWrite], rest)
  {
    var p1 := Phase(AddressByte(slave, false), CmdStart | CmdWrite, w1);
    var p2 := Phase(reg as bv32, CmdWrite, w2);
    assert p1 + p2 + rest == p1 + (p2 + rest);
    PhaseThen(m, AddressByte(slave, false), CmdStart | CmdWrite, w1, p2 + rest);
    var m1 := m[RegData := AddressByte(slave, false)][RegCmdStatus := CmdStart | CmdWrite];
    PhaseThen(m1, reg as bv32, CmdWrite, w2, rest);
    assert m1[RegData := reg as bv32][RegCmdStatus := CmdWrite] == m[RegData := reg as bv32][RegCmdStatus := CmdWrite];
  }

  /** write_byte stores, in order: the write address with START, the register byte, and
      the data byte with STOP; it stores to no other register. */
  lemma WriteByteStores(slave: bv8, reg: bv8, data: bv8, w1: seq<bv32>, w2: seq<bv32>, w3: seq<bv32>)
    ensures Writes(WriteByteTrace(slave, reg, data, w1, w2, w3)) ==
      [ Write(RegData, AddressByte(slave, false)), Write(RegCmdStatus, 0x90),
        Write(RegData, reg as bv32), Write(RegCmdStatus, 0x10),
        Write(RegData, data as bv32), Write(RegCmdStatus, 0x50) ]
    ensures forall e :: e in WriteByteTrace(slave, reg, data, w1, w2, w3) && e.Write? ==> e.addr in {RegData, RegCmdStatus}
  {
    SelectRegisterWrites(slave, reg, w1, w2);
    PhaseWrites(data as bv32, CmdWrite | CmdStop, w3);
    WritesAppend(SelectRegister(slave, reg, w1, w2), Phase(data as bv32, CmdWrite | CmdStop, w3));
    StoresWithin(WriteByteTrace(slave, reg, data, w1, w2, w3), {RegData, RegCmdStatus});
  }

  /** After write_byte the data register holds the data byte and the command register
      WRITE|STOP; every other register is as before. */
  lemma WriteByteRegisters(m: map<Addr, bv32>, slave: bv8, reg: bv8, data: bv8, w1: seq<bv32>, w2: seq<bv32>, w3: seq<bv32>)
    ensures Replay(m, WriteByteTrace(slave, reg, data, w1, w2, w3)) ==
      m[RegData := data as bv32][RegCmdStatus := CmdWrite | CmdStop]
  {
    var p3 := Phase(data as bv32, CmdWrite | CmdStop, w3);
    SelectRegisterThen(m, slave, reg, w1, w2, p3);
    var m2 := m[RegData := reg as bv32][RegCmdStatus := CmdWrite];
    PhaseThen(m2, data as bv32, CmdWrite | CmdStop, w3, []);
    assert p3 + [] == p3;
    assert m2[RegData := data as bv32][RegCmdStatus := CmdWrite | CmdStop] ==
      m[RegData := data as bv32][RegCmdStatus := CmdWrite | CmdStop];
  }

  /** The same register by register: DATA reads back the data byte, CMD_STATUS reads
      0x50, and every other address is mapped exactly when it was before, to the same value. */
  lemma WriteByteReadsBack(m: map<Addr, bv32>, slave: bv8, reg: bv8, data: bv8, w1: seq<bv32>, w2: seq<bv32>, w3: seq<bv32>, k: Addr)
    ensures var r := Replay(m, WriteByteTrace(slave, reg, data, w1, w2, w3));
      && RegData in r && r[RegData] == data as bv32 && RegCmdStatus in r && r[RegCmdStatus] == 0x50
      && (k != RegData && k != RegCmdStatus ==> (k in r <==> k in m) && (k in m ==> r[k] == m[k]))
  {
    WriteByteRegisters(m, slave, reg, data, w1, w2, w3);
  }

  /** write_byte returns only after a status load with TIP clear. */
  lemma WriteByteEndsIdle(slave: bv8, reg: bv8, data: bv8, w1: seq<bv32>, w2: seq<bv32>, w3: seq<bv32>)
    requires IsTipWait(w3)
    ensures var t := WriteByteTrace(slave, reg, data, w1, w2, w3);
      |t| > 0 && t[|t| - 1].Read? && t[|t| - 1].addr == RegCmdStatus && TipClear(t[|t| - 1].val)
  {
  }

  lemma FetchByteWrites(w: seq<bv32>, v: bv32)
    ensures Writes(FetchByte(w, v)) == [Write(RegCmdStatus, CmdRead | CmdAck | CmdStop)]
  {
    var c := [Write(RegCmdStatus, CmdRead | CmdAck | CmdStop)];
    var r := [Read(RegData, v)];
    WritesLoads(RegCmdStatus, w);
    WritesAppend(c, Loads(RegCmdStatus, w));
    WritesAppend(c + Loads(RegCmdStatus, w), r);
    assert Writes(c) == c by { assert c[1..] == []; }
    assert Writes(r) == [] by { assert r[1..] == []; }
  }

  lemma FetchByteRegisters(m: map<Addr, bv32>, w: seq<bv32>, v: bv32)
    ensures Replay(m, FetchByte(w, v)) == m[RegCmdStatus := CmdRead | CmdAck | CmdStop]
  {
    var c := [Write(RegCmdStatus, CmdRead | CmdAck | CmdStop)];
    var r := [Read(RegData, v)];
    var m1 := m[RegCmdStatus := CmdRead | CmdAck | CmdStop];
    ReplayAppend(m, c + Loads(RegCmdStatus, w), r);
    ReplayAppend(m, c, Loads(RegCmdStatus, w));
    assert Replay(m, c) == m1 by { assert c[1..] == []; }
    ReplayLoads(m1, RegCmdStatus, w);
    assert Replay(m1, r) == m1 by { assert r[1..] == []; }
  }

  /** read_byte stores, in order: the write address with START, the register byte, the
      read address with a repeated START, and READ|ACK|STOP; it stores to no other register. */
  lemma ReadByteStores(slave: bv8, reg: bv8, w1: seq<bv32>, w2: seq<bv32>, w3: seq<bv32>, w4: seq<bv32>, v: bv32)
    ensures Writes(ReadByteTrace(slave, reg, w1, w2, w3, w4, v)) ==
      [ Write(RegData, AddressByte(slave, false)), Write(RegCmdStatus, 0x90),
        Write(RegData, reg as bv32), Write(RegCmdStatus, 0x10),
        Write(RegData, AddressByte(slave, true)), Write(RegCmdStatus, 0x90),
        Write(RegCmdStatus, 0x68) ]
    ensures forall e :: e in ReadByteTrace(slave, reg, w1, w2, w3, w4, v) && e.Write? ==> e.addr in {RegData, RegCmdStatus}
  {
    var sel := SelectRegister(slave, reg, w1, w2);
    var p3 := Phase(AddressByte(slave, true), CmdStart | CmdWrite, w3);
    SelectRegisterWrites(slave, reg, w1, w2);
    PhaseWrites(AddressByte(slave, true), CmdStart | CmdWrite, w3);
    FetchByteWrites(w4, v);
    WritesAppend(sel, p3);
    WritesAppend(sel + p3, FetchByte(w4, v));
    StoresWithin(ReadByteTrace(slave, reg, w1, w2, w3, w4, v), {RegData, RegCmdStatus});
  }

  /** After read_byte the data register holds the read address byte and the command
      register READ|ACK|STOP; every other register is as before. */
  lemma ReadByteRegisters(m: map<Addr, bv32>, slave: bv8, reg: bv8, w1: seq<bv32>, w2: seq<bv32>, w3: seq<bv32>, w4: seq<bv32>, v: bv32)
    ensures Replay(m, ReadByteTrace(slave, reg, w1, w2, w3, w4, v)) ==
      m[RegData := AddressByte(slave, true)][RegCmdStatus := CmdRead | CmdAck | CmdStop]
  {
    var p3 := Phase(AddressByte(slave, true), CmdStart | CmdWrite, w3);
    var f := FetchByte(w4, v);
    assert ReadByteTrace(slave, reg, w1, w2, w3, w4, v) == SelectRegister(slave, reg, w1, w2) + (p3 + f);
    SelectRegisterThen(m, slave, reg, w1, w2, p3 + f);
    var m2 := m[RegData := reg as bv32][RegCmdStatus := CmdWrite];
    PhaseThen(m2, AddressByte(slave, true), CmdStart | CmdWrite, w3, f);
    var m3 := m2[RegData := AddressByte(slave, true)][RegCmdStatus := CmdStart | CmdWrite];
    FetchByteRegisters(m3, w4, v);
    assert m3[RegCmdStatus := CmdRead | CmdAck | CmdStop] ==
      m[RegData := AddressByte(slave, true)][RegCmdStatus := CmdRead | CmdAck | CmdStop];
  }

  /** read_byte loads the data register only after a status load with TIP clear, and
      that load is its last access. */
  lemma ReadByteEndsWithData(slave: bv8, reg: bv8, w1: seq<bv32>, w2: seq<bv32>, w3: seq<bv32>, w4: seq<bv32>, v: bv32)
    requires IsTipWait(w4)
    ensures var t := ReadByteTrace(slave, reg, w1, w2, w3, w4, v);
      && |t| >= 2 && t[|t| - 1] == Read(RegData, v)
      && t[|t| - 2].Read? && t[|t| - 2].addr == RegCmdStatus && TipClear(t[|t| - 2].val)
  {
  }

  // ---------- The driver ----------

  /** `i2c_init` */
  method Init(bus: Bus, prescale: bv32)
    requires bus.Valid()
    modifies bus
    ensures bus.Valid()
    ensures bus.trace == old(bus.trace) + InitTrace(prescale)
    ensures bus.regs == old(bus.regs)[RegPrescaleLow := prescale & 0xFF]
      [RegPrescaleHigh := (prescale >> 8) & 0xFF][RegControl := CtrlEn]
    ensures bus.replies == old(bus.replies)
  {
    bus.Store(RegPrescaleLow, prescale & 0xFF);
    bus.Store(RegPrescaleHigh, (prescale >> 8) & 0xFF);
    bus.Store(RegControl, CtrlEn);
  }

  /** `i2c_wait_tip`: spin on the status register until TIP reads clear. The ghost `w`
      names the status values the device is going to return up to that point. */
  method WaitTip(bus: Bus, ghost w: seq<bv32>)
    requires bus.Valid()
    requires IsTipWait(w) && w <= bus.replies
    modifies bus
    ensures bus.Valid()
    ensures bus.trace == old(bus.trace) + Loads(RegCmdStatus, w)
    ensures bus.replies == old(bus.replies)[|w|..]
    ensures bus.regs == old(bus.regs)
  {
    ghost var s := bus.replies;
    var status := bus.Load(RegCmdStatus);
    ghost var k := 1;
    while status & StatTip != 0
      invariant bus.Valid()
      invariant 1 <= k <= |w|
      invariant status == w[k - 1]
      invariant bus.replies == s[k..]
      invariant bus.trace == old(bus.trace) + Loads(RegCmdStatus, w[..k])
      invariant bus.regs == old(bus.regs)
      decreases |w| - k
    {
      LoadsSnoc(RegCmdStatus, w, k);
      status := bus.Load(RegCmdStatus);
      k := k + 1;
    }
    assert w[..k] == w;
  }

  /** `i2c_get_ack`: one status load, decoded. */
  method GetAck(bus: Bus) returns (ack: bv8)
    requires bus.Valid()
    requires |bus.replies| > 0
    modifies bus
    ensures bus.Valid()
    ensures ack == AckOf(old(bus.replies)[0])
    ensures bus.trace == old(bus.trace) + [Read(RegCmdStatus, old(bus.replies)[0])]
    ensures bus.replies == old(bus.replies)[1..]
    ensures bus.regs == old(bus.regs)
  {
    var status := bus.Load(RegCmdStatus);
    ack := if status & StatRxAck != 0 then 0 else 1;
  }

  /** Store a data byte, issue a command, wait for TIP to clear. */
  method RunPhase(bus: Bus, data: bv32, cmd: bv32, ghost w: seq<bv32>)
    requires bus.Valid()
    requires IsTipWait(w) && w <= bus.replies
    modifies bus
    ensures bus.Valid()
    ensures bus.trace == old(bus.trace) + Phase(data, cmd, w)
    ensures bus.regs == old(bus.regs)[RegData := data][RegCmdStatus := cmd]
    ensures bus.replies == old(bus.replies)[|w|..]
  {
    ghost var t0 := bus.trace;
    bus.Store(RegData, data);
    bus.Store(RegCmdStatus, cmd);
    assert bus.trace == t0 + [Write(RegData, data), Write(RegCmdStatus, cmd)];
    WaitTip(bus, w);
    AppendAssoc(t0, [Write(RegData, data), Write(RegCmdStatus, cmd)], Loads(RegCmdStatus, w));
  }

  /** The two phases both transactions begin with: START + write address, then the
      register byte. */
  method SelectRegisterOf(bus: Bus, slave: bv8, reg: bv8, ghost w1: seq<bv32>, ghost w2: seq<bv32>)
    requires bus.Valid()
    requires IsTipWait(w1) && IsTipWait(w2) && w1 + w2 <= bus.replies
    modifies bus
    ensures bus.Valid()
    ensures bus.trace == old(bus.trace) + SelectRegister(slave, reg, w1, w2)
    ensures bus.regs == old(bus.regs)[RegData := reg as bv32][RegCmdStatus := CmdWrite]
    ensures bus.replies == old(bus.replies)[|w1| + |w2|..]
  {
    ghost var t0, s, m := bus.trace, bus.replies, bus.regs;
    PrefixShift(w1, w2, s);
    RunPhase(bus, AddressByte(slave, false), CmdStart | CmdWrite, w1);
    RunPhase(bus, reg as bv32, CmdWrite, w2);
    AppendAssoc(t0, Phase(AddressByte(slave, false), CmdStart | CmdWrite, w1), Phase(reg as bv32, CmdWrite, w2));
    SuffixOfSuffix(s, |w1|, |w2|);
    PhaseOverwrites(m, AddressByte(slave, false), CmdStart | CmdWrite, reg as bv32, CmdWrite);
  }

  /** `i2c_write_byte`; `w1`, `w2`, `w3` are what its three TIP waits consume. */
  method WriteByte(bus: Bus, slave: bv8, reg: bv8, data: bv8, ghost w1: seq<bv32>, ghost w2: seq<bv32>, ghost w3: seq<bv32>)
    requires bus.Valid()
    requires IsTipWait(w1) && IsTipWait(w2) && IsTipWait(w3)
    requires w1 + w2 + w3 <= bus.replies
    modifies bus
    ensures bus.Valid()
    ensures bus.trace == old(bus.trace) + WriteByteTrace(slave, reg, data, w1, w2, w3)
    ensures bus.regs == old(bus.regs)[RegData := data as bv32][RegCmdStatus := CmdWrite | CmdStop]
    ensures bus.replies == old(bus.replies)[|w1| + |w2| + |w3|..]
  {
    ghost var t0, s, m := bus.trace, bus.replies, bus.regs;
    PrefixShift(w1 + w2, w3, s);
    SelectRegisterOf(bus, slave, reg, w1, w2);
    RunPhase(bus, data as bv32, CmdWrite | CmdStop, w3);
    AppendAssoc(t0, SelectRegister(slave, reg, w1, w2), Phase(data as bv32, CmdWrite | CmdStop, w3));
    SuffixOfSuffix(s, |w1| + |w2|, |w3|);
    PhaseOverwrites(m, reg as bv32, CmdWrite, data as bv32, CmdWrite | CmdStop);
  }

  /** `i2c_read_byte`; `w1` to `w4` are what its four TIP waits consume. */
  method ReadByte(bus: Bus, slave: bv8, reg: bv8, ghost w1: seq<bv32>, ghost w2: seq<bv32>, ghost w3: seq<bv32>, ghost w4: seq<bv32>)
      returns (value: bv8)
    requires bus.Valid()
    requires IsTipWait(w1) && IsTipWait(w2) && IsTipWait(w3) && IsTipWait(w4)
    requires w1 + w2 + w3 + w4 < bus.replies
    modifies bus
    ensures bus.Valid()
    ensures var v := old(bus.replies)[|w1| + |w2| + |w3| + |w4|];
      && value == LowByte(v)
      && bus.trace == old(bus.trace) + ReadByteTrace(slave, reg, w1, w2, w3, w4, v)
    ensures bus.regs == old(bus.regs)[RegData := AddressByte(slave, true)][RegCmdStatus := CmdRead | CmdAck | CmdStop]
    ensures bus.replies == old(bus.replies)[|w1| + |w2| + |w3| + |w4| + 1..]
  {
    ghost var t0, s, m := bus.trace, bus.replies, bus.regs;
    ghost var sel := SelectRegister(slave, reg, w1, w2);
    ghost var p3 := Phase(AddressByte(slave, true), CmdStart | CmdWrite, w3);
    ghost var k := |w1| + |w2|;
    PrefixShift(w1 + w2, w3 + w4, s);
    SelectRegisterOf(bus, slave, reg, w1, w2);
    PrefixShift(w3, w4, s[k..]);
    RunPhase(bus, AddressByte(slave, true), CmdStart | CmdWrite, w3);
    SuffixOfSuffix(s, k, |w3|);
    AppendAssoc(t0, sel, p3);
    ghost var t3 := bus.trace;
    var v := Fetch(bus, w4);
    SuffixOfSuffix(s, k + |w3|, |w4|);
    SuffixOfSuffix(s, k + |w3|, |w4| + 1);
    value := (v & 0xFF) as bv8;
    AppendAssoc(t0, sel + p3, FetchByte(w4, v));
    PhaseOverwrites(m, reg as bv32, CmdWrite, AddressByte(slave, true), CmdStart | CmdWrite);
    CommandOverwrites(m[RegData := AddressByte(slave, true)], CmdStart | CmdWrite, CmdRead | CmdAck | CmdStop);
  }

  /** The end of read_byte: READ|ACK|STOP, a TIP wait, and the load of the data register. */
  method Fetch(bus: Bus, ghost w: seq<bv32>) returns (v: bv32)
    requires bus.Valid()
    requires IsTipWait(w) && w < bus.replies
    modifies bus
    ensures bus.Valid()
    ensures v == old(bus.replies)[|w|]
    ensures bus.trace == old(bus.trace) + FetchByte(w, v)
    ensures bus.regs == old(bus.regs)[RegCmdStatus := CmdRead | CmdAck | CmdStop]
    ensures bus.replies == old(bus.replies)[|w| + 1..]
  {
    ghost var t0, s := bus.trace, bus.replies;
    var c := [Write(RegCmdStatus, CmdRead | CmdAck | CmdStop)];
    bus.Store(RegCmdStatus, CmdRead | CmdAck | CmdStop);
    WaitTip(bus, w);
    v := bus.Load(RegData);
    AppendAssoc(t0, c, Loads(RegCmdStatus, w));
    AppendAssoc(t0, c + Loads(RegCmdStatus, w), [Read(RegData, v)]);
  }

  /** A later phase overwrites both registers an earlier one set. */
  lemma PhaseOverwrites(m: map<Addr, bv32>, d1: bv32, c1: bv32, d2: bv32, c2: bv32)
    ensures m[RegData := d1][RegCmdStatus := c1][RegData := d2][RegCmdStatus := c2] ==
      m[RegData := d2][RegCmdStatus := c2]
  {
  }

  lemma CommandOverwrites(m: map<Addr, bv32>, c1: bv32, c2: bv32)
    ensures m[RegCmdStatus := c1][RegCmdStatus := c2] == m[RegCmdStatus := c2]
  {
  }

  /** A stream that begins with `a + b` begins with `a`, and after `a` it begins with `b`. */
  lemma PrefixShift(a: seq<bv32>, b: seq<bv32>, s: seq<bv32>)
    requires a + b <= s
    ensures a <= s && b <= s[|a|..]
  {
    assert s[..|a|] == (a + b)[..|a|];
    assert forall i :: 0 <= i < |b| ==> s[|a|..][i] == (a + b)[|a| + i];
  }
}
