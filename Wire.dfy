/** How the two halves of the test meet on the bus, assuming the controller shifts the
    low eight bits of the data register out most significant bit first: the slave's
    view of a frame the driver starts. */
module Wire {
  import I2cMaster
  import opened I2cSlave

  /** The eight SDA values of a byte the controller shifts out. */
  function Shifted(b: bv32): seq<char> {
    Bits((b & 0xFF) as nat, 8)
  }

  /** The low byte of the write address byte is twice the slave address. */
  lemma AddressByteValue(slave: bv8)
    requires slave < 128
    ensures (I2cMaster.AddressByte(slave, false) & 0xFF) as nat == 2 * slave as nat
  {
  }

  /** A write address byte goes out as the seven address bits, then R/W = 0. */
  lemma AddressBits(slave: bv8)
    requires slave < 128
    ensures Shifted(I2cMaster.AddressByte(slave, false)) == Bits(slave as nat, 7) + ['0']
  {
    AddressByteValue(slave);
    var a := 2 * slave as nat;
    assert a / 2 == slave as nat && a % 2 == 0;
  }

  /** A data byte goes out as its own eight bits. */
  lemma ByteBits(b: bv8)
    ensures Shifted(b as bv32) == Bits(b as nat, 8)
  {
    assert (b as bv32 & 0xFF) as nat == b as nat;
  }

  /** The frame write_byte starts, as the master sends it: its address byte, an
      acknowledge clock, then the register byte. When the slave samples exactly these bits
      (its own `sda_out`, still held low after the ACK, not interfering), it stores the
      register byte under the slave address, and the data byte that follows in the same
      frame is not stored. */
  lemma WriteByteFrameStoresRegister(storage: map<nat, nat>, slave: bv8, reg: bv8, ack: char, rest: seq<char>)
    requires slave < 128
    ensures Transaction(storage, Shifted(I2cMaster.AddressByte(slave, false)) + [ack] + Shifted(reg as bv32) + rest) ==
      (storage[slave as nat := reg as nat], Stored(slave as nat, reg as nat))
  {
    AddressBits(slave);
    ByteBits(reg);
    WriteFrameStores(storage, slave as nat, ack, reg as nat, rest);
  }
}
