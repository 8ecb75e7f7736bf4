/** The virtual-GPIO helpers of the test firmware: one 32-bit register whose low half is
    the firmware's output and whose high half is the testbench's input. */
module Vgpio {
  import opened Mmio

  const VgpioRegAddr: Addr := 0x30FF_FFFC

  /** A `uint16_t`, carried in 32 bits as C promotes it. */
  type U16 = x: bv32 | x <= 0xFFFF

  /** `vgpio_read_input` on a register value: the upper 16 bits. */
  function InputOf(reg: bv32): (v: U16)
    ensures v << 16 == reg & 0xFFFF_0000
    ensures v == reg >> 16
  {
    (reg >> 16) & 0xFFFF
  }

  /** The value `vgpio_write_output` stores back: `value` in the low half, the high half
      kept. */
  function WithOutput(reg: bv32, value: U16): (r: bv32)
    ensures (r << 16) >> 16 == value
    ensures r >> 16 == reg >> 16
  {
    (reg & 0xFFFF_0000) | (value & 0xFFFF)
  }

  /** The same in terms of the masks the source uses. */
  lemma OutputMasks(reg: bv32, value: U16)
    ensures WithOutput(reg, value) & 0xFFFF == value
    ensures WithOutput(reg, value) & 0xFFFF_0000 == reg & 0xFFFF_0000
  {
  }

  /** In a register that reads back what was stored, writing the output leaves the
      input as it was. */
  lemma OutputKeepsInput(reg: bv32, value: U16)
    ensures InputOf(WithOutput(reg, value)) == InputOf(reg)
  {
  }

  /** The last output written wins. */
  lemma OutputOverwrites(reg: bv32, a: U16, b: U16)
    ensures WithOutput(WithOutput(reg, a), b) == WithOutput(reg, b)
  {
  }

  /** `w` is exactly what one `vgpio_wait_val(val)` reads: register values whose input
      half is not `val`, then the first one whose input half is. */
  predicate IsInputWait(w: seq<bv32>, val: U16) {
    |w| > 0 && InputOf(w[|w| - 1]) == val && forall i :: 0 <= i < |w| - 1 ==> InputOf(w[i]) != val
  }

  /** A finished wait read the register at least once; the last read showed `val` on
      the input half and every earlier one did not. */
  lemma WaitObserves(val: U16, w: seq<bv32>)
    requires IsInputWait(w, val)
    ensures var t := Loads(VgpioRegAddr, w);
      && |t| >= 1
      && (forall i :: 0 <= i < |t| ==> t[i].Read? && t[i].addr == VgpioRegAddr)
      && InputOf(t[|t| - 1].val) == val
      && (forall i :: 0 <= i < |t| - 1 ==> InputOf(t[i].val) != val)
  {
  }

  /** `vgpio_write_output`: read the register, replace its low half, store it back. */
  method WriteOutput(bus: Bus, value: U16)
    requires bus.Valid()
    requires |bus.replies| > 0
    modifies bus
    ensures bus.Valid()
    ensures var reg := old(bus.replies)[0];
      && bus.trace == old(bus.trace) + [Read(VgpioRegAddr, reg), Write(VgpioRegAddr, WithOutput(reg, value))]
      && bus.regs == old(bus.regs)[VgpioRegAddr := WithOutput(reg, value)]
    ensures bus.replies == old(bus.replies)[1..]
  {
    var regVal := bus.Load(VgpioRegAddr);
    regVal := (regVal & 0xFFFF_0000) | (value & 0xFFFF);
    bus.Store(VgpioRegAddr, regVal);
  }

  /** `vgpio_read_input`: one load, its upper half. */
  method ReadInput(bus: Bus) returns (v: U16)
    requires bus.Valid()
    requires |bus.replies| > 0
    modifies bus
    ensures bus.Valid()
    ensures v == InputOf(old(bus.replies)[0])
    ensures bus.trace == old(bus.trace) + [Read(VgpioRegAddr, old(bus.replies)[0])]
    ensures bus.replies == old(bus.replies)[1..]
    ensures bus.regs == old(bus.regs)
  {
    var regVal := bus.Load(VgpioRegAddr);
    v := (regVal >> 16) & 0xFFFF;
  }

  /** `vgpio_wait_val`: read the input until it equals `val`. The ghost `w` names the
      register values the testbench is going to show up to that point. */
  method WaitVal(bus: Bus, val: U16, ghost w: seq<bv32>)
    requires bus.Valid()
    requires IsInputWait(w, val) && w <= bus.replies
    modifies bus
    ensures bus.Valid()
    ensures bus.trace == old(bus.trace) + Loads(VgpioRegAddr, w)
    ensures bus.replies == old(bus.replies)[|w|..]
    ensures bus.regs == old(bus.regs)
  {
    ghost var s := bus.replies;
    var input := ReadInput(bus);
    ghost var k := 1;
    while input != val
      invariant bus.Valid()
      invariant 1 <= k <= |w|
      invariant input == InputOf(w[k - 1])
      invariant bus.replies == s[k..]
      invariant bus.trace == old(bus.trace) + Loads(VgpioRegAddr, w[..k])
      invariant bus.regs == old(bus.regs)
      decreases |w| - k
    {
      LoadsSnoc(VgpioRegAddr, w, k);
      input := ReadInput(bus);
      k := k + 1;
    }
    assert w[..k] == w;
  }
}
