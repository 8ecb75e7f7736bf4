/** The data logic of the simulated I2C slave: a register store, MSB-first capture of
    the bits sampled on SDA, MSB-first emission of a byte, and the order in which one
    frame is decoded. A frame is given as the SDA values sampled at its successive SCL
    rising edges, each one character of the signal's binary text ('0', '1', 'x', ...). */
module I2cSlave {

  datatype Option<T> = None | Some(value: T)

  /** `ValueError` from `int(text, 2)`, and the `RuntimeError` of an unknown register. */
  datatype Error = NotBinary(text: seq<char>) | UnknownRegister(addr: nat)

  datatype Result<T> = Ok(value: T) | Err(error: Error)

  // ---------- Binary text ----------

  predicate IsBinaryDigit(c: char) {
    c == '0' || c == '1'
  }

  predicate IsBinaryText(s: seq<char>) {
    forall i :: 0 <= i < |s| ==> IsBinaryDigit(s[i])
  }

  function DigitValue(c: char): nat {
    if c == '1' then 1 else 0
  }

  function Pow2(n: nat): (p: nat)
    ensures p >= 1
  {
    if n == 0 then 1 else 2 * Pow2(n - 1)
  }

  /** The value of binary digits read most significant first, one digit at a time. */
  function Value(s: seq<char>): nat
    decreases |s|
  {
    if s == [] then 0 else 2 * Value(s[..|s| - 1]) + DigitValue(s[|s| - 1])
  }

  /** The positional reading: digit i of w weighs 2^(w-1-i). */
  function WeightedSum(s: seq<char>): nat
    decreases |s|
  {
    if s == [] then 0 else DigitValue(s[0]) * Pow2(|s| - 1) + WeightedSum(s[1..])
  }

  /** `int(text, 2)` for the characters a one-bit signal can show: at least one digit,
      every character a binary digit, or `ValueError`. */
  function ParseBinary(s: seq<char>): (r: Result<nat>)
    ensures r.Ok? <==> |s| > 0 && IsBinaryText(s)
    ensures r.Ok? ==> r.value == WeightedSum(s) && r.value < Pow2(|s|)
    ensures r.Err? ==> r.error == NotBinary(s)
  {
    if |s| > 0 && IsBinaryText(s) then
      ValueIsWeightedSum(s);
      ValueBound(s);
      Ok(Value(s))
    else
      Err(NotBinary(s))
  }

  lemma {:induction false} ValueBound(s: seq<char>)
    ensures Value(s) < Pow2(|s|)
    decreases |s|
  {
    if s != [] {
      ValueBound(s[..|s| - 1]);
    }
  }

  lemma {:induction false} WeightedSumSnoc(s: seq<char>, c: char)
    ensures WeightedSum(s + [c]) == 2 * WeightedSum(s) + DigitValue(c)
    decreases |s|
  {
    if s == [] {
      assert [c][1..] == [];
    } else {
      assert (s + [c])[1..] == s[1..] + [c];
      WeightedSumSnoc(s[1..], c);
    }
  }

  lemma {:induction false} ValueIsWeightedSum(s: seq<char>)
    ensures Value(s) == WeightedSum(s)
    decreases |s|
  {
    if s != [] {
      var init := s[..|s| - 1];
      ValueIsWeightedSum(init);
      assert s == init + [s[|s| - 1]];
      WeightedSumSnoc(init, s[|s| - 1]);
    }
  }

  /** The number of digits of `f"{v:b}"`. */
  function BinaryLength(v: nat): (n: nat)
    ensures n >= 1 && v < Pow2(n)
    ensures n > 1 ==> Pow2(n - 1) <= v
  {
    if v < 2 then 1 else 1 + BinaryLength(v / 2)
  }

  /** The `w` low bits of `v` as text, most significant first. */
  function Bits(v: nat, w: nat): (s: seq<char>)
    ensures |s| == w && IsBinaryText(s)
  {
    if w == 0 then [] else Bits(v / 2, w - 1) + [if v % 2 == 1 then '1' else '0']
  }

  /** `f"{v:08b}"`: the binary digits of `v`, zero-padded to at least eight. */
  function Format08b(v: nat): seq<char> {
    var n := BinaryLength(v);
    Bits(v, if n < 8 then 8 else n)
  }

  lemma {:induction false} BitsValue(v: nat, w: nat)
    requires v < Pow2(w)
    ensures Value(Bits(v, w)) == v
    decreases w
  {
    if w > 0 {
      var s := Bits(v, w);
      BitsValue(v / 2, w - 1);
      assert s[..|s| - 1] == Bits(v / 2, w - 1);
    }
  }

  lemma {:induction false} Pow2Monotone(a: nat, b: nat)
    requires a <= b
    ensures Pow2(a) <= Pow2(b)
    decreases b - a
  {
    if a < b {
      Pow2Monotone(a, b - 1);
    }
  }

  /** Bits of a value that fits are read back as that value. */
  lemma BitsRoundTrip(v: nat, w: nat)
    requires w > 0 && v < Pow2(w)
    ensures ParseBinary(Bits(v, w)) == Ok(v)
  {
    BitsValue(v, w);
  }

  /** Whatever `v` is, the text transmit_byte sends reads back as `v`; it is exactly
      eight digits long precisely when `v` is below 256. */
  lemma FormatRoundTrip(v: nat)
    ensures ParseBinary(Format08b(v)) == Ok(v)
    ensures |Format08b(v)| == 8 <==> v < 256
    ensures |Format08b(v)| >= 8
  {
    var n := BinaryLength(v);
    var w := if n < 8 then 8 else n;
    Pow2Monotone(n, w);
    BitsRoundTrip(v, w);
    assert Pow2(8) == 256;
    if n > 8 {
      Pow2Monotone(8, n - 1);
    } else {
      Pow2Monotone(n, 8);
    }
  }

  // ---------- Storage ----------

  /** `reg_read` without its effect on the log: the stored value, or `RuntimeError`. */
  function Lookup(storage: map<nat, nat>, addr: nat): (r: Result<nat>)
    ensures r.Ok? <==> addr in storage
    ensures r.Ok? ==> r.value == storage[addr]
    ensures r.Err? ==> r.error == UnknownRegister(addr)
  {
    if addr in storage then Ok(storage[addr]) else Err(UnknownRegister(addr))
  }

  /** A read after a write of the same register returns the value written. */
  lemma ReadAfterWrite(storage: map<nat, nat>, a: nat, v: nat)
    ensures Lookup(storage[a := v], a) == Ok(v)
  {
  }

  /** A write leaves reads of every other register as they were. */
  lemma WriteKeepsOthers(storage: map<nat, nat>, a: nat, v: nat, b: nat)
    requires a != b
    ensures Lookup(storage[a := v], b) == Lookup(storage, b)
  {
  }

  /** Every stored value fits in a byte. */
  predicate ByteValued(storage: map<nat, nat>) {
    forall a :: a in storage ==> storage[a] < 256
  }

  // ---------- One frame ----------

  /** How the coroutine for one frame ends: a write stored, a read answered with the
      given digits, an exception, or the frame ended before the operation began. */
  datatype Outcome =
    | Stored(addr: nat, value: nat)
    | Sent(addr: nat, bits: seq<char>)
    | Failed(error: Error)
    | Incomplete

  /** The decode order of a frame: 7 address samples, the R/W sample, the acknowledge
      clock (not sampled), then 8 data samples in on a write, or a register read and
      its transmission on a read. Returns the new storage and the outcome. */
  function Transaction(storage: map<nat, nat>, samples: seq<char>): (r: (map<nat, nat>, Outcome))
    ensures r.1.Stored? ==> r.1.addr < 128 && r.1.value < 256 && r.0 == storage[r.1.addr := r.1.value]
    ensures r.1.Sent? ==> r.1.addr < 128 && r.1.addr in storage && r.0 == storage
    ensures !r.1.Stored? ==> r.0 == storage
  {
    if |samples| < 7 then (storage, Incomplete)
    else
      var address := ParseBinary(samples[..7]);
      if address.Err? then (storage, Failed(address.error))
      else if |samples| < 8 then (storage, Incomplete)
      else
        var rw := ParseBinary(samples[7..8]);
        if rw.Err? then (storage, Failed(rw.error))
        else if |samples| < 9 then (storage, Incomplete)
        else if rw.value == 0 then
          if |samples| < 17 then (storage, Incomplete)
          else
            var dataIn := ParseBinary(samples[9..17]);
            if dataIn.Err? then (storage, Failed(dataIn.error))
            else (storage[address.value := dataIn.value], Stored(address.value, dataIn.value))
        else
          var outgoing := Lookup(storage, address.value);
          if outgoing.Err? then (storage, Failed(outgoing.error))
          else (storage, Sent(address.value, Format08b(outgoing.value)))
  }

  /** The samples of a write frame to `addr` carrying `data`; `ack` is whatever SDA
      shows on the acknowledge clock. */
  function WriteFrame(addr: nat, ack: char, data: nat): seq<char> {
    Bits(addr, 7) + ['0'] + [ack] + Bits(data, 8)
  }

  /** The samples of a read frame from `addr`, up to the acknowledge clock. */
  function ReadFrame(addr: nat, ack: char): seq<char> {
    Bits(addr, 7) + ['1'] + [ack]
  }

  /** A write frame stores its data byte under its address, whatever follows it. */
  lemma WriteFrameStores(storage: map<nat, nat>, addr: nat, ack: char, data: nat, rest: seq<char>)
    requires addr < 128 && data < 256
    ensures Transaction(storage, WriteFrame(addr, ack, data) + rest) ==
      (storage[addr := data], Stored(addr, data))
  {
    var s := WriteFrame(addr, ack, data) + rest;
    assert s[..7] == Bits(addr, 7);
    assert s[7..8] == ['0'];
    assert s[9..17] == Bits(data, 8);
    BitsRoundTrip(addr, 7);
    BitsRoundTrip(data, 8);
    assert ParseBinary(['0']) == Ok(0) by { assert Value(['0']) == 2 * Value([]) + 0; }
  }

  /** A read frame answers with the stored value's digits, or fails on a register that
      was never written; storage is unchanged either way. */
  lemma ReadFrameAnswers(storage: map<nat, nat>, addr: nat, ack: char, rest: seq<char>)
    requires addr < 128
    ensures Transaction(storage, ReadFrame(addr, ack) + rest) ==
      if addr in storage then (storage, Sent(addr, Format08b(storage[addr])))
      else (storage, Failed(UnknownRegister(addr)))
  {
    var s := ReadFrame(addr, ack) + rest;
    assert s[..7] == Bits(addr, 7);
    assert s[7..8] == ['1'];
    BitsRoundTrip(addr, 7);
    assert ParseBinary(['1']) == Ok(1) by { assert Value(['1']) == 2 * Value([]) + 1; }
  }

  /** Writing a byte and then reading the same slave address sends back eight digits
      that read as that byte. */
  lemma WriteThenRead(storage: map<nat, nat>, addr: nat, data: nat, a1: char, a2: char, rest: seq<char>)
    requires addr < 128 && data < 256
    ensures var st := Transaction(storage, WriteFrame(addr, a1, data)).0;
      var out := Transaction(st, ReadFrame(addr, a2) + rest).1;
      && out.Sent? && out.addr == addr && |out.bits| == 8 && ParseBinary(out.bits) == Ok(data)
  {
    WriteFrameStores(storage, addr, a1, data, []);
    assert WriteFrame(addr, a1, data) + [] == WriteFrame(addr, a1, data);
    ReadFrameAnswers(storage[addr := data], addr, a2, rest);
    FormatRoundTrip(data);
  }

  /** Frames keep every stored value a byte when they start so. */
  lemma TransactionKeepsBytes(storage: map<nat, nat>, samples: seq<char>)
    requires ByteValued(storage)
    ensures ByteValued(Transaction(storage, samples).0)
  {
  }

  // ---------- The slave ----------

  class Slave {
    var storage: map<nat, nat>

    /** `i2c_slave(..., mem)`: the supplied map when there is one, else an empty one. */
    constructor (mem: Option<map<nat, nat>>)
      ensures storage == if mem.Some? then mem.value else map[]
    {
      storage := if mem.Some? then mem.value else map[];
    }

    /** `reg_write` */
    method RegWrite(addr: nat, value: nat)
      modifies this
      ensures storage == old(storage)[addr := value]
    {
      storage := storage[addr := value];
    }

    /** `reg_read` */
    method RegRead(addr: nat) returns (r: Result<nat>)
      ensures r == Lookup(storage, addr)
    {
      if addr !in storage {
        return Err(UnknownRegister(addr));
      }
      r := Ok(storage[addr]);
    }

    /** `collect_bits`: `samples` are the SDA values at the next `len(samples)` rising
        edges of SCL, appended to a text and converted as `int(text, 2)`. */
    method CollectBits(samples: seq<char>) returns (r: Result<nat>)
      ensures r == ParseBinary(samples)
      ensures r.Ok? ==> r.value == WeightedSum(samples) && r.value < Pow2(|samples|)
    {
      var result: seq<char> := [];
      for i := 0 to |samples|
        invariant result == samples[..i]
      {
        result := result + [samples[i]];
      }
      assert result == samples;
      r := ParseBinary(result);
    }

    /** `transmit_byte`: the values driven on SDA, one per SCL falling edge. */
    method TransmitByte(value: nat) returns (driven: seq<char>)
      ensures driven == Format08b(value)
      ensures ParseBinary(driven) == Ok(value)
      ensures |driven| == 8 <==> value < 256
    {
      var dataBits := Format08b(value);
      driven := [];
      for i := 0 to |dataBits|
        invariant driven == dataBits[..i]
      {
        driven := driven + [dataBits[i]];
      }
      assert driven == dataBits;
      FormatRoundTrip(value);
    }

    /** `handle_transaction` once START has been seen. */
    method HandleTransaction(samples: seq<char>) returns (o: Outcome)
      modifies this
      ensures (storage, o) == Transaction(old(storage), samples)
    {
      if |samples| < 7 {
        return Incomplete;
      }
      var address := CollectBits(samples[..7]);
      if address.Err? {
        return Failed(address.error);
      }
      if |samples| < 8 {
        return Incomplete;
      }
      var rwBit := CollectBits(samples[7..8]);
      if rwBit.Err? {
        return Failed(rwBit.error);
      }
      if |samples| < 9 {
        return Incomplete;
      }
      if rwBit.value == 0 {
        if |samples| < 17 {
          return Incomplete;
        }
        var dataIn := CollectBits(samples[9..17]);
        if dataIn.Err? {
          return Failed(dataIn.error);
        }
        RegWrite(address.value, dataIn.value);
        o := Stored(address.value, dataIn.value);
      } else {
        var outgoing := RegRead(address.value);
        if outgoing.Err? {
          return Failed(outgoing.error);
        }
        var driven := TransmitByte(outgoing.value);
        o := Sent(address.value, driven);
      }
    }
  }
}
