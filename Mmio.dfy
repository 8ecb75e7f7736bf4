/** Memory-mapped register access as bare-metal firmware performs it: every store and
    every load is a discrete, ordered event on the bus. The device side is abstract:
    a load returns the next value of a scripted reply stream, whatever its address. */
module Mmio {

  /** A 32-bit bus address. The firmware only compares addresses and never applies bit
      operations to them, so they are integers in the 32-bit range. */
  type Addr = a: int | 0 <= a < 0x1_0000_0000

  /** One volatile access, recorded in program order. */
  datatype Event = Write(addr: Addr, val: bv32) | Read(addr: Addr, val: bv32)

  /** The register map that results from replaying the stores of `t` on `m`;
      loads leave the map as it is. */
  function Replay(m: map<Addr, bv32>, t: seq<Event>): map<Addr, bv32>
    decreases |t|
  {
    if t == [] then m
    else Replay(if t[0].Write? then m[t[0].addr := t[0].val] else m, t[1..])
  }

  /** The stores of a trace, in order. */
  function Writes(t: seq<Event>): (w: seq<Event>)
    ensures |w| <= |t|
    ensures forall i :: 0 <= i < |w| ==> w[i].Write?
  {
    if t == [] then [] else (if t[0].Write? then [t[0]] else []) + Writes(t[1..])
  }

  /** The trace of loads from `addr` that returned `vals`, in order. */
  function Loads(addr: Addr, vals: seq<bv32>): (t: seq<Event>)
    ensures |t| == |vals|
    ensures forall i :: 0 <= i < |t| ==> t[i] == Read(addr, vals[i])
  {
    if vals == [] then [] else [Read(addr, vals[0])] + Loads(addr, vals[1..])
  }

  lemma LoadsAppend(addr: Addr, a: seq<bv32>, b: seq<bv32>)
    ensures Loads(addr, a + b) == Loads(addr, a) + Loads(addr, b)
  {
  }

  /** One more load of a spin loop extends its trace by one event. */
  lemma LoadsSnoc(addr: Addr, w: seq<bv32>, k: nat)
    requires k < |w|
    ensures Loads(addr, w[..k + 1]) == Loads(addr, w[..k]) + [Read(addr, w[k])]
  {
    assert w[..k + 1] == w[..k] + [w[k]];
    LoadsAppend(addr, w[..k], [w[k]]);
  }

  lemma {:induction false} ReplayAppend(m: map<Addr, bv32>, a: seq<Event>, b: seq<Event>)
    ensures Replay(m, a + b) == Replay(Replay(m, a), b)
    decreases |a|
  {
    if a != [] {
      assert (a + b)[1..] == a[1..] + b;
      ReplayAppend(if a[0].Write? then m[a[0].addr := a[0].val] else m, a[1..], b);
    } else {
      assert a + b == b;
    }
  }

  /** Loads never change the register map. */
  lemma {:induction false} ReplayLoads(m: map<Addr, bv32>, addr: Addr, vals: seq<bv32>)
    ensures Replay(m, Loads(addr, vals)) == m
    decreases |vals|
  {
    if vals != [] {
      ReplayLoads(m, addr, vals[1..]);
    }
  }

  lemma {:induction false} WritesAppend(a: seq<Event>, b: seq<Event>)
    ensures Writes(a + b) == Writes(a) + Writes(b)
    decreases |a|
  {
    if a == [] {
      assert a + b == b;
    } else {
      assert (a + b)[1..] == a[1..] + b;
      WritesAppend(a[1..], b);
    }
  }

  lemma {:induction false} WritesLoads(addr: Addr, vals: seq<bv32>)
    ensures Writes(Loads(addr, vals)) == []
    decreases |vals|
  {
    if vals != [] {
      WritesLoads(addr, vals[1..]);
    }
  }

  /** Every store of a trace appears in its list of stores. */
  lemma {:induction false} WritesContains(t: seq<Event>, e: Event)
    requires e in t && e.Write?
    ensures e in Writes(t)
    decreases |t|
  {
    if t[0] != e {
      WritesContains(t[1..], e);
    }
  }

  /** When every store of `t` goes to an address in `a`, so does every store event in `t`. */
  lemma StoresWithin(t: seq<Event>, a: set<Addr>)
    requires forall i :: 0 <= i < |Writes(t)| ==> Writes(t)[i].addr in a
    ensures forall e :: e in t && e.Write? ==> e.addr in a
  {
    forall e | e in t && e.Write? ensures e.addr in a {
      WritesContains(t, e);
    }
  }

  lemma AppendAssoc(a: seq<Event>, b: seq<Event>, c: seq<Event>)
    ensures a + b + c == a + (b + c)
  {
  }

  lemma SuffixOfSuffix(s: seq<bv32>, i: nat, j: nat)
    requires i + j <= |s|
    ensures s[i..][j..] == s[i + j..]
  {
  }

  // ---------- Polling a register until a value ends the wait ----------

  /** `w` is exactly what one spin-wait consumes: values that do not end it, then the
      first value that does. */
  predicate IsPoll(w: seq<bv32>, done: bv32 -> bool) {
    |w| > 0 && done(w[|w| - 1]) && forall i :: 0 <= i < |w| - 1 ==> !done(w[i])
  }

  /** The replies decide what a wait consumes: two waits that both begin the same reply
      stream are the same. */
  lemma PollUnique(s: seq<bv32>, done: bv32 -> bool, w1: seq<bv32>, w2: seq<bv32>)
    requires IsPoll(w1, done) && IsPoll(w2, done)
    requires w1 <= s && w2 <= s
    ensures w1 == w2
  {
  }

  // ---------- The bus ----------

  /** The processor's view of the memory-mapped registers. `regs` holds the last value
      stored at each address, `trace` every access so far, and `replies` the values the
      device will return to the coming loads. */
  class Bus {
    var regs: map<Addr, bv32>
    var trace: seq<Event>
    var replies: seq<bv32>
    ghost const initial: map<Addr, bv32>

    /** The register map is exactly what the recorded stores made of the initial map. */
    ghost predicate Valid()
      reads this
    {
      regs == Replay(initial, trace)
    }

    constructor (m: map<Addr, bv32>, script: seq<bv32>)
      ensures Valid()
      ensures regs == m && trace == [] && replies == script && initial == m
    {
      regs, trace, replies := m, [], script;
      initial := m;
    }

    /** `*((volatile uint32_t*)addr) = val` */
    method Store(addr: Addr, val: bv32)
      requires Valid()
      modifies this
      ensures Valid()
      ensures regs == old(regs)[addr := val]
      ensures trace == old(trace) + [Write(addr, val)]
      ensures replies == old(replies)
    {
      ReplayAppend(initial, trace, [Write(addr, val)]);
      regs := regs[addr := val];
      trace := trace + [Write(addr, val)];
    }

    /** `*((volatile uint32_t*)addr)`: the device supplies the value. */
    method Load(addr: Addr) returns (v: bv32)
      requires Valid()
      requires |replies| > 0
      modifies this
      ensures Valid()
      ensures v == old(replies)[0] && replies == old(replies)[1..]
      ensures trace == old(trace) + [Read(addr, v)]
      ensures regs == old(regs)
    {
      ReplayAppend(initial, trace, [Read(addr, replies[0])]);
      v := replies[0];
      replies := replies[1..];
      trace := trace + [Read(addr, v)];
    }
  }
}
