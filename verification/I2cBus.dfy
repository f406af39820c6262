/**
 Bit-banged I2C: the driver drives the clock and data lines through I2CCTL, and a slave
 decodes the levels it sees, as sections 3.1.3 and 3.1.4 of the I2C-bus specification say.
 */
module I2cBus {
  import opened Bits

  const ERR_I2C: int := -18
  const ERR_SWFW_SYNC: int := -16
  const ACK_TIMEOUT: nat := 10

  /** The levels the master drives. */
  datatype Level = Level(scl: bool, sda: bool)

  const IDLE: Level := Level(true, true)

  // ----- the slave -----

  datatype Event = Start | Stop | Bit(b: bool)

  /** Data is sampled when the clock rises; data changing while the clock is high is a start
      or a stop. */
  function Edge(a: Level, b: Level): seq<Event> {
    if a.scl && b.scl && a.sda && !b.sda then [Start]
    else if a.scl && b.scl && !a.sda && b.sda then [Stop]
    else if !a.scl && b.scl then [Bit(b.sda)]
    else []
  }

  function Last(trace: seq<Level>): Level {
    if trace == [] then IDLE else trace[|trace| - 1]
  }

  /** What happens on the bus, which was idle before the trace. */
  function Decode(trace: seq<Level>): seq<Event> {
    if trace == [] then []
    else
      var before := trace[..|trace| - 1];
      Decode(before) + Edge(Last(before), trace[|trace| - 1])
  }

  lemma DecodeNext(trace: seq<Level>, level: Level)
    ensures Decode(trace + [level]) == Decode(trace) + Edge(Last(trace), level) && Last(trace + [level]) == level
  {
    assert (trace + [level])[..|trace|] == trace;
  }

  function BitEvents(bits: seq<bool>): (r: seq<Event>)
    ensures |r| == |bits| && forall i | 0 <= i < |bits| :: r[i] == Bit(bits[i])
  {
    seq(|bits|, i requires 0 <= i < |bits| => Bit(bits[i]))
  }

  /** A byte followed by the clock on which the master leaves the line to the slave. */
  function ByteEvents(data: Word): seq<Event> {
    BitEvents(BitsOf(data, 8)) + [Bit(true)]
  }

  /** The bytes of a transfer: groups of nine bits, the ninth being the acknowledgement. Bits
      that do not fill a group are dropped at the stop. */
  function Bytes(bits: seq<bool>): seq<Word> {
    if |bits| < 9 then [] else [WordOf(bits[..8])] + Bytes(bits[9..])
  }

  /** The bits before the next start or stop. */
  function Payload(events: seq<Event>): (bits: seq<bool>)
    ensures |bits| <= |events|
  {
    if events == [] || !events[0].Bit? then [] else [events[0].b] + Payload(events[1..])
  }

  /** The bytes of a bus history that is one transfer: a start, data, and a stop. */
  ghost predicate IsTransfer(events: seq<Event>, bytes: seq<Word>) {
    && |events| >= 2 && events[0] == Start && events[|events| - 1] == Stop
    && (forall i | 0 < i < |events| - 1 :: events[i].Bit?)
    && Bytes(Payload(events[1..])) == bytes
  }

  // ----- what the driver puts on the lines, and what it needs to hear -----

  /** Whether the slaves hold the data line low after a trace, at the n-th look since its last level. */
  type Slave = (seq<Level>, nat) -> bool

  function BitTrace(t: seq<Level>, d: bool): seq<Level> {
    t + [Level(false, d)] + [Level(true, d)] + [Level(false, d)]
  }

  /** A driven one must read back as one. */
  predicate BitEcho(slave: Slave, t: seq<Level>, d: bool) {
    d ==> !slave(t + [Level(false, d)], 0)
  }

  function BitsTrace(t: seq<Level>, bits: seq<bool>): seq<Level> {
    if bits == [] then t else BitTrace(BitsTrace(t, bits[..|bits| - 1]), bits[|bits| - 1])
  }

  predicate BitsEcho(slave: Slave, t: seq<Level>, bits: seq<bool>) {
    bits == [] ||
    (var init, last := bits[..|bits| - 1], bits[|bits| - 1];
     BitsEcho(slave, t, init) && BitEcho(slave, BitsTrace(t, init), last))
  }

  lemma {:induction false} EchoPrefix(slave: Slave, t: seq<Level>, bits: seq<bool>, n: nat)
    requires n <= |bits| && BitsEcho(slave, t, bits)
    ensures BitsEcho(slave, t, bits[..n])
  {
    if n < |bits| {
      EchoPrefix(slave, t, bits[..|bits| - 1], n);
      assert bits[..|bits| - 1][..n] == bits[..n];
    } else {
      assert bits[..n] == bits;
    }
  }

  /** The bits of a byte, and the data line released. */
  function Released(t: seq<Level>, data: Word): seq<Level> {
    BitsTrace(t, BitsOf(data, 8)) + [Level(false, true)]
  }

  /** The line is seen low within the polls on the ninth clock. */
  predicate Acked(slave: Slave, t: seq<Level>) {
    exists k | 0 <= k < ACK_TIMEOUT :: slave(t + [Level(true, true)], k)
  }

  function AckTrace(t: seq<Level>): seq<Level> {
    t + [Level(true, true)] + [Level(false, true)]
  }

  function ByteTrace(t: seq<Level>, data: Word): seq<Level> {
    AckTrace(Released(t, data))
  }

  /** Every bit reads back as driven and the byte is acknowledged. */
  predicate HeardByte(slave: Slave, t: seq<Level>, data: Word) {
    BitsEcho(slave, t, BitsOf(data, 8)) && Acked(slave, Released(t, data))
  }

  predicate Heard(slave: Slave, t: seq<Level>, bytes: seq<Word>)
    decreases |bytes|
  {
    bytes == [] || (HeardByte(slave, t, bytes[0]) && Heard(slave, ByteTrace(t, bytes[0]), bytes[1..]))
  }

  function StartTrace(t: seq<Level>): seq<Level> {
    t + [Level(true, true)] + [Level(true, true)] + [Level(true, false)] + [Level(false, false)]
  }

  /** What a listener sees of the start condition, from any level of the lines. */
  function StartEvents(scl: bool, sda: bool): seq<Event> {
    if !scl then [Bit(true), Start] else if !sda then [Stop, Start] else [Start]
  }

  /** Clocks with the data line released. */
  function Clocks(n: nat): seq<Event> {
    seq(n, _ => Bit(true))
  }

  lemma ClocksNext(n: nat)
    ensures Clocks(0) == [] && Clocks(n + 1) == Clocks(n) + [Bit(true)]
  {
  }

  // ----- the driver -----

  /** A local copy of I2CCTL: the driven lines and the level read back from the data line. */
  datatype Ctl = Ctl(scl: bool, sda: bool, dataIn: bool)

  class Bus {
    const slave: Slave
    var scl: bool
    var sda: bool
    var trace: seq<Level>
    /** How often the register was read since it was last written. */
    var looks: nat
    var semaphore: bool
    /** How often a level was driven without the semaphore. */
    ghost var unguarded: nat

    ghost predicate Valid()
      reads this
    {
      Last(trace) == Level(scl, sda)
    }

    constructor (slave: Slave)
      ensures Valid() && scl && sda && !semaphore && trace == [] && this.slave == slave
    {
      this.slave := slave;
      scl, sda, trace, looks, semaphore := true, true, [], 0, false;
      unguarded := 0;
    }

    /** The slave can pull the data line low. */
    method Read() returns (ctl: Ctl)
      modifies this`looks
      ensures ctl == Ctl(scl, sda, sda && !slave(trace, old(looks))) && looks == old(looks) + 1
    {
      ctl := Ctl(scl, sda, sda && !slave(trace, looks));
      looks := looks + 1;
    }

    method Write(ctl: Ctl)
      requires Valid()
      modifies this`scl, this`sda, this`trace, this`looks, this`unguarded
      ensures unguarded == old(unguarded) + if semaphore then 0 else 1
      ensures Valid() && scl == ctl.scl && sda == ctl.sda && looks == 0
      ensures trace == old(trace) + [Level(scl, sda)]
      ensures Decode(trace) == Decode(old(trace)) + Edge(Level(old(scl), old(sda)), Level(scl, sda))
    {
      DecodeNext(trace, Level(ctl.scl, ctl.sda));
      scl, sda := ctl.scl, ctl.sda;
      trace, looks := trace + [Level(scl, sda)], 0;
      unguarded := if semaphore then unguarded else unguarded + 1;
    }

    method RaiseClk(ctl: Ctl) returns (r: Ctl)
      requires Valid()
      modifies this`scl, this`sda, this`trace, this`looks, this`unguarded
      ensures semaphore ==> unguarded == old(unguarded)
      ensures Valid() && r == ctl.(scl := true) && scl && sda == ctl.sda && looks == 0
      ensures trace == old(trace) + [Level(true, sda)]
      ensures Decode(trace) == Decode(old(trace)) + Edge(Level(old(scl), old(sda)), Level(true, sda))
    {
      r := ctl.(scl := true);
      Write(r);
    }

    method LowerClk(ctl: Ctl) returns (r: Ctl)
      requires Valid()
      modifies this`scl, this`sda, this`trace, this`looks, this`unguarded
      ensures semaphore ==> unguarded == old(unguarded)
      ensures Valid() && r == ctl.(scl := false) && !scl && sda == ctl.sda && Decode(trace) == Decode(old(trace))
      ensures trace == old(trace) + [Level(false, sda)]
    {
      r := ctl.(scl := false);
      Write(r);
    }

    /** ixgbe_set_i2c_data, which reads the line back. */
    method SetData(ctl: Ctl, data: bool) returns (status: int, r: Ctl)
      requires Valid()
      modifies this`scl, this`sda, this`trace, this`looks, this`unguarded
      ensures semaphore ==> unguarded == old(unguarded)
      ensures Valid() && scl == ctl.scl == r.scl && sda == data == r.sda
      ensures trace == old(trace) + [Level(scl, data)]
      ensures status == if data && slave(trace, 0) then ERR_I2C else 0
      ensures Decode(trace) == Decode(old(trace)) + Edge(Level(old(scl), old(sda)), Level(scl, sda))
    {
      status := 0;
      r := ctl.(sda := data);
      Write(r);
      r := Read();
      if data != r.dataIn {
        status := ERR_I2C;
      }
    }

    /** ixgbe_i2c_start */
    method StartCondition()
      requires Valid()
      modifies this`scl, this`sda, this`trace, this`looks, this`unguarded
      ensures semaphore ==> unguarded == old(unguarded)
      ensures Valid() && !scl && !sda
      ensures old(scl) ==> trace == StartTrace(old(trace))
      ensures Decode(trace) == Decode(old(trace)) + StartEvents(old(scl), old(sda))
    {
      hide Decode;
      var ctl := Read();
      var _, c1 := SetData(ctl, true);
      c1 := RaiseClk(c1);
      var _, c2 := SetData(c1, false);
      c2 := LowerClk(c2);
    }

    /** ixgbe_i2c_stop */
    method StopCondition()
      requires Valid()
      modifies this`scl, this`sda, this`trace, this`looks, this`unguarded
      ensures semaphore ==> unguarded == old(unguarded)
      ensures Valid() && scl && sda
      ensures !old(scl) ==> Decode(trace) == Decode(old(trace)) + [Bit(false), Stop]
    {
      hide Decode;
      var ctl := Read();
      var _, c1 := SetData(ctl, false);
      c1 := RaiseClk(c1);
      var _, c2 := SetData(c1, true);
    }

    /** ixgbe_clock_out_i2c_bit: a one that does not read back is an error. */
    method ClockOutBit(data: bool) returns (status: int)
      requires Valid() && !scl
      modifies this`scl, this`sda, this`trace, this`looks, this`unguarded
      ensures semaphore ==> unguarded == old(unguarded)
      ensures Valid() && !scl && status == if BitEcho(slave, old(trace), data) then 0 else ERR_I2C
      ensures status == 0 ==> trace == BitTrace(old(trace), data) && Decode(trace) == Decode(old(trace)) + [Bit(data)]
    {
      hide Decode;
      var ctl := Read();
      var s, c := SetData(ctl, data);
      status := s;
      if status == 0 {
        c := RaiseClk(c);
        c := LowerClk(c);
      } else {
        status := ERR_I2C;
      }
    }

    /** ixgbe_clock_out_i2c_byte; the data line is released at the end. */
    method ClockOutByte(data: Word) returns (status: int)
      requires Valid() && !scl
      modifies this`scl, this`sda, this`trace, this`looks, this`unguarded
      ensures semaphore ==> unguarded == old(unguarded)
      ensures Valid() && !scl && sda && status == if BitsEcho(slave, old(trace), BitsOf(data, 8)) then 0 else ERR_I2C
      ensures status == 0 ==>
        trace == Released(old(trace), data) && Decode(trace) == Decode(old(trace)) + BitEvents(BitsOf(data, 8))
    {
      hide Decode, BitTrace, BitEcho, BitsTrace, BitsEcho, BitEvents;
      status := 0;
      ghost var before, t := Decode(trace), trace;
      ghost var bits := BitsOf(data, 8);
      NoBits(slave, t, before, bits);
      var i := 7;
      while i >= 0
        invariant semaphore ==> unguarded == old(unguarded)
        invariant -1 <= i <= 7 && Valid() && !scl && status == 0
        invariant BitsEcho(slave, t, bits[..7 - i]) && trace == BitsTrace(t, bits[..7 - i])
        invariant Decode(trace) == before + BitEvents(bits[..7 - i])
        decreases i
      {
        NextBit(slave, t, bits, 7 - i);
        status := ClockOutBit(i in data);
        if status != 0 {
          break;
        }
        i := i - 1;
      }
      assert bits[..8] == bits;
      var ctl := Read();
      Write(ctl.(sda := true));
    }

    /** ixgbe_get_i2c_ack: one clock on which the slave may hold the line low. */
    method GetAck() returns (status: int)
      requires Valid() && !scl && sda
      modifies this`scl, this`sda, this`trace, this`looks, this`unguarded
      ensures semaphore ==> unguarded == old(unguarded)
      ensures Valid() && !scl && sda && status == if Acked(slave, old(trace)) then 0 else ERR_I2C
      ensures trace == AckTrace(old(trace)) && Decode(trace) == Decode(old(trace)) + [Bit(true)]
    {
      hide Decode;
      var ctl := Read();
      ctl := RaiseClk(ctl);
      status := 0;
      var ack := true;
      var i := 0;
      while i < ACK_TIMEOUT
        invariant Valid() && scl && sda && ctl.sda && ctl.scl && ack && looks == i <= ACK_TIMEOUT
        invariant forall k | 0 <= k < i :: !slave(trace, k)
        modifies this`looks
      {
        ctl := Read();
        ack := ctl.dataIn;
        if !ack {
          break;
        }
        i := i + 1;
      }
      if ack {
        status := ERR_I2C;
      }
      ctl := LowerClk(ctl);
    }

    /** The loop of ixgbe_i2c_bus_clear: if the copy of the register has the clock high, writing it
        is the first of the nine clocks. */
    method NineClocks(ctl: Ctl)
      requires Valid() && !scl
      modifies this`scl, this`sda, this`trace, this`looks, this`unguarded
      ensures semaphore ==> unguarded == old(unguarded)
      ensures Valid() && !scl && sda && Decode(trace) == Decode(old(trace)) + Clocks(9)
    {
      hide Decode, Clocks, Valid;
      var _, c := SetData(ctl, true);
      ghost var n := if ctl.scl then 1 else 0;
      ClocksNext(0);
      for i := 0 to 9
        invariant semaphore ==> unguarded == old(unguarded)
        invariant Valid() && c.sda && sda && scl == (i == 0 && ctl.scl)
        invariant n == (if i == 0 && ctl.scl then 1 else i) && Decode(trace) == Decode(old(trace)) + Clocks(n)
      {
        ClocksNext(n);
        n := if scl then n else n + 1;
        c := RaiseClk(c);
        c := LowerClk(c);
      }
    }

    /** ixgbe_i2c_bus_clear, which keeps writing a copy of the register read before the start. From
        any level of the lines a listener sees nine clocks with the data line released. */
    method BusClear()
      requires Valid()
      modifies this`scl, this`sda, this`trace, this`looks, this`unguarded
      ensures semaphore ==> unguarded == old(unguarded)
      ensures Valid() && scl && sda
      ensures Decode(trace) ==
        Decode(old(trace)) + StartEvents(old(scl), old(sda)) + Clocks(9) + [Bit(true), Start, Bit(false), Stop]
    {
      hide Decode, Clocks;
      var ctl := Read();
      StartCondition();
      NineClocks(ctl);
      StartCondition();
      StopCondition();
    }

    /** ixgbe_write_i2c_byte_generic from an idle bus. A successful write is one transfer of the
        three bytes, and the write is successful if and only if the semaphore is granted and the
        bytes are heard. On every path the lines are driven only under the semaphore, the bus is idle
        again and the semaphore given back. */
    method WriteByte(byteOffset: Word, devAddr: Word, data: Word, granted: bool) returns (status: int)
      requires Valid() && scl && sda && !semaphore
      modifies this
      ensures Valid() && scl && sda && !semaphore
      ensures status == if !granted then ERR_SWFW_SYNC
                        else if Heard(slave, StartTrace(old(trace)), [devAddr, byteOffset, data]) then 0
                        else ERR_I2C
      ensures status == 0 ==> Decode(trace) == Decode(old(trace)) + TransferEvents([devAddr, byteOffset, data])
      ensures status == ERR_SWFW_SYNC ==> trace == old(trace)
      ensures unguarded == old(unguarded)
    {
      hide Decode, ByteEvents, AllByteEvents, Heard, HeardByte, ByteTrace, StartTrace;
      ThreeBytes(devAddr, byteOffset, data);
      ThreeHeard(slave, StartTrace(trace), devAddr, byteOffset, data);
      if !granted {
        return ERR_SWFW_SYNC;
      }
      semaphore := true;
      StartCondition();
      status := SendByte(devAddr);
      if status == 0 {
        status := SendByte(byteOffset);
      }
      if status == 0 {
        status := SendByte(data);
      }
      if status == 0 {
        StopCondition();
      } else {
        BusClear();
      }
      semaphore := false;
    }

    /** A byte and its acknowledgement; a failure of either ends the transfer. */
    method SendByte(data: Word) returns (status: int)
      requires Valid() && !scl
      modifies this`scl, this`sda, this`trace, this`looks, this`unguarded
      ensures semaphore ==> unguarded == old(unguarded)
      ensures Valid() && !scl && status == if HeardByte(slave, old(trace), data) then 0 else ERR_I2C
      ensures status == 0 ==> trace == ByteTrace(old(trace), data) && Decode(trace) == Decode(old(trace)) + ByteEvents(data)
    {
      hide Decode, BitsOf, BitEvents, BitsEcho, Acked, AckTrace, Released;
      status := ClockOutByte(data);
      if status == 0 {
        status := GetAck();
      }
    }
  }

  lemma NoBits(slave: Slave, t: seq<Level>, before: seq<Event>, bits: seq<bool>)
    ensures BitsEcho(slave, t, bits[..0]) && BitsTrace(t, bits[..0]) == t && before + BitEvents(bits[..0]) == before
  {
  }

  lemma NextBit(slave: Slave, t: seq<Level>, bits: seq<bool>, n: nat)
    requires n < |bits|
    ensures BitsTrace(t, bits[..n + 1]) == BitTrace(BitsTrace(t, bits[..n]), bits[n])
    ensures BitsEcho(slave, t, bits[..n + 1]) <==>
      BitsEcho(slave, t, bits[..n]) && BitEcho(slave, BitsTrace(t, bits[..n]), bits[n])
    ensures BitEvents(bits[..n + 1]) == BitEvents(bits[..n]) + [Bit(bits[n])]
    ensures BitsEcho(slave, t, bits) ==> BitsEcho(slave, t, bits[..n + 1])
  {
    hide BitTrace, BitEcho;
    assert bits[..n + 1][..n] == bits[..n];
    if BitsEcho(slave, t, bits) {
      EchoPrefix(slave, t, bits, n + 1);
    }
  }

  lemma ThreeHeard(slave: Slave, t: seq<Level>, a: Word, b: Word, c: Word)
    ensures Heard(slave, t, [a, b, c]) <==>
      HeardByte(slave, t, a) && HeardByte(slave, ByteTrace(t, a), b)
      && HeardByte(slave, ByteTrace(ByteTrace(t, a), b), c)
  {
    hide HeardByte, ByteTrace;
    assert [a, b, c][1..] == [b, c] && [b, c][1..] == [c] && [c][1..] == [];
    assert Heard(slave, ByteTrace(ByteTrace(t, a), b), [c]) <==> HeardByte(slave, ByteTrace(ByteTrace(t, a), b), c);
  }

  /** A start, the bytes, and the clock edge with low data that precedes every stop. */
  function TransferEvents(bytes: seq<Word>): seq<Event> {
    [Start] + AllByteEvents(bytes) + [Bit(false), Stop]
  }

  function AllByteEvents(bytes: seq<Word>): seq<Event> {
    if bytes == [] then [] else ByteEvents(bytes[0]) + AllByteEvents(bytes[1..])
  }

  lemma ThreeBytes(a: Word, b: Word, c: Word)
    ensures AllByteEvents([a, b, c]) == ByteEvents(a) + ByteEvents(b) + ByteEvents(c)
  {
    hide ByteEvents;
    assert [a, b, c][1..] == [b, c] && [b, c][1..] == [c] && [c][1..] == [];
    assert AllByteEvents([c]) == ByteEvents(c);
    assert AllByteEvents([b, c]) == ByteEvents(b) + AllByteEvents([c]);
  }

  function AllBits(bytes: seq<Word>): seq<bool> {
    if bytes == [] then [] else BitsOf(bytes[0], 8) + [true] + AllBits(bytes[1..])
  }

  lemma {:induction false} EventsAreBits(bytes: seq<Word>)
    ensures AllByteEvents(bytes) == BitEvents(AllBits(bytes))
  {
    if bytes != [] {
      EventsAreBits(bytes[1..]);
      var x := BitsOf(bytes[0], 8);
      assert BitEvents(x + [true] + AllBits(bytes[1..])) == BitEvents(x) + [Bit(true)] + BitEvents(AllBits(bytes[1..]));
    }
  }

  lemma {:induction false} PayloadOfBits(bits: seq<bool>)
    ensures Payload(BitEvents(bits) + [Stop]) == bits
  {
    if bits != [] {
      assert (BitEvents(bits) + [Stop])[1..] == BitEvents(bits[1..]) + [Stop];
      PayloadOfBits(bits[1..]);
    }
  }

  lemma NextByte(byte: seq<bool>, more: seq<bool>, tail: seq<bool>)
    requires |byte| == 8
    ensures Bytes(byte + [true] + more + tail) == [WordOf(byte)] + Bytes(more + tail)
  {
    hide WordOf;
    var bits := byte + [true] + more + tail;
    assert bits[..8] == byte && bits[9..] == more + tail;
  }

  lemma {:induction false} BytesOfBits(bytes: seq<Word>, tail: seq<bool>)
    requires |tail| < 9 && forall i | 0 <= i < |bytes| :: Fits(bytes[i], 8)
    ensures Bytes(AllBits(bytes) + tail) == bytes
  {
    if bytes == [] {
      assert AllBits(bytes) + tail == tail;
    } else {
      hide BitsOf, WordOf, Fits;
      WireRoundTrip(bytes[0], 8);
      BytesOfBits(bytes[1..], tail);
      NextByte(BitsOf(bytes[0], 8), AllBits(bytes[1..]), tail);
    }
  }

  /** A slave recovers exactly the bytes that were sent, between one start and one stop, and
      data changes while the clock is high nowhere else. */
  lemma TransferDecodes(bytes: seq<Word>)
    requires forall i | 0 <= i < |bytes| :: Fits(bytes[i], 8)
    ensures IsTransfer(TransferEvents(bytes), bytes)
  {
    hide Bytes, Payload, AllByteEvents, AllBits;
    var events := TransferEvents(bytes);
    EventsAreBits(bytes);
    var bits := AllBits(bytes) + [false];
    assert BitEvents(bits) == BitEvents(AllBits(bytes)) + [Bit(false)];
    assert events[1..] == BitEvents(bits) + [Stop];
    PayloadOfBits(bits);
    BytesOfBits(bytes, [false]);
    assert forall i | 0 < i < |events| - 1 :: events[i] == BitEvents(bits)[i - 1];
  }

  // ----- a slave that answers -----

  /** Bits since the last start or stop. */
  function BitsSince(events: seq<Event>): nat {
    if events == [] || !events[|events| - 1].Bit? then 0 else 1 + BitsSince(events[..|events| - 1])
  }

  /** Holds the line low from the end of the eighth clock of every byte to the end of the ninth. */
  predicate Acks(trace: seq<Level>, look: nat) {
    var n := BitsSince(Decode(trace));
    if Last(trace).scl then n > 0 && n % 9 == 0 else n % 9 == 8
  }

  lemma OneMoreBit(events: seq<Event>, b: bool)
    ensures BitsSince(events + [Bit(b)]) == BitsSince(events) + 1
  {
    assert (events + [Bit(b)])[..|events|] == events;
  }

  /** One clock, from a low clock line: the slave counts one bit. */
  lemma ClockCounts(t: seq<Level>, d: bool)
    requires !Last(t).scl
    ensures var low, high := t + [Level(false, d)], t + [Level(false, d)] + [Level(true, d)];
      && Last(low) == Level(false, d) && BitsSince(Decode(low)) == BitsSince(Decode(t))
      && Last(high) == Level(true, d) && BitsSince(Decode(high)) == BitsSince(Decode(t)) + 1
      && Last(BitTrace(t, d)) == Level(false, d) && BitsSince(Decode(BitTrace(t, d))) == BitsSince(Decode(t)) + 1
  {
    hide Decode;
    var low := t + [Level(false, d)];
    var high := low + [Level(true, d)];
    DecodeNext(t, Level(false, d));
    DecodeNext(low, Level(true, d));
    DecodeNext(high, Level(false, d));
    assert Decode(t) + [] == Decode(t) && Decode(high) + [] == Decode(high);
    OneMoreBit(Decode(t), d);
  }

  lemma {:induction false} BitsHeard(t: seq<Level>, bits: seq<bool>)
    requires !Last(t).scl && BitsSince(Decode(t)) % 9 == 0 && |bits| <= 8
    ensures BitsEcho(Acks, t, bits) && !Last(BitsTrace(t, bits)).scl
    ensures BitsSince(Decode(BitsTrace(t, bits))) == BitsSince(Decode(t)) + |bits|
  {
    hide Decode, BitTrace;
    if bits != [] {
      var init, last := bits[..|bits| - 1], bits[|bits| - 1];
      BitsHeard(t, init);
      ClockCounts(BitsTrace(t, init), last);
      InByte(BitsSince(Decode(t)), |init|);
    }
  }

  lemma InByte(n: nat, j: nat)
    requires n % 9 == 0 && j < 8
    ensures (n + j) % 9 != 8
  {
  }

  lemma ByteIsHeard(t: seq<Level>, data: Word)
    requires !Last(t).scl && BitsSince(Decode(t)) % 9 == 0
    ensures HeardByte(Acks, t, data) && !Last(ByteTrace(t, data)).scl && BitsSince(Decode(ByteTrace(t, data))) % 9 == 0
  {
    hide Decode, BitsTrace, BitsEcho, BitsOf;
    var bits := BitsOf(data, 8);
    BitsHeard(t, bits);
    var u := BitsTrace(t, bits);
    ClockCounts(u, true);
    assert Acks(Released(t, data) + [Level(true, true)], 0);
    assert ByteTrace(t, data) == BitTrace(u, true);
  }

  lemma {:induction false} BytesAreHeard(t: seq<Level>, bytes: seq<Word>)
    requires !Last(t).scl && BitsSince(Decode(t)) % 9 == 0
    ensures Heard(Acks, t, bytes)
    decreases |bytes|
  {
    hide Decode, ByteTrace, HeardByte;
    if bytes != [] {
      ByteIsHeard(t, bytes[0]);
      BytesAreHeard(ByteTrace(t, bytes[0]), bytes[1..]);
    }
  }

  /** A slave that acknowledges in the ninth clock, and otherwise leaves the line alone, hears
      every transfer from an idle bus: with the semaphore, every write to it succeeds. */
  lemma AcksIsHeard(t: seq<Level>, bytes: seq<Word>)
    requires Last(t) == IDLE
    ensures Heard(Acks, StartTrace(t), bytes)
  {
    hide Decode;
    var a := t + [Level(true, true)];
    var b := a + [Level(true, true)];
    var c := b + [Level(true, false)];
    DecodeNext(t, Level(true, true));
    DecodeNext(a, Level(true, true));
    DecodeNext(b, Level(true, false));
    DecodeNext(c, Level(false, false));
    BytesAreHeard(StartTrace(t), bytes);
  }
}
