/**
 Bit-banged access to the serial EEPROM: the driver toggles chip select, clock and data
 bits of the EEC register, and a chip on the other side decodes what it is sent.
 */
module SpiEeprom {
  import opened Bits

  const READ_OP: Word := {0, 1}
  const WRITE_OP: Word := {1}
  const WREN_OP: Word := {1, 2}
  const RDSR_OP: Word := {0, 2}
  const A8: nat := 3
  const STATUS_RDY: nat := 0
  const MAX_RETRY: nat := 5000
  const GRANT_ATTEMPTS: nat := 1000
  const ERR_EEPROM: int := -1
  const ERR_SWFW_SYNC: int := -16

  // ----- the chip -----

  /** `rx` are the bits clocked in since chip select; `busy` is how many more status reads
      report the chip as busy with a write. */
  datatype Chip = Chip(mem: map<Word, Word>, rx: seq<bool>, wel: bool, busy: nat)

  /** Address bits per command, and address bits of the memory itself, counted in bytes. */
  datatype Part = Part(addressBits: nat, byteBits: nat)

  ghost predicate PartOk(p: Part) {
    (p.addressBits == 16 && p.byteBits <= 16) || (p.addressBits == 8 && p.byteBits <= 9)
  }

  ghost predicate ChipOk(p: Part, c: Chip) {
    forall a | Fits(a, p.byteBits) :: a in c.mem && Fits(c.mem[a], 8)
  }

  function Opcode(c: Chip): Word
    requires |c.rx| >= 8
  {
    WordOf(c.rx[..8])
  }

  /** With eight address bits, the ninth is bit 3 of the opcode. */
  predicate IsCommand(p: Part, c: Chip, op: Word) {
    |c.rx| >= 8 && (Opcode(c) == op || (p.addressBits == 8 && Opcode(c) == op + {A8}))
  }

  function Address(p: Part, c: Chip): Word
    requires |c.rx| >= 8 + p.addressBits
  {
    WordOf(c.rx[8..8 + p.addressBits]) + (if p.addressBits == 8 && A8 in Opcode(c) then {8} else {})
  }

  /** The byte after address `a`, for even `a`. */
  function Odd(a: Word): Word {
    a + {0}
  }

  /** What chip select going high completes. `delay` is how long a write keeps the chip busy. */
  function Deselected(p: Part, c: Chip, delay: nat): Chip {
    if c.busy > 0 then
      c.(rx := [], busy := if |c.rx| >= 16 && Opcode(c) == RDSR_OP then c.busy - 1 else c.busy)
    else if |c.rx| == 8 && Opcode(c) == WREN_OP then c.(rx := [], wel := true)
    else if |c.rx| == 8 + p.addressBits + 16 && IsCommand(p, c, WRITE_OP) && c.wel then
      var a, data := Address(p, c), c.rx[8 + p.addressBits..];
      Chip(c.mem[a := WordOf(data[..8])][Odd(a) := WordOf(data[8..])], [], false, delay)
    else c.(rx := [])
  }

  /** The value of the chip's output after its last rising clock edge. */
  predicate Output(p: Part, c: Chip) {
    var n := |c.rx|;
    if n > 8 && Opcode(c) == RDSR_OP then n <= 16 && 16 - n == STATUS_RDY && c.busy > 0
    else if n > 8 + p.addressBits && IsCommand(p, c, READ_OP) then
      var a, j := Address(p, c), n - 1 - (8 + p.addressBits);
      if j < 8 then a in c.mem && 7 - j in c.mem[a]
      else j < 16 && Odd(a) in c.mem && 15 - j in c.mem[Odd(a)]
    else false
  }

  /** `n` clock cycles with a low data line. */
  function Idle(c: Chip, n: nat): Chip {
    c.(rx := c.rx + seq(n, _ => false))
  }

  function Outputs(p: Part, c: Chip, n: nat): (r: seq<bool>)
    ensures |r| == n && forall i | 0 <= i < n :: r[i] == Output(p, Idle(c, i + 1))
  {
    seq(n, i requires 0 <= i < n => Output(p, Idle(c, i + 1)))
  }

  // ----- the driver -----

  /** How the requests of one access turn out: whether the semaphore is free, and how many polls go
      by before the hardware grants access. */
  datatype Grant = Grant(semaphore: bool, polls: nat)

  /** Polls of the status before the driver gives up on a busy chip. */
  const STATUS_POLLS: nat := 1000

  /** The result of an access, from what can be known before it. */
  function Outcome(p: Part, c: Chip, offset: Word, g: Grant): int
    requires p.byteBits > 0
  {
    if !Fits(offset, p.byteBits - 1) then ERR_EEPROM
    else if !g.semaphore then ERR_SWFW_SYNC
    else if g.polls >= GRANT_ATTEMPTS || c.busy >= STATUS_POLLS then ERR_EEPROM
    else 0
  }

  /** The bits of EEC the driver works with, as read into a local copy. */
  datatype Eec = Eec(sk: bool, cs: bool, di: bool, dO: bool, req: bool, gnt: bool)

  class Hw {
    const part: Part
    var sk: bool
    var cs: bool
    var di: bool
    var req: bool
    var gnt: bool
    /** The EEP semaphore of the SW/FW protocol. */
    var semaphore: bool
    var chip: Chip
    /** How long the chip will take for the next write; nothing here changes it. */
    var delay: nat

    /** Nobody is talking to the chip: it is deselected and nothing is held. */
    ghost predicate AtRest()
      reads this
    {
      PartOk(part) && ChipOk(part, chip) && chip.rx == [] && cs && !sk && !req && !semaphore
    }

    /** Selected, clock low: ready for the next bit. */
    ghost predicate Selected()
      reads this
    {
      !cs && !sk
    }

    method ReadEec() returns (eec: Eec)
      ensures eec == Eec(sk, cs, di, Output(part, chip), req, gnt)
    {
      eec := Eec(sk, cs, di, Output(part, chip), req, gnt);
    }

    /** A write of EEC drives the pins; the chip reacts to the edges. */
    method WriteEec(eec: Eec)
      modifies this`sk, this`cs, this`di, this`req, this`chip
      ensures sk == eec.sk && cs == eec.cs && di == eec.di && req == eec.req
      ensures !old(cs) && eec.cs ==> chip == Deselected(part, old(chip), delay)
      ensures !old(cs) && !eec.cs && !old(sk) && eec.sk ==> chip == old(chip).(rx := old(chip.rx) + [eec.di])
      ensures !(!old(cs) && eec.cs) && !(!old(cs) && !eec.cs && !old(sk) && eec.sk) ==> chip == old(chip)
    {
      hide Deselected;
      if !cs && eec.cs {
        chip := Deselected(part, chip, delay);
      } else if !cs && !eec.cs && !sk && eec.sk {
        chip := chip.(rx := chip.rx + [eec.di]);
      }
      sk, cs, di, req := eec.sk, eec.cs, eec.di, eec.req;
    }

    method RaiseClk(eec: Eec) returns (r: Eec)
      modifies this`sk, this`cs, this`di, this`req, this`chip
      requires !cs && !sk && !eec.cs
      ensures r == eec.(sk := true) && sk && !cs && di == eec.di && req == eec.req
      ensures chip == old(chip).(rx := old(chip.rx) + [eec.di])
    {
      r := eec.(sk := true);
      WriteEec(r);
    }

    method LowerClk(eec: Eec) returns (r: Eec)
      modifies this`sk, this`cs, this`di, this`req, this`chip
      requires !cs && !eec.cs
      ensures r == eec.(sk := false) && !sk && !cs && di == eec.di && req == eec.req && chip == old(chip)
    {
      r := eec.(sk := false);
      WriteEec(r);
    }

    /** ixgbe_standby_eeprom */
    method Standby()
      requires Selected()
      modifies this`sk, this`cs, this`di, this`req, this`chip
      ensures Selected() && req == old(req)
      ensures chip == Deselected(part, old(chip), delay)
    {
      var eec := ReadEec();
      eec := eec.(cs := true);
      WriteEec(eec);
      eec := eec.(cs := false);
      WriteEec(eec);
    }

    /** ixgbe_shift_out_eeprom_bits: the chip receives the bits, most significant first. */
    method ShiftOut(data: Word, count: nat)
      requires Selected() && 1 <= count
      modifies this`sk, this`cs, this`di, this`req, this`chip
      ensures Selected() && !di && req == old(req)
      ensures chip == old(chip).(rx := old(chip.rx) + BitsOf(data, count))
    {
      hide Output, BitsOf, Sent;
      var eec := ReadEec();
      ghost var was := chip;
      var mask := count - 1;
      NoneSent(was, data, count);
      for i := 0 to count
        invariant mask == count - 1 - i && Selected() && !eec.sk && !eec.cs && eec.req == req == old(req)
        invariant chip == Sent(was, data, count, i)
      {
        if mask in data {
          eec := eec.(di := true);
        } else {
          eec := eec.(di := false);
        }
        WriteEec(eec);
        eec := RaiseClk(eec);
        eec := LowerClk(eec);
        SentMore(was, data, count, i);
        mask := mask - 1;
      }
      AllSent(was, data, count);
      eec := eec.(di := false);
      WriteEec(eec);
    }

    /** ixgbe_shift_in_eeprom_bits: the bits the chip puts out on the next clock cycles. */
    method ShiftIn(count: nat) returns (data: Word)
      requires Selected() && count <= 16
      modifies this`sk, this`cs, this`di, this`req, this`chip
      ensures Selected() && req == old(req) && chip == Idle(old(chip), count)
      ensures data == WordOf(Outputs(part, old(chip), count))
    {
      hide Output, Idle, Outputs, WordOf, Shl;
      data := {};
      var eec := ReadEec();
      ghost var was := chip;
      NoOutputs(part, was);
      eec := eec.(dO := false, di := false);
      IdleNone(was);
      for i := 0 to count
        invariant Selected() && !eec.sk && !eec.cs && !eec.di && eec.req == req == old(req)
        invariant chip == Idle(was, i) && data == WordOf(Outputs(part, was, i))
      {
        data := Shl(data, 1, 16);
        eec := RaiseClk(eec);
        IdleMore(was, i);
        eec := ReadEec();
        eec := eec.(di := false);
        if eec.dO {
          data := data + {0};
        }
        CollectBit(part, was, i);
        eec := LowerClk(eec);
      }
    }

    /** ixgbe_ready_eeprom: polls the status until the chip is not busy, or a thousand times. */
    method Ready() returns (status: int)
      requires Selected() && chip.rx == []
      modifies this`sk, this`cs, this`di, this`req, this`chip
      ensures Selected() && req == old(req) && chip.mem == old(chip.mem) && chip.wel == old(chip.wel)
      ensures status == if old(chip.busy) < STATUS_POLLS then 0 else ERR_EEPROM
      ensures status == 0 ==> chip.busy == 0
      ensures |chip.rx| == if status == 0 then 16 else 0
    {
      hide WordOf, BitsOf, Outputs, Deselected;
      var i := 0;
      ghost var polls := 0;
      while i < MAX_RETRY
        invariant Selected() && req == old(req) && chip.rx == []
        invariant i == 5 * polls <= MAX_RETRY && old(chip.busy) == chip.busy + polls
        invariant chip.mem == old(chip.mem) && chip.wel == old(chip.wel)
      {
        assert [] + BitsOf(RDSR_OP, 8) == BitsOf(RDSR_OP, 8);
        ShiftOut(RDSR_OP, 8);
        ghost var asked := chip;
        StatusBits(part, chip);
        var spiStat := ShiftIn(8);
        if STATUS_RDY !in spiStat {
          break;
        }
        Standby();
        PollTicks(part, asked, delay);
        i := i + 5;
        polls := polls + 1;
      }
      status := if i >= MAX_RETRY then ERR_EEPROM else 0;
    }

    /** ixgbe_acquire_eeprom: the semaphore, then the hardware grant; both are given back
        when the grant does not come. */
    method Acquire(g: Grant) returns (status: int)
      requires AtRest()
      modifies this`sk, this`cs, this`di, this`req, this`gnt, this`semaphore, this`chip
      ensures chip == old(chip)
      ensures status == if !g.semaphore then ERR_SWFW_SYNC else if g.polls >= GRANT_ATTEMPTS then ERR_EEPROM else 0
      ensures status == 0 ==> Selected() && req && semaphore
      ensures status != 0 ==> AtRest()
    {
      hide ChipOk, Output;
      status := 0;
      if g.semaphore {
        semaphore := true;
      } else {
        status := ERR_SWFW_SYNC;
      }
      if status == 0 {
        var eec := ReadEec();
        eec := eec.(req := true);
        WriteEec(eec);
        var i := 0;
        while i < GRANT_ATTEMPTS
          invariant cs && !sk && req && semaphore && chip == old(chip)
          invariant eec.cs && !eec.sk && eec.req && i <= GRANT_ATTEMPTS && i <= g.polls && (i > 0 ==> !eec.gnt)
          modifies this`gnt
        {
          gnt := i >= g.polls;
          eec := ReadEec();
          if eec.gnt {
            break;
          }
          i := i + 1;
        }
        if !eec.gnt {
          eec := eec.(req := false);
          WriteEec(eec);
          semaphore := false;
          status := ERR_EEPROM;
        }
        if status == 0 {
          eec := eec.(cs := false, sk := false);
          WriteEec(eec);
        }
      }
    }

    /** ixgbe_release_eeprom */
    method ReleaseEeprom()
      requires Selected()
      modifies this`sk, this`cs, this`di, this`req, this`chip, this`semaphore
      ensures cs && !sk && !req && !semaphore && chip == Deselected(part, old(chip), delay)
    {
      var eec := ReadEec();
      eec := eec.(cs := true, sk := false);
      WriteEec(eec);
      eec := eec.(req := false);
      WriteEec(eec);
      semaphore := false;
    }

    /** ixgbe_write_eeprom_generic: on success the word is stored and no other byte changes; on
        failure no byte changes. On every path the chip is left alone and nothing is held. */
    method WriteEeprom(offset: Word, data: Word, g: Grant) returns (status: int)
      requires AtRest() && Fits(data, 16) && part.byteBits > 0
      modifies this`sk, this`cs, this`di, this`req, this`gnt, this`semaphore, this`chip
      ensures AtRest() && status == Outcome(part, old(chip), offset, g)
      ensures status != 0 ==> chip.mem == old(chip.mem)
      ensures status == 0 ==> chip.mem == Stored(old(chip.mem), offset, data) && chip.busy == delay
    {
      if !Fits(offset, part.byteBits - 1) {
        return ERR_EEPROM;
      }
      hide WordOf, BitsOf, ChipOk, Deselected, Stored, Command, Fits;
      status := Acquire(g);
      if status == 0 {
        var ready := Ready();
        if ready != 0 {
          Abandon();
          status := ERR_EEPROM;
        }
      }
      if status == 0 {
        SameMemOk(part, old(chip), chip);
        SendWrite(offset, data);
        Abandon();
      }
    }

    /** Write enable, then the write command with the swapped word. */
    method SendWrite(offset: Word, data: Word)
      requires Selected() && PartOk(part) && ChipOk(part, chip) && InRange(part, offset) && Fits(data, 16)
      requires NothingPending(part, chip) && chip.busy == 0
      modifies this`sk, this`cs, this`di, this`req, this`chip
      ensures Selected() && NothingPending(part, chip) && ChipOk(part, chip)
      ensures chip.mem == Stored(old(chip.mem), offset, data) && chip.rx == [] && chip.busy == delay
    {
      hide WordOf, BitsOf, ChipOk, Deselected, Stored, Command, Fits, Shl, Shr;
      StandbyClean();
      ShiftOut(WREN_OP, 8);
      ghost var enabling := chip;
      NothingBefore(BitsOf(WREN_OP, 8));
      Standby();
      WriteEnable(part, enabling, delay);
      var writeOpcode := WRITE_OP;
      if part.addressBits == 8 && !Fits(offset, 7) {
        writeOpcode := writeOpcode + {A8};
      }
      ShiftOut(writeOpcode, 8);
      NothingBefore(BitsOf(writeOpcode, 8));
      ShiftOut(Shl(offset, 1, 16), part.addressBits);
      CommandSent(part, WRITE_OP, offset);
      ShiftOut(Shr(data, 8) + Shl(data, 8, 16), 16);
      ghost var writing := chip;
      Standby();
      WriteCommand(part, writing, offset, data, delay);
      StoredIsOk(part, old(chip), chip, offset, data);
    }

    /** ixgbe_read_eeprom_bit_bang_generic: on success the stored word comes back. Reading
        changes no byte, and on every path nothing is held afterwards. */
    method ReadEeprom(offset: Word, g: Grant) returns (status: int, data: Word)
      requires AtRest() && part.byteBits > 0
      modifies this`sk, this`cs, this`di, this`req, this`gnt, this`semaphore, this`chip
      ensures AtRest() && chip.mem == old(chip.mem) && status == Outcome(part, old(chip), offset, g)
      ensures status == 0 ==>
        ByteAddr(offset) in chip.mem && Odd(ByteAddr(offset)) in chip.mem && data == WordAt(chip.mem, offset)
    {
      data := {};
      if !Fits(offset, part.byteBits - 1) {
        return ERR_EEPROM, data;
      }
      hide WordOf, BitsOf, ChipOk, Deselected, Stored, Command, Fits, Outputs, WordAt;
      status := Acquire(g);
      if status == 0 {
        var ready := Ready();
        if ready != 0 {
          Abandon();
          status := ERR_EEPROM;
        }
      }
      if status == 0 {
        StandbyClean();
        var readOpcode := READ_OP;
        if part.addressBits == 8 && !Fits(offset, 7) {
          readOpcode := readOpcode + {A8};
        }
        ShiftOut(readOpcode, 8);
        ShiftOut(Shl(offset, 1, 16), part.addressBits);
        ReadCommand(part, chip, offset);
        ReadIsNotWrite(part, chip, offset);
        var wordIn := ShiftIn(16);
        data := Shr(wordIn, 8) + Shl(wordIn, 8, 16);
        Abandon();
      }
    }

    /** A word written and read back at once. The read returns the word; it gets through if and only
        if its own requests do and the chip is done with the write within the polls. */
    method WriteThenRead(offset: Word, data: Word, g: Grant, h: Grant) returns (status: int, back: Word)
      requires AtRest() && Fits(data, 16) && part.byteBits > 0 && Outcome(part, chip, offset, g) == 0
      modifies this`sk, this`cs, this`di, this`req, this`gnt, this`semaphore, this`chip
      ensures AtRest() && (status == 0 ==> back == data)
      ensures status == 0 <==> h.semaphore && h.polls < GRANT_ATTEMPTS && delay < STATUS_POLLS
    {
      ghost var was := chip;
      var _ := WriteEeprom(offset, data, g);
      StoredReadsBack(part, was, offset, data, offset);
      hide Stored, WordAt, ByteAddr, Odd, ChipOk, Fits;
      status, back := ReadEeprom(offset, h);
    }

    /** Chip select toggled while no command is complete: only the received bits go. */
    method StandbyClean()
      requires Selected() && NothingPending(part, chip)
      modifies this`sk, this`cs, this`di, this`req, this`chip
      ensures Selected() && req == old(req)
      ensures chip.rx == [] && chip.mem == old(chip.mem) && (old(chip.busy) == 0 ==> chip.busy == 0)
    {
      ghost var was := chip;
      Standby();
      NothingHappens(part, was, delay);
    }

    /** The end of every access: deselect and give everything back. */
    method Abandon()
      requires Selected() && NothingPending(part, chip) && PartOk(part) && ChipOk(part, chip)
      modifies this`sk, this`cs, this`di, this`req, this`chip, this`semaphore
      ensures AtRest() && chip.mem == old(chip.mem) && (old(chip.rx) == [] ==> chip == old(chip))
    {
      ghost var was := chip;
      hide Deselected, ChipOk;
      ReleaseEeprom();
      NothingHappens(part, was, delay);
      SameMemOk(part, was, chip);
    }
  }

  // ----- commands as the chip sees them -----

  /** The bits received so far are no complete command that changes the chip. */
  ghost predicate NothingPending(p: Part, c: Chip) {
    |c.rx| != 8 && !(|c.rx| == 8 + p.addressBits + 16 && IsCommand(p, c, WRITE_OP))
  }

  lemma NothingHappens(p: Part, c: Chip, delay: nat)
    requires NothingPending(p, c)
    ensures var d := Deselected(p, c, delay); d.rx == [] && d.mem == c.mem && d.wel == c.wel && d.busy <= c.busy
    ensures c.rx == [] ==> Deselected(p, c, delay) == c
  {
  }

  lemma SameMemOk(p: Part, c: Chip, d: Chip)
    requires ChipOk(p, c) && d.mem == c.mem
    ensures ChipOk(p, d)
  {
  }

  lemma StoredIsOk(p: Part, c: Chip, d: Chip, offset: Word, data: Word)
    requires ChipOk(p, c) && Fits(data, 16) && d.mem == Stored(c.mem, offset, data)
    ensures ChipOk(p, d)
  {
  }

  function Stored(mem: map<Word, Word>, offset: Word, data: Word): map<Word, Word> {
    mem[ByteAddr(offset) := LowByte(data)][Odd(ByteAddr(offset)) := Shr(data, 8)]
  }

  lemma NothingBefore(bits: seq<bool>)
    ensures [] + bits == bits
  {
  }

  /** The two shifts that send a command. */
  lemma CommandSent(p: Part, op: Word, offset: Word)
    ensures BitsOf(WithA8(p, op, offset), 8) + BitsOf(Shl(offset, 1, 16), p.addressBits) == Command(p, op, offset)
  {
  }

  lemma WriteEnable(p: Part, c: Chip, delay: nat)
    requires c.rx == BitsOf(WREN_OP, 8) && c.busy == 0
    ensures Deselected(p, c, delay) == c.(rx := [], wel := true)
  {
    assert c.rx[..8] == c.rx;
    WireRoundTrip(WREN_OP, 8);
  }

  /** A complete write command stores the two bytes and nothing else. */
  lemma WriteCommand(p: Part, c: Chip, offset: Word, data: Word, delay: nat)
    requires PartOk(p) && InRange(p, offset) && Fits(data, 16) && c.wel && c.busy == 0
    requires c.rx == Command(p, WRITE_OP, offset) + BitsOf(Swap(data), 16)
    ensures Deselected(p, c, delay) == Chip(Stored(c.mem, offset, data), [], false, delay)
  {
    var bits := BitsOf(Swap(data), 16);
    CommandDecoded(p, c, WRITE_OP, offset, bits);
    assert c.rx[8 + p.addressBits..] == bits;
    SwappedBytes(data);
    assert |c.rx| == 8 + p.addressBits + 16;
    hide Command, WithA8, ByteAddr, BitsOf, WordOf, Swap, Shr, LowByte;
  }

  function LowByte(x: Word): (r: Word)
    ensures forall q: nat :: q in r <==> q in x && q < 8
  {
    set q: nat | q in x && q < 8
  }

  /** The byte swap puts the low byte on the wire first. */
  lemma SwappedBytes(data: Word)
    requires Fits(data, 16)
    ensures WordOf(BitsOf(Swap(data), 16)[..8]) == LowByte(data)
    ensures WordOf(BitsOf(Swap(data), 16)[8..]) == Shr(data, 8)
  {
  }

  lemma WordAtBytes(mem: map<Word, Word>, offset: Word, data: Word)
    requires Fits(data, 16) && ByteAddr(offset) in mem && Odd(ByteAddr(offset)) in mem
    requires mem[ByteAddr(offset)] == LowByte(data) && mem[Odd(ByteAddr(offset))] == Shr(data, 8)
    ensures WordAt(mem, offset) == data
  {
  }

  /** A poll of the status of a busy chip is one step towards the end of the write. */
  lemma PollTicks(p: Part, c: Chip, delay: nat)
    requires c.busy > 0 && c.rx == BitsOf(RDSR_OP, 8)
    ensures Deselected(p, Idle(c, 8), delay) == c.(rx := [], busy := c.busy - 1)
  {
    var d := Idle(c, 8);
    assert d.rx[..8] == c.rx;
    WireRoundTrip(RDSR_OP, 8);
  }

  lemma StatusBit(p: Part, c: Chip, i: nat)
    requires c.rx == BitsOf(RDSR_OP, 8) && i < 8
    ensures Output(p, Idle(c, i + 1)) <==> i == 7 && c.busy > 0
  {
    var d := Idle(c, i + 1);
    assert d.rx[..8] == c.rx;
    WireRoundTrip(RDSR_OP, 8);
    hide WordOf, BitsOf, IsCommand, Address;
  }

  lemma StatusBits(p: Part, c: Chip)
    requires c.rx == BitsOf(RDSR_OP, 8)
    ensures WordOf(Outputs(p, c, 8)) == if c.busy > 0 then {STATUS_RDY} else {}
  {
    hide Output, BitsOf, Idle;
    forall i | 0 <= i < 8 ensures Outputs(p, c, 8)[i] <==> i == 7 && c.busy > 0 {
      StatusBit(p, c, i);
    }
  }

  /** A read command puts out the two bytes of the word. */
  lemma ReadCommand(p: Part, c: Chip, offset: Word)
    requires PartOk(p) && ChipOk(p, c) && InRange(p, offset) && c.rx == Command(p, READ_OP, offset)
    ensures ByteAddr(offset) in c.mem && Odd(ByteAddr(offset)) in c.mem
    ensures Swap(WordOf(Outputs(p, c, 16))) == WordAt(c.mem, offset)
  {
    hide Output, Idle, Command, InRange, ByteAddr;
    AddrInRange(p, offset);
    var a := ByteAddr(offset);
    var r := Outputs(p, c, 16);
    forall i | 0 <= i < 16 ensures r[i] == if i < 8 then 7 - i in c.mem[a] else 15 - i in c.mem[Odd(a)] {
      ReadOutput(p, c, offset, i);
    }
  }

  lemma ReadIsNotWrite(p: Part, c: Chip, offset: Word)
    requires PartOk(p) && InRange(p, offset) && c.rx == Command(p, READ_OP, offset)
    ensures NothingPending(p, Idle(c, 16))
  {
    CommandDecoded(p, Idle(c, 16), READ_OP, offset, seq(16, _ => false));
    assert 0 in WithA8(p, READ_OP, offset) && 0 !in WRITE_OP && 0 !in WRITE_OP + {A8};
    hide Command, BitsOf, WordOf;
  }

  lemma AddrInRange(p: Part, offset: Word)
    requires PartOk(p) && InRange(p, offset)
    ensures Fits(ByteAddr(offset), p.byteBits) && Fits(Odd(ByteAddr(offset)), p.byteBits) && 0 !in ByteAddr(offset)
  {
  }

  lemma ReadOutput(p: Part, c: Chip, offset: Word, i: nat)
    requires PartOk(p) && ChipOk(p, c) && InRange(p, offset) && c.rx == Command(p, READ_OP, offset) && i < 16
    ensures var a := ByteAddr(offset);
      && a in c.mem && Odd(a) in c.mem
      && Output(p, Idle(c, i + 1)) == if i < 8 then 7 - i in c.mem[a] else 15 - i in c.mem[Odd(a)]
  {
    hide Command, WithA8, ByteAddr, Opcode, Address, IsCommand, Output, Fits, InRange;
    AddrInRange(p, offset);
    AddrStored(p, c, offset);
    var d := Idle(c, i + 1);
    CommandDecoded(p, d, READ_OP, offset, seq(i + 1, _ => false));
    NotStatus(p, offset);
    CommandLength(p, READ_OP, offset);
    OutputOfRead(p, d, ByteAddr(offset), i);
  }

  lemma AddrStored(p: Part, c: Chip, offset: Word)
    requires ChipOk(p, c) && Fits(ByteAddr(offset), p.byteBits) && Fits(Odd(ByteAddr(offset)), p.byteBits)
    ensures ByteAddr(offset) in c.mem && Odd(ByteAddr(offset)) in c.mem
  {
  }

  lemma NotStatus(p: Part, offset: Word)
    ensures WithA8(p, READ_OP, offset) != RDSR_OP
  {
    assert 1 in WithA8(p, READ_OP, offset) && 1 !in RDSR_OP;
  }

  lemma CommandLength(p: Part, op: Word, offset: Word)
    ensures |Command(p, op, offset)| == 8 + p.addressBits
  {
  }

  lemma OutputOfRead(p: Part, d: Chip, a: Word, i: nat)
    requires |d.rx| == 8 + p.addressBits + i + 1 && i < 16 && IsCommand(p, d, READ_OP) && Opcode(d) != RDSR_OP
    requires Address(p, d) == a && a in d.mem && Odd(a) in d.mem
    ensures Output(p, d) == if i < 8 then 7 - i in d.mem[a] else 15 - i in d.mem[Odd(a)]
  {
    hide Opcode, Address, IsCommand, Odd;
  }

  /** The address sent for a word: twice its offset. */
  function ByteAddr(offset: Word): Word {
    Shl(offset, 1, 16)
  }

  ghost predicate InRange(p: Part, offset: Word) {
    p.byteBits > 0 && Fits(offset, p.byteBits - 1)
  }

  /** A command opcode with the ninth address bit put in where the part wants it there. */
  function WithA8(p: Part, op: Word, offset: Word): Word {
    if p.addressBits == 8 && !Fits(offset, 7) then op + {A8} else op
  }

  function Swap(data: Word): Word {
    Shr(data, 8) + Shl(data, 8, 16)
  }

  /** A word of the memory: low byte first. */
  ghost function WordAt(mem: map<Word, Word>, offset: Word): Word
    requires ByteAddr(offset) in mem && Odd(ByteAddr(offset)) in mem
  {
    mem[ByteAddr(offset)] + Shl(mem[Odd(ByteAddr(offset))], 8, 16)
  }

  function Command(p: Part, op: Word, offset: Word): seq<bool> {
    BitsOf(WithA8(p, op, offset), 8) + BitsOf(ByteAddr(offset), p.addressBits)
  }

  /** The chip decodes the command and the full address, on both kinds of part. */
  lemma CommandDecoded(p: Part, c: Chip, op: Word, offset: Word, tail: seq<bool>)
    requires PartOk(p) && InRange(p, offset) && (op == READ_OP || op == WRITE_OP)
    requires c.rx == Command(p, op, offset) + tail
    ensures IsCommand(p, c, op) && Opcode(c) == WithA8(p, op, offset) && Address(p, c) == ByteAddr(offset)
  {
    var opcode, address := BitsOf(WithA8(p, op, offset), 8), BitsOf(ByteAddr(offset), p.addressBits);
    assert c.rx == opcode + address + tail;
    assert c.rx[..8] == opcode && c.rx[8..8 + p.addressBits] == address;
    hide BitsOf, WordOf, ByteAddr, Fits, Shl;
    WireRoundTrip(WithA8(p, op, offset), 8);
    AddressDecoded(p, offset);
  }

  lemma AddressDecoded(p: Part, offset: Word)
    requires PartOk(p) && InRange(p, offset)
    ensures ByteAddr(offset) ==
      WordOf(BitsOf(ByteAddr(offset), p.addressBits)) + (if p.addressBits == 8 && !Fits(offset, 7) then {8} else {})
  {
    var a := ByteAddr(offset);
    assert 8 in a <==> 7 in offset;
    if p.addressBits == 16 {
      WireRoundTrip(a, 16);
    } else {
      assert Fits(offset, 8) && Fits(a, 9) && (Fits(offset, 7) <==> 7 !in offset);
    }
  }

  /** The first `i` bits of a word are on the wire. */
  ghost function Sent(c: Chip, data: Word, count: nat, i: nat): Chip
    requires i <= count
  {
    c.(rx := c.rx + BitsOf(data, count)[..i])
  }

  lemma NoneSent(c: Chip, data: Word, count: nat)
    ensures Sent(c, data, count, 0) == c
  {
    assert c.rx + BitsOf(data, count)[..0] == c.rx;
  }

  lemma SentMore(c: Chip, data: Word, count: nat, i: nat)
    requires i < count
    ensures Sent(c, data, count, i + 1) == Sent(c, data, count, i).(rx := Sent(c, data, count, i).rx + [count - 1 - i in data])
  {
    var bits := BitsOf(data, count);
    assert bits[..i + 1] == bits[..i] + [bits[i]];
    assert c.rx + bits[..i + 1] == c.rx + bits[..i] + [bits[i]];
  }

  lemma AllSent(c: Chip, data: Word, count: nat)
    ensures Sent(c, data, count, count) == c.(rx := c.rx + BitsOf(data, count))
  {
    assert BitsOf(data, count)[..count] == BitsOf(data, count);
  }

  lemma IdleNone(c: Chip)
    ensures Idle(c, 0) == c
  {
    assert c.rx + seq(0, _ => false) == c.rx;
  }

  lemma IdleMore(c: Chip, n: nat)
    ensures Idle(c, n).(rx := Idle(c, n).rx + [false]) == Idle(c, n + 1)
  {
    assert c.rx + seq(n, _ => false) + [false] == c.rx + seq(n + 1, _ => false);
  }

  lemma NoOutputs(p: Part, c: Chip)
    ensures WordOf(Outputs(p, c, 0)) == {}
  {
  }

  /** Shifting left and adding the next bit continues the word. */
  lemma CollectBit(p: Part, c: Chip, i: nat)
    requires i < 16
    ensures WordOf(Outputs(p, c, i + 1)) ==
      Shl(WordOf(Outputs(p, c, i)), 1, 16) + (if Output(p, Idle(c, i + 1)) then {0} else {})
  {
    hide Output;
    var a, b := Outputs(p, c, i), Outputs(p, c, i + 1);
    assert b == a + [Output(p, Idle(c, i + 1))];
  }

  /** A stored word reads back, and every other word reads as before. */
  lemma StoredReadsBack(p: Part, c: Chip, offset: Word, data: Word, other: Word)
    requires PartOk(p) && ChipOk(p, c) && InRange(p, offset) && InRange(p, other) && Fits(data, 16)
    ensures var mem := Stored(c.mem, offset, data);
      && ByteAddr(other) in mem && Odd(ByteAddr(other)) in mem && ByteAddr(other) in c.mem && Odd(ByteAddr(other)) in c.mem
      && WordAt(mem, other) == if other == offset then data else WordAt(c.mem, other)
  {
    AddrInRange(p, offset);
    AddrInRange(p, other);
    var mem := Stored(c.mem, offset, data);
    assert ByteAddr(offset) != Odd(ByteAddr(offset));
    if other == offset {
      hide ByteAddr;
      WordAtBytes(mem, offset, data);
    } else {
      assert ByteAddr(other) != ByteAddr(offset) by {
        assert forall q: nat | q < 15 :: q in other <==> q + 1 in ByteAddr(other);
        assert forall q: nat | q < 15 :: q in offset <==> q + 1 in ByteAddr(offset);
        var q :| q in other - offset || q in offset - other;
      }
      assert Odd(ByteAddr(other)) - {0} == ByteAddr(other) && Odd(ByteAddr(offset)) - {0} == ByteAddr(offset);
      assert 0 in Odd(ByteAddr(other)) && 0 in Odd(ByteAddr(offset));
    }
  }
}
