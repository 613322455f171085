/**
  The programmer's building blocks: pass-through transfers, polling, one list entry, one page.
 */
module SpiHub {
  import opened Bits
  import opened NorFlash
  import opened Options
  import opened SpiCommands

  const CHIP_ERASE: Byte := 0x60
  const CHIP_ERASE_SST26: Byte := 0xC7

  /** `count` bytes of the hub's response buffer. */
  function Received(response: seq<Byte>, count: nat): (bytes: seq<Byte>)
    ensures |bytes| == count
  {
    seq(count, i requires 0 <= i < count => if i < |response| then response[i] else IDLE)
  }

  /** The flash is in a state that `k` describes. */
  predicate Knows(d: Device, k: Known) {
    (k.latch ==> d.latch) && (k.idle ==> d.busy == 0) && (k.open ==> !d.protect)
  }

  /** What identifies the part never changes. */
  predicate SamePart(d: Device, e: Device) {
    d.id == e.id && d.pageSize == e.pageSize && d.eraseTime == e.eraseTime && d.programTime == e.programTime
    && |d.mem| == |e.mem|
  }

  /** The walk is sound: what it promises about an entry holds of the flash. */
  lemma StepSound(d: Device, k: Known, e: Entry, c: seq<Byte>, k': Known, d': Device)
    requires d.Valid() && Knows(d, k) && e.Send? && c == Cut(e.bytes, e.total)
    requires StepKnown(d.IsSst26(), k, e) == Some(k') && c[0] != RDSR
    requires d' == Clocked(d, c, e.total)
    ensures Knows(d', k') && d'.mem == Effect(d.IsSst26(), d.mem, e) && d'.refused == d.refused
    ensures d'.Valid() && SamePart(d, d')
  {
    ClockedKeepsValid(d, c, e.total);
    if c[0] == BLOCK_ERASE {
      assert Ticked(d).busy == 0;
    } else {
      if c[0] == PAGE_PROGRAM { assert false; }
      ClockedKeepsMemory(d, c, e.total);
    }
  }

  /** Any of bits 0, 2, 3 and 5, the ones the page loop waits for. */
  predicate Blocking(status: Byte) {
    status % 2 == 1 || status / 4 % 2 == 1 || status / 8 % 2 == 1 || status / 32 % 2 == 1
  }

  /** The busy and protection bits of a status byte. */
  lemma StatusBits(d: Device, s: Byte)
    requires s == Status(d)
    ensures s % 2 == 1 <==> d.busy > 0
    ensures !Blocking(s) <==> d.busy == 0 && !d.protect
  {
    assert s in {0, 1, 2, 3, 28, 29, 30, 31};
  }

  lemma StatusAnswer(d: Device, d': Device, total: nat)
    requires d.Valid() && d' == Clocked(d, [RDSR, 0], total)
    ensures d'.Valid() && d.Alike(d') && d'.busy == (if d.busy > 0 then d.busy - 1 else 0)
    ensures total >= 2 ==> Received(d'.response, total)[1] == Status(d')
  {
  }

  class Hub {
    var flash: Device

    /** CMD_SPI_PASSTRHU_WRITE: at most `total` of the bytes are clocked out. */
    method Write(bytes: seq<Byte>, total: nat)
      requires flash.Valid()
      modifies this
      ensures flash == Clocked(old(flash), Cut(bytes, total), total)
      ensures flash.Valid() && SamePart(old(flash), flash)
    {
      ClockedKeepsValid(flash, Cut(bytes, total), total);
      flash := Clocked(flash, Cut(bytes, total), total);
    }

    /** Read the response buffer. */
    method Fetch(buffer: array<Byte>, count: nat)
      requires count <= buffer.Length
      modifies buffer
      ensures buffer[..] == Received(flash.response, count) + old(buffer[count..])
    {
      var bytes := Received(flash.response, count);
      forall i | 0 <= i < count { buffer[i] := bytes[i]; }
      assert buffer[count..] == old(buffer[count..]);
      assert buffer[..] == buffer[..count] + buffer[count..];
    }

    /** An RDSR entry: sent twice, then polled until the busy bit is clear. */
    method PollIdle(total: nat, buffer: array<Byte>)
      requires flash.Valid() && 2 <= total <= buffer.Length
      modifies this, buffer
      ensures flash.Valid() && old(flash).Alike(flash) && flash.busy == 0
    {
      ghost var before := flash;
      Write([RDSR, 0], total);
      StatusAnswer(before, flash, total);
      ghost var next := flash;
      Write([RDSR, 0], total);
      StatusAnswer(next, flash, total);
      Fetch(buffer, total);
      StatusBits(flash, buffer[1]);
      while buffer[1] % 2 == 1
        invariant flash.Valid() && before.Alike(flash)
        invariant buffer[1] == Status(flash)
        decreases flash.busy
      {
        StatusBits(flash, buffer[1]);
        next := flash;
        Write([RDSR, 0], total);
        StatusAnswer(next, flash, total);
        Fetch(buffer, total);
      }
      StatusBits(flash, buffer[1]);
    }

    /** One list entry other than the page-program slot. */
    method RunEntry(e: Entry, buffer: array<Byte>, ghost k: Known, ghost k': Known)
      requires flash.Valid() && buffer.Length == 1024 && Knows(flash, k) && !e.Program?
      requires StepKnown(flash.IsSst26(), k, e) == Some(k')
      requires e.Send? && Cut(e.bytes, e.total)[0] == RDSR ==> e.bytes == [RDSR, 0] && 2 <= e.total <= 3
      requires e.Receive? ==> 1 <= e.total <= 1024
      modifies this, buffer
      ensures flash.Valid() && SamePart(old(flash), flash) && Knows(flash, k')
      ensures flash.mem == Effect(flash.IsSst26(), old(flash).mem, e) && flash.refused == old(flash).refused
      ensures e.Receive? || (e.Send? && Cut(e.bytes, e.total)[0] == RDSR) ==> old(flash).Alike(flash)
    {
      match e {
        case Receive(total) =>
          // a response that starts with the chip-erase opcode would shorten the transfer
          Fetch(buffer, if buffer[0] == CHIP_ERASE || buffer[0] == CHIP_ERASE_SST26 then 1 else total);
          // no response starts with the RDSR opcode, so a fetched buffer is never polled
          assert buffer[0] == IDLE;
        case Send(bytes, total) =>
          if bytes[0] == RDSR {
            PollIdle(total, buffer);
          } else {
            ghost var before := flash;
            Write(bytes, total);
            StepSound(before, k, e, Cut(bytes, total), k', flash);
          }
      }
    }

    /** Wait until neither the busy nor a protection bit is set. */
    method WaitReady(buffer: array<Byte>)
      requires flash.Valid() && buffer.Length == 1024 && !flash.protect
      modifies this, buffer
      ensures flash.Valid() && old(flash).Alike(flash) && flash.busy == 0
    {
      ghost var before := flash;
      Write([RDSR, 0], 2);
      StatusAnswer(before, flash, 2);
      Fetch(buffer, 2);
      while Blocking(buffer[1])
        invariant flash.Valid() && before.Alike(flash)
        invariant buffer[1] == Status(flash)
        decreases flash.busy
      {
        StatusBits(flash, buffer[1]);
        ghost var next := flash;
        Write([RDSR, 0], 2);
        StatusAnswer(next, flash, 2);
        Fetch(buffer, 2);
      }
      StatusBits(flash, buffer[1]);
    }

    /** One page: wait, set the latch, look at the status once, program. */
    method ProgramPage(at: nat, data: seq<Byte>, command: array<Byte>, buffer: array<Byte>)
      requires flash.Valid() && !flash.protect && buffer.Length == 1024 && command.Length == 260 && buffer != command
      requires at < 0x1000000 && 0 < |data| <= 256
      modifies this, buffer, command
      ensures flash.Valid() && SamePart(old(flash), flash) && !flash.protect
      ensures flash.mem == Programmed(old(flash).mem, flash.pageSize, at, data)
      ensures flash.refused == old(flash).refused && flash.busy == flash.programTime
    {
      ghost var start := flash;
      command[0], command[1], command[2], command[3] := PAGE_PROGRAM, Byte2(at), Byte1(at), Byte0(at);
      forall i | 0 <= i < |data| { command[4 + i] := data[i]; }
      ghost var head := [PAGE_PROGRAM, Byte2(at), Byte1(at), Byte0(at)];
      assert command[..|data| + 4] == head + data;
      WaitReady(buffer);
      assert command[..|data| + 4] == head + data;
      ghost var ready := flash;
      Write([WREN], 1);
      assert flash == ready.(latch := true);
      ghost var armed := flash;
      Write([RDSR, 0], 2);
      StatusAnswer(armed, flash, 2);
      Fetch(buffer, 2);
      ghost var before := flash;
      ghost var c := head + data;
      Write(command[..|data| + 4], |data| + 4);
      ProgramTakes(before, c, at, data, flash);
    }
  }

  lemma ProgramTakes(d: Device, c: seq<Byte>, at: nat, data: seq<Byte>, d': Device)
    requires d.Valid() && d.latch && !d.protect && d.busy == 0 && at < 0x1000000 && data != []
    requires c == [PAGE_PROGRAM, Byte2(at), Byte1(at), Byte0(at)] + data && d' == Clocked(d, c, |c|)
    ensures d' == d.(mem := Programmed(d.mem, d.pageSize, at, data), latch := false, busy := d.programTime)
  {
    AddressRoundTrip(at);
    assert c[4..] == data;
    assert Ticked(d) == d;
  }
}
