/**
  The SPI NOR flash behind the hub's pass-through: what each command does to the memory, the
  write-enable latch, the busy flag and the block protection. Programming only clears bits and
  stays within one page; erasing sets a whole block to 0xFF. Time passes in bus transfers.
 */
module NorFlash {
  import opened Bits

  const WREN: Byte := 0x06
  const RDSR: Byte := 0x05
  const WRSR: Byte := 0x01
  const ULBPR: Byte := 0x98
  const JEDEC_ID: Byte := 0x9f
  const BLOCK_ERASE: Byte := 0xD8
  const PAGE_PROGRAM: Byte := 0x02
  const FAST_READ: Byte := 0x0B
  const NOP: Byte := 0x00

  const SIZE_64KB: nat := 65536
  const MAX_FW_SIZE: nat := 131072

  /** What the bus reads while the flash does not drive it. */
  const IDLE: Byte := 0xFF

  datatype Device = Device(
    id: (Byte, Byte, Byte),
    pageSize: nat,
    eraseTime: nat,
    programTime: nat,
    mem: seq<Byte>,
    latch: bool,
    busy: nat,
    protect: bool,
    response: seq<Byte>,
    refused: nat)
  {
    predicate Valid() {
      && pageSize > 0 && |mem| >= MAX_FW_SIZE && |mem| % pageSize == 0
      && (response != [] ==> response[0] == IDLE)
    }

    /** The same flash, except for how busy it is and what it answered last. */
    predicate Alike(d: Device) {
      this.(busy := d.busy, response := d.response) == d
    }

    /** The SST26 family erases blocks of 8, 32 or 64 KB depending on the address. */
    predicate IsSst26() { id.0 == 0xBF && id.1 == 0x26 }

    predicate Present() { id != (0, 0, 0) }
  }

  // ---------------------------------------------------------------------------
  // Memory operations
  // ---------------------------------------------------------------------------

  /** The block that an erase command at this address clears: [low, high). */
  function Block(sst26: bool, address: nat): (int, int) {
    if sst26 && address < 0x8000 then (address / 0x2000 * 0x2000, address / 0x2000 * 0x2000 + 0x2000)
    else if sst26 && address < 0x10000 then (0x8000, 0x10000)
    else (address / 0x10000 * 0x10000, address / 0x10000 * 0x10000 + 0x10000)
  }

  function Erased(mem: seq<Byte>, block: (int, int)): (mem': seq<Byte>)
    ensures |mem'| == |mem|
    ensures forall x :: 0 <= x < |mem| ==> mem'[x] == if block.0 <= x < block.1 then 255 else mem[x]
  {
    seq(|mem|, x requires 0 <= x < |mem| => if block.0 <= x < block.1 then 255 else mem[x])
  }

  /** Position of address x in a transfer of data that starts at `at` and wraps around its page. */
  function Offset(pageSize: nat, at: nat, x: nat): int
    requires pageSize > 0
  {
    if x >= at then x - at else x - at + pageSize
  }

  function PageBase(pageSize: nat, at: nat): nat
    requires pageSize > 0
  {
    at - at % pageSize
  }

  predicate InPage(pageSize: nat, at: nat, x: nat)
    requires pageSize > 0
  {
    PageBase(pageSize, at) <= x < PageBase(pageSize, at) + pageSize
  }

  /** One page program: each byte is and-ed into its place in the page. */
  function Programmed(mem: seq<Byte>, pageSize: nat, at: nat, data: seq<Byte>): (mem': seq<Byte>)
    requires pageSize > 0
    ensures |mem'| == |mem|
    ensures forall x :: 0 <= x < |mem| ==>
      mem'[x] == if InPage(pageSize, at, x) && 0 <= Offset(pageSize, at, x) < |data|
                 then And(mem[x], data[Offset(pageSize, at, x)]) else mem[x]
  {
    seq(|mem|, x requires 0 <= x < |mem| =>
      if InPage(pageSize, at, x) && 0 <= Offset(pageSize, at, x) < |data|
      then And(mem[x], data[Offset(pageSize, at, x)]) else mem[x])
  }

  /** The 24-bit address of a command. */
  function Address(b1: Byte, b2: Byte, b3: Byte): nat {
    b1 * 65536 + b2 * 256 + b3
  }

  function Byte2(a: nat): Byte { a / 65536 % 256 }
  function Byte1(a: nat): Byte { a % 65536 / 256 }
  function Byte0(a: nat): Byte { a % 256 }

  lemma AddressRoundTrip(a: nat)
    requires a < 0x1000000
    ensures Address(Byte2(a), Byte1(a), Byte0(a)) == a
  {
  }

  /** `count` bytes from an address on, wrapping at the end of the memory. */
  function ReadOut(mem: seq<Byte>, at: nat, count: nat): (bytes: seq<Byte>)
    requires |mem| > 0
    ensures |bytes| == count
  {
    seq(count, i requires 0 <= i < count => mem[(at + i) % |mem|])
  }

  // ---------------------------------------------------------------------------
  // Commands
  // ---------------------------------------------------------------------------

  function Status(d: Device): Byte {
    (if d.busy > 0 then 1 else 0) + (if d.latch then 2 else 0) + (if d.protect then 28 else 0)
  }

  function Ticked(d: Device): Device {
    d.(busy := if d.busy > 0 then d.busy - 1 else 0)
  }

  /** An erase or program command that the flash cannot take. */
  predicate Refuses(d: Device) {
    !d.latch || d.protect
  }

  /** A command on an idle flash. */
  function Execute(d: Device, c: seq<Byte>, total: nat): Device
    requires d.Valid() && |c| > 0
  {
    if c[0] == JEDEC_ID then d.(response := [IDLE, d.id.0, d.id.1, d.id.2])
    else if c[0] == WREN then d.(latch := true)
    else if c[0] == WRSR && |c| == 2 && d.latch then
      d.(protect := And(c[1], 28) != 0, latch := false, busy := d.programTime)
    else if c[0] == ULBPR && d.IsSst26() && d.latch then d.(protect := false, latch := false)
    else if c[0] == BLOCK_ERASE && |c| == 4 then
      if Refuses(d) then d.(refused := d.refused + 1)
      else d.(mem := Erased(d.mem, Block(d.IsSst26(), Address(c[1], c[2], c[3]))),
              latch := false, busy := d.eraseTime)
    else if c[0] == PAGE_PROGRAM && |c| > 4 then
      if Refuses(d) then d.(refused := d.refused + 1)
      else d.(mem := Programmed(d.mem, d.pageSize, Address(c[1], c[2], c[3]), c[4..]),
              latch := false, busy := d.programTime)
    else if c[0] == FAST_READ && |c| == 5 && total >= 5 then
      d.(response := [IDLE, IDLE, IDLE, IDLE, IDLE] + ReadOut(d.mem, Address(c[1], c[2], c[3]), total - 5))
    else d
  }

  /** One pass-through write: `c` are the bytes that reach the flash out of `total` clocked. */
  function Clocked(d: Device, c: seq<Byte>, total: nat): (d': Device)
    requires d.Valid()
  {
    var t := Ticked(d);
    if c == [] then t
    else if c[0] == RDSR then t.(response := [IDLE, Status(t)])
    else if t.busy == 0 then Execute(t, c, total)
    else if c[0] == BLOCK_ERASE || c[0] == PAGE_PROGRAM then t.(response := [], refused := t.refused + 1)
    else t.(response := [])
  }

  lemma ClockedKeepsValid(d: Device, c: seq<Byte>, total: nat)
    requires d.Valid()
    ensures Clocked(d, c, total).Valid()
    ensures Clocked(d, c, total).id == d.id && Clocked(d, c, total).pageSize == d.pageSize
    ensures Clocked(d, c, total).eraseTime == d.eraseTime && Clocked(d, c, total).programTime == d.programTime
  {
  }

  /** A block erase or page program, by its bytes: taken exactly by an idle, latched and open flash, which then is busy
      and has its latch cleared; any other state counts a refusal and keeps the memory. */
  lemma TakenIff(d: Device, c: seq<Byte>, total: nat, d': Device, at: nat)
    requires d.Valid() && d' == Clocked(d, c, total) && |c| >= 4 && at == Address(c[1], c[2], c[3])
    requires (|c| == 4 && c[0] == 0xD8) || (|c| > 4 && c[0] == 0x02)
    ensures if d.busy <= 1 && d.latch && !d.protect then
        && d'.refused == d.refused && !d'.latch && d'.busy == (if |c| == 4 then d.eraseTime else d.programTime)
        && d'.mem == (if |c| == 4 then Erased(d.mem, Block(d.IsSst26(), at))
                      else Programmed(d.mem, d.pageSize, at, c[4..]))
      else d'.refused == d.refused + 1 && d'.mem == d.mem
  {
  }

  /** The other commands on an idle flash, by their bytes. */
  lemma OtherCommands(d: Device, c: seq<Byte>, total: nat, d': Device)
    requires d.Valid() && d.busy == 0 && c != [] && c[0] != 0xD8 && c[0] != 0x02 && d' == Clocked(d, c, total)
    ensures d'.latch <==> c[0] == 0x06 || (d.latch && (c[0] == 0x01 ==> |c| != 2) && (c[0] == 0x98 ==> !d.IsSst26()))
    ensures d'.protect <==>
      if c[0] == 0x01 && |c| == 2 && d.latch then And(c[1], 28) != 0
      else d.protect && (c[0] == 0x98 && d.latch ==> !d.IsSst26())
    ensures d'.busy == if c[0] == 0x01 && |c| == 2 && d.latch then d.programTime else 0
    ensures c[0] == 0x05 ==> |d'.response| == 2 && d'.response[1] % 2 == 0
    ensures c[0] == 0x9f ==> d'.response == [0xFF, d.id.0, d.id.1, d.id.2]
    ensures c[0] == 0x0B && |c| == 5 && total >= 5 ==>
      |d'.response| == total && forall i :: 5 <= i < total ==>
        d'.response[i] == d.mem[(Address(c[1], c[2], c[3]) + (i - 5)) % |d.mem|]
  {
  }

  /** The status of a busy flash has bit 0 set. */
  lemma BusyStatus(d: Device, total: nat)
    requires d.Valid()
    ensures Clocked(d, [0x05], total).response[1] % 2 == if d.busy > 1 then 1 else 0
  {
  }

  /** Only erase and program commands touch the memory. */
  lemma ClockedKeepsMemory(d: Device, c: seq<Byte>, total: nat)
    requires d.Valid() && (c != [] ==> c[0] != BLOCK_ERASE && c[0] != PAGE_PROGRAM)
    ensures Clocked(d, c, total).mem == d.mem && Clocked(d, c, total).refused == d.refused
  {
  }
}
