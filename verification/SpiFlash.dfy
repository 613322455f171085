/**
  The SPI flash programmer: erase, program page by page, read everything back, compare.
 */
module SpiFlash {
  import opened Arithmetic
  import opened Bits
  import opened FlashPages
  import opened NorFlash
  import opened Options
  import opened SpiCommands
  import opened SpiHub
  import opened SpiPages

  const ROM_A0: nat := 0x0108
  const SIZE_130KB: nat := 133120
  const MAX_READ_SIZE: nat := 0x205
  const SPI_READ_BUF_SIZE: nat := 0x400
  const WINDOW: nat := 0x8000

  datatype Error = Success | NoDevice | CompareFailed

  // ---------------------------------------------------------------------------
  // The page loop
  // ---------------------------------------------------------------------------

  /** How many rounds of the page loop program something. */
  function Rounds(l: Layout): nat {
    l.Pages() + if l.rest == 0 then 0 else 1
  }

  /** The memory after n rounds. */
  function AfterRounds(mem: seq<Byte>, pageSize: nat, start: nat, l: Layout, buf: seq<Byte>, n: nat): seq<Byte>
    requires pageSize > 0 && l.Valid() && n <= Rounds(l) && l.Padded() <= |buf|
  {
    l.PagesFit();
    if n <= l.Pages() then
      PageStartMono(l.page, n, l.Pages());
      FullPages(mem, pageSize, start, l.page, buf, n)
    else Stored(mem, pageSize, start, l, buf)
  }

  lemma AllRounds(mem: seq<Byte>, pageSize: nat, start: nat, l: Layout, buf: seq<Byte>)
    requires pageSize > 0 && l.Valid() && l.Padded() <= |buf|
    ensures Same(AfterRounds(mem, pageSize, start, l, buf, Rounds(l)), Stored(mem, pageSize, start, l, buf))
  {
    l.PagesFit();
  }

  /** The loop programs `w` bytes at offset j of the image in the round that starts at offset i. */
  predicate RoundAt(l: Layout, i: nat, j: nat, w: nat) {
    if i < l.Size() then j == i && w == l.page
    else 0 < i - l.Size() < l.page && w == i - l.Size() && j == i - l.page + w
  }

  /** Round n programs exactly when there is one left to do, and then a whole page or the tail. */
  lemma RoundsLeft(l: Layout, n: nat, i: nat)
    requires l.Valid() && i == PageStart(l.page, n) && n <= Rounds(l)
    ensures n < Rounds(l) <==> i < l.Size() || 0 < i - l.Size() < l.page
    ensures n < l.Pages() <==> i < l.Size()
    ensures n < l.Pages() ==> i + l.page <= l.Padded()
    ensures n == l.Pages() ==> i == if l.rest == 0 then l.body else l.body + l.page
  {
    l.PagesFit();
    if n < l.Pages() {
      PageStartMono(l.page, n, l.Pages());
    } else {
      PageStartMono(l.page, l.Pages(), n);
    }
  }

  lemma TransferFits(l: Layout, buf: seq<Byte>, n: nat, i: nat, j: nat, w: nat)
    requires l.Valid() && l.Padded() <= |buf|
    requires n < Rounds(l) && i == PageStart(l.page, n) && RoundAt(l, i, j, w)
    ensures 0 < w <= l.page && j + w <= l.Padded()
    ensures n >= l.Pages() ==> w == l.TailLength() && j == l.TailOffset()
  {
    RoundsLeft(l, n, i);
  }

  lemma FullRound(mem: seq<Byte>, pageSize: nat, start: nat, l: Layout, buf: seq<Byte>, n: nat, at: nat, now: seq<Byte>)
    requires pageSize > 0 && l.Valid() && l.Padded() <= |buf|
    requires n < l.Pages() && at == PageStart(l.page, n) && at + l.page <= |buf|
    requires Same(now, AfterRounds(mem, pageSize, start, l, buf, n))
    ensures Same(AfterRounds(mem, pageSize, start, l, buf, n + 1),
                 Programmed(now, pageSize, start + at, buf[at..at + l.page]))
  {
    assert PageStart(l.page, n + 1) == at + l.page;
  }

  lemma TailRound(mem: seq<Byte>, pageSize: nat, start: nat, l: Layout, buf: seq<Byte>, now: seq<Byte>, off: nat,
                  len: nat)
    requires pageSize > 0 && l.Valid() && l.Padded() <= |buf| && l.rest != 0
    requires off == l.TailOffset() && len == l.TailLength()
    requires Same(now, AfterRounds(mem, pageSize, start, l, buf, l.Pages()))
    ensures Same(AfterRounds(mem, pageSize, start, l, buf, l.Pages() + 1),
                 Programmed(now, pageSize, start + off, buf[off..off + len]))
  {
  }

  lemma Round(mem: seq<Byte>, pageSize: nat, start: nat, l: Layout, buf: seq<Byte>, n: nat, i: nat, j: nat, w: nat,
              now: seq<Byte>, next: seq<Byte>)
    requires pageSize > 0 && l.Valid() && l.Padded() <= |buf|
    requires n < Rounds(l) && i == PageStart(l.page, n) && RoundAt(l, i, j, w) && j + w <= |buf|
    requires Same(now, AfterRounds(mem, pageSize, start, l, buf, n))
    requires Same(next, Programmed(now, pageSize, start + j, buf[j..j + w]))
    ensures Same(next, AfterRounds(mem, pageSize, start, l, buf, n + 1))
  {
    TransferFits(l, buf, n, i, j, w);
    RoundsLeft(l, n, i);
    if n < l.Pages() {
      FullRound(mem, pageSize, start, l, buf, n, i, now);
    } else {
      TailRound(mem, pageSize, start, l, buf, now, j, w);
    }
  }

  /** The same unprotected part, and no command has been refused in between. */
  predicate Unlocked(d: Device, e: Device) {
    e.Valid() && SamePart(d, e) && !e.protect && e.refused == d.refused
  }

  /** Program `w` bytes of the image: round n of the page loop. */
  method Transfer(hub: Hub, buf: seq<Byte>, start: nat, j: nat, w: nat, command: array<Byte>, buffer: array<Byte>,
                  ghost mem: seq<Byte>, ghost l: Layout, ghost n: nat, ghost i: nat)
    requires hub.flash.Valid() && !hub.flash.protect
    requires buffer.Length == 1024 && command.Length == 260 && buffer != command
    requires l.Valid() && l.page <= 256 && start + l.Size() <= MAX_FW_SIZE && l.Padded() <= |buf| && start <= j
    requires n < Rounds(l) && i == PageStart(l.page, n) && RoundAt(l, i, j - start, w)
    requires Same(hub.flash.mem, AfterRounds(mem, hub.flash.pageSize, start, l, buf, n))
    modifies hub, command, buffer
    ensures Unlocked(old(hub.flash), hub.flash) && hub.flash.busy == hub.flash.programTime
    ensures Same(hub.flash.mem, AfterRounds(mem, hub.flash.pageSize, start, l, buf, n + 1))
  {
    ghost var now := hub.flash.mem;
    var offset := j - start;
    TransferFits(l, buf, n, i, offset, w);
    hub.ProgramPage(j, buf[offset..offset + w], command, buffer);
    assert start + offset == j;
    Round(mem, hub.flash.pageSize, start, l, buf, n, i, offset, w, now, hub.flash.mem);
  }

  /** What a round programs, if anything: a page of the image, or the tail once the loop has overshot. */
  method NextTransfer(start: nat, size: nat, page: nat, i: nat) returns (checkFlag: bool, j: int, wSize: nat)
    ensures checkFlag <==> i < size + start || 0 < i - (size + start) < page
    ensures checkFlag ==>
      if i < size + start then j == i && wSize == page
      else wSize == i - (size + start) && j == i - page + wSize
  {
    checkFlag, j, wSize := true, 0, 0;
    if i < size + start {
      j, wSize := i, page;
    } else {
      var over := i - (size + start);
      if over < page && over != 0 {
        wSize := over;
        j := (i - page) + over;
      } else {
        checkFlag := false;
      }
    }
  }

  /** The page loop of LoadBinary: pages of `page` bytes until the image is covered, then one tail
      step when the loop has overshot the end of the image. */
  method ProgramImage(hub: Hub, buf: seq<Byte>, start: nat, size: nat, page: nat, ghost l: Layout, buffer: array<Byte>)
    requires hub.flash.Valid() && !hub.flash.protect && buffer.Length == 1024
    requires 0 < page <= 256 && start + size <= MAX_FW_SIZE
    requires l.Valid() && l.Size() == size && l.page == page && l.Padded() <= |buf|
    modifies hub, buffer
    ensures Unlocked(old(hub.flash), hub.flash)
    ensures hub.flash.mem == Stored(old(hub.flash).mem, hub.flash.pageSize, start, l, buf)
    ensures size > 0 ==> hub.flash.busy == hub.flash.programTime
    ensures size == 0 ==> hub.flash == old(hub.flash)
  {
    ghost var d, mem, ps, rounds := hub.flash, hub.flash.mem, hub.flash.pageSize, Rounds(l);
    var command := new Byte[260];
    var checkFlag := true;
    var i := start;
    ghost var n: nat := 0;
    while checkFlag
      invariant Unlocked(d, hub.flash)
      invariant n <= rounds && Same(hub.flash.mem, AfterRounds(mem, ps, start, l, buf, n))
      invariant if checkFlag then i == start + PageStart(page, n) else n == rounds
      invariant if n == 0 then hub.flash == d else hub.flash.busy == hub.flash.programTime
      decreases rounds - n, checkFlag
    {
      assert n < rounds <==> i - start < size || 0 < i - start - size < page by { RoundsLeft(l, n, i - start); }
      var j, wSize;
      checkFlag, j, wSize := NextTransfer(start, size, page, i);
      if checkFlag {
        Transfer(hub, buf, start, j, wSize, command, buffer, mem, l, n, i - start);
        n := n + 1;
      }
      i := i + page;
    }
    AllRounds(mem, ps, start, l, buf);
  }

  // ---------------------------------------------------------------------------
  // Reading back
  // ---------------------------------------------------------------------------

  /** What is left of a busy time after n bus transfers. */
  function After(busy: nat, n: nat): nat {
    if busy > n then busy - n else 0
  }

  /** Image byte x as it is read 512 bytes at a time, without polling, from a flash that stays busy for
      another `lag` transfers: a transfer to a busy flash reads an idle bus. */
  function ReadBack(mem: seq<Byte>, lag: nat, start: nat, x: nat): Byte
    requires start + x < |mem|
  {
    if x / 512 + 1 < lag then IDLE else mem[start + x]
  }

  /** Reads through the pass-through, 512 bytes at a time behind a five-byte header. Four transfers
      go before the first of them. */
  method ReadIntRom(hub: Hub, out: array<Byte>, start: nat, end: nat, buffer: array<Byte>) returns (ok: bool)
    requires hub.flash.Valid() && buffer.Length == 1024 && out != buffer
    requires end <= MAX_FW_SIZE && out.Length == SIZE_130KB
    modifies hub, out, buffer
    ensures hub.flash.Valid() && SamePart(old(hub.flash), hub.flash)
    ensures hub.flash.mem == old(hub.flash).mem && hub.flash.refused == old(hub.flash).refused
    ensures ok ==> start <= end && forall x :: 0 <= x < end - start ==>
      out[x] == ReadBack(hub.flash.mem, After(old(hub.flash).busy, 4), start, x)
    ensures start <= end && hub.flash.Present() ==> ok
  {
    if end < start { return false; }
    ghost var mem, lag := hub.flash.mem, After(hub.flash.busy, 4);
    var chip := Identify(hub, buffer);
    if chip.Absent? { return false; }
    // the upload list: JEDEC ID, WREN, unprotect (with one byte clocked), then the page reads
    Quiet(hub, [JEDEC_ID], 4);
    hub.Fetch(buffer, 4);
    Quiet(hub, [WREN], 1);
    hub.Fetch(buffer, 1);
    Quiet(hub, if chip.Sst26? then [ULBPR] else [WRSR, 0x00], 1);
    var i, j := start, 0;
    ghost var n: nat := 0;
    while i < end
      invariant hub.flash.Valid() && SamePart(old(hub.flash), hub.flash) && hub.flash.busy == After(lag, n)
      invariant hub.flash.mem == mem && hub.flash.refused == old(hub.flash).refused
      invariant i == start + j && j == 512 * n && j < end - start + 512
      invariant forall x :: 0 <= x < j && x < end - start ==> out[x] == ReadBack(mem, lag, start, x)
    {
      ReadChunk(hub, i, out, j, buffer);
      ChunkDelivers(mem, lag, start, n);
      i, j, n := i + 512, j + 512, n + 1;
    }
    ok := true;
  }

  lemma ChunkDelivers(mem: seq<Byte>, lag: nat, start: nat, n: nat)
    ensures forall x :: 512 * n <= x < 512 * n + 512 && start + x < |mem| ==>
      ReadBack(mem, lag, start, x) == if After(lag, n + 1) == 0 then mem[start + x] else IDLE
  {
  }

  /** One round of the read loop. */
  method ReadChunk(hub: Hub, i: nat, out: array<Byte>, j: nat, buffer: array<Byte>)
    requires hub.flash.Valid() && buffer.Length == 1024 && out != buffer
    requires i < MAX_FW_SIZE && j + 512 <= out.Length
    modifies hub, out, buffer
    ensures old(hub.flash).Alike(hub.flash) && hub.flash.Valid() && hub.flash.busy == After(old(hub.flash).busy, 1)
    ensures forall x :: 0 <= x < j ==> out[x] == old(out[x])
    ensures forall x :: j <= x < j + 512 && i + (x - j) < |hub.flash.mem| ==>
      out[x] == if hub.flash.busy == 0 then hub.flash.mem[i + (x - j)] else IDLE
  {
    ghost var before := hub.flash;
    hub.Write([FAST_READ, Byte2(i), Byte1(i), Byte0(i), 0x00], MAX_READ_SIZE);
    ReadTakes(before, i, MAX_READ_SIZE, hub.flash);
    hub.Fetch(buffer, MAX_READ_SIZE);
    forall k | 0 <= k < 512 { out[j + k] := buffer[5 + k]; }
    forall x | j <= x < j + 512 && i + (x - j) < |hub.flash.mem|
      ensures out[x] == if hub.flash.busy == 0 then hub.flash.mem[i + (x - j)] else IDLE
    {
      if hub.flash.busy == 0 { AnswerAt(hub.flash.mem, i, MAX_READ_SIZE, hub.flash.response, x - j); }
      assert out[x] == buffer[5 + (x - j)];
    }
  }

  /** The answer to a read at `at`: five junk bytes, then the memory. */
  function Answer(mem: seq<Byte>, at: nat, total: nat): seq<Byte>
    requires |mem| > 0 && total >= 5
  {
    [IDLE, IDLE, IDLE, IDLE, IDLE] + ReadOut(mem, at, total - 5)
  }

  lemma AnswerAt(mem: seq<Byte>, at: nat, total: nat, response: seq<Byte>, k: nat)
    requires total >= 5 && k < total - 5 && at + k < |mem| && response == Answer(mem, at, total)
    ensures Received(response, total)[5 + k] == mem[at + k]
  {
    DivUnique(at + k, |mem|, 0, at + k);
    assert response[5 + k] == ReadOut(mem, at, total - 5)[k];
  }

  lemma ReadTakes(d: Device, at: nat, total: nat, d': Device)
    requires d.Valid() && at < MAX_FW_SIZE && total >= 5
    requires d' == Clocked(d, [FAST_READ, Byte2(at), Byte1(at), Byte0(at), 0], total)
    ensures d' == d.(busy := After(d.busy, 1), response := if d.busy <= 1 then Answer(d.mem, at, total) else [])
  {
    AddressRoundTrip(at);
    assert Ticked(d).busy == After(d.busy, 1);
  }

  datatype Chip = Absent | Sst26 | Other

  /** SPI_GetManufactureID, reduced to what its callers distinguish. */
  method Identify(hub: Hub, buffer: array<Byte>) returns (chip: Chip)
    requires hub.flash.Valid() && buffer.Length == 1024
    modifies hub, buffer
    ensures hub.flash.Valid() && SamePart(old(hub.flash), hub.flash)
    ensures hub.flash.mem == old(hub.flash).mem && hub.flash.refused == old(hub.flash).refused
    ensures hub.flash.latch == old(hub.flash).latch && hub.flash.protect == old(hub.flash).protect
    ensures hub.flash.busy == (if old(hub.flash).busy > 0 then old(hub.flash).busy - 1 else 0)
    ensures hub.flash.Present() ==> chip != Absent
    ensures hub.flash.busy == 0 ==>
      chip == if !hub.flash.Present() then Absent else if hub.flash.IsSst26() then Sst26 else Other
    ensures hub.flash.busy == 0 ==> (chip == Absent <==> hub.flash.id == (0, 0, 0))
    ensures hub.flash.busy == 0 ==> (chip == Sst26 <==> hub.flash.id.0 == 0xBF && hub.flash.id.1 == 0x26)
  {
    hub.Write([JEDEC_ID], 4);
    hub.Fetch(buffer, 4);
    chip := if buffer[1] == 0 && buffer[2] == 0 && buffer[3] == 0 then Absent
            else if buffer[1] == 0xBF && buffer[2] == 0x26 then Sst26 else Other;
  }

  /** A command that leaves the memory alone. */
  method Quiet(hub: Hub, bytes: seq<Byte>, total: nat)
    requires hub.flash.Valid() && 1 <= total
    requires bytes in {[JEDEC_ID], [WREN], [ULBPR]} || (bytes == [WRSR, 0x00] && total == 1)
    modifies hub
    ensures hub.flash.Valid() && SamePart(old(hub.flash), hub.flash)
    ensures hub.flash.mem == old(hub.flash).mem && hub.flash.refused == old(hub.flash).refused
    ensures hub.flash.busy == (if old(hub.flash).busy > 0 then old(hub.flash).busy - 1 else 0)
  {
    ClockedKeepsMemory(hub.flash, Cut(bytes, total), total);
    hub.Write(bytes, total);
  }

  // ----- through the hub's code window

  /** The 32 KB window of the flash that is mapped for a read at address i. */
  function WindowBase(i: nat): nat {
    if i >= 0x8000 then
      if i >= 0x10000 then (if i >= 0x18000 then 0x18000 else 0x10000) else 0x8000
    else 0
  }

  /** Byte k of a 1 KB fetch at address i. Past the end of the window the hub sees other memory. */
  function Mapped(mem: seq<Byte>, stray: nat -> Byte, i: nat, k: nat): Byte
    requires WindowBase(i) + WINDOW <= |mem|
  {
    if i - WindowBase(i) + k < WINDOW then mem[i + k] else stray(i + k)
  }

  /** Image byte x is fetched from inside the window mapped for its 1 KB chunk. */
  predicate InWindow(start: nat, x: nat) {
    var i := start + (x - x % SPI_READ_BUF_SIZE);
    i - WindowBase(i) + x % SPI_READ_BUF_SIZE < WINDOW
  }

  /** Reads 1 KB at a time through a mapped window. */
  method ReadSpiRom(mem: seq<Byte>, stray: nat -> Byte, out: array<Byte>, start: nat, end: nat) returns (ok: bool)
    requires |mem| >= MAX_FW_SIZE && end <= MAX_FW_SIZE && out.Length == SIZE_130KB
    modifies out
    ensures ok <==> start <= end
    ensures ok ==> forall x :: 0 <= x < end - start ==>
      out[x] == if InWindow(start, x) then mem[start + x] else stray(start + x)
  {
    if end < start { return false; }
    var i, j := start, 0;
    while i < end
      invariant i == start + j && j % SPI_READ_BUF_SIZE == 0 && j < end - start + SPI_READ_BUF_SIZE
      invariant forall x :: 0 <= x < j && x < end - start ==>
        out[x] == if InWindow(start, x) then mem[start + x] else stray(start + x)
    {
      forall k | 0 <= k < SPI_READ_BUF_SIZE { out[j + k] := Mapped(mem, stray, i, k); }
      ChunkOf(start, j);
      i, j := i + SPI_READ_BUF_SIZE, j + SPI_READ_BUF_SIZE;
    }
    ok := true;
  }

  lemma ChunkOf(start: nat, j: nat)
    requires j % SPI_READ_BUF_SIZE == 0
    ensures forall x :: j <= x < j + SPI_READ_BUF_SIZE ==>
      x - x % SPI_READ_BUF_SIZE == j && (InWindow(start, x) <==> start + j - WindowBase(start + j) + (x - j) < WINDOW)
  {
  }

  /** A byte is read correctly through the window exactly when it lies in the same 32 KB window
      as the start of its chunk. */
  lemma InWindowIff(start: nat, x: nat)
    requires start + x < MAX_FW_SIZE
    ensures InWindow(start, x) <==> (start + x) / 0x8000 == (start + (x - x % 1024)) / 0x8000
  {
    WindowOf(start + x);
    WindowOf(start + (x - x % SPI_READ_BUF_SIZE));
  }

  /** There is a window for each 32 KB of the 128 KB. */
  lemma WindowOf(i: nat)
    requires i < MAX_FW_SIZE
    ensures WindowBase(i) == 0x8000 * (i / 0x8000) && WindowBase(i) <= i < WindowBase(i) + 0x8000
  {
  }

  /** From a 1 KB-aligned start that is always so. */
  lemma AlignedInWindow(start: nat, x: nat)
    requires start % SPI_READ_BUF_SIZE == 0 && start + x < MAX_FW_SIZE
    ensures InWindow(start, x)
  {
    var i := start + (x - x % SPI_READ_BUF_SIZE);
    assert i % SPI_READ_BUF_SIZE == 0;
  }

  /** A whole image is read through the window exactly from a 1 KB-aligned start, or when it lies in a
      single window. */
  predicate WindowFits(start: nat, size: nat) {
    size == 0 || start % 1024 == 0 || start / 0x8000 == (start + size - 1) / 0x8000
  }

  lemma WholeImageInWindowIff(start: nat, size: nat)
    requires start + size <= MAX_FW_SIZE
    ensures (forall x :: 0 <= x < size ==> InWindow(start, x)) <==> WindowFits(start, size)
  {
    if WindowFits(start, size) {
      forall x | 0 <= x < size ensures InWindow(start, x) {
        if start % SPI_READ_BUF_SIZE == 0 { AlignedInWindow(start, x); } else { OneWindow(start, size, x); }
      }
    } else {
      var x := FirstOutside(start, size);
    }
  }

  lemma OneWindow(start: nat, size: nat, x: nat)
    requires x < size && start + size <= MAX_FW_SIZE && start / 0x8000 == (start + size - 1) / 0x8000
    ensures InWindow(start, x)
  {
    InWindowIff(start, x);
  }

  /** Otherwise the first byte beyond the window of the start is read from elsewhere. */
  lemma FirstOutside(start: nat, size: nat) returns (x: nat)
    requires start + size <= MAX_FW_SIZE && !WindowFits(start, size)
    ensures x < size && !InWindow(start, x)
  {
    WindowOf(start);
    WindowOf(start + size - 1);
    var boundary := WindowBase(start) + WINDOW;
    x := boundary - start;
    InWindowIff(start, x);
  }

  /** From address 0x100, 32 KB: the byte at 0x8000 is not read from the flash. */
  lemma UnalignedStart(mem: seq<Byte>, stray: nat -> Byte, lag: nat)
    requires |mem| >= MAX_FW_SIZE
    ensures !WindowFits(0x100, 0x8000)
    ensures 0x100 + 0x7F00 == 0x8000 && Delivered(mem, Window(stray), lag, 0x100, 0x7F00) == stray(0x8000)
  {
  }

  // ---------------------------------------------------------------------------
  // LoadBinary
  // ---------------------------------------------------------------------------

  predicate Shape(e: Entry) {
    && (e.Send? ==>
          var c := Cut(e.bytes, e.total);
          c != [] && (c[0] == RDSR ==> e.bytes == [RDSR, 0] && 2 <= e.total <= 3))
    && (e.Receive? ==> 1 <= e.total <= 1024)
  }

  lemma ListShape(sst26: bool, choice: seq<seq<Byte>>, l: seq<Entry>)
    requires l == CommandList(sst26, choice) && forall s :: 0 <= s < |choice| ==> EraseOrNop(choice[s])
    ensures forall m :: 0 <= m < |l| ==> Shape(l[m])
  {
    var unlock := if sst26 then Send([ULBPR], 1) else Send([WRSR, 0x00], 2);
    var opening, segments, closing := Opening(unlock), Segments(choice), Closing();
    assert forall m :: 0 <= m < |opening| ==> Shape(opening[m]);
    assert forall m :: 0 <= m < |closing| ==> Shape(closing[m]);
    forall m | 0 <= m < |segments| ensures Shape(segments[m]) {
      var e := choice[m / 6];
      assert EraseOrNop(e);
      var segment := EraseSegment(e);
      assert forall i :: 0 <= i < |segment| ==> Shape(segment[i]);
    }
  }

  /** An entry that polls or fetches. */
  predicate Polls(e: Entry) {
    e.Receive? || (e.Send? && Cut(e.bytes, e.total) != [] && Cut(e.bytes, e.total)[0] == RDSR)
  }

  /** All that matters about a command list: the walk reaches the page-program entry p, with the
      memory erased, the latch set and the flash idle; only polling follows. */
  ghost predicate Listing(sst26: bool, l: seq<Entry>, p: nat, mem: seq<Byte>, erased: seq<Byte>) {
    && p < |l| && WalksTo(sst26, l, p)
    && WalkTo(sst26, l, p) == Some(Known(true, true, true)) && EffectTo(sst26, mem, l, p) == erased
    && (forall m :: 0 <= m < |l| && m != p ==> l[m] != Program && Shape(l[m]))
    && (forall m :: p < m < |l| ==> Polls(l[m]))
  }

  lemma OnlyPolling(sst26: bool, choice: seq<seq<Byte>>, l: seq<Entry>, p: nat)
    requires |choice| == |BlockStarts(sst26)| && l == CommandList(sst26, choice) && p == ProgramIndex(sst26)
    ensures |l| == p + 3 && forall m :: p < m < |l| ==> Polls(l[m])
  {
    ClosingAt(sst26, choice, 6);
    ClosingAt(sst26, choice, 7);
  }

  lemma IsListing(sst26: bool, choice: seq<seq<Byte>>, l: seq<Entry>, p: nat, mem: seq<Byte>, erased: seq<Byte>)
    requires |choice| == |BlockStarts(sst26)| && l == CommandList(sst26, choice) && p == ProgramIndex(sst26)
    requires forall s :: 0 <= s < |choice| ==> EraseOrNop(choice[s])
    requires erased == EraseMany(sst26, mem, choice, |choice|)
    ensures Listing(sst26, l, p, mem, erased)
  {
    assert p == SegmentStart(|choice|) + 5;
    ListWalks(sst26, choice, l, SegmentStart(|choice|), mem);
    assert |l| == p + 3 && forall m :: p < m < |l| ==> Polls(l[m]) by { OnlyPolling(sst26, choice, l, p); }
    assert WalksTo(sst26, l, p) by { WalkIsPrefixClosed(sst26, l, p); }
    assert forall m :: 0 <= m < |l| ==> Shape(l[m]) by { ListShape(sst26, choice, l); }
    assert forall m :: 0 <= m < |l| ==> (l[m] == Program <==> m == p) by { ProgramIndexIsRight(sst26, choice); }
  }

  lemma BeforeProgram(sst26: bool, l: seq<Entry>, p: nat, mem: seq<Byte>, erased: seq<Byte>, m: nat)
      returns (k: Known, k': Known)
    requires Listing(sst26, l, p, mem, erased) && m < p
    ensures WalkTo(sst26, l, m) == Some(k) && WalkTo(sst26, l, m + 1) == Some(k')
    ensures StepKnown(sst26, k, l[m]) == Some(k')
    ensures EffectTo(sst26, mem, l, m + 1) == Effect(sst26, EffectTo(sst26, mem, l, m), l[m])
  {
    k, k' := WalkTo(sst26, l, m).value, WalkTo(sst26, l, m + 1).value;
  }

  lemma AfterProgram(sst26: bool, e: Entry, mem: seq<Byte>) returns (k: Known, k': Known)
    requires Polls(e)
    ensures k == Known(false, false, false) && StepKnown(sst26, k, e) == Some(k') && Effect(sst26, mem, e) == mem
  {
    k := Known(false, false, false);
    k' := if e.Receive? then k else Known(false, true, false);
  }

  /** The memory after erase and page loop. */
  function Loaded(d: Device, choice: seq<seq<Byte>>, buf: seq<Byte>, start: nat, image: Layout): seq<Byte>
    requires d.Valid() && image.Valid() && image.Padded() <= |buf|
  {
    Stored(EraseMany(d.IsSst26(), d.mem, choice, |choice|), d.pageSize, start, image, buf)
  }

  /** The size of a page program: 128 bytes for revision 0x0108 of the hub's firmware, 256 for every other one. */
  function PageOf(revision: nat): (page: nat)
    ensures page in {128, 256} && (page == 128 <==> revision == 0x0108)
  {
    if revision == ROM_A0 then 128 else 256
  }

  /** A half that the request neither reaches nor erases. From an aligned start the tail step never begins in the
      high half if the image does not reach it (`SpiPages.TailBeginsBelow`). */
  predicate IsSpared(start: nat, size: nat, erasePgmArea: bool, image: Layout, x: nat)
    requires image.Valid()
  {
    if start > 0xFFFF then x < 0x10000
    else
      x >= 0x10000 && start + size <= 0x10000 && !erasePgmArea
      && (image.rest == 0 || start + image.TailOffset() < 0x10000)
  }

  /** From an aligned start the spared addresses are exactly those that are not erased. */
  lemma SparedIff(pageSize: nat, start: nat, size: nat, erasePgmArea: bool, image: Layout, x: nat)
    requires image.Valid() && image.Size() == size && Aligned(pageSize, start, image.page) && SIZE_64KB % pageSize == 0
    ensures IsSpared(start, size, erasePgmArea, image, x) <==> !IsErased(start, size, erasePgmArea, x)
  {
    if start + size <= SIZE_64KB { TailBeginsBelow(pageSize, start, image, SIZE_64KB); }
  }

  /** A spared half keeps its content. */
  lemma SparedIsKept(d: Device, buf: seq<Byte>, start: nat, size: nat, erasePgmArea: bool, image: Layout, x: nat)
    requires d.Valid() && image.Valid() && image.Size() == size && image.Padded() <= |buf|
    requires start + size <= MAX_FW_SIZE && x < MAX_FW_SIZE && IsSpared(start, size, erasePgmArea, image, x)
    requires SIZE_64KB % d.pageSize == 0 && d.pageSize % image.page == 0
    ensures Loaded(d, EraseChoice(d.IsSst26(), start, size, erasePgmArea), buf, start, image)[x] == d.mem[x]
  {
    var choice := EraseChoice(d.IsSst26(), start, size, erasePgmArea);
    var erased := EraseMany(d.IsSst26(), d.mem, choice, |choice|);
    EraseInAddresses(d.IsSst26(), d.mem, start, size, erasePgmArea, x);
    if start > 0xFFFF {
      BelowIsKept(erased, d.pageSize, start, image, buf, SIZE_64KB, x);
    } else {
      AboveIsKept(erased, d.pageSize, start, image, buf, SIZE_64KB, x);
    }
  }

  lemma SparedStays(d: Device, buf: seq<Byte>, start: nat, size: nat, erasePgmArea: bool, image: Layout, mem: seq<Byte>)
    requires d.Valid() && image.Valid() && image.Size() == size && image.Padded() <= |buf|
    requires start + size <= MAX_FW_SIZE
    requires Same(mem, Loaded(d, EraseChoice(d.IsSst26(), start, size, erasePgmArea), buf, start, image))
    ensures |mem| == |d.mem|
    ensures SIZE_64KB % d.pageSize == 0 && d.pageSize % image.page == 0 ==>
      forall x :: 0 <= x < MAX_FW_SIZE && IsSpared(start, size, erasePgmArea, image, x) ==> mem[x] == d.mem[x]
  {
    if SIZE_64KB % d.pageSize == 0 && d.pageSize % image.page == 0 {
      forall x | 0 <= x < MAX_FW_SIZE && IsSpared(start, size, erasePgmArea, image, x) ensures mem[x] == d.mem[x] {
        SparedIsKept(d, buf, start, size, erasePgmArea, image, x);
      }
    }
  }

  method LoadBinary(hub: Hub, source: Source, erasePgmArea: bool, buf: seq<Byte>, start: nat, size: nat, revision: nat)
      returns (error: Error)
    requires hub.flash.Valid() && hub.flash.busy == 0
    requires start + size <= MAX_FW_SIZE && LayoutOf(size, PageOf(revision)).Padded() <= |buf|
    modifies hub
    ensures hub.flash.Valid() && SamePart(old(hub.flash), hub.flash)
    ensures hub.flash.refused == old(hub.flash).refused
    ensures error == NoDevice <==> !old(hub.flash).Present()
    ensures error == NoDevice ==> hub.flash.mem == old(hub.flash).mem
    ensures error != NoDevice ==>
      && hub.flash.mem == Loaded(old(hub.flash), EraseChoice(hub.flash.IsSst26(), start, size, erasePgmArea),
                                 buf, start, LayoutOf(size, PageOf(revision)))
      && (error == Success <==> Compares(hub.flash.mem, source, Lag(hub.flash), start, size, buf))
    ensures SIZE_64KB % hub.flash.pageSize == 0 && hub.flash.pageSize % PageOf(revision) == 0 ==>
      forall x :: 0 <= x < MAX_FW_SIZE && IsSpared(start, size, erasePgmArea, LayoutOf(size, PageOf(revision)), x) ==>
        hub.flash.mem[x] == old(hub.flash).mem[x]
  {
    ghost var d, image := hub.flash, LayoutOf(size, PageOf(revision));
    var buffer := new Byte[1024];
    error := Success;
    var chip := Identify(hub, buffer);
    if chip.Absent? { return NoDevice; }
    var sst26 := chip.Sst26?;
    var choice := EraseChoice(sst26, start, size, erasePgmArea);
    var l := CommandList(sst26, choice);
    ghost var erased := EraseMany(sst26, d.mem, choice, |choice|);
    ChoiceIsEraseOrNop(sst26, start, size, erasePgmArea);
    IsListing(sst26, choice, l, ProgramIndex(sst26), d.mem, erased);
    error := RunList(hub, source, d, l, ProgramIndex(sst26), buf, start, size, PageOf(revision), image, erased, buffer);
    SparedStays(d, buf, start, size, erasePgmArea, image, hub.flash.mem);
  }

  /** How far the run has come before entry m. */
  ghost predicate Reached(d: Device, flash: Device, l: seq<Entry>, p: nat, m: nat, goal: seq<Byte>) {
    && m <= |l| && flash.Valid() && SamePart(d, flash) && flash.refused == d.refused
    && (if m > p then flash.mem == goal
        else
          && WalkTo(d.IsSst26(), l, m).Some? && Knows(flash, WalkTo(d.IsSst26(), l, m).value)
          && flash.mem == EffectTo(d.IsSst26(), d.mem, l, m))
  }

  /** An entry other than the page-program slot. */
  method RunOther(hub: Hub, ghost d: Device, l: seq<Entry>, ghost p: nat, m: nat, ghost erased: seq<Byte>,
                  ghost goal: seq<Byte>, buffer: array<Byte>)
    requires d.Valid() && m < |l| && m != p && buffer.Length == 1024
    requires Listing(d.IsSst26(), l, p, d.mem, erased) && Reached(d, hub.flash, l, p, m, goal)
    modifies hub, buffer
    ensures Reached(d, hub.flash, l, p, m + 1, goal)
  {
    ghost var k, k';
    if m < p {
      k, k' := BeforeProgram(d.IsSst26(), l, p, d.mem, erased, m);
    } else {
      k, k' := AfterProgram(d.IsSst26(), l[m], hub.flash.mem);
    }
    hub.RunEntry(l[m], buffer, k, k');
  }

  /** The interpreter loop over a command list whose page-program entry is number p. */
  method RunList(hub: Hub, source: Source, ghost d: Device, l: seq<Entry>, p: nat, buf: seq<Byte>,
                 start: nat, size: nat, page: nat, ghost image: Layout, ghost erased: seq<Byte>, buffer: array<Byte>)
      returns (error: Error)
    requires d.Valid() && hub.flash.Valid() && d.Alike(hub.flash) && hub.flash.busy == 0
    requires d.Present() && buffer.Length == 1024 && Listing(d.IsSst26(), l, p, d.mem, erased)
    requires 0 < page <= 256 && start + size <= MAX_FW_SIZE
    requires image.Valid() && image.Size() == size && image.page == page && image.Padded() <= |buf|
    modifies hub, buffer
    ensures hub.flash.Valid() && SamePart(d, hub.flash) && hub.flash.refused == d.refused
    ensures hub.flash.mem == Stored(erased, d.pageSize, start, image, buf)
    ensures error != NoDevice
    ensures error == Success <==> Compares(hub.flash.mem, source, Lag(d), start, size, buf)
  {
    ghost var sst26, goal := d.IsSst26(), Stored(erased, d.pageSize, start, image, buf);
    error := Success;
    var m := 0;
    while m < |l|
      invariant m <= |l| && Reached(d, hub.flash, l, p, m, goal)
      invariant m > p ==> error != NoDevice && (error == Success <==> Compares(goal, source, Lag(d), start, size, buf))
    {
      if m != p {
        RunOther(hub, d, l, p, m, erased, goal, buffer);
      } else {
        ProgramImage(hub, buf, start, size, page, image, buffer);
        error := Verify(hub, source, buf, start, size, buffer);
      }
      m := m + 1;
    }
  }

  /** How the hub delivers image byte x: through the pass-through, or through the code window. */
  datatype Source = PassThrough | Window(stray: nat -> Byte)

  function Delivered(mem: seq<Byte>, source: Source, lag: nat, start: nat, x: nat): Byte
    requires start + x < |mem|
  {
    match source
    case PassThrough => ReadBack(mem, lag, start, x)
    case Window(stray) => if InWindow(start, x) then mem[start + x] else stray(start + x)
  }

  /** The bytes delivered for an image are those of the buffer. */
  ghost predicate Compares(mem: seq<Byte>, source: Source, lag: nat, start: nat, size: nat, buf: seq<Byte>) {
    && start + size <= |mem| && size <= |buf|
    && forall x :: 0 <= x < size ==> Delivered(mem, source, lag, start, x) == buf[x]
  }

  /** How long the flash stays busy with the last page once the page reads begin. */
  function Lag(d: Device): nat { After(d.programTime, 4) }

  /** AthensReadSPIFlash */
  method ReadFlash(hub: Hub, source: Source, out: array<Byte>, start: nat, end: nat, buffer: array<Byte>)
      returns (ok: bool)
    requires hub.flash.Valid() && buffer.Length == 1024 && out != buffer
    requires end <= MAX_FW_SIZE && out.Length == SIZE_130KB
    modifies hub, out, buffer
    ensures hub.flash.Valid() && SamePart(old(hub.flash), hub.flash)
    ensures hub.flash.mem == old(hub.flash).mem && hub.flash.refused == old(hub.flash).refused
    ensures ok ==> start <= end && forall x :: 0 <= x < end - start ==>
      out[x] == Delivered(hub.flash.mem, source, After(old(hub.flash).busy, 4), start, x)
    ensures start <= end && hub.flash.Present() ==> ok
  {
    match source {
      case Window(stray) => ok := ReadSpiRom(hub.flash.mem, stray, out, start, end);
      case PassThrough =>
        ok := ReadIntRom(hub, out, start, end, buffer);
    }
  }

  /** Read the image back into a fresh array and compare. */
  method Verify(hub: Hub, source: Source, buf: seq<Byte>, start: nat, size: nat, buffer: array<Byte>)
      returns (error: Error)
    requires hub.flash.Valid() && hub.flash.Present() && buffer.Length == 1024
    requires start + size <= MAX_FW_SIZE && size <= |buf|
    modifies hub, buffer
    ensures hub.flash.Valid() && SamePart(old(hub.flash), hub.flash)
    ensures hub.flash.mem == old(hub.flash).mem && hub.flash.refused == old(hub.flash).refused
    ensures error != NoDevice
    ensures error == Success <==> Compares(hub.flash.mem, source, After(old(hub.flash).busy, 4), start, size, buf)
  {
    var readBack := new Byte[SIZE_130KB](_ => 0xCC);
    var ok := ReadFlash(hub, source, readBack, start, start + size, buffer);
    if ok && readBack[..size] == buf[..size] { error := Success; } else { error := CompareFailed; }
    EqualBytes(readBack[..size], buf[..size]);
    assert forall x | 0 <= x < size :: readBack[..size][x] == readBack[x] && buf[..size][x] == buf[x];
  }

  lemma EqualBytes(s: seq<Byte>, t: seq<Byte>)
    requires |s| == |t|
    ensures s == t <==> forall x :: 0 <= x < |s| ==> s[x] == t[x]
  {
  }

  /** Every image byte is delivered from the flash: through the pass-through, from a part that programs
      a page within five transfers; through the code window, when the image fits it. */
  predicate Trusted(source: Source, programTime: nat, start: nat, size: nat) {
    match source
    case PassThrough => size == 0 || programTime <= 5
    case Window(_) => WindowFits(start, size)
  }

  /** Then the comparison is about the flash and nothing else. */
  lemma CompareIsHolds(mem: seq<Byte>, source: Source, programTime: nat, start: nat, size: nat, buf: seq<Byte>)
    requires start + size <= MAX_FW_SIZE <= |mem| && size <= |buf| && Trusted(source, programTime, start, size)
    ensures Compares(mem, source, After(programTime, 4), start, size, buf) <==> Holds(mem, start, size, buf)
  {
    var lag := After(programTime, 4);
    WholeImageInWindowIff(start, size);
    assert forall x :: 0 <= x < size ==> Delivered(mem, source, lag, start, x) == mem[start + x];
    if Compares(mem, source, lag, start, size, buf) {
      forall x | start <= x < start + size ensures mem[x] == buf[x - start] {
        assert Delivered(mem, source, lag, start, x - start) == buf[x - start];
      }
    }
    if Holds(mem, start, size, buf) {
      forall x | 0 <= x < size ensures Delivered(mem, source, lag, start, x) == buf[x] {
        assert mem[start + x] == buf[start + x - start];
      }
    }
  }

  /** Otherwise some byte is delivered with a value that the flash has no part in. */
  lemma Detached(source: Source, programTime: nat, start: nat, size: nat) returns (x: nat, delivered: Byte)
    requires start + size <= MAX_FW_SIZE && !Trusted(source, programTime, start, size)
    ensures x < size && (source.PassThrough? ==> x == 0 && delivered == IDLE)
    ensures forall mem: seq<Byte> :: |mem| >= MAX_FW_SIZE ==>
      Delivered(mem, source, After(programTime, 4), start, x) == delivered
  {
    match source {
      case PassThrough => x, delivered := 0, IDLE;
      case Window(stray) =>
        x := FirstOutside(start, size);
        delivered := stray(start + x);
    }
  }

  // ---------------------------------------------------------------------------
  // End to end
  // ---------------------------------------------------------------------------

  /** For every earlier content of the flash and every start address: the image is stored exactly when all
      the right bytes land, which needs only addresses, sizes and the buffer. */
  lemma LoadedIff(d: Device, erasePgmArea: bool, buf: seq<Byte>, start: nat, size: nat, page: nat)
    requires d.Valid() && page > 0 && d.pageSize % page == 0
    requires start + size <= MAX_FW_SIZE && LayoutOf(size, page).Padded() <= |buf|
    ensures var choice := EraseChoice(d.IsSst26(), start, size, erasePgmArea);
      Holds(Loaded(d, choice, buf, start, LayoutOf(size, page)), start, size, buf) <==>
      AllLand(d.pageSize, start, LayoutOf(size, page), buf)
  {
    var choice := EraseChoice(d.IsSst26(), start, size, erasePgmArea);
    var erased := EraseMany(d.IsSst26(), d.mem, choice, |choice|);
    forall x | start <= x < start + size ensures erased[x] == 255 {
      ChoiceCovers(d.IsSst26(), d.mem, start, size, erasePgmArea, x);
    }
    StoredIff(erased, d.pageSize, start, LayoutOf(size, page), buf);
  }

  /** So LoadBinary reports success exactly then, whatever was in the flash before, if its read-back can
      be trusted. */
  lemma SuccessIff(d: Device, source: Source, erasePgmArea: bool, buf: seq<Byte>, start: nat, size: nat, page: nat)
    requires d.Valid() && page > 0 && d.pageSize % page == 0
    requires start + size <= MAX_FW_SIZE && LayoutOf(size, page).Padded() <= |buf|
    requires Trusted(source, d.programTime, start, size)
    ensures var choice := EraseChoice(d.IsSst26(), start, size, erasePgmArea);
      Compares(Loaded(d, choice, buf, start, LayoutOf(size, page)), source, Lag(d), start, size, buf) <==>
      AllLand(d.pageSize, start, LayoutOf(size, page), buf)
  {
    LoadedIff(d, erasePgmArea, buf, start, size, page);
    var choice := EraseChoice(d.IsSst26(), start, size, erasePgmArea);
    CompareIsHolds(Loaded(d, choice, buf, start, LayoutOf(size, page)), source, d.programTime, start, size, buf);
  }

  function Constant(length: nat, b: Byte): (buf: seq<Byte>)
    ensures |buf| == length
  {
    seq(length, _ => b)
  }

  /** For every content of the flash and every buffer the comparison tells whether they are equal, exactly when
      the read-back can be trusted. */
  lemma ReadBackIff(source: Source, programTime: nat, start: nat, size: nat)
    requires start + size <= MAX_FW_SIZE
    ensures (forall mem: seq<Byte>, buf: seq<Byte> :: |mem| == MAX_FW_SIZE && size <= |buf| ==>
              (Compares(mem, source, After(programTime, 4), start, size, buf) <==> Holds(mem, start, size, buf)))
       <==> Trusted(source, programTime, start, size)
  {
    if Trusted(source, programTime, start, size) {
      forall mem: seq<Byte>, buf: seq<Byte> | |mem| == MAX_FW_SIZE && size <= |buf|
        ensures Compares(mem, source, After(programTime, 4), start, size, buf) <==> Holds(mem, start, size, buf)
      {
        CompareIsHolds(mem, source, programTime, start, size, buf);
      }
    } else {
      var x, delivered := Detached(source, programTime, start, size);
      var b: Byte := if delivered == 0 then 255 else 0;
      var mem, buf := Constant(MAX_FW_SIZE, b), Constant(size, b);
      assert Holds(mem, start, size, buf);
      assert Delivered(mem, source, After(programTime, 4), start, x) != buf[x];
    }
  }

  /** The verdict on this image is the right one. */
  ghost predicate Right(d: Device, source: Source, choice: seq<seq<Byte>>, buf: seq<Byte>, start: nat, image: Layout)
    requires d.Valid() && image.Valid() && image.Padded() <= |buf|
  {
    var mem := Loaded(d, choice, buf, start, image);
    Compares(mem, source, Lag(d), start, image.Size(), buf) <==> Holds(mem, start, image.Size(), buf)
  }

  /** An image that is stored is judged wrongly when one of its bytes is delivered as something else. */
  lemma Misjudged(d: Device, source: Source, erasePgmArea: bool, start: nat, size: nat, page: nat, buf: seq<Byte>,
      x: nat, choice: seq<seq<Byte>>, image: Layout)
    requires d.Valid() && page > 0 && d.pageSize % page == 0 && start + size <= MAX_FW_SIZE
    requires image == LayoutOf(size, page) && choice == EraseChoice(d.IsSst26(), start, size, erasePgmArea)
    requires image.Padded() <= |buf| && x < size && AllLand(d.pageSize, start, image, buf)
    requires forall mem: seq<Byte> :: |mem| >= MAX_FW_SIZE ==> Delivered(mem, source, Lag(d), start, x) != buf[x]
    ensures !Right(d, source, choice, buf, start, image)
  {
    LoadedIff(d, erasePgmArea, buf, start, size, page);
    var mem := Loaded(d, choice, buf, start, image);
    assert Delivered(mem, source, Lag(d), start, x) != buf[x];
  }

  /** From an aligned start an image of equal bytes is always stored. */
  lemma ConstantLands(pageSize: nat, start: nat, l: Layout, buf: seq<Byte>, b: Byte)
    requires l.Valid() && Aligned(pageSize, start, l.page) && buf == Constant(l.Padded(), b)
    ensures AllLand(pageSize, start, l, buf)
  {
    forall x | start <= x < start + l.Size() ensures Landed(pageSize, start, l, buf, x) == buf[x - start] {
      AlignedLanding(pageSize, start, l, buf, x);
      AndSelf(b);
    }
  }

  /** One zero, then bytes of 0xFF. */
  function ZeroFirst(length: nat): (buf: seq<Byte>)
    ensures |buf| == length
  {
    seq(length, i => if i == 0 then 0 else 255)
  }

  /** From any start such an image is stored. */
  lemma ZeroFirstLands(pageSize: nat, start: nat, l: Layout, buf: seq<Byte>)
    requires l.Valid() && pageSize > 0 && pageSize % l.page == 0 && buf == ZeroFirst(l.Padded())
    ensures AllLand(pageSize, start, l, buf)
  {
    forall x | start <= x < start + l.Size() ensures Landed(pageSize, start, l, buf, x) == buf[x - start] {
      ZeroFirstAt(pageSize, start, l, buf, x);
    }
  }

  lemma ZeroFirstAt(pageSize: nat, start: nat, l: Layout, buf: seq<Byte>, x: nat)
    requires l.Valid() && pageSize > 0 && pageSize % l.page == 0 && buf == ZeroFirst(l.Padded())
    requires start <= x < start + l.Size()
    ensures Landed(pageSize, start, l, buf, x) == buf[x - start]
  {
    AndByteOnes(0, 255);
    AndByteOnes(255, 255);
    AndSelf(0);
    AndZeroFirst(255);
    if x == start { StartIsInPlace(pageSize, start, l); } else { OnlyOnes(pageSize, start, l, buf, x); }
  }

  lemma AndZeroFirst(b: Byte)
    ensures And(0, b) == 0
  {
  }

  lemma OnlyOnes(pageSize: nat, start: nat, l: Layout, buf: seq<Byte>, x: nat)
    requires l.Valid() && pageSize > 0 && buf == ZeroFirst(l.Padded()) && start < x < start + l.Size()
    ensures FullByte(pageSize, start, l, buf, x) == 255
    ensures ByteAt(buf, x - start) == 255 && ByteAt(buf, x - start + pageSize) == 255
  {
  }

  lemma StartIsInPlace(pageSize: nat, start: nat, l: Layout)
    requires l.Valid() && pageSize > 0 && pageSize % l.page == 0
    ensures !Displaced(pageSize, start, l.page, start)
  {
    var _ := BaseOf(pageSize, start);
    Crossing(pageSize, l.page, start, PageBase(pageSize, start));
  }

  /** The verdict is about the flash, for every buffer, exactly when the read-back can be trusted: through the
      pass-through from any start, through the window from a start that is aligned to pages. */
  lemma VerdictIff(d: Device, source: Source, erasePgmArea: bool, start: nat, size: nat, page: nat,
      choice: seq<seq<Byte>>, image: Layout)
    requires d.Valid() && page > 0 && d.pageSize % page == 0 && start + size <= MAX_FW_SIZE
    requires source.Window? ==> start % page == 0
    requires image == LayoutOf(size, page) && choice == EraseChoice(d.IsSst26(), start, size, erasePgmArea)
    ensures (forall buf: seq<Byte> :: image.Padded() <= |buf| ==> Right(d, source, choice, buf, start, image))
       <==> Trusted(source, d.programTime, start, size)
  {
    if Trusted(source, d.programTime, start, size) {
      forall buf: seq<Byte> | image.Padded() <= |buf| ensures Right(d, source, choice, buf, start, image) {
        CompareIsHolds(Loaded(d, choice, buf, start, image), source, d.programTime, start, size, buf);
      }
    } else {
      var x, delivered := Detached(source, d.programTime, start, size);
      var b: Byte := if delivered == 0 then 255 else 0;
      var buf := if source.PassThrough? then ZeroFirst(image.Padded()) else Constant(image.Padded(), b);
      if source.PassThrough? {
        ZeroFirstLands(d.pageSize, start, image, buf);
      } else {
        ConstantLands(d.pageSize, start, image, buf, b);
      }
      Misjudged(d, source, erasePgmArea, start, size, page, buf, x, choice, image);
    }
  }

  /** One page of 0xFF, then a page of zeros. */
  function Spoiled(page: nat): (buf: seq<Byte>)
    ensures |buf| == page + page
    ensures forall i :: 0 <= i < page ==> buf[i] == 255
    ensures forall i :: page <= i < page + page ==> buf[i] == 0
  {
    seq(page + page, i => if i < page then 255 else 0)
  }

  lemma OneByteImage(l: Layout)
    requires l.Valid() && l.Size() == 1 && l.page > 2
    ensures l.rest == 1 && l.body == 0 && l.Padded() <= l.page + l.page
  {
  }

  lemma SpoiledIsHarmed(start: nat, l: Layout, buf: seq<Byte>)
    requires l.Valid() && l.page > 2 && l.rest == 1 && l.body == 0 && Aligned(l.page, start, l.page)
    requires buf == Spoiled(l.page) && l.Padded() <= |buf|
    ensures !TailHarmless(l.page, start, l, buf)
  {
    AndZero(255);
    LastPage(l.page, start, l, start + l.TailOffset(), PageBase(l.page, start + l.TailOffset()));
    assert Wrapped(l.page, start, l, start);
  }

  /** A part that programs for six transfers or more: a one-byte image 0xFF before a padding of zeros is
      reported as a success wherever it goes, and the flash does not hold it. */
  lemma SlowPartSucceedsWrongly(d: Device, erasePgmArea: bool, start: nat, page: nat, buf: seq<Byte>,
      choice: seq<seq<Byte>>, image: Layout)
    requires d.Valid() && page > 2 && Aligned(d.pageSize, start, page) && d.pageSize == page && d.programTime > 5
    requires start < MAX_FW_SIZE && buf == Spoiled(page)
    requires image == LayoutOf(1, page) && choice == EraseChoice(d.IsSst26(), start, 1, erasePgmArea)
    ensures image.Padded() <= |buf|
    ensures Compares(Loaded(d, choice, buf, start, image), PassThrough, Lag(d), start, 1, buf)
    ensures !Holds(Loaded(d, choice, buf, start, image), start, 1, buf)
  {
    OneByteImage(image);
    SpoiledIsHarmed(start, image, buf);
    AlignedLandIff(d.pageSize, start, image, buf);
    LoadedIff(d, erasePgmArea, buf, start, 1, page);
    SlowCompares(Loaded(d, choice, buf, start, image), Lag(d), start, buf);
  }

  lemma SlowCompares(mem: seq<Byte>, lag: nat, start: nat, buf: seq<Byte>)
    requires start < |mem| && lag > 1 && buf != [] && buf[0] == IDLE
    ensures Compares(mem, PassThrough, lag, start, 1, buf)
  {
  }

  /** MchpUsbSpiFlashWrite's size guard, in 32-bit arithmetic. */
  predicate SizeGuard(start: nat, size: nat) {
    (start + size) % 0x1_0000_0000 <= MAX_FW_SIZE
  }

  /** The guard lets exactly the requests inside 128 KB through, and those whose end wraps around 2^32 into them. */
  lemma SizeGuardIff(start: nat, size: nat)
    requires start < 0x1_0000_0000 && size < 0x1_0000_0000
    ensures SizeGuard(start, size) <==>
      start + size <= 0x2_0000 || 0x1_0000_0000 <= start + size <= 0x1_0000_0000 + 0x2_0000
  {
  }
}
