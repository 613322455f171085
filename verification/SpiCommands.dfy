/**
  The command lists that the programmer interprets, which blocks they erase, and a static
  walk over a list that tracks what is certain about the flash after each entry.
 */
module SpiCommands {
  import opened Bits
  import opened NorFlash
  import opened Options

  /** One entry of a list: bytes to send, a response to fetch, or the page-program slot. */
  datatype Entry = Send(bytes: seq<Byte>, total: nat) | Receive(total: nat) | Program

  const BYTE_PROG_INDEX: nat := 25
  const SST26_PROG_INDEX: nat := 49

  function ProgramIndex(sst26: bool): nat {
    if sst26 then SST26_PROG_INDEX else BYTE_PROG_INDEX
  }

  // ---------------------------------------------------------------------------
  // Which blocks to erase
  // ---------------------------------------------------------------------------

  /** The four bytes of an erase entry: a block erase, or a no-op when the block is spared. */
  function EraseCommand(chosen: bool, address: nat): seq<Byte> {
    if chosen then [BLOCK_ERASE, Byte2(address), Byte1(address), Byte0(address)] else [NOP, 0, 0, 0]
  }

  /** The blocks with these start addresses are erased by the two lists. */
  function BlockStarts(sst26: bool): (s: seq<nat>) {
    if sst26 then [0x0000, 0x2000, 0x4000, 0x6000, 0x8000, 0x10000] else [0x00000, 0x10000]
  }

  /** The low 64 KB and the high 64 KB are each erased or spared as a whole. */
  function Chosen(start: nat, size: nat, erasePgmArea: bool, address: nat): bool {
    if start > 0x0FFFF then address == 0x10000
    else if size + start > SIZE_64KB then true
    else address != 0x10000 || erasePgmArea
  }

  function EraseChoice(sst26: bool, start: nat, size: nat, erasePgmArea: bool): (choice: seq<seq<Byte>>)
    ensures |choice| == |BlockStarts(sst26)|
  {
    var starts := BlockStarts(sst26);
    seq(|starts|, i requires 0 <= i < |starts| =>
      EraseCommand(Chosen(start, size, erasePgmArea, starts[i]), starts[i]))
  }

  // ---------------------------------------------------------------------------
  // The lists
  // ---------------------------------------------------------------------------

  const STATUS: Entry := Send([RDSR, 0], 2)

  function Opening(unlock: Entry): (l: seq<Entry>)
    ensures |l| == 8
  {
    [Send([JEDEC_ID], 4), Receive(4), Send([WREN], 1), STATUS, Receive(2), unlock, STATUS, Receive(2)]
  }

  function EraseSegment(erase: seq<Byte>): (l: seq<Entry>)
    ensures |l| == 6
  {
    [Send([WREN], 1), STATUS, Receive(2), Send(erase, 4), STATUS, Receive(2)]
  }

  function Segments(choice: seq<seq<Byte>>): (l: seq<Entry>)
    ensures |l| == 6 * |choice|
  {
    seq(6 * |choice|, i requires 0 <= i < 6 * |choice| => EraseSegment(choice[i / 6])[i % 6])
  }

  function Closing(): (l: seq<Entry>)
    ensures |l| == 8
  {
    [STATUS, Receive(2), Send([WREN], 1), STATUS, Receive(2), Program, Send([RDSR, 0], 3), Receive(2)]
  }

  /** gasSPICmdList and gasSPICmdList_SST26VF064B. */
  function CommandList(sst26: bool, choice: seq<seq<Byte>>): (l: seq<Entry>)
    ensures |l| == 16 + 6 * |choice|
  {
    var unlock := if sst26 then Send([ULBPR], 1) else Send([WRSR, 0x00], 2);
    Opening(unlock) + Segments(choice) + Closing()
  }

  /** The hard-coded index points at the page-program entry, the only one of its kind. */
  lemma ProgramIndexIsRight(sst26: bool, choice: seq<seq<Byte>>)
    requires |choice| == |BlockStarts(sst26)|
    ensures var l := CommandList(sst26, choice);
      forall m :: 0 <= m < |l| ==> (l[m] == Program <==> m == ProgramIndex(sst26))
  {
  }

  lemma OpeningAt(sst26: bool, choice: seq<seq<Byte>>, i: nat)
    requires i < 8
    ensures CommandList(sst26, choice)[i]
         == Opening(if sst26 then Send([ULBPR], 1) else Send([WRSR, 0x00], 2))[i]
  {
  }

  lemma SegmentAt(sst26: bool, choice: seq<seq<Byte>>, s: nat, i: nat)
    requires s < |choice| && i < 6
    ensures CommandList(sst26, choice)[8 + 6 * s + i] == EraseSegment(choice[s])[i]
  {
    assert (6 * s + i) / 6 == s && (6 * s + i) % 6 == i;
  }

  lemma ClosingAt(sst26: bool, choice: seq<seq<Byte>>, i: nat)
    requires i < 8
    ensures CommandList(sst26, choice)[8 + 6 * |choice| + i] == Closing()[i]
  {
  }

  // ---------------------------------------------------------------------------
  // What is certain about the flash while a list runs
  // ---------------------------------------------------------------------------

  datatype Known = Known(latch: bool, idle: bool, open: bool)

  /** The bytes of a command that are clocked out. */
  function Cut(bytes: seq<Byte>, total: nat): seq<Byte> {
    if |bytes| <= total then bytes else bytes[..total]
  }

  /** What is known after one entry; None if the flash might refuse it. Sending RDSR includes the
      polling that follows it. */
  function StepKnown(sst26: bool, k: Known, e: Entry): Option<Known> {
    match e
    case Receive(_) => Some(k)
    case Program => if k.open then Some(Known(false, false, true)) else None
    case Send(bytes, total) =>
      var c := Cut(bytes, total);
      if c == [] then None
      else if c[0] == RDSR then Some(k.(idle := true))
      else if c[0] == JEDEC_ID || c[0] == NOP then Some(k)
      else if !k.idle then None
      else if c[0] == WREN then Some(k.(latch := true))
      else if !k.latch then None
      else if c[0] == WRSR && |c| == 2 && c[1] == 0 then Some(Known(false, false, true))
      else if c[0] == ULBPR && sst26 then Some(Known(false, true, true))
      else if c[0] == BLOCK_ERASE && |c| == 4 && k.open then Some(Known(false, false, true))
      else None
  }

  /** What is known before entry m. */
  function WalkTo(sst26: bool, l: seq<Entry>, m: nat): Option<Known>
    requires m <= |l|
  {
    if m == 0 then Some(Known(false, true, false))
    else
      match WalkTo(sst26, l, m - 1)
      case None => None
      case Some(k) => StepKnown(sst26, k, l[m - 1])
  }

  /** The effect of one entry on the memory. */
  function Effect(sst26: bool, mem: seq<Byte>, e: Entry): (mem': seq<Byte>)
    ensures |mem'| == |mem|
  {
    if e.Send? then
      var c := Cut(e.bytes, e.total);
      if |c| == 4 && c[0] == BLOCK_ERASE then Erased(mem, Block(sst26, Address(c[1], c[2], c[3]))) else mem
    else mem
  }

  function EffectTo(sst26: bool, mem: seq<Byte>, l: seq<Entry>, m: nat): (mem': seq<Byte>)
    requires m <= |l|
    ensures |mem'| == |mem|
  {
    if m == 0 then mem else Effect(sst26, EffectTo(sst26, mem, l, m - 1), l[m - 1])
  }

  lemma WalkStep(sst26: bool, l: seq<Entry>, m: nat, k: Known, e: Entry, k': Known, mem: seq<Byte>)
    requires m < |l| && l[m] == e && WalkTo(sst26, l, m) == Some(k) && StepKnown(sst26, k, e) == Some(k')
    ensures WalkTo(sst26, l, m + 1) == Some(k')
    ensures EffectTo(sst26, mem, l, m + 1) == Effect(sst26, EffectTo(sst26, mem, l, m), e)
  {
  }

  lemma QuietStep(sst26: bool, l: seq<Entry>, m: nat, k: Known, e: Entry, k': Known, mem: seq<Byte>)
    requires m < |l| && l[m] == e && WalkTo(sst26, l, m) == Some(k) && StepKnown(sst26, k, e) == Some(k')
    requires e.Send? ==> Cut(e.bytes, e.total) == [] || Cut(e.bytes, e.total)[0] != BLOCK_ERASE
    ensures WalkTo(sst26, l, m + 1) == Some(k')
    ensures EffectTo(sst26, mem, l, m + 1) == EffectTo(sst26, mem, l, m)
  {
    WalkStep(sst26, l, m, k, e, k', mem);
  }

  /** The walk is defined at every entry up to m. */
  ghost predicate WalksTo(sst26: bool, l: seq<Entry>, m: nat)
    requires m <= |l|
  {
    forall j :: 0 <= j <= m ==> WalkTo(sst26, l, j).Some?
  }

  lemma WalkIsPrefixClosed(sst26: bool, l: seq<Entry>, m: nat)
    requires m <= |l| && WalkTo(sst26, l, m).Some?
    ensures WalksTo(sst26, l, m)
    decreases m
  {
    if m > 0 { WalkIsPrefixClosed(sst26, l, m - 1); }
  }

  predicate EraseOrNop(e: seq<Byte>) {
    |e| == 4 && (e[0] == BLOCK_ERASE || e[0] == NOP)
  }

  lemma OpeningWalks(sst26: bool, choice: seq<seq<Byte>>, l: seq<Entry>, mem: seq<Byte>)
    requires l == CommandList(sst26, choice)
    ensures WalkTo(sst26, l, 8) == Some(Known(false, true, true))
    ensures EffectTo(sst26, mem, l, 8) == mem
  {
    var unlock := if sst26 then Send([ULBPR], 1) else Send([WRSR, 0x00], 2);
    var opening := Opening(unlock);
    OpeningAt(sst26, choice, 0);
    OpeningAt(sst26, choice, 1);
    OpeningAt(sst26, choice, 2);
    OpeningAt(sst26, choice, 3);
    OpeningAt(sst26, choice, 4);
    OpeningAt(sst26, choice, 5);
    OpeningAt(sst26, choice, 6);
    OpeningAt(sst26, choice, 7);
    var start := Known(false, true, false);
    QuietStep(sst26, l, 0, start, opening[0], start, mem);
    QuietStep(sst26, l, 1, start, opening[1], start, mem);
    QuietStep(sst26, l, 2, start, opening[2], Known(true, true, false), mem);
    QuietStep(sst26, l, 3, Known(true, true, false), opening[3], Known(true, true, false), mem);
    QuietStep(sst26, l, 4, Known(true, true, false), opening[4], Known(true, true, false), mem);
    var unlocked := if sst26 then Known(false, true, true) else Known(false, false, true);
    QuietStep(sst26, l, 5, Known(true, true, false), unlock, unlocked, mem);
    QuietStep(sst26, l, 6, unlocked, STATUS, Known(false, true, true), mem);
    QuietStep(sst26, l, 7, Known(false, true, true), opening[7], Known(false, true, true), mem);
  }

  /** A list has an erase segment at position b. */
  predicate HasSegment(l: seq<Entry>, b: nat, erase: seq<Byte>) {
    && b + 6 <= |l|
    && l[b] == Send([WREN], 1) && l[b + 1] == STATUS && l[b + 2] == Receive(2)
    && l[b + 3] == Send(erase, 4)
    && l[b + 4] == STATUS && l[b + 5] == Receive(2)
  }

  lemma SegmentPresent(sst26: bool, choice: seq<seq<Byte>>, s: nat)
    requires s < |choice|
    ensures HasSegment(CommandList(sst26, choice), 8 + 6 * s, choice[s])
  {
    SegmentAt(sst26, choice, s, 0);
    SegmentAt(sst26, choice, s, 1);
    SegmentAt(sst26, choice, s, 2);
    SegmentAt(sst26, choice, s, 3);
    SegmentAt(sst26, choice, s, 4);
    SegmentAt(sst26, choice, s, 5);
  }

  lemma EraseEntryKnown(sst26: bool, e: seq<Byte>) returns (done: Known)
    requires EraseOrNop(e)
    ensures StepKnown(sst26, Known(true, true, true), Send(e, 4)) == Some(done) && done.open
  {
    done := if e[0] == BLOCK_ERASE then Known(false, false, true) else Known(true, true, true);
  }

  lemma SegmentWalks(sst26: bool, l: seq<Entry>, b: nat, b': nat, e: seq<Byte>, k: Known, mem: seq<Byte>)
      returns (k': Known)
    requires HasSegment(l, b, e) && EraseOrNop(e) && b' == b + 6
    requires WalkTo(sst26, l, b) == Some(k) && k.idle && k.open
    ensures WalkTo(sst26, l, b') == Some(k') && k'.idle && k'.open
    ensures Same(EffectTo(sst26, mem, l, b'), Effect(sst26, EffectTo(sst26, mem, l, b), Send(e, 4)))
  {
    var armed := Known(true, true, true);
    QuietStep(sst26, l, b, k, Send([WREN], 1), armed, mem);
    QuietStep(sst26, l, b + 1, armed, STATUS, armed, mem);
    QuietStep(sst26, l, b + 2, armed, Receive(2), armed, mem);
    var done := EraseEntryKnown(sst26, e);
    WalkStep(sst26, l, b + 3, armed, Send(e, 4), done, mem);
    k' := done.(idle := true);
    QuietStep(sst26, l, b + 4, done, STATUS, k', mem);
    QuietStep(sst26, l, b + 5, k', Receive(2), k', mem);
  }

  /** The memory after the first n erase entries. */
  function EraseMany(sst26: bool, mem: seq<Byte>, choice: seq<seq<Byte>>, n: nat): (mem': seq<Byte>)
    requires n <= |choice|
    ensures |mem'| == |mem|
  {
    if n == 0 then mem else Effect(sst26, EraseMany(sst26, mem, choice, n - 1), Send(choice[n - 1], 4))
  }

  /** Position of the s-th erase segment. */
  function SegmentStart(s: nat): nat { 8 + 6 * s }

  ghost predicate HasSegments(l: seq<Entry>, choice: seq<seq<Byte>>) {
    forall s :: 0 <= s < |choice| ==> HasSegment(l, SegmentStart(s), choice[s]) && EraseOrNop(choice[s])
  }

  lemma SegmentsPresent(sst26: bool, choice: seq<seq<Byte>>, l: seq<Entry>)
    requires forall s :: 0 <= s < |choice| ==> EraseOrNop(choice[s])
    requires l == CommandList(sst26, choice)
    ensures HasSegments(l, choice)
  {
    forall s | 0 <= s < |choice| ensures HasSegment(l, SegmentStart(s), choice[s]) {
      SegmentPresent(sst26, choice, s);
    }
  }

  lemma {:induction false} SegmentsWalk(sst26: bool, l: seq<Entry>, choice: seq<seq<Byte>>, n: nat, b: nat,
                                        mem: seq<Byte>)
      returns (k: Known)
    requires n <= |choice| && HasSegments(l, choice) && b == SegmentStart(n) && SegmentStart(|choice|) <= |l|
    requires WalkTo(sst26, l, 8) == Some(Known(false, true, true)) && EffectTo(sst26, mem, l, 8) == mem
    ensures WalkTo(sst26, l, b) == Some(k) && k.idle && k.open
    ensures Same(EffectTo(sst26, mem, l, b), EraseMany(sst26, mem, choice, n))
    decreases n
  {
    if n == 0 {
      k := Known(false, true, true);
    } else {
      k := SegmentsWalk(sst26, l, choice, n - 1, b - 6, mem);
      assert HasSegment(l, SegmentStart(n - 1), choice[n - 1]);
      k := SegmentWalks(sst26, l, b - 6, b, choice[n - 1], k, mem);
    }
  }

  predicate HasClosing(l: seq<Entry>, b: nat) {
    && b + 5 <= |l|
    && l[b] == STATUS && l[b + 1] == Receive(2)
    && l[b + 2] == Send([WREN], 1) && l[b + 3] == STATUS && l[b + 4] == Receive(2)
  }

  lemma ClosingPresent(sst26: bool, choice: seq<seq<Byte>>, l: seq<Entry>, b: nat)
    requires l == CommandList(sst26, choice) && b == SegmentStart(|choice|)
    ensures HasClosing(l, b)
  {
    ClosingAt(sst26, choice, 0);
    ClosingAt(sst26, choice, 1);
    ClosingAt(sst26, choice, 2);
    ClosingAt(sst26, choice, 3);
    ClosingAt(sst26, choice, 4);
  }

  lemma ClosingWalks(sst26: bool, l: seq<Entry>, b: nat, k: Known, mem: seq<Byte>)
    requires HasClosing(l, b) && WalkTo(sst26, l, b) == Some(k) && k.idle && k.open
    ensures WalkTo(sst26, l, b + 5) == Some(Known(true, true, true))
    ensures Same(EffectTo(sst26, mem, l, b + 5), EffectTo(sst26, mem, l, b))
  {
    QuietStep(sst26, l, b, k, STATUS, k, mem);
    QuietStep(sst26, l, b + 1, k, Receive(2), k, mem);
    var armed := Known(true, true, true);
    QuietStep(sst26, l, b + 2, k, Send([WREN], 1), armed, mem);
    QuietStep(sst26, l, b + 3, armed, STATUS, armed, mem);
    QuietStep(sst26, l, b + 4, armed, Receive(2), armed, mem);
  }

  lemma PartsWalk(sst26: bool, l: seq<Entry>, choice: seq<seq<Byte>>, n: nat, b: nat, mem: seq<Byte>)
    requires n == |choice| && b == SegmentStart(n) && HasSegments(l, choice) && HasClosing(l, b)
    requires WalkTo(sst26, l, 8) == Some(Known(false, true, true)) && EffectTo(sst26, mem, l, 8) == mem
    ensures WalkTo(sst26, l, b + 5) == Some(Known(true, true, true))
    ensures Same(EffectTo(sst26, mem, l, b + 5), EraseMany(sst26, mem, choice, n))
  {
    var k := SegmentsWalk(sst26, l, choice, n, b, mem);
    ClosingWalks(sst26, l, b, k, mem);
  }

  /** Up to the page-program entry the walk never gets stuck: every erase is issued with the latch
      set, on an idle and unlocked flash. */
  lemma ListWalks(sst26: bool, choice: seq<seq<Byte>>, l: seq<Entry>, b: nat, mem: seq<Byte>)
    requires forall s :: 0 <= s < |choice| ==> EraseOrNop(choice[s])
    requires l == CommandList(sst26, choice) && b == SegmentStart(|choice|)
    ensures WalkTo(sst26, l, b + 5) == Some(Known(true, true, true))
    ensures EffectTo(sst26, mem, l, b + 5) == EraseMany(sst26, mem, choice, |choice|)
  {
    assert WalkTo(sst26, l, 8) == Some(Known(false, true, true)) && EffectTo(sst26, mem, l, 8) == mem by {
      OpeningWalks(sst26, choice, l, mem);
    }
    assert HasSegments(l, choice) by { SegmentsPresent(sst26, choice, l); }
    assert HasClosing(l, b) by { ClosingPresent(sst26, choice, l, b); }
    PartsWalk(sst26, l, choice, |choice|, b, mem);
  }

  // ---------------------------------------------------------------------------
  // Coverage
  // ---------------------------------------------------------------------------

  /** The erase entries by their bytes: for an SST26 the blocks at 0x0000, 0x2000, 0x4000, 0x6000, 0x8000 and 0x10000,
      for others those at 0x00000 and 0x10000; a spared block gets four zeros. */
  lemma EraseBytes(sst26: bool, start: nat, size: nat, erasePgmArea: bool, s: nat)
    requires s < if sst26 then 6 else 2
    ensures EraseChoice(sst26, start, size, erasePgmArea)[s] in
      {[0, 0, 0, 0], if s == (if sst26 then 5 else 1) then [0xD8, 1, 0, 0] else [0xD8, 0, 0x20 * s, 0]}
  {
  }

  lemma ChoiceIsEraseOrNop(sst26: bool, start: nat, size: nat, erasePgmArea: bool)
    ensures forall s :: 0 <= s < |BlockStarts(sst26)| ==>
      EraseOrNop(EraseChoice(sst26, start, size, erasePgmArea)[s])
  {
  }

  /** Address x lies in the block of the s-th erase entry. */
  predicate InBlock(sst26: bool, s: nat, x: int)
    requires s < |BlockStarts(sst26)|
  {
    var b := Block(sst26, BlockStarts(sst26)[s]);
    b.0 <= x < b.1
  }

  /** One of the first n erase entries erases the block of x. */
  predicate ErasedBy(sst26: bool, start: nat, size: nat, erasePgmArea: bool, n: nat, x: int)
    requires n <= |BlockStarts(sst26)|
  {
    exists s :: 0 <= s < n && InBlock(sst26, s, x) && Chosen(start, size, erasePgmArea, BlockStarts(sst26)[s])
  }

  lemma ErasedByNext(sst26: bool, start: nat, size: nat, erasePgmArea: bool, n: nat, x: int, address: nat)
    requires n < |BlockStarts(sst26)| && address == BlockStarts(sst26)[n]
    ensures ErasedBy(sst26, start, size, erasePgmArea, n + 1, x) <==>
      ErasedBy(sst26, start, size, erasePgmArea, n, x)
      || (Block(sst26, address).0 <= x < Block(sst26, address).1 && Chosen(start, size, erasePgmArea, address))
  {
    if Block(sst26, address).0 <= x < Block(sst26, address).1 && Chosen(start, size, erasePgmArea, address) {
      assert InBlock(sst26, n, x) && Chosen(start, size, erasePgmArea, BlockStarts(sst26)[n]);
    }
    if s: nat :| s < n && InBlock(sst26, s, x) && Chosen(start, size, erasePgmArea, BlockStarts(sst26)[s]) {
      assert s < n + 1;
    }
  }

  lemma EntryErases(sst26: bool, mem: seq<Byte>, chosen: bool, address: nat)
    requires address < 0x1000000
    ensures Effect(sst26, mem, Send(EraseCommand(chosen, address), 4))
         == if chosen then Erased(mem, Block(sst26, address)) else mem
  {
    AddressRoundTrip(address);
  }

  lemma EraseNext(sst26: bool, mem: seq<Byte>, choice: seq<seq<Byte>>, n: nat, before: seq<Byte>, chosen: bool,
                  address: nat)
    requires 0 < n <= |choice| && before == EraseMany(sst26, mem, choice, n - 1) && address < 0x1000000
    requires choice[n - 1] == EraseCommand(chosen, address)
    ensures EraseMany(sst26, mem, choice, n) == if chosen then Erased(before, Block(sst26, address)) else before
  {
    EntryErases(sst26, before, chosen, address);
  }

  /** After n erase entries an address reads 0xFF if one of them erased its block, and is
      untouched otherwise. */
  lemma {:induction false} EraseManyAt(sst26: bool, mem: seq<Byte>, start: nat, size: nat, erasePgmArea: bool, n: nat,
                                       x: nat)
    requires n <= |BlockStarts(sst26)| && x < |mem|
    ensures EraseMany(sst26, mem, EraseChoice(sst26, start, size, erasePgmArea), n)[x]
         == if ErasedBy(sst26, start, size, erasePgmArea, n, x) then 255 else mem[x]
    decreases n
  {
    if n > 0 {
      EraseManyAt(sst26, mem, start, size, erasePgmArea, n - 1, x);
      var choice, address := EraseChoice(sst26, start, size, erasePgmArea), BlockStarts(sst26)[n - 1];
      var before, chosen := EraseMany(sst26, mem, choice, n - 1), Chosen(start, size, erasePgmArea, address);
      ErasedByNext(sst26, start, size, erasePgmArea, n - 1, x, address);
      EraseNext(sst26, mem, choice, n, before, chosen, address);
    }
  }

  /** The block that holds an address below 128 KB. */
  function BlockIndex(sst26: bool, x: nat): (s: nat)
    requires x < MAX_FW_SIZE
    ensures s < |BlockStarts(sst26)| && InBlock(sst26, s, x)
    ensures BlockStarts(sst26)[s] == 0x10000 <==> x >= 0x10000
  {
    if !sst26 then (if x < 0x10000 then 0 else 1)
    else if x < 0x8000 then x / 0x2000
    else if x < 0x10000 then 4 else 5
  }

  /** The addresses that a request erases: the high 64 KB if it reaches into them or the configuration is to go,
      the low 64 KB unless it starts above them. */
  predicate IsErased(start: nat, size: nat, erasePgmArea: bool, x: nat) {
    if start > 0xFFFF then x >= 0x10000 else x < 0x10000 || start + size > 0x10000 || erasePgmArea
  }

  lemma SideOfBlock(sst26: bool, s: nat, x: nat, start: nat, size: nat, erasePgmArea: bool)
    requires s < |BlockStarts(sst26)| && InBlock(sst26, s, x) && x < MAX_FW_SIZE
    ensures Chosen(start, size, erasePgmArea, BlockStarts(sst26)[s]) <==> IsErased(start, size, erasePgmArea, x)
  {
    assert BlockStarts(sst26)[s] == 0x10000 <==> x >= 0x10000;
  }

  /** Exactly these addresses read 0xFF after the erase entries, for both chip families, and every other one below
      128 KB keeps its content. */
  lemma EraseInAddresses(sst26: bool, mem: seq<Byte>, start: nat, size: nat, erasePgmArea: bool, x: nat)
    requires x < MAX_FW_SIZE <= |mem|
    ensures var choice := EraseChoice(sst26, start, size, erasePgmArea);
      EraseMany(sst26, mem, choice, |choice|)[x] ==
        if (start > 0xFFFF && x >= 0x10000)
           || (start <= 0xFFFF && (x < 0x10000 || start + size > 0x10000 || erasePgmArea)) then 255
        else mem[x]
  {
    var n := |BlockStarts(sst26)|;
    EraseManyAt(sst26, mem, start, size, erasePgmArea, n, x);
    var s := BlockIndex(sst26, x);
    SideOfBlock(sst26, s, x, start, size, erasePgmArea);
    if t: nat :| t < n && InBlock(sst26, t, x) && Chosen(start, size, erasePgmArea, BlockStarts(sst26)[t]) {
      SideOfBlock(sst26, t, x, start, size, erasePgmArea);
    }
  }

  /** The chosen blocks cover the image, for both chip families. */
  lemma ChoiceCovers(sst26: bool, mem: seq<Byte>, start: nat, size: nat, erasePgmArea: bool, x: nat)
    requires start + size <= MAX_FW_SIZE <= |mem| && start <= x < start + size
    ensures var choice := EraseChoice(sst26, start, size, erasePgmArea);
      EraseMany(sst26, mem, choice, |choice|)[x] == 255
  {
    var s := BlockIndex(sst26, x);
    EraseManyAt(sst26, mem, start, size, erasePgmArea, |BlockStarts(sst26)|, x);
    assert InBlock(sst26, s, x) && Chosen(start, size, erasePgmArea, BlockStarts(sst26)[s]);
  }
}
