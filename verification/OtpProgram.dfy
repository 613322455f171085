/**
  One programming run of the OTP: advance the counter, find the free space, write the
  configuration data and its header, read everything back and compare.
 */
module OtpProgram {
  import opened Bits
  import opened OtpCounter
  import opened OtpLayout

  /** The buffer the configuration file is read into. */
  const CONFIG_MAX: nat := 64

  type Config = c: seq<Byte> | 0 < |c| <= CONFIG_MAX witness [0]

  // ---------------------------------------------------------------------------
  // Memory operations
  // ---------------------------------------------------------------------------

  /** The cells after `data` is written to the medium at `at`. */
  function Burned(boot: Boot, m: Cells, at: nat, data: seq<Byte>): (m': Cells)
    requires at + |data| <= OTP_SIZE
    ensures forall a :: 0 <= a < OTP_SIZE ==>
      m'[a] == if at <= a < at + |data| then Burn(boot, a, m[a], data[a - at]) else m[a]
  {
    seq(OTP_SIZE, a requires 0 <= a < OTP_SIZE =>
      if at <= a < at + |data| then Burn(boot, a, m[a], data[a - at]) else m[a])
  }

  /** The same write into a plain buffer. */
  function Overlaid(m: Cells, at: nat, data: seq<Byte>): (m': Cells)
    requires at + |data| <= OTP_SIZE
    ensures forall a :: 0 <= a < OTP_SIZE ==>
      m'[a] == if at <= a < at + |data| then data[a - at] else m[a]
  {
    m[..at] + data + m[at + |data|..]
  }

  /** The medium can take exactly these bytes here. */
  ghost predicate BurnsExactly(boot: Boot, m: Cells, at: nat, data: seq<Byte>)
    requires at + |data| <= OTP_SIZE
  {
    forall i :: 0 <= i < |data| ==> Burn(boot, at + i, m[at + i], data[i]) == data[i]
  }

  function CounterBytes(boot: Boot, m: Cells): (bytes: seq<Byte>)
    ensures |bytes| == DATA_START
  {
    var (high, low) := Advance(boot, m[0], m[1]);
    [high, low]
  }

  predicate CounterReads(boot: Boot, m: Cells, count: nat) {
    count <= LIMIT && (m[0], m[1]) == Thermometer(boot, count)
  }

  function Checksum(seed: Byte, data: seq<Byte>): Byte {
    if data == [] then seed
    else
      var last := |data| - 1;
      XorByte(Checksum(seed, data[..last]), data[last]);
      Xor(Checksum(seed, data[..last]), data[last])
  }

  /** How many bytes have bit k set. */
  function BitCount(data: seq<Byte>, k: nat): nat {
    if data == [] then 0 else BitCount(data[..|data| - 1], k) + Digit(data[|data| - 1], k)
  }

  /** Each bit of the byte is the parity of that bit in a start value and all bytes of the data. */
  ghost predicate HasParity(seed: Byte, data: seq<Byte>, sum: Byte) {
    forall k :: 0 <= k < 8 ==> Digit(sum, k) == (Digit(seed, k) + BitCount(data, k)) % 2
  }

  lemma ChecksumParity(seed: Byte, data: seq<Byte>, sum: Byte)
    requires sum == Checksum(seed, data)
    ensures HasParity(seed, data, sum)
  {
    forall k | 0 <= k < 8 ensures Digit(sum, k) == (Digit(seed, k) + BitCount(data, k)) % 2 {
      ChecksumBits(seed, data, k);
    }
  }

  /** Each bit of the checksum is the parity of that bit in its start value and all bytes. */
  lemma {:induction false} ChecksumBits(seed: Byte, data: seq<Byte>, k: nat)
    ensures Digit(Checksum(seed, data), k) == (Digit(seed, k) + BitCount(data, k)) % 2
  {
    if data != [] {
      var last := |data| - 1;
      ChecksumBits(seed, data[..last], k);
      XorDigit(Checksum(seed, data[..last]), data[last], k);
    }
  }

  // ---------------------------------------------------------------------------
  // Planning
  // ---------------------------------------------------------------------------

  datatype Plan = BadRecord | NoSpace | Write(record: Record, slot: nat)

  /** An int seen through a 32-bit unsigned cast. */
  function Unsigned32(x: int): nat { x % 0x1_0000_0000 }

  lemma {:induction false} ScannedFieldsFit(m: Cells, k: nat)
    requires k <= SLOTS
    ensures ScanFrom(m, k).Scanned? ==> DataEnd(ScanFrom(m, k).records) <= 2 * MAX_FIELD
    decreases SLOTS - k
  {
    if k < SLOTS && IsHeader(m, Slot(k)) { ScannedFieldsFit(m, k + 1); }
  }

  /** What a run decides from the buffered memory, before any write. */
  function PlanFor(m: Cells, config: Config, seed: Byte): (plan: Plan)
    requires !ScanAll(m).Escapes?
    ensures plan.Write? ==>
      plan.record.length == |config| && plan.record.offset <= 2 * MAX_FIELD && plan.slot <= OTP_SIZE - HEADER_SIZE
  {
    match ScanAll(m)
    case OutOfRange => BadRecord
    case Scanned(records) =>
      ScanStaysInside(m, 0);
      ScannedFieldsFit(m, 0);
      if |config| >= Unsigned32(Gap(records)) then NoSpace
      else Write(Record(DataEnd(records), |config|, Checksum(seed, config)), Slot(|records|))
  }

  /** The host's copy of the memory after it has advanced the counter. */
  function Buffered(boot: Boot, m: Cells): Cells {
    Overlaid(m, 0, CounterBytes(boot, m))
  }

  /** One run: the configuration, the checksum's start value, and how many of its three writes
      get through before it stops. */
  datatype Attempt = Attempt(config: Config, seed: Byte, writes: nat)

  predicate InBuffer(plan: Plan, config: Config) {
    plan.Write? ==>
      && plan.record.length == |config|
      && plan.record.offset + |config| <= OTP_SIZE
      && plan.slot + HEADER_SIZE <= OTP_SIZE
  }

  /** The run stays inside its 2 KB buffer, where the C code is defined. */
  predicate Defined(boot: Boot, m: Cells, a: Attempt) {
    var b := Buffered(boot, m);
    !ScanAll(b).Escapes? && InBuffer(PlanFor(b, a.config, a.seed), a.config)
  }

  function PlanOf(boot: Boot, m: Cells, a: Attempt): Plan
    requires Defined(boot, m, a)
  {
    PlanFor(Buffered(boot, m), a.config, a.seed)
  }

  /** The memory after the first `writes` of counter, data and header. */
  function AfterWrites(boot: Boot, m: Cells, counter: seq<Byte>, r: Record, slot: nat, config: Config,
      writes: nat): Cells
    requires |counter| == DATA_START
    requires r.offset + |config| <= OTP_SIZE && slot + HEADER_SIZE <= OTP_SIZE
    requires r.length == |config|
  {
    var m1 := if writes >= 1 then Burned(boot, m, 0, counter) else m;
    var m2 := if writes >= 2 then Burned(boot, m1, r.offset, config) else m1;
    if writes >= 3 then Burned(boot, m2, slot, HeaderBytes(r)) else m2
  }

  /** What the run expects to read back. */
  function Expected(m: Cells, counter: seq<Byte>, r: Record, slot: nat, config: Config): Cells
    requires |counter| == DATA_START
    requires r.offset + |config| <= OTP_SIZE && slot + HEADER_SIZE <= OTP_SIZE
    requires r.length == |config|
  {
    Overlaid(Overlaid(Overlaid(m, 0, counter), r.offset, config), slot, HeaderBytes(r))
  }

  function ApplyPlan(boot: Boot, m: Cells, counter: seq<Byte>, plan: Plan, a: Attempt): Cells
    requires |counter| == DATA_START && InBuffer(plan, a.config)
  {
    match plan
    case Write(r, slot) => AfterWrites(boot, m, counter, r, slot, a.config, a.writes)
    case _ => m
  }

  function Apply(boot: Boot, m: Cells, a: Attempt): Cells
    requires Defined(boot, m, a)
  {
    ApplyPlan(boot, m, CounterBytes(boot, m), PlanOf(boot, m, a), a)
  }

  /** The read-back matches the expected image. */
  predicate Verifies(boot: Boot, m: Cells, counter: seq<Byte>, r: Record, slot: nat, config: Config)
    requires |counter| == DATA_START
    requires r.offset + |config| <= OTP_SIZE && slot + HEADER_SIZE <= OTP_SIZE
    requires r.length == |config|
  {
    AfterWrites(boot, m, counter, r, slot, config, 3) == Expected(m, counter, r, slot, config)
  }

  datatype Outcome = NoConfiguration | InvalidRecord | OutOfSpace | WriteFailed | Mismatch | Programmed

  function PlanOutcome(boot: Boot, m: Cells, counter: seq<Byte>, plan: Plan, a: Attempt): Outcome
    requires |counter| == DATA_START && InBuffer(plan, a.config)
  {
    match plan
    case BadRecord => InvalidRecord
    case NoSpace => OutOfSpace
    case Write(r, slot) =>
      if a.writes < 3 then WriteFailed
      else if Verifies(boot, m, counter, r, slot, a.config) then Programmed
      else Mismatch
  }

  function OutcomeOf(boot: Boot, m: Cells, a: Attempt): Outcome
    requires Defined(boot, m, a)
  {
    PlanOutcome(boot, m, CounterBytes(boot, m), PlanOf(boot, m, a), a)
  }

  // ---------------------------------------------------------------------------
  // The run itself
  // ---------------------------------------------------------------------------

  function BlankPart(boot: Boot): (m: Cells)
    ensures forall a :: 0 <= a < OTP_SIZE ==> m[a] == Blank(boot, a)
  {
    seq(OTP_SIZE, a requires 0 <= a < OTP_SIZE => Blank(boot, a))
  }

  class OtpPart {
    const boot: Boot
    var cells: Cells

    constructor (boot: Boot)
      ensures this.boot == boot
      ensures forall a :: 0 <= a < OTP_SIZE ==> cells[a] == Blank(boot, a)
    {
      this.boot := boot;
      cells := BlankPart(boot);
    }

    method WriteOtp(at: nat, data: seq<Byte>)
      requires at + |data| <= OTP_SIZE
      modifies this
      ensures cells == Burned(boot, old(cells), at, data)
    {
      cells := Burned(boot, cells, at, data);
    }

    /** The counter bytes, computed with the bit-clearing loop. */
    method NextCounter(high: Byte, low: Byte) returns (high': Byte, low': Byte)
      ensures (high', low') == Advance(boot, high, low)
    {
      ghost var before: nat := high * 256 + if boot.FromRom? then 255 - low else low;
      var word := NextWord(high as int * 256 + if boot.FromRom? then 255 - low as int else low as int);
      AdvanceSplits(boot, high, low, before, word);
      high', low' := word / 256, if boot.FromRom? then 255 - word % 256 else word % 256;
    }

    method NextWord(word: nat) returns (next: nat)
      requires word < 65536
      ensures next < 65536 && next == AdvanceWord(boot, word)
    {
      var ones := CountOnes(word);
      OnesOfWord(word);
      if boot.FromSpi? { next := And(word, HoleAt(16 - ones)); } else { next := Or(word, Pow2(ones)) % 65536; }
    }

    /** MchpProgramFile. `goodWrites` is how many of the three writes succeed; a failing
        write leaves the medium as it was and ends the run. */
    method ProgramFile(config: seq<Byte>, seed: Byte, goodWrites: nat) returns (outcome: Outcome)
      requires |config| <= CONFIG_MAX
      requires config != [] ==> Defined(boot, cells, Attempt(config, seed, goodWrites))
      modifies this
      ensures config == [] ==> outcome == NoConfiguration && cells == old(cells)
      ensures config != [] ==>
        && cells == Apply(boot, old(cells), Attempt(config, seed, goodWrites))
        && outcome == OutcomeOf(boot, old(cells), Attempt(config, seed, goodWrites))
    {
      if config == [] { return NoConfiguration; }
      var buffer := ReadAndAdvance();
      var plan := Decide(buffer, config, seed);
      match plan {
        case BadRecord => outcome := InvalidRecord;
        case NoSpace => outcome := OutOfSpace;
        case Write(r, header) => outcome := WriteAndVerify(buffer, r.offset, header, config, seed, goodWrites);
      }
    }

    /** Find the free space and compare it with the length of the new configuration. */
    method Decide(buffer: array<Byte>, config: Config, seed: Byte) returns (plan: Plan)
      requires buffer.Length == OTP_SIZE && !ScanAll(buffer[..]).Escapes?
      ensures plan == PlanFor(buffer[..], config, seed)
      ensures plan.Write? ==> plan.record.checksum == Checksum(seed, config)
    {
      var dataOffset, header := FindFreeSpace(buffer);
      if dataOffset < 0 { return BadRecord; }
      ghost var records := ScanAll(buffer[..]).records;
      var totalIndexSize := OTP_SIZE - header;
      assert OTP_SIZE - dataOffset - totalIndexSize == Gap(records);
      if |config| >= Unsigned32(OTP_SIZE - dataOffset - totalIndexSize) { return NoSpace; }
      var checksum := XorAll(seed, config);
      plan := Write(Record(dataOffset, |config|, checksum), header);
    }

    /** Read the whole memory and advance the counter in the copy. */
    method ReadAndAdvance() returns (buffer: array<Byte>)
      ensures fresh(buffer) && buffer[..] == Buffered(boot, cells)
    {
      buffer := new Byte[OTP_SIZE](i requires 0 <= i < |cells| reads this => cells[i]);
      assert buffer[..] == cells;
      buffer[0], buffer[1] := NextCounter(buffer[0], buffer[1]);
      assert buffer[..] == Buffered(boot, cells);
    }

    /** The counter, data and header writes, then the read-back. */
    method WriteAndVerify(buffer: array<Byte>, dataOffset: nat, header: nat, config: Config, seed: Byte,
        goodWrites: nat) returns (outcome: Outcome)
      requires buffer.Length == OTP_SIZE && buffer[..] == Buffered(boot, cells)
      requires dataOffset + |config| <= OTP_SIZE && header + HEADER_SIZE <= OTP_SIZE
      modifies this, buffer
      ensures var r, c := Record(dataOffset, |config|, Checksum(seed, config)), CounterBytes(boot, old(cells));
        && cells == AfterWrites(boot, old(cells), c, r, header, config, goodWrites)
        && outcome == if goodWrites < 3 then WriteFailed
                      else if Verifies(boot, old(cells), c, r, header, config) then Programmed
                      else Mismatch
    {
      ghost var m := cells;
      ghost var b := Buffered(boot, m);
      if goodWrites < 1 { return WriteFailed; }
      assert buffer[..2] == b[..2] == CounterBytes(boot, m);
      WriteOtp(0, buffer[..2]);
      if goodWrites < 2 { return WriteFailed; }
      WriteOtp(dataOffset, config);
      Copy(buffer, dataOffset, config);

      var checksum := XorAll(seed, config);
      var bytes := HeaderBytes(Record(dataOffset, |config|, checksum));
      Copy(buffer, header, bytes);
      if goodWrites < 3 { return WriteFailed; }
      WriteOtp(header, bytes);

      if cells == buffer[..] { outcome := Programmed; } else { outcome := Mismatch; }
    }

    /** memcpy into the host buffer. */
    method Copy(buffer: array<Byte>, at: nat, data: seq<Byte>)
      requires buffer.Length == OTP_SIZE && at + |data| <= OTP_SIZE
      modifies buffer
      ensures buffer[..] == Overlaid(old(buffer[..]), at, data)
    {
      forall i | 0 <= i < |data| { buffer[at + i] := data[i]; }
      assert buffer[..] == Overlaid(old(buffer[..]), at, data);
    }

    /** The header walk. Returns the next data offset and header offset, or -1 when a
        header points outside the memory. */
    method FindFreeSpace(buffer: array<Byte>) returns (dataOffset: int, header: int)
      requires buffer.Length == OTP_SIZE && !ScanAll(buffer[..]).Escapes?
      ensures var scan := ScanAll(buffer[..]);
        if scan.OutOfRange? then dataOffset == -1
        else scan.Scanned? && dataOffset == DataEnd(scan.records) && header == Slot(|scan.records|) >= 0
    {
      ghost var m: Cells := buffer[..];
      ghost var seen: seq<Record> := [];
      dataOffset := DATA_START;
      header := OTP_SIZE - HEADER_SIZE;
      while IsHeader(buffer[..], header)
        invariant 0 <= header == Slot(|seen|)
        invariant ScanAll(m) == PrependAll(seen, ScanFrom(m, |seen|))
        invariant dataOffset == DataEnd(seen)
        decreases header
      {
        var r := RecordAt(buffer[..], header);
        WalkStep(m, seen, header);
        if r.offset > MAX_FIELD || r.length > MAX_FIELD { return -1, header; }
        dataOffset := r.offset + r.length;
        seen := seen + [r];
        header := header - HEADER_SIZE;
      }
      WalkEnd(m, seen, header);
    }

    method XorAll(seed: Byte, data: seq<Byte>) returns (sum: Byte)
      ensures sum == Checksum(seed, data)
      ensures HasParity(seed, data, sum)
    {
      sum := seed;
      for i := 0 to |data|
        invariant sum == Checksum(seed, data[..i])
      {
        assert data[..i + 1][..i] == data[..i];
        XorByte(sum, data[i]);
        sum := Xor(sum, data[i]);
      }
      assert data[..|data|] == data;
      ChecksumParity(seed, data, sum);
    }
  }

  function PrependAll(seen: seq<Record>, s: Scan): Scan {
    if seen == [] then s
    else PrependAll(seen[..|seen| - 1], Prepend(seen[|seen| - 1], s))
  }

  lemma WalkStep(m: Cells, seen: seq<Record>, header: int)
    requires 0 <= header == Slot(|seen|) && IsHeader(m, header) && !ScanAll(m).Escapes?
    requires ScanAll(m) == PrependAll(seen, ScanFrom(m, |seen|))
    ensures var r := RecordAt(m, header);
      if r.offset > MAX_FIELD || r.length > MAX_FIELD then ScanAll(m) == OutOfRange
      else header >= HEADER_SIZE && ScanAll(m) == PrependAll(seen + [r], ScanFrom(m, |seen| + 1))
  {
    var r := RecordAt(m, header);
    if r.offset > MAX_FIELD || r.length > MAX_FIELD {
      PrependAllFails(seen, OutOfRange);
    } else {
      PrependAllStep(seen, r, ScanFrom(m, |seen| + 1));
      if |seen| + 1 == SLOTS { PrependAllFails(seen + [r], Escapes); }
    }
  }

  lemma WalkEnd(m: Cells, seen: seq<Record>, header: int)
    requires 0 <= header == Slot(|seen|) && !IsHeader(m, header)
    requires ScanAll(m) == PrependAll(seen, ScanFrom(m, |seen|))
    ensures ScanAll(m) == Scanned(seen)
  {
    PrependAllScanned(seen, []);
    assert seen + [] == seen;
  }

  lemma PrependAllStep(seen: seq<Record>, r: Record, s: Scan)
    ensures PrependAll(seen, Prepend(r, s)) == PrependAll(seen + [r], s)
  {
    assert (seen + [r])[..|seen|] == seen;
  }

  lemma {:induction false} PrependAllFails(seen: seq<Record>, s: Scan)
    requires !s.Scanned?
    ensures PrependAll(seen, s) == s
  {
    if seen != [] { PrependAllFails(seen[..|seen| - 1], s); }
  }

  lemma {:induction false} PrependAllScanned(seen: seq<Record>, rest: seq<Record>)
    ensures PrependAll(seen, Scanned(rest)) == Scanned(seen + rest)
  {
    if seen == [] {
      assert seen + rest == rest;
    } else {
      var last := |seen| - 1;
      PrependAllScanned(seen[..last], [seen[last]] + rest);
      assert seen[..last] + ([seen[last]] + rest) == seen + rest;
    }
  }
}
