/**
  What OTP programming keeps over single runs and over all sequences of runs,
  complete or interrupted.
 */
module OtpRuns {
  import opened Bits
  import opened Options
  import opened OtpCounter
  import opened OtpLayout
  import opened OtpProgram

  /** A log whose records are short enough to have been written by this code and whose
      next header slot exists and does not read as a header. */
  ghost predicate Ready(m: Cells, records: seq<Record>) {
    && Log(m, records)
    && (forall i :: 0 <= i < |records| ==> records[i].length <= CONFIG_MAX)
    && Slot(|records|) >= 0
    && !IsHeader(m, Slot(|records|))
  }

  predicate Accepted(records: seq<Record>, config: Config) {
    |config| < Unsigned32(Gap(records))
  }

  function NewRecord(records: seq<Record>, a: Attempt): Record {
    Record(DataEnd(records), |a.config|, Checksum(a.seed, a.config))
  }

  // ---------------------------------------------------------------------------
  // The decision of one run
  // ---------------------------------------------------------------------------

  lemma ReadyFrame(m: Cells, m': Cells, records: seq<Record>)
    requires Ready(m, records) && Slot(|records|) >= HEADER_SIZE
    requires forall a :: DATA_START <= a < OTP_SIZE ==> m'[a] == m[a]
    ensures Ready(m', records)
  {
    LogFrame(m, m', records);
  }

  lemma ReadyScans(m: Cells, records: seq<Record>)
    requires Ready(m, records)
    ensures ScanAll(m) == Scanned(records)
  {
    ScanOfLog(m, records, 0);
    assert records[0..] == records;
  }

  lemma PlanOfReady(m: Cells, records: seq<Record>, a: Attempt)
    requires Ready(m, records)
    ensures ScanAll(m) == Scanned(records)
    ensures PlanFor(m, a.config, a.seed)
         == if Accepted(records, a.config) then Write(NewRecord(records, a), Slot(|records|)) else NoSpace
  {
    ReadyScans(m, records);
  }

  /** A run on a log either refuses, changing nothing, or writes its data right above the
      last block and its header into the next slot. */
  lemma PlanOfLog(boot: Boot, m: Cells, records: seq<Record>, a: Attempt)
    requires Ready(m, records) && Slot(|records|) >= HEADER_SIZE
    ensures !ScanAll(Buffered(boot, m)).Escapes?
    ensures PlanFor(Buffered(boot, m), a.config, a.seed)
         == if Accepted(records, a.config) then Write(NewRecord(records, a), Slot(|records|)) else NoSpace
  {
    var b := Buffered(boot, m);
    ReadyFrame(m, b, records);
    PlanOfReady(b, records, a);
  }

  lemma RoomMeansSlot(records: seq<Record>)
    requires Contiguous(records) && Gap(records) >= 0
    ensures Slot(|records|) >= HEADER_SIZE
  {
    DataEndGrows(records, |records|, |records|);
    assert records[..|records|] == records;
  }

  /** The memory after a run on a log with room for the next header. */
  lemma ApplyOnLog(boot: Boot, m: Cells, records: seq<Record>, count: nat, a: Attempt)
    requires Ready(m, records) && CounterReads(boot, m, count) && Gap(records) >= 0
    ensures Defined(boot, m, a)
    ensures PlanOf(boot, m, a)
         == if Accepted(records, a.config) then Write(NewRecord(records, a), Slot(|records|)) else NoSpace
  {
    RoomMeansSlot(records);
    PlanOfLog(boot, m, records, a);
    if Accepted(records, a.config) { AcceptedFits(records, a.config); }
  }

  // ---------------------------------------------------------------------------
  // When the space check protects the log
  // ---------------------------------------------------------------------------

  /** The addresses an accepted run writes besides the counter. */
  predicate Written(records: seq<Record>, config: Config, address: int) {
    DataEnd(records) <= address < DataEnd(records) + |config|
    || Slot(|records|) <= address < Slot(|records|) + HEADER_SIZE
  }

  /** An accepted run stays clear of all committed bytes exactly when the free gap is not
      negative. With a negative gap the unsigned comparison lets every run through. */
  lemma SafeIffGap(m: Cells, records: seq<Record>, config: Config)
    requires Log(m, records) && records != [] && Slot(|records|) >= HEADER_SIZE
    requires Accepted(records, config)
    ensures (forall a :: Written(records, config, a) ==> !Committed(records, a)) <==> Gap(records) >= 0
  {
    if Gap(records) < 0 {
      var a := Slot(|records|);
      assert Written(records, config, a);
      assert Committed(records, a);
    }
  }

  /** A negative gap is never refused. */
  lemma NegativeGapAccepts(records: seq<Record>, config: Config)
    requires -(0x1_0000_0000 - 64) < Gap(records) < 0
    ensures Accepted(records, config)
  {
    assert Unsigned32(Gap(records)) == Gap(records) + 0x1_0000_0000;
  }

  /** How the gap moves with the length of an accepted configuration. */
  lemma GapAfter(m: Cells, records: seq<Record>, a: Attempt)
    requires Log(m, records)
    ensures Gap(records + [NewRecord(records, a)]) == Gap(records) - |a.config| - HEADER_SIZE
  {
  }

  // ---------------------------------------------------------------------------
  // One run
  // ---------------------------------------------------------------------------

  lemma CounterWrite(boot: Boot, m: Cells, count: nat)
    requires CounterReads(boot, m, count)
    ensures var c := CounterBytes(boot, m);
      && (c[0], c[1]) == Thermometer(boot, Next(count))
      && BurnsExactly(boot, m, 0, c)
  {
    AdvanceCounts(boot, count, (m[0], m[1]));
    AdvanceBurns(boot, count, (m[0], m[1]), Thermometer(boot, Next(count)));
  }

  /** On a part whose counter reads any count, the header walk of a run stays in its buffer, whatever
      the rest of the memory holds. */
  lemma WalkStaysInside(boot: Boot, m: Cells, count: nat)
    requires CounterReads(boot, m, count)
    ensures !ScanAll(Buffered(boot, m)).Escapes?
  {
    CounterWrite(boot, m, count);
    CounterIsNoSignature(boot, Next(count));
    CounterStopsScan(Buffered(boot, m));
  }

  /** The three writes touch the counter, the data block and the header slot, nothing else. */
  lemma WritesFrame(boot: Boot, m: Cells, c: seq<Byte>, r: Record, slot: nat, config: Config, writes: nat, x: nat)
    requires |c| == DATA_START && r.length == |config|
    requires DATA_START <= r.offset && r.offset + |config| <= slot && slot + HEADER_SIZE <= OTP_SIZE
    requires x < OTP_SIZE
    ensures var m' := AfterWrites(boot, m, c, r, slot, config, writes);
      m'[x] == if x < DATA_START && writes >= 1 then Burn(boot, x, m[x], c[x])
               else if r.offset <= x < r.offset + |config| && writes >= 2 then Burn(boot, x, m[x], config[x - r.offset])
               else if slot <= x < slot + HEADER_SIZE && writes >= 3 then Burn(boot, x, m[x], HeaderBytes(r)[x - slot])
               else m[x]
  {
    var m1 := if writes >= 1 then Burned(boot, m, 0, c) else m;
    var m2 := if writes >= 2 then Burned(boot, m1, r.offset, config) else m1;
    var m3 := if writes >= 3 then Burned(boot, m2, slot, HeaderBytes(r)) else m2;
    AfterWritesIs(boot, m, c, r, slot, config, writes, m1, m2, m3);
    BurnedAt(boot, m, 0, c, writes >= 1, m1, x);
    BurnedAt(boot, m1, r.offset, config, writes >= 2, m2, x);
    BurnedAt(boot, m2, slot, HeaderBytes(r), writes >= 3, m3, x);
  }

  lemma AfterWritesIs(boot: Boot, m: Cells, c: seq<Byte>, r: Record, slot: nat, config: Config, writes: nat,
      m1: Cells, m2: Cells, m3: Cells)
    requires |c| == DATA_START && r.length == |config| && r.offset < 65536
    requires r.offset + |config| <= OTP_SIZE && slot + HEADER_SIZE <= OTP_SIZE
    requires Same(m1, if writes >= 1 then Burned(boot, m, 0, c) else m)
    requires Same(m2, if writes >= 2 then Burned(boot, m1, r.offset, config) else m1)
    requires Same(m3, if writes >= 3 then Burned(boot, m2, slot, HeaderBytes(r)) else m2)
    ensures Same(m3, AfterWrites(boot, m, c, r, slot, config, writes))
  {
  }

  lemma BurnedAt(boot: Boot, m: Cells, at: nat, data: seq<Byte>, written: bool, m': Cells, x: nat)
    requires at + |data| <= OTP_SIZE && x < OTP_SIZE && Same(m', if written then Burned(boot, m, at, data) else m)
    ensures m'[x] == if written && at <= x < at + |data| then Burn(boot, x, m[x], data[x - at]) else m[x]
  {
  }

  lemma AcceptedFits(records: seq<Record>, config: Config)
    requires Contiguous(records) && Gap(records) >= 0 && Accepted(records, config)
    ensures DATA_START <= DataEnd(records) && DataEnd(records) + |config| < Slot(|records|)
  {
    DataEndGrows(records, |records|, |records|);
    assert records[..|records|] == records;
  }

  /** Whatever number of its writes gets through, an accepted run with a non-negative gap
      changes no committed byte. */
  lemma RunKeepsCommitted(boot: Boot, m: Cells, records: seq<Record>, count: nat, a: Attempt, x: nat)
    requires Ready(m, records) && CounterReads(boot, m, count) && Gap(records) >= 0
    requires x < OTP_SIZE && Committed(records, x)
    ensures Defined(boot, m, a)
    ensures Apply(boot, m, a)[x] == m[x]
  {
    ApplyOnLog(boot, m, records, count, a);
    if Accepted(records, a.config) {
      AcceptedFits(records, a.config);
      WritesFrame(boot, m, CounterBytes(boot, m), NewRecord(records, a), Slot(|records|), a.config, a.writes, x);
    }
  }

  /** Besides the counter a run changes only the addresses that it is said to write. */
  lemma OnlyWritten(boot: Boot, m: Cells, records: seq<Record>, count: nat, a: Attempt, x: nat)
    requires Ready(m, records) && CounterReads(boot, m, count) && Gap(records) >= 0
    requires DATA_START <= x < OTP_SIZE && !Written(records, a.config, x)
    ensures Defined(boot, m, a)
    ensures Apply(boot, m, a)[x] == m[x]
  {
    ApplyOnLog(boot, m, records, count, a);
    if Accepted(records, a.config) {
      AcceptedFits(records, a.config);
      WritesFrame(boot, m, CounterBytes(boot, m), NewRecord(records, a), Slot(|records|), a.config, a.writes, x);
    }
  }

  lemma RunKeepsLog(boot: Boot, m: Cells, records: seq<Record>, count: nat, a: Attempt)
    requires Ready(m, records) && CounterReads(boot, m, count) && Gap(records) >= 0
    ensures Defined(boot, m, a)
    ensures Log(Apply(boot, m, a), records)
  {
    ApplyOnLog(boot, m, records, count, a);
    var m' := Apply(boot, m, a);
    forall x | 0 <= x < OTP_SIZE && Committed(records, x) ensures m'[x] == m[x] {
      RunKeepsCommitted(boot, m, records, count, a, x);
    }
    LogFrame(m, m', records);
  }

  function CountAfter(records: seq<Record>, count: nat, a: Attempt): nat {
    if Accepted(records, a.config) && a.writes >= 1 then Next(count) else count
  }

  /** The counter moves by one as soon as an accepted run writes at all. */
  lemma RunCounts(boot: Boot, m: Cells, records: seq<Record>, count: nat, a: Attempt)
    requires Ready(m, records) && CounterReads(boot, m, count) && Gap(records) >= 0
    ensures Defined(boot, m, a)
    ensures CounterReads(boot, Apply(boot, m, a), CountAfter(records, count, a))
  {
    ApplyOnLog(boot, m, records, count, a);
    if Accepted(records, a.config) {
      AcceptedFits(records, a.config);
      var c := CounterBytes(boot, m);
      WritesFrame(boot, m, c, NewRecord(records, a), Slot(|records|), a.config, a.writes, 0);
      WritesFrame(boot, m, c, NewRecord(records, a), Slot(|records|), a.config, a.writes, 1);
      CounterWrite(boot, m, count);
    }
  }

  ghost predicate HeaderBurns(boot: Boot, m: Cells, records: seq<Record>, a: Attempt)
    requires Slot(|records|) >= 0 && DataEnd(records) < 65536
  {
    BurnsExactly(boot, m, Slot(|records|), HeaderBytes(NewRecord(records, a)))
  }

  ghost predicate DataBurns(boot: Boot, m: Cells, records: seq<Record>, a: Attempt)
    requires DataEnd(records) + |a.config| <= OTP_SIZE
  {
    BurnsExactly(boot, m, DataEnd(records), a.config)
  }

  lemma HeaderLands(boot: Boot, m: Cells, c: seq<Byte>, r: Record, slot: nat, config: Config)
    requires |c| == DATA_START && r.length == |config|
    requires DATA_START <= r.offset && r.offset + |config| <= slot && slot + HEADER_SIZE <= OTP_SIZE
    requires BurnsExactly(boot, m, slot, HeaderBytes(r))
    ensures var m' := AfterWrites(boot, m, c, r, slot, config, 3);
      IsHeader(m', slot) && RecordAt(m', slot) == r
  {
    var m' := AfterWrites(boot, m, c, r, slot, config, 3);
    var h := HeaderBytes(r);
    forall i | 0 <= i < HEADER_SIZE ensures m'[slot + i] == h[i] {
      WritesFrame(boot, m, c, r, slot, config, 3, slot + i);
    }
    assert m'[slot..slot + HEADER_SIZE] == h;
    HeaderRoundTrip(m', slot, r);
  }

  /** A run by numbers and bytes. It is refused exactly when the configuration does not leave a free byte below the
      next header slot; otherwise its three writes, as far as they get through, are the advanced counter, the
      configuration right above the last block, and the header in that slot. */
  lemma RunInBytes(boot: Boot, m: Cells, records: seq<Record>, count: nat, a: Attempt, slot: nat, end: nat, x: nat)
    requires Ready(m, records) && CounterReads(boot, m, count) && Gap(records) >= 0 && x < 2048
    requires slot == Slot(|records|) && end == DataEnd(records)
    ensures slot == 2040 - 8 * |records| && 2 <= end <= slot && Defined(boot, m, a)
    ensures end + |a.config| >= slot ==> OutcomeOf(boot, m, a) == OutOfSpace && Apply(boot, m, a)[x] == m[x]
    ensures end + |a.config| < slot ==>
      && (a.writes < 3 ==> OutcomeOf(boot, m, a) == WriteFailed)
      && Apply(boot, m, a)[x] == WrittenByte(boot, m, count, a, end, slot, HeaderBytes(NewRecord(records, a)), x)
  {
    ApplyOnLog(boot, m, records, count, a);
    RoomMeansSlot(records);
    EndIsAbove(records);
    Accepts(m, records, a.config);
    if end + |a.config| < slot {
      AcceptedFits(records, a.config);
      WrittenIs(boot, m, count, a, CounterBytes(boot, m), NewRecord(records, a), slot, Apply(boot, m, a), x);
    }
  }

  lemma WrittenIs(boot: Boot, m: Cells, count: nat, a: Attempt, c: seq<Byte>, r: Record, slot: nat, m': Cells, x: nat)
    requires CounterReads(boot, m, count) && c == CounterBytes(boot, m) && r.length == |a.config| && x < 2048
    requires DATA_START <= r.offset && r.offset + |a.config| <= slot && slot + HEADER_SIZE <= OTP_SIZE
    requires Same(m', AfterWrites(boot, m, c, r, slot, a.config, a.writes))
    ensures m'[x] == WrittenByte(boot, m, count, a, r.offset, slot, HeaderBytes(r), x)
  {
    WritesFrame(boot, m, c, r, slot, a.config, a.writes, x);
    if x < 2 { CounterByte(boot, m, count, x); }
  }

  /** Byte x after a run that is let through. */
  function WrittenByte(boot: Boot, m: Cells, count: nat, a: Attempt, end: nat, slot: nat, header: seq<Byte>,
                       x: nat): Byte
    requires count <= LIMIT && x < 2048 && |header| == 8
  {
    if x == 0 && a.writes >= 1 then Thermometer(boot, Next(count)).0
    else if x == 1 && a.writes >= 1 then Thermometer(boot, Next(count)).1
    else if end <= x < end + |a.config| && a.writes >= 2 then Burn(boot, x, m[x], a.config[x - end])
    else if slot <= x < slot + 8 && a.writes >= 3 then Burn(boot, x, m[x], header[x - slot])
    else m[x]
  }

  lemma CounterByte(boot: Boot, m: Cells, count: nat, x: nat)
    requires CounterReads(boot, m, count) && x < 2
    ensures Burn(boot, x, m[x], CounterBytes(boot, m)[x])
         == if x == 0 then Thermometer(boot, Next(count)).0 else Thermometer(boot, Next(count)).1
  {
    var c := CounterBytes(boot, m);
    CounterWrite(boot, m, count);
    BurnsAt(boot, m, 0, c, 0);
    BurnsAt(boot, m, 0, c, 1);
  }

  lemma SmallUnsigned(x: int)
    requires 0 <= x < 0x1_0000_0000
    ensures Unsigned32(x) == x
  {
  }

  lemma Accepts(m: Cells, records: seq<Record>, config: Config)
    requires Log(m, records) && Gap(records) >= 0
    ensures Accepted(records, config) <==> |config| < Gap(records)
  {
    assert Gap(records) <= OTP_SIZE by {
      DataEndGrows(records, |records|, |records|);
      assert records[..|records|] == records;
    }
    SmallUnsigned(Gap(records));
  }

  lemma EndIsAbove(records: seq<Record>)
    requires Contiguous(records)
    ensures DATA_START <= DataEnd(records)
  {
    DataEndGrows(records, |records|, |records|);
    assert records[..|records|] == records;
  }

  /** A run ends with a complaint about a record exactly when the header walk gives up. */
  lemma InvalidIff(boot: Boot, m: Cells, a: Attempt)
    requires Defined(boot, m, a)
    ensures OutcomeOf(boot, m, a) == InvalidRecord <==> ScanAll(Buffered(boot, m)).OutOfRange?
    ensures OutcomeOf(boot, m, a) in {InvalidRecord, OutOfSpace} ==> Apply(boot, m, a) == m
  {
  }

  /** A complete run whose header burns exactly commits its record. */
  lemma RunCommits(boot: Boot, m: Cells, records: seq<Record>, count: nat, a: Attempt)
    requires Ready(m, records) && CounterReads(boot, m, count) && Gap(records) >= 0
    requires Accepted(records, a.config) && a.writes == 3
    requires HeaderBurns(boot, m, records, a)
    ensures Defined(boot, m, a)
    ensures Log(Apply(boot, m, a), records + [NewRecord(records, a)])
  {
    ApplyOnLog(boot, m, records, count, a);
    AcceptedFits(records, a.config);
    var r := NewRecord(records, a);
    HeaderLands(boot, m, CounterBytes(boot, m), r, Slot(|records|), a.config);
    RunKeepsLog(boot, m, records, count, a);
    LogExtends(Apply(boot, m, a), records, r);
  }

  lemma ExpectedAt(m: Cells, c: seq<Byte>, r: Record, slot: nat, config: Config, x: nat)
    requires |c| == DATA_START && r.length == |config|
    requires DATA_START <= r.offset && r.offset + |config| <= slot && slot + HEADER_SIZE <= OTP_SIZE
    requires x < OTP_SIZE
    ensures Expected(m, c, r, slot, config)[x]
         == if x < DATA_START then c[x]
            else if r.offset <= x < r.offset + |config| then config[x - r.offset]
            else if slot <= x < slot + HEADER_SIZE then HeaderBytes(r)[x - slot]
            else m[x]
  {
    var m1 := Overlaid(m, 0, c);
    var m2 := Overlaid(m1, r.offset, config);
    assert Overlaid(m2, slot, HeaderBytes(r)) == Expected(m, c, r, slot, config);
  }

  lemma VerifiedBurns(boot: Boot, m: Cells, c: seq<Byte>, r: Record, slot: nat, config: Config)
    requires |c| == DATA_START && r.length == |config|
    requires DATA_START <= r.offset && r.offset + |config| <= slot && slot + HEADER_SIZE <= OTP_SIZE
    requires Verifies(boot, m, c, r, slot, config)
    ensures BurnsExactly(boot, m, r.offset, config) && BurnsExactly(boot, m, slot, HeaderBytes(r))
  {
    var h := HeaderBytes(r);
    forall i | 0 <= i < |config| ensures Burn(boot, r.offset + i, m[r.offset + i], config[i]) == config[i] {
      VerifiedAt(boot, m, c, r, slot, config, r.offset + i);
    }
    forall i | 0 <= i < HEADER_SIZE ensures Burn(boot, slot + i, m[slot + i], h[i]) == h[i] {
      VerifiedAt(boot, m, c, r, slot, config, slot + i);
    }
  }

  lemma VerifiedAt(boot: Boot, m: Cells, c: seq<Byte>, r: Record, slot: nat, config: Config, x: nat)
    requires |c| == DATA_START && r.length == |config|
    requires DATA_START <= r.offset && r.offset + |config| <= slot && slot + HEADER_SIZE <= OTP_SIZE
    requires Verifies(boot, m, c, r, slot, config) && x < OTP_SIZE
    ensures r.offset <= x < r.offset + |config| ==> Burn(boot, x, m[x], config[x - r.offset]) == config[x - r.offset]
    ensures slot <= x < slot + HEADER_SIZE ==>
      Burn(boot, x, m[x], HeaderBytes(r)[x - slot]) == HeaderBytes(r)[x - slot]
  {
    WritesFrame(boot, m, c, r, slot, config, 3, x);
    ExpectedAt(m, c, r, slot, config, x);
  }

  lemma BurntVerifies(boot: Boot, m: Cells, c: seq<Byte>, r: Record, slot: nat, config: Config)
    requires |c| == DATA_START && r.length == |config|
    requires DATA_START <= r.offset && r.offset + |config| <= slot && slot + HEADER_SIZE <= OTP_SIZE
    requires BurnsExactly(boot, m, 0, c)
    requires BurnsExactly(boot, m, r.offset, config) && BurnsExactly(boot, m, slot, HeaderBytes(r))
    ensures Verifies(boot, m, c, r, slot, config)
  {
    var m', e := AfterWrites(boot, m, c, r, slot, config, 3), Expected(m, c, r, slot, config);
    forall x | 0 <= x < OTP_SIZE ensures m'[x] == e[x] {
      WritesFrame(boot, m, c, r, slot, config, 3, x);
      ExpectedAt(m, c, r, slot, config, x);
      BurnsAt(boot, m, 0, c, x);
      BurnsAt(boot, m, r.offset, config, x);
      BurnsAt(boot, m, slot, HeaderBytes(r), x);
    }
    assert m' == e;
  }

  lemma BurnsAt(boot: Boot, m: Cells, at: nat, data: seq<Byte>, x: nat)
    requires at + |data| <= OTP_SIZE && BurnsExactly(boot, m, at, data) && x < OTP_SIZE
    ensures at <= x < at + |data| ==> Burn(boot, x, m[x], data[x - at]) == data[x - at]
  {
    if at <= x < at + |data| {
      var i := x - at;
      assert Burn(boot, at + i, m[at + i], data[i]) == data[i];
    }
  }

  lemma OutcomeOnLog(boot: Boot, m: Cells, records: seq<Record>, count: nat, a: Attempt)
    requires Ready(m, records) && CounterReads(boot, m, count) && Gap(records) >= 0
    requires Accepted(records, a.config)
    ensures DataEnd(records) + |a.config| <= OTP_SIZE
    ensures Defined(boot, m, a)
    ensures OutcomeOf(boot, m, a) == Programmed
       <==> a.writes >= 3 && Verifies(boot, m, CounterBytes(boot, m), NewRecord(records, a), Slot(|records|), a.config)
  {
    AcceptedFits(records, a.config);
    ApplyOnLog(boot, m, records, count, a);
  }

  lemma CounterBurns(boot: Boot, m: Cells, count: nat)
    requires CounterReads(boot, m, count)
    ensures BurnsExactly(boot, m, 0, CounterBytes(boot, m))
  {
    CounterWrite(boot, m, count);
  }

  /** The run reports success exactly when all three writes got through and the medium took
      the data and the header as they were. */
  lemma SuccessIff(boot: Boot, m: Cells, records: seq<Record>, count: nat, a: Attempt)
    requires Ready(m, records) && CounterReads(boot, m, count) && Gap(records) >= 0
    requires Accepted(records, a.config)
    ensures DataEnd(records) + |a.config| <= OTP_SIZE
    ensures Defined(boot, m, a)
    ensures OutcomeOf(boot, m, a) == Programmed
       <==> a.writes >= 3 && DataBurns(boot, m, records, a) && HeaderBurns(boot, m, records, a)
  {
    OutcomeOnLog(boot, m, records, count, a);
    AcceptedFits(records, a.config);
    CounterBurns(boot, m, count);
    var c, r, slot := CounterBytes(boot, m), NewRecord(records, a), Slot(|records|);
    if Verifies(boot, m, c, r, slot, a.config) {
      VerifiedBurns(boot, m, c, r, slot, a.config);
    } else if DataBurns(boot, m, records, a) && HeaderBurns(boot, m, records, a) {
      BurntVerifies(boot, m, c, r, slot, a.config);
    }
  }

  lemma LongerLogScans(m: Cells, records: seq<Record>, r: Record)
    requires Log(m, records + [r]) && Slot(|records| + 1) >= 0 && r.length <= CONFIG_MAX
    requires forall i :: 0 <= i < |records| ==> records[i].length <= CONFIG_MAX
    ensures ScanAll(m) == Scanned(records + [r]) <==> !IsHeader(m, Slot(|records| + 1))
  {
    var longer := records + [r];
    ScanOfLog(m, longer, 0);
    assert longer[0..] == longer;
  }

  /** After a success, rescanning gives the old records followed by the new one exactly when the
      next slot does not read as a header. */
  lemma SuccessScans(boot: Boot, m: Cells, records: seq<Record>, count: nat, a: Attempt, m': Cells)
    requires Ready(m, records) && CounterReads(boot, m, count) && Gap(records) >= 0
    requires Accepted(records, a.config) && a.writes == 3
    requires Defined(boot, m, a) && OutcomeOf(boot, m, a) == Programmed && m' == Apply(boot, m, a)
    ensures Slot(|records| + 1) >= 0
    ensures ScanAll(m') == Scanned(records + [NewRecord(records, a)]) <==> !IsHeader(m', Slot(|records| + 1))
  {
    SuccessIff(boot, m, records, count, a);
    RunCommits(boot, m, records, count, a);
    RoomMeansSlot(records);
    LongerLogScans(m', records, NewRecord(records, a));
  }

  /** The record's block holds this configuration. */
  ghost predicate Holds(m: Cells, r: Record, config: Config) {
    && r.length == |config|
    && DATA_START <= r.offset && r.offset + r.length <= OTP_SIZE
    && forall i :: 0 <= i < |config| ==> m[r.offset + i] == config[i]
  }

  lemma DataLands(boot: Boot, m: Cells, c: seq<Byte>, r: Record, slot: nat, config: Config, m': Cells)
    requires |c| == DATA_START && r.length == |config|
    requires DATA_START <= r.offset && r.offset + |config| <= slot && slot + HEADER_SIZE <= OTP_SIZE
    requires Same(m', AfterWrites(boot, m, c, r, slot, config, 3))
    requires BurnsExactly(boot, m, r.offset, config)
    ensures Holds(m', r, config)
  {
    forall i | 0 <= i < |config| ensures m'[r.offset + i] == config[i] {
      WritesFrame(boot, m, c, r, slot, config, 3, r.offset + i);
    }
  }

  /** A success is three writes of which the medium took the data as it was. */
  lemma SuccessWrites(boot: Boot, m: Cells, records: seq<Record>, count: nat, a: Attempt, m': Cells)
      returns (c: seq<Byte>, r: Record, slot: nat)
    requires Ready(m, records) && CounterReads(boot, m, count) && Gap(records) >= 0
    requires Accepted(records, a.config) && a.writes == 3
    requires Defined(boot, m, a) && OutcomeOf(boot, m, a) == Programmed && m' == Apply(boot, m, a)
    ensures |c| == DATA_START && r == NewRecord(records, a) && slot == Slot(|records|)
    ensures DATA_START <= r.offset && r.offset + |a.config| <= slot && slot + HEADER_SIZE <= OTP_SIZE
    ensures Same(m', AfterWrites(boot, m, c, r, slot, a.config, 3)) && BurnsExactly(boot, m, r.offset, a.config)
  {
    c, r, slot := CounterBytes(boot, m), NewRecord(records, a), Slot(|records|);
    SuccessIff(boot, m, records, count, a);
    ApplyOnLog(boot, m, records, count, a);
    AcceptedFits(records, a.config);
  }

  /** After a success the new record's block holds the configuration. */
  lemma SuccessStores(boot: Boot, m: Cells, records: seq<Record>, count: nat, a: Attempt, m': Cells)
    requires Ready(m, records) && CounterReads(boot, m, count) && Gap(records) >= 0
    requires Accepted(records, a.config) && a.writes == 3
    requires Defined(boot, m, a) && OutcomeOf(boot, m, a) == Programmed && m' == Apply(boot, m, a)
    ensures Holds(m', NewRecord(records, a), a.config)
  {
    var c, r, slot := SuccessWrites(boot, m, records, count, a, m');
    DataLands(boot, m, c, r, slot, a.config, m');
  }

  lemma HeaderInBytes(m: Cells, slot: nat, r: Record)
    requires slot <= OTP_SIZE - HEADER_SIZE && IsHeader(m, slot) && RecordAt(m, slot) == r
    ensures m[slot..slot + 4] == ['I' as int, 'D' as int, 'X' as int, r.checksum]
    ensures m[slot + 4] as int * 256 + m[slot + 5] as int == r.offset
    ensures m[slot + 6] as int * 256 + m[slot + 7] as int == r.length
  {
  }

  /** And the header, byte by byte: the signature, the checksum, then offset and length with the high byte first. */
  lemma SuccessHeader(boot: Boot, m: Cells, records: seq<Record>, count: nat, a: Attempt, m': Cells)
      returns (slot: nat, sum: Byte)
    requires Ready(m, records) && CounterReads(boot, m, count) && Gap(records) >= 0
    requires Accepted(records, a.config) && a.writes == 3
    requires Defined(boot, m, a) && OutcomeOf(boot, m, a) == Programmed && m' == Apply(boot, m, a)
    ensures slot == 2048 - 8 * (|records| + 1) && slot <= 2040
    ensures m'[slot..slot + 4] == ['I' as int, 'D' as int, 'X' as int, sum]
    ensures HasParity(a.seed, a.config, sum)
    ensures m'[slot + 4] as int * 256 + m'[slot + 5] as int == DataEnd(records)
    ensures m'[slot + 6] as int * 256 + m'[slot + 7] as int == |a.config|
  {
    SuccessIff(boot, m, records, count, a);
    RunCommits(boot, m, records, count, a);
    slot, sum := Slot(|records|), Checksum(a.seed, a.config);
    LastRecord(m', records, NewRecord(records, a));
    HeaderInBytes(m', slot, NewRecord(records, a));
    ChecksumParity(a.seed, a.config, sum);
  }

  lemma LastRecord(m: Cells, records: seq<Record>, r: Record)
    requires Log(m, records + [r])
    ensures 0 <= Slot(|records|) <= OTP_SIZE - HEADER_SIZE
    ensures IsHeader(m, Slot(|records|)) && RecordAt(m, Slot(|records|)) == r
  {
    assert (records + [r])[|records|] == r;
  }

  /** Where neither counter nor header goes, a success leaves what a plain write of the data would. */
  lemma DataOverlays(boot: Boot, m: Cells, c: seq<Byte>, r: Record, slot: nat, config: Config, m': Cells, at: nat)
    requires |c| == DATA_START && r.length == |config|
    requires DATA_START <= r.offset && r.offset + |config| <= slot && slot + HEADER_SIZE <= OTP_SIZE
    requires Same(m', AfterWrites(boot, m, c, r, slot, config, 3)) && BurnsExactly(boot, m, r.offset, config)
    requires DATA_START <= at && at + HEADER_SIZE <= slot
    ensures IsHeader(m', at) <==> IsHeader(Overlaid(m, r.offset, config), at)
  {
    forall x: nat | at <= x < at + HEADER_SIZE ensures m'[x] == Overlaid(m, r.offset, config)[x] {
      WritesFrame(boot, m, c, r, slot, config, 3, x);
      BurnsAt(boot, m, r.offset, config, x);
    }
  }

  lemma SlotsAreEightApart(k: nat)
    requires Slot(k) > 0
    ensures Slot(k) >= HEADER_SIZE
  {
  }

  /** Slot 255 shares its first byte with the counter, so it never reads as a header. */
  lemma LowestSlot(boot: Boot, m: Cells, count: nat)
    requires CounterReads(boot, m, count)
    ensures !IsHeader(m, 0)
  {
    CounterIsNoSignature(boot, count);
  }

  /** The same before the run, for every gap: rescanning gives the old records followed by the new one
      exactly when the slot after the next does not read as a header once the data lies over it. */
  lemma SuccessScansIff(boot: Boot, m: Cells, records: seq<Record>, count: nat, a: Attempt, m': Cells)
    requires Ready(m, records) && CounterReads(boot, m, count) && Gap(records) >= 0
    requires Accepted(records, a.config) && a.writes == 3
    requires Defined(boot, m, a) && OutcomeOf(boot, m, a) == Programmed && m' == Apply(boot, m, a)
    ensures DataEnd(records) + |a.config| <= OTP_SIZE && Slot(|records| + 1) >= 0
    ensures ScanAll(m') == Scanned(records + [NewRecord(records, a)]) <==>
      !IsHeader(Overlaid(m, DataEnd(records), a.config), Slot(|records| + 1))
  {
    SuccessScans(boot, m, records, count, a, m');
    var c, r, slot := SuccessWrites(boot, m, records, count, a, m');
    var next := Slot(|records| + 1);
    assert IsHeader(m', next) <==> IsHeader(Overlaid(m, r.offset, a.config), next) by {
      if next == 0 {
        RunCounts(boot, m, records, count, a);
        LowestSlot(boot, m', CountAfter(records, count, a));
        LowestSlot(boot, Overlaid(m, r.offset, a.config), count);
      } else {
        SlotsAreEightApart(|records| + 1);
        DataOverlays(boot, m, c, r, slot, a.config, m', next);
      }
    }
  }

  /** A success that leaves a gap leaves the next slot as it was. */
  lemma NextSlotUntouched(boot: Boot, m: Cells, records: seq<Record>, count: nat, a: Attempt, m': Cells, x: nat)
    requires Ready(m, records) && CounterReads(boot, m, count) && Gap(records) >= 0 && Accepted(records, a.config)
    requires Defined(boot, m, a) && m' == Apply(boot, m, a)
    requires Gap(records + [NewRecord(records, a)]) >= 0
    requires Slot(|records| + 1) <= x < Slot(|records| + 1) + HEADER_SIZE
    ensures x < OTP_SIZE && m'[x] == m[x]
  {
    ApplyOnLog(boot, m, records, count, a);
    AcceptedFits(records, a.config);
    GapAfter(m, records, a);
    WritesFrame(boot, m, CounterBytes(boot, m), NewRecord(records, a), Slot(|records|), a.config, a.writes, x);
  }

  /** Without a gap a stored configuration reaches into the next slot; where it does so by three bytes or
      more, the slot reads as a header exactly when the configuration says so there. */
  lemma SlotReadsConfig(m: Cells, base: nat, config: Config, k: nat, at: int)
    requires forall x :: base <= x < base + |config| ==> x < OTP_SIZE && m[x] == config[x - base]
    requires at == base + k && k + 3 <= |config| && 0 <= at <= OTP_SIZE - HEADER_SIZE
    ensures IsHeader(m, at) <==> config[k..k + 3] == ['I' as int, 'D' as int, 'X' as int]
  {
    assert m[at] == config[k] && m[at + 1] == config[k + 1] && m[at + 2] == config[k + 2];
    assert config[k..k + 3] == [config[k], config[k + 1], config[k + 2]];
  }

  lemma HeaderOverData(boot: Boot, m: Cells, c: seq<Byte>, r: Record, slot: nat, config: Config, x: nat)
    requires |c| == DATA_START && r.length == |config|
    requires DATA_START <= slot <= x < r.offset && x < slot + HEADER_SIZE
    requires r.offset + |config| <= OTP_SIZE && slot + HEADER_SIZE <= OTP_SIZE
    ensures AfterWrites(boot, m, c, r, slot, config, 3)[x] == Burn(boot, x, m[x], HeaderBytes(r)[x - slot])
  {
    var m1 := Burned(boot, m, 0, c);
    var m2 := Burned(boot, m1, r.offset, config);
    assert m2[x] == m[x];
    assert AfterWrites(boot, m, c, r, slot, config, 3) == Burned(boot, m2, slot, HeaderBytes(r));
  }

  /** What goes wrong with a negative gap: the run is let through, and its header is burnt over the end
      of the last record's data. A committed byte there is lost exactly when burning changes it. */
  lemma NegativeGapDamages(boot: Boot, m: Cells, records: seq<Record>, a: Attempt, slot: nat, x: nat)
    requires Ready(m, records) && records != []
    requires -(0x1_0000_0000 - 64) < Gap(records) < 0 && slot == Slot(|records|) && slot >= HEADER_SIZE
    requires DataEnd(records) + |a.config| <= OTP_SIZE && a.writes == 3
    requires slot <= x < DataEnd(records)
    ensures Defined(boot, m, a) && Committed(records, x) && x < slot + HEADER_SIZE
    ensures Apply(boot, m, a)[x] == Burn(boot, x, m[x], HeaderBytes(NewRecord(records, a))[x - slot])
  {
    NegativeGapAccepts(records, a.config);
    PlanOfLog(boot, m, records, a);
    HeaderOverData(boot, m, CounterBytes(boot, m), NewRecord(records, a), slot, a.config, x);
  }

  /** The data ends no further up than 64 bytes a record allow. */
  lemma {:induction false} DataEndBound(records: seq<Record>)
    requires Contiguous(records) && forall i :: 0 <= i < |records| ==> records[i].length <= CONFIG_MAX
    ensures DataEnd(records) <= DATA_START + CONFIG_MAX * |records|
  {
    if records != [] {
      var before := records[..|records| - 1];
      forall i | 0 <= i < |before| ensures before[i].offset == DataEnd(before[..i]) {
        assert before[..i] == records[..i];
      }
      DataEndBound(before);
    }
  }

  /** On a log, whatever its gap, every run stays inside the buffer. */
  lemma LogIsDefined(boot: Boot, m: Cells, records: seq<Record>, a: Attempt)
    requires Ready(m, records) && Slot(|records|) >= HEADER_SIZE
    ensures Defined(boot, m, a)
  {
    PlanOfLog(boot, m, records, a);
    DataEndBound(records);
  }

  /** On any memory: a run leaves the buffer exactly when its header walk does, or when its configuration is
      let through and reaches past the end. */
  lemma DefinedIff(boot: Boot, m: Cells, a: Attempt)
    ensures Defined(boot, m, a) <==>
      match ScanAll(Buffered(boot, m))
      case Escapes => false
      case OutOfRange => true
      case Scanned(records) => Accepted(records, a.config) ==> DataEnd(records) + |a.config| <= OTP_SIZE
  {
    ScanStaysInside(Buffered(boot, m), 0);
  }
}
