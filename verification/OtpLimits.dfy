/**
  Runs on a part that is almost full: what the missing reserve for the next header costs, and what
  an interrupted run can leave in the way. Every memory here is reached from a blank part.
 */
module OtpLimits {
  import opened Bits
  import opened Options
  import opened OtpCounter
  import opened OtpLayout
  import opened OtpProgram
  import opened OtpRuns
  import opened OtpTraces

  function Zeros(n: nat): (config: Config)
    requires 0 < n <= CONFIG_MAX
    ensures |config| == n && forall i :: 0 <= i < n ==> config[i] == 0
  {
    seq(n, _ => 0)
  }

  /** A complete run with n zero bytes. */
  function Store(n: nat): Attempt
    requires 0 < n <= CONFIG_MAX
  {
    Attempt(Zeros(n), 0, 3)
  }

  function Fill(n: nat): (runs: seq<Attempt>)
    ensures |runs| == n
  {
    seq(n, _ => Store(CONFIG_MAX))
  }

  /** A log that was written by complete runs. */
  ghost predicate Clean(boot: Boot, m: Cells, records: seq<Record>, count: nat) {
    Ready(m, records) && CounterReads(boot, m, count) && BlankAbove(boot, m, records)
  }

  lemma FillStep(boot: Boot, m: Cells, records: seq<Record>, count: nat)
      returns (m1: Cells, records1: seq<Record>, count1: nat)
    requires Clean(boot, m, records, count) && Gap(records) >= 72
    ensures m1 == Step(boot, m, Store(CONFIG_MAX)) && records1 == After(records, Store(CONFIG_MAX))
    ensures Clean(boot, m1, records1, count1)
    ensures |records1| == |records| + 1 && Gap(records1) == Gap(records) - 72
  {
    var a := Store(CONFIG_MAX);
    Accepts(m, records, a.config);
    GapAfter(m, records, a);
    CleanStep(boot, m, records, count, a);
    StepKeepsReady(boot, m, records, count, a);
    m1, records1, count1 := Step(boot, m, a), After(records, a), CountAfter(records, count, a);
  }

  /** n complete runs with 64 bytes each take 72 bytes of the gap each. */
  lemma {:induction false} FillUp(boot: Boot, m: Cells, records: seq<Record>, count: nat, n: nat, tail: seq<Attempt>)
      returns (m1: Cells, records1: seq<Record>, count1: nat)
    requires Clean(boot, m, records, count) && Gap(records) >= 72 * n
    ensures Clean(boot, m1, records1, count1)
    ensures |records1| == |records| + n && Gap(records1) == Gap(records) - 72 * n
    ensures Same(Replay(boot, m, Fill(n) + tail), Replay(boot, m1, tail))
    ensures Same(AfterAll(records, Fill(n) + tail), AfterAll(records1, tail))
    decreases n
  {
    if n == 0 {
      m1, records1, count1 := m, records, count;
      assert Fill(0) + tail == tail;
    } else {
      var runs := Fill(n) + tail;
      assert runs[0] == Store(CONFIG_MAX) && runs[1..] == Fill(n - 1) + tail;
      var m0, records0, count0 := FillStep(boot, m, records, count);
      m1, records1, count1 := FillUp(boot, m0, records0, count0, n - 1, tail);
    }
  }

  lemma BlankIsClean(boot: Boot, m: Cells)
    requires m == BlankPart(boot)
    ensures Clean(boot, m, [], 0) && Gap([]) == 2038
  {
    BlankIsReady(boot);
  }

  lemma GapMeansEnd(records: seq<Record>)
    requires |records| == 28 && Gap(records) == 22
    ensures DataEnd(records) == 1794
  {
  }

  /** Twenty-eight full blocks leave 22 free bytes. */
  lemma NearlyFull(tail: seq<Attempt>) returns (m: Cells, records: seq<Record>, count: nat)
    ensures Clean(FromRom, m, records, count) && |records| == 28 && DataEnd(records) == 1794
    ensures Same(Replay(FromRom, BlankPart(FromRom), Fill(28) + tail), Replay(FromRom, m, tail))
    ensures Same(AfterAll([], Fill(28) + tail), AfterAll(records, tail))
  {
    BlankIsClean(FromRom, BlankPart(FromRom));
    m, records, count := FillFrom(BlankPart(FromRom), [], 28, tail);
  }

  lemma FillFrom(blank: Cells, none: seq<Record>, n: nat, tail: seq<Attempt>)
      returns (m: Cells, records: seq<Record>, count: nat)
    requires Clean(FromRom, blank, none, 0) && |none| == 0 && Gap(none) == 2038 && n == 28
    ensures Clean(FromRom, m, records, count) && |records| == 28 && DataEnd(records) == 1794
    ensures Same(Replay(FromRom, blank, Fill(n) + tail), Replay(FromRom, m, tail))
    ensures Same(AfterAll(none, Fill(n) + tail), AfterAll(records, tail))
  {
    m, records, count := FillUp(FromRom, blank, none, 0, n, tail);
    GapMeansEnd(records);
  }

  lemma {:induction false} OneRun(boot: Boot, m: Cells, records: seq<Record>, a: Attempt)
    ensures Same(Replay(boot, m, [a]), Step(boot, m, a)) && Same(AfterAll(records, [a]), After(records, a))
  {
  }

  // ---------------------------------------------------------------------------
  // The missing reserve
  // ---------------------------------------------------------------------------

  /** A complete run into blank cells that leaves a negative gap. */
  lemma LastCommit(m: Cells, records: seq<Record>, count: nat, a: Attempt, m': Cells, records': seq<Record>)
    requires Clean(FromRom, m, records, count) && |records| == 28 && DataEnd(records) == 1794
    requires a == Store(20) && m' == Step(FromRom, m, a) && records' == After(records, a)
    ensures Log(m', records') && records' == records + [NewRecord(records, a)]
    ensures BlankAbove(FromRom, m', records') && Holds(m', NewRecord(records, a), Zeros(20))
  {
    Accepts(m, records, a.config);
    CommitIsWrite(FromRom, m, records, count, a, m');
    CommitHolds(FromRom, m, records, count, a, m');
    BlankBurns(FromRom, m, records, Slot(28), HeaderBytes(NewRecord(records, a)));
    RunCommits(FromRom, m, records, count, a);
    forall x | 0 <= x < OTP_SIZE && DataEnd(records') <= x < Slot(|records'|) + HEADER_SIZE
      ensures m'[x] == Blank(FromRom, x)
    {
      WritesFrame(FromRom, m, CounterBytes(FromRom, m), NewRecord(records, a), Slot(28), a.config, 3, x);
    }
  }

  lemma LongerIsReady(m: Cells, m': Cells, records: seq<Record>, r: Record)
    requires Ready(m, records) && Log(m', records + [r]) && r.length <= CONFIG_MAX
    requires Slot(|records| + 1) >= 0 && m'[Slot(|records| + 1)] == 0
    ensures Ready(m', records + [r])
  {
  }

  lemma SlotIsZero(m: Cells, records: seq<Record>)
    requires |records| == 29 && DataEnd(records) == 1814 && records[28].offset == 1794
    requires BlankAbove(FromRom, m, records) && Holds(m, records[28], Zeros(20))
    ensures forall x :: 1808 <= x < 1816 ==> m[x] == 0
  {
    forall x: nat | 1808 <= x < 1816 ensures m[x] == 0 {
      if x < 1814 {
        var i := x - 1794;
        assert m[records[28].offset + i] == Zeros(20)[i];
      }
    }
  }

  /** The check reserves no room for the next header: one more run of 20 bytes is let through, and its
      data reaches six bytes into the next header slot. */
  lemma NegativeGapIsReached(runs: seq<Attempt>, m: Cells, records: seq<Record>)
    requires runs == Fill(28) + [Store(20)]
    requires m == Replay(FromRom, BlankPart(FromRom), runs) && records == AfterAll([], runs)
    ensures |records| == 29 && Gap(records) == -6
    ensures Ready(m, records) && records[28].offset == 1794 && Holds(m, records[28], Zeros(20))
    ensures forall x :: 1808 <= x < 1816 ==> m[x] == 0
  {
    var a := Store(20);
    var m0, records0, count := NearlyFull([a]);
    OneRun(FromRom, m0, records0, a);
    LastCommit(m0, records0, count, a, m, records);
    SlotIsZero(m, records);
    LongerIsReady(m0, m, records0, records[28]);
  }

  lemma ExactBurn(boot: Boot, m: Cells, at: nat, data: seq<Byte>)
    requires at + |data| <= OTP_SIZE && BurnsExactly(boot, m, at, data)
    ensures Burned(boot, m, at, data) == Overlaid(m, at, data)
  {
    var m', e := Burned(boot, m, at, data), Overlaid(m, at, data);
    forall x | 0 <= x < OTP_SIZE ensures m'[x] == e[x] { BurnsAt(boot, m, at, data, x); }
  }

  /** One zero byte more, and the run burns its header over the last block, whose bytes are zero. */
  lemma HeaderOverZeros(m: Cells, c: seq<Byte>, r: Record)
    requires |c| == DATA_START && BurnsExactly(FromRom, m, 0, c)
    requires r.offset == 1814 && r.length == 1
    requires forall x :: 1808 <= x < 1816 ==> m[x] == 0
    ensures Verifies(FromRom, m, c, r, 1808, Zeros(1))
  {
    var m1 := Burned(FromRom, m, 0, c);
    ExactBurn(FromRom, m, 0, c);
    BlankCellsBurn(FromRom, m1, 1814, Zeros(1));
    var m2 := Burned(FromRom, m1, 1814, Zeros(1));
    ExactBurn(FromRom, m1, 1814, Zeros(1));
    assert forall x :: 1808 <= x < 1816 ==> m2[x] == 0;
    BlankCellsBurn(FromRom, m2, 1808, HeaderBytes(r));
    ExactBurn(FromRom, m2, 1808, HeaderBytes(r));
  }

  lemma OverwrittenWithSuccess(m: Cells, records: seq<Record>, count: nat, a: Attempt)
    requires Ready(m, records) && |records| == 29 && DataEnd(records) == 1814 && CounterReads(FromRom, m, count)
    requires a == Store(1) && forall x :: 1808 <= x < 1816 ==> m[x] == 0
    ensures Defined(FromRom, m, a) && OutcomeOf(FromRom, m, a) == Programmed
    ensures Apply(FromRom, m, a)[1808] == 'I' as int
  {
    CounterBurns(FromRom, m, count);
    NegativeGapAccepts(records, a.config);
    NegativeGapDamages(FromRom, m, records, a, 1808, 1808);
    PlanOfLog(FromRom, m, records, a);
    HeaderOverZeros(m, CounterBytes(FromRom, m), NewRecord(records, a));
    assert Burn(FromRom, 1808, 0, 'I' as int) == 'I' as int by { BlankTakesAnything(FromRom, 1808, 'I' as int); }
  }

  /** The next run of one byte reports success and has destroyed the last configuration. */
  lemma SuccessLosesData(runs: seq<Attempt>, m: Cells, records: seq<Record>)
    requires runs == Fill(28) + [Store(20)]
    requires m == Replay(FromRom, BlankPart(FromRom), runs) && records == AfterAll([], runs)
    ensures |records| == 29 && Holds(m, records[28], Zeros(20))
    ensures Defined(FromRom, m, Store(1)) && OutcomeOf(FromRom, m, Store(1)) == Programmed
    ensures !Holds(Apply(FromRom, m, Store(1)), records[28], Zeros(20))
  {
    NegativeGapIsReached(runs, m, records);
    var count := CountIsReadable(runs, m);
    OverwrittenWithSuccess(m, records, count, Store(1));
    ByteIsLost(Apply(FromRom, m, Store(1)), records[28]);
  }

  lemma ByteIsLost(m: Cells, r: Record)
    requires r.offset == 1794 && m[1808] != 0
    ensures !Holds(m, r, Zeros(20))
  {
    var i: nat := 14;
    assert r.offset + i == 1808 && Zeros(20)[i] == 0;
  }

  lemma CountIsReadable(runs: seq<Attempt>, m: Cells) returns (count: nat)
    requires runs == Fill(28) + [Store(20)] && m == Replay(FromRom, BlankPart(FromRom), runs)
    ensures CounterReads(FromRom, m, count)
  {
    var a := Store(20);
    var m0, records0, count0 := NearlyFull([a]);
    OneRun(FromRom, m0, records0, a);
    RunCounts(FromRom, m0, records0, count0, a);
    count := CountAfter(records0, count0, a);
  }

  // ---------------------------------------------------------------------------
  // A configuration in the next slot
  // ---------------------------------------------------------------------------

  /** Twenty bytes that spell a header signature from byte 14 on. */
  const OVERLAPPING: Config := Zeros(14) + ['I' as int, 'D' as int, 'X' as int] + Zeros(3)

  lemma SpellsHeader(m: Cells)
    ensures IsHeader(Overlaid(m, 1794, OVERLAPPING), 1808)
  {
    var m' := Overlaid(m, 1794, OVERLAPPING);
    assert m'[1808] == OVERLAPPING[14] && m'[1809] == OVERLAPPING[15] && m'[1810] == OVERLAPPING[16];
  }

  lemma ReportsButMisreads(m: Cells, records: seq<Record>, count: nat, a: Attempt)
    requires Clean(FromRom, m, records, count) && |records| == 28 && DataEnd(records) == 1794
    requires a.config == OVERLAPPING && a.writes == 3
    ensures Defined(FromRom, m, a) && OutcomeOf(FromRom, m, a) == Programmed && Commits(records, a)
    ensures ScanAll(Step(FromRom, m, a)) != Scanned(After(records, a))
  {
    Accepts(m, records, a.config);
    BlankBurns(FromRom, m, records, 1794, a.config);
    BlankBurns(FromRom, m, records, 1816, HeaderBytes(NewRecord(records, a)));
    SuccessIff(FromRom, m, records, count, a);
    SuccessScansIff(FromRom, m, records, count, a, Step(FromRom, m, a));
    SpellsHeader(m);
  }

  /** Without any interruption: after 28 full blocks a run of 20 bytes that happens to spell a signature at the
      next slot reports success, and the memory scans as something else. */
  lemma OverlapIsScanned(runs: seq<Attempt>, m: Cells, records: seq<Record>, a: Attempt)
    requires runs == Fill(28) && m == Replay(FromRom, BlankPart(FromRom), runs) && records == AfterAll([], runs)
    requires a == Attempt(OVERLAPPING, 0, 3)
    ensures |records| == 28 && Defined(FromRom, m, a) && OutcomeOf(FromRom, m, a) == Programmed
    ensures Commits(records, a) && ScanAll(Step(FromRom, m, a)) != Scanned(After(records, a))
  {
    assert runs + [] == runs;
    var _, _, count := NearlyFull([]);
    ReportsButMisreads(m, records, count, a);
  }

  // ---------------------------------------------------------------------------
  // Past the end
  // ---------------------------------------------------------------------------

  /** The headers of these records, and nothing but zeros between the counter and them: what complete runs
      with zero bytes leave on a part that boots from ROM, however far up their data reaches. */
  ghost predicate Plain(m: Cells, records: seq<Record>, count: nat) {
    && CounterReads(FromRom, m, count) && Slot(|records|) >= HEADER_SIZE
    && (forall x :: DATA_START <= x < Slot(|records|) + HEADER_SIZE ==> m[x] == 0)
    && (forall i :: 0 <= i < |records| ==>
          && IsHeader(m, Slot(i)) && RecordAt(m, Slot(i)) == records[i]
          && records[i].offset <= MAX_FIELD && records[i].length <= MAX_FIELD)
  }

  lemma {:induction false} PlainScans(m: Cells, records: seq<Record>, count: nat, k: nat)
    requires Plain(m, records, count) && k <= |records|
    ensures ScanFrom(m, k) == Scanned(records[k..])
    decreases |records| - k
  {
    if k < |records| {
      PlainScans(m, records, count, k + 1);
      assert Slot(k) >= HEADER_SIZE && IsHeader(m, Slot(k));
      assert records[k..] == [records[k]] + records[k + 1..];
    }
  }

  lemma PlainBuffered(m: Cells, records: seq<Record>, count: nat)
    requires Plain(m, records, count)
    ensures Plain(Buffered(FromRom, m), records, Next(count))
    ensures ScanAll(Buffered(FromRom, m)) == Scanned(records)
  {
    CounterWrite(FromRom, m, count);
    var b := Buffered(FromRom, m);
    forall i | 0 <= i < |records|
      ensures IsHeader(b, Slot(i)) && RecordAt(b, Slot(i)) == records[i]
    {
      assert IsHeader(m, Slot(i)) && Slot(i) >= HEADER_SIZE;
    }
    PlainScans(b, records, Next(count), 0);
    assert records[0..] == records;
  }

  lemma ZeroBurnsNothing(x: nat, previous: Byte)
    requires x >= DATA_START
    ensures Burn(FromRom, x, previous, 0) == previous
  {
  }

  lemma ZeroWrites(m: Cells, c: seq<Byte>, r: Record, slot: nat, config: Config, m': Cells, x: nat)
    requires |c| == DATA_START && r.length == |config| && forall i :: 0 <= i < |config| ==> config[i] == 0
    requires DATA_START <= r.offset && r.offset + |config| <= OTP_SIZE
    requires DATA_START <= slot && slot + HEADER_SIZE <= OTP_SIZE
    requires Same(m', AfterWrites(FromRom, m, c, r, slot, config, 3))
    requires DATA_START <= x < OTP_SIZE && forall y :: slot <= y < slot + HEADER_SIZE ==> m[y] == 0
    ensures m'[x] == if slot <= x < slot + HEADER_SIZE then HeaderBytes(r)[x - slot] else m[x]
  {
    var m1 := Burned(FromRom, m, 0, c);
    var m2 := Burned(FromRom, m1, r.offset, config);
    ZeroBurnsNothing(x, m1[x]);
    assert m1[x] == m[x] && m2[x] == m1[x];
    assert m' == Burned(FromRom, m2, slot, HeaderBytes(r));
    if slot <= x < slot + HEADER_SIZE { BlankTakesAnything(FromRom, x, HeaderBytes(r)[x - slot]); }
  }

  /** A complete run with zero bytes that fits the memory. */
  lemma PlainApply(m: Cells, records: seq<Record>, count: nat, a: Attempt)
    requires Plain(m, records, count) && a.writes == 3 && forall i :: 0 <= i < |a.config| ==> a.config[i] == 0
    requires Accepted(records, a.config) && DATA_START <= DataEnd(records)
    requires DataEnd(records) + |a.config| <= OTP_SIZE
    ensures Defined(FromRom, m, a)
    ensures Apply(FromRom, m, a) ==
      AfterWrites(FromRom, m, CounterBytes(FromRom, m), NewRecord(records, a), Slot(|records|), a.config, 3)
  {
    PlainBuffered(m, records, count);
    DefinedIff(FromRom, m, a);
  }

  lemma PlainHeader(m: Cells, records: seq<Record>, count: nat, r: Record, slot: nat, m': Cells)
    requires Plain(m, records, count) && slot == Slot(|records|) && slot >= 2 * HEADER_SIZE
    requires r.offset <= MAX_FIELD && r.length <= MAX_FIELD && CounterReads(FromRom, m', Next(count))
    requires forall x :: DATA_START <= x < OTP_SIZE ==>
      m'[x] == if slot <= x < slot + HEADER_SIZE then HeaderBytes(r)[x - slot] else m[x]
    ensures Plain(m', records + [r], Next(count))
  {
    assert m'[slot..slot + HEADER_SIZE] == HeaderBytes(r);
    HeaderRoundTrip(m', slot, r);
    var longer := records + [r];
    forall i | 0 <= i < |longer|
      ensures IsHeader(m', Slot(i)) && RecordAt(m', Slot(i)) == longer[i]
    {
      if i < |records| { assert IsHeader(m, Slot(i)) && Slot(i) >= slot + HEADER_SIZE; }
    }
  }

  lemma CounterAdvances(m: Cells, count: nat, r: Record, slot: nat, config: Config, m': Cells)
    requires CounterReads(FromRom, m, count) && r.length == |config|
    requires DATA_START <= r.offset && r.offset + |config| <= OTP_SIZE
    requires DATA_START <= slot && slot + HEADER_SIZE <= OTP_SIZE
    requires Same(m', AfterWrites(FromRom, m, CounterBytes(FromRom, m), r, slot, config, 3))
    ensures CounterReads(FromRom, m', Next(count))
  {
    CounterWrite(FromRom, m, count);
    var c := CounterBytes(FromRom, m);
    BurnsAt(FromRom, m, 0, c, 0);
    BurnsAt(FromRom, m, 0, c, 1);
    var m1 := Burned(FromRom, m, 0, c);
    var m2 := Burned(FromRom, m1, r.offset, config);
    assert m' == Burned(FromRom, m2, slot, HeaderBytes(r));
    assert m'[0] == m1[0] == c[0] && m'[1] == m1[1] == c[1];
  }

  lemma PlainCells(m: Cells, records: seq<Record>, count: nat, c: seq<Byte>, r: Record, slot: nat, config: Config,
      m': Cells)
    requires Plain(m, records, count) && slot == Slot(|records|)
    requires |c| == DATA_START && r.length == |config| && forall i :: 0 <= i < |config| ==> config[i] == 0
    requires DATA_START <= r.offset && r.offset + |config| <= OTP_SIZE
    requires Same(m', AfterWrites(FromRom, m, c, r, slot, config, 3))
    ensures forall x :: DATA_START <= x < OTP_SIZE ==>
      m'[x] == if slot <= x < slot + HEADER_SIZE then HeaderBytes(r)[x - slot] else m[x]
  {
    forall x: nat | DATA_START <= x < OTP_SIZE
      ensures m'[x] == if slot <= x < slot + HEADER_SIZE then HeaderBytes(r)[x - slot] else m[x]
    {
      ZeroWrites(m, c, r, slot, config, m', x);
    }
  }

  lemma PlainStep(m: Cells, records: seq<Record>, count: nat, a: Attempt, m': Cells)
    requires Plain(m, records, count) && a.writes == 3 && forall i :: 0 <= i < |a.config| ==> a.config[i] == 0
    requires Accepted(records, a.config) && DATA_START <= DataEnd(records)
    requires DataEnd(records) + |a.config| <= OTP_SIZE && Slot(|records|) >= 2 * HEADER_SIZE
    requires m' == Step(FromRom, m, a)
    ensures Plain(m', records + [NewRecord(records, a)], Next(count))
    ensures DataEnd(records + [NewRecord(records, a)]) == DataEnd(records) + |a.config|
  {
    var c, r, slot := CounterBytes(FromRom, m), NewRecord(records, a), Slot(|records|);
    PlainApply(m, records, count, a);
    CounterAdvances(m, count, r, slot, a.config, m');
    PlainCells(m, records, count, c, r, slot, a.config, m');
    PlainHeader(m, records, count, r, slot, m');
  }

  lemma PlainAccepts(records: seq<Record>, config: Config)
    requires -100000 < Gap(records) < 0 || |config| < Gap(records) < 100000
    ensures Accepted(records, config)
  {
    if Gap(records) < 0 { NegativeGapAccepts(records, config); } else { SmallUnsigned(Gap(records)); }
  }

  /** One more complete run of n zero bytes, whatever the gap. */
  lemma PlainRun(m: Cells, records: seq<Record>, count: nat, end: nat, n: nat, tail: seq<Attempt>)
      returns (m1: Cells, records1: seq<Record>, count1: nat)
    requires Plain(m, records, count) && end == DataEnd(records) && DATA_START <= end
    requires 0 < n <= CONFIG_MAX && end + n <= OTP_SIZE && |records| < 250
    requires Slot(|records|) - end < 0 || n < Slot(|records|) - end
    ensures Plain(m1, records1, count1) && |records1| == |records| + 1 && DataEnd(records1) == end + n
    ensures Same(Replay(FromRom, m, [Store(n)] + tail), Replay(FromRom, m1, tail))
  {
    var a := Store(n);
    PlainAccepts(records, a.config);
    m1, records1, count1 := Step(FromRom, m, a), records + [NewRecord(records, a)], Next(count);
    PlainStep(m, records, count, a, m1);
    assert ([a] + tail)[1..] == tail;
  }

  lemma {:induction false} PlainFill(m: Cells, records: seq<Record>, count: nat, end: nat, n: nat, tail: seq<Attempt>)
      returns (m1: Cells, records1: seq<Record>, count1: nat)
    requires Plain(m, records, count) && end == DataEnd(records) && DATA_START <= end
    requires end + 72 * n <= Slot(|records|) && |records| + n <= 250
    ensures Plain(m1, records1, count1) && |records1| == |records| + n && DataEnd(records1) == end + 64 * n
    ensures Same(Replay(FromRom, m, Fill(n) + tail), Replay(FromRom, m1, tail))
    decreases n
  {
    if n == 0 {
      m1, records1, count1 := m, records, count;
      assert Fill(0) + tail == tail;
    } else {
      assert Fill(n) + tail == [Store(CONFIG_MAX)] + (Fill(n - 1) + tail);
      var m0, records0, count0 := PlainRun(m, records, count, end, CONFIG_MAX, Fill(n - 1) + tail);
      m1, records1, count1 := PlainFill(m0, records0, count0, end + 64, n - 1, tail);
    }
  }

  lemma BlankIsPlain(m: Cells)
    requires m == BlankPart(FromRom)
    ensures Plain(m, [], 0)
  {
    BlankIsReady(FromRom);
  }

  lemma FillCons(n: nat)
    requires n > 0
    ensures Same(Fill(n), [Store(CONFIG_MAX)] + Fill(n - 1))
  {
    assert Fill(n) == [Store(CONFIG_MAX)] + Fill(n - 1);
  }

  lemma FillNothing(boot: Boot, m: Cells)
    ensures Same(m, Replay(boot, m, Fill(0)))
  {
    assert Fill(0) == [];
  }

  /** Once the gap is negative it stays so, and nothing but the end of the memory stops further runs. */
  lemma {:induction false} PlainPile(m: Cells, records: seq<Record>, count: nat, end: nat, n: nat)
      returns (m1: Cells, records1: seq<Record>, count1: nat)
    requires Plain(m, records, count) && end == DataEnd(records) && DATA_START <= end
    requires Slot(|records|) < end && end + 64 * n <= OTP_SIZE && |records| + n <= 250
    ensures Plain(m1, records1, count1) && |records1| == |records| + n && DataEnd(records1) == end + 64 * n
    ensures Same(m1, Replay(FromRom, m, Fill(n)))
    decreases n
  {
    if n == 0 {
      m1, records1, count1 := m, records, count;
      FillNothing(FromRom, m);
    } else {
      FillCons(n);
      var m0, records0, count0 := PlainRun(m, records, count, end, CONFIG_MAX, Fill(n - 1));
      m1, records1, count1 := PlainPile(m0, records0, count0, end + 64, n - 1);
    }
  }

  /** 28 blocks of 64 zero bytes, one of 20 and three more of 64. */
  lemma PiledUp(n: nat, k: nat, m: Cells) returns (records: seq<Record>, count: nat)
    requires n == 28 && k == 3 && m == Replay(FromRom, BlankPart(FromRom), Fill(n) + ([Store(20)] + Fill(k)))
    ensures Plain(m, records, count) && |records| == 32 && DataEnd(records) == 2006
  {
    BlankIsPlain(BlankPart(FromRom));
    var m1, r1, c1 := PlainFill(BlankPart(FromRom), [], 0, 2, n, [Store(20)] + Fill(k));
    var m2, r2, c2 := PlainRun(m1, r1, c1, 1794, 20, Fill(k));
    var m3, r3, c3 := PlainPile(m2, r2, c2, 1814, k);
    records, count := r3, c3;
  }

  /** After these runs the header walk is as it should be, and yet the next run writes past the buffer: once
      the gap is negative, nothing refuses a run. */
  lemma OverrunIsReached(n: nat, k: nat, m: Cells)
    requires n == 28 && k == 3 && m == Replay(FromRom, BlankPart(FromRom), Fill(n) + ([Store(20)] + Fill(k)))
    ensures ScanAll(Buffered(FromRom, m)).Scanned? && |ScanAll(Buffered(FromRom, m)).records| == 32
    ensures !Defined(FromRom, m, Store(64))
  {
    var records, count := PiledUp(n, k, m);
    PlainBuffered(m, records, count);
    PlainAccepts(records, Store(64).config);
    DefinedIff(FromRom, m, Store(64));
  }

  // ---------------------------------------------------------------------------
  // Leftovers of interrupted runs
  // ---------------------------------------------------------------------------

  /** After a committed run that leaves a gap, the memory scans as its records exactly when the slot
      after the next one did not read as a header before the run. */
  lemma LeftoverIff(boot: Boot, m: Cells, records: seq<Record>, count: nat, a: Attempt)
    requires Ready(m, records) && CounterReads(boot, m, count) && Gap(records) >= 0
    requires Commits(records, a) && HeaderBurns(boot, m, records, a) && Gap(After(records, a)) >= 0
    ensures Slot(|records| + 1) >= 0
    ensures ScanAll(Step(boot, m, a)) == Scanned(After(records, a)) <==> !IsHeader(m, Slot(|records| + 1))
  {
    RunCommits(boot, m, records, count, a);
    var m', r, next := Step(boot, m, a), NewRecord(records, a), Slot(|records| + 1);
    RoomMeansSlot(records);
    LongerLogScans(m', records, r);
    forall x | next <= x < next + HEADER_SIZE ensures m'[x] == m[x] {
      NextSlotUntouched(boot, m, records, count, a, m', x);
    }
  }

  /** Seventeen bytes that spell a header signature from byte 14 on. */
  const SPELLING: Config := Zeros(14) + ['I' as int, 'D' as int, 'X' as int]

  lemma Interrupted(m: Cells, records: seq<Record>, count: nat, a: Attempt, m': Cells)
    requires Clean(FromRom, m, records, count) && |records| == 28 && DataEnd(records) == 1794
    requires a == Attempt(SPELLING, 0, 2) && m' == Step(FromRom, m, a)
    ensures Ready(m', records) && After(records, a) == records
    ensures CounterReads(FromRom, m', CountAfter(records, count, a))
    ensures m'[1794] == 0 && IsHeader(m', 1808)
    ensures forall x :: 1816 <= x < 1824 ==> m'[x] == 0
  {
    RunKeepsLog(FromRom, m, records, count, a);
    RunCounts(FromRom, m, records, count, a);
    ApplyOnLog(FromRom, m, records, count, a);
    Accepts(m, records, a.config);
    AcceptedFits(records, a.config);
    BlankBurns(FromRom, m, records, 1794, a.config);
    forall x | 1794 <= x < 1824
      ensures m'[x] == if x < 1811 then SPELLING[x - 1794] else 0
    {
      WritesFrame(FromRom, m, CounterBytes(FromRom, m), NewRecord(records, a), 1816, a.config, 2, x);
      BurnsAt(FromRom, m, 1794, a.config, x);
    }
  }

  lemma OneByteBurns(m: Cells, records: seq<Record>, a: Attempt)
    requires |records| == 28 && DataEnd(records) == 1794 && a == Store(1)
    requires m[1794] == 0 && forall x :: 1816 <= x < 1824 ==> m[x] == 0
    ensures DataBurns(FromRom, m, records, a) && HeaderBurns(FromRom, m, records, a)
  {
    BlankTakesAnything(FromRom, 1794, 0);
    BlankCellsBurn(FromRom, m, 1816, HeaderBytes(NewRecord(records, a)));
  }

  lemma SucceedsButMisreads(m: Cells, records: seq<Record>, count: nat, a: Attempt)
    requires Ready(m, records) && |records| == 28 && DataEnd(records) == 1794 && CounterReads(FromRom, m, count)
    requires a == Store(1) && DataBurns(FromRom, m, records, a) && HeaderBurns(FromRom, m, records, a)
    requires IsHeader(m, 1808)
    ensures Defined(FromRom, m, a) && OutcomeOf(FromRom, m, a) == Programmed
    ensures Commits(records, a) && Gap(After(records, a)) == 13
    ensures ScanAll(Step(FromRom, m, a)) != Scanned(After(records, a))
  {
    Accepts(m, records, a.config);
    GapAfter(m, records, a);
    SuccessIff(FromRom, m, records, count, a);
    LeftoverIff(FromRom, m, records, count, a);
  }

  /** With fewer than 72 free bytes an interrupted run can leave a false header: here the next run is
      complete, reports success and keeps a gap of 13 bytes, but the memory scans as something else. */
  lemma LeftoverIsScanned(runs: seq<Attempt>, m: Cells, records: seq<Record>)
    requires runs == Fill(28) + [Attempt(SPELLING, 0, 2)]
    requires m == Replay(FromRom, BlankPart(FromRom), runs) && records == AfterAll([], runs)
    ensures |records| == 28 && ScanAll(m) == Scanned(records)
    ensures Defined(FromRom, m, Store(1)) && OutcomeOf(FromRom, m, Store(1)) == Programmed
    ensures Commits(records, Store(1)) && Gap(After(records, Store(1))) == 13
    ensures ScanAll(Step(FromRom, m, Store(1))) != Scanned(After(records, Store(1)))
  {
    var a := Attempt(SPELLING, 0, 2);
    var m0, records0, count := NearlyFull([a]);
    OneRun(FromRom, m0, records0, a);
    Interrupted(m0, records, count, a, m);
    PlanOfReady(m, records, Store(1));
    OneByteBurns(m, records, Store(1));
    SucceedsButMisreads(m, records, CountAfter(records, count, a), Store(1));
  }
}
