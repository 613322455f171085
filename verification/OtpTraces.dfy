/**
  Sequences of OTP programming runs, each of which may stop after any of its writes.
 */
module OtpTraces {
  import opened Bits
  import opened Options
  import opened OtpCounter
  import opened OtpLayout
  import opened OtpProgram
  import opened OtpRuns

  function Step(boot: Boot, m: Cells, a: Attempt): Cells {
    if Defined(boot, m, a) then Apply(boot, m, a) else m
  }

  function Replay(boot: Boot, m: Cells, runs: seq<Attempt>): Cells
    decreases |runs|
  {
    if runs == [] then m else Replay(boot, Step(boot, m, runs[0]), runs[1..])
  }

  // ---------------------------------------------------------------------------
  // What a sequence of runs should have done, by lengths alone
  // ---------------------------------------------------------------------------

  predicate Commits(records: seq<Record>, a: Attempt) {
    Accepted(records, a.config) && a.writes == 3
  }

  function After(records: seq<Record>, a: Attempt): seq<Record> {
    if Commits(records, a) then records + [NewRecord(records, a)] else records
  }

  function AfterAll(records: seq<Record>, runs: seq<Attempt>): seq<Record>
    decreases |runs|
  {
    if runs == [] then records else AfterAll(After(records, runs[0]), runs[1..])
  }

  /** The configurations committed, in order. */
  function Configs(records: seq<Record>, runs: seq<Attempt>): seq<Config>
    decreases |runs|
  {
    if runs == [] then []
    else (if Commits(records, runs[0]) then [runs[0].config] else [])
         + Configs(After(records, runs[0]), runs[1..])
  }

  /** How many runs reached their counter write. */
  function Started(records: seq<Record>, runs: seq<Attempt>): nat
    decreases |runs|
  {
    if runs == [] then 0
    else (if Accepted(records, runs[0].config) && runs[0].writes >= 1 then 1 else 0)
         + Started(After(records, runs[0]), runs[1..])
  }

  /** The counter after all runs. */
  function CountAll(records: seq<Record>, count: nat, runs: seq<Attempt>): nat
    decreases |runs|
  {
    if runs == [] then count
    else CountAll(After(records, runs[0]), CountAfter(records, count, runs[0]), runs[1..])
  }

  function Capped(count: nat): nat {
    if count < LIMIT then count else LIMIT
  }

  // ---------------------------------------------------------------------------
  // Runs that may be interrupted
  // ---------------------------------------------------------------------------

  /** The run starts with a non-negative gap, finds its slot burnable if it gets to its header,
      and leaves a next slot that does not read as a header. */
  ghost predicate SoundStep(boot: Boot, m: Cells, records: seq<Record>, a: Attempt)
    requires Slot(|records|) >= 0
  {
    && a.writes <= 3
    && Gap(records) >= 0
    && (Commits(records, a) ==> HeaderBurns(boot, m, records, a))
    && Slot(|After(records, a)|) >= 0
    && !IsHeader(Step(boot, m, a), Slot(|After(records, a)|))
  }

  ghost predicate Sound(boot: Boot, m: Cells, records: seq<Record>, runs: seq<Attempt>)
    requires Slot(|records|) >= 0
    decreases |runs|
  {
    runs != [] ==>
      && SoundStep(boot, m, records, runs[0])
      && Sound(boot, Step(boot, m, runs[0]), After(records, runs[0]), runs[1..])
  }

  lemma StepKeepsReady(boot: Boot, m: Cells, records: seq<Record>, count: nat, a: Attempt)
    requires Ready(m, records) && CounterReads(boot, m, count)
    requires SoundStep(boot, m, records, a)
    ensures Ready(Step(boot, m, a), After(records, a))
    ensures CounterReads(boot, Step(boot, m, a), CountAfter(records, count, a))
  {
    RunCounts(boot, m, records, count, a);
    RunKeepsLog(boot, m, records, count, a);
    if Commits(records, a) {
      RunCommits(boot, m, records, count, a);
    }
  }

  lemma StepKeepsCommitted(boot: Boot, m: Cells, records: seq<Record>, count: nat, a: Attempt, x: nat)
    requires Ready(m, records) && CounterReads(boot, m, count)
    requires SoundStep(boot, m, records, a)
    requires x < OTP_SIZE && Committed(records, x)
    ensures Step(boot, m, a)[x] == m[x]
    ensures Committed(After(records, a), x)
  {
    RunKeepsCommitted(boot, m, records, count, a, x);
    if Commits(records, a) { AcceptedFits(records, a.config); }
  }

  /** Over every sequence of runs, interrupted anywhere, the memory stays a log of exactly the
      committed records. */
  lemma {:induction false} ReplayKeepsLog(boot: Boot, m: Cells, records: seq<Record>, count: nat, runs: seq<Attempt>)
    requires Ready(m, records) && CounterReads(boot, m, count) && Sound(boot, m, records, runs)
    ensures Ready(Replay(boot, m, runs), AfterAll(records, runs))
    decreases |runs|
  {
    if runs != [] {
      var a := runs[0];
      StepKeepsReady(boot, m, records, count, a);
      ReplayKeepsLog(boot, Step(boot, m, a), After(records, a), CountAfter(records, count, a), runs[1..]);
    }
  }

  lemma {:induction false} ReplayCounts(boot: Boot, m: Cells, records: seq<Record>, count: nat, runs: seq<Attempt>)
    requires Ready(m, records) && CounterReads(boot, m, count) && Sound(boot, m, records, runs)
    ensures CounterReads(boot, Replay(boot, m, runs), CountAll(records, count, runs))
    decreases |runs|
  {
    if runs != [] {
      var a := runs[0];
      StepKeepsReady(boot, m, records, count, a);
      ReplayCounts(boot, Step(boot, m, a), After(records, a), CountAfter(records, count, a), runs[1..]);
    }
  }

  /** The counter has counted every run that wrote it, up to its limit. */
  lemma {:induction false} CountsStarted(records: seq<Record>, count: nat, runs: seq<Attempt>)
    requires count <= LIMIT
    ensures CountAll(records, count, runs) == Capped(count + Started(records, runs))
    decreases |runs|
  {
    if runs != [] {
      CountsStarted(After(records, runs[0]), CountAfter(records, count, runs[0]), runs[1..]);
    }
  }

  lemma {:induction false} RecordsOnlyGrow(records: seq<Record>, runs: seq<Attempt>)
    ensures records <= AfterAll(records, runs)
    decreases |runs|
  {
    if runs != [] { RecordsOnlyGrow(After(records, runs[0]), runs[1..]); }
  }

  lemma {:induction false} ReplayKeepsCommitted(boot: Boot, m: Cells, records: seq<Record>, count: nat,
      runs: seq<Attempt>, x: nat)
    requires Ready(m, records) && CounterReads(boot, m, count) && Sound(boot, m, records, runs)
    requires x < OTP_SIZE && Committed(records, x)
    ensures Replay(boot, m, runs)[x] == m[x]
    ensures Committed(AfterAll(records, runs), x)
    decreases |runs|
  {
    if runs != [] {
      var a := runs[0];
      StepKeepsReady(boot, m, records, count, a);
      StepKeepsCommitted(boot, m, records, count, a, x);
      ReplayKeepsCommitted(boot, Step(boot, m, a), After(records, a), CountAfter(records, count, a), runs[1..], x);
    }
  }

  lemma ReplayScans(boot: Boot, m: Cells, records: seq<Record>, count: nat, runs: seq<Attempt>)
    requires Ready(m, records) && CounterReads(boot, m, count) && Sound(boot, m, records, runs)
    ensures ScanAll(Replay(boot, m, runs)) == Scanned(AfterAll(records, runs))
  {
    ReplayKeepsLog(boot, m, records, count, runs);
    ReadyScans(Replay(boot, m, runs), AfterAll(records, runs));
  }

  /** A blank part is an empty log. */
  lemma BlankIsReady(boot: Boot)
    ensures Ready(BlankPart(boot), []) && CounterReads(boot, BlankPart(boot), 0)
  {
    BlankPartCountsZero(boot);
  }

  ghost predicate Uninterrupted(runs: seq<Attempt>) {
    forall i :: 0 <= i < |runs| ==> runs[i].writes == 3
  }

  lemma RestUninterrupted(runs: seq<Attempt>)
    requires Uninterrupted(runs) && runs != []
    ensures Uninterrupted(runs[1..])
  {
  }

  /** Every record was started; without interruptions every start became a record. */
  lemma {:induction false} CommittedAreStarted(records: seq<Record>, runs: seq<Attempt>)
    ensures |AfterAll(records, runs)| <= |records| + Started(records, runs)
    ensures Uninterrupted(runs) ==>
      |AfterAll(records, runs)| == |records| + Started(records, runs)
    decreases |runs|
  {
    if runs != [] {
      if Uninterrupted(runs) { RestUninterrupted(runs); }
      CommittedAreStarted(After(records, runs[0]), runs[1..]);
    }
  }

  lemma BlankCounts(boot: Boot, runs: seq<Attempt>, m: Cells)
    requires Sound(boot, BlankPart(boot), [], runs)
    requires m == Replay(boot, BlankPart(boot), runs)
    ensures CounterReads(boot, m, CountAll([], 0, runs))
  {
    BlankIsReady(boot);
    ReplayCounts(boot, BlankPart(boot), [], 0, runs);
  }

  /** From a blank part: below its limit of 16, the counter is at least the number of committed
      records, and equal to it if no run was interrupted. */
  lemma CounterAgainstRecords(boot: Boot, runs: seq<Attempt>, count: nat, m: Cells)
    requires Sound(boot, BlankPart(boot), [], runs)
    requires m == Replay(boot, BlankPart(boot), runs) && CounterReads(boot, m, count)
    ensures count < LIMIT ==> |AfterAll([], runs)| <= count
    ensures count < LIMIT && Uninterrupted(runs) ==> |AfterAll([], runs)| == count
  {
    BlankCounts(boot, runs, m);
    CountIsUnique(boot, m, count, CountAll([], 0, runs));
    CountedRecords(runs);
  }

  lemma CountedRecords(runs: seq<Attempt>)
    ensures var count, records := CountAll([], 0, runs), |AfterAll([], runs)|;
      count < LIMIT ==> records <= count && (Uninterrupted(runs) ==> records == count)
  {
    CountsStarted([], 0, runs);
    CommittedAreStarted([], runs);
  }

  lemma CountIsUnique(boot: Boot, m: Cells, a: nat, b: nat)
    requires CounterReads(boot, m, a) && CounterReads(boot, m, b)
    ensures a == b
  {
    ThermometerInjective(boot, a, b);
  }

  // ---------------------------------------------------------------------------
  // Uninterrupted runs
  // ---------------------------------------------------------------------------

  ghost predicate BlankAbove(boot: Boot, m: Cells, records: seq<Record>) {
    forall x :: 0 <= x < OTP_SIZE && DataEnd(records) <= x < Slot(|records|) + HEADER_SIZE ==> m[x] == Blank(boot, x)
  }

  /** There is always room for the next header: a condition on lengths only. */
  predicate Room(records: seq<Record>, runs: seq<Attempt>)
    decreases |runs|
  {
    Gap(records) >= 0 && (runs != [] ==> Room(After(records, runs[0]), runs[1..]))
  }

  lemma BlankBurns(boot: Boot, m: Cells, records: seq<Record>, at: nat, data: seq<Byte>)
    requires BlankAbove(boot, m, records)
    requires DataEnd(records) <= at && at + |data| <= Slot(|records|) + HEADER_SIZE <= OTP_SIZE
    ensures BurnsExactly(boot, m, at, data)
  {
    forall i | 0 <= i < |data| ensures Burn(boot, at + i, m[at + i], data[i]) == data[i] {
      BlankTakesAnything(boot, at + i, data[i]);
    }
  }

  lemma BlankIsNoHeader(boot: Boot, m: Cells, records: seq<Record>)
    requires BlankAbove(boot, m, records) && Slot(|records|) >= 0 && Gap(records) >= 0
    ensures !IsHeader(m, Slot(|records|))
  {
    assert m[Slot(|records|)] == Blank(boot, Slot(|records|));
  }

  lemma CleanStep(boot: Boot, m: Cells, records: seq<Record>, count: nat, a: Attempt)
    requires Ready(m, records) && CounterReads(boot, m, count) && BlankAbove(boot, m, records)
    requires a.writes == 3 && Gap(records) >= 0 && Gap(After(records, a)) >= 0
    ensures SoundStep(boot, m, records, a)
    ensures BlankAbove(boot, Step(boot, m, a), After(records, a))
    ensures Accepted(records, a.config) ==> Defined(boot, m, a) && OutcomeOf(boot, m, a) == Programmed
    ensures !Accepted(records, a.config) ==> Step(boot, m, a) == m
  {
    ApplyOnLog(boot, m, records, count, a);
    RoomMeansSlot(records);
    var m', records' := Step(boot, m, a), After(records, a);
    if Accepted(records, a.config) {
      AcceptedFits(records, a.config);
      BlankBurns(boot, m, records, DataEnd(records), a.config);
      BlankBurns(boot, m, records, Slot(|records|), HeaderBytes(NewRecord(records, a)));
      SuccessIff(boot, m, records, count, a);
      forall x | 0 <= x < OTP_SIZE && DataEnd(records') <= x < Slot(|records'|) + HEADER_SIZE
        ensures m'[x] == Blank(boot, x)
      {
        WritesFrame(boot, m, CounterBytes(boot, m), NewRecord(records, a), Slot(|records|), a.config, 3, x);
      }
      BlankIsNoHeader(boot, m', records');
    }
  }

  lemma {:induction false} CleanRunsAreSound(boot: Boot, m: Cells, records: seq<Record>, count: nat, runs: seq<Attempt>)
    requires Ready(m, records) && CounterReads(boot, m, count) && BlankAbove(boot, m, records)
    requires Uninterrupted(runs) && Room(records, runs)
    ensures Sound(boot, m, records, runs)
    decreases |runs|
  {
    if runs != [] {
      var a := runs[0];
      assert Gap(After(records, a)) >= 0;
      CleanStep(boot, m, records, count, a);
      StepKeepsReady(boot, m, records, count, a);
      RestUninterrupted(runs);
      CleanRunsAreSound(boot, Step(boot, m, a), After(records, a), CountAfter(records, count, a), runs[1..]);
    }
  }

  lemma CommitIsWrite(boot: Boot, m: Cells, records: seq<Record>, count: nat, a: Attempt, m': Cells)
    requires Ready(m, records) && CounterReads(boot, m, count)
    requires Gap(records) >= 0 && Commits(records, a) && m' == Step(boot, m, a)
    ensures DATA_START <= DataEnd(records) && DataEnd(records) + |a.config| < Slot(|records|)
    ensures Same(m', AfterWrites(boot, m, CounterBytes(boot, m), NewRecord(records, a), Slot(|records|), a.config, 3))
  {
    AcceptedFits(records, a.config);
    ApplyOnLog(boot, m, records, count, a);
  }

  lemma CommitHolds(boot: Boot, m: Cells, records: seq<Record>, count: nat, a: Attempt, m': Cells)
    requires Ready(m, records) && CounterReads(boot, m, count) && BlankAbove(boot, m, records)
    requires Gap(records) >= 0 && Commits(records, a) && m' == Step(boot, m, a)
    ensures Holds(m', NewRecord(records, a), a.config)
  {
    CommitIsWrite(boot, m, records, count, a, m');
    BlankBurns(boot, m, records, DataEnd(records), a.config);
    DataLands(boot, m, CounterBytes(boot, m), NewRecord(records, a), Slot(|records|), a.config, m');
  }

  lemma HoldsFrame(m: Cells, m': Cells, records: seq<Record>, r: Record, config: Config)
    requires Holds(m, r, config) && r.offset + r.length <= DataEnd(records)
    requires forall x :: 0 <= x < OTP_SIZE && Committed(records, x) ==> m'[x] == m[x]
    ensures Holds(m', r, config)
  {
    forall i | 0 <= i < |config| ensures m'[r.offset + i] == config[i] {
      assert Committed(records, r.offset + i);
    }
  }

  lemma RecordStays(boot: Boot, m: Cells, records: seq<Record>, count: nat, runs: seq<Attempt>,
      r: Record, config: Config, m': Cells)
    requires Ready(m, records) && CounterReads(boot, m, count) && Sound(boot, m, records, runs)
    requires r.offset + r.length <= DataEnd(records) && Holds(m, r, config)
    requires m' == Replay(boot, m, runs)
    ensures Holds(m', r, config)
  {
    forall x | 0 <= x < OTP_SIZE && Committed(records, x) ensures m'[x] == m[x] {
      ReplayKeepsCommitted(boot, m, records, count, runs, x);
    }
    HoldsFrame(m, m', records, r, config);
  }

  /** The i-th new record of these runs holds the i-th committed configuration. */
  ghost predicate AllHold(m: Cells, records: seq<Record>, first: nat, configs: seq<Config>) {
    |records| == first + |configs|
    && forall i :: 0 <= i < |configs| ==> Holds(m, records[first + i], configs[i])
  }

  lemma AllHoldCons(m: Cells, records: seq<Record>, first: nat, config: Config, rest: seq<Config>)
    requires first < |records| && Holds(m, records[first], config) && AllHold(m, records, first + 1, rest)
    ensures AllHold(m, records, first, [config] + rest)
  {
    var configs := [config] + rest;
    forall i | 0 <= i < |configs| ensures Holds(m, records[first + i], configs[i]) {
      if i > 0 { assert records[first + i] == records[first + 1 + (i - 1)]; }
    }
  }

  /** The first of these runs, and what the remaining ones may rely on. */
  lemma CleanNext(boot: Boot, m: Cells, records: seq<Record>, count: nat, runs: seq<Attempt>)
      returns (m1: Cells, records1: seq<Record>, count1: nat)
    requires Ready(m, records) && CounterReads(boot, m, count) && BlankAbove(boot, m, records)
    requires runs != [] && Uninterrupted(runs) && Room(records, runs)
    ensures Replay(boot, m, runs) == Replay(boot, m1, runs[1..]) && records1 == After(records, runs[0])
    ensures Ready(m1, records1) && CounterReads(boot, m1, count1) && BlankAbove(boot, m1, records1)
    ensures Uninterrupted(runs[1..]) && Room(records1, runs[1..]) && Sound(boot, m1, records1, runs[1..])
    ensures Commits(records, runs[0]) ==> Holds(m1, NewRecord(records, runs[0]), runs[0].config)
  {
    var a := runs[0];
    m1, records1, count1 := Step(boot, m, a), After(records, a), CountAfter(records, count, a);
    CleanStep(boot, m, records, count, a);
    StepKeepsReady(boot, m, records, count, a);
    RestUninterrupted(runs);
    CleanRunsAreSound(boot, m1, records1, count1, runs[1..]);
    if Commits(records, a) { CommitHolds(boot, m, records, count, a, m1); }
  }

  /** What the first run stored is still there after the others. */
  lemma JoinFirst(boot: Boot, records: seq<Record>, a: Attempt, rest: seq<Attempt>,
      m1: Cells, records1: seq<Record>, count1: nat, m': Cells)
    requires Ready(m1, records1) && CounterReads(boot, m1, count1) && Sound(boot, m1, records1, rest)
    requires records1 == After(records, a) && m' == Replay(boot, m1, rest)
    requires Commits(records, a) ==> Holds(m1, NewRecord(records, a), a.config)
    requires AllHold(m', AfterAll(records1, rest), |records1|, Configs(records1, rest))
    ensures AllHold(m', AfterAll(records1, rest), |records|,
              (if Commits(records, a) then [a.config] else []) + Configs(records1, rest))
  {
    var configs := Configs(records1, rest);
    if Commits(records, a) {
      RecordStays(boot, m1, records1, count1, rest, NewRecord(records, a), a.config, m');
      RecordsOnlyGrow(records1, rest);
      AllHoldCons(m', AfterAll(records1, rest), |records|, a.config, configs);
    } else {
      assert [] + configs == configs;
    }
  }

  /** Uninterrupted runs on a blank part with room: every committed configuration is stored
      where its record says, for good. */
  lemma {:induction false} CleanRunsStore(boot: Boot, m: Cells, records: seq<Record>, count: nat,
      runs: seq<Attempt>, m': Cells)
    requires Ready(m, records) && CounterReads(boot, m, count) && BlankAbove(boot, m, records)
    requires Uninterrupted(runs) && Room(records, runs)
    requires m' == Replay(boot, m, runs)
    ensures AllHold(m', AfterAll(records, runs), |records|, Configs(records, runs))
    decreases |runs|
  {
    if runs != [] {
      var m1, records1, count1 := CleanNext(boot, m, records, count, runs);
      CleanRunsStore(boot, m1, records1, count1, runs[1..], m');
      JoinFirst(boot, records, runs[0], runs[1..], m1, records1, count1, m');
    }
  }

  lemma BlankPartIsSound(boot: Boot, runs: seq<Attempt>)
    requires Uninterrupted(runs) && Room([], runs)
    ensures Sound(boot, BlankPart(boot), [], runs)
  {
    BlankIsReady(boot);
    CleanRunsAreSound(boot, BlankPart(boot), [], 0, runs);
  }

  /** From a blank part, after every sequence of uninterrupted runs with room, the memory scans
      back as one record for each accepted configuration, in order. */
  lemma BlankPartScans(boot: Boot, runs: seq<Attempt>, m: Cells)
    requires Uninterrupted(runs) && Room([], runs) && m == Replay(boot, BlankPart(boot), runs)
    ensures ScanAll(m) == Scanned(AfterAll([], runs))
  {
    BlankPartIsSound(boot, runs);
    BlankIsReady(boot);
    ReplayScans(boot, BlankPart(boot), [], 0, runs);
  }

  /** ... and every one of those records holds its configuration. */
  lemma BlankPartStores(boot: Boot, runs: seq<Attempt>, m: Cells)
    requires Uninterrupted(runs) && Room([], runs) && m == Replay(boot, BlankPart(boot), runs)
    ensures AllHold(m, AfterAll([], runs), 0, Configs([], runs))
  {
    BlankIsReady(boot);
    CleanRunsStore(boot, BlankPart(boot), [], 0, runs, m);
  }

  // ---------------------------------------------------------------------------
  // Interrupted runs
  // ---------------------------------------------------------------------------

  /** An interrupted run may leave data behind, but never further up than the longest configuration. */
  ghost predicate BlankBeyond(boot: Boot, m: Cells, records: seq<Record>) {
    forall x :: 0 <= x < OTP_SIZE && DataEnd(records) + CONFIG_MAX <= x < Slot(|records|) + HEADER_SIZE ==>
      m[x] == Blank(boot, x)
  }

  /** Every run starts with room for the longest configuration and one more header: a condition on
      lengths only. Any run may stop after any of its writes. */
  predicate WideRoom(records: seq<Record>, runs: seq<Attempt>)
    decreases |runs|
  {
    runs != [] ==>
      Gap(records) >= CONFIG_MAX + HEADER_SIZE && runs[0].writes <= 3 && WideRoom(After(records, runs[0]), runs[1..])
  }

  lemma BlankCellsBurn(boot: Boot, m: Cells, at: nat, data: seq<Byte>)
    requires at + |data| <= OTP_SIZE && forall x :: at <= x < at + |data| ==> m[x] == Blank(boot, x)
    ensures BurnsExactly(boot, m, at, data)
  {
    forall i | 0 <= i < |data| ensures Burn(boot, at + i, m[at + i], data[i]) == data[i] {
      assert m[at + i] == Blank(boot, at + i);
      BlankTakesAnything(boot, at + i, data[i]);
    }
  }

  /** What an accepted run leaves alone: everything beyond the longest configuration but its header. */
  lemma InterruptedFrame(boot: Boot, m: Cells, records: seq<Record>, count: nat, a: Attempt, x: nat)
    requires Ready(m, records) && CounterReads(boot, m, count) && Gap(records) >= 0 && a.writes <= 3
    requires DataEnd(records) + CONFIG_MAX <= x < OTP_SIZE
    requires a.writes == 3 ==> !(Slot(|records|) <= x < Slot(|records|) + HEADER_SIZE)
    ensures Step(boot, m, a)[x] == m[x]
  {
    ApplyOnLog(boot, m, records, count, a);
    if Accepted(records, a.config) {
      AcceptedFits(records, a.config);
      WritesFrame(boot, m, CounterBytes(boot, m), NewRecord(records, a), Slot(|records|), a.config, a.writes, x);
    }
  }

  lemma RefusedStep(boot: Boot, m: Cells, records: seq<Record>, count: nat, a: Attempt)
    requires Ready(m, records) && CounterReads(boot, m, count) && Gap(records) >= 0
    requires !Accepted(records, a.config)
    ensures Step(boot, m, a) == m
  {
    ApplyOnLog(boot, m, records, count, a);
  }

  lemma InterruptedStep(boot: Boot, m: Cells, records: seq<Record>, count: nat, a: Attempt, m': Cells,
      records': seq<Record>)
    requires Ready(m, records) && CounterReads(boot, m, count) && BlankBeyond(boot, m, records)
    requires a.writes <= 3 && Gap(records) >= CONFIG_MAX + HEADER_SIZE
    requires m' == Step(boot, m, a) && records' == After(records, a)
    ensures SoundStep(boot, m, records, a)
    ensures BlankBeyond(boot, m', records')
  {
    var slot := Slot(|records|);
    if Accepted(records, a.config) {
      BlankCellsBurn(boot, m, slot, HeaderBytes(NewRecord(records, a)));
      forall x | 0 <= x < OTP_SIZE && DataEnd(records') + CONFIG_MAX <= x < Slot(|records'|) + HEADER_SIZE
        ensures m'[x] == Blank(boot, x)
      {
        InterruptedFrame(boot, m, records, count, a, x);
      }
      InterruptedFrame(boot, m, records, count, a, Slot(|records'|));
    } else {
      RefusedStep(boot, m, records, count, a);
    }
  }

  lemma {:induction false} InterruptedRunsAreSound(boot: Boot, m: Cells, records: seq<Record>, count: nat,
      runs: seq<Attempt>)
    requires Ready(m, records) && CounterReads(boot, m, count) && BlankBeyond(boot, m, records)
    requires WideRoom(records, runs)
    ensures Sound(boot, m, records, runs)
    decreases |runs|
  {
    if runs != [] {
      var a := runs[0];
      InterruptedStep(boot, m, records, count, a, Step(boot, m, a), After(records, a));
      StepKeepsReady(boot, m, records, count, a);
      InterruptedRunsAreSound(boot, Step(boot, m, a), After(records, a), CountAfter(records, count, a), runs[1..]);
    }
  }

  /** From a blank part, after every sequence of runs that may each stop anywhere: the memory scans
      back as exactly the committed records. */
  lemma InterruptedRunsScan(boot: Boot, runs: seq<Attempt>, m: Cells)
    requires WideRoom([], runs) && m == Replay(boot, BlankPart(boot), runs)
    ensures ScanAll(m) == Scanned(AfterAll([], runs))
  {
    BlankIsReady(boot);
    InterruptedRunsAreSound(boot, BlankPart(boot), [], 0, runs);
    ReplayScans(boot, BlankPart(boot), [], 0, runs);
  }

  lemma ReplayOneMore(boot: Boot, m: Cells, records: seq<Record>, runs: seq<Attempt>, k: nat)
    requires 0 < k <= |runs|
    ensures Same(Replay(boot, m, runs[..k]), Replay(boot, Step(boot, m, runs[0]), runs[1..][..k - 1]))
    ensures Same(AfterAll(records, runs[..k]), AfterAll(After(records, runs[0]), runs[1..][..k - 1]))
    ensures runs[k..] == runs[1..][k - 1..]
  {
    assert runs[..k][1..] == runs[1..][..k - 1];
  }

  lemma {:induction false} ReplaySplits(boot: Boot, m: Cells, records: seq<Record>, runs: seq<Attempt>, k: nat)
    requires k <= |runs|
    ensures Same(Replay(boot, m, runs), Replay(boot, Replay(boot, m, runs[..k]), runs[k..]))
    ensures Same(AfterAll(records, runs), AfterAll(AfterAll(records, runs[..k]), runs[k..]))
    decreases k
  {
    if k == 0 {
      assert runs[0..] == runs;
    } else {
      ReplayOneMore(boot, m, records, runs, k);
      ReplaySplits(boot, Step(boot, m, runs[0]), After(records, runs[0]), runs[1..], k - 1);
    }
  }

  /** What the runs after the first k may rely on. */
  lemma {:induction false} SoundSplits(boot: Boot, m: Cells, records: seq<Record>, count: nat, runs: seq<Attempt>,
      k: nat, m1: Cells, records1: seq<Record>) returns (count1: nat)
    requires Ready(m, records) && CounterReads(boot, m, count) && Sound(boot, m, records, runs)
    requires k <= |runs| && m1 == Replay(boot, m, runs[..k]) && records1 == AfterAll(records, runs[..k])
    ensures Ready(m1, records1) && CounterReads(boot, m1, count1) && Sound(boot, m1, records1, runs[k..])
    decreases k
  {
    if k == 0 {
      count1 := count;
      assert runs[0..] == runs;
    } else {
      var a := runs[0];
      StepKeepsReady(boot, m, records, count, a);
      ReplayOneMore(boot, m, records, runs, k);
      count1 := SoundSplits(boot, Step(boot, m, a), After(records, a), CountAfter(records, count, a), runs[1..], k - 1,
        m1, records1);
    }
  }

  lemma ReportedCommits(boot: Boot, m: Cells, records: seq<Record>, count: nat, a: Attempt)
    requires Ready(m, records) && CounterReads(boot, m, count) && SoundStep(boot, m, records, a)
    requires Defined(boot, m, a) && OutcomeOf(boot, m, a) == Programmed
    ensures Commits(records, a) && Holds(Step(boot, m, a), NewRecord(records, a), a.config)
  {
    ApplyOnLog(boot, m, records, count, a);
    SuccessStores(boot, m, records, count, a, Step(boot, m, a));
  }

  /** A scan reports headers that are there. */
  lemma {:induction false} ScanGives(m: Cells, k: nat, rs: seq<Record>, i: nat)
    requires k <= SLOTS && ScanFrom(m, k) == Scanned(rs) && i < |rs|
    ensures Slot(k + i) >= 0 && IsHeader(m, Slot(k + i)) && RecordAt(m, Slot(k + i)) == rs[i]
    decreases i
  {
    var r := RecordAt(m, Slot(k));
    PrependInjective(r, ScanFrom(m, k + 1), rs[1..]);
    assert rs == [r] + rs[1..];
    if i > 0 { ScanGives(m, k + 1, rs[1..], i - 1); }
  }

  /** Only the eight bytes of a header read as its record. */
  lemma HeaderIsExact(m: Cells, at: int, r: Record)
    requires 0 <= at <= OTP_SIZE - HEADER_SIZE && IsHeader(m, at) && RecordAt(m, at) == r
    requires r.offset < 65536 && r.length < 65536
    ensures m[at..at + HEADER_SIZE] == HeaderBytes(r)
  {
    SplitWord(r.offset, m[at + 4], m[at + 5]);
    SplitWord(r.length, m[at + 6], m[at + 7]);
    var s := m[at..at + HEADER_SIZE];
    assert s[0] == m[at] && s[1] == m[at + 1] && s[2] == m[at + 2] && s[3] == m[at + 3];
    assert s[4] == m[at + 4] && s[5] == m[at + 5] && s[6] == m[at + 6] && s[7] == m[at + 7];
  }

  lemma ScannedHeader(m: Cells, records: seq<Record>, r: Record)
    requires Same(ScanAll(m), Scanned(records + [r])) && r.offset < 65536 && r.length < 65536
    ensures Slot(|records|) >= 0
    ensures m[Slot(|records|)..Slot(|records|) + HEADER_SIZE] == HeaderBytes(r)
  {
    var longer := records + [r];
    ScanGives(m, 0, longer, |records|);
    HeaderIsExact(m, Slot(|records|), r);
  }

  lemma LandedBurns(boot: Boot, m: Cells, c: seq<Byte>, r: Record, slot: nat, config: Config, m': Cells)
    requires |c| == DATA_START && r.length == |config|
    requires DATA_START <= r.offset && r.offset + |config| <= slot && slot + HEADER_SIZE <= OTP_SIZE
    requires Same(m', AfterWrites(boot, m, c, r, slot, config, 3)) && m'[slot..slot + HEADER_SIZE] == HeaderBytes(r)
    ensures BurnsExactly(boot, m, slot, HeaderBytes(r))
  {
    var h := HeaderBytes(r);
    forall i | 0 <= i < HEADER_SIZE ensures Burn(boot, slot + i, m[slot + i], h[i]) == h[i] {
      WritesFrame(boot, m, c, r, slot, config, 3, slot + i);
      assert m'[slot + i] == m'[slot..slot + HEADER_SIZE][i];
    }
  }

  lemma ScannedBurns(boot: Boot, m: Cells, c: seq<Byte>, records: seq<Record>, r: Record, slot: nat, config: Config,
      m': Cells)
    requires |c| == DATA_START && r.length == |config| && slot == Slot(|records|)
    requires DATA_START <= r.offset && r.offset + |config| <= slot && slot + HEADER_SIZE <= OTP_SIZE
    requires Same(m', AfterWrites(boot, m, c, r, slot, config, 3)) && Same(ScanAll(m'), Scanned(records + [r]))
    ensures BurnsExactly(boot, m, slot, HeaderBytes(r))
  {
    ScannedHeader(m', records, r);
    LandedBurns(boot, m, c, r, slot, config, m');
  }

  lemma CommitWasBurnt(boot: Boot, m: Cells, records: seq<Record>, count: nat, a: Attempt, m': Cells)
    requires Ready(m, records) && CounterReads(boot, m, count) && Gap(records) >= 0
    requires Commits(records, a) && m' == Step(boot, m, a) && Same(ScanAll(m'), Scanned(After(records, a)))
    ensures HeaderBurns(boot, m, records, a)
  {
    var r, slot := NewRecord(records, a), Slot(|records|);
    CommitIsWrite(boot, m, records, count, a, m');
    ScannedBurns(boot, m, CounterBytes(boot, m), records, r, slot, a.config, m');
  }

  lemma ScanStops(m: Cells, records: seq<Record>)
    requires ScanAll(m) == Scanned(records)
    ensures |records| < SLOTS && !IsHeader(m, Slot(|records|))
  {
    ScanStaysInside(m, 0);
  }

  /** The memory after one run scans as it should exactly when the run was sound. */
  lemma StepScansIff(boot: Boot, m: Cells, records: seq<Record>, count: nat, a: Attempt, m': Cells)
    requires Ready(m, records) && CounterReads(boot, m, count) && Gap(records) >= 0 && a.writes <= 3
    requires m' == Step(boot, m, a) && Slot(|After(records, a)|) >= 0
    ensures ScanAll(m') == Scanned(After(records, a)) <==> SoundStep(boot, m, records, a)
  {
    if SoundStep(boot, m, records, a) {
      StepKeepsReady(boot, m, records, count, a);
      ReadyScans(m', After(records, a));
    } else if ScanAll(m') == Scanned(After(records, a)) {
      ScanStops(m', After(records, a));
      assert Commits(records, a);
      CommitWasBurnt(boot, m, records, count, a, m');
    }
  }

  /** What the memory scans as after every prefix of these runs. */
  ghost predicate AlwaysScans(boot: Boot, m: Cells, records: seq<Record>, runs: seq<Attempt>)
    decreases |runs|
  {
    && ScanAll(m) == Scanned(records)
    && (runs != [] ==> AlwaysScans(boot, Step(boot, m, runs[0]), After(records, runs[0]), runs[1..]))
  }

  ghost predicate AtMostThreeWrites(runs: seq<Attempt>) {
    forall i :: 0 <= i < |runs| ==> runs[i].writes <= 3
  }

  /** The bytes that these runs take at most. */
  function Needed(runs: seq<Attempt>): nat {
    if runs == [] then 0 else |runs[0].config| + HEADER_SIZE + Needed(runs[1..])
  }

  lemma {:induction false} NeededIsRoom(records: seq<Record>, runs: seq<Attempt>)
    ensures Needed(runs) <= Gap(records) ==> Room(records, runs)
    ensures Needed(runs) + 72 <= Gap(records) && (forall a :: a in runs ==> a.writes <= 3) ==> WideRoom(records, runs)
    decreases |runs|
  {
    if runs != [] {
      NeededIsRoom(After(records, runs[0]), runs[1..]);
      assert forall a :: a in runs[1..] ==> a in runs;
      assert runs[0] in runs;
    }
  }

  /** From a blank part: runs have room if configurations and headers come to no more than 2038 bytes, and wide room
      if they come to no more than 1966. */
  lemma LengthsLeaveRoom(runs: seq<Attempt>)
    requires Needed(runs) <= 2038
    ensures Room([], runs)
    ensures (forall a :: a in runs ==> a.writes == 3) ==> Uninterrupted(runs)
    ensures (forall a :: a in runs ==> a.writes <= 3) ==>
      AtMostThreeWrites(runs) && (Needed(runs) <= 1966 ==> WideRoom([], runs))
  {
    NeededIsRoom([], runs);
  }

  /** Over every sequence of runs with room for the headers, each of which may stop after any of its writes: the
      memory scans as the committed records after every single run, exactly when every run is sound. */
  lemma {:induction false} AlwaysScansIff(boot: Boot, m: Cells, records: seq<Record>, count: nat, runs: seq<Attempt>)
    requires Ready(m, records) && CounterReads(boot, m, count) && Room(records, runs) && AtMostThreeWrites(runs)
    ensures AlwaysScans(boot, m, records, runs) <==> Sound(boot, m, records, runs)
    decreases |runs|
  {
    ReadyScans(m, records);
    if runs != [] {
      var a, rest := runs[0], runs[1..];
      var m', records' := Step(boot, m, a), After(records, a);
      assert AtMostThreeWrites(rest) by { assert forall i :: 0 <= i < |rest| ==> rest[i] == runs[i + 1]; }
      RunKeepsLog(boot, m, records, count, a);
      if Commits(records, a) { AcceptedFits(records, a.config); }
      StepScansIff(boot, m, records, count, a, m');
      if SoundStep(boot, m, records, a) {
        StepKeepsReady(boot, m, records, count, a);
        AlwaysScansIff(boot, m', records', CountAfter(records, count, a), rest);
      }
    }
  }

  /** Whatever comes after it, a run that reported success keeps its record and its configuration. */
  lemma ReportedStays(boot: Boot, m: Cells, records: seq<Record>, count: nat, runs: seq<Attempt>, k: nat,
      m1: Cells, records1: seq<Record>, m': Cells)
    requires Ready(m, records) && CounterReads(boot, m, count) && Sound(boot, m, records, runs) && k < |runs|
    requires m1 == Replay(boot, m, runs[..k]) && records1 == AfterAll(records, runs[..k])
    requires Defined(boot, m1, runs[k]) && OutcomeOf(boot, m1, runs[k]) == Programmed
    requires m' == Replay(boot, m, runs)
    ensures records1 + [NewRecord(records1, runs[k])] <= AfterAll(records, runs)
    ensures Holds(m', NewRecord(records1, runs[k]), runs[k].config)
  {
    var a := runs[k];
    var count1 := SoundSplits(boot, m, records, count, runs, k, m1, records1);
    ReplaySplits(boot, m, records, runs, k);
    var rest := runs[k..];
    assert rest[0] == a;
    ReportedCommits(boot, m1, records1, count1, a);
    StepKeepsReady(boot, m1, records1, count1, a);
    RecordStays(boot, Step(boot, m1, a), After(records1, a), CountAfter(records1, count1, a), rest[1..],
      NewRecord(records1, a), a.config, m');
    RecordsOnlyGrow(After(records1, a), rest[1..]);
  }

  /** Every run that reported success still has its record, and that still holds its configuration, after all
      runs. */
  lemma InterruptedRunsStore(boot: Boot, runs: seq<Attempt>, k: nat, m1: Cells, records1: seq<Record>, m: Cells)
    requires WideRoom([], runs) && k < |runs| && m == Replay(boot, BlankPart(boot), runs)
    requires m1 == Replay(boot, BlankPart(boot), runs[..k]) && records1 == AfterAll([], runs[..k])
    requires Defined(boot, m1, runs[k]) && OutcomeOf(boot, m1, runs[k]) == Programmed
    ensures records1 + [NewRecord(records1, runs[k])] <= AfterAll([], runs)
    ensures Holds(m, NewRecord(records1, runs[k]), runs[k].config)
  {
    BlankIsReady(boot);
    InterruptedRunsAreSound(boot, BlankPart(boot), [], 0, runs);
    ReportedStays(boot, BlankPart(boot), [], 0, runs, k, m1, records1, m);
  }

  /** And below its limit the counter is at least the number of those records, and equal to it if no
      run was interrupted. */
  lemma InterruptedRunsCount(boot: Boot, runs: seq<Attempt>, count: nat, m: Cells)
    requires WideRoom([], runs) && m == Replay(boot, BlankPart(boot), runs) && CounterReads(boot, m, count)
    ensures count < LIMIT ==> |AfterAll([], runs)| <= count
    ensures count < LIMIT && Uninterrupted(runs) ==> |AfterAll([], runs)| == count
  {
    BlankIsReady(boot);
    InterruptedRunsAreSound(boot, BlankPart(boot), [], 0, runs);
    CounterAgainstRecords(boot, runs, count, m);
  }
}
