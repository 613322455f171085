/**
  When the PAC193x driver refreshes the chip: reads with a 50 ms cache, a timer that keeps the
  accumulators from saturating, the work item that the timer queues, and rate changes. Time is in
  milliseconds and advances on its own; the chip samples in between.
 */
module Pac193xRefresh {
  import opened Arithmetic
  import opened Bits
  import opened Options
  import opened Pac193xSnapshot

  const MAX_RFSH_LIMIT: nat := 60000
  const MIN_POLLING_TIME: nat := 50
  const MAX_COUNT: nat := 0xFF_FFFF

  /** The channels, and how late the timer and the queued work may run. */
  datatype Config = Config(mask: Byte, n: nat, bi: seq<bool>, late: nat, delay: nat) {
    predicate Valid() { n <= MAX_CHANNELS == |bi| }

    /** The longest time between two refreshes. */
    function MaxGap(): nat { MAX_RFSH_LIMIT + late + delay }
  }

  /** The power of every channel at one sampling instant. */
  type Sample = seq<int>

  /** What the bus delivers after a refresh. */
  datatype Reply = Reply(frame: Frame, ctrl: seq<Byte>, regs: seq<Byte>)

  datatype State = State(
    now: nat,
    last: nat,
    tstamp: int,
    expiry: nat,
    pending: Option<nat>,
    window: seq<Sample>,
    energy: seq<int>)

  datatype Event =
    | Wait(ms: nat)
    | Samples(power: Sample)
    | TimerFires
    | WorkRuns(reply: Reply)
    | Read(reply: Reply)
    | RateChange(reply: Reply)

  // ---------------------------------------------------------------------------
  // The chip
  // ---------------------------------------------------------------------------

  function Sum(window: seq<Sample>, c: nat): int
    requires forall p :: p in window ==> c < |p|
  {
    if window == [] then 0 else Sum(window[..|window| - 1], c) + window[|window| - 1][c]
  }

  predicate ValidSample(cfg: Config, p: Sample)
    requires cfg.Valid()
  {
    |p| == MAX_CHANNELS && forall c :: 0 <= c < cfg.n ==> InRange(Power, cfg.bi[c], p[c])
  }

  ghost predicate ValidWindow(cfg: Config, window: seq<Sample>)
    requires cfg.Valid()
  {
    forall p :: p in window ==> ValidSample(cfg, p)
  }

  function Clamp(x: int, low: int, high: int): int {
    if x < low then low else if x > high then high else x
  }

  /** The 48-bit accumulator of a channel, which stops at its limits. */
  function Accumulator(bi: bool, sum: int): int {
    if bi then Clamp(sum, -(TWO48 / 2), TWO48 / 2 - 1) else Clamp(sum, 0, TWO48 - 1)
  }

  /** The reply reports the window that ends with this refresh. */
  ghost predicate Reports(cfg: Config, window: seq<Sample>, r: Reply)
    requires cfg.Valid() && ValidWindow(cfg, window)
  {
    && |r.ctrl| == 12 && r.ctrl[7] == cfg.mask
    && Sent(r.frame, cfg.mask, cfg.n, cfg.bi, r.regs)
    && r.frame.count == Clamp(|window|, 0, MAX_COUNT)
    && forall c :: 0 <= c < cfg.n ==> r.frame.vals[0][c] == Accumulator(cfg.bi[c], Sum(window, c))
  }

  // ---------------------------------------------------------------------------
  // The driver's steps
  // ---------------------------------------------------------------------------

  function Refreshed(cfg: Config, s: State, r: Reply): State
    requires cfg.Valid() && |s.energy| == MAX_CHANNELS && |r.ctrl| == 12
    requires |r.frame.vals| == 6 && |r.frame.vals[0]| == MAX_CHANNELS
  {
    s.(last := s.now, tstamp := s.now, window := [],
       energy := EnergyAfter(s.energy, cfg.mask, cfg.n, r.frame.vals[0], r.frame.count, SampShift(r.ctrl[6])))
  }

  predicate Usable(r: Reply) {
    |r.ctrl| == 12 && |r.frame.vals| == 6 && |r.frame.vals[0]| == MAX_CHANNELS
  }

  /** pac193x_retrieve_data */
  function Retrieved(cfg: Config, s: State, r: Reply): State
    requires cfg.Valid() && |s.energy| == MAX_CHANNELS && Usable(r)
  {
    if s.now > s.tstamp + MIN_POLLING_TIME then Refreshed(cfg, s, r).(expiry := s.now + MAX_RFSH_LIMIT) else s
  }

  /** This event talks to the chip. */
  predicate Refreshes(s: State, e: Event) {
    match e
    case WorkRuns(_) => true
    case Read(_) => s.now > s.tstamp + MIN_POLLING_TIME
    case RateChange(_) => s.now > s.tstamp
    case _ => false
  }

  function Step(cfg: Config, s: State, e: Event): (s': State)
    requires cfg.Valid() && |s.energy| == MAX_CHANNELS
    requires e.WorkRuns? || e.Read? || e.RateChange? ==> Usable(e.reply)
    ensures |s'.energy| == MAX_CHANNELS
  {
    match e
    case Wait(ms) => s.(now := s.now + ms)
    case Samples(p) => s.(window := s.window + [p])
    case TimerFires =>
      s.(expiry := s.now + MAX_RFSH_LIMIT,
         pending := if s.pending.None? then Some(s.now + cfg.delay) else s.pending)
    case WorkRuns(r) => Refreshed(cfg, s, r).(pending := None)
    case Read(r) => Retrieved(cfg, s, r)
    case RateChange(r) => Retrieved(cfg, s.(tstamp := s.tstamp - MIN_POLLING_TIME), r)
  }

  /** At most 1024 samples a second, plus the one at the refresh itself. */
  predicate Paced(samples: nat, ms: int) {
    1000 * samples <= 1024 * ms + 1000
  }

  /** What the surroundings may do: the timer is at most `late` late, queued work runs within
      `delay`, the chip keeps its pace, the bus does not fail. */
  ghost predicate Enabled(cfg: Config, s: State, e: Event)
    requires cfg.Valid() && ValidWindow(cfg, s.window)
  {
    match e
    case Wait(ms) =>
      s.now + ms <= s.expiry + cfg.late && (s.pending.Some? ==> s.now + ms <= s.pending.value)
    case Samples(p) => ValidSample(cfg, p) && Paced(|s.window| + 1, s.now - s.last)
    case TimerFires => s.now >= s.expiry
    case WorkRuns(r) => s.pending.Some? && Reports(cfg, s.window, r)
    case Read(r) => Usable(r) && (Refreshes(s, e) ==> Reports(cfg, s.window, r))
    case RateChange(r) => Usable(r) && (Refreshes(s, e) ==> Reports(cfg, s.window, r))
  }

  // ---------------------------------------------------------------------------
  // The invariant
  // ---------------------------------------------------------------------------

  ghost predicate Inv(cfg: Config, s: State) {
    && cfg.Valid() && |s.energy| == MAX_CHANNELS
    && s.last <= s.now && s.last - MIN_POLLING_TIME <= s.tstamp <= s.last
    && s.now <= s.expiry + cfg.late && s.expiry <= s.now + MAX_RFSH_LIMIT
    && (match s.pending
        case None => s.expiry <= s.last + MAX_RFSH_LIMIT
        case Some(deadline) => s.now <= deadline <= s.last + cfg.MaxGap())
    && ValidWindow(cfg, s.window) && Paced(|s.window|, s.now - s.last)
  }

  function Zeros(n: nat): seq<int> { seq(n, i => 0) }

  function AccumulatorsOf(cfg: Config, window: seq<Sample>): (acc: seq<int>)
    requires cfg.Valid() && forall p :: p in window ==> |p| == MAX_CHANNELS
    ensures |acc| == MAX_CHANNELS
    ensures forall c :: 0 <= c < MAX_CHANNELS ==> acc[c] == Accumulator(cfg.bi[c], Sum(window, c))
  {
    seq(MAX_CHANNELS, c requires 0 <= c < MAX_CHANNELS => Accumulator(cfg.bi[c], Sum(window, c)))
  }

  lemma FrameFor(cfg: Config, window: seq<Sample>) returns (frame: Frame)
    requires cfg.Valid() && ValidWindow(cfg, window)
    ensures ValidFrame(frame, cfg.n, cfg.bi) && frame.count == Clamp(|window|, 0, MAX_COUNT)
    ensures forall c :: 0 <= c < cfg.n ==> frame.vals[0][c] == Accumulator(cfg.bi[c], Sum(window, c))
  {
    var z := Zeros(MAX_CHANNELS);
    frame := Frame(Clamp(|window|, 0, MAX_COUNT), [AccumulatorsOf(cfg, window), z, z, z, z, z]);
  }

  /** Whatever has happened, the chip has a reply to a read, to a rate change, and to queued work. */
  lemma ChipCanReply(cfg: Config, s: State, ctrlLat: Byte) returns (r: Reply)
    requires Inv(cfg, s)
    ensures Reports(cfg, s.window, r) && Usable(r) && r.ctrl[6] == ctrlLat
    ensures Enabled(cfg, s, Read(r)) && Enabled(cfg, s, RateChange(r))
    ensures Enabled(cfg, s, WorkRuns(r)) <==> s.pending.Some?
  {
    var frame := FrameFor(cfg, s.window);
    var bytes := Body(frame, cfg.mask, cfg.n, cfg.bi, 6);
    StaysInside(cfg.mask, cfg.n, 5, SECTIONS[5]);
    var regs := bytes + Zeros(SNAPSHOT_LEN - |bytes|);
    r := Reply(frame, [0, 0, 0, 0, 0, 0, ctrlLat, cfg.mask, 0, 0, 0, 0], regs);
    assert Body(frame, cfg.mask, cfg.n, cfg.bi, 6) <= regs;
  }

  lemma StepKeepsInv(cfg: Config, s: State, e: Event)
    requires Inv(cfg, s) && Enabled(cfg, s, e)
    ensures Inv(cfg, Step(cfg, s, e))
  {
  }

  /** Hence the chip is never left alone for longer than a minute and the two delays. */
  lemma GapBounded(cfg: Config, s: State)
    requires Inv(cfg, s)
    ensures s.now - s.last <= 60000 + cfg.late + cfg.delay
  {
  }

  /** A read within 50 ms of the time stamp changes nothing; a later one refreshes and gives the timer a minute. */
  lemma ReadIsCached(cfg: Config, s: State, r: Reply)
    requires Inv(cfg, s) && Usable(r)
    ensures var s' := Step(cfg, s, Read(r));
      if s.now <= s.tstamp + 50 then !Refreshes(s, Read(r)) && s' == s
      else
        && Refreshes(s, Read(r)) && s'.energy == Refreshed(cfg, s, r).energy
        && s' == s.(last := s.now, tstamp := s.now, window := [], expiry := s.now + 60000, energy := s'.energy)
  {
  }

  /** The work item refreshes and leaves the timer alone; the timer only queues it, once, and starts anew. */
  lemma TimerAndWork(cfg: Config, s: State, r: Reply)
    requires Inv(cfg, s) && Usable(r)
    ensures var s' := Step(cfg, s, WorkRuns(r));
      && Refreshes(s, WorkRuns(r)) && s'.energy == Refreshed(cfg, s, r).energy
      && s' == s.(last := s.now, tstamp := s.now, window := [], pending := None, energy := s'.energy)
    ensures Step(cfg, s, TimerFires) ==
      s.(expiry := s.now + 60000, pending := if s.pending.Some? then s.pending else Some(s.now + cfg.delay))
  {
  }

  /** A rate change forces a refresh, except in the very millisecond of the previous one; then it
      only rewinds the time stamp, and the next read refreshes. */
  lemma RateChangeRefreshes(cfg: Config, s: State, r: Reply)
    requires Inv(cfg, s) && Usable(r)
    ensures var s' := Step(cfg, s, RateChange(r));
      if Refreshes(s, RateChange(r)) then s'.last == s'.tstamp == s.now && s'.expiry == s.now + 60000
      else s.now == s.last && s' == s.(tstamp := s.tstamp - 50)
    ensures !Refreshes(s, RateChange(r)) <==> s.now == s.tstamp
    ensures !Refreshes(s, RateChange(r)) ==> Refreshes(Step(cfg, s, RateChange(r)), RateChange(r))
  {
  }

  // ---------------------------------------------------------------------------
  // Saturation
  // ---------------------------------------------------------------------------

  /** With gaps up to 181 seconds neither the chip's registers nor the driver's product overflow. */
  const SAFE_GAP: nat := 181000
  const SAFE_COUNT: nat := 185345

  lemma {:induction false} SumBounds(cfg: Config, window: seq<Sample>, c: nat)
    requires cfg.Valid() && ValidWindow(cfg, window) && c < cfg.n
    ensures Sum(window, c) <= |window| * (TWO28 - 1)
    ensures if cfg.bi[c] then -(|window| * (TWO28 - 1)) <= Sum(window, c) else 0 <= Sum(window, c)
  {
    if window != [] {
      var n := |window| - 1;
      assert ValidSample(cfg, window[n]);
      SumBounds(cfg, window[..n], c);
      assert |window| * (TWO28 - 1) == n * (TWO28 - 1) + (TWO28 - 1);
    }
  }

  lemma CountBound(cfg: Config, s: State)
    requires Inv(cfg, s) && cfg.MaxGap() <= SAFE_GAP
    ensures |s.window| <= SAFE_COUNT
  {
  }

  /** The registers hold the true count and sum, and their product fits 64 signed bits. */
  lemma NothingSaturates(cfg: Config, s: State, c: nat, count: nat, sum: int)
    requires Inv(cfg, s) && cfg.MaxGap() <= SAFE_GAP && c < cfg.n
    requires count == |s.window| && sum == Sum(s.window, c)
    ensures Clamp(count, 0, MAX_COUNT) == count && Accumulator(cfg.bi[c], sum) == sum
    ensures S64(sum * count) == sum * count
  {
    CountBound(cfg, s);
    SumBounds(cfg, s.window, c);
    var top := SAFE_COUNT * (TWO28 - 1);
    assert -top <= sum <= top;
    ProductBound(sum, count, top);
  }

  lemma ProductBound(sum: int, count: nat, top: nat)
    requires -(top as int) <= sum <= top as int && count <= SAFE_COUNT && top * SAFE_COUNT < TWO63
    ensures -(TWO63 as int) <= sum * count < TWO63 as int
  {
    if sum >= 0 {
      MulMono(sum, count, SAFE_COUNT);
      MulMono(SAFE_COUNT, sum, top);
    } else {
      MulMono(-sum, count, SAFE_COUNT);
      MulMono(SAFE_COUNT, -sum, top);
      assert sum * count == -(-sum * count);
    }
  }

  /** 20 samples more at full scale and the product does overflow. */
  lemma LimitIsClose()
    ensures (SAFE_COUNT + 20) * (SAFE_COUNT + 20) * (TWO28 - 1) >= TWO63
  {
  }

  // ---------------------------------------------------------------------------
  // Runs
  // ---------------------------------------------------------------------------

  ghost predicate Run(cfg: Config, s: State, es: seq<Event>)
    requires Inv(cfg, s)
    decreases |es|
  {
    es != [] ==> Enabled(cfg, s, es[0]) && (StepKeepsInv(cfg, s, es[0]); Run(cfg, Step(cfg, s, es[0]), es[1..]))
  }

  ghost function Final(cfg: Config, s: State, es: seq<Event>): (t: State)
    requires Inv(cfg, s) && Run(cfg, s, es)
    ensures Inv(cfg, t)
    decreases |es|
  {
    if es == [] then s else StepKeepsInv(cfg, s, es[0]); Final(cfg, Step(cfg, s, es[0]), es[1..])
  }

  /** In every run, at every moment: the gap is bounded. */
  lemma GapBoundedInRuns(cfg: Config, s: State, es: seq<Event>)
    requires Inv(cfg, s) && Run(cfg, s, es)
    ensures var t := Final(cfg, s, es); t.last <= t.now <= t.last + 60000 + cfg.late + cfg.delay
  {
    GapBounded(cfg, Final(cfg, s, es));
  }

  /** The bound is reached: nobody reads, the timer is late, the work is slow. */
  lemma GapIsReached(cfg: Config, s: State, es: seq<Event>)
    requires Inv(cfg, s) && s.now == s.last && s.pending.None? && s.expiry == s.now + MAX_RFSH_LIMIT
    requires cfg.delay <= MAX_RFSH_LIMIT && es == [Wait(MAX_RFSH_LIMIT + cfg.late), TimerFires, Wait(cfg.delay)]
    ensures Run(cfg, s, es) && Final(cfg, s, es).now == Final(cfg, s, es).last + 60000 + cfg.late + cfg.delay
  {
    var s1 := Step(cfg, s, es[0]);
    StepKeepsInv(cfg, s, es[0]);
    var s2 := Step(cfg, s1, TimerFires);
    StepKeepsInv(cfg, s1, TimerFires);
    var s3 := Step(cfg, s2, es[2]);
    StepKeepsInv(cfg, s2, es[2]);
    assert es[1..][1..][1..] == [] && es[1..][1..] == [es[2]] && es[1..][0] == TimerFires;
    assert Run(cfg, s3, []) && Final(cfg, s3, []) == s3;
    assert Run(cfg, s2, es[1..][1..]) && Final(cfg, s2, es[1..][1..]) == s3;
    assert Run(cfg, s1, es[1..]) && Final(cfg, s1, es[1..]) == s3;
  }

  function Taken(e: Event): seq<Sample> {
    match e
    case Samples(p) => [p]
    case _ => []
  }

  /** All samples of a run, in order. */
  function Sampled(es: seq<Event>): seq<Sample> {
    if es == [] then [] else Taken(es[0]) + Sampled(es[1..])
  }

  /** The windows that the refreshes of a run have closed. */
  ghost function Windows(cfg: Config, s: State, es: seq<Event>): seq<seq<Sample>>
    requires Inv(cfg, s) && Run(cfg, s, es)
    decreases |es|
  {
    if es == [] then []
    else
      StepKeepsInv(cfg, s, es[0]);
      (if Refreshes(s, es[0]) then [s.window] else []) + Windows(cfg, Step(cfg, s, es[0]), es[1..])
  }

  function Flat(windows: seq<seq<Sample>>): seq<Sample> {
    if windows == [] then [] else windows[0] + Flat(windows[1..])
  }

  lemma StepWindow(cfg: Config, s: State, e: Event)
    requires Inv(cfg, s) && Enabled(cfg, s, e)
    ensures Refreshes(s, e) ==> Taken(e) == [] && Step(cfg, s, e).window == []
    ensures !Refreshes(s, e) ==> Step(cfg, s, e).window == s.window + Taken(e)
  {
  }

  lemma FlatCons(w: seq<Sample>, rest: seq<seq<Sample>>)
    ensures Flat([w] + rest) == w + Flat(rest)
  {
    assert ([w] + rest)[1..] == rest;
  }

  /** Every sample ends up in exactly one window, in order: the closed ones and the open one make
      up all there is. */
  lemma {:induction false} EachSampleOnce(cfg: Config, s: State, es: seq<Event>)
    requires Inv(cfg, s) && Run(cfg, s, es)
    ensures Flat(Windows(cfg, s, es)) + Final(cfg, s, es).window == s.window + Sampled(es)
    decreases |es|
  {
    if es != [] {
      var e, s' := es[0], Step(cfg, s, es[0]);
      StepKeepsInv(cfg, s, e);
      EachSampleOnce(cfg, s', es[1..]);
      StepWindow(cfg, s, e);
      OneMore(Refreshes(s, e), s.window, Taken(e), s'.window, Sampled(es[1..]),
              Windows(cfg, s', es[1..]), Final(cfg, s', es[1..]).window);
    }
  }

  lemma OneMore(closes: bool, window: seq<Sample>, taken: seq<Sample>, window': seq<Sample>, later: seq<Sample>,
                rest: seq<seq<Sample>>, last: seq<Sample>)
    requires closes ==> taken == [] && window' == []
    requires !closes ==> window' == window + taken
    requires Flat(rest) + last == window' + later
    ensures Flat((if closes then [window] else []) + rest) + last == window + (taken + later)
  {
    if closes {
      FlatCons(window, rest);
      assert window + Flat(rest) + last == window + (Flat(rest) + last);
    } else {
      assert [] + rest == rest;
    }
  }

  /** One refresh's energy by the documented formula, without any machine arithmetic. */
  function Exact(cfg: Config, window: seq<Sample>, c: nat, rate: nat): int
    requires rate > 0 && forall p :: p in window ==> c < |p|
  {
    Sum(window, c) * |window| / rate
  }

  /** What a step should add to a channel's energy. */
  function Gain(cfg: Config, s: State, e: Event, c: nat): int
    requires forall p :: p in s.window ==> c < |p|
    requires Refreshes(s, e) ==> |e.reply.ctrl| == 12
  {
    if Refreshes(s, e) then Exact(cfg, s.window, c, Rate(e.reply.ctrl[6])) else 0
  }

  /** The energy that a run should add to a channel. */
  ghost function Gained(cfg: Config, s: State, es: seq<Event>, c: nat): int
    requires Inv(cfg, s) && Run(cfg, s, es) && c < cfg.n
    decreases |es|
  {
    if es == [] then 0
    else
      StepKeepsInv(cfg, s, es[0]);
      Gain(cfg, s, es[0], c) + Gained(cfg, Step(cfg, s, es[0]), es[1..], c)
  }

  /** Wrapping twice is wrapping once. */
  lemma WrapSum(a: int, b: int)
    ensures S64(S64(a) + b) == S64(a + b)
  {
    var q := (a + TWO63) / TWO64;
    assert S64(a) == a - TWO64 * q;
    assert (a - TWO64 * q + b + TWO63) % TWO64 == (a + b + TWO63) % TWO64;
  }

  /** One step adds what it should. */
  lemma StepEnergy(cfg: Config, s: State, e: Event, c: nat, start: int, gain: int)
    requires Inv(cfg, s) && Enabled(cfg, s, e) && cfg.MaxGap() <= SAFE_GAP && c < cfg.n && IsActive(cfg.mask, c)
    requires s.energy[c] == S64(start) && gain == Gain(cfg, s, e, c)
    ensures Step(cfg, s, e).energy[c] == S64(start + gain)
  {
    WrapSum(start, gain);
    if Refreshes(s, e) {
      assert Step(cfg, s, e).energy == Refreshed(cfg, s, e.reply).energy;
      RefreshGains(cfg, s, e.reply, c, gain);
    } else {
      assert Step(cfg, s, e).energy == s.energy;
    }
  }

  lemma RefreshGains(cfg: Config, s: State, r: Reply, c: nat, gain: int)
    requires Inv(cfg, s) && Reports(cfg, s.window, r) && cfg.MaxGap() <= SAFE_GAP
    requires c < cfg.n && IsActive(cfg.mask, c) && gain == Exact(cfg, s.window, c, Rate(r.ctrl[6]))
    ensures Refreshed(cfg, s, r).energy[c] == S64(s.energy[c] + gain)
  {
    ShiftIsRate(r.ctrl[6]);
    NothingSaturates(cfg, s, c, |s.window|, Sum(s.window, c));
  }

  /** Over every run the driver's energy is the sum of the documented contributions of all closed
      windows, modulo 2^64. */
  lemma {:induction false} EnergyIsSum(cfg: Config, s: State, es: seq<Event>, c: nat, start: int, total: int)
    requires Inv(cfg, s) && Run(cfg, s, es) && cfg.MaxGap() <= SAFE_GAP && c < cfg.n && IsActive(cfg.mask, c)
    requires s.energy[c] == S64(start) && total == start + Gained(cfg, s, es, c)
    ensures Final(cfg, s, es).energy[c] == S64(total)
    decreases |es|
  {
    if es != [] {
      var s', gain := RunStep(cfg, s, es, c, start);
      EnergyIsSum(cfg, s', es[1..], c, start + gain, total);
    }
  }

  lemma RunStep(cfg: Config, s: State, es: seq<Event>, c: nat, start: int) returns (s': State, gain: int)
    requires Inv(cfg, s) && Run(cfg, s, es) && cfg.MaxGap() <= SAFE_GAP && c < cfg.n && IsActive(cfg.mask, c)
    requires es != [] && s.energy[c] == S64(start)
    ensures Inv(cfg, s') && Run(cfg, s', es[1..]) && s'.energy[c] == S64(start + gain)
    ensures Same(Final(cfg, s, es), Final(cfg, s', es[1..]))
    ensures Gained(cfg, s, es, c) == gain + Gained(cfg, s', es[1..], c)
  {
    s', gain := Step(cfg, s, es[0]), Gain(cfg, s, es[0], c);
    StepKeepsInv(cfg, s, es[0]);
    StepEnergy(cfg, s, es[0], c, start, gain);
  }

  /** So it is the plain sum exactly as long as the sum fits. */
  lemma EnergyIsExact(cfg: Config, s: State, es: seq<Event>, c: nat)
    requires Inv(cfg, s) && Run(cfg, s, es) && cfg.MaxGap() <= SAFE_GAP && c < cfg.n && IsActive(cfg.mask, c)
    requires s.energy[c] == 0
    ensures Final(cfg, s, es).energy[c] == Gained(cfg, s, es, c) <==>
      -(TWO63 as int) <= Gained(cfg, s, es, c) < TWO63 as int
  {
    EnergyIsSum(cfg, s, es, c, 0, Gained(cfg, s, es, c));
  }

  // ---------------------------------------------------------------------------
  // The driver
  // ---------------------------------------------------------------------------

  lemma SameEnergy(energy: seq<int>, mask: Byte, n: nat, acc: seq<int>, acc': seq<int>, count: nat, shift: nat)
    requires |energy| == |acc| == |acc'| == MAX_CHANNELS && n <= MAX_CHANNELS
    requires forall c :: 0 <= c < n && IsActive(mask, c) ==> acc[c] == acc'[c]
    ensures EnergyAfter(energy, mask, n, acc, count, shift) == EnergyAfter(energy, mask, n, acc', count, shift)
  {
  }

  /** The parsed accumulators are the ones the chip sent. */
  lemma ParsedEnergy(cfg: Config, window: seq<Sample>, r: Reply, was: seq<int>, acc: seq<int>)
    requires cfg.Valid() && ValidWindow(cfg, window) && Reports(cfg, window, r) && |was| == MAX_CHANNELS
    requires acc == ParsedSection(0, cfg.mask, cfg.n, cfg.bi, r.regs, was)
    ensures Be(r.regs[..ACC_COUNT_LEN]) == r.frame.count && Usable(r)
    ensures forall c :: 0 <= c < cfg.n && IsActive(cfg.mask, c) ==> acc[c] == r.frame.vals[0][c]
  {
    CountRoundTrip(r.frame, cfg.mask, cfg.n, cfg.bi, r.regs);
    assert SectionReadable(SECTIONS[0], cfg.mask, cfg.n, cfg.bi, r.frame.vals[0]);
    SnapshotRoundTrip(r.frame, cfg.mask, cfg.n, cfg.bi, r.regs, 0, was);
  }

  /** The driver's record of one chip; `jiffies` is the kernel's clock, `last` and `window` are the chip's. */
  class Monitor {
    const cfg: Config
    const data: RegData
    var jiffies: nat
    var tstamp: int
    var tmrForcedUpdate: nat
    var workChipRfsh: Option<nat>
    ghost var last: nat
    ghost var window: seq<Sample>

    ghost predicate Valid()
      reads this, data
    {
      data.Valid() && Inv(cfg, View())
    }

    ghost function View(): State
      reads this, data
    {
      State(jiffies, last, tstamp, tmrForcedUpdate, workChipRfsh, window, data.energySecAcc)
    }

    /** Probing arms the timer and reads what the chip has collected so far, which counts towards the
        energies like any other window. */
    constructor (cfg: Config, now: nat, collected: seq<Sample>, r: Reply)
      requires cfg.Valid() && ValidWindow(cfg, collected) && Reports(cfg, collected, r)
      ensures Valid() && this.cfg == cfg && fresh(data) && Usable(r)
      ensures View() == Refreshed(cfg, State(now, now, now, now + MAX_RFSH_LIMIT, None, collected, [0, 0, 0, 0]), r)
      ensures View() == State(now, now, now, now + MAX_RFSH_LIMIT, None, [], data.energySecAcc)
    {
      this.cfg := cfg;
      data := new RegData();
      jiffies, tstamp, last := now, now, now;
      tmrForcedUpdate, workChipRfsh, window := now + MAX_RFSH_LIMIT, None, collected;
      new;
      RegSnapshot(r);
    }

    /** pac193x_send_rfsh: the chip closes its window, the driver takes the time. */
    method SendRfsh()
      modifies this`tstamp, this`last, this`window
      ensures tstamp == last == jiffies && window == []
    {
      tstamp := jiffies;
      last, window := jiffies, [];
    }

    /** pac193x_reg_snapshot with a refresh. */
    method RegSnapshot(r: Reply)
      requires cfg.Valid() && data.Valid() && ValidWindow(cfg, window) && Reports(cfg, window, r)
      modifies this`tstamp, this`last, this`window, data
      ensures data.Valid() && Usable(r) && View() == Refreshed(cfg, old(View()), r)
    {
      ghost var was, energy := data.vpowerAcc, data.energySecAcc;
      ghost var closed := window;
      SendRfsh();
      data.RegSnapshot(r.ctrl, r.regs, cfg.n, cfg.bi);
      ParsedEnergy(cfg, closed, r, was, data.vpowerAcc);
      SameEnergy(energy, cfg.mask, cfg.n, data.vpowerAcc, r.frame.vals[0], r.frame.count, SampShift(r.ctrl[6]));
    }

    /** pac193x_read_reg_timeout */
    method ReadRegTimeout()
      requires Valid() && Enabled(cfg, View(), TimerFires)
      modifies this`tmrForcedUpdate, this`workChipRfsh
      ensures Valid() && View() == Step(cfg, old(View()), TimerFires)
    {
      StepKeepsInv(cfg, View(), TimerFires);
      tmrForcedUpdate := jiffies + MAX_RFSH_LIMIT;
      // queueing work that is already pending changes nothing
      if workChipRfsh.None? { workChipRfsh := Some(jiffies + cfg.delay); }
    }

    /** pac193x_work_periodic_rfsh */
    method WorkPeriodicRfsh(r: Reply)
      requires Valid() && Enabled(cfg, View(), WorkRuns(r))
      modifies this, data
      ensures Valid() && View() == Step(cfg, old(View()), WorkRuns(r))
    {
      StepKeepsInv(cfg, View(), WorkRuns(r));
      workChipRfsh := None;
      RegSnapshot(r);
    }

    /** pac193x_retrieve_data */
    method RetrieveData(r: Reply)
      requires cfg.Valid() && data.Valid() && ValidWindow(cfg, window) && Usable(r)
      requires jiffies > tstamp + MIN_POLLING_TIME ==> Reports(cfg, window, r)
      modifies this, data
      ensures data.Valid() && View() == Retrieved(cfg, old(View()), r)
    {
      if jiffies > tstamp + MIN_POLLING_TIME {
        RegSnapshot(r);
        tmrForcedUpdate := jiffies + MAX_RFSH_LIMIT;
      }
    }

    /** Reading any attribute. */
    method ReadRaw(r: Reply)
      requires Valid() && Enabled(cfg, View(), Read(r))
      modifies this, data
      ensures Valid() && View() == Step(cfg, old(View()), Read(r))
    {
      StepKeepsInv(cfg, View(), Read(r));
      RetrieveData(r);
    }

    /** pac193x_write_raw for the sampling frequency. */
    method WriteRaw(r: Reply)
      requires Valid() && Enabled(cfg, View(), RateChange(r))
      modifies this, data
      ensures Valid() && View() == Step(cfg, old(View()), RateChange(r))
    {
      StepKeepsInv(cfg, View(), RateChange(r));
      tstamp := tstamp - MIN_POLLING_TIME;
      RetrieveData(r);
    }
  }
}
