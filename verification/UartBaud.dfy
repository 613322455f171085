/**
  The UART divisor search. Reload values are computed by integer division and stored through
  byte casts; a self-check then compares the rate they give with the requested one.
 */
module UartBaud {
  import opened Arithmetic

  const CRYSTAL_FREQUENCY: nat := 60000000
  const MAX_S0REL_VALUE: nat := 1023
  const MAX_ERROR_PERCENTAGE: nat := 2

  class UartRegs {
    var serialPortMode: nat
    var bd: nat
    var smod: nat
    var th1: nat
    var s0rel: nat

    constructor (mode: nat, bd: nat, smod: nat)
      ensures serialPortMode == mode && this.bd == bd && this.smod == smod && th1 == 0 && s0rel == 0
    {
      serialPortMode, this.bd, this.smod, th1, s0rel := mode, bd, smod, 0, 0;
    }
  }

  // ---------------------------------------------------------------------------
  // The arithmetic of the code
  // ---------------------------------------------------------------------------

  /** pow(2, SMOD) times the crystal frequency. */
  function Clock(smod: nat): (c: nat)
    requires smod <= 1
    ensures 60000000 <= c <= 120000000
  {
    if smod == 0 then CRYSTAL_FREQUENCY else 2 * CRYSTAL_FREQUENCY
  }

  function ByteCast(x: int): (b: nat)
    ensures b < 256
  {
    x % 256
  }

  /** The ideal divisor, rounded down: 384 clocks per unit for timer 1, 64 for the internal
      baud rate generator. */
  function Divisor(clock: nat, unit: nat, baud: nat): nat
    requires unit > 0 && baud > 0
  {
    Quotient(clock, unit * baud)
  }

  function Th1(clock: nat, baud: nat): (r: nat)
    requires baud > 0
    ensures r < 256
  {
    ByteCast(256 - Divisor(clock, 384, baud))
  }

  function S0Rel(clock: nat, baud: nat): (r: nat)
    requires baud > 0
    ensures r < 256
  {
    ByteCast(1024 - Divisor(clock, 64, baud))
  }

  function Quotient(n: nat, d: nat): nat
    requires d > 0
  {
    n / d
  }

  function TimerRate(clock: nat, th1: nat): nat
    requires th1 < 256
  {
    Quotient(clock, 384 * (256 - th1))
  }

  function GeneratorRate(clock: nat, s0rel: nat): nat
    requires s0rel <= MAX_S0REL_VALUE
  {
    Quotient(clock, 64 * (1024 - s0rel))
  }

  /** The rate that the settings of one mode produce. */
  function ActualRate(mode: nat, bd: nat, smod: nat, baud: nat): nat
    requires smod <= 1 && baud > 0
  {
    match mode
    case 0 => CRYSTAL_FREQUENCY / 12
    case 2 => if smod == 0 then CRYSTAL_FREQUENCY / 64 else CRYSTAL_FREQUENCY / 32
    case _ =>
      if mode != 1 && mode != 3 then 0
      else if bd == 0 then TimerRate(Clock(smod), Th1(Clock(smod), baud))
      else GeneratorRate(Clock(smod), S0Rel(Clock(smod), baud))
  }

  function Distance(a: nat, b: nat): nat {
    if a > b then a - b else b - a
  }

  /** The self-check: the error in percent, truncated, is at most 2. */
  predicate CloseEnough(desired: nat, actual: nat)
    requires desired > 0
  {
    Quotient(100 * Distance(desired, actual), desired) <= MAX_ERROR_PERCENTAGE
  }

  predicate Accepts(mode: nat, bd: nat, smod: nat, baud: nat)
    requires smod <= 1 && baud > 0
  {
    CloseEnough(baud, ActualRate(mode, bd, smod, baud))
  }

  // ---------------------------------------------------------------------------
  // The code
  // ---------------------------------------------------------------------------

  /** CalculateDeviceUARTRegisterSettings. */
  method CalculateSettings(mode: nat, regs: UartRegs, baud: nat) returns (testable: bool)
    requires regs.smod <= 1 && baud > 0
    modifies regs`th1, regs`s0rel
    ensures testable == Accepts(mode, old(regs.bd), old(regs.smod), baud)
    ensures regs.th1 == if mode in {1, 3} && regs.bd == 0 then Th1(Clock(regs.smod), baud) else old(regs.th1)
    ensures regs.s0rel == if mode in {1, 3} && regs.bd != 0 then S0Rel(Clock(regs.smod), baud) else old(regs.s0rel)
  {
    var actual: nat := 0;
    if mode == 0 {
      actual := CRYSTAL_FREQUENCY / 12;
    } else if mode == 2 {
      actual := if regs.smod == 0 then CRYSTAL_FREQUENCY / 64 else CRYSTAL_FREQUENCY / 32;
    } else if mode == 1 || mode == 3 {
      var clock := Clock(regs.smod);
      if regs.bd == 0 {
        var th1 := ByteCast(256 - Divisor(clock, 384, baud));
        actual := TimerRate(clock, th1);
        regs.th1 := th1;
      } else {
        var s0rel := ByteCast(1024 - Divisor(clock, 64, baud));
        // the byte cast leaves nothing for the range check to reject
        if s0rel <= MAX_S0REL_VALUE {
          actual := GeneratorRate(clock, s0rel);
          regs.s0rel := s0rel;
        }
      }
    }
    assert actual == ActualRate(mode, regs.bd, regs.smod, baud);
    var difference := if baud > actual then baud - actual else actual - baud;
    assert difference == Distance(baud, actual);
    testable := Quotient(100 * difference, baud) <= MAX_ERROR_PERCENTAGE;
  }

  /** The BD and SMOD bits of the k-th attempt. */
  function SmodOf(k: nat): nat { k % 2 }
  function BdOf(k: nat): nat { k / 2 % 2 }

  predicate AttemptAccepts(k: nat, baud: nat)
    requires baud > 0
  {
    Accepts(1, BdOf(k), SmodOf(k), baud)
  }

  /** MchpUsbSetUARTBaudrate: four combinations of BD and SMOD in mode 1. `delivered[k]` says
      whether the k-th register write would reach the device. */
  method SetBaudrate(baud: nat, delivered: seq<bool>) returns (ok: bool, sent: UartRegs?)
    requires baud > 0 && |delivered| == 4
    ensures ok <==> exists k :: 0 <= k < 4 && AttemptAccepts(k, baud) && delivered[k]
    ensures ok ==> sent != null && fresh(sent) && exists k ::
      && 0 <= k < 4 && AttemptAccepts(k, baud) && delivered[k]
      && (forall j :: 0 <= j < k ==> !(AttemptAccepts(j, baud) && delivered[j]))
      && sent.serialPortMode == 1 && sent.bd == BdOf(k) && sent.smod == SmodOf(k)
      && sent.th1 == (if BdOf(k) == 0 then Th1(Clock(SmodOf(k)), baud) else 0)
      && sent.s0rel == (if BdOf(k) != 0 then S0Rel(Clock(SmodOf(k)), baud) else 0)
  {
    ok, sent := false, null;
    var k := 0;
    while k < 4
      invariant 0 <= k <= 4
      invariant !ok
      invariant forall j :: 0 <= j < k ==> !(AttemptAccepts(j, baud) && delivered[j])
    {
      var regs := new UartRegs(1, BdOf(k), SmodOf(k));
      var acceptable := CalculateSettings(1, regs, baud);
      assert acceptable == AttemptAccepts(k, baud);
      if acceptable && delivered[k] {
        return true, regs;
      }
      k := k + 1;
    }
  }

  // ---------------------------------------------------------------------------
  // What acceptance means
  // ---------------------------------------------------------------------------

  lemma FloorAtLeast(n: nat, d: nat, q: nat)
    requires d > 0 && d * q <= n
    ensures n / d >= q
  {
    FloorBounds(n, d);
    if n / d < q {
      MulMono(d, n / d + 1, q);
    }
  }

  /** Accepted means the error is below three percent, as an exact rational. */
  lemma CloseIsBelowThreePercent(desired: nat, actual: nat)
    requires desired > 0
    ensures CloseEnough(desired, actual) <==> 100 * Distance(desired, actual) < 3 * desired
  {
    var e := 100 * Distance(desired, actual);
    FloorBounds(e, desired);
    var q := e / desired;
    if q <= 2 {
      MulMono(desired, q + 1, 3);
    } else {
      MulMono(desired, 3, q);
    }
  }

  lemma FarAboveRejected(desired: nat, actual: nat)
    requires desired > 0 && actual >= 2 * desired
    ensures !CloseEnough(desired, actual)
  {
    CloseIsBelowThreePercent(desired, actual);
  }

  // ----- BD = 0

  /** The divisor the hardware sees after the byte cast, between 1 and 256. */
  function Timer(clock: nat, baud: nat): (d: nat)
    requires baud > 0
    ensures 1 <= d <= 256
  {
    256 - Th1(clock, baud)
  }

  lemma TimerIsDivisor(clock: nat, baud: nat)
    requires baud > 0
    ensures var q, d := Divisor(clock, 384, baud), Timer(clock, baud);
      && (1 <= q <= 256 ==> d == q)
      && (q == 0 ==> d == 256)
      && (q > 256 ==> q >= d + 256)
  {
    var q: int, d: int := Divisor(clock, 384, baud), Timer(clock, baud);
    assert (256 - q) % 256 == 256 - d;
  }

  lemma TimerTooSlow(clock: nat, baud: nat)
    requires baud > 0 && Divisor(clock, 384, baud) == 0
    ensures !CloseEnough(baud, clock / (384 * 256))
  {
    FloorBounds(clock, 384 * baud);
    var a := clock / (384 * 256);
    FloorBounds(clock, 384 * 256);
    assert 256 * a < baud;
    CloseIsBelowThreePercent(baud, a);
  }

  lemma Regroup(unit: nat, x: nat, y: nat)
    ensures (unit * x) * (2 * y) == (unit * y) * (2 * x)
  {
  }

  lemma TwiceTheRate(clock: nat, baud: nat, q: nat, d: nat)
    requires (384 * baud) * q <= clock && q >= d + d
    ensures (384 * d) * (2 * baud) <= clock
  {
    MulMono(384 * baud, 2 * d, q);
    Regroup(384, baud, d);
  }

  lemma TimerTooFast(clock: nat, baud: nat, q: nat, d: nat, a: nat)
    requires baud > 0 && (384 * baud) * q <= clock < (384 * d) * (a + 1) && 1 <= d <= 256 && q >= d + 256
    ensures !CloseEnough(baud, a)
  {
    TwiceTheRate(clock, baud, q, d);
    Cancel(384 * d, 2 * baud, a + 1);
    FarAboveRejected(baud, a);
  }

  /** BD = 0: an accepted reload value was not truncated by its byte cast. */
  lemma AcceptedTh1IsExact(smod: nat, baud: nat)
    requires smod <= 1 && baud > 0 && Accepts(1, 0, smod, baud)
    ensures 1 <= Divisor(Clock(smod), 384, baud) <= 256
    ensures Th1(Clock(smod), baud) == 256 - Divisor(Clock(smod), 384, baud)
  {
    var clock := Clock(smod);
    var q, d := Divisor(clock, 384, baud), Timer(clock, baud);
    TimerIsDivisor(clock, baud);
    if q == 0 {
      TimerTooSlow(clock, baud);
    } else if q > 256 {
      FloorBounds(clock, 384 * baud);
      FloorBounds(clock, 384 * d);
      TimerTooFast(clock, baud, q, d, clock / (384 * d));
    }
  }

  /** BD = 0: accepted exactly when the ideal divisor survives the byte cast and the rate that it
      yields is within three percent. */
  lemma Bd0AcceptedIff(smod: nat, baud: nat, q: nat)
    requires smod <= 1 && baud > 0 && q == Divisor(Clock(smod), 384, baud)
    ensures Accepts(1, 0, smod, baud) <==>
      1 <= q <= 256 && 100 * Distance(baud, Quotient(Clock(smod), 384 * q)) < 3 * baud
  {
    if Accepts(1, 0, smod, baud) { AcceptedTh1IsExact(smod, baud); }
    if 1 <= q <= 256 {
      TimerIsDivisor(Clock(smod), baud);
      CloseIsBelowThreePercent(baud, Quotient(Clock(smod), 384 * q));
    }
  }

  lemma WithinAThirtyFourth(baud: int, q: int, a: int)
    requires baud > 0 && q >= 34 && baud <= a
    requires q * a < baud * (q + 1)
    ensures 100 * (a - baud) < 3 * baud
  {
    assert q * (a - baud) < baud;
    assert 34 * (a - baud) <= q * (a - baud);
  }

  /** A rate from an exact divisor of at least 34 lies between the request and 3% above it. */
  lemma RoundsUp(clock: nat, unit: nat, baud: nat, q: nat)
    requires unit > 0 && baud > 0 && q == Divisor(clock, unit, baud) && q >= 34
    ensures unit * q > 0
    ensures baud <= clock / (unit * q)
    ensures CloseEnough(baud, clock / (unit * q))
  {
    var a := clock / (unit * q);
    TwoFloors(clock, unit, baud, q, q, a);
    if a < baud { MulMono(q, a + 1, baud); }
    WithinAThirtyFourth(baud, q, a);
    CloseIsBelowThreePercent(baud, a);
  }

  /** BD = 0: every divisor from 34 to 256 is accepted and never rounds below the request. */
  lemma Bd0Window(smod: nat, baud: nat)
    requires smod <= 1 && baud > 0
    requires 34 <= Divisor(Clock(smod), 384, baud) <= 256
    ensures Accepts(1, 0, smod, baud)
    ensures baud <= ActualRate(1, 0, smod, baud)
  {
    TimerIsDivisor(Clock(smod), baud);
    RoundsUp(Clock(smod), 384, baud, Divisor(Clock(smod), 384, baud));
  }

  // ----- BD = 1

  /** The divisor after the byte cast, between 769 and 1024. */
  function Generator(clock: nat, baud: nat): (d: nat)
    requires baud > 0
    ensures 769 <= d <= 1024
  {
    1024 - S0Rel(clock, baud)
  }

  lemma GeneratorIsDivisor(clock: nat, baud: nat)
    requires baud > 0
    ensures var q, d := Divisor(clock, 64, baud), Generator(clock, baud);
      && (769 <= q <= 1024 <==> d == q)
      && (q < 769 ==> q + 256 <= d)
      && (q > 1024 ==> q >= d + 256)
  {
    var q: int, d: int := Divisor(clock, 64, baud), Generator(clock, baud);
    assert (1024 - q) % 256 == 1024 - d;
  }

  lemma AQuarterOff(baud: int, d: int, e: int)
    requires baud > 0 && 0 < d <= 1024 && d * e > 255 * baud
    ensures 100 * e >= 24 * baud
  {
    if e <= 0 {
      MulMono(d, 0, -e);
      Minus(d, 0, -e);
    } else {
      MulMono(e, d, 1024);
    }
  }

  lemma SlowByAQuarter(baud: nat, q: nat, d: nat, a: nat)
    requires baud > 0 && 769 <= d <= 1024 && q + 256 <= d
    requires d * a < baud * (q + 1)
    ensures 100 * (baud - a) >= 24 * baud
  {
    MulMono(baud, q + 1, d - 255);
    Minus(baud, d, 255);
    Minus(d, baud, a);
    AQuarterOff(baud, d, baud - a);
  }

  lemma FastByAQuarter(baud: nat, q: nat, d: nat, a: nat)
    requires baud > 0 && 769 <= d <= 1024 && q >= d + 256
    requires baud * q < d * (a + 1)
    ensures 100 * (a + 1 - baud) >= 24 * baud
  {
    MulMono(baud, d + 256, q);
    Minus(baud, d, -256);
    Minus(d, a + 1, baud);
    AQuarterOff(baud, d, a + 1 - baud);
  }

  /** The two floors of the computation, cleared of the common factor 64. */
  lemma TwoFloors(clock: nat, unit: nat, baud: nat, q: nat, d: nat, a: nat)
    requires unit > 0 && baud > 0 && d > 0
    requires unit * baud > 0 && q == clock / (unit * baud)
    requires unit * d > 0 && a == clock / (unit * d)
    ensures d * a < baud * (q + 1)
    ensures baud * q < d * (a + 1)
  {
    FloorBounds(clock, unit * baud);
    FloorBounds(clock, unit * d);
    CancelUnit(clock, unit, d, a, baud, q + 1);
    CancelUnit(clock, unit, baud, q, d, a + 1);
  }

  lemma CancelUnit(clock: nat, unit: nat, x: nat, low: nat, y: nat, high: nat)
    requires (unit * x) * low <= clock < (unit * y) * high
    ensures x * low < y * high
  {
    Assoc(unit, x, low);
    Assoc(unit, y, high);
    Cancel(unit, x * low, y * high);
  }

  lemma Assoc(u: nat, x: nat, y: nat)
    ensures (u * x) * y == u * (x * y)
  {
  }

  lemma OffByThreePercent(desired: nat, actual: nat)
    requires desired > 0
    requires 100 * (desired - actual) >= 3 * desired || 100 * (actual - desired) >= 3 * desired
    ensures !CloseEnough(desired, actual)
  {
    CloseIsBelowThreePercent(desired, actual);
  }

  lemma GeneratorTooSlow(clock: nat, baud: nat, q: nat, d: nat, a: nat)
    requires baud > 0 && q == Divisor(clock, 64, baud) && 769 <= d <= 1024 && q + 256 <= d
    requires a == clock / (64 * d)
    ensures !CloseEnough(baud, a)
  {
    TwoFloors(clock, 64, baud, q, d, a);
    SlowByAQuarter(baud, q, d, a);
    OffByThreePercent(baud, a);
  }

  lemma GeneratorTooFast(clock: nat, baud: nat, q: nat, d: nat, a: nat)
    requires clock >= 60000000
    requires baud > 0 && q == Divisor(clock, 64, baud) && 769 <= d <= 1024 && q >= d + 256
    requires a == clock / (64 * d)
    ensures !CloseEnough(baud, a)
  {
    if baud > 880 {
      TwoFloors(clock, 64, baud, q, d, a);
      FastByAQuarter(baud, q, d, a);
    } else {
      FloorAtLeast(clock, 64 * d, 915);
    }
    OffByThreePercent(baud, a);
  }

  lemma Bd1Cases(clock: nat, baud: nat, q: nat, d: nat, a: nat)
    requires clock >= 60000000 && baud > 0 && q == Divisor(clock, 64, baud) && d == Generator(clock, baud)
    requires a == clock / (64 * d)
    ensures CloseEnough(baud, a) <==> 769 <= q <= 1024
    ensures 769 <= q <= 1024 ==> d == q && baud <= a
  {
    GeneratorIsDivisor(clock, baud);
    if q < 769 {
      GeneratorTooSlow(clock, baud, q, d, a);
    } else if q > 1024 {
      GeneratorTooFast(clock, baud, q, d, a);
    } else {
      RoundsUp(clock, 64, baud, q);
    }
  }

  /** BD = 1: the settings are accepted exactly when the ideal divisor survives the byte cast. */
  lemma Bd1AcceptedIff(smod: nat, baud: nat)
    requires smod <= 1 && baud > 0
    ensures Accepts(1, 1, smod, baud) <==> 769 <= Divisor(Clock(smod), 64, baud) <= 1024
    ensures Accepts(1, 1, smod, baud) ==> S0Rel(Clock(smod), baud) == 1024 - Divisor(Clock(smod), 64, baud)
    ensures Accepts(1, 1, smod, baud) ==> baud <= ActualRate(1, 1, smod, baud)
  {
    var clock := Clock(smod);
    var d := Generator(clock, baud);
    Bd1Cases(clock, baud, Divisor(clock, 64, baud), d, GeneratorRate(clock, 1024 - d));
  }

  // ----- the whole search

  /** Whatever is accepted, in any mode, is within three percent of the request. */
  lemma AcceptedIsClose(mode: nat, bd: nat, smod: nat, baud: nat)
    requires smod <= 1 && baud > 0
    ensures Accepts(mode, bd, smod, baud) <==> 100 * Distance(baud, ActualRate(mode, bd, smod, baud)) < 3 * baud
  {
    CloseIsBelowThreePercent(baud, ActualRate(mode, bd, smod, baud));
  }

  /** The modes with a fixed rate, 5 MHz for mode 0 and 937500 or 1875000 baud for mode 2, accept the
      requests close to it; there are no other modes. */
  lemma FixedRates(mode: nat, bd: nat, smod: nat, baud: nat)
    requires smod <= 1 && baud > 0
    ensures mode == 0 ==> (Accepts(mode, bd, smod, baud) <==> 4854369 <= baud <= 5154639)
    ensures mode == 2 && smod == 0 ==> (Accepts(mode, bd, smod, baud) <==> 910195 <= baud <= 966494)
    ensures mode == 2 && smod == 1 ==> (Accepts(mode, bd, smod, baud) <==> 1820389 <= baud <= 1932989)
    ensures mode > 3 ==> !Accepts(mode, bd, smod, baud)
  {
    AcceptedIsClose(mode, bd, smod, baud);
  }

  lemma DivisorBetween(clock: nat, unit: nat, baud: nat, low: nat, high: nat)
    requires unit > 0 && baud > 0
    requires (unit * baud) * low <= clock < (unit * baud) * (high + 1)
    ensures low <= Divisor(clock, unit, baud) <= high
  {
    FloorAtLeast(clock, unit * baud, low);
    FloorBounds(clock, unit * baud);
    Cancel(unit * baud, clock / (unit * baud), high + 1);
  }

  /** Every rate from 608 to 9191 baud has an accepted setting. */
  lemma LowRatesAreServed(baud: nat)
    requires 608 <= baud <= 9191
    ensures AttemptAccepts(0, baud) || AttemptAccepts(1, baud)
  {
    if baud <= 4595 {
      DivisorBetween(Clock(0), 384, baud, 34, 256);
      Bd0Window(0, baud);
    } else {
      DivisorBetween(Clock(1), 384, baud, 34, 256);
      Bd0Window(1, baud);
    }
  }

  lemma DivisorBounds(clock: nat, unit: nat, baud: nat, q: nat, low: nat, high: nat)
    requires unit > 0 && baud > 0 && q == Divisor(clock, unit, baud) && low <= q <= high
    ensures (unit * baud) * low <= clock < (unit * baud) * (high + 1)
  {
    FloorBounds(clock, unit * baud);
    MulMono(unit * baud, low, q);
    MulMono(unit * baud, q + 1, high + 1);
  }

  /** The third and the fourth combination, with the baud rate generator, serve exactly these rates. */
  lemma GeneratorRates(baud: nat)
    requires baud > 0
    ensures AttemptAccepts(2, baud) <==> 915 <= baud <= 1219
    ensures AttemptAccepts(3, baud) <==> 1830 <= baud <= 2438
  {
    GeneratorServes(0, baud, 915, 1219);
    GeneratorServes(1, baud, 1830, 2438);
  }

  lemma GeneratorServes(smod: nat, baud: nat, low: nat, high: nat)
    requires smod <= 1 && baud > 0 && low > 0
    requires (64 * low) * 1025 > Clock(smod) >= (64 * (low - 1)) * 1025
    requires (64 * (high + 1)) * 769 > Clock(smod) >= (64 * high) * 769
    ensures Accepts(1, 1, smod, baud) <==> low <= baud <= high
  {
    Bd1AcceptedIff(smod, baud);
    if low <= baud <= high {
      DivisorBetween(Clock(smod), 64, baud, 769, 1024);
    } else if Accepts(1, 1, smod, baud) {
      DivisorBounds(Clock(smod), 64, baud, Divisor(Clock(smod), 64, baud), 769, 1024);
    }
  }

  /** No rate below 608 or above 312500 baud has one. */
  lemma ServedRatesLieBetween(k: nat, baud: nat)
    requires k < 4 && baud > 0 && AttemptAccepts(k, baud)
    ensures 608 <= baud <= 312500
  {
    var clock := Clock(SmodOf(k));
    if BdOf(k) == 0 {
      AcceptedTh1IsExact(SmodOf(k), baud);
      DivisorBounds(clock, 384, baud, Divisor(clock, 384, baud), 1, 256);
    } else {
      Bd1AcceptedIff(SmodOf(k), baud);
      DivisorBounds(clock, 64, baud, Divisor(clock, 64, baud), 769, 1024);
    }
  }

  /** BD = 0, with the divisor and the rate it yields given as products. */
  lemma Bd0Verdict(smod: nat, baud: nat, q: nat, a: nat)
    requires smod <= 1 && baud > 0 && 1 <= q <= 256
    requires (384 * baud) * q <= Clock(smod) < (384 * baud) * (q + 1)
    requires (384 * q) * a <= Clock(smod) < (384 * q) * (a + 1)
    ensures Accepts(1, 0, smod, baud) <==> 100 * Distance(baud, a) < 3 * baud
  {
    DivisorBetween(Clock(smod), 384, baud, q, q);
    DivisorBetween(Clock(smod), 384, q, a, a);
    Bd0AcceptedIff(smod, baud, q);
  }

  lemma ServedWith(baud: nat, q: nat, a: nat)
    requires baud > 0 && 1 <= q <= 256 && 100 * Distance(baud, a) < 3 * baud
    requires (384 * baud) * q <= 120000000 < (384 * baud) * (q + 1)
    requires (384 * q) * a <= 120000000 < (384 * q) * (a + 1)
    ensures AttemptAccepts(1, baud)
  {
    Bd0Verdict(1, baud, q, a);
  }

  /** Of the standard rates above, the search serves 9600, 19200 and 38400 baud, ... */
  lemma StandardRatesServed(baud: nat)
    requires baud in {9600, 19200, 38400}
    ensures AttemptAccepts(1, baud)
  {
    if baud == 9600 {
      ServedWith(baud, 32, 9765);
    } else if baud == 19200 {
      ServedWith(baud, 16, 19531);
    } else {
      ServedWith(baud, 8, 39062);
    }
  }

  lemma Bd1Misses(smod: nat, baud: nat)
    requires smod <= 1 && 57600 <= baud <= 115200
    ensures !Accepts(1, 1, smod, baud)
  {
    DivisorBetween(Clock(smod), 64, baud, 0, 32);
    Bd1AcceptedIff(smod, baud);
  }

  lemma Bd0Misses(smod: nat, baud: nat)
    requires smod <= 1 && baud in {57600, 115200}
    ensures !Accepts(1, 0, smod, baud)
  {
    if smod == 0 {
      if baud == 57600 { Bd0Verdict(smod, baud, 2, 78125); } else { Bd0Verdict(smod, baud, 1, 156250); }
    } else {
      if baud == 57600 { Bd0Verdict(smod, baud, 5, 62500); } else { Bd0Verdict(smod, baud, 2, 156250); }
    }
  }

  /** ... but neither 57600 nor 115200 baud. */
  lemma StandardRatesMissed(k: nat, baud: nat)
    requires k < 4 && baud in {57600, 115200}
    ensures !AttemptAccepts(k, baud)
  {
    Bd0Misses(SmodOf(k), baud);
    Bd1Misses(SmodOf(k), baud);
  }
}
