/**
  The two-byte programming counter at the start of the OTP, and the write-once
  medium underneath it. A hub that boots from its internal ROM keeps the counter
  in real OTP (blank bytes 0x00, byte 1 inverted); a hub that boots from SPI keeps
  it in a pseudo OTP area of the flash (blank bytes 0xFF).
 */
module OtpCounter {
  import opened Bits

  datatype Boot = FromRom | FromSpi

  const LIMIT: nat := 16

  /** Which way the bits of a cell may move: true for 1 to 0, false for 0 to 1. */
  predicate BurnsDown(boot: Boot, address: nat) {
    boot.FromSpi? || address == 1
  }

  function Blank(boot: Boot, address: nat): Byte {
    if BurnsDown(boot, address) then 255 else 0
  }

  /** What a cell holds after `next` is written over `previous`. */
  function Burn(boot: Boot, address: nat, previous: Byte, next: Byte): (stored: Byte) {
    if BurnsDown(boot, address) then And(previous, next)
    else
      OrByte(previous, next);
      Or(previous, next)
  }

  /** No bit moves back: every stored digit is the old one or has left its blank value. */
  lemma BurnIsOneWay(boot: Boot, address: nat, previous: Byte, next: Byte, k: nat)
    ensures var before, after := Digit(previous, k), Digit(Burn(boot, address, previous, next), k);
      if BurnsDown(boot, address) then after <= before else before <= after
  {
    AndDigit(previous, next, k);
    OrDigit(previous, next, k);
  }

  lemma BlankTakesAnything(boot: Boot, address: nat, next: Byte)
    ensures Burn(boot, address, Blank(boot, address), next) == next
  {
    AndByteOnes(next, 255);
  }

  /** The 16-bit word ~(1 << n); for n = 16 the shifted bit lies outside it. */
  function HoleAt(n: nat): nat
    requires n <= 16
  {
    WordLimit(n);
    if n < 16 then 65535 - Pow2(n) else 65535
  }

  lemma WordLimit(n: nat)
    requires n <= 16
    ensures Pow2(n) <= 65536
    ensures n == 16 ==> Pow2(n) == 65536
    ensures n < 16 ==> Pow2(n + 1) <= 65536
  {
    Pow2Values();
    if n < 16 { Pow2Mono(n + 1, 16); }
  }

  lemma OnesOfWord(word: nat)
    requires word < 65536
    ensures Ones(word) <= 16
  {
    var n: nat := 16;
    assert Pow2(n) == 65536 by { Pow2Values(); }
    OnesBound(word, n);
  }

  /** Clear the bit above the zeros already counted (SPI boot), or set the bit above the ones
      already counted (ROM boot). */
  function AdvanceWord(boot: Boot, word: nat): nat
    requires word < 65536
  {
    OnesOfWord(word);
    if boot.FromSpi? then And(word, HoleAt(16 - Ones(word)))
    else Or(word, Pow2(Ones(word))) % 65536
  }

  /** The counter update of one run, as the code computes it from the two stored bytes. */
  function Advance(boot: Boot, high: Byte, low: Byte): (next: (Byte, Byte)) {
    var word := AdvanceWord(boot, high as int * 256 + if boot.FromRom? then 255 - low as int else low as int);
    (word / 256, if boot.FromRom? then 255 - word % 256 else word % 256)
  }

  // ---------------------------------------------------------------------------
  // The thermometer code
  // ---------------------------------------------------------------------------

  function LowRun(count: nat): (n: nat)
    ensures n <= 8
  {
    if count < 8 then count else 8
  }

  function HighRun(count: nat): nat {
    if count < 8 then 0 else count - 8
  }

  lemma ByteRuns(a: nat, b: nat)
    requires a <= b <= 8
    ensures 1 <= Pow2(a) <= Pow2(b) <= 256
  {
    Pow2Values();
    Pow2Mono(a, b);
    Pow2Mono(b, 8);
  }

  /** The two bytes of a part that has been programmed `count` times. */
  function Thermometer(boot: Boot, count: nat): (bytes: (Byte, Byte))
    requires count <= LIMIT
  {
    ByteRuns(LowRun(count), 8);
    ByteRuns(HighRun(count), 8);
    if boot.FromRom? then (Pow2(HighRun(count)) - 1, 256 - Pow2(LowRun(count)))
    else (256 - Pow2(HighRun(count)), 256 - Pow2(LowRun(count)))
  }

  /** For example after three and after ten runs. */
  lemma ThermometerExamples()
    ensures Thermometer(FromRom, 3) == (0x00, 0xF8) && Thermometer(FromRom, 10) == (0x03, 0x00)
    ensures Thermometer(FromSpi, 3) == (0xFF, 0xF8) && Thermometer(FromSpi, 10) == (0xFC, 0x00)
  {
    assert Pow2(2) == 4 && Pow2(3) == 8 && Pow2(8) == 256;
  }

  lemma BlankPartCountsZero(boot: Boot)
    ensures Thermometer(boot, 0) == (Blank(boot, 0), Blank(boot, 1))
  {
  }

  /** The 16-bit word behind the code: a run of low ones, or of high ones. */
  lemma WordOfThermometer(boot: Boot, count: nat)
    requires count <= LIMIT
    ensures Pow2(count) <= 65536
    ensures var (high, low) := Thermometer(boot, count);
      match boot
      case FromRom => high * 256 + (255 - low) == Pow2(count) - 1
      case FromSpi => high * 256 + low == 65536 - Pow2(count)
  {
    RunsOfCount(count);
  }

  lemma RunsOfCount(count: nat)
    requires count <= LIMIT
    ensures 1 <= Pow2(LowRun(count)) <= 256 && 1 <= Pow2(HighRun(count)) <= 256
    ensures Pow2(count) - 1 == (Pow2(HighRun(count)) - 1) * 256 + (Pow2(LowRun(count)) - 1)
  {
    ByteRuns(LowRun(count), 8);
    ByteRuns(HighRun(count), 8);
    if count >= 8 {
      Pow2Add(count - 8, 8);
      Pow2Values();
    }
  }

  /** Splitting the word back into bytes gives the code. */
  lemma ThermometerOfWord(boot: Boot, count: nat, word: nat)
    requires count <= LIMIT
    requires word == if boot.FromRom? then Pow2(count) - 1 else 65536 - Pow2(count)
    ensures Thermometer(boot, count)
         == (word / 256, if boot.FromRom? then 255 - word % 256 else word % 256)
  {
    WordOfThermometer(boot, count);
    var (high, low) := Thermometer(boot, count);
    SplitWord(word, high, if boot.FromRom? then 255 - low else low);
  }

  lemma SplitWord(word: nat, high: Byte, low: Byte)
    requires word == high * 256 + low
    ensures word / 256 == high && word % 256 == low
  {
  }

  function Next(count: nat): nat {
    if count < LIMIT then count + 1 else LIMIT
  }

  lemma SetNextOne(count: nat, word: nat, bit: nat)
    requires count <= LIMIT && word == Pow2(count) - 1 && bit == Pow2(count)
    ensures Or(word, bit) % 65536 == Pow2(Next(count)) - 1
  {
    OrNextOne(count, word, bit);
    WordLimit(count);
  }

  lemma ClearNextOne(count: nat, word: nat, mask: nat)
    requires count <= LIMIT && word == 65536 - Pow2(count)
    requires mask == if count < LIMIT then 65535 - Pow2(count) else 65535
    ensures And(word, mask) == 65536 - Pow2(Next(count))
  {
    WordLimit(count);
    if count < LIMIT {
      var n: nat := 16;
      assert Pow2(n) == 65536 by { Pow2Values(); }
      AndDropLowest(count, n, word, mask);
    } else {
      assert word == 0;
    }
  }

  lemma OnesOfHighRun16(count: nat, word: nat)
    requires count <= LIMIT && word == 65536 - Pow2(count)
    ensures Ones(word) == 16 - count
  {
    var n: nat := 16;
    assert Pow2(n) == 65536 by { Pow2Values(); }
    OnesOfHighRun(count, n, word);
  }

  lemma AdvanceWordCounts(boot: Boot, count: nat, word: nat)
    requires count <= LIMIT && word < 65536
    requires word == if boot.FromRom? then Pow2(count) - 1 else 65536 - Pow2(count)
    ensures Pow2(Next(count)) <= 65536
    ensures AdvanceWord(boot, word)
         == if boot.FromRom? then Pow2(Next(count)) - 1 else 65536 - Pow2(Next(count))
  {
    WordLimit(count);
    match boot {
      case FromRom =>
        OnesOfLowRun(count, word);
        SetNextOne(count, word, Pow2(count));
      case FromSpi =>
        OnesOfHighRun16(count, word);
        ClearNextOne(count, word, HoleAt(count));
    }
  }

  lemma AdvanceSplits(boot: Boot, high: Byte, low: Byte, word: nat, word': nat)
    requires word == high * 256 + if boot.FromRom? then 255 - low else low
    requires word' == AdvanceWord(boot, word)
    ensures Advance(boot, high, low) == (word' / 256, if boot.FromRom? then 255 - word' % 256 else word' % 256)
  {
  }

  /** One run moves the count up by exactly one, and a full counter stays full. */
  lemma AdvanceCounts(boot: Boot, count: nat, now: (Byte, Byte))
    requires count <= LIMIT && now == Thermometer(boot, count)
    ensures Advance(boot, now.0, now.1) == Thermometer(boot, Next(count))
  {
    WordOfThermometer(boot, count);
    var word: nat := now.0 * 256 + if boot.FromRom? then 255 - now.1 else now.1;
    var word' := AdvanceWord(boot, word);
    AdvanceWordCounts(boot, count, word);
    AdvanceSplits(boot, now.0, now.1, word, word');
    ThermometerOfWord(boot, Next(count), word');
  }

  lemma BurnUp(previous: Byte, next: Byte)
    requires Or(previous, next) == next
    ensures Burn(FromRom, 0, previous, next) == next
  {
  }

  lemma BurnDown(boot: Boot, address: nat, previous: Byte, next: Byte)
    requires BurnsDown(boot, address) && And(previous, next) == next
    ensures Burn(boot, address, previous, next) == next
  {
  }

  lemma GainLowOnes(a: nat, b: nat, previous: Byte, next: Byte)
    requires a <= b && previous == Pow2(a) - 1 && next == Pow2(b) - 1
    ensures Burn(FromRom, 0, previous, next) == next
  {
    OrLowRuns(a, b, previous, next);
    BurnUp(previous, next);
  }

  lemma HighRuns8(a: nat, b: nat, previous: Byte, next: Byte)
    requires a <= b <= 8 && previous == 256 - Pow2(a) && next == 256 - Pow2(b)
    ensures And(previous, next) == next
  {
    var n: nat := 8;
    assert Pow2(n) == 256 by { Pow2Values(); }
    AndHighRuns(a, b, n, previous, next);
  }

  lemma LoseLowOnes(boot: Boot, address: nat, a: nat, b: nat, previous: Byte, next: Byte)
    requires a <= b <= 8 && previous == 256 - Pow2(a) && next == 256 - Pow2(b)
    requires BurnsDown(boot, address)
    ensures Burn(boot, address, previous, next) == next
  {
    HighRuns8(a, b, previous, next);
    BurnDown(boot, address, previous, next);
  }

  /** Writing the advanced counter moves bits in the burnable direction only. */
  lemma AdvanceBurns(boot: Boot, count: nat, now: (Byte, Byte), next: (Byte, Byte))
    requires count <= LIMIT
    requires now == Thermometer(boot, count) && next == Thermometer(boot, Next(count))
    ensures Burn(boot, 0, now.0, next.0) == next.0
    ensures Burn(boot, 1, now.1, next.1) == next.1
  {
    var n := Next(count);
    LoseLowOnes(boot, 1, LowRun(count), LowRun(n), now.1, next.1);
    if boot.FromRom? {
      GainLowOnes(HighRun(count), HighRun(n), now.0, next.0);
    } else {
      LoseLowOnes(boot, 0, HighRun(count), HighRun(n), now.0, next.0);
    }
  }

  /** Distinct counts have distinct codes. */
  lemma {:induction false} ThermometerInjective(boot: Boot, a: nat, b: nat)
    requires a <= LIMIT && b <= LIMIT && Thermometer(boot, a) == Thermometer(boot, b)
    ensures a == b
  {
    WordOfThermometer(boot, a);
    WordOfThermometer(boot, b);
    OnesOfLowRun(a, Pow2(a) - 1);
    OnesOfLowRun(b, Pow2(b) - 1);
  }

  /** Byte 0 of a counter never reads as the first letter of a header signature. */
  lemma CounterIsNoSignature(boot: Boot, count: nat)
    requires count <= LIMIT
    ensures Thermometer(boot, count).0 != 'I' as int
  {
    var high := Thermometer(boot, count).0;
    var h := if count < 8 then 0 else count - 8;
    assert Pow2(0) == 1 && Pow2(1) == 2 && Pow2(2) == 4 && Pow2(3) == 8 && Pow2(4) == 16;
    assert Pow2(5) == 32 && Pow2(6) == 64 && Pow2(7) == 128 && Pow2(8) == 256;
    assert h in {0, 1, 2, 3, 4, 5, 6, 7, 8};
  }
}
