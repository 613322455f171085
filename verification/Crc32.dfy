/**
  The bitwise CRC-32 that replaces zlib's in libubootenv: it agrees with the table-driven
  algorithm of section 8 of RFC 1952, and it detects every burst of up to 32 bits.
 */
module Crc32 {
  import Rfc1952
  import opened ShiftRegister

  const POLYNOMIAL: bv32 := 0xedb88320
  const TOP: bv32 := 0x80000000
  const WIDTH: nat := 32

  /** One shift of the register. */
  function Shift(c: bv32): bv32 {
    if c & 1 == 1 then (c >> 1) ^ POLYNOMIAL else c >> 1
  }

  function Xor(a: bv32, b: bv32): bv32 { a ^ b }

  function Up(a: bv32): bv32 { a << 1 }

  function Word(b: bv8): bv32 { b as bv32 }

  function Crc32Ops(): Ops<bv32> { Ops(Shift, Xor, Up, 0, 1) }

  function Not(a: bv32): bv32 { !a }

  /** crc32(crc, buf, len), with the complements before and after. */
  function Crc(crc: bv32, buf: seq<bv8>): bv32 {
    Checksum(Crc32Ops(), Word, Not, crc, buf)
  }

  lemma RegisterStep(c: bv32, x: bv32, y: bv32, buf: seq<bv8>, p: nat)
    requires p < |buf|
    requires x == Xor(c, Word(buf[p])) && y == ShiftBy(Crc32Ops(), x, 8)
    ensures Register(Crc32Ops(), Word, c, buf[p..]) == Register(Crc32Ops(), Word, y, buf[p + 1..])
  {
    assert buf[p..][1..] == buf[p + 1..];
  }

  /** The inner loop. */
  method ShiftByte(crc0: bv32) returns (crc: bv32)
    ensures crc == ShiftBy(Crc32Ops(), crc0, 8)
  {
    ghost var o := Crc32Ops();
    crc := crc0;
    for k := 0 to 8
      invariant ShiftBy(o, crc, 8 - k) == ShiftBy(o, crc0, 8)
    {
      crc := Shift(crc);
    }
  }

  /** The nested loops of the patch. */
  method Compute(crc0: bv32, buf: array<bv8>) returns (result: bv32)
    ensures result == Crc(crc0, buf[..])
  {
    ghost var o, s := Crc32Ops(), buf[..];
    var crc := Not(crc0);
    var p := 0;
    while p < buf.Length
      invariant 0 <= p <= buf.Length
      invariant Register(o, Word, crc, s[p..]) == Register(o, Word, Not(crc0), s)
    {
      ghost var before := crc;
      crc := Xor(crc, Word(buf[p]));
      ghost var mixed := crc;
      crc := ShiftByte(crc);
      RegisterStep(before, mixed, crc, s, p);
      p := p + 1;
    }
    assert s[p..] == [];
    result := Not(crc);
  }

  // ---------------------------------------------------------------------------
  // The laws of the 32-bit register
  // ---------------------------------------------------------------------------

  lemma XorFacts(a: bv32, b: bv32)
    ensures (a ^ b) >> 1 == (a >> 1) ^ (b >> 1)
    ensures (a ^ b) & 1 == (a & 1) ^ (b & 1)
    ensures a & 1 == 0 || a & 1 == 1
  {
  }

  lemma XorReorder(a: bv32, b: bv32, p: bv32)
    ensures (a ^ b) ^ p == (a ^ p) ^ b
    ensures (a ^ b) ^ p == a ^ (b ^ p)
    ensures (a ^ p) ^ (b ^ p) == a ^ b
  {
  }

  lemma XorCancel(a: bv32, b: bv32, x: bv32)
    ensures a ^ x == b ^ x ==> a == b
  {
  }

  lemma ShiftLinear(a: bv32, b: bv32)
    ensures Shift(a ^ b) == Shift(a) ^ Shift(b)
  {
    XorFacts(a, b);
    XorFacts(b, a);
    XorReorder(a >> 1, b >> 1, POLYNOMIAL);
  }

  /** The inverse of a shift: the polynomial's top bit tells whether it was added. */
  function Unshift(c: bv32): bv32 {
    if c & TOP == TOP then ((c ^ POLYNOMIAL) << 1) | 1 else c << 1
  }

  lemma TopTells(c: bv32)
    ensures (c >> 1) & TOP != TOP
    ensures ((c >> 1) ^ POLYNOMIAL) & TOP == TOP
  {
  }

  lemma OddRestores(c: bv32)
    requires c & 1 == 1
    ensures ((((c >> 1) ^ POLYNOMIAL) ^ POLYNOMIAL) << 1) | 1 == c
  {
  }

  lemma EvenRestores(c: bv32)
    requires c & 1 != 1
    ensures (c >> 1) << 1 == c
  {
  }

  lemma UnshiftShift(c: bv32)
    ensures Unshift(Shift(c)) == c
  {
    TopTells(c);
    if c & 1 == 1 { OddRestores(c); } else { EvenRestores(c); }
  }

  lemma UnshiftOdd(c: bv32, x: bv32)
    requires c & TOP == TOP && x == ((c ^ POLYNOMIAL) << 1) | 1
    ensures x & 1 == 1 && (x >> 1) ^ POLYNOMIAL == c
  {
  }

  lemma UnshiftEven(c: bv32, x: bv32)
    requires c & TOP != TOP && x == c << 1
    ensures x & 1 != 1 && x >> 1 == c
  {
  }

  lemma ShiftUnshift(c: bv32, u: bv32)
    requires u == Unshift(c)
    ensures Shift(u) == c
  {
    if c & TOP == TOP { UnshiftOdd(c, u); } else { UnshiftEven(c, u); }
  }

  lemma ShiftInjective(a: bv32, b: bv32)
    requires Shift(a) == Shift(b)
    ensures a == b
  {
    UnshiftShift(a);
    UnshiftShift(b);
  }

  lemma XorAssociative(o: Ops<bv32>)
    requires o == Crc32Ops()
    ensures forall a, b, c :: o.xor(o.xor(a, b), c) == o.xor(a, o.xor(b, c))
  {
    forall a, b, c ensures o.xor(o.xor(a, b), c) == o.xor(a, o.xor(b, c)) { XorNests(a, b, c); }
  }

  lemma XorNests(a: bv32, b: bv32, c: bv32)
    ensures Xor(Xor(a, b), c) == Xor(a, Xor(b, c))
  {
    XorReorder(a, b, c);
  }

  lemma XorCommutes(o: Ops<bv32>)
    requires o == Crc32Ops()
    ensures forall a, b :: o.xor(a, b) == o.xor(b, a)
  {
  }

  lemma XorZero(o: Ops<bv32>)
    requires o == Crc32Ops()
    ensures forall a :: o.xor(a, o.zero) == a
  {
  }

  lemma XorCancels(o: Ops<bv32>)
    requires o == Crc32Ops()
    ensures forall a, b, x :: o.xor(a, x) == o.xor(b, x) ==> a == b
  {
    forall a, b, x | o.xor(a, x) == o.xor(b, x) ensures a == b {
      assert Xor(a, x) == Xor(b, x);
      XorCancel(a, b, x);
    }
  }

  lemma LawsOfGroup(o: Ops<bv32>)
    requires o == Crc32Ops()
    ensures Group(o)
  {
    XorAssociative(o);
    XorCommutes(o);
    XorZero(o);
    XorCancels(o);
  }

  lemma XorIs(a: bv32, b: bv32)
    ensures Xor(a, b) == a ^ b
  {
  }

  lemma ShiftAddsUp(a: bv32, b: bv32, x: bv32, y: bv32, z: bv32)
    requires x == Xor(a, b) && y == Shift(a) && z == Shift(b)
    ensures Shift(x) == Xor(y, z)
  {
    XorIs(a, b);
    XorIs(y, z);
    ShiftLinear(a, b);
  }

  lemma LawsOfShift(o: Ops<bv32>)
    requires o == Crc32Ops()
    ensures LinearShift(o)
  {
    forall a, b ensures o.shift(o.xor(a, b)) == o.xor(o.shift(a), o.shift(b)) {
      ShiftAddsUp(a, b, Xor(a, b), Shift(a), Shift(b));
    }
    forall a, b | o.shift(a) == o.shift(b) ensures a == b { ShiftInjective(a, b); }
  }

  /** n low ones. */
  function Low(n: nat): bv32 {
    if n == 0 then 0 else (Low(n - 1) << 1) | 1
  }

  /** One more low one. */
  function More(a: bv32): bv32 { (a << 1) | 1 }

  predicate Fits(p: bv32, n: nat) { Inside(p, Low(n)) }

  predicate Inside(a: bv32, b: bv32) { a & b == a }

  lemma MoreInside(a: bv32, b: bv32)
    requires Inside(a, b)
    ensures Inside(More(a), More(b))
  {
  }

  lemma LowIsMore(n: nat)
    requires n > 0
    ensures Low(n) == More(Low(n - 1))
  {
  }

  lemma {:induction false} LowGrows(n: nat, m: nat)
    requires n <= m
    ensures Inside(Low(n), Low(m))
    decreases n
  {
    if n > 0 {
      LowGrows(n - 1, m - 1);
      MoreInside(Low(n - 1), Low(m - 1));
      LowIsMore(n);
      LowIsMore(m);
    } else {
      ZeroMask(Low(m));
    }
  }

  lemma ZeroMask(m: bv32)
    ensures 0 & m == 0
  {
  }

  lemma Low31()
    ensures Low(31) == 0x7fffffff
  {
    assert Low(8) == 0xff;
    assert Low(16) == 0xffff;
    assert Low(24) == 0xffffff;
  }

  lemma NoTop(p: bv32, mask: bv32, full: bv32)
    requires Inside(p, mask) && Inside(mask, full) && full == 0x7fffffff
    ensures Shift(Up(p)) == p && Up(p) >> 1 == p
  {
  }

  lemma FitsLeavesTop(p: bv32, n: nat, mask: bv32, full: bv32)
    requires Inside(p, mask) && n < WIDTH && mask == Low(n) && full == Low(31)
    ensures Shift(Up(p)) == p && Up(p) >> 1 == p
  {
    LowGrows(n, 31);
    Low31();
    NoTop(p, mask, full);
  }

  lemma MaskStep(b: bv32, p: bv32, mask: bv32, q: bv32, more: bv32)
    requires Inside(p, mask) && more == (mask << 1) | 1 && (b == 0 || b == 1)
    requires q == b ^ (p << 1)
    ensures Inside(q, more)
  {
    MaskWord(b, p, mask, q, more);
  }

  lemma MaskWord(b: bv32, p: bv32, mask: bv32, q: bv32, more: bv32)
    requires p & mask == p && more == (mask << 1) | 1 && (b == 0 || b == 1)
    requires q == b ^ (p << 1)
    ensures q & more == q
  {
  }

  lemma LowStep(n: nat)
    requires n > 0
    ensures Low(n) == (Low(n - 1) << 1) | 1
  {
  }

  lemma FitsStep(b: bv32, p: bv32, n: nat)
    requires Fits(p, n) && (b == 0 || b == 1)
    ensures Fits(Xor(b, Up(p)), n + 1)
  {
    XorIs(b, Up(p));
    LowStep(n + 1);
    MaskStep(b, p, Low(n), Xor(b, Up(p)), Low(n + 1));
  }

  lemma TakeApart(a: bv32, p: bv32, b: bv32, q: bv32)
    requires (a == 0 || a == 1) && (b == 0 || b == 1)
    requires Up(p) >> 1 == p && Up(q) >> 1 == q
    requires Xor(a, Up(p)) == Xor(b, Up(q))
    ensures a == b && p == q
  {
    LowEnd(a, p);
    LowEnd(b, q);
  }

  lemma LowEnd(a: bv32, p: bv32)
    requires a == 0 || a == 1
    requires Up(p) >> 1 == p
    ensures Xor(a, Up(p)) & 1 == a
    ensures Xor(a, Up(p)) >> 1 == p
  {
  }

  lemma PackingGrows(o: Ops<bv32>)
    requires o == Crc32Ops()
    ensures forall p, n: nat, b :: Fits(p, n) && n < WIDTH ==> Fits(o.xor(Bit(o, b), o.up(p)), n + 1)
  {
    forall p, n: nat, b | Fits(p, n) && n < WIDTH ensures Fits(o.xor(Bit(o, b), o.up(p)), n + 1) {
      FitsStep(Bit(o, b), p, n);
    }
  }

  lemma PackingShifts(o: Ops<bv32>)
    requires o == Crc32Ops()
    ensures forall p, n: nat :: Fits(p, n) && n < WIDTH ==> o.shift(o.up(p)) == p
  {
    forall p, n: nat | Fits(p, n) && n < WIDTH ensures o.shift(o.up(p)) == p {
      FitsLeavesTop(p, n, Low(n), Low(31));
    }
  }

  lemma TakeApartFits(p: bv32, q: bv32, n: nat, a: bv32, b: bv32)
    requires Fits(p, n) && Fits(q, n) && n < WIDTH
    requires (a == 0 || a == 1) && (b == 0 || b == 1)
    requires Xor(a, Up(p)) == Xor(b, Up(q))
    ensures a == b && p == q
  {
    FitsLeavesTop(p, n, Low(n), Low(31));
    FitsLeavesTop(q, n, Low(n), Low(31));
    TakeApart(a, p, b, q);
  }

  lemma PackingSplits(o: Ops<bv32>)
    requires o == Crc32Ops()
    ensures forall p, q, n: nat, a, b ::
      Fits(p, n) && Fits(q, n) && n < WIDTH && o.xor(Bit(o, a), o.up(p)) == o.xor(Bit(o, b), o.up(q))
      ==> a == b && p == q
  {
    forall p, q, n: nat, a, b
      | Fits(p, n) && Fits(q, n) && n < WIDTH && o.xor(Bit(o, a), o.up(p)) == o.xor(Bit(o, b), o.up(q))
      ensures a == b && p == q
    {
      assert Xor(Bit(o, a), Up(p)) == Xor(Bit(o, b), Up(q));
      TakeApartFits(p, q, n, Bit(o, a), Bit(o, b));
    }
  }

  lemma LawsOfPacking(o: Ops<bv32>)
    requires o == Crc32Ops()
    ensures Packing(o, WIDTH, Fits)
  {
    assert Fits(0, 0) by { ZeroMask(Low(0)); }
    PackingGrows(o);
    PackingShifts(o);
    PackingSplits(o);
  }

  lemma Laws(o: Ops<bv32>)
    requires o == Crc32Ops()
    ensures Lawful(o, WIDTH, Fits)
  {
    LawsOfGroup(o);
    LawsOfShift(o);
    LawsOfPacking(o);
  }

  // ---------------------------------------------------------------------------
  // Permutation and composition
  // ---------------------------------------------------------------------------

  function UnshiftBy(c: bv32, n: nat): bv32
    decreases n
  {
    if n == 0 then c else Unshift(UnshiftBy(c, n - 1))
  }

  lemma {:induction false} ShiftByOnto(o: Ops<bv32>, c: bv32, n: nat)
    requires o == Crc32Ops()
    ensures ShiftBy(o, UnshiftBy(c, n), n) == c
    decreases n
  {
    if n > 0 {
      ShiftUnshift(UnshiftBy(c, n - 1), UnshiftBy(c, n));
      ShiftByOnto(o, c, n - 1);
    }
  }

  lemma XorTwice(a: bv32, x: bv32)
    ensures Xor(Xor(a, x), x) == a
  {
  }

  /** Each data byte permutes the 32-bit states: every state is reached ... */
  lemma AbsorbOnto(o: Ops<bv32>, w: bv32, target: bv32) returns (c: bv32)
    requires o == Crc32Ops()
    ensures ShiftBy(o, o.xor(c, w), 8) == target
  {
    var u := UnshiftBy(target, 8);
    c := Xor(u, w);
    ShiftByOnto(o, target, 8);
    XorTwice(u, w);
    assert o.xor(c, w) == u;
  }

  /** ... and from one state only. */
  lemma AbsorbOneToOne(o: Ops<bv32>, w: bv32, c: bv32, d: bv32)
    requires o == Crc32Ops() && ShiftBy(o, o.xor(c, w), 8) == ShiftBy(o, o.xor(d, w), 8)
    ensures c == d
  {
    LawsOfGroup(o);
    LawsOfShift(o);
    AbsorbInjective(o, c, d, w);
  }

  lemma ComplementTwice()
    ensures forall c :: Not(Not(c)) == c
  {
  }

  /** Checksumming in pieces, feeding each result into the next call. */
  lemma CrcConcat(crc: bv32, a: seq<bv8>, b: seq<bv8>)
    ensures Crc(crc, a + b) == Crc(Crc(crc, a), b)
  {
    ComplementTwice();
    ChecksumConcat(Crc32Ops(), Word, Not, crc, a, b);
  }

  // ---------------------------------------------------------------------------
  // RFC 1952, section 8
  // ---------------------------------------------------------------------------

  function LowByte(x: bv32): bv8 {
    (x & 0xff) as bv8
  }

  function Down8(x: bv32): bv32 { x >> 8 }

  lemma ShiftDropsZero(x: bv32, y: bv32, mask: bv32)
    requires x & ((mask << 1) | 1) == 0 && mask & TOP == 0 && y == x >> 1
    ensures Shift(x) == y && y & mask == 0
  {
  }

  lemma EightShifts<R>(o: Ops<R>, x: R, a: R, b: R, c: R, d: R, e: R, f: R, g: R, h: R)
    requires a == o.shift(x) && b == o.shift(a) && c == o.shift(b) && d == o.shift(c)
    requires e == o.shift(d) && f == o.shift(e) && g == o.shift(f) && h == o.shift(g)
    ensures ShiftBy(o, x, 8) == h
  {
    assert ShiftBy(o, g, 1) == h;
    assert ShiftBy(o, f, 2) == h;
    assert ShiftBy(o, e, 3) == h;
    assert ShiftBy(o, d, 4) == h;
    assert ShiftBy(o, c, 5) == h;
    assert ShiftBy(o, b, 6) == h;
    assert ShiftBy(o, a, 7) == h;
  }

  lemma DownInSteps(x: bv32)
    ensures (((((((x >> 1) >> 1) >> 1) >> 1) >> 1) >> 1) >> 1) >> 1 == x >> 8
  {
  }

  lemma ShiftOut8(o: Ops<bv32>, x: bv32)
    requires o == Crc32Ops() && x & 0xff == 0
    ensures ShiftBy(o, x, 8) == Down8(x)
  {
    var a := x >> 1;
    var b := a >> 1;
    var c := b >> 1;
    var d := c >> 1;
    var e := d >> 1;
    var f := e >> 1;
    var g := f >> 1;
    var h := g >> 1;
    ShiftDropsZero(x, a, 0x7f);
    ShiftDropsZero(a, b, 0x3f);
    ShiftDropsZero(b, c, 0x1f);
    ShiftDropsZero(c, d, 0xf);
    ShiftDropsZero(d, e, 7);
    ShiftDropsZero(e, f, 3);
    ShiftDropsZero(f, g, 1);
    ShiftDropsZero(g, h, 0);
    EightShifts(o, x, a, b, c, d, e, f, g, h);
    DownInSteps(x);
  }

  lemma LowAndHigh(x: bv32, low: bv32, high: bv32)
    requires low == Word(LowByte(x)) && high == x & 0xffffff00
    ensures x == Xor(low, high)
    ensures high & 0xff == 0
    ensures Down8(high) == Down8(x)
  {
    SplitWord(x);
    LowByteIs(x);
    XorIs(low, high);
  }

  lemma LowByteIs(x: bv32)
    ensures Word(LowByte(x)) == x & 0xff
  {
  }

  lemma SplitWord(x: bv32)
    ensures x == (x & 0xff) ^ (x & 0xffffff00)
    ensures (x & 0xffffff00) & 0xff == 0
    ensures (x & 0xffffff00) >> 8 == x >> 8
  {
  }

  lemma ByteStaysLow(c: bv32, b: bv8)
    ensures Down8(Xor(c, Word(b))) == Down8(c)
  {
  }

  lemma StepsAgree(o: Ops<bv32>, c: bv32, b: bv8, x: bv32)
    requires o == Crc32Ops() && x == Xor(c, Word(b))
    ensures Xor(ShiftBy(o, Word(LowByte(x)), 8), Down8(c)) == ShiftBy(o, x, 8)
  {
    var low, high := Word(LowByte(x)), x & 0xffffff00;
    LowAndHigh(x, low, high);
    ByteStaysLow(c, b);
    LawsOfShift(o);
    ShiftByLinear(o, low, high, 8);
    ShiftOut8(o, high);
  }

  /** The shift of the patch is a round of the RFC. */
  lemma RoundIsShift(c: bv32)
    ensures Rfc1952.Round(c) == Shift(c)
  {
  }

  lemma {:induction false} RoundsAreShifts(o: Ops<bv32>, c: bv32, k: nat)
    requires o == Crc32Ops()
    ensures Rfc1952.Rounds(c, k) == ShiftBy(o, c, k)
    decreases k
  {
    if k > 0 {
      RoundIsShift(c);
      RoundsAreShifts(o, Shift(c), k - 1);
    }
  }

  lemma IndexIs(c: bv32, b: bv8)
    ensures Rfc1952.Index(c, b) == LowByte(Xor(c, Word(b)))
  {
  }

  lemma LookUpIs(entry: bv32, c: bv32)
    ensures Rfc1952.LookUp(entry, c) == Xor(entry, Down8(c))
  {
  }

  lemma EntryIs(o: Ops<bv32>, n: bv8)
    requires o == Crc32Ops()
    ensures Rfc1952.TableEntry(n) == ShiftBy(o, Word(n), 8)
  {
    RoundsAreShifts(o, Word(n), 8);
  }

  lemma ByteAgrees(o: Ops<bv32>, c: bv32, b: bv8)
    requires o == Crc32Ops()
    ensures Rfc1952.UpdateByte(c, b) == ShiftBy(o, Xor(c, Word(b)), 8)
  {
    var n := LowByte(Xor(c, Word(b)));
    IndexIs(c, b);
    EntryIs(o, n);
    LookUpIs(Rfc1952.TableEntry(n), c);
    StepsAgree(o, c, b, Xor(c, Word(b)));
  }

  lemma {:induction false} BytesAgree(o: Ops<bv32>, c: bv32, buf: seq<bv8>)
    requires o == Crc32Ops()
    ensures Rfc1952.UpdateBytes(c, buf) == Register(o, Word, c, buf)
    decreases |buf|
  {
    if buf != [] {
      ByteAgrees(o, c, buf[0]);
      BytesAgree(o, Rfc1952.UpdateByte(c, buf[0]), buf[1..]);
    }
  }

  lemma NotIsXor(c: bv32)
    ensures Not(c) == c ^ 0xffffffff
  {
  }

  /** The bitwise loop computes the CRC of the RFC for every buffer. */
  lemma CrcIsRfcCrc(crc: bv32, buf: seq<bv8>)
    ensures Crc(crc, buf) == Rfc1952.UpdateCrc(crc, buf)
  {
    var o := Crc32Ops();
    NotIsXor(crc);
    BytesAgree(o, Not(crc), buf);
    NotIsXor(Register(o, Word, Not(crc), buf));
  }

  /** So it has the published check value, that of the digits 1 to 9. */
  lemma KnownChecksums()
    ensures Crc(0, [0x31, 0x32, 0x33, 0x34, 0x35, 0x36, 0x37, 0x38, 0x39]) == 0xcbf43926
    ensures Crc(0, [0x7f]) == 0x12b88320
  {
    CrcIsRfcCrc(0, Rfc1952.DIGITS);
    Rfc1952.CheckValue();
    CrcIsRfcCrc(0, [0x7f]);
    Rfc1952.OneByte();
  }

  /** The polynomial by the exponents of its terms below 32; the lowest bit stands for the highest exponent. */
  lemma PolynomialIs()
    ensures POLYNOMIAL ==
      (1 << 5) | (1 << 8) | (1 << 9) | (1 << 15) | (1 << 19) | (1 << 20) | (1 << 21) | (1 << 23)
      | (1 << 24) | (1 << 26) | (1 << 27) | (1 << 29) | (1 << 30) | (1 << 31)
  {
  }

  // ---------------------------------------------------------------------------
  // Bursts
  // ---------------------------------------------------------------------------

  function BitWord(flag: bool): bv32 { if flag then 1 else 0 }

  /** One more bit below a packed word. */
  function Link(flag: bool, p: bv32): bv32 {
    Xor(BitWord(flag), Up(p))
  }

  lemma LinkIsPacking(o: Ops<bv32>)
    requires o == Crc32Ops()
    ensures forall flag, p :: o.xor(Bit(o, flag), o.up(p)) == Link(flag, p)
  {
    assert forall flag :: Bit(o, flag) == BitWord(flag);
  }

  lemma LinkIs(flag: bool, p: bv32)
    ensures Link(flag, p) == BitWord(flag) ^ (p << 1)
  {
    XorIs(BitWord(flag), Up(p));
  }

  lemma EightWords(b: bv8, p7: bv32, p6: bv32, p5: bv32, p4: bv32, p3: bv32, p2: bv32, p1: bv32, p0: bv32)
    requires p7 == BitWord(b & 128 != 0) ^ (0 << 1)
    requires p6 == BitWord(b & 64 != 0) ^ (p7 << 1)
    requires p5 == BitWord(b & 32 != 0) ^ (p6 << 1)
    requires p4 == BitWord(b & 16 != 0) ^ (p5 << 1)
    requires p3 == BitWord(b & 8 != 0) ^ (p4 << 1)
    requires p2 == BitWord(b & 4 != 0) ^ (p3 << 1)
    requires p1 == BitWord(b & 2 != 0) ^ (p2 << 1)
    requires p0 == BitWord(b & 1 != 0) ^ (p1 << 1)
    ensures p0 == b as bv32
  {
  }

  lemma LinksAre()
    ensures forall flag, p :: Link(flag, p) == BitWord(flag) ^ (p << 1)
  {
    forall flag, p ensures Link(flag, p) == BitWord(flag) ^ (p << 1) { LinkIs(flag, p); }
  }

  /** A byte is the sum of its bits. */
  lemma EightBits(b: bv8, link: (bool, bv32) -> bv32)
    requires forall flag, p :: link(flag, p) == BitWord(flag) ^ (p << 1)
    ensures link(b & 1 != 0, link(b & 2 != 0, link(b & 4 != 0, link(b & 8 != 0,
            link(b & 16 != 0, link(b & 32 != 0, link(b & 64 != 0, link(b & 128 != 0, 0)))))))) == b as bv32
  {
    var p7 := link(b & 128 != 0, 0);
    var p6 := link(b & 64 != 0, p7);
    var p5 := link(b & 32 != 0, p6);
    var p4 := link(b & 16 != 0, p5);
    var p3 := link(b & 8 != 0, p4);
    var p2 := link(b & 4 != 0, p3);
    var p1 := link(b & 2 != 0, p2);
    var p0 := link(b & 1 != 0, p1);
    EightWords(b, p7, p6, p5, p4, p3, p2, p1, p0);
  }

  lemma PackOfBits(o: Ops<bv32>, b: bv8, s: seq<bool>, link: (bool, bv32) -> bv32)
    requires o == Crc32Ops() && s == BitsOf(b)
    requires forall flag, p :: link(flag, p) == BitWord(flag) ^ (p << 1)
    requires forall flag, p :: o.xor(Bit(o, flag), o.up(p)) == link(flag, p)
    ensures Pack(o, s) == b as bv32
  {
    PackEight(o, link, s);
    EightBits(b, link);
  }

  lemma WordsPack(o: Ops<bv32>)
    requires o == Crc32Ops()
    ensures PacksBytes(o, Word)
  {
    LinkIsPacking(o);
    LinksAre();
    forall b ensures Word(b) == Pack(o, BitsOf(b)) { PackOfBits(o, b, BitsOf(b), Link); }
  }

  /** Two different buffers of one length that differ only within 32 consecutive bits never
      share a CRC. */
  lemma CrcDetectsBurst(crc: bv32, a: seq<bv8>, b: seq<bv8>, first: nat, length: nat)
    requires |a| == |b| && a != b && length <= WIDTH
    requires WithinBurst(AllBits(a), AllBits(b), first, length)
    ensures Crc(crc, a) != Crc(crc, b)
  {
    var o := Crc32Ops();
    Laws(o);
    WordsPack(o);
    ComplementTwice();
    BurstDetected(o, WIDTH, Fits, Word, Not, crc, a, b, first, length);
  }

  /** In particular no change of four consecutive bytes leaves the CRC as it was. */
  lemma CrcDetectsFourBytes(crc: bv32, a: seq<bv8>, b: seq<bv8>, i: nat)
    requires |a| == |b| && a != b && i + 4 <= |a| && a[..i] == b[..i] && a[i + 4..] == b[i + 4..]
    ensures Crc(crc, a) != Crc(crc, b)
  {
    BytesAreBurst(a, b, i, 4);
    CrcDetectsBurst(crc, a, b, 8 * i, 32);
  }
}
