/**
  The PMECC header that the boot ROM of an Atmel processor expects in front of a NAND image: one
  32-bit word, packed from the geometry of the flash, 52 times.
 */
module AtmelHeader {
  import opened Arithmetic
  import opened Bits
  import opened Options

  const TWO32: nat := 0x1_0000_0000

  /** Fields as multiples: a shift by 28, 18, 16, 13, 4, 1 bits. */
  const KEY_UNIT: nat := 0x1000_0000
  const ECC_OFFSET_UNIT: nat := 0x4_0000
  const SECTOR_SIZE_UNIT: nat := 0x1_0000
  const ECC_BITS_UNIT: nat := 0x2000
  const SPARE_UNIT: nat := 16
  const SECTORS_UNIT: nat := 2

  const KEY: nat := 0xC

  const HEADER_WORDS: nat := 52

  // ---------------------------------------------------------------------------
  // Or of fields that do not overlap
  // ---------------------------------------------------------------------------

  /** x is a multiple of 2^k, y is below it. */
  lemma {:induction false} OrDisjoint(x: nat, y: nat, k: nat, p: nat, m: nat)
    requires p == Pow2(k) && x == p * m && y < p
    ensures Or(x, y) == x + y
    decreases k
  {
    if k > 0 && x > 0 && y > 0 {
      var h := Pow2(k - 1);
      assert x == 2 * (h * m);
      OrDisjoint(x / 2, y / 2, k - 1, h, m);
    }
  }

  lemma {:induction false} OrGrows(x: nat, y: nat)
    ensures Or(x, y) >= x && Or(x, y) >= y
    decreases x + y
  {
    if x > 0 && y > 0 { OrGrows(x / 2, y / 2); }
  }

  lemma Pow2Units()
    ensures Pow2(1) == SECTORS_UNIT && Pow2(4) == SPARE_UNIT && Pow2(13) == ECC_BITS_UNIT
    ensures Pow2(16) == SECTOR_SIZE_UNIT && Pow2(18) == ECC_OFFSET_UNIT && Pow2(28) == KEY_UNIT
  {
    assert Pow2(4) == 16;
    assert Pow2(8) == 256;
    assert Pow2(13) == 8192;
    assert Pow2(18) == 32 * Pow2(13);
    assert Pow2(23) == 32 * Pow2(18);
    assert Pow2(28) == 32 * Pow2(23);
  }

  // ---------------------------------------------------------------------------
  // The word
  // ---------------------------------------------------------------------------

  /** A C int shifted left by the unit's bits, as an unsigned 32-bit word. */
  function Shifted(x: int, unit: nat): (w: nat)
    ensures w < TWO32
  {
    (x * unit) % TWO32
  }

  datatype Fields = Fields(
    usePmecc: int,
    sectorsCode: int,
    spare: int,
    eccBitsCode: int,
    sectorSizeCode: int,
    eccOffset: int)
  {
    /** Every field fits its bits. */
    predicate InRange() {
      && 0 <= usePmecc < 2 && 0 <= sectorsCode < 8 && 0 <= spare < 512
      && 0 <= eccBitsCode < 8 && 0 <= sectorSizeCode < 4 && 0 <= eccOffset < 512
    }
  }

  function OrSeven(a: nat, b: nat, c: nat, d: nat, e: nat, f: nat, g: nat): nat {
    Or(Or(Or(Or(Or(Or(a, b), c), d), e), f), g)
  }

  function Packed(f: Fields): nat {
    OrSeven(Shifted(KEY, KEY_UNIT), Shifted(f.eccOffset, ECC_OFFSET_UNIT), Shifted(f.sectorSizeCode, SECTOR_SIZE_UNIT),
            Shifted(f.eccBitsCode, ECC_BITS_UNIT), Shifted(f.spare, SPARE_UNIT), Shifted(f.sectorsCode, SECTORS_UNIT),
            Shifted(f.usePmecc, 1))
  }

  /** What the boot ROM reads in a word. */
  function Unpacked(w: nat): Fields {
    Fields(w % 2, w / SECTORS_UNIT % 8, w / SPARE_UNIT % 512, w / ECC_BITS_UNIT % 8,
           w / SECTOR_SIZE_UNIT % 4, w / ECC_OFFSET_UNIT % 512)
  }

  /** What is left of the word after shifting out the fields below: the sector size and all above it,
      the required ECC bits and all above them, and so on. */
  function FromSectorSize(f: Fields): int { 4 * (1024 * KEY + f.eccOffset) + f.sectorSizeCode }

  function FromEccBits(f: Fields): int { 8 * FromSectorSize(f) + f.eccBitsCode }

  function FromSpare(f: Fields): int { 512 * FromEccBits(f) + f.spare }

  function FromSectors(f: Fields): int { 8 * FromSpare(f) + f.sectorsCode }

  /** One more field of `size` values in units of `unit`, below everything in x. */
  lemma OrField(x: nat, y: nat, k: nat, p: nat, m: nat, unit: nat, size: nat, v: nat)
    requires p == Pow2(k) && p == unit * size && x == p * m && y == unit * v && v < size && unit > 0
    ensures Or(x, y) == x + y == unit * (size * m + v)
  {
    assert y < p by { MulMono(unit, v + 1, size); }
    OrDisjoint(x, y, k, p, m);
    MulAssoc(unit, size, m, v);
  }

  lemma MulAssoc(unit: int, size: int, m: int, v: int)
    ensures (unit * size) * m + unit * v == unit * (size * m + v)
  {
  }

  /** Fields in range do not overlap: the word is their sum. */
  lemma OrSevenIsSum(f: Fields, a: nat, b: nat, c: nat, d: nat, e: nat, g: nat, h: nat)
    requires f.InRange() && a == KEY_UNIT * KEY && b == ECC_OFFSET_UNIT * f.eccOffset
    requires c == SECTOR_SIZE_UNIT * f.sectorSizeCode && d == ECC_BITS_UNIT * f.eccBitsCode
    requires e == SPARE_UNIT * f.spare && g == SECTORS_UNIT * f.sectorsCode && h == f.usePmecc
    ensures OrSeven(a, b, c, d, e, g, h) == SECTORS_UNIT * FromSectors(f) + f.usePmecc
  {
    Pow2Units();
    var n28: nat, n18: nat, n16: nat, n13: nat, n4: nat, n1: nat := 28, 18, 16, 13, 4, 1;
    OrField(a, b, n28, KEY_UNIT, KEY, ECC_OFFSET_UNIT, 1024, f.eccOffset);
    var x := Or(a, b);
    OrField(x, c, n18, ECC_OFFSET_UNIT, 1024 * KEY + f.eccOffset, SECTOR_SIZE_UNIT, 4, f.sectorSizeCode);
    x := Or(x, c);
    OrField(x, d, n16, SECTOR_SIZE_UNIT, FromSectorSize(f), ECC_BITS_UNIT, 8, f.eccBitsCode);
    x := Or(x, d);
    OrField(x, e, n13, ECC_BITS_UNIT, FromEccBits(f), SPARE_UNIT, 512, f.spare);
    x := Or(x, e);
    OrField(x, g, n4, SPARE_UNIT, FromSpare(f), SECTORS_UNIT, 8, f.sectorsCode);
    x := Or(x, g);
    OrField(x, h, n1, SECTORS_UNIT, FromSectors(f), 1, 2, f.usePmecc);
  }

  lemma OrSevenGrows(a: nat, b: nat, c: nat, d: nat, e: nat, f: nat, g: nat)
    ensures OrSeven(a, b, c, d, e, f, g) >= a
  {
    OrGrows(a, b);
    OrGrows(Or(a, b), c);
    OrGrows(Or(Or(a, b), c), d);
    OrGrows(Or(Or(Or(a, b), c), d), e);
    OrGrows(Or(Or(Or(Or(a, b), c), d), e), f);
    OrGrows(Or(Or(Or(Or(Or(a, b), c), d), e), f), g);
  }

  lemma InRangeShift(x: int, unit: nat, y: int)
    requires 0 <= x && 0 < unit && y == unit * x < TWO32
    ensures Shifted(x, unit) == y
  {
    DivUnique(y, TWO32, 0, y);
  }

  lemma PackedIsSum(f: Fields)
    requires f.InRange()
    ensures Packed(f) == SECTORS_UNIT * FromSectors(f) + f.usePmecc
  {
    InRangeShift(KEY, KEY_UNIT, KEY_UNIT * KEY);
    InRangeShift(f.eccOffset, ECC_OFFSET_UNIT, ECC_OFFSET_UNIT * f.eccOffset);
    InRangeShift(f.sectorSizeCode, SECTOR_SIZE_UNIT, SECTOR_SIZE_UNIT * f.sectorSizeCode);
    InRangeShift(f.eccBitsCode, ECC_BITS_UNIT, ECC_BITS_UNIT * f.eccBitsCode);
    InRangeShift(f.spare, SPARE_UNIT, SPARE_UNIT * f.spare);
    InRangeShift(f.sectorsCode, SECTORS_UNIT, SECTORS_UNIT * f.sectorsCode);
    InRangeShift(f.usePmecc, 1, f.usePmecc);
    OrSevenIsSum(f, KEY_UNIT * KEY, ECC_OFFSET_UNIT * f.eccOffset, SECTOR_SIZE_UNIT * f.sectorSizeCode,
                 ECC_BITS_UNIT * f.eccBitsCode, SPARE_UNIT * f.spare, SECTORS_UNIT * f.sectorsCode, f.usePmecc);
  }

  /** Reading one field, and what remains above it. */
  lemma ReadField(w: nat, unit: nat, h: nat, low: nat, size: nat, rest: nat, v: nat)
    requires unit > 0 && size > 0 && w == unit * h + low && low < unit && h == size * rest + v && v < size
    ensures w / unit % size == v
    ensures w == (unit * size) * rest + (unit * v + low) && unit * v + low < unit * size
  {
    DivUnique(w, unit, h, low);
    DivUnique(h, size, rest, v);
    MulMono(unit, v + 1, size);
    MulAssoc(unit, size, rest, v);
  }

  lemma SumUnpacks(f: Fields, w: nat)
    requires f.InRange() && w == SECTORS_UNIT * FromSectors(f) + f.usePmecc
    ensures Unpacked(w) == f && w / 0x1000_0000 == KEY
  {
    ReadField(w, 1, w, 0, 2, FromSectors(f), f.usePmecc);
    ReadField(w, SECTORS_UNIT, FromSectors(f), f.usePmecc, 8, FromSpare(f), f.sectorsCode);
    var low := SECTORS_UNIT * f.sectorsCode + f.usePmecc;
    ReadField(w, SPARE_UNIT, FromSpare(f), low, 512, FromEccBits(f), f.spare);
    low := SPARE_UNIT * f.spare + low;
    ReadField(w, ECC_BITS_UNIT, FromEccBits(f), low, 8, FromSectorSize(f), f.eccBitsCode);
    low := ECC_BITS_UNIT * f.eccBitsCode + low;
    ReadField(w, SECTOR_SIZE_UNIT, FromSectorSize(f), low, 4, 1024 * KEY + f.eccOffset, f.sectorSizeCode);
    low := SECTOR_SIZE_UNIT * f.sectorSizeCode + low;
    ReadField(w, ECC_OFFSET_UNIT, 1024 * KEY + f.eccOffset, low, 512, 2 * KEY, f.eccOffset);
    DivUnique(w, 0x1000_0000, KEY, ECC_OFFSET_UNIT * f.eccOffset + low);
  }

  /** The boot ROM reads every field back exactly when all of them are in range. */
  lemma RoundTrip(f: Fields, w: nat)
    requires w == Packed(f)
    ensures Unpacked(w) == f <==> f.InRange()
    ensures f.InRange() ==> w / 0x1000_0000 == 0xC
  {
    if f.InRange() {
      PackedIsSum(f);
      SumUnpacks(f, w);
    }
  }

  /** The key makes every word differ from zero. */
  lemma NeverZero(f: Fields)
    ensures Packed(f) > 0
  {
    InRangeShift(KEY, KEY_UNIT, KEY_UNIT * KEY);
    OrSevenGrows(Shifted(KEY, KEY_UNIT), Shifted(f.eccOffset, ECC_OFFSET_UNIT),
                 Shifted(f.sectorSizeCode, SECTOR_SIZE_UNIT), Shifted(f.eccBitsCode, ECC_BITS_UNIT),
                 Shifted(f.spare, SPARE_UNIT), Shifted(f.sectorsCode, SECTORS_UNIT), Shifted(f.usePmecc, 1));
  }

  // ---------------------------------------------------------------------------
  // From the geometry to the word
  // ---------------------------------------------------------------------------

  /** Position of the lowest set bit, counting from 1. */
  function Ffs(x: nat): nat {
    if x == 0 then 0 else if x % 2 == 1 then 1 else 1 + Ffs(x / 2)
  }

  ghost predicate IsPowerOfTwo(x: nat) {
    exists k: nat :: x == Pow2(k)
  }

  /** Shifting 1 by the lowest set bit gives the number back exactly for powers of two. */
  lemma {:induction false} FfsIff(x: nat)
    requires x > 0
    ensures Ffs(x) > 0
    ensures Pow2(Ffs(x) - 1) == x <==> IsPowerOfTwo(x)
  {
    if x % 2 == 1 {
      if IsPowerOfTwo(x) {
        var k: nat :| x == Pow2(k);
        assert k == 0;
      }
      assert Pow2(0) == 1;
    } else {
      var h := x / 2;
      FfsIff(h);
      if IsPowerOfTwo(h) {
        var k: nat :| h == Pow2(k);
        assert x == Pow2(k + 1);
      }
      if IsPowerOfTwo(x) {
        var k: nat :| x == Pow2(k);
        assert k > 0 && h == Pow2(k - 1);
      }
      assert Pow2(Ffs(x) - 1) == 2 * Pow2(Ffs(h) - 1);
    }
  }

  function SectorSizeCode(sectorSize: int): Option<nat> {
    if sectorSize == 512 then Some(0) else if sectorSize == 1024 then Some(1) else None
  }

  function EccBitsCode(eccBits: int): Option<nat> {
    match eccBits
    case 2 => Some(0)
    case 4 => Some(1)
    case 8 => Some(2)
    case 12 => Some(3)
    case 24 => Some(4)
    case _ => None
  }

  ghost predicate Supported(sectors: nat, sectorSize: int, eccBits: int) {
    IsPowerOfTwo(sectors) && sectorSize in {512, 1024} && eccBits in {2, 4, 8, 12, 24}
  }

  /** create_atmel_header_word, zero for a geometry that it does not support. */
  function HeaderWord(usePmecc: int, sectors: nat, sectorSize: int, spare: int, eccBits: int, eccOffset: int): nat {
    if sectors == 0 || Pow2(Ffs(sectors) - 1) != sectors then 0
    else if SectorSizeCode(sectorSize).None? || EccBitsCode(eccBits).None? then 0
    else Packed(Fields(usePmecc, Ffs(sectors) - 1, spare, EccBitsCode(eccBits).value,
                       SectorSizeCode(sectorSize).value, eccOffset))
  }

  /** Zero means exactly that the geometry is not supported. */
  lemma ZeroIff(usePmecc: int, sectors: nat, sectorSize: int, spare: int, eccBits: int, eccOffset: int)
    ensures HeaderWord(usePmecc, sectors, sectorSize, spare, eccBits, eccOffset) == 0 <==>
      !Supported(sectors, sectorSize, eccBits)
  {
    if sectors > 0 {
      FfsIff(sectors);
      if Supported(sectors, sectorSize, eccBits) {
        NeverZero(Fields(usePmecc, Ffs(sectors) - 1, spare, EccBitsCode(eccBits).value,
                         SectorSizeCode(sectorSize).value, eccOffset));
      }
    } else if IsPowerOfTwo(sectors) {
      PowersArePositive(sectors);
    }
  }

  lemma PowersArePositive(x: nat)
    requires IsPowerOfTwo(x)
    ensures x > 0
  {
    var k: nat :| x == Pow2(k);
  }

  /** What a word tells the boot ROM: the key, the number of sectors by its logarithm, the sector size as
      512 bytes times a power of two, the required ECC bits by their place in a list. */
  ghost predicate Describes(w: nat, usePmecc: int, sectors: nat, sectorSize: int, spare: int, eccBits: int,
                            eccOffset: int) {
    && w / 0x1000_0000 == 0xC
    && w % 2 == usePmecc && w / 16 % 512 == spare && w / 0x4_0000 % 512 == eccOffset
    && Pow2(w / 2 % 8) == sectors
    && 512 * Pow2(w / 0x1_0000 % 4) == sectorSize
    && w / 0x2000 % 8 < 5 && [2, 4, 8, 12, 24][w / 0x2000 % 8] == eccBits
  }

  /** A word for a supported geometry describes it exactly when every field fits its bits. */
  lemma WordDescribes(usePmecc: int, sectors: nat, sectorSize: int, spare: int, eccBits: int, eccOffset: int, w: nat)
    requires Supported(sectors, sectorSize, eccBits)
    requires w == HeaderWord(usePmecc, sectors, sectorSize, spare, eccBits, eccOffset)
    ensures Describes(w, usePmecc, sectors, sectorSize, spare, eccBits, eccOffset) <==>
      0 <= usePmecc < 2 && sectors <= 128 && 0 <= spare < 512 && 0 <= eccOffset < 512
  {
    PowersArePositive(sectors);
    FfsIff(sectors);
    var code, ecc, size := Ffs(sectors) - 1, EccBitsCode(eccBits).value, SectorSizeCode(sectorSize).value;
    RoundTrip(Fields(usePmecc, code, spare, ecc, size, eccOffset), w);
    CodeBound(code, sectors);
    assert 512 * Pow2(size) == sectorSize && [2, 4, 8, 12, 24][ecc] == eccBits;
    if Describes(w, usePmecc, sectors, sectorSize, spare, eccBits, eccOffset) { CodeBound(w / 2 % 8, sectors); }
  }

  lemma CodeBound(code: nat, sectors: nat)
    requires sectors == Pow2(code)
    ensures code < 8 <==> sectors <= 128
  {
    var seven: nat, eight: nat := 7, 8;
    Pow2Values();
    if code < 8 { Pow2Mono(code, seven); } else { Pow2Mono(eight, code); }
  }

  /** ECC bytes of a sector. */
  function EccBytes(cap: nat, sectorSize: nat): nat {
    ((12 + sectorSize / 512) * cap + 7) / 8
  }

  /** They are the least whole number of bytes that hold all ECC bits. */
  lemma EccBytesAreLeast(cap: nat, sectorSize: nat, n: nat)
    ensures 8 * n >= (12 + sectorSize / 512) * cap <==> n >= EccBytes(cap, sectorSize)
  {
  }

  // ---------------------------------------------------------------------------
  // The update
  // ---------------------------------------------------------------------------

  /** The part of mtd_dev_info that matters. */
  datatype Geometry = Geometry(subpageSize: nat, oobSize: nat)

  const ECC_BITS: nat := 8

  function EccOffset(g: Geometry, sectorSize: nat): int
    requires sectorSize > 0
  {
    g.oobSize - EccBytes(ECC_BITS, sectorSize) * (g.subpageSize / sectorSize)
  }

  /** The word that goes in front of the image; None where the update gives up. */
  function UpdateWord(g: Geometry, sectorSize: int): Option<nat>
    requires sectorSize != 0
  {
    if sectorSize < 0 || g.subpageSize % sectorSize != 0 then None
    else
      var w := HeaderWord(1, g.subpageSize / sectorSize, sectorSize, g.oobSize, ECC_BITS, EccOffset(g, sectorSize));
      if w == 0 then None else Some(w)
  }

  /** The update goes through exactly for a page of a power of two of sectors of a supported size. */
  lemma UpdateIff(g: Geometry, sectorSize: int)
    requires sectorSize != 0
    ensures UpdateWord(g, sectorSize).Some? <==>
      sectorSize in {512, 1024} && g.subpageSize % sectorSize == 0 && IsPowerOfTwo(g.subpageSize / sectorSize)
  {
    if sectorSize > 0 {
      ZeroIff(1, g.subpageSize / sectorSize, sectorSize, g.oobSize, ECC_BITS, EccOffset(g, sectorSize));
    }
  }

  /** Byte k of a little-endian word. */
  function ByteOf(w: nat, k: nat): Byte
    requires k < 4
  {
    if k == 0 then w % 256
    else if k == 1 then w / 0x100 % 256
    else if k == 2 then w / 0x1_0000 % 256
    else w / 0x100_0000 % 256
  }

  /** atmel_pmecc_header_update; the sector size is what read_sysfs returned, -1 if that failed. */
  method HeaderUpdate(g: Geometry, sectorSize: int, writebuf: array<Byte>) returns (ok: bool)
    requires sectorSize != 0
    requires writebuf.Length >= 4 * HEADER_WORDS
    modifies writebuf
    ensures ok <==> UpdateWord(g, sectorSize).Some?
    ensures !ok ==> writebuf[..] == old(writebuf[..])
    ensures ok ==> forall x :: 0 <= x < 208 ==>
      writebuf[x] == ByteOf(UpdateWord(g, sectorSize).value, x % 4)
    ensures forall x :: 208 <= x < writebuf.Length ==> writebuf[x] == old(writebuf[x])
  {
    var word := 0;
    if sectorSize != -1 {
      if g.subpageSize % sectorSize != 0 { return false; }
      // any other negative size has no code
      if sectorSize > 0 {
        var sectorPerPage := g.subpageSize / sectorSize;
        var eccOffset := g.oobSize - EccBytes(ECC_BITS, sectorSize) * sectorPerPage;
        word := HeaderWord(1, sectorPerPage, sectorSize, g.oobSize, ECC_BITS, eccOffset);
      }
    }
    if word == 0 { return false; }
    Rewrite(word, writebuf);
    ok := true;
  }

  /** The word, 52 times. */
  method Rewrite(word: nat, writebuf: array<Byte>)
    requires writebuf.Length >= 4 * HEADER_WORDS
    modifies writebuf
    ensures forall x :: 0 <= x < 4 * HEADER_WORDS ==> writebuf[x] == ByteOf(word, x % 4)
    ensures forall x :: 4 * HEADER_WORDS <= x < writebuf.Length ==> writebuf[x] == old(writebuf[x])
  {
    var i := 0;
    while i < HEADER_WORDS
      invariant i <= HEADER_WORDS
      invariant forall x :: 0 <= x < 4 * i ==> writebuf[x] == ByteOf(word, x % 4)
      invariant forall x :: 4 * i <= x < writebuf.Length ==> writebuf[x] == old(writebuf[x])
    {
      writebuf[4 * i], writebuf[4 * i + 1] := ByteOf(word, 0), ByteOf(word, 1);
      writebuf[4 * i + 2], writebuf[4 * i + 3] := ByteOf(word, 2), ByteOf(word, 3);
      i := i + 1;
    }
  }

  /** A word needs no more than four bytes. */
  lemma PackedFits(f: Fields)
    ensures Packed(f) < TWO32
  {
    var n32: nat := 32;
    assert Pow2(n32) == TWO32 by { Pow2Units(); assert Pow2(32) == 16 * Pow2(28); }
    OrSevenBelow(Shifted(KEY, KEY_UNIT), Shifted(f.eccOffset, ECC_OFFSET_UNIT),
                 Shifted(f.sectorSizeCode, SECTOR_SIZE_UNIT), Shifted(f.eccBitsCode, ECC_BITS_UNIT),
                 Shifted(f.spare, SPARE_UNIT), Shifted(f.sectorsCode, SECTORS_UNIT), Shifted(f.usePmecc, 1),
                 n32, TWO32);
  }

  lemma OrSevenBelow(a: nat, b: nat, c: nat, d: nat, e: nat, f: nat, g: nat, n: nat, p: nat)
    requires p == Pow2(n) && a < p && b < p && c < p && d < p && e < p && f < p && g < p
    ensures OrSeven(a, b, c, d, e, f, g) < p
  {
    OrBelow(a, b, n);
    OrBelow(Or(a, b), c, n);
    OrBelow(Or(Or(a, b), c), d, n);
    OrBelow(Or(Or(Or(a, b), c), d), e, n);
    OrBelow(Or(Or(Or(Or(a, b), c), d), e), f, n);
    OrBelow(Or(Or(Or(Or(Or(a, b), c), d), e), f), g, n);
  }

  /** The four bytes, read in little-endian order, are the word. */
  lemma WordReadsBack(w: nat)
    requires w < TWO32
    ensures ByteOf(w, 0) as int + 0x100 * ByteOf(w, 1) as int + 0x1_0000 * ByteOf(w, 2) as int
            + 0x100_0000 * ByteOf(w, 3) as int == w
  {
    var q1 := w / 0x100;
    var q2 := q1 / 0x100;
    var q3 := q2 / 0x100;
    DivUnique(w, 0x1_0000, q2, 0x100 * (q1 % 0x100) + w % 0x100);
    DivUnique(w, 0x100_0000, q3, 0x1_0000 * (q2 % 0x100) + 0x100 * (q1 % 0x100) + w % 0x100);
  }

  /** The update describes the flash correctly exactly when the spare area is below 512 bytes, the ECC
      bytes fit into it, and a page has at most 128 sectors. */
  lemma UpdateDescribes(g: Geometry, sectorSize: nat, sectors: nat, ecc: nat, w: nat)
    requires sectorSize > 0 && UpdateWord(g, sectorSize) == Some(w)
    requires sectors == g.subpageSize / sectorSize && ecc == EccBytes(ECC_BITS, sectorSize) * sectors
    ensures Describes(w, 1, sectors, sectorSize, g.oobSize, 8, g.oobSize - ecc) <==>
      g.oobSize < 512 && ecc <= g.oobSize && sectors <= 128
  {
    ZeroIff(1, sectors, sectorSize, g.oobSize, ECC_BITS, g.oobSize - ecc);
    WordDescribes(1, sectors, sectorSize, g.oobSize, ECC_BITS, g.oobSize - ecc, w);
  }
}
