/**
  The CRC of section 8 of RFC 1952, as the RFC defines it: a table of 256 entries, and one look-up for each byte.
 */
module Rfc1952 {
  import opened Options

  /** One of the eight rounds that make a table entry. */
  function Round(c: bv32): bv32 {
    if c & 1 == 1 then 0xedb88320 ^ (c >> 1) else c >> 1
  }

  function Rounds(c: bv32, k: nat): bv32
    decreases k
  {
    if k == 0 then c else Rounds(Round(c), k - 1)
  }

  /** crc_table[n] */
  function TableEntry(n: bv8): bv32 {
    Rounds(n as bv32, 8)
  }

  function Index(c: bv32, b: bv8): bv8 {
    ((c ^ b as bv32) & 0xff) as bv8
  }

  function LookUp(entry: bv32, c: bv32): bv32 {
    entry ^ (c >> 8)
  }

  function UpdateByte(c: bv32, b: bv8): bv32 {
    LookUp(TableEntry(Index(c, b)), c)
  }

  function UpdateBytes(c: bv32, buf: seq<bv8>): bv32
    decreases |buf|
  {
    if buf == [] then c else UpdateBytes(UpdateByte(c, buf[0]), buf[1..])
  }

  /** update_crc */
  function UpdateCrc(crc: bv32, buf: seq<bv8>): bv32 {
    UpdateBytes(crc ^ 0xffffffff, buf) ^ 0xffffffff
  }

  // ---------------------------------------------------------------------------
  // Check values
  // ---------------------------------------------------------------------------

  lemma EntryBy(n: bv8, a: bv32, b: bv32, c: bv32, d: bv32, e: bv32, f: bv32, g: bv32, h: bv32)
    requires a == Round(n as bv32) && b == Round(a) && c == Round(b) && d == Round(c)
    requires e == Round(d) && f == Round(e) && g == Round(f) && h == Round(g)
    ensures TableEntry(n) == h
  {
    assert Rounds(g, 1) == h;
    assert Rounds(f, 2) == h;
    assert Rounds(e, 3) == h;
    assert Rounds(d, 4) == h;
    assert Rounds(c, 5) == h;
    assert Rounds(b, 6) == h;
    assert Rounds(a, 7) == h;
  }

  lemma ByteBy(c: bv32, b: bv8, n: bv8, entry: bv32, c': bv32)
    requires n == Index(c, b) && TableEntry(n) == entry && c' == LookUp(entry, c)
    ensures UpdateByte(c, b) == c'
  {
  }

  /** The table entries that the nine digits look up. */
  lemma Entries()
    ensures TableEntry(0xce) == 0x7cdcefb7
    ensures TableEntry(0x7a) == 0xb0d09822
    ensures TableEntry(0x01) == 0x77073096
    ensures TableEntry(0x19) == 0x646ba8c0
    ensures TableEntry(0x69) == 0x346ed9fc
    ensures TableEntry(0xd5) == 0xf6b9265b
    ensures TableEntry(0xa9) == 0xaf0a1b4c
    ensures TableEntry(0x58) == 0x65b0d9c6
    ensures TableEntry(0x80) == 0xedb88320
  {
    EntryBy(0xce, 0x00000067, 0xedb88313, 0x9b64c2a9, 0xa00ae274,
                  0x5005713a, 0x2802b89d, 0xf9b9df6e, 0x7cdcefb7);
    EntryBy(0x7a, 0x0000003d, 0xedb8833e, 0x76dc419f, 0xd6d6a3ef,
                  0x86d3d2d7, 0xaed16a4b, 0xbad03605, 0xb0d09822);
    EntryBy(0x01, 0xedb88320, 0x76dc4190, 0x3b6e20c8, 0x1db71064,
                  0x0edb8832, 0x076dc419, 0xee0e612c, 0x77073096);
    EntryBy(0x19, 0xedb8832c, 0x76dc4196, 0x3b6e20cb, 0xf00f9345,
                  0x95bf4a82, 0x4adfa541, 0xc8d75180, 0x646ba8c0);
    EntryBy(0x69, 0xedb88314, 0x76dc418a, 0x3b6e20c5, 0xf00f9342,
                  0x7807c9a1, 0xd1bb67f0, 0x68ddb3f8, 0x346ed9fc);
    EntryBy(0xd5, 0xedb8834a, 0x76dc41a5, 0xd6d6a3f2, 0x6b6b51f9,
                  0xd80d2bdc, 0x6c0695ee, 0x36034af7, 0xf6b9265b);
    EntryBy(0xa9, 0xedb88374, 0x76dc41ba, 0x3b6e20dd, 0xf00f934e,
                  0x7807c9a7, 0xd1bb67f3, 0x856530d9, 0xaf0a1b4c);
    EntryBy(0x58, 0x0000002c, 0x00000016, 0x0000000b, 0xedb88325,
                  0x9b64c2b2, 0x4db26159, 0xcb61b38c, 0x65b0d9c6);
    EntryBy(0x80, 0x00000040, 0x00000020, 0x00000010, 0x00000008,
                  0x00000004, 0x00000002, 0x00000001, 0xedb88320);
  }

  const DIGITS: seq<bv8> := [0x31, 0x32, 0x33, 0x34, 0x35, 0x36, 0x37, 0x38, 0x39]

  lemma NextByte(c: bv32, i: nat, b: bv8, c': bv32)
    requires i < |DIGITS| && DIGITS[i] == b && UpdateByte(c, b) == c'
    ensures Same(UpdateBytes(c, DIGITS[i..]), UpdateBytes(c', DIGITS[i + 1..]))
  {
    assert DIGITS[i..][0] == b && DIGITS[i..][1..] == DIGITS[i + 1..];
  }

  lemma FirstThree()
    ensures Same(UpdateBytes(0xffffffff, DIGITS[0..]), UpdateBytes(0x77b79c2d, DIGITS[3..]))
  {
    Entries();
    ByteBy(0xffffffff, 0x31, 0xce, 0x7cdcefb7, 0x7c231048);
    NextByte(0xffffffff, 0, 0x31, 0x7c231048);
    ByteBy(0x7c231048, 0x32, 0x7a, 0xb0d09822, 0xb0acbb32);
    NextByte(0x7c231048, 1, 0x32, 0xb0acbb32);
    ByteBy(0xb0acbb32, 0x33, 0x01, 0x77073096, 0x77b79c2d);
    NextByte(0xb0acbb32, 2, 0x33, 0x77b79c2d);
  }

  lemma NextThree()
    ensures Same(UpdateBytes(0x77b79c2d, DIGITS[3..]), UpdateBytes(0xf68d2c9e, DIGITS[6..]))
  {
    Entries();
    ByteBy(0x77b79c2d, 0x34, 0x19, 0x646ba8c0, 0x641c1f5c);
    NextByte(0x77b79c2d, 3, 0x34, 0x641c1f5c);
    ByteBy(0x641c1f5c, 0x35, 0x69, 0x346ed9fc, 0x340ac5e3);
    NextByte(0x641c1f5c, 4, 0x35, 0x340ac5e3);
    ByteBy(0x340ac5e3, 0x36, 0xd5, 0xf6b9265b, 0xf68d2c9e);
    NextByte(0x340ac5e3, 5, 0x36, 0xf68d2c9e);
  }

  lemma LastThree()
    ensures Same(UpdateBytes(0xf68d2c9e, DIGITS[6..]), UpdateBytes(0x340bc6d9, DIGITS[9..]))
  {
    Entries();
    ByteBy(0xf68d2c9e, 0x37, 0xa9, 0xaf0a1b4c, 0xaffc9660);
    NextByte(0xf68d2c9e, 6, 0x37, 0xaffc9660);
    ByteBy(0xaffc9660, 0x38, 0x58, 0x65b0d9c6, 0x651f2550);
    NextByte(0xaffc9660, 7, 0x38, 0x651f2550);
    ByteBy(0x651f2550, 0x39, 0x69, 0x346ed9fc, 0x340bc6d9);
    NextByte(0x651f2550, 8, 0x39, 0x340bc6d9);
  }

  /** The check value of this CRC: that of the nine digits 1 to 9. */
  lemma CheckValue()
    ensures UpdateCrc(0, DIGITS) == 0xcbf43926
  {
    FirstThree();
    NextThree();
    LastThree();
    assert DIGITS[0..] == DIGITS && DIGITS[9..] == [];
  }

  /** And that of a single byte. */
  lemma OneByte()
    ensures UpdateCrc(0, [0x7f]) == 0x12b88320
  {
    Entries();
    ByteBy(0xffffffff, 0x7f, 0x80, 0xedb88320, 0xed477cdf);
    var buf: seq<bv8> := [0x7f];
    assert buf[0] == 0x7f && buf[1..] == [];
    assert UpdateBytes(0xffffffff, buf) == 0xed477cdf;
  }
}
