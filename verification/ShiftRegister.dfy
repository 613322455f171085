/**
  Feedback shift registers in general: a register is shifted one bit at a time and message
  bits are added to its low end. Everything here follows from the laws in `Lawful`; no
  particular word width or polynomial is assumed beyond the word length `width`.
 */
module ShiftRegister {

  /** A register type: shift, exclusive or, shift towards the high end, and the words 0 and 1. */
  datatype Ops<!R> = Ops(shift: R -> R, xor: (R, R) -> R, up: R -> R, zero: R, one: R)

  function Bit<R>(o: Ops<R>, b: bool): R {
    if b then o.one else o.zero
  }

  function ShiftBy<R>(o: Ops<R>, c: R, n: nat): R
    decreases n
  {
    if n == 0 then c else ShiftBy(o, o.shift(c), n - 1)
  }

  /** The register after a string of message bits. */
  function Feed<R>(o: Ops<R>, c: R, bits: seq<bool>): R
    decreases |bits|
  {
    if bits == [] then c else Feed(o, o.shift(o.xor(c, Bit(o, bits[0]))), bits[1..])
  }

  /** Message bits packed into a word, first bit lowest. */
  function Pack<R>(o: Ops<R>, bits: seq<bool>): R
    decreases |bits|
  {
    if bits == [] then o.zero else o.xor(Bit(o, bits[0]), o.up(Pack(o, bits[1..])))
  }

  ghost predicate Group<R(!new)>(o: Ops<R>) {
    && (forall a, b, c :: o.xor(o.xor(a, b), c) == o.xor(a, o.xor(b, c)))
    && (forall a, b :: o.xor(a, b) == o.xor(b, a))
    && (forall a :: o.xor(a, o.zero) == a)
    && (forall a, b, x :: o.xor(a, x) == o.xor(b, x) ==> a == b)
  }

  ghost predicate LinearShift<R(!new)>(o: Ops<R>) {
    && (forall a, b :: o.shift(o.xor(a, b)) == o.xor(o.shift(a), o.shift(b)))
    && (forall a, b :: o.shift(a) == o.shift(b) ==> a == b)
  }

  /** `fits(p, n)`: p uses only its n low bits. While a bit is free at the top, shifting undoes
      `up` and a packed word can be taken apart again. */
  ghost predicate Packing<R(!new)>(o: Ops<R>, width: nat, fits: (R, nat) -> bool) {
    && fits(o.zero, 0)
    && (forall p, n: nat, b :: fits(p, n) && n < width ==> fits(o.xor(Bit(o, b), o.up(p)), n + 1))
    && (forall p, n: nat :: fits(p, n) && n < width ==> o.shift(o.up(p)) == p)
    && (forall p, q, n: nat, a, b ::
          fits(p, n) && fits(q, n) && n < width && o.xor(Bit(o, a), o.up(p)) == o.xor(Bit(o, b), o.up(q))
          ==> a == b && p == q)
  }

  ghost predicate Lawful<R(!new)>(o: Ops<R>, width: nat, fits: (R, nat) -> bool) {
    Group(o) && LinearShift(o) && Packing(o, width, fits)
  }

  lemma {:induction false} ShiftByLinear<R(!new)>(o: Ops<R>, a: R, b: R, n: nat)
    requires LinearShift(o)
    ensures ShiftBy(o, o.xor(a, b), n) == o.xor(ShiftBy(o, a, n), ShiftBy(o, b, n))
    decreases n
  {
    if n > 0 { ShiftByLinear(o, o.shift(a), o.shift(b), n - 1); }
  }

  lemma {:induction false} ShiftByInjective<R(!new)>(o: Ops<R>, a: R, b: R, n: nat)
    requires LinearShift(o) && ShiftBy(o, a, n) == ShiftBy(o, b, n)
    ensures a == b
    decreases n
  {
    if n > 0 { ShiftByInjective(o, o.shift(a), o.shift(b), n - 1); }
  }

  lemma {:induction false} FeedConcat<R>(o: Ops<R>, c: R, a: seq<bool>, b: seq<bool>)
    ensures Feed(o, c, a + b) == Feed(o, Feed(o, c, a), b)
    decreases |a|
  {
    if a == [] {
      assert a + b == b;
    } else {
      FeedConcat(o, o.shift(o.xor(c, Bit(o, a[0]))), a[1..], b);
      assert (a + b)[1..] == a[1..] + b;
    }
  }

  lemma {:induction false} FeedInjective<R(!new)>(o: Ops<R>, c: R, d: R, bits: seq<bool>)
    requires Group(o) && LinearShift(o) && Feed(o, c, bits) == Feed(o, d, bits)
    ensures c == d
    decreases |bits|
  {
    if bits != [] {
      var b := Bit(o, bits[0]);
      FeedInjective(o, o.shift(o.xor(c, b)), o.shift(o.xor(d, b)), bits[1..]);
    }
  }

  lemma {:induction false} PackFits<R(!new)>(o: Ops<R>, width: nat, fits: (R, nat) -> bool, bits: seq<bool>)
    requires Packing(o, width, fits) && |bits| <= width
    ensures fits(Pack(o, bits), |bits|)
    decreases |bits|
  {
    if bits != [] { PackFits(o, width, fits, bits[1..]); }
  }

  /** Feeding up to `width` bits is one exclusive or and as many shifts. */
  lemma {:induction false} FeedIsPack<R(!new)>(o: Ops<R>, width: nat, fits: (R, nat) -> bool, c: R, bits: seq<bool>)
    requires Lawful(o, width, fits) && |bits| <= width
    ensures Feed(o, c, bits) == ShiftBy(o, o.xor(c, Pack(o, bits)), |bits|)
    decreases |bits|
  {
    if bits != [] {
      var b, p := Bit(o, bits[0]), Pack(o, bits[1..]);
      PackFits(o, width, fits, bits[1..]);
      FeedIsPack(o, width, fits, o.shift(o.xor(c, b)), bits[1..]);
      assert o.xor(c, o.xor(b, o.up(p))) == o.xor(o.xor(c, b), o.up(p));
      assert o.shift(o.xor(o.xor(c, b), o.up(p))) == o.xor(o.shift(o.xor(c, b)), p);
    }
  }

  /** Different bit strings of one length up to `width` pack differently. */
  lemma {:induction false} PackInjective<R(!new)>(o: Ops<R>, width: nat, fits: (R, nat) -> bool,
      a: seq<bool>, b: seq<bool>)
    requires Packing(o, width, fits) && |a| == |b| <= width && Pack(o, a) == Pack(o, b)
    ensures a == b
    decreases |a|
  {
    if a != [] {
      PackFits(o, width, fits, a[1..]);
      PackFits(o, width, fits, b[1..]);
      assert a[0] == b[0] && Pack(o, a[1..]) == Pack(o, b[1..]);
      PackInjective(o, width, fits, a[1..], b[1..]);
      assert a == [a[0]] + a[1..] && b == [b[0]] + b[1..];
    }
  }

  /** Equal outside `length` positions from `start` on. */
  ghost predicate WithinBurst(a: seq<bool>, b: seq<bool>, start: nat, length: nat) {
    && start + length <= |a| == |b|
    && a[..start] == b[..start]
    && a[start + length..] == b[start + length..]
  }

  lemma XorLeftCancel<R(!new)>(o: Ops<R>, s: R, p: R, q: R)
    requires Group(o) && o.xor(s, p) == o.xor(s, q)
    ensures p == q
  {
    assert o.xor(s, p) == o.xor(p, s) && o.xor(s, q) == o.xor(q, s);
  }

  lemma ShortFeedInjective<R(!new)>(o: Ops<R>, width: nat, fits: (R, nat) -> bool, s: R, x: seq<bool>, y: seq<bool>)
    requires Lawful(o, width, fits) && |x| == |y| <= width && Feed(o, s, x) == Feed(o, s, y)
    ensures x == y
  {
    var p, q := Pack(o, x), Pack(o, y);
    FeedIsPack(o, width, fits, s, x);
    FeedIsPack(o, width, fits, s, y);
    ShiftByInjective(o, o.xor(s, p), o.xor(s, q), |x|);
    XorLeftCancel(o, s, p, q);
    PackInjective(o, width, fits, x, y);
  }

  lemma FeedSplit<R>(o: Ops<R>, c: R, head: seq<bool>, x: seq<bool>, tail: seq<bool>)
    ensures Feed(o, c, head + x + tail) == Feed(o, Feed(o, Feed(o, c, head), x), tail)
  {
    FeedConcat(o, c, head + x, tail);
    FeedConcat(o, c, head, x);
  }

  /** A register of this width tells apart any two messages that differ only within a burst no
      longer than the register. */
  lemma BurstChangesRegister<R(!new)>(o: Ops<R>, width: nat, fits: (R, nat) -> bool, c: R,
      a: seq<bool>, b: seq<bool>, start: nat, length: nat)
    requires Lawful(o, width, fits) && length <= width
    requires WithinBurst(a, b, start, length) && a != b
    ensures Feed(o, c, a) != Feed(o, c, b)
  {
    var head, tail := a[..start], a[start + length..];
    var x, y := a[start..start + length], b[start..start + length];
    assert a == head + x + tail && b == head + y + tail;
    FeedSplit(o, c, head, x, tail);
    FeedSplit(o, c, head, y, tail);
    var s := Feed(o, c, head);
    if Feed(o, c, a) == Feed(o, c, b) {
      FeedInjective(o, Feed(o, s, x), Feed(o, s, y), tail);
      ShortFeedInjective(o, width, fits, s, x, y);
    }
  }

  // ---------------------------------------------------------------------------
  // Messages made of bytes
  // ---------------------------------------------------------------------------

  /** The bits of a byte, lowest first. */
  function BitsOf(b: bv8): seq<bool> {
    [b & 1 != 0, b & 2 != 0, b & 4 != 0, b & 8 != 0, b & 16 != 0, b & 32 != 0, b & 64 != 0, b & 128 != 0]
  }

  function AllBits(buf: seq<bv8>): seq<bool> {
    if buf == [] then [] else BitsOf(buf[0]) + AllBits(buf[1..])
  }

  lemma {:induction false} AllBitsSplit(buf: seq<bv8>, i: nat)
    requires i <= |buf|
    ensures |AllBits(buf)| == 8 * |buf|
    ensures AllBits(buf) == AllBits(buf[..i]) + AllBits(buf[i..])
    decreases |buf|
  {
    if buf != [] {
      AllBitsSplit(buf[1..], if i > 0 then i - 1 else 0);
      if i > 0 {
        assert buf[..i][1..] == buf[1..][..i - 1] && buf[1..][i - 1..] == buf[i..];
        assert AllBits(buf) == BitsOf(buf[0]) + (AllBits(buf[1..][..i - 1]) + AllBits(buf[i..]));
      } else {
        assert buf[..0] == [] && buf[0..] == buf;
      }
    }
  }

  /** Buffers that differ only within some bytes differ only within a burst of their bits. */
  lemma BytesAreBurst(a: seq<bv8>, b: seq<bv8>, i: nat, n: nat)
    requires |a| == |b| && i + n <= |a| && a[..i] == b[..i] && a[i + n..] == b[i + n..]
    ensures WithinBurst(AllBits(a), AllBits(b), 8 * i, 8 * n)
  {
    AllBitsSplit(a, i);
    AllBitsSplit(b, i);
    AllBitsSplit(a, i + n);
    AllBitsSplit(b, i + n);
    AllBitsSplit(a[..i], 0);
    AllBitsSplit(b[..i], 0);
    AllBitsSplit(a[..i + n], 0);
    AllBitsSplit(b[..i + n], 0);
  }

  lemma BitsOfInjective(a: bv8, b: bv8)
    requires BitsOf(a) == BitsOf(b)
    ensures a == b
  {
    var x, y := BitsOf(a), BitsOf(b);
    assert x[0] == y[0] && x[1] == y[1] && x[2] == y[2] && x[3] == y[3];
    assert x[4] == y[4] && x[5] == y[5] && x[6] == y[6] && x[7] == y[7];
  }

  lemma {:induction false} AllBitsInjective(a: seq<bv8>, b: seq<bv8>)
    requires |a| == |b| && AllBits(a) == AllBits(b)
    ensures a == b
    decreases |a|
  {
    if a != [] {
      var x, y := BitsOf(a[0]), BitsOf(b[0]);
      assert x == AllBits(a)[..8] && y == AllBits(b)[..8];
      assert AllBits(a[1..]) == AllBits(a)[8..] && AllBits(b[1..]) == AllBits(b)[8..];
      BitsOfInjective(a[0], b[0]);
      AllBitsInjective(a[1..], b[1..]);
      assert a == [a[0]] + a[1..] && b == [b[0]] + b[1..];
    }
  }

  /** The register after the bytes of a buffer, each added to the low end and shifted out. */
  function Register<R>(o: Ops<R>, word: bv8 -> R, c: R, buf: seq<bv8>): R
    decreases |buf|
  {
    if buf == [] then c
    else Register(o, word, ShiftBy(o, o.xor(c, word(buf[0])), 8), buf[1..])
  }

  lemma {:induction false} RegisterConcat<R>(o: Ops<R>, word: bv8 -> R, c: R, a: seq<bv8>, b: seq<bv8>)
    ensures Register(o, word, c, a + b) == Register(o, word, Register(o, word, c, a), b)
    decreases |a|
  {
    if a == [] {
      assert a + b == b;
    } else {
      RegisterConcat(o, word, ShiftBy(o, o.xor(c, word(a[0])), 8), a[1..], b);
      assert (a + b)[1..] == a[1..] + b;
    }
  }

  ghost predicate PacksBytes<R>(o: Ops<R>, word: bv8 -> R) {
    forall b :: word(b) == Pack(o, BitsOf(b))
  }

  lemma ByteIsFeed<R(!new)>(o: Ops<R>, width: nat, fits: (R, nat) -> bool, c: R, w: R, bits: seq<bool>,
      rest: seq<bool>)
    requires Lawful(o, width, fits) && |bits| == 8 <= width && w == Pack(o, bits)
    ensures Feed(o, c, bits + rest) == Feed(o, ShiftBy(o, o.xor(c, w), 8), rest)
  {
    FeedConcat(o, c, bits, rest);
    FeedIsPack(o, width, fits, c, bits);
  }

  lemma {:induction false} RegisterIsFeed<R(!new)>(o: Ops<R>, width: nat, fits: (R, nat) -> bool, word: bv8 -> R,
      c: R, buf: seq<bv8>)
    requires Lawful(o, width, fits) && width >= 8 && PacksBytes(o, word)
    ensures Register(o, word, c, buf) == Feed(o, c, AllBits(buf))
    decreases |buf|
  {
    if buf != [] {
      ByteIsFeed(o, width, fits, c, word(buf[0]), BitsOf(buf[0]), AllBits(buf[1..]));
      RegisterIsFeed(o, width, fits, word, ShiftBy(o, o.xor(c, word(buf[0])), 8), buf[1..]);
    }
  }

  lemma PackCons<R(!new)>(o: Ops<R>, link: (bool, R) -> R, all: seq<bool>, k: nat)
    requires forall flag, p :: o.xor(Bit(o, flag), o.up(p)) == link(flag, p)
    requires k < |all|
    ensures Pack(o, all[k..]) == link(all[k], Pack(o, all[k + 1..]))
  {
    assert all[k..][1..] == all[k + 1..];
  }

  lemma PackEight<R(!new)>(o: Ops<R>, link: (bool, R) -> R, s: seq<bool>)
    requires forall flag, p :: o.xor(Bit(o, flag), o.up(p)) == link(flag, p)
    requires |s| == 8
    ensures Pack(o, s)
         == link(s[0], link(s[1], link(s[2], link(s[3], link(s[4], link(s[5], link(s[6], link(s[7], o.zero))))))))
  {
    PackCons(o, link, s, 0);
    PackCons(o, link, s, 1);
    PackCons(o, link, s, 2);
    PackCons(o, link, s, 3);
    PackCons(o, link, s, 4);
    PackCons(o, link, s, 5);
    PackCons(o, link, s, 6);
    PackCons(o, link, s, 7);
    assert s[0..] == s;
  }

  // ---------------------------------------------------------------------------
  // Checksums: a register with its content complemented before and after
  // ---------------------------------------------------------------------------

  function Checksum<R>(o: Ops<R>, word: bv8 -> R, complement: R -> R, start: R, buf: seq<bv8>): R {
    complement(Register(o, word, complement(start), buf))
  }

  /** Checksumming in pieces, feeding each result into the next call. */
  lemma ChecksumConcat<R(!new)>(o: Ops<R>, word: bv8 -> R, complement: R -> R, start: R, a: seq<bv8>, b: seq<bv8>)
    requires forall c :: complement(complement(c)) == c
    ensures Checksum(o, word, complement, start, a + b)
         == Checksum(o, word, complement, Checksum(o, word, complement, start, a), b)
  {
    RegisterConcat(o, word, complement(start), a, b);
  }

  /** Two different buffers of one length that differ only within `width` consecutive bits never
      share a checksum. */
  lemma BurstDetected<R(!new)>(o: Ops<R>, width: nat, fits: (R, nat) -> bool, word: bv8 -> R, complement: R -> R,
      start: R, a: seq<bv8>, b: seq<bv8>, first: nat, length: nat)
    requires Lawful(o, width, fits) && width >= 8 && PacksBytes(o, word)
    requires forall c :: complement(complement(c)) == c
    requires |a| == |b| && a != b && length <= width
    requires WithinBurst(AllBits(a), AllBits(b), first, length)
    ensures Checksum(o, word, complement, start, a) != Checksum(o, word, complement, start, b)
  {
    if AllBits(a) == AllBits(b) { AllBitsInjective(a, b); }
    var c := complement(start);
    BurstChangesRegister(o, width, fits, c, AllBits(a), AllBits(b), first, length);
    RegisterIsFeed(o, width, fits, word, c, a);
    RegisterIsFeed(o, width, fits, word, c, b);
    var x, y := Register(o, word, c, a), Register(o, word, c, b);
    assert complement(complement(x)) == x && complement(complement(y)) == y;
  }

  /** Each byte permutes the states: its effect has an inverse. */
  lemma AbsorbInjective<R(!new)>(o: Ops<R>, c: R, d: R, w: R)
    requires Group(o) && LinearShift(o)
    requires ShiftBy(o, o.xor(c, w), 8) == ShiftBy(o, o.xor(d, w), 8)
    ensures c == d
  {
    ShiftByInjective(o, o.xor(c, w), o.xor(d, w), 8);
  }
}
