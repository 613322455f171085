/**
  The register snapshot of the PAC193x power monitor. The chip skips the registers of disabled
  channels, so the place of a field depends on the channel mask.
 */
module Pac193xSnapshot {
  import opened Arithmetic
  import opened Bits

  const MAX_CHANNELS: nat := 4
  const SNAPSHOT_LEN: nat := 76
  const ACC_COUNT_LEN: nat := 3

  const TWO16: nat := 0x1_0000
  const TWO28: nat := 0x1000_0000
  const TWO48: nat := 0x1_0000_0000_0000
  const TWO63: nat := 0x8000_0000_0000_0000
  const TWO64: nat := 0x1_0000_0000_0000_0000

  // ---------------------------------------------------------------------------
  // Numbers
  // ---------------------------------------------------------------------------

  function Be(bytes: seq<Byte>): nat {
    if bytes == [] then 0 else 256 * Be(bytes[..|bytes| - 1]) + bytes[|bytes| - 1]
  }

  function ToBe(v: nat, width: nat): (bytes: seq<Byte>)
    ensures |bytes| == width
  {
    if width == 0 then [] else ToBe(v / 256, width - 1) + [v % 256]
  }

  /** How many values fit into `width` bytes. */
  function Span(width: nat): (n: nat)
    ensures n > 0
  {
    if width == 0 then 1 else 256 * Span(width - 1)
  }

  lemma {:induction false} BeOfToBe(v: nat, width: nat)
    requires v < Span(width)
    ensures Be(ToBe(v, width)) == v
  {
    if width > 0 {
      BeOfToBe(v / 256, width - 1);
      var bytes := ToBe(v, width);
      assert bytes[..width - 1] == ToBe(v / 256, width - 1);
    }
  }

  lemma Spans()
    ensures Span(2) == TWO16 && Span(3) == 0x100_0000 && Span(4) == 16 * TWO28 && Span(6) == TWO48
  {
    assert Span(3) == 256 * Span(2);
    assert Span(4) == 256 * Span(3);
    assert Span(5) == 256 * Span(4);
    assert Span(6) == 256 * Span(5);
  }

  /** Sign extension of the low bits of v, where `span` is twice the value of the sign bit. */
  function Signed(v: nat, span: nat): int
    requires span > 0
  {
    if 2 * (v % span) >= span then v % span - span else v % span
  }

  /** Two's complement. */
  function Wrapped(v: int, span: nat): (u: nat)
    requires -(span as int) <= v < span as int
    ensures u < span
  {
    if v < 0 then v + span else v
  }

  lemma SignedOfWrapped(v: int, span: nat, u: nat)
    requires -(span as int) <= 2 * v < span as int && u == Wrapped(v, span)
    ensures Signed(u, span) == v
  {
    DivUnique(u, span, 0, u);
  }

  /** 64-bit signed wrap-around. */
  function S64(x: int): (y: int)
    ensures -(TWO63 as int) <= y < TWO63 as int
    ensures -(TWO63 as int) <= x < TWO63 as int ==> y == x
  {
    (x + TWO63) % TWO64 - TWO63
  }

  // ---------------------------------------------------------------------------
  // Which channels are there
  // ---------------------------------------------------------------------------

  /** The mask shifted left by c has its top bit clear. */
  predicate IsActive(mask: Byte, c: nat) {
    mask * Pow2(c) / 0x80 % 2 == 0
  }

  /** CHANNEL_DIS_REG with the three flag bits of pac193x_chip_configure: 0, 0, skip. */
  function ChannelDisReg(on: seq<bool>): Byte
    requires |on| == MAX_CHANNELS
  {
    (if on[0] then 0 else 0x80) + (if on[1] then 0 else 0x40)
    + (if on[2] then 0 else 0x20) + (if on[3] then 0 else 0x10)
  }

  /** Writer and parser mean the same channels; the low half of the register is 0. */
  lemma MaskMeaning(on: seq<bool>, c: nat)
    requires |on| == MAX_CHANNELS && c < MAX_CHANNELS
    ensures IsActive(ChannelDisReg(on), c) <==> on[c]
    ensures ChannelDisReg(on) % 16 == 0
  {
    assert Pow2(1) == 2 && Pow2(2) == 4 && Pow2(3) == 8;
  }

  // ---------------------------------------------------------------------------
  // One field
  // ---------------------------------------------------------------------------

  datatype Kind = Energy | Bus | Sense | Power

  function Width(kind: Kind): (w: nat)
    ensures w > 0
  {
    match kind
    case Energy => 6
    case Bus => 2
    case Sense => 2
    case Power => 4
  }

  /** The macros that extract a field; the bi-directional power is sign-extended from bit 3. */
  function Decoded(kind: Kind, bi: bool, bytes: seq<Byte>): int {
    Meant(kind, bi, Be(bytes))
  }

  /** The chip's range of a field. */
  predicate InRange(kind: Kind, bi: bool, v: int) {
    match kind
    case Energy => if bi then -(TWO48 as int) <= 2 * v < TWO48 as int else 0 <= v < TWO48 as int
    case Bus => 0 <= v < TWO16 as int
    case Sense => if bi then -(TWO16 as int) <= 2 * v < TWO16 as int else 0 <= v < TWO16 as int
    case Power => if bi then -(TWO28 as int) <= 2 * v < TWO28 as int else 0 <= v < TWO28 as int
  }

  /** How the chip stores a field. */
  function Encoded(kind: Kind, bi: bool, v: int): (bytes: seq<Byte>)
    requires InRange(kind, bi, v)
    ensures |bytes| == Width(kind)
  {
    match kind
    case Energy => ToBe(Wrapped(v, TWO48), 6)
    case Bus => ToBe(Wrapped(v, TWO16), 2)
    case Sense => ToBe(Wrapped(v, TWO16), 2)
    case Power => ToBe(16 * Wrapped(v, TWO28), 4)
  }

  /** The part of that range that the driver reads back. */
  predicate Readable(kind: Kind, bi: bool, v: int) {
    kind.Power? && bi ==> -8 <= v <= 7
  }

  /** What the driver makes of the number u in a field. */
  function Meant(kind: Kind, bi: bool, u: nat): int {
    match kind
    case Energy => if bi then Signed(u, TWO48) else u
    case Bus => u
    case Sense => if bi then Signed(u, TWO16) else u
    case Power => if bi then Signed(u / 16, 16) else u / 16
  }

  lemma PowerRoundTrip(bi: bool, v: int, u: nat)
    requires InRange(Power, bi, v) && u == 16 * Wrapped(v, TWO28)
    ensures u < 16 * TWO28
    ensures Meant(Power, bi, u) == v <==> Readable(Power, bi, v)
  {
    assert u / 16 == Wrapped(v, TWO28);
  }

  lemma Stored(v: nat, width: nat, span: nat, bytes: seq<Byte>)
    requires width in {2, 3, 4, 6} && bytes == ToBe(v, width) && v < span
    requires span ==
      if width == 2 then TWO16 else if width == 3 then 0x100_0000 else if width == 4 then 16 * TWO28 else TWO48
    ensures Be(bytes) == v
  {
    Spans();
    BeOfToBe(v, width);
  }

  /** A field comes back exactly when it is readable: always, except that a bi-directional power
      needs to fit into four bits. */
  lemma FieldRoundTrip(kind: Kind, bi: bool, v: int, bytes: seq<Byte>)
    requires InRange(kind, bi, v) && bytes == Encoded(kind, bi, v)
    ensures Decoded(kind, bi, bytes) == v <==> Readable(kind, bi, v)
  {
    match kind {
      case Energy =>
        Stored(Wrapped(v, TWO48), 6, TWO48, bytes);
        if bi { SignedOfWrapped(v, TWO48, Wrapped(v, TWO48)); }
      case Bus =>
        Stored(v, 2, TWO16, bytes);
      case Sense =>
        Stored(Wrapped(v, TWO16), 2, TWO16, bytes);
        if bi { SignedOfWrapped(v, TWO16, Wrapped(v, TWO16)); }
      case Power =>
        PowerRoundTrip(bi, v, 16 * Wrapped(v, TWO28));
        Stored(16 * Wrapped(v, TWO28), 4, 16 * TWO28, bytes);
    }
  }

  /** The four bytes of a power field as the macro shifts them together. */
  lemma PowerMacro(b: seq<Byte>)
    requires |b| == 4
    ensures Be(b) / 16 == b[0] as int * 0x10_0000 + b[1] as int * 0x1000 + b[2] as int * 16 + b[3] / 16
  {
    assert b[..3][..2] == b[..2] && b[..2][..1] == b[..1] && b[..1][..0] == [];
    assert Be(b[..1]) == b[0];
    assert Be(b[..2]) == 256 * b[0] as int + b[1];
    assert Be(b[..3]) == 256 * Be(b[..2]) + b[2];
  }

  // ---------------------------------------------------------------------------
  // One section: the same field of every active channel
  // ---------------------------------------------------------------------------

  /** Where channel n starts in a section of fields of w bytes. */
  function Place(w: nat, mask: Byte, n: nat): nat {
    if n == 0 then 0 else Place(w, mask, n - 1) + if IsActive(mask, n - 1) then w else 0
  }

  lemma {:induction false} PlaceMono(w: nat, mask: Byte, c: nat, n: nat)
    requires c < n
    ensures Place(w, mask, c) + (if IsActive(mask, c) then w else 0) <= Place(w, mask, n)
    decreases n
  {
    if c < n - 1 { PlaceMono(w, mask, c, n - 1); }
  }

  /** The fields of the active channels, one after the other. */
  function Packed(w: nat, mask: Byte, fields: seq<seq<Byte>>): (bytes: seq<Byte>)
    requires forall c :: 0 <= c < |fields| ==> |fields[c]| == w
    ensures |bytes| == Place(w, mask, |fields|)
  {
    if fields == [] then []
    else
      var n := |fields| - 1;
      Packed(w, mask, fields[..n]) + if IsActive(mask, n) then fields[n] else []
  }

  lemma {:induction false} PackedAt(w: nat, mask: Byte, fields: seq<seq<Byte>>, bytes: seq<Byte>, c: nat)
    requires forall k :: 0 <= k < |fields| ==> |fields[k]| == w
    requires bytes == Packed(w, mask, fields) && c < |fields| && IsActive(mask, c)
    ensures Place(w, mask, c) + w <= |bytes|
    ensures bytes[Place(w, mask, c)..Place(w, mask, c) + w] == fields[c]
    decreases |fields|
  {
    PlaceMono(w, mask, c, |fields|);
    var n := |fields| - 1;
    var before := Packed(w, mask, fields[..n]);
    var last := if IsActive(mask, n) then fields[n] else [];
    if c < n {
      PackedAt(w, mask, fields[..n], before, c);
      InFront(bytes, before, last, Place(w, mask, c), w);
    } else {
      AtEnd(bytes, before, last, Place(w, mask, c));
    }
  }

  /** What the chip's bus delivers for the first n channels. */
  function SectionBytes(kind: Kind, mask: Byte, n: nat, bi: seq<bool>, vals: seq<int>): (bytes: seq<Byte>)
    requires n <= |vals| == |bi| && forall c :: 0 <= c < n ==> InRange(kind, bi[c], vals[c])
    ensures |bytes| == Place(Width(kind), mask, n)
  {
    Packed(Width(kind), mask, seq(n, c requires 0 <= c < n => Encoded(kind, bi[c], vals[c])))
  }

  /** The bytes of channel c in a section at this offset. */
  function FieldAt(kind: Kind, mask: Byte, regs: seq<Byte>, offset: nat, c: nat): seq<Byte>
    requires offset + Place(Width(kind), mask, c) + Width(kind) <= |regs|
  {
    var at := offset + Place(Width(kind), mask, c);
    regs[at..at + Width(kind)]
  }

  /** A section of the buffer holds n channels. */
  predicate HoldsSection(kind: Kind, mask: Byte, n: nat, regs: seq<Byte>, offset: nat) {
    offset + Place(Width(kind), mask, n) <= |regs|
  }

  lemma FieldFits(kind: Kind, mask: Byte, n: nat, regs: seq<Byte>, offset: nat, c: nat)
    requires HoldsSection(kind, mask, n, regs, offset) && c < n && IsActive(mask, c)
    ensures offset + Place(Width(kind), mask, c) + Width(kind) <= |regs|
  {
    PlaceMono(Width(kind), mask, c, n);
  }

  /** The driver's array after reading a section. */
  function Section(kind: Kind, mask: Byte, n: nat, bi: seq<bool>, regs: seq<Byte>, offset: nat, was: seq<int>)
      : (vals: seq<int>)
    requires n <= |was| == |bi| && HoldsSection(kind, mask, n, regs, offset)
    ensures |vals| == |was|
  {
    seq(|was|, c requires 0 <= c < |was| =>
      if c < n && IsActive(mask, c) then
        FieldFits(kind, mask, n, regs, offset, c);
        Decoded(kind, bi[c], FieldAt(kind, mask, regs, offset, c))
      else was[c])
  }

  lemma InFront(s: seq<Byte>, t: seq<Byte>, u: seq<Byte>, a: nat, w: nat)
    requires s == t + u && a + w <= |t|
    ensures s[a..a + w] == t[a..a + w]
  {
  }

  lemma AtEnd(s: seq<Byte>, t: seq<Byte>, u: seq<Byte>, a: nat)
    requires s == t + u && a == |t|
    ensures s[a..a + |u|] == u
  {
  }

  lemma SectionBytesAt(kind: Kind, mask: Byte, n: nat, bi: seq<bool>, vals: seq<int>, bytes: seq<Byte>, c: nat)
    requires n <= |vals| == |bi| && forall k :: 0 <= k < n ==> InRange(kind, bi[k], vals[k])
    requires bytes == SectionBytes(kind, mask, n, bi, vals) && c < n && IsActive(mask, c)
    ensures Place(Width(kind), mask, c) + Width(kind) <= |bytes|
    ensures FieldAt(kind, mask, bytes, 0, c) == Encoded(kind, bi[c], vals[c])
  {
    var fields := seq(n, k requires 0 <= k < n => Encoded(kind, bi[k], vals[k]));
    PackedAt(Width(kind), mask, fields, bytes, c);
  }

  /** Active channels from the chip, disabled channels as they were. */
  function Merged(mask: Byte, n: nat, vals: seq<int>, was: seq<int>): (m: seq<int>)
    requires n <= |vals| == |was|
    ensures |m| == |was|
  {
    seq(|was|, c requires 0 <= c < |was| => if c < n && IsActive(mask, c) then vals[c] else was[c])
  }

  predicate SectionReadable(kind: Kind, mask: Byte, n: nat, bi: seq<bool>, vals: seq<int>)
    requires n <= |vals| == |bi|
  {
    forall c :: 0 <= c < n && IsActive(mask, c) ==> Readable(kind, bi[c], vals[c])
  }

  /** Reading a section that the chip has sent gives the chip's values, exactly when they are readable. */
  lemma SectionRoundTrip(kind: Kind, mask: Byte, n: nat, bi: seq<bool>, vals: seq<int>, was: seq<int>,
                         regs: seq<Byte>, offset: nat, bytes: seq<Byte>)
    requires n <= |vals| == |bi| == |was| && forall k :: 0 <= k < n ==> InRange(kind, bi[k], vals[k])
    requires bytes == SectionBytes(kind, mask, n, bi, vals)
    requires offset + |bytes| <= |regs| && regs[offset..offset + |bytes|] == bytes
    ensures HoldsSection(kind, mask, n, regs, offset)
    ensures Section(kind, mask, n, bi, regs, offset, was) == Merged(mask, n, vals, was)
       <==> SectionReadable(kind, mask, n, bi, vals)
  {
    var got := Section(kind, mask, n, bi, regs, offset, was);
    forall c | 0 <= c < n && IsActive(mask, c)
      ensures got[c] == vals[c] <==> Readable(kind, bi[c], vals[c])
    {
      SectionBytesAt(kind, mask, n, bi, vals, bytes, c);
      FieldShift(kind, mask, regs, offset, bytes, c);
      FieldRoundTrip(kind, bi[c], vals[c], FieldAt(kind, mask, bytes, 0, c));
    }
    var want := Merged(mask, n, vals, was);
    forall c | 0 <= c < |was| && !(c < n && IsActive(mask, c)) ensures got[c] == want[c] {
    }
    if SectionReadable(kind, mask, n, bi, vals) { assert got == want; }
    if got == want {
      forall c | 0 <= c < n && IsActive(mask, c) ensures Readable(kind, bi[c], vals[c]) {
        assert got[c] == want[c];
      }
    }
  }

  lemma SliceOfSlice(s: seq<Byte>, t: seq<Byte>, i: nat, n: nat, a: nat, w: nat)
    requires i + n <= |s| && a + w <= n && t == s[i..i + n]
    ensures t[a..a + w] == s[i + a..i + a + w]
  {
    var u, v := t[a..a + w], s[i + a..i + a + w];
    forall k | 0 <= k < w ensures u[k] == v[k] {
      assert t[a + k] == s[i + (a + k)];
    }
  }

  lemma FieldShift(kind: Kind, mask: Byte, regs: seq<Byte>, offset: nat, bytes: seq<Byte>, c: nat)
    requires offset + |bytes| <= |regs| && regs[offset..offset + |bytes|] == bytes
    requires Place(Width(kind), mask, c) + Width(kind) <= |bytes|
    ensures FieldAt(kind, mask, regs, offset, c) == FieldAt(kind, mask, bytes, 0, c)
  {
    SliceOfSlice(regs, bytes, offset, |bytes|, Place(Width(kind), mask, c), Width(kind));
  }

  /** The field of an active channel, by its place. */
  lemma SectionActive(kind: Kind, mask: Byte, n: nat, bi: seq<bool>, regs: seq<Byte>, offset: nat, was: seq<int>,
                      c: nat, at: nat)
    requires n <= |was| == |bi| && HoldsSection(kind, mask, n, regs, offset)
    requires c < n && IsActive(mask, c) && at == offset + Place(Width(kind), mask, c)
    ensures at + Width(kind) <= |regs|
    ensures Section(kind, mask, n, bi, regs, offset, was)[c] == Decoded(kind, bi[c], regs[at..at + Width(kind)])
  {
    FieldFits(kind, mask, n, regs, offset, c);
  }

  /** One of the plain per-channel loops of pac193x_reg_snapshot. */
  method ReadFields(kind: Kind, mask: Byte, n: nat, bi: seq<bool>, regs: seq<Byte>, offset: nat, was: seq<int>)
      returns (next: nat, vals: seq<int>)
    requires n <= |was| == |bi| && HoldsSection(kind, mask, n, regs, offset)
    ensures next == offset + Place(Width(kind), mask, n)
    ensures vals == Section(kind, mask, n, bi, regs, offset, was)
  {
    next, vals := offset, was;
    var cnt := 0;
    while cnt < n
      invariant cnt <= n && |vals| == |was|
      invariant next == offset + Place(Width(kind), mask, cnt)
      invariant forall c :: 0 <= c < cnt ==> vals[c] == Section(kind, mask, n, bi, regs, offset, was)[c]
      invariant forall c :: cnt <= c < |was| ==> vals[c] == was[c]
    {
      if IsActive(mask, cnt) {
        SectionActive(kind, mask, n, bi, regs, offset, was, cnt, next);
        vals := vals[cnt := Decoded(kind, bi[cnt], regs[next..next + Width(kind)])];
        next := next + Width(kind);
      }
      cnt := cnt + 1;
    }
  }

  // ---------------------------------------------------------------------------
  // The whole snapshot
  // ---------------------------------------------------------------------------

  /** The sections in the order of the registers: VPOWER_ACC, VBUS, VSENSE, VBUS_AVG, VSENSE_AVG, VPOWER. */
  const SECTIONS: seq<Kind> := [Energy, Bus, Sense, Bus, Sense, Power]

  function SectionStart(mask: Byte, n: nat, s: nat): nat
    requires s <= 6
  {
    var sixes, twos, fours := Place(6, mask, n), Place(2, mask, n), Place(4, mask, n);
    ACC_COUNT_LEN + (if s > 0 then sixes else 0) + (if s > 1 then twos else 0) + (if s > 2 then twos else 0)
    + (if s > 3 then twos else 0) + (if s > 4 then twos else 0) + (if s > 5 then fours else 0)
  }

  lemma {:induction false} PlaceBound(w: nat, mask: Byte, n: nat)
    ensures Place(w, mask, n) <= n * w
  {
    if n > 0 {
      PlaceBound(w, mask, n - 1);
      assert n * w == (n - 1) * w + w;
    }
  }

  lemma SectionBounds(mask: Byte, n: nat)
    requires n <= MAX_CHANNELS
    ensures Place(6, mask, n) <= 24 && Place(2, mask, n) <= 8 && Place(4, mask, n) <= 16
  {
    PlaceBound(6, mask, n);
    PlaceBound(2, mask, n);
    PlaceBound(4, mask, n);
  }

  /** The parser stays within the first 75 bytes, for every mask. */
  lemma StaysInside(mask: Byte, n: nat, s: nat, kind: Kind)
    requires n <= MAX_CHANNELS && s < 6 && kind == SECTIONS[s]
    ensures SectionStart(mask, n, s) + Place(Width(kind), mask, n) == SectionStart(mask, n, s + 1)
    ensures SectionStart(mask, n, s + 1) <= 75
  {
    SectionBounds(mask, n);
  }

  /** Section s as the parser leaves it. */
  function ParsedSection(s: nat, mask: Byte, n: nat, bi: seq<bool>, regs: seq<Byte>, was: seq<int>): (vals: seq<int>)
    requires s < 6 && n <= MAX_CHANNELS && |bi| == |was| == MAX_CHANNELS && |regs| == SNAPSHOT_LEN
    ensures |vals| == MAX_CHANNELS
  {
    StaysInside(mask, n, s, SECTIONS[s]);
    Section(SECTIONS[s], mask, n, bi, regs, SectionStart(mask, n, s), was)
  }

  /** Read section s, which starts at this offset. */
  method ReadSection(s: nat, kind: Kind, mask: Byte, n: nat, bi: seq<bool>, regs: seq<Byte>, offset: nat, was: seq<int>)
      returns (next: nat, vals: seq<int>)
    requires s < 6 && kind == SECTIONS[s] && n <= MAX_CHANNELS && |bi| == |was| == MAX_CHANNELS
    requires |regs| == SNAPSHOT_LEN
    requires offset == SectionStart(mask, n, s)
    ensures next == SectionStart(mask, n, s + 1)
    ensures vals == ParsedSection(s, mask, n, bi, regs, was)
  {
    StaysInside(mask, n, s, kind);
    next, vals := ReadFields(kind, mask, n, bi, regs, offset, was);
  }

  /** What a chip reports: the number of samples and the six fields of each channel. */
  datatype Frame = Frame(count: nat, vals: seq<seq<int>>)

  ghost predicate ValidFrame(f: Frame, n: nat, bi: seq<bool>) {
    && n <= MAX_CHANNELS == |bi| && |f.vals| == 6 && f.count < 0x100_0000
    && forall s :: 0 <= s < 6 ==> ValidSection(SECTIONS[s], f.vals[s], n, bi)
  }

  predicate ValidSection(kind: Kind, vals: seq<int>, n: nat, bi: seq<bool>)
    requires n <= MAX_CHANNELS == |bi|
  {
    |vals| == MAX_CHANNELS && forall c :: 0 <= c < n ==> InRange(kind, bi[c], vals[c])
  }

  /** The first k sections on the bus. */
  ghost function Body(f: Frame, mask: Byte, n: nat, bi: seq<bool>, k: nat): (bytes: seq<Byte>)
    requires ValidFrame(f, n, bi) && k <= 6
    ensures |bytes| == SectionStart(mask, n, k)
  {
    if k == 0 then ToBe(f.count, ACC_COUNT_LEN)
    else Body(f, mask, n, bi, k - 1) + SectionBytes(SECTIONS[k - 1], mask, n, bi, f.vals[k - 1])
  }

  /** A snapshot buffer that starts with what the chip sent. */
  ghost predicate Sent(f: Frame, mask: Byte, n: nat, bi: seq<bool>, regs: seq<Byte>) {
    && ValidFrame(f, n, bi) && |regs| == SNAPSHOT_LEN && Body(f, mask, n, bi, 6) <= regs
  }

  lemma {:induction false} BodyPrefix(f: Frame, mask: Byte, n: nat, bi: seq<bool>, j: nat, k: nat)
    requires ValidFrame(f, n, bi) && j <= k <= 6
    ensures Body(f, mask, n, bi, j) <= Body(f, mask, n, bi, k)
    decreases k
  {
    if j < k { BodyPrefix(f, mask, n, bi, j, k - 1); }
  }

  lemma Piece(regs: seq<Byte>, body: seq<Byte>, before: seq<Byte>, bytes: seq<Byte>)
    requires body <= regs && body == before + bytes
    ensures |before| + |bytes| <= |regs| && regs[|before|..|before| + |bytes|] == bytes
  {
    AtEnd(body, before, bytes, |before|);
    InFront(regs, body, regs[|body|..], |before|, |bytes|);
  }

  lemma BodyStep(f: Frame, mask: Byte, n: nat, bi: seq<bool>, s: nat, kind: Kind, vals: seq<int>)
    requires ValidFrame(f, n, bi) && s < 6 && kind == SECTIONS[s] && vals == f.vals[s]
    ensures Body(f, mask, n, bi, s + 1) == Body(f, mask, n, bi, s) + SectionBytes(kind, mask, n, bi, vals)
  {
  }

  lemma SectionIsSent(f: Frame, mask: Byte, n: nat, bi: seq<bool>, regs: seq<Byte>, s: nat, offset: nat,
                      bytes: seq<Byte>)
    requires Sent(f, mask, n, bi, regs) && s < 6
    requires offset == SectionStart(mask, n, s) && bytes == SectionBytes(SECTIONS[s], mask, n, bi, f.vals[s])
    ensures offset + |bytes| <= |regs| && regs[offset..offset + |bytes|] == bytes
  {
    BodyPrefix(f, mask, n, bi, s + 1, 6);
    BodyStep(f, mask, n, bi, s, SECTIONS[s], f.vals[s]);
    Piece(regs, Body(f, mask, n, bi, s + 1), Body(f, mask, n, bi, s), bytes);
  }

  /** Parsing what a chip has sent gives back its values on every active channel and leaves the
      disabled ones alone: for every mask, every prior content and every section, exactly when the
      values are readable. */
  lemma SnapshotRoundTrip(f: Frame, mask: Byte, n: nat, bi: seq<bool>, regs: seq<Byte>, s: nat, was: seq<int>)
    requires Sent(f, mask, n, bi, regs) && s < 6 && |was| == MAX_CHANNELS
    ensures ParsedSection(s, mask, n, bi, regs, was) == Merged(mask, n, f.vals[s], was)
       <==> SectionReadable(SECTIONS[s], mask, n, bi, f.vals[s])
  {
    StaysInside(mask, n, s, SECTIONS[s]);
    var offset, bytes := SectionStart(mask, n, s), SectionBytes(SECTIONS[s], mask, n, bi, f.vals[s]);
    SectionIsSent(f, mask, n, bi, regs, s, offset, bytes);
    SectionRoundTrip(SECTIONS[s], mask, n, bi, f.vals[s], was, regs, offset, bytes);
  }

  /** The sample count comes back as well. */
  lemma CountRoundTrip(f: Frame, mask: Byte, n: nat, bi: seq<bool>, regs: seq<Byte>)
    requires Sent(f, mask, n, bi, regs)
    ensures Be(regs[..ACC_COUNT_LEN]) == f.count
  {
    BodyPrefix(f, mask, n, bi, 0, 6);
    assert regs[..ACC_COUNT_LEN] == ToBe(f.count, ACC_COUNT_LEN);
    Spans();
    BeOfToBe(f.count, ACC_COUNT_LEN);
  }

  // ---------------------------------------------------------------------------
  // The snapshot in bytes
  // ---------------------------------------------------------------------------

  /** How many of the first k channels are active. */
  function Active(mask: Byte, k: nat): nat {
    if k == 0 then 0 else Active(mask, k - 1) + if IsActive(mask, k - 1) then 1 else 0
  }

  lemma {:induction false} Places(mask: Byte, k: nat, active: nat)
    requires active == Active(mask, k)
    ensures Place(6, mask, k) == 6 * active && Place(2, mask, k) == 2 * active && Place(4, mask, k) == 4 * active
  {
    if k > 0 { Places(mask, k - 1, Active(mask, k - 1)); }
  }

  /** Two's complement of 16, 48 or 4 bits. */
  function Extended(u: nat, half: nat): int {
    if u >= half then u - 2 * half else u
  }

  lemma ParsedAt(s: nat, kind: Kind, mask: Byte, n: nat, bi: seq<bool>, regs: seq<Byte>, was: seq<int>, c: nat, at: nat)
    requires s < 6 && kind == SECTIONS[s] && c < n <= MAX_CHANNELS == |bi| == |was| && |regs| == SNAPSHOT_LEN
    requires IsActive(mask, c) && at == SectionStart(mask, n, s) + Place(Width(kind), mask, c)
    ensures at + Width(kind) <= |regs|
    ensures ParsedSection(s, mask, n, bi, regs, was)[c] == Decoded(kind, bi[c], regs[at..at + Width(kind)])
  {
    StaysInside(mask, n, s, kind);
    SectionActive(kind, mask, n, bi, regs, SectionStart(mask, n, s), was, c, at);
  }

  lemma TwoBytes(b: seq<Byte>)
    requires |b| == 2
    ensures Be(b) == b[0] as int * 256 + b[1] as int
  {
    assert Be(b[..1]) == b[0] by { assert b[..1][..0] == []; }
  }

  lemma EnergyField(bi: bool, b: seq<Byte>, u: nat)
    requires |b| == 6 && u == Be(b)
    ensures Decoded(Energy, bi, b) == if bi then Extended(u, 0x8000_0000_0000) else u
  {
    BeBound(b);
    Spans();
    DivUnique(u, TWO48, 0, u);
  }

  lemma {:induction false} BeBound(b: seq<Byte>)
    ensures Be(b) < Span(|b|)
  {
    if b != [] { BeBound(b[..|b| - 1]); }
  }

  lemma VoltageField(kind: Kind, bi: bool, b: seq<Byte>, u: nat)
    requires |b| == 2 && u == b[0] as int * 256 + b[1] as int && kind in {Bus, Sense}
    ensures Decoded(kind, bi, b) == if kind == Sense && bi then Extended(u, 0x8000) else u
  {
    TwoBytes(b);
    DivUnique(u, TWO16, 0, u);
  }

  lemma PowerField(bi: bool, b: seq<Byte>, u: nat)
    requires |b| == 4 && u == b[0] as int * 0x10_0000 + b[1] as int * 0x1000 + b[2] as int * 16 + b[3] / 16
    ensures Decoded(Power, bi, b) == if bi then Extended(u % 16, 8) else u
  {
    PowerMacro(b);
  }

  /** Where each value of an active channel comes from, by byte numbers: all active channels' accumulated powers at 3,
      then their voltages, sense voltages, the averages of both, and powers, with only active channels in between. */
  lemma SnapshotInBytes(mask: Byte, n: nat, bi: seq<bool>, regs: seq<Byte>, was: seq<int>, c: nat, all: nat,
                        before: nat, acc: nat, bus: nat, sense: nat, busAvg: nat, senseAvg: nat, power: nat)
    requires c < n <= MAX_CHANNELS == |bi| == |was| && |regs| == SNAPSHOT_LEN && IsActive(mask, c)
    requires all == Active(mask, n) && before == Active(mask, c)
    requires acc == 3 + 6 * before && bus == 3 + 6 * all + 2 * before && sense == 3 + 8 * all + 2 * before
    requires busAvg == 3 + 10 * all + 2 * before && senseAvg == 3 + 12 * all + 2 * before
    requires power == 3 + 14 * all + 4 * before
    ensures before < all && acc + 6 <= bus && power + 4 <= 75 && bus < sense < busAvg < senseAvg < power
    ensures ParsedSection(0, mask, n, bi, regs, was)[c] == AccumulatedAt(regs, acc, bi[c])
    ensures ParsedSection(1, mask, n, bi, regs, was)[c] == VoltageAt(regs, bus, false)
    ensures ParsedSection(2, mask, n, bi, regs, was)[c] == VoltageAt(regs, sense, bi[c])
    ensures ParsedSection(3, mask, n, bi, regs, was)[c] == VoltageAt(regs, busAvg, false)
    ensures ParsedSection(4, mask, n, bi, regs, was)[c] == VoltageAt(regs, senseAvg, bi[c])
    ensures ParsedSection(5, mask, n, bi, regs, was)[c] == PowerAt(regs, power, bi[c])
  {
    Starts(mask, n, all);
    Places(mask, c, before);
    ActiveBelow(mask, c, n);
    AccumulatedParsed(mask, n, bi, regs, was, c, acc);
    VoltageParsed(1, Bus, mask, n, bi, regs, was, c, bus, false);
    VoltageParsed(2, Sense, mask, n, bi, regs, was, c, sense, bi[c]);
    VoltageParsed(3, Bus, mask, n, bi, regs, was, c, busAvg, false);
    VoltageParsed(4, Sense, mask, n, bi, regs, was, c, senseAvg, bi[c]);
    PowerParsed(mask, n, bi, regs, was, c, power);
  }

  lemma Starts(mask: Byte, n: nat, all: nat)
    requires n <= MAX_CHANNELS && all == Active(mask, n)
    ensures SectionStart(mask, n, 0) == 3 && SectionStart(mask, n, 1) == 3 + 6 * all
    ensures SectionStart(mask, n, 2) == 3 + 8 * all && SectionStart(mask, n, 3) == 3 + 10 * all
    ensures SectionStart(mask, n, 4) == 3 + 12 * all && SectionStart(mask, n, 5) == 3 + 14 * all
  {
    Places(mask, n, all);
  }

  lemma {:induction false} ActiveBelow(mask: Byte, c: nat, n: nat)
    requires c < n && IsActive(mask, c)
    ensures Active(mask, c) < Active(mask, n) <= n
    decreases n
  {
    if c < n - 1 { ActiveBelow(mask, c, n - 1); } else { ActiveBound(mask, c); }
  }

  lemma {:induction false} ActiveBound(mask: Byte, n: nat)
    ensures Active(mask, n) <= n
  {
    if n > 0 { ActiveBound(mask, n - 1); }
  }

  lemma AccumulatedParsed(mask: Byte, n: nat, bi: seq<bool>, regs: seq<Byte>, was: seq<int>, c: nat, at: nat)
    requires c < n <= MAX_CHANNELS == |bi| == |was|
    requires |regs| == SNAPSHOT_LEN && IsActive(mask, c) && at == SectionStart(mask, n, 0) + Place(6, mask, c)
    ensures at + 6 <= |regs|
    ensures ParsedSection(0, mask, n, bi, regs, was)[c] == AccumulatedAt(regs, at, bi[c])
  {
    ParsedAt(0, Energy, mask, n, bi, regs, was, c, at);
    EnergyField(bi[c], regs[at..at + 6], Be(regs[at..at + 6]));
  }

  /** A 48-bit number, high byte first. */
  function AccumulatedAt(regs: seq<Byte>, at: nat, signed: bool): int
    requires at + 6 <= |regs|
  {
    var u := Be(regs[at..at + 6]);
    if signed then Extended(u, 0x8000_0000_0000) else u
  }

  /** A 16-bit number. */
  function VoltageAt(regs: seq<Byte>, at: nat, signed: bool): int
    requires at + 2 <= |regs|
  {
    var u := regs[at] as int * 256 + regs[at + 1] as int;
    if signed then Extended(u, 0x8000) else u
  }

  /** A 28-bit number, of which the driver keeps only four bits when it is signed. */
  function PowerAt(regs: seq<Byte>, at: nat, signed: bool): int
    requires at + 4 <= |regs|
  {
    var u := regs[at] as int * 0x10_0000 + regs[at + 1] as int * 0x1000 + regs[at + 2] as int * 16 + regs[at + 3] / 16;
    if signed then Extended(u % 16, 8) else u
  }

  lemma VoltageParsed(s: nat, kind: Kind, mask: Byte, n: nat, bi: seq<bool>, regs: seq<Byte>, was: seq<int>, c: nat,
                      at: nat, signed: bool)
    requires s < 6 && kind == SECTIONS[s] && kind in {Bus, Sense} && c < n <= MAX_CHANNELS == |bi| == |was|
    requires |regs| == SNAPSHOT_LEN && IsActive(mask, c) && at == SectionStart(mask, n, s) + Place(2, mask, c)
    requires signed == (kind == Sense && bi[c])
    ensures at + 2 <= |regs|
    ensures ParsedSection(s, mask, n, bi, regs, was)[c] == VoltageAt(regs, at, signed)
  {
    ParsedAt(s, kind, mask, n, bi, regs, was, c, at);
    VoltageField(kind, bi[c], regs[at..at + 2], regs[at] as int * 256 + regs[at + 1] as int);
  }

  lemma PowerParsed(mask: Byte, n: nat, bi: seq<bool>, regs: seq<Byte>, was: seq<int>, c: nat, at: nat)
    requires c < n <= MAX_CHANNELS == |bi| == |was|
    requires |regs| == SNAPSHOT_LEN && IsActive(mask, c) && at == SectionStart(mask, n, 5) + Place(4, mask, c)
    ensures at + 4 <= |regs|
    ensures ParsedSection(5, mask, n, bi, regs, was)[c] == PowerAt(regs, at, bi[c])
  {
    ParsedAt(5, Power, mask, n, bi, regs, was, c, at);
    PowerField(bi[c], regs[at..at + 4],
      regs[at] as int * 0x10_0000 + regs[at + 1] as int * 0x1000 + regs[at + 2] as int * 16 + regs[at + 3] / 16);
  }

  // ---------------------------------------------------------------------------
  // Energy
  // ---------------------------------------------------------------------------

  /** log2 of the sampling rate that the top two bits of CTRL_LAT select. */
  function SampShift(ctrlLat: Byte): nat {
    match ctrlLat / 64
    case 0 => 10
    case 1 => 8
    case 2 => 6
    case _ => 3
  }

  /** The samples a second that the register field stands for. */
  function Rate(ctrlLat: Byte): (rate: nat)
    ensures rate > 0
  {
    if ctrlLat < 0x40 then 1024 else if ctrlLat < 0x80 then 256 else if ctrlLat < 0xC0 then 64 else 8
  }

  lemma ShiftIsRate(ctrlLat: Byte)
    ensures Pow2(SampShift(ctrlLat)) == Rate(ctrlLat)
  {
    assert Pow2(3) == 8;
    assert Pow2(6) == 8 * Pow2(3);
    assert Pow2(8) == 4 * Pow2(6);
    assert Pow2(10) == 4 * Pow2(8);
  }

  /** One refresh's contribution: accumulated power times sample count, scaled to a second. */
  function Contribution(acc: int, count: nat, shift: nat): int {
    S64(acc * count) / Pow2(shift)
  }

  function EnergyAfter(energy: seq<int>, mask: Byte, n: nat, acc: seq<int>, count: nat, shift: nat): (e: seq<int>)
    requires |energy| == |acc| == MAX_CHANNELS && n <= MAX_CHANNELS
    ensures |e| == MAX_CHANNELS
  {
    seq(MAX_CHANNELS, c requires 0 <= c < MAX_CHANNELS =>
      if c < n && IsActive(mask, c) then S64(energy[c] + Contribution(acc[c], count, shift)) else energy[c])
  }

  ghost predicate AddedByRate(energy: seq<int>, mask: Byte, n: nat, acc: seq<int>, count: nat, ctrlLat: Byte,
                              after: seq<int>)
  {
    && |energy| == |acc| == |after| == MAX_CHANNELS && n <= MAX_CHANNELS
    && (forall c :: 0 <= c < n && IsActive(mask, c) ==>
          after[c] == S64(energy[c] + S64(acc[c] * count) / Rate(ctrlLat)))
    && (forall c :: 0 <= c < MAX_CHANNELS && !(c < n && IsActive(mask, c)) ==> after[c] == energy[c])
  }

  /** What one refresh adds to the energies: accumulated power times sample count, divided by the sampling rate. */
  lemma EnergyByRate(energy: seq<int>, mask: Byte, n: nat, acc: seq<int>, count: nat, ctrlLat: Byte, after: seq<int>)
    requires |energy| == |acc| == MAX_CHANNELS && n <= MAX_CHANNELS
    requires after == EnergyAfter(energy, mask, n, acc, count, SampShift(ctrlLat))
    ensures AddedByRate(energy, mask, n, acc, count, ctrlLat, after)
  {
    ShiftIsRate(ctrlLat);
  }

  lemma EnergyStep(energy: seq<int>, mask: Byte, n: nat, acc: seq<int>, count: nat, shift: nat, e: seq<int>)
    requires |energy| == |acc| == MAX_CHANNELS && n < MAX_CHANNELS
    requires e == EnergyAfter(energy, mask, n, acc, count, shift) && IsActive(mask, n)
    ensures EnergyAfter(energy, mask, n + 1, acc, count, shift)
         == e[n := S64(e[n] + Contribution(acc[n], count, shift))]
  {
  }

  lemma EnergySkip(energy: seq<int>, mask: Byte, n: nat, acc: seq<int>, count: nat, shift: nat)
    requires |energy| == |acc| == MAX_CHANNELS && n < MAX_CHANNELS && !IsActive(mask, n)
    ensures EnergyAfter(energy, mask, n + 1, acc, count, shift) == EnergyAfter(energy, mask, n, acc, count, shift)
  {
  }

  class RegData {
    var accCount: nat
    var energySecAcc: seq<int>
    var vpowerAcc: seq<int>
    var vbus: seq<int>
    var vsense: seq<int>
    var vbusAvg: seq<int>
    var vsenseAvg: seq<int>
    var vpower: seq<int>

    predicate Valid()
      reads this
    {
      && |energySecAcc| == |vpowerAcc| == |vbus| == |vsense| == MAX_CHANNELS
      && |vbusAvg| == |vsenseAvg| == |vpower| == MAX_CHANNELS
    }

    constructor ()
      ensures Valid() && energySecAcc == [0, 0, 0, 0]
    {
      accCount := 0;
      energySecAcc, vpowerAcc, vbus, vsense := [0, 0, 0, 0], [0, 0, 0, 0], [0, 0, 0, 0], [0, 0, 0, 0];
      vbusAvg, vsenseAvg, vpower := [0, 0, 0, 0], [0, 0, 0, 0], [0, 0, 0, 0];
    }

    /** pac193x_reg_snapshot after the bytes have arrived. */
    method RegSnapshot(ctrl: seq<Byte>, regs: seq<Byte>, n: nat, bi: seq<bool>)
      requires Valid() && |ctrl| == 12 && |regs| == SNAPSHOT_LEN && n <= MAX_CHANNELS == |bi|
      modifies this
      ensures Valid()
      ensures accCount == Be(regs[..ACC_COUNT_LEN])
      ensures vpowerAcc == ParsedSection(0, ctrl[7], n, bi, regs, old(vpowerAcc))
      ensures vbus == ParsedSection(1, ctrl[7], n, bi, regs, old(vbus))
      ensures vsense == ParsedSection(2, ctrl[7], n, bi, regs, old(vsense))
      ensures vbusAvg == ParsedSection(3, ctrl[7], n, bi, regs, old(vbusAvg))
      ensures vsenseAvg == ParsedSection(4, ctrl[7], n, bi, regs, old(vsenseAvg))
      ensures vpower == ParsedSection(5, ctrl[7], n, bi, regs, old(vpower))
      ensures energySecAcc == EnergyAfter(old(energySecAcc), ctrl[7], n, vpowerAcc, accCount, SampShift(ctrl[6]))
      ensures AddedByRate(old(energySecAcc), ctrl[7], n, vpowerAcc, accCount, ctrl[6], energySecAcc)
    {
      ghost var energy := energySecAcc;
      var mask := ctrl[7];
      var offset := 0;
      accCount := Be(regs[offset..offset + ACC_COUNT_LEN]);
      offset := offset + ACC_COUNT_LEN;
      offset := ReadEnergies(mask, n, bi, regs, offset, SampShift(ctrl[6]));
      offset, vbus := ReadSection(1, Bus, mask, n, bi, regs, offset, vbus);
      offset, vsense := ReadSection(2, Sense, mask, n, bi, regs, offset, vsense);
      offset, vbusAvg := ReadSection(3, Bus, mask, n, bi, regs, offset, vbusAvg);
      offset, vsenseAvg := ReadSection(4, Sense, mask, n, bi, regs, offset, vsenseAvg);
      offset, vpower := ReadSection(5, Power, mask, n, bi, regs, offset, vpower);
      EnergyByRate(energy, mask, n, vpowerAcc, accCount, ctrl[6], energySecAcc);
    }

    method AddEnergy(cnt: nat, shift: nat, ghost energy: seq<int>, ghost mask: Byte, ghost acc: seq<int>)
      requires Valid() && cnt < MAX_CHANNELS == |energy| == |acc| && IsActive(mask, cnt) && vpowerAcc[cnt] == acc[cnt]
      requires energySecAcc == EnergyAfter(energy, mask, cnt, acc, accCount, shift)
      modifies this`energySecAcc
      ensures energySecAcc == EnergyAfter(energy, mask, cnt + 1, acc, accCount, shift)
    {
      EnergyStep(energy, mask, cnt, acc, accCount, shift, energySecAcc);
      energySecAcc := energySecAcc[cnt := S64(energySecAcc[cnt] + Contribution(vpowerAcc[cnt], accCount, shift))];
    }

    /** The first loop: VPOWER_ACC, and the energy that it adds. */
    method ReadEnergies(mask: Byte, n: nat, bi: seq<bool>, regs: seq<Byte>, offset: nat, shift: nat) returns (next: nat)
      requires Valid() && n <= MAX_CHANNELS == |bi| && |regs| == SNAPSHOT_LEN && offset == SectionStart(mask, n, 0)
      modifies this`vpowerAcc, this`energySecAcc
      ensures Valid()
      ensures next == SectionStart(mask, n, 1)
      ensures vpowerAcc == ParsedSection(0, mask, n, bi, regs, old(vpowerAcc))
      ensures energySecAcc == EnergyAfter(old(energySecAcc), mask, n, vpowerAcc, accCount, shift)
    {
      StaysInside(mask, n, 0, Energy);
      ghost var was, energy := vpowerAcc, energySecAcc;
      ghost var goal := Section(Energy, mask, n, bi, regs, offset, was);
      next := offset;
      var cnt := 0;
      while cnt < n
        invariant cnt <= n && next == offset + Place(Width(Energy), mask, cnt)
        invariant ReadSoFar(cnt, mask, shift, goal, was, energy)
      {
        next := ReadEnergy(cnt, mask, n, bi, regs, offset, next, shift, goal, was, energy);
        cnt := cnt + 1;
      }
      assert vpowerAcc == goal;
    }

    /** The first loop after cnt rounds. */
    ghost predicate ReadSoFar(cnt: nat, mask: Byte, shift: nat, goal: seq<int>, was: seq<int>, energy: seq<int>)
      reads this
    {
      && Valid() && cnt <= MAX_CHANNELS == |goal| == |was| == |energy|
      && (forall c :: 0 <= c < cnt ==> vpowerAcc[c] == goal[c])
      && (forall c :: cnt <= c < MAX_CHANNELS ==> vpowerAcc[c] == was[c])
      && energySecAcc == EnergyAfter(energy, mask, cnt, goal, accCount, shift)
    }

    /** One round of it. */
    method ReadEnergy(cnt: nat, mask: Byte, n: nat, bi: seq<bool>, regs: seq<Byte>, offset: nat, at: nat, shift: nat,
                      ghost goal: seq<int>, ghost was: seq<int>, ghost energy: seq<int>)
        returns (next: nat)
      requires cnt < n <= MAX_CHANNELS == |bi| == |was| && HoldsSection(Energy, mask, n, regs, offset)
      requires at == offset + Place(Width(Energy), mask, cnt)
      requires goal == Section(Energy, mask, n, bi, regs, offset, was)
      requires ReadSoFar(cnt, mask, shift, goal, was, energy)
      modifies this`vpowerAcc, this`energySecAcc
      ensures next == offset + Place(Width(Energy), mask, cnt + 1)
      ensures ReadSoFar(cnt + 1, mask, shift, goal, was, energy)
    {
      next := at;
      if IsActive(mask, cnt) {
        SectionActive(Energy, mask, n, bi, regs, offset, was, cnt, next);
        vpowerAcc := vpowerAcc[cnt := Decoded(Energy, bi[cnt], regs[next..next + Width(Energy)])];
        next := next + Width(Energy);
        AddEnergy(cnt, shift, energy, mask, goal);
      } else {
        EnergySkip(energy, mask, cnt, goal, accCount, shift);
      }
    }
  }
}
