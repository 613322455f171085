/**
  The 2 KB OTP as a two-ended log: configuration data grows up from byte 2, 8-byte
  "IDX" headers grow down from byte 2048.
 */
module OtpLayout {
  import opened Bits
  import opened Options

  const OTP_SIZE: nat := 2048
  const DATA_START: nat := 2
  const HEADER_SIZE: nat := 8
  const MAX_FIELD: nat := 0x0800

  type Cells = m: seq<Byte> | |m| == OTP_SIZE witness seq(OTP_SIZE, _ => 0)

  /** A decoded header: where the data lies, how long it is, and its stored checksum. */
  datatype Record = Record(offset: nat, length: nat, checksum: Byte)

  /** Offset of the k-th header, counted down from the end of the memory. */
  function Slot(k: nat): int { OTP_SIZE - HEADER_SIZE * (k + 1) }

  predicate IsHeader(m: Cells, at: int)
    requires 0 <= at <= OTP_SIZE - HEADER_SIZE
  {
    m[at] == 'I' as int && m[at + 1] == 'D' as int && m[at + 2] == 'X' as int
  }

  function Word(high: int, low: int): int { high * 256 + low }

  function RecordAt(m: Cells, at: int): Record
    requires 0 <= at <= OTP_SIZE - HEADER_SIZE
  {
    Record(Word(m[at + 4], m[at + 5]), Word(m[at + 6], m[at + 7]), m[at + 3])
  }

  /** The packed big-endian header of a record. */
  function HeaderBytes(r: Record): (bytes: seq<Byte>)
    requires r.offset < 65536 && r.length < 65536
    ensures |bytes| == HEADER_SIZE
  {
    ['I' as int, 'D' as int, 'X' as int, r.checksum,
     r.offset / 256, r.offset % 256, r.length / 256, r.length % 256]
  }

  /** A header reads back as the record it was made from. */
  lemma HeaderRoundTrip(m: Cells, at: int, r: Record)
    requires 0 <= at <= OTP_SIZE - HEADER_SIZE
    requires r.offset < 65536 && r.length < 65536
    requires m[at..at + HEADER_SIZE] == HeaderBytes(r)
    ensures IsHeader(m, at) && RecordAt(m, at) == r
  {
    var h := HeaderBytes(r);
    assert m[at..at + HEADER_SIZE] == h;
    assert m[at] == h[0] && m[at + 1] == h[1] && m[at + 2] == h[2] && m[at + 3] == h[3];
    assert m[at + 4] == h[4] && m[at + 5] == h[5] && m[at + 6] == h[6] && m[at + 7] == h[7];
  }

  // ---------------------------------------------------------------------------
  // Scanning
  // ---------------------------------------------------------------------------

  /** A header may point outside the memory, or the walk may run below its start. */
  datatype Scan = OutOfRange | Escapes | Scanned(records: seq<Record>)

  /** Slots 0 to 255 lie in the memory. */
  const SLOTS: nat := 256

  /** The header walk from slot k downwards. */
  function ScanFrom(m: Cells, k: nat): Scan
    requires k <= SLOTS
    decreases SLOTS - k
  {
    if k == SLOTS then Escapes
    else if !IsHeader(m, Slot(k)) then Scanned([])
    else
      var r := RecordAt(m, Slot(k));
      if r.offset > MAX_FIELD || r.length > MAX_FIELD then OutOfRange
      else
        Prepend(r, ScanFrom(m, k + 1))
  }

  function Prepend(r: Record, s: Scan): Scan {
    match s
    case OutOfRange => OutOfRange
    case Escapes => Escapes
    case Scanned(rest) => Scanned([r] + rest)
  }

  lemma PrependInjective(r: Record, s: Scan, rest: seq<Record>)
    ensures Prepend(r, s) == Scanned([r] + rest) <==> s == Scanned(rest)
  {
    if s.Scanned? && [r] + s.records == [r] + rest {
      assert s.records == ([r] + s.records)[1..] == ([r] + rest)[1..] == rest;
    }
  }

  function ScanAll(m: Cells): Scan {
    ScanFrom(m, 0)
  }

  /** Where the next data block starts after these records. */
  function DataEnd(records: seq<Record>): nat {
    if records == [] then DATA_START
    else records[|records| - 1].offset + records[|records| - 1].length
  }

  // ---------------------------------------------------------------------------
  // Well-formed logs
  // ---------------------------------------------------------------------------

  /** Data blocks lie end to end from byte 2. */
  ghost predicate Contiguous(records: seq<Record>) {
    forall i :: 0 <= i < |records| ==> records[i].offset == DataEnd(records[..i])
  }

  /** The memory holds exactly these records in its first |records| slots,
      and the data stays below the headers. */
  ghost predicate Log(m: Cells, records: seq<Record>) {
    && Contiguous(records)
    && DataEnd(records) <= Slot(|records|) + HEADER_SIZE
    && (forall i :: 0 <= i < |records| ==>
          && 0 <= Slot(i)
          && IsHeader(m, Slot(i))
          && RecordAt(m, Slot(i)) == records[i])
  }

  /** Free bytes between the data and the next header slot. Negative when the last
      data block already reaches into that slot. */
  function Gap(records: seq<Record>): int {
    Slot(|records|) - DataEnd(records)
  }

  /** The bytes that belong to committed records: their data and their headers. */
  predicate Committed(records: seq<Record>, address: int) {
    DATA_START <= address < DataEnd(records) || Slot(|records|) + HEADER_SIZE <= address < OTP_SIZE
  }

  lemma {:induction false} DataEndGrows(records: seq<Record>, i: nat, j: nat)
    requires Contiguous(records) && i <= j <= |records|
    ensures DATA_START <= DataEnd(records[..i]) <= DataEnd(records[..j])
    decreases j
  {
    if j == 0 {
    } else if i == j {
      DataEndGrows(records, i - 1, i - 1);
      assert records[..i][i - 1] == records[i - 1];
    } else {
      DataEndGrows(records, i, j - 1);
      assert records[..j][j - 1] == records[j - 1];
    }
  }

  /** Every block lies inside the committed data area, blocks are pairwise disjoint, and no
      block meets a header. */
  lemma BlocksDisjoint(m: Cells, records: seq<Record>, i: nat, j: nat)
    requires Log(m, records) && i < j < |records|
    ensures DATA_START <= records[i].offset
    ensures records[i].offset + records[i].length <= records[j].offset
    ensures records[j].offset + records[j].length <= Slot(|records| - 1) <= Slot(j) < Slot(i)
  {
    BlockEnds(records, i, j);
    BlockEnds(records, j, |records|);
    DataEndGrows(records, i, i);
    assert records[..|records|] == records;
    SlotsDescend(i, j, |records|);
  }

  lemma BlockEnds(records: seq<Record>, i: nat, j: nat)
    requires Contiguous(records) && i < j <= |records|
    ensures records[i].offset + records[i].length <= DataEnd(records[..j])
  {
    DataEndGrows(records, i + 1, j);
    assert records[..i + 1][i] == records[i];
  }

  lemma SlotsDescend(i: nat, j: nat, n: nat)
    requires i < j < n
    ensures Slot(n) + HEADER_SIZE == Slot(n - 1) <= Slot(j) < Slot(i)
  {
  }

  lemma ScanStep(m: Cells, records: seq<Record>, k: nat)
    requires Log(m, records)
    requires k < |records| && Slot(|records|) >= 0
    requires records[k].length <= MAX_FIELD
    ensures Same(ScanFrom(m, k), Prepend(records[k], ScanFrom(m, k + 1)))
  {
    DataEndGrows(records, k, |records|);
    assert records[..|records|] == records;
    assert records[k].offset == DataEnd(records[..k]) <= DataEnd(records) <= OTP_SIZE;
  }

  lemma ScanSplits(records: seq<Record>, k: nat, scan: Scan, rest: Scan)
    requires k < |records| && Same(scan, Prepend(records[k], rest))
    ensures scan == Scanned(records[k..]) <==> rest == Scanned(records[k + 1..])
  {
    PrependInjective(records[k], rest, records[k + 1..]);
    assert records[k..] == [records[k]] + records[k + 1..];
  }

  /** Scanning a log returns exactly its records, if and only if the slot below the last
      header does not read as a header. */
  lemma {:induction false} ScanOfLog(m: Cells, records: seq<Record>, k: nat)
    requires Log(m, records)
    requires k <= |records| && Slot(|records|) >= 0
    requires forall i :: 0 <= i < |records| ==> records[i].length <= MAX_FIELD
    ensures ScanFrom(m, k) == Scanned(records[k..]) <==> !IsHeader(m, Slot(|records|))
    decreases |records| - k
  {
    if k < |records| {
      ScanOfLog(m, records, k + 1);
      ScanStep(m, records, k);
      ScanSplits(records, k, ScanFrom(m, k), ScanFrom(m, k + 1));
    }
  }

  /** The walk goes on past slot k. */
  predicate Walkable(m: Cells, k: nat)
    requires k < SLOTS
  {
    IsHeader(m, Slot(k)) && RecordAt(m, Slot(k)).offset <= MAX_FIELD && RecordAt(m, Slot(k)).length <= MAX_FIELD
  }

  /** The walk runs below the buffer exactly when every one of the 256 slots reads as a header with
      fields in range. */
  lemma {:induction false} EscapesIff(m: Cells, k: nat)
    requires k <= SLOTS
    ensures ScanFrom(m, k).Escapes? <==> forall j :: k <= j < SLOTS ==> Walkable(m, j)
    decreases SLOTS - k
  {
    if k < SLOTS {
      EscapesIff(m, k + 1);
      if Walkable(m, k) {
        assert ScanFrom(m, k) == Prepend(RecordAt(m, Slot(k)), ScanFrom(m, k + 1));
      } else {
        assert !ScanFrom(m, k).Escapes?;
      }
    }
  }

  /** Slot k, by bytes: it starts with a signature. */
  predicate SignedSlot(m: Cells, k: nat)
    requires k < SLOTS
  {
    var at := 2040 - 8 * k;
    m[at] == 'I' as int && m[at + 1] == 'D' as int && m[at + 2] == 'X' as int
  }

  /** And its offset and length are at most 2048. */
  predicate InRangeSlot(m: Cells, k: nat)
    requires k < SLOTS
  {
    var at := 2040 - 8 * k;
    && SignedSlot(m, k)
    && m[at + 4] as int * 256 + m[at + 5] as int <= 2048 && m[at + 6] as int * 256 + m[at + 7] as int <= 2048
  }

  lemma SlotInBytes(m: Cells, k: nat)
    requires k < SLOTS
    ensures Walkable(m, k) <==> InRangeSlot(m, k)
    ensures IsHeader(m, Slot(k)) <==> SignedSlot(m, k)
  {
  }

  /** Where the walk stops, by bytes: it passes over headers with fields in range, ends at the first slot without a
      signature, and gives up at the first one whose fields are out of range. */
  lemma {:induction false} WalkInBytes(m: Cells, k: nat, e: nat)
    requires k <= e < SLOTS && forall j :: k <= j < e ==> InRangeSlot(m, j)
    ensures !SignedSlot(m, e) ==> ScanFrom(m, k).Scanned? && |ScanFrom(m, k).records| == e - k
    ensures SignedSlot(m, e) && !InRangeSlot(m, e) ==> ScanFrom(m, k).OutOfRange?
    decreases e - k
  {
    SlotInBytes(m, k);
    if k < e { WalkInBytes(m, k + 1, e); }
  }

  /** The last of these slots starts with the counter; unless that reads as 'I', the walk stays in the
      buffer. */
  lemma CounterStopsScan(m: Cells)
    requires m[0] != 'I' as int
    ensures !ScanAll(m).Escapes?
  {
    EscapesIff(m, 0);
    var last: nat := SLOTS - 1;
    assert Slot(last) == 0 && !Walkable(m, last);
  }

  /** A scan that ends has seen at most 255 records, and stopped at a slot inside the memory. */
  lemma {:induction false} ScanStaysInside(m: Cells, k: nat)
    requires k <= SLOTS
    ensures ScanFrom(m, k).Scanned? ==>
      && k + |ScanFrom(m, k).records| < SLOTS
      && !IsHeader(m, Slot(k + |ScanFrom(m, k).records|))
    decreases SLOTS - k
  {
    if k < SLOTS && IsHeader(m, Slot(k)) { ScanStaysInside(m, k + 1); }
  }

  /** Two memories that agree on the committed bytes hold the same log. */
  lemma LogFrame(m: Cells, m': Cells, records: seq<Record>)
    requires Log(m, records)
    requires forall a :: 0 <= a < OTP_SIZE && Committed(records, a) ==> m'[a] == m[a]
    ensures Log(m', records)
  {
    forall i | 0 <= i < |records|
      ensures IsHeader(m', Slot(i)) && RecordAt(m', Slot(i)) == RecordAt(m, Slot(i)) && IsHeader(m, Slot(i))
    {
      var at := Slot(i);
      assert forall a | at <= a < at + HEADER_SIZE :: Committed(records, a);
    }
  }

  lemma ContiguousExtends(records: seq<Record>, r: Record)
    requires Contiguous(records) && r.offset == DataEnd(records)
    ensures Contiguous(records + [r])
  {
    var longer := records + [r];
    forall i | 0 <= i < |longer| ensures longer[i].offset == DataEnd(longer[..i]) {
      assert longer[..i] == if i < |records| then records[..i] else records;
    }
  }

  /** Adding a header below a log, with its data right above the last block, extends the log. */
  lemma LogExtends(m: Cells, records: seq<Record>, r: Record)
    requires Log(m, records) && Slot(|records|) >= 0
    requires r.offset == DataEnd(records) && r.offset + r.length <= Slot(|records|)
    requires IsHeader(m, Slot(|records|)) && RecordAt(m, Slot(|records|)) == r
    ensures Log(m, records + [r])
  {
    ContiguousExtends(records, r);
    var longer := records + [r];
    assert DataEnd(longer) == r.offset + r.length;
    forall i | 0 <= i < |longer|
      ensures 0 <= Slot(i) && IsHeader(m, Slot(i)) && RecordAt(m, Slot(i)) == longer[i]
    {
      if i < |records| { assert longer[i] == records[i]; }
    }
  }
}
