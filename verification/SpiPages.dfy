/**
  How an image is cut into pages: full pages from the start address on, then one tail step when
  the size is not a whole number of pages. The tail step starts inside the last page and may run
  past its end, where a flash wraps around to the beginning of the page.
 */
module SpiPages {
  import opened Arithmetic
  import opened Bits
  import opened FlashPages
  import opened NorFlash
  import opened Options

  /** Where page n of an image starts. */
  function PageStart(page: nat, n: nat): nat {
    if n == 0 then 0 else PageStart(page, n - 1) + page
  }

  lemma {:induction false} PageStartIsProduct(page: nat, n: nat)
    ensures PageStart(page, n) == n * page
  {
    if n > 0 {
      PageStartIsProduct(page, n - 1);
      assert n * page == (n - 1) * page + page;
    }
  }

  lemma {:induction false} PageStartMono(page: nat, n: nat, m: nat)
    requires n <= m
    ensures PageStart(page, n) <= PageStart(page, m)
    ensures n < m ==> PageStart(page, n) + page <= PageStart(page, m)
    decreases m
  {
    if n < m { PageStartMono(page, n, m - 1); }
  }

  /** An image of `body + rest` bytes: `full` whole pages, then `rest` bytes. */
  datatype Layout = Layout(page: nat, full: nat, body: nat, rest: nat) {
    predicate Valid() { page > 0 && body == PageStart(page, full) && rest < page }

    function Size(): nat { body + rest }

    /** Pages programmed before the tail step; the last one may be partly padding. */
    function Pages(): nat { full + if rest == 0 then 0 else 1 }

    /** The tail step writes this many bytes, from this offset into the image. */
    function TailLength(): (n: nat) requires Valid() ensures 0 < n <= page { page - rest }

    function TailOffset(): nat requires Valid() { body + TailLength() }

    /** How much of the buffer the page loop reads. */
    function Padded(): (n: nat)
      requires Valid()
      ensures n >= Size()
    {
      if rest == 0 then body
      else if 2 * rest >= page then body + page
      else TailOffset() + TailLength()
    }

    lemma PagesFit()
      requires Valid()
      ensures PageStart(page, Pages()) == (if rest == 0 then body else body + page) <= Padded()
    {
    }
  }

  function LayoutOf(size: nat, page: nat): (l: Layout)
    requires page > 0
    ensures l.Valid() && l.page == page && l.Size() == size
  {
    WholePages(size, page, size / page, size % page);
    PageStartIsProduct(page, size / page);
    Layout(page, size / page, size - size % page, size % page)
  }

  lemma WholePages(size: nat, page: nat, full: nat, rest: nat)
    requires page > 0 && full == size / page && rest == size % page
    ensures rest < page && size - rest == full * page
  {
  }

  /** Page n of the image, programmed. */
  function WithPage(mem: seq<Byte>, pageSize: nat, start: nat, page: nat, buf: seq<Byte>, n: nat): (mem': seq<Byte>)
    requires pageSize > 0 && PageStart(page, n) + page <= |buf|
    ensures |mem'| == |mem|
  {
    var at := PageStart(page, n);
    Programmed(mem, pageSize, start + at, buf[at..at + page])
  }

  function FullPages(mem: seq<Byte>, pageSize: nat, start: nat, page: nat, buf: seq<Byte>, n: nat): (mem': seq<Byte>)
    requires pageSize > 0 && PageStart(page, n) <= |buf|
    ensures |mem'| == |mem|
    decreases n
  {
    if n == 0 then mem
    else WithPage(FullPages(mem, pageSize, start, page, buf, n - 1), pageSize, start, page, buf, n - 1)
  }

  function TailStep(mem: seq<Byte>, pageSize: nat, start: nat, l: Layout, buf: seq<Byte>): (mem': seq<Byte>)
    requires pageSize > 0 && l.Valid() && l.Padded() <= |buf|
    ensures |mem'| == |mem|
  {
    if l.rest == 0 then mem
    else Programmed(mem, pageSize, start + l.TailOffset(), buf[l.TailOffset()..l.TailOffset() + l.TailLength()])
  }

  /** The memory after the whole page loop. */
  function Stored(mem: seq<Byte>, pageSize: nat, start: nat, l: Layout, buf: seq<Byte>): (mem': seq<Byte>)
    requires pageSize > 0 && l.Valid() && l.Padded() <= |buf|
    ensures |mem'| == |mem|
  {
    l.PagesFit();
    TailStep(FullPages(mem, pageSize, start, l.page, buf, l.Pages()), pageSize, start, l, buf)
  }

  // ---------------------------------------------------------------------------
  // Full pages
  // ---------------------------------------------------------------------------

  /** Where image pages cross the ends of flash pages, the part beyond an end wraps around to the start of the
      flash page, and the address where it belonged gets the part of the next crossing page. */
  predicate Displaced(pageSize: nat, start: nat, page: nat, x: nat)
    requires pageSize > 0 && page > 0
  {
    PageBase(pageSize, start) <= x && x % pageSize < start % page
  }

  /** What one full page leaves at an address, whether it crosses or not. */
  lemma PageAt(mem: seq<Byte>, pageSize: nat, start: nat, page: nat, at: nat, data: seq<Byte>, x: nat)
    requires page > 0 && pageSize > 0 && pageSize % page == 0 && |data| == page
    requires start <= at && at % page == start % page && x < |mem|
    ensures Programmed(mem, pageSize, at, data)[x] ==
      if Displaced(pageSize, start, page, x) then
        if at <= x + pageSize < at + page then And(mem[x], data[x + pageSize - at]) else mem[x]
      else if at <= x < at + page then And(mem[x], data[x - at])
      else mem[x]
  {
    var base := PageBase(pageSize, at);
    PageDivides(page, pageSize);
    Crossing(pageSize, page, at, base);
    ProgrammedAt(mem, pageSize, at, data, x, base);
    BaseMono(pageSize, start, at);
    if base <= x < base + pageSize {
      InSamePage(pageSize, at, x, base);
    } else if base + pageSize <= x < base + pageSize + pageSize {
      InNextPage(pageSize, at, x, base);
    }
    if Displaced(pageSize, start, page, x) && at <= x + pageSize < at + page {
      var _ := BaseOf(pageSize, x);
      CrossesEnd(pageSize, page, at, x, PageBase(pageSize, x));
    }
  }

  lemma PageStartRemainder(start: nat, page: nat, n: nat, at: nat)
    requires page > 0 && at == start + PageStart(page, n)
    ensures at % page == start % page
  {
    PageStartIsProduct(page, n);
    var q := BaseOf(page, start);
    assert at == page * (q + n) + start % page;
    DivUnique(at, page, q + n, start % page);
  }

  /** What becomes of byte b at address x once the first `end` bytes of the image are programmed: each of them is
      and-ed in once, either at its own address or one flash page further down. */
  function Anded(displaced: bool, pageSize: nat, start: nat, buf: seq<Byte>, end: nat, b: Byte, x: nat): Byte
    requires end <= |buf|
  {
    if displaced then
      if 0 <= x + pageSize - start < end then And(b, buf[x + pageSize - start]) else b
    else if start <= x < start + end then And(b, buf[x - start])
    else b
  }

  lemma AndedNext(displaced: bool, pageSize: nat, start: nat, page: nat, buf: seq<Byte>, off: nat, data: seq<Byte>,
      b: Byte, x: nat, before: Byte, after: Byte)
    requires off + page <= |buf| && data == buf[off..off + page]
    requires before == Anded(displaced, pageSize, start, buf, off, b, x)
    requires after ==
      if displaced then
        if start + off <= x + pageSize < start + off + page then And(before, data[x + pageSize - start - off])
        else before
      else if start + off <= x < start + off + page then And(before, data[x - start - off])
      else before
    ensures after == Anded(displaced, pageSize, start, buf, off + page, b, x)
  {
  }

  lemma NextPageAt(now: seq<Byte>, pageSize: nat, start: nat, page: nat, buf: seq<Byte>, n: nat, b: Byte, x: nat,
      displaced: bool)
    requires page > 0 && pageSize > 0 && pageSize % page == 0 && PageStart(page, n) + page <= |buf| && x < |now|
    requires displaced == Displaced(pageSize, start, page, x)
    requires now[x] == Anded(displaced, pageSize, start, buf, PageStart(page, n), b, x)
    ensures WithPage(now, pageSize, start, page, buf, n)[x]
         == Anded(displaced, pageSize, start, buf, PageStart(page, n) + page, b, x)
  {
    var off := PageStart(page, n);
    var data := buf[off..off + page];
    PageStartRemainder(start, page, n, start + off);
    PageAt(now, pageSize, start, page, start + off, data, x);
    AndedNext(displaced, pageSize, start, page, buf, off, data, b, x, now[x],
      WithPage(now, pageSize, start, page, buf, n)[x]);
  }

  lemma UnfoldPage(mem: seq<Byte>, pageSize: nat, start: nat, page: nat, buf: seq<Byte>, n: nat, off: nat,
      now: seq<Byte>)
    requires n > 0 && pageSize > 0 && PageStart(page, n) <= |buf|
    requires off == PageStart(page, n - 1) && now == FullPages(mem, pageSize, start, page, buf, n - 1)
    ensures PageStart(page, n) == off + page
    ensures Same(FullPages(mem, pageSize, start, page, buf, n), WithPage(now, pageSize, start, page, buf, n - 1))
  {
  }

  lemma FullPagesNext(mem: seq<Byte>, pageSize: nat, start: nat, page: nat, buf: seq<Byte>, n: nat, x: nat,
      displaced: bool, b: Byte)
    requires n > 0 && pageSize > 0 && PageStart(page, n) <= |buf| && x < |mem|
    requires WithPage(FullPages(mem, pageSize, start, page, buf, n - 1), pageSize, start, page, buf, n - 1)[x]
          == Anded(displaced, pageSize, start, buf, PageStart(page, n - 1) + page, b, x)
    ensures FullPages(mem, pageSize, start, page, buf, n)[x]
         == Anded(displaced, pageSize, start, buf, PageStart(page, n), b, x)
  {
    UnfoldPage(mem, pageSize, start, page, buf, n, PageStart(page, n - 1),
      FullPages(mem, pageSize, start, page, buf, n - 1));
  }

  /** What the full pages leave at an address, wherever the image starts. */
  lemma {:induction false} FullPagesAt(mem: seq<Byte>, pageSize: nat, start: nat, page: nat, buf: seq<Byte>, n: nat,
      x: nat, displaced: bool)
    requires page > 0 && pageSize > 0 && pageSize % page == 0
    requires PageStart(page, n) <= |buf| && x < |mem| && displaced == Displaced(pageSize, start, page, x)
    ensures FullPages(mem, pageSize, start, page, buf, n)[x]
         == Anded(displaced, pageSize, start, buf, PageStart(page, n), mem[x], x)
    decreases n
  {
    if n > 0 {
      FullPagesAt(mem, pageSize, start, page, buf, n - 1, x, displaced);
      NextPageAt(FullPages(mem, pageSize, start, page, buf, n - 1), pageSize, start, page, buf, n - 1, mem[x], x,
        displaced);
      FullPagesNext(mem, pageSize, start, page, buf, n, x, displaced, mem[x]);
    }
  }

  // ---------------------------------------------------------------------------
  // The tail step
  // ---------------------------------------------------------------------------

  /** Image and flash pages line up. */
  predicate Aligned(pageSize: nat, start: nat, page: nat)
    requires page > 0
  {
    pageSize > 0 && pageSize % page == 0 && start % page == 0
  }

  /** The tail step wraps around onto address x. */
  predicate Wrapped(pageSize: nat, start: nat, l: Layout, x: nat)
    requires pageSize > 0 && l.Valid()
  {
    l.rest != 0 &&
    var at := start + l.TailOffset();
    PageBase(pageSize, at) <= x < at + l.TailLength() - pageSize
  }

  /** The tail step writes image byte x - start to its own address. */
  predicate Rewritten(pageSize: nat, start: nat, l: Layout, x: nat)
    requires pageSize > 0 && l.Valid()
  {
    l.rest != 0 &&
    var at := start + l.TailOffset();
    at <= x < at + l.TailLength() && x < PageBase(pageSize, at) + pageSize
  }

  /** The tail step starts in the flash page that holds the image's last page. */
  lemma LastPage(pageSize: nat, start: nat, l: Layout, at: nat, base: nat)
    requires l.Valid() && l.rest != 0 && Aligned(pageSize, start, l.page)
    requires at == start + l.TailOffset() && base == PageBase(pageSize, at)
    ensures base <= start + l.body && start + l.body + l.page <= base + pageSize
  {
    var last := start + l.body;
    PageStartRemainder(start, l.page, l.full, last);
    Crossing(pageSize, l.page, last, PageBase(pageSize, last));
    InSamePage(pageSize, last, at, PageBase(pageSize, last));
  }

  /** Where a transfer no longer than a flash page puts its bytes. */
  lemma ProgrammedAt(mem: seq<Byte>, pageSize: nat, at: nat, data: seq<Byte>, x: nat, base: nat)
    requires pageSize > 0 && |data| <= pageSize && x < |mem| && base == PageBase(pageSize, at)
    ensures base <= at < base + pageSize
    ensures Programmed(mem, pageSize, at, data)[x] ==
      if at <= x < base + pageSize && x < at + |data| then And(mem[x], data[x - at])
      else if base <= x < at + |data| - pageSize then And(mem[x], data[x - at + pageSize])
      else mem[x]
  {
  }

  /** Byte i of the buffer, where it has one. */
  function ByteAt(buf: seq<Byte>, i: int): Byte {
    if 0 <= i < |buf| then buf[i] else 255
  }

  lemma TailIn(mem: seq<Byte>, pageSize: nat, at: nat, off: nat, buf: seq<Byte>, len: nat, x: nat, base: nat)
    requires pageSize > 0 && len <= pageSize && base == PageBase(pageSize, at) && x < |mem|
    requires off + len <= |buf|
    ensures Programmed(mem, pageSize, at, buf[off..off + len])[x] ==
      if at <= x < at + len && x < base + pageSize then And(mem[x], ByteAt(buf, x - at + off))
      else if base <= x < at + len - pageSize then And(mem[x], ByteAt(buf, x - at + off + pageSize))
      else mem[x]
  {
    ProgrammedAt(mem, pageSize, at, buf[off..off + len], x, base);
  }

  /** What the tail step does to an address: nothing, the byte that belongs there again, or, where
      it wrapped, a byte from one flash page further on. */
  lemma TailAt(mem: seq<Byte>, pageSize: nat, start: nat, l: Layout, buf: seq<Byte>, x: nat)
    requires l.Valid() && pageSize > 0 && pageSize % l.page == 0 && l.Padded() <= |buf|
    requires x < |mem|
    ensures TailStep(mem, pageSize, start, l, buf)[x] ==
      if Rewritten(pageSize, start, l, x) then And(mem[x], ByteAt(buf, x - start))
      else if Wrapped(pageSize, start, l, x) then And(mem[x], ByteAt(buf, x - start + pageSize))
      else mem[x]
  {
    if l.rest != 0 {
      var off, len := l.TailOffset(), l.TailLength();
      PageDivides(l.page, pageSize);
      TailIn(mem, pageSize, start + off, off, buf, len, x, PageBase(pageSize, start + off));
    }
  }

  // ---------------------------------------------------------------------------
  // What stays as it was
  // ---------------------------------------------------------------------------

  /** Nothing below a flash page is touched by an image that starts there or later. */
  lemma BelowIsKept(mem: seq<Byte>, pageSize: nat, start: nat, l: Layout, buf: seq<Byte>, bound: nat, x: nat)
    requires l.Valid() && pageSize > 0 && pageSize % l.page == 0 && l.Padded() <= |buf|
    requires bound % pageSize == 0 && x < bound <= start && x < |mem|
    ensures Stored(mem, pageSize, start, l, buf)[x] == mem[x]
  {
    FullPagesAbove(mem, pageSize, start, l, buf, bound, x);
    TailMissesBelow(pageSize, start, l, bound, x);
    TailMisses(mem, pageSize, start, l, buf, x);
  }

  lemma FullPagesAbove(mem: seq<Byte>, pageSize: nat, start: nat, l: Layout, buf: seq<Byte>, bound: nat, x: nat)
    requires l.Valid() && pageSize > 0 && pageSize % l.page == 0 && l.Padded() <= |buf|
    requires bound % pageSize == 0 && x < bound <= start && x < |mem|
    ensures PageStart(l.page, l.Pages()) <= |buf|
    ensures FullPages(mem, pageSize, start, l.page, buf, l.Pages())[x] == mem[x]
  {
    BoundIsBase(pageSize, bound);
    BaseMono(pageSize, bound, start);
    l.PagesFit();
    FullPagesAt(mem, pageSize, start, l.page, buf, l.Pages(), x, Displaced(pageSize, start, l.page, x));
  }

  lemma TailMissesBelow(pageSize: nat, start: nat, l: Layout, bound: nat, x: nat)
    requires l.Valid() && pageSize > 0 && bound % pageSize == 0 && x < bound <= start
    ensures !Rewritten(pageSize, start, l, x) && !Wrapped(pageSize, start, l, x)
  {
    BoundIsBase(pageSize, bound);
    BaseMono(pageSize, bound, start + l.TailOffset());
  }

  lemma TailMisses(mem: seq<Byte>, pageSize: nat, start: nat, l: Layout, buf: seq<Byte>, x: nat)
    requires l.Valid() && pageSize > 0 && pageSize % l.page == 0 && l.Padded() <= |buf| && x < |mem|
    requires !Rewritten(pageSize, start, l, x) && !Wrapped(pageSize, start, l, x)
    ensures PageStart(l.page, l.Pages()) <= |buf|
    ensures Stored(mem, pageSize, start, l, buf)[x] == FullPages(mem, pageSize, start, l.page, buf, l.Pages())[x]
  {
    l.PagesFit();
    TailAt(FullPages(mem, pageSize, start, l.page, buf, l.Pages()), pageSize, start, l, buf, x);
  }

  lemma BoundIsBase(pageSize: nat, bound: nat)
    requires pageSize > 0 && bound % pageSize == 0
    ensures PageBase(pageSize, bound) == bound
  {
  }

  /** A flash page that starts below a boundary of flash pages ends there at the latest. */
  lemma EndsBelow(pageSize: nat, at: nat, bound: nat)
    requires pageSize > 0 && bound % pageSize == 0 && at < bound
    ensures PageBase(pageSize, at) + pageSize <= bound
  {
    var q := BaseOf(pageSize, at);
    var b := BaseOf(pageSize, bound);
    MultiplesApart(pageSize, q, b);
  }

  /** The full pages of an image stay below a boundary of flash pages that the image stays below. */
  lemma FullPagesBelow(mem: seq<Byte>, pageSize: nat, start: nat, l: Layout, buf: seq<Byte>, bound: nat, x: nat)
    requires l.Valid() && pageSize > 0 && pageSize % l.page == 0 && l.Padded() <= |buf|
    requires bound % pageSize == 0 && start + l.Size() <= bound <= x < |mem|
    ensures PageStart(l.page, l.Pages()) <= |buf|
    ensures FullPages(mem, pageSize, start, l.page, buf, l.Pages())[x] == mem[x]
  {
    l.PagesFit();
    PageDivides(l.page, pageSize);
    FullPagesAt(mem, pageSize, start, l.page, buf, l.Pages(), x, Displaced(pageSize, start, l.page, x));
    if l.rest != 0 {
      var last := start + l.body;
      PageStartRemainder(start, l.page, l.full, last);
      Crossing(pageSize, l.page, last, PageBase(pageSize, last));
      EndsBelow(pageSize, last, bound);
      if x < bound + start % l.page { OffsetFrom(pageSize, bound, x, start % l.page); }
    }
  }

  lemma OffsetFrom(pageSize: nat, bound: nat, x: nat, r: nat)
    requires pageSize > 0 && bound % pageSize == 0 && bound <= x < bound + r && r <= pageSize
    ensures x % pageSize < r
  {
    BoundIsBase(pageSize, bound);
    InSamePage(pageSize, bound, x, bound);
  }

  /** So does the tail step, if it begins there. */
  lemma AboveIsKept(mem: seq<Byte>, pageSize: nat, start: nat, l: Layout, buf: seq<Byte>, bound: nat, x: nat)
    requires l.Valid() && pageSize > 0 && pageSize % l.page == 0 && l.Padded() <= |buf|
    requires bound % pageSize == 0 && start + l.Size() <= bound <= x < |mem|
    requires l.rest == 0 || start + l.TailOffset() < bound
    ensures Stored(mem, pageSize, start, l, buf)[x] == mem[x]
  {
    FullPagesBelow(mem, pageSize, start, l, buf, bound, x);
    TailMissesAbove(pageSize, start, l, bound, x);
    TailMisses(mem, pageSize, start, l, buf, x);
  }

  lemma TailMissesAbove(pageSize: nat, start: nat, l: Layout, bound: nat, x: nat)
    requires l.Valid() && pageSize > 0 && pageSize % l.page == 0 && bound % pageSize == 0 && bound <= x
    requires l.rest == 0 || start + l.TailOffset() < bound
    ensures !Rewritten(pageSize, start, l, x) && !Wrapped(pageSize, start, l, x)
  {
    if l.rest != 0 {
      PageDivides(l.page, pageSize);
      EndsBelow(pageSize, start + l.TailOffset(), bound);
    }
  }

  /** From an aligned start it does. */
  lemma TailBeginsBelow(pageSize: nat, start: nat, l: Layout, bound: nat)
    requires l.Valid() && Aligned(pageSize, start, l.page) && bound % pageSize == 0 && start + l.Size() <= bound
    ensures l.rest == 0 || start + l.TailOffset() < bound
  {
    if l.rest != 0 {
      var at := start + l.TailOffset();
      LastPage(pageSize, start, l, at, PageBase(pageSize, at));
      EndsBelow(pageSize, start + l.body, bound);
      BaseMono(pageSize, start + l.body, at);
      if at >= bound { BoundIsBase(pageSize, bound); BaseMono(pageSize, bound, at); }
    }
  }

  // ---------------------------------------------------------------------------
  // What ends up in the flash
  // ---------------------------------------------------------------------------

  ghost predicate ErasedRange(mem: seq<Byte>, start: nat, size: nat) {
    start + size <= |mem| && forall x :: start <= x < start + size ==> mem[x] == 255
  }

  /** The byte that the full pages leave at an address of the image. */
  function FullByte(pageSize: nat, start: nat, l: Layout, buf: seq<Byte>, x: nat): Byte
    requires pageSize > 0 && l.Valid()
  {
    if !Displaced(pageSize, start, l.page, x) then ByteAt(buf, x - start)
    else if x - start + pageSize < PageStart(l.page, l.Pages()) then ByteAt(buf, x - start + pageSize)
    else 255
  }

  /** The byte that ends up at an address of the image, wherever it starts. */
  function Landed(pageSize: nat, start: nat, l: Layout, buf: seq<Byte>, x: nat): Byte
    requires pageSize > 0 && l.Valid()
  {
    var full := FullByte(pageSize, start, l, buf, x);
    if Rewritten(pageSize, start, l, x) then And(full, ByteAt(buf, x - start))
    else if Wrapped(pageSize, start, l, x) then And(full, ByteAt(buf, x - start + pageSize))
    else full
  }

  /** The full pages on an erased range. */
  lemma FullOnErased(mem: seq<Byte>, pageSize: nat, start: nat, l: Layout, buf: seq<Byte>, x: nat)
    requires l.Valid() && pageSize > 0 && pageSize % l.page == 0 && l.Padded() <= |buf|
    requires ErasedRange(mem, start, l.Size()) && start <= x < start + l.Size()
    ensures PageStart(l.page, l.Pages()) <= |buf|
    ensures FullPages(mem, pageSize, start, l.page, buf, l.Pages())[x] == FullByte(pageSize, start, l, buf, x)
  {
    l.PagesFit();
    FullPagesAt(mem, pageSize, start, l.page, buf, l.Pages(), x, Displaced(pageSize, start, l.page, x));
    AndByteOnes(ByteAt(buf, x - start), 255);
    AndByteOnes(ByteAt(buf, x - start + pageSize), 255);
  }

  /** Each image byte after erase, full pages and tail step. */
  lemma StoredAt(mem: seq<Byte>, pageSize: nat, start: nat, l: Layout, buf: seq<Byte>, x: nat)
    requires l.Valid() && pageSize > 0 && pageSize % l.page == 0 && l.Padded() <= |buf|
    requires ErasedRange(mem, start, l.Size()) && start <= x < start + l.Size()
    ensures Stored(mem, pageSize, start, l, buf)[x] == Landed(pageSize, start, l, buf, x)
  {
    FullOnErased(mem, pageSize, start, l, buf, x);
    TailAt(FullPages(mem, pageSize, start, l.page, buf, l.Pages()), pageSize, start, l, buf, x);
  }

  /** The condition on the buffer under which every byte that lands on an image address is the right one. */
  ghost predicate AllLand(pageSize: nat, start: nat, l: Layout, buf: seq<Byte>)
    requires pageSize > 0 && l.Valid() && l.Padded() <= |buf|
  {
    forall x :: start <= x < start + l.Size() ==> Landed(pageSize, start, l, buf, x) == buf[x - start]
  }

  /** The bytes that a wrapping tail step adds are already zero wherever it adds a zero: the
      condition on the buffer under which the tail step is harmless. */
  ghost predicate TailHarmless(pageSize: nat, start: nat, l: Layout, buf: seq<Byte>)
    requires pageSize > 0 && l.Valid() && l.Padded() <= |buf|
  {
    forall x :: start <= x < start + l.Size() && Wrapped(pageSize, start, l, x) ==>
      x - start + pageSize < |buf| && And(buf[x - start], buf[x - start + pageSize]) == buf[x - start]
  }

  ghost predicate Holds(mem: seq<Byte>, start: nat, size: nat, buf: seq<Byte>) {
    start + size <= |mem| && size <= |buf| && forall x :: start <= x < start + size ==> mem[x] == buf[x - start]
  }

  /** After erase and page loop the flash holds the image exactly when all the right bytes land. */
  lemma StoredIff(mem: seq<Byte>, pageSize: nat, start: nat, l: Layout, buf: seq<Byte>)
    requires l.Valid() && pageSize > 0 && pageSize % l.page == 0 && l.Padded() <= |buf|
    requires ErasedRange(mem, start, l.Size())
    ensures Holds(Stored(mem, pageSize, start, l, buf), start, l.Size(), buf) <==> AllLand(pageSize, start, l, buf)
  {
    var m := Stored(mem, pageSize, start, l, buf);
    forall x | start <= x < start + l.Size() ensures m[x] == Landed(pageSize, start, l, buf, x) {
      StoredAt(mem, pageSize, start, l, buf, x);
    }
  }

  /** From an aligned start that is a matter of the tail step alone. */
  lemma AlignedLandIff(pageSize: nat, start: nat, l: Layout, buf: seq<Byte>)
    requires l.Valid() && Aligned(pageSize, start, l.page) && l.Padded() <= |buf|
    ensures AllLand(pageSize, start, l, buf) <==> TailHarmless(pageSize, start, l, buf)
  {
    forall x | start <= x < start + l.Size()
      ensures Landed(pageSize, start, l, buf, x) == buf[x - start] <==>
        (Wrapped(pageSize, start, l, x) ==>
          x - start + pageSize < |buf| && And(buf[x - start], buf[x - start + pageSize]) == buf[x - start])
    {
      AlignedLanding(pageSize, start, l, buf, x);
    }
  }

  lemma AlignedLanding(pageSize: nat, start: nat, l: Layout, buf: seq<Byte>, x: nat)
    requires l.Valid() && Aligned(pageSize, start, l.page) && l.Padded() <= |buf|
    requires start <= x < start + l.Size()
    ensures Wrapped(pageSize, start, l, x) ==> x - start + pageSize < |buf|
    ensures Landed(pageSize, start, l, buf, x)
         == if Wrapped(pageSize, start, l, x) then And(buf[x - start], buf[x - start + pageSize]) else buf[x - start]
  {
    PageDivides(l.page, pageSize);
    AndSelf(buf[x - start]);
    WrappedIsRead(pageSize, start, l, x);
  }

  /** A byte that wraps around comes from the part of the buffer that the page loop reads, and the tail step
      does not write to its address again. */
  lemma WrappedIsRead(pageSize: nat, start: nat, l: Layout, x: nat)
    requires l.Valid() && pageSize > 0
    ensures Wrapped(pageSize, start, l, x) && start <= x ==>
      x - start + pageSize < l.Padded() && (l.page <= pageSize ==> !Rewritten(pageSize, start, l, x))
  {
  }

  /** A whole number of pages, or a remainder of at least half a page, never wraps. */
  lemma HalfPageIsEnough(pageSize: nat, start: nat, l: Layout, buf: seq<Byte>)
    requires l.Valid() && Aligned(pageSize, start, l.page) && l.Padded() <= |buf|
    requires l.rest == 0 || 2 * l.rest >= l.page
    ensures TailHarmless(pageSize, start, l, buf)
  {
    if l.rest != 0 {
      var at := start + l.TailOffset();
      LastPage(pageSize, start, l, at, PageBase(pageSize, at));
    }
  }

  lemma AndZero(b: Byte)
    ensures And(b, 0) == 0
  {
  }

  /** By sizes alone: the tail step leaves its flash page and comes round to the image. */
  predicate TailComesRound(pageSize: nat, start: nat, l: Layout)
    requires pageSize > 0 && l.Valid()
  {
    l.rest != 0 &&
    var at := start + l.TailOffset();
    var end := at + l.TailLength() - pageSize;
    PageBase(pageSize, at) < end && start < end
  }

  lemma ComesRoundIff(pageSize: nat, start: nat, l: Layout)
    requires l.Valid() && Aligned(pageSize, start, l.page)
    ensures TailComesRound(pageSize, start, l) <==>
      exists x: nat :: start <= x < start + l.Size() && Wrapped(pageSize, start, l, x)
  {
    if TailComesRound(pageSize, start, l) {
      var at := start + l.TailOffset();
      var base := PageBase(pageSize, at);
      LastPage(pageSize, start, l, at, base);
      var x := if base < start then start else base;
      assert Wrapped(pageSize, start, l, x) && start <= x < start + l.Size();
    }
  }

  /** One set byte, all others zero. */
  function OneByte(length: nat, k: nat): (buf: seq<Byte>)
    ensures |buf| == length
  {
    seq(length, i => if i == k then 255 else 0)
  }

  lemma OneByteIsLost(pageSize: nat, start: nat, l: Layout, x: nat, buf: seq<Byte>)
    requires l.Valid() && Aligned(pageSize, start, l.page)
    requires start <= x < start + l.Size() && Wrapped(pageSize, start, l, x)
    requires buf == OneByte(l.Padded(), x - start)
    ensures !TailHarmless(pageSize, start, l, buf)
  {
    AndZero(255);
    if x - start + pageSize < |buf| { assert buf[x - start + pageSize] == 0 && buf[x - start] == 255; }
  }

  /** The tail step is harmless for every buffer exactly when it does not come round to the image. */
  lemma EveryBufferIff(pageSize: nat, start: nat, l: Layout)
    requires l.Valid() && Aligned(pageSize, start, l.page)
    ensures (forall buf: seq<Byte> :: l.Padded() <= |buf| ==> TailHarmless(pageSize, start, l, buf)) <==>
      !TailComesRound(pageSize, start, l)
  {
    ComesRoundIff(pageSize, start, l);
    if TailComesRound(pageSize, start, l) {
      var x: nat :| start <= x < start + l.Size() && Wrapped(pageSize, start, l, x);
      var buf := OneByte(l.Padded(), x - start);
      OneByteIsLost(pageSize, start, l, x, buf);
    }
  }

  /** By sizes and start address alone: some other byte lands on address x of the image, or the right one does
      not. */
  predicate Misplaced(pageSize: nat, start: nat, l: Layout, x: nat)
    requires pageSize > 0 && l.Valid()
  {
    Wrapped(pageSize, start, l, x)
    || (Displaced(pageSize, start, l.page, x)
        && (!Rewritten(pageSize, start, l, x) || x - start + pageSize < PageStart(l.page, l.Pages())))
  }

  lemma InPlaceLands(pageSize: nat, start: nat, l: Layout, buf: seq<Byte>, x: nat)
    requires l.Valid() && pageSize > 0 && l.Padded() <= |buf| && start <= x < start + l.Size()
    requires !Misplaced(pageSize, start, l, x)
    ensures Landed(pageSize, start, l, buf, x) == buf[x - start]
  {
    AndSelf(buf[x - start]);
    AndByteOnes(buf[x - start], 255);
  }

  /** One set byte is cleared, or a zero is not stored. */
  lemma MisplacedFails(pageSize: nat, start: nat, l: Layout, x: nat, one: seq<Byte>, none: seq<Byte>)
    requires l.Valid() && pageSize > 0 && pageSize % l.page == 0 && start <= x < start + l.Size()
    requires Misplaced(pageSize, start, l, x)
    requires one == OneByte(l.Padded(), x - start) && none == OneByte(l.Padded(), l.Padded())
    ensures Landed(pageSize, start, l, one, x) != one[x - start]
         || Landed(pageSize, start, l, none, x) != none[x - start]
  {
    PageDivides(l.page, pageSize);
    WrappedIsRead(pageSize, start, l, x);
    l.PagesFit();
    AndZero(255);
    AndZero(0);
  }

  /** Wherever the image starts: it is stored, for every buffer, exactly when none of its addresses is
      misplaced. */
  lemma AnyStartIff(pageSize: nat, start: nat, l: Layout)
    requires l.Valid() && pageSize > 0 && pageSize % l.page == 0
    ensures (forall buf: seq<Byte> :: l.Padded() <= |buf| ==> AllLand(pageSize, start, l, buf)) <==>
      forall x: nat :: start <= x < start + l.Size() ==> !Misplaced(pageSize, start, l, x)
  {
    if x: nat :| start <= x < start + l.Size() && Misplaced(pageSize, start, l, x) {
      var one, none := OneByte(l.Padded(), x - start), OneByte(l.Padded(), l.Padded());
      MisplacedFails(pageSize, start, l, x, one, none);
      assert !AllLand(pageSize, start, l, one) || !AllLand(pageSize, start, l, none);
    } else {
      forall buf: seq<Byte> | l.Padded() <= |buf| ensures AllLand(pageSize, start, l, buf) {
        forall x | start <= x < start + l.Size() ensures Landed(pageSize, start, l, buf, x) == buf[x - start] {
          InPlaceLands(pageSize, start, l, buf, x);
        }
      }
    }
  }

  /** From an unaligned start, an image that goes on beyond the next flash page is never safe. */
  lemma UnalignedIsMisplaced(pageSize: nat, start: nat, l: Layout, x: nat)
    requires l.Valid() && pageSize > 0 && pageSize % l.page == 0 && start % l.page != 0
    requires x == PageBase(pageSize, start) + pageSize && x + pageSize < start + l.Size()
    ensures start <= x && Misplaced(pageSize, start, l, x)
  {
    InNextPage(pageSize, start, x, PageBase(pageSize, start));
    var _ := BaseOf(pageSize, start);
    l.PagesFit();
  }

  /** Inside a single flash page only the tail step matters, from any start. */
  lemma OnePageIsInPlace(pageSize: nat, start: nat, l: Layout, x: nat)
    requires l.Valid() && pageSize > 0 && pageSize % l.page == 0
    requires start <= x < start + l.Size() <= PageBase(pageSize, start) + pageSize
    ensures Misplaced(pageSize, start, l, x) <==> Wrapped(pageSize, start, l, x)
  {
    InSamePage(pageSize, start, x, PageBase(pageSize, start));
    Crossing(pageSize, l.page, start, PageBase(pageSize, start));
  }

  /** When the programming page is the flash's own, that is a matter of the remainder. */
  lemma OwnPageIff(pageSize: nat, start: nat, l: Layout)
    requires l.Valid() && Aligned(pageSize, start, l.page) && pageSize == l.page
    ensures TailComesRound(pageSize, start, l) <==> 0 < 2 * l.rest < l.page
  {
    if l.rest != 0 {
      var at := start + l.TailOffset();
      LastPage(pageSize, start, l, at, PageBase(pageSize, at));
    }
  }

  /** One byte of a 256-byte page: the tail step reaches 254 bytes past the page's end. */
  lemma WrapExample()
    ensures var l := Layout(256, 0, 0, 1); Wrapped(256, 0, l, 0) && l.Padded() == 510
  {
  }
}
