/**
  Where addresses lie in the pages of the flash, and how the pages of an image cross their ends.
 */
module FlashPages {
  import opened Arithmetic
  import opened NorFlash

  lemma BaseIs(d: nat, q: nat, r: nat, x: nat)
    requires d > 0 && r < d && x == d * q + r
    ensures PageBase(d, x) == d * q && x % d == r
  {
    DivUnique(x, d, q, r);
  }

  lemma BaseOf(d: nat, x: nat) returns (q: nat)
    requires d > 0
    ensures PageBase(d, x) == d * q && d * q <= x < d * q + d && x % d == x - d * q
  {
    q := x / d;
    FloorBounds(x, d);
    BaseIs(d, q, x - d * q, x);
  }

  lemma InSamePage(d: nat, at: nat, x: nat, base: nat)
    requires d > 0 && base == PageBase(d, at) && base <= x < base + d
    ensures PageBase(d, x) == base && x % d == x - base
  {
    var q := BaseOf(d, at);
    BaseIs(d, q, x - base, x);
  }

  lemma InNextPage(d: nat, at: nat, x: nat, base: nat)
    requires d > 0 && base == PageBase(d, at) && base + d <= x < base + d + d
    ensures PageBase(d, x) == base + d && x % d == x - base - d
  {
    var q := BaseOf(d, at);
    assert d * (q + 1) == d * q + d;
    BaseIs(d, q + 1, x - base - d, x);
  }

  lemma BaseMono(d: nat, a: nat, b: nat)
    requires d > 0 && a <= b
    ensures PageBase(d, a) <= PageBase(d, b)
  {
    var p := BaseOf(d, a);
    var q := BaseOf(d, b);
    if q < p { MulMono(d, q + 1, p); }
  }

  /** A quotient and a remainder of the start of an image page, in pages of the image. */
  lemma ImageUnits(page: nat, pageSize: nat, at: nat, q: nat) returns (a: nat, k: nat)
    requires page > 0 && pageSize > 0 && pageSize % page == 0
    ensures at == page * a + at % page && pageSize == page * k
    ensures pageSize * q == page * (k * q) && pageSize * q + pageSize == page * (k * q + k)
  {
    a, k := at / page, pageSize / page;
    assert pageSize == page * k;
    assert pageSize * q == page * (k * q);
  }

  lemma FromUnits(page: nat, a: int, u: int, k: int, r: nat)
    requires r < page && page * u <= page * a + r < page * (u + k)
    ensures u <= a && a + 1 <= u + k
    ensures page * u <= page * a && page * a + page <= page * u + page * k
    ensures page * a + r + page > page * u + page * k ==> page * a + page == page * u + page * k
  {
    if a < u { MulMono(page, a + 1, u); }
    if u + k < a + 1 { MulMono(page, u + k, a); }
    assert page * (u + k) == page * u + page * k;
    if a + 1 < u + k { MulMono(page, a + 2, u + k); }
    MulMono(page, u, a);
    MulMono(page, a + 1, u + k);
  }

  /** An image page that crosses the end of a flash page does so by the remainder of the start address. */
  lemma Crossing(pageSize: nat, page: nat, at: nat, base: nat)
    requires page > 0 && pageSize > 0 && pageSize % page == 0 && base == PageBase(pageSize, at)
    ensures base + at % page <= at && at + page <= base + pageSize + at % page
    ensures at + page > base + pageSize ==> at + page == base + pageSize + at % page
  {
    var q := BaseOf(pageSize, at);
    var a, k := ImageUnits(page, pageSize, at, q);
    var u := k * q;
    assert page * (u + k) == page * u + page * k;
    FromUnits(page, a, u, k, at % page);
  }

  lemma SameMultiple(page: nat, a: int, b: int)
    requires page * a < page * b + page && page * b < page * a + page
    ensures page * a == page * b
  {
    if page * a < page * b { MultiplesApart(page, a, b); }
    if page * b < page * a { MultiplesApart(page, b, a); }
  }

  lemma OneMore(page: nat, a: nat)
    ensures page * (a + 1) == page * a + page
  {
  }

  /** Where an image page ends, and where the flash page of x does, in pages of the image. */
  lemma Ends(pageSize: nat, page: nat, at: nat, x: nat, base: nat) returns (a: nat, u: nat)
    requires page > 0 && pageSize > 0 && pageSize % page == 0 && base == PageBase(pageSize, x)
    ensures at + page == page * a + at % page && base + pageSize == page * u
  {
    var q := BaseOf(pageSize, x);
    var b, k := ImageUnits(page, pageSize, at, q);
    OneMore(page, b);
    a, u := b + 1, k * q + k;
  }

  /** The image page whose wrapped part lies at the start of flash page `base` is the one that crosses
      its end. */
  lemma CrossesEnd(pageSize: nat, page: nat, at: nat, x: nat, base: nat)
    requires page > 0 && pageSize > 0 && pageSize % page == 0 && base == PageBase(pageSize, x)
    requires base <= x && x - base < at % page && at <= x + pageSize < at + page
    ensures at + page == base + pageSize + at % page && PageBase(pageSize, at) == base
  {
    var a, u := Ends(pageSize, page, at, x, base);
    SameMultiple(page, a, u);
    PageDivides(page, pageSize);
    var q := BaseOf(pageSize, x);
    BaseIs(pageSize, q, at - base, at);
  }

  lemma PageDivides(page: nat, pageSize: nat)
    requires page > 0 && pageSize > 0 && pageSize % page == 0
    ensures page <= pageSize
  {
    if pageSize < page { DivUnique(pageSize, page, 0, pageSize); }
  }
}
