/** Bytes, bits and the two packings of a monochrome bitmap used by the driver.

    Row-major packing (MicroPython's MONO_HMSB): a row occupies ByteSize(w)
    consecutive bytes and pixel (x, y) is bit x % 8 of byte y * ByteSize(w) + x / 8.
    Page-major packing (MONO_VLSB): bytes hold 8-pixel vertical strips and pixel
    (x, y) is bit y % 8 of byte (y / 8) * w + x.  Bit 0 is the least significant. */
module Bits {

  /** Bytes in one row of a row-major bitmap of the given width: ((width - 1) >> 3) + 1.
      Dafny's division by a positive constant floors, exactly like Python's `>>`. */
  function ByteSize(width: int): (r: int)
    ensures width >= 0 ==> 0 <= r && 8 * r - 8 < width <= 8 * r
  {
    (width - 1) / 8 + 1
  }

  /** The constructor's ceiling division `-(-width // 8)` gives the same row size. */
  lemma CeilingDivision(width: int)
    ensures -((-width) / 8) == ByteSize(width)
  {
  }

  /** The byte with only bit d set. */
  function Mask(d: int): (m: bv8)
    requires 0 <= d < 8
    ensures m == (1 as bv8) << d
  {
    if d == 0 then 1 else if d == 1 then 2 else if d == 2 then 4 else if d == 3 then 8
    else if d == 4 then 16 else if d == 5 then 32 else if d == 6 then 64 else 128
  }

  /** Bit d of b. */
  predicate Bit(b: bv8, d: int)
    requires 0 <= d < 8
  {
    b & Mask(d) != 0
  }

  /** The byte whose bit d is bits[d]. */
  function Pack(bits: seq<bool>): (r: bv8)
    requires |bits| == 8
    ensures forall d :: 0 <= d < 8 ==> Bit(r, d) == bits[d]
  {
    (if bits[0] then 1 else 0) | (if bits[1] then 2 else 0) | (if bits[2] then 4 else 0) |
    (if bits[3] then 8 else 0) | (if bits[4] then 16 else 0) | (if bits[5] then 32 else 0) |
    (if bits[6] then 64 else 0) | (if bits[7] then 128 else 0)
  }

  /** Two bytes with the same eight bits are equal. */
  lemma ByteExt(a: bv8, b: bv8)
    requires forall d :: 0 <= d < 8 ==> Bit(a, d) == Bit(b, d)
    ensures a == b
  {
    assert Bit(a, 0) == Bit(b, 0) && Bit(a, 1) == Bit(b, 1) && Bit(a, 2) == Bit(b, 2);
    assert Bit(a, 3) == Bit(b, 3) && Bit(a, 4) == Bit(b, 4) && Bit(a, 5) == Bit(b, 5);
    assert Bit(a, 6) == Bit(b, 6) && Bit(a, 7) == Bit(b, 7);
  }

  /** The source's `((b >> s) & 1) << t` moves bit s of b to position t. */
  lemma ShiftedBit(b: bv8, s: int, t: int)
    requires 0 <= s < 8 && 0 <= t < 8
    ensures ((b >> s) & 1) << t == if Bit(b, s) then Mask(t) else 0
  {
  }

  /** OR-ing in a single-bit mask sets that bit and keeps the others. */
  lemma OrMask(b: bv8, t: int, d: int)
    requires 0 <= t < 8 && 0 <= d < 8
    ensures Bit(b | Mask(t), d) == (Bit(b, d) || d == t)
  {
  }

  /** OR-ing in bit t when `on` sets that bit if `on` and keeps the others. */
  lemma OrBit(b: bv8, on: bool, t: int, d: int)
    requires 0 <= t < 8 && 0 <= d < 8
    ensures Bit(b | (if on then Mask(t) else 0), d) == (Bit(b, d) || (on && d == t))
  {
    if on {
      OrMask(b, t, d);
    } else {
      assert b | 0 == b;
    }
  }

  lemma ZeroBit(d: int)
    requires 0 <= d < 8
    ensures !Bit(0, d)
  {
  }

  /** `(b << 1) | (c & 1)` moves every bit of b up by one and puts bit 0 of c at the bottom. */
  lemma ShiftInBit(b: bv8, c: bv8, d: int)
    requires 0 <= d < 8
    ensures Bit((b << 1) | (c & 1), d) == if d == 0 then Bit(c, 0) else Bit(b, d - 1)
  {
  }

  /** `b >> 1` moves every bit of b down by one and clears the top bit. */
  lemma ShiftOutBit(b: bv8, d: int)
    requires 0 <= d < 8
    ensures Bit(b >> 1, d) == (d < 7 && Bit(b, d + 1))
  {
  }

  /** XOR with 0xFF flips every bit. */
  lemma XorFlips(b: bv8, d: int)
    requires 0 <= d < 8
    ensures Bit(b ^ 0xFF, d) == !Bit(b, d)
  {
  }

  lemma MulAtLeast(m: int, n: int)
    requires m >= 1 && n > 0
    ensures m * n >= n
  {
    assert m * n == (m - 1) * n + n;
    assert (m - 1) * n >= 0;
  }

  /** Quotient and remainder are determined by a == q * n + r with 0 <= r < n. */
  lemma DivModUnique(a: int, n: int, q: int, r: int)
    requires n > 0 && 0 <= r < n && a == q * n + r
    ensures a / n == q && a % n == r
  {
    var q', r' := a / n, a % n;
    assert a == q' * n + r';
    assert (q - q') * n == r' - r by {
      assert (q - q') * n == q * n - q' * n;
    }
    if q > q' {
      MulAtLeast(q - q', n);
    } else if q < q' {
      MulAtLeast(q' - q, n);
    }
  }

  lemma MulLess(k: int, n: int, m: int)
    requires 0 <= k < m && n > 0
    ensures k * n + n <= m * n
  {
    assert m * n - k * n == (m - k) * n;
    MulAtLeast(m - k, n);
  }

  /** An index below n * m has a quotient by n below m. */
  lemma QuotientBelow(j: int, n: int, m: int)
    requires n > 0 && 0 <= j < n * m
    ensures 0 <= j / n < m
  {
    if j / n >= m {
      MulLess(m, n, j / n + 1);
    }
  }

  // ---------------------------------------------------------------------------
  // Row-major (MONO_HMSB) packing

  function RowIndex(w: int, x: int, y: int): int
  {
    y * ByteSize(w) + x / 8
  }

  /** Pixel (x, y) of a row-major bitmap of width w; also reads the padding bits
      (w <= x < 8 * ByteSize(w)); false outside the rows or the buffer. */
  predicate HPix(buf: seq<bv8>, w: int, x: int, y: int)
  {
    0 <= x < 8 * ByteSize(w) && 0 <= y && 0 <= RowIndex(w, x, y) < |buf| && Bit(buf[RowIndex(w, x, y)], x % 8)
  }

  /** The byte holding pixel (x, y) decomposes back into (y, x / 8). */
  lemma RowAddress(w: int, x: int, y: int)
    requires w > 0 && 0 <= x < 8 * ByteSize(w) && 0 <= y
    ensures RowIndex(w, x, y) / ByteSize(w) == y && RowIndex(w, x, y) % ByteSize(w) == x / 8
  {
    DivModUnique(RowIndex(w, x, y), ByteSize(w), y, x / 8);
  }

  /** Every (byte, bit) position of a row-major buffer is one pixel or padding position. */
  lemma RowSplit(w: int, j: int, d: int)
    requires w > 0 && 0 <= j && 0 <= d < 8
    ensures 0 <= (j % ByteSize(w)) * 8 + d < 8 * ByteSize(w)
    ensures RowIndex(w, (j % ByteSize(w)) * 8 + d, j / ByteSize(w)) == j
    ensures ((j % ByteSize(w)) * 8 + d) % 8 == d
  {
    var wb := ByteSize(w);
    assert ((j % wb) * 8 + d) / 8 == j % wb;
  }

  /** A pixel of a w x h bitmap lies in the first ByteSize(w) * h bytes. */
  lemma RowIndexBound(w: int, h: int, x: int, y: int)
    requires w > 0 && 0 <= x < 8 * ByteSize(w) && 0 <= y < h
    ensures 0 <= RowIndex(w, x, y) < ByteSize(w) * h
  {
    MulLess(y, ByteSize(w), h);
  }

  /** The padding bits of every row are 0. */
  ghost predicate RowPaddingClear(buf: seq<bv8>, w: int, h: int)
  {
    forall x, y :: 0 <= y < h && w <= x < 8 * ByteSize(w) ==> !HPix(buf, w, x, y)
  }

  /** A row-major w x h buffer of exact length with clear padding. */
  ghost predicate RowClean(buf: seq<bv8>, w: int, h: int)
  {
    w > 0 && h >= 0 && |buf| == ByteSize(w) * h && RowPaddingClear(buf, w, h)
  }

  /** Bit d of byte j of a row-major w x h buffer is the pixel (or padding bit)
      at column (j % ByteSize(w)) * 8 + d of row j / ByteSize(w). */
  lemma RowBitPixel(a: seq<bv8>, w: int, h: int, j: int, d: int)
    requires w > 0 && |a| == ByteSize(w) * h && 0 <= j < |a| && 0 <= d < 8
    ensures 0 <= (j % ByteSize(w)) * 8 + d < 8 * ByteSize(w) && 0 <= j / ByteSize(w) < h
    ensures HPix(a, w, (j % ByteSize(w)) * 8 + d, j / ByteSize(w)) == Bit(a[j], d)
  {
    var wb := ByteSize(w);
    RowSplit(w, j, d);
    QuotientBelow(j, wb, h);
  }

  /** Two clean row-major bitmaps with the same pixels are the same bytes. */
  lemma RowMajorExt(a: seq<bv8>, b: seq<bv8>, w: int, h: int)
    requires RowClean(a, w, h) && RowClean(b, w, h)
    requires forall x, y :: 0 <= x < w && 0 <= y < h ==> HPix(a, w, x, y) == HPix(b, w, x, y)
    ensures a == b
  {
    forall j | 0 <= j < |a|
      ensures a[j] == b[j]
    {
      forall d | 0 <= d < 8
        ensures Bit(a[j], d) == Bit(b[j], d)
      {
        RowBitPixel(a, w, h, j, d);
        RowBitPixel(b, w, h, j, d);
      }
      ByteExt(a[j], b[j]);
    }
  }

  // ---------------------------------------------------------------------------
  // Page-major (MONO_VLSB) packing

  function PageIndex(w: int, x: int, y: int): int
  {
    (y / 8) * w + x
  }

  /** Pixel (x, y) of a page-major bitmap of width w; false outside the columns or the buffer. */
  predicate VPix(buf: seq<bv8>, w: int, x: int, y: int)
  {
    0 <= x < w && 0 <= y && PageIndex(w, x, y) < |buf| && Bit(buf[PageIndex(w, x, y)], y % 8)
  }

  lemma PageAddress(w: int, x: int, y: int)
    requires 0 <= x < w && 0 <= y
    ensures PageIndex(w, x, y) % w == x && PageIndex(w, x, y) / w == y / 8
  {
    DivModUnique(PageIndex(w, x, y), w, y / 8, x);
  }

  /** Every (byte, bit) position of a page-major buffer names one (x, y). */
  lemma PageSplit(w: int, j: int, d: int)
    requires w > 0 && 0 <= j && 0 <= d < 8
    ensures PageIndex(w, j % w, (j / w) * 8 + d) == j
    ensures ((j / w) * 8 + d) % 8 == d
  {
    assert ((j / w) * 8 + d) / 8 == j / w;
  }

  /** A pixel of a w x h page-major bitmap lies in the first ByteSize(h) * w bytes. */
  lemma PageIndexBound(w: int, h: int, x: int, y: int)
    requires 0 <= x < w && 0 <= y < h
    ensures 0 <= PageIndex(w, x, y) < ByteSize(h) * w
  {
    MulLess(y / 8, w, ByteSize(h));
  }

  /** The bits of the last page below row h - 1 are 0. */
  ghost predicate PagePaddingClear(buf: seq<bv8>, w: int, h: int)
  {
    forall x, y :: 0 <= x < w && h <= y < 8 * ByteSize(h) ==> !VPix(buf, w, x, y)
  }

  ghost predicate PageClean(buf: seq<bv8>, w: int, h: int)
  {
    w > 0 && h >= 0 && |buf| == ByteSize(h) * w && PagePaddingClear(buf, w, h)
  }

  /** Bit d of byte j of a page-major buffer of width w and ByteSize(h) pages is
      the pixel (or padding bit) at column j % w of row (j / w) * 8 + d. */
  lemma PageBitPixel(a: seq<bv8>, w: int, h: int, j: int, d: int)
    requires w > 0 && h >= 0 && |a| == ByteSize(h) * w && 0 <= j < |a| && 0 <= d < 8
    ensures 0 <= j % w < w && 0 <= (j / w) * 8 + d < 8 * ByteSize(h)
    ensures VPix(a, w, j % w, (j / w) * 8 + d) == Bit(a[j], d)
  {
    PageSplit(w, j, d);
    if j / w >= ByteSize(h) {
      MulLess(ByteSize(h), w, j / w + 1);
    }
  }

  /** Two clean page-major bitmaps with the same pixels are the same bytes. */
  lemma PageMajorExt(a: seq<bv8>, b: seq<bv8>, w: int, h: int)
    requires PageClean(a, w, h) && PageClean(b, w, h)
    requires forall x, y :: 0 <= x < w && 0 <= y < h ==> VPix(a, w, x, y) == VPix(b, w, x, y)
    ensures a == b
  {
    forall j | 0 <= j < |a|
      ensures a[j] == b[j]
    {
      forall d | 0 <= d < 8
        ensures Bit(a[j], d) == Bit(b[j], d)
      {
        PageBitPixel(a, w, h, j, d);
        PageBitPixel(b, w, h, j, d);
      }
      ByteExt(a[j], b[j]);
    }
  }
}
