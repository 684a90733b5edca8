/** The bitmap format converters of the driver: in-place inversion, rotation by
    90, 180 and 270 degrees, horizontal mirroring and the re-layout from
    row-major (MONO_HMSB) to page-major (MONO_VLSB) packing.

    Each converter is a method that works like the source (a loop that ORs bits
    into a fresh zero-filled buffer, or XORs bytes in place) and is proved equal
    to a specification function on sequences; the pixel-level promises and the
    round trips are lemmas about those functions. */
module Convert {
  import opened Bits

  // ---------------------------------------------------------------------------
  // Inversion

  /** Every byte XORed with 0xFF. */
  function Inverted(buf: seq<bv8>): (r: seq<bv8>)
    ensures |r| == |buf|
  {
    seq(|buf|, i requires 0 <= i < |buf| => buf[i] ^ 0xFF)
  }

  /** Inversion turns every lit pixel off and every dark pixel on. */
  lemma InvertedPixels(buf: seq<bv8>, w: int, x: int, y: int)
    requires 0 <= x < 8 * ByteSize(w) && 0 <= y && 0 <= RowIndex(w, x, y) < |buf|
    ensures HPix(Inverted(buf), w, x, y) == !HPix(buf, w, x, y)
  {
    XorFlips(buf[RowIndex(w, x, y)], x % 8);
  }

  /** Inverting twice gives the original buffer back. */
  lemma InvertTwice(buf: seq<bv8>)
    ensures Inverted(Inverted(buf)) == buf
  {
  }

  /** The `buf[idx] ^= 0xFF` loop of xform_buf: it changes the caller's buffer. */
  method InvertInPlace(buf: array<bv8>)
    modifies buf
    ensures buf[..] == Inverted(old(buf[..]))
  {
    for idx := 0 to buf.Length
      invariant forall k :: 0 <= k < idx ==> buf[k] == old(buf[k]) ^ 0xFF
      invariant forall k :: idx <= k < buf.Length ==> buf[k] == old(buf[k])
    {
      buf[idx] := buf[idx] ^ 0xFF;
    }
  }

  // ---------------------------------------------------------------------------
  // Rotation by 180 degrees: reverse the byte order and the bit order of each byte

  /** The byte with its bit order reversed. */
  function ReverseBits(b: bv8): (r: bv8)
    ensures forall d :: 0 <= d < 8 ==> Bit(r, d) == Bit(b, 7 - d)
  {
    Pack(seq(8, d requires 0 <= d < 8 => Bit(b, 7 - d)))
  }

  lemma ReverseBitsTwice(b: bv8)
    ensures ReverseBits(ReverseBits(b)) == b
  {
    ByteExt(ReverseBits(ReverseBits(b)), b);
  }

  /** What the inner loop of the 180-degree branch knows after i rounds: the
      first i bits of b, reversed, are in newByte, and curByte is b shifted right by i. */
  ghost predicate ReversedUpTo(b: bv8, newByte: bv8, curByte: bv8, i: int)
  {
    0 <= i <= 8 &&
    (forall k :: 0 <= k < 8 ==> Bit(curByte, k) == (k + i < 8 && Bit(b, k + i))) &&
    (forall k :: 0 <= k < 8 ==> Bit(newByte, k) == (k < i && Bit(b, i - 1 - k)))
  }

  /** One bit of one round of the reversal loop. */
  lemma ReverseStepBit(b: bv8, newByte: bv8, curByte: bv8, i: int, k: int)
    requires 0 <= i < 8 && 0 <= k < 8 && ReversedUpTo(b, newByte, curByte, i)
    ensures Bit((newByte << 1) | (curByte & 1), k) == (k < i + 1 && Bit(b, i - k))
    ensures Bit(curByte >> 1, k) == (k + i + 1 < 8 && Bit(b, k + i + 1))
  {
    ShiftInBit(newByte, curByte, k);
    ShiftOutBit(curByte, k);
    if k > 0 {
      assert Bit(newByte, k - 1) == (k - 1 < i && Bit(b, i - 1 - (k - 1)));
    } else {
      assert Bit(curByte, 0) == (i < 8 && Bit(b, i));
    }
    if k < 7 {
      assert Bit(curByte, k + 1) == (k + 1 + i < 8 && Bit(b, k + 1 + i));
    }
  }

  lemma ReverseStep(b: bv8, newByte: bv8, curByte: bv8, i: int)
    requires 0 <= i < 8 && ReversedUpTo(b, newByte, curByte, i)
    ensures ReversedUpTo(b, (newByte << 1) | (curByte & 1), curByte >> 1, i + 1)
  {
    var n, c := (newByte << 1) | (curByte & 1), curByte >> 1;
    forall k | 0 <= k < 8
      ensures Bit(n, k) == (k < i + 1 && Bit(b, i - k))
      ensures Bit(c, k) == (k + i + 1 < 8 && Bit(b, k + i + 1))
    {
      ReverseStepBit(b, newByte, curByte, i, k);
    }
  }

  /** The inner loop of the 180-degree branch: shift the result left and move in
      the lowest bit of what is left of the input, eight times. */
  method ReverseByte(b: bv8) returns (newByte: bv8)
    ensures newByte == ReverseBits(b)
  {
    var curByte := b;
    newByte := 0;
    for i := 0 to 8
      invariant ReversedUpTo(b, newByte, curByte, i)
    {
      ReverseStep(b, newByte, curByte, i);
      newByte := newByte << 1;
      newByte := newByte | (curByte & 1);
      curByte := curByte >> 1;
    }
    ByteExt(newByte, ReverseBits(b));
  }

  /** Byte i of the result is byte len - 1 - i of the input with its bits reversed. */
  function Rotated180(buf: seq<bv8>): (r: seq<bv8>)
    ensures |r| == |buf|
  {
    seq(|buf|, i requires 0 <= i < |buf| => ReverseBits(buf[|buf| - 1 - i]))
  }

  /** The rotation lands at byte len - 1 - i with reversed bits, for every i. */
  lemma Rotated180At(buf: seq<bv8>, i: int)
    requires 0 <= i < |buf|
    ensures Rotated180(buf)[|buf| - 1 - i] == ReverseBits(buf[i])
  {
  }

  /** Rotating by 180 twice gives the original buffer back. */
  lemma Rotate180Twice(buf: seq<bv8>)
    ensures Rotated180(Rotated180(buf)) == buf
  {
    forall i | 0 <= i < |buf|
      ensures Rotated180(Rotated180(buf))[i] == buf[i]
    {
      ReverseBitsTwice(buf[i]);
    }
  }

  /** Byte arithmetic of the 180-degree rotation: the mirrored position lives in
      the mirrored byte, at the mirrored bit. */
  lemma MirroredAddress(w: int, h: int, x: int, y: int)
    requires w > 0 && 0 <= x < 8 * ByteSize(w) && 0 <= y < h
    ensures (8 * ByteSize(w) - 1 - x) % 8 == 7 - x % 8
    ensures RowIndex(w, 8 * ByteSize(w) - 1 - x, h - 1 - y) == ByteSize(w) * h - 1 - RowIndex(w, x, y)
  {
    var wb := ByteSize(w);
    var x' := 8 * wb - 1 - x;
    DivModUnique(x', 8, wb - 1 - x / 8, 7 - x % 8);
    assert (h - 1 - y) * wb == h * wb - wb - y * wb;
  }

  /** On a row-major w x h bitmap the byte reversal sends pixel (x, y) to
      (8 * ByteSize(w) - 1 - x, h - 1 - y): it rotates the whole padded rows. */
  lemma Rotate180Pixels(buf: seq<bv8>, w: int, h: int, x: int, y: int)
    requires w > 0 && |buf| == ByteSize(w) * h
    requires 0 <= x < 8 * ByteSize(w) && 0 <= y < h
    ensures HPix(Rotated180(buf), w, 8 * ByteSize(w) - 1 - x, h - 1 - y) == HPix(buf, w, x, y)
  {
    MirroredAddress(w, h, x, y);
    RowIndexBound(w, h, x, y);
    Rotated180At(buf, RowIndex(w, x, y));
  }

  /** So it is a true rotation of the image exactly when the width is a multiple of 8. */
  lemma Rotate180IsRotation(buf: seq<bv8>, w: int, h: int, x: int, y: int)
    requires w > 0 && w % 8 == 0 && |buf| == ByteSize(w) * h
    requires 0 <= x < w && 0 <= y < h
    ensures HPix(Rotated180(buf), w, w - 1 - x, h - 1 - y) == HPix(buf, w, x, y)
  {
    DivModUnique(w - 1, 8, w / 8 - 1, 7);
    assert 8 * ByteSize(w) == w;
    Rotate180Pixels(buf, w, h, x, y);
  }

  /** The 180-degree branch of xform_buf. */
  method Rotate180(buf: array<bv8>) returns (buf2: array<bv8>)
    ensures fresh(buf2) && buf2[..] == Rotated180(buf[..])
  {
    var bufLen := buf.Length;
    buf2 := new bv8[bufLen](_ => 0);
    for idx := 0 to bufLen
      invariant forall k :: 0 <= k < idx ==> buf2[bufLen - 1 - k] == ReverseBits(buf[k])
    {
      var newByte := ReverseByte(buf[idx]);
      buf2[bufLen - 1 - idx] := newByte;
    }
    assert forall i :: 0 <= i < bufLen ==> buf2[i] == buf2[bufLen - 1 - (bufLen - 1 - i)];
  }

  // ---------------------------------------------------------------------------
  // Quarter turns and the page-major re-layout: scatter one source pixel per step

  /** The three conversions that move each pixel of a row-major w x h source to
      one bit of a zero-filled result of ByteSize(h) * w bytes:
      Quarter (90 degrees: (x, y) goes to (h - 1 - y, x) of the h x w result),
      ThreeQuarter (270 degrees: (x, y) goes to (y, w - 1 - x)) and
      Pages (page-major packing of the same w x h image). */
  datatype Scatter = Quarter | ThreeQuarter | Pages

  /** Output bit d of output byte j holds a pixel rather than padding. */
  predicate Carries(t: Scatter, w: int, h: int, j: int, d: int)
  {
    var hb := ByteSize(h);
    0 <= j < hb * w && 0 <= d < 8 &&
    match t
    case Pages => w > 0 && (j / w) * 8 + d < h
    case _ => hb > 0 && (j % hb) * 8 + d < h
  }

  /** The source pixel whose value output bit (j, d) receives. */
  function Source(t: Scatter, w: int, h: int, j: int, d: int): (int, int)
    requires Carries(t, w, h, j, d)
  {
    var hb := ByteSize(h);
    match t
    case Quarter => (j / hb, h - 1 - ((j % hb) * 8 + d))
    case ThreeQuarter => (w - 1 - j / hb, (j % hb) * 8 + d)
    case Pages => (j % w, (j / w) * 8 + d)
  }

  /** The (byte, bit) that source pixel (x, y) is ORed into, as the source computes it. */
  function Dest(t: Scatter, w: int, h: int, x: int, y: int): (int, int)
  {
    match t
    case Quarter => (RowIndex(h, h - 1 - y, x), (h - 1 - y) % 8)
    case ThreeQuarter => (RowIndex(h, y, w - 1 - x), y % 8)
    case Pages => (PageIndex(w, x, y), y % 8)
  }

  lemma QuarterDestThenSource(w: int, h: int, x: int, y: int)
    requires 0 <= x < w && 0 <= y < h
    ensures var (j, d) := Dest(Quarter, w, h, x, y); Carries(Quarter, w, h, j, d) && Source(Quarter, w, h, j, d) == (x, y)
  {
    RowAddress(h, h - 1 - y, x);
    RowIndexBound(h, w, h - 1 - y, x);
  }

  lemma ThreeQuarterDestThenSource(w: int, h: int, x: int, y: int)
    requires 0 <= x < w && 0 <= y < h
    ensures var (j, d) := Dest(ThreeQuarter, w, h, x, y); Carries(ThreeQuarter, w, h, j, d) && Source(ThreeQuarter, w, h, j, d) == (x, y)
  {
    RowAddress(h, y, w - 1 - x);
    RowIndexBound(h, w, y, w - 1 - x);
  }

  lemma PagesDestThenSource(w: int, h: int, x: int, y: int)
    requires 0 <= x < w && 0 <= y < h
    ensures var (j, d) := Dest(Pages, w, h, x, y); Carries(Pages, w, h, j, d) && Source(Pages, w, h, j, d) == (x, y)
  {
    PageAddress(w, x, y);
    PageIndexBound(w, h, x, y);
  }

  /** Every source pixel is carried by the bit it is ORed into. */
  lemma DestThenSource(t: Scatter, w: int, h: int, x: int, y: int)
    requires 0 <= x < w && 0 <= y < h
    ensures Carries(t, w, h, Dest(t, w, h, x, y).0, Dest(t, w, h, x, y).1)
    ensures Source(t, w, h, Dest(t, w, h, x, y).0, Dest(t, w, h, x, y).1) == (x, y)
  {
    match t
    case Quarter => QuarterDestThenSource(w, h, x, y);
    case ThreeQuarter => ThreeQuarterDestThenSource(w, h, x, y);
    case Pages => PagesDestThenSource(w, h, x, y);
  }

  lemma QuarterSourceThenDest(w: int, h: int, j: int, d: int)
    requires Carries(Quarter, w, h, j, d)
    ensures var (x, y) := Source(Quarter, w, h, j, d); 0 <= x < w && 0 <= y < h && Dest(Quarter, w, h, x, y) == (j, d)
  {
    var hb := ByteSize(h);
    var c := (j % hb) * 8 + d;
    RowSplit(h, j, d);
    QuotientBelow(j, hb, w);
    assert h - 1 - (h - 1 - c) == c;
  }

  lemma ThreeQuarterSourceThenDest(w: int, h: int, j: int, d: int)
    requires Carries(ThreeQuarter, w, h, j, d)
    ensures var (x, y) := Source(ThreeQuarter, w, h, j, d); 0 <= x < w && 0 <= y < h && Dest(ThreeQuarter, w, h, x, y) == (j, d)
  {
    var hb := ByteSize(h);
    var r := j / hb;
    RowSplit(h, j, d);
    QuotientBelow(j, hb, w);
    assert w - 1 - (w - 1 - r) == r;
  }

  lemma PagesSourceThenDest(w: int, h: int, j: int, d: int)
    requires Carries(Pages, w, h, j, d)
    ensures var (x, y) := Source(Pages, w, h, j, d); 0 <= x < w && 0 <= y < h && Dest(Pages, w, h, x, y) == (j, d)
  {
    PageSplit(w, j, d);
  }

  /** Every carried bit is the destination of its own source pixel. */
  lemma SourceThenDest(t: Scatter, w: int, h: int, j: int, d: int)
    requires Carries(t, w, h, j, d)
    ensures var (x, y) := Source(t, w, h, j, d); 0 <= x < w && 0 <= y < h && Dest(t, w, h, x, y) == (j, d)
  {
    match t
    case Quarter => QuarterSourceThenDest(w, h, j, d);
    case ThreeQuarter => ThreeQuarterSourceThenDest(w, h, j, d);
    case Pages => PagesSourceThenDest(w, h, j, d);
  }

  /** Value of output bit (j, d): its source pixel, or 0 for padding. */
  predicate OutBit(t: Scatter, buf: seq<bv8>, w: int, h: int, j: int, d: int)
  {
    Carries(t, w, h, j, d) && HPix(buf, w, Source(t, w, h, j, d).0, Source(t, w, h, j, d).1)
  }

  function Scattered(t: Scatter, buf: seq<bv8>, w: nat, h: nat): (r: seq<bv8>)
    ensures |r| == ByteSize(h) * w
  {
    seq(ByteSize(h) * w, j requires 0 <= j < ByteSize(h) * w =>
      Pack(seq(8, d requires 0 <= d < 8 => OutBit(t, buf, w, h, j, d))))
  }

  /** The result of rotating a w x h row-major bitmap by 90 degrees to the right. */
  function Rotated90(buf: seq<bv8>, w: nat, h: nat): seq<bv8>
  {
    Scattered(Quarter, buf, w, h)
  }

  /** The result of rotating a w x h row-major bitmap by 90 degrees to the left. */
  function Rotated270(buf: seq<bv8>, w: nat, h: nat): seq<bv8>
  {
    Scattered(ThreeQuarter, buf, w, h)
  }

  /** The page-major packing of a w x h row-major bitmap. */
  function PageMajor(buf: seq<bv8>, w: nat, h: nat): seq<bv8>
  {
    Scattered(Pages, buf, w, h)
  }

  /** Source pixel (x, y) comes strictly before the loop position (X, Y) in the
      order `for y in range(h): for x in range(w)`. */
  predicate Before(x: int, y: int, X: int, Y: int)
  {
    y < Y || (y == Y && x < X)
  }

  /** The result buffer holds exactly the pixels scattered before (X, Y). */
  ghost predicate ScatteredUpTo(t: Scatter, out: seq<bv8>, buf: seq<bv8>, w: nat, h: nat, X: int, Y: int)
  {
    |out| == ByteSize(h) * w &&
    forall j, d :: 0 <= j < |out| && 0 <= d < 8 ==>
      Bit(out[j], d) == (OutBit(t, buf, w, h, j, d) && Before(Source(t, w, h, j, d).0, Source(t, w, h, j, d).1, X, Y))
  }

  lemma ScatterStart(t: Scatter, out: seq<bv8>, buf: seq<bv8>, w: nat, h: nat)
    requires |out| == ByteSize(h) * w && forall j :: 0 <= j < |out| ==> out[j] == 0
    ensures ScatteredUpTo(t, out, buf, w, h, 0, 0)
  {
    forall j, d | 0 <= j < |out| && 0 <= d < 8 && Carries(t, w, h, j, d)
      ensures !Before(Source(t, w, h, j, d).0, Source(t, w, h, j, d).1, 0, 0)
    {
      SourceThenDest(t, w, h, j, d);
    }
  }

  /** A bit other than the one the current step sets keeps its value, and its
      source pixel is not the current one, so it keeps its meaning. */
  lemma ScatterStepOther(t: Scatter, out: seq<bv8>, buf: seq<bv8>, w: nat, h: nat, X: int, Y: int,
                         i: int, b: int, out': seq<bv8>, j: int, d: int)
    requires (i, b) == Dest(t, w, h, X, Y) && 0 <= i < |out| && 0 <= b < 8
    requires out' == out[i := out[i] | (if HPix(buf, w, X, Y) then Mask(b) else 0)]
    requires 0 <= j < |out| && 0 <= d < 8 && (j != i || d != b)
    requires Bit(out[j], d) == (OutBit(t, buf, w, h, j, d) && Before(Source(t, w, h, j, d).0, Source(t, w, h, j, d).1, X, Y))
    ensures Bit(out'[j], d) == (OutBit(t, buf, w, h, j, d) && Before(Source(t, w, h, j, d).0, Source(t, w, h, j, d).1, X + 1, Y))
  {
    OtherBitKept(out, i, b, HPix(buf, w, X, Y), j, d);
    if Carries(t, w, h, j, d) {
      OtherSource(t, w, h, X, Y, j, d);
    }
  }

  /** OR-ing a single-bit mask into byte i changes no other bit of the buffer. */
  lemma OtherBitKept(out: seq<bv8>, i: int, b: int, on: bool, j: int, d: int)
    requires 0 <= i < |out| && 0 <= b < 8 && 0 <= j < |out| && 0 <= d < 8 && (j != i || d != b)
    ensures Bit(out[i := out[i] | (if on then Mask(b) else 0)][j], d) == Bit(out[j], d)
  {
    OrMask(out[i], b, d);
  }

  /** A carried bit other than Dest(X, Y) has a source other than (X, Y). */
  lemma OtherSource(t: Scatter, w: nat, h: nat, X: int, Y: int, j: int, d: int)
    requires Carries(t, w, h, j, d) && (j, d) != Dest(t, w, h, X, Y)
    ensures Source(t, w, h, j, d) != (X, Y)
  {
    SourceThenDest(t, w, h, j, d);
  }

  /** The bit the current step sets receives the current pixel. */
  lemma ScatterStepHit(t: Scatter, out: seq<bv8>, buf: seq<bv8>, w: nat, h: nat, X: int, Y: int,
                       i: int, b: int, out': seq<bv8>)
    requires 0 <= i < |out| && 0 <= b < 8
    requires Carries(t, w, h, i, b) && Source(t, w, h, i, b) == (X, Y)
    requires out' == out[i := out[i] | (if HPix(buf, w, X, Y) then Mask(b) else 0)]
    requires Bit(out[i], b) == (OutBit(t, buf, w, h, i, b) && Before(X, Y, X, Y))
    ensures Bit(out'[i], b) == (OutBit(t, buf, w, h, i, b) && Before(X, Y, X + 1, Y))
  {
    OrMask(out[i], b, b);
  }

  /** One step of the inner loop: OR the value of pixel (X, Y) into its
      destination bit (i, b). */
  lemma ScatterStep(t: Scatter, out: seq<bv8>, buf: seq<bv8>, w: nat, h: nat, X: int, Y: int, i: int, b: int, v: bv8)
    requires ScatteredUpTo(t, out, buf, w, h, X, Y) && 0 <= X < w && 0 <= Y < h
    requires (i, b) == Dest(t, w, h, X, Y) && 0 <= b < 8
    requires v == if HPix(buf, w, X, Y) then Mask(b) else 0
    ensures 0 <= i < |out|
    ensures ScatteredUpTo(t, out[i := out[i] | v], buf, w, h, X + 1, Y)
  {
    DestThenSource(t, w, h, X, Y);
    var out' := out[i := out[i] | v];
    forall j, d | 0 <= j < |out'| && 0 <= d < 8
      ensures Bit(out'[j], d) == (OutBit(t, buf, w, h, j, d) && Before(Source(t, w, h, j, d).0, Source(t, w, h, j, d).1, X + 1, Y))
    {
      ScatterStepAt(t, out, buf, w, h, X, Y, i, b, out', j, d);
    }
  }

  lemma ScatterStepAt(t: Scatter, out: seq<bv8>, buf: seq<bv8>, w: nat, h: nat, X: int, Y: int,
                      i: int, b: int, out': seq<bv8>, j: int, d: int)
    requires (i, b) == Dest(t, w, h, X, Y) && 0 <= i < |out| && 0 <= b < 8
    requires Carries(t, w, h, i, b) && Source(t, w, h, i, b) == (X, Y)
    requires out' == out[i := out[i] | (if HPix(buf, w, X, Y) then Mask(b) else 0)]
    requires 0 <= j < |out| && 0 <= d < 8
    requires Bit(out[j], d) == (OutBit(t, buf, w, h, j, d) && Before(Source(t, w, h, j, d).0, Source(t, w, h, j, d).1, X, Y))
    ensures Bit(out'[j], d) == (OutBit(t, buf, w, h, j, d) && Before(Source(t, w, h, j, d).0, Source(t, w, h, j, d).1, X + 1, Y))
  {
    if j == i && d == b {
      ScatterStepHit(t, out, buf, w, h, X, Y, i, b, out');
    } else {
      ScatterStepOther(t, out, buf, w, h, X, Y, i, b, out', j, d);
    }
  }

  /** The end of a row of the inner loop is the start of the next one. */
  lemma ScatterNextRow(t: Scatter, out: seq<bv8>, buf: seq<bv8>, w: nat, h: nat, Y: int)
    requires ScatteredUpTo(t, out, buf, w, h, w, Y)
    ensures ScatteredUpTo(t, out, buf, w, h, 0, Y + 1)
  {
    forall j, d | 0 <= j < |out| && 0 <= d < 8 && Carries(t, w, h, j, d)
      ensures Source(t, w, h, j, d).0 < w
    {
      SourceThenDest(t, w, h, j, d);
    }
  }

  /** After the last row the result is the specification. */
  lemma ScatterDone(t: Scatter, out: seq<bv8>, buf: seq<bv8>, w: nat, h: nat)
    requires ScatteredUpTo(t, out, buf, w, h, 0, h)
    ensures out == Scattered(t, buf, w, h)
  {
    var r := Scattered(t, buf, w, h);
    forall j | 0 <= j < |out|
      ensures out[j] == r[j]
    {
      forall d | 0 <= d < 8
        ensures Bit(out[j], d) == Bit(r[j], d)
      {
        if Carries(t, w, h, j, d) {
          SourceThenDest(t, w, h, j, d);
        }
      }
      ByteExt(out[j], r[j]);
    }
  }

  /** The pixel the source reads at `buf[(y1 * w_bytes) + (x1 >> 3)] >> (x1 & 7)`. */
  lemma ReadPixel(buf: seq<bv8>, w: nat, h: nat, x: int, y: int)
    requires |buf| >= ByteSize(w) * h && 0 <= x < w && 0 <= y < h
    ensures 0 <= RowIndex(w, x, y) < |buf|
    ensures Bit(buf[RowIndex(w, x, y)], x % 8) == HPix(buf, w, x, y)
  {
    RowIndexBound(w, h, x, y);
  }

  /** The source's `((buf[srcIdx] >> srcBit) & 1) << dstBit` for pixel (x, y):
      the pixel's value moved to bit dstBit. */
  lemma PixelBit(buf: seq<bv8>, w: nat, h: nat, x: int, y: int, srcIdx: int, srcBit: int, dstBit: int)
    requires |buf| >= ByteSize(w) * h && 0 <= x < w && 0 <= y < h
    requires srcIdx == RowIndex(w, x, y) && srcBit == x % 8 && 0 <= dstBit < 8
    ensures 0 <= srcIdx < |buf|
    ensures ((buf[srcIdx] >> srcBit) & 1) << dstBit == if HPix(buf, w, x, y) then Mask(dstBit) else 0
  {
    ReadPixel(buf, w, h, x, y);
    ShiftedBit(buf[srcIdx], srcBit, dstBit);
  }

  /** The statement all three inner loops share: OR the bit of pixel (x1, y1),
      found at bit srcBit of byte srcIdx, into bit dstBit of byte dstIdx. */
  method CopyBit(t: Scatter, buf: array<bv8>, buf2: array<bv8>, w: nat, h: nat, x1: int, y1: int,
                 srcIdx: int, srcBit: int, dstIdx: int, dstBit: int)
    requires buf != buf2 && buf.Length >= ByteSize(w) * h && 0 <= x1 < w && 0 <= y1 < h
    requires srcIdx == RowIndex(w, x1, y1) && srcBit == x1 % 8
    requires (dstIdx, dstBit) == Dest(t, w, h, x1, y1) && 0 <= dstBit < 8
    requires ScatteredUpTo(t, buf2[..], buf[..], w, h, x1, y1)
    modifies buf2
    ensures ScatteredUpTo(t, buf2[..], buf[..], w, h, x1 + 1, y1)
  {
    PixelBit(buf[..], w, h, x1, y1, srcIdx, srcBit, dstBit);
    var valBit := ((buf[srcIdx] >> srcBit) & 1) << dstBit;
    ScatterStep(t, buf2[..], buf[..], w, h, x1, y1, dstIdx, dstBit, valBit);
    buf2[dstIdx] := buf2[dstIdx] | valBit;
  }

  /** One row of the 90-degree branch: the inner loop over the pixels of row y1. */
  method Rotate90Row(buf: array<bv8>, buf2: array<bv8>, w: nat, h: nat, y1: int)
    requires buf != buf2 && buf.Length >= ByteSize(w) * h && 0 <= y1 < h
    requires ScatteredUpTo(Quarter, buf2[..], buf[..], w, h, 0, y1)
    modifies buf2
    ensures ScatteredUpTo(Quarter, buf2[..], buf[..], w, h, 0, y1 + 1)
  {
    var wBytes := ByteSize(w);
    var hBytes := ByteSize(h);
    for x1 := 0 to w
      invariant ScatteredUpTo(Quarter, buf2[..], buf[..], w, h, x1, y1)
    {
      var y2 := x1;
      var x2 := (h - 1) - y1;
      var srcIdx := (y1 * wBytes) + x1 / 8;
      var srcBit := x1 % 8;
      var dstIdx := (y2 * hBytes) + x2 / 8;
      var dstBit := x2 % 8;
      CopyBit(Quarter, buf, buf2, w, h, x1, y1, srcIdx, srcBit, dstIdx, dstBit);
    }
    ScatterNextRow(Quarter, buf2[..], buf[..], w, h, y1);
  }

  /** The 90-degree branch of xform_buf. */
  method Rotate90(buf: array<bv8>, w: nat, h: nat) returns (buf2: array<bv8>)
    requires buf.Length >= ByteSize(w) * h
    ensures fresh(buf2) && buf2[..] == Rotated90(buf[..], w, h)
  {
    buf2 := new bv8[ByteSize(h) * w](_ => 0);
    ScatterStart(Quarter, buf2[..], buf[..], w, h);
    for y1 := 0 to h
      invariant ScatteredUpTo(Quarter, buf2[..], buf[..], w, h, 0, y1)
    {
      Rotate90Row(buf, buf2, w, h, y1);
    }
    ScatterDone(Quarter, buf2[..], buf[..], w, h);
  }

  /** One row of the 270-degree branch: the inner loop over the pixels of row y1. */
  method Rotate270Row(buf: array<bv8>, buf2: array<bv8>, w: nat, h: nat, y1: int)
    requires buf != buf2 && buf.Length >= ByteSize(w) * h && 0 <= y1 < h
    requires ScatteredUpTo(ThreeQuarter, buf2[..], buf[..], w, h, 0, y1)
    modifies buf2
    ensures ScatteredUpTo(ThreeQuarter, buf2[..], buf[..], w, h, 0, y1 + 1)
  {
    var wBytes := ByteSize(w);
    var hBytes := ByteSize(h);
    for x1 := 0 to w
      invariant ScatteredUpTo(ThreeQuarter, buf2[..], buf[..], w, h, x1, y1)
    {
      var y2 := (w - 1) - x1;
      var x2 := y1;
      var srcIdx := (y1 * wBytes) + x1 / 8;
      var srcBit := x1 % 8;
      var dstIdx := (y2 * hBytes) + x2 / 8;
      var dstBit := x2 % 8;
      CopyBit(ThreeQuarter, buf, buf2, w, h, x1, y1, srcIdx, srcBit, dstIdx, dstBit);
    }
    ScatterNextRow(ThreeQuarter, buf2[..], buf[..], w, h, y1);
  }

  /** The 270-degree branch of xform_buf. */
  method Rotate270(buf: array<bv8>, w: nat, h: nat) returns (buf2: array<bv8>)
    requires buf.Length >= ByteSize(w) * h
    ensures fresh(buf2) && buf2[..] == Rotated270(buf[..], w, h)
  {
    buf2 := new bv8[ByteSize(h) * w](_ => 0);
    ScatterStart(ThreeQuarter, buf2[..], buf[..], w, h);
    for y1 := 0 to h
      invariant ScatteredUpTo(ThreeQuarter, buf2[..], buf[..], w, h, 0, y1)
    {
      Rotate270Row(buf, buf2, w, h, y1);
    }
    ScatterDone(ThreeQuarter, buf2[..], buf[..], w, h);
  }

  /** xform_buf: optionally invert the caller's buffer in place, then rotate it by
      180, 90 or 270 degrees into a fresh buffer; any other angle returns the
      (possibly inverted) caller's buffer itself. The new width and height are
      swapped for the quarter turns. */
  method XformBuf(buf: array<bv8>, w: nat, h: nat, invert: bool, rotate: int)
    returns (out: array<bv8>, newW: nat, newH: nat)
    requires (rotate == 90 || rotate == 270) ==> buf.Length >= ByteSize(w) * h
    modifies buf
    ensures buf[..] == if invert then Inverted(old(buf[..])) else old(buf[..])
    ensures rotate == 180 ==> fresh(out) && out[..] == Rotated180(buf[..]) && newW == w && newH == h
    ensures rotate == 90 ==> fresh(out) && out[..] == Rotated90(buf[..], w, h) && newW == h && newH == w
    ensures rotate == 270 ==> fresh(out) && out[..] == Rotated270(buf[..], w, h) && newW == h && newH == w
    ensures rotate != 90 && rotate != 180 && rotate != 270 ==> out == buf && newW == w && newH == h
  {
    newW, newH := w, h;
    if invert {
      InvertInPlace(buf);
    }
    if rotate == 180 {
      out := Rotate180(buf);
    } else if rotate == 90 {
      newW, newH := h, w;
      out := Rotate90(buf, w, h);
    } else if rotate == 270 {
      newW, newH := h, w;
      out := Rotate270(buf, w, h);
    } else {
      out := buf;
    }
  }

  /** One row of the re-layout: the inner loop over the pixels of row y1. */
  method HmsbToVlsbRow(buf: array<bv8>, buf2: array<bv8>, w: nat, h: nat, y1: int)
    requires buf != buf2 && buf.Length >= ByteSize(w) * h && 0 <= y1 < h
    requires ScatteredUpTo(Pages, buf2[..], buf[..], w, h, 0, y1)
    modifies buf2
    ensures ScatteredUpTo(Pages, buf2[..], buf[..], w, h, 0, y1 + 1)
  {
    var wBytes := ByteSize(w);
    var hBytes := ByteSize(h);
    var page := y1 / 8;
    for x1 := 0 to w
      invariant ScatteredUpTo(Pages, buf2[..], buf[..], w, h, x1, y1)
    {
      var srcIdx := (y1 * wBytes) + x1 / 8;
      var srcBit := x1 % 8;
      var dstIdx := (page * w) + x1;
      var dstBit := y1 % 8;
      CopyBit(Pages, buf, buf2, w, h, x1, y1, srcIdx, srcBit, dstIdx, dstBit);
    }
    ScatterNextRow(Pages, buf2[..], buf[..], w, h, y1);
  }

  /** buf_hmsb_to_vlsb: re-pack a row-major bitmap page-major. */
  method HmsbToVlsb(buf: array<bv8>, w: nat, h: nat) returns (buf2: array<bv8>)
    requires buf.Length >= ByteSize(w) * h
    ensures fresh(buf2) && buf2[..] == PageMajor(buf[..], w, h)
  {
    buf2 := new bv8[ByteSize(h) * w](_ => 0);
    ScatterStart(Pages, buf2[..], buf[..], w, h);
    for y1 := 0 to h
      invariant ScatteredUpTo(Pages, buf2[..], buf[..], w, h, 0, y1)
    {
      HmsbToVlsbRow(buf, buf2, w, h, y1);
    }
    ScatterDone(Pages, buf2[..], buf[..], w, h);
  }

  // ---------------------------------------------------------------------------
  // What the scatter conversions mean for pixels

  /** The value of every output bit of a scatter conversion. */
  lemma ScatteredBit(t: Scatter, buf: seq<bv8>, w: nat, h: nat, j: int, d: int)
    requires 0 <= j < ByteSize(h) * w && 0 <= d < 8
    ensures Bit(Scattered(t, buf, w, h)[j], d) == OutBit(t, buf, w, h, j, d)
  {
  }

  /** Pixel (x, y) of the source is pixel (h - 1 - y, x) of the 90-degree turn,
      an image h wide and w high. */
  lemma Rotate90Pixels(buf: seq<bv8>, w: nat, h: nat, x: int, y: int)
    requires 0 <= x < w && 0 <= y < h
    ensures HPix(Rotated90(buf, w, h), h, h - 1 - y, x) == HPix(buf, w, x, y)
  {
    DestThenSource(Quarter, w, h, x, y);
    RowIndexBound(h, w, h - 1 - y, x);
    ScatteredBit(Quarter, buf, w, h, RowIndex(h, h - 1 - y, x), (h - 1 - y) % 8);
  }

  /** Pixel (x, y) of the source is pixel (y, w - 1 - x) of the 270-degree turn,
      an image h wide and w high. */
  lemma Rotate270Pixels(buf: seq<bv8>, w: nat, h: nat, x: int, y: int)
    requires 0 <= x < w && 0 <= y < h
    ensures HPix(Rotated270(buf, w, h), h, y, w - 1 - x) == HPix(buf, w, x, y)
  {
    DestThenSource(ThreeQuarter, w, h, x, y);
    RowIndexBound(h, w, y, w - 1 - x);
    ScatteredBit(ThreeQuarter, buf, w, h, RowIndex(h, y, w - 1 - x), y % 8);
  }

  /** The page-major packing shows exactly the pixels of the row-major source. */
  lemma PageMajorPixels(buf: seq<bv8>, w: nat, h: nat, x: int, y: int)
    requires 0 <= x < w && 0 <= y < h
    ensures VPix(PageMajor(buf, w, h), w, x, y) == HPix(buf, w, x, y)
  {
    DestThenSource(Pages, w, h, x, y);
    PageIndexBound(w, h, x, y);
    ScatteredBit(Pages, buf, w, h, PageIndex(w, x, y), y % 8);
  }

  /** A quarter turn yields a clean row-major bitmap h wide and w high: the
      padding at the end of each new row stays 0. */
  lemma TurnClean(t: Scatter, buf: seq<bv8>, w: nat, h: nat)
    requires t != Pages && h > 0
    ensures RowClean(Scattered(t, buf, w, h), h, w)
  {
    var out := Scattered(t, buf, w, h);
    forall x, y | 0 <= y < w && h <= x < 8 * ByteSize(h)
      ensures !HPix(out, h, x, y)
    {
      RowAddress(h, x, y);
      RowIndexBound(h, w, x, y);
      ScatteredBit(t, buf, w, h, RowIndex(h, x, y), x % 8);
    }
  }

  /** The page-major packing leaves the bits below the last row 0. */
  lemma PageMajorClean(buf: seq<bv8>, w: nat, h: nat)
    requires w > 0
    ensures PageClean(PageMajor(buf, w, h), w, h)
  {
    var out := PageMajor(buf, w, h);
    forall x, y | 0 <= x < w && h <= y < 8 * ByteSize(h)
      ensures !VPix(out, w, x, y)
    {
      PageAddress(w, x, y);
      if PageIndex(w, x, y) < |out| {
        ScatteredBit(Pages, buf, w, h, PageIndex(w, x, y), y % 8);
      }
    }
  }

  lemma Rotate270After90Pixel(buf: seq<bv8>, w: nat, h: nat, x: int, y: int)
    requires 0 <= x < w && 0 <= y < h
    ensures HPix(Rotated270(Rotated90(buf, w, h), h, w), w, x, y) == HPix(buf, w, x, y)
  {
    var x' := h - 1 - y;
    assert h - 1 - x' == y;
    Rotate270Pixels(Rotated90(buf, w, h), h, w, x', x);
    Rotate90Pixels(buf, w, h, x, y);
  }

  lemma Rotate90After270Pixel(buf: seq<bv8>, w: nat, h: nat, x: int, y: int)
    requires 0 <= x < w && 0 <= y < h
    ensures HPix(Rotated90(Rotated270(buf, w, h), h, w), w, x, y) == HPix(buf, w, x, y)
  {
    var y' := w - 1 - x;
    assert w - 1 - y' == x;
    Rotate90Pixels(Rotated270(buf, w, h), h, w, y, y');
    Rotate270Pixels(buf, w, h, x, y);
  }

  /** Turning left after turning right gives a clean bitmap back. */
  lemma Rotate270After90(buf: seq<bv8>, w: nat, h: nat)
    requires RowClean(buf, w, h) && h > 0
    ensures Rotated270(Rotated90(buf, w, h), h, w) == buf
  {
    var mid := Rotated90(buf, w, h);
    var out := Rotated270(mid, h, w);
    TurnClean(Quarter, buf, w, h);
    TurnClean(ThreeQuarter, mid, h, w);
    forall x, y | 0 <= x < w && 0 <= y < h
      ensures HPix(out, w, x, y) == HPix(buf, w, x, y)
    {
      Rotate270After90Pixel(buf, w, h, x, y);
    }
    RowMajorExt(out, buf, w, h);
  }

  /** Turning right after turning left gives a clean bitmap back. */
  lemma Rotate90After270(buf: seq<bv8>, w: nat, h: nat)
    requires RowClean(buf, w, h) && h > 0
    ensures Rotated90(Rotated270(buf, w, h), h, w) == buf
  {
    var mid := Rotated270(buf, w, h);
    var out := Rotated90(mid, h, w);
    TurnClean(ThreeQuarter, buf, w, h);
    TurnClean(Quarter, mid, h, w);
    forall x, y | 0 <= x < w && 0 <= y < h
      ensures HPix(out, w, x, y) == HPix(buf, w, x, y)
    {
      Rotate90After270Pixel(buf, w, h, x, y);
    }
    RowMajorExt(out, buf, w, h);
  }

  /** Different clean bitmaps have different page-major packings. */
  lemma PageMajorInjective(a: seq<bv8>, b: seq<bv8>, w: nat, h: nat)
    requires RowClean(a, w, h) && RowClean(b, w, h) && PageMajor(a, w, h) == PageMajor(b, w, h)
    ensures a == b
  {
    forall x, y | 0 <= x < w && 0 <= y < h
      ensures HPix(a, w, x, y) == HPix(b, w, x, y)
    {
      PageMajorPixels(a, w, h, x, y);
      PageMajorPixels(b, w, h, x, y);
    }
    RowMajorExt(a, b, w, h);
  }

  // ---------------------------------------------------------------------------
  // Horizontal mirror

  /** Pixel (x, y) of the mirror image of a w-wide bitmap: the pixel at the
      mirrored column, except padding and, for an odd width, the centre column,
      which no swap reaches. */
  predicate MirrorPix(buf: seq<bv8>, w: int, x: int, y: int)
  {
    0 <= x < w && 2 * x + 1 != w && HPix(buf, w, w - 1 - x, y)
  }

  function Mirrored(buf: seq<bv8>, w: nat, h: nat): (r: seq<bv8>)
    ensures |r| == ByteSize(w) * h
  {
    var wb := ByteSize(w);
    seq(wb * h, j requires 0 <= j < wb * h =>
      Pack(seq(8, d requires 0 <= d < 8 => MirrorPix(buf, w, (j % wb) * 8 + d, j / wb))))
  }

  /** Every pixel of the result, padding included, is the mirror pixel. */
  lemma MirroredPixels(buf: seq<bv8>, w: nat, h: nat, x: int, y: int)
    requires w > 0 && 0 <= x < 8 * ByteSize(w) && 0 <= y < h
    ensures HPix(Mirrored(buf, w, h), w, x, y) == MirrorPix(buf, w, x, y)
  {
    var wb := ByteSize(w);
    RowAddress(w, x, y);
    RowIndexBound(w, h, x, y);
    assert (x / 8) * 8 + x % 8 == x;
  }

  /** The swap goes both ways: for a column left of the centre, the result holds
      the input's mirror column at x and the input's column x at w - 1 - x. */
  lemma MirrorSwaps(buf: seq<bv8>, w: nat, h: nat, x: int, y: int)
    requires 0 <= x < w / 2 && 0 <= y < h
    ensures HPix(Mirrored(buf, w, h), w, x, y) == HPix(buf, w, w - 1 - x, y)
    ensures HPix(Mirrored(buf, w, h), w, w - 1 - x, y) == HPix(buf, w, x, y)
  {
    MirroredIsMirror(buf, w, h);
    MirrorOfSwaps(Mirrored(buf, w, h), buf, w, h, x, y);
  }

  lemma MirrorOfSwaps(m: seq<bv8>, buf: seq<bv8>, w: nat, h: nat, x: int, y: int)
    requires 0 <= x < w / 2 && 0 <= y < h && MirrorOf(m, buf, w, h)
    ensures HPix(m, w, x, y) == HPix(buf, w, w - 1 - x, y)
    ensures HPix(m, w, w - 1 - x, y) == HPix(buf, w, x, y)
  {
    assert w - 1 - (w - 1 - x) == x;
    assert HPix(m, w, x, y) == MirrorPix(buf, w, x, y);
    assert HPix(m, w, w - 1 - x, y) == MirrorPix(buf, w, w - 1 - x, y);
  }

  /** For an odd width the centre column of the result is clear. */
  lemma MirrorCentreClear(buf: seq<bv8>, w: nat, h: nat, y: int)
    requires w % 2 == 1 && 0 <= y < h
    ensures !HPix(Mirrored(buf, w, h), w, w / 2, y)
  {
    MirroredPixels(buf, w, h, w / 2, y);
  }

  /** m holds the mirror image of buf, pixel by pixel (padding included). */
  ghost predicate MirrorOf(m: seq<bv8>, buf: seq<bv8>, w: nat, h: nat)
  {
    forall x, y :: 0 <= x < 8 * ByteSize(w) && 0 <= y < h ==> HPix(m, w, x, y) == MirrorPix(buf, w, x, y)
  }

  lemma MirroredIsMirror(buf: seq<bv8>, w: nat, h: nat)
    requires w > 0
    ensures MirrorOf(Mirrored(buf, w, h), buf, w, h)
  {
    forall x, y | 0 <= x < 8 * ByteSize(w) && 0 <= y < h
      ensures HPix(Mirrored(buf, w, h), w, x, y) == MirrorPix(buf, w, x, y)
    {
      MirroredPixels(buf, w, h, x, y);
    }
  }

  /** For an even width, mirroring twice restores every pixel. */
  lemma MirrorTwicePixels(buf: seq<bv8>, w: nat, h: nat, x: int, y: int)
    requires w > 0 && w % 2 == 0 && 0 <= x < w && 0 <= y < h
    ensures HPix(Mirrored(Mirrored(buf, w, h), w, h), w, x, y) == HPix(buf, w, x, y)
  {
    var m1 := Mirrored(buf, w, h);
    MirroredIsMirror(buf, w, h);
    MirroredIsMirror(m1, w, h);
    MirrorOfMirror(buf, m1, Mirrored(m1, w, h), w, h, x, y);
  }

  lemma MirrorOfMirror(buf: seq<bv8>, m1: seq<bv8>, m2: seq<bv8>, w: nat, h: nat, x: int, y: int)
    requires w % 2 == 0 && 0 <= x < w && 0 <= y < h
    requires MirrorOf(m1, buf, w, h) && MirrorOf(m2, m1, w, h)
    ensures HPix(m2, w, x, y) == HPix(buf, w, x, y)
  {
    EvenMirrorPix(m1, w, x, y);
    EvenMirrorPix(buf, w, x, y);
  }

  /** For an even width no column is the centre, so the mirror pixel is the
      pixel of the mirrored column, in both directions. */
  lemma EvenMirrorPix(m: seq<bv8>, w: nat, x: int, y: int)
    requires w % 2 == 0 && 0 <= x < w
    ensures MirrorPix(m, w, x, y) == HPix(m, w, w - 1 - x, y)
    ensures MirrorPix(m, w, w - 1 - x, y) == HPix(m, w, x, y)
  {
    assert w - 1 - (w - 1 - x) == x;
  }

  /** For an even width and a buffer of exact length with clear padding,
      mirroring twice restores the bytes. */
  lemma MirrorTwice(buf: seq<bv8>, w: nat, h: nat)
    requires w % 2 == 0 && RowClean(buf, w, h)
    ensures Mirrored(Mirrored(buf, w, h), w, h) == buf
  {
    var m2 := Mirrored(Mirrored(buf, w, h), w, h);
    forall x, y | 0 <= y < h && w <= x < 8 * ByteSize(w)
      ensures !HPix(m2, w, x, y)
    {
      MirroredPixels(Mirrored(buf, w, h), w, h, x, y);
    }
    forall x, y | 0 <= x < w && 0 <= y < h
      ensures HPix(m2, w, x, y) == HPix(buf, w, x, y)
    {
      MirrorTwicePixels(buf, w, h, x, y);
    }
    RowMajorExt(m2, buf, w, h);
  }

  /** Column x of row y has been written once every row before Y is done and,
      in row Y, the L leftmost and the R rightmost columns are. */
  predicate Swapped(w: int, x: int, y: int, L: int, R: int, Y: int)
  {
    y < Y || (y == Y && (x < L || w - 1 - x < R))
  }

  ghost predicate MirroredUpTo(out: seq<bv8>, buf: seq<bv8>, w: nat, h: nat, L: int, R: int, Y: int)
  {
    |out| == ByteSize(w) * h &&
    forall x, y :: 0 <= x < 8 * ByteSize(w) && 0 <= y < h ==>
      HPix(out, w, x, y) == (MirrorPix(buf, w, x, y) && Swapped(w, x, y, L, R, Y))
  }

  /** Two pixel positions share a (byte, bit) only when they are the same position. */
  lemma PixelDistinct(w: int, x: int, y: int, x': int, y': int)
    requires w > 0 && 0 <= x < 8 * ByteSize(w) && 0 <= y && 0 <= x' < 8 * ByteSize(w) && 0 <= y'
    requires RowIndex(w, x, y) == RowIndex(w, x', y') && x % 8 == x' % 8
    ensures x == x' && y == y'
  {
    RowAddress(w, x, y);
    RowAddress(w, x', y');
  }

  /** The bit written at column x of row Y, which had not been written, receives
      the pixel at the mirrored column. */
  lemma MirrorStepHit(out: seq<bv8>, buf: seq<bv8>, w: nat, h: nat, L: int, R: int, Y: int,
                      x: int, L': int, R': int, v: bv8)
    requires 0 <= x < w && 2 * x + 1 != w && 0 <= Y < h && 0 <= RowIndex(w, x, Y) < |out|
    requires (L' == L + 1 && R' == R && x == L && L + R < w) || (L' == L && R' == R + 1 && x == w - 1 - R && L + R < w)
    requires v == if HPix(buf, w, w - 1 - x, Y) then Mask(x % 8) else 0
    requires HPix(out, w, x, Y) == (MirrorPix(buf, w, x, Y) && Swapped(w, x, Y, L, R, Y))
    ensures HPix(out[RowIndex(w, x, Y) := out[RowIndex(w, x, Y)] | v], w, x, Y) ==
            (MirrorPix(buf, w, x, Y) && Swapped(w, x, Y, L', R', Y))
  {
    OrMask(out[RowIndex(w, x, Y)], x % 8, x % 8);
  }

  /** Every other pixel keeps its value and whether it has been written. */
  lemma MirrorStepOther(out: seq<bv8>, buf: seq<bv8>, w: nat, h: nat, L: int, R: int, Y: int,
                        x: int, L': int, R': int, v: bv8, x': int, y': int)
    requires 0 <= x < w && 0 <= Y < h && 0 <= RowIndex(w, x, Y) < |out|
    requires (L' == L + 1 && R' == R && x == L) || (L' == L && R' == R + 1 && x == w - 1 - R)
    requires v == 0 || v == Mask(x % 8)
    requires 0 <= x' < 8 * ByteSize(w) && 0 <= y' && (x' != x || y' != Y)
    requires HPix(out, w, x', y') == (MirrorPix(buf, w, x', y') && Swapped(w, x', y', L, R, Y))
    ensures HPix(out[RowIndex(w, x, Y) := out[RowIndex(w, x, Y)] | v], w, x', y') ==
            (MirrorPix(buf, w, x', y') && Swapped(w, x', y', L', R', Y))
  {
    var i := RowIndex(w, x, Y);
    var j := RowIndex(w, x', y');
    if 0 <= j < |out| {
      if j == i && x' % 8 == x % 8 {
        PixelDistinct(w, x, Y, x', y');
      }
      OtherBitKept(out, i, x % 8, v != 0, j, x' % 8);
    }
  }

  /** Writing one not yet written column x of row Y (bit x % 8 of byte
      RowIndex(w, x, Y)) extends the written set. */
  lemma MirrorStep(out: seq<bv8>, buf: seq<bv8>, w: nat, h: nat, L: int, R: int, Y: int,
                   x: int, L': int, R': int, i: int, v: bv8)
    requires MirroredUpTo(out, buf, w, h, L, R, Y)
    requires 0 <= x < w && 2 * x + 1 != w && 0 <= Y < h
    requires (L' == L + 1 && R' == R && x == L && L + R < w) || (L' == L && R' == R + 1 && x == w - 1 - R && L + R < w)
    requires i == RowIndex(w, x, Y) && v == if HPix(buf, w, w - 1 - x, Y) then Mask(x % 8) else 0
    ensures 0 <= i < |out|
    ensures MirroredUpTo(out[i := out[i] | v], buf, w, h, L', R', Y)
  {
    RowIndexBound(w, h, x, Y);
    var out' := out[i := out[i] | v];
    forall x', y' | 0 <= x' < 8 * ByteSize(w) && 0 <= y' < h
      ensures HPix(out', w, x', y') == (MirrorPix(buf, w, x', y') && Swapped(w, x', y', L', R', Y))
    {
      if x' == x && y' == Y {
        MirrorStepHit(out, buf, w, h, L, R, Y, x, L', R', v);
      } else {
        MirrorStepOther(out, buf, w, h, L, R, Y, x, L', R', v, x', y');
      }
    }
  }

  lemma MirrorStart(out: seq<bv8>, buf: seq<bv8>, w: nat, h: nat)
    requires |out| == ByteSize(w) * h && forall j :: 0 <= j < |out| ==> out[j] == 0
    ensures MirroredUpTo(out, buf, w, h, 0, 0, 0)
  {
  }

  /** After w / 2 swaps every column of row Y has been written or is the centre. */
  lemma MirrorNextRow(out: seq<bv8>, buf: seq<bv8>, w: nat, h: nat, Y: int)
    requires MirroredUpTo(out, buf, w, h, w / 2, w / 2, Y)
    ensures MirroredUpTo(out, buf, w, h, 0, 0, Y + 1)
  {
  }

  lemma MirrorDone(out: seq<bv8>, buf: seq<bv8>, w: nat, h: nat)
    requires MirroredUpTo(out, buf, w, h, 0, 0, h)
    ensures out == Mirrored(buf, w, h)
  {
    if w > 0 {
      var r := Mirrored(buf, w, h);
      forall x, y | 0 <= y < h && 0 <= x < 8 * ByteSize(w)
        ensures HPix(out, w, x, y) == HPix(r, w, x, y)
      {
        MirroredPixels(buf, w, h, x, y);
      }
      RowMajorExt(out, r, w, h);
    }
  }

  /** Both byte indices a round of the mirror touches lie inside the buffer. */
  lemma MirrorIndices(w: nat, h: nat, X: int, Y: int, srcIdx: int, dstIdx: int)
    requires 0 <= X < w / 2 && 0 <= Y < h
    requires srcIdx == Y * ByteSize(w) + X / 8 && dstIdx == Y * ByteSize(w) + (w - 1 - X) / 8
    ensures 0 <= srcIdx < ByteSize(w) * h && 0 <= dstIdx < ByteSize(w) * h
  {
    RowIndexBound(w, h, X, Y);
    RowIndexBound(w, h, w - 1 - X, Y);
  }

  /** The left part of a round: column X of the source goes to column w - 1 - X. */
  lemma MirrorLeftPart(out: seq<bv8>, buf: seq<bv8>, w: nat, h: nat, X: int, Y: int,
                       srcIdx: int, srcBit: int, dstIdx: int, dstBit: int, v: bv8)
    requires MirroredUpTo(out, buf, w, h, X, X, Y) && 0 <= X < w / 2 && 0 <= Y < h
    requires |buf| >= ByteSize(w) * h
    requires srcIdx == Y * ByteSize(w) + X / 8 && srcBit == X % 8
    requires dstIdx == Y * ByteSize(w) + (w - 1 - X) / 8 && dstBit == (w - 1 - X) % 8
    requires 0 <= srcIdx < |buf| && v == (((buf[srcIdx] >> srcBit) & 1) << dstBit)
    ensures 0 <= dstIdx < |out|
    ensures MirroredUpTo(out[dstIdx := out[dstIdx] | v], buf, w, h, X, X + 1, Y)
  {
    var x2 := w - 1 - X;
    assert Bit(buf[srcIdx], srcBit) == HPix(buf, w, w - 1 - x2, Y) by {
      ReadPixel(buf, w, h, X, Y);
      assert w - 1 - x2 == X;
    }
    ShiftedBit(buf[srcIdx], srcBit, dstBit);
    MirrorStep(out, buf, w, h, X, X, Y, x2, X, X + 1, dstIdx, v);
  }

  /** The right part of a round: column w - 1 - X of the source goes to column X. */
  lemma MirrorRightPart(out: seq<bv8>, buf: seq<bv8>, w: nat, h: nat, X: int, Y: int,
                        srcIdx: int, srcBit: int, dstIdx: int, dstBit: int, v: bv8)
    requires MirroredUpTo(out, buf, w, h, X, X + 1, Y) && 0 <= X < w / 2 && 0 <= Y < h
    requires |buf| >= ByteSize(w) * h
    requires srcIdx == Y * ByteSize(w) + X / 8 && srcBit == X % 8
    requires dstIdx == Y * ByteSize(w) + (w - 1 - X) / 8 && dstBit == (w - 1 - X) % 8
    requires 0 <= dstIdx < |buf| && v == (((buf[dstIdx] >> dstBit) & 1) << srcBit)
    ensures 0 <= srcIdx < |out|
    ensures MirroredUpTo(out[srcIdx := out[srcIdx] | v], buf, w, h, X + 1, X + 1, Y)
  {
    assert Bit(buf[dstIdx], dstBit) == HPix(buf, w, w - 1 - X, Y) by {
      ReadPixel(buf, w, h, w - 1 - X, Y);
    }
    ShiftedBit(buf[dstIdx], dstBit, srcBit);
    MirrorStep(out, buf, w, h, X, X + 1, Y, X, X + 1, X + 1, srcIdx, v);
  }

  /** One row of mirror_horizontal: the inner loop over the left half of row Y. */
  method MirrorRow(buf: array<bv8>, buf2: array<bv8>, w: nat, h: nat, y1: int)
    requires buf != buf2 && buf.Length >= ByteSize(w) * h && 0 <= y1 < h
    requires MirroredUpTo(buf2[..], buf[..], w, h, 0, 0, y1)
    modifies buf2
    ensures MirroredUpTo(buf2[..], buf[..], w, h, 0, 0, y1 + 1)
  {
    var wBytes := ByteSize(w);
    for x1 := 0 to w / 2
      invariant MirroredUpTo(buf2[..], buf[..], w, h, x1, x1, y1)
    {
      var x2 := (w - 1) - x1;
      var y2 := y1;
      var srcIdx := (y1 * wBytes) + x1 / 8;
      var srcBit := x1 % 8;
      var dstIdx := (y2 * wBytes) + x2 / 8;
      var dstBit := x2 % 8;
      MirrorIndices(w, h, x1, y1, srcIdx, dstIdx);
      // left part
      var valBit1 := ((buf[srcIdx] >> srcBit) & 1) << dstBit;
      MirrorLeftPart(buf2[..], buf[..], w, h, x1, y1, srcIdx, srcBit, dstIdx, dstBit, valBit1);
      buf2[dstIdx] := buf2[dstIdx] | valBit1;
      // right part
      var valBit2 := ((buf[dstIdx] >> dstBit) & 1) << srcBit;
      MirrorRightPart(buf2[..], buf[..], w, h, x1, y1, srcIdx, srcBit, dstIdx, dstBit, valBit2);
      buf2[srcIdx] := buf2[srcIdx] | valBit2;
    }
    MirrorNextRow(buf2[..], buf[..], w, h, y1);
  }

  /** mirror_horizontal: swap each left column with its mirror image, row by row. */
  method MirrorHorizontal(buf: array<bv8>, w: nat, h: nat) returns (buf2: array<bv8>)
    requires buf.Length >= ByteSize(w) * h
    ensures fresh(buf2) && buf2[..] == Mirrored(buf[..], w, h)
  {
    var wBytes := ByteSize(w);
    var buf2Len := wBytes * h;
    buf2 := new bv8[buf2Len](_ => 0);
    MirrorStart(buf2[..], buf[..], w, h);
    for y1 := 0 to h
      invariant MirroredUpTo(buf2[..], buf[..], w, h, 0, 0, y1)
    {
      MirrorRow(buf, buf2, w, h, y1);
    }
    MirrorDone(buf2[..], buf[..], w, h);
  }
}
