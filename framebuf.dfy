/*
  The contract of the MicroPython framebuf calls the driver makes on its live
  frame. The live frame is page-major (MONO_VLSB, pico/ssd1309.py:95); sprites
  made by make_fb are row-major (MONO_HMSB, pico/ssd1309.py:250-253).

  Each call either inks a set of pixels with one colour (pixel, hline, vline,
  fill_rect, rect, line, text) or copies a sprite (blit). Its effect on the
  frame is given by Apply: every on-screen pixel the call touches gets its new
  value, every other pixel and every padding bit keeps its old one.
*/
module FrameBuf {
  import opened Bits
  import Convert

  /** A MONO_HMSB frame buffer of w x h pixels over the given bytes. */
  datatype Sprite = Sprite(w: int, h: int, bits: seq<bv8>)

  /** Pixel (i, j) of a sprite; false outside its w x h area. */
  predicate SpritePix(s: Sprite, i: int, j: int)
  {
    0 <= i < s.w && 0 <= j < s.h && HPix(s.bits, s.w, i, j)
  }

  /** The pixels one framebuf drawing call inks, before clipping to the screen. */
  datatype Stroke =
    | Pixel(x: int, y: int)                    // pixel(x, y, c)
    | HLine(x: int, y: int, w: int)            // hline(x, y, w, c)
    | VLine(x: int, y: int, h: int)            // vline(x, y, h, c)
    | FillRect(x: int, y: int, w: int, h: int) // fill_rect(x, y, w, h, c)
    | Rect(x: int, y: int, w: int, h: int)     // rect(x, y, w, h, c): the outline
    | Points(pts: set<(int, int)>)             // line(...) and text(...): the pixels framebuf chooses

  /** The pixels framebuf's line(x1, y1, x2, y2, c) inks; framebuf's own choice. */
  type Raster = (int, int, int, int) -> set<(int, int)>

  /** One framebuf call: ink a stroke with a colour, or blit a sprite at (x, y). */
  datatype Effect = Ink(stroke: Stroke, colour: bool) | Blit(sprite: Sprite, x: int, y: int)

  /** The colour the driver passes for `invert`: int(invert ^ 1). */
  function Colour(invert: bool): (c: bool)
    ensures c != invert
  {
    !invert
  }

  predicate InRect(x: int, y: int, w: int, h: int, px: int, py: int)
  {
    x <= px < x + w && y <= py < y + h
  }

  /** Does the stroke ink pixel (px, py)? */
  predicate Covers(s: Stroke, px: int, py: int)
  {
    match s
    case Pixel(x, y) => px == x && py == y
    case HLine(x, y, w) => InRect(x, y, w, 1, px, py)
    case VLine(x, y, h) => InRect(x, y, 1, h, px, py)
    case FillRect(x, y, w, h) => InRect(x, y, w, h, px, py)
    case Rect(x, y, w, h) =>
      InRect(x, y, w, h, px, py) && (px == x || px == x + w - 1 || py == y || py == y + h - 1)
    case Points(pts) => (px, py) in pts
  }

  /** The value pixel (px, py) has after the call, given the value it had. */
  predicate NewPix(e: Effect, before: bool, px: int, py: int)
  {
    match e
    case Ink(s, c) => if Covers(s, px, py) then c else before
    case Blit(sp, x, y) =>
      if 0 <= px - x < sp.w && 0 <= py - y < sp.h then SpritePix(sp, px - x, py - y) else before
  }

  /** Bit d of byte j of a W x H page-major frame after the call. */
  predicate BitAfter(frame: seq<bv8>, W: int, H: int, e: Effect, j: int, d: int)
    requires 0 <= j < |frame| && 0 <= d < 8
  {
    if W > 0 && (j / W) * 8 + d < H then NewPix(e, Bit(frame[j], d), j % W, (j / W) * 8 + d)
    else Bit(frame[j], d)
  }

  /** Bits 0 .. n - 1 of byte j of the frame after the call, the others clear. */
  function BitsAfter(frame: seq<bv8>, W: int, H: int, e: Effect, j: int, n: nat): bv8
    requires 0 <= j < |frame| && n <= 8
  {
    if n == 0 then 0
    else BitsAfter(frame, W, H, e, j, n - 1) | (if BitAfter(frame, W, H, e, j, n - 1) then Mask(n - 1) else 0)
  }

  lemma {:induction false} BitsAfterBit(frame: seq<bv8>, W: int, H: int, e: Effect, j: int, n: nat, d: int)
    requires 0 <= j < |frame| && n <= 8 && 0 <= d < 8
    ensures Bit(BitsAfter(frame, W, H, e, j, n), d) == (d < n && BitAfter(frame, W, H, e, j, d))
  {
    if n > 0 {
      BitsAfterBit(frame, W, H, e, j, n - 1, d);
      OrBit(BitsAfter(frame, W, H, e, j, n - 1), BitAfter(frame, W, H, e, j, n - 1), n - 1, d);
    } else {
      ZeroBit(d);
    }
  }

  /** Byte j of the frame after the call. */
  function NewByte(frame: seq<bv8>, W: int, H: int, e: Effect, j: int): bv8
    requires 0 <= j < |frame|
  {
    BitsAfter(frame, W, H, e, j, 8)
  }

  /** The frame after one framebuf call. */
  function Apply(frame: seq<bv8>, W: int, H: int, e: Effect): (r: seq<bv8>)
    ensures |r| == |frame|
  {
    seq(|frame|, j requires 0 <= j < |frame| => NewByte(frame, W, H, e, j))
  }

  /** Every byte of the frame is rebuilt from its bits after the call. */
  lemma ApplyAt(frame: seq<bv8>, W: int, H: int, e: Effect, j: int)
    requires 0 <= j < |frame|
    ensures Apply(frame, W, H, e)[j] == NewByte(frame, W, H, e, j)
  {
  }

  /** Every on-screen pixel of the frame gets its new value. */
  lemma ApplyPixel(frame: seq<bv8>, W: int, H: int, e: Effect, x: int, y: int)
    requires 0 <= x < W && 0 <= y < H && |frame| >= ByteSize(H) * W
    ensures VPix(Apply(frame, W, H, e), W, x, y) == NewPix(e, VPix(frame, W, x, y), x, y)
  {
    var j := PageIndex(W, x, y);
    PageIndexBound(W, H, x, y);
    PageAddress(W, x, y);
    assert (j / W) * 8 + y % 8 == y;
    ApplyAt(frame, W, H, e, j);
    BitsAfterBit(frame, W, H, e, j, 8, y % 8);
  }

  /** Bits that are not on-screen pixels (the padding below row H - 1 and what
      lies beyond the last page) are left alone. */
  lemma ApplyPadding(frame: seq<bv8>, W: int, H: int, e: Effect, j: int, d: int)
    requires 0 <= j < |frame| && 0 <= d < 8
    requires W <= 0 || (j / W) * 8 + d >= H
    ensures Bit(Apply(frame, W, H, e)[j], d) == Bit(frame[j], d)
  {
    ApplyAt(frame, W, H, e, j);
    BitsAfterBit(frame, W, H, e, j, 8, d);
  }

  /** fill(0) on a frame of zero bytes: byte j stays zero. */
  lemma ClearBlankByte(frame: seq<bv8>, W: int, H: int, j: int)
    requires 0 <= j < |frame| && frame[j] == 0
    ensures Apply(frame, W, H, Ink(FillRect(0, 0, W, H), false))[j] == 0
  {
    var e := Ink(FillRect(0, 0, W, H), false);
    ApplyAt(frame, W, H, e, j);
    forall d | 0 <= d < 8
      ensures Bit(NewByte(frame, W, H, e, j), d) == Bit(0, d)
    {
      BitsAfterBit(frame, W, H, e, j, 8, d);
      ZeroBit(d);
    }
    ByteExt(NewByte(frame, W, H, e, j), 0);
  }

  /** fill(0) on a frame of zero bytes leaves it as it is. */
  lemma ClearBlank(frame: seq<bv8>, W: int, H: int)
    requires forall j :: 0 <= j < |frame| ==> frame[j] == 0
    ensures Apply(frame, W, H, Ink(FillRect(0, 0, W, H), false)) == frame
  {
    forall j | 0 <= j < |frame|
      ensures Apply(frame, W, H, Ink(FillRect(0, 0, W, H), false))[j] == frame[j]
    {
      ClearBlankByte(frame, W, H, j);
    }
  }

  /** A W x H sprite blitted at the origin of a W x H frame whose height is a
      whole number of pages replaces the frame by the page-major packing of the
      sprite's bitmap (what buf_hmsb_to_vlsb computes); the old contents do not matter. */
  lemma FullScreenBlit(frame: seq<bv8>, bits: seq<bv8>, W: nat, H: nat)
    requires W > 0 && H % 8 == 0 && |frame| == ByteSize(H) * W
    ensures Apply(frame, W, H, Blit(Sprite(W, H, bits), 0, 0)) == Convert.PageMajor(bits, W, H)
  {
    var e := Blit(Sprite(W, H, bits), 0, 0);
    var r := Apply(frame, W, H, e);
    var p := Convert.PageMajor(bits, W, H);
    assert 8 * ByteSize(H) == H;
    forall x, y | 0 <= x < W && 0 <= y < H
      ensures VPix(r, W, x, y) == VPix(p, W, x, y)
    {
      ApplyPixel(frame, W, H, e, x, y);
      Convert.PageMajorPixels(bits, W, H, x, y);
    }
    Convert.PageMajorClean(bits, W, H);
    PageMajorExt(r, p, W, H);
  }
}
