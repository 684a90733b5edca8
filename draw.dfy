/*
  What the driver's drawing calls do to its live W x H page-major frame
  (pico/ssd1309.py:289-798): the bounds check, the primitives it guards, the
  line dispatch, and letters and text drawn from a font's glyphs.

  A guarded primitive is all or nothing: if any corner of its box is off the
  screen nothing is drawn, otherwise framebuf draws it. The unguarded calls
  (draw_rectangle, draw_letter's blit) leave the clipping to framebuf.
*/
module Draw {
  import opened Bits
  import opened FrameBuf

  /** is_off_grid: does the box reach past the screen on any side? */
  function OffGrid(W: int, H: int, xmin: int, ymin: int, xmax: int, ymax: int): (r: bool)
    ensures r <==> xmin < 0 || ymin < 0 || xmax >= W || ymax >= H
  {
    if xmin < 0 then true
    else if ymin < 0 then true
    else if xmax >= W then true
    else ymax >= H
  }

  /** A framebuf call behind an is_off_grid guard. */
  function Guarded(frame: seq<bv8>, W: int, H: int, off: bool, e: Effect): (r: seq<bv8>)
    ensures |r| == |frame|
  {
    if off then frame else Apply(frame, W, H, e)
  }

  /** An on-screen pixel after a guarded call: untouched when the guard trips. */
  lemma GuardedPixel(frame: seq<bv8>, W: int, H: int, off: bool, e: Effect, px: int, py: int)
    requires 0 <= px < W && 0 <= py < H && |frame| >= ByteSize(H) * W
    ensures VPix(Guarded(frame, W, H, off, e), W, px, py) ==
            if off then VPix(frame, W, px, py) else NewPix(e, VPix(frame, W, px, py), px, py)
  {
    if !off {
      ApplyPixel(frame, W, H, e, px, py);
    }
  }

  /** A guarded call leaves the padding bits alone, whether it draws or not. */
  lemma GuardedPadding(frame: seq<bv8>, W: int, H: int, off: bool, e: Effect, j: int, d: int)
    requires 0 <= j < |frame| && 0 <= d < 8
    requires W <= 0 || (j / W) * 8 + d >= H
    ensures Bit(Guarded(frame, W, H, off, e)[j], d) == Bit(frame[j], d)
  {
    if !off {
      ApplyPadding(frame, W, H, e, j, d);
    }
  }

  // ---------------------------------------------------------------------------
  // The guarded primitives

  /** draw_pixel(x, y, invert). */
  function PixelDrawn(frame: seq<bv8>, W: int, H: int, x: int, y: int, invert: bool): (r: seq<bv8>)
    ensures |r| == |frame|
  {
    Guarded(frame, W, H, OffGrid(W, H, x, y, x, y), Ink(Pixel(x, y), Colour(invert)))
  }

  /** draw_hline(x, y, w, invert): the guard tests the last pixel x + w - 1. */
  function HLineDrawn(frame: seq<bv8>, W: int, H: int, x: int, y: int, w: int, invert: bool): (r: seq<bv8>)
    ensures |r| == |frame|
  {
    Guarded(frame, W, H, OffGrid(W, H, x, y, x + w - 1, y), Ink(HLine(x, y, w), Colour(invert)))
  }

  /** draw_vline(x, y, h, invert): the guard tests y + h, one row below the last pixel. */
  function VLineDrawn(frame: seq<bv8>, W: int, H: int, x: int, y: int, h: int, invert: bool): (r: seq<bv8>)
    ensures |r| == |frame|
  {
    Guarded(frame, W, H, OffGrid(W, H, x, y, x, y + h), Ink(VLine(x, y, h), Colour(invert)))
  }

  /** clear_buffers, fill(0): colour 0 over the whole screen. */
  function Cleared(frame: seq<bv8>, W: int, H: int): (r: seq<bv8>)
    ensures |r| == |frame|
  {
    Apply(frame, W, H, Ink(FillRect(0, 0, W, H), false))
  }

  /** fill_rectangle(x, y, w, h, invert). */
  function RectFilled(frame: seq<bv8>, W: int, H: int, x: int, y: int, w: int, h: int, invert: bool): (r: seq<bv8>)
    ensures |r| == |frame|
  {
    Guarded(frame, W, H, OffGrid(W, H, x, y, x + w - 1, y + h - 1), Ink(FillRect(x, y, w, h), Colour(invert)))
  }

  /** draw_rectangle(x, y, w, h, invert): no guard; framebuf clips the outline. */
  function RectDrawn(frame: seq<bv8>, W: int, H: int, x: int, y: int, w: int, h: int, invert: bool): (r: seq<bv8>)
    ensures |r| == |frame|
  {
    Apply(frame, W, H, Ink(Rect(x, y, w, h), Colour(invert)))
  }

  /** draw_sprite(fbuf, x, y, w, h): the guard uses the w and h passed in, the
      blit the sprite's own size. */
  function SpriteDrawn(frame: seq<bv8>, W: int, H: int, fbuf: Sprite, x: int, y: int, w: int, h: int): (r: seq<bv8>)
    ensures |r| == |frame|
  {
    Guarded(frame, W, H, OffGrid(W, H, x, y, x + w - 1, y + h - 1), Blit(fbuf, x, y))
  }

  /** draw_text8x8(x, y, text): framebuf's built-in font inks `glyphs` (the pixels
      of the text at (x, y)) in colour 1; the guard tests x + 8 and y + 8. */
  function Text8x8Drawn(frame: seq<bv8>, W: int, H: int, x: int, y: int, glyphs: set<(int, int)>): (r: seq<bv8>)
    ensures |r| == |frame|
  {
    Guarded(frame, W, H, OffGrid(W, H, x, y, x + 8, y + 8), Ink(Points(glyphs), true))
  }

  function Min(a: int, b: int): int { if a < b then a else b }
  function Max(a: int, b: int): int { if a < b then b else a }

  /** Does draw_line(x1, y1, x2, y2) skip the line? Horizontal and vertical
      lines are tested by draw_hline and draw_vline from their smaller end; any
      other line by its bounding box. */
  function LineOff(W: int, H: int, x1: int, y1: int, x2: int, y2: int): bool
  {
    if y1 == y2 then OffGrid(W, H, Min(x1, x2), y1, Max(x1, x2), y1)
    else if x1 == x2 then OffGrid(W, H, x1, Min(y1, y2), x1, Max(y1, y2) + 1)
    else OffGrid(W, H, Min(x1, x2), Min(y1, y2), Max(x1, x2), Max(y1, y2))
  }

  /** The stroke draw_line asks framebuf for: a run from the smaller end for
      horizontal and vertical lines, framebuf's line (whose pixels `raster`
      gives) for any other. */
  function LineStroke(x1: int, y1: int, x2: int, y2: int, raster: Raster): Stroke
  {
    if y1 == y2 then HLine(Min(x1, x2), y1, Max(x1, x2) - Min(x1, x2) + 1)
    else if x1 == x2 then VLine(x1, Min(y1, y2), Max(y1, y2) - Min(y1, y2) + 1)
    else Points(raster(x1, y1, x2, y2))
  }

  /** draw_line(x1, y1, x2, y2, invert). */
  function LineDrawn(frame: seq<bv8>, W: int, H: int, x1: int, y1: int, x2: int, y2: int,
                     invert: bool, raster: Raster): (r: seq<bv8>)
    ensures |r| == |frame|
  {
    Guarded(frame, W, H, LineOff(W, H, x1, y1, x2, y2), Ink(LineStroke(x1, y1, x2, y2, raster), Colour(invert)))
  }

  /** draw_line hands a horizontal line to draw_hline and a vertical one to
      draw_vline, after putting the smaller end first. */
  lemma LineDispatch(frame: seq<bv8>, W: int, H: int, x1: int, y1: int, x2: int, y2: int,
                     invert: bool, raster: Raster)
    ensures y1 == y2 ==>
              LineDrawn(frame, W, H, x1, y1, x2, y2, invert, raster) ==
              (if x1 > x2 then HLineDrawn(frame, W, H, x2, y1, x1 - x2 + 1, invert)
               else HLineDrawn(frame, W, H, x1, y1, x2 - x1 + 1, invert))
    ensures y1 != y2 && x1 == x2 ==>
              LineDrawn(frame, W, H, x1, y1, x2, y2, invert, raster) ==
              (if y1 > y2 then VLineDrawn(frame, W, H, x1, y2, y1 - y2 + 1, invert)
               else VLineDrawn(frame, W, H, x1, y1, y2 - y1 + 1, invert))
  {
    var e := Ink(LineStroke(x1, y1, x2, y2, raster), Colour(invert));
    if y1 == y2 {
      var (lo, n) := if x1 > x2 then (x2, x1 - x2 + 1) else (x1, x2 - x1 + 1);
      assert LineOff(W, H, x1, y1, x2, y2) == OffGrid(W, H, lo, y1, lo + n - 1, y1);
      assert e == Ink(HLine(lo, y1, n), Colour(invert));
    } else if x1 == x2 {
      var (lo, n) := if y1 > y2 then (y2, y1 - y2 + 1) else (y1, y2 - y1 + 1);
      assert LineOff(W, H, x1, y1, x2, y2) == OffGrid(W, H, x1, lo, x1, lo + n);
      assert e == Ink(VLine(x1, lo, n), Colour(invert));
    }
  }

  /** draw_lines(coords, invert) from the current point p onwards: one line
      to each next point, which then becomes the current point. */
  function LinesFrom(frame: seq<bv8>, W: int, H: int, p: (int, int), rest: seq<(int, int)>,
                     invert: bool, raster: Raster): (r: seq<bv8>)
    ensures |r| == |frame|
    decreases |rest|
  {
    if rest == [] then frame
    else LinesFrom(LineDrawn(frame, W, H, p.0, p.1, rest[0].0, rest[0].1, invert, raster),
                   W, H, rest[0], rest[1..], invert, raster)
  }

  /** draw_lines(coords, invert); coords[0] must exist. */
  function LinesDrawn(frame: seq<bv8>, W: int, H: int, coords: seq<(int, int)>,
                      invert: bool, raster: Raster): (r: seq<bv8>)
    requires |coords| >= 1
    ensures |r| == |frame|
  {
    LinesFrom(frame, W, H, coords[0], coords[1..], invert, raster)
  }

  // ---------------------------------------------------------------------------
  // What each primitive does to every pixel of the screen

  /** draw_pixel sets its pixel, when on screen, and no other. */
  lemma PixelDrawnPixels(frame: seq<bv8>, W: int, H: int, x: int, y: int, invert: bool, px: int, py: int)
    requires 0 <= px < W && 0 <= py < H && |frame| >= ByteSize(H) * W
    ensures VPix(PixelDrawn(frame, W, H, x, y, invert), W, px, py) ==
            if px == x && py == y then !invert else VPix(frame, W, px, py)
  {
    GuardedPixel(frame, W, H, OffGrid(W, H, x, y, x, y), Ink(Pixel(x, y), Colour(invert)), px, py);
  }

  /** draw_hline draws the whole run when it fits and nothing otherwise. */
  lemma HLineDrawnPixels(frame: seq<bv8>, W: int, H: int, x: int, y: int, w: int, invert: bool, px: int, py: int)
    requires 0 <= px < W && 0 <= py < H && |frame| >= ByteSize(H) * W
    ensures VPix(HLineDrawn(frame, W, H, x, y, w, invert), W, px, py) ==
            if !OffGrid(W, H, x, y, x + w - 1, y) && py == y && x <= px < x + w then !invert
            else VPix(frame, W, px, py)
  {
    GuardedPixel(frame, W, H, OffGrid(W, H, x, y, x + w - 1, y), Ink(HLine(x, y, w), Colour(invert)), px, py);
  }

  /** draw_vline draws the whole run when it fits and nothing otherwise. */
  lemma VLineDrawnPixels(frame: seq<bv8>, W: int, H: int, x: int, y: int, h: int, invert: bool, px: int, py: int)
    requires 0 <= px < W && 0 <= py < H && |frame| >= ByteSize(H) * W
    ensures VPix(VLineDrawn(frame, W, H, x, y, h, invert), W, px, py) ==
            if !OffGrid(W, H, x, y, x, y + h) && px == x && y <= py < y + h then !invert
            else VPix(frame, W, px, py)
  {
    GuardedPixel(frame, W, H, OffGrid(W, H, x, y, x, y + h), Ink(VLine(x, y, h), Colour(invert)), px, py);
  }

  /** Because draw_vline's guard tests y + h, a vertical run that reaches the
      bottom row is never drawn, however it lies. */
  lemma VLineToBottomSkipped(frame: seq<bv8>, W: int, H: int, x: int, y: int, h: int, invert: bool)
    requires y + h >= H
    ensures VLineDrawn(frame, W, H, x, y, h, invert) == frame
  {
    assert OffGrid(W, H, x, y, x, y + h);
  }

  /** clear_buffers clears every pixel of the screen and keeps the padding. */
  lemma ClearedPixels(frame: seq<bv8>, W: int, H: int, px: int, py: int)
    requires 0 <= px < W && 0 <= py < H && |frame| >= ByteSize(H) * W
    ensures !VPix(Cleared(frame, W, H), W, px, py)
  {
    ApplyPixel(frame, W, H, Ink(FillRect(0, 0, W, H), false), px, py);
  }

  /** fill_rectangle fills the whole box when it fits and nothing otherwise. */
  lemma RectFilledPixels(frame: seq<bv8>, W: int, H: int, x: int, y: int, w: int, h: int, invert: bool, px: int, py: int)
    requires 0 <= px < W && 0 <= py < H && |frame| >= ByteSize(H) * W
    ensures VPix(RectFilled(frame, W, H, x, y, w, h, invert), W, px, py) ==
            if !OffGrid(W, H, x, y, x + w - 1, y + h - 1) && InRect(x, y, w, h, px, py) then !invert
            else VPix(frame, W, px, py)
  {
    GuardedPixel(frame, W, H, OffGrid(W, H, x, y, x + w - 1, y + h - 1),
                 Ink(FillRect(x, y, w, h), Colour(invert)), px, py);
  }

  /** draw_rectangle sets exactly the on-screen pixels of the outline, even
      when part of the box is off the screen. */
  lemma RectDrawnPixels(frame: seq<bv8>, W: int, H: int, x: int, y: int, w: int, h: int, invert: bool, px: int, py: int)
    requires 0 <= px < W && 0 <= py < H && |frame| >= ByteSize(H) * W
    ensures VPix(RectDrawn(frame, W, H, x, y, w, h, invert), W, px, py) ==
            if InRect(x, y, w, h, px, py) && (px == x || px == x + w - 1 || py == y || py == y + h - 1)
            then !invert else VPix(frame, W, px, py)
  {
    ApplyPixel(frame, W, H, Ink(Rect(x, y, w, h), Colour(invert)), px, py);
  }

  /** draw_sprite copies the sprite's pixels over its area when the box fits,
      and draws nothing otherwise. */
  lemma SpriteDrawnPixels(frame: seq<bv8>, W: int, H: int, fbuf: Sprite, x: int, y: int, w: int, h: int, px: int, py: int)
    requires 0 <= px < W && 0 <= py < H && |frame| >= ByteSize(H) * W
    ensures VPix(SpriteDrawn(frame, W, H, fbuf, x, y, w, h), W, px, py) ==
            if !OffGrid(W, H, x, y, x + w - 1, y + h - 1) && InRect(x, y, fbuf.w, fbuf.h, px, py)
            then SpritePix(fbuf, px - x, py - y) else VPix(frame, W, px, py)
  {
    GuardedPixel(frame, W, H, OffGrid(W, H, x, y, x + w - 1, y + h - 1), Blit(fbuf, x, y), px, py);
  }

  /** draw_text8x8 sets the text's pixels when its 9 x 9 box fits, and nothing otherwise. */
  lemma Text8x8DrawnPixels(frame: seq<bv8>, W: int, H: int, x: int, y: int, glyphs: set<(int, int)>, px: int, py: int)
    requires 0 <= px < W && 0 <= py < H && |frame| >= ByteSize(H) * W
    ensures VPix(Text8x8Drawn(frame, W, H, x, y, glyphs), W, px, py) ==
            if !OffGrid(W, H, x, y, x + 8, y + 8) && (px, py) in glyphs then true else VPix(frame, W, px, py)
  {
    GuardedPixel(frame, W, H, OffGrid(W, H, x, y, x + 8, y + 8), Ink(Points(glyphs), true), px, py);
  }

  /** A horizontal line covers every column between its ends, whichever end
      comes first, when all of it is on the screen, and nothing otherwise. */
  lemma HorizontalLinePixels(frame: seq<bv8>, W: int, H: int, x1: int, x2: int, y: int, invert: bool,
                             raster: Raster, px: int, py: int)
    requires 0 <= px < W && 0 <= py < H && |frame| >= ByteSize(H) * W
    ensures VPix(LineDrawn(frame, W, H, x1, y, x2, y, invert, raster), W, px, py) ==
            if !OffGrid(W, H, Min(x1, x2), y, Max(x1, x2), y) && py == y && Min(x1, x2) <= px <= Max(x1, x2)
            then !invert else VPix(frame, W, px, py)
  {
    GuardedPixel(frame, W, H, LineOff(W, H, x1, y, x2, y), Ink(LineStroke(x1, y, x2, y, raster), Colour(invert)), px, py);
  }

  /** A vertical line covers every row between its ends when it is on the
      screen and stops above the bottom row, and nothing otherwise. */
  lemma VerticalLinePixels(frame: seq<bv8>, W: int, H: int, x: int, y1: int, y2: int, invert: bool,
                           raster: Raster, px: int, py: int)
    requires y1 != y2
    requires 0 <= px < W && 0 <= py < H && |frame| >= ByteSize(H) * W
    ensures VPix(LineDrawn(frame, W, H, x, y1, x, y2, invert, raster), W, px, py) ==
            if !OffGrid(W, H, x, Min(y1, y2), x, Max(y1, y2) + 1) && px == x && Min(y1, y2) <= py <= Max(y1, y2)
            then !invert else VPix(frame, W, px, py)
  {
    GuardedPixel(frame, W, H, LineOff(W, H, x, y1, x, y2), Ink(LineStroke(x, y1, x, y2, raster), Colour(invert)), px, py);
  }

  /** Any other line inks the pixels framebuf's line chooses, when its bounding
      box is on the screen, and nothing otherwise. */
  lemma SlopedLinePixels(frame: seq<bv8>, W: int, H: int, x1: int, y1: int, x2: int, y2: int, invert: bool,
                         raster: Raster, px: int, py: int)
    requires x1 != x2 && y1 != y2
    requires 0 <= px < W && 0 <= py < H && |frame| >= ByteSize(H) * W
    ensures VPix(LineDrawn(frame, W, H, x1, y1, x2, y2, invert, raster), W, px, py) ==
            if !OffGrid(W, H, Min(x1, x2), Min(y1, y2), Max(x1, x2), Max(y1, y2)) && (px, py) in raster(x1, y1, x2, y2)
            then !invert else VPix(frame, W, px, py)
  {
    GuardedPixel(frame, W, H, LineOff(W, H, x1, y1, x2, y2), Ink(LineStroke(x1, y1, x2, y2, raster), Colour(invert)), px, py);
  }

  /** Horizontal and vertical lines do not depend on the order of their ends. */
  lemma AxisLineSymmetric(frame: seq<bv8>, W: int, H: int, x1: int, y1: int, x2: int, y2: int,
                          invert: bool, raster: Raster)
    requires x1 == x2 || y1 == y2
    ensures LineDrawn(frame, W, H, x1, y1, x2, y2, invert, raster) ==
            LineDrawn(frame, W, H, x2, y2, x1, y1, invert, raster)
  {
  }

  /** draw_lines with one more point draws one more line, from the last point. */
  lemma {:induction false} LinesFromAppend(frame: seq<bv8>, W: int, H: int, p: (int, int), rest: seq<(int, int)>,
                                           q: (int, int), invert: bool, raster: Raster)
    ensures LinesFrom(frame, W, H, p, rest + [q], invert, raster) ==
            var last := if rest == [] then p else rest[|rest| - 1];
            LineDrawn(LinesFrom(frame, W, H, p, rest, invert, raster), W, H, last.0, last.1, q.0, q.1, invert, raster)
    decreases |rest|
  {
    if rest != [] {
      var f1 := LineDrawn(frame, W, H, p.0, p.1, rest[0].0, rest[0].1, invert, raster);
      assert (rest + [q])[0] == rest[0] && (rest + [q])[1..] == rest[1..] + [q];
      LinesFromAppend(f1, W, H, rest[0], rest[1..], q, invert, raster);
    }
  }

  // ---------------------------------------------------------------------------
  // Letters and text

  /** What font.get_letter(letter, invert, rotate) returns: the glyph's sprite
      and its size (width 0 when the font has no such letter). */
  datatype Glyph = Glyph(fbuf: Sprite, w: int, h: int)

  /** A font, seen through get_letter. */
  type Font = (char, bool, int) -> Glyph

  /** Where draw_letter blits a glyph drawn at pen (x, y): rotated by 180 it
      ends at x, rotated by 270 it ends at y. */
  function LetterOrigin(g: Glyph, x: int, y: int, rotate: int): (int, int)
  {
    if rotate == 180 then (x - g.w, y)
    else if rotate == 270 then (x, y - g.h)
    else (x, y)
  }

  /** draw_letter: nothing for a glyph of width 0, otherwise an unguarded blit. */
  function LetterDrawn(frame: seq<bv8>, W: int, H: int, x: int, y: int, g: Glyph, rotate: int): (r: seq<bv8>)
    ensures |r| == |frame|
  {
    if g.w == 0 then frame
    else
      var (ox, oy) := LetterOrigin(g, x, y, rotate);
      Apply(frame, W, H, Blit(g.fbuf, ox, oy))
  }

  /** The box (x, y, w, h) of the spacing draw_text fills after a letter. */
  function Gap(g: Glyph, x: int, y: int, rotate: int, spacing: int): (int, int, int, int)
  {
    if rotate == 0 then (x + g.w, y, spacing, g.h)
    else if rotate == 90 then (x, y + g.h, g.w, spacing)
    else if rotate == 180 then (x - g.w - spacing, y, spacing, g.h)
    else (x, y - g.h - spacing, g.w, spacing)
  }

  /** The pen position of the next letter. */
  function Advance(g: Glyph, x: int, y: int, rotate: int, spacing: int): (int, int)
  {
    if rotate == 0 then (x + (g.w + spacing), y)
    else if rotate == 90 then (x, y + (g.h + spacing))
    else if rotate == 180 then (x - (g.w + spacing), y)
    else (x, y - (g.h + spacing))
  }

  /** The spacing after a letter, filled with fill_rectangle(..., invert ^ 1):
      the background colour. */
  function Spaced(frame: seq<bv8>, W: int, H: int, g: Glyph, x: int, y: int, rotate: int, spacing: int,
                  invert: bool): (r: seq<bv8>)
    ensures |r| == |frame|
  {
    if spacing == 0 then frame
    else
      var (gx, gy, gw, gh) := Gap(g, x, y, rotate, spacing);
      RectFilled(frame, W, H, gx, gy, gw, gh, !invert)
  }

  predicate ValidRotation(rotate: int)
  {
    rotate == 0 || rotate == 90 || rotate == 180 || rotate == 270
  }

  /** draw_text(x, y, text, font, invert, rotate, spacing). Each letter is drawn
      at the pen; a glyph of width or height 0 ends the text; a non-zero spacing
      is filled with fill_rectangle(..., invert ^ 1), the background colour; an
      invalid rotation ends the text after its first letter. */
  function TextDrawn(frame: seq<bv8>, W: int, H: int, x: int, y: int, text: string, font: Font,
                     invert: bool, rotate: int, spacing: int): (r: seq<bv8>)
    ensures |r| == |frame|
    decreases |text|
  {
    if text == [] then frame
    else
      var g := font(text[0], invert, rotate);
      var drawn := LetterDrawn(frame, W, H, x, y, g, rotate);
      if g.w == 0 || g.h == 0 || !ValidRotation(rotate) then drawn
      else
        var (nx, ny) := Advance(g, x, y, rotate, spacing);
        TextDrawn(Spaced(drawn, W, H, g, x, y, rotate, spacing, invert), W, H, nx, ny, text[1..],
                  font, invert, rotate, spacing)
  }

  /** The first letter of draw_text, and the pen it leaves for the rest. */
  lemma TextDrawnStep(frame: seq<bv8>, W: int, H: int, x: int, y: int, text: string, font: Font,
                      invert: bool, rotate: int, spacing: int)
    requires text != []
    ensures var g := font(text[0], invert, rotate);
            var drawn := LetterDrawn(frame, W, H, x, y, g, rotate);
            TextDrawn(frame, W, H, x, y, text, font, invert, rotate, spacing) ==
            if g.w == 0 || g.h == 0 || !ValidRotation(rotate) then drawn
            else TextDrawn(Spaced(drawn, W, H, g, x, y, rotate, spacing, invert), W, H,
                           Advance(g, x, y, rotate, spacing).0, Advance(g, x, y, rotate, spacing).1, text[1..],
                           font, invert, rotate, spacing)
  {
  }

  /** The side of the starting pen that draw_text writes away from: to its left
      at 0 degrees, above it at 90, at or right of it at 180, at or below it at 270. */
  predicate BehindPen(rotate: int, x: int, y: int, px: int, py: int)
  {
    if rotate == 0 then px < x
    else if rotate == 90 then py < y
    else if rotate == 180 then px >= x
    else py >= y
  }

  /** Every glyph get_letter returns for the text has a size of at least 0,
      and its sprite has that size. */
  predicate GlyphsSized(text: string, font: Font, invert: bool, rotate: int)
  {
    forall i :: 0 <= i < |text| ==>
      var g := font(text[i], invert, rotate);
      g.w >= 0 && g.h >= 0 && g.fbuf.w == g.w && g.fbuf.h == g.h
  }

  /** draw_text with a valid rotation and a spacing of at least 0 writes
      nothing behind its starting pen: every letter, every gap and every later
      pen lies on the far side of it. */
  lemma {:induction false} TextBehindPenUnchanged(frame: seq<bv8>, W: int, H: int, x: int, y: int, text: string,
                                                  font: Font, invert: bool, rotate: int, spacing: int,
                                                  px: int, py: int)
    requires 0 <= px < W && 0 <= py < H && |frame| >= ByteSize(H) * W
    requires ValidRotation(rotate) && spacing >= 0 && GlyphsSized(text, font, invert, rotate)
    requires BehindPen(rotate, x, y, px, py)
    ensures VPix(TextDrawn(frame, W, H, x, y, text, font, invert, rotate, spacing), W, px, py) ==
            VPix(frame, W, px, py)
    decreases |text|
  {
    if text != [] {
      var g := font(text[0], invert, rotate);
      var drawn := LetterDrawn(frame, W, H, x, y, g, rotate);
      if g.w != 0 {
        var (ox, oy) := LetterOrigin(g, x, y, rotate);
        ApplyPixel(frame, W, H, Blit(g.fbuf, ox, oy), px, py);
      }
      assert VPix(drawn, W, px, py) == VPix(frame, W, px, py);
      if !(g.w == 0 || g.h == 0) {
        var (nx, ny) := Advance(g, x, y, rotate, spacing);
        var spaced := Spaced(drawn, W, H, g, x, y, rotate, spacing, invert);
        if spacing != 0 {
          var (gx, gy, gw, gh) := Gap(g, x, y, rotate, spacing);
          RectFilledPixels(drawn, W, H, gx, gy, gw, gh, !invert, px, py);
        }
        assert VPix(spaced, W, px, py) == VPix(frame, W, px, py);
        assert GlyphsSized(text[1..], font, invert, rotate) by {
          forall i | 0 <= i < |text[1..]|
            ensures var g' := font(text[1..][i], invert, rotate);
                    g'.w >= 0 && g'.h >= 0 && g'.fbuf.w == g'.w && g'.fbuf.h == g'.h
          {
            assert text[1..][i] == text[i + 1];
          }
        }
        TextBehindPenUnchanged(spaced, W, H, nx, ny, text[1..], font, invert, rotate, spacing, px, py);
      }
    }
  }

  /** The letter, its spacing and the next letter lie side by side along the
      direction of writing, for each of the four rotations: the gap starts
      where the letter ends, spans the spacing and keeps to the letter's
      rows (or columns), and the next letter starts where the gap ends. */
  lemma {:induction false} TextTiles(g: Glyph, next: Glyph, x: int, y: int, rotate: int, spacing: int)
    requires ValidRotation(rotate)
    ensures var (lx, ly) := LetterOrigin(g, x, y, rotate);
            var (gx, gy, gw, gh) := Gap(g, x, y, rotate, spacing);
            var (px, py) := Advance(g, x, y, rotate, spacing);
            var (nx, ny) := LetterOrigin(next, px, py, rotate);
            if rotate == 0 || rotate == 180 then
              gy == ly && gh == g.h && gw == spacing && ny == ly &&
              (if rotate == 0 then gx == lx + g.w && nx == gx + gw else gx + gw == lx && nx + next.w == gx)
            else
              gx == lx && gw == g.w && gh == spacing && nx == lx &&
              (if rotate == 90 then gy == ly + g.h && ny == gy + gh else gy + gh == ly && ny + next.h == gy)
  {
  }

  // ---------------------------------------------------------------------------
  // Many calls around a centre (x0, y0): the circle, ellipse and fill loops

  /** The head and tail of a concatenation with a non-empty front: a sequence
      fact for the proofs below, not part of the driver. */
  lemma ConsAppend<T>(a: seq<T>, b: seq<T>)
    requires a != []
    ensures (a + b)[0] == a[0] && (a + b)[1..] == a[1..] + b
  {
  }

  /** draw_pixel(x0 + a, y0 + b, invert) for each offset (a, b) in turn. */
  function Plotted(frame: seq<bv8>, W: int, H: int, x0: int, y0: int, pts: seq<(int, int)>,
                   invert: bool): (r: seq<bv8>)
    ensures |r| == |frame|
    decreases |pts|
  {
    if pts == [] then frame
    else Plotted(PixelDrawn(frame, W, H, x0 + pts[0].0, y0 + pts[0].1, invert), W, H, x0, y0, pts[1..], invert)
  }

  lemma {:induction false} PlottedAppend(frame: seq<bv8>, W: int, H: int, x0: int, y0: int,
                                         a: seq<(int, int)>, b: seq<(int, int)>, invert: bool)
    ensures Plotted(frame, W, H, x0, y0, a + b, invert) ==
            Plotted(Plotted(frame, W, H, x0, y0, a, invert), W, H, x0, y0, b, invert)
    decreases |a|
  {
    if a == [] {
      assert a + b == b;
    } else {
      ConsAppend(a, b);
      PlottedAppend(PixelDrawn(frame, W, H, x0 + a[0].0, y0 + a[0].1, invert), W, H, x0, y0, a[1..], b, invert);
    }
  }

  /** Four offsets plotted one after the other. */
  lemma PlottedFour(frame: seq<bv8>, W: int, H: int, x0: int, y0: int,
                    p: (int, int), q: (int, int), s: (int, int), t: (int, int), invert: bool)
    ensures Plotted(frame, W, H, x0, y0, [p, q, s, t], invert) ==
            PixelDrawn(PixelDrawn(PixelDrawn(PixelDrawn(frame, W, H, x0 + p.0, y0 + p.1, invert),
              W, H, x0 + q.0, y0 + q.1, invert), W, H, x0 + s.0, y0 + s.1, invert), W, H, x0 + t.0, y0 + t.1, invert)
  {
    var f1 := PixelDrawn(frame, W, H, x0 + p.0, y0 + p.1, invert);
    var f2 := PixelDrawn(f1, W, H, x0 + q.0, y0 + q.1, invert);
    var f3 := PixelDrawn(f2, W, H, x0 + s.0, y0 + s.1, invert);
    assert [p, q, s, t][1..] == [q, s, t] && [q, s, t][1..] == [s, t] && [s, t][1..] == [t] && [t][1..] == [];
    assert Plotted(f3, W, H, x0, y0, [t], invert) == Plotted(PixelDrawn(f3, W, H, x0 + t.0, y0 + t.1, invert), W, H, x0, y0, [], invert);
    assert Plotted(f2, W, H, x0, y0, [s, t], invert) == Plotted(f3, W, H, x0, y0, [t], invert);
    assert Plotted(f1, W, H, x0, y0, [q, s, t], invert) == Plotted(f2, W, H, x0, y0, [s, t], invert);
  }

  /** An on-screen pixel is set exactly when its offset from the centre is
      plotted, and keeps its value otherwise. */
  lemma {:induction false} PlottedPixels(frame: seq<bv8>, W: int, H: int, x0: int, y0: int,
                                         pts: seq<(int, int)>, invert: bool, px: int, py: int)
    requires 0 <= px < W && 0 <= py < H && |frame| >= ByteSize(H) * W
    ensures VPix(Plotted(frame, W, H, x0, y0, pts, invert), W, px, py) ==
            if (px - x0, py - y0) in pts then !invert else VPix(frame, W, px, py)
    decreases |pts|
  {
    if pts != [] {
      var f1 := PixelDrawn(frame, W, H, x0 + pts[0].0, y0 + pts[0].1, invert);
      PlottedPixels(f1, W, H, x0, y0, pts[1..], invert, px, py);
      PixelDrawnPixels(frame, W, H, x0 + pts[0].0, y0 + pts[0].1, invert, px, py);
      assert pts == [pts[0]] + pts[1..];
    }
  }

  /** draw_vline(x0 + a, y0 + b, n, invert) for each run (a, b, n) in turn. */
  function RunsDrawn(frame: seq<bv8>, W: int, H: int, x0: int, y0: int, runs: seq<(int, int, int)>,
                     invert: bool): (r: seq<bv8>)
    ensures |r| == |frame|
    decreases |runs|
  {
    if runs == [] then frame
    else RunsDrawn(VLineDrawn(frame, W, H, x0 + runs[0].0, y0 + runs[0].1, runs[0].2, invert),
                   W, H, x0, y0, runs[1..], invert)
  }

  lemma {:induction false} RunsDrawnAppend(frame: seq<bv8>, W: int, H: int, x0: int, y0: int,
                                           a: seq<(int, int, int)>, b: seq<(int, int, int)>, invert: bool)
    ensures RunsDrawn(frame, W, H, x0, y0, a + b, invert) ==
            RunsDrawn(RunsDrawn(frame, W, H, x0, y0, a, invert), W, H, x0, y0, b, invert)
    decreases |a|
  {
    if a == [] {
      assert a + b == b;
    } else {
      ConsAppend(a, b);
      RunsDrawnAppend(VLineDrawn(frame, W, H, x0 + a[0].0, y0 + a[0].1, a[0].2, invert),
                      W, H, x0, y0, a[1..], b, invert);
    }
  }

  /** Four runs drawn one after the other. */
  lemma RunsDrawnFour(frame: seq<bv8>, W: int, H: int, x0: int, y0: int,
                      p: (int, int, int), q: (int, int, int), s: (int, int, int), t: (int, int, int), invert: bool)
    ensures RunsDrawn(frame, W, H, x0, y0, [p, q, s, t], invert) ==
            VLineDrawn(VLineDrawn(VLineDrawn(VLineDrawn(frame, W, H, x0 + p.0, y0 + p.1, p.2, invert),
              W, H, x0 + q.0, y0 + q.1, q.2, invert), W, H, x0 + s.0, y0 + s.1, s.2, invert),
              W, H, x0 + t.0, y0 + t.1, t.2, invert)
  {
    var f1 := VLineDrawn(frame, W, H, x0 + p.0, y0 + p.1, p.2, invert);
    var f2 := VLineDrawn(f1, W, H, x0 + q.0, y0 + q.1, q.2, invert);
    var f3 := VLineDrawn(f2, W, H, x0 + s.0, y0 + s.1, s.2, invert);
    assert [p, q, s, t][1..] == [q, s, t] && [q, s, t][1..] == [s, t] && [s, t][1..] == [t] && [t][1..] == [];
    assert RunsDrawn(f3, W, H, x0, y0, [t], invert) == RunsDrawn(VLineDrawn(f3, W, H, x0 + t.0, y0 + t.1, t.2, invert), W, H, x0, y0, [], invert);
    assert RunsDrawn(f2, W, H, x0, y0, [s, t], invert) == RunsDrawn(f3, W, H, x0, y0, [t], invert);
    assert RunsDrawn(f1, W, H, x0, y0, [q, s, t], invert) == RunsDrawn(f2, W, H, x0, y0, [s, t], invert);
  }

  /** Does the vertical run of height h from (x, y), drawn by draw_vline, set pixel (px, py)? */
  predicate RunHit(W: int, H: int, x: int, y: int, h: int, px: int, py: int)
  {
    !OffGrid(W, H, x, y, x, y + h) && px == x && y <= py < y + h
  }

  /** Does some run of the list set pixel (px, py)? */
  predicate RunsHit(W: int, H: int, x0: int, y0: int, runs: seq<(int, int, int)>, px: int, py: int)
  {
    exists run :: run in runs && RunHit(W, H, x0 + run.0, y0 + run.1, run.2, px, py)
  }

  lemma RunsHitSplit(W: int, H: int, x0: int, y0: int, runs: seq<(int, int, int)>, px: int, py: int)
    requires runs != []
    ensures RunsHit(W, H, x0, y0, runs, px, py) <==>
            RunHit(W, H, x0 + runs[0].0, y0 + runs[0].1, runs[0].2, px, py) || RunsHit(W, H, x0, y0, runs[1..], px, py)
  {
    if RunsHit(W, H, x0, y0, runs, px, py) {
      var run :| run in runs && RunHit(W, H, x0 + run.0, y0 + run.1, run.2, px, py);
      if run != runs[0] {
        assert run in runs[1..];
      }
    }
    if RunsHit(W, H, x0, y0, runs[1..], px, py) {
      var run :| run in runs[1..] && RunHit(W, H, x0 + run.0, y0 + run.1, run.2, px, py);
      assert run in runs;
    }
  }

  /** An on-screen pixel is set exactly when a run that passes the guard covers it. */
  lemma {:induction false} RunsDrawnPixels(frame: seq<bv8>, W: int, H: int, x0: int, y0: int,
                                           runs: seq<(int, int, int)>, invert: bool, px: int, py: int)
    requires 0 <= px < W && 0 <= py < H && |frame| >= ByteSize(H) * W
    ensures VPix(RunsDrawn(frame, W, H, x0, y0, runs, invert), W, px, py) ==
            if RunsHit(W, H, x0, y0, runs, px, py) then !invert else VPix(frame, W, px, py)
    decreases |runs|
  {
    if runs != [] {
      var f1 := VLineDrawn(frame, W, H, x0 + runs[0].0, y0 + runs[0].1, runs[0].2, invert);
      RunsDrawnPixels(f1, W, H, x0, y0, runs[1..], invert, px, py);
      VLineDrawnPixels(frame, W, H, x0 + runs[0].0, y0 + runs[0].1, runs[0].2, invert, px, py);
      RunsHitSplit(W, H, x0, y0, runs, px, py);
    }
  }

  /** draw_line(x0 + a, y0 + b, x0 + c, y0 + d, invert) for each chord (a, b, c, d) in turn. */
  function ChordsDrawn(frame: seq<bv8>, W: int, H: int, x0: int, y0: int, chords: seq<(int, int, int, int)>,
                       invert: bool, raster: Raster): (r: seq<bv8>)
    ensures |r| == |frame|
    decreases |chords|
  {
    if chords == [] then frame
    else ChordsDrawn(LineDrawn(frame, W, H, x0 + chords[0].0, y0 + chords[0].1, x0 + chords[0].2, y0 + chords[0].3,
                               invert, raster),
                     W, H, x0, y0, chords[1..], invert, raster)
  }

  /** The first chord is drawn first. */
  lemma ChordsDrawnCons(frame: seq<bv8>, W: int, H: int, x0: int, y0: int,
                        c: (int, int, int, int), rest: seq<(int, int, int, int)>, invert: bool, raster: Raster)
    ensures ChordsDrawn(frame, W, H, x0, y0, [c] + rest, invert, raster) ==
            ChordsDrawn(LineDrawn(frame, W, H, x0 + c.0, y0 + c.1, x0 + c.2, y0 + c.3, invert, raster),
                        W, H, x0, y0, rest, invert, raster)
  {
    ConsAppend([c], rest);
  }

  lemma {:induction false} ChordsDrawnAppend(frame: seq<bv8>, W: int, H: int, x0: int, y0: int,
                                             a: seq<(int, int, int, int)>, b: seq<(int, int, int, int)>,
                                             invert: bool, raster: Raster)
    ensures ChordsDrawn(frame, W, H, x0, y0, a + b, invert, raster) ==
            ChordsDrawn(ChordsDrawn(frame, W, H, x0, y0, a, invert, raster), W, H, x0, y0, b, invert, raster)
    decreases |a|
  {
    if a == [] {
      assert a + b == b;
    } else {
      var c := a[0];
      var f1 := LineDrawn(frame, W, H, x0 + c.0, y0 + c.1, x0 + c.2, y0 + c.3, invert, raster);
      assert a == [c] + a[1..] && a + b == [c] + (a[1..] + b);
      ChordsDrawnCons(frame, W, H, x0, y0, c, a[1..] + b, invert, raster);
      ChordsDrawnCons(frame, W, H, x0, y0, c, a[1..], invert, raster);
      ChordsDrawnAppend(f1, W, H, x0, y0, a[1..], b, invert, raster);
    }
  }

  /** Two chords drawn one after the other. */
  lemma ChordsDrawnTwo(frame: seq<bv8>, W: int, H: int, x0: int, y0: int,
                       p: (int, int, int, int), q: (int, int, int, int), invert: bool, raster: Raster)
    ensures ChordsDrawn(frame, W, H, x0, y0, [p, q], invert, raster) ==
            LineDrawn(LineDrawn(frame, W, H, x0 + p.0, y0 + p.1, x0 + p.2, y0 + p.3, invert, raster),
                      W, H, x0 + q.0, y0 + q.1, x0 + q.2, y0 + q.3, invert, raster)
  {
    var f1 := LineDrawn(frame, W, H, x0 + p.0, y0 + p.1, x0 + p.2, y0 + p.3, invert, raster);
    assert [p, q] == [p] + [q] && [q] == [q] + [];
    ChordsDrawnCons(frame, W, H, x0, y0, p, [q], invert, raster);
    ChordsDrawnCons(f1, W, H, x0, y0, q, [], invert, raster);
  }

  /** Does draw_line from (x, ya) to (x, yb) set pixel (px, py)? A single
      point goes through draw_hline, which tests the point itself; a longer
      column goes through draw_vline, which tests one row past its bottom end. */
  predicate ColumnHit(W: int, H: int, x: int, ya: int, yb: int, px: int, py: int)
  {
    px == x && Min(ya, yb) <= py <= Max(ya, yb) &&
    !OffGrid(W, H, x, Min(ya, yb), x, if ya == yb then ya else Max(ya, yb) + 1)
  }

  predicate ChordsHit(W: int, H: int, x0: int, y0: int, chords: seq<(int, int, int, int)>, px: int, py: int)
  {
    exists c :: c in chords && ColumnHit(W, H, x0 + c.0, y0 + c.1, y0 + c.3, px, py)
  }

  lemma ChordsHitSplit(W: int, H: int, x0: int, y0: int, chords: seq<(int, int, int, int)>, px: int, py: int)
    requires chords != []
    ensures ChordsHit(W, H, x0, y0, chords, px, py) <==>
            ColumnHit(W, H, x0 + chords[0].0, y0 + chords[0].1, y0 + chords[0].3, px, py) ||
            ChordsHit(W, H, x0, y0, chords[1..], px, py)
  {
    if ChordsHit(W, H, x0, y0, chords, px, py) {
      var c :| c in chords && ColumnHit(W, H, x0 + c.0, y0 + c.1, y0 + c.3, px, py);
      if c != chords[0] {
        assert c in chords[1..];
      }
    }
    if ChordsHit(W, H, x0, y0, chords[1..], px, py) {
      var c :| c in chords[1..] && ColumnHit(W, H, x0 + c.0, y0 + c.1, y0 + c.3, px, py);
      assert c in chords;
    }
  }

  /** One vertical chord sets exactly the pixels ColumnHit names. */
  lemma ColumnPixels(frame: seq<bv8>, W: int, H: int, x: int, ya: int, yb: int, invert: bool,
                     raster: Raster, px: int, py: int)
    requires 0 <= px < W && 0 <= py < H && |frame| >= ByteSize(H) * W
    ensures VPix(LineDrawn(frame, W, H, x, ya, x, yb, invert, raster), W, px, py) ==
            if ColumnHit(W, H, x, ya, yb, px, py) then !invert else VPix(frame, W, px, py)
  {
    if ya == yb {
      HorizontalLinePixels(frame, W, H, x, x, ya, invert, raster, px, py);
    } else {
      VerticalLinePixels(frame, W, H, x, ya, yb, invert, raster, px, py);
    }
  }

  /** Vertical chords set an on-screen pixel exactly when one of them covers
      it and passes its guard. */
  lemma {:induction false} ChordsDrawnPixels(frame: seq<bv8>, W: int, H: int, x0: int, y0: int,
                                             chords: seq<(int, int, int, int)>, invert: bool, raster: Raster,
                                             px: int, py: int)
    requires forall c :: c in chords ==> c.0 == c.2
    requires 0 <= px < W && 0 <= py < H && |frame| >= ByteSize(H) * W
    ensures VPix(ChordsDrawn(frame, W, H, x0, y0, chords, invert, raster), W, px, py) ==
            if ChordsHit(W, H, x0, y0, chords, px, py) then !invert else VPix(frame, W, px, py)
    decreases |chords|
  {
    if chords != [] {
      var c := chords[0];
      var f1 := LineDrawn(frame, W, H, x0 + c.0, y0 + c.1, x0 + c.2, y0 + c.3, invert, raster);
      assert c in chords;
      assert chords == [c] + chords[1..];
      ChordsDrawnCons(frame, W, H, x0, y0, c, chords[1..], invert, raster);
      assert ChordsDrawn(frame, W, H, x0, y0, chords, invert, raster) ==
             ChordsDrawn(f1, W, H, x0, y0, chords[1..], invert, raster);
      ChordsDrawnPixels(f1, W, H, x0, y0, chords[1..], invert, raster, px, py);
      assert x0 + c.2 == x0 + c.0;
      ColumnPixels(frame, W, H, x0 + c.0, y0 + c.1, y0 + c.3, invert, raster, px, py);
      ChordsHitSplit(W, H, x0, y0, chords, px, py);
      Overdrawn(VPix(frame, W, px, py), VPix(f1, W, px, py),
                VPix(ChordsDrawn(f1, W, H, x0, y0, chords[1..], invert, raster), W, px, py),
                ColumnHit(W, H, x0 + c.0, y0 + c.1, y0 + c.3, px, py),
                ChordsHit(W, H, x0, y0, chords[1..], px, py), ChordsHit(W, H, x0, y0, chords, px, py), invert);
    }
  }

  /** A pixel drawn by a first stroke and then by the rest of them ends up set
      exactly when one of the strokes covers it. */
  lemma Overdrawn(before: bool, mid: bool, after: bool, first: bool, rest: bool, either: bool, invert: bool)
    requires mid == (if first then !invert else before)
    requires after == (if rest then !invert else mid)
    requires either <==> first || rest
    ensures after == (if either then !invert else before)
  {
  }
}
