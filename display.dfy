/*
  The Display class of pico/ssd1309.py: an SSD1306/SSD1309 OLED behind an
  I2C bus, and the page-major (MONO_VLSB) frame buffer the driver draws into
  before present() sends it to the controller.

  The I2C peripheral is the log of writes of Protocol.I2C. The frame buffer
  bytes are the array `buffer`; every framebuf call becomes one Effect applied
  to them (FrameBuf.Apply). The pixels of framebuf's own line and 8x8 text
  routines are given to the constructor (`raster`, `text8x8`), since only the
  driver's logic around them is modelled.
*/
module Display {
  import opened Bits
  import opened FrameBuf
  import opened Protocol
  import opened Draw
  import opened Shapes
  import Scan
  import Polygon
  import Convert

  /** Screen sizes the constructor can bring up: bytearray rejects a negative
      length, and FrameBuffer rejects a MONO_VLSB frame larger than the
      byte_width * height bytes the driver allocates. */
  predicate ScreenFits(width: int, height: int)
  {
    0 <= width && 0 <= height && ByteSize(height) * width <= ByteSize(width) * height
  }

  /** Every byte of the buffer is zero. */
  predicate Blank(s: seq<bv8>)
  {
    forall j :: 0 <= j < |s| ==> s[j] == 0
  }

  /** The sprite load_sprite makes: xform_buf's inversion, then its rotation. */
  function Loaded(bits: seq<bv8>, w: nat, h: nat, invert: bool, rotate: int): (s: Sprite)
    ensures rotate == 90 || rotate == 270 ==> s.w == h && s.h == w
    ensures rotate != 90 && rotate != 270 ==> s.w == w && s.h == h
  {
    var b := if invert then Convert.Inverted(bits) else bits;
    if rotate == 180 then Sprite(w, h, Convert.Rotated180(b))
    else if rotate == 90 then Sprite(h, w, Convert.Rotated90(b, w, h))
    else if rotate == 270 then Sprite(h, w, Convert.Rotated270(b, w, h))
    else Sprite(w, h, b)
  }

  /** Where each pixel of a w x h bitmap lands in the sprite load_sprite makes of
      it, inverted when asked: turned a quarter clockwise for 90, a quarter
      anticlockwise for 270, kept for any angle but the three, and, for a
      width that is a whole number of bytes, turned half round for 180. */
  lemma LoadedPixels(bits: seq<bv8>, w: nat, h: nat, invert: bool, rotate: int, x: int, y: int)
    requires |bits| == ByteSize(w) * h && 0 <= x < w && 0 <= y < h
    ensures var s, p := Loaded(bits, w, h, invert, rotate), HPix(bits, w, x, y) != invert;
            (rotate == 90 ==> SpritePix(s, h - 1 - y, x) == p) &&
            (rotate == 270 ==> SpritePix(s, y, w - 1 - x) == p) &&
            (rotate == 180 && w % 8 == 0 ==> SpritePix(s, w - 1 - x, h - 1 - y) == p) &&
            (rotate != 90 && rotate != 180 && rotate != 270 ==> SpritePix(s, x, y) == p)
  {
    var b := if invert then Convert.Inverted(bits) else bits;
    RowIndexBound(w, h, x, y);
    if invert {
      Convert.InvertedPixels(bits, w, x, y);
    }
    assert HPix(b, w, x, y) == (HPix(bits, w, x, y) != invert);
    if rotate == 90 {
      Convert.Rotate90Pixels(b, w, h, x, y);
    } else if rotate == 270 {
      Convert.Rotate270Pixels(b, w, h, x, y);
    } else if rotate == 180 && w % 8 == 0 {
      Convert.Rotate180IsRotation(b, w, h, x, y);
    }
  }

  /** A set of rows that is not empty has a row to take next. */
  lemma SomeRow(rows: set<int>)
    requires rows != {}
    ensures exists y :: y in rows
  {
    if forall y :: y !in rows {
      assert false;
    }
  }

  /** A log that grew by one write seven times grew by the seven writes. */
  lemma LogOfSeven<T>(l0: seq<T>, l1: seq<T>, l2: seq<T>, l3: seq<T>, l4: seq<T>, l5: seq<T>, l6: seq<T>, l7: seq<T>,
                      t1: T, t2: T, t3: T, t4: T, t5: T, t6: T, t7: T)
    requires l1 == l0 + [t1] && l2 == l1 + [t2] && l3 == l2 + [t3] && l4 == l3 + [t4]
    requires l5 == l4 + [t5] && l6 == l5 + [t6] && l7 == l6 + [t7]
    ensures l7 == l0 + [t1, t2, t3, t4, t5, t6, t7]
  {
  }

  class Display {
    const i2c: I2C
    /** The 7-bit bus address: the constructor's 8-bit address shifted right once. */
    const address: int
    const width: int
    const height: int
    /** mono_image, the bytes behind monoFB. */
    const buffer: array<bv8>
    /** The pixels framebuf's line(x1, y1, x2, y2, c) sets. */
    const raster: Raster
    /** The pixels framebuf's text(s, x, y) sets with its built-in 8x8 font. */
    const text8x8: (string, int, int) -> set<(int, int)>

    predicate Valid()
    {
      ScreenFits(width, height) && buffer.Length == ByteSize(width) * height
    }

    /** __init__: allocate and clear the buffer, send the initialisation
        sequence one command per write, then clear and present the screen. */
    constructor (i2c: I2C, address: int, width: int, height: int, raster: Raster,
                 text8x8: (string, int, int) -> set<(int, int)>)
      requires ScreenFits(width, height)
      modifies i2c
      ensures Valid() && fresh(buffer) && Blank(buffer[..])
      ensures this.i2c == i2c && this.address == address / 2 && this.width == width && this.height == height
      ensures this.raster == raster && this.text8x8 == text8x8
      ensures i2c.log == old(i2c.log) + CommandWrites(address / 2, InitCommands(width, height)) +
                         PresentWrites(address / 2, buffer[..], width, height)
    {
      this.i2c := i2c;
      this.address := address / 2;
      this.width := width;
      this.height := height;
      this.raster := raster;
      this.text8x8 := text8x8;
      buffer := new bv8[ByteSize(width) * height](_ => 0);
      new;
      ghost var zeros := buffer[..];
      ClearBuffers();
      ClearBlank(zeros, width, height);
      SendCommands(InitCommands(width, height));
      ClearBuffers();
      ClearBlank(zeros, width, height);
      Present();
    }

    /** The constructor's loop over its initialisation sequence: write_cmd for
        each byte in turn. */
    method SendCommands(cmds: seq<bv8>)
      modifies i2c
      ensures i2c.log == old(i2c.log) + CommandWrites(address, cmds)
    {
      for i := 0 to |cmds|
        invariant i2c.log == old(i2c.log) + CommandWrites(address, cmds[..i])
      {
        WriteCmd(cmds[i] as int);
        ByteOfByte(cmds[i]);
        assert cmds[..i + 1] == cmds[..i] + [cmds[i]];
        CommandWritesAppend(address, cmds[..i], [cmds[i]]);
      }
      assert cmds[..|cmds|] == cmds;
    }

    /** One framebuf call on the buffer. */
    method Paint(e: Effect)
      modifies buffer
      ensures buffer[..] == Apply(old(buffer[..]), width, height, e)
    {
      var next := Apply(buffer[..], width, height, e);
      forall j | 0 <= j < buffer.Length {
        buffer[j] := next[j];
      }
    }

    // -------------------------------------------------------------------------
    // The protocol

    /** write_cmd(command): one write of the command control byte and the command. */
    method WriteCmd(command: int)
      modifies i2c
      ensures i2c.log == old(i2c.log) + [Transfer(address, CommandBytes(Byte(command)))]
    {
      i2c.WriteTo(address, [CONTROL_COMMAND, Byte(command)]);
    }

    /** write_data(data) for a bytearray: one write of the data control byte and the data. */
    method WriteData(data: seq<bv8>)
      modifies i2c
      ensures i2c.log == old(i2c.log) + [Transfer(address, DataBytes(data))]
    {
      i2c.WriteTo(address, [CONTROL_DATA] + data);
    }

    /** write_data(data) for a single integer. */
    method WriteDataByte(data: int)
      modifies i2c
      ensures i2c.log == old(i2c.log) + [Transfer(address, DataBytes([Byte(data)]))]
    {
      assert [CONTROL_DATA, Byte(data)] == DataBytes([Byte(data)]);
      i2c.WriteTo(address, [CONTROL_DATA, Byte(data)]);
    }

    /** present_buf(buf, w, h): select the column and page window, then send the bytes. */
    method PresentBuf(buf: seq<bv8>, w: int, h: int)
      modifies i2c
      ensures i2c.log == old(i2c.log) + PresentWrites(address, buf, w, h)
    {
      var columnBeg := 0;
      var columnEnd := w - 1;
      if w == 64 {
        columnBeg := columnBeg + 32;
        columnEnd := columnEnd + 32;
      }
      var pagesBeg := 0;
      var pagesEnd := h / 8 - 1;
      assert (columnBeg, columnEnd) == Columns(w) && pagesEnd == LastPage(h);
      assert Byte(COLUMN_ADDRESS as int) == COLUMN_ADDRESS && Byte(PAGE_ADDRESS as int) == PAGE_ADDRESS && Byte(0) == 0;
      ghost var l0 := i2c.log;
      WriteCmd(COLUMN_ADDRESS as int);
      ghost var l1 := i2c.log;
      WriteCmd(columnBeg);
      ghost var l2 := i2c.log;
      WriteCmd(columnEnd);
      ghost var l3 := i2c.log;
      WriteCmd(PAGE_ADDRESS as int);
      ghost var l4 := i2c.log;
      WriteCmd(pagesBeg);
      ghost var l5 := i2c.log;
      WriteCmd(pagesEnd);
      ghost var l6 := i2c.log;
      WriteData(buf);
      LogOfSeven(l0, l1, l2, l3, l4, l5, l6, i2c.log, l1[|l0|], l2[|l1|], l3[|l2|], l4[|l3|], l5[|l4|], l6[|l5|], i2c.log[|l6|]);
      PresentWritesSeven(address, buf, w, h);
    }

    /** present(): the whole buffer, for the whole screen. */
    method Present()
      requires Valid()
      modifies i2c
      ensures i2c.log == old(i2c.log) + PresentWrites(address, buffer[..], width, height)
    {
      PresentBuf(buffer[..], width, height);
    }

    /** clear_buffers(): fill(0). */
    method ClearBuffers()
      modifies buffer
      ensures buffer[..] == Cleared(old(buffer[..]), width, height)
    {
      Paint(Ink(FillRect(0, 0, width, height), false));
    }

    /** clear(): clear the buffer and show it. */
    method Clear()
      requires Valid()
      modifies buffer, i2c
      ensures buffer[..] == Cleared(old(buffer[..]), width, height)
      ensures i2c.log == old(i2c.log) + PresentWrites(address, buffer[..], width, height)
    {
      ClearBuffers();
      Present();
    }

    /** sleep(): the display-off command. */
    method Sleep()
      modifies i2c
      ensures i2c.log == old(i2c.log) + [Transfer(address, CommandBytes(DISPLAY_OFF))]
    {
      WriteCmd(DISPLAY_OFF as int);
    }

    /** wake(): the display-on command. */
    method Wake()
      modifies i2c
      ensures i2c.log == old(i2c.log) + [Transfer(address, CommandBytes(DISPLAY_ON))]
    {
      WriteCmd(DISPLAY_ON as int);
    }

    /** cleanup(): clear the screen, then put the display to sleep. */
    method Cleanup()
      requires Valid()
      modifies buffer, i2c
      ensures buffer[..] == Cleared(old(buffer[..]), width, height)
      ensures i2c.log == old(i2c.log) + PresentWrites(address, buffer[..], width, height) +
                         [Transfer(address, CommandBytes(DISPLAY_OFF))]
    {
      Clear();
      Sleep();
    }

    // -------------------------------------------------------------------------
    // The guarded primitives

    /** draw_pixel(x, y, invert). */
    method DrawPixel(x: int, y: int, invert: bool)
      modifies buffer
      ensures buffer[..] == PixelDrawn(old(buffer[..]), width, height, x, y, invert)
    {
      if OffGrid(width, height, x, y, x, y) {
        return;
      }
      Paint(Ink(Pixel(x, y), Colour(invert)));
    }

    /** draw_hline(x, y, w, invert). */
    method DrawHLine(x: int, y: int, w: int, invert: bool)
      modifies buffer
      ensures buffer[..] == HLineDrawn(old(buffer[..]), width, height, x, y, w, invert)
    {
      if OffGrid(width, height, x, y, x + w - 1, y) {
        return;
      }
      Paint(Ink(HLine(x, y, w), Colour(invert)));
    }

    /** draw_vline(x, y, h, invert). */
    method DrawVLine(x: int, y: int, h: int, invert: bool)
      modifies buffer
      ensures buffer[..] == VLineDrawn(old(buffer[..]), width, height, x, y, h, invert)
    {
      if OffGrid(width, height, x, y, x, y + h) {
        return;
      }
      Paint(Ink(VLine(x, y, h), Colour(invert)));
    }

    /** fill_rectangle(x, y, w, h, invert). */
    method FillRectangle(x: int, y: int, w: int, h: int, invert: bool)
      modifies buffer
      ensures buffer[..] == RectFilled(old(buffer[..]), width, height, x, y, w, h, invert)
    {
      if OffGrid(width, height, x, y, x + w - 1, y + h - 1) {
        return;
      }
      Paint(Ink(FillRect(x, y, w, h), Colour(invert)));
    }

    /** draw_rectangle(x, y, w, h, invert). */
    method DrawRectangle(x: int, y: int, w: int, h: int, invert: bool)
      modifies buffer
      ensures buffer[..] == RectDrawn(old(buffer[..]), width, height, x, y, w, h, invert)
    {
      Paint(Ink(Rect(x, y, w, h), Colour(invert)));
    }

    /** draw_sprite(fbuf, x, y, w, h). */
    method DrawSprite(fbuf: Sprite, x: int, y: int, w: int, h: int)
      modifies buffer
      ensures buffer[..] == SpriteDrawn(old(buffer[..]), width, height, fbuf, x, y, w, h)
    {
      var x2 := x + w - 1;
      var y2 := y + h - 1;
      if OffGrid(width, height, x, y, x2, y2) {
        return;
      }
      Paint(Blit(fbuf, x, y));
    }

    /** load_buf(path, w, h): the first ByteSize(w) * h bytes of the file, or
        the whole file when it is shorter. `file` stands for the file's bytes. */
    method LoadBuf(file: seq<bv8>, w: nat, h: nat) returns (buf: array<bv8>)
      ensures fresh(buf)
      ensures buf[..] == file[..if |file| < ByteSize(w) * h then |file| else ByteSize(w) * h]
    {
      var arraySize := ByteSize(w) * h;
      var n := if |file| < arraySize then |file| else arraySize;
      buf := new bv8[n](i => if 0 <= i < n then file[i] else 0);
    }

    /** load_sprite(path, w, h, invert, rotate): the file's bitmap through
        xform_buf, wrapped by make_fb at the size xform_buf reports. The file
        must hold the whole bitmap: framebuf refuses a shorter buffer. */
    method LoadSprite(file: seq<bv8>, w: nat, h: nat, invert: bool, rotate: int) returns (fb: Sprite)
      requires |file| >= ByteSize(w) * h
      ensures fb == Loaded(file[..ByteSize(w) * h], w, h, invert, rotate)
    {
      var buf := LoadBuf(file, w, h);
      var out, newW, newH := Convert.XformBuf(buf, w, h, invert, rotate);
      fb := Sprite(newW, newH, out[..]);
    }

    /** draw_bitmap(path, x, y, w, h, invert, rotate): the loaded sprite
        blitted at (x, y), with no off-grid guard; framebuf clips it. */
    method DrawBitmap(file: seq<bv8>, x: int, y: int, w: nat, h: nat, invert: bool, rotate: int)
      requires |file| >= ByteSize(w) * h
      modifies buffer
      ensures buffer[..] == Apply(old(buffer[..]), width, height, Blit(Loaded(file[..ByteSize(w) * h], w, h, invert, rotate), x, y))
    {
      var fb := LoadSprite(file, w, h, invert, rotate);
      Paint(Blit(fb, x, y));
    }

    /** draw_text8x8(x, y, text). */
    method DrawText8x8(x: int, y: int, text: string)
      modifies buffer
      ensures buffer[..] == Text8x8Drawn(old(buffer[..]), width, height, x, y, text8x8(text, x, y))
    {
      if OffGrid(width, height, x, y, x + 8, y + 8) {
        return;
      }
      Paint(Ink(Points(text8x8(text, x, y)), true));
    }

    // -------------------------------------------------------------------------
    // Lines, polygons and text

    /** draw_line(x1, y1, x2, y2, invert). */
    method DrawLine(x1: int, y1: int, x2: int, y2: int, invert: bool)
      modifies buffer
      ensures buffer[..] == LineDrawn(old(buffer[..]), width, height, x1, y1, x2, y2, invert, raster)
    {
      LineDispatch(buffer[..], width, height, x1, y1, x2, y2, invert, raster);
      if y1 == y2 {
        var xa, xb := x1, x2;
        if xa > xb {
          xa, xb := xb, xa;
        }
        DrawHLine(xa, y1, xb - xa + 1, invert);
        return;
      }
      if x1 == x2 {
        var ya, yb := y1, y2;
        if ya > yb {
          ya, yb := yb, ya;
        }
        DrawVLine(x1, ya, yb - ya + 1, invert);
        return;
      }
      if OffGrid(width, height, Min(x1, x2), Min(y1, y2), Max(x1, x2), Max(y1, y2)) {
        return;
      }
      Paint(Ink(Points(raster(x1, y1, x2, y2)), Colour(invert)));
    }

    /** draw_lines(coords, invert): coords[0] must exist. */
    method DrawLines(coords: seq<(int, int)>, invert: bool)
      requires |coords| >= 1
      modifies buffer
      ensures buffer[..] == LinesDrawn(old(buffer[..]), width, height, coords, invert, raster)
    {
      var x1, y1 := coords[0].0, coords[0].1;
      for i := 1 to |coords|
        invariant (x1, y1) == coords[i - 1]
        invariant LinesFrom(buffer[..], width, height, (x1, y1), coords[i..], invert, raster) ==
                  LinesDrawn(old(buffer[..]), width, height, coords, invert, raster)
      {
        var x2, y2 := coords[i].0, coords[i].1;
        assert coords[i..][0] == coords[i] && coords[i..][1..] == coords[i + 1..];
        DrawLine(x1, y1, x2, y2, invert);
        x1, y1 := x2, y2;
      }
      assert coords[|coords|..] == [];
    }

    /** draw_polygon: the sides + 1 vertices, the last repeating the first, joined
        by draw_lines. `vertex(s)` stands for the point the source computes with
        cos and sin for vertex s. */
    method DrawPolygon(sides: int, vertex: int -> (int, int), invert: bool)
      requires sides >= 1
      modifies buffer
      ensures buffer[..] == LinesDrawn(old(buffer[..]), width, height, seq(sides + 1, s => vertex(s)), invert, raster)
    {
      var coords := PolygonVertices(sides, vertex);
      DrawLines(coords, invert);
    }

    /** fill_polygon: the sides + 1 vertices, their span table, then one
        draw_hline per row of the table, from its leftmost x to one past its
        rightmost. The rows come in the dictionary's order, which is not
        specified, so the loop takes them in any order. */
    method FillPolygon(sides: int, vertex: int -> (int, int), invert: bool)
      requires Valid() && sides >= 1
      modifies buffer
      ensures RowsFilled(old(buffer[..]), buffer[..], width, height, Polygon.Spans(seq(sides + 1, s => vertex(s))),
                         Polygon.Spans(seq(sides + 1, s => vertex(s))).Keys, invert)
    {
      var coords := PolygonVertices(sides, vertex);
      var xdict := Polygon.SpanTable(coords);
      FillRows(xdict, invert);
    }

    /** The last loop of fill_polygon: one draw_hline per row of the table. */
    method FillRows(xdict: Polygon.Table, invert: bool)
      requires Valid()
      modifies buffer
      ensures RowsFilled(old(buffer[..]), buffer[..], width, height, xdict, xdict.Keys, invert)
    {
      ghost var frame0 := buffer[..];
      var rows := xdict.Keys;
      while rows != {}
        invariant rows <= xdict.Keys
        invariant RowsFilled(frame0, buffer[..], width, height, xdict, xdict.Keys - rows, invert)
        decreases |rows|
      {
        SomeRow(rows);
        var row :| row in rows;
        FillRow(frame0, xdict, xdict.Keys - rows, row, invert);
        assert xdict.Keys - (rows - {row}) == (xdict.Keys - rows) + {row};
        rows := rows - {row};
      }
      assert xdict.Keys - rows == xdict.Keys;
    }

    /** One iteration of fill_polygon's last loop: the run of row y. */
    method FillRow(ghost frame0: seq<bv8>, xdict: Polygon.Table, ghost done: set<int>, y: int, invert: bool)
      requires Valid() && |frame0| == buffer.Length && y in xdict && y !in done
      requires RowsFilled(frame0, buffer[..], width, height, xdict, done, invert)
      modifies buffer
      ensures RowsFilled(frame0, buffer[..], width, height, xdict, done + {y}, invert)
    {
      RowsFilledStep(frame0, buffer[..], width, height, xdict, done, y, invert);
      DrawHLine(xdict[y].0, y, xdict[y].1 - xdict[y].0 + 2, invert);
    }

    /** The vertex loop of draw_polygon and fill_polygon. */
    method PolygonVertices(sides: int, vertex: int -> (int, int)) returns (coords: seq<(int, int)>)
      requires sides >= 1
      ensures coords == seq(sides + 1, s => vertex(s))
    {
      coords := [];
      var n := sides + 1;
      for s := 0 to n
        invariant coords == seq(s, i => vertex(i))
      {
        coords := coords + [vertex(s)];
      }
    }

    /** draw_letter(x, y, letter, font, invert, rotate): the glyph's size, and
        the glyph drawn unless it has width 0. */
    method DrawLetter(x: int, y: int, letter: char, font: Font, invert: bool, rotate: int)
      returns (w: int, h: int)
      modifies buffer
      ensures w == font(letter, invert, rotate).w && h == font(letter, invert, rotate).h
      ensures buffer[..] == LetterDrawn(old(buffer[..]), width, height, x, y, font(letter, invert, rotate), rotate)
    {
      var g := font(letter, invert, rotate);
      w, h := g.w, g.h;
      if w == 0 {
        return;
      }
      var ox, oy := x, y;
      if rotate == 180 {
        ox := x - w;
      } else if rotate == 270 {
        oy := y - h;
      }
      Paint(Blit(g.fbuf, ox, oy));
    }

    /** draw_text(x, y, text, font, invert, rotate, spacing). */
    method DrawText(x: int, y: int, text: string, font: Font, invert: bool, rotate: int, spacing: int)
      modifies buffer
      ensures buffer[..] == TextDrawn(old(buffer[..]), width, height, x, y, text, font, invert, rotate, spacing)
    {
      var px, py := x, y;
      var i := 0;
      while i < |text|
        invariant 0 <= i <= |text|
        invariant TextDrawn(buffer[..], width, height, px, py, text[i..], font, invert, rotate, spacing) ==
                  TextDrawn(old(buffer[..]), width, height, x, y, text, font, invert, rotate, spacing)
      {
        ghost var before := buffer[..];
        ghost var g := font(text[i], invert, rotate);
        assert text[i..][0] == text[i] && text[i..][1..] == text[i + 1..];
        TextDrawnStep(before, width, height, px, py, text[i..], font, invert, rotate, spacing);
        var w, h := DrawLetter(px, py, text[i], font, invert, rotate);
        if w == 0 || h == 0 {
          return;
        }
        var ok;
        px, py, ok := AdvancePen(g, px, py, w, h, rotate, spacing, invert);
        if !ok {
          return;
        }
        i := i + 1;
      }
    }

    /** The tail of one draw_text iteration: fill the spacing after a letter of
        size w x h in the background colour and move the pen past it, for each
        of the four rotations; any other rotation ends the text (ok is false). */
    method AdvancePen(ghost g: Glyph, px: int, py: int, w: int, h: int, rotate: int, spacing: int, invert: bool)
      returns (nx: int, ny: int, ok: bool)
      requires g.w == w && g.h == h
      modifies buffer
      ensures ok == ValidRotation(rotate)
      ensures ok ==> buffer[..] == Spaced(old(buffer[..]), width, height, g, px, py, rotate, spacing, invert) &&
                     (nx, ny) == Advance(g, px, py, rotate, spacing)
      ensures !ok ==> buffer[..] == old(buffer[..])
    {
      nx, ny, ok := px, py, true;
      if rotate == 0 {
        if spacing != 0 {
          FillRectangle(px + w, py, spacing, h, !invert);
        }
        nx := px + (w + spacing);
      } else if rotate == 90 {
        if spacing != 0 {
          FillRectangle(px, py + h, w, spacing, !invert);
        }
        ny := py + (h + spacing);
      } else if rotate == 180 {
        if spacing != 0 {
          FillRectangle(px - w - spacing, py, spacing, h, !invert);
        }
        nx := px - (w + spacing);
      } else if rotate == 270 {
        if spacing != 0 {
          FillRectangle(px, py - h - spacing, w, spacing, !invert);
        }
        ny := py - (h + spacing);
      } else {
        ok := false;
      }
    }

    // -------------------------------------------------------------------------
    // Circles and ellipses

    /** draw_circle(x0, y0, r, invert): the four axis points, then eight
        symmetric pixels per step of the midpoint recurrence. */
    method DrawCircle(x0: int, y0: int, r: int, invert: bool)
      modifies buffer
      ensures buffer[..] == Plotted(old(buffer[..]), width, height, x0, y0, Scan.CirclePoints(r), invert)
    {
      ghost var frame0 := buffer[..];
      var f := 1 - r;
      var dx := 1;
      var dy := -r - r;
      var x := 0;
      var y := r;
      PlotAxes(x0, y0, r, invert);
      AxesThenOctants(frame0, buffer[..], width, height, x0, y0, r, invert);
      assert Scan.Circle(f, dx, dy, x, y) == Scan.CircleStart(r);
      while x < y
        invariant Plotted(buffer[..], width, height, x0, y0, Scan.OctantsOf(Scan.CircleStates(Scan.Circle(f, dx, dy, x, y))), invert) ==
                  Plotted(frame0, width, height, x0, y0, Scan.CirclePoints(r), invert)
        decreases y - x
      {
        ghost var s := Scan.Circle(f, dx, dy, x, y);
        if f >= 0 {
          y := y - 1;
          dy := dy + 2;
          f := f + dy;
        }
        x := x + 1;
        dx := dx + 2;
        f := f + dx;
        assert Scan.Circle(f, dx, dy, x, y) == Scan.CircleStep(s);
        PlotCircleStep(x0, y0, s, x, y, invert);
      }
    }

    /** The pixels of the loop's state after s, plotted over what the states
        from s on still had to plot. */
    method PlotCircleStep(x0: int, y0: int, ghost s: Scan.Circle, x: int, y: int, invert: bool)
      requires s.x < s.y && x == Scan.CircleStep(s).x && y == Scan.CircleStep(s).y
      modifies buffer
      ensures Plotted(buffer[..], width, height, x0, y0, Scan.OctantsOf(Scan.CircleStates(Scan.CircleStep(s))), invert) ==
              Plotted(old(buffer[..]), width, height, x0, y0, Scan.OctantsOf(Scan.CircleStates(s)), invert)
    {
      CircleStepPlotted(buffer[..], width, height, x0, y0, s, invert);
      PlotOctants(x0, y0, x, y, invert);
    }

    /** The eight draw_pixel calls of one draw_circle iteration. */
    method PlotOctants(x0: int, y0: int, x: int, y: int, invert: bool)
      modifies buffer
      ensures buffer[..] == Plotted(old(buffer[..]), width, height, x0, y0, Scan.Octants(x, y), invert)
    {
      ghost var before := buffer[..];
      assert Scan.Octants(x, y) == Scan.Quadrants(x, y) + Scan.Quadrants(y, x);
      PlottedAppend(before, width, height, x0, y0, Scan.Quadrants(x, y), Scan.Quadrants(y, x), invert);
      PlotQuadrants(x0, y0, x, y, invert);
      PlotQuadrants(x0, y0, y, x, invert);
    }

    /** The four draw_pixel calls of one draw_ellipse iteration; draw_circle
        makes them twice per iteration, the second time with x and y swapped. */
    method PlotQuadrants(x0: int, y0: int, x: int, y: int, invert: bool)
      modifies buffer
      ensures buffer[..] == Plotted(old(buffer[..]), width, height, x0, y0, Scan.Quadrants(x, y), invert)
    {
      PlottedQuadrants(buffer[..], width, height, x0, y0, x, y, invert);
      DrawPixel(x0 + x, y0 + y, invert);
      DrawPixel(x0 - x, y0 + y, invert);
      DrawPixel(x0 + x, y0 - y, invert);
      DrawPixel(x0 - x, y0 - y, invert);
    }

    /** The four draw_pixel calls draw_circle starts with, at distance r on the axes. */
    method PlotAxes(x0: int, y0: int, r: int, invert: bool)
      modifies buffer
      ensures buffer[..] == Plotted(old(buffer[..]), width, height, x0, y0, [(0, r), (0, -r), (r, 0), (-r, 0)], invert)
    {
      PlottedFour(buffer[..], width, height, x0, y0, (0, r), (0, -r), (r, 0), (-r, 0), invert);
      DrawPixel(x0, y0 + r, invert);
      DrawPixel(x0, y0 - r, invert);
      DrawPixel(x0 + r, y0, invert);
      DrawPixel(x0 - r, y0, invert);
    }

    /** fill_circle(x0, y0, r, invert): the centre column, then four vertical
        runs per step of the same recurrence. */
    method FillCircle(x0: int, y0: int, r: int, invert: bool)
      modifies buffer
      ensures buffer[..] == RunsDrawn(old(buffer[..]), width, height, x0, y0, Scan.DiskRuns(r), invert)
    {
      ghost var frame0 := buffer[..];
      var f := 1 - r;
      var dx := 1;
      var dy := -r - r;
      var x := 0;
      var y := r;
      DrawVLine(x0, y0 - r, 2 * r + 1, invert);
      assert Scan.DiskRuns(r)[0] == (0, -r, 2 * r + 1);
      assert Scan.DiskRuns(r)[1..] == Scan.CircleRunsOf(Scan.CircleStates(Scan.CircleStart(r)));
      while x < y
        invariant RunsDrawn(buffer[..], width, height, x0, y0, Scan.CircleRunsOf(Scan.CircleStates(Scan.Circle(f, dx, dy, x, y))), invert) ==
                  RunsDrawn(frame0, width, height, x0, y0, Scan.DiskRuns(r), invert)
        decreases y - x
      {
        ghost var s := Scan.Circle(f, dx, dy, x, y);
        if f >= 0 {
          y := y - 1;
          dy := dy + 2;
          f := f + dy;
        }
        x := x + 1;
        dx := dx + 2;
        f := f + dx;
        assert Scan.Circle(f, dx, dy, x, y) == Scan.CircleStep(s);
        CircleStepRuns(buffer[..], width, height, x0, y0, s, invert);
        DrawCircleRuns(x0, y0, x, y, invert);
      }
    }

    /** Two runs of the same height from the same row, at columns xa then xb. */
    method DrawVLinePair(xa: int, xb: int, y: int, h: int, invert: bool)
      modifies buffer
      ensures buffer[..] == VLineDrawn(VLineDrawn(old(buffer[..]), width, height, xa, y, h, invert),
                                       width, height, xb, y, h, invert)
    {
      DrawVLine(xa, y, h, invert);
      DrawVLine(xb, y, h, invert);
    }

    /** The four draw_vline calls of one fill_circle iteration. */
    method DrawCircleRuns(x0: int, y0: int, x: int, y: int, invert: bool)
      modifies buffer
      ensures buffer[..] == RunsDrawn(old(buffer[..]), width, height, x0, y0, Scan.CircleRuns(x, y), invert)
    {
      ghost var f0 := buffer[..];
      DrawVLinePair(x0 + x, x0 - x, y0 - y, 2 * y + 1, invert);
      ghost var f2 := buffer[..];
      DrawVLinePair(x0 - y, x0 + y, y0 - x, 2 * x + 1, invert);
      RunsOfCircle(f0, width, height, x0, y0, x, y, invert);
    }

    /** draw_ellipse(x0, y0, a, b, invert): the four points at (0, b), then four
        symmetric pixels per step of region 1 and of region 2. All the
        arithmetic is exact: round() of the quarter is Scan.RoundQuarter. */
    method DrawEllipse(x0: int, y0: int, a: int, b: int, invert: bool)
      modifies buffer
      ensures buffer[..] == Plotted(old(buffer[..]), width, height, x0, y0, Scan.EllipsePoints(a, b), invert)
    {
      ghost var frame0 := buffer[..];
      var a2 := a * a;
      var b2 := b * b;
      var twoa2 := a2 + a2;
      var x := 0;
      var y := b;
      var px := 0;
      var py := twoa2 * y;
      PlotQuadrants(x0, y0, x, y, invert);
      ghost var frame1 := buffer[..];
      var p := Scan.RoundQuarter(4 * b2 - 4 * a2 * b + a2);
      NonNegativeSquare(a);
      NonNegativeSquare(b);
      var start := Scan.Ellipse(x, y, px, py, p);
      ghost var region1 := Scan.Region1(a2, b2, start);
      assert start == Scan.EllipseStart(a2, b2, b);
      var last := PlotRegion1(x0, y0, a2, b2, start, invert);
      ghost var frame2 := buffer[..];
      x, y, px, py := last.x, last.y, last.px, last.py;
      p := Scan.RoundQuarter(b2 * (2 * x + 1) * (2 * x + 1) + 4 * a2 * (y - 1) * (y - 1) - 4 * a2 * b2);
      assert Scan.Ellipse(x, y, px, py, p) == Scan.Shift(a2, b2, last);
      ghost var region2 := Scan.Region2(a2, b2, Scan.Ellipse(x, y, px, py, p));
      PlotRegion2(x0, y0, a2, b2, Scan.Ellipse(x, y, px, py, p), invert);
      assert Scan.EllipseStates(a, b) == region1 + region2;
      Scan.QuadrantsOfAppend(region1, region2);
      PlottedAppend(frame1, width, height, x0, y0, Scan.QuadrantsOf(region1), Scan.QuadrantsOf(region2), invert);
      PlottedAppend(frame0, width, height, x0, y0, Scan.Quadrants(0, b), Scan.QuadrantsOf(region1 + region2), invert);
    }

    /** Region 1 of draw_ellipse from state s0: four pixels per step while px < py. */
    method PlotRegion1(x0: int, y0: int, a2: int, b2: int, s0: Scan.Ellipse, invert: bool)
      returns (last: Scan.Ellipse)
      requires a2 >= 0 && b2 >= 0 && (b2 > 0 || s0.py <= s0.px)
      modifies buffer
      ensures last == Scan.Final(s0, Scan.Region1(a2, b2, s0))
      ensures buffer[..] == Plotted(old(buffer[..]), width, height, x0, y0, Scan.QuadrantsOf(Scan.Region1(a2, b2, s0)), invert)
    {
      var twoa2, twob2 := a2 + a2, b2 + b2;
      var x, y, px, py, p := s0.x, s0.y, s0.px, s0.py, s0.p;
      while px < py
        invariant b2 > 0 || py <= px
        invariant Scan.Final(Scan.Ellipse(x, y, px, py, p), Scan.Region1(a2, b2, Scan.Ellipse(x, y, px, py, p))) ==
                  Scan.Final(s0, Scan.Region1(a2, b2, s0))
        invariant Plotted(buffer[..], width, height, x0, y0, Scan.QuadrantsOf(Scan.Region1(a2, b2, Scan.Ellipse(x, y, px, py, p))), invert) ==
                  Plotted(old(buffer[..]), width, height, x0, y0, Scan.QuadrantsOf(Scan.Region1(a2, b2, s0)), invert)
        decreases py - px
      {
        ghost var s := Scan.Ellipse(x, y, px, py, p);
        x := x + 1;
        px := px + twob2;
        if p < 0 {
          p := p + b2 + px;
        } else {
          y := y - 1;
          py := py - twoa2;
          p := p + b2 + px - py;
        }
        ghost var t := Scan.Ellipse(x, y, px, py, p);
        assert t == Scan.Step1(a2, b2, s);
        assert Scan.Region1(a2, b2, s) == [t] + Scan.Region1(a2, b2, t);
        QuadrantsCons(buffer[..], width, height, x0, y0, t, Scan.Region1(a2, b2, t), invert);
        Scan.FinalCons(s, t, Scan.Region1(a2, b2, t));
        PlotQuadrants(x0, y0, x, y, invert);
      }
      last := Scan.Ellipse(x, y, px, py, p);
    }

    /** Region 2 of draw_ellipse from state s0: four pixels per step while y > 0. */
    method PlotRegion2(x0: int, y0: int, a2: int, b2: int, s0: Scan.Ellipse, invert: bool)
      modifies buffer
      ensures buffer[..] == Plotted(old(buffer[..]), width, height, x0, y0, Scan.QuadrantsOf(Scan.Region2(a2, b2, s0)), invert)
    {
      var twoa2, twob2 := a2 + a2, b2 + b2;
      var x, y, px, py, p := s0.x, s0.y, s0.px, s0.py, s0.p;
      while y > 0
        invariant Plotted(buffer[..], width, height, x0, y0, Scan.QuadrantsOf(Scan.Region2(a2, b2, Scan.Ellipse(x, y, px, py, p))), invert) ==
                  Plotted(old(buffer[..]), width, height, x0, y0, Scan.QuadrantsOf(Scan.Region2(a2, b2, s0)), invert)
        decreases y
      {
        ghost var s := Scan.Ellipse(x, y, px, py, p);
        y := y - 1;
        py := py - twoa2;
        if p > 0 {
          p := p + a2 - py;
        } else {
          x := x + 1;
          px := px + twob2;
          p := p + a2 - py + px;
        }
        ghost var t := Scan.Ellipse(x, y, px, py, p);
        assert t == Scan.Step2(a2, b2, s);
        assert Scan.Region2(a2, b2, s) == [t] + Scan.Region2(a2, b2, t);
        QuadrantsCons(buffer[..], width, height, x0, y0, t, Scan.Region2(a2, b2, t), invert);
        PlotQuadrants(x0, y0, x, y, invert);
      }
    }

    /** fill_ellipse(x0, y0, a, b, invert): the centre column, then two vertical
        chords per step of region 1 and of region 2. */
    method FillEllipse(x0: int, y0: int, a: int, b: int, invert: bool)
      modifies buffer
      ensures buffer[..] == ChordsDrawn(old(buffer[..]), width, height, x0, y0, Scan.EllipseChords(a, b), invert, raster)
    {
      ghost var frame0 := buffer[..];
      DrawLine(x0, y0 - b, x0, y0 + b, invert);
      ghost var frame1 := buffer[..];
      ghost var c := (0, -b, 0, b);
      assert frame1 == LineDrawn(frame0, width, height, x0 + c.0, y0 + c.1, x0 + c.2, y0 + c.3, invert, raster);
      FillEllipseRegions(x0, y0, a, b, invert);
      ghost var chords := Scan.ChordsOf(Scan.EllipseStates(a, b));
      assert buffer[..] == ChordsDrawn(frame1, width, height, x0, y0, chords, invert, raster);
      ChordsDrawnCons(frame0, width, height, x0, y0, c, chords, invert, raster);
      assert buffer[..] == ChordsDrawn(frame0, width, height, x0, y0, [c] + chords, invert, raster);
      assert Scan.EllipseChords(a, b) == [c] + chords;
    }

    /** The two loops of fill_ellipse: region 1 while px < py, then region 2 down to y = 0. */
    method FillEllipseRegions(x0: int, y0: int, a: int, b: int, invert: bool)
      modifies buffer
      ensures buffer[..] == ChordsDrawn(old(buffer[..]), width, height, x0, y0, Scan.ChordsOf(Scan.EllipseStates(a, b)), invert, raster)
    {
      ghost var frame1 := buffer[..];
      var a2 := a * a;
      var b2 := b * b;
      var twoa2 := a2 + a2;
      var x := 0;
      var y := b;
      var px := 0;
      var py := twoa2 * y;
      var p := Scan.RoundQuarter(4 * b2 - 4 * a2 * b + a2);
      NonNegativeSquare(a);
      NonNegativeSquare(b);
      var start := Scan.Ellipse(x, y, px, py, p);
      ghost var region1 := Scan.Region1(a2, b2, start);
      assert start == Scan.EllipseStart(a2, b2, b);
      var last := FillRegion1(x0, y0, a2, b2, start, invert);
      x, y, px, py := last.x, last.y, last.px, last.py;
      p := Scan.RoundQuarter(b2 * (2 * x + 1) * (2 * x + 1) + 4 * a2 * (y - 1) * (y - 1) - 4 * a2 * b2);
      assert Scan.Ellipse(x, y, px, py, p) == Scan.Shift(a2, b2, last);
      ghost var region2 := Scan.Region2(a2, b2, Scan.Ellipse(x, y, px, py, p));
      FillRegion2(x0, y0, a2, b2, Scan.Ellipse(x, y, px, py, p), invert);
      assert Scan.EllipseStates(a, b) == region1 + region2;
      Scan.ChordsOfAppend(region1, region2);
      ChordsDrawnAppend(frame1, width, height, x0, y0, Scan.ChordsOf(region1), Scan.ChordsOf(region2), invert, raster);
    }

    /** The two draw_line calls of one fill_ellipse iteration. */
    method DrawChords(x0: int, y0: int, x: int, y: int, invert: bool)
      modifies buffer
      ensures buffer[..] == ChordsDrawn(old(buffer[..]), width, height, x0, y0, Scan.Chords(x, y), invert, raster)
    {
      ghost var f0 := buffer[..];
      DrawLine(x0 + x, y0 - y, x0 + x, y0 + y, invert);
      ghost var f1 := buffer[..];
      DrawLine(x0 - x, y0 - y, x0 - x, y0 + y, invert);
      assert buffer[..] == LineDrawn(f1, width, height, x0 - x, y0 - y, x0 - x, y0 + y, invert, raster);
      ChordsOfEllipse(f0, width, height, x0, y0, x, y, invert, raster);
    }

    /** Region 1 of fill_ellipse from state s0. */
    method FillRegion1(x0: int, y0: int, a2: int, b2: int, s0: Scan.Ellipse, invert: bool)
      returns (last: Scan.Ellipse)
      requires a2 >= 0 && b2 >= 0 && (b2 > 0 || s0.py <= s0.px)
      modifies buffer
      ensures last == Scan.Final(s0, Scan.Region1(a2, b2, s0))
      ensures buffer[..] == ChordsDrawn(old(buffer[..]), width, height, x0, y0, Scan.ChordsOf(Scan.Region1(a2, b2, s0)), invert, raster)
    {
      var twoa2, twob2 := a2 + a2, b2 + b2;
      var x, y, px, py, p := s0.x, s0.y, s0.px, s0.py, s0.p;
      while px < py
        invariant b2 > 0 || py <= px
        invariant Scan.Final(Scan.Ellipse(x, y, px, py, p), Scan.Region1(a2, b2, Scan.Ellipse(x, y, px, py, p))) ==
                  Scan.Final(s0, Scan.Region1(a2, b2, s0))
        invariant ChordsDrawn(buffer[..], width, height, x0, y0, Scan.ChordsOf(Scan.Region1(a2, b2, Scan.Ellipse(x, y, px, py, p))), invert, raster) ==
                  ChordsDrawn(old(buffer[..]), width, height, x0, y0, Scan.ChordsOf(Scan.Region1(a2, b2, s0)), invert, raster)
        decreases py - px
      {
        ghost var s := Scan.Ellipse(x, y, px, py, p);
        x := x + 1;
        px := px + twob2;
        if p < 0 {
          p := p + b2 + px;
        } else {
          y := y - 1;
          py := py - twoa2;
          p := p + b2 + px - py;
        }
        ghost var t := Scan.Ellipse(x, y, px, py, p);
        assert t == Scan.Step1(a2, b2, s);
        assert Scan.Region1(a2, b2, s) == [t] + Scan.Region1(a2, b2, t);
        ChordsCons(buffer[..], width, height, x0, y0, t, Scan.Region1(a2, b2, t), invert, raster);
        Scan.FinalCons(s, t, Scan.Region1(a2, b2, t));
        DrawChords(x0, y0, x, y, invert);
      }
      last := Scan.Ellipse(x, y, px, py, p);
    }

    /** Region 2 of fill_ellipse from state s0. */
    method FillRegion2(x0: int, y0: int, a2: int, b2: int, s0: Scan.Ellipse, invert: bool)
      modifies buffer
      ensures buffer[..] == ChordsDrawn(old(buffer[..]), width, height, x0, y0, Scan.ChordsOf(Scan.Region2(a2, b2, s0)), invert, raster)
    {
      var twoa2, twob2 := a2 + a2, b2 + b2;
      var x, y, px, py, p := s0.x, s0.y, s0.px, s0.py, s0.p;
      while y > 0
        invariant ChordsDrawn(buffer[..], width, height, x0, y0, Scan.ChordsOf(Scan.Region2(a2, b2, Scan.Ellipse(x, y, px, py, p))), invert, raster) ==
                  ChordsDrawn(old(buffer[..]), width, height, x0, y0, Scan.ChordsOf(Scan.Region2(a2, b2, s0)), invert, raster)
        decreases y
      {
        ghost var s := Scan.Ellipse(x, y, px, py, p);
        y := y - 1;
        py := py - twoa2;
        if p > 0 {
          p := p + a2 - py;
        } else {
          x := x + 1;
          px := px + twob2;
          p := p + a2 - py + px;
        }
        ghost var t := Scan.Ellipse(x, y, px, py, p);
        assert t == Scan.Step2(a2, b2, s);
        assert Scan.Region2(a2, b2, s) == [t] + Scan.Region2(a2, b2, t);
        ChordsCons(buffer[..], width, height, x0, y0, t, Scan.Region2(a2, b2, t), invert, raster);
        DrawChords(x0, y0, x, y, invert);
      }
    }
  }

  lemma NonNegativeSquare(a: int)
    ensures a * a >= 0
  {
    if a < 0 {
      assert a * a == (-a) * (-a);
    }
  }

}
