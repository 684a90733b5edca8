# SSD1306/SSD1309 OLED driver and fireplace animation, in Dafny

This project models the MicroPython driver `pico/ssd1309.py` for an
SSD1306/SSD1309 monochrome OLED on an I2C bus, and the fireplace animation in
`pico/main.py` that runs on it. It proves properties of that model.

- **Bits**: bytes as `bv8` and the two packings of a monochrome bitmap.
  Row-major (MONO_HMSB) stores pixel (x, y) at bit x % 8 of byte
  y * ByteSize(w) + x / 8. Page-major (MONO_VLSB) stores it at bit y % 8 of
  byte (y / 8) * w + x. The module also holds `get_byte_size`.
- **Convert**: the buffer conversions. `xform_buf` inverts, then rotates by
  180, 90 or 270 degrees. `mirror_horizontal` mirrors, and `buf_hmsb_to_vlsb`
  re-packs a bitmap page-major. Each is an imperative method over arrays, with
  the source's nested loops and invariants. Each is proved equal to a
  specification function. Lemmas then prove what each function does to every
  pixel, and which conversions undo each other. Inversion and the 180-degree
  turn each undo themselves on every buffer. The 90- and 270-degree turns undo
  each other pixel by pixel, and byte for byte when the row padding is clear.
  Mirroring undoes itself only at even widths, and byte for byte only when the
  padding is clear; at odd widths the centre column is lost. The page-major
  re-pack loses no pixel of a bitmap with clear padding
  (`Convert.PageMajorInjective`), but the driver has no conversion back.
- **FrameBuf**: the contract of the MicroPython `framebuf` calls the driver
  makes. A call either inks a set of pixels with one colour or blits a
  sprite. Every on-screen pixel the call touches gets its new value. Every
  other pixel and every padding bit keeps its old one.
- **Protocol**: how commands and data are framed on I2C, the constructor's
  initialisation sequence, and the column/page window of `present_buf`. The
  I2C peripheral is a class holding a log of the writes asked of it. An
  integer sent through `bytearray([0x80, command])` keeps its low eight bits,
  as MicroPython's `bytearray` stores it (`Protocol.Byte`), so no size or
  command is refused for not fitting in a byte.
- **Draw**: `is_off_grid` and the primitives it guards, and the unguarded
  ones. It also covers `draw_line`'s dispatch, `draw_lines`, `draw_letter`
  and `draw_text`, and the sequences of calls made by the circle, ellipse and
  polygon routines. Each primitive has a lemma stating what it does to every
  pixel of the screen.
- **Scan**: the integer recurrences of `draw_circle`/`fill_circle` (the
  midpoint circle) and `draw_ellipse`/`fill_ellipse` (the two-region
  midpoint ellipse), with their loop invariants. It also proves where the
  plotted points lie and that they are symmetric.
- **Polygon**: the span table `fill_polygon` builds in its dictionary, as
  an imperative walk over the edges. It is proved to be the row-by-row minimum
  and maximum of the pixels the edges reach.
- **Shapes**: the pixel-level result of the circle, ellipse and polygon
  routines.
- **Display**: the `Display` class. Its fields are the frame buffer array, the
  I2C log, the 7-bit address and the screen size. Every method of the class
  named above is a Dafny method stating the new buffer and the new I2C log.
- **Animation**: `prepare_fireplace_animation` and `play_fireplace_animation`
  from `pico/main.py`, and the ping-pong play order.

Some behaviour of the code is modelled exactly as written, with a lemma that
makes it visible:

- **180-degree rotation.** It reverses the whole buffer byte by byte, so it
  rotates the padded rows. It is a true rotation of the image only when the
  width is a multiple of 8 (`Convert.Rotate180Pixels`,
  `Convert.Rotate180IsRotation`).
- **Odd-width mirror.** `mirror_horizontal` never copies the centre column of
  an odd-width bitmap into its fresh buffer, so that column comes out clear
  (`Convert.MirrorCentreClear`).
- **`draw_vline` guard.** It checks `y + h` rather than `y + h - 1`, so a
  vertical run that reaches the bottom row is never drawn
  (`Draw.VLineToBottomSkipped`). The same applies to `fill_circle`'s runs,
  and to vertical `draw_line`s and `fill_ellipse` chords of two or more
  pixels. A one-pixel line or chord has equal ends, so `draw_line` sends it to
  `draw_hline`, whose guard tests the pixel itself, and it is drawn even on the
  bottom row.
- **Polygon runs.** `fill_polygon` draws each row's run `max - min + 2`
  pixels wide, one column past the rightmost pixel its edges reach
  (`Polygon.FillRun`, `Shapes.PolygonFill`).
- **One-frame play order.** With a single frame the play order is `[0]`, and
  the forever loop shows that same frame over and over
  (`Animation.DisplayListOneFrame`).

The live frame buffer is MONO_VLSB, page-major (`pico/ssd1309.py:95`), and
`present_buf` sends those bytes as they are; the model draws into a page-major
frame. Bitmaps loaded from files and
sprites made by `make_fb` are row-major (MONO_HMSB).

## Model

| member | source | states |
|---|---|---|
| Bits.ByteSize | pico/ssd1309.py:21-22 | the bytes per row-major row are the least r with 8 * r >= width |
| Bits.CeilingDivision | pico/ssd1309.py:90 | the constructor's `-(-width // 8)` gives the same row size as get_byte_size |
| Convert.InvertInPlace | pico/ssd1309.py:171-173 | the caller's array is overwritten with every byte XORed with 0xFF |
| Convert.InvertedPixels | pico/ssd1309.py:171-173 | inversion turns every pixel to its opposite |
| Convert.InvertTwice | pico/ssd1309.py:171-173 | inverting twice gives the original buffer back |
| Convert.ReverseBits | pico/ssd1309.py:182-188 | bit d of the result is bit 7 - d of the input |
| Convert.ReverseBitsTwice | pico/ssd1309.py:182-188 | reversing a byte's bits twice restores it |
| Convert.ReverseByte | pico/ssd1309.py:182-188 | the eight shift-in/shift-out rounds return the bit-reversed byte |
| Convert.Rotate180 | pico/ssd1309.py:178-189 | returns a fresh array equal to Rotated180 of the input |
| Convert.Rotated180 | pico/ssd1309.py:178-189 | the rotated buffer has the input's length |
| Convert.Rotated180At | pico/ssd1309.py:178-189 | byte len - 1 - i of the result is byte i of the input with its bits reversed, for every i |
| Convert.Rotate180Twice | pico/ssd1309.py:178-189 | rotating by 180 twice gives the original buffer back |
| Convert.Rotate180Pixels | pico/ssd1309.py:178-189 | pixel (x, y) goes to (8 * ByteSize(w) - 1 - x, h - 1 - y): the padded rows turn, not the image |
| Convert.Rotate180IsRotation | pico/ssd1309.py:178-189 | when w is a multiple of 8, pixel (x, y) goes to (w - 1 - x, h - 1 - y) |
| Convert.Rotate90 | pico/ssd1309.py:190-204 | returns a fresh array equal to the 90-degree turn of the input |
| Convert.Rotate90Row | pico/ssd1309.py:194-204 | one pass of the inner loop ORs every pixel of row y1 into its destination bit and keeps the earlier rows |
| Convert.Rotate90Pixels | pico/ssd1309.py:190-204 | input pixel (x, y) is pixel (h - 1 - y, x) of the turned image, which is h wide and w high |
| Convert.Rotate270 | pico/ssd1309.py:205-219 | returns a fresh array equal to the 270-degree turn of the input |
| Convert.Rotate270Row | pico/ssd1309.py:209-219 | one pass of the inner loop ORs every pixel of row y1 into its destination bit and keeps the earlier rows |
| Convert.Rotate270Pixels | pico/ssd1309.py:205-219 | input pixel (x, y) is pixel (y, w - 1 - x) of the turned image |
| Convert.Scattered | pico/ssd1309.py:191-219 | a quarter turn or page-major re-pack yields ByteSize(h) * w bytes |
| Convert.DestThenSource | pico/ssd1309.py:196-201 | every source pixel is ORed into a bit that carries a pixel, and that bit's source pixel is this one |
| Convert.SourceThenDest | pico/ssd1309.py:196-201 | every output bit that carries a pixel has an in-range source pixel whose destination is that bit |
| Convert.TurnClean | pico/ssd1309.py:190-219 | the padding at the end of each row of a quarter turn is 0 |
| Convert.Rotate270After90Pixel | pico/ssd1309.py:190-219 | a 270-degree turn after a 90-degree turn restores every pixel |
| Convert.Rotate90After270Pixel | pico/ssd1309.py:190-219 | a 90-degree turn after a 270-degree turn restores every pixel |
| Convert.Rotate270After90 | pico/ssd1309.py:190-219 | for a bitmap with clear padding, turning right then left restores the bytes |
| Convert.Rotate90After270 | pico/ssd1309.py:190-219 | for a bitmap with clear padding, turning left then right restores the bytes |
| Convert.XformBuf | pico/ssd1309.py:161-221 | the caller's buffer is inverted in place when asked; 180/90/270 give a fresh rotated buffer, with width and height swapped for the quarter turns; any other angle returns the caller's buffer itself |
| Convert.MirrorHorizontal | pico/ssd1309.py:223-241 | returns a fresh array equal to Mirrored of the input |
| Convert.MirrorRow | pico/ssd1309.py:228-240 | one row of swaps writes both columns of each pair of row y1 and keeps the earlier rows |
| Convert.MirrorLeftPart | pico/ssd1309.py:236-237 | the left part of a swap puts input column x at column w - 1 - x of the result |
| Convert.MirrorRightPart | pico/ssd1309.py:239-240 | the right part of a swap puts input column w - 1 - x at column x of the result |
| Convert.Mirrored | pico/ssd1309.py:225-226 | the mirror image has ByteSize(w) * h bytes |
| Convert.MirroredPixels | pico/ssd1309.py:223-241 | every pixel of the result is the input pixel at the mirrored column, except padding and an odd width's centre column, which are clear |
| Convert.MirrorSwaps | pico/ssd1309.py:228-240 | for x < w / 2, result column x is input column w - 1 - x, and result column w - 1 - x is input column x |
| Convert.MirrorCentreClear | pico/ssd1309.py:228 | for an odd width the centre column of the result is clear |
| Convert.MirrorTwicePixels | pico/ssd1309.py:223-241 | for an even width, mirroring twice restores every pixel |
| Convert.MirrorTwice | pico/ssd1309.py:223-241 | for an even width and clear padding, mirroring twice restores the bytes |
| Convert.HmsbToVlsb | pico/ssd1309.py:800-825 | returns a fresh array equal to the page-major packing of the input |
| Convert.HmsbToVlsbRow | pico/ssd1309.py:815-825 | one pass of the inner loop moves every pixel of row y1 to its page-major bit and keeps the earlier rows |
| Convert.PageMajorPixels | pico/ssd1309.py:800-825 | bit y % 8 of byte (y / 8) * w + x of the result is input pixel (x, y) |
| Convert.PageMajorClean | pico/ssd1309.py:800-825 | every bit below the last row of the result is 0 |
| Convert.PageMajorInjective | pico/ssd1309.py:800-825 | two bitmaps with clear padding that have the same page-major packing are equal |
| FrameBuf.Colour | pico/ssd1309.py:392 | the colour int(invert ^ 1) is the opposite of invert |
| FrameBuf.ApplyPixel | pico/ssd1309.py:95 | after a framebuf call every on-screen pixel has the value the call gives it, from its old value |
| FrameBuf.ApplyPadding | pico/ssd1309.py:95 | a framebuf call leaves every bit that is not an on-screen pixel as it was |
| FrameBuf.ClearBlank | pico/ssd1309.py:157-159 | fill(0) on an all-zero frame leaves it as it is |
| FrameBuf.FullScreenBlit | pico/main.py:92 | a full-screen sprite blitted at (0, 0) replaces the frame with the sprite's page-major packing, whatever the frame held |
| Protocol.CommandBytes | pico/ssd1309.py:136 | write_cmd's bytes decode as exactly that one command |
| Protocol.DataBytes | pico/ssd1309.py:148 | write_data's bytes are one longer than the data and decode as exactly that data |
| Protocol.CommandWrites | pico/ssd1309.py:100-119 | one write per command, in order, each to the address and each decoding as that command |
| Protocol.CommandWritesAppend | pico/ssd1309.py:100-121 | sending two command lists in turn is sending their concatenation |
| Protocol.ComPins | pico/ssd1309.py:110-111 | the COM pins argument is 0x02 exactly when the height is 32 or 16 and the width is not 64, and 0x12 otherwise |
| Protocol.InitCommands | pico/ssd1309.py:100-118 | 25 bytes from DISPLAY_OFF to DISPLAY_ON, with the MUX ratio the low byte of height - 1 and the COM pins argument in place |
| Protocol.Columns | pico/ssd1309.py:829-834 | the window is w columns wide and starts at 32 exactly when w == 64, at 0 otherwise |
| Protocol.LastPage | pico/ssd1309.py:836 | (h >> 3) - 1 is the last whole page |
| Protocol.WindowCommands | pico/ssd1309.py:837-842 | COLUMN_ADDRESS, the first and last column, PAGE_ADDRESS, 0, the last page |
| Protocol.PresentWrites | pico/ssd1309.py:827-843 | present_buf makes seven writes, all to the address: the six window commands in order, then the frame bytes as data |
| Protocol.PresentWritesFramed | pico/ssd1309.py:827-843 | all seven writes go to the address and are framed: six window commands, then the data |
| Protocol.PresentWritesSeven | pico/ssd1309.py:827-843 | the seven writes, spelled out one by one |
| Protocol.I2C.WriteTo | pico/ssd1309.py:136 | one write is appended to the log and nothing else changes |
| Draw.OffGrid | pico/ssd1309.py:773-798 | true exactly when xmin < 0, ymin < 0, xmax >= width or ymax >= height |
| Draw.GuardedPixel | pico/ssd1309.py:773-798 | a guarded call leaves every pixel alone when the guard trips, and applies the call otherwise |
| Draw.GuardedPadding | pico/ssd1309.py:773-798 | a guarded call leaves the padding bits alone either way |
| Draw.PixelDrawnPixels | pico/ssd1309.py:460-470 | draw_pixel sets its own pixel when it is on screen, and no other |
| Draw.HLineDrawnPixels | pico/ssd1309.py:383-394 | draw_hline sets the whole run when x .. x + w - 1 is on screen, and nothing otherwise |
| Draw.VLineDrawnPixels | pico/ssd1309.py:583-595 | draw_vline sets the whole run when x, y and y + h are on screen, and nothing otherwise |
| Draw.VLineToBottomSkipped | pico/ssd1309.py:593 | a vertical run with y + h >= height leaves the frame unchanged |
| Draw.ClearedPixels | pico/ssd1309.py:157-159 | clear_buffers clears every pixel of the screen |
| Draw.RectFilledPixels | pico/ssd1309.py:677-689 | fill_rectangle fills the whole box when it fits, and nothing otherwise |
| Draw.RectDrawnPixels | pico/ssd1309.py:496-506 | draw_rectangle sets exactly the on-screen pixels of the outline, with no guard |
| Draw.SpriteDrawnPixels | pico/ssd1309.py:508-521 | draw_sprite copies the sprite over its area when the box fits, and draws nothing otherwise |
| Draw.Text8x8DrawnPixels | pico/ssd1309.py:570-581 | draw_text8x8 sets the text's pixels when its box fits, and nothing otherwise |
| Draw.LineDispatch | pico/ssd1309.py:427-438 | a horizontal line is draw_hline from the smaller x, and a vertical one is draw_vline from the smaller y, one longer than the distance between the ends |
| Draw.HorizontalLinePixels | pico/ssd1309.py:428-432 | a horizontal line sets every column between its ends, in either order, when it is on screen, and nothing otherwise |
| Draw.VerticalLinePixels | pico/ssd1309.py:434-438 | a vertical line sets every row between its ends when it is on screen and ends above the bottom row, and nothing otherwise |
| Draw.SlopedLinePixels | pico/ssd1309.py:440-443 | any other line sets framebuf's line pixels when its bounding box is on screen, and nothing otherwise |
| Draw.AxisLineSymmetric | pico/ssd1309.py:427-438 | horizontal and vertical lines do not depend on the order of their ends |
| Draw.LinesFromAppend | pico/ssd1309.py:455-458 | one more point in draw_lines draws one more line, from the last point |
| Draw.TextBehindPenUnchanged | pico/ssd1309.py:536-568 | with a valid rotation, a spacing of at least 0 and glyphs of their stated size, draw_text leaves every pixel behind its starting pen unchanged (left of it at 0 degrees, above at 90, at or right of it at 180, at or below at 270) |
| Draw.TextTiles | pico/ssd1309.py:542-568 | for each rotation the letter, its spacing and the next letter lie side by side, the gap starting where the letter ends and the next letter where the gap ends |
| Draw.PlottedPixels | pico/ssd1309.py:315-322 | draw_pixel at each offset from the centre sets exactly the on-screen pixels whose offset is listed |
| Draw.RunsDrawnPixels | pico/ssd1309.py:619-623 | draw_vline for each run sets exactly the on-screen pixels covered by a run that passes its guard |
| Draw.ChordsDrawnPixels | pico/ssd1309.py:658-661 | draw_line for each vertical chord sets exactly the on-screen pixels covered by a chord that passes its guard |
| Scan.CircleStartInv | pico/ssd1309.py:298-302 | the starting state meets the midpoint circle invariant |
| Scan.CircleStepInv | pico/ssd1309.py:307-314 | one iteration keeps the invariant (dx == 2x + 1, dy == -2y, f the midpoint value), moves one column right and at most one row down |
| Scan.CircleStatesInv | pico/ssd1309.py:307-314 | every state of the loop meets the invariant, and the loop ends with x >= y |
| Scan.CirclePointsNear | pico/ssd1309.py:303-322 | every pixel draw_circle plots lies within half a pixel of the true circle: abs(a² + b² - r²) <= max(abs(a), abs(b)) |
| Scan.CirclePointsSymmetric | pico/ssd1309.py:303-322 | the plotted set holds all eight mirror images of each of its points |
| Scan.CircleRunsJoinOutline | pico/ssd1309.py:620-623 | each run fill_circle draws starts and ends on pixels draw_circle plots for the same state |
| Scan.RoundQuarter | pico/ssd1309.py:352-368 | Python's round of n / 4 is within half of it, and a tie goes to the even neighbour |
| Scan.EllipseStartInv | pico/ssd1309.py:338-352 | the starting state meets the region 1 invariant: px == 2b²x, py == 2a²y, p the rounded midpoint value |
| Scan.Step1Inv | pico/ssd1309.py:353-361 | a region 1 step keeps the invariant, moves one column right, and stays on the row only when the midpoint is inside the ellipse |
| Scan.Region1States | pico/ssd1309.py:353-365 | every state of region 1 meets the invariant, and region 1 ends with px >= py |
| Scan.ShiftInv | pico/ssd1309.py:367-368 | region 2's p starts as the rounded midpoint value where region 1 stopped |
| Scan.Step2Inv | pico/ssd1309.py:369-377 | a region 2 step keeps the invariant, moves one row down, and stays in the column only when the midpoint is outside the ellipse |
| Scan.Region2States | pico/ssd1309.py:369-381 | every state of region 2 meets the invariant, and region 2 ends on the axis y == 0 |
| Scan.EllipsePointsSymmetric | pico/ssd1309.py:349-381 | the pixels draw_ellipse plots are symmetric about both axes |
| Polygon.WalkEdge | pico/ssd1309.py:753-767 | the inner loop records the walked pixels of a normalised edge into the table |
| Polygon.AddSlopedEdge | pico/ssd1309.py:731-767 | a non-horizontal edge is normalised, then walked, recording its pixels |
| Polygon.AddEdge | pico/ssd1309.py:717-768 | one pass of the outer loop records both ends of a horizontal edge, or the walked pixels of any other |
| Polygon.SpanTable | pico/ssd1309.py:712-768 | the table fill_polygon builds from its vertex list is Spans of that list |
| Polygon.EdgeEnds | pico/ssd1309.py:731-767 | a non-horizontal edge records one pixel per step along its major axis, from one end exactly to the other |
| Polygon.RecordKeeps | pico/ssd1309.py:722-763 | recording one more pixel keeps the table the span table of the pixels so far |
| Polygon.RecordedSpans | pico/ssd1309.py:713-768 | recording a sequence of pixels into an empty dictionary gives their span table |
| Polygon.SpansAreMinMax | pico/ssd1309.py:713-768 | the table has a row exactly for each row the edges reach, each span holds every pixel of its row, and both ends of a span are pixels of that row |
| Shapes.AxesThenOctants | pico/ssd1309.py:303-322 | draw_circle plots the four axis points first, then eight points per loop state |
| Shapes.CircleOutlinePixels | pico/ssd1309.py:289-322 | draw_circle sets exactly the on-screen pixels whose offset it plots, each within half a pixel of the circle |
| Shapes.DiskRunsJoinOutline | pico/ssd1309.py:611-623 | every run fill_circle draws, the centre column included, starts and ends on a pixel draw_circle plots |
| Shapes.DiskPixels | pico/ssd1309.py:597-623 | fill_circle sets exactly the on-screen pixels covered by a run that passes draw_vline's guard |
| Shapes.EllipseChordsJoinOutline | pico/ssd1309.py:648-675 | every chord fill_ellipse draws is vertical and joins two points draw_ellipse plots |
| Shapes.EllipseOutlinePixels | pico/ssd1309.py:324-381 | draw_ellipse sets exactly the on-screen pixels whose offset it plots, a set symmetric about both axes |
| Shapes.FilledEllipsePixels | pico/ssd1309.py:625-675 | fill_ellipse sets exactly the on-screen pixels covered by a chord that passes its guard |
| Shapes.PolygonFill | pico/ssd1309.py:769-771 | a filled pixel lies between two edge pixels of its row, or one column past the rightmost; every edge pixel's row is in the table, and the pixel is filled when that row's run fits |
| Shapes.RowsFilledStep | pico/ssd1309.py:770-771 | drawing one more row's run adds that row to the filled rows, whatever order the rows come in |
| Display.Loaded | pico/ssd1309.py:255-270 | the loaded sprite has width and height swapped exactly for the quarter turns |
| Display.LoadedPixels | pico/ssd1309.py:255-270 | each bitmap pixel, inverted when asked, lands turned right for 90, turned left for 270, half round for 180 when the width is whole bytes, and in place for other angles |
| Display.Display.constructor | pico/ssd1309.py:76-121 | the address is address >> 1 and the buffer is all zero; the log gains the 25 init commands, one write each, then a present of the blank buffer |
| Display.Display.SendCommands | pico/ssd1309.py:100-119 | the log gains one command write per byte, in order |
| Display.Display.WriteCmd | pico/ssd1309.py:129-139 | the log gains exactly the write [0x80, the low byte of command] |
| Display.Display.WriteData | pico/ssd1309.py:141-148 | the log gains exactly the write [0x40] + data |
| Display.Display.WriteDataByte | pico/ssd1309.py:149-150 | the log gains exactly the write [0x40, the low byte of data] |
| Display.Display.PresentBuf | pico/ssd1309.py:827-843 | the log gains the seven writes of PresentWrites |
| Display.Display.Present | pico/ssd1309.py:845-847 | the log gains the seven writes presenting the whole buffer on the whole screen |
| Display.Display.ClearBuffers | pico/ssd1309.py:157-159 | the buffer is cleared |
| Display.Display.Clear | pico/ssd1309.py:152-155 | the buffer is cleared, then presented |
| Display.Display.Sleep | pico/ssd1309.py:853-855 | the log gains exactly the write [0x80, 0xAE] |
| Display.Display.Wake | pico/ssd1309.py:857-859 | the log gains exactly the write [0x80, 0xAF] |
| Display.Display.Cleanup | pico/ssd1309.py:123-127 | the buffer is cleared and presented, then [0x80, 0xAE] is written |
| Display.Display.DrawPixel | pico/ssd1309.py:460-470 | the buffer becomes PixelDrawn of the old buffer |
| Display.Display.DrawHLine | pico/ssd1309.py:383-394 | the buffer becomes HLineDrawn of the old buffer |
| Display.Display.DrawVLine | pico/ssd1309.py:583-595 | the buffer becomes VLineDrawn of the old buffer |
| Display.Display.FillRectangle | pico/ssd1309.py:677-689 | the buffer becomes RectFilled of the old buffer |
| Display.Display.DrawRectangle | pico/ssd1309.py:496-506 | the buffer becomes RectDrawn of the old buffer |
| Display.Display.DrawSprite | pico/ssd1309.py:508-521 | the buffer becomes SpriteDrawn of the old buffer |
| Display.Display.LoadBuf | pico/ssd1309.py:243-248 | a fresh array holding the first ByteSize(w) * h bytes of the file, or all of a shorter file |
| Display.Display.LoadSprite | pico/ssd1309.py:255-270 | the sprite is the file's bitmap through xform_buf, at the size xform_buf reports |
| Display.Display.DrawBitmap | pico/ssd1309.py:272-287 | the loaded sprite is blitted at (x, y) with no off-grid guard |
| Display.Display.DrawText8x8 | pico/ssd1309.py:570-581 | the buffer becomes Text8x8Drawn of the old buffer |
| Display.Display.DrawLine | pico/ssd1309.py:419-443 | the buffer becomes LineDrawn of the old buffer |
| Display.Display.DrawLines | pico/ssd1309.py:445-458 | the buffer becomes LinesDrawn of the old buffer: one line per pair of consecutive points |
| Display.Display.PolygonVertices | pico/ssd1309.py:486-491 | the vertex list is the sides + 1 computed vertices |
| Display.Display.DrawPolygon | pico/ssd1309.py:472-494 | the sides + 1 vertices, joined by draw_lines |
| Display.Display.FillPolygon | pico/ssd1309.py:691-771 | every row of the span table is filled by its run, in any order, and nothing else changes |
| Display.Display.FillRows | pico/ssd1309.py:769-771 | every row of the table is filled by its run, and nothing else changes |
| Display.Display.FillRow | pico/ssd1309.py:770-771 | one more row of the table is drawn |
| Display.Display.DrawLetter | pico/ssd1309.py:396-417 | returns the glyph's size and blits the glyph unless its width is 0 |
| Display.Display.AdvancePen | pico/ssd1309.py:541-568 | for a valid rotation the spacing is filled in the background colour and the pen moves past it; any other rotation changes nothing and ends the text |
| Display.Display.DrawText | pico/ssd1309.py:523-568 | the buffer becomes TextDrawn of the old buffer |
| Display.Display.DrawCircle | pico/ssd1309.py:289-322 | the buffer becomes the old one with draw_pixel at every offset of CirclePoints |
| Display.Display.PlotAxes | pico/ssd1309.py:303-306 | the four axis points at distance r are plotted |
| Display.Display.PlotOctants | pico/ssd1309.py:315-322 | the eight symmetric points of one state are plotted |
| Display.Display.PlotCircleStep | pico/ssd1309.py:307-322 | one iteration plots the next state's points over what the rest of the loop plots |
| Display.Display.FillCircle | pico/ssd1309.py:597-623 | the buffer becomes the old one with draw_vline for every run of DiskRuns |
| Display.Display.DrawCircleRuns | pico/ssd1309.py:620-623 | the four runs of one state are drawn |
| Display.Display.DrawEllipse | pico/ssd1309.py:324-381 | the buffer becomes the old one with draw_pixel at every offset of EllipsePoints |
| Display.Display.PlotQuadrants | pico/ssd1309.py:347-381 | the four symmetric points of one state are plotted |
| Display.Display.PlotRegion1 | pico/ssd1309.py:353-365 | region 1 plots the quadrant points of each of its states and returns the state it stops in |
| Display.Display.PlotRegion2 | pico/ssd1309.py:369-381 | region 2 plots the quadrant points of each of its states |
| Display.Display.FillEllipse | pico/ssd1309.py:625-675 | the buffer becomes the old one with draw_line for every chord of EllipseChords |
| Display.Display.FillEllipseRegions | pico/ssd1309.py:650-675 | both regions draw the chords of each of their states |
| Display.Display.DrawChords | pico/ssd1309.py:660-661 | the two chords of one state are drawn |
| Display.Display.FillRegion1 | pico/ssd1309.py:651-661 | region 1 draws the chords of each of its states and returns the state it stops in |
| Display.Display.FillRegion2 | pico/ssd1309.py:665-675 | region 2 draws the chords of each of its states |
| Animation.DisplayList | pico/main.py:83 | the play order has maxi entries forward and maxi - 2 back |
| Animation.DisplayListFrames | pico/main.py:83 | with at least two frames the order has 2 * maxi - 2 valid entries, and every frame appears in it |
| Animation.DisplayListInRange | pico/main.py:83-92 | every entry lies in 0 .. maxi - 1, so fbuf_array[i] is always in range |
| Animation.DisplayListPingPong | pico/main.py:83 | the order runs forward, then back: entry i and entry 2 * maxi - 2 - i are equal |
| Animation.DisplayListSteps | pico/main.py:83-112 | each step of the order, and the wrap from the last entry to the first, moves to a neighbouring frame |
| Animation.DisplayListNoRepeats | pico/main.py:81-112 | no frame is shown twice in a row, the wrap of the forever loop included |
| Animation.DisplayListOneFrame | pico/main.py:83 | a single frame gives the order [0] |
| Animation.PrepareFireplace | pico/main.py:66-85 | eight sprites: frame k at 2k and its mirror image at 2k + 1, and the play order DisplayList(8) |
| Animation.FrameWrites | pico/main.py:92-93 | presenting one frame makes seven writes |
| Animation.Frames | pico/main.py:91-93 | playing an order makes seven writes per entry |
| Animation.FramesAt | pico/main.py:91-93 | the j-th group of seven writes presents frame displaylist[j], laid out page-major |
| Animation.ShowFrame | pico/main.py:92-93 | a full-screen sprite replaces the buffer with its page-major packing, which is then presented |
| Animation.PlayStep | pico/main.py:91-93 | entry j adds its frame's seven writes to the log and leaves that frame on screen |
| Animation.PlayFireplace | pico/main.py:88-94 | the log gains the writes of every frame of the order in turn, and the last frame stays on screen |

## Left out

- The I2C bus itself: `i2c.writeto` is a foreign call, modelled as a log of (address, bytes) writes.
- `utime.sleep_ms`, the LED self-test, the random fire test, the welcome banner and the forever loop of `pico/main.py`: the loop appears only as the wrap of the play order.
- `print`: the console messages of `is_off_grid` and `draw_text`.
- File I/O: `load_buf`, `load_sprite`, `draw_bitmap` and `prepare_fireplace_animation` take the file's bytes as a parameter.
- MicroPython's `framebuf`: only its contract is modelled. The pixels of its sloped `line` and of its built-in 8x8 `text` are parameters of the class (`raster`, `text8x8`).
- Trigonometry: the vertex list of `draw_polygon` and `fill_polygon` (cos, sin, radians) is a parameter `vertex`.
- `font.get_letter`: the font is a function from letter, invert and rotation to a glyph and its size.
- `write_cmd` with extra arguments, which passes a tuple to `write_data`: no caller uses that path.
- `reset`: its body is `pass`.
- Ellipse `round()` calls: their arguments are multiples of 1/4, modelled as exact values rounded half to even (`Scan.RoundQuarter`). The Pico's floats are single precision, with 24 significant bits, so a term such as `a2 * b2` (`pico/ssd1309.py:352`, `pico/ssd1309.py:367`) is exact only while it stays below 2^22 in magnitude; the model does not capture the float rounding of larger semi-axes (for example a * b >= 2048).
- Display.Display.FillPolygon: `xdict.items()` runs in dictionary order. The model lets the rows come in any order, so it describes the result pixel by pixel rather than as one fixed sequence of calls.
- Requires that stand for a run-time error the source raises; the model has no error outcome for them:
  - `Display.ScreenFits`, the constructor's requires: a negative size makes `bytearray` raise ValueError, and a frame larger than the allocated bytes makes `FrameBuffer` raise ValueError (`pico/ssd1309.py:92-95`).
  - `Convert.Rotate90`, `Convert.Rotate270`, `Convert.XformBuf`, `Convert.HmsbToVlsb` and `Convert.MirrorHorizontal` require `buf.Length >= ByteSize(w) * h`: a shorter buffer raises IndexError (`pico/ssd1309.py:202`, `pico/ssd1309.py:217`, `pico/ssd1309.py:236`, `pico/ssd1309.py:822`). One exception: for `mirror_horizontal` with `w == 1` the loop over `range(w // 2)` (`pico/ssd1309.py:228`) is empty, so the source reads nothing and returns `h` zero bytes for any buffer; the model still requires the full length there.
  - `LoadSprite`, `DrawBitmap` and `PrepareFireplace` require a file at least as long as the bitmap: for a quarter turn `xform_buf` raises IndexError on a shorter one, and otherwise `FrameBuffer` raises ValueError.
  - `Display.Display.DrawLines` and `Draw.LinesDrawn` require `|coords| >= 1`: `coords[0]` raises IndexError on an empty list (`pico/ssd1309.py:453`).
  - `Display.Display.DrawPolygon`, `Display.Display.FillPolygon` and `Display.Display.PolygonVertices` require `sides >= 1`: `sides == 0` raises ZeroDivisionError (`pico/ssd1309.py:490`, `pico/ssd1309.py:710`), and a negative `sides` leaves `coords` empty, so `coords[0]` raises IndexError (`pico/ssd1309.py:453`, `pico/ssd1309.py:713`).
- Animation.GroupOfConcat, Display.SomeRow, Display.LogOfSeven, Display.NonNegativeSquare, Protocol.ByteOfByte and Draw.TextDrawnStep (`draw_text` unfolded by one letter, for the loop proof of `Display.Display.DrawText`) are proof helpers, not part of the driver.
