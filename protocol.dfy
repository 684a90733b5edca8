/*
  The SSD1306/SSD1309 I2C protocol as the driver speaks it (pico/ssd1309.py):
  every command byte goes in its own write, preceded by the control byte 0x80;
  display data goes in one write preceded by the control byte 0x40.

  The I2C peripheral is modelled by the log of writes it has been asked to
  make, each a (7-bit address, bytes) pair; the bus itself is not modelled.
*/
module Protocol {

  // Command codes from the display data sheet, as the driver names them.
  const CONTRAST_CONTROL: bv8 := 0x81
  const ENTIRE_DISPLAY_ON: bv8 := 0xA4
  const INVERSION_OFF: bv8 := 0xA6
  const DISPLAY_OFF: bv8 := 0xAE
  const DISPLAY_ON: bv8 := 0xAF
  const CHARGE_PUMP: bv8 := 0x8D
  const MEMORY_ADDRESSING_MODE: bv8 := 0x20
  const COLUMN_ADDRESS: bv8 := 0x21
  const PAGE_ADDRESS: bv8 := 0x22
  const DISPLAY_START_LINE: bv8 := 0x40
  const SEGMENT_MAP_FLIPPED: bv8 := 0xA1
  const MUX_RATIO: bv8 := 0xA8
  const COM_OUTPUT_FLIPPED: bv8 := 0xC8
  const DISPLAY_OFFSET: bv8 := 0xD3
  const COM_PINS_HW_CFG: bv8 := 0xDA
  const DISPLAY_CLOCK_DIV: bv8 := 0xD5
  const PRECHARGE_PERIOD: bv8 := 0xD9
  const VCOM_DESELECT_LEVEL: bv8 := 0xDB

  /** The two control bytes that start every write. */
  const CONTROL_COMMAND: bv8 := 0x80
  const CONTROL_DATA: bv8 := 0x40

  /** The byte MicroPython's bytearray stores for an integer: its low eight
      bits, so -1 becomes 0xFF and 256 becomes 0. */
  function Byte(n: int): (b: bv8)
  {
    (n % 256) as bv8
  }

  /** A byte sent as an integer comes back as itself. */
  lemma ByteOfByte(b: bv8)
    ensures Byte(b as int) == b
  {
    assert b as int % 256 == b as int;
  }

  /** One i2c.writeto(addr, bytes) call. */
  datatype Transfer = Transfer(addr: int, bytes: seq<bv8>)

  /** What the controller makes of the bytes of one write. */
  datatype Message = Command(code: bv8) | Data(payload: seq<bv8>) | Unframed(raw: seq<bv8>)

  function Decode(bytes: seq<bv8>): Message
  {
    if |bytes| == 2 && bytes[0] == CONTROL_COMMAND then Command(bytes[1])
    else if |bytes| >= 1 && bytes[0] == CONTROL_DATA then Data(bytes[1..])
    else Unframed(bytes)
  }

  /** The bytes write_cmd(c) sends: the command control byte, then c. */
  function CommandBytes(c: bv8): (r: seq<bv8>)
    ensures Decode(r) == Command(c)
  {
    [CONTROL_COMMAND, c]
  }

  /** The bytes write_data(data) sends for a bytearray: the data control byte, then the data. */
  function DataBytes(data: seq<bv8>): (r: seq<bv8>)
    ensures |r| == |data| + 1 && Decode(r) == Data(data)
  {
    [CONTROL_DATA] + data
  }

  /** A write the controller understands: a command or a data write. */
  predicate Framed(t: Transfer)
  {
    !Decode(t.bytes).Unframed?
  }

  /** The writes of a list of commands sent one write_cmd each, in order. */
  function CommandWrites(addr: int, cmds: seq<bv8>): (r: seq<Transfer>)
    ensures |r| == |cmds|
    ensures forall i :: 0 <= i < |r| ==> r[i].addr == addr && Decode(r[i].bytes) == Command(cmds[i])
  {
    seq(|cmds|, i requires 0 <= i < |cmds| => Transfer(addr, CommandBytes(cmds[i])))
  }

  /** Sending two lists of commands one after the other is sending their concatenation. */
  lemma CommandWritesAppend(addr: int, a: seq<bv8>, b: seq<bv8>)
    ensures CommandWrites(addr, a + b) == CommandWrites(addr, a) + CommandWrites(addr, b)
  {
    assert forall i :: 0 <= i < |a| ==> (a + b)[i] == a[i];
    assert forall i :: |a| <= i < |a| + |b| ==> (a + b)[i] == b[i - |a|];
  }

  /** The COM pins hardware configuration argument the constructor sends. */
  function ComPins(width: int, height: int): (r: bv8)
    ensures r == 0x02 <==> (height == 32 || height == 16) && width != 64
    ensures r != 0x02 ==> r == 0x12
  {
    if (height == 32 || height == 16) && width != 64 then 0x02 else 0x12
  }

  /** The 25 bytes of the constructor's initialisation sequence; the MUX ratio
      argument is the low byte of height - 1. */
  function InitCommands(width: int, height: int): (r: seq<bv8>)
    ensures |r| == 25 && r[0] == DISPLAY_OFF && r[24] == DISPLAY_ON
    ensures r[3] == MUX_RATIO && r[4] == Byte(height - 1)
    ensures r[14] == COM_PINS_HW_CFG && r[15] == ComPins(width, height)
  {
    [DISPLAY_OFF,
     DISPLAY_CLOCK_DIV, 0x80,
     MUX_RATIO, Byte(height - 1),
     DISPLAY_OFFSET, 0x00,
     DISPLAY_START_LINE,
     CHARGE_PUMP, 0x14,
     MEMORY_ADDRESSING_MODE, 0x00,
     SEGMENT_MAP_FLIPPED,
     COM_OUTPUT_FLIPPED,
     COM_PINS_HW_CFG, ComPins(width, height),
     CONTRAST_CONTROL, 0xFF,
     PRECHARGE_PERIOD, 0xF1,
     VCOM_DESELECT_LEVEL, 0x40,
     ENTIRE_DISPLAY_ON,
     INVERSION_OFF,
     DISPLAY_ON]
  }

  /** The column window present_buf selects: w columns starting at 0, or at 32
      on displays 64 pixels wide (their RAM is centred). */
  function Columns(w: int): (r: (int, int))
    ensures r.1 - r.0 == w - 1
    ensures r.0 == (if w == 64 then 32 else 0)
  {
    var columnBeg, columnEnd := 0, w - 1;
    if w == 64 then (columnBeg + 32, columnEnd + 32) else (columnBeg, columnEnd)
  }

  /** The last page present_buf selects, (h >> 3) - 1: only whole pages are
      counted, and the shift rounds down as Dafny's division by 8 does. */
  function LastPage(h: int): (r: int)
    ensures 8 * (r + 1) <= h < 8 * (r + 2)
  {
    h / 8 - 1
  }

  /** The six commands present_buf sends before the data. */
  function WindowCommands(w: int, h: int): (r: seq<bv8>)
    ensures |r| == 6 && r[0] == COLUMN_ADDRESS && r[3] == PAGE_ADDRESS && r[4] == 0
    ensures r[1] == Byte(Columns(w).0) && r[2] == Byte(Columns(w).1) && r[5] == Byte(LastPage(h))
  {
    var (columnBeg, columnEnd) := Columns(w);
    [COLUMN_ADDRESS, Byte(columnBeg), Byte(columnEnd), PAGE_ADDRESS, 0, Byte(LastPage(h))]
  }

  /** Seven writes to addr: the six window commands in order, then buf as data. */
  predicate WindowThenData(r: seq<Transfer>, addr: int, buf: seq<bv8>, w: int, h: int)
  {
    |r| == 7 &&
    (forall i :: 0 <= i < 7 ==> r[i].addr == addr) &&
    (forall i :: 0 <= i < 6 ==> Decode(r[i].bytes) == Command(WindowCommands(w, h)[i])) &&
    Decode(r[6].bytes) == Data(buf)
  }

  /** The seven writes of present_buf(buf, w, h). */
  function PresentWrites(addr: int, buf: seq<bv8>, w: int, h: int): (r: seq<Transfer>)
    ensures WindowThenData(r, addr, buf, w, h)
  {
    CommandWrites(addr, WindowCommands(w, h)) + [Transfer(addr, DataBytes(buf))]
  }

  /** present_buf makes seven framed writes to the display's address: the six
      window commands, then the data. */
  lemma PresentWritesFramed(addr: int, buf: seq<bv8>, w: int, h: int)
    ensures var r := PresentWrites(addr, buf, w, h);
            (forall i :: 0 <= i < 7 ==> r[i].addr == addr && Framed(r[i])) &&
            (forall i :: 0 <= i < 6 ==> Decode(r[i].bytes) == Command(WindowCommands(w, h)[i])) &&
            Decode(r[6].bytes) == Data(buf)
  {
    var r := PresentWrites(addr, buf, w, h);
    var c := CommandWrites(addr, WindowCommands(w, h));
    assert forall i :: 0 <= i < 6 ==> r[i] == c[i];
  }

  /** The seven writes of present_buf, one by one. */
  lemma PresentWritesSeven(addr: int, buf: seq<bv8>, w: int, h: int)
    ensures PresentWrites(addr, buf, w, h) ==
            [Transfer(addr, CommandBytes(COLUMN_ADDRESS)), Transfer(addr, CommandBytes(Byte(Columns(w).0))),
             Transfer(addr, CommandBytes(Byte(Columns(w).1))), Transfer(addr, CommandBytes(PAGE_ADDRESS)),
             Transfer(addr, CommandBytes(0)), Transfer(addr, CommandBytes(Byte(LastPage(h)))),
             Transfer(addr, DataBytes(buf))]
  {
  }

  /** The I2C peripheral, seen through the writes asked of it. */
  class I2C {
    var log: seq<Transfer>

    constructor ()
      ensures log == []
    {
      log := [];
    }

    /** i2c.writeto(addr, bytes): one more write, nothing else changes. */
    method WriteTo(addr: int, bytes: seq<bv8>)
      modifies this
      ensures log == old(log) + [Transfer(addr, bytes)]
    {
      log := log + [Transfer(addr, bytes)];
    }
  }
}
